/** What every reachable parser state satisfies: the assertions inside
    `http_parser_execute` cannot fire and `content_length` and `index` fit their fields. */
module HttpSafety {
  import opened Bytes
  import opened HttpEvents
  import opened HttpMachine

  /** The states that assert F_CHUNKED. */
  predicate InChunks(s: State) {
    s.ChunkSizeStart? || s.ChunkSize? || s.ChunkParameters? || s.ChunkSizeAlmostDone?
    || s.ChunkData? || s.ChunkDataAlmostDone? || s.ChunkDataDone?
  }

  /** The header states the switch inside s_header_field knows. */
  predicate FieldHeaderState(h: HeaderState) {
    h.General? || h.MatchingLength? || h.MatchingEncoding? || h.MatchingUpgrade?
    || h.LengthHeader? || h.EncodingHeader? || h.UpgradeHeader?
  }

  /** How far a matcher can have got. */
  function IndexLimit(h: HeaderState): nat {
    match h
    case MatchingLength => 12
    case MatchingEncoding => 15
    case MatchingUpgrade => 5
    case MatchingChunked => 5
    case _ => 17
  }

  predicate LengthOk(s: State, h: HeaderState, length: int) {
    && -1 <= length <= INT64_MAX
    && (s.ChunkData? || s.BodyIdentity? ==> length > 0)
    && (s.ChunkDataAlmostDone? ==> length == 0)
    && (s.ChunkSize? || s.ChunkParameters? || s.ChunkSizeAlmostDone? ==> length >= 0)
    && ((s.HeaderValue? || s.HeaderAlmostDone?) && h.LengthHeader? ==> length >= 0)
  }

  predicate Sound(p: Parser) {
    && LengthOk(p.state, p.hs, p.length)
    && (InChunks(p.state) ==> p.chunked)
    && (p.state.HeaderField? ==> FieldHeaderState(p.hs))
    && p.index <= IndexLimit(p.hs)
    && (p.muted ==> p.state.HeaderValue?)
  }

  predicate SoundTurn(t: Turn) {
    !t.Fail? ==> Sound(t.p)
  }

  lemma NextMatchFits(hs: HeaderState, i: nat, c: int, name: string, full: HeaderState)
    requires i + 1 <= |name| <= 17 && IndexLimit(hs) == |name| - 2 && IndexLimit(full) == 17
    ensures var h := NextMatch(hs, i, c, name, full);
      (h == General || h == full || h == hs) && i <= IndexLimit(h)
  {
  }

  lemma NameLengths()
    ensures |CONTENT_LENGTH| == 14 && |TRANSFER_ENCODING| == 17 && |UPGRADE| == 7 && |CHUNKED| == 7
  {
  }

  /** A matcher's move, in a state whose length does not matter. */
  lemma MoveSound(p: Parser, h: HeaderState, i: nat)
    requires Sound(p) && ((p.state.HeaderField? && FieldHeaderState(h)) || (p.state.HeaderValue? && !h.LengthHeader?))
    requires i <= IndexLimit(h)
    ensures Sound(p.(index := i, hs := h))
  {
  }

  lemma NameSound(p: Parser, c: int, name: string, full: HeaderState)
    requires Sound(p) && IndexLimit(p.hs) == |name| - 2 && |name| <= 17 && IndexLimit(full) == 17
    requires (p.state.HeaderField? && FieldHeaderState(full) && FieldHeaderState(p.hs))
      || (p.state.HeaderValue? && !full.LengthHeader? && !p.hs.LengthHeader?)
    ensures Sound(Matched(p, c, name, full))
  {
    NextMatchFits(p.hs, p.index + 1, c, name, full);
    MoveSound(p, NextMatch(p.hs, p.index + 1, c, name, full), p.index + 1);
  }

  lemma AfterTokenSound(p: Parser, c: int)
    requires Sound(p) && p.state.HeaderField?
    ensures Sound(AfterToken(p, c))
  {
    NameLengths();
    match p.hs
    case MatchingLength => NameSound(p, c, CONTENT_LENGTH, LengthHeader);
    case MatchingEncoding => NameSound(p, c, TRANSFER_ENCODING, EncodingHeader);
    case MatchingUpgrade => NameSound(p, c, UPGRADE, UpgradeHeader);
    case _ => MoveSound(p, General, p.index);
  }

  lemma FieldTurnSound(p: Parser, ch: byte)
    requires Sound(p) && p.state.HeaderField?
    ensures SoundTurn(FieldTurn(p, ch))
  {
    AfterTokenSound(p, Token(ch));
  }

  lemma ChunkedSound(p: Parser, ch: byte)
    requires Sound(p) && p.state.HeaderValue? && p.hs.MatchingChunked?
    ensures Sound(Matched(p, Lower(ch), CHUNKED, ChunkedValue))
  {
    NameLengths();
    NameSound(p, Lower(ch), CHUNKED, ChunkedValue);
  }

  lemma DigitsSound(p: Parser, ch: byte, es: seq<Event>)
    requires Sound(p) && p.state.HeaderValue? && p.hs.LengthHeader?
    ensures SoundTurn(ValueByteTurn(p, ch, es))
  {
  }

  lemma PlainByteSound(p: Parser, ch: byte, es: seq<Event>)
    requires Sound(p) && p.state.HeaderValue? && !p.hs.LengthHeader? && !p.hs.MatchingChunked?
    ensures SoundTurn(ValueByteTurn(p, ch, es))
  {
  }

  lemma ValueByteTurnSound(p: Parser, ch: byte, es: seq<Event>)
    requires Sound(p) && p.state.HeaderValue?
    ensures SoundTurn(ValueByteTurn(p, ch, es))
  {
    if p.hs.MatchingChunked? {
      ChunkedSound(p, ch);
    } else if p.hs.LengthHeader? {
      DigitsSound(p, ch, es);
    } else {
      PlainByteSound(p, ch, es);
    }
  }

  lemma ValueTurnSound(p: Parser, ch: byte)
    requires Sound(p) && p.state.HeaderValue?
    ensures SoundTurn(ValueTurn(p, ch))
  {
    if !(ch == CR && p.hs != Escaped) && !(ch == LF && p.hs != Escaped) {
      ValueByteTurnSound(p, ch, ValuePiece(p, [ch]));
    }
  }

  lemma FieldStartTurnSound(p: Parser, ch: byte)
    requires Sound(p) && p.state.HeaderFieldStart?
    ensures SoundTurn(FieldStartTurn(p, ch))
  {
  }

  lemma EmptyValueSound(p: Parser, ch: byte)
    requires Sound(p) && p.state.HeaderValueStart? && (ch == CR || ch == LF)
    ensures SoundTurn(ValueStartTurn(p, ch))
  {
  }

  lemma ValueStartTurnSound(p: Parser, ch: byte)
    requires Sound(p) && p.state.HeaderValueStart?
    ensures SoundTurn(ValueStartTurn(p, ch))
  {
    if ch == CR || ch == LF { EmptyValueSound(p, ch); }
  }

  lemma LineEndTurnsSound(p: Parser, ch: byte)
    requires Sound(p)
    ensures p.state.HeaderAlmostDone? ==> SoundTurn(AlmostDoneTurn(p, ch))
    ensures p.state.HeaderValueLws? ==> SoundTurn(LwsTurn(p, ch))
  {
  }

  lemma HeadersEndTurnsSound(g: Setting, p: Parser, ch: byte)
    requires Sound(p)
    ensures p.state.HeadersAlmostDone? ==> SoundTurn(HeadersAlmostDoneTurn(g, p, ch))
    ensures p.state.HeadersDone? ==> SoundTurn(HeadersDoneTurn(g, p))
  {
  }

  lemma BodyTurnsSound(p: Parser, ch: byte)
    requires Sound(p)
    ensures p.state.BodyIdentity? ==> SoundTurn(BodyTurn(p, ch))
    ensures p.state.MessageDone? ==> SoundTurn(MessageDoneTurn(p))
    ensures p.state.ChunkData? ==> SoundTurn(ChunkDataTurn(p, ch))
  {
  }

  lemma ChunkSizeTurnsSound(p: Parser, ch: byte)
    requires Sound(p)
    ensures p.state.ChunkSizeStart? ==> SoundTurn(ChunkSizeStartTurn(p, ch))
    ensures p.state.ChunkSize? ==> SoundTurn(ChunkSizeTurn(p, ch))
    ensures p.state.ChunkSizeAlmostDone? ==> SoundTurn(ChunkSizeAlmostDoneTurn(p))
  {
  }

  /** Every turn from a sound state leads to a sound state. */
  lemma TurnSound(g: Setting, p: Parser, ch: byte)
    requires Sound(p) && !p.state.Start?
    ensures SoundTurn(TurnOf(g, p, ch))
  {
    match p.state
    case HeaderFieldStart => FieldStartTurnSound(p, ch);
    case HeaderField => FieldTurnSound(p, ch);
    case HeaderValueStart => ValueStartTurnSound(p, ch);
    case HeaderValue => ValueTurnSound(p, ch);
    case HeaderAlmostDone => LineEndTurnsSound(p, ch);
    case HeaderValueLws => LineEndTurnsSound(p, ch);
    case HeadersAlmostDone => HeadersEndTurnsSound(g, p, ch);
    case HeadersDone => HeadersEndTurnsSound(g, p, ch);
    case BodyIdentity => BodyTurnsSound(p, ch);
    case MessageDone => BodyTurnsSound(p, ch);
    case ChunkData => BodyTurnsSound(p, ch);
    case ChunkSizeStart => ChunkSizeTurnsSound(p, ch);
    case ChunkSize => ChunkSizeTurnsSound(p, ch);
    case ChunkSizeAlmostDone => ChunkSizeTurnsSound(p, ch);
    case _ =>
  }

  /** Hence every state reached from a sound one is sound: chunk states have F_CHUNKED set,
      body states a positive length, s_header_field a header state it knows, and no length
      leaves 64 bits, whatever the input. */
  lemma {:induction false} RunSound(g: Setting, p: Parser, bytes: seq<byte>)
    requires Sound(p)
    ensures Sound(Run(g, p, bytes).p)
    decreases |bytes|, Rank(p.state)
  {
    if !p.state.Start? && bytes != [] {
      TurnSound(g, p, bytes[0]);
      match TurnOf(g, p, bytes[0])
      case Take(q, es) => RunSound(g, q, bytes[1..]);
      case Again(q, es) => RunSound(g, q, bytes);
      case _ =>
    }
  }
}
