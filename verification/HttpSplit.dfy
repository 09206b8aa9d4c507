/** Cutting the input into buffers: each `http_parser_execute` call sets its marks afresh, so
    the one thing a cut can change is a header value that a bare CR has silenced. */
module HttpSplit {
  import opened Bytes
  import opened Sequences
  import opened HttpEvents
  import opened HttpMachine

  /** The parser as a call finds it: the mark of a value in progress is set again. */
  function Entry(p: Parser): Parser {
    p.(muted := false)
  }

  /** A call without bytes means the end of the connection, so a buffer has some. */
  ghost predicate NonEmpty(buffers: seq<seq<byte>>) {
    forall i :: 0 <= i < |buffers| ==> buffers[i] != []
  }

  /** Successive calls, stopping when the message ends or cannot go on. */
  ghost function Calls(g: Setting, p: Parser, buffers: seq<seq<byte>>): (o: Outcome)
    requires NonEmpty(buffers)
    ensures o.end.Complete? || o.end.Upgraded? ==> o.p.state.Start?
    decreases |buffers|
  {
    if p.state.Start? then Outcome(p, [], 0, Complete)
    else if buffers == [] then Outcome(p, [], 0, More)
    else
      var first := Run(g, Entry(p), buffers[0]);
      if first.end.More? then Before(first.events, first.used, Calls(g, first.p, buffers[1..])) else first
  }

  function Glued(buffers: seq<seq<byte>>): seq<byte> {
    if buffers == [] then [] else buffers[0] + Glued(buffers[1..])
  }

  /** Outcomes that differ at most in whether a value is silenced. */
  ghost predicate Alike(a: Outcome, b: Outcome) {
    a.events == b.events && a.used == b.used && a.end == b.end && Entry(a.p) == Entry(b.p)
  }

  ghost predicate AlikeAs(a: Outcome, events: seq<Event>, used: nat, b: Outcome) {
    Alike(a, Before(events, used, b))
  }

  lemma AlikeAtFirst(all: Outcome)
    ensures AlikeAs(all, [], 0, all)
  {
    assert [] + all.events == all.events;
  }

  lemma CallsFirst(g: Setting, p: Parser, data: seq<byte>, rest: seq<seq<byte>>)
    requires data != [] && NonEmpty(rest) && NonEmpty([data] + rest) && !p.state.Start? && p == Entry(p)
    ensures var o := Run(g, p, data);
      Calls(g, p, [data] + rest) == if o.end.More? then Before(o.events, o.used, Calls(g, o.p, rest)) else o
  {
    assert ([data] + rest)[1..] == rest;
  }

  /** The next call finds its marks set. */
  lemma CallsOfEntry(g: Setting, p: Parser, buffers: seq<seq<byte>>)
    requires NonEmpty(buffers)
    ensures Alike(Calls(g, p, buffers), Calls(g, Entry(p), buffers))
  {
    assert Entry(Entry(p)) == Entry(p);
  }

  lemma AlikeThen(all: Outcome, events: seq<Event>, used: nat, o: Outcome, a: Outcome, b: Outcome)
    requires AlikeAs(all, events, used, Before(o.events, o.used, a)) && Alike(a, b)
    ensures AlikeAs(all, events + o.events, used + o.used, b)
  {
    BeforeBefore(events, used, o.events, o.used, a);
  }

  /** One call of several, `o`. */
  lemma CallsStep(g: Setting, p: Parser, data: seq<byte>, rest: seq<seq<byte>>,
                  all: Outcome, events: seq<Event>, used: nat, o: Outcome)
    requires data != [] && NonEmpty(rest) && NonEmpty([data] + rest) && !p.state.Start? && p == Entry(p) && o == Run(g, p, data)
    requires AlikeAs(all, events, used, Calls(g, p, [data] + rest))
    ensures o.end.More? ==> AlikeAs(all, events + o.events, used + o.used, Calls(g, Entry(o.p), rest))
    ensures !o.end.More? ==> AlikeAs(all, events, used, o)
  {
    CallsFirst(g, p, data, rest);
    if o.end.More? {
      CallsOfEntry(g, o.p, rest);
      AlikeThen(all, events, used, o, Calls(g, o.p, rest), Calls(g, Entry(o.p), rest));
    }
  }

  // ---------------------------------------------------------------- no bare CR

  /** Every CR is followed by LF, as far as the bytes go. */
  predicate NoBareCr(bytes: seq<byte>) {
    forall i :: 0 <= i < |bytes| - 1 && bytes[i] == CR ==> bytes[i + 1] == LF
  }

  /** What a run without bare CR passes through; `next` is what follows. */
  predicate Clean(p: Parser, next: seq<byte>) {
    && !p.muted && NoBareCr(next)
    && (p.state.HeaderAlmostDone? && next != [] ==> next[0] == LF)
  }

  /** How a turn can reach s_header_almost_done, and how it can silence a value. */
  predicate KnownEntry(p: Parser, ch: byte, t: Turn) {
    t.Take? || t.Again? ==>
      && (t.p.state.HeaderAlmostDone? ==> ch == if t.Take? then CR else LF)
      && (t.p.muted ==> p.state.HeaderAlmostDone? && ch != LF)
  }

  lemma FieldEntry(p: Parser, ch: byte)
    requires !p.muted
    ensures KnownEntry(p, ch, FieldStartTurn(p, ch))
    ensures p.state.HeaderField? ==> KnownEntry(p, ch, FieldTurn(p, ch))
  {
  }

  lemma ValueStartEntry(p: Parser, ch: byte)
    requires !p.muted && p.state.HeaderValueStart?
    ensures KnownEntry(p, ch, ValueStartTurn(p, ch))
  {
  }

  lemma ValueEntry(p: Parser, ch: byte)
    requires !p.muted && p.state.HeaderValue?
    ensures KnownEntry(p, ch, ValueTurn(p, ch))
  {
  }

  lemma LineEntry(g: Setting, p: Parser, ch: byte)
    requires !p.muted
    ensures p.state.HeaderAlmostDone? ==> KnownEntry(p, ch, AlmostDoneTurn(p, ch))
    ensures p.state.HeaderValueLws? ==> KnownEntry(p, ch, LwsTurn(p, ch))
    ensures p.state.HeadersAlmostDone? ==> KnownEntry(p, ch, HeadersAlmostDoneTurn(g, p, ch))
    ensures p.state.HeadersDone? ==> KnownEntry(p, ch, HeadersDoneTurn(g, p))
  {
  }

  lemma BodyEntry(p: Parser, ch: byte)
    requires !p.muted
    ensures p.state.BodyIdentity? ==> KnownEntry(p, ch, BodyTurn(p, ch))
    ensures p.state.MessageDone? ==> KnownEntry(p, ch, MessageDoneTurn(p))
    ensures p.state.ChunkData? ==> KnownEntry(p, ch, ChunkDataTurn(p, ch))
    ensures p.state.ChunkSizeStart? ==> KnownEntry(p, ch, ChunkSizeStartTurn(p, ch))
    ensures p.state.ChunkSize? ==> KnownEntry(p, ch, ChunkSizeTurn(p, ch))
    ensures p.state.ChunkSizeAlmostDone? ==> KnownEntry(p, ch, ChunkSizeAlmostDoneTurn(p))
  {
  }

  lemma AlmostDoneAfterCr(g: Setting, p: Parser, ch: byte)
    requires !p.state.Start? && !p.muted
    ensures KnownEntry(p, ch, TurnOf(g, p, ch))
  {
    match p.state
    case HeaderFieldStart => FieldEntry(p, ch);
    case HeaderField => FieldEntry(p, ch);
    case HeaderValueStart => ValueStartEntry(p, ch);
    case HeaderValue => ValueEntry(p, ch);
    case HeaderAlmostDone => LineEntry(g, p, ch);
    case HeaderValueLws => LineEntry(g, p, ch);
    case HeadersAlmostDone => LineEntry(g, p, ch);
    case HeadersDone => LineEntry(g, p, ch);
    case BodyIdentity => BodyEntry(p, ch);
    case MessageDone => BodyEntry(p, ch);
    case ChunkData => BodyEntry(p, ch);
    case ChunkSizeStart => BodyEntry(p, ch);
    case ChunkSize => BodyEntry(p, ch);
    case ChunkSizeAlmostDone => BodyEntry(p, ch);
    case _ =>
  }

  lemma TailClean(bytes: seq<byte>)
    requires NoBareCr(bytes) && bytes != []
    ensures NoBareCr(bytes[1..])
  {
    var tail := bytes[1..];
    forall i | 0 <= i < |tail| - 1 && tail[i] == CR ensures tail[i + 1] == LF {
      assert bytes[i + 1] == tail[i] && bytes[i + 2] == tail[i + 1];
    }
  }

  /** Without a bare CR no value is ever silenced. */
  lemma {:induction false} CleanRun(g: Setting, p: Parser, a: seq<byte>, b: seq<byte>)
    requires Clean(p, a + b)
    ensures Run(g, p, a).end.More? ==> Clean(Run(g, p, a).p, b)
    decreases |a|, Rank(p.state)
  {
    if a == [] {
      assert [] + b == b;
    } else if !p.state.Start? {
      HeadTail(a, b);
      TailClean(a + b);
      AlmostDoneAfterCr(g, p, a[0]);
      match TurnOf(g, p, a[0])
      case Take(q, es) =>
        if q.state.HeaderAlmostDone? && a[1..] + b != [] { assert (a + b)[1] == (a[1..] + b)[0]; }
        CleanRun(g, q, a[1..], b);
      case Again(q, es) =>
        CleanRun(g, q, a, b);
      case _ =>
    }
  }

  /** At no point of the input is a value silenced. */
  ghost predicate NeverMuted(g: Setting, p: Parser, bytes: seq<byte>) {
    forall n :: 0 <= n <= |bytes| ==> Run(g, p, bytes[..n]).end.More? ==> !Run(g, p, bytes[..n]).p.muted
  }

  lemma NoBareCrNeverMutes(g: Setting, p: Parser, bytes: seq<byte>)
    requires Clean(p, bytes)
    ensures NeverMuted(g, p, bytes)
  {
    forall n | 0 <= n <= |bytes| && Run(g, p, bytes[..n]).end.More? ensures !Run(g, p, bytes[..n]).p.muted {
      Split(bytes, n);
      CleanRun(g, p, bytes[..n], bytes[n..]);
    }
  }

  /** Silence can only come from one part or the other. */
  lemma NeverMutedConcat(g: Setting, p: Parser, a: seq<byte>, b: seq<byte>)
    requires NeverMuted(g, p, a)
    requires Run(g, p, a).end.More? ==> NeverMuted(g, Run(g, p, a).p, b)
    ensures NeverMuted(g, p, a + b)
  {
    var bytes := a + b;
    forall n | 0 <= n <= |bytes| && Run(g, p, bytes[..n]).end.More? ensures !Run(g, p, bytes[..n]).p.muted {
      if n <= |a| {
        assert bytes[..n] == a[..n];
      } else {
        assert bytes[..n] == a + b[..n - |a|];
        RunConcat(g, p, a, b[..n - |a|]);
      }
    }
  }

  lemma NeverMutedLater(g: Setting, p: Parser, a: seq<byte>, b: seq<byte>)
    requires NeverMuted(g, p, a + b) && Run(g, p, a).end.More?
    ensures !Run(g, p, a).p.muted && NeverMuted(g, Run(g, p, a).p, b)
  {
    var q := Run(g, p, a).p;
    assert (a + b)[..|a|] == a;
    forall n | 0 <= n <= |b| && Run(g, q, b[..n]).end.More? ensures !Run(g, q, b[..n]).p.muted {
      assert (a + b)[..|a| + n] == a + b[..n];
      RunConcat(g, p, a, b[..n]);
    }
  }

  /** However the input is cut into buffers, the calls together do what one call on all of it
      does: same end in the same place, same state, same callbacks up to the pieces in which
      data is reported. */
  lemma {:induction false} AnyChopping(g: Setting, p: Parser, buffers: seq<seq<byte>>)
    requires !p.muted && NonEmpty(buffers) && NeverMuted(g, p, Glued(buffers))
    ensures Calls(g, p, buffers) == Run(g, p, Glued(buffers))
    decreases |buffers|
  {
    if !p.state.Start? && buffers != [] {
      var a, b := buffers[0], Glued(buffers[1..]);
      assert Entry(p) == p;
      RunConcat(g, p, a, b);
      if Run(g, p, a).end.More? {
        NeverMutedLater(g, p, a, b);
        AnyChopping(g, Run(g, p, a).p, buffers[1..]);
      }
    }
  }

  // ---------------------------------------------------------------- exactly when a cut shows

  /** The next byte is reported as part of the value. */
  predicate TakesValue(p: Parser, ch: byte) {
    p.state.HeaderValue? && ValueTurn(p, ch).Take? && ValueTurn(p, ch).p.state.HeaderValue?
  }

  lemma UnmutedQuoting(p: Parser, ch: byte, es: seq<Event>)
    requires p.hs.General? || p.hs.Quoted? || p.hs.Escaped?
    ensures ValueByteTurn(Entry(p), ch, es) == Take(Entry(ValueByteTurn(p, ch, []).p), es)
  {
  }

  lemma UnmutedLength(p: Parser, ch: byte, es: seq<Event>)
    requires p.hs.LengthHeader?
    ensures var t := ValueByteTurn(p, ch, []);
      ValueByteTurn(Entry(p), ch, es) == if t.Take? then Take(Entry(t.p), es) else t
  {
  }

  lemma UnmutedMatch(p: Parser, c: int)
    ensures Matched(Entry(p), c, CHUNKED, ChunkedValue) == Entry(Matched(p, c, CHUNKED, ChunkedValue))
  {
  }

  lemma UnmutedByte(p: Parser, ch: byte, es: seq<Event>)
    requires p.state.HeaderValue?
    ensures var t, u := ValueByteTurn(p, ch, []), ValueByteTurn(Entry(p), ch, es);
      u == if t.Take? then Take(Entry(t.p), es) else t
  {
    match p.hs
    case General => UnmutedQuoting(p, ch, es);
    case Quoted => UnmutedQuoting(p, ch, es);
    case Escaped => UnmutedQuoting(p, ch, es);
    case LengthHeader => UnmutedLength(p, ch, es);
    case MatchingChunked => UnmutedMatch(p, Lower(ch));
    case _ => UnmutedOther(p, ch, es);
  }

  lemma UnmutedOther(p: Parser, ch: byte, es: seq<Event>)
    requires !p.hs.General? && !p.hs.Quoted? && !p.hs.Escaped? && !p.hs.LengthHeader? && !p.hs.MatchingChunked?
    ensures var t, u := ValueByteTurn(p, ch, []), ValueByteTurn(Entry(p), ch, es);
      u == if t.Take? then Take(Entry(t.p), es) else t
  {
  }

  /** How a silenced value and one that is reported again differ over one byte. */
  lemma UnmutedTurn(g: Setting, p: Parser, ch: byte)
    requires p.state.HeaderValue? && p.muted
    ensures var t, u := TurnOf(g, p, ch), TurnOf(g, Entry(p), ch);
      && (TakesValue(p, ch) ==>
            t == Take(t.p, []) && t.p.state.HeaderValue? && t.p.muted && u == Take(Entry(t.p), [Data(Value, [ch])]))
      && (!TakesValue(p, ch) && (t.Take? || t.Again?) ==>
            t.events == [] && !t.p.muted && u == (if t.Take? then Take(t.p, [Data(Value, [])]) else Again(t.p, [Data(Value, [])])))
      && (t.Fail? ==> u == t) && !t.Leave?
  {
    UnmutedByte(p, ch, [Data(Value, [ch])]);
  }

  /** Both go the same way, and the one that is reported again reports more exactly when its
      first byte is a value byte. */
  lemma {:induction false} Unmuted(g: Setting, p: Parser, bytes: seq<byte>)
    requires p.state.HeaderValue? && p.muted
    ensures var o, u := Run(g, p, bytes), Run(g, Entry(p), bytes);
      && u.used == o.used && u.end == o.end && Entry(u.p) == Entry(o.p)
      && |Gathered(Value, o.events)| <= |Gathered(Value, u.events)|
      && (bytes != [] && TakesValue(p, bytes[0]) ==> |Gathered(Value, o.events)| < |Gathered(Value, u.events)|)
      && (!(bytes != [] && TakesValue(p, bytes[0])) ==> u.events == o.events || u.events == [Data(Value, [])] + o.events)
    decreases |bytes|
  {
    if bytes != [] {
      var ch := bytes[0];
      var t := TurnOf(g, p, ch);
      UnmutedTurn(g, p, ch);
      if TakesValue(p, ch) {
        Unmuted(g, t.p, bytes[1..]);
        OneMoreValue([ch], Run(g, t.p, bytes[1..]).events, Run(g, Entry(t.p), bytes[1..]).events);
      } else if t.Take? || t.Again? {
        var o := Run(g, t.p, if t.Take? then bytes[1..] else bytes);
        OneMoreValue([], o.events, o.events);
      }
    }
  }

  /** One more callback with value bytes, against none. */
  lemma OneMoreValue(bytes: seq<byte>, o: seq<Event>, u: seq<Event>)
    requires |Gathered(Value, o)| <= |Gathered(Value, u)|
    ensures [] + o == o
    ensures |Gathered(Value, [] + o)| + |bytes| <= |Gathered(Value, [Data(Value, bytes)] + u)|
  {
    assert [] + o == o;
    GatheredConcat(Value, [Data(Value, bytes)], u);
    GatheredOne(Value, Data(Value, bytes));
  }

  // ---------------------------------------------------------------- a cut in general

  predicate EndsInValue(es: seq<Event>) {
    es != [] && es[|es| - 1].Data? && es[|es| - 1].kind == Value
  }

  lemma ValueEndsInValue(acc: seq<Event>, bytes: seq<byte>)
    ensures EndsInValue(Merge(acc, [Data(Value, bytes)]))
  {
    MergeOne(acc, Data(Value, bytes));
  }

  lemma NothingMerged(acc: seq<Event>)
    requires EndsInValue(acc)
    ensures Push(acc, Data(Value, [])) == acc
  {
    assert acc[|acc| - 1].bytes + [] == acc[|acc| - 1].bytes;
  }

  /** A turn that leaves the value silenced. */
  lemma MutedTurn(g: Setting, p: Parser, ch: byte)
    requires !p.state.Start? && (p.muted ==> p.state.HeaderValue?)
    ensures var t := TurnOf(g, p, ch);
      (t.Take? || t.Again?) && t.p.muted ==>
        t.p.state.HeaderValue? && (if p.muted then t.events == [] else t.events == [Data(Value, [SPACE])])
  {
    if p.muted { UnmutedTurn(g, p, ch); } else { AlmostDoneAfterCr(g, p, ch); }
  }

  /** While a value is silenced, the last callback was one for a value. */
  lemma {:induction false} MutedAfterValue(g: Setting, p: Parser, bytes: seq<byte>, acc: seq<Event>)
    requires p.muted ==> p.state.HeaderValue? && EndsInValue(acc)
    ensures var o := Run(g, p, bytes);
      o.end.More? && o.p.muted ==> o.p.state.HeaderValue? && EndsInValue(Merge(acc, o.events))
    decreases |bytes|, Rank(p.state)
  {
    if !p.state.Start? && bytes != [] {
      MutedTurn(g, p, bytes[0]);
      match TurnOf(g, p, bytes[0])
      case Take(q, es) =>
        ValueEndsInValue(acc, [SPACE]);
        MutedAfterValue(g, q, bytes[1..], Merge(acc, es));
        MergeConcat(acc, es, Run(g, q, bytes[1..]).events);
      case Again(q, es) =>
        ValueEndsInValue(acc, [SPACE]);
        MutedAfterValue(g, q, bytes, Merge(acc, es));
        MergeConcat(acc, es, Run(g, q, bytes).events);
      case _ =>
    }
  }

  /** A cut anywhere, bare CRs or not: the two calls consume the same bytes, end the same way
      in the same state, and report the same, except exactly when the cut falls behind a
      bare CR in a header value and the next byte belongs to that value. */
  lemma CutShowsExactly(g: Setting, p: Parser, a: seq<byte>, b: seq<byte>)
    requires !p.muted && Run(g, p, a).end.More?
    ensures var first := Run(g, p, a);
      var second, whole := Run(g, Entry(first.p), b), Run(g, p, a + b);
      && whole.used == |a| + second.used && whole.end == second.end && Entry(whole.p) == Entry(second.p)
      && (Joined(first.events + second.events) == Joined(whole.events)
          <==> !(first.p.muted && b != [] && TakesValue(first.p, b[0])))
  {
    var first := Run(g, p, a);
    var second, third := Run(g, Entry(first.p), b), Run(g, first.p, b);
    RunConcat(g, p, a, b);
    if first.p.muted {
      MutedAfterValue(g, p, a, []);
      Unmuted(g, first.p, b);
      if b != [] && TakesValue(first.p, b[0]) {
        MoreValueShows(first.events, second.events, third.events);
      } else {
        MergeConcat([], first.events, second.events);
        MergeConcat([], first.events, third.events);
        MergeConcat(Joined(first.events), [Data(Value, [])], third.events);
        MergeOne(Joined(first.events), Data(Value, []));
        NothingMerged(Joined(first.events));
      }
    }
  }

  lemma MoreValueShows(a: seq<Event>, b: seq<Event>, c: seq<Event>)
    requires |Gathered(Value, c)| < |Gathered(Value, b)|
    ensures Joined(a + b) != Joined(a + c)
  {
    GatheredConcat(Value, a, b);
    GatheredConcat(Value, a, c);
    if Joined(a + b) == Joined(a + c) { SameBytes(Value, a + b, a + c); }
  }

  /** It does happen: inside a value, "CR b" in one buffer and "c" in the next report the "c",
      which one buffer with all three bytes does not. */
  lemma CutCanShow(g: Setting)
    ensures var p := Parser(HeaderValue, General, 0, false, false, false, false, -1, false, false);
      var a, b := [CR, 98], [99];
      var first := Run(g, p, a);
      first.end.More? && Joined(first.events + Run(g, Entry(first.p), b).events) != Joined(Run(g, p, a + b).events)
  {
    var p := Parser(HeaderValue, General, 0, false, false, false, false, -1, false, false);
    var q, r := p.(state := HeaderAlmostDone), p.(muted := true);
    var a: seq<byte>, b: seq<byte> := [CR, 98], [99];
    assert a[1..] == [98] && a[1..][1..] == [];
    assert TurnOf(g, p, CR) == Take(q, [Data(Value, [])]);
    assert TurnOf(g, q, 98) == Take(r, [Data(Value, [SPACE])]);
    assert Run(g, q, a[1..]) == Before([Data(Value, [SPACE])], 1, Run(g, r, []));
    assert Run(g, p, a) == Before([Data(Value, [])], 1, Run(g, q, a[1..]));
    assert TakesValue(r, b[0]);
    CutShowsExactly(g, p, a, b);
  }
}
