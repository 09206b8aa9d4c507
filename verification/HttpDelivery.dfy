/** Whole messages in any chopping: the header fields, the payload, one end. */
module HttpDelivery {
  import opened Bytes
  import opened Sequences
  import opened HttpEvents
  import opened HttpMachine
  import opened HttpBody
  import opened HttpHeaders
  import opened HttpSplit
  import opened HttpParser

  // ---------------------------------------------------------------- no bare CR in a section

  lemma NoBareCrBehind(a: seq<byte>, b: seq<byte>)
    requires CR !in a && NoBareCr(b)
    ensures NoBareCr(a + b)
  {
    var c := a + b;
    assert forall i :: 0 <= i < |a| ==> c[i] == a[i] && a[i] in a;
    forall i | |a| <= i < |c| - 1 && c[i] == CR ensures c[i + 1] == LF {
      assert b[i - |a|] == CR;
    }
  }

  lemma NoBareCrLine(b: seq<byte>)
    requires NoBareCr(b)
    ensures NoBareCr(CRLF + b)
  {
    var c := CRLF + b;
    forall i | 0 <= i < |c| - 1 && c[i] == CR ensures c[i + 1] == LF {
      if i >= 2 { assert b[i - 2] == CR; }
    }
  }

  lemma NoCrInLine(l: Line)
    requires IsLine(l)
    ensures CR !in l.name && CR !in l.value
  {
    assert Token(CR) == 0;
    if IsChunkedLine(l) {
      assert Lower(CR) == 45;
      assert forall i :: 0 <= i < 7 ==> CHUNKED[i] as int != 45;
    }
  }

  lemma {:induction false} FoldsNoBareCr(folds: seq<Fold>, b: seq<byte>)
    requires AreFolds(folds) && NoBareCr(b)
    ensures NoBareCr(FoldBytes(folds) + b)
    decreases |folds|
  {
    if folds == [] {
      assert [] + b == b;
    } else {
      var f, rest := folds[0], FoldBytes(folds[1..]) + b;
      FoldsNoBareCr(folds[1..], b);
      NoBareCrLine(rest);
      NoBareCrBehind(f.text, CRLF + rest);
      NoBareCrBehind(f.blank, f.text + (CRLF + rest));
      FoldBytesWith(f, FoldBytes(folds[1..]), b);
    }
  }

  lemma LineNoBareCr(l: Line, b: seq<byte>)
    requires IsLine(l) && NoBareCr(b)
    ensures NoBareCr(LineBytes(l) + b)
  {
    var rest := FoldBytes(l.folds) + b;
    LineBytesWith(l, b);
    FoldsNoBareCr(l.folds, b);
    NoCrInLine(l);
    NoBareCrLine(rest);
    NoBareCrBehind(l.value, CRLF + rest);
    NoBareCrBehind(COLON, l.value + (CRLF + rest));
    NoBareCrBehind(l.name, COLON + (l.value + (CRLF + rest)));
  }

  lemma {:induction false} SectionNoBareCr(lines: seq<Line>)
    requires AreLines(lines)
    ensures NoBareCr(Block(lines) + CRLF)
    decreases |lines|
  {
    if lines == [] {
      assert [] + CRLF == CRLF;
    } else {
      SectionNoBareCr(lines[1..]);
      LineNoBareCr(lines[0], Block(lines[1..]) + CRLF);
      Assoc(LineBytes(lines[0]), Block(lines[1..]), CRLF);
    }
  }

  // ---------------------------------------------------------------- no value, nothing silenced

  ghost predicate NoValues(es: seq<Event>) {
    forall i :: 0 <= i < |es| ==> !(es[i].Data? && es[i].kind == Value)
  }

  lemma {:induction false} MergeNoValues(acc: seq<Event>, es: seq<Event>)
    requires NoValues(acc) && NoValues(es)
    ensures !EndsInValue(Merge(acc, es))
    decreases |es|
  {
    if es != [] {
      assert NoValues(Push(acc, es[0]));
      MergeNoValues(Push(acc, es[0]), es[1..]);
    }
  }

  /** Input that reports no value silences none. */
  lemma NoValuesNeverMutes(g: Setting, p: Parser, bytes: seq<byte>)
    requires !p.muted && NoValues(Run(g, p, bytes).events)
    ensures NeverMuted(g, p, bytes)
  {
    forall n | 0 <= n <= |bytes| && Run(g, p, bytes[..n]).end.More? ensures !Run(g, p, bytes[..n]).p.muted {
      var o := Run(g, p, bytes[..n]);
      Split(bytes, n);
      RunConcat(g, p, bytes[..n], bytes[n..]);
      assert forall i :: 0 <= i < |o.events| ==> o.events[i] == Run(g, p, bytes).events[i];
      MutedAfterValue(g, p, bytes[..n], []);
      MergeNoValues([], o.events);
    }
  }

  lemma {:induction false} SinglesNoValues(bytes: seq<byte>)
    ensures NoValues(Singles(Body, bytes))
    decreases |bytes|
  {
    if bytes != [] {
      SinglesCons(Body, bytes);
      SinglesNoValues(bytes[1..]);
    }
  }

  lemma {:induction false} ChunksNoValues(chunks: seq<Chunk>)
    ensures NoValues(ChunkEvents(chunks))
    decreases |chunks|
  {
    if chunks != [] {
      ChunksNoValues(chunks[1..]);
      SinglesNoValues(chunks[0].data);
    }
  }

  /** A section without bare CR, from the start of a line. */
  lemma SectionNeverMutes(g: Setting, p: Parser, lines: seq<Line>)
    requires AreLines(lines) && p.state.HeaderFieldStart? && !p.muted
    ensures NeverMuted(g, p, Block(lines) + CRLF)
    ensures Run(g, p, Block(lines) + CRLF).end.More? ==> !Run(g, p, Block(lines) + CRLF).p.muted
  {
    var section := Block(lines) + CRLF;
    SectionNoBareCr(lines);
    NoBareCrNeverMutes(g, p, section);
    assert section[..|section|] == section;
  }

  /** Input of which the whole is a section and then input that reports no value. */
  lemma BodyNeverMutes(g: Setting, p: Parser, lines: seq<Line>, body: seq<byte>, tail: seq<Event>)
    requires AreLines(lines) && p.state.HeaderFieldStart? && !p.muted && NoValues(tail)
    requires var first := Run(g, p, Block(lines) + CRLF);
      first.end.More? ==> Run(g, p, Block(lines) + CRLF + body).events == first.events + tail
    ensures NeverMuted(g, p, Block(lines) + CRLF + body)
  {
    var section := Block(lines) + CRLF;
    var first := Run(g, p, section);
    SectionNeverMutes(g, p, lines);
    if first.end.More? {
      RunConcat(g, p, section, body);
      SameTail(first.events, Run(g, first.p, body).events, tail);
      NoValuesNeverMutes(g, first.p, body);
    }
    NeverMutedConcat(g, p, section, body);
  }

  /** The events of a section on its own. */
  lemma SectionEvents(g: Setting, lines: seq<Line>)
    requires AreLines(lines) && !g.connect && !g.noBody
    ensures var first := Run(g, NewMessage, Block(lines) + CRLF);
      first.end.More? ==> first.events == BlockEvents(lines) + [HeadersComplete]
  {
    SectionRun(g, lines, []);
    assert CRLF + [] == CRLF;
  }

  /** A message with a content length never silences a value ... */
  lemma LengthNeverMutes(g: Setting, lines: seq<Line>, body: seq<byte>, rest: seq<byte>)
    requires AreLines(lines) && !g.connect && !g.noBody
    requires !SaysChunked(lines) && SaysLength(lines, -1) == |body|
    ensures NeverMuted(g, NewMessage, Block(lines) + (CRLF + (body + rest)))
  {
    var tail := Singles(Body, body) + [MessageComplete];
    SinglesNoValues(body);
    LengthMessage(g, lines, body, rest);
    SectionEvents(g, lines);
    Assoc(Block(lines), CRLF, body + rest);
    Assoc(BlockEvents(lines), [HeadersComplete], tail);
    BodyNeverMutes(g, NewMessage, lines, body + rest, tail);
  }

  /** ... nor does a chunked one, whatever follows. */
  lemma ChunkedAndRestNeverMute(g: Setting, lines: seq<Line>, chunks: seq<Chunk>, last: Chunk, trailer: seq<Line>, rest: seq<byte>)
    requires AreLines(lines) && AreLines(trailer) && !g.connect && !g.noBody && SaysChunked(lines)
    requires forall i :: 0 <= i < |chunks| ==> Valid(chunks[i]) && chunks[i].data != []
    requires Valid(last) && last.data == []
    ensures NeverMuted(g, NewMessage, Block(lines) + (CRLF + (Chunked(chunks, last, trailer) + rest)))
  {
    var coded := Chunked(chunks, last, trailer);
    ChunkedNeverMutes(g, lines, chunks, last, trailer);
    ChunkedMessage(g, lines, chunks, last, trailer, []);
    assert coded + [] == coded;
    NeverMutedConcat(g, NewMessage, Block(lines) + (CRLF + coded), rest);
    Assoc(Block(lines), CRLF + coded, rest);
    Assoc(CRLF, coded, rest);
  }

  lemma ChunkedNeverMutes(g: Setting, lines: seq<Line>, chunks: seq<Chunk>, last: Chunk, trailer: seq<Line>)
    requires AreLines(lines) && AreLines(trailer) && !g.connect && !g.noBody && SaysChunked(lines)
    requires forall i :: 0 <= i < |chunks| ==> Valid(chunks[i]) && chunks[i].data != []
    requires Valid(last) && last.data == []
    ensures NeverMuted(g, NewMessage, Block(lines) + (CRLF + Chunked(chunks, last, trailer)))
  {
    var coded := Encode(chunks, last);
    var p := Decided(g, AfterBlock(NewMessage, lines)).(state := ChunkSizeStart);
    var before := Block(lines) + CRLF + coded;
    SectionEvents(g, lines);
    SectionRun(g, lines, coded);
    BlockEffect(NewMessage, lines);
    DecodeEncode(g, p, chunks, last, []);
    assert coded + [] == coded && Run(g, InTrailer(p), []).events == [];
    assert ChunkEvents(chunks) + [] == ChunkEvents(chunks);
    ChunksNoValues(chunks);
    Assoc(Block(lines), CRLF, coded);
    Assoc(BlockEvents(lines), [HeadersComplete], ChunkEvents(chunks));
    BodyNeverMutes(g, NewMessage, lines, coded, ChunkEvents(chunks));
    AfterBlockUnmuted(NewMessage, lines);
    SectionNeverMutes(g, InTrailer(p), trailer);
    NeverMutedConcat(g, NewMessage, before, Block(trailer) + CRLF);
    Assoc(Block(lines) + CRLF, coded, Block(trailer) + CRLF);
    Assoc(Block(lines), CRLF, Chunked(chunks, last, trailer));
  }

  lemma {:induction false} AfterBlockUnmuted(p: Parser, lines: seq<Line>)
    requires AreLines(lines) && !p.muted
    ensures !AfterBlock(p, lines).muted
    decreases |lines|
  {
    if lines != [] {
      AfterFoldsUnmuted(AfterValue(p, lines[0]), lines[0].folds);
      AfterBlockUnmuted(AfterLine(p, lines[0]).(state := HeaderFieldStart), lines[1..]);
    }
  }

  lemma {:induction false} AfterFoldsUnmuted(p: Parser, folds: seq<Fold>)
    requires AreFolds(folds) && !p.muted
    ensures !AfterFolds(p, folds).muted
    decreases |folds|
  {
    if folds != [] { AfterFoldsUnmuted(AfterText(p, folds[0].text), folds[1..]); }
  }

  /** A message with a content length, cut anywhere: the calls report the header fields,
      exactly the body and one message_complete, and the message ends where it should;
      `rest` belongs to the next one. */
  lemma LengthMessageInPieces(g: Setting, lines: seq<Line>, body: seq<byte>, rest: seq<byte>, buffers: seq<seq<byte>>)
    requires AreLines(lines) && !g.connect && !g.noBody && NonEmpty(buffers)
    requires !SaysChunked(lines) && SaysLength(lines, -1) == |body|
    requires Glued(buffers) == Block(lines) + (CRLF + (body + rest))
    ensures var o := Calls(g, NewMessage, buffers);
      && o.end == EndSaid(lines) && o.used == |Block(lines)| + 2 + |body|
      && o.events == BlockEvents(lines) + ([HeadersComplete] + (Singles(Body, body) + [MessageComplete]))
  {
    LengthMessage(g, lines, body, rest);
    LengthNeverMutes(g, lines, body, rest);
    AnyChopping(g, NewMessage, buffers);
  }

  /** The same for the chunked coding. */
  lemma ChunkedMessageInPieces(g: Setting, lines: seq<Line>, chunks: seq<Chunk>, last: Chunk, trailer: seq<Line>,
                               rest: seq<byte>, buffers: seq<seq<byte>>)
    requires AreLines(lines) && AreLines(trailer) && !g.connect && !g.noBody && SaysChunked(lines) && NonEmpty(buffers)
    requires forall i :: 0 <= i < |chunks| ==> Valid(chunks[i]) && chunks[i].data != []
    requires Valid(last) && last.data == []
    requires Glued(buffers) == Block(lines) + (CRLF + (Chunked(chunks, last, trailer) + rest))
    ensures var o := Calls(g, NewMessage, buffers);
      && o.end == EndSaid(lines) && o.used == |Block(lines)| + 2 + |Chunked(chunks, last, trailer)|
      && o.events == BlockEvents(lines) + ([HeadersComplete] + (ChunkEvents(chunks) + TrailerEvents(trailer)))
  {
    ChunkedMessage(g, lines, chunks, last, trailer, rest);
    ChunkedAndRestNeverMute(g, lines, chunks, last, trailer, rest);
    AnyChopping(g, NewMessage, buffers);
  }

  lemma SameTail(a: seq<Event>, b: seq<Event>, c: seq<Event>)
    requires a + b == a + c
    ensures b == c
  {
    assert (a + b)[|a|..] == b && (a + c)[|a|..] == c;
  }

  /** A header section reports neither body nor ends. */
  lemma {:induction false} BlockIsSilent(lines: seq<Line>)
    ensures Silent(BlockEvents(lines))
    decreases |lines|
  {
    if lines != [] {
      LineIsSilent(lines[0]);
      BlockIsSilent(lines[1..]);
      SilentTogether(LineEvents(lines[0]), BlockEvents(lines[1..]));
    }
  }

  lemma {:induction false} OtherKind(k: Kind, bytes: seq<byte>)
    requires k != Body
    ensures Gathered(Body, Singles(k, bytes)) == []
    decreases |bytes|
  {
    if bytes != [] {
      SinglesCons(k, bytes);
      OtherKind(k, bytes[1..]);
      assert Singles(k, bytes)[1..] == Singles(k, bytes[1..]);
    }
  }

  lemma PiecesAreSilent(k: Kind, bytes: seq<byte>)
    requires k != Body
    ensures Silent(Singles(k, bytes) + [Data(k, [])])
  {
    OtherKind(k, bytes);
    SinglesSilent(MessageComplete, k, bytes);
    SinglesSilent(ChunkComplete, k, bytes);
    GatheredConcat(Body, Singles(k, bytes), [Data(k, [])]);
    CountConcat(MessageComplete, Singles(k, bytes), [Data(k, [])]);
    CountConcat(ChunkComplete, Singles(k, bytes), [Data(k, [])]);
    GatheredOne(Body, Data(k, []));
    CountOne(MessageComplete, Data(k, []));
    CountOne(ChunkComplete, Data(k, []));
  }

  /** Neither body nor ends are reported. */
  ghost predicate Silent(es: seq<Event>) {
    Gathered(Body, es) == [] && Count(MessageComplete, es) == 0 && Count(ChunkComplete, es) == 0
  }

  lemma SilentTogether(a: seq<Event>, b: seq<Event>)
    requires Silent(a) && Silent(b)
    ensures Silent(a + b)
  {
    GatheredConcat(Body, a, b);
    CountConcat(MessageComplete, a, b);
    CountConcat(ChunkComplete, a, b);
  }

  lemma {:induction false} FoldsAreSilent(folds: seq<Fold>)
    ensures Silent(FoldEvents(folds))
    decreases |folds|
  {
    if folds != [] {
      GatheredOne(Body, Data(Value, [SPACE]));
      CountOne(MessageComplete, Data(Value, [SPACE]));
      CountOne(ChunkComplete, Data(Value, [SPACE]));
      PiecesAreSilent(Value, folds[0].text);
      FoldsAreSilent(folds[1..]);
      SilentTogether(PieceEvents(folds[0].text), FoldEvents(folds[1..]));
      SilentTogether([Data(Value, [SPACE])], PieceEvents(folds[0].text) + FoldEvents(folds[1..]));
    }
  }

  lemma LineIsSilent(l: Line)
    ensures Silent(LineEvents(l))
  {
    var a, b := Singles(Field, l.name) + [Data(Field, [])], PieceEvents(l.value) + FoldEvents(l.folds);
    PiecesAreSilent(Field, l.name);
    PiecesAreSilent(Value, l.value);
    FoldsAreSilent(l.folds);
    Assoc(Singles(Field, l.name), [Data(Field, [])], b);
    SilentTogether(PieceEvents(l.value), FoldEvents(l.folds));
    SilentTogether(a, b);
  }

  lemma HeadersAreSilent(lines: seq<Line>, tail: seq<Event>)
    ensures var es := BlockEvents(lines) + ([HeadersComplete] + tail);
      && Gathered(Body, es) == Gathered(Body, tail)
      && Count(MessageComplete, es) == Count(MessageComplete, tail)
      && Count(ChunkComplete, es) == Count(ChunkComplete, tail)
  {
    BlockIsSilent(lines);
    GatheredConcat(Body, BlockEvents(lines), [HeadersComplete] + tail);
    GatheredConcat(Body, [HeadersComplete], tail);
    GatheredOne(Body, HeadersComplete);
    CountConcat(MessageComplete, BlockEvents(lines), [HeadersComplete] + tail);
    CountConcat(MessageComplete, [HeadersComplete], tail);
    CountOne(MessageComplete, HeadersComplete);
    CountConcat(ChunkComplete, BlockEvents(lines), [HeadersComplete] + tail);
    CountConcat(ChunkComplete, [HeadersComplete], tail);
    CountOne(ChunkComplete, HeadersComplete);
  }

  // ---------------------------------------------------------------- the parser object

  /** The callbacks a whole message causes, up to the pieces in which data is reported. */
  lemma LogMeans(log: seq<Event>, lines: seq<Line>, tail: seq<Event>)
    requires Joined(log) == Joined(BlockEvents(lines) + ([HeadersComplete] + tail))
    ensures Gathered(Body, log) == Gathered(Body, tail)
    ensures Count(MessageComplete, log) == Count(MessageComplete, tail)
    ensures Count(ChunkComplete, log) == Count(ChunkComplete, tail)
  {
    var es := BlockEvents(lines) + ([HeadersComplete] + tail);
    SameBytes(Body, log, es);
    SameCounts(MessageComplete, log, es);
    SameCounts(ChunkComplete, log, es);
    HeadersAreSilent(lines, tail);
  }

  lemma LengthTail(body: seq<byte>)
    ensures var tail := Singles(Body, body) + [MessageComplete];
      Gathered(Body, tail) == body && Count(MessageComplete, tail) == 1
  {
    GatheredConcat(Body, Singles(Body, body), [MessageComplete]);
    CountConcat(MessageComplete, Singles(Body, body), [MessageComplete]);
    GatheredOne(Body, MessageComplete);
    CountOne(MessageComplete, MessageComplete);
    SinglesGather(Body, body);
    SinglesSilent(MessageComplete, Body, body);
    assert body + [] == body;
  }

  lemma TrailerIsSilent(trailer: seq<Line>)
    ensures var es := TrailerEvents(trailer);
      Gathered(Body, es) == [] && Count(MessageComplete, es) == 1 && Count(ChunkComplete, es) == 1
  {
    var end := [ChunkComplete, MessageComplete];
    BlockIsSilent(trailer);
    assert end == [ChunkComplete] + [MessageComplete];
    GatheredConcat(Body, BlockEvents(trailer), end);
    GatheredConcat(Body, [ChunkComplete], [MessageComplete]);
    GatheredOne(Body, ChunkComplete);
    GatheredOne(Body, MessageComplete);
    CountConcat(MessageComplete, BlockEvents(trailer), end);
    CountConcat(MessageComplete, [ChunkComplete], [MessageComplete]);
    CountConcat(ChunkComplete, BlockEvents(trailer), end);
    CountConcat(ChunkComplete, [ChunkComplete], [MessageComplete]);
    CountOne(MessageComplete, ChunkComplete);
    CountOne(MessageComplete, MessageComplete);
    CountOne(ChunkComplete, ChunkComplete);
    CountOne(ChunkComplete, MessageComplete);
  }

  lemma ChunkedTail(chunks: seq<Chunk>, trailer: seq<Line>)
    ensures var tail := ChunkEvents(chunks) + TrailerEvents(trailer);
      && Gathered(Body, tail) == Payload(chunks)
      && Count(MessageComplete, tail) == 1 && Count(ChunkComplete, tail) == |chunks| + 1
  {
    ChunkEventsPayload(chunks);
    ChunkEventsCount(MessageComplete, chunks);
    ChunkEventsCount(ChunkComplete, chunks);
    TrailerIsSilent(trailer);
    GatheredConcat(Body, ChunkEvents(chunks), TrailerEvents(trailer));
    CountConcat(MessageComplete, ChunkEvents(chunks), TrailerEvents(trailer));
    CountConcat(ChunkComplete, ChunkEvents(chunks), TrailerEvents(trailer));
    assert Payload(chunks) + [] == Payload(chunks);
  }

  /** Buffers that begin with a message, fed to the parser until it is complete.  `total` is
      where it ends; only a parser that is not paused there goes on with the bytes behind. */
  method Receive(parser: HttpParser, buffers: seq<seq<byte>>, ghost events: seq<Event>) returns (total: nat, result: Result)
    requires parser.http_errno == Ok && parser.Held() == NewMessage && parser.log == [] && NonEmpty(buffers)
    requires var o := Calls(parser.g, NewMessage, buffers); (o.end.Complete? || o.end.Upgraded?) && o.events == events
    modifies parser
    ensures parser.http_errno == parser.Finished() && parser.state.Start? && Joined(parser.log) == Joined(events)
    ensures total == Calls(parser.g, NewMessage, buffers).used
    ensures result.MessageEnds? ==> !parser.pauses && total < |Glued(buffers)|
  {
    ghost var withheld;
    total, result, withheld := parser.RecvAndParse(buffers);
    assert parser.log + [] == parser.log;
  }

  /** A parser behind a start line that is fed a message with a content length and any bytes
      behind it, in any non-empty buffers: the callbacks get the header fields, exactly the
      body, and one message_complete, and the message ends where it should. */
  method ReceiveLengthMessage(parser: HttpParser, buffers: seq<seq<byte>>, ghost lines: seq<Line>, ghost body: seq<byte>,
                              ghost rest: seq<byte>) returns (total: nat, result: Result)
    requires parser.http_errno == Ok && parser.Held() == NewMessage && parser.log == []
    requires AreLines(lines) && !parser.g.connect && !parser.g.noBody && NonEmpty(buffers)
    requires !SaysChunked(lines) && SaysLength(lines, -1) == |body|
    requires Glued(buffers) == Block(lines) + (CRLF + (body + rest))
    modifies parser
    ensures parser.http_errno == parser.Finished() && parser.state.Start?
    ensures total == |Block(lines)| + 2 + |body| && (result.MessageEnds? ==> !parser.pauses && rest != [])
    ensures Joined(parser.log) == Joined(BlockEvents(lines) + ([HeadersComplete] + (Singles(Body, body) + [MessageComplete])))
    ensures Gathered(Body, parser.log) == body && Count(MessageComplete, parser.log) == 1
  {
    ghost var tail := Singles(Body, body) + [MessageComplete];
    LengthMessageInPieces(parser.g, lines, body, rest, buffers);
    total, result := Receive(parser, buffers, BlockEvents(lines) + ([HeadersComplete] + tail));
    LogMeans(parser.log, lines, tail);
    LengthTail(body);
  }

  /** The same for a chunked message. */
  method ReceiveChunkedMessage(parser: HttpParser, buffers: seq<seq<byte>>, ghost lines: seq<Line>,
                               ghost chunks: seq<Chunk>, ghost last: Chunk, ghost trailer: seq<Line>, ghost rest: seq<byte>)
    returns (total: nat, result: Result)
    requires parser.http_errno == Ok && parser.Held() == NewMessage && parser.log == []
    requires AreLines(lines) && AreLines(trailer) && !parser.g.connect && !parser.g.noBody && NonEmpty(buffers)
    requires SaysChunked(lines)
    requires forall i :: 0 <= i < |chunks| ==> Valid(chunks[i]) && chunks[i].data != []
    requires Valid(last) && last.data == []
    requires Glued(buffers) == Block(lines) + (CRLF + (Chunked(chunks, last, trailer) + rest))
    modifies parser
    ensures parser.http_errno == parser.Finished() && parser.state.Start?
    ensures total == |Block(lines)| + 2 + |Chunked(chunks, last, trailer)|
    ensures result.MessageEnds? ==> !parser.pauses && rest != []
    ensures Joined(parser.log)
      == Joined(BlockEvents(lines) + ([HeadersComplete] + (ChunkEvents(chunks) + TrailerEvents(trailer))))
    ensures Gathered(Body, parser.log) == Payload(chunks)
    ensures Count(MessageComplete, parser.log) == 1 && Count(ChunkComplete, parser.log) == |chunks| + 1
  {
    ghost var tail := ChunkEvents(chunks) + TrailerEvents(trailer);
    ChunkedMessageInPieces(parser.g, lines, chunks, last, trailer, rest, buffers);
    total, result := Receive(parser, buffers, BlockEvents(lines) + ([HeadersComplete] + tail));
    LogMeans(parser.log, lines, tail);
    ChunkedTail(chunks, trailer);
  }
}
