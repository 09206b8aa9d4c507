/** Message bodies: Content-Length framing and the chunked coding of RFC 7230, section 4.1. */
module HttpBody {
  import opened Bytes
  import opened Sequences
  import opened HttpChars
  import opened HttpEvents
  import opened HttpMachine

  // ---------------------------------------------------------------- runs of body bytes

  /** A turn on the first byte of a buffer. */
  lemma RunTake(g: Setting, p: Parser, bytes: seq<byte>, q: Parser, es: seq<Event>)
    requires !p.state.Start? && bytes != [] && TurnOf(g, p, bytes[0]) == Take(q, es)
    ensures Run(g, p, bytes) == Before(es, 1, Run(g, q, bytes[1..]))
  {
  }

  lemma RunAgain(g: Setting, p: Parser, bytes: seq<byte>, q: Parser, es: seq<Event>)
    requires !p.state.Start? && bytes != [] && TurnOf(g, p, bytes[0]) == Again(q, es)
    ensures Run(g, p, bytes) == Before(es, 0, Run(g, q, bytes))
  {
  }

  /** A turn and what follows it. */
  lemma TakeThen(g: Setting, p: Parser, bytes: seq<byte>, q: Parser, es: seq<Event>, es2: seq<Event>, n: nat, o: Outcome)
    requires !p.state.Start? && bytes != [] && TurnOf(g, p, bytes[0]) == Take(q, es)
    requires Run(g, q, bytes[1..]) == Before(es2, n, o)
    ensures Run(g, p, bytes) == Before(es + es2, 1 + n, o)
  {
    RunTake(g, p, bytes, q, es);
    BeforeBefore(es, 1, es2, n, o);
  }

  /** A turn that reports nothing. */
  lemma SkipThen(g: Setting, p: Parser, bytes: seq<byte>, q: Parser, es: seq<Event>, n: nat, o: Outcome)
    requires !p.state.Start? && bytes != [] && TurnOf(g, p, bytes[0]) == Take(q, [])
    requires Run(g, q, bytes[1..]) == Before(es, n, o)
    ensures Run(g, p, bytes) == Before(es, 1 + n, o)
  {
    TakeThen(g, p, bytes, q, [], es, n, o);
    assert [] + es == es;
  }

  lemma SkipSkip(m: nat, n: nat, o: Outcome)
    ensures Before([], m, Before([], n, o)) == Before([], m + n, o)
  {
    assert [] + ([] + o.events) == [] + o.events;
  }

  lemma RunNothing(g: Setting, p: Parser, rest: seq<byte>)
    ensures [] + rest == rest && Run(g, p, rest) == Before([], 0, Run(g, p, rest))
  {
    assert [] + Run(g, p, rest).events == Run(g, p, rest).events;
  }

  /** The parser behind `n` bytes of chunk data. */
  function BehindData(p: Parser, n: nat): Parser {
    p.(length := p.length - n, state := if n == p.length then ChunkDataAlmostDone else ChunkData)
  }

  lemma ChunkDataByte(g: Setting, p: Parser, ch: byte)
    requires p.state.ChunkData?
    ensures TurnOf(g, p, ch) == Take(BehindData(p, 1), [Data(Body, [ch])])
  {
  }

  lemma SinglesCons(k: Kind, bytes: seq<byte>)
    requires bytes != []
    ensures Singles(k, bytes) == [Data(k, [bytes[0]])] + Singles(k, bytes[1..])
  {
    assert bytes[..1] == [bytes[0]];
  }

  /** Chunk data, as much of it as there is. */
  lemma {:induction false} ChunkDataRun(g: Setting, p: Parser, data: seq<byte>, rest: seq<byte>)
    requires p.state.ChunkData? && 0 < |data| <= p.length
    ensures Run(g, p, data + rest) == Before(Singles(Body, data), |data|, Run(g, BehindData(p, |data|), rest))
    decreases |data|
  {
    var next := BehindData(p, 1);
    if |data| > 1 {
      ChunkDataRun(g, next, data[1..], rest);
      BehindMore(p, |data| - 1);
    } else {
      assert data[1..] == [];
      RunNothing(g, next, rest);
    }
    ChunkDataStep(g, p, data, rest, Run(g, BehindData(p, |data|), rest));
  }

  lemma BehindMore(p: Parser, n: nat)
    requires p.state.ChunkData? && 0 < n && n + 1 <= p.length
    ensures BehindData(p, 1).state.ChunkData? && BehindData(BehindData(p, 1), n) == BehindData(p, n + 1)
  {
  }

  lemma ChunkDataStep(g: Setting, p: Parser, data: seq<byte>, rest: seq<byte>, end: Outcome)
    requires p.state.ChunkData? && data != []
    requires Run(g, BehindData(p, 1), data[1..] + rest) == Before(Singles(Body, data[1..]), |data| - 1, end)
    ensures Run(g, p, data + rest) == Before(Singles(Body, data), |data|, end)
  {
    HeadTail(data, rest);
    ChunkDataByte(g, p, data[0]);
    SinglesCons(Body, data);
    TakeThen(g, p, data + rest, BehindData(p, 1), [Data(Body, [data[0]])], Singles(Body, data[1..]), |data| - 1, end);
  }

  /** The same for a Content-Length body, but not its last byte. */
  lemma {:induction false} BodyRun(g: Setting, p: Parser, data: seq<byte>, rest: seq<byte>)
    requires p.state.BodyIdentity? && |data| < p.length
    ensures Run(g, p, data + rest) == Before(Singles(Body, data), |data|, Run(g, Left(p, |data|), rest))
    decreases |data|
  {
    if data == [] {
      RunNothing(g, p, rest);
      LeftLeft(p, 0, 0);
    } else {
      BodyRun(g, Left(p, 1), data[1..], rest);
      LeftLeft(p, 1, |data| - 1);
      BodyStep(g, p, data, rest, Run(g, Left(p, |data|), rest));
    }
  }

  lemma BodyStep(g: Setting, p: Parser, data: seq<byte>, rest: seq<byte>, end: Outcome)
    requires p.state.BodyIdentity? && p.length > 1 && data != []
    requires Run(g, Left(p, 1), data[1..] + rest) == Before(Singles(Body, data[1..]), |data| - 1, end)
    ensures Run(g, p, data + rest) == Before(Singles(Body, data), |data|, end)
  {
    HeadTail(data, rest);
    IdentityByte(g, p, data[0]);
    SinglesCons(Body, data);
    TakeThen(g, p, data + rest, Left(p, 1), [Data(Body, [data[0]])], Singles(Body, data[1..]), |data| - 1, end);
  }

  /** The parser behind `n` bytes of a body that is not over. */
  function Left(p: Parser, n: nat): Parser {
    p.(length := p.length - n)
  }

  lemma LeftLeft(p: Parser, m: nat, n: nat)
    ensures Left(Left(p, m), n) == Left(p, m + n) && Left(p, 0) == p
  {
  }

  lemma IdentityByte(g: Setting, p: Parser, ch: byte)
    requires p.state.BodyIdentity? && p.length > 1
    ensures TurnOf(g, p, ch) == Take(Left(p, 1), [Data(Body, [ch])])
  {
  }

  function EndOf(p: Parser): End {
    if p.upgrade then Upgraded else Complete
  }

  /** What a run reports when the message ends with the present byte. */
  lemma RunMessageDone(g: Setting, p: Parser, bytes: seq<byte>)
    requires p.state.MessageDone? && bytes != []
    ensures Run(g, p, bytes) == Outcome(p.(state := Start), [MessageComplete], 1, EndOf(p))
  {
    if !p.upgrade {
      RunTake(g, p, bytes, p.(state := Start), [MessageComplete]);
      assert [MessageComplete] + [] == [MessageComplete];
    }
  }

  /** A Content-Length body: exactly `length` bytes are the body, and the message ends with
      the last of them. */
  lemma IdentityBody(g: Setting, p: Parser, body: seq<byte>, rest: seq<byte>)
    requires p.state.BodyIdentity? && |body| == p.length > 0
    ensures Run(g, p, body + rest) ==
      Outcome(p.(state := Start, length := 0), Singles(Body, body) + [MessageComplete], |body|, EndOf(p))
  {
    var init, last := body[..|body| - 1], body[|body| - 1];
    var tail := [last] + rest;
    assert body + rest == init + tail;
    BodyRun(g, p, init, tail);
    LastByteRun(g, Left(p, |init|), last, rest);
    SinglesSnoc(Body, init, last);
    assert init + [last] == body;
    Assoc(Singles(Body, init), [Data(Body, [last])], [MessageComplete]);
  }

  /** The last byte of a body. */
  lemma LastByteRun(g: Setting, q: Parser, last: byte, rest: seq<byte>)
    requires q.state.BodyIdentity? && q.length == 1
    ensures Run(g, q, [last] + rest) ==
      Outcome(q.(state := Start, length := 0), [Data(Body, [last])] + [MessageComplete], 1, EndOf(q))
  {
    var r := q.(length := 0, state := MessageDone);
    assert TurnOf(g, q, last) == Again(r, [Data(Body, [last])]);
    RunAgain(g, q, [last] + rest, r, [Data(Body, [last])]);
    RunMessageDone(g, r, [last] + rest);
  }

  lemma {:induction false} SinglesSnoc(k: Kind, bytes: seq<byte>, b: byte)
    ensures Singles(k, bytes + [b]) == Singles(k, bytes) + [Data(k, [b])]
    decreases |bytes|
  {
    if bytes == [] {
      assert [] + [b] == [b] && [b][..1] == [b] && [b][1..] == [];
    } else {
      HeadTail(bytes, [b]);
      SinglesSnoc(k, bytes[1..], b);
      assert (bytes + [b])[..1] == bytes[..1];
      Assoc([Data(k, bytes[..1])], Singles(k, bytes[1..]), [Data(k, [b])]);
    }
  }

  // ---------------------------------------------------------------- chunk sizes

  lemma {:induction false} HexGrows(v: nat, digits: seq<byte>)
    requires AreHexDigits(digits)
    ensures v <= HexFrom(v, digits)
    decreases |digits|
  {
    if digits != [] { HexGrows(v * 16 + HexValue(digits[0]), digits[1..]); }
  }

  /** The overflow test of s_chunk_size refuses a digit exactly when the number would leave
      64 bits. */
  lemma OverflowTestExact(v: nat, d: int)
    requires 0 <= d < 16
    ensures v > (INT64_MAX - d) / 16 <==> v * 16 + d > INT64_MAX
  {
  }

  /** A string of hex digits of any length is read exactly, or refused as too large exactly
      when its value exceeds 2^63 - 1; leading zeros do not matter. */
  lemma {:induction false} DigitsRun(g: Setting, p: Parser, digits: seq<byte>, rest: seq<byte>)
    requires p.state.ChunkSize? && 0 <= p.length <= INT64_MAX
    requires AreHexDigits(digits)
    ensures var v := HexFrom(p.length, digits);
      if v < 0x8000_0000_0000_0000 then Run(g, p, digits + rest) == Before([], |digits|, Run(g, p.(length := v), rest))
      else Run(g, p, digits + rest).end == Failed(HugeChunkSize)
    decreases |digits|
  {
    if digits == [] {
      RunNothing(g, p, rest);
    } else {
      var n, v := p.length * 16 + HexValue(digits[0]), HexFrom(p.length, digits);
      HexNext(p.length, digits);
      if n <= INT64_MAX { DigitsRun(g, p.(length := n), digits[1..], rest); }
      DigitThen(g, p, digits, rest, n, v, Run(g, p.(length := v), rest));
    }
  }

  lemma HexNext(v: nat, digits: seq<byte>)
    requires digits != [] && AreHexDigits(digits)
    ensures var n := v * 16 + HexValue(digits[0]); HexFrom(v, digits) == HexFrom(n, digits[1..]) && n <= HexFrom(v, digits)
  {
    HexGrows(v * 16 + HexValue(digits[0]), digits[1..]);
  }

  /** The first digit, when it is known what the others do. */
  lemma DigitThen(g: Setting, p: Parser, digits: seq<byte>, rest: seq<byte>, n: nat, v: nat, end: Outcome)
    requires p.state.ChunkSize? && 0 <= p.length <= INT64_MAX && digits != [] && HexValue(digits[0]) >= 0
    requires n == p.length * 16 + HexValue(digits[0]) <= v
    requires v <= INT64_MAX ==> Run(g, p.(length := n), digits[1..] + rest) == Before([], |digits| - 1, end)
    requires n <= INT64_MAX < v ==> Run(g, p.(length := n), digits[1..] + rest).end == Failed(HugeChunkSize)
    ensures var o := Run(g, p, digits + rest);
      if v <= INT64_MAX then o == Before([], |digits|, end) else o.end == Failed(HugeChunkSize)
  {
    var next := p.(length := n);
    HeadTail(digits, rest);
    SizeDigit(g, p, digits[0]);
    if n <= INT64_MAX {
      RunTake(g, p, digits + rest, next, []);
      BeforeNothing(1, |digits| - 1, end);
    }
  }

  lemma BeforeNothing(m: nat, n: nat, o: Outcome)
    ensures Before([], m, Before([], n, o)) == Before([], m + n, o)
  {
    var none: seq<Event> := [];
    assert none + none == none;
    BeforeBefore([], m, [], n, o);
  }

  lemma SizeDigit(g: Setting, p: Parser, ch: byte)
    requires p.state.ChunkSize? && 0 <= p.length <= INT64_MAX && HexValue(ch) >= 0
    ensures var next := p.length * 16 + HexValue(ch);
      TurnOf(g, p, ch) == if next <= INT64_MAX then Take(p.(length := next), []) else Fail(HugeChunkSize)
  {
    OverflowTestExact(p.length, HexValue(ch));
  }

  /** A chunk extension is skipped. */
  lemma {:induction false} ParametersRun(g: Setting, p: Parser, ext: seq<byte>, rest: seq<byte>)
    requires p.state.ChunkParameters? && CR !in ext
    ensures Run(g, p, ext + rest) == Before([], |ext|, Run(g, p, rest))
    decreases |ext|
  {
    if ext == [] {
      RunNothing(g, p, rest);
    } else {
      HeadTail(ext, rest);
      ParametersRun(g, p, ext[1..], rest);
      SkipThen(g, p, ext + rest, p, [], |ext| - 1, Run(g, p, rest));
    }
  }

  // ---------------------------------------------------------------- the chunked coding

  /** A chunk as written: size in hex digits, extension, data. */
  datatype Chunk = Chunk(size: seq<byte>, ext: seq<byte>, data: seq<byte>)

  predicate Extension(ext: seq<byte>) {
    ext == [] || ((ext[0] == 59 || ext[0] == 32) && 13 !in ext)
  }

  /** The size is written in any number of digits, either case. */
  ghost predicate Valid(c: Chunk) {
    && c.size != [] && AreHexDigits(c.size)
    && HexFrom(0, c.size) == |c.data| < 0x8000_0000_0000_0000
    && Extension(c.ext)
  }

  const CRLF: seq<byte> := [13, 10]

  function SizeLine(c: Chunk): seq<byte> {
    c.size + (c.ext + CRLF)
  }

  /** Chunks with their data; `last` has none.  The trailer section follows. */
  function Encode(chunks: seq<Chunk>, last: Chunk): seq<byte> {
    if chunks == [] then SizeLine(last)
    else SizeLine(chunks[0]) + (chunks[0].data + (CRLF + Encode(chunks[1..], last)))
  }

  function Payload(chunks: seq<Chunk>): seq<byte> {
    if chunks == [] then [] else chunks[0].data + Payload(chunks[1..])
  }

  /** The callbacks they cause. */
  function ChunkEvents(chunks: seq<Chunk>): seq<Event> {
    if chunks == [] then [ChunkHeader(0)]
    else [ChunkHeader(|chunks[0].data|)] + (Singles(Body, chunks[0].data) + ([ChunkComplete] + ChunkEvents(chunks[1..])))
  }

  lemma LineEndBytes(rest: seq<byte>)
    ensures var tail := CRLF + rest;
      tail[0] == CR && tail[1..] == [LF] + rest && ([LF] + rest)[0] == LF && ([LF] + rest)[1..] == rest
  {
  }

  /** Behind the size digits: an extension or none, then the line end. */
  lemma LineEnd(g: Setting, p: Parser, ext: seq<byte>, tail: seq<byte>, end: Outcome)
    requires p.state.ChunkSize? && Extension(ext) && tail != [] && tail[0] == CR
    requires end == Run(g, p.(state := ChunkSizeAlmostDone), tail[1..])
    ensures Run(g, p, ext + tail) == Before([], |ext| + 1, end)
  {
    if ext == [] {
      RunNothing(g, p, tail);
      RunNothing(g, p.(state := ChunkSizeAlmostDone), tail[1..]);
      LineEndTurns(g, p);
      SkipThen(g, p, tail, p.(state := ChunkSizeAlmostDone), [], 0, end);
    } else {
      HeadTail(ext, tail);
      ExtensionTurn(g, p, ext[0]);
      ExtensionEnd(g, p.(state := ChunkParameters), ext[1..], tail, end);
      SkipThen(g, p, ext + tail, p.(state := ChunkParameters), [], |ext|, end);
    }
  }

  lemma ExtensionEnd(g: Setting, r: Parser, ext: seq<byte>, tail: seq<byte>, end: Outcome)
    requires r.state.ChunkParameters? && CR !in ext && tail != [] && tail[0] == CR
    requires end == Run(g, r.(state := ChunkSizeAlmostDone), tail[1..])
    ensures Run(g, r, ext + tail) == Before([], |ext| + 1, end)
  {
    var q := r.(state := ChunkSizeAlmostDone);
    ParametersRun(g, r, ext, tail);
    RunNothing(g, q, tail[1..]);
    ParametersEnd(g, r);
    SkipThen(g, r, tail, q, [], 0, end);
    SkipSkip(|ext|, 1, end);
  }

  lemma LineEndTurns(g: Setting, p: Parser)
    requires p.state.ChunkSize?
    ensures TurnOf(g, p, CR) == Take(p.(state := ChunkSizeAlmostDone), [])
  {
  }

  lemma ParametersEnd(g: Setting, p: Parser)
    requires p.state.ChunkParameters?
    ensures TurnOf(g, p, CR) == Take(p.(state := ChunkSizeAlmostDone), [])
  {
  }

  lemma ExtensionTurn(g: Setting, p: Parser, ch: byte)
    requires p.state.ChunkSize? && (ch == ';' as int || ch == SPACE)
    ensures TurnOf(g, p, ch) == Take(p.(state := ChunkParameters), [])
  {
  }

  /** A whole size line. */
  lemma SizeLineRun(g: Setting, p: Parser, c: Chunk, rest: seq<byte>)
    requires p.state.ChunkSizeStart? && Valid(c)
    ensures var q := p.(length := |c.data|, state := ChunkSizeAlmostDone);
      Run(g, p, SizeLine(c) + rest) == Before([], |SizeLine(c)| - 1, Run(g, q, [LF] + rest))
  {
    var more, line := c.size[1..], CRLF + rest;
    var p1 := p.(state := ChunkSize, length := HexValue(c.size[0]));
    var q := p.(length := |c.data|, state := ChunkSizeAlmostDone);
    var end := Run(g, q, [LF] + rest);
    SizeLineBytes(c, rest);
    LineEndBytes(rest);
    LineEnd(g, p1.(length := |c.data|), c.ext, line, end);
    DigitsRead(g, p1, more, c.ext + line, |c.data|, |c.ext| + 1, end);
    FirstDigit(g, p, c.size, c.ext + line, |more| + |c.ext| + 1, end);
  }

  lemma FirstDigit(g: Setting, p: Parser, size: seq<byte>, tail: seq<byte>, n: nat, end: Outcome)
    requires p.state.ChunkSizeStart? && size != [] && HexValue(size[0]) >= 0
    requires Run(g, p.(state := ChunkSize, length := HexValue(size[0])), size[1..] + tail) == Before([], n, end)
    ensures Run(g, p, size + tail) == Before([], 1 + n, end)
  {
    HeadTail(size, tail);
    SkipThen(g, p, size + tail, p.(state := ChunkSize, length := HexValue(size[0])), [], n, end);
  }

  /** Digits, when it is known what follows them. */
  lemma DigitsRead(g: Setting, p: Parser, more: seq<byte>, tail: seq<byte>, n: nat, k: nat, end: Outcome)
    requires p.state.ChunkSize? && 0 <= p.length && AreHexDigits(more) && HexFrom(p.length, more) == n <= INT64_MAX
    requires Run(g, p.(length := n), tail) == Before([], k, end)
    ensures Run(g, p, more + tail) == Before([], |more| + k, end)
  {
    HexGrows(p.length, more);
    DigitsRun(g, p, more, tail);
    SkipSkip(|more|, k, end);
  }

  lemma SizeLineBytes(c: Chunk, rest: seq<byte>)
    ensures SizeLine(c) + rest == c.size + (c.ext + (CRLF + rest))
  {
    Assoc(c.size, c.ext + CRLF, rest);
    Assoc(c.ext, CRLF, rest);
  }

  /** Behind the CR of a size line. */
  lemma BehindSizeLine(g: Setting, q: Parser, data: seq<byte>, rest: seq<byte>)
    requires q.state.ChunkSizeAlmostDone? && q.length == |data| > 0
    ensures Run(g, q, [LF] + (data + (CRLF + rest))) ==
      Before([ChunkHeader(|data|)] + (Singles(Body, data) + [ChunkComplete]), |data| + 3,
             Run(g, q.(length := 0, state := ChunkSizeStart), rest))
  {
    var n, tail, r := |data|, data + (CRLF + rest), q.(state := ChunkData);
    var p := q.(length := 0, state := ChunkSizeStart);
    var end := Run(g, p, rest);
    ChunkDataRun(g, r, data, CRLF + rest);
    DataEndRun(g, p, rest);
    BeforeBefore(Singles(Body, data), n, [ChunkComplete], 2, end);
    SizeLineEnd(g, q, tail, Singles(Body, data) + [ChunkComplete], n + 2, end);
  }

  lemma SizeLineEnd(g: Setting, q: Parser, tail: seq<byte>, es: seq<Event>, n: nat, end: Outcome)
    requires q.state.ChunkSizeAlmostDone? && q.length > 0
    requires Run(g, q.(state := ChunkData), tail) == Before(es, n, end)
    ensures Run(g, q, [LF] + tail) == Before([ChunkHeader(q.length)] + es, 1 + n, end)
  {
    assert ([LF] + tail)[0] == LF && ([LF] + tail)[1..] == tail;
    TakeThen(g, q, [LF] + tail, q.(state := ChunkData), [ChunkHeader(q.length)], es, n, end);
  }

  /** One chunk with data. */
  lemma ChunkRun(g: Setting, p: Parser, c: Chunk, rest: seq<byte>)
    requires p.state.ChunkSizeStart? && Valid(c) && c.data != []
    ensures Run(g, p, SizeLine(c) + (c.data + (CRLF + rest))) ==
      Before([ChunkHeader(|c.data|)] + (Singles(Body, c.data) + [ChunkComplete]), |SizeLine(c)| + |c.data| + 2,
             Run(g, p.(length := 0), rest))
  {
    var n := |c.data|;
    var tail := c.data + (CRLF + rest);
    var end := Run(g, p.(length := 0), rest);
    SizeLineRun(g, p, c, tail);
    BehindSizeLine(g, p.(length := n, state := ChunkSizeAlmostDone), c.data, rest);
    BeforeBefore([], |SizeLine(c)| - 1, [ChunkHeader(n)] + (Singles(Body, c.data) + [ChunkComplete]), n + 3, end);
    assert [] + ([ChunkHeader(n)] + (Singles(Body, c.data) + [ChunkComplete]))
        == [ChunkHeader(n)] + (Singles(Body, c.data) + [ChunkComplete]);
  }

  /** The line end behind chunk data; `p` is the parser back at s_chunk_size_start. */
  lemma DataEndRun(g: Setting, p: Parser, rest: seq<byte>)
    requires p.state.ChunkSizeStart?
    ensures Run(g, p.(state := ChunkDataAlmostDone), CRLF + rest) == Before([ChunkComplete], 2, Run(g, p, rest))
  {
    var bytes := CRLF + rest;
    LineEndBytes(rest);
    RunTake(g, p.(state := ChunkDataAlmostDone), bytes, p.(state := ChunkDataDone), []);
    RunTake(g, p.(state := ChunkDataDone), [LF] + rest, p, [ChunkComplete]);
    BeforeBefore([], 1, [ChunkComplete], 1, Run(g, p, rest));
    assert [] + [ChunkComplete] == [ChunkComplete];
  }

  /** The parser in front of the trailer section. */
  function InTrailer(p: Parser): Parser {
    p.(length := 0, trailing := true, state := HeaderFieldStart)
  }

  /** The last chunk. */
  lemma LastChunkRun(g: Setting, p: Parser, c: Chunk, rest: seq<byte>)
    requires p.state.ChunkSizeStart? && Valid(c) && c.data == []
    ensures Run(g, p, SizeLine(c) + rest) == Before([ChunkHeader(0)], |SizeLine(c)|, Run(g, InTrailer(p), rest))
  {
    var q := p.(length := 0, state := ChunkSizeAlmostDone);
    SizeLineRun(g, p, c, rest);
    assert ([LF] + rest)[1..] == rest;
    LastSizeTurn(g, p);
    RunTake(g, q, [LF] + rest, InTrailer(p), [ChunkHeader(0)]);
    BeforeBefore([], |SizeLine(c)| - 1, [ChunkHeader(0)], 1, Run(g, InTrailer(p), rest));
    assert [] + [ChunkHeader(0)] == [ChunkHeader(0)];
  }

  lemma LastSizeTurn(g: Setting, p: Parser)
    ensures TurnOf(g, p.(length := 0, state := ChunkSizeAlmostDone), LF) == Take(InTrailer(p), [ChunkHeader(0)])
  {
  }

  /** The empty line that ends the trailer section, and the message. */
  lemma TrailerEnd(g: Setting, t: Parser, rest: seq<byte>)
    requires t.state.HeaderFieldStart? && t.trailing
    ensures Run(g, t, CRLF + rest) == Outcome(t.(state := Start), [ChunkComplete, MessageComplete], 2, EndOf(t))
  {
    var tail := CRLF + rest;
    var u, v := t.(state := HeadersAlmostDone), t.(state := MessageDone);
    LineEndBytes(rest);
    assert TurnOf(g, t, CR) == Take(u, []);
    RunTake(g, t, tail, u, []);
    assert TurnOf(g, u, LF) == Again(v, [ChunkComplete]);
    RunAgain(g, u, [LF] + rest, v, [ChunkComplete]);
    RunMessageDone(g, v, [LF] + rest);
    assert [] + ([ChunkComplete] + [MessageComplete]) == [ChunkComplete, MessageComplete];
  }

  /** Parsing what was encoded: any list of non-empty chunks, however their sizes are
      written and whatever extensions they carry, gives exactly their callbacks, and what
      comes behind the last size line is read as the trailer section. */
  lemma {:induction false} DecodeEncode(g: Setting, p: Parser, chunks: seq<Chunk>, last: Chunk, rest: seq<byte>)
    requires p.state.ChunkSizeStart?
    requires forall i :: 0 <= i < |chunks| ==> Valid(chunks[i]) && chunks[i].data != []
    requires Valid(last) && last.data == []
    ensures Run(g, p, Encode(chunks, last) + rest) ==
      Before(ChunkEvents(chunks), |Encode(chunks, last)|, Run(g, InTrailer(p), rest))
    decreases |chunks|
  {
    if chunks == [] {
      LastChunkRun(g, p, last, rest);
    } else {
      var c, more := chunks[0], Encode(chunks[1..], last);
      var es, end := ChunkEvents(chunks[1..]), Run(g, InTrailer(p), rest);
      EncodeBytes(c, more, rest);
      ChunkRun(g, p, c, more + rest);
      DecodeEncode(g, p.(length := 0), chunks[1..], last, rest);
      BeforeBefore([ChunkHeader(|c.data|)] + (Singles(Body, c.data) + [ChunkComplete]), |SizeLine(c)| + |c.data| + 2,
                   es, |more|, end);
      Assoc([ChunkHeader(|c.data|)], Singles(Body, c.data) + [ChunkComplete], es);
      Assoc(Singles(Body, c.data), [ChunkComplete], es);
    }
  }

  lemma EncodeBytes(c: Chunk, more: seq<byte>, rest: seq<byte>)
    ensures SizeLine(c) + (c.data + (CRLF + more)) + rest == SizeLine(c) + (c.data + (CRLF + (more + rest)))
  {
    Assoc(SizeLine(c), c.data + (CRLF + more), rest);
    Assoc(c.data, CRLF + more, rest);
    Assoc(CRLF, more, rest);
  }

  lemma {:induction false} SinglesGather(k: Kind, bytes: seq<byte>)
    ensures Gathered(k, Singles(k, bytes)) == bytes
    decreases |bytes|
  {
    if bytes != [] {
      SinglesCons(k, bytes);
      SinglesGather(k, bytes[1..]);
      assert Singles(k, bytes)[1..] == Singles(k, bytes[1..]);
      assert [bytes[0]] + bytes[1..] == bytes;
    }
  }

  lemma {:induction false} SinglesSilent(n: Event, k: Kind, bytes: seq<byte>)
    requires !n.Data?
    ensures Count(n, Singles(k, bytes)) == 0
    decreases |bytes|
  {
    if bytes != [] {
      SinglesCons(k, bytes);
      SinglesSilent(n, k, bytes[1..]);
      assert Singles(k, bytes)[1..] == Singles(k, bytes[1..]);
    }
  }

  lemma NothingLeft(bytes: seq<byte>)
    ensures [] + bytes == bytes
  {
  }

  /** The callbacks deliver the payload ... */
  lemma {:induction false} ChunkEventsPayload(chunks: seq<Chunk>)
    ensures Gathered(Body, ChunkEvents(chunks)) == Payload(chunks)
    decreases |chunks|
  {
    if chunks == [] {
      GatheredOne(Body, ChunkHeader(0));
    } else {
      var c, es := chunks[0], ChunkEvents(chunks[1..]);
      ChunkEventsPayload(chunks[1..]);
      GatheredConcat(Body, [ChunkHeader(|c.data|)], Singles(Body, c.data) + ([ChunkComplete] + es));
      GatheredConcat(Body, Singles(Body, c.data), [ChunkComplete] + es);
      GatheredConcat(Body, [ChunkComplete], es);
      GatheredOne(Body, ChunkHeader(|c.data|));
      GatheredOne(Body, ChunkComplete);
      SinglesGather(Body, c.data);
      NothingLeft(Payload(chunks[1..]));
      NothingLeft(c.data + Payload(chunks[1..]));
    }
  }

  /** ... and one chunk_complete a chunk; the last one's is due behind the trailer section. */
  lemma {:induction false} ChunkEventsCount(n: Event, chunks: seq<Chunk>)
    requires n == MessageComplete || n == ChunkComplete
    ensures Count(n, ChunkEvents(chunks)) == if n == MessageComplete then 0 else |chunks|
    decreases |chunks|
  {
    if chunks == [] {
      CountOne(n, ChunkHeader(0));
    } else {
      var c, es := chunks[0], ChunkEvents(chunks[1..]);
      ChunkEventsCount(n, chunks[1..]);
      CountConcat(n, [ChunkHeader(|c.data|)], Singles(Body, c.data) + ([ChunkComplete] + es));
      CountConcat(n, Singles(Body, c.data), [ChunkComplete] + es);
      CountConcat(n, [ChunkComplete], es);
      CountOne(n, ChunkHeader(|c.data|));
      CountOne(n, ChunkComplete);
      SinglesSilent(n, Body, c.data);
    }
  }
}
