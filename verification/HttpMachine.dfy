/** The parser of `http/http_parser.cpp` one byte at a time, from the start of a header
    section to the end of the message: one switch case of `http_parser_execute` is one turn,
    and every data callback is made byte by byte.  This is the specification the
    parser object, with its marks and fast paths, is proved against. */
module HttpMachine {
  import opened Bytes
  import opened HttpChars
  import opened HttpEvents

  const CR := 13
  const LF := 10
  const TAB := 9
  const SPACE := 32
  const QUOTE := 34
  const BACKSLASH := 92
  const INT64_MAX := 0x7fff_ffff_ffff_ffff

  const CONTENT_LENGTH := "content-length"
  const TRANSFER_ENCODING := "transfer-encoding"
  const UPGRADE := "upgrade"
  const CHUNKED := "chunked"

  /** `Start` stands for the state a message begins in, where this model ends. */
  datatype State =
    | Start
    | HeaderFieldStart | HeaderField | HeaderValueStart | HeaderValue | HeaderValueLws | HeaderAlmostDone
    | ChunkSizeStart | ChunkSize | ChunkParameters | ChunkSizeAlmostDone
    | HeadersAlmostDone | HeadersDone
    | ChunkData | ChunkDataAlmostDone | ChunkDataDone
    | BodyIdentity | BodyIdentityEof
    | MessageDone

  datatype HeaderState =
    | General | Quoted | Escaped
    | MatchingLength | MatchingEncoding | MatchingUpgrade
    | LengthHeader | EncodingHeader | UpgradeHeader
    | MatchingChunked | ChunkedValue

  datatype Error =
    | InvalidHeaderToken | InvalidContentLength | HugeContentLength | InvalidTransferEncoding | InvalidUpgrade
    | InvalidChunkSize | HugeChunkSize | Strict | InvalidEofState

  /** What a header section is parsed under: the request or status line before it, and what
      the headers-complete callback returns. */
  datatype Setting = Setting(request: bool, connect: bool, status: int, noBody: bool)

  /** `muted` says that the bytes of the current header value are not reported until the end
      of the buffer: a CR that no LF followed has cleared the value mark. */
  datatype Parser = Parser(
    state: State, hs: HeaderState, index: nat,
    chunked: bool, trailing: bool, upgradeSeen: bool, skipBody: bool,
    length: int, upgrade: bool, muted: bool)

  // ---------------------------------------------------------------- characters

  /** `tokens[256]`: 0, or the token character in lower case. */
  function Token(ch: byte): (t: byte)
    ensures t == if IsTokenChar(ch) then Downcase(ch) else 0
  {
    if 'A' as int <= ch <= 'Z' as int then ch + 32
    else if 'a' as int <= ch <= 'z' as int || '0' as int <= ch <= '9' as int then ch
    else if ch == 33 || 35 <= ch <= 39 || ch == 42 || ch == 43 || ch == 45 || ch == 46 || 94 <= ch <= 96 || ch == 124 || ch == 126
    then ch
    else 0
  }

  /** `LOWER`. */
  function Lower(ch: byte): (t: byte)
    ensures IsLower(t) <==> IsUpper(ch) || IsLower(ch)
    ensures IsUpper(ch) || IsLower(ch) ==> t == Downcase(ch)
  {
    if ch / 32 % 2 == 0 then ch + 32 else ch
  }

  predicate IsDigit(ch: byte): (t: bool)
    ensures t <==> IsDecimal(ch)
  {
    '0' as int <= ch <= '9' as int
  }

  /** `IS_HEADER_CHAR`. */
  predicate IsHeaderChar(ch: byte): (t: bool)
    ensures t <==> ch == 10 || ch == 13 || IsFieldByte(ch)
  {
    ch == CR || ch == LF || ch == TAB || (ch > 31 && ch != 127)
  }

  /** `unhex[256]`; the table lists 128 entries, so every byte from 0x80 on reads as 0. */
  function Unhex(ch: byte): (v: int)
    ensures v == if ch < 128 then HexValue(ch) else 0
  {
    if IsDigit(ch) then ch - '0' as int
    else if 'A' as int <= ch <= 'F' as int then ch - 'A' as int + 10
    else if 'a' as int <= ch <= 'f' as int then ch - 'a' as int + 10
    else if ch < 128 then -1
    else 0
  }

  /** A character of a C string constant, with its terminator. */
  function CharAt(text: string, i: nat): int {
    if i < |text| then text[i] as int else 0
  }

  // ---------------------------------------------------------------- one turn

  /** What one case of the switch does with a byte: consume it, have it looked at again in
      another state, stop with an error, or leave the call with the byte consumed. */
  datatype Turn =
    | Take(p: Parser, events: seq<Event>)
    | Again(p: Parser, events: seq<Event>)
    | Fail(error: Error)
    | Leave(p: Parser, events: seq<Event>)

  function FieldStartTurn(p: Parser, ch: byte): (t: Turn)
    ensures t.Again? ==> t.p.state == HeadersAlmostDone
  {
    if ch == CR then Take(p.(state := HeadersAlmostDone), [])
    else if ch == LF then Again(p.(state := HeadersAlmostDone), [])
    else
      var c := Token(ch);
      if c == 0 then Fail(InvalidHeaderToken)
      else
        var hs :=
          if c == 'c' as int then MatchingLength
          else if c == 't' as int then MatchingEncoding
          else if c == 'u' as int then MatchingUpgrade
          else General;
        Take(p.(state := HeaderField, hs := hs, index := 0), [Data(Field, [ch])])
  }

  /** The header state when character `i` of a name that has matched so far is `c`. */
  function NextMatch(hs: HeaderState, i: nat, c: int, name: string, full: HeaderState): HeaderState {
    if i > |name| || c != CharAt(name, i) then General
    else if i == |name| - 1 then full
    else hs
  }

  function Matched(p: Parser, c: int, name: string, full: HeaderState): Parser {
    p.(index := p.index + 1, hs := NextMatch(p.hs, p.index + 1, c, name, full))
  }

  function AfterToken(p: Parser, c: int): (q: Parser)
    ensures q == p.(hs := q.hs, index := q.index)
  {
    match p.hs
    case MatchingLength => Matched(p, c, CONTENT_LENGTH, LengthHeader)
    case MatchingEncoding => Matched(p, c, TRANSFER_ENCODING, EncodingHeader)
    case MatchingUpgrade => Matched(p, c, UPGRADE, UpgradeHeader)
    case LengthHeader => p.(hs := General)
    case EncodingHeader => p.(hs := General)
    case UpgradeHeader => p.(hs := General)
    case _ => p
  }

  function FieldTurn(p: Parser, ch: byte): (t: Turn)
    ensures !t.Again?
  {
    var c := Token(ch);
    if c != 0 then Take(AfterToken(p, c), [Data(Field, [ch])])
    else if ch == ':' as int then Take(p.(state := HeaderValueStart), [Data(Field, [])])
    else Fail(InvalidHeaderToken)
  }

  function ValueStartTurn(p: Parser, ch: byte): (t: Turn)
    ensures !t.Again?
  {
    if ch == SPACE || ch == TAB then Take(p, [])
    else
      var q := p.(state := HeaderValue, index := 0, muted := false);
      if ch == CR || ch == LF then
        if p.hs == LengthHeader then Fail(InvalidContentLength)
        else if p.hs == EncodingHeader then Fail(InvalidTransferEncoding)
        else if p.hs == UpgradeHeader then Fail(InvalidUpgrade)
        else if ch == CR then Take(q.(state := HeaderAlmostDone, hs := General), [Data(Value, [])])
        else Take(q.(state := HeaderFieldStart), [Data(Value, [])])
      else if p.hs == UpgradeHeader then Take(q.(upgradeSeen := true, hs := General), [Data(Value, [ch])])
      else if p.hs == EncodingHeader then
        Take(q.(hs := if Lower(ch) == 'c' as int then MatchingChunked else General), [Data(Value, [ch])])
      else if p.hs == LengthHeader then
        if IsDigit(ch) then Take(q.(length := ch - '0' as int), [Data(Value, [ch])]) else Fail(InvalidContentLength)
      else Take(q.(hs := if ch == QUOTE then Quoted else General), [Data(Value, [ch])])
  }

  /** The bytes of a value that are reported. */
  function ValuePiece(p: Parser, bytes: seq<byte>): seq<Event> {
    if p.muted then [] else [Data(Value, bytes)]
  }

  function ValueTurn(p: Parser, ch: byte): (t: Turn)
    ensures t.Again? ==> t.p.state == HeaderAlmostDone
  {
    if ch == CR && p.hs != Escaped then
      Take(p.(state := HeaderAlmostDone, muted := false), ValuePiece(p, []))
    else if ch == LF && p.hs != Escaped then
      Again(p.(state := HeaderAlmostDone, muted := false), ValuePiece(p, []))
    else if !IsHeaderChar(ch) && p.hs != Escaped then Fail(InvalidHeaderToken)
    else ValueByteTurn(p, ch, ValuePiece(p, [ch]))
  }

  function ValueByteTurn(p: Parser, ch: byte, es: seq<Event>): (t: Turn)
    ensures !t.Again? && !t.Leave?
    ensures t.Take? ==> t.events == es && t.p.state == p.state && t.p.muted == p.muted
  {
    match p.hs
    case General => Take(if ch == QUOTE then p.(hs := Quoted) else p, es)
    case Quoted => Take(if ch == QUOTE then p.(hs := General) else if ch == BACKSLASH then p.(hs := Escaped) else p, es)
    case Escaped => Take(p.(hs := Quoted), es)
    case EncodingHeader => Fail(InvalidHeaderToken)
    case LengthHeader =>
      if ch == SPACE then Take(p, es)
      else if !IsDigit(ch) then Fail(InvalidContentLength)
      else if p.length > (INT64_MAX - 10) / 10 then Fail(HugeContentLength)
      else Take(p.(length := p.length * 10 + (ch - '0' as int)), es)
    case MatchingChunked => Take(Matched(p, Lower(ch), CHUNKED, ChunkedValue), es)
    case ChunkedValue => Take(if ch != SPACE then p.(hs := General) else p, es)
    case _ => Take(p.(hs := General), es)
  }

  function AlmostDoneTurn(p: Parser, ch: byte): (t: Turn)
    ensures !t.Again?
  {
    var q := if p.hs == ChunkedValue then p.(chunked := true) else p;
    if ch == LF then Take(q.(state := HeaderValueLws), [])
    else Take(q.(state := HeaderValue, muted := true), [Data(Value, [SPACE])])
  }

  function LwsTurn(p: Parser, ch: byte): (t: Turn)
    ensures t.Again? ==> t.p.state == HeaderFieldStart
  {
    if ch == SPACE || ch == TAB then Take(p.(state := HeaderValueStart), [Data(Value, [SPACE])])
    else Again(p.(state := HeaderFieldStart), [])
  }

  function HeadersAlmostDoneTurn(g: Setting, p: Parser, ch: byte): (t: Turn)
    ensures t.Again? ==> t.p.state == MessageDone || t.p.state == HeadersDone
  {
    if ch != LF then Fail(Strict)
    else if p.trailing then Again(p.(state := MessageDone), [ChunkComplete])
    else
      Again(p.(state := HeadersDone, upgrade := p.upgradeSeen || g.connect, skipBody := p.skipBody || g.noBody),
            [HeadersComplete])
  }

  /** A response with this status, or any request, without length has no body. */
  predicate NoBodyWithoutLength(g: Setting) {
    g.request || 100 <= g.status <= 199 || g.status == 204 || g.status == 304
  }

  function HeadersDoneTurn(g: Setting, p: Parser): (t: Turn)
    ensures !t.Again?
  {
    var hasBody := p.chunked || p.length > 0;
    if p.upgrade && (g.connect || p.skipBody || !hasBody) then Leave(p.(state := Start), [MessageComplete])
    else if p.skipBody then Take(p.(state := Start), [MessageComplete])
    else if p.chunked then Take(p.(state := ChunkSizeStart), [])
    else if p.length == 0 then Take(p.(state := Start), [MessageComplete])
    else if p.length > 0 then Take(p.(state := BodyIdentity), [])
    else if NoBodyWithoutLength(g) then Take(p.(state := Start), [MessageComplete])
    else Take(p.(state := BodyIdentityEof), [])
  }

  function BodyTurn(p: Parser, ch: byte): (t: Turn)
    ensures t.Again? ==> t.p.state == MessageDone
  {
    var q := p.(length := p.length - 1);
    if q.length == 0 then Again(q.(state := MessageDone), [Data(Body, [ch])]) else Take(q, [Data(Body, [ch])])
  }

  function MessageDoneTurn(p: Parser): (t: Turn)
    ensures !t.Again?
  {
    var q := p.(state := Start);
    if p.upgrade then Leave(q, [MessageComplete]) else Take(q, [MessageComplete])
  }

  function ChunkSizeStartTurn(p: Parser, ch: byte): (t: Turn)
    ensures !t.Again?
  {
    if Unhex(ch) == -1 then Fail(InvalidChunkSize) else Take(p.(state := ChunkSize, length := Unhex(ch)), [])
  }

  function ChunkSizeTurn(p: Parser, ch: byte): (t: Turn)
    ensures !t.Again?
  {
    if ch == CR then Take(p.(state := ChunkSizeAlmostDone), [])
    else if Unhex(ch) == -1 then
      if ch == ';' as int || ch == SPACE then Take(p.(state := ChunkParameters), []) else Fail(InvalidChunkSize)
    else if p.length > (INT64_MAX - Unhex(ch)) / 16 then Fail(HugeChunkSize)
    else Take(p.(length := p.length * 16 + Unhex(ch)), [])
  }

  function ChunkSizeAlmostDoneTurn(p: Parser): (t: Turn)
    ensures !t.Again?
  {
    if p.length == 0 then Take(p.(trailing := true, state := HeaderFieldStart), [ChunkHeader(p.length)])
    else Take(p.(state := ChunkData), [ChunkHeader(p.length)])
  }

  function ChunkDataTurn(p: Parser, ch: byte): (t: Turn)
    ensures !t.Again?
  {
    var q := p.(length := p.length - 1);
    Take(if q.length == 0 then q.(state := ChunkDataAlmostDone) else q, [Data(Body, [ch])])
  }

  /** How often a byte can still be looked at again. */
  function Rank(s: State): nat {
    match s
    case HeaderValueLws => 3
    case HeaderFieldStart => 2
    case HeadersAlmostDone => 1
    case HeaderValue => 1
    case BodyIdentity => 1
    case _ => 0
  }

  /** One case of the switch.  A body callback that is due when the buffer's last body byte
      lies behind is made with the bytes themselves. */
  function TurnOf(g: Setting, p: Parser, ch: byte): (t: Turn)
    requires !p.state.Start?
    ensures t.Again? ==> Rank(t.p.state) < Rank(p.state) && !t.p.state.Start?
    ensures t.Leave? ==> t.p.state.Start?
  {
    match p.state
    case HeaderFieldStart => FieldStartTurn(p, ch)
    case HeaderField => FieldTurn(p, ch)
    case HeaderValueStart => ValueStartTurn(p, ch)
    case HeaderValue => ValueTurn(p, ch)
    case HeaderAlmostDone => AlmostDoneTurn(p, ch)
    case HeaderValueLws => LwsTurn(p, ch)
    case HeadersAlmostDone => HeadersAlmostDoneTurn(g, p, ch)
    case HeadersDone => HeadersDoneTurn(g, p)
    case BodyIdentity => BodyTurn(p, ch)
    case BodyIdentityEof => Take(p, [Data(Body, [ch])])
    case MessageDone => MessageDoneTurn(p)
    case ChunkSizeStart => ChunkSizeStartTurn(p, ch)
    case ChunkSize => ChunkSizeTurn(p, ch)
    case ChunkParameters => Take(if ch == CR then p.(state := ChunkSizeAlmostDone) else p, [])
    case ChunkSizeAlmostDone => ChunkSizeAlmostDoneTurn(p)
    case ChunkData => ChunkDataTurn(p, ch)
    case ChunkDataAlmostDone => Take(p.(state := ChunkDataDone), [])
    case ChunkDataDone => Take(p.(state := ChunkSizeStart), [ChunkComplete])
  }

  // ---------------------------------------------------------------- a whole buffer

  /** More input is wanted; the message has ended, and what is left belongs to the next one;
      it has ended and the connection changes protocol; the input is malformed. */
  datatype End = More | Complete | Upgraded | Failed(error: Error)

  /** `used` is the number of bytes consumed. */
  datatype Outcome = Outcome(p: Parser, events: seq<Event>, used: nat, end: End)

  function Before(events: seq<Event>, used: nat, o: Outcome): Outcome {
    o.(events := events + o.events, used := used + o.used)
  }

  /** The machine on a buffer, to its end or the end of the message. */
  function Run(g: Setting, p: Parser, bytes: seq<byte>): (o: Outcome)
    ensures o.used <= |bytes|
    ensures o.end.More? <==> o.used == |bytes| && !o.p.state.Start?
    ensures o.end.Complete? || o.end.Upgraded? ==> o.p.state.Start?
    decreases |bytes|, Rank(p.state)
  {
    if p.state.Start? then Outcome(p, [], 0, Complete)
    else if bytes == [] then Outcome(p, [], 0, More)
    else
      match TurnOf(g, p, bytes[0])
      case Take(q, es) => Before(es, 1, Run(g, q, bytes[1..]))
      case Again(q, es) =>
        Before(es, 0, Run(g, q, bytes))
      case Fail(e) => Outcome(p, [], 0, Failed(e))
      case Leave(q, es) => Outcome(q, es, 1, Upgraded)
  }

  lemma BeforeBefore(a: seq<Event>, m: nat, b: seq<Event>, n: nat, o: Outcome)
    ensures Before(a, m, Before(b, n, o)) == Before(a + b, m + n, o)
  {
    assert a + b + o.events == a + (b + o.events);
  }

  /** Two stretches of a run are one. */
  lemma InTurn(whole: Outcome, a: seq<Event>, m: nat, middle: Outcome, b: seq<Event>, n: nat, end: Outcome)
    requires whole == Before(a, m, middle) && middle == Before(b, n, end)
    ensures whole == Before(a + b, m + n, end)
  {
    BeforeBefore(a, m, b, n, end);
  }

  /** A buffer in two parts: the machine does not notice the cut. */
  lemma {:induction false} RunConcat(g: Setting, p: Parser, a: seq<byte>, b: seq<byte>)
    ensures var first := Run(g, p, a);
      Run(g, p, a + b) == if first.end.More? then Before(first.events, |a|, Run(g, first.p, b)) else first
    decreases |a|, Rank(p.state)
  {
    if p.state.Start? {
    } else if a == [] {
      assert a + b == b;
      assert [] + Run(g, p, b).events == Run(g, p, b).events;
    } else {
      assert (a + b)[0] == a[0] && (a + b)[1..] == a[1..] + b;
      match TurnOf(g, p, a[0])
      case Take(q, es) =>
        RunConcat(g, q, a[1..], b);
        var first := Run(g, q, a[1..]);
        BeforeBefore(es, 1, first.events, |a| - 1, Run(g, first.p, b));
      case Again(q, es) =>
        RunConcat(g, q, a, b);
        var first := Run(g, q, a);
        BeforeBefore(es, 0, first.events, |a|, Run(g, first.p, b));
      case Fail(_) =>
      case Leave(_, _) =>
    }
  }
}
