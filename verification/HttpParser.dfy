/** `http_parser` as an object, with `http_parser_execute` as the loop it is: marks into the
    buffer, fast paths that skip several bytes at once, bodies consumed in bulk, bytes looked
    at again in another state.  Each case of its switch is a method, and every call is
    proved to do what the byte-at-a-time machine does. */
module HttpParser {
  import opened Bytes
  import opened Sequences
  import opened HttpEvents
  import opened HttpMachine
  import opened HttpSafety
  import opened HttpBody
  import opened HttpHeaders
  import opened HttpSplit
  import opened HttpMarks

  datatype Errno = Ok | Paused | Hpe(error: Error)

  /** The bits F_CHUNKED, F_TRAILING, F_UPGRADE and F_SKIPBODY. */
  datatype Flags = Flags(chunked: bool, trailing: bool, upgrade: bool, skipBody: bool)

  /** How a case of the switch ends: on to the next byte or back to the switch; `goto error`;
      RETURN. */
  datatype Flow = Go | Error | Return

  /** What a call comes to: it returns `n`; or the message ends at `p` with bytes left, which
      the loop goes on with as the next message, whose start line is not modelled. */
  datatype Result = Returns(n: nat) | MessageEnds(p: nat)

  /** A parser that is paused at the end of a message returns there. */
  function ResultOf(o: Outcome, len: nat, pauses: bool): Result {
    if o.end.Complete? && o.used < len && !pauses then MessageEnds(o.used) else Returns(o.used)
  }

  function ErrnoOf(o: Outcome, pauses: bool): Errno {
    if o.end.Failed? then Hpe(o.end.error) else if pauses && !o.end.More? then Paused else Ok
  }

  class HttpParser {
    var state: State
    var header_state: HeaderState
    var index: nat
    var flags: Flags
    var content_length: int
    var upgrade: bool
    var http_errno: Errno
    /** Fixed once the request or status line has been read. */
    const g: Setting
    /** Whether the message_complete callback pauses the parser, as those of `HttpRequest` and
        `Response` do. */
    const pauses: bool
    /** What the callbacks have been given. */
    var log: seq<Event>

    function View(c: Cursor): Parser
      reads this
    {
      Parser(state, header_state, index, flags.chunked, flags.trailing, flags.upgrade, flags.skipBody,
             content_length, upgrade, state.HeaderValue? && c.value < 0)
    }

    /** At the head of the switch. */
    ghost predicate Ready(data: seq<byte>, c: Cursor)
      reads this
    {
      MarksFit(state, data, c) && c.p < |data| && Sound(View(c)) && http_errno == Ok
    }

    /** What one case of the switch has done, starting from `v` with callbacks `before`. */
    ghost predicate Turned(data: seq<byte>, c: Cursor, v: Parser, before: seq<Event>,
                           c': Cursor, flow: Flow, es: seq<Event>)
      requires InBuffer(data, c)
      reads this
    {
      match flow
      case Go =>
        http_errno == Ok && !(pauses && state.Start?) && Reaches(g, data, c, v, before, c', View(c'), log, es)
      case Error =>
        && http_errno.Hpe? && c' == c && es == [] && log == before
        && Run(g, v, data[c.p..]) == Outcome(v, [], 0, Failed(http_errno.error))
      case Return =>
        && http_errno == Finished() && state.Start? && c'.p == c.p + 1 <= |data| && Sound(View(c'))
        && (Run(g, v, data[c.p..]) == Outcome(View(c'), es, 1, Upgraded)
            || (pauses && Run(g, v, data[c.p..]) == Outcome(View(c'), es, 1, Complete)))
        && Joined(log) == Merge(Seen(before, data, c), es)
    }

    /** The same for one turn of the machine, without fast path. */
    ghost predicate Did(t: Turn, data: seq<byte>, c: Cursor, before: seq<Event>, c': Cursor, flow: Flow, es: seq<Event>)
      requires InBuffer(data, c)
      reads this
    {
      match flow
      case Go =>
        && http_errno == Ok && !(pauses && state.Start?) && MarksFit(state, data, c')
        && ((c'.p == c.p + 1 && t == Take(View(c'), es)) || (c'.p == c.p && t == Again(View(c'), es)))
        && Seen(log, data, c') == Merge(Seen(before, data, c), es)
      case Error =>
        http_errno.Hpe? && t == Fail(http_errno.error) && c' == c && es == [] && log == before
      case Return =>
        && http_errno == Finished() && c'.p == c.p + 1
        && (t == Leave(View(c'), es) || (pauses && state.Start? && t == Take(View(c'), es)))
        && Joined(log) == Merge(Seen(before, data, c), es)
    }

    /** The error number at the end of a message. */
    function Finished(): Errno {
      if pauses then Paused else Ok
    }

    constructor (g: Setting, pauses: bool)
      ensures this.g == g && this.pauses == pauses && http_errno == Ok && log == []
      ensures Valid() && Held() == NewMessage
    {
      this.g, this.pauses := g, pauses;
      state, header_state, index := HeaderFieldStart, General, 0;
      flags := Flags(false, false, false, false);
      content_length, upgrade := -1, false;
      http_errno, log := Ok, [];
    }

    // -------------------------------------------------------------- header fields

    method AtHeaderFieldStart(data: seq<byte>, c: Cursor) returns (c': Cursor, flow: Flow, ghost es: seq<Event>)
      requires Ready(data, c) && state.HeaderFieldStart?
      modifies this`state, this`index, this`header_state, this`http_errno
      ensures Did(FieldStartTurn(old(View(c)), data[c.p]), data, c, old(log), c', flow, es)
    {
      var ch := data[c.p];
      c', flow, es := c, Go, [];
      if ch == CR {
        state := HeadersAlmostDone;
        c' := c.(p := c.p + 1);
      } else if ch == LF {
        state := HeadersAlmostDone;
      } else if Token(ch) == 0 {
        http_errno := Hpe(InvalidHeaderToken);
        flow := Error;
      } else {
        c' := c.(field := c.p, p := c.p + 1);
        index := 0;
        state := HeaderField;
        header_state :=
          if Token(ch) == 'c' as int then MatchingLength
          else if Token(ch) == 't' as int then MatchingEncoding
          else if Token(ch) == 'u' as int then MatchingUpgrade
          else General;
        es := [Data(Field, [ch])];
        MarkedByte(log, Field, data, c.p, c.p);
      }
    }

    /** The fast path: MOVE_THE_HEAD, three or eight times. */
    method SkipTokens(data: seq<byte>, p: nat) returns (q: nat)
      requires p < |data| && Token(data[p]) != 0
      ensures p < q <= |data| && forall i :: p <= i < q ==> Token(data[i]) != 0
    {
      var moves := if |data| - p >= 9 then 8 else if |data| - p >= 4 then 3 else 0;
      q := p;
      var i := 0;
      while i < moves
        invariant 0 <= i <= moves && q == p + i && moves < |data| - p
        invariant forall j :: p <= j <= q ==> Token(data[j]) != 0
      {
        q := q + 1;
        if Token(data[q]) == 0 { return; }
        i := i + 1;
      }
      q := q + 1;
    }

    /** A matcher's step on `c = TOKEN(ch)`. */
    method MatchToken(tok: byte)
      requires FieldHeaderState(header_state) && !header_state.General?
      modifies this`index, this`header_state
      ensures forall c :: View(c) == AfterToken(old(View(c)), tok)
    {
      match header_state
      case MatchingLength =>
        index := index + 1;
        if index > |CONTENT_LENGTH| || tok != CharAt(CONTENT_LENGTH, index) {
          header_state := General;
        } else if index == |CONTENT_LENGTH| - 1 {
          header_state := LengthHeader;
        }
      case MatchingEncoding =>
        index := index + 1;
        if index > |TRANSFER_ENCODING| || tok != CharAt(TRANSFER_ENCODING, index) {
          header_state := General;
        } else if index == |TRANSFER_ENCODING| - 1 {
          header_state := EncodingHeader;
        }
      case MatchingUpgrade =>
        index := index + 1;
        if index > |UPGRADE| || tok != CharAt(UPGRADE, index) {
          header_state := General;
        } else if index == |UPGRADE| - 1 {
          header_state := UpgradeHeader;
        }
      case LengthHeader => header_state := General;
      case EncodingHeader => header_state := General;
      case UpgradeHeader => header_state := General;
      case _ => assert false;
    }

    /** A character of a name that may be a special one. */
    method AtMatchedName(data: seq<byte>, c: Cursor) returns (c': Cursor, flow: Flow, ghost es: seq<Event>)
      requires Ready(data, c) && state.HeaderField? && Token(data[c.p]) != 0 && !header_state.General?
      modifies this`index, this`header_state
      ensures Did(FieldTurn(old(View(c)), data[c.p]), data, c, old(log), c', flow, es)
    {
      var ch := data[c.p];
      MarkedByte(log, Field, data, c.field, c.p);
      MatchToken(Token(ch));
      c', flow, es := c.(p := c.p + 1), Go, [Data(Field, [ch])];
    }

    /** The label `notatoken`. */
    method AtNameEnd(data: seq<byte>, c: Cursor) returns (c': Cursor, flow: Flow, ghost es: seq<Event>)
      requires Ready(data, c) && state.HeaderField? && Token(data[c.p]) == 0
      modifies this`state, this`http_errno, this`log
      ensures Did(FieldTurn(old(View(c)), data[c.p]), data, c, old(log), c', flow, es)
    {
      c', flow, es := c, Go, [];
      if data[c.p] == ':' as int {
        state := HeaderValueStart;
        // A name that ends in a space is refused here, but no token is a space.
        assert !(c.p - c.field > 1 && data[c.p - 1] == SPACE);
        Reported(log, Field, data, c.field, c.p);
        log := log + [Data(Field, data[c.field..c.p])];
        c', es := c.(field := -1, p := c.p + 1), [Data(Field, [])];
      } else {
        http_errno := Hpe(InvalidHeaderToken);
        flow := Error;
      }
    }

    /** Characters of a general name. */
    method AtGeneralName(data: seq<byte>, c: Cursor) returns (c': Cursor, flow: Flow, ghost es: seq<Event>)
      requires Ready(data, c) && state.HeaderField? && Token(data[c.p]) != 0 && header_state.General?
      ensures Turned(data, c, View(c), log, c', flow, es)
    {
      var q := SkipTokens(data, c.p);
      c', flow, es := c.(p := q), Go, Singles(Field, data[c.p..q]);
      GeneralTokens(g, View(c), data, c, q, log);
    }

    // -------------------------------------------------------------- header values

    method AtHeaderValueStart(data: seq<byte>, c: Cursor) returns (c': Cursor, flow: Flow, ghost es: seq<Event>)
      requires Ready(data, c) && state.HeaderValueStart?
      modifies this`state, this`index, this`header_state, this`flags, this`content_length, this`http_errno, this`log
      ensures Did(ValueStartTurn(old(View(c)), data[c.p]), data, c, old(log), c', flow, es)
    {
      var ch := data[c.p];
      c', flow, es := c, Go, [];
      if ch == SPACE || ch == TAB {
        c' := c.(p := c.p + 1);
      } else if ch == CR || ch == LF {
        c', flow, es := AtEmptyValue(data, c);
      } else {
        c', flow, es := AtFirstOfValue(data, c);
      }
    }

    /** A value that ends where it begins; the special headers must not be empty. */
    method AtEmptyValue(data: seq<byte>, c: Cursor) returns (c': Cursor, flow: Flow, ghost es: seq<Event>)
      requires Ready(data, c) && state.HeaderValueStart? && (data[c.p] == CR || data[c.p] == LF)
      modifies this`state, this`index, this`header_state, this`http_errno, this`log
      ensures Did(ValueStartTurn(old(View(c)), data[c.p]), data, c, old(log), c', flow, es)
    {
      c', flow, es := c, Go, [];
      state, index := HeaderValue, 0;
      if header_state.LengthHeader? {
        http_errno := Hpe(InvalidContentLength);
      } else if header_state.EncodingHeader? {
        http_errno := Hpe(InvalidTransferEncoding);
      } else if header_state.UpgradeHeader? {
        http_errno := Hpe(InvalidUpgrade);
      }
      if http_errno != Ok {
        flow := Error;
      } else {
        if data[c.p] == CR {
          header_state := General;
          state := HeaderAlmostDone;
        } else {
          state := HeaderFieldStart;
        }
        Reported(log, Value, data, c.p, c.p);
        log := log + [Data(Value, data[c.p..c.p])];
        c', es := c.(p := c.p + 1), [Data(Value, [])];
      }
    }

    /** The switch on the header state inside s_header_value_start; `c` is behind the byte. */
    method StepFirst(ch: byte, ghost c: Cursor, ghost es: seq<Event>)
      requires http_errno == Ok && state.HeaderValueStart? && c.value >= 0 && es == [Data(Value, [ch])]
      requires ch != SPACE && ch != TAB && ch != CR && ch != LF
      modifies this`state, this`index, this`header_state, this`flags, this`content_length, this`http_errno
      ensures state.HeaderValue?
      ensures ValueStartTurn(old(View(c)), ch) == if http_errno.Hpe? then Fail(http_errno.error) else Take(View(c), es)
      ensures http_errno != Paused
    {
      state, index := HeaderValue, 0;
      match header_state
      case UpgradeHeader =>
        flags := flags.(upgrade := true);
        header_state := General;
      case EncodingHeader =>
        header_state := if Lower(ch) == 'c' as int then MatchingChunked else General;
      case LengthHeader =>
        if IsDigit(ch) {
          content_length := ch - '0' as int;
        } else {
          http_errno := Hpe(InvalidContentLength);
        }
      case _ =>
        header_state := if ch == QUOTE then Quoted else General;
    }

    method AtFirstOfValue(data: seq<byte>, c: Cursor) returns (c': Cursor, flow: Flow, ghost es: seq<Event>)
      requires Ready(data, c) && state.HeaderValueStart?
      requires data[c.p] != SPACE && data[c.p] != TAB && data[c.p] != CR && data[c.p] != LF
      modifies this`state, this`index, this`header_state, this`flags, this`content_length, this`http_errno
      ensures Did(ValueStartTurn(old(View(c)), data[c.p]), data, c, old(log), c', flow, es)
    {
      c', flow, es := c.(value := c.p, p := c.p + 1), Go, [Data(Value, [data[c.p]])];
      MarkedByte(log, Value, data, c.p, c.p);
      StepFirst(data[c.p], c', es);
      if http_errno != Ok { c', flow, es := c, Error, []; }
    }

    /** CALLBACK_DATA(header_value), which does nothing when the mark is null. */
    method ReportValue(data: seq<byte>, c: Cursor)
      requires MarksFit(HeaderValue, data, c)
      modifies this`log
      ensures Joined(log + []) == Merge(Seen(old(log), data, c), if c.value < 0 then [] else [Data(Value, [])])
    {
      if c.value >= 0 {
        Reported(log, Value, data, c.value, c.p);
        log := log + [Data(Value, data[c.value..c.p])];
      } else {
        Unchanged(log);
      }
    }

    method AtValueEnd(data: seq<byte>, c: Cursor) returns (c': Cursor, flow: Flow, ghost es: seq<Event>)
      requires Ready(data, c) && state.HeaderValue? && !header_state.Escaped? && (data[c.p] == CR || data[c.p] == LF)
      modifies this`state, this`log
      ensures Did(ValueTurn(old(View(c)), data[c.p]), data, c, old(log), c', flow, es)
    {
      state := HeaderAlmostDone;
      ReportValue(data, c);
      flow, es := Go, if c.value < 0 then [] else [Data(Value, [])];
      c' := c.(value := -1, p := if data[c.p] == CR then c.p + 1 else c.p);
    }

    /** Behind the mark, if there is one, lies one more byte. */
    ghost method ValueByteSeen(data: seq<byte>, c: Cursor)
      requires MarksFit(HeaderValue, data, c) && c.p < |data|
      ensures Seen(log, data, c.(p := c.p + 1)) == Merge(Seen(log, data, c), if c.value < 0 then [] else [Data(Value, [data[c.p]])])
    {
      if c.value >= 0 { MarkedByte(log, Value, data, c.value, c.p); } else { Unchanged(log); }
    }

    /** A digit of a content length, or not. */
    method StepLength(ch: byte, ghost c: Cursor, ghost es: seq<Event>)
      requires http_errno == Ok && header_state.LengthHeader?
      modifies this`content_length, this`http_errno
      ensures ValueByteTurn(old(View(c)), ch, es) == if http_errno.Hpe? then Fail(http_errno.error) else Take(View(c), es)
      ensures http_errno != Paused
    {
      if ch == SPACE { return; }
      if !IsDigit(ch) {
        http_errno := Hpe(InvalidContentLength);
        return;
      }
      if content_length > (INT64_MAX - 10) / 10 {
        http_errno := Hpe(HugeContentLength);
        return;
      }
      content_length := content_length * 10;
      content_length := content_length + (ch - '0' as int);
    }

    /** A letter of "chunked", or not. */
    method StepChunked(ch: byte, ghost c: Cursor, ghost es: seq<Event>)
      requires header_state.MatchingChunked?
      modifies this`index, this`header_state
      ensures ValueByteTurn(old(View(c)), ch, es) == Take(View(c), es)
    {
      index := index + 1;
      if index > |CHUNKED| || Lower(ch) != CharAt(CHUNKED, index) {
        header_state := General;
      } else if index == |CHUNKED| - 1 {
        header_state := ChunkedValue;
      }
    }

    /** The switch on the header state inside s_header_value. */
    method StepValue(ch: byte, ghost c: Cursor, ghost es: seq<Event>)
      requires http_errno == Ok
      modifies this`index, this`header_state, this`content_length, this`http_errno
      ensures ValueByteTurn(old(View(c)), ch, es) == if http_errno.Hpe? then Fail(http_errno.error) else Take(View(c), es)
      ensures http_errno != Paused
    {
      match header_state
      case General =>
        if ch == QUOTE { header_state := Quoted; }
      case Quoted =>
        if ch == QUOTE { header_state := General; } else if ch == BACKSLASH { header_state := Escaped; }
      case Escaped => header_state := Quoted;
      case EncodingHeader => http_errno := Hpe(InvalidHeaderToken);
      case LengthHeader => StepLength(ch, c, es);
      case MatchingChunked => StepChunked(ch, c, es);
      case ChunkedValue =>
        if ch != SPACE { header_state := General; }
      case _ => header_state := General;
    }

    /** A byte inside a value that is quoted or watched. */
    method AtWatchedValue(data: seq<byte>, c: Cursor) returns (c': Cursor, flow: Flow, ghost es: seq<Event>)
      requires Ready(data, c) && state.HeaderValue? && !header_state.General?
      requires header_state.Escaped? || (data[c.p] != CR && data[c.p] != LF && IsHeaderChar(data[c.p]))
      modifies this`index, this`header_state, this`content_length, this`http_errno
      ensures Did(ValueTurn(old(View(c)), data[c.p]), data, c, old(log), c', flow, es)
    {
      var ch := data[c.p];
      ValueByteSeen(data, c);
      c', flow, es := c.(p := c.p + 1), Go, if c.value < 0 then [] else [Data(Value, [ch])];
      StepValue(ch, c, es);
      if http_errno != Ok { c', flow, es := c, Error, []; }
    }

    /** The fast path: MOVE_FAST, four or eleven times. */
    method SkipPlain(data: seq<byte>, p: nat) returns (q: nat)
      requires p < |data|
      ensures p < q <= |data| && forall i :: p < i < q ==> IsPlainByte(data[i]) && data[i] != BACKSLASH
    {
      var moves := if |data| - p >= 12 then 11 else if |data| - p >= 5 then 4 else 0;
      q := p;
      var i := 0;
      while i < moves
        invariant 0 <= i <= moves && q == p + i && moves < |data| - p
        invariant forall j :: p < j <= q ==> IsPlainByte(data[j]) && data[j] != BACKSLASH
      {
        q := q + 1;
        var ch := data[q];
        if ch == CR || ch == LF || ch == QUOTE || ch == BACKSLASH || !IsHeaderChar(ch) { return; }
        i := i + 1;
      }
      q := q + 1;
    }

    /** A general value: an opening quote is noticed, and what follows is skipped either way. */
    method AtGeneralValue(data: seq<byte>, c: Cursor) returns (c': Cursor, flow: Flow, ghost es: seq<Event>)
      requires Ready(data, c) && state.HeaderValue? && header_state.General?
      requires data[c.p] != CR && data[c.p] != LF && IsHeaderChar(data[c.p])
      modifies this`header_state
      ensures Turned(data, c, old(View(c)), old(log), c', flow, es)
    {
      ghost var v := View(c);
      var q := SkipPlain(data, c.p);
      GeneralValueWent(g, v, data, c, q, log);
      if data[c.p] == QUOTE { header_state := Quoted; }
      c', flow, es := c.(p := q), Go, if c.value < 0 then [] else Singles(Value, data[c.p..q]);
      assert View(c') == v.(hs := if data[c.p] == QUOTE then Quoted else General);
    }

    method AtHeaderAlmostDone(data: seq<byte>, c: Cursor) returns (c': Cursor, flow: Flow, ghost es: seq<Event>)
      requires Ready(data, c) && state.HeaderAlmostDone?
      modifies this`state, this`flags, this`log
      ensures Did(AlmostDoneTurn(old(View(c)), data[c.p]), data, c, old(log), c', flow, es)
    {
      c', flow, es := c.(p := c.p + 1), Go, [];
      state := if data[c.p] == LF then HeaderValueLws else HeaderValue;
      if header_state.ChunkedValue? { flags := flags.(chunked := true); }
      if data[c.p] != LF {
        Notified(log, Data(Value, [SPACE]));
        log := log + [Data(Value, [SPACE])];
        es := [Data(Value, [SPACE])];
      }
    }

    method AtHeaderValueLws(data: seq<byte>, c: Cursor) returns (c': Cursor, flow: Flow, ghost es: seq<Event>)
      requires Ready(data, c) && state.HeaderValueLws?
      modifies this`state, this`log
      ensures Did(LwsTurn(old(View(c)), data[c.p]), data, c, old(log), c', flow, es)
    {
      c', flow, es := c, Go, [];
      if data[c.p] == SPACE || data[c.p] == TAB {
        state := HeaderValueStart;
        Notified(log, Data(Value, [SPACE]));
        log := log + [Data(Value, [SPACE])];
        c', es := c.(p := c.p + 1), [Data(Value, [SPACE])];
      } else {
        state := HeaderFieldStart;
      }
    }

    // -------------------------------------------------------------- end of the headers

    method AtHeadersAlmostDone(data: seq<byte>, c: Cursor) returns (c': Cursor, flow: Flow, ghost es: seq<Event>)
      requires Ready(data, c) && state.HeadersAlmostDone?
      modifies this`state, this`flags, this`upgrade, this`http_errno, this`log
      ensures Did(HeadersAlmostDoneTurn(g, old(View(c)), data[c.p]), data, c, old(log), c', flow, es)
    {
      c', flow, es := c, Go, [];
      if data[c.p] != LF {
        http_errno := Hpe(Strict);
        flow := Error;
      } else if flags.trailing {
        state := MessageDone;
        Notified(log, ChunkComplete);
        log := log + [ChunkComplete];
        es := [ChunkComplete];
      } else {
        state := HeadersDone;
        upgrade := flags.upgrade || g.connect;
        Notified(log, HeadersComplete);
        log := log + [HeadersComplete];
        if g.noBody { flags := flags.(skipBody := true); }
        es := [HeadersComplete];
      }
    }

    /** CALLBACK_NOTIFY(message_complete) in the state a message begins in; the call returns if
        the callback has paused the parser. */
    method Finish(data: seq<byte>, c: Cursor) returns (c': Cursor, flow: Flow, ghost es: seq<Event>)
      requires Ready(data, c) && !state.HeaderField? && !state.HeaderValue? && !ReadsBody(state)
      modifies this`state, this`http_errno, this`log
      ensures state.Start? && MarksFit(state, data, c') && c' == c.(p := c.p + 1) && es == [MessageComplete]
      ensures Joined(log) == Merge(Seen(old(log), data, c), es) && Seen(log, data, c') == Joined(log)
      ensures http_errno == Finished() && flow == if pauses then Return else Go
    {
      state := Start;
      Notified(log, MessageComplete);
      log := log + [MessageComplete];
      assert log + [] == log;
      if pauses { http_errno := Paused; }
      c', flow, es := c.(p := c.p + 1), if http_errno != Ok then Return else Go, [MessageComplete];
    }

    method AtHeadersDone(data: seq<byte>, c: Cursor) returns (c': Cursor, flow: Flow, ghost es: seq<Event>)
      requires Ready(data, c) && state.HeadersDone?
      modifies this`state, this`http_errno, this`log
      ensures Did(HeadersDoneTurn(g, old(View(c))), data, c, old(log), c', flow, es)
    {
      var hasBody := flags.chunked || content_length > 0;
      c', flow, es := c.(p := c.p + 1), Go, [];
      if upgrade && (g.connect || flags.skipBody || !hasBody) {
        c', flow, es := Finish(data, c);
        flow := Return;
      } else if flags.skipBody {
        c', flow, es := Finish(data, c);
      } else {
        c', flow, es := AtFraming(data, c);
      }
    }

    /** What frames the body. */
    method AtFraming(data: seq<byte>, c: Cursor) returns (c': Cursor, flow: Flow, ghost es: seq<Event>)
      requires Ready(data, c) && state.HeadersDone? && !flags.skipBody
      requires upgrade ==> !g.connect && (flags.chunked || content_length > 0)
      modifies this`state, this`http_errno, this`log
      ensures Did(HeadersDoneTurn(g, old(View(c))), data, c, old(log), c', flow, es)
    {
      c', flow, es := c.(p := c.p + 1), Go, [];
      if flags.chunked {
        state := ChunkSizeStart;
      } else if content_length == 0 {
        c', flow, es := Finish(data, c);
      } else if content_length > 0 {
        state := BodyIdentity;
      } else if NoBodyWithoutLength(g) {
        c', flow, es := Finish(data, c);
      } else {
        state := BodyIdentityEof;
      }
    }

    method AtMessageDone(data: seq<byte>, c: Cursor) returns (c': Cursor, flow: Flow, ghost es: seq<Event>)
      requires Ready(data, c) && state.MessageDone?
      modifies this`state, this`http_errno, this`log
      ensures Did(MessageDoneTurn(old(View(c))), data, c, old(log), c', flow, es)
    {
      c', flow, es := Finish(data, c);
      if upgrade { flow := Return; }
    }

    // -------------------------------------------------------------- bodies

    /** MARK(body). */
    function BodyMark(c: Cursor): (m: int)
      ensures 0 <= m && (c.body <= c.p ==> m <= c.p)
    {
      if c.body < 0 then c.p else c.body
    }

    method AtBodyIdentity(data: seq<byte>, c: Cursor) returns (c': Cursor, flow: Flow, ghost es: seq<Event>)
      requires Ready(data, c) && state.BodyIdentity?
      modifies this`state, this`content_length, this`log
      ensures Turned(data, c, old(View(c)), old(log), c', flow, es)
    {
      assert content_length > 0;
      if content_length <= |data| - c.p {
        c', flow, es := ReadBodyEnd(data, c, content_length);
      } else {
        c', flow, es := ReadBody(data, c, |data| - c.p);
      }
    }

    /** `to_read` bytes of the body, not the last ones. */
    method ReadBody(data: seq<byte>, c: Cursor, to_read: nat) returns (c': Cursor, flow: Flow, ghost es: seq<Event>)
      requires Ready(data, c) && state.BodyIdentity? && to_read == |data| - c.p < content_length
      modifies this`content_length
      ensures Turned(data, c, old(View(c)), old(log), c', flow, es)
    {
      ghost var v := View(c);
      IdentityGoesOn(g, v, data, c, log);
      content_length := content_length - to_read;
      c' := c.(body := BodyMark(c), p := c.p + to_read);
      flow, es := Go, Singles(Body, data[c.p..|data|]);
      assert View(c') == v.(length := v.length - to_read);
    }

    /** The last `to_read` bytes: `p` stays on the last one, which is looked at again. */
    method ReadBodyEnd(data: seq<byte>, c: Cursor, to_read: nat) returns (c': Cursor, flow: Flow, ghost es: seq<Event>)
      requires Ready(data, c) && state.BodyIdentity? && to_read == content_length <= |data| - c.p
      modifies this`state, this`content_length, this`log
      ensures Turned(data, c, old(View(c)), old(log), c', flow, es)
    {
      ghost var v := View(c);
      var last := c.p + to_read - 1;
      IdentityEnds(g, v, data, c, last, log);
      content_length := content_length - to_read;
      state := MessageDone;
      log := log + [Data(Body, data[BodyMark(c)..last + 1])];
      c' := c.(body := -1, p := last);
      flow, es := Go, Singles(Body, data[c.p..last + 1]);
      assert View(c') == v.(length := 0, state := MessageDone);
    }

    /** The body of a response without length: all there is. */
    method AtBodyIdentityEof(data: seq<byte>, c: Cursor) returns (c': Cursor, flow: Flow, ghost es: seq<Event>)
      requires Ready(data, c) && state.BodyIdentityEof?
      ensures Turned(data, c, View(c), log, c', flow, es)
    {
      c' := c.(body := BodyMark(c), p := |data|);
      flow, es := Go, Singles(Body, data[c.p..]);
      EofGoesOn(g, View(c), data, c, log);
    }

    method AtChunkSizeStart(data: seq<byte>, c: Cursor) returns (c': Cursor, flow: Flow, ghost es: seq<Event>)
      requires Ready(data, c) && state.ChunkSizeStart?
      modifies this`state, this`content_length, this`http_errno
      ensures Did(ChunkSizeStartTurn(old(View(c)), data[c.p]), data, c, old(log), c', flow, es)
    {
      assert flags.chunked;
      c', flow, es := c, Go, [];
      var unhex_val := Unhex(data[c.p]);
      if unhex_val == -1 {
        http_errno := Hpe(InvalidChunkSize);
        flow := Error;
      } else {
        content_length := unhex_val;
        state := ChunkSize;
        c' := c.(p := c.p + 1);
      }
    }

    method AtChunkSize(data: seq<byte>, c: Cursor) returns (c': Cursor, flow: Flow, ghost es: seq<Event>)
      requires Ready(data, c) && state.ChunkSize?
      modifies this`state, this`content_length, this`http_errno
      ensures Did(ChunkSizeTurn(old(View(c)), data[c.p]), data, c, old(log), c', flow, es)
    {
      assert flags.chunked;
      var ch := data[c.p];
      c', flow, es := c.(p := c.p + 1), Go, [];
      var unhex_val := Unhex(ch);
      if ch == CR {
        state := ChunkSizeAlmostDone;
      } else if unhex_val == -1 {
        if ch == ';' as int || ch == SPACE {
          state := ChunkParameters;
        } else {
          http_errno := Hpe(InvalidChunkSize);
        }
      } else if content_length > (INT64_MAX - unhex_val) / 16 {
        http_errno := Hpe(HugeChunkSize);
      } else {
        content_length := content_length * 16;
        content_length := content_length + unhex_val;
      }
      if http_errno != Ok { c', flow := c, Error; }
    }

    method AtChunkSizeAlmostDone(data: seq<byte>, c: Cursor) returns (c': Cursor, flow: Flow, ghost es: seq<Event>)
      requires Ready(data, c) && state.ChunkSizeAlmostDone?
      modifies this`state, this`flags, this`log
      ensures Did(ChunkSizeAlmostDoneTurn(old(View(c))), data, c, old(log), c', flow, es)
    {
      assert flags.chunked;
      if content_length == 0 {
        flags := flags.(trailing := true);
        state := HeaderFieldStart;
      } else {
        state := ChunkData;
      }
      Notified(log, ChunkHeader(content_length));
      log := log + [ChunkHeader(content_length)];
      c', flow, es := c.(p := c.p + 1), Go, [ChunkHeader(content_length)];
    }

    method AtChunkData(data: seq<byte>, c: Cursor) returns (c': Cursor, flow: Flow, ghost es: seq<Event>)
      requires Ready(data, c) && state.ChunkData?
      modifies this`state, this`content_length
      ensures Turned(data, c, old(View(c)), old(log), c', flow, es)
    {
      assert flags.chunked;
      assert content_length > 0;
      if content_length <= |data| - c.p {
        c', flow, es := ReadChunkEnd(data, c, content_length);
      } else {
        c', flow, es := ReadChunk(data, c, |data| - c.p);
      }
    }

    /** `to_read` bytes of the chunk, not the last ones. */
    method ReadChunk(data: seq<byte>, c: Cursor, to_read: nat) returns (c': Cursor, flow: Flow, ghost es: seq<Event>)
      requires Ready(data, c) && state.ChunkData? && to_read == |data| - c.p < content_length
      modifies this`content_length
      ensures Turned(data, c, old(View(c)), old(log), c', flow, es)
    {
      ghost var v := View(c);
      ChunkDataGoesOn(g, v, data, c, c.p + to_read, log);
      content_length := content_length - to_read;
      c' := c.(body := BodyMark(c), p := c.p + to_read);
      flow, es := Go, Singles(Body, data[c.p..c.p + to_read]);
      assert View(c') == BehindData(v, to_read);
    }

    /** The last `to_read` bytes. */
    method ReadChunkEnd(data: seq<byte>, c: Cursor, to_read: nat) returns (c': Cursor, flow: Flow, ghost es: seq<Event>)
      requires Ready(data, c) && state.ChunkData? && to_read == content_length <= |data| - c.p
      modifies this`state, this`content_length
      ensures Turned(data, c, old(View(c)), old(log), c', flow, es)
    {
      ghost var v, before := View(c), log;
      content_length := content_length - to_read;
      state := ChunkDataAlmostDone;
      c' := c.(body := BodyMark(c), p := c.p + to_read);
      flow, es := Go, Singles(Body, data[c.p..c.p + to_read]);
      ChunkDataEnds(g, v, data, c, before, c', View(c'), es);
    }

    method AtChunkDataAlmostDone(data: seq<byte>, c: Cursor) returns (c': Cursor, flow: Flow, ghost es: seq<Event>)
      requires Ready(data, c) && state.ChunkDataAlmostDone?
      modifies this`state, this`log
      ensures Did(TurnOf(g, old(View(c)), data[c.p]), data, c, old(log), c', flow, es)
    {
      assert flags.chunked;
      assert content_length == 0;
      state := ChunkDataDone;
      if c.body >= 0 {
        ReportedAll(log, Body, data, c.body, c.p);
        log := log + [Data(Body, data[c.body..c.p])];
      }
      c', flow, es := c.(body := -1, p := c.p + 1), Go, [];
    }

    method AtChunkDataDone(data: seq<byte>, c: Cursor) returns (c': Cursor, flow: Flow, ghost es: seq<Event>)
      requires Ready(data, c) && state.ChunkDataDone?
      modifies this`state, this`log
      ensures Did(TurnOf(g, old(View(c)), data[c.p]), data, c, old(log), c', flow, es)
    {
      assert flags.chunked;
      state := ChunkSizeStart;
      Notified(log, ChunkComplete);
      log := log + [ChunkComplete];
      c', flow, es := c.(p := c.p + 1), Go, [ChunkComplete];
    }

    method AtChunkParameters(data: seq<byte>, c: Cursor) returns (c': Cursor, flow: Flow, ghost es: seq<Event>)
      requires Ready(data, c) && state.ChunkParameters?
      modifies this`state
      ensures Did(TurnOf(g, old(View(c)), data[c.p]), data, c, old(log), c', flow, es)
    {
      assert flags.chunked;
      if data[c.p] == CR { state := ChunkSizeAlmostDone; }
      c', flow, es := c.(p := c.p + 1), Go, [];
    }

    // -------------------------------------------------------------- the loop

    /** A turn without fast path, seen as a step of the loop. */
    ghost method Conclude(t: Turn, data: seq<byte>, c: Cursor, v: Parser, before: seq<Event>, c': Cursor, flow: Flow, es: seq<Event>)
      requires MarksFit(v.state, data, c) && c.p < |data| && !v.state.Start? && Sound(v) && t == TurnOf(g, v, data[c.p])
      requires Did(t, data, c, before, c', flow, es)
      ensures Turned(data, c, v, before, c', flow, es)
    {
      assert data[c.p..][0] == data[c.p];
      TurnSound(g, v, data[c.p]);
      if flow.Go? {
        if c'.p == c.p + 1 {
          Taken(g, data, c, v, before, c', View(c'), log, es);
        } else {
          LookedAtAgain(g, data, c, v, before, c', View(c'), log, es);
        }
      } else if flow.Return? && t.Take? {
        RunTake(g, v, data[c.p..], t.p, es);
        assert es + [] == es;
      }
    }

    /** The cases that belong to header lines. */
    method HeaderCase(data: seq<byte>, c: Cursor) returns (c': Cursor, flow: Flow, ghost es: seq<Event>)
      requires Ready(data, c)
      requires state.HeaderFieldStart? || state.HeaderField? || state.HeaderValueStart? || state.HeaderValue?
        || state.HeaderAlmostDone? || state.HeaderValueLws?
      modifies this`state, this`header_state, this`index, this`flags, this`content_length, this`http_errno, this`log
      ensures Turned(data, c, old(View(c)), old(log), c', flow, es)
    {
      ghost var v, before := View(c), log;
      match state {
        case HeaderFieldStart => c', flow, es := AtHeaderFieldStart(data, c);
        case HeaderField =>
          if Token(data[c.p]) == 0 {
            c', flow, es := AtNameEnd(data, c);
          } else if header_state.General? {
            c', flow, es := AtGeneralName(data, c);
            return;
          } else {
            c', flow, es := AtMatchedName(data, c);
          }
        case HeaderValueStart => c', flow, es := AtHeaderValueStart(data, c);
        case HeaderAlmostDone => c', flow, es := AtHeaderAlmostDone(data, c);
        case HeaderValueLws => c', flow, es := AtHeaderValueLws(data, c);
        case HeaderValue =>
          c', flow, es := AtHeaderValue(data, c);
          return;
        case _ => assert false;
      }
      Conclude(TurnOf(g, v, data[c.p]), data, c, v, before, c', flow, es);
    }

    method AtHeaderValue(data: seq<byte>, c: Cursor) returns (c': Cursor, flow: Flow, ghost es: seq<Event>)
      requires Ready(data, c) && state.HeaderValue?
      modifies this`state, this`header_state, this`index, this`content_length, this`http_errno, this`log
      ensures Turned(data, c, old(View(c)), old(log), c', flow, es)
    {
      ghost var v, before := View(c), log;
      var ch := data[c.p];
      if (ch == CR || ch == LF) && !header_state.Escaped? {
        c', flow, es := AtValueEnd(data, c);
      } else if !IsHeaderChar(ch) && !header_state.Escaped? {
        http_errno := Hpe(InvalidHeaderToken);
        c', flow, es := c, Error, [];
      } else if header_state.General? {
        c', flow, es := AtGeneralValue(data, c);
        return;
      } else {
        c', flow, es := AtWatchedValue(data, c);
      }
      Conclude(TurnOf(g, v, data[c.p]), data, c, v, before, c', flow, es);
    }

    /** The other cases. */
    method BodyCase(data: seq<byte>, c: Cursor) returns (c': Cursor, flow: Flow, ghost es: seq<Event>)
      requires Ready(data, c) && !state.Start?
      requires !(state.HeaderFieldStart? || state.HeaderField? || state.HeaderValueStart? || state.HeaderValue?
        || state.HeaderAlmostDone? || state.HeaderValueLws?)
      modifies this`state, this`flags, this`content_length, this`upgrade, this`http_errno, this`log
      ensures Turned(data, c, old(View(c)), old(log), c', flow, es)
    {
      ghost var v, before := View(c), log;
      match state {
        case HeadersAlmostDone => c', flow, es := AtHeadersAlmostDone(data, c);
        case HeadersDone => c', flow, es := AtHeadersDone(data, c);
        case MessageDone => c', flow, es := AtMessageDone(data, c);
        case ChunkSizeStart => c', flow, es := AtChunkSizeStart(data, c);
        case ChunkSize => c', flow, es := AtChunkSize(data, c);
        case ChunkParameters => c', flow, es := AtChunkParameters(data, c);
        case ChunkSizeAlmostDone => c', flow, es := AtChunkSizeAlmostDone(data, c);
        case ChunkDataAlmostDone => c', flow, es := AtChunkDataAlmostDone(data, c);
        case ChunkDataDone => c', flow, es := AtChunkDataDone(data, c);
        case ChunkData => c', flow, es := AtChunkData(data, c); return;
        case BodyIdentity => c', flow, es := AtBodyIdentity(data, c); return;
        case BodyIdentityEof => c', flow, es := AtBodyIdentityEof(data, c); return;
        case _ => assert false;
      }
      Conclude(TurnOf(g, v, data[c.p]), data, c, v, before, c', flow, es);
    }

    /** One case of the switch. */
    method Dispatch(data: seq<byte>, c: Cursor) returns (c': Cursor, flow: Flow, ghost es: seq<Event>)
      requires Ready(data, c) && !state.Start?
      modifies this`state, this`header_state, this`index, this`flags, this`content_length, this`upgrade, this`http_errno, this`log
      ensures Turned(data, c, old(View(c)), old(log), c', flow, es)
    {
      if state.HeaderFieldStart? || state.HeaderField? || state.HeaderValueStart? || state.HeaderValue?
        || state.HeaderAlmostDone? || state.HeaderValueLws? {
        c', flow, es := HeaderCase(data, c);
      } else {
        c', flow, es := BodyCase(data, c);
      }
    }

    /** The callbacks for marks left over when the buffer has run out. */
    method Leftover(data: seq<byte>, c: Cursor)
      requires MarksFit(state, data, c) && 0 < c.p
      modifies this`log
      ensures Joined(log) == Seen(old(log), data, c)
    {
      // No two marks are set at once.
      assert (if c.field >= 0 then 1 else 0) + (if c.value >= 0 then 1 else 0) + (if c.body >= 0 then 1 else 0) <= 1;
      assert log + [] == log;
      if c.field >= 0 { log := log + [Data(Field, data[c.field..c.p])]; }
      if c.value >= 0 { log := log + [Data(Value, data[c.value..c.p])]; }
      if c.body >= 0 { log := log + [Data(Body, data[c.body..c.p])]; }
    }

    /** Where a call starts: the mark of data in progress is set to the start of the buffer. */
    function Opening(): Cursor
      reads this
    {
      Cursor(0, if state.HeaderField? then 0 else -1, if state.HeaderValue? then 0 else -1, -1)
    }

    /** What holds between calls. */
    ghost predicate Valid()
      reads this
    {
      !http_errno.Hpe? ==> Sound(View(Opening()))
    }

    /** What a call that started in `v0` with callbacks `log0` has done when it leaves the loop
        at `c`; an error leaves pending data unreported. */
    ghost predicate LeftLoop(data: seq<byte>, v0: Parser, log0: seq<Event>, c: Cursor, flow: Flow, withheld: seq<Event>)
      reads this
    {
      var o := Run(g, v0, data);
      && o.used == c.p && |withheld| <= 1
      && Joined(log + withheld) == Merge(Joined(log0), o.events)
      && match flow
         case Error => http_errno.Hpe? && o.end == Failed(http_errno.error)
         case Return =>
           && http_errno == Finished() && (o.end == Upgraded || (pauses && o.end == Complete))
           && o.p == View(c) && Sound(View(c)) && withheld == []
         case Go =>
           && http_errno == Ok && o.end == (if state.Start? then Complete else More) && o.p == View(c)
           && MarksFit(state, data, c) && Sound(View(c)) && withheld == Pending(data, c) && (0 < c.p || state.Start?)
           && !(pauses && state.Start?)
    }

    /** Once round the loop. */
    method Round(data: seq<byte>, c: Cursor, ghost v0: Parser, ghost log0: seq<Event>, ghost c0: Cursor, ghost es: seq<Event>)
      returns (c': Cursor, flow: Flow, ghost es': seq<Event>, ghost withheld: seq<Event>)
      requires Ready(data, c) && !state.Start?
      requires IsOpening(data, c0) && Went(g, data, c0, v0, log0, c, View(c), log, es)
      modifies this`state, this`header_state, this`index, this`flags, this`content_length, this`upgrade, this`http_errno, this`log
      ensures flow.Go? ==>
        && http_errno == Ok && !(pauses && state.Start?) && MarksFit(state, data, c') && Sound(View(c'))
        && Went(g, data, c0, v0, log0, c', View(c'), log, es')
        && (c'.p > c.p || (c'.p == c.p && Rank(state) < Rank(old(state))))
      ensures !flow.Go? ==> LeftLoop(data, v0, log0, c', flow, withheld)
    {
      ghost var v, before := View(c), log;
      withheld := Pending(data, c);
      ghost var es1;
      c', flow, es1 := Dispatch(data, c);
      es' := es + es1;
      if flow.Go? {
        WentOn(g, data, c0, v0, log0, c, v, before, es, c', View(c'), log, es1);
      } else if flow.Error? {
        StopsHere(g, data, c0, v0, log0, c, v, before, es, [], Outcome(v, [], 0, Failed(http_errno.error)));
      } else {
        withheld := [];
        StopsHere(g, data, c0, v0, log0, c, v, before, es, es1, Run(g, v, data[c.p..]));
        assert log + [] == log;
      }
    }

    /** The loop of `http_parser_execute`, up to where the message ends. */
    method Loop(data: seq<byte>) returns (c: Cursor, flow: Flow, ghost withheld: seq<Event>)
      requires http_errno == Ok && Sound(View(Opening())) && data != [] && !state.Start?
      modifies this`state, this`header_state, this`index, this`flags, this`content_length, this`upgrade, this`http_errno, this`log
      ensures LeftLoop(data, old(View(Opening())), old(log), c, flow, withheld)
    {
      c, flow, withheld := Opening(), Go, [];
      ghost var v0, log0, c0, es := View(c), log, c, [];
      WentNowhere(g, data, c, v0, log0);
      while c.p < |data| && !state.Start?
        invariant http_errno == Ok && MarksFit(state, data, c) && Sound(View(c)) && flow == Go && !(pauses && state.Start?)
        invariant Went(g, data, c0, v0, log0, c, View(c), log, es)
        decreases |data| - c.p, Rank(state)
      {
        c, flow, es, withheld := Round(data, c, v0, log0, c0, es);
        if !flow.Go? { return; }
      }
      withheld := Pending(data, c);
      LoopEnds(g, data, c0, v0, log0, c, View(c), log, es);
    }

    /** The parser as the next call finds it. */
    function Held(): Parser
      reads this
    {
      View(Opening())
    }

    /** `http_parser_execute` on a buffer that is not empty. */
    method ExecuteBuffer(data: seq<byte>) returns (result: Result, ghost withheld: seq<Event>)
      requires http_errno == Ok && Sound(Held()) && data != [] && !state.Start?
      modifies this`state, this`header_state, this`index, this`flags, this`content_length, this`upgrade, this`http_errno, this`log
      ensures var o := Run(g, old(Held()), data);
        && result == ResultOf(o, |data|, pauses)
        && http_errno == ErrnoOf(o, pauses)
        && (!o.end.Failed? ==> Held() == Entry(o.p) && Sound(Held()) && withheld == [])
        && Joined(log + withheld) == Merge(Joined(old(log)), o.events)
      ensures |withheld| <= 1
    {
      var c, flow;
      c, flow, withheld := Loop(data);
      result := if flow.Go? && c.p < |data| then MessageEnds(c.p) else Returns(c.p);
      if flow.Go? {
        if c.p > 0 { Leftover(data, c); }
        withheld := [];
        assert log + [] == log;
      }
    }

    /** `http_parser_execute`, from inside a message.  What the callbacks are given, joined to
        what they were given before, is what the machine reports; an error may leave one
        piece of it out. */
    method Execute(data: seq<byte>) returns (result: Result, ghost withheld: seq<Event>)
      requires Valid() && (data != [] ==> !state.Start?)
      modifies this`state, this`header_state, this`index, this`flags, this`content_length, this`upgrade, this`http_errno, this`log
      ensures Valid()
      ensures old(http_errno) != Ok ==>
        result == Returns(0) && http_errno == old(http_errno) && Held() == old(Held()) && log == old(log)
      ensures old(http_errno) == Ok && data == [] ==>
        && Held() == old(Held())
        && (state.BodyIdentityEof? ==> result == Returns(0) && http_errno == Finished() && log == old(log) + [MessageComplete])
        && (state.Start? ==> result == Returns(0) && http_errno == Ok && log == old(log))
        && (!state.BodyIdentityEof? && !state.Start? ==>
              result == Returns(1) && http_errno == Hpe(InvalidEofState) && log == old(log))
      ensures old(http_errno) == Ok && data != [] ==>
        var o := Run(g, old(Held()), data);
        && result == ResultOf(o, |data|, pauses)
        && http_errno == ErrnoOf(o, pauses)
        && (!o.end.Failed? ==> Held() == Entry(o.p) && withheld == [])
        && Joined(log + withheld) == Merge(Joined(old(log)), o.events)
      ensures |withheld| <= 1
    {
      withheld := [];
      if http_errno != Ok { return Returns(0), []; }
      if |data| == 0 {
        match state
        case BodyIdentityEof =>
          log := log + [MessageComplete];
          if pauses { http_errno := Paused; }
          return Returns(0), [];
        case Start =>
          return Returns(0), [];
        case _ =>
          http_errno := Hpe(InvalidEofState);
          return Returns(1), [];
      }
      result, withheld := ExecuteBuffer(data);
    }

    /** The calls that make up `all` have been made, and the last one came to `result`. */
    ghost predicate Received(all: Outcome, log0: seq<Event>, total: nat, result: Result, withheld: seq<Event>)
      reads this
    {
      && total == all.used
      && http_errno == ErrnoOf(all, pauses)
      && (!all.end.Failed? ==> Held() == Entry(all.p) && withheld == [])
      && Joined(log + withheld) == Merge(Joined(log0), all.events)
      && (result.MessageEnds? ==> all.end.Complete? && !pauses)
    }

    /** `HttpRequest::parse` inside the loop below: one buffer of those that `all` covers. */
    method Parse(data: seq<byte>, ghost rest: seq<seq<byte>>, ghost all: Outcome, ghost log0: seq<Event>, ghost es: seq<Event>, total: nat)
      returns (total': nat, result: Result, ghost withheld: seq<Event>, ghost es': seq<Event>)
      requires http_errno == Ok && Sound(Held()) && !state.Start? && data != [] && NonEmpty(rest)
      requires AlikeAs(all, es, total, Calls(g, Held(), [data] + rest))
      requires Joined(log) == Merge(Joined(log0), es)
      modifies this`state, this`header_state, this`index, this`flags, this`content_length, this`upgrade, this`http_errno, this`log
      ensures Valid()
      ensures http_errno == Ok && !state.Start? ==>
        && withheld == [] && result.Returns? && total' == total + |data|
        && AlikeAs(all, es', total', Calls(g, Held(), rest))
        && Joined(log) == Merge(Joined(log0), es')
      ensures http_errno != Ok || state.Start? ==>
        Received(all, log0, total', result, withheld) && (result.MessageEnds? ==> total' < total + |data|)
    {
      ghost var o := Run(g, Held(), data);
      es' := es + o.events;
      CallsStep(g, Held(), data, rest, all, es, total, o);
      MergeConcat(Joined(log0), es, o.events);
      result, withheld := Execute(data);
      total' := total + (if result.Returns? then result.n else result.p);
      assert log + [] == log;
    }

    /** The loop of `HttpRequest::recv_and_parse`: one buffer after another is parsed until the
        message is complete, the parser fails, or there are no more.  `result` is what the
        last call came to, `total` where the message has got to. */
    method RecvAndParse(buffers: seq<seq<byte>>) returns (total: nat, result: Result, ghost withheld: seq<Event>)
      requires http_errno == Ok && Sound(Held()) && !state.Start? && NonEmpty(buffers)
      modifies this`state, this`header_state, this`index, this`flags, this`content_length, this`upgrade, this`http_errno, this`log
      ensures Valid()
      ensures Received(Calls(g, old(Held()), buffers), old(log), total, result, withheld)
      ensures result.MessageEnds? ==> total < |Glued(buffers)|
    {
      total, result, withheld := 0, Returns(0), [];
      ghost var all, log0, es := Calls(g, Held(), buffers), log, [];
      var n := 0;
      AlikeAtFirst(all);
      assert buffers[0..] == buffers;
      while n < |buffers|
        invariant 0 <= n <= |buffers| && http_errno == Ok && Sound(Held()) && !state.Start?
        invariant withheld == [] && result.Returns?
        invariant NonEmpty(buffers[n..]) && AlikeAs(all, es, total, Calls(g, Held(), buffers[n..]))
        invariant Joined(log) == Merge(Joined(log0), es)
        invariant |Glued(buffers)| == total + |Glued(buffers[n..])|
        decreases |buffers| - n
      {
        assert buffers[n..] == [buffers[n]] + buffers[n + 1..] && buffers[n..][1..] == buffers[n + 1..];
        total, result, withheld, es := Parse(buffers[n], buffers[n + 1..], all, log0, es, total);
        if http_errno != Ok || state.Start? { return; }
        n := n + 1;
      }
      assert log + [] == log;
      assert es + [] == es;
    }
  }

  /** Token characters in a name that is none of the special ones. */
  lemma GeneralTokens(g: Setting, v: Parser, data: seq<byte>, c: Cursor, q: nat, log: seq<Event>)
    requires MarksFit(HeaderField, data, c) && c.p < q <= |data| && Sound(v) && !v.muted
    requires v.state.HeaderField? && v.hs.General?
    requires forall i :: c.p <= i < q ==> Token(data[i]) != 0
    ensures Reaches(g, data, c, v, log, c.(p := q), v, log, Singles(Field, data[c.p..q]))
  {
    Pieces(data, c.p, q);
    TokensRun(g, v, data[c.p..q], data[q..]);
    StaysGeneral(v, data[c.p..q]);
    MarkedBytes(log, Field, data, c.field, c.p, q);
  }

  /** Bytes of a value that change nothing. */
  lemma {:induction false} QuietValue(g: Setting, v: Parser, bytes: seq<byte>, rest: seq<byte>)
    requires v.state.HeaderValue? && (v.hs.General? || v.hs.Quoted?)
    requires forall i :: 0 <= i < |bytes| ==> IsPlainByte(bytes[i]) && bytes[i] != BACKSLASH
    ensures Run(g, v, bytes + rest) == Before(if v.muted then [] else Singles(Value, bytes), |bytes|, Run(g, v, rest))
    decreases |bytes|
  {
    if bytes == [] {
      RunNothing(g, v, rest);
    } else {
      HeadTail(bytes, rest);
      SinglesCons(Value, bytes);
      QuietValue(g, v, bytes[1..], rest);
      assert TurnOf(g, v, bytes[0]) == Take(v, ValuePiece(v, [bytes[0]]));
      if v.muted {
        SkipThen(g, v, bytes + rest, v, [], |bytes| - 1, Run(g, v, rest));
      } else {
        TakeThen(g, v, bytes + rest, v, [Data(Value, [bytes[0]])], Singles(Value, bytes[1..]), |bytes| - 1, Run(g, v, rest));
      }
    }
  }

  /** The fast path over a general value is the slow path. */
  lemma GeneralValue(g: Setting, v: Parser, data: seq<byte>, p: nat, q: nat)
    requires v.state.HeaderValue? && v.hs.General? && p < q <= |data|
    requires data[p] != CR && data[p] != LF && IsHeaderChar(data[p])
    requires forall i :: p < i < q ==> IsPlainByte(data[i]) && data[i] != BACKSLASH
    ensures var v' := v.(hs := if data[p] == QUOTE then Quoted else General);
      Run(g, v, data[p..]) == Before(if v.muted then [] else Singles(Value, data[p..q]), q - p, Run(g, v', data[q..]))
  {
    var v' := v.(hs := if data[p] == QUOTE then Quoted else General);
    var more := data[p + 1..q];
    assert data[p..][0] == data[p] && data[p..][1..] == data[p + 1..] == more + data[q..];
    assert data[p..q][0] == data[p] && data[p..q][1..] == more;
    SinglesCons(Value, data[p..q]);
    QuietValue(g, v', more, data[q..]);
    assert TurnOf(g, v, data[p]) == Take(v', ValuePiece(v, [data[p]]));
    if v.muted {
      SkipThen(g, v, data[p..], v', [], |more|, Run(g, v', data[q..]));
    } else {
      TakeThen(g, v, data[p..], v', [Data(Value, [data[p]])], Singles(Value, more), |more|, Run(g, v', data[q..]));
    }
  }

  lemma GeneralValueWent(g: Setting, v: Parser, data: seq<byte>, c: Cursor, q: nat, log: seq<Event>)
    requires MarksFit(HeaderValue, data, c) && c.p < q <= |data| && Sound(v) && v.muted == (c.value < 0)
    requires v.state.HeaderValue? && v.hs.General?
    requires data[c.p] != CR && data[c.p] != LF && IsHeaderChar(data[c.p])
    requires forall i :: c.p < i < q ==> IsPlainByte(data[i]) && data[i] != BACKSLASH
    ensures var v' := v.(hs := if data[c.p] == QUOTE then Quoted else General);
      var es := if c.value < 0 then [] else Singles(Value, data[c.p..q]);
      Reaches(g, data, c, v, log, c.(p := q), v', log, es)
  {
    GeneralValue(g, v, data, c.p, q);
    ValueWent(g, v, v.(hs := if data[c.p] == QUOTE then Quoted else General), data, c, q, log);
  }

  /** What the run over the bytes from `c.p` to `q` means for the marks. */
  lemma ValueWent(g: Setting, v: Parser, v': Parser, data: seq<byte>, c: Cursor, q: nat, log: seq<Event>)
    requires MarksFit(HeaderValue, data, c) && c.p < q <= |data| && Sound(v) && v.muted == (c.value < 0)
    requires v.state.HeaderValue? && v.hs.General? && v' == v.(hs := v'.hs) && (v'.hs.Quoted? || v'.hs.General?)
    requires Run(g, v, data[c.p..])
          == Before(if v.muted then [] else Singles(Value, data[c.p..q]), q - c.p, Run(g, v', data[q..]))
    ensures Reaches(g, data, c, v, log, c.(p := q), v', log, if c.value < 0 then [] else Singles(Value, data[c.p..q]))
  {
    ValueBytesSeen(log, data, c, q);
    MoveSound(v, v'.hs, v.index);
  }

  // ---------------------------------------------------------------- bodies in bulk

  /** More of a body, the mark set first if it was not. */
  lemma BodySeen(log: seq<Event>, data: seq<byte>, c: Cursor, q: nat)
    requires InBuffer(data, c) && c.field < 0 && c.value < 0 && c.p < q <= |data|
    ensures var mark := if c.body < 0 then c.p else c.body;
      && Joined(log + Unreported(Body, data, mark, q)) == Merge(Seen(log, data, c), Singles(Body, data[c.p..q]))
      && Joined(log + [Data(Body, data[mark..q])] + []) == Merge(Seen(log, data, c), Singles(Body, data[c.p..q]))
  {
    var mark := if c.body < 0 then c.p else c.body;
    MarkedBytes(log, Body, data, mark, c.p, q);
    assert log + [Data(Body, data[mark..q])] + [] == log + [Data(Body, data[mark..q])];
  }

  lemma Pieces(data: seq<byte>, p: nat, q: nat)
    requires p <= q <= |data|
    ensures data[p..] == data[p..q] + data[q..]
  {
  }

  /** Chunk data in bulk. */
  lemma ChunkDataGoesOn(g: Setting, v: Parser, data: seq<byte>, c: Cursor, q: nat, log: seq<Event>)
    requires MarksFit(v.state, data, c) && Sound(v)
    requires v.state.ChunkData? && c.p < q <= |data| && q - c.p <= v.length
    ensures var c' := c.(body := if c.body < 0 then c.p else c.body, p := q);
      var v' := BehindData(v, q - c.p);
      Reaches(g, data, c, v, log, c', v', log, Singles(Body, data[c.p..q]))
  {
    Pieces(data, c.p, q);
    ChunkDataRun(g, v, data[c.p..q], data[q..]);
    BodySeen(log, data, c, q);
  }

  lemma ChunkDataEnds(g: Setting, v: Parser, data: seq<byte>, c: Cursor, log: seq<Event>, c': Cursor, v': Parser, es: seq<Event>)
    requires MarksFit(v.state, data, c) && Sound(v)
    requires v.state.ChunkData? && c.p < c'.p <= |data| && c'.p - c.p == v.length
    requires c' == c.(body := if c.body < 0 then c.p else c.body, p := c'.p) && es == Singles(Body, data[c.p..c'.p])
    requires v' == v.(length := 0, state := ChunkDataAlmostDone)
    ensures Reaches(g, data, c, v, log, c', v', log, es)
  {
    ChunkDataGoesOn(g, v, data, c, c'.p, log);
  }

  /** Part of a Content-Length body. */
  lemma IdentityGoesOn(g: Setting, v: Parser, data: seq<byte>, c: Cursor, log: seq<Event>)
    requires MarksFit(v.state, data, c) && Sound(v)
    requires v.state.BodyIdentity? && c.p < |data| && |data| - c.p < v.length
    ensures var c' := c.(body := if c.body < 0 then c.p else c.body, p := |data|);
      var v' := v.(length := v.length - (|data| - c.p));
      Reaches(g, data, c, v, log, c', v', log, Singles(Body, data[c.p..|data|]))
  {
    Pieces(data, c.p, |data|);
    BodyRun(g, v, data[c.p..|data|], data[|data|..]);
    BodySeen(log, data, c, |data|);
  }

  /** A body read until the end of the connection. */
  lemma EofGoesOn(g: Setting, v: Parser, data: seq<byte>, c: Cursor, log: seq<Event>)
    requires MarksFit(v.state, data, c) && Sound(v)
    requires v.state.BodyIdentityEof? && c.p < |data|
    ensures var c' := c.(body := if c.body < 0 then c.p else c.body, p := |data|);
      Reaches(g, data, c, v, log, c', v, log, Singles(Body, data[c.p..]))
  {
    EofRun(g, v, data, c.p);
    assert data[c.p..] == data[c.p..|data|];
    BodySeen(log, data, c, |data|);
  }

  lemma {:induction false} EofRun(g: Setting, v: Parser, data: seq<byte>, p: nat)
    requires v.state.BodyIdentityEof? && p <= |data|
    ensures Run(g, v, data[p..]) == Before(Singles(Body, data[p..]), |data| - p, Run(g, v, data[|data|..]))
    decreases |data| - p
  {
    if p == |data| {
      RunNothing(g, v, data[|data|..]);
    } else {
      assert data[p..][0] == data[p] && data[p..][1..] == data[p + 1..];
      SinglesCons(Body, data[p..]);
      EofRun(g, v, data, p + 1);
      TakeThen(g, v, data[p..], v, [Data(Body, [data[p]])], Singles(Body, data[p + 1..]), |data| - p - 1,
               Run(g, v, data[|data|..]));
    }
  }

  /** The rest of one: its last byte is looked at again, for the end of the message. */
  lemma IdentityEnds(g: Setting, v: Parser, data: seq<byte>, c: Cursor, last: nat, log: seq<Event>)
    requires MarksFit(v.state, data, c) && Sound(v)
    requires v.state.BodyIdentity? && c.p <= last < |data| && v.length == last + 1 - c.p
    ensures var c' := c.(body := -1, p := last);
      var v' := v.(length := 0, state := MessageDone);
      var log' := log + [Data(Body, data[if c.body < 0 then c.p else c.body..last + 1])];
      Reaches(g, data, c, v, log, c', v', log', Singles(Body, data[c.p..last + 1]))
  {
    IdentityEndSeen(g, v, data, c, last, log);
    MessageDoneSound(v);
  }

  lemma MessageDoneSound(v: Parser)
    requires Sound(v) && v.state.BodyIdentity?
    ensures Sound(v.(length := 0, state := MessageDone))
  {
  }

  lemma IdentityEndSeen(g: Setting, v: Parser, data: seq<byte>, c: Cursor, last: nat, log: seq<Event>)
    requires InBuffer(data, c) && c.field < 0 && c.value < 0
    requires v.state.BodyIdentity? && c.p <= last < |data| && v.length == last + 1 - c.p
    ensures var c' := c.(body := -1, p := last);
      var v' := v.(length := 0, state := MessageDone);
      var log' := log + [Data(Body, data[if c.body < 0 then c.p else c.body..last + 1])];
      InBuffer(data, c') && Went(g, data, c, v, log, c', v', log', Singles(Body, data[c.p..last + 1]))
  {
    LastBodyByte(g, v, data, c.p, last);
    BodySeen(log, data, c, last + 1);
  }

  lemma LastBodyByte(g: Setting, v: Parser, data: seq<byte>, p: nat, last: nat)
    requires v.state.BodyIdentity? && p <= last < |data| && v.length == last + 1 - p
    ensures Run(g, v, data[p..]) ==
      Before(Singles(Body, data[p..last + 1]), last - p, Run(g, v.(length := 0, state := MessageDone), data[last..]))
  {
    var u, q := Left(v, last - p), v.(length := 0, state := MessageDone);
    Pieces(data, p, last);
    BodyRun(g, v, data[p..last], data[last..]);
    LastTurn(g, u, data, last);
    SinglesUpTo(data, p, last);
    InTurn(Run(g, v, data[p..]), Singles(Body, data[p..last]), last - p, Run(g, u, data[last..]),
           [Data(Body, [data[last]])], 0, Run(g, q, data[last..]));
  }

  lemma LastTurn(g: Setting, u: Parser, data: seq<byte>, last: nat)
    requires u.state.BodyIdentity? && u.length == 1 && last < |data|
    ensures Run(g, u, data[last..])
         == Before([Data(Body, [data[last]])], 0, Run(g, u.(length := 0, state := MessageDone), data[last..]))
  {
    assert data[last..][0] == data[last];
    RunAgain(g, u, data[last..], u.(length := 0, state := MessageDone), [Data(Body, [data[last]])]);
  }

  lemma SinglesUpTo(data: seq<byte>, p: nat, last: nat)
    requires p <= last < |data|
    ensures Singles(Body, data[p..last]) + [Data(Body, [data[last]])] == Singles(Body, data[p..last + 1])
  {
    SinglesSnoc(Body, data[p..last], data[last]);
    assert data[p..last] + [data[last]] == data[p..last + 1];
  }
}
