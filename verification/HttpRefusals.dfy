/** What the parser does with input that is not well formed: for each kind of mistake the
    error, the callbacks made before it and the offset of the byte that is refused.  Then
    what it accepts beyond the lines of `HttpHeaders`: LF alone, a bare CR in a value, other transfer
    codings, spaces in a content length, and a body that lasts until the connection ends. */
module HttpRefusals {
  import opened Bytes
  import opened Sequences
  import opened HttpChars
  import opened HttpEvents
  import opened HttpMachine
  import opened HttpBody
  import opened HttpHeaders

  /** `es` were reported and `n` bytes consumed when the input was refused. */
  predicate Refused(o: Outcome, es: seq<Event>, n: nat, e: Error) {
    o.end == Failed(e) && o.events == es && o.used == n
  }

  lemma FailHere(g: Setting, p: Parser, ch: byte, rest: seq<byte>, e: Error)
    requires !p.state.Start? && TurnOf(g, p, ch) == Fail(e)
    ensures Refused(Run(g, p, [ch] + rest), [], 0, e)
  {
    assert ([ch] + rest)[0] == ch;
  }

  /** A stretch that is accepted, and then a refusal. */
  lemma FailBehind(whole: Outcome, es: seq<Event>, n: nat, next: Outcome, more: seq<Event>, m: nat, e: Error)
    requires whole == Before(es, n, next) && Refused(next, more, m, e)
    ensures Refused(whole, es + more, n + m, e)
  {
  }

  lemma FailNext(whole: Outcome, es: seq<Event>, n: nat, next: Outcome, e: Error)
    requires whole == Before(es, n, next) && Refused(next, [], 0, e)
    ensures Refused(whole, es, n, e)
  {
    assert es + [] == es;
  }

  // ---------------------------------------------------------------- names

  /** A name is made of token characters and ends at its colon: any other byte is refused,
      and so is a line that begins with no name. */
  lemma BadNameByte(g: Setting, p: Parser, name: seq<byte>, ch: byte, rest: seq<byte>)
    requires p.state.HeaderFieldStart? && (forall i :: 0 <= i < |name| ==> IsTokenChar(name[i]))
    requires !IsTokenChar(ch) && (if name == [] then ch != 13 && ch != 10 else ch != 58)
    ensures Refused(Run(g, p, name + ([ch] + rest)), Singles(Field, name), |name|, InvalidHeaderToken)
  {
    if name == [] {
      assert [] + ([ch] + rest) == [ch] + rest;
      FailHere(g, p, ch, rest, InvalidHeaderToken);
    } else {
      var q := Named(p, name);
      NameRun(g, p, name, [ch] + rest);
      FailHere(g, q, ch, rest, InvalidHeaderToken);
      FailNext(Run(g, p, name + ([ch] + rest)), Singles(Field, name), |name|, Run(g, q, [ch] + rest), InvalidHeaderToken);
    }
  }

  /** A name and its colon, when it is known how the value is refused. */
  lemma NameThenRefused(g: Setting, p: Parser, name: seq<byte>, tail: seq<byte>, es: seq<Event>, n: nat, e: Error)
    requires p.state.HeaderFieldStart? && IsToken(name)
    requires Refused(Run(g, Named(p, name).(state := HeaderValueStart), tail), es, n, e)
    ensures Refused(Run(g, p, name + (COLON + tail)), Singles(Field, name) + ([Data(Field, [])] + es), |name| + 2 + n, e)
  {
    var o := Run(g, Named(p, name).(state := HeaderValueStart), tail);
    var here := Outcome(o.p, [], 0, o.end);
    assert es + [] == es;
    NameThen(g, p, name, tail, es, n, here);
    assert Singles(Field, name) + ([Data(Field, [])] + es) + [] == Singles(Field, name) + ([Data(Field, [])] + es);
  }

  // ---------------------------------------------------------------- values

  /** Control bytes are refused in the value of any header that is not watched, unless a
      backslash in quotes stands in front of them. */
  lemma BadValueByte(g: Setting, p: Parser, name: seq<byte>, value: seq<byte>, ch: byte, rest: seq<byte>)
    requires p.state.HeaderFieldStart? && IsToken(name) && IsWhole(value)
    requires !Spells(name, "content-length") && !Spells(name, "transfer-encoding") && !Spells(name, "upgrade")
    requires !IsFieldByte(ch) && ch != 13 && ch != 10
    ensures Refused(Run(g, p, name + (COLON + (value + ([ch] + rest)))),
                    Singles(Field, name) + ([Data(Field, [])] + Singles(Value, value)), |name| + 2 + |value|, InvalidHeaderToken)
  {
    var q := Named(p, name).(state := HeaderValueStart);
    NameRecognised(p, name);
    BadTextByte(g, q, value, ch, rest);
    NameThenRefused(g, p, name, value + ([ch] + rest), Singles(Value, value), |value|, InvalidHeaderToken);
  }

  lemma BadTextByte(g: Setting, q: Parser, value: seq<byte>, ch: byte, rest: seq<byte>)
    requires q.state.HeaderValueStart? && !q.hs.LengthHeader? && !q.hs.EncodingHeader? && !q.hs.UpgradeHeader?
    requires IsWhole(value) && !IsFieldByte(ch) && ch != 13 && ch != 10
    ensures Refused(Run(g, q, value + ([ch] + rest)), Singles(Value, value), |value|, InvalidHeaderToken)
  {
    var tail := [ch] + rest;
    var r := q.(state := HeaderValue, index := 0, muted := false, hs := QuoteStep(General, value[0]));
    var s := r.(hs := Quoting(r.hs, value[1..]));
    FirstValueTurn(g, q, value[0]);
    QuotedRun(g, r, value[1..], tail);
    HeadTail(value, tail);
    SinglesCons(Value, value);
    TakeThen(g, q, value + tail, r, [Data(Value, [value[0]])], Singles(Value, value[1..]), |value| - 1, Run(g, s, tail));
    FailHere(g, s, ch, rest, InvalidHeaderToken);
    FailNext(Run(g, q, value + tail), Singles(Value, value), |value|, Run(g, s, tail), InvalidHeaderToken);
  }

  /** Behind a backslash in quotes any byte is taken, a line end too. */
  lemma EscapedTakesAny(g: Setting, p: Parser, ch: byte)
    requires p.state.HeaderValue? && p.hs.Escaped? && !p.muted
    ensures TurnOf(g, p, ch) == Take(p.(hs := Quoted), [Data(Value, [ch])])
  {
  }

  /** The three headers that are watched must have a value. */
  lemma EmptyValueRefused(g: Setting, p: Parser, name: seq<byte>, ch: byte, rest: seq<byte>)
    requires p.state.HeaderFieldStart? && IsToken(name) && (ch == 13 || ch == 10)
    ensures var o, es := Run(g, p, name + (COLON + ([ch] + rest))), Singles(Field, name) + ([Data(Field, [])] + []);
      && (Spells(name, "content-length") ==> Refused(o, es, |name| + 2, InvalidContentLength))
      && (Spells(name, "transfer-encoding") ==> Refused(o, es, |name| + 2, InvalidTransferEncoding))
      && (Spells(name, "upgrade") ==> Refused(o, es, |name| + 2, InvalidUpgrade))
  {
    var q := Named(p, name).(state := HeaderValueStart);
    NameRecognised(p, name);
    if q.hs.LengthHeader? {
      FailHere(g, q, ch, rest, InvalidContentLength);
      NameThenRefused(g, p, name, [ch] + rest, [], 0, InvalidContentLength);
    } else if q.hs.EncodingHeader? {
      FailHere(g, q, ch, rest, InvalidTransferEncoding);
      NameThenRefused(g, p, name, [ch] + rest, [], 0, InvalidTransferEncoding);
    } else if q.hs.UpgradeHeader? {
      FailHere(g, q, ch, rest, InvalidUpgrade);
      NameThenRefused(g, p, name, [ch] + rest, [], 0, InvalidUpgrade);
    }
  }

  // ---------------------------------------------------------------- content lengths

  /** A content length holds nothing but digits and, behind the first of them, spaces. */
  lemma BadLengthByte(g: Setting, p: Parser, name: seq<byte>, digits: seq<byte>, ch: byte, rest: seq<byte>)
    requires p.state.HeaderFieldStart? && IsToken(name) && Spells(name, "content-length")
    requires AreDecimals(digits) && DecimalFrom(0, digits) <= 9223372036854775799
    requires !IsDecimal(ch) && ch != 32 && (if digits == [] then ch != 9 else IsFieldByte(ch))
    ensures Refused(Run(g, p, name + (COLON + (digits + ([ch] + rest)))),
                    Singles(Field, name) + ([Data(Field, [])] + Singles(Value, digits)), |name| + 2 + |digits|, InvalidContentLength)
  {
    var q := Named(p, name).(state := HeaderValueStart);
    NameRecognised(p, name);
    BadDigit(g, q, digits, ch, rest);
    NameThenRefused(g, p, name, digits + ([ch] + rest), Singles(Value, digits), |digits|, InvalidContentLength);
  }

  lemma BadDigit(g: Setting, q: Parser, digits: seq<byte>, ch: byte, rest: seq<byte>)
    requires q.state.HeaderValueStart? && q.hs.LengthHeader?
    requires AreDecimals(digits) && DecimalFrom(0, digits) <= 9223372036854775799
    requires !IsDecimal(ch) && ch != 32 && (if digits == [] then ch != 9 else IsFieldByte(ch))
    ensures Refused(Run(g, q, digits + ([ch] + rest)), Singles(Value, digits), |digits|, InvalidContentLength)
  {
    var tail := [ch] + rest;
    if digits == [] {
      assert [] + tail == tail;
      FailHere(g, q, ch, rest, InvalidContentLength);
    } else {
      var s := InLength(q, DecimalFrom(0, digits));
      LengthDigits(g, q, digits, tail);
      FailHere(g, s, ch, rest, InvalidContentLength);
      FailNext(Run(g, q, digits + tail), Singles(Value, digits), |digits|, Run(g, s, tail), InvalidContentLength);
    }
  }

  /** All the digits of a content length. */
  lemma LengthDigits(g: Setting, q: Parser, digits: seq<byte>, tail: seq<byte>)
    requires q.state.HeaderValueStart? && q.hs.LengthHeader?
    requires digits != [] && AreDecimals(digits) && DecimalFrom(0, digits) <= 9223372036854775799
    ensures Run(g, q, digits + tail)
         == Before(Singles(Value, digits), |digits|, Run(g, InLength(q, DecimalFrom(0, digits)), tail))
  {
    var d, v := digits[0] - 48, DecimalFrom(0, digits);
    FirstLengthTurn(g, q, digits[0]);
    DecimalSplit(digits);
    LengthRead(g, InLength(q, d), digits[1..], v, tail);
    HeadTail(digits, tail);
    SinglesCons(Value, digits);
    TakeThen(g, q, digits + tail, InLength(q, d), [Data(Value, [digits[0]])], Singles(Value, digits[1..]), |digits| - 1,
             Run(g, InLength(q, v), tail));
  }

  /** `value` without its spaces. */
  function NoSpaces(value: seq<byte>): (digits: seq<byte>)
    decreases |value|
  {
    if value == [] then []
    else if value[0] == 32 then NoSpaces(value[1..])
    else [value[0]] + NoSpaces(value[1..])
  }

  lemma LengthSpace(g: Setting, p: Parser)
    requires p.state.HeaderValue? && p.hs.LengthHeader? && !p.muted
    ensures TurnOf(g, p, 32) == Take(p, [Data(Value, [32])])
  {
  }

  /** Spaces do not separate: those between the digits of a content length are skipped too. */
  lemma {:induction false} SpacedLength(g: Setting, p: Parser, value: seq<byte>, rest: seq<byte>)
    requires p.state.HeaderValue? && p.hs.LengthHeader? && !p.muted && 0 <= p.length
    requires forall i :: 0 <= i < |value| ==> IsDecimal(value[i]) || value[i] == 32
    requires AreDecimals(NoSpaces(value)) && DecimalFrom(p.length, NoSpaces(value)) <= 9223372036854775799
    ensures Run(g, p, value + rest)
         == Before(Singles(Value, value), |value|, Run(g, p.(length := DecimalFrom(p.length, NoSpaces(value))), rest))
    decreases |value|
  {
    if value == [] {
      RunNothing(g, p, rest);
    } else {
      var ch, more := value[0], value[1..];
      var q := if ch == 32 then p else p.(length := p.length * 10 + (ch - 48));
      var end := Run(g, p.(length := DecimalFrom(p.length, NoSpaces(value))), rest);
      NoSpacesNext(p.length, value);
      HeadTail(value, rest);
      SinglesCons(Value, value);
      if ch == 32 { LengthSpace(g, p); } else { LengthDigit(g, p, ch); }
      SpacedLength(g, q, more, rest);
      TakeThen(g, p, value + rest, q, [Data(Value, [ch])], Singles(Value, more), |more|, end);
    }
  }

  lemma NoSpacesNext(v: nat, value: seq<byte>)
    requires value != [] && (IsDecimal(value[0]) || value[0] == 32) && AreDecimals(NoSpaces(value))
    ensures var n := if value[0] == 32 then v else v * 10 + (value[0] - 48);
      && AreDecimals(NoSpaces(value[1..]))
      && DecimalFrom(v, NoSpaces(value)) == DecimalFrom(n, NoSpaces(value[1..])) >= n
  {
    var more := NoSpaces(value[1..]);
    if value[0] == 32 {
      DecimalGrows(v, more);
    } else {
      var digits := NoSpaces(value);
      assert digits == [value[0]] + more && digits[1..] == more;
      assert forall i :: 0 <= i < |more| ==> more[i] == digits[i + 1];
      DecimalGrows(v * 10 + (value[0] - 48), more);
    }
  }

  // ---------------------------------------------------------------- chunk sizes

  /** A chunk size begins with a hex digit ... */
  lemma NoSizeRefused(g: Setting, p: Parser, ch: byte, rest: seq<byte>)
    requires p.state.ChunkSizeStart? && ch < 128 && HexValue(ch) < 0
    ensures Refused(Run(g, p, [ch] + rest), [], 0, InvalidChunkSize)
  {
    FailHere(g, p, ch, rest, InvalidChunkSize);
  }

  /** ... and goes on with hex digits to a space, a semicolon or the line end. */
  lemma BadSizeByte(g: Setting, p: Parser, digits: seq<byte>, ch: byte, rest: seq<byte>)
    requires p.state.ChunkSizeStart? && digits != [] && AreHexDigits(digits) && HexFrom(0, digits) < 0x8000_0000_0000_0000
    requires ch < 128 && HexValue(ch) < 0 && ch != 13 && ch != 32 && ch != 59
    ensures Refused(Run(g, p, digits + ([ch] + rest)), [], |digits|, InvalidChunkSize)
  {
    var q := p.(state := ChunkSize, length := HexFrom(0, digits));
    SizeDigits(g, p, digits, [ch] + rest);
    FailHere(g, q, ch, rest, InvalidChunkSize);
    FailNext(Run(g, p, digits + ([ch] + rest)), [], |digits|, Run(g, q, [ch] + rest), InvalidChunkSize);
  }

  /** All the digits of a chunk size. */
  lemma SizeDigits(g: Setting, p: Parser, digits: seq<byte>, tail: seq<byte>)
    requires p.state.ChunkSizeStart? && digits != [] && AreHexDigits(digits) && HexFrom(0, digits) < 0x8000_0000_0000_0000
    ensures Run(g, p, digits + tail)
         == Before([], |digits|, Run(g, p.(state := ChunkSize, length := HexFrom(0, digits)), tail))
  {
    var n := HexFrom(0, digits);
    var first, q := p.(state := ChunkSize, length := HexValue(digits[0])), p.(state := ChunkSize, length := n);
    assert n == HexFrom(HexValue(digits[0]), digits[1..]);
    RunNothing(g, q, tail);
    DigitsRead(g, first, digits[1..], tail, n, 0, Run(g, q, tail));
    FirstDigit(g, p, digits, tail, |digits| - 1, Run(g, q, tail));
  }

  /** A chunk size of 2^63 or more, however it is written. */
  lemma HugeSizeRefused(g: Setting, p: Parser, digits: seq<byte>, rest: seq<byte>)
    requires p.state.ChunkSizeStart? && digits != [] && AreHexDigits(digits) && HexFrom(0, digits) >= 0x8000_0000_0000_0000
    ensures Run(g, p, digits + rest).end == Failed(HugeChunkSize)
  {
    var q := p.(state := ChunkSize, length := HexValue(digits[0]));
    assert HexFrom(0, digits) == HexFrom(HexValue(digits[0]), digits[1..]);
    DigitsRun(g, q, digits[1..], rest);
    HeadTail(digits, rest);
    RunTake(g, p, digits + rest, q, []);
  }

  // ---------------------------------------------------------------- the end of the section

  /** The empty line that ends a section is CR and LF, or LF alone. */
  lemma BareCrRefused(g: Setting, p: Parser, ch: byte, rest: seq<byte>)
    requires p.state.HeaderFieldStart? && ch != 10
    ensures Refused(Run(g, p, [13] + ([ch] + rest)), [], 1, Strict)
  {
    var q := p.(state := HeadersAlmostDone);
    assert ([13] + ([ch] + rest))[0] == 13 && ([13] + ([ch] + rest))[1..] == [ch] + rest;
    RunTake(g, p, [13] + ([ch] + rest), q, []);
    FailHere(g, q, ch, rest, Strict);
    FailNext(Run(g, p, [13] + ([ch] + rest)), [], 1, Run(g, q, [ch] + rest), Strict);
  }

  // ---------------------------------------------------------------- a bare LF

  /** A line may end in LF alone ... */
  lemma LfEndsValue(g: Setting, p: Parser, rest: seq<byte>)
    requires p.state.HeaderValue? && !p.hs.Escaped? && !p.muted
    ensures Run(g, p, [10] + rest) == Before([Data(Value, [])], 1,
      Run(g, p.(state := HeaderValueLws, chunked := p.chunked || p.hs == ChunkedValue), rest))
    ensures Run(g, p, CRLF + rest) == Before([], 1, Run(g, p, [10] + rest))
  {
    var q, r := p.(state := HeaderAlmostDone), p.(state := HeaderValueLws, chunked := p.chunked || p.hs == ChunkedValue);
    var end := Run(g, r, rest);
    ValueEndRun(g, p, rest);
    ValueEndTurns(g, p);
    RunNothing(g, r, rest);
    assert ([10] + rest)[0] == 10 && ([10] + rest)[1..] == rest;
    SkipThen(g, q, [10] + rest, r, [], 0, end);
    RunAgain(g, p, [10] + rest, q, [Data(Value, [])]);
    BeforeBefore([Data(Value, [])], 0, [], 1, end);
    BeforeBefore([], 1, [Data(Value, [])], 1, end);
    assert [] + [Data(Value, [])] == [Data(Value, [])] == [Data(Value, [])] + [];
  }

  /** ... and so may the section. */
  lemma LfEndsSection(g: Setting, p: Parser, rest: seq<byte>)
    requires p.state.HeaderFieldStart?
    ensures Run(g, p, CRLF + rest) == Before([], 1, Run(g, p, [10] + rest))
  {
    var q := p.(state := HeadersAlmostDone);
    LineEndBytes(rest);
    RunAgain(g, p, [10] + rest, q, []);
    RunTake(g, p, CRLF + rest, q, []);
    assert [] + Run(g, q, [10] + rest).events == Run(g, q, [10] + rest).events;
  }

  /** An empty value: behind CR and LF a continuation line may still follow, behind LF alone
      not. */
  lemma EmptyValue(g: Setting, p: Parser, rest: seq<byte>)
    requires p.state.HeaderValueStart? && !p.hs.LengthHeader? && !p.hs.EncodingHeader? && !p.hs.UpgradeHeader?
    ensures Run(g, p, CRLF + rest)
         == Before([Data(Value, [])], 2, Run(g, p.(state := HeaderValueLws, hs := General, index := 0, muted := false), rest))
    ensures Run(g, p, [10] + rest)
         == Before([Data(Value, [])], 1, Run(g, p.(state := HeaderFieldStart, index := 0, muted := false), rest))
  {
    var q := p.(state := HeaderAlmostDone, hs := General, index := 0, muted := false);
    LineEndBytes(rest);
    EmptyValueTurns(g, p, q);
    AlmostDoneRun(g, q, rest);
    TakeThen(g, p, CRLF + rest, q, [Data(Value, [])], [], 1, Run(g, q.(state := HeaderValueLws), rest));
    assert [Data(Value, [])] + [] == [Data(Value, [])];
    RunTake(g, p, [10] + rest, p.(state := HeaderFieldStart, index := 0, muted := false), [Data(Value, [])]);
  }

  lemma EmptyValueTurns(g: Setting, p: Parser, q: Parser)
    requires p.state.HeaderValueStart? && !p.hs.LengthHeader? && !p.hs.EncodingHeader? && !p.hs.UpgradeHeader?
    requires q == p.(state := HeaderAlmostDone, hs := General, index := 0, muted := false)
    ensures TurnOf(g, p, 13) == Take(q, [Data(Value, [])])
    ensures TurnOf(g, p, 10) == Take(p.(state := HeaderFieldStart, index := 0, muted := false), [Data(Value, [])])
  {
  }

  /** The LF behind a CR. */
  lemma AlmostDoneRun(g: Setting, q: Parser, rest: seq<byte>)
    requires q.state.HeaderAlmostDone? && q.hs.General?
    ensures Run(g, q, [10] + rest) == Before([], 1, Run(g, q.(state := HeaderValueLws), rest))
  {
    var r := q.(state := HeaderValueLws);
    assert ([10] + rest)[0] == 10 && ([10] + rest)[1..] == rest;
    RunNothing(g, r, rest);
    SkipThen(g, q, [10] + rest, r, [], 0, Run(g, r, rest));
  }

  // ---------------------------------------------------------------- a bare CR in a value

  /** Text behind a bare CR is read but not reported. */
  lemma {:induction false} SilencedRun(g: Setting, p: Parser, text: seq<byte>, rest: seq<byte>)
    requires p.state.HeaderValue? && p.hs.General? && p.muted
    requires forall i :: 0 <= i < |text| ==> IsPlainByte(text[i])
    ensures Run(g, p, text + rest) == Before([], |text|, Run(g, p, rest))
    decreases |text|
  {
    if text == [] {
      RunNothing(g, p, rest);
    } else {
      HeadTail(text, rest);
      SilencedRun(g, p, text[1..], rest);
      SkipThen(g, p, text + rest, p, [], |text| - 1, Run(g, p, rest));
    }
  }

  lemma SilencedEnd(g: Setting, p: Parser, rest: seq<byte>)
    requires p.state.HeaderValue? && p.hs.General? && p.muted
    ensures Run(g, p, CRLF + rest) == Before([], 2, Run(g, p.(state := HeaderValueLws, muted := false), rest))
  {
    var q := p.(state := HeaderAlmostDone, muted := false);
    LineEndBytes(rest);
    AlmostDoneRun(g, q, rest);
    SkipThen(g, p, CRLF + rest, q, [], 1, Run(g, q.(state := HeaderValueLws), rest));
  }

  /** A CR inside a value that no LF follows: one space is reported for it and the byte behind
      it, and nothing of the rest of the line. */
  lemma BareCrInValue(g: Setting, p: Parser, ch: byte, text: seq<byte>, rest: seq<byte>)
    requires p.state.HeaderValue? && p.hs.General? && !p.muted && ch != 10
    requires forall i :: 0 <= i < |text| ==> IsPlainByte(text[i])
    ensures Run(g, p, [13] + ([ch] + (text + (CRLF + rest))))
         == Before([Data(Value, []), Data(Value, [32])], |text| + 4, Run(g, p.(state := HeaderValueLws), rest))
  {
    var r := p.(muted := true);
    SilencedEnd(g, r, rest);
    SilencedRun(g, r, text, CRLF + rest);
    var end := Run(g, p.(state := HeaderValueLws), rest);
    SkipSkip(|text|, 2, end);
    BareCrThen(g, p, ch, text + (CRLF + rest), |text| + 2, end);
  }

  lemma BareCrThen(g: Setting, p: Parser, ch: byte, tail: seq<byte>, n: nat, end: Outcome)
    requires p.state.HeaderValue? && p.hs.General? && !p.muted && ch != 10
    requires Run(g, p.(muted := true), tail) == Before([], n, end)
    ensures Run(g, p, [13] + ([ch] + tail)) == Before([Data(Value, []), Data(Value, [32])], n + 2, end)
  {
    var q, r := p.(state := HeaderAlmostDone), p.(muted := true);
    assert ([ch] + tail)[1..] == tail && ([13] + ([ch] + tail))[1..] == [ch] + tail;
    TakeThen(g, q, [ch] + tail, r, [Data(Value, [32])], [], n, end);
    TakeThen(g, p, [13] + ([ch] + tail), q, [Data(Value, [])], [Data(Value, [32])] + [], n + 1, end);
    assert [Data(Value, [])] + ([Data(Value, [32])] + []) == [Data(Value, []), Data(Value, [32])];
  }

  // ---------------------------------------------------------------- bodies without end

  /** A body without a length is whatever comes; only the end of the connection ends it. */
  lemma {:induction false} EofBody(g: Setting, p: Parser, body: seq<byte>)
    requires p.state.BodyIdentityEof?
    ensures Run(g, p, body) == Outcome(p, Singles(Body, body), |body|, More)
    decreases |body|
  {
    if body != [] {
      SinglesCons(Body, body);
      EofBody(g, p, body[1..]);
      RunTake(g, p, body, p, [Data(Body, [body[0]])]);
    }
  }

  // ---------------------------------------------------------------- other values of the watched headers

  /** "chunked" in any case, and spaces behind it. */
  predicate IsChunkedCoding(value: seq<byte>) {
    |value| >= 7 && SpellsChunked(value[..7]) && forall i :: 7 <= i < |value| ==> value[i] == 32
  }

  /** The parser behind more bytes of a transfer coding. */
  function AfterCoding(p: Parser, value: seq<byte>): (q: Parser)
    requires p.hs.MatchingChunked? || p.hs.ChunkedValue? || p.hs.General?
    requires 34 !in value
    ensures q == p.(hs := q.hs, index := q.index) && (q.hs.MatchingChunked? || q.hs.ChunkedValue? || q.hs.General?)
    decreases |value|
  {
    if value == [] then p
    else
      var q := match p.hs
        case MatchingChunked => Matched(p, Lower(value[0]), CHUNKED, ChunkedValue)
        case ChunkedValue => if value[0] == 32 then p else p.(hs := General)
        case _ => p;
      AfterCoding(q, value[1..])
  }

  lemma CodingTurn(g: Setting, p: Parser, ch: byte)
    requires p.state.HeaderValue? && !p.muted && (p.hs.MatchingChunked? || p.hs.ChunkedValue? || p.hs.General?)
    requires IsFieldByte(ch) && ch != 34
    ensures AfterCoding(p, [ch]).state == p.state
    ensures TurnOf(g, p, ch) == Take(AfterCoding(p, [ch]), [Data(Value, [ch])])
  {
    assert [ch][1..] == [];
  }

  lemma CodingStep(p: Parser, value: seq<byte>)
    requires (p.hs.MatchingChunked? || p.hs.ChunkedValue? || p.hs.General?) && value != [] && 34 !in value
    ensures AfterCoding(p, value) == AfterCoding(AfterCoding(p, [value[0]]), value[1..])
  {
    assert [value[0]][1..] == [];
  }

  lemma {:induction false} CodingBytesRun(g: Setting, p: Parser, value: seq<byte>, rest: seq<byte>)
    requires p.state.HeaderValue? && !p.muted && (p.hs.MatchingChunked? || p.hs.ChunkedValue? || p.hs.General?)
    requires (forall i :: 0 <= i < |value| ==> IsFieldByte(value[i])) && 34 !in value
    ensures Run(g, p, value + rest) == Before(Singles(Value, value), |value|, Run(g, AfterCoding(p, value), rest))
    decreases |value|
  {
    if value == [] {
      RunNothing(g, p, rest);
    } else {
      var q := AfterCoding(p, [value[0]]);
      HeadTail(value, rest);
      CodingTurn(g, p, value[0]);
      CodingStep(p, value);
      SinglesCons(Value, value);
      CodingBytesRun(g, q, value[1..], rest);
      TakeThen(g, p, value + rest, q, [Data(Value, [value[0]])], Singles(Value, value[1..]), |value| - 1,
               Run(g, AfterCoding(p, value), rest));
    }
  }

  /** The rest of a coding that has agreed with "chunked" up to position `i`. */
  predicate RestOfChunked(value: seq<byte>, i: nat)
    requires i < 7
  {
    && |value| >= 6 - i && (forall j :: 0 <= j < 6 - i ==> Downcase(value[j]) == "chunked"[i + 1 + j] as int)
    && (forall j :: 6 - i <= j < |value| ==> value[j] == 32)
  }

  lemma {:induction false} CodingEnd(p: Parser, value: seq<byte>)
    requires 34 !in value
    ensures p.hs.General? ==> AfterCoding(p, value).hs.General?
    ensures p.hs.ChunkedValue? ==> (AfterCoding(p, value).hs.ChunkedValue? <==> forall i :: 0 <= i < |value| ==> value[i] == 32)
    decreases |value|
  {
    if value != [] && (p.hs.General? || p.hs.ChunkedValue?) {
      CodingStep(p, value);
      var q := AfterCoding(p, [value[0]]);
      assert [value[0]][1..] == [];
      CodingEnd(q, value[1..]);
      assert forall i :: 0 < i < |value| ==> value[i] == value[1..][i - 1];
    }
  }

  lemma {:induction false} CodingMatches(p: Parser, value: seq<byte>)
    requires p.hs.MatchingChunked? && p.index < 6 && 34 !in value
    ensures AfterCoding(p, value).hs.ChunkedValue? <==> RestOfChunked(value, p.index)
    decreases |value|
  {
    if value != [] {
      var q := Matched(p, Lower(value[0]), CHUNKED, ChunkedValue);
      var more := value[1..];
      assert forall i :: 0 < i < |value| ==> value[i] == more[i - 1];
      assert |CHUNKED| == 7;
      if Downcase(value[0]) != "chunked"[p.index + 1] as int {
        CodingEnd(q, more);
      } else if p.index == 5 {
        CodingEnd(q, more);
      } else {
        CodingMatches(q, more);
        RestStep(value, p.index);
      }
    }
  }

  lemma RestStep(value: seq<byte>, i: nat)
    requires i < 5 && value != [] && Downcase(value[0]) == "chunked"[i + 1] as int
    ensures RestOfChunked(value, i) <==> RestOfChunked(value[1..], i + 1)
  {
    var more := value[1..];
    if RestOfChunked(more, i + 1) {
      assert forall j :: 0 < j < |value| ==> value[j] == more[j - 1];
    }
    if RestOfChunked(value, i) {
      assert forall j :: 0 <= j < |more| ==> more[j] == value[j + 1];
    }
  }

  /** A transfer coding on one line makes the body chunked exactly when it is "chunked",
      in any case, with or without spaces behind it. */
  lemma CodingRead(g: Setting, p: Parser, value: seq<byte>, rest: seq<byte>)
    requires p.state.HeaderValueStart? && p.hs.EncodingHeader? && IsText(value) && 34 !in value
    ensures var q := BehindCoding(p, value);
      && Run(g, p, value + (CRLF + rest)) == Before(PieceEvents(value), |value| + 2, Run(g, q, rest))
      && q == p.(state := HeaderValueLws, muted := false, hs := q.hs, index := q.index, chunked := p.chunked || IsChunkedCoding(value))
  {
    var q1 := CodingStart(p, value[0]);
    var q2 := AfterCoding(q1, value[1..]);
    CodingBytesRun(g, q1, value[1..], CRLF + rest);
    CodingStartTurn(g, p, value[0]);
    ValueFinish(g, p, value, q1, q2, BehindCoding(p, value), rest);
    CodingWhole(q1, value);
  }

  /** The parser behind the first byte of a transfer coding ... */
  function CodingStart(p: Parser, ch: byte): Parser {
    p.(state := HeaderValue, index := 0, muted := false, hs := if Lower(ch) == 99 then MatchingChunked else General)
  }

  /** ... and behind its line. */
  function BehindCoding(p: Parser, value: seq<byte>): Parser
    requires value != [] && 34 !in value
  {
    var q := AfterCoding(CodingStart(p, value[0]), value[1..]);
    q.(state := HeaderValueLws, chunked := q.chunked || q.hs == ChunkedValue)
  }

  lemma CodingStartTurn(g: Setting, p: Parser, ch: byte)
    requires p.state.HeaderValueStart? && p.hs.EncodingHeader? && IsFieldByte(ch) && ch != 32 && ch != 9
    ensures TurnOf(g, p, ch) == Take(CodingStart(p, ch), [Data(Value, [ch])])
  {
  }

  lemma CodingWhole(q: Parser, value: seq<byte>)
    requires value != [] && 34 !in value && q == CodingStart(q, value[0])
    ensures AfterCoding(q, value[1..]).hs.ChunkedValue? <==> IsChunkedCoding(value)
  {
    var more := value[1..];
    assert forall i :: 0 < i < |value| ==> value[i] == more[i - 1];
    if q.hs.General? {
      CodingEnd(q, more);
      assert |value| >= 7 ==> value[..7][0] == value[0] && Downcase(value[0]) != "chunked"[0] as int;
    } else {
      CodingMatches(q, more);
      assert Downcase(value[0]) == "chunked"[0] as int;
      if RestOfChunked(more, 0) {
        assert forall i :: 0 <= i < 7 ==> Downcase(value[..7][i]) == "chunked"[i] as int by {
          assert forall i :: 0 < i < 7 ==> value[..7][i] == more[i - 1];
        }
        assert forall i :: 7 <= i < |value| ==> value[i] == more[i - 1];
      }
      if IsChunkedCoding(value) {
        assert forall j :: 0 <= j < 6 ==> more[j] == value[..7][j + 1];
        assert forall j :: 6 <= j < |more| ==> more[j] == value[j + 1];
      }
    }
  }
}
