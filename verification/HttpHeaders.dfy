/** Header sections: which names the matchers recognise, what a header line does to the
    parser, and whole messages, from the header section to the end of the body. */
module HttpHeaders {
  import opened Bytes
  import opened Sequences
  import opened HttpChars
  import opened HttpEvents
  import opened HttpMachine
  import opened HttpBody

  predicate IsToken(bytes: seq<byte>) {
    bytes != [] && forall i :: 0 <= i < |bytes| ==> IsTokenChar(bytes[i])
  }

  /** Equality with a lower-case constant, ignoring the case of `bytes`. */
  predicate Spells(bytes: seq<byte>, text: string) {
    |bytes| == |text| && forall i :: 0 <= i < |bytes| ==> Downcase(bytes[i]) == text[i] as int
  }

  // ---------------------------------------------------------------- header names

  /** The parser behind more characters of a field name. */
  function AfterTokens(p: Parser, toks: seq<byte>): (q: Parser)
    ensures q == p.(hs := q.hs, index := q.index)
    decreases |toks|
  {
    if toks == [] then p else AfterTokens(AfterToken(p, Token(toks[0])), toks[1..])
  }

  lemma {:induction false} TokensRun(g: Setting, p: Parser, toks: seq<byte>, rest: seq<byte>)
    requires p.state.HeaderField? && (forall i :: 0 <= i < |toks| ==> Token(toks[i]) != 0)
    ensures Run(g, p, toks + rest) == Before(Singles(Field, toks), |toks|, Run(g, AfterTokens(p, toks), rest))
    decreases |toks|
  {
    if toks == [] {
      RunNothing(g, p, rest);
    } else {
      var q := AfterToken(p, Token(toks[0]));
      HeadTail(toks, rest);
      TokenTurn(g, p, toks[0]);
      SinglesCons(Field, toks);
      TokensRun(g, q, toks[1..], rest);
      TakeThen(g, p, toks + rest, q, [Data(Field, [toks[0]])], Singles(Field, toks[1..]), |toks| - 1,
               Run(g, AfterTokens(p, toks), rest));
    }
  }

  lemma TokenTurn(g: Setting, p: Parser, ch: byte)
    requires p.state.HeaderField? && Token(ch) != 0
    ensures TurnOf(g, p, ch) == Take(AfterToken(p, Token(ch)), [Data(Field, [ch])])
    ensures AfterToken(p, Token(ch)).state == p.state
  {
  }

  /** The rest of a name agrees with `text` behind position `i`. */
  predicate Continues(toks: seq<byte>, text: string, i: nat) {
    i + 1 + |toks| <= |text| && forall j :: 0 <= j < |toks| ==> Token(toks[j]) == text[i + 1 + j] as int
  }

  predicate IsMatcher(h: HeaderState, text: string, full: HeaderState) {
    || (h.MatchingLength? && text == CONTENT_LENGTH && full.LengthHeader?)
    || (h.MatchingEncoding? && text == TRANSFER_ENCODING && full.EncodingHeader?)
    || (h.MatchingUpgrade? && text == UPGRADE && full.UpgradeHeader?)
  }

  /** Once a name has stopped matching it is a general one. */
  lemma {:induction false} StaysGeneral(p: Parser, toks: seq<byte>)
    requires p.hs.General?
    ensures AfterTokens(p, toks) == p
    decreases |toks|
  {
    if toks != [] { StaysGeneral(p, toks[1..]); }
  }

  lemma OverLong(p: Parser, toks: seq<byte>)
    requires (p.hs.LengthHeader? || p.hs.EncodingHeader? || p.hs.UpgradeHeader?) && toks != []
    ensures AfterTokens(p, toks).hs.General?
  {
    StaysGeneral(p.(hs := General), toks[1..]);
  }

  lemma MatcherTurn(p: Parser, ch: byte, text: string, full: HeaderState)
    requires IsMatcher(p.hs, text, full)
    ensures AfterToken(p, Token(ch)) == p.(index := p.index + 1, hs := NextMatch(p.hs, p.index + 1, Token(ch), text, full))
  {
  }

  /** A matcher recognises exactly its own name. */
  lemma {:induction false} MatcherExact(p: Parser, toks: seq<byte>, text: string, full: HeaderState)
    requires IsMatcher(p.hs, text, full) && p.index + 1 < |text|
    ensures AfterTokens(p, toks).hs ==
      if !Continues(toks, text, p.index) then General
      else if p.index + 1 + |toks| == |text| then full
      else p.hs
    decreases |toks|
  {
    if toks != [] {
      var i := p.index;
      var q := AfterToken(p, Token(toks[0]));
      MatcherTurn(p, toks[0], text, full);
      assert forall j :: 0 < j < |toks| ==> toks[j] == toks[1..][j - 1];
      if Token(toks[0]) != text[i + 1] as int {
        StaysGeneral(q, toks[1..]);
      } else if i + 2 == |text| {
        if |toks| > 1 { OverLong(q, toks[1..]); }
      } else {
        MatcherExact(q, toks[1..], text, full);
        ContinuesStep(toks, text, i);
      }
    }
  }

  lemma ContinuesStep(toks: seq<byte>, text: string, i: nat)
    requires toks != [] && i + 1 < |text| && Token(toks[0]) == text[i + 1] as int
    ensures Continues(toks, text, i) <==> Continues(toks[1..], text, i + 1)
  {
    if Continues(toks[1..], text, i + 1) {
      forall j | 0 <= j < |toks| ensures Token(toks[j]) == text[i + 1 + j] as int {
        if j > 0 { assert toks[j] == toks[1..][j - 1]; }
      }
    }
  }

  /** The parser behind a whole field name. */
  function Named(p: Parser, name: seq<byte>): Parser
    requires IsToken(name)
  {
    AfterTokens(FirstOfName(p, name[0]), name[1..])
  }

  function FirstOfName(p: Parser, ch: byte): Parser {
    var c := Token(ch);
    p.(state := HeaderField, index := 0,
       hs := if c == 'c' as int then MatchingLength
             else if c == 't' as int then MatchingEncoding
             else if c == 'u' as int then MatchingUpgrade
             else General)
  }

  lemma FirstTurn(g: Setting, p: Parser, ch: byte)
    requires p.state.HeaderFieldStart? && Token(ch) != 0
    ensures TurnOf(g, p, ch) == Take(FirstOfName(p, ch), [Data(Field, [ch])])
  {
  }

  lemma SpellsFromFirst(name: seq<byte>, text: string)
    requires IsToken(name) && text != "" && Token(name[0]) == text[0] as int
    ensures Spells(name, text) <==> Continues(name[1..], text, 0) && |name| == |text|
  {
    if Continues(name[1..], text, 0) && |name| == |text| {
      forall i | 0 <= i < |name| ensures Token(name[i]) == text[i] as int {
        if i > 0 { assert name[i] == name[1..][i - 1]; }
      }
    }
  }

  lemma NameWith(p: Parser, name: seq<byte>, text: string, h: HeaderState, full: HeaderState)
    requires IsToken(name) && |text| >= 2 && IsMatcher(h, text, full)
    requires Token(name[0]) == text[0] as int && FirstOfName(p, name[0]).hs == h
    ensures Spells(name, text) <==> Named(p, name).hs == full
    ensures !Spells(name, text) ==> Named(p, name).hs == General || Named(p, name).hs == h
  {
    MatcherExact(FirstOfName(p, name[0]), name[1..], text, full);
    SpellsFromFirst(name, text);
  }

  lemma NameWithout(name: seq<byte>, text: string)
    requires IsToken(name) && text != "" && Token(name[0]) != text[0] as int
    ensures !Spells(name, text)
  {
  }

  /** A header is treated as content-length, transfer-encoding or upgrade exactly when its
      name is that one, whatever its case; no prefix or extension is mistaken for it. */
  lemma NameRecognised(p: Parser, name: seq<byte>)
    requires IsToken(name)
    ensures Spells(name, "content-length") <==> Named(p, name).hs == LengthHeader
    ensures Spells(name, "transfer-encoding") <==> Named(p, name).hs == EncodingHeader
    ensures Spells(name, "upgrade") <==> Named(p, name).hs == UpgradeHeader
  {
    var c := Token(name[0]);
    if c == 'c' as int {
      NameWith(p, name, CONTENT_LENGTH, MatchingLength, LengthHeader);
    } else if c == 't' as int {
      NameWith(p, name, TRANSFER_ENCODING, MatchingEncoding, EncodingHeader);
    } else if c == 'u' as int {
      NameWith(p, name, UPGRADE, MatchingUpgrade, UpgradeHeader);
    } else {
      StaysGeneral(FirstOfName(p, name[0]), name[1..]);
    }
    if c != 'c' as int { NameWithout(name, CONTENT_LENGTH); }
    if c != 't' as int { NameWithout(name, TRANSFER_ENCODING); }
    if c != 'u' as int { NameWithout(name, UPGRADE); }
  }

  /** The bytes of a name are reported and the parser is behind it. */
  lemma NameRun(g: Setting, p: Parser, name: seq<byte>, rest: seq<byte>)
    requires p.state.HeaderFieldStart? && IsToken(name)
    ensures Run(g, p, name + rest) == Before(Singles(Field, name), |name|, Run(g, Named(p, name), rest))
  {
    var q := FirstOfName(p, name[0]);
    HeadTail(name, rest);
    FirstTurn(g, p, name[0]);
    SinglesCons(Field, name);
    TokensRun(g, q, name[1..], rest);
    TakeThen(g, p, name + rest, q, [Data(Field, [name[0]])], Singles(Field, name[1..]), |name| - 1,
             Run(g, Named(p, name), rest));
  }

  // ---------------------------------------------------------------- header values

  /** A byte of an unquoted value. */
  predicate IsPlainByte(b: byte) {
    IsFieldByte(b) && b != 34
  }

  /** A byte of a value that does not end the line. */
  predicate IsTextByte(b: byte) {
    IsFieldByte(b)
  }

  /** Text that begins with no white space. */
  predicate IsText(value: seq<byte>) {
    && value != [] && value[0] != 32 && value[0] != 9
    && forall i :: 0 <= i < |value| ==> IsTextByte(value[i])
  }

  /** The states of a value that is not watched: outside quotes, inside, behind a backslash. */
  predicate Quotes(hs: HeaderState) {
    hs.General? || hs.Quoted? || hs.Escaped?
  }

  function QuoteStep(hs: HeaderState, ch: byte): (t: HeaderState)
    ensures Quotes(t)
  {
    if hs.Escaped? then Quoted
    else if ch == 34 then (if hs.Quoted? then General else Quoted)
    else if hs.Quoted? then (if ch == 92 then Escaped else Quoted)
    else General
  }

  function Quoting(hs: HeaderState, bytes: seq<byte>): (t: HeaderState)
    requires Quotes(hs)
    ensures Quotes(t)
    decreases |bytes|
  {
    if bytes == [] then hs else Quoting(QuoteStep(hs, bytes[0]), bytes[1..])
  }

  /** The largest content length accepted, eight short of 2^63 - 1. */
  const MAX_CONTENT_LENGTH := 9223372036854775799

  lemma {:induction false} DecimalGrows(v: nat, digits: seq<byte>)
    requires AreDecimals(digits)
    ensures v <= DecimalFrom(v, digits)
    ensures digits != [] ==> v * 10 <= DecimalFrom(v, digits)
    decreases |digits|
  {
    if digits != [] { DecimalGrows(v * 10 + (digits[0] - 48), digits[1..]); }
  }

  lemma LengthDigit(g: Setting, p: Parser, ch: byte)
    requires p.state.HeaderValue? && p.hs.LengthHeader? && !p.muted && 0 <= p.length && IsDecimal(ch)
    ensures var next := p.length * 10 + (ch - 48);
      TurnOf(g, p, ch) ==
        if next <= MAX_CONTENT_LENGTH then Take(p.(length := next), [Data(Value, [ch])]) else Fail(HugeContentLength)
  {
  }

  /** A content length of any number of digits is read exactly, or refused exactly when its
      value exceeds MAX_CONTENT_LENGTH. */
  lemma {:induction false} LengthRun(g: Setting, p: Parser, digits: seq<byte>, rest: seq<byte>)
    requires p.state.HeaderValue? && p.hs.LengthHeader? && !p.muted && 0 <= p.length <= MAX_CONTENT_LENGTH && AreDecimals(digits)
    ensures var v := DecimalFrom(p.length, digits);
      if v <= MAX_CONTENT_LENGTH
      then Run(g, p, digits + rest) == Before(Singles(Value, digits), |digits|, Run(g, p.(length := v), rest))
      else Run(g, p, digits + rest).end == Failed(HugeContentLength)
    decreases |digits|
  {
    if digits == [] {
      RunNothing(g, p, rest);
    } else {
      var more := digits[1..];
      var n := p.length * 10 + (digits[0] - 48);
      HeadTail(digits, rest);
      LengthDigit(g, p, digits[0]);
      DecimalGrows(n, more);
      if n <= MAX_CONTENT_LENGTH {
        LengthRun(g, p.(length := n), more, rest);
        LengthStep(g, p, digits, n, DecimalFrom(n, more), rest);
      }
    }
  }

  /** One digit and then the others. */
  lemma LengthStep(g: Setting, p: Parser, digits: seq<byte>, n: nat, v: nat, rest: seq<byte>)
    requires !p.state.Start? && digits != [] && TurnOf(g, p, digits[0]) == Take(p.(length := n), [Data(Value, [digits[0]])])
    ensures var o := Run(g, p.(length := n), digits[1..] + rest);
      && (o.end.Failed? ==> Run(g, p, digits + rest).end == o.end)
      && (o == Before(Singles(Value, digits[1..]), |digits| - 1, Run(g, p.(length := v), rest)) ==>
            Run(g, p, digits + rest) == Before(Singles(Value, digits), |digits|, Run(g, p.(length := v), rest)))
  {
    var more, end := digits[1..], Run(g, p.(length := v), rest);
    HeadTail(digits, rest);
    SinglesCons(Value, digits);
    RunTake(g, p, digits + rest, p.(length := n), [Data(Value, [digits[0]])]);
    BeforeBefore([Data(Value, [digits[0]])], 1, Singles(Value, more), |more|, end);
  }

  lemma TextTurn(g: Setting, p: Parser, ch: byte)
    requires p.state.HeaderValue? && Quotes(p.hs) && !p.muted && IsTextByte(ch)
    ensures TurnOf(g, p, ch) == Take(p.(hs := QuoteStep(p.hs, ch)), [Data(Value, [ch])])
  {
  }

  /** Text, whatever it quotes. */
  lemma {:induction false} QuotedRun(g: Setting, p: Parser, value: seq<byte>, rest: seq<byte>)
    requires p.state.HeaderValue? && Quotes(p.hs) && !p.muted
    requires forall i :: 0 <= i < |value| ==> IsTextByte(value[i])
    ensures Run(g, p, value + rest) == Before(Singles(Value, value), |value|, Run(g, p.(hs := Quoting(p.hs, value)), rest))
    decreases |value|
  {
    if value == [] {
      RunNothing(g, p, rest);
    } else {
      var q := p.(hs := QuoteStep(p.hs, value[0]));
      HeadTail(value, rest);
      TextTurn(g, p, value[0]);
      SinglesCons(Value, value);
      QuotedRun(g, q, value[1..], rest);
      TakeThen(g, p, value + rest, q, [Data(Value, [value[0]])], Singles(Value, value[1..]), |value| - 1,
               Run(g, p.(hs := Quoting(p.hs, value)), rest));
    }
  }

  predicate SpellsChunked(value: seq<byte>) {
    |value| == 7 && forall i :: 0 <= i < 7 ==> Downcase(value[i]) == "chunked"[i] as int
  }

  lemma ChunkedTurn(g: Setting, p: Parser, ch: byte)
    requires p.state.HeaderValue? && p.hs.MatchingChunked? && !p.muted && p.index < 6
    requires Lower(ch) == CHUNKED[p.index + 1] as int
    ensures TurnOf(g, p, ch) ==
      Take(p.(index := p.index + 1, hs := if p.index + 1 == 6 then ChunkedValue else MatchingChunked), [Data(Value, [ch])])
  {
    assert |CHUNKED| == 7;
    assert ch != CR && ch != LF && IsHeaderChar(ch);
  }

  /** The rest of "chunked". */
  lemma {:induction false} ChunkedRun(g: Setting, p: Parser, value: seq<byte>, rest: seq<byte>)
    requires p.state.HeaderValue? && p.hs.MatchingChunked? && !p.muted && p.index < 6 && |value| == 6 - p.index
    requires forall j :: 0 <= j < |value| ==> Lower(value[j]) == CHUNKED[p.index + 1 + j] as int
    ensures Run(g, p, value + rest) ==
      Before(Singles(Value, value), |value|, Run(g, p.(index := 6, hs := ChunkedValue), rest))
    decreases |value|
  {
    var q := p.(index := p.index + 1, hs := if p.index + 1 == 6 then ChunkedValue else MatchingChunked);
    var end := Run(g, p.(index := 6, hs := ChunkedValue), rest);
    HeadTail(value, rest);
    ChunkedTurn(g, p, value[0]);
    SinglesCons(Value, value);
    if |value| == 1 {
      assert value[1..] == [];
      RunNothing(g, q, rest);
      TakeThen(g, p, value + rest, q, [Data(Value, [value[0]])], [], 0, end);
    } else {
      assert forall j :: 0 <= j < |value| - 1 ==> value[1..][j] == value[j + 1];
      ChunkedRun(g, q, value[1..], rest);
      TakeThen(g, p, value + rest, q, [Data(Value, [value[0]])], Singles(Value, value[1..]), |value| - 1, end);
    }
  }

  // ---------------------------------------------------------------- header lines

  /** A continuation line. */
  datatype Fold = Fold(blank: seq<byte>, text: seq<byte>)

  datatype Line = Line(name: seq<byte>, value: seq<byte>, folds: seq<Fold>)

  /** Text that does not end behind a backslash in quotes. */
  predicate IsWhole(value: seq<byte>) {
    IsText(value) && !Quoting(General, value).Escaped?
  }

  predicate IsFold(f: Fold) {
    && f.blank != [] && (forall i :: 0 <= i < |f.blank| ==> f.blank[i] == 32 || f.blank[i] == 9)
    && IsWhole(f.text)
  }

  ghost predicate AreFolds(folds: seq<Fold>) {
    forall i :: 0 <= i < |folds| ==> IsFold(folds[i])
  }

  ghost predicate IsPlainLine(l: Line) {
    && IsToken(l.name) && IsWhole(l.value) && AreFolds(l.folds)
    && !Spells(l.name, "content-length") && !Spells(l.name, "transfer-encoding") && !Spells(l.name, "upgrade")
  }

  /** A quote that opens the value of an upgrade header is not noticed. */
  ghost predicate IsUpgradeLine(l: Line) {
    && IsToken(l.name) && Spells(l.name, "upgrade") && AreFolds(l.folds)
    && IsText(l.value) && !Quoting(General, l.value[1..]).Escaped?
  }

  predicate IsLengthLine(l: Line) {
    && IsToken(l.name) && Spells(l.name, "content-length") && l.folds == []
    && l.value != [] && AreDecimals(l.value) && DecimalFrom(0, l.value) <= MAX_CONTENT_LENGTH
  }

  predicate IsChunkedLine(l: Line) {
    IsToken(l.name) && Spells(l.name, "transfer-encoding") && SpellsChunked(l.value) && l.folds == []
  }

  ghost predicate IsLine(l: Line) {
    IsPlainLine(l) || IsUpgradeLine(l) || IsLengthLine(l) || IsChunkedLine(l)
  }

  const COLON: seq<byte> := [58, 32]

  function FoldBytes(folds: seq<Fold>): seq<byte> {
    if folds == [] then [] else folds[0].blank + (folds[0].text + (CRLF + FoldBytes(folds[1..])))
  }

  function LineBytes(l: Line): seq<byte> {
    l.name + (COLON + (l.value + (CRLF + FoldBytes(l.folds))))
  }

  /** A value, or a piece of one, and the callback at the end of its line. */
  function PieceEvents(value: seq<byte>): seq<Event> {
    Singles(Value, value) + [Data(Value, [])]
  }

  /** White space that continues a value is reported as one space. */
  function FoldEvents(folds: seq<Fold>): seq<Event> {
    if folds == [] then [] else [Data(Value, [32])] + (PieceEvents(folds[0].text) + FoldEvents(folds[1..]))
  }

  function LineEvents(l: Line): seq<Event> {
    Singles(Field, l.name) + ([Data(Field, [])] + (PieceEvents(l.value) + FoldEvents(l.folds)))
  }

  /** The parser behind the line of a value that is not watched. */
  function AfterText(p: Parser, value: seq<byte>): (q: Parser)
    requires value != []
    ensures q.state.HeaderValueLws? && Quotes(q.hs)
  {
    p.(state := HeaderValueLws, muted := false, index := 0,
       hs := Quoting(if p.hs.UpgradeHeader? then General else QuoteStep(General, value[0]), value[1..]),
       upgradeSeen := p.upgradeSeen || p.hs.UpgradeHeader?)
  }

  function AfterFolds(p: Parser, folds: seq<Fold>): Parser
    requires AreFolds(folds)
    decreases |folds|
  {
    if folds == [] then p else AfterFolds(AfterText(p, folds[0].text), folds[1..])
  }

  /** The parser behind the first line of a header. */
  ghost function AfterValue(p: Parser, l: Line): (q: Parser)
    requires IsLine(l)
    ensures q.state.HeaderValueLws? && (l.folds == [] || Quotes(q.hs))
  {
    var q := p.(state := HeaderValueLws, muted := false);
    if IsPlainLine(l) then AfterText(q.(hs := General), l.value)
    else if IsUpgradeLine(l) then AfterText(q.(hs := UpgradeHeader), l.value)
    else if IsLengthLine(l) then q.(hs := LengthHeader, index := 0, length := DecimalFrom(0, l.value))
    else q.(hs := ChunkedValue, index := 6, chunked := true)
  }

  /** The parser behind a header line and those that continue it. */
  ghost function AfterLine(p: Parser, l: Line): Parser
    requires IsLine(l)
  {
    AfterFolds(AfterValue(p, l), l.folds)
  }

  lemma ColonBytes(rest: seq<byte>)
    ensures (COLON + rest)[0] == 58 && (COLON + rest)[1..] == [SPACE] + rest
    ensures ([SPACE] + rest)[0] == SPACE && ([SPACE] + rest)[1..] == rest
  {
  }

  lemma ColonRun(g: Setting, p: Parser, rest: seq<byte>)
    requires p.state.HeaderField?
    ensures Run(g, p, COLON + rest) == Before([Data(Field, [])], 2, Run(g, p.(state := HeaderValueStart), rest))
  {
    var q := p.(state := HeaderValueStart);
    var end := Run(g, q, rest);
    ColonBytes(rest);
    ColonTurns(g, p);
    RunNothing(g, q, rest);
    SkipThen(g, q, [SPACE] + rest, q, [], 0, end);
    TakeThen(g, p, COLON + rest, q, [Data(Field, [])], [], 1, end);
    assert [Data(Field, [])] + [] == [Data(Field, [])];
  }

  lemma ColonTurns(g: Setting, p: Parser)
    requires p.state.HeaderField?
    ensures TurnOf(g, p, 58) == Take(p.(state := HeaderValueStart), [Data(Field, [])])
    ensures TurnOf(g, p.(state := HeaderValueStart), SPACE) == Take(p.(state := HeaderValueStart), [])
  {
  }

  /** The end of a header line. */
  lemma ValueEndRun(g: Setting, p: Parser, rest: seq<byte>)
    requires p.state.HeaderValue? && !p.muted && !p.hs.Escaped?
    ensures Run(g, p, CRLF + rest) == Before([Data(Value, [])], 2,
      Run(g, p.(state := HeaderValueLws, chunked := p.chunked || p.hs == ChunkedValue), rest))
  {
    var q, r := p.(state := HeaderAlmostDone), p.(state := HeaderValueLws, chunked := p.chunked || p.hs == ChunkedValue);
    var end := Run(g, r, rest);
    LineEndBytes(rest);
    ValueEndTurns(g, p);
    RunNothing(g, r, rest);
    SkipThen(g, q, [LF] + rest, r, [], 0, end);
    TakeThen(g, p, CRLF + rest, q, [Data(Value, [])], [], 1, end);
    assert [Data(Value, [])] + [] == [Data(Value, [])];
  }

  lemma ValueEndTurns(g: Setting, p: Parser)
    requires p.state.HeaderValue? && !p.muted && !p.hs.Escaped?
    ensures TurnOf(g, p, CR) == Take(p.(state := HeaderAlmostDone), [Data(Value, [])])
    ensures TurnOf(g, p.(state := HeaderAlmostDone), LF)
      == Take(p.(state := HeaderValueLws, chunked := p.chunked || p.hs == ChunkedValue), [])
  {
  }

  /** The first byte of a value, for each kind of header. */
  lemma FirstValueTurn(g: Setting, p: Parser, ch: byte)
    requires p.state.HeaderValueStart?
    ensures var q := p.(state := HeaderValue, index := 0, muted := false);
      && (!p.hs.LengthHeader? && !p.hs.EncodingHeader? && !p.hs.UpgradeHeader? && IsTextByte(ch) && ch != SPACE && ch != TAB ==>
            TurnOf(g, p, ch) == Take(q.(hs := QuoteStep(General, ch)), [Data(Value, [ch])]))
      && (p.hs.UpgradeHeader? && IsTextByte(ch) && ch != SPACE && ch != TAB ==>
            TurnOf(g, p, ch) == Take(q.(hs := General, upgradeSeen := true), [Data(Value, [ch])]))
      && (p.hs.EncodingHeader? && Lower(ch) == 'c' as int ==>
            TurnOf(g, p, ch) == Take(q.(hs := MatchingChunked), [Data(Value, [ch])]))
  {
  }

  /** A value whose first byte leads to `q1` and whose other bytes lead on to `q2`. */
  lemma ValueFinish(g: Setting, p: Parser, value: seq<byte>, q1: Parser, q2: Parser, r: Parser, rest: seq<byte>)
    requires !p.state.Start? && value != [] && TurnOf(g, p, value[0]) == Take(q1, [Data(Value, [value[0]])])
    requires Run(g, q1, value[1..] + (CRLF + rest)) == Before(Singles(Value, value[1..]), |value| - 1, Run(g, q2, CRLF + rest))
    requires q2.state.HeaderValue? && !q2.muted && !q2.hs.Escaped?
    requires r == q2.(state := HeaderValueLws, chunked := q2.chunked || q2.hs == ChunkedValue)
    ensures Run(g, p, value + (CRLF + rest)) ==
      Before(Singles(Value, value) + [Data(Value, [])], |value| + 2, Run(g, r, rest))
  {
    var more, end := value[1..], Run(g, r, rest);
    HeadTail(value, CRLF + rest);
    SinglesCons(Value, value);
    ValueEndRun(g, q2, rest);
    BeforeBefore(Singles(Value, more), |more|, [Data(Value, [])], 2, end);
    TakeThen(g, p, value + (CRLF + rest), q1, [Data(Value, [value[0]])], Singles(Value, more) + [Data(Value, [])], |more| + 2, end);
    Assoc([Data(Value, [value[0]])], Singles(Value, more), [Data(Value, [])]);
  }

  /** A value that is not watched, and the end of its line. */
  lemma TextRun(g: Setting, p: Parser, value: seq<byte>, rest: seq<byte>)
    requires p.state.HeaderValueStart? && !p.hs.LengthHeader? && !p.hs.EncodingHeader?
    requires IsText(value) && !AfterText(p, value).hs.Escaped?
    ensures Run(g, p, value + (CRLF + rest)) == Before(PieceEvents(value), |value| + 2, Run(g, AfterText(p, value), rest))
  {
    var r := AfterText(p, value);
    var q := r.(state := HeaderValue, hs := if p.hs.UpgradeHeader? then General else QuoteStep(General, value[0]));
    FirstValueTurn(g, p, value[0]);
    QuotedRun(g, q, value[1..], CRLF + rest);
    ValueFinish(g, p, value, q, q.(hs := r.hs), r, rest);
  }

  /** White space in front of a value. */
  lemma {:induction false} BlankRun(g: Setting, p: Parser, blank: seq<byte>, rest: seq<byte>)
    requires p.state.HeaderValueStart? && forall i :: 0 <= i < |blank| ==> blank[i] == SPACE || blank[i] == TAB
    ensures Run(g, p, blank + rest) == Before([], |blank|, Run(g, p, rest))
    decreases |blank|
  {
    if blank == [] {
      RunNothing(g, p, rest);
    } else {
      HeadTail(blank, rest);
      BlankRun(g, p, blank[1..], rest);
      SkipThen(g, p, blank + rest, p, [], |blank| - 1, Run(g, p, rest));
    }
  }

  /** The white space a continuation line begins with. */
  lemma FoldStart(g: Setting, p: Parser, blank: seq<byte>, rest: seq<byte>)
    requires p.state.HeaderValueLws? && blank != []
    requires forall i :: 0 <= i < |blank| ==> blank[i] == SPACE || blank[i] == TAB
    ensures Run(g, p, blank + rest) == Before([Data(Value, [SPACE])], |blank|, Run(g, p.(state := HeaderValueStart), rest))
  {
    var q := p.(state := HeaderValueStart);
    HeadTail(blank, rest);
    BlankRun(g, q, blank[1..], rest);
    TakeThen(g, p, blank + rest, q, [Data(Value, [SPACE])], [], |blank| - 1, Run(g, q, rest));
    assert [Data(Value, [SPACE])] + [] == [Data(Value, [SPACE])];
  }

  /** One continuation line. */
  lemma FoldRun(g: Setting, p: Parser, f: Fold, rest: seq<byte>)
    requires p.state.HeaderValueLws? && Quotes(p.hs) && IsFold(f)
    ensures Run(g, p, f.blank + (f.text + (CRLF + rest)))
         == Before([Data(Value, [SPACE])] + PieceEvents(f.text), |f.blank| + (|f.text| + 2), Run(g, AfterText(p, f.text), rest))
  {
    var q, r := p.(state := HeaderValueStart), AfterText(p, f.text);
    var tail := f.text + (CRLF + rest);
    FoldStart(g, p, f.blank, tail);
    TextRun(g, q, f.text, rest);
    InTurn(Run(g, p, f.blank + tail), [Data(Value, [SPACE])], |f.blank|, Run(g, q, tail),
           PieceEvents(f.text), |f.text| + 2, Run(g, r, rest));
  }

  /** Continuation lines. */
  lemma {:induction false} FoldsRun(g: Setting, p: Parser, folds: seq<Fold>, rest: seq<byte>)
    requires p.state.HeaderValueLws? && (folds == [] || Quotes(p.hs)) && AreFolds(folds)
    ensures Run(g, p, FoldBytes(folds) + rest)
         == Before(FoldEvents(folds), |FoldBytes(folds)|, Run(g, AfterFolds(p, folds), rest))
    decreases |folds|
  {
    if folds == [] {
      RunNothing(g, p, rest);
    } else {
      var f, more := folds[0], FoldBytes(folds[1..]);
      FoldBytesWith(f, more, rest);
      FoldRun(g, p, f, more + rest);
      FoldsRun(g, AfterText(p, f.text), folds[1..], rest);
      InTurn(Run(g, p, FoldBytes(folds) + rest), [Data(Value, [SPACE])] + PieceEvents(f.text), |f.blank| + (|f.text| + 2),
             Run(g, AfterText(p, f.text), more + rest), FoldEvents(folds[1..]), |more|, Run(g, AfterFolds(p, folds), rest));
      Assoc([Data(Value, [SPACE])], PieceEvents(f.text), FoldEvents(folds[1..]));
    }
  }

  lemma FoldBytesWith(f: Fold, more: seq<byte>, rest: seq<byte>)
    ensures f.blank + (f.text + (CRLF + more)) + rest == f.blank + (f.text + (CRLF + (more + rest)))
  {
    Assoc(f.blank, f.text + (CRLF + more), rest);
    Assoc(f.text, CRLF + more, rest);
    Assoc(CRLF, more, rest);
  }

  /** A value that is not watched, when it is known what follows its line. */
  lemma TextThen(g: Setting, p: Parser, value: seq<byte>, tail: seq<byte>, es: seq<Event>, n: nat, end: Outcome)
    requires p.state.HeaderValueStart? && !p.hs.LengthHeader? && !p.hs.EncodingHeader?
    requires IsText(value) && !AfterText(p, value).hs.Escaped?
    requires Run(g, AfterText(p, value), tail) == Before(es, n, end)
    ensures Run(g, p, value + (CRLF + tail)) == Before(PieceEvents(value) + es, |value| + 2 + n, end)
  {
    TextRun(g, p, value, tail);
    BeforeBefore(PieceEvents(value), |value| + 2, es, n, end);
  }

  lemma DecimalSplit(value: seq<byte>)
    requires value != [] && AreDecimals(value)
    ensures 0 <= value[0] - 48 <= DecimalFrom(0, value)
    ensures AreDecimals(value[1..]) && DecimalFrom(value[0] - 48, value[1..]) == DecimalFrom(0, value)
  {
    DecimalGrows(value[0] - 48, value[1..]);
  }

  lemma AfterLengthLine(p: Parser, l: Line)
    requires IsLengthLine(l)
    ensures AfterValue(p, l) ==
      p.(state := HeaderValueLws, muted := false, hs := LengthHeader, index := 0, length := DecimalFrom(0, l.value))
  {
    LineKinds(l);
  }

  /** A length and the end of its line. */
  lemma LengthToEnd(g: Setting, p: Parser, value: seq<byte>, rest: seq<byte>)
    requires p.state.HeaderValueStart? && p.hs.LengthHeader?
    requires value != [] && AreDecimals(value) && DecimalFrom(0, value) <= MAX_CONTENT_LENGTH
    ensures var r := p.(state := HeaderValueLws, index := 0, muted := false, length := DecimalFrom(0, value));
      Run(g, p, value + (CRLF + rest)) == Before(PieceEvents(value), |value| + 2, Run(g, r, rest))
  {
    var d, v := value[0] - 48, DecimalFrom(0, value);
    FirstLengthTurn(g, p, value[0]);
    DecimalSplit(value);
    LengthRead(g, InLength(p, d), value[1..], v, CRLF + rest);
    ValueFinish(g, p, value, InLength(p, d), InLength(p, v), InLength(p, v).(state := HeaderValueLws), rest);
  }

  /** The parser inside the value of a content-length header, `n` read so far. */
  function InLength(p: Parser, n: int): Parser {
    p.(state := HeaderValue, index := 0, muted := false, length := n)
  }

  lemma FirstLengthTurn(g: Setting, p: Parser, ch: byte)
    requires p.state.HeaderValueStart? && p.hs.LengthHeader? && IsDecimal(ch)
    ensures TurnOf(g, p, ch) == Take(InLength(p, ch - 48), [Data(Value, [ch])])
  {
  }

  lemma LengthRead(g: Setting, q: Parser, digits: seq<byte>, v: nat, rest: seq<byte>)
    requires q.state.HeaderValue? && q.hs.LengthHeader? && !q.muted && 0 <= q.length && AreDecimals(digits)
    requires v == DecimalFrom(q.length, digits) && v <= MAX_CONTENT_LENGTH
    ensures Run(g, q, digits + rest) == Before(Singles(Value, digits), |digits|, Run(g, q.(length := v), rest))
  {
    DecimalGrows(q.length, digits);
    LengthRun(g, q, digits, rest);
  }

  lemma LengthValueRun(g: Setting, p: Parser, l: Line, rest: seq<byte>)
    requires p.state.HeaderValueStart? && IsLengthLine(l) && p.hs.LengthHeader?
    ensures Run(g, p, l.value + (CRLF + rest)) ==
      Before(PieceEvents(l.value), |l.value| + 2, Run(g, AfterValue(p, l), rest))
  {
    LengthToEnd(g, p, l.value, rest);
    AfterLengthLine(p, l);
  }

  lemma ChunkedValueRun(g: Setting, p: Parser, l: Line, rest: seq<byte>)
    requires p.state.HeaderValueStart? && IsChunkedLine(l) && p.hs.EncodingHeader?
    ensures Run(g, p, l.value + (CRLF + rest)) ==
      Before(PieceEvents(l.value), |l.value| + 2, Run(g, AfterValue(p, l), rest))
  {
    var q := p.(state := HeaderValue, index := 0, muted := false);
    var q1, q2 := q.(hs := MatchingChunked), q.(index := 6, hs := ChunkedValue);
    FirstValueTurn(g, p, l.value[0]);
    ChunkedRun(g, q1, l.value[1..], CRLF + rest);
    ValueFinish(g, p, l.value, q1, q2, AfterValue(p, l), rest);
  }

  /** The value of a header line and its end, when it is known what follows. */
  lemma ValueThen(g: Setting, p: Parser, l: Line, tail: seq<byte>, es: seq<Event>, n: nat, end: Outcome)
    requires p.state.HeaderValueStart? && IsLine(l)
    requires p.hs.LengthHeader? <==> Spells(l.name, CONTENT_LENGTH)
    requires p.hs.EncodingHeader? <==> Spells(l.name, TRANSFER_ENCODING)
    requires p.hs.UpgradeHeader? <==> Spells(l.name, UPGRADE)
    requires Run(g, AfterValue(p, l), tail) == Before(es, n, end)
    ensures Run(g, p, l.value + (CRLF + tail)) == Before(PieceEvents(l.value) + es, |l.value| + 2 + n, end)
  {
    if IsPlainLine(l) || IsUpgradeLine(l) {
      AfterTextLine(p, l);
      TextThen(g, p, l.value, tail, es, n, end);
    } else {
      if IsLengthLine(l) { LengthValueRun(g, p, l, tail); } else { ChunkedValueRun(g, p, l, tail); }
      BeforeBefore(PieceEvents(l.value), |l.value| + 2, es, n, end);
    }
  }

  lemma AfterTextLine(p: Parser, l: Line)
    requires IsPlainLine(l) || IsUpgradeLine(l)
    requires p.hs.UpgradeHeader? <==> Spells(l.name, UPGRADE)
    ensures AfterValue(p, l) == AfterText(p, l.value) && !AfterText(p, l.value).hs.Escaped?
  {
    var hs := if IsPlainLine(l) then General else UpgradeHeader;
    AfterTextForgets(p, p.(state := HeaderValueLws, muted := false, hs := hs), l.value);
  }

  lemma AfterTextForgets(p: Parser, q: Parser, value: seq<byte>)
    requires value != [] && q == p.(state := q.state, muted := q.muted, hs := q.hs, index := q.index) && (q.hs.UpgradeHeader? <==> p.hs.UpgradeHeader?)
    ensures AfterText(q, value) == AfterText(p, value)
  {
  }

  lemma LineBytesWith(l: Line, rest: seq<byte>)
    ensures LineBytes(l) + rest == l.name + (COLON + (l.value + (CRLF + (FoldBytes(l.folds) + rest))))
  {
    Assoc(l.name, COLON + (l.value + (CRLF + FoldBytes(l.folds))), rest);
    Assoc(COLON, l.value + (CRLF + FoldBytes(l.folds)), rest);
    Assoc(l.value, CRLF + FoldBytes(l.folds), rest);
    Assoc(CRLF, FoldBytes(l.folds), rest);
  }

  /** What the name leaves does not matter once the value is behind. */
  lemma AfterValueForgets(p: Parser, q: Parser, l: Line)
    requires IsLine(l) && q == p.(state := q.state, hs := q.hs, index := q.index)
    ensures AfterValue(q, l) == AfterValue(p, l)
  {
    if IsPlainLine(l) || IsUpgradeLine(l) {
      var hs := if IsPlainLine(l) then General else UpgradeHeader;
      AfterTextForgets(p.(state := HeaderValueLws, muted := false, hs := hs), q.(state := HeaderValueLws, muted := false, hs := hs), l.value);
    }
  }

  /** The parser behind the colon. */
  ghost function ValueStart(p: Parser, l: Line): (r: Parser)
    requires IsLine(l)
    ensures r == Named(p, l.name).(state := HeaderValueStart) && AfterValue(r, l) == AfterValue(p, l)
    ensures r.hs.LengthHeader? <==> Spells(l.name, CONTENT_LENGTH)
    ensures r.hs.EncodingHeader? <==> Spells(l.name, TRANSFER_ENCODING)
    ensures r.hs.UpgradeHeader? <==> Spells(l.name, UPGRADE)
  {
    NameRecognised(p, l.name);
    AfterValueForgets(p, Named(p, l.name).(state := HeaderValueStart), l);
    Named(p, l.name).(state := HeaderValueStart)
  }

  /** A name, when it is known what follows its colon. */
  lemma NameThen(g: Setting, p: Parser, name: seq<byte>, tail: seq<byte>, es: seq<Event>, n: nat, end: Outcome)
    requires p.state.HeaderFieldStart? && IsToken(name)
    requires Run(g, Named(p, name).(state := HeaderValueStart), tail) == Before(es, n, end)
    ensures Run(g, p, name + (COLON + tail)) == Before(Singles(Field, name) + ([Data(Field, [])] + es), |name| + 2 + n, end)
  {
    var q := Named(p, name);
    NameRun(g, p, name, COLON + tail);
    ColonRun(g, q, tail);
    BeforeBefore([Data(Field, [])], 2, es, n, end);
    BeforeBefore(Singles(Field, name), |name|, [Data(Field, [])] + es, 2 + n, end);
  }

  /** A header line: its name and value are reported, and it does what it says. */
  lemma LineRun(g: Setting, p: Parser, l: Line, rest: seq<byte>)
    requires p.state.HeaderFieldStart? && IsLine(l)
    ensures Run(g, p, LineBytes(l) + rest) == Before(LineEvents(l), |LineBytes(l)|, Run(g, AfterLine(p, l), rest))
  {
    LineBytesWith(l, rest);
    FoldsRun(g, AfterValue(p, l), l.folds, rest);
    LineThen(g, p, l, FoldBytes(l.folds) + rest, FoldEvents(l.folds), |FoldBytes(l.folds)|, Run(g, AfterLine(p, l), rest));
  }

  /** Its first line, when it is known what follows. */
  lemma LineThen(g: Setting, p: Parser, l: Line, tail: seq<byte>, es: seq<Event>, n: nat, end: Outcome)
    requires p.state.HeaderFieldStart? && IsLine(l)
    requires Run(g, AfterValue(p, l), tail) == Before(es, n, end)
    ensures Run(g, p, l.name + (COLON + (l.value + (CRLF + tail))))
         == Before(Singles(Field, l.name) + ([Data(Field, [])] + (PieceEvents(l.value) + es)),
                   |l.name| + 2 + (|l.value| + 2 + n), end)
  {
    ValueThen(g, ValueStart(p, l), l, tail, es, n, end);
    NameThen(g, p, l.name, l.value + (CRLF + tail), PieceEvents(l.value) + es, |l.value| + 2 + n, end);
  }

  // ---------------------------------------------------------------- header sections

  /** A byte that is not white space ends the look for a continuation line. */
  lemma NoContinuation(g: Setting, p: Parser, bytes: seq<byte>)
    requires p.state.HeaderValueLws? && bytes != [] && bytes[0] != SPACE && bytes[0] != TAB
    ensures Run(g, p, bytes) == Run(g, p.(state := HeaderFieldStart), bytes)
  {
    var q := p.(state := HeaderFieldStart);
    RunAgain(g, p, bytes, q, []);
    assert [] + Run(g, q, bytes).events == Run(g, q, bytes).events;
  }

  function Block(lines: seq<Line>): seq<byte> {
    if lines == [] then [] else LineBytes(lines[0]) + Block(lines[1..])
  }

  function BlockEvents(lines: seq<Line>): seq<Event> {
    if lines == [] then [] else LineEvents(lines[0]) + BlockEvents(lines[1..])
  }

  ghost predicate AreLines(lines: seq<Line>) {
    forall i :: 0 <= i < |lines| ==> IsLine(lines[i])
  }

  /** The parser about to read the line behind a block. */
  ghost function AfterBlock(p: Parser, lines: seq<Line>): Parser
    requires AreLines(lines)
    decreases |lines|
  {
    if lines == [] then p else AfterBlock(AfterLine(p, lines[0]).(state := HeaderFieldStart), lines[1..])
  }

  lemma NextByte(lines: seq<Line>, rest: seq<byte>)
    requires AreLines(lines) && rest != [] && rest[0] != SPACE && rest[0] != TAB
    ensures var b := Block(lines) + rest; b != [] && b[0] != SPACE && b[0] != TAB
  {
    if lines == [] {
      assert [] + rest == rest;
    } else {
      assert (Block(lines) + rest)[0] == lines[0].name[0];
      assert Token(SPACE) == 0 && Token(TAB) == 0;
    }
  }

  /** Any list of header lines. */
  lemma {:induction false} BlockRun(g: Setting, p: Parser, lines: seq<Line>, rest: seq<byte>)
    requires p.state.HeaderFieldStart? && AreLines(lines)
    requires rest != [] && rest[0] != SPACE && rest[0] != TAB
    ensures Run(g, p, Block(lines) + rest) == Before(BlockEvents(lines), |Block(lines)|, Run(g, AfterBlock(p, lines), rest))
    decreases |lines|
  {
    if lines == [] {
      RunNothing(g, p, rest);
    } else {
      var l, more := lines[0], Block(lines[1..]);
      var q := AfterLine(p, l);
      var end := Run(g, AfterBlock(p, lines), rest);
      Assoc(LineBytes(l), more, rest);
      LineRun(g, p, l, more + rest);
      NextByte(lines[1..], rest);
      LineEffect(p, l);
      NoContinuation(g, q, more + rest);
      BlockRun(g, q.(state := HeaderFieldStart), lines[1..], rest);
      InTurn(Run(g, p, Block(lines) + rest), LineEvents(l), |LineBytes(l)|, Run(g, q, more + rest),
             BlockEvents(lines[1..]), |more|, end);
    }
  }

  /** What the lines of a section say about the body. */
  predicate SaysChunked(lines: seq<Line>) {
    lines != [] && (IsChunkedLine(lines[0]) || SaysChunked(lines[1..]))
  }

  /** Whether an upgrade header is among them. */
  ghost predicate SaysUpgrade(lines: seq<Line>) {
    lines != [] && (IsUpgradeLine(lines[0]) || SaysUpgrade(lines[1..]))
  }

  function SaysLength(lines: seq<Line>, before: int): int
    decreases |lines|
  {
    if lines == [] then before
    else SaysLength(lines[1..], if IsLengthLine(lines[0]) then DecimalFrom(0, lines[0].value) else before)
  }

  lemma LineKinds(l: Line)
    ensures IsLengthLine(l) ==> !IsPlainLine(l) && !IsUpgradeLine(l) && !IsChunkedLine(l)
    ensures IsChunkedLine(l) ==> !IsPlainLine(l) && !IsUpgradeLine(l)
    ensures IsPlainLine(l) ==> !IsUpgradeLine(l)
  {
    assert |CONTENT_LENGTH| == 14 && |TRANSFER_ENCODING| == 17 && |UPGRADE| == 7;
  }

  lemma {:induction false} FoldsEffect(p: Parser, folds: seq<Fold>)
    requires p.state.HeaderValueLws? && (folds == [] || Quotes(p.hs)) && AreFolds(folds)
    ensures var q := AfterFolds(p, folds); q == p.(hs := q.hs, index := q.index, muted := q.muted)
    decreases |folds|
  {
    if folds != [] { FoldsEffect(AfterText(p, folds[0].text), folds[1..]); }
  }

  /** What one line does besides being reported. */
  lemma LineEffect(p: Parser, l: Line)
    requires IsLine(l)
    ensures var q := AfterLine(p, l);
      q == p.(state := HeaderValueLws, muted := q.muted, hs := q.hs, index := q.index,
              chunked := p.chunked || IsChunkedLine(l), upgradeSeen := p.upgradeSeen || IsUpgradeLine(l),
              length := if IsLengthLine(l) then DecimalFrom(0, l.value) else p.length)
  {
    LineKinds(l);
    FoldsEffect(AfterValue(p, l), l.folds);
  }

  /** Of a block only the coding, the last content length and an upgrade header matter. */
  lemma {:induction false} BlockEffect(p: Parser, lines: seq<Line>)
    requires p.state.HeaderFieldStart? && AreLines(lines)
    ensures var q := AfterBlock(p, lines);
      && q.state.HeaderFieldStart? && q.chunked == (p.chunked || SaysChunked(lines)) && q.length == SaysLength(lines, p.length)
      && q.trailing == p.trailing && q.upgradeSeen == (p.upgradeSeen || SaysUpgrade(lines))
      && q.skipBody == p.skipBody && q.upgrade == p.upgrade
    decreases |lines|
  {
    if lines != [] {
      LineEffect(p, lines[0]);
      BlockEffect(AfterLine(p, lines[0]).(state := HeaderFieldStart), lines[1..]);
    }
  }

  /** The parser when the headers are complete. */
  function Decided(g: Setting, p: Parser): Parser {
    p.(upgrade := p.upgradeSeen || g.connect, skipBody := p.skipBody || g.noBody)
  }

  /** What follows the header section that `q` was decided on: nothing, or a body that is
      chunked, of the stated length, or up to the end of the connection. */
  function Framing(g: Setting, q: Parser, rest: seq<byte>): Outcome {
    var hasBody := q.chunked || q.length > 0;
    var over := Outcome(q.(state := Start), [HeadersComplete, MessageComplete], 2, EndOf(q));
    if q.upgrade && (g.connect || q.skipBody || !hasBody) then over
    else if q.skipBody then over
    else if q.chunked then Before([HeadersComplete], 2, Run(g, q.(state := ChunkSizeStart), rest))
    else if q.length > 0 then Before([HeadersComplete], 2, Run(g, q.(state := BodyIdentity), rest))
    else if q.length == 0 || g.request || g.status / 100 == 1 || g.status == 204 || g.status == 304 then over
    else Before([HeadersComplete], 2, Run(g, q.(state := BodyIdentityEof), rest))
  }

  /** The empty line that ends a header section. */
  lemma SectionEnd(g: Setting, p: Parser, rest: seq<byte>)
    requires p.state.HeaderFieldStart? && !p.trailing
    ensures Run(g, p, CRLF + rest) == Framing(g, Decided(g, p), rest)
  {
    var q, u := Decided(g, p), p.(state := HeadersAlmostDone);
    var d := q.(state := HeadersDone);
    LineEndBytes(rest);
    assert TurnOf(g, p, CR) == Take(u, []);
    assert TurnOf(g, u, LF) == Again(d, [HeadersComplete]);
    RunAgain(g, u, [LF] + rest, d, [HeadersComplete]);
    RunTake(g, p, CRLF + rest, u, []);
    InTurn(Run(g, p, CRLF + rest), [], 1, Run(g, u, [LF] + rest), [HeadersComplete], 0, Run(g, d, [LF] + rest));
    assert [] + [HeadersComplete] == [HeadersComplete];
    DecidedFraming(g, q, rest);
  }

  lemma DecidedFraming(g: Setting, q: Parser, rest: seq<byte>)
    ensures Before([HeadersComplete], 1, Run(g, q.(state := HeadersDone), [LF] + rest)) == Framing(g, q, rest)
  {
    var d := q.(state := HeadersDone);
    var t := HeadersDoneTurn(g, d);
    DecidedRun(g, d, rest);
    BeforeBefore([HeadersComplete], 1, t.events, 1, Run(g, t.p, rest));
    assert [HeadersComplete] + [] == [HeadersComplete];
    assert [HeadersComplete] + [MessageComplete] == [HeadersComplete, MessageComplete];
    assert [HeadersComplete, MessageComplete] + [] == [HeadersComplete, MessageComplete];
  }

  /** The LF seen with the headers done. */
  lemma DecidedRun(g: Setting, d: Parser, rest: seq<byte>)
    requires d.state.HeadersDone?
    ensures var t := HeadersDoneTurn(g, d);
      Run(g, d, [LF] + rest) == if t.Leave? then Outcome(t.p, t.events, 1, Upgraded) else Before(t.events, 1, Run(g, t.p, rest))
  {
    var t := HeadersDoneTurn(g, d);
    assert TurnOf(g, d, LF) == t;
    assert ([LF] + rest)[0] == LF && ([LF] + rest)[1..] == rest;
    if t.Take? { RunTake(g, d, [LF] + rest, t.p, t.events); }
  }

  // ---------------------------------------------------------------- whole messages

  /** Behind a request or status line. */
  const NewMessage := Parser(HeaderFieldStart, General, 0, false, false, false, false, -1, false, false)

  /** A whole section and what follows it: the framing its coding, last content length and
      upgrade header ask for, whatever the start line and the headers-complete callback said. */
  lemma SectionRun(g: Setting, lines: seq<Line>, rest: seq<byte>)
    requires AreLines(lines)
    ensures var q := Decided(g, AfterBlock(NewMessage, lines));
      && q.chunked == SaysChunked(lines) && q.length == SaysLength(lines, -1)
      && q.upgrade == (SaysUpgrade(lines) || g.connect) && q.skipBody == g.noBody
      && Run(g, NewMessage, Block(lines) + (CRLF + rest)) == Before(BlockEvents(lines), |Block(lines)|, Framing(g, q, rest))
  {
    LineEndBytes(rest);
    BlockRun(g, NewMessage, lines, CRLF + rest);
    BlockEffect(NewMessage, lines);
    SectionEnd(g, AfterBlock(NewMessage, lines), rest);
  }

  /** How a message ends behind these lines. */
  ghost function EndSaid(lines: seq<Line>): End {
    if SaysUpgrade(lines) then Upgraded else Complete
  }

  /** A message with a content length: the header fields, exactly that many bytes of body
      and one message_complete; the message ends behind the last of them. */
  lemma LengthMessage(g: Setting, lines: seq<Line>, body: seq<byte>, rest: seq<byte>)
    requires AreLines(lines) && !g.connect && !g.noBody
    requires !SaysChunked(lines) && SaysLength(lines, -1) == |body|
    ensures var o := Run(g, NewMessage, Block(lines) + (CRLF + (body + rest)));
      && o.end == EndSaid(lines) && o.used == |Block(lines)| + 2 + |body|
      && o.events == BlockEvents(lines) + ([HeadersComplete] + (Singles(Body, body) + [MessageComplete]))
  {
    SectionRun(g, lines, body + rest);
    FramedBody(g, Decided(g, AfterBlock(NewMessage, lines)), body, rest);
  }

  lemma FramedBody(g: Setting, q: Parser, body: seq<byte>, rest: seq<byte>)
    requires !g.connect && !q.skipBody && !q.chunked && q.length == |body|
    ensures var o := Framing(g, q, body + rest);
      o.end == EndOf(q) && o.used == 2 + |body| && o.events == [HeadersComplete] + (Singles(Body, body) + [MessageComplete])
  {
    if body == [] {
      assert Singles(Body, body) + [MessageComplete] == [MessageComplete];
      assert [HeadersComplete] + [MessageComplete] == [HeadersComplete, MessageComplete];
    } else {
      IdentityBody(g, q.(state := BodyIdentity), body, rest);
    }
  }

  /** A chunked body with its trailer section. */
  function Chunked(chunks: seq<Chunk>, last: Chunk, trailer: seq<Line>): seq<byte> {
    Encode(chunks, last) + (Block(trailer) + CRLF)
  }

  function TrailerEvents(trailer: seq<Line>): seq<Event> {
    BlockEvents(trailer) + [ChunkComplete, MessageComplete]
  }

  /** A trailer section: its fields are reported like header fields, then the message ends. */
  lemma TrailerRun(g: Setting, t: Parser, trailer: seq<Line>, rest: seq<byte>)
    requires t.state.HeaderFieldStart? && t.trailing && AreLines(trailer)
    ensures var o := Run(g, t, Block(trailer) + (CRLF + rest));
      o.end == EndOf(t) && o.used == |Block(trailer)| + 2 && o.events == TrailerEvents(trailer)
  {
    LineEndBytes(rest);
    BlockRun(g, t, trailer, CRLF + rest);
    BlockEffect(t, trailer);
    TrailerEnd(g, AfterBlock(t, trailer), rest);
  }

  lemma ChunkedBytes(chunks: seq<Chunk>, last: Chunk, trailer: seq<Line>, rest: seq<byte>)
    ensures Chunked(chunks, last, trailer) + rest == Encode(chunks, last) + (Block(trailer) + (CRLF + rest))
  {
    Assoc(Encode(chunks, last), Block(trailer) + CRLF, rest);
    Assoc(Block(trailer), CRLF, rest);
  }

  /** A chunked message with trailer fields, whether or not a content length is given too. */
  lemma ChunkedMessage(g: Setting, lines: seq<Line>, chunks: seq<Chunk>, last: Chunk, trailer: seq<Line>, rest: seq<byte>)
    requires AreLines(lines) && AreLines(trailer) && !g.connect && !g.noBody && SaysChunked(lines)
    requires forall i :: 0 <= i < |chunks| ==> Valid(chunks[i]) && chunks[i].data != []
    requires Valid(last) && last.data == []
    ensures var o := Run(g, NewMessage, Block(lines) + (CRLF + (Chunked(chunks, last, trailer) + rest)));
      && o.end == EndSaid(lines) && o.used == |Block(lines)| + 2 + |Chunked(chunks, last, trailer)|
      && o.events == BlockEvents(lines) + ([HeadersComplete] + (ChunkEvents(chunks) + TrailerEvents(trailer)))
  {
    var p := Decided(g, AfterBlock(NewMessage, lines)).(state := ChunkSizeStart);
    SectionRun(g, lines, Chunked(chunks, last, trailer) + rest);
    ChunkedBytes(chunks, last, trailer, rest);
    DecodeEncode(g, p, chunks, last, Block(trailer) + (CRLF + rest));
    TrailerRun(g, InTrailer(p), trailer, rest);
  }
}
