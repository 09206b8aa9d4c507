/** The characters HTTP/1.1 names, by their ASCII codes: token characters (section 3.2.6 of
    RFC 7230), digits, and the bytes a field value may hold; and numbers as they are written
    in base 16 (chunk sizes) and base 10 (content lengths). */
module HttpChars {
  import opened Bytes

  predicate IsUpper(b: byte) {
    65 <= b <= 90
  }

  predicate IsLower(b: byte) {
    97 <= b <= 122
  }

  predicate IsDecimal(b: byte) {
    48 <= b <= 57
  }

  /** A letter in lower case, any other byte as it is. */
  function Downcase(b: byte): byte {
    if IsUpper(b) then b + 32 else b
  }

  /** Letters, digits and `! # $ % & ' * + - . ^ _ | ~` with the backquote. */
  predicate IsTokenChar(b: byte) {
    || IsUpper(b) || IsLower(b) || IsDecimal(b)
    || b == 33 || b == 35 || b == 36 || b == 37 || b == 38 || b == 39 || b == 42 || b == 43
    || b == 45 || b == 46 || b == 94 || b == 95 || b == 96 || b == 124 || b == 126
  }

  /** Tab, the visible ASCII characters with the space, and every byte from 128 on. */
  predicate IsFieldByte(b: byte) {
    b == 9 || 32 <= b <= 126 || 128 <= b
  }

  /** What a hexadecimal digit stands for; -1 for any other byte. */
  function HexValue(b: byte): (v: int)
    ensures -1 <= v < 16
  {
    if 48 <= b <= 57 then b - 48
    else if 65 <= b <= 70 then b - 55
    else if 97 <= b <= 102 then b - 87
    else -1
  }

  predicate AreHexDigits(digits: seq<byte>) {
    forall i :: 0 <= i < |digits| ==> HexValue(digits[i]) >= 0
  }

  predicate AreDecimals(digits: seq<byte>) {
    forall i :: 0 <= i < |digits| ==> IsDecimal(digits[i])
  }

  /** The number read when `digits` follow the number `v`, in base 16 ... */
  function HexFrom(v: nat, digits: seq<byte>): nat
    requires AreHexDigits(digits)
    decreases |digits|
  {
    if digits == [] then v else HexFrom(v * 16 + HexValue(digits[0]), digits[1..])
  }

  /** ... and in base 10. */
  function DecimalFrom(v: nat, digits: seq<byte>): nat
    requires AreDecimals(digits)
    decreases |digits|
  {
    if digits == [] then v else DecimalFrom(v * 10 + (digits[0] - 48), digits[1..])
  }

  // ---------------------------------------------------------------- numbers as they are written

  function HexDigit(d: nat, upper: bool): (b: byte)
    requires d < 16
    ensures HexValue(b) == d
  {
    if d < 10 then 48 + d else if upper then 55 + d else 87 + d
  }

  /** `n` in base 16, in as many digits as there are `cases`, each letter in its case. */
  function WriteHex(n: nat, cases: seq<bool>): (digits: seq<byte>)
    ensures AreHexDigits(digits) && |digits| == |cases|
    decreases |cases|
  {
    var k := |cases| - 1;
    if cases == [] then [] else WriteHex(n / 16, cases[..k]) + [HexDigit(n % 16, cases[k])]
  }

  /** `n` in base 10, in `k` digits. */
  function WriteDecimal(n: nat, k: nat): (digits: seq<byte>)
    ensures AreDecimals(digits) && |digits| == k
  {
    if k == 0 then [] else WriteDecimal(n / 10, k - 1) + [48 + n % 10]
  }

  /** `n` can be written in `k` digits of base 16 ... */
  predicate FitsHex(n: nat, k: nat) {
    if k == 0 then n == 0 else FitsHex(n / 16, k - 1)
  }

  /** ... of base 10. */
  predicate FitsDecimal(n: nat, k: nat) {
    if k == 0 then n == 0 else FitsDecimal(n / 10, k - 1)
  }

  lemma {:induction false} HexSnoc(v: nat, digits: seq<byte>, b: byte)
    requires AreHexDigits(digits) && HexValue(b) >= 0
    ensures AreHexDigits(digits + [b]) && HexFrom(v, digits + [b]) == HexFrom(v, digits) * 16 + HexValue(b)
    decreases |digits|
  {
    if digits == [] {
      assert [] + [b] == [b] && [b][1..] == [];
      assert HexFrom(v * 16 + HexValue(b), []) == v * 16 + HexValue(b);
    } else {
      assert (digits + [b])[0] == digits[0] && (digits + [b])[1..] == digits[1..] + [b];
      HexSnoc(v * 16 + HexValue(digits[0]), digits[1..], b);
    }
  }

  lemma {:induction false} DecimalSnoc(v: nat, digits: seq<byte>, b: byte)
    requires AreDecimals(digits) && IsDecimal(b)
    ensures AreDecimals(digits + [b]) && DecimalFrom(v, digits + [b]) == DecimalFrom(v, digits) * 10 + (b - 48)
    decreases |digits|
  {
    if digits == [] {
      assert [] + [b] == [b] && [b][1..] == [];
      assert DecimalFrom(v * 10 + (b - 48), []) == v * 10 + (b - 48);
    } else {
      assert (digits + [b])[0] == digits[0] && (digits + [b])[1..] == digits[1..] + [b];
      DecimalSnoc(v * 10 + (digits[0] - 48), digits[1..], b);
    }
  }

  /** Reading undoes writing in base 16, at any length and in either case of letters ... */
  lemma {:induction false} HexReadsWritten(n: nat, cases: seq<bool>)
    requires FitsHex(n, |cases|)
    ensures HexFrom(0, WriteHex(n, cases)) == n
    decreases |cases|
  {
    if cases != [] {
      var k := |cases| - 1;
      HexReadsWritten(n / 16, cases[..k]);
      HexSnoc(0, WriteHex(n / 16, cases[..k]), HexDigit(n % 16, cases[k]));
    }
  }

  /** ... and writing undoes reading: hex digits are the number they read as, written in as
      many digits and in the case of each. */
  lemma {:induction false} HexWritesRead(digits: seq<byte>)
    requires AreHexDigits(digits)
    ensures var n, cases := HexFrom(0, digits), seq(|digits|, i requires 0 <= i < |digits| => IsUpper(digits[i]));
      FitsHex(n, |digits|) && WriteHex(n, cases) == digits
    decreases |digits|
  {
    if digits != [] {
      var k := |digits| - 1;
      var more, b := digits[..k], digits[k];
      var cases := seq(|digits|, i requires 0 <= i < |digits| => IsUpper(digits[i]));
      assert digits == more + [b];
      HexWritesRead(more);
      HexSnoc(0, more, b);
      assert cases[..k] == seq(|more|, i requires 0 <= i < |more| => IsUpper(more[i]));
      LastDigit(HexFrom(0, more), HexValue(b));
    }
  }

  lemma LastDigit(n: nat, d: nat)
    ensures d < 16 ==> (n * 16 + d) / 16 == n && (n * 16 + d) % 16 == d
    ensures d < 10 ==> (n * 10 + d) / 10 == n && (n * 10 + d) % 10 == d
  {
  }

  /** The same in base 10. */
  lemma {:induction false} DecimalReadsWritten(n: nat, k: nat)
    requires FitsDecimal(n, k)
    ensures DecimalFrom(0, WriteDecimal(n, k)) == n
    decreases k
  {
    if k > 0 {
      DecimalReadsWritten(n / 10, k - 1);
      DecimalSnoc(0, WriteDecimal(n / 10, k - 1), 48 + n % 10);
    }
  }

  lemma {:induction false} DecimalWritesRead(digits: seq<byte>)
    requires AreDecimals(digits)
    ensures var n := DecimalFrom(0, digits); FitsDecimal(n, |digits|) && WriteDecimal(n, |digits|) == digits
    decreases |digits|
  {
    if digits != [] {
      var k := |digits| - 1;
      var more, b := digits[..k], digits[k];
      assert digits == more + [b];
      DecimalWritesRead(more);
      DecimalSnoc(0, more, b);
      LastDigit(DecimalFrom(0, more), b - 48);
    }
  }
}
