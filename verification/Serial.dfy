/** Sequence-number arithmetic of `udp/ikcp.c`: 32-bit values compared by the sign of
    their wrapped difference (serial numbers in the sense of section 3.2 of RFC 1982).

    Every engine function that touches a sequence number takes an `Arith`.  `Wrapping` is
    the arithmetic of the C code; `Unbounded` is the same code over plain integers.  */
module Serial {
  const MODULUS: int := 0x1_0000_0000
  const HALF: int := 0x8000_0000

  datatype Arith = Wrapping | Unbounded

  /** Conversion to IUINT32. */
  function U32(x: int): (r: int)
    ensures 0 <= r < MODULUS
  {
    x % MODULUS
  }

  /** Conversion to IINT32, two's complement. */
  function S32(x: int): (r: int)
    ensures -HALF <= r < HALF
  {
    var u := U32(x);
    if u < HALF then u else u - MODULUS
  }

  lemma S32Exact(x: int)
    requires -HALF <= x < HALF
    ensures S32(x) == x
  {
  }

  /** `_itimediff` on 32-bit values. */
  function TimeDiff(later: int, earlier: int): (r: int)
    ensures -HALF <= r < HALF
  {
    S32(later - earlier)
  }

  /** A sequence number as the arithmetic stores it. */
  function Num(m: Arith, x: int): int {
    if m.Wrapping? then U32(x) else x
  }

  /** `_itimediff` on sequence numbers. */
  function Diff(m: Arith, later: int, earlier: int): int {
    if m.Wrapping? then TimeDiff(later, earlier) else later - earlier
  }

  /** Reducing before subtracting changes nothing. */
  lemma TimeDiffOfWrapped(a: int, b: int)
    ensures TimeDiff(U32(a), U32(b)) == TimeDiff(a, b)
  {
    var k := a / MODULUS;
    var l := b / MODULUS;
    assert U32(a) - U32(b) == (a - b) - (k - l) * MODULUS;
    ModShift(a - b, l - k);
  }

  lemma ModShift(x: int, k: int)
    ensures U32(x + k * MODULUS) == U32(x)
  {
    var q := x / MODULUS;
    var r := x % MODULUS;
    assert x + k * MODULUS == (q + k) * MODULUS + r;
    assert (x + k * MODULUS) / MODULUS == q + k;
  }

  /** Comparing wrapped numbers is exact on numbers less than 2^31 apart. */
  lemma DiffExact(a: int, b: int)
    requires -HALF <= a - b < HALF
    ensures Diff(Wrapping, U32(a), U32(b)) == a - b == Diff(Unbounded, a, b)
  {
    TimeDiffOfWrapped(a, b);
  }

  /** The window is tight: beyond it, up to a full turn, the comparison reports the opposite
      order. */
  lemma DiffExactOnlyInWindow(a: int, b: int)
    ensures Diff(Wrapping, U32(a), U32(b)) == a - b <==> -HALF <= a - b < HALF
    ensures HALF <= a - b < MODULUS ==> Diff(Wrapping, U32(a), U32(b)) < 0
    ensures -MODULUS < a - b < -HALF ==> Diff(Wrapping, U32(a), U32(b)) > 0
  {
    TimeDiffOfWrapped(a, b);
    if -HALF <= a - b < HALF { DiffExact(a, b); }
  }

  /** Numbers less than 2^31 apart with one 32-bit image are the same number. */
  lemma WrapInjective(a: int, b: int)
    requires -HALF <= a - b < HALF
    ensures U32(a) == U32(b) <==> a == b
  {
    DiffExact(a, b);
  }

  /** Wrapping a sum of a wrapped number wraps the sum. */
  lemma NumAdd(a: int, k: int)
    ensures U32(U32(a) + k) == U32(a + k)
  {
    ModShift(a + k, -(a / MODULUS));
    assert a + k + -(a / MODULUS) * MODULUS == U32(a) + k;
  }

  /** A sequence number that never wraps in arithmetic `m`. */
  predicate InSpan(m: Arith, x: int) {
    0 <= x && (m.Wrapping? ==> x < HALF)
  }

  /** Numbers in the span are compared as integers by either arithmetic. */
  lemma DiffInSpan(m: Arith, a: int, b: int)
    requires InSpan(m, a) && InSpan(m, b)
    ensures Diff(m, a, b) == a - b
    ensures Num(m, a) == a
  {
  }
}
