/** Congestion window and round-trip estimator of the engine, in 32-bit arithmetic. */
module KcpCongestion {
  import opened Serial
  import opened KcpTypes
  import opened Products

  /** C division: truncates toward zero. */
  function CDiv(a: int, b: int): int
    requires 0 < b
  {
    if a < 0 then -((-a) / b) else a / b
  }

  // ---------------------------------------------------------------- round-trip estimator

  /** `ikcp_update_ack`; a signed overflow is given its two's-complement value. */
  function UpdateAck(interval: int, minrto: int, r: Rtt, sample: int): Rtt {
    var delta := if sample - r.srtt < 0 then r.srtt - sample else sample - r.srtt;
    var rttval := if r.srtt == 0 then CDiv(sample, 2) else S32(CDiv(S32(3 * r.rttval) + delta, 4));
    var smooth := CDiv(S32(S32(7 * r.srtt) + sample), 8);
    var srtt := if r.srtt == 0 then sample else Max(smooth, 1);
    var rto := U32(srtt + Max(interval, U32(4 * rttval)));
    Rtt(srtt, rttval, Min(Max(minrto, rto), RTO_MAX))
  }

  function UpdateAckAll(interval: int, minrto: int, r: Rtt, samples: seq<int>): Rtt
    decreases |samples|
  {
    if samples == [] then r
    else UpdateAckAll(interval, minrto, UpdateAck(interval, minrto, r, samples[0]), samples[1..])
  }

  /** No 32-bit operation of one estimator step leaves its type. */
  ghost predicate NoOverflow(interval: int, r: Rtt, sample: int) {
    && -HALF <= 3 * r.rttval < HALF
    && -HALF <= 7 * r.srtt + sample < HALF
    && 0 <= 4 * r.rttval < HALF
    && (var t := UpdateAck(interval, RTO_MIN, r, sample);
        0 <= 4 * t.rttval < HALF && t.srtt + Max(interval, 4 * t.rttval) < MODULUS)
  }

  ghost predicate RttWithin(r: Rtt, bound: int) {
    0 <= r.srtt <= bound && 0 <= r.rttval <= bound
  }

  /** The retransmission timeout is clamped whatever the samples were. */
  lemma RtoClamped(interval: int, minrto: int, r: Rtt, sample: int)
    requires minrto <= RTO_MAX
    ensures minrto <= UpdateAck(interval, minrto, r, sample).rto <= RTO_MAX
  {
  }

  lemma UpdateAckWithin(interval: int, minrto: int, r: Rtt, sample: int, bound: int)
    requires 1 <= bound && 8 * bound < HALF && 0 <= interval <= 5000
    requires RttWithin(r, bound) && 0 <= sample <= bound
    ensures RttWithin(UpdateAck(interval, minrto, r, sample), bound)
    ensures NoOverflow(interval, r, sample)
  {
    var delta := if sample - r.srtt < 0 then r.srtt - sample else sample - r.srtt;
    MeanOf32Bits(r.rttval, delta, 3, bound);
    MeanOf32Bits(r.srtt, sample, 7, bound);
  }

  /** No step of the weighted mean leaves 32 bits. */
  lemma MeanOf32Bits(a: int, b: int, weight: int, bound: int)
    requires 8 * bound < HALF && 0 <= a <= bound && 0 <= b <= bound && (weight == 3 || weight == 7)
    ensures S32(weight * a) == weight * a && S32(weight * a + b) == weight * a + b
    ensures var mean := CDiv(weight * a + b, weight + 1); 0 <= mean <= bound && S32(mean) == mean
  {
    S32Exact(weight * a);
    S32Exact(weight * a + b);
    MeanWithin(a, b, weight, bound);
    S32Exact((weight * a + b) / (weight + 1));
  }

  /** A weighted mean lies between what it is taken of. */
  lemma MeanWithin(a: int, b: int, weight: int, bound: int)
    requires 0 <= a <= bound && 0 <= b <= bound && (weight == 3 || weight == 7)
    ensures 0 <= (weight * a + b) / (weight + 1) <= bound
  {
  }

  /** Over every sample sequence bounded by `bound`, the estimates stay bounded, no step
      overflows and the timeout stays between `minrto` and 60000. */
  lemma {:induction false} EstimatorBounded(interval: int, minrto: int, r: Rtt, samples: seq<int>, bound: int)
    requires 1 <= bound && 8 * bound < HALF && 0 <= interval <= 5000 && minrto <= RTO_MAX
    requires RttWithin(r, bound) && minrto <= r.rto <= RTO_MAX
    requires forall i :: 0 <= i < |samples| ==> 0 <= samples[i] <= bound
    ensures var t := UpdateAckAll(interval, minrto, r, samples);
      RttWithin(t, bound) && minrto <= t.rto <= RTO_MAX
    ensures forall i :: 0 <= i < |samples| ==>
      NoOverflow(interval, UpdateAckAll(interval, minrto, r, samples[..i]), samples[i])
    decreases |samples|
  {
    if samples != [] {
      var r' := UpdateAck(interval, minrto, r, samples[0]);
      UpdateAckWithin(interval, minrto, r, samples[0], bound);
      EstimatorBounded(interval, minrto, r', samples[1..], bound);
      forall i | 0 <= i < |samples|
        ensures NoOverflow(interval, UpdateAckAll(interval, minrto, r, samples[..i]), samples[i])
      {
        if i > 0 {
          assert samples[..i][1..] == samples[1..][..i - 1];
          assert samples[i] == samples[1..][i - 1];
        }
      }
    }
  }

  function Distance(a: int, b: int): int {
    if a <= b then b - a else a - b
  }

  /** `c` in the range a retransmission timeout is kept in. */
  ghost predicate Clamped(t: int, lo: int, hi: int, c: int) {
    lo <= c <= hi && (lo <= t <= hi ==> c == t) && (t < lo ==> c == lo) && (hi < t ==> c == hi)
  }

  /** Values of an estimate whose eightfold fits 31 bits. */
  ghost predicate Modest(x: int) {
    0 <= x && 8 * x < HALF
  }

  /** One step of the estimator: the smoothed round trip takes an eighth of the sample, but is at
      least 1, the variation a quarter of its distance from the sample; the first sample is
      taken over, its half being the variation; the timeout is their sum, with at least one
      interval for the variation, clamped. */
  lemma EstimatorStep(interval: int, minrto: int, r: Rtt, sample: int)
    requires Modest(r.srtt) && Modest(r.rttval) && Modest(sample) && 0 <= interval <= 5000 && minrto <= 60000
    ensures var t := UpdateAck(interval, minrto, r, sample);
      && (r.srtt == 0 ==> t.srtt == sample && 2 * t.rttval <= sample < 2 * t.rttval + 2)
      && (r.srtt > 0 ==>
            && t.srtt >= 1
            && (8 * t.srtt <= 7 * r.srtt + sample < 8 * t.srtt + 8 || (t.srtt == 1 && 7 * r.srtt + sample < 8))
            && 4 * t.rttval <= 3 * r.rttval + Distance(sample, r.srtt) < 4 * t.rttval + 4)
      && Clamped(t.srtt + Max(interval, 4 * t.rttval), minrto, 60000, t.rto)
  {
    MeanParts(r.srtt, sample, 7);
    MeanParts(r.rttval, Distance(sample, r.srtt), 3);
    TimeoutParts(interval, UpdateAck(interval, minrto, r, sample));
  }

  lemma MeanParts(a: int, b: int, weight: int)
    requires Modest(a) && Modest(b) && (weight == 3 || weight == 7)
    ensures S32(weight * a) == weight * a && S32(weight * a + b) == weight * a + b
    ensures var mean := CDiv(weight * a + b, weight + 1);
      S32(mean) == mean && (weight + 1) * mean <= weight * a + b < (weight + 1) * mean + weight + 1 && Modest(mean)
  {
    S32Exact(weight * a);
    S32Exact(weight * a + b);
    DivisionParts(weight * a + b, weight + 1);
    S32Exact((weight * a + b) / (weight + 1));
  }

  lemma DivisionParts(x: int, n: int)
    requires 0 <= x && (n == 4 || n == 8)
    ensures 0 <= x / n && n * (x / n) <= x < n * (x / n) + n
  {
    if n == 4 { assert 4 * (x / 4) <= x < 4 * (x / 4) + 4; } else { assert 8 * (x / 8) <= x < 8 * (x / 8) + 8; }
  }

  lemma TimeoutParts(interval: int, t: Rtt)
    requires 0 <= interval <= 5000 && 0 <= t.srtt && 8 * t.srtt < HALF && Modest(t.rttval)
    ensures U32(t.srtt + Max(interval, U32(4 * t.rttval))) == t.srtt + Max(interval, 4 * t.rttval)
  {
  }

  /** Samples of one size bring the smoothed round trip to that size, from below up to 7 short of
      it, within as many steps as it was away. */
  lemma {:induction false} EstimatorConverges(interval: int, minrto: int, r: Rtt, samples: seq<int>, size: int)
    requires 0 < r.srtt && Modest(r.srtt) && Modest(r.rttval) && 1 <= size && Modest(size)
    requires 0 <= interval <= 5000 && minrto <= 60000
    requires (forall i :: 0 <= i < |samples| ==> samples[i] == size) && |samples| >= Distance(r.srtt, size)
    ensures size - 8 < UpdateAckAll(interval, minrto, r, samples).srtt <= size
    decreases |samples|
  {
    if samples != [] {
      var t := UpdateAck(interval, minrto, r, samples[0]);
      EstimatorStep(interval, minrto, r, size);
      ClosesIn(r.srtt, t.srtt, size);
      if Distance(t.srtt, size) <= |samples| - 1 {
        EstimatorConverges(interval, minrto, t, samples[1..], size);
      } else {
        StaysClose(interval, minrto, t, samples[1..], size);
      }
    }
  }

  lemma ClosesIn(before: int, after: int, size: int)
    requires 1 <= before && 1 <= size && 1 <= after
    requires 8 * after <= 7 * before + size < 8 * after + 8 || (after == 1 && 7 * before + size < 8)
    ensures size - 8 < before <= size ==> size - 8 < after <= size
    ensures before > size || before <= size - 8 ==> Distance(after, size) < Distance(before, size)
  {
  }

  /** Once there it stays. */
  lemma {:induction false} StaysClose(interval: int, minrto: int, r: Rtt, samples: seq<int>, size: int)
    requires 0 < r.srtt && Modest(r.rttval) && 1 <= size && Modest(size) && size - 8 < r.srtt <= size
    requires 0 <= interval <= 5000 && minrto <= 60000
    requires forall i :: 0 <= i < |samples| ==> samples[i] == size
    ensures size - 8 < UpdateAckAll(interval, minrto, r, samples).srtt <= size
    decreases |samples|
  {
    if samples != [] {
      var t := UpdateAck(interval, minrto, r, samples[0]);
      EstimatorStep(interval, minrto, r, size);
      ClosesIn(r.srtt, t.srtt, size);
      StaysClose(interval, minrto, t, samples[1..], size);
    }
  }

  /** The bound cannot be larger: two samples of any larger size make the smoothing sum
      leave 32 bits. */
  lemma EstimatorOverflows(interval: int, minrto: int, bound: int)
    requires HALF <= 8 * bound && bound < HALF
    ensures var r := UpdateAck(interval, minrto, Rtt(0, 0, RTO_DEF), bound);
      RttWithin(r, bound) && !NoOverflow(interval, r, bound)
  {
  }

  // ---------------------------------------------------------------- congestion window

  function SlowStart(mss: int, cc: Congestion): Congestion {
    cc.(cwnd := U32(cc.cwnd + 1), incr := U32(cc.incr + mss))
  }

  function Avoidance(mss: int, cc: Congestion): (t: Congestion)
    requires 0 < mss
    ensures 0 <= cc.cwnd ==> 0 <= t.cwnd
  {
    var base := Max(cc.incr, mss);
    var incr := U32(base + Quotient(U32(Times(mss, mss)), base) + mss / 16);
    cc.(incr := incr,
        cwnd := if U32(Times(cc.cwnd + 1, mss)) <= incr then Quotient(U32(incr + mss - 1), mss) else cc.cwnd)
  }

  function Clamp(mss: int, cc: Congestion): Congestion {
    if cc.cwnd > cc.rmtWnd then cc.(cwnd := cc.rmtWnd, incr := U32(Times(cc.rmtWnd, mss))) else cc
  }

  /** The growth `ikcp_input` applies when snd_una has advanced. */
  function Grow(mss: int, cc: Congestion): Congestion
    requires 0 < mss
  {
    if cc.cwnd >= cc.rmtWnd then cc
    else if cc.cwnd < cc.ssthresh then Clamp(mss, SlowStart(mss, cc))
    else Clamp(mss, Avoidance(mss, cc))
  }

  /** The window `ikcp_flush` sends in. */
  function SendWindow(cfg: Config, cc: Congestion): int {
    var win := Min(cfg.sndWnd, cc.rmtWnd);
    if cfg.nocwnd then win else Min(cc.cwnd, win)
  }

  function FastResend(cfg: Config): int {
    if cfg.fastresend > 0 then cfg.fastresend else 0xffff_ffff
  }

  function AfterFastResend(cfg: Config, cc: Congestion, inflight: int): Congestion {
    var ss := Max(inflight / 2, THRESH_MIN);
    var cwnd := U32(ss + FastResend(cfg));
    cc.(ssthresh := ss, cwnd := cwnd, incr := U32(Times(cwnd, cfg.mss)))
  }

  function AfterLoss(cfg: Config, cc: Congestion, win: int): Congestion {
    cc.(ssthresh := Max(win / 2, THRESH_MIN), cwnd := 1, incr := cfg.mss)
  }

  /** The adjustments at the end of `ikcp_flush`. */
  function Adjust(cfg: Config, cc: Congestion, inflight: int, win: int, change: bool, lost: bool): Congestion {
    var c1 := if change then AfterFastResend(cfg, cc, inflight) else cc;
    var c2 := if lost then AfterLoss(cfg, c1, win) else c1;
    if c2.cwnd < 1 then c2.(cwnd := 1, incr := cfg.mss) else c2
  }

  /** `incr` is the byte counterpart of `cwnd`, to within one segment. */
  ghost predicate Tracks(mss: int, cc: Congestion) {
    -mss < cc.incr - cc.cwnd * mss < mss
  }

  /** The same without a nonlinear term. */
  ghost predicate InStep(mss: int, cc: Congestion) {
    -mss < cc.incr - Times(cc.cwnd, mss) < mss
  }

  lemma InStepTracks(mss: int, cc: Congestion)
    requires 0 <= cc.cwnd
    ensures InStep(mss, cc) <==> Tracks(mss, cc)
  {
    TimesIsProduct(cc.cwnd, mss);
  }

  /** Values every reachable congestion record has. */
  ghost predicate CcOk(cfg: Config, cc: Congestion) {
    && 0 <= cc.rmtWnd < 65536
    && 0 <= cc.cwnd < MODULUS && 0 <= cc.incr < MODULUS
    && THRESH_MIN <= cc.ssthresh < 32768
    && InStep(cfg.mss, cc)
    && OnGrid(cfg.mss, cc)
  }

  /** With segments of 2^16 bytes `incr` only takes multiples of 2^12. */
  ghost predicate OnGrid(mss: int, cc: Congestion) {
    mss == 65536 ==> cc.incr % 4096 == 0
  }

  /** Sizes for which no product of the congestion code leaves 32 bits. */
  ghost predicate CcSizes(cfg: Config) {
    && 0 < cfg.mss <= 65536
    && Times(32768 + cfg.fastresend, cfg.mss) < MODULUS
    && 0 <= cfg.fastresend
  }

  /** Every product of a factor at most 2^16 and one at most 2^16 - 1 stays below 2^32. */
  lemma ProductFits(a: int, mss: int)
    requires 0 <= a <= 65535 && 0 < mss <= 65536
    ensures 0 <= Times(a, mss) <= Times(65535, mss) <= 65535 * 65536
  {
    TimesNonNegative(a, mss);
    TimesMono(a, 65535, mss);
    TimesIsProduct(65535, mss);
  }

  /** The additive term of congestion avoidance. */
  lemma GrowTerm(mss: int, base: int) returns (q: int)
    requires 0 < mss <= base && mss < 65536
    ensures q == Quotient(U32(Times(mss, mss)), base) && 0 <= q <= mss
    ensures 16 * mss <= base ==> 16 * q <= mss
  {
    ProductFits(mss, mss);
    TimesIsProduct(mss, mss);
    var square := mss * mss;
    assert U32(square) == square;
    q := Quotient(square, base);
    QuotientBounds(square, base);
    MulMono(mss, base, mss);
    MulCommutes(base, mss);
    MulCancel(q, mss, base);
    if 16 * mss <= base {
      SixteenTimes(q, mss, base);
    }
  }

  lemma SixteenTimes(q: int, mss: int, base: int)
    requires 0 < mss && 16 * mss <= base && 0 <= q && q * base <= mss * mss
    ensures 16 * q <= mss
  {
    MulMono(16 * mss, base, q);
    MulCommutes(base, q);
    assert (16 * mss) * q == (16 * q) * mss;
    MulCancel(16 * q, mss, mss);
  }

  /** Congestion avoidance in plain integers: no operation leaves 32 bits. */
  lemma AvoidanceExact(mss: int, cc: Congestion) returns (incr: int)
    requires 0 < mss < 65536 && InStep(mss, cc)
    requires 0 <= cc.incr && 0 <= cc.cwnd < 65535
    ensures var base := Max(cc.incr, mss);
      incr == base + Quotient(U32(Times(mss, mss)), base) + mss / 16 && U32(incr) == incr
    ensures cc.incr <= incr && incr + mss - 1 < MODULUS
    ensures 0 <= Times(cc.cwnd + 1, mss) < MODULUS
  {
    var base := Max(cc.incr, mss);
    var q := GrowTerm(mss, base);
    ProductFits(cc.cwnd + 1, mss);
    TimesIsProduct(65535, mss);
    assert Times(cc.cwnd + 1, mss) == mss + Times(cc.cwnd, mss);
    assert base <= 65535 * mss;
    incr := base + q + mss / 16;
  }

  /** The same for segments of 2^16 bytes, whose square is 0 in 32 bits. */
  lemma AvoidanceOnGrid(cc: Congestion) returns (incr: int)
    requires InStep(65536, cc) && OnGrid(65536, cc)
    requires 0 <= cc.incr && 0 <= cc.cwnd < 65535
    ensures var base := Max(cc.incr, 65536);
      incr == U32(base + Quotient(U32(Times(65536, 65536)), base) + 65536 / 16)
    ensures cc.incr <= incr && incr + 65536 - 1 < MODULUS && incr % 4096 == 0
    ensures 0 <= Times(cc.cwnd + 1, 65536) < MODULUS
  {
    TimesIsProduct(65536, 65536);
    TimesIsProduct(cc.cwnd, 65536);
    TimesIsProduct(cc.cwnd + 1, 65536);
    incr := Max(cc.incr, 65536) + 4096;
  }

  /** Rounding up to whole segments. */
  lemma CeilingDivision(incr: int, mss: int) returns (c: int)
    requires 0 < mss && 0 <= incr
    ensures c == Quotient(incr + mss - 1, mss) && 0 <= Times(c, mss) - incr < mss
    ensures 0 <= c <= incr + mss - 1
  {
    c := Quotient(incr + mss - 1, mss);
    QuotientBounds(incr + mss - 1, mss);
    TimesIsProduct(c, mss);
    QuotientAtMost(incr + mss - 1, mss);
  }

  lemma {:induction false} QuotientAtMost(a: int, b: int)
    requires 0 <= a && 0 < b
    ensures Quotient(a, b) <= a
    decreases a
  {
    if a >= b { QuotientAtMost(a - b, b); }
  }

  lemma SlowStartKeeps(mss: int, cc: Congestion)
    requires 0 < mss <= 65536 && InStep(mss, cc) && OnGrid(mss, cc)
    requires 0 <= cc.incr && 0 <= cc.cwnd < 32768
    ensures var t := SlowStart(mss, cc);
      InStep(mss, t) && OnGrid(mss, t) && t.cwnd == cc.cwnd + 1 && 0 <= t.incr < MODULUS
  {
    assert Times(cc.cwnd + 1, mss) == mss + Times(cc.cwnd, mss);
    TimesMono(cc.cwnd, 32768, mss);
    TimesIsProduct(32768, mss);
  }

  lemma TimesNext(a: int, b: int)
    requires 0 <= a
    ensures Times(a + 1, b) == Times(a, b) + b
  {
  }

  lemma Unwrapped(x: int)
    requires 0 <= x < MODULUS
    ensures U32(x) == x
  {
  }

  /** No sum or product of the congestion-avoidance step leaves 32 bits. */
  lemma AvoidanceUnwrapped(mss: int, cc: Congestion) returns (incr: int)
    requires 0 < mss <= 65536 && InStep(mss, cc) && OnGrid(mss, cc)
    requires 0 <= cc.incr && 0 <= cc.cwnd < 65535
    ensures cc.incr <= incr && incr + mss - 1 < MODULUS && OnGrid(mss, cc.(incr := incr))
    ensures Avoidance(mss, cc) == cc.(incr := incr,
      cwnd := if Times(cc.cwnd + 1, mss) <= incr then Quotient(incr + mss - 1, mss) else cc.cwnd)
  {
    if mss < 65536 { incr := AvoidanceExact(mss, cc); } else { incr := AvoidanceOnGrid(cc); }
    WithoutWrap(mss, cc, incr);
  }

  lemma WithoutWrap(mss: int, cc: Congestion, incr: int)
    requires 0 < mss && 0 <= incr && incr + mss - 1 < MODULUS && 0 <= Times(cc.cwnd + 1, mss) < MODULUS
    requires var base := Max(cc.incr, mss);
      incr == U32(base + Quotient(U32(Times(mss, mss)), base) + mss / 16)
    ensures Avoidance(mss, cc) == cc.(incr := incr,
      cwnd := if Times(cc.cwnd + 1, mss) <= incr then Quotient(incr + mss - 1, mss) else cc.cwnd)
  {
    Unwrapped(Times(cc.cwnd + 1, mss));
    Unwrapped(incr + mss - 1);
  }

  lemma AvoidanceKeeps(mss: int, cc: Congestion)
    requires 0 < mss <= 65536 && InStep(mss, cc) && OnGrid(mss, cc)
    requires 0 <= cc.incr && 0 <= cc.cwnd < 65535
    ensures var t := Avoidance(mss, cc);
      InStep(mss, t) && OnGrid(mss, t) && cc.cwnd <= t.cwnd < MODULUS && 0 <= t.incr < MODULUS
  {
    var incr := AvoidanceUnwrapped(mss, cc);
    TimesNext(cc.cwnd, mss);
    if Times(cc.cwnd + 1, mss) <= incr {
      var c := CeilingDivision(incr, mss);
      TimesReflectsOrder(cc.cwnd, c, mss);
    }
  }

  lemma TimesReflectsOrder(a: int, b: int, c: int)
    requires 0 <= c && Times(a, c) < Times(b, c)
    ensures a < b
  {
    if b <= a { TimesMono(b, a, c); }
  }

  lemma ClampKeeps(mss: int, cc: Congestion)
    requires 0 < mss <= 65536 && InStep(mss, cc) && OnGrid(mss, cc) && 0 <= cc.rmtWnd < 65536
    ensures InStep(mss, Clamp(mss, cc)) && OnGrid(mss, Clamp(mss, cc)) && Clamp(mss, cc).cwnd <= cc.rmtWnd
    ensures 0 <= cc.incr < MODULUS ==> 0 <= Clamp(mss, cc).incr < MODULUS
  {
    ProductFits(cc.rmtWnd, mss);
    if mss == 65536 { ProductOnGrid(cc.rmtWnd); }
  }

  lemma ProductOnGrid(a: int)
    ensures U32(Times(a, 65536)) % 4096 == 0
  {
    TimesOnGrid(a);
    GridWraps(Times(a, 65536));
  }

  lemma {:induction false} TimesOnGrid(a: int)
    ensures Times(a, 65536) % 4096 == 0
    decreases a
  {
    if a > 0 { TimesOnGrid(a - 1); }
  }

  lemma GridWraps(x: int)
    requires x % 4096 == 0
    ensures U32(x) % 4096 == 0
  {
    var q := x / MODULUS;
    assert U32(x) == x - MODULUS * q && MODULUS == 4096 * 1048576;
  }

  /** An acknowledgement never takes cwnd above the peer's window, and leaves `incr` within
      one segment of cwnd * mss. */
  lemma GrowKeeps(cfg: Config, cc: Congestion)
    requires CcOk(cfg, cc) && 0 < cfg.mss <= 65536
    ensures CcOk(cfg, Grow(cfg.mss, cc)) && cc.cwnd <= Grow(cfg.mss, cc).cwnd
    ensures cc.cwnd < cc.rmtWnd ==> Grow(cfg.mss, cc).cwnd <= cc.rmtWnd
    ensures cc.cwnd >= cc.rmtWnd ==> Grow(cfg.mss, cc) == cc
  {
    var mss := cfg.mss;
    if cc.cwnd < cc.rmtWnd {
      if cc.cwnd < cc.ssthresh {
        SlowStartKeeps(mss, cc);
        ClampKeeps(mss, SlowStart(mss, cc));
      } else {
        AvoidanceKeeps(mss, cc);
        ClampKeeps(mss, Avoidance(mss, cc));
      }
    }
  }

  // ---------------------------------------------------------------- what growth means

  /** Congestion avoidance raises `incr` by the square of the segment size over `incr`, and by a
      sixteenth of a segment, each rounded down. */
  ghost predicate Raised(mss: int, base: int, after: int) {
    exists share, part :: RaisedBy(mss, base, share, part) && after == base + share + part
  }

  ghost predicate RaisedBy(mss: int, base: int, share: int, part: int) {
    share * base <= mss * mss < share * base + base && 16 * part <= mss < 16 * part + 16
  }

  /** `c` whole segments are needed for that many bytes. */
  ghost predicate Needs(c: int, mss: int, bytes: int) {
    c * mss - mss < bytes <= c * mss
  }

  /** The window follows `incr` when that has room for one more segment, up to the peer's
      window. */
  ghost predicate Follows(mss: int, cc: Congestion, incr: int, t: Congestion) {
    if cc.cwnd * mss + mss <= incr then
      exists c ::
        && Needs(c, mss, incr)
        && (c <= cc.rmtWnd ==> t.cwnd == c && t.incr == incr)
        && (c > cc.rmtWnd ==> t.cwnd == cc.rmtWnd && t.incr == cc.rmtWnd * mss)
    else t.cwnd == cc.cwnd && t.incr == incr
  }

  ghost predicate Avoids(mss: int, cc: Congestion, t: Congestion) {
    exists incr :: Raised(mss, Max(cc.incr, mss), incr) && Follows(mss, cc, incr, t)
  }

  /** What an acknowledgement does to the window: nothing if it has reached the peer's; one
      segment more below the threshold; else congestion avoidance. */
  lemma GrowMeans(mss: int, cc: Congestion)
    requires 0 < mss < 65536 && InStep(mss, cc) && 0 <= cc.rmtWnd < 65536 && cc.ssthresh < 32768
    requires 0 <= cc.cwnd && 0 <= cc.incr < MODULUS
    ensures var t := Grow(mss, cc);
      && t.rmtWnd == cc.rmtWnd && t.ssthresh == cc.ssthresh
      && (cc.cwnd >= cc.rmtWnd ==> t == cc)
      && (cc.cwnd < cc.rmtWnd && cc.cwnd < cc.ssthresh ==> t.cwnd == cc.cwnd + 1 && t.incr == cc.incr + mss)
      && (cc.cwnd < cc.rmtWnd && cc.cwnd >= cc.ssthresh ==> Avoids(mss, cc, t))
  {
    if cc.cwnd < cc.rmtWnd {
      if cc.cwnd < cc.ssthresh {
        TimesMono(cc.cwnd, 32768, mss);
        TimesIsProduct(32768, mss);
        Unwrapped(cc.incr + mss);
        Unwrapped(cc.cwnd + 1);
      } else {
        AvoidanceMeans(mss, cc);
      }
    }
  }

  lemma AvoidanceMeans(mss: int, cc: Congestion)
    requires 0 < mss < 65536 && InStep(mss, cc) && 0 <= cc.incr && 0 <= cc.cwnd < cc.rmtWnd < 65536
    ensures Avoids(mss, cc, Clamp(mss, Avoidance(mss, cc)))
  {
    var incr := AvoidanceExact(mss, cc);
    WithoutWrap(mss, cc, incr);
    IncrRaised(mss, Max(cc.incr, mss), incr);
    WindowFollows(mss, cc, incr);
  }

  lemma IncrRaised(mss: int, base: int, incr: int)
    requires 0 < mss < 65536 && mss <= base && incr == base + Quotient(U32(Times(mss, mss)), base) + mss / 16
    ensures Raised(mss, base, incr)
  {
    var share, part := Quotient(U32(Times(mss, mss)), base), mss / 16;
    ProductFits(mss, mss);
    TimesIsProduct(mss, mss);
    Unwrapped(Times(mss, mss));
    QuotientBounds(Times(mss, mss), base);
    assert RaisedBy(mss, base, share, part);
  }

  lemma WindowFollows(mss: int, cc: Congestion, incr: int)
    requires 0 < mss < 65536 && 0 <= incr && 0 <= cc.cwnd < cc.rmtWnd < 65536
    ensures Follows(mss, cc, incr, Clamp(mss, cc.(incr := incr,
      cwnd := if Times(cc.cwnd + 1, mss) <= incr then Quotient(incr + mss - 1, mss) else cc.cwnd)))
  {
    TimesIsProduct(cc.cwnd + 1, mss);
    assert (cc.cwnd + 1) * mss == cc.cwnd * mss + mss;
    if Times(cc.cwnd + 1, mss) <= incr {
      var c := CeilingDivision(incr, mss);
      TimesIsProduct(c, mss);
      ProductFits(cc.rmtWnd, mss);
      TimesIsProduct(cc.rmtWnd, mss);
      Unwrapped(Times(cc.rmtWnd, mss));
      assert Needs(c, mss, incr);
    }
  }

  lemma AfterFastResendKeeps(cfg: Config, cc: Congestion, inflight: int)
    requires CcOk(cfg, cc) && CcSizes(cfg) && 0 <= inflight < 65536
    ensures CcOk(cfg, AfterFastResend(cfg, cc, inflight))
  {
    var ss := Max(inflight / 2, THRESH_MIN);
    var cwnd := if cfg.fastresend > 0 then ss + cfg.fastresend else ss - 1;
    var limit := 32768 + cfg.fastresend;
    TimesMono(cwnd, limit, cfg.mss);
    TimesNonNegative(cwnd, cfg.mss);
    TimesAtLeast(limit, cfg.mss);
    assert 0 <= cwnd <= limit < MODULUS;
    assert U32(ss + FastResend(cfg)) == cwnd;
    if cfg.mss == 65536 { ProductOnGrid(cwnd); }
  }

  lemma {:induction false} TimesAtLeast(a: int, b: int)
    requires 1 <= b
    ensures a <= Times(a, b)
    decreases a
  {
    if a > 0 { TimesAtLeast(a - 1, b); }
  }

  /** After a full flush the window is open and the slow-start threshold is at least 2. */
  lemma AdjustKeeps(cfg: Config, cc: Congestion, inflight: int, win: int, change: bool, lost: bool)
    requires CcOk(cfg, cc) && CcSizes(cfg) && 0 <= inflight < 65536 && 0 <= win < 65536
    ensures var t := Adjust(cfg, cc, inflight, win, change, lost);
      CcOk(cfg, t) && 1 <= t.cwnd && t.rmtWnd == cc.rmtWnd
  {
    if change { AfterFastResendKeeps(cfg, cc, inflight); }
    assert Times(1, cfg.mss) == cfg.mss + Times(0, cfg.mss);
  }

  /** Fast retransmission keeps `incr` in step exactly when its product fits 32 bits. */
  lemma FastResendTracksIff(cfg: Config, cc: Congestion, inflight: int, win: int)
    requires 0 < cfg.mss < MODULUS && 0 <= cfg.fastresend < HALF
    requires 0 < U32(Max(inflight / 2, THRESH_MIN) + FastResend(cfg))
    ensures var t := Adjust(cfg, cc, inflight, win, true, false);
      var cwnd := U32(Max(inflight / 2, THRESH_MIN) + FastResend(cfg));
      Tracks(cfg.mss, t) <==> cwnd * cfg.mss < MODULUS
  {
    var cwnd := U32(Max(inflight / 2, THRESH_MIN) + FastResend(cfg));
    TimesIsProduct(cwnd, cfg.mss);
    InStepTracks(cfg.mss, Adjust(cfg, cc, inflight, win, true, false));
    TimesNonNegative(cwnd, cfg.mss);
    WrapLosesAtLeastOneModulus(Times(cwnd, cfg.mss));
  }

  lemma WrapLosesAtLeastOneModulus(p: int)
    requires 0 <= p
    ensures if p < MODULUS then U32(p) == p else p - U32(p) >= MODULUS
  {
  }

  // ---------------------------------------------------------------- the limit of the growth code

  /** Growth takes every record in which `incr` tracks `cwnd` to one in which it does. */
  ghost predicate GrowthTracks(cfg: Config)
    requires 0 < cfg.mss
  {
    forall cc :: CcOk(cfg, cc) ==> Tracks(cfg.mss, Grow(cfg.mss, cc))
  }

  /** It does so exactly for segments of at most 2^16 bytes. */
  lemma GrowthTracksIff(cfg: Config)
    requires 0 < cfg.mss < HALF
    ensures GrowthTracks(cfg) <==> cfg.mss <= 65536
  {
    if cfg.mss <= 65536 {
      forall cc | CcOk(cfg, cc) ensures Tracks(cfg.mss, Grow(cfg.mss, cc)) {
        GrowKeeps(cfg, cc);
        InStepTracks(cfg.mss, Grow(cfg.mss, cc));
      }
    } else {
      var cc := GrowFails(cfg);
    }
  }

  /** For every larger size a record that growth throws out of step. */
  lemma GrowFails(cfg: Config) returns (cc: Congestion)
    requires 65536 < cfg.mss < HALF
    ensures CcOk(cfg, cc) && !Tracks(cfg.mss, Grow(cfg.mss, cc))
  {
    var mss := cfg.mss;
    if 3 * mss >= MODULUS {
      cc := Congestion(65535, 1, 2 * mss - 1, 2);
      TimesIsProduct(1, mss);
      TimesIsProduct(2, mss);
      assert U32(cc.incr + mss) == 3 * mss - 1 - MODULUS;
    } else {
      var k := LargestWindow(mss);
      cc := Congestion(65535, k - 1, Times(k, mss) - 1, 2);
      TimesNext(k - 1, mss);
      TimesMono(2, k - 1, mss);
      TimesIsProduct(2, mss);
      AvoidanceFails(mss, k, cc);
    }
    InStepTracks(mss, Grow(mss, cc));
  }

  /** The largest number of whole segments that fits 32 bits. */
  lemma LargestWindow(mss: int) returns (k: int)
    requires 65536 <= mss && 3 * mss < MODULUS
    ensures 3 <= k <= 65535 && Times(k, mss) < MODULUS <= Times(k, mss) + mss
  {
    k := (MODULUS - 1) / mss;
    DivisionBounds(MODULUS - 1, mss);
    TimesIsProduct(k, mss);
    if k < 3 { MulMono(k, 2, mss); }
    if k > 65535 { MulMono(65536, k, mss); }
  }

  /** Congestion avoidance at that window, one byte short of it: either the rounding up to
      whole segments wraps and the window is gone, or `incr` itself wraps. */
  lemma AvoidanceFails(mss: int, k: int, cc: Congestion)
    requires 65536 <= mss && 3 * mss < MODULUS && 3 <= k && Times(k, mss) < MODULUS <= Times(k, mss) + mss
    requires Times(k - 1, mss) == Times(k, mss) - mss && 2 * mss <= Times(k - 1, mss)
    requires cc == Congestion(65535, k - 1, Times(k, mss) - 1, 2)
    ensures 0 <= Avoidance(mss, cc).cwnd <= k - 1 && !InStep(mss, Avoidance(mss, cc))
  {
    var base, square := cc.incr, U32(Times(mss, mss));
    var q := Quotient(square, base);
    QuotientBounds(square, base);
    if q >= 2 { MulMono(2, q, base); }
    var sum := base + q + mss / 16;
    if sum < MODULUS {
      Unwrapped(sum);
      Unwrapped(Times(k, mss));
      WrapOnce(sum + mss - 1);
    } else {
      WrapOnce(sum);
      Unwrapped(Times(k, mss));
    }
  }

  lemma WrapOnce(x: int)
    requires MODULUS <= x < 2 * MODULUS
    ensures U32(x) == x - MODULUS
  {
  }
}
