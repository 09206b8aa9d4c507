/** What the times of `ikcp_check` and `ikcp_update` mean. */
module KcpTimers {
  import opened Serial
  import opened KcpTypes
  import opened KcpEngine

  /** A segment's retransmission timer has expired at `t`. */
  predicate ResendDue(g: Segment, t: int) {
    TimeDiff(t, g.resendts) >= 0
  }

  ghost predicate AnyResendDue(buf: seq<Segment>, t: int) {
    exists i :: 0 <= i < |buf| && ResendDue(buf[i], t)
  }

  /** `ikcp_update` called at `t` would flush. */
  predicate WouldFlush(s: Kcb, t: int) {
    FlushDue(Advanced(s.clk, t))
  }

  // ---------------------------------------------------------------- serial time

  /** Counting on from `now` towards a time that lies `gap` ahead. */
  lemma Approaching(now: int, target: int, d: int)
    requires TimeDiff(target, now) >= 0 && 0 <= d <= TimeDiff(target, now)
    ensures TimeDiff(U32(now + d), target) == d - TimeDiff(target, now)
  {
    var gap := TimeDiff(target, now);
    NearestRepresentative(target - now);
    var k := (target - now - gap) / MODULUS;
    assert target == now + gap + k * MODULUS;
    ModShift(now + gap, k);
    TimeDiffOfWrapped(now + d, now + gap);
    TimeDiffOfWrapped(U32(now + d), target);
    TimeDiffOfWrapped(now + d, target);
    S32Exact(d - gap);
  }

  lemma NearestRepresentative(x: int)
    ensures (x - S32(x)) % MODULUS == 0
  {
  }

  /** How far apart two times are does not depend on the direction of looking. */
  lemma Opposite(a: int, b: int)
    ensures TimeDiff(a, b) > -HALF ==> TimeDiff(b, a) == -TimeDiff(a, b)
  {
    if TimeDiff(a, b) > -HALF {
      NearestRepresentative(a - b);
      var k := (a - b - TimeDiff(a, b)) / MODULUS;
      assert b - a == -TimeDiff(a, b) + (-k) * MODULUS;
      ModShift(-TimeDiff(a, b), -k);
      S32Exact(-TimeDiff(a, b));
    }
  }

  // ---------------------------------------------------------------- the segment timers

  /** What the loop of `ikcp_check` finds. */
  lemma {:induction false} SoonestMeans(buf: seq<Segment>, now: int, best: int)
    requires 0 < best
    ensures var r := SoonestResend(buf, now, best);
      && 0 <= r <= best
      && (r == 0 <==> exists i :: 0 <= i < |buf| && TimeDiff(buf[i].resendts, now) <= 0)
      && (r > 0 ==> forall i :: 0 <= i < |buf| ==> r <= TimeDiff(buf[i].resendts, now))
      && (0 < r < best ==> exists i :: 0 <= i < |buf| && TimeDiff(buf[i].resendts, now) == r)
    decreases |buf|
  {
    if buf != [] {
      var diff := TimeDiff(buf[0].resendts, now);
      if diff > 0 {
        var next := Min(diff, best);
        SoonestMeans(buf[1..], now, next);
        var r := SoonestResend(buf[1..], now, next);
        assert forall i :: 0 < i < |buf| ==> buf[i] == buf[1..][i - 1];
        if exists j :: 0 <= j < |buf[1..]| && TimeDiff(buf[1..][j].resendts, now) == r {
          var j :| 0 <= j < |buf[1..]| && TimeDiff(buf[1..][j].resendts, now) == r;
          assert TimeDiff(buf[j + 1].resendts, now) == r;
        }
        if r == 0 {
          var j :| 0 <= j < |buf[1..]| && TimeDiff(buf[1..][j].resendts, now) <= 0;
          assert TimeDiff(buf[j + 1].resendts, now) <= 0;
        } else {
          forall i | 0 < i < |buf| ensures r <= TimeDiff(buf[i].resendts, now) {
            assert buf[1..][i - 1] == buf[i];
          }
        }
      } else {
        assert TimeDiff(buf[0].resendts, now) <= 0;
      }
    }
  }

  // ---------------------------------------------------------------- ikcp_check

  /** How long `ikcp_check` says to wait. */
  function Wait(s: Kcb, now: int): int {
    TimeDiff(Check(s, now), now)
  }

  /** The cases of `ikcp_check`, as a delay. */
  lemma WaitCases(s: Kcb, now: int)
    requires ConfigOk(s.cfg) && 0 <= now < MODULUS
    ensures var packet := SoonestResend(s.snd.buf, now, 0x7fff_ffff);
      Wait(s, now) ==
        if !s.clk.updated || WouldFlush(s, now) || packet == 0 then 0
        else Min(Min(packet, TimeDiff(s.clk.tsFlush, now)), s.cfg.interval)
    ensures s.clk.updated && !WouldFlush(s, now) ==>
      0 < TimeDiff(s.clk.tsFlush, now) <= 10000
  {
    var packet := SoonestResend(s.snd.buf, now, 0x7fff_ffff);
    SoonestMeans(s.snd.buf, now, 0x7fff_ffff);
    assert U32(now) == now && TimeDiff(now, now) == 0;
    if s.clk.updated && !WouldFlush(s, now) {
      Opposite(now, s.clk.tsFlush);
      if packet != 0 {
        var wait := Min(Min(packet, TimeDiff(s.clk.tsFlush, now)), s.cfg.interval);
        TimeDiffOfWrapped(now + wait, now);
        S32Exact(wait);
      }
    }
  }

  /** The time `ikcp_check` returns is at or after the present and at most one interval
      ahead, for every state and every time. */
  lemma CheckIsNear(s: Kcb, now: int)
    requires ConfigOk(s.cfg) && 0 <= now < MODULUS
    ensures 0 <= Wait(s, now) <= s.cfg.interval
  {
    WaitCases(s, now);
    SoonestMeans(s.snd.buf, now, 0x7fff_ffff);
  }

  /** Before that time nothing is due: an `ikcp_update` would not flush and no segment's
      timer has expired. */
  lemma NothingDueBefore(s: Kcb, now: int, d: int)
    requires ConfigOk(s.cfg) && 0 <= now < MODULUS && 0 <= d < Wait(s, now)
    ensures s.clk.updated && !WouldFlush(s, U32(now + d)) && !AnyResendDue(s.snd.buf, U32(now + d))
  {
    WaitCases(s, now);
    SoonestMeans(s.snd.buf, now, 0x7fff_ffff);
    Approaching(now, s.clk.tsFlush, d);
    forall i | 0 <= i < |s.snd.buf| ensures !ResendDue(s.snd.buf[i], U32(now + d)) {
      Approaching(now, s.snd.buf[i].resendts, d);
    }
  }

  /** Hence an `ikcp_update` before that time only records the time. */
  lemma UpdatingEarlierDoesNothing(m: Arith, s: Kcb, now: int, d: int)
    requires ConfigOk(s.cfg) && 0 <= now < MODULUS && 0 <= d < Wait(s, now)
    ensures Update(m, s, U32(now + d)) == FlushResult(s.(clk := s.clk.(current := U32(now + d))), [])
  {
    NothingDueBefore(s, now, d);
    WaitCases(s, now);
    Approaching(now, s.clk.tsFlush, d);
  }

  /** The time is no earlier than it has to be: unless it is the cap of one interval,
      something is due then, or the engine has never been updated. */
  lemma SomethingDueAt(s: Kcb, now: int)
    requires ConfigOk(s.cfg) && 0 <= now < MODULUS && Wait(s, now) < s.cfg.interval
    ensures var t := U32(now + Wait(s, now));
      !s.clk.updated || WouldFlush(s, t) || exists i :: 0 <= i < |s.snd.buf| && TimeDiff(s.snd.buf[i].resendts, t) <= 0
  {
    WaitCases(s, now);
    SoonestMeans(s.snd.buf, now, 0x7fff_ffff);
    var w := Wait(s, now);
    assert w == 0 ==> U32(now + w) == now;
    if s.clk.updated && w > 0 {
      if w == TimeDiff(s.clk.tsFlush, now) {
        Approaching(now, s.clk.tsFlush, w);
      } else {
        var i :| 0 <= i < |s.snd.buf| && TimeDiff(s.snd.buf[i].resendts, now) == w;
        Approaching(now, s.snd.buf[i].resendts, w);
        Opposite(U32(now + w), s.snd.buf[i].resendts);
      }
    }
  }

  // ---------------------------------------------------------------- ikcp_update

  /** `ikcp_update` flushes on its first call, from the time it has set itself on, and when that
      time lies more than 10 s ahead. */
  lemma FlushesWhen(s: Kcb, now: int)
    ensures WouldFlush(s, now) <==>
      !s.clk.updated || TimeDiff(now, s.clk.tsFlush) >= 0 || TimeDiff(now, s.clk.tsFlush) < -10000
  {
    assert TimeDiff(now, now) == 0;
  }

  /** The next flush is one interval after the last one was due, or after the present if that
      is past already. */
  lemma KeepsPace(m: Arith, s: Kcb, now: int)
    requires ConfigOk(s.cfg) && 0 <= now < MODULUS && WouldFlush(s, now)
    ensures var late := TimeDiff(now, s.clk.tsFlush);
      Update(m, s, now).kcb.clk.tsFlush
        == if s.clk.updated && 0 <= late < s.cfg.interval then U32(s.clk.tsFlush + s.cfg.interval) else U32(now + s.cfg.interval)
  {
    var c := Advanced(s.clk, now);
    assert TimeDiff(now, now) == 0;
    UpdateTimes(m, s, now);
    PickedTime(now, c.tsFlush, s.cfg.interval);
    if c.tsFlush == now && s.clk.updated && 0 <= TimeDiff(now, s.clk.tsFlush) < s.cfg.interval { assert c.tsFlush == s.clk.tsFlush; }
  }

  /** The flush time `Rescheduled` picks. */
  lemma PickedTime(now: int, ts: int, interval: int)
    requires 0 <= now < MODULUS && 0 <= TimeDiff(now, ts) < 10000 && 10 <= interval <= 5000
    ensures TimeDiff(now, now) == 0
    ensures (if TimeDiff(now, U32(ts + interval)) >= 0 then U32(now + interval) else U32(ts + interval))
         == if TimeDiff(now, ts) < interval then U32(ts + interval) else U32(now + interval)
  {
    StepOn(now, ts, interval);
  }

  /** After every `ikcp_update` the next flush lies strictly ahead: at most one interval if
      the call flushed, and at most 10 s in any case. */
  lemma UpdateSchedules(m: Arith, s: Kcb, now: int)
    requires ConfigOk(s.cfg) && 0 <= now < MODULUS
    ensures var c := Update(m, s, now).kcb.clk;
      && c.updated && c.current == now
      && 0 < TimeDiff(c.tsFlush, now) <= (if WouldFlush(s, now) then s.cfg.interval else 10000)
  {
    ScheduleAhead(s, now);
    UpdateTimes(m, s, now);
  }

  lemma ScheduleAhead(s: Kcb, now: int)
    requires ConfigOk(s.cfg) && 0 <= now < MODULUS
    ensures var c := Advanced(s.clk, now);
      var next := if FlushDue(c) then Rescheduled(s.cfg, c) else c;
      && next.updated && next.current == now
      && 0 < TimeDiff(next.tsFlush, now) <= (if FlushDue(c) then s.cfg.interval else 10000)
  {
    var c := Advanced(s.clk, now);
    assert TimeDiff(now, now) == 0;
    Opposite(now, c.tsFlush);
    if FlushDue(c) { NextFlush(now, c.tsFlush, s.cfg.interval); }
  }

  lemma FlushKeepsTime(m: Arith, s: Kcb)
    ensures var c := Flush(m, s).kcb.clk;
      c.updated == s.clk.updated && c.current == s.clk.current && c.tsFlush == s.clk.tsFlush
  {
  }

  lemma UpdateTimes(m: Arith, s: Kcb, now: int)
    ensures var c := Advanced(s.clk, now);
      var next := if FlushDue(c) then Rescheduled(s.cfg, c) else c;
      var t := Update(m, s, now).kcb.clk;
      t.updated == next.updated && t.current == next.current && t.tsFlush == next.tsFlush
  {
    var c := Advanced(s.clk, now);
    if FlushDue(c) { FlushKeepsTime(m, s.(clk := Rescheduled(s.cfg, c))); }
  }

  /** The flush time `Rescheduled` picks. */
  lemma NextFlush(now: int, ts: int, interval: int)
    requires 0 <= now < MODULUS && 0 <= TimeDiff(now, ts) < 10000 && 10 <= interval <= 5000
    ensures var next := U32(ts + interval);
      0 < TimeDiff(if TimeDiff(now, next) >= 0 then U32(now + interval) else next, now) <= interval
  {
    StepOn(now, ts, interval);
    Opposite(now, U32(ts + interval));
    TimeDiffOfWrapped(now + interval, now);
    S32Exact(interval);
    assert U32(now) == now;
  }

  lemma StepOn(now: int, ts: int, interval: int)
    requires 0 <= now < MODULUS && 0 <= TimeDiff(now, ts) < 10000 && 10 <= interval <= 5000
    ensures TimeDiff(now, U32(ts + interval)) == TimeDiff(now, ts) - interval
  {
    var late := TimeDiff(now, ts);
    NearestRepresentative(now - ts);
    var k := (now - ts - late) / MODULUS;
    assert now - (ts + interval) == (late - interval) + k * MODULUS;
    ModShift(late - interval, k);
    TimeDiffOfWrapped(now, ts + interval);
    assert U32(now) == now;
    S32Exact(late - interval);
  }
}
