/** What `ikcp_flush` does, told from timers and counters: which units it emits and in which
    order, what it leaves in every segment, and what it makes of the congestion window. */
module KcpFlush {
  import opened Serial
  import opened KcpTypes
  import opened KcpSender
  import opened KcpWire
  import opened KcpCongestion
  import opened KcpEngine
  import opened KcpTimers
  import opened Products

  // ---------------------------------------------------------------- which segments are sent

  /** The retransmission timer of a segment sent before has expired. */
  predicate TimedOut(now: int, g: Segment) {
    g.xmit != 0 && ResendDue(g, now)
  }

  /** Enough later segments have been acknowledged, and the limit on such retransmissions
      allows one more. */
  predicate SkippedOften(cfg: Config, g: Segment) {
    && g.fastack >= (if cfg.fastresend > 0 then cfg.fastresend else 0xffff_ffff)
    && (cfg.fastlimit <= 0 || S32(g.xmit) <= cfg.fastlimit)
  }

  /** Sent again early. */
  predicate Hastened(cfg: Config, now: int, g: Segment) {
    g.xmit != 0 && !ResendDue(g, now) && SkippedOften(cfg, g)
  }

  predicate Sends(cfg: Config, now: int, g: Segment) {
    g.xmit == 0 || TimedOut(now, g) || Hastened(cfg, now, g)
  }

  // ---------------------------------------------------------------- the units of a flush

  /** The window advertised, in the 16 bits of its field: the room in the receive queue. */
  function Room(r: Receiver): int {
    Max(0, r.wnd - |r.queue|) % 65536
  }

  function UnitOf(s: Kcb, cmd: int, f: Frag, sn: int, ts: int): Wire {
    Wire(s.cfg.conv, cmd, f, Room(s.rcv), ts, sn, s.rcv.nxt)
  }

  /** One acknowledgement for each entry of the list, in its order. */
  ghost predicate Acknowledges(s: Kcb, ws: seq<Wire>) {
    && |ws| == |s.rcv.acks|
    && forall i :: 0 <= i < |ws| ==> ws[i] == UnitOf(s, CMD_ACK, Frag(0, []), s.rcv.acks[i].sn, s.rcv.acks[i].ts)
  }

  /** The data units of `buf` that are due, in its order. */
  ghost function DataUnits(s: Kcb, buf: seq<Segment>): seq<Wire> {
    if buf == [] then []
    else
      DataUnits(s, buf[..|buf| - 1])
      + (var g := buf[|buf| - 1];
         if Sends(s.cfg, s.clk.current, g) then [UnitOf(s, CMD_PUSH, g.frag, g.sn, s.clk.current)] else [])
  }

  /** The peer is asked for its window: it is closed, and the time to ask again has come. */
  predicate AsksWindow(s: Kcb) {
    s.clk.askSend
    || (s.cc.rmtWnd == 0 && s.clk.probeWait != 0 && TimeDiff(s.clk.current, s.clk.tsProbe) >= 0)
  }

  /** At most one question and one answer, in this order. */
  ghost predicate Probes(s: Kcb, ws: seq<Wire>) {
    && |ws| == (if AsksWindow(s) then 1 else 0) + (if s.clk.askTell then 1 else 0)
    && (AsksWindow(s) ==> ws[0].cmd == CMD_WASK)
    && (s.clk.askTell ==> ws[|ws| - 1].cmd == CMD_WINS)
    && forall i :: 0 <= i < |ws| ==> ws[i] == UnitOf(s, ws[i].cmd, Frag(0, []), ws[i].sn, ws[i].ts)
  }

  lemma {:induction false} DataUnitsAre(s: Kcb, buf: seq<Segment>)
    ensures PushWires(HeadOf(s), TickOf(s), buf) == DataUnits(s, buf)
    decreases |buf|
  {
    if buf != [] { DataUnitsAre(s, buf[..|buf| - 1]); }
  }

  /** A flush emits an acknowledgement for every entry of the ack list, then the probes, then
      the data units that are due, and nothing else. */
  lemma FlushEmits(m: Arith, s: Kcb) returns (acks: seq<Wire>, probes: seq<Wire>)
    requires s.clk.updated
    ensures Acknowledges(s, acks) && Probes(s, probes)
    ensures Flush(m, s).wires == acks + probes + DataUnits(s, Numbered(m, s).snd.buf)
  {
    acks := AckWires(HeadOf(s), s.rcv.acks);
    probes := ProbeWires(HeadOf(s), ProbeTimer(s.clk, s.cc.rmtWnd), ScratchAck(s.rcv.acks));
    DataUnitsAre(s, Numbered(m, s).snd.buf);
  }

  /** `w` is the data unit of the segment at `i`, which is due. */
  ghost predicate IsDataUnit(s: Kcb, buf: seq<Segment>, i: int, w: Wire) {
    && 0 <= i < |buf| && Sends(s.cfg, s.clk.current, buf[i])
    && w == UnitOf(s, CMD_PUSH, buf[i].frag, buf[i].sn, s.clk.current)
  }

  lemma {:induction false} DataUnitOf(s: Kcb, buf: seq<Segment>, w: Wire)
    ensures w in DataUnits(s, buf) <==> exists i :: IsDataUnit(s, buf, i, w)
    decreases |buf|
  {
    if buf != [] {
      var init := buf[..|buf| - 1];
      DataUnitOf(s, init, w);
      if w in DataUnits(s, init) {
        var i :| IsDataUnit(s, init, i, w);
        assert IsDataUnit(s, buf, i, w);
      } else if w in DataUnits(s, buf) {
        assert IsDataUnit(s, buf, |buf| - 1, w);
      }
      if i :| IsDataUnit(s, buf, i, w) {
        if i < |init| { assert IsDataUnit(s, init, i, w); }
      }
    }
  }

  /** Some data unit carries this segment. */
  ghost predicate Emits(ws: seq<Wire>, g: Segment) {
    exists w :: w in ws && w.cmd == CMD_PUSH && w.sn == g.sn && w.frag == g.frag
  }

  /** A flush sends a segment of the send buffer exactly when it has never been sent, its timer
      has expired, or enough later ones have been acknowledged. */
  lemma SentExactlyWhenDue(m: Arith, s: Kcb, i: nat)
    requires s.clk.updated && Ascending(Numbered(m, s).snd.buf) && i < |Numbered(m, s).snd.buf|
    ensures var g := Numbered(m, s).snd.buf[i];
      Emits(Flush(m, s).wires, g)
      <==> g.xmit == 0 || ResendDue(g, s.clk.current) || SkippedOften(s.cfg, g)
  {
    var acks, probes := FlushEmits(m, s);
    EmitsIff(s, Numbered(m, s).snd.buf, i, acks, probes);
  }

  /** One that is due is sent. */
  lemma DueIsSent(m: Arith, s: Kcb, i: nat)
    requires s.clk.updated && i < |Numbered(m, s).snd.buf| && Sends(s.cfg, s.clk.current, Numbered(m, s).snd.buf[i])
    ensures Emits(Flush(m, s).wires, Numbered(m, s).snd.buf[i])
  {
    var buf := Numbered(m, s).snd.buf;
    var u := UnitOf(s, CMD_PUSH, buf[i].frag, buf[i].sn, s.clk.current);
    var acks, probes := FlushEmits(m, s);
    DataUnitOf(s, buf, u);
    assert IsDataUnit(s, buf, i, u);
    assert u in Flush(m, s).wires;
  }

  lemma EmitsIff(s: Kcb, buf: seq<Segment>, i: nat, acks: seq<Wire>, probes: seq<Wire>)
    requires Ascending(buf) && i < |buf| && Acknowledges(s, acks) && Probes(s, probes)
    ensures Emits(acks + probes + DataUnits(s, buf), buf[i]) <==> Sends(s.cfg, s.clk.current, buf[i])
  {
    var g, ws := buf[i], acks + probes + DataUnits(s, buf);
    var u := UnitOf(s, CMD_PUSH, g.frag, g.sn, s.clk.current);
    DataUnitOf(s, buf, u);
    if Sends(s.cfg, s.clk.current, g) {
      assert IsDataUnit(s, buf, i, u);
      assert u in ws;
    }
    if w :| w in ws && w.cmd == CMD_PUSH && w.sn == g.sn && w.frag == g.frag {
      if w in acks || w in probes { NoOtherPush(s, acks, probes, w); }
      DataUnitOf(s, buf, w);
      var j :| IsDataUnit(s, buf, j, w);
      assert j == i;
    }
  }

  /** Acknowledgements and probes are no data units. */
  lemma NoOtherPush(s: Kcb, acks: seq<Wire>, probes: seq<Wire>, w: Wire)
    requires Acknowledges(s, acks) && Probes(s, probes) && (w in acks || w in probes)
    ensures w.cmd != CMD_PUSH
  {
    if w in acks {
      var i :| 0 <= i < |acks| && acks[i] == w;
    } else {
      var i :| 0 <= i < |probes| && probes[i] == w;
      assert i == 0 || i == |probes| - 1;
    }
  }

  // ---------------------------------------------------------------- what the segments become

  /** Timeouts after which no sum below leaves 32 bits. */
  ghost predicate ModestRto(rto: int) {
    0 < rto < 0x4000_0000
  }

  /** The timeout after an expiry: doubled or more, half as much again, or plus half the
      present estimate, by `nodelay`. */
  ghost predicate BackedOff(cfg: Config, before: int, estimate: int, after: int) {
    if cfg.nodelay == 0 then after == before + Max(before, estimate)
    else if cfg.nodelay == 1 then 2 * after <= 3 * before < 2 * after + 2
    else 2 * after <= 2 * before + estimate < 2 * after + 2
  }

  /** What a flush makes of a segment: nothing if it is not sent; else one more transmission is
      counted, and the timer starts afresh. */
  ghost predicate Becomes(s: Kcb, g: Segment, t: Segment) {
    var now := s.clk.current;
    && t.sn == g.sn && t.frag == g.frag
    && (!Sends(s.cfg, now, g) ==> t == g)
    && (g.xmit == 0 ==>
          && t.xmit == 1 && t.fastack == g.fastack && t.rto == s.rtt.rto
          && t.resendts == U32(now + t.rto + if s.cfg.nodelay == 0 then t.rto / 8 else 0))
    && (TimedOut(now, g) ==>
          && t.xmit == U32(g.xmit + 1) && t.fastack == g.fastack && BackedOff(s.cfg, g.rto, s.rtt.rto, t.rto)
          && t.resendts == U32(now + t.rto))
    && (Hastened(s.cfg, now, g) ==>
          t.xmit == U32(g.xmit + 1) && t.fastack == 0 && t.rto == g.rto && t.resendts == U32(now + t.rto))
  }

  lemma SegmentsAfter(m: Arith, s: Kcb, i: nat)
    requires s.clk.updated && i < |Numbered(m, s).snd.buf| && 0 <= s.cfg.nodelay
    requires ModestRto(s.rtt.rto) && ModestRto(Numbered(m, s).snd.buf[i].rto)
    ensures var t := Flush(m, s).kcb.snd;
      |t.buf| == |Numbered(m, s).snd.buf| && Becomes(s, Numbered(m, s).snd.buf[i], t.buf[i])
  {
    var g := Numbered(m, s).snd.buf[i];
    SegmentAfter(s, g, Transmitted(TickOf(s), g));
  }

  lemma SegmentAfter(s: Kcb, g: Segment, t: Segment)
    requires t == Transmitted(TickOf(s), g) && 0 <= s.cfg.nodelay && ModestRto(s.rtt.rto) && ModestRto(g.rto)
    ensures Becomes(s, g, t)
  {
    if TimedOut(s.clk.current, g) { RtoAfter(s, g.rto); }
  }

  lemma RtoAfter(s: Kcb, rto: int)
    requires 0 <= s.cfg.nodelay && ModestRto(s.rtt.rto) && ModestRto(rto)
    ensures BackedOff(s.cfg, rto, s.rtt.rto, BackOff(TickOf(s), rto)) && rto <= BackOff(TickOf(s), rto) < HALF
  {
    var k := TickOf(s);
    if s.cfg.nodelay == 0 {
      Doubled(rto, k.rto);
    } else if s.cfg.nodelay == 1 {
      HalfMore(rto, rto);
    } else {
      HalfMore(rto, k.rto);
    }
  }

  lemma Doubled(rto: int, estimate: int)
    requires ModestRto(rto) && ModestRto(estimate)
    ensures U32(rto + Max(rto, estimate)) == rto + Max(rto, estimate) < HALF
  {
  }

  lemma HalfMore(rto: int, step: int)
    requires ModestRto(rto) && ModestRto(step)
    ensures S32(step) == step
    ensures var after := U32(rto + CDiv(step, 2)); 2 * after <= 2 * rto + step < 2 * after + 2 && rto <= after < HALF
  {
    S32Exact(step);
    assert CDiv(step, 2) == step / 2 && 2 * (step / 2) <= step < 2 * (step / 2) + 2;
  }

  /** A timer set `x` ahead has not expired. */
  lemma Ahead(now: int, x: int)
    requires 0 < x < HALF
    ensures TimeDiff(now, U32(now + x)) == -x
  {
    ModShift(-x, 0);
    var k := (now + x) / MODULUS;
    assert U32(now + x) == now + x - k * MODULUS;
    ModShift(-x, k);
  }

  /** A flush leaves no expired timer behind. */
  lemma NoTimerLeft(m: Arith, s: Kcb)
    requires s.clk.updated && 0 <= s.cfg.nodelay && ModestRto(s.rtt.rto)
    requires forall i :: 0 <= i < |Numbered(m, s).snd.buf| ==> ModestRto(Numbered(m, s).snd.buf[i].rto)
    ensures !AnyResendDue(Flush(m, s).kcb.snd.buf, s.clk.current)
  {
    var buf, t := Numbered(m, s).snd.buf, Flush(m, s).kcb.snd.buf;
    forall i | 0 <= i < |t| ensures !ResendDue(t[i], s.clk.current) {
      SegmentsAfter(m, s, i);
      StartedAfresh(s, buf[i], t[i]);
    }
  }

  lemma StartedAfresh(s: Kcb, g: Segment, t: Segment)
    requires Becomes(s, g, t) && 0 <= s.cfg.nodelay && ModestRto(s.rtt.rto) && ModestRto(g.rto)
    ensures !ResendDue(t, s.clk.current)
  {
    if Sends(s.cfg, s.clk.current, g) {
      Ahead(s.clk.current, t.rto + if g.xmit == 0 && s.cfg.nodelay == 0 then t.rto / 8 else 0);
    }
  }

  // ---------------------------------------------------------------- what the counters become

  ghost predicate AnyTimedOut(now: int, buf: seq<Segment>) {
    exists i :: 0 <= i < |buf| && TimedOut(now, buf[i])
  }

  ghost predicate AnyHastened(cfg: Config, now: int, buf: seq<Segment>) {
    exists i :: 0 <= i < |buf| && Hastened(cfg, now, buf[i])
  }

  ghost function TimedOutCount(now: int, buf: seq<Segment>): nat {
    if buf == [] then 0
    else TimedOutCount(now, buf[..|buf| - 1]) + (if TimedOut(now, buf[|buf| - 1]) then 1 else 0)
  }

  /** Some segment that is sent has been sent `deadLink` times with that. */
  ghost predicate GivenUp(s: Kcb, buf: seq<Segment>) {
    exists i :: 0 <= i < |buf| && Sends(s.cfg, s.clk.current, buf[i]) && U32(buf[i].xmit + 1) >= s.cfg.deadLink
  }

  lemma {:induction false} Causes(s: Kcb, buf: seq<Segment>)
    ensures CountCause(TickOf(s), Timeout, buf) == TimedOutCount(s.clk.current, buf)
    ensures CountCause(TickOf(s), Timeout, buf) > 0 <==> AnyTimedOut(s.clk.current, buf)
    ensures CountCause(TickOf(s), Fast, buf) > 0 <==> AnyHastened(s.cfg, s.clk.current, buf)
    decreases |buf|
  {
    if buf != [] {
      var init, last := buf[..|buf| - 1], |buf| - 1;
      Causes(s, init);
      assert forall i :: 0 <= i < last ==> buf[i] == init[i];
      if i :| 0 <= i < |init| && TimedOut(s.clk.current, init[i]) { assert TimedOut(s.clk.current, buf[i]); }
      if i :| 0 <= i < |init| && Hastened(s.cfg, s.clk.current, init[i]) { assert Hastened(s.cfg, s.clk.current, buf[i]); }
      if TimedOut(s.clk.current, buf[last]) { assert AnyTimedOut(s.clk.current, buf); }
      if Hastened(s.cfg, s.clk.current, buf[last]) { assert AnyHastened(s.cfg, s.clk.current, buf); }
    }
  }

  lemma {:induction false} DeadWhen(s: Kcb, buf: seq<Segment>)
    ensures LinkDead(TickOf(s), s.cfg.deadLink, buf) <==> GivenUp(s, buf)
    decreases |buf|
  {
    if buf != [] {
      var init, last := buf[..|buf| - 1], |buf| - 1;
      DeadWhen(s, init);
      assert forall i :: 0 <= i < last ==> buf[i] == init[i];
      if GivenUp(s, init) {
        var i :| 0 <= i < |init| && Sends(s.cfg, s.clk.current, init[i]) && U32(init[i].xmit + 1) >= s.cfg.deadLink;
        assert Sends(s.cfg, s.clk.current, buf[i]) && U32(buf[i].xmit + 1) >= s.cfg.deadLink;
      }
      DeadSegment(s, buf[last]);
    }
  }

  lemma DeadSegment(s: Kcb, g: Segment)
    ensures var k := TickOf(s);
      (!CauseOf(k, g).Hold? && Transmitted(k, g).xmit >= s.cfg.deadLink)
      <==> Sends(s.cfg, s.clk.current, g) && U32(g.xmit + 1) >= s.cfg.deadLink
  {
  }

  /** Every expired timer counts as a retransmission, and the link is given up when a segment has
      been sent `deadLink` times. */
  lemma CountersAfter(m: Arith, s: Kcb)
    requires s.clk.updated
    ensures var c, buf := Flush(m, s).kcb.clk, Numbered(m, s).snd.buf;
      && c.xmit == U32(s.clk.xmit + TimedOutCount(s.clk.current, buf))
      && c.dead == (s.clk.dead || GivenUp(s, buf))
  {
    Causes(s, Numbered(m, s).snd.buf);
    DeadWhen(s, Numbered(m, s).snd.buf);
  }

  // ---------------------------------------------------------------- what the window becomes

  /** The window the flush was allowed to fill. */
  function Allowed(s: Kcb): int {
    var both := Min(s.cfg.sndWnd, s.cc.rmtWnd);
    if s.cfg.nocwnd || both <= s.cc.cwnd then both else s.cc.cwnd
  }

  /** A timeout closes the congestion window down to one segment and halves the threshold; else
      a fast retransmission sets it to half of what is in flight and as many segments as were
      skipped; else it stays, but never closed. */
  lemma WindowAfter(m: Arith, s: Kcb)
    requires s.clk.updated
    ensures var t, snd, now := Flush(m, s).kcb.cc, Numbered(m, s).snd, s.clk.current;
      && t.rmtWnd == s.cc.rmtWnd
      && (AnyTimedOut(now, snd.buf) ==>
            t.cwnd == 1 && t.incr == s.cfg.mss && t.ssthresh == Max(2, Allowed(s) / 2))
      && (!AnyTimedOut(now, snd.buf) && AnyHastened(s.cfg, now, snd.buf) ==>
            && t.ssthresh == Max(2, U32(snd.nxt - snd.una) / 2)
            && (var cwnd := U32(t.ssthresh + if s.cfg.fastresend > 0 then s.cfg.fastresend else 0xffff_ffff);
                if cwnd >= 1 then t.cwnd == cwnd && t.incr == U32(Times(cwnd, s.cfg.mss)) else t.cwnd == 1 && t.incr == s.cfg.mss))
      && (!AnyTimedOut(now, snd.buf) && !AnyHastened(s.cfg, now, snd.buf) ==>
            t == if s.cc.cwnd >= 1 then s.cc else s.cc.(cwnd := 1, incr := s.cfg.mss))
  {
    Causes(s, Numbered(m, s).snd.buf);
  }

  // ---------------------------------------------------------------- ikcp_update

  /** An update that flushes is a flush at its time. */
  lemma UpdateFlushes(m: Arith, s: Kcb, now: int) returns (at: Kcb)
    requires WouldFlush(s, now)
    ensures at == s.(clk := s.clk.(current := now, updated := true, tsFlush := at.clk.tsFlush))
    ensures Update(m, s, now) == Flush(m, at)
  {
    at := s.(clk := Rescheduled(s.cfg, Advanced(s.clk, now)));
  }

  lemma {:induction false} BufferStays(m: Arith, s: Sender, cwnd: int, now: int, rto: int)
    ensures var t := MoveQueue(m, s, cwnd, now, rto);
      s.buf <= t.buf && forall j :: |s.buf| <= j < |t.buf| ==> t.buf[j].xmit == 0 && t.buf[j].fastack == 0
    decreases |s.queue|
  {
    if Diff(m, s.nxt, Num(m, s.una + cwnd)) < 0 && s.queue != [] {
      var g := Segment(s.nxt, s.queue[0], now, rto, 0, 0);
      BufferStays(m, Sender(s.una, Num(m, s.nxt + 1), s.queue[1..], s.buf + [g]), cwnd, now, rto);
      assert (s.buf + [g])[|s.buf|] == g;
    }
  }

  /** A segment whose timer has expired is sent again by the next update that flushes. */
  lemma ExpiredIsResent(m: Arith, s: Kcb, now: int, i: nat)
    requires WouldFlush(s, now) && i < |s.snd.buf| && ResendDue(s.snd.buf[i], now)
    ensures Emits(Update(m, s, now).wires, s.snd.buf[i])
  {
    var at := UpdateFlushes(m, s, now);
    BufferStays(m, at.snd, SendWindow(at.cfg, at.cc), now, at.rtt.rto);
    assert Numbered(m, at).snd.buf[i] == s.snd.buf[i];
    DueIsSent(m, at, i);
  }

  /** A segment that this flush numbers is sent by it. */
  lemma NewIsSent(m: Arith, s: Kcb, i: nat)
    requires s.clk.updated && |s.snd.buf| <= i < |Numbered(m, s).snd.buf|
    ensures Emits(Flush(m, s).wires, Numbered(m, s).snd.buf[i])
  {
    BufferStays(m, s.snd, SendWindow(s.cfg, s.cc), s.clk.current, s.rtt.rto);
    DueIsSent(m, s, i);
  }

  // ---------------------------------------------------------------- window probes

  /** The probe timer: off while the peer's window is open, set when it is found closed, and
      half as long again after every question, up to two minutes. */
  lemma ProbeTimerAfter(m: Arith, s: Kcb)
    requires s.clk.updated && 0 <= s.clk.probeWait <= 120000
    ensures var c, now := Flush(m, s).kcb.clk, s.clk.current;
      && !c.askSend && !c.askTell
      && (s.cc.rmtWnd != 0 ==> c.probeWait == 0 && c.tsProbe == 0)
      && (s.cc.rmtWnd == 0 && s.clk.probeWait == 0 ==> c.probeWait == 7000 && c.tsProbe == U32(now + 7000))
      && (s.cc.rmtWnd == 0 && s.clk.probeWait != 0 && TimeDiff(now, s.clk.tsProbe) < 0 ==>
            c.probeWait == s.clk.probeWait && c.tsProbe == s.clk.tsProbe)
      && (s.cc.rmtWnd == 0 && s.clk.probeWait != 0 && TimeDiff(now, s.clk.tsProbe) >= 0 ==>
            && c.probeWait == Min(120000, Max(7000, s.clk.probeWait) * 3 / 2) && c.tsProbe == U32(now + c.probeWait))
      && 0 <= c.probeWait <= 120000
  {
  }

  /** A question, or an answer with the room there is now. */
  ghost predicate Carries(ws: seq<Wire>, cmd: int, s: Kcb) {
    exists w :: w in ws && w.cmd == cmd && w.wnd == Room(s.rcv)
  }

  lemma ProbeLeaves(m: Arith, s: Kcb)
    requires s.clk.updated
    ensures AsksWindow(s) ==> Carries(Flush(m, s).wires, CMD_WASK, s)
    ensures s.clk.askTell ==> Carries(Flush(m, s).wires, CMD_WINS, s)
  {
    var acks, probes := FlushEmits(m, s);
    if AsksWindow(s) { assert probes[0] in Flush(m, s).wires; }
    if s.clk.askTell { assert probes[|probes| - 1] in Flush(m, s).wires; }
  }

  /** A peer that closes its window is asked for it by every flush from 7 s after the one that
      noticed, as long as the window stays closed: `t` is a later state, with the probe timer
      as that flush left it. */
  lemma ClosedWindowIsProbed(m: Arith, s: Kcb, t: Kcb, d: int)
    requires s.clk.updated && s.cc.rmtWnd == 0 && s.clk.probeWait == 0
    requires t.clk.updated && t.cc.rmtWnd == 0
    requires t.clk.probeWait == Flush(m, s).kcb.clk.probeWait && t.clk.tsProbe == Flush(m, s).kcb.clk.tsProbe
    requires t.clk.current == U32(s.clk.current + d) && 7000 <= d < HALF
    ensures Carries(Flush(m, t).wires, CMD_WASK, t)
  {
    ProbeTimerAfter(m, s);
    TimeDiffOfWrapped(s.clk.current + d, s.clk.current + 7000);
    S32Exact(d - 7000);
    ProbeLeaves(m, t);
  }
}
