/** From which segment size on a run can take the congestion window out of step: two
    endpoints that exchange one acknowledged segment after another. */
module KcpGrowth {
  import opened Serial
  import opened KcpTypes
  import opened KcpSender
  import opened KcpReceiver
  import opened KcpFragment
  import opened KcpWire
  import opened KcpCongestion
  import opened KcpEngine
  import opened KcpSession
  import opened KcpRuns
  import opened Products

  // ---------------------------------------------------------------- growth in runs

  /** A datagram has left `incr` in step with cwnd and has not shrunk the window. */
  ghost predicate StepKept(mss: int, before: Congestion, after: Congestion) {
    Tracks(mss, after) && before.cwnd <= after.cwnd
  }

  /** A run of endpoint A, configured as `ca`, against any peer, and a datagram it can take. */
  ghost predicate Arrives(ca: Config, s: Sys, wa: int, cb: Config, wb: int, moves: seq<Move>, d: Datagram) {
    && Fresh(s, ca, wa, cb, wb) && AllSmall(Wrapping, Run(Wrapping, s, moves))
    && d in Run(Wrapping, s, moves).b.out
  }

  /** The congestion record of A before and after it. */
  ghost predicate Kept(ca: Config, s: Sys, moves: seq<Move>, d: Datagram)
    requires 0 < s.a.kcb.cfg.mss && 0 < s.b.kcb.cfg.mss
  {
    var p := Run(Wrapping, s, moves).a;
    StepKept(ca.mss, p.kcb.cc, Deliver(Wrapping, p.kcb, d).cc)
  }

  /** No run of an endpoint with these settings ever loses step or window by a datagram. */
  ghost predicate InputsKeepStep(ca: Config) {
    forall s, wa, cb, wb, moves, d :: Arrives(ca, s, wa, cb, wb, moves, d) ==> Kept(ca, s, moves, d)
  }

  /** Up to 2^16 bytes nothing goes wrong. */
  lemma DatagramKeepsStep(ca: Config, s: Sys, wa: int, cb: Config, wb: int, moves: seq<Move>, d: Datagram)
    requires Arrives(ca, s, wa, cb, wb, moves, d) && CcSizes(ca)
    ensures Kept(ca, s, moves, d)
  {
    Invariant(Wrapping, s, ca, wa, cb, wb, moves);
    CongestionOverRuns(Wrapping, s, ca, wa, cb, wb, moves);
    var t := Run(Wrapping, s, moves);
    assert forall i :: 0 <= i < |d| ==> 0 <= d[i].wnd < 65536;
    DeliverKeepsStep(t.a.kcb, d);
  }

  lemma DeliverKeepsStep(k: Kcb, d: Datagram)
    requires CcOk(k.cfg, k.cc) && CcSizes(k.cfg) && forall i :: 0 <= i < |d| ==> 0 <= d[i].wnd < 65536
    ensures StepKept(k.cfg.mss, k.cc, Deliver(Wrapping, k, d).cc)
  {
    ProcessAllCc(Wrapping, k, d);
    var t := ProcessAll(Wrapping, k, d);
    ConcludeCc(Wrapping, t, NoteAll(Wrapping, NoAck, d), k.snd.una);
    GrowKeeps(k.cfg, t.cc);
    InStepTracks(k.cfg.mss, t.cc);
    InStepTracks(k.cfg.mss, Grow(k.cfg.mss, t.cc));
  }

  // ---------------------------------------------------------------- an idle pair of endpoints

  /** The clock has been started and stands at 0; no probe is due. */
  ghost predicate Still(c: Clock) {
    c.updated && c.current == 0 && !c.askSend && !c.askTell
  }

  /** A has had `n` segments acknowledged and nothing is on its way. */
  ghost predicate IdleA(p: Peer, ca: Config, n: nat, cc: Congestion) {
    && p.kcb.cfg == ca && p.kcb.snd == Sender(n, n, [], []) && p.kcb.cc == cc
    && p.kcb.rcv == Receiver(0, WND_RCV, [], [], []) && Still(p.kcb.clk)
    && 0 < ca.mss && |AllFragments(ca.mss, p.sent)| == n
  }

  /** B has read them all; its receive window is 65535. */
  ghost predicate IdleB(q: Peer, ca: Config, n: nat, acks: seq<Ack>) {
    && q.kcb.cfg == ca && q.kcb.snd == Sender(0, 0, [], []) && q.kcb.cc.rmtWnd == WND_RCV
    && q.kcb.rcv == Receiver(n, 65535, [], [], acks) && Still(q.kcb.clk)
    && q.sent == []
  }

  /** A's data unit and B's acknowledgement of it. */
  function DataUnit(ca: Config, n: nat): Wire {
    Wire(ca.conv, CMD_PUSH, Frag(0, [0]), WND_RCV, 0, n, 0)
  }

  function AckUnit(ca: Config, n: nat): Wire {
    Wire(ca.conv, CMD_ACK, Frag(0, []), 65535, 0, n, n + 1)
  }

  lemma PackSingle(mtu: int, w: Wire)
    requires WireSize(w) <= mtu
    ensures Pack(mtu, [w]) == [[w]]
  {
    assert [w][1..] == [];
    assert PackMore(mtu, Packing([], []), [w]) == PackMore(mtu, Packing([], [w]), []) by {
      assert [] + [w] == [w];
      assert SizeOf([]) == 0;
    }
    assert [] + [[w]] == [[w]];
  }

  // ---------------------------------------------------------------- one call each

  lemma NumbersFit(n: nat)
    requires n + 65536 < HALF
    ensures Num(Wrapping, n) == n && Num(Wrapping, n + 1) == n + 1 && Num(Wrapping, n + 65535) == n + 65535
    ensures TimeDiff(n, n) == 0 && TimeDiff(n, n + 1) == -1 && TimeDiff(n + 1, n) == 1 && TimeDiff(n, n + 65535) == -65535
  {
  }

  /** `ikcp_send` of one byte. */
  lemma SendOne(p: Peer, ca: Config, n: nat, cc: Congestion)
    requires IdleA(p, ca, n, cc) && !ca.stream
    ensures var t := Do(Wrapping, p, {}, DoSend([0]));
      && t == p.(kcb := p.kcb.(snd := Sender(n, n, [Frag(0, [0])], [])), sent := p.sent + [[0]])
      && |AllFragments(ca.mss, t.sent)| == n + 1
  {
    var mss := ca.mss;
    assert [0][..Min(mss, 1)] == [0] && [0][0..] == [0];
    assert Cut(mss, false, [0], 1) == [Frag(0, [0])];
    assert [] + [Frag(0, [0])] == [Frag(0, [0])];
    assert (p.sent + [[0]])[..|p.sent|] == p.sent;
  }

  /** A with its segment transmitted. */
  ghost predicate WaitingA(p: Peer, ca: Config, n: nat, cc: Congestion) {
    && p.kcb.cfg == ca && p.kcb.cc == cc
    && p.kcb.snd.una == n && p.kcb.snd.nxt == n + 1 && p.kcb.snd.queue == []
    && |p.kcb.snd.buf| == 1 && p.kcb.snd.buf[0].sn == n
    && p.kcb.rcv == Receiver(0, WND_RCV, [], [], []) && Still(p.kcb.clk)
    && 0 < ca.mss && |AllFragments(ca.mss, p.sent)| == n + 1
  }

  ghost predicate Open(ca: Config, cc: Congestion) {
    && ConfigOk(ca) && !ca.stream && 1 <= cc.cwnd && 1 <= cc.rmtWnd < 65536
  }

  /** The loop that numbers takes the one segment. */
  lemma NumberOne(n: nat, window: int, now: int, rto: int)
    requires 1 <= window < 65536 && n + 65536 < HALF
    ensures MoveQueue(Wrapping, Sender(n, n, [Frag(0, [0])], []), window, now, rto)
         == Sender(n, n + 1, [], [Segment(n, Frag(0, [0]), now, rto, 0, 0)])
  {
    var s := Sender(n, n, [Frag(0, [0])], []);
    var t := Sender(n, n + 1, [], [Segment(n, Frag(0, [0]), now, rto, 0, 0)]);
    NumbersFit(n);
    assert s.queue[1..] == [] && [] + t.buf == t.buf;
    assert TimeDiff(n, n + window) == -window;
    assert MoveQueue(Wrapping, t, window, now, rto) == t;
  }

  /** A segment that has not been transmitted is, and is all there is. */
  lemma TransmitOne(h: Head, k: Tick, g: Segment)
    requires g.xmit == 0
    ensures PushWires(h, k, [g]) == [PushWire(h, k, g)]
    ensures CountCause(k, Fast, [g]) == 0 && CountCause(k, Timeout, [g]) == 0
    ensures Transmitted(k, g).sn == g.sn
  {
    assert [g][..0] == [] && [] + [PushWire(h, k, g)] == [PushWire(h, k, g)];
  }

  /** `ikcp_flush` at A. */
  lemma FlushOne(p: Peer, ca: Config, n: nat, cc: Congestion)
    requires Open(ca, cc) && n + 65536 < HALF
    requires p.kcb.cfg == ca && p.kcb.snd == Sender(n, n, [Frag(0, [0])], []) && p.kcb.cc == cc
    requires p.kcb.rcv == Receiver(0, WND_RCV, [], [], []) && Still(p.kcb.clk)
    ensures var r := Flush(Wrapping, p.kcb);
      && r.wires == [DataUnit(ca, n)]
      && r.kcb == p.kcb.(snd := r.kcb.snd, clk := r.kcb.clk) && Still(r.kcb.clk)
      && r.kcb.snd.una == n && r.kcb.snd.nxt == n + 1 && r.kcb.snd.queue == []
      && |r.kcb.snd.buf| == 1 && r.kcb.snd.buf[0].sn == n
  {
    var k := p.kcb;
    var g := Segment(n, Frag(0, [0]), 0, k.rtt.rto, 0, 0);
    NumberOne(n, SendWindow(ca, cc), 0, k.rtt.rto);
    var snd := Numbered(Wrapping, k).snd;
    assert snd == Sender(n, n + 1, [], [g]);
    TransmitOne(HeadOf(k), TickOf(k), g);
    assert PushWire(HeadOf(k), TickOf(k), g) == DataUnit(ca, n);
    assert FlushWires(k, snd) == [DataUnit(ca, n)];
    assert FlushedCc(k, snd) == cc;
  }

  /** `ikcp_input` of the data unit at B ... */
  lemma TakeData(q: Peer, ca: Config, n: nat)
    requires IdleB(q, ca, n, []) && 0 < ca.mss && n + 65536 < HALF
    ensures var k := Deliver(Wrapping, q.kcb, [DataUnit(ca, n)]);
      k == q.kcb.(rcv := Receiver(n + 1, 65535, [Arrived(n, Frag(0, [0]))], [], [Ack(n, 0)]))
  {
    var w, x := DataUnit(ca, n), Arrived(n, Frag(0, [0]));
    NumbersFit(n);
    assert [w][1..] == [];
    var r := q.kcb.rcv.(acks := [Ack(n, 0)]);
    assert [] + [Ack(n, 0)] == [Ack(n, 0)] && [] + [x] == [x] && [x][1..] == [];
    assert Drain(Wrapping, r.(buf := [x])) == Receiver(n + 1, 65535, [x], [], [Ack(n, 0)]);
    var t := Process(Wrapping, q.kcb, w);
    assert t == q.kcb.(rcv := Receiver(n + 1, 65535, [x], [], [Ack(n, 0)]));
    assert ProcessAll(Wrapping, q.kcb, [w]) == ProcessAll(Wrapping, t, []) == t;
    assert NoteAll(Wrapping, NoAck, [w]) == NoteAll(Wrapping, NoAck, []) == NoAck;
  }

  /** ... `ikcp_recv` ... */
  lemma ReadData(k: Kcb, n: nat)
    requires k.rcv == Receiver(n + 1, 65535, [Arrived(n, Frag(0, [0]))], [], [Ack(n, 0)])
    ensures var r := RecvCall(Wrapping, k, 1);
      r.kcb == k.(rcv := Receiver(n + 1, 65535, [], [], [Ack(n, 0)])) && r.code == 1
  {
    var queue := k.rcv.queue;
    assert queue[1..] == [] && queue[..1] == queue && [0] + [] == [0];
    assert Payload(queue) == [0];
  }

  /** ... and `ikcp_flush`. */
  lemma FlushAck(q: Peer, ca: Config, n: nat)
    requires IdleB(q, ca, n + 1, [Ack(n, 0)]) && n + 65536 < HALF
    ensures var r := Flush(Wrapping, q.kcb);
      && r.wires == [AckUnit(ca, n)]
      && IdleB(q.(kcb := r.kcb), ca, n + 1, [])
  {
    var k := q.kcb;
    var snd := Numbered(Wrapping, k).snd;
    assert snd == Sender(0, 0, [], []);
    assert AckWires(HeadOf(k), [Ack(n, 0)]) == [AckUnit(ca, n)];
    assert FlushWires(k, snd) == [AckUnit(ca, n)];
  }

  /** `ikcp_input` of the acknowledgement at A, which lets the window grow. */
  lemma TakeAckUnit(p: Peer, ca: Config, n: nat, cc: Congestion)
    requires WaitingA(p, ca, n, cc) && n + 65536 < HALF
    ensures var k := Deliver(Wrapping, p.kcb, [AckUnit(ca, n)]);
      IdleA(p.(kcb := k), ca, n + 1, Grow(ca.mss, cc.(rmtWnd := 65535)))
  {
    var w := AckUnit(ca, n);
    NumbersFit(n);
    assert [w][1..] == [];
    var g := p.kcb.snd.buf[0];
    assert p.kcb.snd.buf == [g] && [g][1..] == [];
    assert DropUna(Wrapping, [g], n + 1) == [];
    var t := Process(Wrapping, p.kcb, w);
    assert t.snd == Sender(n + 1, n + 1, [], []);
    assert ProcessAll(Wrapping, p.kcb, [w]) == t;
    assert ParseFastack(Wrapping, t.snd, n) == t.snd;
  }

  // ---------------------------------------------------------------- one segment sent and acknowledged

  lemma RunMore(s: Sys, moves: seq<Move>, mv: Move)
    requires 0 < s.a.kcb.cfg.mss && 0 < s.b.kcb.cfg.mss
    ensures Run(Wrapping, s, moves + [mv]) == Next(Wrapping, Run(Wrapping, s, moves), mv)
  {
    assert (moves + [mv])[..|moves|] == moves;
  }

  lemma EmittedSingle(mtu: int, p: Peer, r: FlushResult, w: Wire)
    requires r.wires == [w] && WireSize(w) <= mtu
    ensures Emitted(mtu, p, r) == p.(kcb := r.kcb, out := p.out + {[w]})
  {
    PackSingle(mtu, w);
    assert (set d | d in [[w]]) == {[w]};
  }

  /** A sends and flushes. */
  lemma DataLeaves(s: Sys, ca: Config, moves: seq<Move>, n: nat, cc: Congestion) returns (more: seq<Move>)
    requires s.a.kcb.cfg == ca == s.b.kcb.cfg && Open(ca, cc) && n + 65536 < HALF
    requires IdleA(Run(Wrapping, s, moves).a, ca, n, cc)
    ensures var t := Run(Wrapping, s, more);
      && t.b == Run(Wrapping, s, moves).b
      && WaitingA(t.a, ca, n, cc) && [DataUnit(ca, n)] in t.a.out
  {
    var send, flush := Move(true, DoSend([0])), Move(true, DoFlush);
    more := moves + [send] + [flush];
    RunMore(s, moves, send);
    RunMore(s, moves + [send], flush);
    SendOne(Run(Wrapping, s, moves).a, ca, n, cc);
    var p := Run(Wrapping, s, moves + [send]).a;
    FlushOne(p, ca, n, cc);
    EmittedSingle(ca.mtu, p, Flush(Wrapping, p.kcb), DataUnit(ca, n));
  }

  /** B takes the data, reads it and flushes. */
  lemma AckLeaves(s: Sys, ca: Config, moves: seq<Move>, n: nat) returns (more: seq<Move>)
    requires s.a.kcb.cfg == ca == s.b.kcb.cfg && ConfigOk(ca) && n + 65536 < HALF
    requires var t := Run(Wrapping, s, moves); IdleB(t.b, ca, n, []) && [DataUnit(ca, n)] in t.a.out
    ensures var t := Run(Wrapping, s, more);
      && t.a == Run(Wrapping, s, moves).a
      && IdleB(t.b, ca, n + 1, []) && [AckUnit(ca, n)] in t.b.out
  {
    var input, recv, flush := Move(false, DoInput([DataUnit(ca, n)])), Move(false, DoRecv(1)), Move(false, DoFlush);
    var m1 := moves + [input];
    var m2 := m1 + [recv];
    more := m2 + [flush];
    RunMore(s, moves, input);
    RunMore(s, m1, recv);
    RunMore(s, m2, flush);
    TakeData(Run(Wrapping, s, moves).b, ca, n);
    ReadData(Run(Wrapping, s, m1).b.kcb, n);
    var q := Run(Wrapping, s, m2).b;
    FlushAck(q, ca, n);
    EmittedSingle(ca.mtu, q, Flush(Wrapping, q.kcb), AckUnit(ca, n));
  }

  /** Both endpoints idle, `n` segments into the run. */
  ghost predicate Idle(s: Sys, ca: Config, moves: seq<Move>, n: nat, cc: Congestion)
    requires 0 < s.a.kcb.cfg.mss && 0 < s.b.kcb.cfg.mss
  {
    var t := Run(Wrapping, s, moves);
    IdleA(t.a, ca, n, cc) && IdleB(t.b, ca, n, [])
  }

  /** One segment: the acknowledgement is a datagram that A can take, and takes. */
  lemma OneSegment(s: Sys, ca: Config, moves: seq<Move>, n: nat, cc: Congestion)
    returns (before: seq<Move>, d: Datagram, more: seq<Move>)
    requires Fresh(s, ca, WND_RCV, ca, 65535) && Open(ca, cc) && n + 65536 < HALF && Idle(s, ca, moves, n, cc)
    ensures Arrives(ca, s, WND_RCV, ca, 65535, before, d)
    ensures var p := Run(Wrapping, s, before).a;
      p.kcb.cc == cc && Deliver(Wrapping, p.kcb, d).cc == Grow(ca.mss, cc.(rmtWnd := 65535))
    ensures Idle(s, ca, more, n + 1, Grow(ca.mss, cc.(rmtWnd := 65535)))
  {
    var m1 := DataLeaves(s, ca, moves, n, cc);
    before := AckLeaves(s, ca, m1, n);
    d := [AckUnit(ca, n)];
    var input := Move(true, DoInput(d));
    more := before + [input];
    RunMore(s, before, input);
    TakeAckUnit(Run(Wrapping, s, before).a, ca, n, cc);
  }

  /** The first `ikcp_update` opens the window by one segment. */
  lemma FirstUpdate(ca: Config, wnd: int)
    requires ConfigOk(ca)
    ensures var r := Update(Wrapping, Created(ca, wnd), 0);
      && r.wires == [] && Still(r.kcb.clk)
      && r.kcb == Created(ca, wnd).(cc := Congestion(WND_RCV, 1, ca.mss, THRESH_INIT), clk := r.kcb.clk)
  {
    var k := Created(ca, wnd);
    var c := Advanced(k.clk, 0);
    assert FlushDue(c) && c.updated && c.current == 0;
    var k' := k.(clk := Rescheduled(ca, c));
    var snd := Numbered(Wrapping, k').snd;
    assert snd == Sender(0, 0, [], []);
    assert FlushWires(k', snd) == [];
  }

  lemma Started(s: Sys, ca: Config) returns (moves: seq<Move>)
    requires Fresh(s, ca, WND_RCV, ca, 65535)
    ensures Idle(s, ca, moves, 0, Congestion(WND_RCV, 1, ca.mss, THRESH_INIT))
  {
    var a, b := Move(true, DoUpdate(0)), Move(false, DoUpdate(0));
    RunMore(s, [], a);
    RunMore(s, [] + [a], b);
    FirstUpdate(ca, WND_RCV);
    FirstUpdate(ca, 65535);
    moves := [] + [a] + [b];
  }

  // ---------------------------------------------------------------- growth, segment by segment

  /** A record of the run that is still in step.  With segments of 2^16 + 1 bytes `incr` and
      cwnd only take even values. */
  ghost predicate OnTrack(mss: int, cc: Congestion) {
    && cc.rmtWnd == 65535 && cc.ssthresh == THRESH_INIT && 2 <= cc.cwnd <= 65534
    && InStep(mss, cc) && 2 * mss <= cc.incr < MODULUS
    && (mss == 65537 ==> cc.cwnd % 2 == 0 && cc.incr % 2 == 0)
  }

  /** What congestion avoidance adds to `incr`. */
  lemma Added(mss: int, incr: int) returns (d: int)
    requires 65537 <= mss && 2 * mss <= incr
    ensures d == Quotient(U32(Times(mss, mss)), incr) + mss / 16 && 4096 <= d <= mss
    ensures mss == 65537 ==> d == 4096
  {
    var q := Quotient(U32(Times(mss, mss)), incr);
    QuotientBounds(U32(Times(mss, mss)), incr);
    if q >= 32768 { MulMono(32768, q, incr); }
    if mss == 65537 { TimesIsProduct(mss, mss); }
    d := q + mss / 16;
  }

  lemma SmallQuotient(x: int, mss: int)
    requires 65537 <= mss && 0 <= x < MODULUS
    ensures Quotient(x, mss) <= 65535
    ensures 65537 < mss ==> Quotient(x, mss) <= 65534
  {
    QuotientBounds(x, mss);
    var q := Quotient(x, mss);
    if q > 65535 { MulMono(65536, q, mss); }
    if 65537 < mss && q > 65534 { MulMono(65535, q, mss); }
  }

  /** Growth of a record on track is congestion avoidance. */
  lemma GrowthIsAvoidance(mss: int, cc: Congestion) returns (incr: int)
    requires 65537 <= mss && OnTrack(mss, cc)
    ensures Grow(mss, cc) == cc.(incr := U32(incr), cwnd := Grow(mss, cc).cwnd)
    ensures incr == cc.incr + Quotient(U32(Times(mss, mss)), cc.incr) + mss / 16
    ensures Grow(mss, cc).cwnd
         == if U32(Times(cc.cwnd + 1, mss)) <= U32(incr) then Quotient(U32(U32(incr) + mss - 1), mss) else cc.cwnd
    ensures cc.incr + 4096 <= incr <= cc.incr + mss && (mss == 65537 ==> incr == cc.incr + 4096)
    ensures 0 <= Grow(mss, cc).cwnd <= 65535 && (65537 < mss ==> Grow(mss, cc).cwnd <= 65534)
  {
    var d := Added(mss, cc.incr);
    incr := cc.incr + d;
    SmallQuotient(U32(U32(incr) + mss - 1), mss);
  }

  /** If it keeps step, `incr` has grown without wrapping. */
  lemma GrowthAdvances(mss: int, cc: Congestion)
    requires 65537 <= mss && 3 * mss < MODULUS && OnTrack(mss, cc) && StepKept(mss, cc, Grow(mss, cc))
    ensures OnTrack(mss, Grow(mss, cc)) && cc.incr + 4096 <= Grow(mss, cc).incr
  {
    var t := Grow(mss, cc);
    var incr := GrowthIsAvoidance(mss, cc);
    InStepTracks(mss, t);
    TimesMono(cc.cwnd, t.cwnd, mss);
    NoWrap(mss, cc.incr, incr, Times(cc.cwnd, mss), Times(t.cwnd, mss));
    if mss == 65537 { EvenAdvances(cc, t, incr); }
  }

  /** A window that has not shrunk and is in step leaves no room for a wrap; `a` and `b` are its
      bytes before and after. */
  lemma NoWrap(mss: int, old_incr: int, incr: int, a: int, b: int)
    requires 3 * mss < MODULUS && 0 <= old_incr < MODULUS && old_incr <= incr <= old_incr + mss
    requires a <= b && old_incr < a + mss && b - mss < U32(incr)
    ensures incr < MODULUS && U32(incr) == incr
  {
    if incr >= MODULUS { WrapOnce(incr); }
  }

  lemma EvenAdvances(cc: Congestion, t: Congestion, incr: int)
    requires OnTrack(65537, cc) && incr == cc.incr + 4096 < MODULUS && cc.cwnd <= t.cwnd <= 65535
    requires t.cwnd
      == if U32(Times(cc.cwnd + 1, 65537)) <= incr then Quotient(U32(incr + 65537 - 1), 65537) else cc.cwnd
    ensures t.cwnd % 2 == 0 && t.cwnd <= 65534
  {
    var c := cc.cwnd;
    TimesIsProduct(c, 65537);
    TimesIsProduct(c + 1, 65537);
    var up := (c + 1) * 65537;
    assert up < MODULUS && up % 2 == 1;
    if up <= incr {
      if incr + 65536 < MODULUS {
        assert (c + 2) * 65537 <= incr + 65536 < (c + 2) * 65537 + 65537;
        QuotientUnique(incr + 65536, 65537, c + 2);
      } else {
        WrapOnce(incr + 65536);
        assert false;
      }
    }
  }

  /** With segments three of which do not fit 32 bits the second acknowledgement is enough. */
  lemma LargeFails(mss: int)
    requires MODULUS <= 3 * mss && mss < HALF
    ensures var cc := Congestion(65535, 2, 2 * mss, THRESH_INIT); !StepKept(mss, cc, Grow(mss, cc))
  {
    var cc := Congestion(65535, 2, 2 * mss, THRESH_INIT);
    TimesIsProduct(2, mss);
    TimesIsProduct(3, mss);
    var incr := GrowthIsAvoidance(mss, cc);
    WrapOnce(3 * mss);
    AddedToLarge(mss);
    if incr < MODULUS {
      Unwrapped(incr);
      LargeSum(mss, incr);
    } else {
      WrapOnce(incr);
    }
  }

  /** The square in 32 bits holds the doubled segment at most once. */
  lemma AddedToLarge(mss: int)
    requires MODULUS <= 3 * mss && mss < HALF
    ensures Quotient(U32(Times(mss, mss)), 2 * mss) <= 1
  {
    var q := Quotient(U32(Times(mss, mss)), 2 * mss);
    QuotientBounds(U32(Times(mss, mss)), 2 * mss);
    if q >= 2 { MulMono(2, q, 2 * mss); }
  }

  lemma LargeSum(mss: int, incr: int)
    requires MODULUS <= 3 * mss && mss < HALF && 2 * mss + 4096 <= incr < MODULUS
    ensures Quotient(U32(incr + mss - 1), mss) == 0
  {
    WrapOnce(incr + mss - 1);
  }

  // ---------------------------------------------------------------- the run that loses step

  lemma {:induction false} Drive(s: Sys, ca: Config, moves: seq<Move>, n: nat, cc: Congestion)
    returns (before: seq<Move>, d: Datagram)
    requires Fresh(s, ca, WND_RCV, ca, 65535) && 65537 <= ca.mss && 3 * ca.mss < MODULUS
    requires OnTrack(ca.mss, cc) && n * 4096 <= cc.incr && Idle(s, ca, moves, n, cc)
    ensures Arrives(ca, s, WND_RCV, ca, 65535, before, d) && !Kept(ca, s, before, d)
    decreases MODULUS - cc.incr
  {
    var more;
    before, d, more := OneSegment(s, ca, moves, n, cc);
    assert cc.(rmtWnd := 65535) == cc;
    if StepKept(ca.mss, cc, Grow(ca.mss, cc)) {
      GrowthAdvances(ca.mss, cc);
      before, d := Drive(s, ca, more, n + 1, Grow(ca.mss, cc));
    }
  }

  /** The first acknowledgement: slow start. */
  lemma FirstGrowth(mss: int)
    requires 65537 <= mss < HALF
    ensures var t := Grow(mss, Congestion(65535, 1, mss, THRESH_INIT));
      t == Congestion(65535, 2, 2 * mss, THRESH_INIT) && (3 * mss < MODULUS ==> OnTrack(mss, t))
  {
    TimesIsProduct(2, mss);
  }

  /** From 2^16 + 1 bytes on, with any other settings, some run loses step or window. */
  lemma LosesStep(s: Sys, ca: Config) returns (before: seq<Move>, d: Datagram)
    requires Fresh(s, ca, WND_RCV, ca, 65535) && 65537 <= ca.mss
    ensures Arrives(ca, s, WND_RCV, ca, 65535, before, d) && !Kept(ca, s, before, d)
  {
    var mss := ca.mss;
    var c0 := Congestion(WND_RCV, 1, mss, THRESH_INIT);
    var c1 := Congestion(65535, 2, 2 * mss, THRESH_INIT);
    FirstGrowth(mss);
    var moves := Started(s, ca);
    var more;
    before, d, more := OneSegment(s, ca, moves, 0, c0);
    if 3 * mss < MODULUS {
      before, d := Drive(s, ca, more, 1, c1);
    } else {
      assert c1.(rmtWnd := 65535) == c1;
      before, d, more := OneSegment(s, ca, more, 1, c1);
      LargeFails(mss);
    }
  }

  /** In every run every datagram leaves `incr` in step with cwnd and the window no smaller,
      exactly when a segment holds at most 2^16 bytes; up to there the product of a fast
      retransmission must fit 32 bits. */
  lemma InputsKeepStepIff(ca: Config)
    requires ConfigOk(ca) && !ca.stream && (ca.mss <= 65536 ==> CcSizes(ca))
    ensures InputsKeepStep(ca) <==> ca.mss <= 65536
  {
    if ca.mss <= 65536 {
      forall s, wa, cb, wb, moves, d | Arrives(ca, s, wa, cb, wb, moves, d) ensures Kept(ca, s, moves, d) {
        DatagramKeepsStep(ca, s, wa, cb, wb, moves, d);
      }
    } else {
      var s := Sys(Peer(Created(ca, WND_RCV), {}, [], []), Peer(Created(ca, 65535), {}, [], []));
      var before, d := LosesStep(s, ca);
    }
  }
}
