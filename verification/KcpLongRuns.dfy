/** Byte-level histories of any length: hosts in 32-bit arithmetic whose network never hands
    over a stale datagram follow the endpoints with unbounded sequence numbers. */
module KcpLongRuns {
  import opened Serial
  import opened KcpTypes
  import opened KcpReceiver
  import opened KcpWire
  import opened KcpEngine
  import opened KcpSession
  import opened KcpNetwork
  import opened KcpWrap

  // ---------------------------------------------------------------- units that fit once wrapped

  /** Every field but the two sequence numbers fits the header. */
  ghost predicate FitsWrapped(w: Wire, cfg: Config) {
    && w.conv == cfg.conv && 0 <= cfg.conv < MODULUS
    && KnownCommand(w.cmd) && w.frag.frg < 256 && 0 <= w.wnd < 65536
    && 0 <= w.ts < MODULUS && WireSize(w) <= cfg.mtu < HALF
  }

  ghost predicate LongDatagramOk(d: Datagram, cfg: Config) {
    && d != [] && SizeOf(d) <= cfg.mtu
    && forall i :: 0 <= i < |d| ==> FitsWrapped(d[i], cfg)
  }

  ghost predicate LongEncodable(p: Peer) {
    && (forall d :: d in p.out ==> LongDatagramOk(d, p.kcb.cfg))
    && (forall i :: 0 <= i < |p.kcb.rcv.acks| ==> 0 <= p.kcb.rcv.acks[i].ts < MODULUS)
    && 0 <= p.kcb.clk.current < MODULUS
  }

  lemma WrappedDatagramOk(d: Datagram, cfg: Config)
    requires LongDatagramOk(d, cfg)
    ensures DatagramOk(WrapWires(d), cfg)
  {
    SizeWraps(d);
  }

  lemma ControlFitsWrapped(h: Head, cfg: Config, cmd: int, sn: int, ts: int)
    requires ConfigOk(cfg) && h.conv == cfg.conv && 0 <= h.wnd < 65536 && KnownCommand(cmd) && 0 <= ts < MODULUS
    ensures FitsWrapped(ControlWire(h, cmd, sn, ts), cfg)
  {
  }

  lemma ControlUnitsFitWrapped(h: Head, cfg: Config, acks: seq<Ack>, c: Clock, w: Wire)
    requires ConfigOk(cfg) && h.conv == cfg.conv && 0 <= h.wnd < 65536
    requires forall i :: 0 <= i < |acks| ==> 0 <= acks[i].ts < MODULUS
    requires w in AckWires(h, acks) || w in ProbeWires(h, c, ScratchAck(acks))
    ensures FitsWrapped(w, cfg)
  {
    if w in AckWires(h, acks) {
      var i :| 0 <= i < |acks| && AckWires(h, acks)[i] == w;
      ControlFitsWrapped(h, cfg, CMD_ACK, acks[i].sn, acks[i].ts);
    } else {
      var last := ScratchAck(acks);
      ControlFitsWrapped(h, cfg, CMD_WASK, last.sn, last.ts);
      ControlFitsWrapped(h, cfg, CMD_WINS, last.sn, last.ts);
    }
  }

  lemma PushUnitsFitWrapped(p: Peer, q: Peer, s: Kcb, w: Wire)
    requires PeerOk(p) && Link(p, q) && s == p.kcb.(clk := s.clk) && 0 <= s.clk.current < MODULUS && s.clk.updated
    requires w in PushWires(HeadOf(s), TickOf(s), Numbered(Unbounded, s).snd.buf)
    ensures FitsWrapped(w, s.cfg)
  {
    var fs := AllFragments(p.kcb.cfg.mss, p.sent);
    var buf := Numbered(Unbounded, s).snd.buf;
    var n := FlushedSender(Unbounded, s, fs);
    PushWiresMembers(HeadOf(s), TickOf(s), buf, w);
    var i :| 0 <= i < |buf| && w == PushWire(HeadOf(s), TickOf(s), buf[i]);
    BufferedFragment(p.kcb.cfg.mss, p.sent, Numbered(Unbounded, s).snd, i);
    PushFitsWrapped(HeadOf(s), s.cfg, TickOf(s), buf[i]);
  }

  lemma BufferedFragment(mss: int, sent: seq<Message>, snd: Sender, i: nat)
    requires 0 < mss && Accepted(mss, sent) && SenderFaithful(snd, AllFragments(mss, sent)) && i < |snd.buf|
    ensures |snd.buf[i].frag.data| <= mss && snd.buf[i].frag.frg < WND_RCV
  {
    FragmentSizes(mss, sent);
    assert snd.buf[i].frag == AllFragments(mss, sent)[snd.buf[i].sn];
  }

  lemma PushFitsWrapped(h: Head, cfg: Config, k: Tick, g: Segment)
    requires ConfigOk(cfg) && h.conv == cfg.conv && 0 <= h.wnd < 65536 && 0 <= k.current < MODULUS
    requires |g.frag.data| <= cfg.mss && g.frag.frg < WND_RCV
    ensures FitsWrapped(PushWire(h, k, g), cfg)
  {
  }

  lemma FlushUnitsFitWrapped(p: Peer, q: Peer, s: Kcb, w: Wire)
    requires PeerOk(p) && Link(p, q) && LongEncodable(p)
    requires s == p.kcb.(clk := s.clk) && 0 <= s.clk.current < MODULUS && s.clk.updated
    requires w in FlushWires(s, Numbered(Unbounded, s).snd)
    ensures FitsWrapped(w, s.cfg)
  {
    if w in PushWires(HeadOf(s), TickOf(s), Numbered(Unbounded, s).snd.buf) {
      PushUnitsFitWrapped(p, q, s, w);
    } else {
      ControlUnitsFitWrapped(HeadOf(s), s.cfg, s.rcv.acks, ProbeTimer(s.clk, s.cc.rmtWnd), w);
    }
  }

  lemma PackedLongOk(cfg: Config, ws: seq<Wire>)
    requires forall i :: 0 <= i < |ws| ==> FitsWrapped(ws[i], cfg)
    ensures forall d :: d in Pack(cfg.mtu, ws) ==> LongDatagramOk(d, cfg)
  {
    PackExact(cfg.mtu, ws);
    forall d | d in Pack(cfg.mtu, ws) ensures LongDatagramOk(d, cfg) {
      forall i | 0 <= i < |d| ensures FitsWrapped(d[i], cfg) {
        DatagramUnits(cfg.mtu, ws, d, i);
      }
    }
  }

  lemma LongEmitted(p: Peer, r: FlushResult)
    requires LongEncodable(p) && r.kcb.cfg == p.kcb.cfg && 0 <= r.kcb.clk.current < MODULUS
    requires r.kcb.rcv.acks == [] || r.kcb.rcv.acks == p.kcb.rcv.acks
    requires forall i :: 0 <= i < |r.wires| ==> FitsWrapped(r.wires[i], p.kcb.cfg)
    ensures LongEncodable(Emitted(p.kcb.cfg.mtu, p, r))
  {
    PackedLongOk(p.kcb.cfg, r.wires);
  }

  lemma LongAfterFlush(p: Peer, q: Peer, s: Kcb)
    requires PeerOk(p) && Link(p, q) && LongEncodable(p) && s == p.kcb.(clk := s.clk) && 0 <= s.clk.current < MODULUS
    ensures LongEncodable(Emitted(p.kcb.cfg.mtu, p, KcpEngine.Flush(Unbounded, s)))
  {
    var r := KcpEngine.Flush(Unbounded, s);
    if s.clk.updated {
      forall i | 0 <= i < |r.wires| ensures FitsWrapped(r.wires[i], s.cfg) {
        FlushUnitsFitWrapped(p, q, s, r.wires[i]);
      }
    }
    FlushShape(Unbounded, s);
    LongEmitted(p, r);
  }

  lemma LongAfterUpdate(p: Peer, q: Peer, now: int)
    requires PeerOk(p) && Link(p, q) && LongEncodable(p) && 0 <= now < MODULUS
    ensures LongEncodable(Emitted(p.kcb.cfg.mtu, p, KcpEngine.Update(Unbounded, p.kcb, now)))
  {
    var c := Advanced(p.kcb.clk, now);
    if FlushDue(c) {
      LongAfterFlush(p, q, p.kcb.(clk := Rescheduled(p.kcb.cfg, c)));
    } else {
      LongEmitted(p, KcpEngine.Update(Unbounded, p.kcb, now));
    }
  }

  lemma LongAfter(p: Peer, q: Peer, act: Act)
    requires PeerOk(p) && Link(p, q) && LongEncodable(p) && LongEncodable(q)
    ensures LongEncodable(Do(Unbounded, p, q.out, act))
  {
    match act
    case DoSend(payload) =>
    case DoRecv(len) => RecvAcks(Unbounded, p.kcb.rcv, len);
    case DoUpdate(now) => LongAfterUpdate(p, q, U32(now));
    case DoFlush => LongAfterFlush(p, q, p.kcb);
    case DoInput(d) =>
      if d in q.out {
        assert LongDatagramOk(d, q.kcb.cfg);
        AckTimesAfter(Unbounded, p.kcb, d);
      }
  }

  // ---------------------------------------------------------------- bytes and unbounded numbers

  /** The call of a host that an act of an endpoint with unbounded numbers stands for. */
  function CallOf(act: Act): Call {
    match act
    case DoSend(payload) => Call.Send(payload)
    case DoRecv(len) => Call.Recv(len)
    case DoUpdate(now) => Call.Update(now)
    case DoFlush => Call.Flush
    case DoInput(d) => Call.Input(EncodeAll(WrapWires(d)))
  }

  function EventsOf(moves: seq<Move>): (events: seq<Event>)
    ensures |events| == |moves|
    ensures forall i :: 0 <= i < |moves| ==> events[i] == Event(moves[i].atA, CallOf(moves[i].act))
  {
    seq(|moves|, i requires 0 <= i < |moves| => Event(moves[i].atA, CallOf(moves[i].act)))
  }

  lemma LastEvent(moves: seq<Move>)
    requires moves != []
    ensures var events, last := EventsOf(moves), |moves| - 1;
      events[..last] == EventsOf(moves[..last]) && events[last] == Event(moves[last].atA, CallOf(moves[last].act))
  {
  }

  /** One call on wrapped state, byte by byte. */
  lemma PerformWraps(h: Host, p: Peer, g: Host, q: Peer, act: Act)
    requires Encodes(h, WrapPeer(p)) && Encodes(g, WrapPeer(q)) && LongEncodable(q)
    requires 0 < p.kcb.cfg.mss && p.kcb.cfg.conv == q.kcb.cfg.conv && NearAct(p, q.out, act)
    ensures Encodes(Perform(h, g.out, CallOf(act)), WrapPeer(Do(Unbounded, p, q.out, act)))
  {
    var wp, wq := WrapPeer(p), WrapPeer(q);
    DoWraps(p, q.out, act);
    match act
    case DoSend(payload) =>
    case DoRecv(len) =>
    case DoUpdate(now) => EncodesOutput(h, wp, KcpEngine.Update(Wrapping, wp.kcb, U32(now)));
    case DoFlush => EncodesOutput(h, wp, KcpEngine.Flush(Wrapping, wp.kcb));
    case DoInput(d) =>
      var w := WrapWires(d);
      WrappedDatagramOk(d, q.kcb.cfg);
      assert w in wq.out;
      MirrorArrival(h, wp, g.out, wq.out, w, q.kcb.cfg);
  }

  /** The byte-level history goes through the wrapped states of the unbounded run. */
  lemma {:induction false} HistoryWraps(n: Net, s: Sys, ca: Config, wa: int, cb: Config, wb: int, moves: seq<Move>)
    requires Initial(n, ca, wa, cb, wb) && Fresh(s, ca, wa, cb, wb)
    requires wa <= HALF - 65536 && wb <= HALF - 65536 && UnstaleRun(s, moves)
    ensures var t := Run(Unbounded, s, moves);
      Matches(History(n, EventsOf(moves)), WrapSys(t)) && LongEncodable(t.a) && LongEncodable(t.b)
    decreases |moves|
  {
    if moves == [] {
      assert WrapSys(s) == s;
    } else {
      var init, mv := moves[..|moves| - 1], moves[|moves| - 1];
      HistoryWraps(n, s, ca, wa, cb, wb, init);
      Invariant(Unbounded, s, ca, wa, cb, wb, init);
      WindowsFixed(s, init);
      LastEvent(moves);
      HappenWraps(History(n, EventsOf(init)), Run(Unbounded, s, init), mv);
    }
  }

  /** One move of the run, byte by byte. */
  lemma HappenWraps(n: Net, t: Sys, mv: Move)
    requires SysOk(t) && LongEncodable(t.a) && LongEncodable(t.b) && Matches(n, WrapSys(t))
    requires 0 < n.a.kcb.cfg.mss && 0 < n.b.kcb.cfg.mss && t.a.kcb.cfg.conv == t.b.kcb.cfg.conv
    requires t.a.kcb.rcv.wnd <= HALF - 65536 && t.b.kcb.rcv.wnd <= HALF - 65536 && UnstaleMove(t, mv)
    ensures var u := Next(Unbounded, t, mv);
      Matches(Happen(n, Event(mv.atA, CallOf(mv.act))), WrapSys(u)) && LongEncodable(u.a) && LongEncodable(u.b)
  {
    if mv.atA {
      UnstaleIsNear(t.a, t.b, mv.act);
      PerformWraps(n.a, t.a, n.b, t.b, mv.act);
      LongAfter(t.a, t.b, mv.act);
    } else {
      UnstaleIsNear(t.b, t.a, mv.act);
      PerformWraps(n.b, t.b, n.a, t.a, mv.act);
      LongAfter(t.b, t.a, mv.act);
    }
  }

  /** Hosts that exchange bytes deliver in order and exactly once however many segments are
      sent, across any number of wraparounds, provided the network never hands over a
      datagram whose numbers are 2^31 behind. */
  lemma EndToEndWithoutStaleness(n: Net, s: Sys, ca: Config, wa: int, cb: Config, wb: int, moves: seq<Move>)
    requires Initial(n, ca, wa, cb, wb) && Fresh(s, ca, wa, cb, wb)
    requires wa <= HALF - 65536 && wb <= HALF - 65536 && UnstaleRun(s, moves)
    ensures var t := History(n, EventsOf(moves)); t.b.got <= t.a.sent && t.a.got <= t.b.sent
  {
    HistoryWraps(n, s, ca, wa, cb, wb, moves);
    InOrderExactlyOnce(Unbounded, s, ca, wa, cb, wb, moves);
  }
}
