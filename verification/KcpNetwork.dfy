/** The same two endpoints over the bytes they really exchange: datagrams are what
    `ikcp_output` is given and what `ikcp_input` is given, in 32-bit arithmetic.  */
module KcpNetwork {
  import opened Serial
  import opened KcpTypes
  import opened KcpSender
  import opened KcpReceiver
  import opened KcpFragment
  import opened KcpWire
  import opened KcpEngine
  import opened KcpSession

  /** An endpoint whose emitted datagrams are byte strings. */
  datatype Host = Host(kcb: Kcb, out: set<seq<byte>>, sent: seq<Message>, got: seq<Message>)

  datatype Net = Net(a: Host, b: Host)

  datatype Call =
    | Send(payload: Message)
    | Recv(len: int)
    | Update(now: int)
    | Flush
    | Input(b: seq<byte>)

  datatype Event = Event(atA: bool, call: Call)

  function Output(h: Host, r: FlushResult): Host {
    h.(kcb := r.kcb, out := h.out + (set b | b in Datagrams(Pack(h.kcb.cfg.mtu, r.wires))))
  }

  function Perform(h: Host, incoming: set<seq<byte>>, call: Call): (t: Host)
    requires 0 < h.kcb.cfg.mss
    ensures t.kcb.cfg == h.kcb.cfg
  {
    match call
    case Send(payload) =>
      var r := SendCall(h.kcb, payload);
      h.(kcb := r.kcb, sent := if r.code == SEND_OK then h.sent + [payload] else h.sent)
    case Recv(len) =>
      var r := RecvCall(Wrapping, h.kcb, len);
      h.(kcb := r.kcb, got := if r.code >= 0 && len >= 0 then h.got + [r.message] else h.got)
    case Update(now) => Output(h, KcpEngine.Update(Wrapping, h.kcb, U32(now)))
    case Flush => Output(h, KcpEngine.Flush(Wrapping, h.kcb))
    case Input(b) => if b in incoming then h.(kcb := KcpEngine.Input(h.kcb, b).kcb) else h
  }

  function Happen(n: Net, e: Event): Net
    requires 0 < n.a.kcb.cfg.mss && 0 < n.b.kcb.cfg.mss
  {
    if e.atA then n.(a := Perform(n.a, n.b.out, e.call)) else n.(b := Perform(n.b, n.a.out, e.call))
  }

  function History(n: Net, events: seq<Event>): (t: Net)
    requires 0 < n.a.kcb.cfg.mss && 0 < n.b.kcb.cfg.mss
    ensures t.a.kcb.cfg == n.a.kcb.cfg && t.b.kcb.cfg == n.b.kcb.cfg
    decreases |events|
  {
    if events == [] then n else Happen(History(n, events[..|events| - 1]), events[|events| - 1])
  }

  /** Two hosts fresh from `ikcp_create`, in message mode. */
  ghost predicate Initial(n: Net, ca: Config, wa: int, cb: Config, wb: int) {
    && n == Net(Host(Created(ca, wa), {}, [], []), Host(Created(cb, wb), {}, [], []))
    && ConfigOk(ca) && ConfigOk(cb) && ca.conv == cb.conv
    && !ca.stream && !cb.stream
    && WND_RCV <= wa < HALF && WND_RCV <= wb < HALF
  }

  // ---------------------------------------------------------------- encodable endpoints

  ghost predicate DatagramOk(d: Datagram, cfg: Config) {
    && d != [] && SizeOf(d) <= cfg.mtu
    && forall i :: 0 <= i < |d| ==> Fits(d[i], cfg.conv)
  }

  /** Everything the endpoint has emitted, or may yet copy into a header, fits it. */
  ghost predicate Encodable(p: Peer) {
    && (forall d :: d in p.out ==> DatagramOk(d, p.kcb.cfg))
    && (forall i :: 0 <= i < |p.kcb.rcv.acks| ==> 0 <= p.kcb.rcv.acks[i].ts < MODULUS)
    && 0 <= p.kcb.clk.current < MODULUS
  }

  lemma FragmentSizes(mss: int, sent: seq<Message>)
    requires 0 < mss && Accepted(mss, sent)
    ensures forall i :: 0 <= i < |AllFragments(mss, sent)| ==>
      |AllFragments(mss, sent)[i].data| <= mss && AllFragments(mss, sent)[i].frg < WND_RCV
  {
    if sent != [] {
      FragmentSizes(mss, sent[..|sent| - 1]);
      assert IsFragmentation(Fragments(mss, sent[|sent| - 1]), mss, sent[|sent| - 1]);
    }
  }

  /** A scratch header whose fields fit. */
  ghost predicate HeadFits(h: Head, cfg: Config) {
    ConfigOk(cfg) && h.conv == cfg.conv && 0 <= h.wnd < 65536 && 0 <= h.una < HALF
  }

  lemma ControlFits(h: Head, cfg: Config, cmd: int, sn: int, ts: int)
    requires HeadFits(h, cfg) && KnownCommand(cmd) && 0 <= sn < HALF && 0 <= ts < MODULUS
    ensures Fits(ControlWire(h, cmd, sn, ts), cfg.conv) && WireSize(ControlWire(h, cmd, sn, ts)) <= cfg.mtu
  {
  }

  lemma PushFits(h: Head, cfg: Config, k: Tick, g: Segment)
    requires HeadFits(h, cfg) && 0 <= g.sn < HALF && 0 <= k.current < MODULUS
    requires |g.frag.data| <= cfg.mss && g.frag.frg < WND_RCV
    ensures Fits(PushWire(h, k, g), cfg.conv) && WireSize(PushWire(h, k, g)) <= cfg.mtu
  {
  }

  lemma PushUnitsFit(p: Peer, q: Peer, s: Kcb, w: Wire)
    requires PeerOk(p) && PeerOk(q) && Link(p, q) && Link(q, p) && Small(Wrapping, p) && Small(Wrapping, q)
    requires s == p.kcb.(clk := s.clk) && 0 <= s.clk.current < MODULUS && s.clk.updated
    requires w in PushWires(HeadOf(s), TickOf(s), Numbered(Wrapping, s).snd.buf)
    ensures Fits(w, s.cfg.conv) && WireSize(w) <= s.cfg.mtu
  {
    var fs := AllFragments(p.kcb.cfg.mss, p.sent);
    var buf := Numbered(Wrapping, s).snd.buf;
    var n := FlushedSender(Wrapping, s, fs);
    PushWiresMembers(HeadOf(s), TickOf(s), buf, w);
    var i :| 0 <= i < |buf| && w == PushWire(HeadOf(s), TickOf(s), buf[i]);
    FragmentSizes(p.kcb.cfg.mss, p.sent);
    PushFits(HeadOf(s), s.cfg, TickOf(s), buf[i]);
  }

  /** Acknowledgements and probes fit when the ack list does. */
  lemma ControlUnitsFit(h: Head, cfg: Config, acks: seq<Ack>, c: Clock, w: Wire)
    requires HeadFits(h, cfg)
    requires forall i :: 0 <= i < |acks| ==> 0 <= acks[i].sn < HALF && 0 <= acks[i].ts < MODULUS
    requires w in AckWires(h, acks) || w in ProbeWires(h, c, ScratchAck(acks))
    ensures Fits(w, cfg.conv) && WireSize(w) <= cfg.mtu
  {
    if w in AckWires(h, acks) {
      var i :| 0 <= i < |acks| && AckWires(h, acks)[i] == w;
      ControlFits(h, cfg, CMD_ACK, acks[i].sn, acks[i].ts);
    } else {
      var last := ScratchAck(acks);
      ControlFits(h, cfg, CMD_WASK, last.sn, last.ts);
      ControlFits(h, cfg, CMD_WINS, last.sn, last.ts);
    }
  }

  /** Each unit of a flush fits the header and one datagram. */
  lemma FlushUnitsFit(p: Peer, q: Peer, s: Kcb, w: Wire)
    requires PeerOk(p) && PeerOk(q) && Link(p, q) && Link(q, p) && Small(Wrapping, p) && Small(Wrapping, q)
    requires Encodable(p) && s == p.kcb.(clk := s.clk) && 0 <= s.clk.current < MODULUS && s.clk.updated
    requires w in FlushWires(s, Numbered(Wrapping, s).snd)
    ensures Fits(w, s.cfg.conv) && WireSize(w) <= s.cfg.mtu
  {
    if w in PushWires(HeadOf(s), TickOf(s), Numbered(Wrapping, s).snd.buf) {
      PushUnitsFit(p, q, s, w);
    } else {
      forall i | 0 <= i < |s.rcv.acks| ensures 0 <= s.rcv.acks[i].sn < HALF {
        AckInRange(q, p, i);
      }
      ControlUnitsFit(HeadOf(s), s.cfg, s.rcv.acks, ProbeTimer(s.clk, s.cc.rmtWnd), w);
    }
  }

  lemma AckInRange(p: Peer, q: Peer, i: int)
    requires PeerOk(p) && Link(p, q) && Small(Wrapping, p)
    requires 0 <= i < |q.kcb.rcv.acks|
    ensures 0 <= q.kcb.rcv.acks[i].sn < HALF && 0 <= q.kcb.rcv.nxt < HALF
  {
    ReceivedBelowNxt(q.kcb.rcv, AllFragments(p.kcb.cfg.mss, p.sent), p.kcb.snd.nxt);
    assert Received(q.kcb.rcv, q.kcb.rcv.acks[i].sn);
  }

  lemma PackedOk(cfg: Config, ws: seq<Wire>)
    requires forall i :: 0 <= i < |ws| ==> Fits(ws[i], cfg.conv) && WireSize(ws[i]) <= cfg.mtu
    ensures forall d :: d in Pack(cfg.mtu, ws) ==> DatagramOk(d, cfg)
  {
    PackExact(cfg.mtu, ws);
    forall d | d in Pack(cfg.mtu, ws) ensures DatagramOk(d, cfg) {
      forall i | 0 <= i < |d| ensures Fits(d[i], cfg.conv) {
        DatagramUnits(cfg.mtu, ws, d, i);
      }
    }
  }

  lemma EncodableEmitted(p: Peer, r: FlushResult)
    requires Encodable(p) && r.kcb.cfg == p.kcb.cfg && 0 <= r.kcb.clk.current < MODULUS
    requires r.kcb.rcv.acks == [] || r.kcb.rcv.acks == p.kcb.rcv.acks
    requires forall i :: 0 <= i < |r.wires| ==> Fits(r.wires[i], p.kcb.cfg.conv) && WireSize(r.wires[i]) <= p.kcb.cfg.mtu
    ensures Encodable(Emitted(p.kcb.cfg.mtu, p, r))
  {
    PackedOk(p.kcb.cfg, r.wires);
  }

  lemma EncodableAfterFlush(p: Peer, q: Peer, s: Kcb)
    requires PeerOk(p) && PeerOk(q) && Link(p, q) && Link(q, p) && Small(Wrapping, p) && Small(Wrapping, q)
    requires Encodable(p) && s == p.kcb.(clk := s.clk) && 0 <= s.clk.current < MODULUS
    ensures Encodable(Emitted(p.kcb.cfg.mtu, p, KcpEngine.Flush(Wrapping, s)))
  {
    var r := KcpEngine.Flush(Wrapping, s);
    if s.clk.updated {
      forall i | 0 <= i < |r.wires|
        ensures Fits(r.wires[i], s.cfg.conv) && WireSize(r.wires[i]) <= s.cfg.mtu
      {
        FlushUnitsFit(p, q, s, r.wires[i]);
      }
    }
    FlushShape(Wrapping, s);
    EncodableEmitted(p, r);
  }

  lemma FlushShape(m: Arith, s: Kcb)
    ensures var r := KcpEngine.Flush(m, s);
      && r.kcb.cfg == s.cfg && r.kcb.clk.current == s.clk.current
      && (r.kcb.rcv.acks == [] || r.kcb.rcv.acks == s.rcv.acks)
      && (!s.clk.updated ==> r.wires == [])
  {
  }

  lemma {:induction false} AckTimesAfter(m: Arith, s: Kcb, ws: seq<Wire>)
    requires forall i :: 0 <= i < |s.rcv.acks| ==> 0 <= s.rcv.acks[i].ts < MODULUS
    requires forall i :: 0 <= i < |ws| ==> 0 <= ws[i].ts < MODULUS
    ensures var t := ProcessAll(m, s, ws);
      && t.clk.current == s.clk.current
      && forall i :: 0 <= i < |t.rcv.acks| ==> 0 <= t.rcv.acks[i].ts < MODULUS
    decreases |ws|
  {
    if ws != [] {
      var w := ws[0];
      var r' := s.rcv.(acks := s.rcv.acks + [Ack(w.sn, w.ts)]);
      DrainAcks(m, r'.(buf := Insert(m, r'.buf, Arrived(w.sn, w.frag))));
      AckTimesAfter(m, Process(m, s, w), ws[1..]);
    }
  }

  lemma {:induction false} DrainAcks(m: Arith, r: Receiver)
    ensures Drain(m, r).acks == r.acks
    decreases |r.buf|
  {
    if r.buf != [] && r.buf[0].sn == r.nxt && |r.queue| < r.wnd {
      DrainAcks(m, r.(nxt := Num(m, r.nxt + 1), queue := r.queue + [r.buf[0]], buf := r.buf[1..]));
    }
  }

  lemma EncodableAfterUpdate(p: Peer, q: Peer, now: int)
    requires PeerOk(p) && PeerOk(q) && Link(p, q) && Link(q, p) && Small(Wrapping, p) && Small(Wrapping, q)
    requires Encodable(p) && 0 <= now < MODULUS
    ensures Encodable(Emitted(p.kcb.cfg.mtu, p, KcpEngine.Update(Wrapping, p.kcb, now)))
  {
    var c := Advanced(p.kcb.clk, now);
    if FlushDue(c) {
      EncodableAfterFlush(p, q, p.kcb.(clk := Rescheduled(p.kcb.cfg, c)));
    } else {
      EncodableEmitted(p, KcpEngine.Update(Wrapping, p.kcb, now));
    }
  }

  lemma RecvAcks(m: Arith, r: Receiver, len: int)
    ensures KcpReceiver.Recv(m, r, len).rcv.acks == r.acks
  {
    DrainAcks(m, r);
    DrainAcks(m, r.(queue := r.queue[MessageSpan(r.queue)..]));
  }

  lemma EncodableAfterInput(p: Peer, q: Peer, d: Datagram)
    requires PeerOk(p) && Encodable(p) && Encodable(q)
    ensures Encodable(Do(Wrapping, p, q.out, DoInput(d)))
  {
    if d in q.out {
      assert DatagramOk(d, q.kcb.cfg);
      AckTimesAfter(Wrapping, p.kcb, d);
    }
  }

  lemma EncodableAfter(p: Peer, q: Peer, act: Act)
    requires PeerOk(p) && PeerOk(q) && Link(p, q) && Link(q, p) && Small(Wrapping, p) && Small(Wrapping, q)
    requires Encodable(p) && Encodable(q)
    ensures Encodable(Do(Wrapping, p, q.out, act))
  {
    match act
    case DoSend(payload) =>
    case DoRecv(len) => RecvAcks(Wrapping, p.kcb.rcv, len);
    case DoUpdate(now) => EncodableAfterUpdate(p, q, U32(now));
    case DoFlush => EncodableAfterFlush(p, q, p.kcb);
    case DoInput(d) => EncodableAfterInput(p, q, d);
  }

  // ---------------------------------------------------------------- simulation

  /** The host's bytes are the encodings of the peer's datagrams. */
  ghost predicate Encodes(h: Host, p: Peer) {
    && h.kcb == p.kcb && h.sent == p.sent && h.got == p.got
    && h.out == set d | d in p.out :: EncodeAll(d)
  }

  lemma EncodesOutput(h: Host, p: Peer, r: FlushResult)
    requires Encodes(h, p)
    ensures Encodes(Output(h, r), Emitted(p.kcb.cfg.mtu, p, r))
  {
    var groups := Pack(p.kcb.cfg.mtu, r.wires);
    var t := Emitted(p.kcb.cfg.mtu, p, r);
    forall b ensures b in Output(h, r).out <==> b in (set d | d in t.out :: EncodeAll(d)) {
      if b in Datagrams(groups) {
        var i :| 0 <= i < |groups| && Datagrams(groups)[i] == b;
        assert groups[i] in t.out;
      }
      if b in (set d | d in t.out :: EncodeAll(d)) {
        var d :| d in t.out && b == EncodeAll(d);
        if d in groups {
          var i :| 0 <= i < |groups| && groups[i] == d;
          assert Datagrams(groups)[i] == b;
        }
      }
    }
  }

  /** `ikcp_input` on an encoded datagram processes exactly the units encoded. */
  lemma InputOfEncoded(s: Kcb, d: Datagram, cfg: Config)
    requires DatagramOk(d, cfg) && cfg.conv == s.cfg.conv && 0 < s.cfg.mss
    ensures KcpEngine.Input(s, EncodeAll(d)) == InputResult(Deliver(Wrapping, s, d), 0)
  {
    DecodeEncodeAll(d, s.cfg.conv);
    SizeOfIsLength(d);
    assert SizeOf(d) >= WireSize(d[0]);
  }

  lemma MirrorArrival(h: Host, p: Peer, incoming: set<seq<byte>>, out: set<Datagram>, d: Datagram, cfg: Config)
    requires Encodes(h, p) && 0 < p.kcb.cfg.mss
    requires d in out && EncodeAll(d) in incoming && DatagramOk(d, cfg) && cfg.conv == p.kcb.cfg.conv
    ensures Encodes(Perform(h, incoming, Input(EncodeAll(d))), Do(Wrapping, p, out, DoInput(d)))
  {
    InputOfEncoded(p.kcb, d, cfg);
    var t := KcpEngine.Input(p.kcb, EncodeAll(d)).kcb;
    assert Perform(h, incoming, Input(EncodeAll(d))) == h.(kcb := t);
    assert Do(Wrapping, p, out, DoInput(d)) == p.(kcb := t);
  }

  lemma MirrorInput(h: Host, p: Peer, g: Host, q: Peer, b: seq<byte>) returns (d: Datagram)
    requires Encodes(h, p) && Encodes(g, q) && Encodable(q)
    requires 0 < p.kcb.cfg.mss && p.kcb.cfg.conv == q.kcb.cfg.conv
    ensures Encodes(Perform(h, g.out, Input(b)), Do(Wrapping, p, q.out, DoInput(d)))
  {
    if b in g.out {
      d :| d in q.out && b == EncodeAll(d);
      MirrorArrival(h, p, g.out, q.out, d, q.kcb.cfg);
    } else {
      d := [];
      NoEmptyDatagram(q);
      assert Do(Wrapping, p, q.out, DoInput(d)) == p;
      assert Perform(h, g.out, Input(b)) == h;
    }
  }

  lemma NoEmptyDatagram(q: Peer)
    requires Encodable(q)
    ensures [] !in q.out
  {
    var d: Datagram := [];
    assert !DatagramOk(d, q.kcb.cfg);
  }

  /** The act of the abstract endpoint that a call corresponds to. */
  lemma Mirror(h: Host, p: Peer, g: Host, q: Peer, call: Call) returns (act: Act)
    requires Encodes(h, p) && Encodes(g, q) && Encodable(q)
    requires 0 < p.kcb.cfg.mss && p.kcb.cfg.conv == q.kcb.cfg.conv
    ensures Encodes(Perform(h, g.out, call), Do(Wrapping, p, q.out, act))
  {
    match call
    case Send(payload) => act := DoSend(payload);
    case Recv(len) => act := DoRecv(len);
    case Update(now) =>
      act := DoUpdate(now);
      EncodesOutput(h, p, KcpEngine.Update(Wrapping, p.kcb, U32(now)));
    case Flush =>
      act := DoFlush;
      EncodesOutput(h, p, KcpEngine.Flush(Wrapping, p.kcb));
    case Input(b) =>
      var d := MirrorInput(h, p, g, q, b);
      act := DoInput(d);
  }

  ghost predicate Matches(n: Net, s: Sys) {
    Encodes(n.a, s.a) && Encodes(n.b, s.b)
  }

  ghost predicate FewSegments(n: Net)
    requires 0 < n.a.kcb.cfg.mss && 0 < n.b.kcb.cfg.mss
  {
    && |AllFragments(n.a.kcb.cfg.mss, n.a.sent)| < HALF
    && |AllFragments(n.b.kcb.cfg.mss, n.b.sent)| < HALF
  }

  /** Every byte-level history with fewer than 2^31 segments is a run of the two-endpoint
      system of `KcpSession` in 32-bit arithmetic. */
  lemma {:induction false} Simulates(n: Net, s: Sys, ca: Config, wa: int, cb: Config, wb: int, events: seq<Event>)
    returns (moves: seq<Move>)
    requires Initial(n, ca, wa, cb, wb) && Fresh(s, ca, wa, cb, wb)
    requires FewSegments(History(n, events))
    ensures var t := Run(Wrapping, s, moves);
      && AllSmall(Wrapping, t) && SysOk(t)
      && Matches(History(n, events), t) && Encodable(t.a) && Encodable(t.b)
    decreases |events|
  {
    if events == [] {
      moves := [];
      FreshOk(s, ca, wa, cb, wb);
    } else {
      var before := History(n, events[..|events| - 1]);
      var e := events[|events| - 1];
      FewerBefore(before, e);
      var init := Simulates(n, s, ca, wa, cb, wb, events[..|events| - 1]);
      var t := Run(Wrapping, s, init);
      var act;
      if e.atA {
        act := Mirror(before.a, t.a, before.b, t.b, e.call);
        StepKeeps(Wrapping, t.a, t.b, act);
        EncodableAfter(t.a, t.b, act);
      } else {
        act := Mirror(before.b, t.b, before.a, t.a, e.call);
        StepKeeps(Wrapping, t.b, t.a, act);
        EncodableAfter(t.b, t.a, act);
      }
      moves := init + [Move(e.atA, act)];
      assert moves[..|moves| - 1] == init;
    }
  }

  lemma FewerBefore(n: Net, e: Event)
    requires 0 < n.a.kcb.cfg.mss && 0 < n.b.kcb.cfg.mss
    requires FewSegments(Happen(n, e))
    ensures FewSegments(n)
  {
    var t := Happen(n, e);
    if t.a.sent != n.a.sent {
      assert t.a.sent[..|n.a.sent|] == n.a.sent;
      FragmentsOfPrefix(n.a.kcb.cfg.mss, t.a.sent, |n.a.sent|);
    }
    if t.b.sent != n.b.sent {
      assert t.b.sent[..|n.b.sent|] == n.b.sent;
      FragmentsOfPrefix(n.b.kcb.cfg.mss, t.b.sent, |n.b.sent|);
    }
  }

  lemma Started(n: Net, ca: Config, wa: int, cb: Config, wb: int) returns (s: Sys)
    requires Initial(n, ca, wa, cb, wb)
    ensures Fresh(s, ca, wa, cb, wb)
  {
    s := Sys(Peer(Created(ca, wa), {}, [], []), Peer(Created(cb, wb), {}, [], []));
  }

  // ---------------------------------------------------------------- end to end

  /** Over a network of bytes that loses, duplicates and reorders, each application reads a
      prefix of the messages the other one sent. */
  lemma EndToEndDelivery(n: Net, ca: Config, wa: int, cb: Config, wb: int, events: seq<Event>)
    requires Initial(n, ca, wa, cb, wb) && FewSegments(History(n, events))
    ensures var t := History(n, events); t.b.got <= t.a.sent && t.a.got <= t.b.sent
  {
    var s := Started(n, ca, wa, cb, wb);
    var moves := Simulates(n, s, ca, wa, cb, wb, events);
  }

  /** Not empty, at most `mtu` bytes, decodes completely at the peer, and re-encodes to itself. */
  ghost predicate WellFormed(b: seq<byte>, mtu: int, conv: int) {
    && OVERHEAD <= |b| <= mtu && DecodeAll(conv, b).code == 0
    && EncodeAll(DecodeAll(conv, b).wires) == b
  }

  lemma EncodedWellFormed(d: Datagram, cfg: Config, conv: int)
    requires DatagramOk(d, cfg) && conv == cfg.conv
    ensures WellFormed(EncodeAll(d), cfg.mtu, conv)
  {
    DecodeEncodeAll(d, conv);
    SizeOfIsLength(d);
    assert SizeOf(d) >= WireSize(d[0]);
  }

  /** Every datagram that either endpoint ever outputs is well formed. */
  lemma DatagramsWellFormed(n: Net, ca: Config, wa: int, cb: Config, wb: int, events: seq<Event>, b: seq<byte>)
    requires Initial(n, ca, wa, cb, wb) && FewSegments(History(n, events))
    ensures b in History(n, events).a.out ==> WellFormed(b, ca.mtu, cb.conv)
    ensures b in History(n, events).b.out ==> WellFormed(b, cb.mtu, ca.conv)
  {
    var s := Started(n, ca, wa, cb, wb);
    var moves := Simulates(n, s, ca, wa, cb, wb, events);
    var t := Run(Wrapping, s, moves);
    if b in History(n, events).a.out {
      var d :| d in t.a.out && b == EncodeAll(d);
      EncodedWellFormed(d, t.a.kcb.cfg, cb.conv);
    }
    if b in History(n, events).b.out {
      var d :| d in t.b.out && b == EncodeAll(d);
      EncodedWellFormed(d, t.b.kcb.cfg, ca.conv);
    }
  }

  /** The invariant of both endpoints in every byte-level history: sender and receiver
      buffers are well formed, nothing is lost, and no full receive queue is unreadable. */
  lemma EndToEndInvariant(n: Net, ca: Config, wa: int, cb: Config, wb: int, events: seq<Event>)
    requires Initial(n, ca, wa, cb, wb) && FewSegments(History(n, events))
    ensures var t := History(n, events);
      && SndOk(t.a.kcb.snd) && RcvOk(t.a.kcb.rcv) && SndOk(t.b.kcb.snd) && RcvOk(t.b.kcb.rcv)
      && NothingLost(t.a.kcb.snd, t.b.kcb.rcv) && NothingLost(t.b.kcb.snd, t.a.kcb.rcv)
      && (|t.a.kcb.rcv.queue| >= t.a.kcb.rcv.wnd ==> PeekSize(t.a.kcb.rcv.queue) >= 0)
      && (|t.b.kcb.rcv.queue| >= t.b.kcb.rcv.wnd ==> PeekSize(t.b.kcb.rcv.queue) >= 0)
  {
    var s := Started(n, ca, wa, cb, wb);
    var moves := Simulates(n, s, ca, wa, cb, wb, events);
    NeverStuckFull(Wrapping, s, ca, wa, cb, wb, moves);
  }
}
