/** Two endpoints over a network that may lose, duplicate and reorder: each endpoint's
    `out` is the set of every datagram it ever emitted, and an input step takes any
    datagram of the peer's set at any time, any number of times, or never.  */
module KcpSession {
  import opened Serial
  import opened KcpTypes
  import opened KcpSender
  import opened KcpReceiver
  import opened KcpFragment
  import opened KcpWire
  import opened KcpCongestion
  import opened KcpEngine

  type Message = seq<byte>
  type Datagram = seq<Wire>

  /** An endpoint with its history: datagrams emitted, messages `ikcp_send` accepted,
      messages a non-peeking `ikcp_recv` returned. */
  datatype Peer = Peer(kcb: Kcb, out: set<Datagram>, sent: seq<Message>, got: seq<Message>)

  datatype Sys = Sys(a: Peer, b: Peer)

  datatype Act =
    | DoSend(payload: Message)
    | DoRecv(len: int)
    | DoUpdate(now: int)
    | DoFlush
    | DoInput(d: Datagram)

  datatype Move = Move(atA: bool, act: Act)

  function Emitted(mtu: int, p: Peer, r: FlushResult): Peer {
    p.(kcb := r.kcb, out := p.out + (set d | d in Pack(mtu, r.wires)))
  }

  /** One call at one endpoint.  A datagram the peer never emitted cannot arrive. */
  function Do(m: Arith, p: Peer, incoming: set<Datagram>, act: Act): (t: Peer)
    requires 0 < p.kcb.cfg.mss
    ensures t.kcb.cfg == p.kcb.cfg
  {
    match act
    case DoSend(payload) =>
      var r := SendCall(p.kcb, payload);
      p.(kcb := r.kcb, sent := if r.code == SEND_OK then p.sent + [payload] else p.sent)
    case DoRecv(len) =>
      var r := RecvCall(m, p.kcb, len);
      p.(kcb := r.kcb, got := if r.code >= 0 && len >= 0 then p.got + [r.message] else p.got)
    case DoUpdate(now) => Emitted(p.kcb.cfg.mtu, p, Update(m, p.kcb, U32(now)))
    case DoFlush => Emitted(p.kcb.cfg.mtu, p, Flush(m, p.kcb))
    case DoInput(d) => if d in incoming then p.(kcb := Deliver(m, p.kcb, d)) else p
  }

  function Next(m: Arith, s: Sys, mv: Move): Sys
    requires 0 < s.a.kcb.cfg.mss && 0 < s.b.kcb.cfg.mss
  {
    if mv.atA then s.(a := Do(m, s.a, s.b.out, mv.act)) else s.(b := Do(m, s.b, s.a.out, mv.act))
  }

  /** The state after a list of moves. */
  function Run(m: Arith, s: Sys, moves: seq<Move>): (t: Sys)
    requires 0 < s.a.kcb.cfg.mss && 0 < s.b.kcb.cfg.mss
    ensures t.a.kcb.cfg == s.a.kcb.cfg && t.b.kcb.cfg == s.b.kcb.cfg
    decreases |moves|
  {
    if moves == [] then s
    else
      var before := Run(m, s, moves[..|moves| - 1]);
      var mv := moves[|moves| - 1];
      Next(m, before, mv)
  }

  /** Two endpoints fresh from `ikcp_create`, in message mode. */
  ghost predicate Fresh(s: Sys, ca: Config, wa: int, cb: Config, wb: int) {
    && s == Sys(Peer(Created(ca, wa), {}, [], []), Peer(Created(cb, wb), {}, [], []))
    && ConfigOk(ca) && ConfigOk(cb) && ca.conv == cb.conv
    && !ca.stream && !cb.stream
    && WND_RCV <= wa < HALF && WND_RCV <= wb < HALF
  }

  // ---------------------------------------------------------------- all fragments sent

  /** Every segment the accepted messages were cut into; its index is its number. */
  function AllFragments(mss: int, sent: seq<Message>): seq<Frag>
    requires 0 < mss
  {
    if sent == [] then []
    else AllFragments(mss, sent[..|sent| - 1]) + Fragments(mss, sent[|sent| - 1])
  }

  lemma {:induction false} FragmentsOfPrefix(mss: int, sent: seq<Message>, n: nat)
    requires 0 < mss && n <= |sent|
    ensures AllFragments(mss, sent[..n]) <= AllFragments(mss, sent)
  {
    if n == |sent| {
      assert sent[..n] == sent;
    } else {
      var init := sent[..|sent| - 1];
      FragmentsOfPrefix(mss, init, n);
      assert init[..n] == sent[..n];
    }
  }

  /** The fragments of the n-th message sit right behind those of the first n. */
  lemma FragmentsOfMessage(mss: int, sent: seq<Message>, n: nat)
    requires 0 < mss && n < |sent|
    ensures AllFragments(mss, sent[..n]) + Fragments(mss, sent[n]) == AllFragments(mss, sent[..n + 1])
    ensures AllFragments(mss, sent[..n + 1]) <= AllFragments(mss, sent)
  {
    assert sent[..n + 1][..n] == sent[..n];
    FragmentsOfPrefix(mss, sent, n + 1);
  }

  ghost predicate Accepted(mss: int, sent: seq<Message>)
    requires 0 < mss
  {
    forall i :: 0 <= i < |sent| ==>
      IsFragmentation(Fragments(mss, sent[i]), mss, sent[i]) && |Fragments(mss, sent[i])| < WND_RCV
  }

  // ---------------------------------------------------------------- the link invariant

  /** The sender's queues hold the fragments their numbers name. */
  ghost predicate SenderFaithful(snd: Sender, fs: seq<Frag>) {
    && SndOk(snd)
    && snd.nxt + |snd.queue| == |fs|
    && snd.queue == fs[snd.nxt..]
    && forall i :: 0 <= i < |snd.buf| ==> snd.buf[i].frag == fs[snd.buf[i].sn]
  }

  /** Everything the receiver holds is a fragment already numbered by the sender. */
  ghost predicate ReceiverFaithful(rcv: Receiver, fs: seq<Frag>, nxt: int)
    requires 0 <= nxt <= |fs|
  {
    && RcvOk(rcv)
    && rcv.nxt <= nxt
    && forall y :: Holds(rcv, y) ==> 0 <= y.sn < nxt && y.frag == fs[y.sn]
  }

  /** A data unit in the network names a numbered fragment and carries its content. */
  ghost predicate PushFaithful(w: Wire, fs: seq<Frag>, nxt: int)
    requires 0 <= nxt <= |fs|
  {
    w.cmd == CMD_PUSH ==> 0 <= w.sn < nxt && w.frag == fs[w.sn]
  }

  /** An acknowledgement names a received number, and no cumulative one runs ahead. */
  ghost predicate AckFaithful(w: Wire, rcv: Receiver) {
    && 0 <= w.una <= rcv.nxt
    && (w.cmd == CMD_ACK ==> Received(rcv, w.sn))
  }

  ghost predicate PushesFaithful(out: set<Datagram>, fs: seq<Frag>, nxt: int)
    requires 0 <= nxt <= |fs|
  {
    forall d: Datagram, i :: d in out && 0 <= i < |d| ==> PushFaithful(d[i], fs, nxt)
  }

  ghost predicate AcksFaithful(out: set<Datagram>, rcv: Receiver) {
    forall d: Datagram, i :: d in out && 0 <= i < |d| ==> AckFaithful(d[i], rcv)
  }

  ghost predicate AckListFaithful(rcv: Receiver) {
    forall i :: 0 <= i < |rcv.acks| ==> Received(rcv, rcv.acks[i].sn)
  }

  /** Each number handed out is still buffered at the sender or has been received. */
  ghost predicate NothingLost(snd: Sender, rcv: Receiver) {
    forall k :: 0 <= k < snd.nxt ==> HasSn(snd.buf, k) || Received(rcv, k)
  }

  /** What has been delivered is a prefix of what was accepted, cut at a message boundary. */
  ghost predicate DeliveredPrefix(mss: int, sent: seq<Message>, got: seq<Message>, rcv: Receiver)
    requires 0 < mss
  {
    && got <= sent
    && Start(rcv) == |AllFragments(mss, got)|
  }

  /** The invariant of one direction, from `p` to `q`. */
  ghost predicate Link(p: Peer, q: Peer)
    requires 0 < p.kcb.cfg.mss
  {
    var mss := p.kcb.cfg.mss;
    var fs := AllFragments(mss, p.sent);
    && Accepted(mss, p.sent)
    && SenderFaithful(p.kcb.snd, fs)
    && ReceiverFaithful(q.kcb.rcv, fs, p.kcb.snd.nxt)
    && PushesFaithful(p.out, fs, p.kcb.snd.nxt)
    && AcksFaithful(q.out, q.kcb.rcv)
    && AckListFaithful(q.kcb.rcv)
    && NothingLost(p.kcb.snd, q.kcb.rcv)
    && DeliveredPrefix(mss, p.sent, q.got, q.kcb.rcv)
  }

  /** What one endpoint keeps whatever it is sent. */
  ghost predicate PeerOk(p: Peer) {
    && ConfigOk(p.kcb.cfg) && !p.kcb.cfg.stream
    && WND_RCV <= p.kcb.rcv.wnd < HALF
    && 0 <= p.kcb.cc.cwnd && 0 <= p.kcb.cc.rmtWnd < 65536
    && p.kcb.snd.nxt - p.kcb.snd.una < 65536
    && forall d: Datagram, i :: d in p.out && 0 <= i < |d| ==> 0 <= d[i].wnd < 65536
  }

  /** In 32-bit arithmetic, fewer than 2^31 segments have been queued. */
  ghost predicate Small(m: Arith, p: Peer)
    requires 0 < p.kcb.cfg.mss
  {
    m.Wrapping? ==> |AllFragments(p.kcb.cfg.mss, p.sent)| < HALF
  }

  ghost predicate SysOk(s: Sys) {
    && PeerOk(s.a) && PeerOk(s.b) && Link(s.a, s.b) && Link(s.b, s.a)
  }

  // ---------------------------------------------------------------- sending

  lemma SenderStableUnderSend(snd: Sender, fs: seq<Frag>, more: seq<Frag>)
    requires SenderFaithful(snd, fs)
    ensures SenderFaithful(snd.(queue := snd.queue + more), fs + more)
  {
    assert (fs + more)[snd.nxt..] == fs[snd.nxt..] + more;
  }

  lemma LinkAfterSend(m: Arith, p: Peer, q: Peer, payload: Message)
    requires PeerOk(p) && Link(p, q)
    ensures Link(Do(m, p, q.out, DoSend(payload)), q)
  {
    var mss := p.kcb.cfg.mss;
    var t := Do(m, p, q.out, DoSend(payload));
    SendMessage(mss, p.kcb.snd.queue, payload);
    if t.sent != p.sent {
      var fs := AllFragments(mss, p.sent);
      assert t.sent[..|t.sent| - 1] == p.sent;
      SenderStableUnderSend(p.kcb.snd, fs, Fragments(mss, payload));
    } else {
      assert t.kcb.snd == p.kcb.snd;
    }
  }

  // ---------------------------------------------------------------- arrival of data

  lemma ReceiverSpan(m: Arith, rcv: Receiver, fs: seq<Frag>, nxt: int)
    requires 0 <= nxt <= |fs| && ReceiverFaithful(rcv, fs, nxt)
    requires rcv.wnd < HALF && (m.Wrapping? ==> |fs| < HALF)
    ensures RcvInSpan(m, rcv)
  {
    forall i | 0 <= i < |rcv.buf| ensures InSpan(m, rcv.buf[i].sn) && InSpan(m, rcv.buf[i].sn + 1) {
      assert Holds(rcv, rcv.buf[i]);
    }
  }

  lemma HeldIsReceived(r: Receiver, y: Arrived)
    requires WindowOk(r) && Holds(r, y) && 0 <= Start(r)
    ensures Received(r, y.sn)
  {
    if y in r.buf {
      var i :| 0 <= i < |r.buf| && r.buf[i] == y;
      assert BufHas(r.buf, y.sn);
    }
  }

  /** Receiving is never undone. */
  lemma ReceivedMonotone(r: Receiver, t: Receiver)
    requires WindowOk(r) && WindowOk(t) && r.nxt <= t.nxt
    requires forall y :: Holds(r, y) ==> Holds(t, y)
    ensures forall k :: Received(r, k) ==> Received(t, k)
  {
    forall k | Received(r, k) ensures Received(t, k) {
      if BufHas(r.buf, k) {
        var i :| 0 <= i < |r.buf| && r.buf[i].sn == k;
        assert Holds(r, r.buf[i]);
        HeldIsReceived(t, r.buf[i]);
      }
    }
  }

  /** What taking in a data unit does to a faithful receiver. */
  ghost predicate Extends(rcv: Receiver, t: Receiver, fs: seq<Frag>, nxt: int)
    requires 0 <= nxt <= |fs|
  {
    && ReceiverFaithful(t, fs, nxt) && AckListFaithful(t)
    && Start(t) == Start(rcv) && t.wnd == rcv.wnd && rcv.nxt <= t.nxt
    && forall k :: Received(rcv, k) ==> Received(t, k)
  }

  /** A data unit inside the window; `r` is the receiver with the acknowledgement noted. */
  lemma PushInside(rcv: Receiver, r: Receiver, t: Receiver, fs: seq<Frag>, nxt: int, x: Arrived, ts: int)
    requires 0 <= nxt <= |fs| && ReceiverFaithful(r, fs, nxt) && AckListFaithful(rcv)
    requires r == rcv.(acks := rcv.acks + [Ack(x.sn, ts)]) && t.acks == r.acks
    requires 0 <= x.sn < nxt && x.frag == fs[x.sn] && InWindow(r, x.sn)
    requires RcvOk(t) && r.nxt <= t.nxt
    requires Start(t) == Start(r) && t.wnd == r.wnd
    requires forall y :: Holds(t, y) <==> Holds(r, y) || (y == x && !BufHas(r.buf, x.sn))
    ensures Extends(rcv, t, fs, nxt)
  {
    PushInWindow(r, t, fs, nxt, x);
    ReceivedMonotone(r, t);
    assert forall k :: Received(rcv, k) ==> Received(r, k);
    AckListGrows(rcv, t, x.sn, ts);
  }

  /** A data unit: the receiver stays faithful, and whatever it acknowledges it has. */
  lemma PushKeeps(m: Arith, rcv: Receiver, fs: seq<Frag>, nxt: int, x: Arrived, ts: int)
    requires 0 <= nxt <= |fs| && ReceiverFaithful(rcv, fs, nxt) && AckListFaithful(rcv)
    requires rcv.wnd < HALF && (m.Wrapping? ==> |fs| < HALF)
    requires 0 <= x.sn < nxt && x.frag == fs[x.sn]
    ensures Extends(rcv, Push(m, rcv, x, ts), fs, nxt)
  {
    ReceiverSpan(m, rcv, fs, nxt);
    WindowTest(m, rcv, x.sn);
    if Diff(m, x.sn, Num(m, rcv.nxt + rcv.wnd)) < 0 {
      var r := rcv.(acks := rcv.acks + [Ack(x.sn, ts)]);
      AcksDoNotMatter(rcv, r, fs, nxt);
      if x.sn >= rcv.nxt {
        PushAhead(m, rcv, r, fs, nxt, x, ts);
      } else {
        PushBelow(rcv, r, fs, nxt, x.sn, ts);
      }
    }
  }

  lemma PushAhead(m: Arith, rcv: Receiver, r: Receiver, fs: seq<Frag>, nxt: int, x: Arrived, ts: int)
    requires 0 <= nxt <= |fs| && ReceiverFaithful(r, fs, nxt) && AckListFaithful(rcv) && RcvInSpan(m, r)
    requires r == rcv.(acks := rcv.acks + [Ack(x.sn, ts)]) && (m.Wrapping? ==> |fs| < HALF)
    requires 0 <= x.sn < nxt && x.frag == fs[x.sn] && InWindow(r, x.sn)
    ensures Extends(rcv, ParseData(m, r, x), fs, nxt)
  {
    ParseDataKeeps(m, r, x);
    PushInside(rcv, r, ParseData(m, r, x), fs, nxt, x, ts);
  }

  /** A unit below the window is acknowledged again and nothing else. */
  lemma PushBelow(rcv: Receiver, r: Receiver, fs: seq<Frag>, nxt: int, sn: int, ts: int)
    requires 0 <= nxt <= |fs| && ReceiverFaithful(r, fs, nxt) && AckListFaithful(rcv)
    requires r == rcv.(acks := rcv.acks + [Ack(sn, ts)]) && 0 <= sn < rcv.nxt
    ensures Extends(rcv, r, fs, nxt)
  {
    assert forall k :: Received(rcv, k) ==> Received(r, k);
    AckListGrows(rcv, r, sn, ts);
  }

  lemma AcksDoNotMatter(r: Receiver, t: Receiver, fs: seq<Frag>, nxt: int)
    requires 0 <= nxt <= |fs| && t == r.(acks := t.acks)
    ensures ReceiverFaithful(r, fs, nxt) ==> ReceiverFaithful(t, fs, nxt)
    ensures forall y :: Holds(t, y) <==> Holds(r, y)
    ensures forall k :: Received(r, k) <==> Received(t, k)
  {
    forall y ensures Holds(t, y) <==> Holds(r, y) { }
  }

  lemma AckListGrows(r: Receiver, t: Receiver, sn: int, ts: int)
    requires AckListFaithful(r) && t.acks == r.acks + [Ack(sn, ts)]
    requires forall k :: Received(r, k) ==> Received(t, k)
    requires Received(t, sn)
    ensures AckListFaithful(t)
  {
    forall i | 0 <= i < |t.acks| ensures Received(t, t.acks[i].sn) {
      if i < |r.acks| { assert Received(r, r.acks[i].sn); }
    }
  }

  lemma PushInWindow(r: Receiver, t: Receiver, fs: seq<Frag>, nxt: int, x: Arrived)
    requires 0 <= nxt <= |fs| && ReceiverFaithful(r, fs, nxt)
    requires 0 <= x.sn < nxt && x.frag == fs[x.sn] && InWindow(r, x.sn)
    requires RcvOk(t) && r.nxt <= t.nxt
    requires forall y :: Holds(t, y) <==> Holds(r, y) || (y == x && !BufHas(r.buf, x.sn))
    ensures ReceiverFaithful(t, fs, nxt)
    ensures Received(t, x.sn)
  {
    if BufHas(r.buf, x.sn) {
      var i :| 0 <= i < |r.buf| && r.buf[i].sn == x.sn;
      assert Holds(r, r.buf[i]);
      HeldIsReceived(t, r.buf[i]);
    } else {
      HeldIsReceived(t, x);
    }
    if |t.queue| > 0 {
      var y := t.queue[|t.queue| - 1];
      assert Holds(t, y) && y.sn == t.nxt - 1;
      assert y.sn < nxt;
    }
  }

  // ---------------------------------------------------------------- input, seen by the sender

  lemma SubBufferFaithful(snd: Sender, t: Sender, fs: seq<Frag>)
    requires SenderFaithful(snd, fs) && SndOk(t) && t.nxt == snd.nxt && t.queue == snd.queue
    requires IsSubBuffer(t.buf, snd.buf)
    ensures SenderFaithful(t, fs)
  {
    forall i | 0 <= i < |t.buf| ensures t.buf[i].frag == fs[t.buf[i].sn] {
      assert t.buf[i] in snd.buf;
    }
  }

  /** A unit from the peer takes out of `snd_buf` only what the peer has received. */
  lemma AckUnitKeeps(m: Arith, s: Kcb, fs: seq<Frag>, w: Wire, rcv: Receiver)
    requires SenderFaithful(s.snd, fs) && NothingLost(s.snd, rcv)
    requires rcv.nxt <= s.snd.nxt && (m.Wrapping? ==> |fs| < HALF)
    requires AckFaithful(w, rcv) && (forall k :: Received(rcv, k) ==> 0 <= k < s.snd.nxt)
    ensures var t := Process(m, s, w);
      && SenderFaithful(t.snd, fs) && NothingLost(t.snd, rcv)
      && t.snd.nxt == s.snd.nxt && s.snd.una <= t.snd.una
  {
    var t1 := TakeUna(m, s, w.wnd, w.una);
    ParseUnaKeeps(m, s.snd, w.una);
    SubBufferFaithful(s.snd, t1.snd, fs);
    assert NothingLost(t1.snd, rcv);
    if w.cmd == CMD_ACK {
      var t2 := TakeAck(m, t1, w.sn, w.ts);
      ParseAckKeeps(m, t1.snd, w.sn);
      SubBufferFaithful(t1.snd, t2.snd, fs);
      assert NothingLost(t2.snd, rcv);
    }
  }

  lemma {:induction false} AckUnitsKeep(m: Arith, s: Kcb, fs: seq<Frag>, ws: seq<Wire>, rcv: Receiver)
    requires SenderFaithful(s.snd, fs) && NothingLost(s.snd, rcv)
    requires rcv.nxt <= s.snd.nxt && (m.Wrapping? ==> |fs| < HALF)
    requires forall i :: 0 <= i < |ws| ==> AckFaithful(ws[i], rcv)
    requires forall k :: Received(rcv, k) ==> 0 <= k < s.snd.nxt
    ensures var t := ProcessAll(m, s, ws);
      && SenderFaithful(t.snd, fs) && NothingLost(t.snd, rcv)
      && t.snd.nxt == s.snd.nxt && s.snd.una <= t.snd.una
    decreases |ws|
  {
    if ws != [] {
      AckUnitKeeps(m, s, fs, ws[0], rcv);
      AckUnitsKeep(m, Process(m, s, ws[0]), fs, ws[1..], rcv);
    }
  }

  lemma ConcludeKeeps(m: Arith, s: Kcb, note: AckNote, prevUna: int, fs: seq<Frag>, rcv: Receiver)
    requires SenderFaithful(s.snd, fs) && NothingLost(s.snd, rcv) && 0 < s.cfg.mss
    ensures var t := Conclude(m, s, note, prevUna);
      && SenderFaithful(t.snd, fs) && NothingLost(t.snd, rcv)
      && t.snd.nxt == s.snd.nxt && s.snd.una == t.snd.una && t.rcv == s.rcv
  {
    if note.Newest? {
      var t := ParseFastack(m, s.snd, note.sn);
      BumpFastackLoad(m, s.snd.buf, note.sn);
      if t != s.snd {
        SameLoadKeeps(t.buf, s.snd.buf);
      }
    }
  }

  // ---------------------------------------------------------------- input, seen by the receiver

  lemma PushUnitKeeps(m: Arith, s: Kcb, w: Wire, fs: seq<Frag>, nxt: int)
    requires 0 <= nxt <= |fs| && ReceiverFaithful(s.rcv, fs, nxt) && AckListFaithful(s.rcv)
    requires s.rcv.wnd < HALF && (m.Wrapping? ==> |fs| < HALF)
    requires PushFaithful(w, fs, nxt)
    ensures var t := Process(m, s, w).rcv;
      && ReceiverFaithful(t, fs, nxt) && AckListFaithful(t)
      && Start(t) == Start(s.rcv) && t.wnd == s.rcv.wnd && s.rcv.nxt <= t.nxt
      && forall k :: Received(s.rcv, k) ==> Received(t, k)
  {
    if w.cmd == CMD_PUSH {
      PushKeeps(m, s.rcv, fs, nxt, Arrived(w.sn, w.frag), w.ts);
    }
  }

  lemma {:induction false} PushUnitsKeep(m: Arith, s: Kcb, ws: seq<Wire>, fs: seq<Frag>, nxt: int)
    requires 0 <= nxt <= |fs| && ReceiverFaithful(s.rcv, fs, nxt) && AckListFaithful(s.rcv)
    requires s.rcv.wnd < HALF && (m.Wrapping? ==> |fs| < HALF)
    requires forall i :: 0 <= i < |ws| ==> PushFaithful(ws[i], fs, nxt)
    ensures var t := ProcessAll(m, s, ws).rcv;
      && ReceiverFaithful(t, fs, nxt) && AckListFaithful(t)
      && Start(t) == Start(s.rcv) && t.wnd == s.rcv.wnd && s.rcv.nxt <= t.nxt
      && forall k :: Received(s.rcv, k) ==> Received(t, k)
    decreases |ws|
  {
    if ws != [] {
      PushUnitKeeps(m, s, ws[0], fs, nxt);
      PushUnitsKeep(m, Process(m, s, ws[0]), ws[1..], fs, nxt);
    }
  }

  // ---------------------------------------------------------------- input, both directions

  lemma ReceivedBelowNxt(rcv: Receiver, fs: seq<Frag>, nxt: int)
    requires 0 <= nxt <= |fs| && ReceiverFaithful(rcv, fs, nxt)
    ensures forall k :: Received(rcv, k) ==> 0 <= k < nxt
  {
    forall k | Received(rcv, k) ensures 0 <= k < nxt {
      if BufHas(rcv.buf, k) {
        var i :| 0 <= i < |rcv.buf| && rcv.buf[i].sn == k;
        assert Holds(rcv, rcv.buf[i]);
      }
    }
  }

  /** The direction out of the endpoint that takes a datagram. */
  lemma OutgoingAfterInput(m: Arith, p: Peer, q: Peer, d: Datagram)
    requires PeerOk(p) && Link(p, q) && Small(m, p)
    ensures Link(Do(m, p, q.out, DoInput(d)), q)
    ensures p.kcb.snd.una <= Do(m, p, q.out, DoInput(d)).kcb.snd.una
  {
    if d in q.out {
      var fs := AllFragments(p.kcb.cfg.mss, p.sent);
      ReceivedBelowNxt(q.kcb.rcv, fs, p.kcb.snd.nxt);
      AckUnitsKeep(m, p.kcb, fs, d, q.kcb.rcv);
      ConcludeKeeps(m, ProcessAll(m, p.kcb, d), NoteAll(m, NoAck, d), p.kcb.snd.una, fs, q.kcb.rcv);
    }
  }

  lemma AcksFaithfulLater(out: set<Datagram>, r: Receiver, t: Receiver)
    requires AcksFaithful(out, r) && r.nxt <= t.nxt && forall k :: Received(r, k) ==> Received(t, k)
    ensures AcksFaithful(out, t)
  {
    forall d: Datagram, i | d in out && 0 <= i < |d| ensures AckFaithful(d[i], t) {
      assert AckFaithful(d[i], r);
    }
  }

  /** The direction into the endpoint that takes a datagram. */
  lemma IncomingAfterInput(m: Arith, p: Peer, q: Peer, d: Datagram)
    requires PeerOk(p) && PeerOk(q) && Link(p, q) && Small(m, p)
    ensures Link(p, Do(m, q, p.out, DoInput(d)))
  {
    if d in p.out {
      var fs := AllFragments(p.kcb.cfg.mss, p.sent);
      var t := ProcessAll(m, q.kcb, d);
      PushUnitsKeep(m, q.kcb, d, fs, p.kcb.snd.nxt);
      AcksFaithfulLater(q.out, q.kcb.rcv, t.rcv);
      assert Do(m, q, p.out, DoInput(d)).kcb.rcv == t.rcv;
    }
  }

  // ---------------------------------------------------------------- flush

  lemma {:induction false} PushWiresMembers(h: Head, k: Tick, buf: seq<Segment>, w: Wire)
    requires w in PushWires(h, k, buf)
    ensures exists i :: 0 <= i < |buf| && w == PushWire(h, k, buf[i])
  {
    var init := buf[..|buf| - 1];
    if w in PushWires(h, k, init) {
      PushWiresMembers(h, k, init, w);
      var i :| 0 <= i < |init| && w == PushWire(h, k, init[i]);
      assert w == PushWire(h, k, buf[i]);
    } else {
      assert w == PushWire(h, k, buf[|buf| - 1]);
    }
  }

  /** Every unit of a flush carries the current cumulative ack; acknowledgements repeat
      entries of the ack list, data units segments of `snd_buf`. */
  ghost predicate FlushUnit(s: Kcb, buf: seq<Segment>, w: Wire) {
    && w.una == s.rcv.nxt && w.wnd == AdvertisedWindow(s.rcv) && w.conv == s.cfg.conv
    && (w.cmd == CMD_ACK ==> exists i :: 0 <= i < |s.rcv.acks| && w.sn == s.rcv.acks[i].sn)
    && (w.cmd == CMD_PUSH ==> exists i :: 0 <= i < |buf| && w.sn == buf[i].sn && w.frag == buf[i].frag)
  }

  lemma FlushUnits(m: Arith, s: Kcb, w: Wire)
    requires w in Flush(m, s).wires
    ensures FlushUnit(s, Numbered(m, s).snd.buf, w)
  {
    var buf := Numbered(m, s).snd.buf;
    if w in PushWires(HeadOf(s), TickOf(s), buf) {
      PushWiresMembers(HeadOf(s), TickOf(s), buf, w);
    }
  }

  lemma DatagramUnits(mtu: int, ws: seq<Wire>, d: Datagram, i: int)
    requires d in Pack(mtu, ws) && 0 <= i < |d|
    ensures d[i] in ws
  {
    PackFlat(mtu, ws);
    var groups := Pack(mtu, ws);
    var g :| 0 <= g < |groups| && groups[g] == d;
    FlatMembers(groups, g, i);
  }

  lemma PushesFaithfulLater(out: set<Datagram>, fs: seq<Frag>, nxt: int, more: int)
    requires 0 <= nxt <= more <= |fs| && PushesFaithful(out, fs, nxt)
    ensures PushesFaithful(out, fs, more)
  {
    forall d: Datagram, i | d in out && 0 <= i < |d| ensures PushFaithful(d[i], fs, more) {
      assert PushFaithful(d[i], fs, nxt);
    }
  }

  lemma NumberedFaithful(snd: Sender, t: Sender, n: nat, fs: seq<Frag>)
    requires SenderFaithful(snd, fs) && IsNumbered(snd, t, n)
    ensures SenderFaithful(t, fs)
  {
    NumberedKeeps(snd, t, n);
    forall i | 0 <= i < |t.buf| ensures t.buf[i].frag == fs[t.buf[i].sn] {
      if i < |snd.buf| { assert t.buf[i] == snd.buf[i]; }
    }
  }

  lemma SameLoadFaithful(snd: Sender, t: Sender, fs: seq<Frag>)
    requires SenderFaithful(snd, fs) && SameLoad(t.buf, snd.buf) && t == snd.(buf := t.buf)
    ensures SenderFaithful(t, fs)
    ensures forall k :: HasSn(t.buf, k) <==> HasSn(snd.buf, k)
  {
    SameLoadKeeps(t.buf, snd.buf);
  }

  /** Numbering and transmission, for a sender whose arithmetic does not wrap. */
  lemma FlushedSender(m: Arith, s: Kcb, fs: seq<Frag>) returns (n: nat)
    requires SenderFaithful(s.snd, fs) && (m.Wrapping? ==> |fs| < HALF)
    requires s.clk.updated && 0 <= SendWindow(s.cfg, s.cc) < HALF
    ensures IsNumbered(s.snd, Numbered(m, s).snd, n)
    ensures n == Min(|s.snd.queue|, Max(0, s.snd.una + SendWindow(s.cfg, s.cc) - s.snd.nxt))
    ensures SenderFaithful(Numbered(m, s).snd, fs) && SenderFaithful(Flush(m, s).kcb.snd, fs)
    ensures Flush(m, s).kcb.snd.nxt == s.snd.nxt + n
    ensures forall k :: HasSn(Flush(m, s).kcb.snd.buf, k) <==> HasSn(s.snd.buf, k) || s.snd.nxt <= k < s.snd.nxt + n
  {
    n := MoveQueueExact(m, s.snd, SendWindow(s.cfg, s.cc), s.clk.current, s.rtt.rto);
    var t := Numbered(m, s).snd;
    NumberedFaithful(s.snd, t, n, fs);
    NumberedKeeps(s.snd, t, n);
    var u := Flush(m, s).kcb.snd;
    assert u == t.(buf := TransmitAll(TickOf(s), t.buf));
    TransmittedLoad(TickOf(s), t.buf);
    SameLoadFaithful(t, u, fs);
  }

  lemma OutgoingAfterFlush(m: Arith, p: Peer, q: Peer, s: Kcb)
    requires PeerOk(p) && Link(p, q) && Small(m, p)
    requires s == p.kcb.(clk := s.clk)
    ensures Link(Emitted(p.kcb.cfg.mtu, p, Flush(m, s)), q)
  {
    var r := Flush(m, s);
    var t := Emitted(p.kcb.cfg.mtu, p, r);
    var fs := AllFragments(p.kcb.cfg.mss, p.sent);
    if s.clk.updated {
      var n := FlushedSender(m, s, fs);
      PushesFaithfulLater(p.out, fs, p.kcb.snd.nxt, r.kcb.snd.nxt);
      forall d: Datagram, i | d in t.out && 0 <= i < |d| ensures PushFaithful(d[i], fs, r.kcb.snd.nxt) {
        if d !in p.out {
          DatagramUnits(p.kcb.cfg.mtu, r.wires, d, i);
          FlushUnits(m, s, d[i]);
        }
      }
    } else {
      EmptyFlush(p.kcb.cfg.mtu, p, r);
    }
  }

  lemma EmptyFlush(mtu: int, p: Peer, r: FlushResult)
    requires r.wires == []
    ensures Emitted(mtu, p, r) == p.(kcb := r.kcb)
  {
    assert p.out + (set d | d in Pack(mtu, [])) == p.out;
  }

  lemma IncomingAfterFlush(m: Arith, p: Peer, q: Peer, s: Kcb)
    requires PeerOk(p) && PeerOk(q) && Link(p, q)
    requires s == q.kcb.(clk := s.clk)
    ensures Link(p, Emitted(q.kcb.cfg.mtu, q, Flush(m, s)))
  {
    var r := Flush(m, s);
    var t := Emitted(q.kcb.cfg.mtu, q, r);
    if s.clk.updated {
      AcksDoNotMatter(q.kcb.rcv, r.kcb.rcv, AllFragments(p.kcb.cfg.mss, p.sent), p.kcb.snd.nxt);
      AcksFaithfulLater(q.out, q.kcb.rcv, r.kcb.rcv);
      forall d: Datagram, i | d in t.out && 0 <= i < |d| ensures AckFaithful(d[i], r.kcb.rcv) {
        if d !in q.out {
          DatagramUnits(q.kcb.cfg.mtu, r.wires, d, i);
          FlushUnits(m, s, d[i]);
        }
      }
    } else {
      EmptyFlush(q.kcb.cfg.mtu, q, r);
    }
  }

  // ---------------------------------------------------------------- delivery

  /** A queue that starts with (some of) the fragments of one message: the message can be
      read exactly when all of them are there, and then it is that message. */
  lemma {:induction false} HeadMessage(queue: seq<Arrived>, fs: seq<Frag>, mss: int, payload: Message)
    requires queue != [] && IsFragmentation(fs, mss, payload)
    requires forall i :: 0 <= i < |queue| && i < |fs| ==> queue[i].frag == fs[i]
    ensures PeekSize(queue) >= 0 <==> |fs| <= |queue|
    ensures |fs| <= |queue| ==>
      && MessageSpan(queue) == |fs| && Payload(queue[..|fs|]) == payload && PeekSize(queue) == |payload|
  {
    assert queue[0].frag == fs[0];
    if |fs| <= |queue| {
      SpanOfFragments(queue, fs);
      if |fs| == 1 {
        assert fs[1..] == [] && queue[..1][1..] == [];
        assert Join(fs) == fs[0].data + Join(fs[1..]);
        assert Payload(queue[..1]) == queue[0].frag.data + Payload([]);
      }
    }
  }

  lemma {:induction false} SpanOfFragments(queue: seq<Arrived>, fs: seq<Frag>)
    requires 0 < |fs| <= |queue|
    requires forall i :: 0 <= i < |fs| ==> queue[i].frag == fs[i] && fs[i].frg == |fs| - 1 - i
    ensures MessageSpan(queue) == |fs| && Payload(queue[..|fs|]) == Join(fs)
  {
    assert queue[0].frag == fs[0];
    assert queue[..|fs|][1..] == queue[1..][..|fs| - 1];
    if |fs| > 1 {
      SpanOfFragments(queue[1..], fs[1..]);
    } else {
      assert queue[..1][1..] == [] && fs[1..] == [];
    }
  }

  lemma SomethingUndelivered(p: Peer, q: Peer)
    requires PeerOk(p) && Link(p, q) && q.kcb.rcv.queue != []
    ensures |q.got| < |p.sent| && q.got == p.sent[..|q.got|]
  {
    var rcv := q.kcb.rcv;
    assert Holds(rcv, rcv.queue[0]) && rcv.queue[0].sn == Start(rcv);
    WholePrefix(q.got, p.sent);
  }

  lemma WholePrefix(a: seq<Message>, b: seq<Message>)
    requires a <= b
    ensures |a| == |b| ==> a == b
    ensures a == b[..|a|]
  {
  }

  /** What the receiver's queue starts with: the fragments of the first undelivered message. */
  lemma NextMessage(p: Peer, q: Peer)
    requires PeerOk(p) && Link(p, q) && q.kcb.rcv.queue != []
    ensures |q.got| < |p.sent|
    ensures var fs := Fragments(p.kcb.cfg.mss, p.sent[|q.got|]);
      && IsFragmentation(fs, p.kcb.cfg.mss, p.sent[|q.got|]) && |fs| < WND_RCV
      && |AllFragments(p.kcb.cfg.mss, q.got + [p.sent[|q.got|]])| == Start(q.kcb.rcv) + |fs|
      && forall i :: 0 <= i < |q.kcb.rcv.queue| && i < |fs| ==> q.kcb.rcv.queue[i].frag == fs[i]
  {
    SomethingUndelivered(p, q);
    var mss := p.kcb.cfg.mss;
    var rcv := q.kcb.rcv;
    var n := |q.got|;
    FragmentsOfMessage(mss, p.sent, n);
    PrefixSnoc(q.got, p.sent);
    QueueHoldsFragments(rcv, AllFragments(mss, p.sent), AllFragments(mss, q.got), Fragments(mss, p.sent[n]), p.kcb.snd.nxt);
  }

  lemma PrefixSnoc(a: seq<Message>, b: seq<Message>)
    requires a <= b && |a| < |b|
    ensures a == b[..|a|] && a + [b[|a|]] == b[..|a| + 1]
  {
  }

  lemma QueueHoldsFragments(rcv: Receiver, all: seq<Frag>, before: seq<Frag>, fs: seq<Frag>, nxt: int)
    requires 0 <= nxt <= |all| && ReceiverFaithful(rcv, all, nxt)
    requires before + fs <= all && Start(rcv) == |before|
    ensures forall i :: 0 <= i < |rcv.queue| && i < |fs| ==> rcv.queue[i].frag == fs[i]
  {
    forall i | 0 <= i < |rcv.queue| && i < |fs| ensures rcv.queue[i].frag == fs[i] {
      assert Holds(rcv, rcv.queue[i]) && rcv.queue[i].sn == Start(rcv) + i;
      assert all[|before| + i] == (before + fs)[|before| + i] == fs[i];
    }
  }

  /** A full receive queue always starts with a complete message, so the application can
      make room: the receive side never deadlocks. */
  lemma FullQueueReadable(p: Peer, q: Peer)
    requires PeerOk(p) && PeerOk(q) && Link(p, q)
    requires |q.kcb.rcv.queue| >= q.kcb.rcv.wnd
    ensures PeekSize(q.kcb.rcv.queue) >= 0
  {
    NextMessage(p, q);
    HeadMessage(q.kcb.rcv.queue, Fragments(p.kcb.cfg.mss, p.sent[|q.got|]), p.kcb.cfg.mss, p.sent[|q.got|]);
  }

  lemma PoppedFaithful(rcv: Receiver, n: nat, fs: seq<Frag>, nxt: int)
    requires 0 <= nxt <= |fs| && ReceiverFaithful(rcv, fs, nxt) && n <= |rcv.queue|
    ensures var t := rcv.(queue := rcv.queue[n..]);
      && WindowOk(t) && t.nxt <= nxt && Start(t) == Start(rcv) + n
      && forall y :: Holds(t, y) ==> Holds(rcv, y)
  {
  }

  lemma DrainedFaithful(m: Arith, r: Receiver, fs: seq<Frag>, nxt: int)
    requires 0 <= nxt <= |fs| && (m.Wrapping? ==> |fs| < HALF) && r.wnd < HALF
    requires WindowOk(r) && r.nxt <= nxt && forall y :: Holds(r, y) ==> 0 <= y.sn < nxt && y.frag == fs[y.sn]
    ensures var t := Drain(m, r);
      && ReceiverFaithful(t, fs, nxt) && Start(t) == Start(r) && t.acks == r.acks && t.wnd == r.wnd
      && r.nxt <= t.nxt && forall k :: Received(r, k) ==> Received(t, k)
  {
    forall i | 0 <= i < |r.buf| ensures InSpan(m, r.buf[i].sn) && InSpan(m, r.buf[i].sn + 1) {
      assert Holds(r, r.buf[i]);
    }
    DrainKeeps(m, r);
    var t := Drain(m, r);
    ReceivedMonotone(r, t);
    if |t.queue| > 0 {
      var y := t.queue[|t.queue| - 1];
      assert Holds(t, y) && y.sn == t.nxt - 1;
    }
  }

  /** All fragments of the next message have arrived in order. */
  ghost predicate NextComplete(p: Peer, q: Peer)
    requires 0 < p.kcb.cfg.mss
  {
    && |q.got| < |p.sent|
    && |Fragments(p.kcb.cfg.mss, p.sent[|q.got|])| <= |q.kcb.rcv.queue|
  }

  /** `ikcp_recv` hands over exactly the next message accepted from the peer, or says why not:
      nothing has arrived in order, only part of the message has, or it does not fit. */
  lemma DeliversNext(m: Arith, p: Peer, q: Peer, len: int)
    requires PeerOk(p) && Link(p, q)
    ensures var r, room := Recv(m, q.kcb.rcv, len), if len < 0 then -len else len;
      if q.kcb.rcv.queue == [] then r.code == -1
      else if !NextComplete(p, q) then r.code == -2
      else if |p.sent[|q.got|]| > room then r.code == -3
      else r.message == p.sent[|q.got|] && r.code == |r.message|
    ensures NextComplete(p, q) ==> q.kcb.rcv.queue != []
  {
    if |q.got| < |p.sent| { SendMessage(p.kcb.cfg.mss, [], p.sent[|q.got|]); }
    if q.kcb.rcv.queue != [] {
      NextMessage(p, q);
      HeadMessage(q.kcb.rcv.queue, Fragments(p.kcb.cfg.mss, p.sent[|q.got|]), p.kcb.cfg.mss, p.sent[|q.got|]);
    }
  }

  /** Popping the head message delivers the next one. */
  lemma OneMoreDelivered(p: Peer, q: Peer, t: Receiver)
    requires PeerOk(p) && Link(p, q) && PeekSize(q.kcb.rcv.queue) >= 0 && |q.got| < |p.sent|
    requires Start(t) == Start(q.kcb.rcv) + MessageSpan(q.kcb.rcv.queue)
    ensures DeliveredPrefix(p.kcb.cfg.mss, p.sent, q.got + [p.sent[|q.got|]], t)
  {
    NextMessage(p, q);
    HeadMessage(q.kcb.rcv.queue, Fragments(p.kcb.cfg.mss, p.sent[|q.got|]), p.kcb.cfg.mss, p.sent[|q.got|]);
    PrefixPlusOne(q.got, p.sent);
  }

  lemma IncomingAfterRecv(m: Arith, p: Peer, q: Peer, len: int)
    requires PeerOk(p) && PeerOk(q) && Link(p, q) && Small(m, p)
    ensures Link(p, Do(m, q, p.out, DoRecv(len)))
  {
    var rcv := q.kcb.rcv;
    var r := Recv(m, rcv, len);
    DeliversNext(m, p, q, len);
    if r.code >= 0 {
      RecvKeeps(m, rcv, len, AllFragments(p.kcb.cfg.mss, p.sent), p.kcb.snd.nxt);
      AcksFaithfulLater(q.out, rcv, r.rcv);
      AckListLater(rcv, r.rcv);
      if len >= 0 { OneMoreDelivered(p, q, r.rcv); }
    }
  }

  lemma PrefixPlusOne(a: seq<Message>, b: seq<Message>)
    requires a <= b && |a| < |b|
    ensures a + [b[|a|]] <= b
  {
  }

  lemma AckListLater(r: Receiver, t: Receiver)
    requires AckListFaithful(r) && t.acks == r.acks && forall k :: Received(r, k) ==> Received(t, k)
    ensures AckListFaithful(t)
  {
    forall i | 0 <= i < |t.acks| ensures Received(t, t.acks[i].sn) {
      assert Received(r, r.acks[i].sn);
    }
  }

  lemma RecvKeeps(m: Arith, rcv: Receiver, len: int, fs: seq<Frag>, nxt: int)
    requires 0 <= nxt <= |fs| && ReceiverFaithful(rcv, fs, nxt)
    requires (m.Wrapping? ==> |fs| < HALF) && rcv.wnd < HALF
    requires Recv(m, rcv, len).code >= 0
    ensures var t := Recv(m, rcv, len).rcv;
      && ReceiverFaithful(t, fs, nxt) && t.acks == rcv.acks && t.wnd == rcv.wnd && rcv.nxt <= t.nxt
      && Start(t) == Start(rcv) + (if len < 0 then 0 else MessageSpan(rcv.queue))
      && forall k :: Received(rcv, k) ==> Received(t, k)
  {
    var n := if len < 0 then 0 else MessageSpan(rcv.queue);
    PoppedFaithful(rcv, n, fs, nxt);
    var popped := rcv.(queue := rcv.queue[n..]);
    assert rcv.queue[0..] == rcv.queue;
    DrainedFaithful(m, popped, fs, nxt);
    assert forall k :: Received(popped, k) <==> Received(rcv, k);
  }

  // ---------------------------------------------------------------- what one endpoint keeps

  lemma ProcessAllPeer(m: Arith, s: Kcb, ws: seq<Wire>)
    requires 0 <= s.cc.cwnd && 0 <= s.cc.rmtWnd < 65536
    requires forall i :: 0 <= i < |ws| ==> 0 <= ws[i].wnd < 65536
    ensures var t := ProcessAll(m, s, ws);
      0 <= t.cc.cwnd && 0 <= t.cc.rmtWnd < 65536
    decreases |ws|
  {
    if ws != [] { ProcessAllPeer(m, Process(m, s, ws[0]), ws[1..]); }
  }

  lemma GrowPeer(mss: int, cc: Congestion)
    requires 0 < mss && 0 <= cc.cwnd && 0 <= cc.rmtWnd < 65536
    ensures 0 <= Grow(mss, cc).cwnd && Grow(mss, cc).rmtWnd == cc.rmtWnd
  {
  }

  lemma PeerAfterInput(m: Arith, p: Peer, q: Peer, d: Datagram)
    requires PeerOk(p) && PeerOk(q) && Link(p, q) && Small(m, p)
    ensures PeerOk(Do(m, p, q.out, DoInput(d)))
  {
    if d in q.out {
      DeliverPeer(m, p, q, d);
      PeerStays(p, Deliver(m, p.kcb, d));
    }
  }

  lemma DeliverPeer(m: Arith, p: Peer, q: Peer, d: Datagram)
    requires PeerOk(p) && PeerOk(q) && Link(p, q) && Small(m, p) && d in q.out
    ensures PeerLike(p.kcb, Deliver(m, p.kcb, d))
  {
    var fs := AllFragments(p.kcb.cfg.mss, p.sent);
    var s := ProcessAll(m, p.kcb, d);
    ProcessAllPeer(m, p.kcb, d);
    ProcessAllWindow(m, p.kcb, d);
    ReceivedBelowNxt(q.kcb.rcv, fs, p.kcb.snd.nxt);
    AckUnitsKeep(m, p.kcb, fs, d, q.kcb.rcv);
    ConcludeKeeps(m, s, NoteAll(m, NoAck, d), p.kcb.snd.una, fs, q.kcb.rcv);
    GrowPeer(s.cfg.mss, s.cc);
  }

  /** What a datagram changes of the bounds of an endpoint. */
  ghost predicate PeerLike(s: Kcb, t: Kcb) {
    && t.cfg == s.cfg && t.rcv.wnd == s.rcv.wnd && t.snd.nxt == s.snd.nxt && s.snd.una <= t.snd.una
    && 0 <= t.cc.cwnd && 0 <= t.cc.rmtWnd < 65536
  }

  lemma PeerStays(p: Peer, t: Kcb)
    requires PeerOk(p) && PeerLike(p.kcb, t)
    ensures PeerOk(p.(kcb := t))
  {
  }

  lemma {:induction false} ProcessAllWindow(m: Arith, s: Kcb, ws: seq<Wire>)
    ensures ProcessAll(m, s, ws).rcv.wnd == s.rcv.wnd
    decreases |ws|
  {
    if ws != [] {
      var x := Arrived(ws[0].sn, ws[0].frag);
      DrainWindow(m, s.rcv.(acks := s.rcv.acks + [Ack(x.sn, ws[0].ts)], buf := Insert(m, s.rcv.buf, x)));
      ProcessAllWindow(m, Process(m, s, ws[0]), ws[1..]);
    }
  }

  lemma {:induction false} DrainWindow(m: Arith, r: Receiver)
    ensures Drain(m, r).wnd == r.wnd
    decreases |r.buf|
  {
    if r.buf != [] && r.buf[0].sn == r.nxt && |r.queue| < r.wnd {
      DrainWindow(m, r.(nxt := Num(m, r.nxt + 1), queue := r.queue + [r.buf[0]], buf := r.buf[1..]));
    }
  }

  /** What a flush keeps of one endpoint, in terms of its result only. */
  lemma PeerEmitted(p: Peer, r: FlushResult)
    requires PeerOk(p) && r.kcb.cfg == p.kcb.cfg && r.kcb.rcv.wnd == p.kcb.rcv.wnd
    requires 0 <= r.kcb.cc.cwnd && r.kcb.cc.rmtWnd == p.kcb.cc.rmtWnd
    requires r.kcb.snd.nxt - r.kcb.snd.una < 65536
    requires forall i :: 0 <= i < |r.wires| ==> 0 <= r.wires[i].wnd < 65536
    ensures PeerOk(Emitted(p.kcb.cfg.mtu, p, r))
  {
    var t := Emitted(p.kcb.cfg.mtu, p, r);
    forall d: Datagram, i | d in t.out && 0 <= i < |d| ensures 0 <= d[i].wnd < 65536 {
      if d !in p.out {
        DatagramUnits(p.kcb.cfg.mtu, r.wires, d, i);
      }
    }
  }

  lemma AdjustedWindow(cfg: Config, cc: Congestion, inflight: int, win: int, change: bool, lost: bool)
    requires 0 <= cc.cwnd
    ensures var t := Adjust(cfg, cc, inflight, win, change, lost); 1 <= t.cwnd && t.rmtWnd == cc.rmtWnd
  {
  }

  lemma FlushedWindow(s: Kcb, snd: Sender)
    requires 0 <= s.cc.cwnd
    ensures var t := Flushed(s, snd);
      1 <= t.cc.cwnd && t.cc.rmtWnd == s.cc.rmtWnd && t.rcv.wnd == s.rcv.wnd && t.snd.nxt == snd.nxt && t.snd.una == snd.una
  {
    AdjustedWindow(s.cfg, s.cc, U32(snd.nxt - snd.una), SendWindow(s.cfg, s.cc),
                   CountCause(TickOf(s), Fast, snd.buf) > 0, CountCause(TickOf(s), Timeout, snd.buf) > 0);
  }

  lemma PeerAfterFlush(m: Arith, p: Peer, q: Peer, s: Kcb)
    requires PeerOk(p) && Link(p, q) && Small(m, p)
    requires s == p.kcb.(clk := s.clk)
    ensures PeerOk(Emitted(p.kcb.cfg.mtu, p, Flush(m, s)))
  {
    var r := Flush(m, s);
    if s.clk.updated {
      var n := FlushedSender(m, s, AllFragments(p.kcb.cfg.mss, p.sent));
      FlushedWindow(s, Numbered(m, s).snd);
      forall i | 0 <= i < |r.wires| ensures 0 <= r.wires[i].wnd < 65536 {
        FlushUnits(m, s, r.wires[i]);
      }
    }
    PeerEmitted(p, r);
  }

  // ---------------------------------------------------------------- every step, every run

  /** Both directions survive any call at `p`. */
  lemma StepKeeps(m: Arith, p: Peer, q: Peer, act: Act)
    requires PeerOk(p) && PeerOk(q) && Link(p, q) && Link(q, p)
    requires Small(m, p) && Small(m, q)
    ensures var t := Do(m, p, q.out, act); PeerOk(t) && Link(t, q) && Link(q, t)
  {
    match act
    case DoSend(payload) =>
      LinkAfterSend(m, p, q, payload);
    case DoRecv(len) =>
      IncomingAfterRecv(m, q, p, len);
      RecvPeer(m, p, q, len);
    case DoUpdate(now) =>
      UpdateKeeps(m, p, q, U32(now));
    case DoFlush =>
      FlushKeeps(m, p, q, p.kcb);
    case DoInput(d) =>
      OutgoingAfterInput(m, p, q, d);
      IncomingAfterInput(m, q, p, d);
      PeerAfterInput(m, p, q, d);
  }

  lemma RecvPeer(m: Arith, p: Peer, q: Peer, len: int)
    requires PeerOk(p) && Link(p, q)
    ensures var t := Do(m, p, q.out, DoRecv(len)); PeerOk(t) && Link(t, q)
  {
    DrainWindow(m, p.kcb.rcv);
    DrainWindow(m, p.kcb.rcv.(queue := p.kcb.rcv.queue[MessageSpan(p.kcb.rcv.queue)..]));
  }

  lemma FlushKeeps(m: Arith, p: Peer, q: Peer, s: Kcb)
    requires PeerOk(p) && PeerOk(q) && Link(p, q) && Link(q, p) && Small(m, p)
    requires s == p.kcb.(clk := s.clk)
    ensures var t := Emitted(p.kcb.cfg.mtu, p, Flush(m, s)); PeerOk(t) && Link(t, q) && Link(q, t)
  {
    OutgoingAfterFlush(m, p, q, s);
    IncomingAfterFlush(m, q, p, s);
    PeerAfterFlush(m, p, q, s);
  }

  lemma UpdateKeeps(m: Arith, p: Peer, q: Peer, now: int)
    requires PeerOk(p) && PeerOk(q) && Link(p, q) && Link(q, p) && Small(m, p)
    ensures var t := Emitted(p.kcb.cfg.mtu, p, Update(m, p.kcb, now)); PeerOk(t) && Link(t, q) && Link(q, t)
  {
    var c := Advanced(p.kcb.clk, now);
    if FlushDue(c) {
      FlushKeeps(m, p, q, p.kcb.(clk := Rescheduled(p.kcb.cfg, c)));
    } else {
      EmptyFlush(p.kcb.cfg.mtu, p, Update(m, p.kcb, now));
    }
  }

  lemma SentGrows(m: Arith, p: Peer, incoming: set<Datagram>, act: Act)
    requires 0 < p.kcb.cfg.mss
    ensures p.sent <= Do(m, p, incoming, act).sent
    ensures Small(m, Do(m, p, incoming, act)) ==> Small(m, p)
  {
    var t := Do(m, p, incoming, act);
    if t.sent != p.sent {
      FragmentsOfPrefix(p.kcb.cfg.mss, t.sent, |p.sent|);
      assert t.sent[..|p.sent|] == p.sent;
    }
  }

  ghost predicate AllSmall(m: Arith, s: Sys)
    requires 0 < s.a.kcb.cfg.mss && 0 < s.b.kcb.cfg.mss
  {
    Small(m, s.a) && Small(m, s.b)
  }

  lemma FreshOk(s: Sys, ca: Config, wa: int, cb: Config, wb: int)
    requires Fresh(s, ca, wa, cb, wb)
    ensures SysOk(s)
  {
    forall y ensures !Holds(s.a.kcb.rcv, y) && !Holds(s.b.kcb.rcv, y) { }
  }

  /** The invariant holds in every reachable state of either arithmetic. */
  lemma {:induction false} Invariant(m: Arith, s: Sys, ca: Config, wa: int, cb: Config, wb: int, moves: seq<Move>)
    requires Fresh(s, ca, wa, cb, wb) && AllSmall(m, Run(m, s, moves))
    ensures SysOk(Run(m, s, moves))
    decreases |moves|
  {
    if moves == [] {
      FreshOk(s, ca, wa, cb, wb);
    } else {
      var t := Run(m, s, moves[..|moves| - 1]);
      var mv := moves[|moves| - 1];
      if mv.atA { SentGrows(m, t.a, t.b.out, mv.act); } else { SentGrows(m, t.b, t.a.out, mv.act); }
      Invariant(m, s, ca, wa, cb, wb, moves[..|moves| - 1]);
      if mv.atA { StepKeeps(m, t.a, t.b, mv.act); } else { StepKeeps(m, t.b, t.a, mv.act); }
    }
  }

  /** In every run, what either application has received is a prefix of what the other's
      `ikcp_send` accepted: in order, exactly once, bytes and boundaries intact. */
  lemma InOrderExactlyOnce(m: Arith, s: Sys, ca: Config, wa: int, cb: Config, wb: int, moves: seq<Move>)
    requires Fresh(s, ca, wa, cb, wb) && AllSmall(m, Run(m, s, moves))
    ensures var t := Run(m, s, moves); t.b.got <= t.a.sent && t.a.got <= t.b.sent
  {
    Invariant(m, s, ca, wa, cb, wb, moves);
  }

  /** `k` is still in `p`'s snd_buf, with the content it was cut with. */
  ghost predicate StillBuffered(p: Peer, k: int)
    requires 0 < p.kcb.cfg.mss
  {
    exists i :: 0 <= i < |p.kcb.snd.buf| && p.kcb.snd.buf[i].sn == k
      && 0 <= k < |AllFragments(p.kcb.cfg.mss, p.sent)|
      && p.kcb.snd.buf[i].frag == AllFragments(p.kcb.cfg.mss, p.sent)[k]
  }

  /** In every run, each segment numbered so far is still buffered at its sender, content
      intact, or has been received by the peer. */
  lemma NoSegmentDropped(m: Arith, s: Sys, ca: Config, wa: int, cb: Config, wb: int, moves: seq<Move>, k: int)
    requires Fresh(s, ca, wa, cb, wb) && AllSmall(m, Run(m, s, moves))
    ensures var t := Run(m, s, moves);
      && (0 <= k < t.a.kcb.snd.nxt ==> StillBuffered(t.a, k) || Received(t.b.kcb.rcv, k))
      && (0 <= k < t.b.kcb.snd.nxt ==> StillBuffered(t.b, k) || Received(t.a.kcb.rcv, k))
  {
    Invariant(m, s, ca, wa, cb, wb, moves);
    var t := Run(m, s, moves);
    if 0 <= k < t.a.kcb.snd.nxt && !Received(t.b.kcb.rcv, k) { BufferedContent(t.a, k); }
    if 0 <= k < t.b.kcb.snd.nxt && !Received(t.a.kcb.rcv, k) { BufferedContent(t.b, k); }
  }

  lemma BufferedContent(p: Peer, k: int)
    requires 0 < p.kcb.cfg.mss && SenderFaithful(p.kcb.snd, AllFragments(p.kcb.cfg.mss, p.sent))
    requires HasSn(p.kcb.snd.buf, k)
    ensures StillBuffered(p, k)
  {
    var i :| 0 <= i < |p.kcb.snd.buf| && p.kcb.snd.buf[i].sn == k;
    assert p.kcb.snd.buf[i].frag == AllFragments(p.kcb.cfg.mss, p.sent)[k];
  }

  /** In every run, a receive queue as long as its window can be read. */
  lemma NeverStuckFull(m: Arith, s: Sys, ca: Config, wa: int, cb: Config, wb: int, moves: seq<Move>)
    requires Fresh(s, ca, wa, cb, wb) && AllSmall(m, Run(m, s, moves))
    ensures var t := Run(m, s, moves);
      && (|t.a.kcb.rcv.queue| >= t.a.kcb.rcv.wnd ==> PeekSize(t.a.kcb.rcv.queue) >= 0)
      && (|t.b.kcb.rcv.queue| >= t.b.kcb.rcv.wnd ==> PeekSize(t.b.kcb.rcv.queue) >= 0)
  {
    Invariant(m, s, ca, wa, cb, wb, moves);
    var t := Run(m, s, moves);
    if |t.a.kcb.rcv.queue| >= t.a.kcb.rcv.wnd { FullQueueReadable(t.b, t.a); }
    if |t.b.kcb.rcv.queue| >= t.b.kcb.rcv.wnd { FullQueueReadable(t.a, t.b); }
  }

  /** When `ikcp_waitsnd` is zero the peer has received every segment of every message. */
  lemma NothingWaitingMeansAllReceived(m: Arith, s: Sys, ca: Config, wa: int, cb: Config, wb: int, moves: seq<Move>, k: int)
    requires Fresh(s, ca, wa, cb, wb) && AllSmall(m, Run(m, s, moves))
    ensures var t := Run(m, s, moves);
      && (Waiting(t.a) == 0 && 0 <= k < |AllFragments(ca.mss, t.a.sent)| ==> Received(t.b.kcb.rcv, k))
      && (Waiting(t.b) == 0 && 0 <= k < |AllFragments(cb.mss, t.b.sent)| ==> Received(t.a.kcb.rcv, k))
  {
    Invariant(m, s, ca, wa, cb, wb, moves);
    var t := Run(m, s, moves);
    if Waiting(t.a) == 0 { assert !HasSn(t.a.kcb.snd.buf, k); }
    if Waiting(t.b) == 0 { assert !HasSn(t.b.kcb.snd.buf, k); }
  }

  /** `ikcp_waitsnd`. */
  function Waiting(p: Peer): nat {
    |p.kcb.snd.buf| + |p.kcb.snd.queue|
  }
}
