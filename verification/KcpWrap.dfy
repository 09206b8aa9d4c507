/** The 32-bit engine refines the engine over unbounded sequence numbers: while every
    number is compared only with numbers less than 2^31 away, wrapping the state and then
    taking a step is taking the step and then wrapping the state, for runs of any length. */
module KcpWrap {
  import opened Serial
  import opened KcpTypes
  import opened KcpSender
  import opened KcpReceiver
  import opened KcpWire
  import opened KcpCongestion
  import opened KcpEngine
  import opened KcpSession

  // ---------------------------------------------------------------- wrapping

  function WrapSegs(buf: seq<Segment>): (out: seq<Segment>)
    ensures |out| == |buf|
    ensures forall i :: 0 <= i < |buf| ==> out[i] == buf[i].(sn := U32(buf[i].sn))
  {
    seq(|buf|, i requires 0 <= i < |buf| => buf[i].(sn := U32(buf[i].sn)))
  }

  function WrapSnd(s: Sender): Sender {
    Sender(U32(s.una), U32(s.nxt), s.queue, WrapSegs(s.buf))
  }

  function WrapArrived(x: Arrived): Arrived {
    x.(sn := U32(x.sn))
  }

  function WrapBuf(buf: seq<Arrived>): (out: seq<Arrived>)
    ensures |out| == |buf|
    ensures forall i :: 0 <= i < |buf| ==> out[i] == WrapArrived(buf[i])
  {
    seq(|buf|, i requires 0 <= i < |buf| => WrapArrived(buf[i]))
  }

  function WrapAcks(acks: seq<Ack>): (out: seq<Ack>)
    ensures |out| == |acks|
    ensures forall i :: 0 <= i < |acks| ==> out[i] == acks[i].(sn := U32(acks[i].sn))
  {
    seq(|acks|, i requires 0 <= i < |acks| => acks[i].(sn := U32(acks[i].sn)))
  }

  function WrapRcv(r: Receiver): Receiver {
    Receiver(U32(r.nxt), r.wnd, WrapBuf(r.queue), WrapBuf(r.buf), WrapAcks(r.acks))
  }

  function WrapKcb(s: Kcb): Kcb {
    s.(snd := WrapSnd(s.snd), rcv := WrapRcv(s.rcv))
  }

  function WrapWire(w: Wire): Wire {
    w.(sn := U32(w.sn), una := U32(w.una))
  }

  function WrapWires(ws: seq<Wire>): (out: seq<Wire>)
    ensures |out| == |ws|
    ensures forall i :: 0 <= i < |ws| ==> out[i] == WrapWire(ws[i])
  {
    seq(|ws|, i requires 0 <= i < |ws| => WrapWire(ws[i]))
  }

  function WrapNote(n: AckNote): AckNote {
    if n.NoAck? then n else Newest(U32(n.sn))
  }

  // ---------------------------------------------------------------- nearness

  /** Close enough to compare. */
  ghost predicate Near(a: int, b: int) {
    -HALF <= a - b < HALF
  }

  /** Less than 2^31 numbers are in flight. */
  ghost predicate FlightNear(s: Sender) {
    FlightOk(s) && s.nxt - s.una < HALF
  }

  /** `x` can be compared with every number the sender holds. */
  ghost predicate NearFlight(s: Sender, x: int) {
    s.nxt - HALF <= x < s.una + HALF
  }

  /** `sn` can be compared with both ends of the receive window. */
  ghost predicate NearWindow(r: Receiver, sn: int) {
    r.nxt + r.wnd - HALF <= sn < r.nxt + HALF
  }

  ghost predicate NearNote(n: AckNote, sn: int) {
    n.Newest? ==> Near(sn, n.sn)
  }

  lemma DiffNear(a: int, b: int)
    requires Near(a, b)
    ensures Diff(Wrapping, U32(a), U32(b)) == Diff(Unbounded, a, b) == a - b
    ensures U32(a) == U32(b) <==> a == b
  {
    DiffExact(a, b);
    WrapInjective(a, b);
  }

  // ---------------------------------------------------------------- the sender

  lemma {:induction false} DropUnaWraps(buf: seq<Segment>, una: int)
    requires forall i :: 0 <= i < |buf| ==> Near(una, buf[i].sn)
    ensures DropUna(Wrapping, WrapSegs(buf), U32(una)) == WrapSegs(DropUna(Unbounded, buf, una))
  {
    if buf != [] {
      DiffNear(una, buf[0].sn);
      assert WrapSegs(buf)[1..] == WrapSegs(buf[1..]);
      DropUnaWraps(buf[1..], una);
    }
  }

  lemma {:induction false} DropSnWraps(buf: seq<Segment>, sn: int)
    requires forall i :: 0 <= i < |buf| ==> Near(sn, buf[i].sn)
    ensures DropSn(Wrapping, WrapSegs(buf), U32(sn)) == WrapSegs(DropSn(Unbounded, buf, sn))
  {
    if buf != [] {
      DiffNear(sn, buf[0].sn);
      assert WrapSegs(buf)[1..] == WrapSegs(buf[1..]);
      DropSnWraps(buf[1..], sn);
    }
  }

  lemma {:induction false} BumpFastackWraps(buf: seq<Segment>, sn: int)
    requires forall i :: 0 <= i < |buf| ==> Near(sn, buf[i].sn)
    ensures BumpFastack(Wrapping, WrapSegs(buf), U32(sn)) == WrapSegs(BumpFastack(Unbounded, buf, sn))
  {
    if buf != [] {
      DiffNear(sn, buf[0].sn);
      assert WrapSegs(buf)[1..] == WrapSegs(buf[1..]);
      BumpFastackWraps(buf[1..], sn);
    }
  }

  lemma ShrinkWraps(s: Sender)
    ensures ShrinkBuf(WrapSnd(s)) == WrapSnd(ShrinkBuf(s))
  {
  }

  lemma ParseUnaWraps(s: Sender, una: int)
    requires FlightNear(s) && NearFlight(s, una)
    ensures ShrinkBuf(ParseUna(Wrapping, WrapSnd(s), U32(una))) == WrapSnd(ShrinkBuf(ParseUna(Unbounded, s, una)))
  {
    DropUnaWraps(s.buf, una);
    ShrinkWraps(ParseUna(Unbounded, s, una));
  }

  lemma ParseAckWraps(s: Sender, sn: int)
    requires FlightNear(s) && NearFlight(s, sn)
    ensures ShrinkBuf(ParseAck(Wrapping, WrapSnd(s), U32(sn))) == WrapSnd(ShrinkBuf(ParseAck(Unbounded, s, sn)))
  {
    DiffNear(sn, s.una);
    DiffNear(sn, s.nxt);
    DropSnWraps(s.buf, sn);
    ShrinkWraps(ParseAck(Unbounded, s, sn));
  }

  lemma ParseFastackWraps(s: Sender, sn: int)
    requires FlightNear(s) && NearFlight(s, sn)
    ensures ParseFastack(Wrapping, WrapSnd(s), U32(sn)) == WrapSnd(ParseFastack(Unbounded, s, sn))
  {
    DiffNear(sn, s.una);
    DiffNear(sn, s.nxt);
    BumpFastackWraps(s.buf, sn);
  }

  lemma {:induction false} MoveQueueWraps(s: Sender, cwnd: int, now: int, rto: int)
    requires 0 <= s.nxt - s.una < HALF && 0 <= cwnd < HALF
    ensures MoveQueue(Wrapping, WrapSnd(s), cwnd, now, rto) == WrapSnd(MoveQueue(Unbounded, s, cwnd, now, rto))
    decreases |s.queue|
  {
    DiffNear(s.nxt, s.una + cwnd);
    NumAdd(s.una, cwnd);
    if s.nxt < s.una + cwnd && s.queue != [] {
      var g := Segment(s.nxt, s.queue[0], now, rto, 0, 0);
      var t := Sender(s.una, s.nxt + 1, s.queue[1..], s.buf + [g]);
      NumAdd(s.nxt, 1);
      assert WrapSegs(s.buf) + [g.(sn := U32(g.sn))] == WrapSegs(s.buf + [g]);
      MoveQueueWraps(t, cwnd, now, rto);
    }
  }

  // ---------------------------------------------------------------- the receiver

  lemma {:induction false} InsertWraps(buf: seq<Arrived>, x: Arrived)
    requires forall i :: 0 <= i < |buf| ==> Near(x.sn, buf[i].sn)
    ensures Insert(Wrapping, WrapBuf(buf), WrapArrived(x)) == WrapBuf(Insert(Unbounded, buf, x))
  {
    if buf != [] {
      var last := buf[|buf| - 1];
      var init := buf[..|buf| - 1];
      DiffNear(x.sn, last.sn);
      assert WrapBuf(buf)[..|buf| - 1] == WrapBuf(init);
      InsertWraps(init, x);
      WrapBufAppend(Insert(Unbounded, init, x), last);
      WrapBufAppend(buf, x);
    }
  }

  lemma WrapBufAppend(buf: seq<Arrived>, x: Arrived)
    ensures WrapBuf(buf + [x]) == WrapBuf(buf) + [WrapArrived(x)]
  {
  }

  lemma {:induction false} DrainWraps(r: Receiver)
    requires forall i :: 0 <= i < |r.buf| ==> r.nxt <= r.buf[i].sn < r.nxt + HALF
    requires Rising(r.buf)
    ensures Drain(Wrapping, WrapRcv(r)) == WrapRcv(Drain(Unbounded, r))
    decreases |r.buf|
  {
    if r.buf != [] {
      DiffNear(r.buf[0].sn, r.nxt);
      if r.buf[0].sn == r.nxt && |r.queue| < r.wnd {
        var t := r.(nxt := r.nxt + 1, queue := r.queue + [r.buf[0]], buf := r.buf[1..]);
        NumAdd(r.nxt, 1);
        WrapBufAppend(r.queue, r.buf[0]);
        assert WrapBuf(r.buf)[1..] == WrapBuf(r.buf[1..]);
        DrainWraps(t);
      }
    }
  }

  lemma ParseDataWraps(r: Receiver, x: Arrived)
    requires WindowOk(r) && r.wnd < HALF && NearWindow(r, x.sn)
    ensures ParseData(Wrapping, WrapRcv(r), WrapArrived(x)) == WrapRcv(ParseData(Unbounded, r, x))
  {
    DiffNear(x.sn, r.nxt + r.wnd);
    NumAdd(r.nxt, r.wnd);
    DiffNear(x.sn, r.nxt);
    if InWindow(r, x.sn) { ArrivalWraps(r, x); }
  }

  lemma ArrivalWraps(r: Receiver, x: Arrived)
    requires WindowOk(r) && r.wnd < HALF && InWindow(r, x.sn)
    ensures Drain(Wrapping, WrapRcv(r).(buf := Insert(Wrapping, WrapRcv(r).buf, WrapArrived(x))))
         == WrapRcv(Drain(Unbounded, r.(buf := Insert(Unbounded, r.buf, x))))
  {
    InsertWraps(r.buf, x);
    InsertBounds(r, x);
    DrainWraps(r.(buf := Insert(Unbounded, r.buf, x)));
  }

  lemma InsertBounds(r: Receiver, x: Arrived)
    requires WindowOk(r) && r.wnd < HALF && InWindow(r, x.sn)
    ensures var t := Insert(Unbounded, r.buf, x);
      Rising(t) && forall i :: 0 <= i < |t| ==> r.nxt <= t[i].sn < r.nxt + HALF
  {
    InsertMembers(Unbounded, r.buf, x);
    var t := Insert(Unbounded, r.buf, x);
    forall i | 0 <= i < |t| ensures r.nxt <= t[i].sn < r.nxt + HALF {
      assert t[i] in t;
    }
  }

  lemma PushWraps(r: Receiver, x: Arrived, ts: int)
    requires WindowOk(r) && r.wnd < HALF && NearWindow(r, x.sn)
    ensures Push(Wrapping, WrapRcv(r), WrapArrived(x), ts) == WrapRcv(Push(Unbounded, r, x, ts))
  {
    DiffNear(x.sn, r.nxt + r.wnd);
    NumAdd(r.nxt, r.wnd);
    DiffNear(x.sn, r.nxt);
    var a := Ack(x.sn, ts);
    assert WrapAcks(r.acks + [a]) == WrapAcks(r.acks) + [a.(sn := U32(a.sn))];
    ParseDataWraps(r.(acks := r.acks + [a]), x);
  }

  lemma {:induction false} SpanWraps(queue: seq<Arrived>)
    ensures MessageSpan(WrapBuf(queue)) == MessageSpan(queue)
  {
    if queue != [] {
      assert WrapBuf(queue)[1..] == WrapBuf(queue[1..]);
      SpanWraps(queue[1..]);
    }
  }

  lemma {:induction false} PayloadWraps(queue: seq<Arrived>)
    ensures Payload(WrapBuf(queue)) == Payload(queue)
  {
    if queue != [] {
      assert WrapBuf(queue)[1..] == WrapBuf(queue[1..]);
      PayloadWraps(queue[1..]);
    }
  }

  lemma RecvWraps(r: Receiver, len: int)
    requires WindowOk(r) && r.wnd < HALF
    ensures Recv(Wrapping, WrapRcv(r), len) == Recv(Unbounded, r, len).(rcv := WrapRcv(Recv(Unbounded, r, len).rcv))
  {
    var n := MessageSpan(r.queue);
    SpanWraps(r.queue);
    assert WrapBuf(r.queue)[..n] == WrapBuf(r.queue[..n]);
    assert WrapBuf(r.queue)[n..] == WrapBuf(r.queue[n..]);
    PayloadWraps(r.queue[..n]);
    DrainWraps(r);
    DrainWraps(r.(queue := r.queue[n..]));
  }

  // ---------------------------------------------------------------- a datagram

  /** Every comparison made while processing `w` is between near numbers. */
  ghost predicate NearUnit(s: Kcb, n: AckNote, w: Wire) {
    && FlightNear(s.snd) && NearFlight(s.snd, w.una)
    && WindowOk(s.rcv) && s.rcv.wnd < HALF
    && (w.cmd == CMD_ACK ==> NearFlight(TakeUna(Unbounded, s, w.wnd, w.una).snd, w.sn) && NearNote(n, w.sn))
    && (w.cmd == CMD_PUSH ==> NearWindow(s.rcv, w.sn))
  }

  lemma ProcessWraps(s: Kcb, n: AckNote, w: Wire)
    requires NearUnit(s, n, w)
    requires FlightNear(TakeUna(Unbounded, s, w.wnd, w.una).snd)
    ensures Process(Wrapping, WrapKcb(s), WrapWire(w)) == WrapKcb(Process(Unbounded, s, w))
    ensures NoteOf(Wrapping, WrapNote(n), WrapWire(w)) == WrapNote(NoteOf(Unbounded, n, w))
  {
    ParseUnaWraps(s.snd, w.una);
    if w.cmd == CMD_ACK {
      ParseAckWraps(TakeUna(Unbounded, s, w.wnd, w.una).snd, w.sn);
      if n.Newest? { DiffNear(w.sn, n.sn); }
    } else if w.cmd == CMD_PUSH {
      PushWraps(s.rcv, Arrived(w.sn, w.frag), w.ts);
    }
  }

  ghost predicate NearUnits(s: Kcb, n: AckNote, ws: seq<Wire>)
    decreases |ws|
  {
    ws != [] ==>
      && NearUnit(s, n, ws[0])
      && FlightNear(TakeUna(Unbounded, s, ws[0].wnd, ws[0].una).snd)
      && NearUnits(Process(Unbounded, s, ws[0]), NoteOf(Unbounded, n, ws[0]), ws[1..])
  }

  lemma {:induction false} ProcessAllWraps(s: Kcb, n: AckNote, ws: seq<Wire>)
    requires NearUnits(s, n, ws)
    ensures ProcessAll(Wrapping, WrapKcb(s), WrapWires(ws)) == WrapKcb(ProcessAll(Unbounded, s, ws))
    ensures NoteAll(Wrapping, WrapNote(n), WrapWires(ws)) == WrapNote(NoteAll(Unbounded, n, ws))
    decreases |ws|
  {
    if ws != [] {
      ProcessWraps(s, n, ws[0]);
      assert WrapWires(ws)[1..] == WrapWires(ws[1..]);
      ProcessAllWraps(Process(Unbounded, s, ws[0]), NoteOf(Unbounded, n, ws[0]), ws[1..]);
    }
  }

  /** Every comparison made while taking in the datagram is between near numbers. */
  ghost predicate NearDatagram(s: Kcb, ws: seq<Wire>) {
    var t := ProcessAll(Unbounded, s, ws);
    var n := NoteAll(Unbounded, NoAck, ws);
    && NearUnits(s, NoAck, ws)
    && FlightNear(t.snd)
    && (n.Newest? ==> NearFlight(t.snd, n.sn))
    && Near(t.snd.una, s.snd.una)
  }

  lemma ConcludeWraps(s: Kcb, n: AckNote, prevUna: int)
    requires 0 < s.cfg.mss && FlightNear(s.snd) && (n.Newest? ==> NearFlight(s.snd, n.sn)) && Near(s.snd.una, prevUna)
    ensures Conclude(Wrapping, WrapKcb(s), WrapNote(n), U32(prevUna)) == WrapKcb(Conclude(Unbounded, s, n, prevUna))
  {
    if n.Newest? { ParseFastackWraps(s.snd, n.sn); }
    DiffNear(s.snd.una, prevUna);
  }

  /** Taking in a datagram. */
  lemma DeliverWraps(s: Kcb, ws: seq<Wire>)
    requires 0 < s.cfg.mss && NearDatagram(s, ws)
    ensures Deliver(Wrapping, WrapKcb(s), WrapWires(ws)) == WrapKcb(Deliver(Unbounded, s, ws))
  {
    ProcessAllWraps(s, NoAck, ws);
    ConcludeWraps(ProcessAll(Unbounded, s, ws), NoteAll(Unbounded, NoAck, ws), s.snd.una);
  }

  // ---------------------------------------------------------------- a flush

  function WrapHead(h: Head): Head {
    h.(una := U32(h.una))
  }

  lemma {:induction false} PushWiresWrap(h: Head, k: Tick, buf: seq<Segment>)
    ensures PushWires(WrapHead(h), k, WrapSegs(buf)) == WrapWires(PushWires(h, k, buf))
  {
    if buf != [] {
      var init := buf[..|buf| - 1];
      assert WrapSegs(buf)[..|buf| - 1] == WrapSegs(init);
      PushWiresWrap(h, k, init);
    }
  }

  lemma {:induction false} CountCauseWraps(k: Tick, c: Cause, buf: seq<Segment>)
    ensures CountCause(k, c, WrapSegs(buf)) == CountCause(k, c, buf)
  {
    if buf != [] {
      var init := buf[..|buf| - 1];
      assert WrapSegs(buf)[..|buf| - 1] == WrapSegs(init);
      CountCauseWraps(k, c, init);
    }
  }

  lemma {:induction false} LinkDeadWraps(k: Tick, deadLink: int, buf: seq<Segment>)
    ensures LinkDead(k, deadLink, WrapSegs(buf)) == LinkDead(k, deadLink, buf)
  {
    if buf != [] {
      var init := buf[..|buf| - 1];
      assert WrapSegs(buf)[..|buf| - 1] == WrapSegs(init);
      LinkDeadWraps(k, deadLink, init);
    }
  }

  lemma TransmitAllWraps(k: Tick, buf: seq<Segment>)
    ensures TransmitAll(k, WrapSegs(buf)) == WrapSegs(TransmitAll(k, buf))
  {
  }

  lemma AckWiresWrap(h: Head, acks: seq<Ack>)
    ensures AckWires(WrapHead(h), WrapAcks(acks)) == WrapWires(AckWires(h, acks))
  {
  }

  lemma ProbeWiresWrap(h: Head, c: Clock, last: Ack)
    ensures ProbeWires(WrapHead(h), c, last.(sn := U32(last.sn))) == WrapWires(ProbeWires(h, c, last))
  {
  }

  lemma WrapWiresConcat(a: seq<Wire>, b: seq<Wire>)
    ensures WrapWires(a + b) == WrapWires(a) + WrapWires(b)
  {
  }

  lemma InflightWraps(a: int, b: int)
    ensures U32(U32(a) - U32(b)) == U32(a - b)
  {
    ModShift(a - b, b / MODULUS - a / MODULUS);
    assert U32(a) - U32(b) == (a - b) + (b / MODULUS - a / MODULUS) * MODULUS;
  }

  function WrapFlush(r: FlushResult): FlushResult {
    FlushResult(WrapKcb(r.kcb), WrapWires(r.wires))
  }

  lemma NumberedWraps(s: Kcb)
    requires FlightNear(s.snd) && 0 <= SendWindow(s.cfg, s.cc) < HALF
    ensures Numbered(Wrapping, WrapKcb(s)) == WrapKcb(Numbered(Unbounded, s))
  {
    MoveQueueWraps(s.snd, SendWindow(s.cfg, s.cc), s.clk.current, s.rtt.rto);
  }

  lemma FlushWiresWrap(s: Kcb, snd: Sender)
    ensures FlushWires(WrapKcb(s), WrapSnd(snd)) == WrapWires(FlushWires(s, snd))
  {
    var c := ProbeTimer(s.clk, s.cc.rmtWnd);
    var h, k, last := HeadOf(s), TickOf(s), ScratchAck(s.rcv.acks);
    assert HeadOf(WrapKcb(s)) == WrapHead(h);
    assert ScratchAck(WrapAcks(s.rcv.acks)) == last.(sn := U32(last.sn));
    AckWiresWrap(h, s.rcv.acks);
    ProbeWiresWrap(h, c, last);
    PushWiresWrap(h, k, snd.buf);
    var a, b, p := AckWires(h, s.rcv.acks), ProbeWires(h, c, last), PushWires(h, k, snd.buf);
    WrapWiresConcat(a, b);
    WrapWiresConcat(a + b, p);
  }

  lemma FlushedWraps(s: Kcb, snd: Sender)
    ensures Flushed(WrapKcb(s), WrapSnd(snd)) == WrapKcb(Flushed(s, snd))
  {
    FlushedCcWraps(s, snd);
    FlushedClockWraps(s, snd);
    TransmitAllWraps(TickOf(s), snd.buf);
    assert WrapAcks([]) == [];
  }

  lemma FlushedCcWraps(s: Kcb, snd: Sender)
    ensures FlushedCc(WrapKcb(s), WrapSnd(snd)) == FlushedCc(s, snd)
  {
    CountCauseWraps(TickOf(s), Fast, snd.buf);
    CountCauseWraps(TickOf(s), Timeout, snd.buf);
    InflightWraps(snd.nxt, snd.una);
  }

  lemma FlushedClockWraps(s: Kcb, snd: Sender)
    ensures FlushedClock(WrapKcb(s), WrapSnd(snd)) == FlushedClock(s, snd)
  {
    CountCauseWraps(TickOf(s), Timeout, snd.buf);
    LinkDeadWraps(TickOf(s), s.cfg.deadLink, snd.buf);
  }

  /** Flushing. */
  lemma FlushWraps(s: Kcb)
    requires FlightNear(s.snd) && 0 <= SendWindow(s.cfg, s.cc) < HALF
    ensures Flush(Wrapping, WrapKcb(s)) == WrapFlush(Flush(Unbounded, s))
  {
    if s.clk.updated {
      var snd := Numbered(Unbounded, s).snd;
      NumberedWraps(s);
      FlushWiresWrap(s, snd);
      FlushedWraps(s, snd);
    } else {
      assert WrapWires([]) == [];
    }
  }

  /** Updating. */
  lemma UpdateWraps(s: Kcb, now: int)
    requires FlightNear(s.snd) && 0 <= SendWindow(s.cfg, s.cc) < HALF
    ensures Update(Wrapping, WrapKcb(s), now) == WrapFlush(Update(Unbounded, s, now))
  {
    var c := Advanced(s.clk, now);
    if FlushDue(c) {
      FlushWraps(s.(clk := Rescheduled(s.cfg, c)));
    } else {
      assert WrapWires([]) == [];
    }
  }

  // ---------------------------------------------------------------- packing

  function WrapPacking(p: Packing): Packing {
    Packing(WrapGroups(p.done), WrapWires(p.cur))
  }

  function WrapGroups(gs: seq<Datagram>): (out: seq<Datagram>)
    ensures |out| == |gs| && forall i :: 0 <= i < |gs| ==> out[i] == WrapWires(gs[i])
  {
    seq(|gs|, i requires 0 <= i < |gs| => WrapWires(gs[i]))
  }

  lemma {:induction false} SizeWraps(ws: seq<Wire>)
    ensures SizeOf(WrapWires(ws)) == SizeOf(ws)
  {
    if ws != [] {
      assert WrapWires(ws)[1..] == WrapWires(ws[1..]);
      SizeWraps(ws[1..]);
    }
  }

  lemma EmitWraps(p: Packing)
    ensures Emit(WrapPacking(p)) == WrapGroups(Emit(p))
  {
  }

  lemma PackOneWraps(mtu: int, p: Packing, w: Wire)
    ensures PackOne(mtu, WrapPacking(p), WrapWire(w)) == WrapPacking(PackOne(mtu, p, w))
  {
    SizeWraps(p.cur);
    EmitWraps(p);
    WrapWiresConcat(p.cur, [w]);
    assert WrapWires([w]) == [WrapWire(w)];
  }

  lemma {:induction false} PackMoreWraps(mtu: int, p: Packing, ws: seq<Wire>)
    ensures PackMore(mtu, WrapPacking(p), WrapWires(ws)) == WrapPacking(PackMore(mtu, p, ws))
    decreases |ws|
  {
    if ws != [] {
      PackOneWraps(mtu, p, ws[0]);
      assert WrapWires(ws)[1..] == WrapWires(ws[1..]);
      PackMoreWraps(mtu, PackOne(mtu, p, ws[0]), ws[1..]);
    }
  }

  lemma PackWraps(mtu: int, ws: seq<Wire>)
    ensures Pack(mtu, WrapWires(ws)) == WrapGroups(Pack(mtu, ws))
  {
    assert WrapPacking(Packing([], [])) == Packing([], []);
    PackMoreWraps(mtu, Packing([], []), ws);
    EmitWraps(PackMore(mtu, Packing([], []), ws));
  }

  // ---------------------------------------------------------------- two endpoints

  function WrapPeer(p: Peer): Peer {
    p.(kcb := WrapKcb(p.kcb), out := set d | d in p.out :: WrapWires(d))
  }

  function WrapSys(s: Sys): Sys {
    Sys(WrapPeer(s.a), WrapPeer(s.b))
  }

  function WrapAct(act: Act): Act {
    match act
    case DoInput(d) => DoInput(WrapWires(d))
    case _ => act
  }

  function WrapMoves(moves: seq<Move>): (out: seq<Move>)
    ensures |out| == |moves|
    ensures forall i :: 0 <= i < |moves| ==> out[i] == Move(moves[i].atA, WrapAct(moves[i].act))
  {
    seq(|moves|, i requires 0 <= i < |moves| => Move(moves[i].atA, WrapAct(moves[i].act)))
  }

  /** The call only compares near numbers; an input takes a datagram the peer did emit. */
  ghost predicate NearAct(p: Peer, incoming: set<Datagram>, act: Act) {
    match act
    case DoSend(_) => true
    case DoRecv(_) => WindowOk(p.kcb.rcv) && p.kcb.rcv.wnd < HALF
    case DoUpdate(_) => FlightNear(p.kcb.snd) && 0 <= SendWindow(p.kcb.cfg, p.kcb.cc) < HALF
    case DoFlush => FlightNear(p.kcb.snd) && 0 <= SendWindow(p.kcb.cfg, p.kcb.cc) < HALF
    case DoInput(d) => d in incoming && NearDatagram(p.kcb, d)
  }

  lemma EmittedWraps(p: Peer, r: FlushResult)
    ensures Emitted(p.kcb.cfg.mtu, WrapPeer(p), WrapFlush(r)) == WrapPeer(Emitted(p.kcb.cfg.mtu, p, r))
  {
    PackWraps(p.kcb.cfg.mtu, r.wires);
    GroupsAsSets(Pack(p.kcb.cfg.mtu, r.wires));
  }

  lemma GroupsAsSets(gs: seq<Datagram>)
    ensures (set d | d in WrapGroups(gs)) == (set d | d in gs :: WrapWires(d))
  {
    forall d | d in WrapGroups(gs) ensures d in (set e | e in gs :: WrapWires(e)) {
      var i :| 0 <= i < |gs| && WrapGroups(gs)[i] == d;
      assert gs[i] in gs;
    }
    forall e | e in gs ensures WrapWires(e) in WrapGroups(gs) {
      var i :| 0 <= i < |gs| && gs[i] == e;
      assert WrapGroups(gs)[i] == WrapWires(e);
    }
  }

  /** One call, from wrapped state to wrapped state. */
  lemma DoWraps(p: Peer, incoming: set<Datagram>, act: Act)
    requires 0 < p.kcb.cfg.mss && NearAct(p, incoming, act)
    ensures Do(Wrapping, WrapPeer(p), set d | d in incoming :: WrapWires(d), WrapAct(act))
         == WrapPeer(Do(Unbounded, p, incoming, act))
  {
    match act
    case DoSend(payload) =>
    case DoRecv(len) => RecvWraps(p.kcb.rcv, len);
    case DoUpdate(now) =>
      UpdateWraps(p.kcb, U32(now));
      EmittedWraps(p, Update(Unbounded, p.kcb, U32(now)));
    case DoFlush =>
      FlushWraps(p.kcb);
      EmittedWraps(p, Flush(Unbounded, p.kcb));
    case DoInput(d) =>
      DeliverWraps(p.kcb, d);
  }

  ghost predicate NearMove(s: Sys, mv: Move) {
    if mv.atA then NearAct(s.a, s.b.out, mv.act) else NearAct(s.b, s.a.out, mv.act)
  }

  /** Every move of the run is near. */
  ghost predicate NearRun(s: Sys, moves: seq<Move>)
    requires 0 < s.a.kcb.cfg.mss && 0 < s.b.kcb.cfg.mss
    decreases |moves|
  {
    moves != [] ==>
      && NearRun(s, moves[..|moves| - 1])
      && NearMove(Run(Unbounded, s, moves[..|moves| - 1]), moves[|moves| - 1])
  }

  lemma LastWrapped(moves: seq<Move>)
    requires moves != []
    ensures var wrapped, last := WrapMoves(moves), |moves| - 1;
      wrapped[..last] == WrapMoves(moves[..last]) && wrapped[last] == Move(moves[last].atA, WrapAct(moves[last].act))
  {
  }

  /** A run of any length in which every comparison is between numbers less than 2^31
      apart goes through the same states, wrapped, in 32-bit arithmetic. */
  lemma {:induction false} RunWraps(s: Sys, moves: seq<Move>)
    requires 0 < s.a.kcb.cfg.mss && 0 < s.b.kcb.cfg.mss
    requires NearRun(s, moves)
    ensures Run(Wrapping, WrapSys(s), WrapMoves(moves)) == WrapSys(Run(Unbounded, s, moves))
    decreases |moves|
  {
    if moves != [] {
      var init := moves[..|moves| - 1];
      var mv := moves[|moves| - 1];
      RunWraps(s, init);
      LastWrapped(moves);
      var t := Run(Unbounded, s, init);
      assert NearMove(t, mv);
      if mv.atA { DoWraps(t.a, t.b.out, mv.act); } else { DoWraps(t.b, t.a.out, mv.act); }
    }
  }

  // ---------------------------------------------------------------- staleness is the only limit

  /** No unit of `d` names a number 2^31 or more behind the newest one (counting, for
      data, from the far end of the receive window). */
  ghost predicate Unstale(p: Peer, q: Peer, d: Datagram) {
    forall i :: 0 <= i < |d| ==> UnstaleUnit(p.kcb.snd.nxt, q.kcb.snd.nxt + p.kcb.rcv.wnd, d[i])
  }

  ghost predicate UnstaleUnit(sndNxt: int, rcvEnd: int, w: Wire) {
    && sndNxt - HALF <= w.una
    && (w.cmd == CMD_ACK ==> sndNxt - HALF <= w.sn)
    && (w.cmd == CMD_PUSH ==> rcvEnd - HALF <= w.sn)
  }

  /** The sender's unacknowledged range starts no further than the end of the peer's window. */
  lemma FlightStartsInWindow(snd: Sender, rcv: Receiver)
    requires SndOk(snd) && RcvOk(rcv) && NothingLost(snd, rcv)
    ensures snd.una <= rcv.nxt + rcv.wnd
  {
    var k := rcv.nxt + rcv.wnd;
    assert k < snd.una ==> !HasSn(snd.buf, k);
    assert !Received(rcv, k);
  }

  lemma UnstaleUnitIsNear(s: Kcb, n: AckNote, w: Wire, fs: seq<Frag>, rcv: Receiver, inbound: seq<Frag>, nxt: int)
    requires SenderFaithful(s.snd, fs) && NothingLost(s.snd, rcv) && s.snd.nxt - s.snd.una < HALF
    requires rcv.nxt <= s.snd.nxt && (forall k :: Received(rcv, k) ==> 0 <= k < s.snd.nxt)
    requires 0 <= nxt <= |inbound| && ReceiverFaithful(s.rcv, inbound, nxt) && AckListFaithful(s.rcv)
    requires s.rcv.wnd < HALF && nxt <= s.rcv.nxt + HALF
    requires AckFaithful(w, rcv) && PushFaithful(w, inbound, nxt)
    requires UnstaleUnit(s.snd.nxt, nxt + s.rcv.wnd, w)
    requires n.Newest? ==> s.snd.nxt - HALF <= n.sn < s.snd.nxt
    ensures NearUnit(s, n, w) && FlightNear(TakeUna(Unbounded, s, w.wnd, w.una).snd)
  {
    ParseUnaKeeps(Unbounded, s.snd, w.una);
    if w.cmd == CMD_ACK { assert Received(rcv, w.sn); }
  }

  lemma {:induction false} UnstaleUnitsAreNear(s: Kcb, n: AckNote, ws: seq<Wire>, fs: seq<Frag>, rcv: Receiver, inbound: seq<Frag>, nxt: int)
    requires SenderFaithful(s.snd, fs) && NothingLost(s.snd, rcv) && s.snd.nxt - s.snd.una < HALF
    requires rcv.nxt <= s.snd.nxt && (forall k :: Received(rcv, k) ==> 0 <= k < s.snd.nxt)
    requires 0 <= nxt <= |inbound| && ReceiverFaithful(s.rcv, inbound, nxt) && AckListFaithful(s.rcv)
    requires s.rcv.wnd < HALF && nxt <= s.rcv.nxt + HALF
    requires forall i :: 0 <= i < |ws| ==> AckFaithful(ws[i], rcv) && PushFaithful(ws[i], inbound, nxt)
    requires forall i :: 0 <= i < |ws| ==> UnstaleUnit(s.snd.nxt, nxt + s.rcv.wnd, ws[i])
    requires n.Newest? ==> s.snd.nxt - HALF <= n.sn < s.snd.nxt
    ensures NearUnits(s, n, ws)
    ensures var t := ProcessAll(Unbounded, s, ws);
      var m := NoteAll(Unbounded, n, ws);
      FlightNear(t.snd) && (m.Newest? ==> NearFlight(t.snd, m.sn)) && s.snd.una <= t.snd.una <= s.snd.nxt
    decreases |ws|
  {
    if ws != [] {
      var w := ws[0];
      UnstaleUnitIsNear(s, n, w, fs, rcv, inbound, nxt);
      AckUnitKeeps(Unbounded, s, fs, w, rcv);
      PushUnitKeeps(Unbounded, s, w, inbound, nxt);
      if w.cmd == CMD_ACK { assert Received(rcv, w.sn); }
      UnstaleUnitsAreNear(Process(Unbounded, s, w), NoteOf(Unbounded, n, w), ws[1..], fs, rcv, inbound, nxt);
    }
  }

  /** In a reachable state every call compares only near numbers, unless it takes in a
      stale datagram. */
  lemma UnstaleIsNear(p: Peer, q: Peer, act: Act)
    requires PeerOk(p) && PeerOk(q) && Link(p, q) && Link(q, p)
    requires p.kcb.rcv.wnd <= HALF - 65536
    requires act.DoInput? ==> act.d in q.out && Unstale(p, q, act.d)
    ensures NearAct(p, q.out, act)
  {
    if act.DoInput? {
      var fs := AllFragments(p.kcb.cfg.mss, p.sent);
      var inbound := AllFragments(q.kcb.cfg.mss, q.sent);
      FlightStartsInWindow(q.kcb.snd, p.kcb.rcv);
      ReceivedBelowNxt(q.kcb.rcv, fs, p.kcb.snd.nxt);
      UnstaleUnitsAreNear(p.kcb, NoAck, act.d, fs, q.kcb.rcv, inbound, q.kcb.snd.nxt);
    }
  }

  ghost predicate UnstaleMove(s: Sys, mv: Move) {
    mv.act.DoInput? ==>
      if mv.atA then mv.act.d in s.b.out && Unstale(s.a, s.b, mv.act.d)
      else mv.act.d in s.a.out && Unstale(s.b, s.a, mv.act.d)
  }

  /** No move of the run takes in a stale datagram. */
  ghost predicate UnstaleRun(s: Sys, moves: seq<Move>)
    requires 0 < s.a.kcb.cfg.mss && 0 < s.b.kcb.cfg.mss
    decreases |moves|
  {
    moves != [] ==>
      && UnstaleRun(s, moves[..|moves| - 1])
      && UnstaleMove(Run(Unbounded, s, moves[..|moves| - 1]), moves[|moves| - 1])
  }

  lemma {:induction false} UnstaleRunIsNear(s: Sys, ca: Config, wa: int, cb: Config, wb: int, moves: seq<Move>)
    requires Fresh(s, ca, wa, cb, wb) && wa <= HALF - 65536 && wb <= HALF - 65536
    requires UnstaleRun(s, moves)
    ensures NearRun(s, moves)
    decreases |moves|
  {
    if moves != [] {
      var init, mv := moves[..|moves| - 1], moves[|moves| - 1];
      var t := Run(Unbounded, s, init);
      UnstaleRunIsNear(s, ca, wa, cb, wb, init);
      Invariant(Unbounded, s, ca, wa, cb, wb, init);
      WindowsFixed(s, init);
      if mv.atA { UnstaleIsNear(t.a, t.b, mv.act); } else { UnstaleIsNear(t.b, t.a, mv.act); }
    }
  }

  /** 32-bit endpoints deliver in order and exactly once however many segments are sent,
      provided the network never hands over a datagram whose numbers are 2^31 behind. */
  lemma InOrderWithoutStaleness(s: Sys, ca: Config, wa: int, cb: Config, wb: int, moves: seq<Move>)
    requires Fresh(s, ca, wa, cb, wb) && wa <= HALF - 65536 && wb <= HALF - 65536
    requires UnstaleRun(s, moves)
    ensures var t := Run(Wrapping, s, WrapMoves(moves)); t.b.got <= t.a.sent && t.a.got <= t.b.sent
    ensures Run(Wrapping, s, WrapMoves(moves)) == WrapSys(Run(Unbounded, s, moves))
  {
    UnstaleRunIsNear(s, ca, wa, cb, wb, moves);
    assert WrapSys(s) == s;
    RunWraps(s, moves);
    InOrderExactlyOnce(Unbounded, s, ca, wa, cb, wb, moves);
  }

  lemma DoKeepsWindow(m: Arith, p: Peer, incoming: set<Datagram>, act: Act)
    requires 0 < p.kcb.cfg.mss
    ensures Do(m, p, incoming, act).kcb.rcv.wnd == p.kcb.rcv.wnd
  {
    match act
    case DoRecv(len) =>
      DrainWindow(m, p.kcb.rcv);
      DrainWindow(m, p.kcb.rcv.(queue := p.kcb.rcv.queue[MessageSpan(p.kcb.rcv.queue)..]));
    case DoInput(d) => ProcessAllWindow(m, p.kcb, d);
    case _ =>
  }

  lemma {:induction false} WindowsFixed(s: Sys, moves: seq<Move>)
    requires 0 < s.a.kcb.cfg.mss && 0 < s.b.kcb.cfg.mss
    ensures var t := Run(Unbounded, s, moves);
      t.a.kcb.rcv.wnd == s.a.kcb.rcv.wnd && t.b.kcb.rcv.wnd == s.b.kcb.rcv.wnd
    decreases |moves|
  {
    if moves != [] {
      var t := Run(Unbounded, s, moves[..|moves| - 1]);
      var mv := moves[|moves| - 1];
      WindowsFixed(s, moves[..|moves| - 1]);
      DoKeepsWindow(Unbounded, t.a, t.b.out, mv.act);
      DoKeepsWindow(Unbounded, t.b, t.a.out, mv.act);
    }
  }
}
