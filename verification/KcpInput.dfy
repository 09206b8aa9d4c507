/** What `ikcp_input` makes of the units of a datagram, told from the units: which segments are
    acknowledged, which are counted as skipped, what will be answered, and what is measured. */
module KcpInput {
  import opened Serial
  import opened KcpTypes
  import opened KcpSender
  import opened KcpReceiver
  import opened KcpWire
  import opened KcpCongestion
  import opened KcpEngine
  import opened KcpFlush

  ghost predicate UnitInSpan(m: Arith, w: Wire) {
    InSpan(m, w.una) && InSpan(m, w.sn) && InSpan(m, w.sn + 1)
  }

  ghost predicate UnitsInSpan(m: Arith, ws: seq<Wire>) {
    forall i :: 0 <= i < |ws| ==> UnitInSpan(m, ws[i])
  }

  // ---------------------------------------------------------------- acknowledged segments

  /** The unit acknowledges `k`, cumulatively or by itself. */
  predicate Acknowledged(w: Wire, k: int) {
    k < w.una || (w.cmd == CMD_ACK && k == w.sn)
  }

  ghost predicate AcknowledgedBy(ws: seq<Wire>, k: int) {
    exists i :: 0 <= i < |ws| && Acknowledged(ws[i], k)
  }

  /** What units do to the send buffer: they take out what they acknowledge, and no more. */
  ghost predicate Takes(s: Sender, t: Sender, k: int, taken: bool) {
    && SndOk(t) && t.nxt == s.nxt && t.queue == s.queue && s.una <= t.una
    && IsSubBuffer(t.buf, s.buf)
    && (HasSn(t.buf, k) <==> HasSn(s.buf, k) && !taken)
  }

  lemma ProcessTakes(m: Arith, s: Kcb, w: Wire, k: int)
    requires SndOk(s.snd) && SndInSpan(m, s.snd) && UnitInSpan(m, w)
    ensures Takes(s.snd, Process(m, s, w).snd, k, Acknowledged(w, k)) && SndInSpan(m, Process(m, s, w).snd)
  {
    var t1 := TakeUna(m, s, w.wnd, w.una);
    ParseUnaKeeps(m, s.snd, w.una);
    if w.cmd == CMD_ACK {
      ParseAckKeeps(m, t1.snd, w.sn);
      assert Process(m, s, w).snd == ShrinkBuf(ParseAck(m, t1.snd, w.sn));
    }
  }

  lemma {:induction false} ProcessAllTakes(m: Arith, s: Kcb, ws: seq<Wire>, k: int)
    requires SndOk(s.snd) && SndInSpan(m, s.snd) && UnitsInSpan(m, ws)
    ensures Takes(s.snd, ProcessAll(m, s, ws).snd, k, AcknowledgedBy(ws, k)) && SndInSpan(m, ProcessAll(m, s, ws).snd)
    decreases |ws|
  {
    if ws != [] {
      ProcessTakes(m, s, ws[0], k);
      ProcessAllTakes(m, Process(m, s, ws[0]), ws[1..], k);
      AcknowledgedFirst(ws, k);
    }
  }

  lemma AcknowledgedFirst(ws: seq<Wire>, k: int)
    requires ws != []
    ensures AcknowledgedBy(ws, k) <==> Acknowledged(ws[0], k) || AcknowledgedBy(ws[1..], k)
  {
    if i :| 0 <= i < |ws| && Acknowledged(ws[i], k) {
      if i > 0 { assert ws[1..][i - 1] == ws[i]; }
    }
    if i :| 0 <= i < |ws[1..]| && Acknowledged(ws[1..][i], k) { assert ws[i + 1] == ws[1..][i]; }
  }

  // ---------------------------------------------------------------- skipped segments

  /** The newest number acknowledged by itself. */
  ghost predicate IsNewest(ws: seq<Wire>, sn: int) {
    && (exists i :: 0 <= i < |ws| && ws[i].cmd == CMD_ACK && ws[i].sn == sn)
    && forall i :: 0 <= i < |ws| && ws[i].cmd == CMD_ACK ==> ws[i].sn <= sn
  }

  /** What the loop has noted, given what it had noted before. */
  ghost predicate Notes(before: AckNote, ws: seq<Wire>, after: AckNote) {
    if after.NoAck? then before.NoAck? && forall i :: 0 <= i < |ws| ==> ws[i].cmd != CMD_ACK
    else
      && (before.Newest? ==> before.sn <= after.sn)
      && (forall i :: 0 <= i < |ws| && ws[i].cmd == CMD_ACK ==> ws[i].sn <= after.sn)
      && (before == after || exists i :: 0 <= i < |ws| && ws[i].cmd == CMD_ACK && ws[i].sn == after.sn)
  }

  lemma {:induction false} NoteAllNotes(m: Arith, note: AckNote, ws: seq<Wire>)
    requires UnitsInSpan(m, ws) && (note.Newest? ==> InSpan(m, note.sn))
    ensures Notes(note, ws, NoteAll(m, note, ws))
    ensures NoteAll(m, note, ws).Newest? ==> InSpan(m, NoteAll(m, note, ws).sn)
    decreases |ws|
  {
    if ws != [] {
      var next := NoteOf(m, note, ws[0]);
      if note.Newest? { DiffInSpan(m, ws[0].sn, note.sn); }
      NoteAllNotes(m, next, ws[1..]);
      NotesFirst(m, note, ws, next, NoteAll(m, note, ws));
    }
  }

  lemma NotesFirst(m: Arith, note: AckNote, ws: seq<Wire>, next: AckNote, after: AckNote)
    requires ws != [] && Notes(next, ws[1..], after)
    requires if ws[0].cmd != CMD_ACK then next == note
             else next == Newest(if note.Newest? && note.sn >= ws[0].sn then note.sn else ws[0].sn)
    ensures Notes(note, ws, after)
  {
    assert forall i :: 0 < i < |ws| ==> ws[i] == ws[1..][i - 1];
    if after.Newest? && next != after {
      var i :| 0 <= i < |ws[1..]| && ws[1..][i].cmd == CMD_ACK && ws[1..][i].sn == after.sn;
      assert ws[i + 1] == ws[1..][i];
    }
  }

  /** A segment is counted as skipped when a later one has been acknowledged by itself and is
      not covered by the cumulative acknowledgement. */
  ghost predicate Skipped(snd: Sender, ws: seq<Wire>, sn: int) {
    exists x :: IsNewest(ws, x) && sn < x && snd.una <= x < snd.nxt
  }

  /** `t` is a segment of `buf`, once more skipped or not. */
  ghost predicate CountedFrom(buf: seq<Segment>, t: Segment, skipped: bool) {
    exists i :: 0 <= i < |buf| && t == if skipped then buf[i].(fastack := U32(buf[i].fastack + 1)) else buf[i]
  }

  lemma ConcludeCounts(m: Arith, s: Kcb, ws: seq<Wire>, note: AckNote, prevUna: int, j: nat)
    requires 0 < s.cfg.mss && SndOk(s.snd) && SndInSpan(m, s.snd)
    requires Notes(NoAck, ws, note) && (note.Newest? ==> InSpan(m, note.sn)) && j < |s.snd.buf|
    ensures var t := Conclude(m, s, note, prevUna).snd;
      && |t.buf| == |s.snd.buf| && t.una == s.snd.una && t.nxt == s.snd.nxt && t.queue == s.snd.queue
      && t.buf[j] == if Skipped(s.snd, ws, s.snd.buf[j].sn)
                     then s.snd.buf[j].(fastack := U32(s.snd.buf[j].fastack + 1)) else s.snd.buf[j]
  {
    if note.Newest? {
      assert IsNewest(ws, note.sn);
      DiffInSpan(m, note.sn, s.snd.una);
      DiffInSpan(m, note.sn, s.snd.nxt);
      BumpFastackExact(m, s.snd.buf, note.sn);
      if Skipped(s.snd, ws, s.snd.buf[j].sn) {
        var x :| IsNewest(ws, x) && s.snd.buf[j].sn < x && s.snd.una <= x < s.snd.nxt;
        assert x == note.sn;
      }
    }
  }

  /** What a datagram does to the send buffer: exactly the segments it acknowledges leave, and
      of the others exactly the skipped ones are counted. */
  lemma DeliverAcknowledges(m: Arith, s: Kcb, ws: seq<Wire>, k: int)
    requires 0 < s.cfg.mss && SndOk(s.snd) && SndInSpan(m, s.snd) && UnitsInSpan(m, ws)
    ensures var t := Deliver(m, s, ws).snd;
      && t.nxt == s.snd.nxt && t.queue == s.snd.queue && SndOk(t) && s.snd.una <= t.una
      && (HasSn(t.buf, k) <==> HasSn(s.snd.buf, k) && !AcknowledgedBy(ws, k))
      && forall j :: 0 <= j < |t.buf| ==> CountedFrom(s.snd.buf, t.buf[j], Skipped(t, ws, t.buf[j].sn))
  {
    ProcessAllTakes(m, s, ws, k);
    NoteAllNotes(m, NoAck, ws);
    var mid, note := ProcessAll(m, s, ws), NoteAll(m, NoAck, ws);
    ConcludeKeepsLoad(m, mid, note, s.snd.una, k);
    var t := Conclude(m, mid, note, s.snd.una).snd;
    forall j | 0 <= j < |t.buf| ensures CountedFrom(s.snd.buf, t.buf[j], Skipped(t, ws, t.buf[j].sn)) {
      ConcludeCounts(m, mid, ws, note, s.snd.una, j);
      var i :| 0 <= i < |s.snd.buf| && s.snd.buf[i] == mid.snd.buf[j];
      assert Skipped(t, ws, t.buf[j].sn) <==> Skipped(mid.snd, ws, mid.snd.buf[j].sn);
    }
  }

  lemma ConcludeKeepsLoad(m: Arith, s: Kcb, note: AckNote, prevUna: int, k: int)
    requires 0 < s.cfg.mss && SndOk(s.snd)
    ensures var t := Conclude(m, s, note, prevUna).snd;
      && SndOk(t) && t.nxt == s.snd.nxt && t.una == s.snd.una && t.queue == s.snd.queue && |t.buf| == |s.snd.buf|
      && (HasSn(t.buf, k) <==> HasSn(s.snd.buf, k))
  {
    if note.Newest? {
      BumpFastackLoad(m, s.snd.buf, note.sn);
      SameLoadKeeps(BumpFastack(m, s.snd.buf, note.sn), s.snd.buf);
    }
  }

  // ---------------------------------------------------------------- data

  /** The number lies below the end of the window, and in wrapping arithmetic not 2^31 or more
      below it. */
  predicate BelowEnd(m: Arith, r: Receiver, sn: int) {
    sn < r.nxt + r.wnd && (m.Wrapping? ==> r.nxt + r.wnd - HALF <= sn)
  }

  /** What a data unit does: it is acknowledged if its number is below the end of the window, and
      kept if the number is inside the window and new. */
  lemma DataUnitKept(m: Arith, s: Kcb, w: Wire)
    requires w.cmd == CMD_PUSH && RcvOk(s.rcv) && RcvInSpan(m, s.rcv) && UnitInSpan(m, w)
    ensures var r, t, x := s.rcv, Process(m, s, w).rcv, Arrived(w.sn, w.frag);
      && RcvOk(t) && RcvInSpan(m, t) && Start(t) == Start(r) && t.wnd == r.wnd && r.nxt <= t.nxt
      && t.acks == (if BelowEnd(m, r, w.sn) then r.acks + [Ack(w.sn, w.ts)] else r.acks)
      && forall y :: Holds(t, y) <==>
           Holds(r, y) || (y == x && r.nxt <= w.sn < r.nxt + r.wnd && !BufHas(r.buf, w.sn))
  {
    var r, x := s.rcv, Arrived(w.sn, w.frag);
    var noted := r.(acks := r.acks + [Ack(w.sn, w.ts)]);
    PushIs(m, r, x, w.ts);
    if BelowEnd(m, r, w.sn) {
      SameButAcks(r, noted);
      ParseDataKeeps(m, noted, x);
    }
  }

  lemma PushIs(m: Arith, r: Receiver, x: Arrived, ts: int)
    requires WindowOk(r) && RcvInSpan(m, r) && InSpan(m, x.sn)
    ensures Push(m, r, x, ts)
         == if BelowEnd(m, r, x.sn) then ParseData(m, r.(acks := r.acks + [Ack(x.sn, ts)]), x) else r
  {
    WindowTest(m, r, x.sn);
  }

  lemma SameButAcks(r: Receiver, t: Receiver)
    requires RcvOk(r) && t == r.(acks := t.acks)
    ensures RcvOk(t) && Start(t) == Start(r) && forall y :: Holds(t, y) <==> Holds(r, y)
  {
  }

  lemma OtherUnitKept(m: Arith, s: Kcb, w: Wire)
    requires w.cmd != CMD_PUSH
    ensures Process(m, s, w).rcv == s.rcv
  {
  }

  /** Every data unit of a datagram that is below the end of the window is on the list of those to
      acknowledge, behind what was there before. */
  lemma {:induction false} DataAnswered(m: Arith, s: Kcb, ws: seq<Wire>, i: nat)
    requires RcvOk(s.rcv) && RcvInSpan(m, s.rcv) && UnitsInSpan(m, ws) && i <= |ws|
    requires m.Wrapping? ==> ProcessAll(m, s, ws).rcv.nxt + s.rcv.wnd <= HALF
    ensures var r, t := s.rcv, ProcessAll(m, s, ws).rcv;
      && r.acks <= t.acks && RcvOk(t) && t.wnd == r.wnd && r.nxt <= t.nxt
      && (i < |ws| && ws[i].cmd == CMD_PUSH && ws[i].sn < r.nxt + r.wnd ==> Ack(ws[i].sn, ws[i].ts) in t.acks[|r.acks|..])
    decreases |ws|
  {
    if ws != [] {
      var next := Process(m, s, ws[0]);
      if ws[0].cmd == CMD_PUSH { DataUnitKept(m, s, ws[0]); } else { OtherUnitKept(m, s, ws[0]); }
      DataAnswered(m, next, ws[1..], if i > 0 then i - 1 else 0);
      var t := ProcessAll(m, s, ws).rcv;
      if 0 < i < |ws| { assert ws[1..][i - 1] == ws[i]; }
      LaterAcks(s.rcv.acks, next.rcv.acks, t.acks);
    }
  }

  lemma LaterAcks(a: seq<Ack>, b: seq<Ack>, c: seq<Ack>)
    requires a <= b <= c
    ensures a <= c
    ensures forall x :: x in c[|b|..] || x in b[|a|..] ==> x in c[|a|..]
  {
    assert c[|a|..] == b[|a|..] + c[|b|..];
  }

  lemma ConcludeRcv(m: Arith, s: Kcb, note: AckNote, prevUna: int)
    requires 0 < s.cfg.mss
    ensures Conclude(m, s, note, prevUna).rcv == s.rcv && Conclude(m, s, note, prevUna).clk == s.clk
  {
  }

  /** So the next flush acknowledges every data unit that has arrived below the end of the
      window, also one that is not new. */
  lemma DataIsAcknowledged(m: Arith, s: Kcb, ws: seq<Wire>, i: nat)
    requires 0 < s.cfg.mss && s.clk.updated && RcvOk(s.rcv) && RcvInSpan(m, s.rcv) && UnitsInSpan(m, ws)
    requires i < |ws| && ws[i].cmd == CMD_PUSH && ws[i].sn < s.rcv.nxt + s.rcv.wnd
    requires m.Wrapping? ==> Deliver(m, s, ws).rcv.nxt + s.rcv.wnd <= HALF
    ensures var t := Deliver(m, s, ws);
      exists w :: w in Flush(m, t).wires && w == UnitOf(t, CMD_ACK, Frag(0, []), ws[i].sn, ws[i].ts)
  {
    var mid := ProcessAll(m, s, ws);
    ConcludeRcv(m, mid, NoteAll(m, NoAck, ws), s.snd.una);
    DataAnswered(m, s, ws, i);
    ProcessAllClock(m, s, ws);
    var t := Deliver(m, s, ws);
    var acks, probes := FlushEmits(m, t);
    var a := Ack(ws[i].sn, ws[i].ts);
    assert a in t.rcv.acks;
    var j :| 0 <= j < |t.rcv.acks| && t.rcv.acks[j] == a;
    assert acks[j] in Flush(m, t).wires;
  }

  // ---------------------------------------------------------------- probes and the peer's window

  ghost predicate AsksForWindow(ws: seq<Wire>) {
    exists i :: 0 <= i < |ws| && ws[i].cmd == CMD_WASK
  }

  /** A question for the window is remembered; nothing else on the clock changes. */
  lemma {:induction false} ProcessAllClock(m: Arith, s: Kcb, ws: seq<Wire>)
    ensures ProcessAll(m, s, ws).clk == s.clk.(askTell := s.clk.askTell || AsksForWindow(ws))
    decreases |ws|
  {
    if ws != [] {
      ProcessAllClock(m, Process(m, s, ws[0]), ws[1..]);
      if i :| 0 <= i < |ws| && ws[i].cmd == CMD_WASK {
        if i > 0 { assert ws[1..][i - 1].cmd == CMD_WASK; }
      }
      if i :| 0 <= i < |ws[1..]| && ws[1..][i].cmd == CMD_WASK { assert ws[i + 1].cmd == CMD_WASK; }
      assert ws[0].cmd == CMD_WASK ==> AsksForWindow(ws);
    }
  }

  /** A question for the window is answered by the next flush. */
  lemma QuestionIsAnswered(m: Arith, s: Kcb, ws: seq<Wire>)
    requires 0 < s.cfg.mss && s.clk.updated && AsksForWindow(ws)
    ensures Carries(Flush(m, Deliver(m, s, ws)).wires, CMD_WINS, Deliver(m, s, ws))
  {
    ProcessAllClock(m, s, ws);
    ConcludeRcv(m, ProcessAll(m, s, ws), NoteAll(m, NoAck, ws), s.snd.una);
    ProbeLeaves(m, Deliver(m, s, ws));
  }

  /** A receive that makes room in a full queue is announced by the next flush; others are not. */
  lemma ReopeningIsTold(m: Arith, s: Kcb, len: int)
    ensures var r := RecvCall(m, s, len);
      && r.kcb.clk == s.clk.(askTell := s.clk.askTell
           || (r.code >= 0 && |s.rcv.queue| >= s.rcv.wnd && |r.kcb.rcv.queue| < s.rcv.wnd))
      && (s.clk.updated && r.code >= 0 && |s.rcv.queue| >= s.rcv.wnd && |r.kcb.rcv.queue| < s.rcv.wnd ==>
            Carries(Flush(m, r.kcb).wires, CMD_WINS, r.kcb))
  {
    var r := RecvCall(m, s, len);
    if r.kcb.clk.updated { ProbeLeaves(m, r.kcb); }
  }

  lemma {:induction false} ProcessAllWindow(m: Arith, s: Kcb, ws: seq<Wire>)
    ensures ProcessAll(m, s, ws).cc == if ws == [] then s.cc else s.cc.(rmtWnd := ws[|ws| - 1].wnd)
    decreases |ws|
  {
    if ws != [] { ProcessAllWindow(m, Process(m, s, ws[0]), ws[1..]); }
  }

  /** The window the last unit advertises is taken over, and the congestion window grows exactly
      when the datagram has moved snd_una on. */
  lemma DeliverGrows(m: Arith, s: Kcb, ws: seq<Wire>)
    requires 0 < s.cfg.mss && SndOk(s.snd) && SndInSpan(m, s.snd) && UnitsInSpan(m, ws)
    ensures var t := Deliver(m, s, ws);
      var told := if ws == [] then s.cc else s.cc.(rmtWnd := ws[|ws| - 1].wnd);
      t.cc == if t.snd.una > s.snd.una then Grow(s.cfg.mss, told) else told
  {
    ProcessAllWindow(m, s, ws);
    ProcessAllTakes(m, s, ws, 0);
    var mid := ProcessAll(m, s, ws);
    ConcludeKeepsLoad(m, mid, NoteAll(m, NoAck, ws), s.snd.una, 0);
    DiffInSpan(m, mid.snd.una, s.snd.una);
  }

  // ---------------------------------------------------------------- round trips

  /** The round trips a datagram measures: one for each acknowledgement that is not from the
      future. */
  function Samples(now: int, ws: seq<Wire>): seq<int> {
    if ws == [] then []
    else
      (if ws[0].cmd == CMD_ACK && TimeDiff(now, ws[0].ts) >= 0 then [TimeDiff(now, ws[0].ts)] else [])
      + Samples(now, ws[1..])
  }

  lemma {:induction false} ProcessAllMeasures(m: Arith, s: Kcb, ws: seq<Wire>)
    ensures ProcessAll(m, s, ws).rtt == UpdateAckAll(s.cfg.interval, s.cfg.minrto, s.rtt, Samples(s.clk.current, ws))
    decreases |ws|
  {
    if ws != [] {
      var more, now := Samples(s.clk.current, ws[1..]), s.clk.current;
      ProcessAllMeasures(m, Process(m, s, ws[0]), ws[1..]);
      if ws[0].cmd == CMD_ACK && TimeDiff(now, ws[0].ts) >= 0 {
        assert ([TimeDiff(now, ws[0].ts)] + more)[1..] == more;
      } else {
        assert [] + more == more;
      }
    }
  }

  /** A datagram updates the estimates by its samples, in order, and by nothing else. */
  lemma DeliverMeasures(m: Arith, s: Kcb, ws: seq<Wire>)
    requires 0 < s.cfg.mss
    ensures Deliver(m, s, ws).rtt == UpdateAckAll(s.cfg.interval, s.cfg.minrto, s.rtt, Samples(s.clk.current, ws))
  {
    ProcessAllMeasures(m, s, ws);
  }

  // ---------------------------------------------------------------- malformed datagrams

  /** A datagram of well-formed units and what follows them: fewer than 24 bytes are ignored; a
      malformed unit ends the call with its code, after the units before it have had their
      effect, but without what follows the loop. */
  lemma InputMeans(s: Kcb, ws: seq<Wire>, tail: seq<byte>)
    requires 0 < s.cfg.mss && (forall i :: 0 <= i < |ws| ==> Fits(ws[i], s.cfg.conv))
    requires |tail| >= 24 ==> DecodeAll(s.cfg.conv, tail).wires == [] && DecodeAll(s.cfg.conv, tail).code != 0
    ensures var r := Input(s, EncodeAll(ws) + tail);
      if ws == [] && |tail| < 24 then r == InputResult(s, -1)
      else if |tail| < 24 then r == InputResult(Deliver(Wrapping, s, ws), 0)
      else r == InputResult(ProcessAll(Wrapping, s, ws), DecodeAll(s.cfg.conv, tail).code)
  {
    DecodeUpTo(s.cfg.conv, ws, tail);
    assert ws + [] == ws;
    if ws != [] { EncodeLayout(ws[0], s.cfg.conv); }
  }
}
