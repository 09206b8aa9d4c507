/** The sending half of the engine: fragmentation, acknowledgement and the move from
    `snd_queue` to `snd_buf`. */
module KcpSender {
  import opened Serial
  import opened KcpTypes

  // ---------------------------------------------------------------- acknowledgement

  /** `ikcp_shrink_buf`. */
  function ShrinkBuf(s: Sender): Sender {
    s.(una := if s.buf != [] then s.buf[0].sn else s.nxt)
  }

  /** The loop of `ikcp_parse_una`. */
  function DropUna(m: Arith, buf: seq<Segment>, una: int): seq<Segment> {
    if buf != [] && Diff(m, una, buf[0].sn) > 0 then DropUna(m, buf[1..], una) else buf
  }

  /** The loop of `ikcp_parse_ack`. */
  function DropSn(m: Arith, buf: seq<Segment>, sn: int): seq<Segment> {
    if buf == [] then []
    else if sn == buf[0].sn then buf[1..]
    else if Diff(m, sn, buf[0].sn) < 0 then buf
    else [buf[0]] + DropSn(m, buf[1..], sn)
  }

  predicate OutsideFlight(m: Arith, s: Sender, sn: int) {
    Diff(m, sn, s.una) < 0 || Diff(m, sn, s.nxt) >= 0
  }

  function ParseUna(m: Arith, s: Sender, una: int): Sender {
    s.(buf := DropUna(m, s.buf, una))
  }

  function ParseAck(m: Arith, s: Sender, sn: int): Sender {
    if OutsideFlight(m, s, sn) then s else s.(buf := DropSn(m, s.buf, sn))
  }

  /** The loop of `ikcp_parse_fastack`. */
  function BumpFastack(m: Arith, buf: seq<Segment>, sn: int): seq<Segment> {
    if buf == [] then []
    else if Diff(m, sn, buf[0].sn) < 0 then buf
    else
      var head := if sn != buf[0].sn then buf[0].(fastack := U32(buf[0].fastack + 1)) else buf[0];
      [head] + BumpFastack(m, buf[1..], sn)
  }

  function ParseFastack(m: Arith, s: Sender, sn: int): Sender {
    if OutsideFlight(m, s, sn) then s else s.(buf := BumpFastack(m, s.buf, sn))
  }

  // ---------------------------------------------------------------- the buffer invariant

  ghost predicate Ascending(buf: seq<Segment>) {
    forall i, j :: 0 <= i < j < |buf| ==> buf[i].sn < buf[j].sn
  }

  ghost predicate HasSn(buf: seq<Segment>, k: int) {
    exists i :: 0 <= i < |buf| && buf[i].sn == k
  }

  /** Between calls `snd_buf` is strictly ascending inside [snd_una, snd_nxt) and starts
      at snd_una; it is empty only when nothing is in flight. */
  ghost predicate SndOk(s: Sender) {
    && FlightOk(s)
    && (if s.buf == [] then s.una == s.nxt else s.una == s.buf[0].sn)
  }

  /** The part that also holds between removing segments and `ikcp_shrink_buf`. */
  ghost predicate FlightOk(s: Sender) {
    && 0 <= s.una <= s.nxt
    && Ascending(s.buf)
    && (forall i :: 0 <= i < |s.buf| ==> s.una <= s.buf[i].sn < s.nxt)
  }

  ghost predicate SndInSpan(m: Arith, s: Sender) {
    InSpan(m, s.una) && InSpan(m, s.nxt)
  }

  /** The reference for both removals: the segments whose number satisfies `p`. */
  ghost function Keep(p: int -> bool, buf: seq<Segment>): seq<Segment> {
    if buf == [] then []
    else (if p(buf[0].sn) then [buf[0]] else []) + Keep(p, buf[1..])
  }

  ghost function From(una: int): int -> bool { k => una <= k }

  ghost function OtherThan(sn: int): int -> bool { k => k != sn }

  lemma {:induction false} KeepAll(p: int -> bool, buf: seq<Segment>)
    requires forall i :: 0 <= i < |buf| ==> p(buf[i].sn)
    ensures Keep(p, buf) == buf
  {
    if buf != [] { KeepAll(p, buf[1..]); }
  }

  lemma HasSnStep(buf: seq<Segment>, k: int)
    requires buf != []
    ensures HasSn(buf, k) <==> buf[0].sn == k || HasSn(buf[1..], k)
  {
    if HasSn(buf, k) {
      var i :| 0 <= i < |buf| && buf[i].sn == k;
      if i > 0 { assert buf[1..][i - 1].sn == k; }
    }
    if HasSn(buf[1..], k) {
      var i :| 0 <= i < |buf[1..]| && buf[1..][i].sn == k;
      assert buf[i + 1].sn == k;
    }
  }

  lemma {:induction false} KeepMembers(p: int -> bool, buf: seq<Segment>, k: int)
    ensures HasSn(Keep(p, buf), k) <==> HasSn(buf, k) && p(k)
  {
    if buf != [] {
      KeepMembers(p, buf[1..], k);
      HasSnStep(buf, k);
      if p(buf[0].sn) {
        HasSnStep(Keep(p, buf), k);
        assert Keep(p, buf)[1..] == Keep(p, buf[1..]);
      } else {
        assert Keep(p, buf) == Keep(p, buf[1..]);
      }
    }
  }

  lemma {:induction false} KeepSub(p: int -> bool, buf: seq<Segment>)
    requires Ascending(buf)
    ensures IsSubBuffer(Keep(p, buf), buf)
  {
    if buf != [] {
      KeepSub(p, buf[1..]);
      var tail := Keep(p, buf[1..]);
      forall i | 0 <= i < |tail| ensures buf[0].sn < tail[i].sn && tail[i] in buf {
        assert tail[i] in buf[1..];
      }
    }
  }

  /** What any removal leaves: an ascending selection of the old segments. */
  ghost predicate IsSubBuffer(kept: seq<Segment>, buf: seq<Segment>) {
    && Ascending(kept)
    && forall i :: 0 <= i < |kept| ==> kept[i] in buf
  }

  /** `ikcp_parse_una` stops at the first survivor and still removes exactly all segments
      below `una`. */
  lemma {:induction false} DropUnaExact(m: Arith, buf: seq<Segment>, una: int)
    requires Ascending(buf)
    requires InSpan(m, una) && forall i :: 0 <= i < |buf| ==> InSpan(m, buf[i].sn)
    ensures DropUna(m, buf, una) == Keep(From(una), buf)
  {
    if buf != [] {
      DiffInSpan(m, una, buf[0].sn);
      if una > buf[0].sn {
        DropUnaExact(m, buf[1..], una);
      } else {
        KeepAll(From(una), buf);
      }
    }
  }

  /** `ikcp_parse_ack` may leave its loop early and still removes exactly the segment
      numbered `sn`. */
  lemma {:induction false} DropSnExact(m: Arith, buf: seq<Segment>, sn: int)
    requires Ascending(buf)
    requires InSpan(m, sn) && forall i :: 0 <= i < |buf| ==> InSpan(m, buf[i].sn)
    ensures DropSn(m, buf, sn) == Keep(OtherThan(sn), buf)
  {
    if buf != [] {
      DiffInSpan(m, sn, buf[0].sn);
      if sn == buf[0].sn {
        KeepAll(OtherThan(sn), buf[1..]);
      } else if sn < buf[0].sn {
        KeepAll(OtherThan(sn), buf);
      } else {
        DropSnExact(m, buf[1..], sn);
      }
    }
  }

  /** Acknowledging cumulatively: the flight left is exactly the part at or above `una`,
      and snd_una never goes back. */
  lemma ParseUnaKeeps(m: Arith, s: Sender, una: int)
    requires FlightOk(s) && SndInSpan(m, s) && InSpan(m, una)
    ensures var t := ShrinkBuf(ParseUna(m, s, una));
      && SndOk(t) && s.una <= t.una && t.nxt == s.nxt && t.queue == s.queue
      && IsSubBuffer(t.buf, s.buf)
      && forall k :: HasSn(t.buf, k) <==> HasSn(s.buf, k) && una <= k
  {
    DropUnaExact(m, s.buf, una);
    KeepSub(From(una), s.buf);
    forall k ensures HasSn(Keep(From(una), s.buf), k) <==> HasSn(s.buf, k) && una <= k {
      KeepMembers(From(una), s.buf, k);
    }
  }

  /** Acknowledging one segment removes that one only. */
  lemma ParseAckKeeps(m: Arith, s: Sender, sn: int)
    requires FlightOk(s) && SndInSpan(m, s) && InSpan(m, sn)
    ensures var t := ShrinkBuf(ParseAck(m, s, sn));
      && SndOk(t) && s.una <= t.una && t.nxt == s.nxt && t.queue == s.queue
      && IsSubBuffer(t.buf, s.buf)
      && forall k :: HasSn(t.buf, k) <==> HasSn(s.buf, k) && k != sn
  {
    DiffInSpan(m, sn, s.una);
    DiffInSpan(m, sn, s.nxt);
    if !OutsideFlight(m, s, sn) {
      DropSnExact(m, s.buf, sn);
      OneRemoved(s.buf, sn);
    }
  }

  lemma OneRemoved(buf: seq<Segment>, sn: int)
    requires Ascending(buf)
    ensures var kept := Keep(OtherThan(sn), buf);
      && Ascending(kept) && IsSubBuffer(kept, buf)
      && forall k :: HasSn(kept, k) <==> HasSn(buf, k) && k != sn
  {
    KeepSub(OtherThan(sn), buf);
    forall k ensures HasSn(Keep(OtherThan(sn), buf), k) <==> HasSn(buf, k) && k != sn {
      KeepMembers(OtherThan(sn), buf, k);
    }
  }

  // ---------------------------------------------------------------- fast acknowledgement

  /** Two buffers that differ at most in their retransmission bookkeeping. */
  ghost predicate SameLoad(a: seq<Segment>, b: seq<Segment>) {
    && |a| == |b|
    && forall i :: 0 <= i < |a| ==> a[i].sn == b[i].sn && a[i].frag == b[i].frag
  }

  lemma {:induction false} BumpFastackExact(m: Arith, buf: seq<Segment>, sn: int)
    requires Ascending(buf)
    requires InSpan(m, sn) && forall i :: 0 <= i < |buf| ==> InSpan(m, buf[i].sn)
    ensures var out := BumpFastack(m, buf, sn);
      && |out| == |buf|
      && forall i :: 0 <= i < |buf| ==>
           out[i] == if buf[i].sn < sn then buf[i].(fastack := U32(buf[i].fastack + 1)) else buf[i]
  {
    if buf != [] {
      DiffInSpan(m, sn, buf[0].sn);
      if Diff(m, sn, buf[0].sn) >= 0 {
        BumpFastackExact(m, buf[1..], sn);
        var out := BumpFastack(m, buf, sn);
        forall i | 0 <= i < |buf|
          ensures out[i] == if buf[i].sn < sn then buf[i].(fastack := U32(buf[i].fastack + 1)) else buf[i]
        {
          if i > 0 { assert buf[i] == buf[1..][i - 1]; }
        }
      }
    }
  }

  lemma {:induction false} BumpFastackLoad(m: Arith, buf: seq<Segment>, sn: int)
    ensures SameLoad(BumpFastack(m, buf, sn), buf)
  {
    if buf != [] && Diff(m, sn, buf[0].sn) >= 0 {
      BumpFastackLoad(m, buf[1..], sn);
    }
  }

  lemma SameLoadKeeps(a: seq<Segment>, b: seq<Segment>)
    requires SameLoad(a, b)
    ensures Ascending(b) ==> Ascending(a)
    ensures forall k :: HasSn(a, k) <==> HasSn(b, k)
  {
    forall k ensures HasSn(a, k) <==> HasSn(b, k) {
      if HasSn(a, k) { var i :| 0 <= i < |a| && a[i].sn == k; assert b[i].sn == k; }
      if HasSn(b, k) { var i :| 0 <= i < |b| && b[i].sn == k; assert a[i].sn == k; }
    }
  }

  // ---------------------------------------------------------------- numbering

  /** The loop of `ikcp_flush` that numbers queued segments while the window admits them. */
  function MoveQueue(m: Arith, s: Sender, cwnd: int, now: int, rto: int): Sender
    decreases |s.queue|
  {
    if Diff(m, s.nxt, Num(m, s.una + cwnd)) < 0 && s.queue != [] then
      MoveQueue(m,
        Sender(s.una, Num(m, s.nxt + 1), s.queue[1..], s.buf + [Segment(s.nxt, s.queue[0], now, rto, 0, 0)]),
        cwnd, now, rto)
    else s
  }

  /** Numbering appends the first `n` queued segments, with consecutive numbers. */
  ghost predicate IsNumbered(s: Sender, t: Sender, n: nat) {
    && n <= |s.queue| && t.una == s.una && t.nxt == s.nxt + n && t.queue == s.queue[n..]
    && |t.buf| == |s.buf| + n
    && (forall j :: 0 <= j < |s.buf| ==> t.buf[j] == s.buf[j])
    && forall j :: |s.buf| <= j < |t.buf| ==>
         t.buf[j].sn == s.nxt + (j - |s.buf|) && t.buf[j].frag == s.queue[j - |s.buf|]
  }

  /** The loop's test. */
  lemma WindowAdmits(m: Arith, s: Sender, cwnd: int)
    requires SndInSpan(m, s) && s.una <= s.nxt && 0 <= cwnd
    requires m.Wrapping? ==> s.nxt + |s.queue| < HALF && cwnd < HALF
    ensures Diff(m, s.nxt, Num(m, s.una + cwnd)) < 0 <==> s.nxt < s.una + cwnd
    ensures s.queue != [] ==> Num(m, s.nxt + 1) == s.nxt + 1
  {
    assert m.Wrapping? ==> Diff(m, s.nxt, Num(m, s.una + cwnd)) == s.nxt - (s.una + cwnd);
  }

  /** What the whole loop does: `n` is as large as the queue and the window allow. */
  lemma {:induction false} MoveQueueExact(m: Arith, s: Sender, cwnd: int, now: int, rto: int)
    returns (n: nat)
    requires SndInSpan(m, s) && s.una <= s.nxt && 0 <= cwnd
    requires m.Wrapping? ==> s.nxt + |s.queue| < HALF && cwnd < HALF
    ensures IsNumbered(s, MoveQueue(m, s, cwnd, now, rto), n)
    ensures n == Min(|s.queue|, Max(0, s.una + cwnd - s.nxt))
    decreases |s.queue|
  {
    WindowAdmits(m, s, cwnd);
    if s.nxt < s.una + cwnd && s.queue != [] {
      var s' := Sender(s.una, s.nxt + 1, s.queue[1..], s.buf + [Segment(s.nxt, s.queue[0], now, rto, 0, 0)]);
      var n' := MoveQueueExact(m, s', cwnd, now, rto);
      NumberedFromNext(s, s', MoveQueue(m, s', cwnd, now, rto), n', now, rto);
      n := n' + 1;
    } else {
      n := 0;
    }
  }

  /** The first queued segment, then `n` more. */
  lemma NumberedFromNext(s: Sender, s': Sender, t: Sender, n: nat, now: int, rto: int)
    requires s.queue != []
    requires s' == Sender(s.una, s.nxt + 1, s.queue[1..], s.buf + [Segment(s.nxt, s.queue[0], now, rto, 0, 0)])
    requires IsNumbered(s', t, n)
    ensures IsNumbered(s, t, n + 1)
  {
    assert forall j :: 0 <= j < |s.buf| ==> t.buf[j] == s'.buf[j];
    assert t.buf[|s.buf|] == s'.buf[|s.buf|];
    assert forall j :: 0 <= j < |s'.queue| ==> s'.queue[j] == s.queue[j + 1];
  }

  lemma NumberedKeeps(s: Sender, t: Sender, n: nat)
    requires SndOk(s) && IsNumbered(s, t, n)
    ensures SndOk(t)
    ensures forall k :: HasSn(t.buf, k) <==> HasSn(s.buf, k) || s.nxt <= k < t.nxt
  {
    forall k ensures HasSn(t.buf, k) <==> HasSn(s.buf, k) || s.nxt <= k < t.nxt {
      if HasSn(s.buf, k) { var i :| 0 <= i < |s.buf| && s.buf[i].sn == k; assert t.buf[i].sn == k; }
      if s.nxt <= k < t.nxt { assert t.buf[|s.buf| + (k - s.nxt)].sn == k; }
      if HasSn(t.buf, k) {
        var i :| 0 <= i < |t.buf| && t.buf[i].sn == k;
        if i < |s.buf| { assert s.buf[i].sn == k; }
      }
    }
  }
}
