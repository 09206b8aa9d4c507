/** The receiving half of the engine: reordering, reassembly and delivery. */
module KcpReceiver {
  import opened Serial
  import opened KcpTypes

  // ---------------------------------------------------------------- arrivals

  /** The backward search of `ikcp_parse_data` with the insertion behind the node it stops
      at; a repeated number changes nothing. */
  function Insert(m: Arith, buf: seq<Arrived>, x: Arrived): seq<Arrived> {
    if buf == [] then [x]
    else
      var last := buf[|buf| - 1];
      if last.sn == x.sn then buf
      else if Diff(m, x.sn, last.sn) > 0 then buf + [x]
      else Insert(m, buf[..|buf| - 1], x) + [last]
  }

  /** The loop that moves available segments from `rcv_buf` to `rcv_queue`. */
  function Drain(m: Arith, r: Receiver): Receiver
    decreases |r.buf|
  {
    if r.buf != [] && r.buf[0].sn == r.nxt && |r.queue| < r.wnd then
      Drain(m, r.(nxt := Num(m, r.nxt + 1), queue := r.queue + [r.buf[0]], buf := r.buf[1..]))
    else r
  }

  /** `ikcp_parse_data`. */
  function ParseData(m: Arith, r: Receiver, x: Arrived): Receiver {
    if Diff(m, x.sn, Num(m, r.nxt + r.wnd)) >= 0 || Diff(m, x.sn, r.nxt) < 0 then r
    else Drain(m, r.(buf := Insert(m, r.buf, x)))
  }

  /** The PUSH branch of `ikcp_input`: acknowledge anything below the window's end, keep
      what is inside the window. */
  function Push(m: Arith, r: Receiver, x: Arrived, ts: int): Receiver {
    if Diff(m, x.sn, Num(m, r.nxt + r.wnd)) < 0 then
      var r' := r.(acks := r.acks + [Ack(x.sn, ts)]);
      if Diff(m, x.sn, r.nxt) >= 0 then ParseData(m, r', x) else r'
    else r
  }

  // ---------------------------------------------------------------- delivery

  /** How many segments the merging loop of `ikcp_recv` consumes. */
  function MessageSpan(queue: seq<Arrived>): (n: nat)
    ensures n <= |queue|
    ensures queue != [] ==> 0 < n
  {
    if queue == [] then 0
    else if queue[0].frag.frg == 0 then 1
    else 1 + MessageSpan(queue[1..])
  }

  function Payload(queue: seq<Arrived>): seq<byte> {
    if queue == [] then [] else queue[0].frag.data + Payload(queue[1..])
  }

  /** `ikcp_peeksize`. */
  function PeekSize(queue: seq<Arrived>): int {
    if queue == [] then -1
    else if queue[0].frag.frg == 0 then |queue[0].frag.data|
    else if |queue| < queue[0].frag.frg + 1 then -1
    else |Payload(queue[..MessageSpan(queue)])|
  }

  /** Result of `ikcp_recv`: the return code, the bytes copied out, the receiver after the
      call and whether IKCP_ASK_TELL is to be raised. */
  datatype RecvResult = RecvResult(code: int, message: seq<byte>, rcv: Receiver, tell: bool)

  /** `ikcp_recv`; a negative `len` peeks. */
  function Recv(m: Arith, r: Receiver, len: int): RecvResult {
    var size := PeekSize(r.queue);
    if r.queue == [] then RecvResult(-1, [], r, false)
    else if size < 0 then RecvResult(-2, [], r, false)
    else if size > (if len < 0 then -len else len) then RecvResult(-3, [], r, false)
    else
      var n := MessageSpan(r.queue);
      var message := Payload(r.queue[..n]);
      var r' := Drain(m, if len < 0 then r else r.(queue := r.queue[n..]));
      RecvResult(|message|, message, r', |r.queue| >= r.wnd && |r'.queue| < r.wnd)
  }

  // ---------------------------------------------------------------- the receiver invariant

  ghost predicate Rising(buf: seq<Arrived>) {
    forall i, j :: 0 <= i < j < |buf| ==> buf[i].sn < buf[j].sn
  }

  /** rcv_queue is a run of numbers ending at rcv_nxt - 1, rcv_buf is strictly ascending
      inside the window. */
  ghost predicate WindowOk(r: Receiver) {
    && 0 < r.wnd
    && |r.queue| <= r.nxt
    && |r.queue| <= r.wnd
    && (forall i :: 0 <= i < |r.queue| ==> r.queue[i].sn == r.nxt - |r.queue| + i)
    && Rising(r.buf)
    && (forall i :: 0 <= i < |r.buf| ==> r.nxt <= r.buf[i].sn < r.nxt + r.wnd)
  }

  /** Nothing that could move is left behind. */
  ghost predicate Drained(r: Receiver) {
    r.buf != [] && r.buf[0].sn == r.nxt ==> |r.queue| == r.wnd
  }

  ghost predicate RcvOk(r: Receiver) {
    WindowOk(r) && Drained(r)
  }

  ghost predicate RcvInSpan(m: Arith, r: Receiver) {
    && r.wnd < HALF
    && InSpan(m, r.nxt)
    && forall i :: 0 <= i < |r.buf| ==> InSpan(m, r.buf[i].sn) && InSpan(m, r.buf[i].sn + 1)
  }

  /** First number not yet handed to the application. */
  function Start(r: Receiver): int {
    r.nxt - |r.queue|
  }

  ghost predicate Holds(r: Receiver, x: Arrived) {
    x in r.queue || x in r.buf
  }

  ghost predicate BufHas(buf: seq<Arrived>, k: int) {
    exists i :: 0 <= i < |buf| && buf[i].sn == k
  }

  /** `k` has been received: delivered, queued or buffered. */
  ghost predicate Received(r: Receiver, k: int) {
    0 <= k < r.nxt || BufHas(r.buf, k)
  }

  lemma {:induction false} InsertMembers(m: Arith, buf: seq<Arrived>, x: Arrived)
    requires Rising(buf)
    requires InSpan(m, x.sn) && forall i :: 0 <= i < |buf| ==> InSpan(m, buf[i].sn)
    ensures var out := Insert(m, buf, x);
      && Rising(out)
      && (forall y :: y in out <==> y in buf || (y == x && !BufHas(buf, x.sn)))
  {
    if buf != [] {
      var last := buf[|buf| - 1];
      var init := buf[..|buf| - 1];
      assert buf == init + [last];
      DiffInSpan(m, x.sn, last.sn);
      if last.sn == x.sn {
        assert BufHas(buf, x.sn);
      } else if x.sn > last.sn {
        assert !BufHas(buf, x.sn);
      } else {
        InsertMembers(m, init, x);
        assert BufHas(buf, x.sn) <==> BufHas(init, x.sn) by {
          if BufHas(buf, x.sn) {
            var i :| 0 <= i < |buf| && buf[i].sn == x.sn;
            assert init[i].sn == x.sn;
          }
          if BufHas(init, x.sn) {
            var i :| 0 <= i < |init| && init[i].sn == x.sn;
            assert buf[i].sn == x.sn;
          }
        }
        InsertRising(Insert(m, init, x), last);
      }
    }
  }

  lemma InsertRising(buf: seq<Arrived>, last: Arrived)
    requires Rising(buf)
    requires forall y :: y in buf ==> y.sn < last.sn
    ensures Rising(buf + [last])
  {
  }

  lemma DrainStep(m: Arith, r: Receiver) returns (t: Receiver)
    requires WindowOk(r) && RcvInSpan(m, r)
    requires r.buf != [] && r.buf[0].sn == r.nxt && |r.queue| < r.wnd
    ensures t == r.(nxt := Num(m, r.nxt + 1), queue := r.queue + [r.buf[0]], buf := r.buf[1..])
    ensures WindowOk(t) && RcvInSpan(m, t)
    ensures t.nxt == r.nxt + 1
    ensures forall y :: Holds(t, y) <==> Holds(r, y)
  {
    t := r.(nxt := r.nxt + 1, queue := r.queue + [r.buf[0]], buf := r.buf[1..]);
    assert Num(m, r.nxt + 1) == r.nxt + 1;
    forall i | 0 <= i < |t.buf| ensures t.buf[i] == r.buf[i + 1] { }
    forall y ensures Holds(t, y) <==> Holds(r, y) {
      assert r.buf == [r.buf[0]] + r.buf[1..];
    }
  }

  /** Draining keeps what is held and where delivery starts, and ends drained. */
  lemma {:induction false} DrainKeeps(m: Arith, r: Receiver)
    requires WindowOk(r) && RcvInSpan(m, r)
    ensures var t := Drain(m, r);
      && RcvOk(t) && RcvInSpan(m, t)
      && Start(t) == Start(r) && t.wnd == r.wnd && t.acks == r.acks && r.nxt <= t.nxt
      && (forall y :: Holds(t, y) <==> Holds(r, y))
    decreases |r.buf|
  {
    if r.buf != [] && r.buf[0].sn == r.nxt && |r.queue| < r.wnd {
      var t := DrainStep(m, r);
      DrainKeeps(m, t);
      assert Drain(m, r) == Drain(m, t);
    } else {
      assert Drain(m, r) == r;
    }
  }

  /** What the receiver does with an arrival it may look at. */
  ghost predicate InWindow(r: Receiver, sn: int) {
    r.nxt <= sn < r.nxt + r.wnd
  }

  lemma WindowTest(m: Arith, r: Receiver, sn: int)
    requires 0 < r.wnd && r.wnd < HALF && InSpan(m, r.nxt) && InSpan(m, sn)
    ensures Diff(m, sn, r.nxt) == sn - r.nxt
    ensures Diff(m, sn, Num(m, r.nxt + r.wnd)) < 0 ==> sn < r.nxt + r.wnd
    ensures InWindow(r, sn) ==> Diff(m, sn, Num(m, r.nxt + r.wnd)) < 0
  {
  }

  /** Any two segments with one number carry the same content. */
  ghost predicate Agree(r: Receiver, content: int -> Frag) {
    forall y :: Holds(r, y) ==> y.frag == content(y.sn)
  }

  /** An arrival in the window is held afterwards and nothing else changes hands; any other
      arrival is ignored. */
  lemma ParseDataKeeps(m: Arith, r: Receiver, x: Arrived)
    requires RcvOk(r) && RcvInSpan(m, r) && InSpan(m, x.sn) && InSpan(m, x.sn + 1)
    ensures var t := ParseData(m, r, x);
      && RcvOk(t) && RcvInSpan(m, t)
      && Start(t) == Start(r) && t.wnd == r.wnd && t.acks == r.acks && r.nxt <= t.nxt
      && (!InWindow(r, x.sn) ==> t == r)
      && (forall y :: Holds(t, y) <==> Holds(r, y) || (y == x && InWindow(r, x.sn) && !BufHas(r.buf, x.sn)))
  {
    WindowTest(m, r, x.sn);
    if InWindow(r, x.sn) {
      var r' := r.(buf := Insert(m, r.buf, x));
      InsertKeeps(m, r, x);
      DrainKeeps(m, r');
      assert ParseData(m, r, x) == Drain(m, r');
    } else {
      assert ParseData(m, r, x) == r;
    }
  }

  lemma InsertKeeps(m: Arith, r: Receiver, x: Arrived)
    requires RcvOk(r) && RcvInSpan(m, r) && InSpan(m, x.sn) && InSpan(m, x.sn + 1) && InWindow(r, x.sn)
    ensures var r' := r.(buf := Insert(m, r.buf, x));
      && WindowOk(r') && RcvInSpan(m, r')
      && Start(r') == Start(r) && r'.nxt == r.nxt && r'.wnd == r.wnd && r'.acks == r.acks
      && (forall y :: Holds(r', y) <==> Holds(r, y) || (y == x && !BufHas(r.buf, x.sn)))
  {
    InsertMembers(m, r.buf, x);
    var r' := r.(buf := Insert(m, r.buf, x));
    forall i | 0 <= i < |r'.buf|
      ensures r.nxt <= r'.buf[i].sn < r.nxt + r.wnd && InSpan(m, r'.buf[i].sn) && InSpan(m, r'.buf[i].sn + 1)
    {
      assert r'.buf[i] in r'.buf;
    }
  }

  // ---------------------------------------------------------------- confluence

  lemma TailMembers(a: seq<Arrived>, b: seq<Arrived>)
    requires Rising(a) && a != [] && b != [] && a[0] == b[0]
    requires forall y :: y in a ==> y in b
    ensures forall y :: y in a[1..] ==> y in b[1..]
  {
    forall y | y in a[1..] ensures y in b[1..] {
      var i :| 0 <= i < |a| - 1 && a[1..][i] == y;
      assert a[i + 1] == y && a[0].sn < y.sn;
      assert y in a;
      var j :| 0 <= j < |b| && b[j] == y;
      assert b[1..][j - 1] == y;
    }
  }

  lemma MembersNonempty(a: seq<Arrived>, b: seq<Arrived>)
    requires a != [] && forall y :: y in a ==> y in b
    ensures b != []
  {
    assert a[0] in a;
  }

  lemma {:induction false} RisingAreEqual(a: seq<Arrived>, b: seq<Arrived>)
    requires Rising(a) && Rising(b)
    requires forall y :: y in a <==> y in b
    ensures a == b
  {
    if a != [] { MembersNonempty(a, b); }
    if b != [] { MembersNonempty(b, a); }
    if a == [] || b == [] {
    } else {
      assert a[0] in b && b[0] in a;
      assert a[0] == b[0];
      TailMembers(a, b);
      TailMembers(b, a);
      RisingAreEqual(a[1..], b[1..]);
    }
  }

  /** With one delivery start and one set of held segments there is only one receiver. */
  lemma HeldDeterminesReceiver(r: Receiver, t: Receiver)
    requires RcvOk(r) && RcvOk(t)
    requires Start(r) == Start(t) && r.wnd == t.wnd && r.acks == t.acks
    requires forall y :: Holds(r, y) <==> Holds(t, y)
    ensures r == t
  {
    QueueNotShorter(r, t);
    QueueNotShorter(t, r);
    forall i | 0 <= i < |r.queue| ensures r.queue[i] == t.queue[i] {
      assert Holds(r, r.queue[i]);
    }
    forall y ensures y in r.buf <==> y in t.buf {
      assert Holds(r, y) <==> Holds(t, y);
    }
    RisingAreEqual(r.buf, t.buf);
  }

  lemma QueueNotShorter(r: Receiver, t: Receiver)
    requires RcvOk(r) && RcvOk(t)
    requires Start(r) == Start(t) && r.wnd == t.wnd
    requires forall y :: Holds(r, y) <==> Holds(t, y)
    ensures |t.queue| <= |r.queue|
  {
    if |r.queue| < |t.queue| {
      assert Holds(t, t.queue[|r.queue|]);
      assert false;
    }
  }

  /** Arrivals in the given order. */
  function ArriveAll(m: Arith, r: Receiver, xs: seq<Arrived>): Receiver
    decreases |xs|
  {
    if xs == [] then r else ArriveAll(m, ParseData(m, r, xs[0]), xs[1..])
  }

  ghost predicate Admissible(m: Arith, r: Receiver, xs: seq<Arrived>, content: int -> Frag) {
    forall i :: 0 <= i < |xs| ==>
      && xs[i].frag == content(xs[i].sn)
      && InSpan(m, xs[i].sn) && InSpan(m, xs[i].sn + 1)
      && InWindow(r, xs[i].sn)
  }

  lemma ArrivalHeld(m: Arith, r: Receiver, x: Arrived, content: int -> Frag)
    requires RcvOk(r) && RcvInSpan(m, r) && Agree(r, content)
    requires x.frag == content(x.sn) && InSpan(m, x.sn) && InSpan(m, x.sn + 1)
    requires Start(r) <= x.sn < r.nxt + r.wnd
    ensures var t := ParseData(m, r, x);
      && RcvOk(t) && RcvInSpan(m, t) && Agree(t, content)
      && Start(t) == Start(r) && t.wnd == r.wnd && t.acks == r.acks && r.nxt <= t.nxt
      && forall y :: Holds(t, y) <==> Holds(r, y) || y == x
  {
    ParseDataKeeps(m, r, x);
    if !InWindow(r, x.sn) {
      var q := r.queue[x.sn - Start(r)];
      assert q.sn == x.sn && Holds(r, q);
      assert q == x;
    } else if BufHas(r.buf, x.sn) {
      var i :| 0 <= i < |r.buf| && r.buf[i].sn == x.sn;
      assert Holds(r, r.buf[i]);
      assert r.buf[i] == x;
    }
  }

  /** The held set after any arrivals is the old one with the arrivals added. */
  lemma {:induction false} ArriveAllHolds(m: Arith, r: Receiver, low: int, xs: seq<Arrived>, content: int -> Frag)
    requires RcvOk(r) && RcvInSpan(m, r) && Agree(r, content)
    requires Start(r) <= low <= r.nxt
    requires forall i :: 0 <= i < |xs| ==>
      && xs[i].frag == content(xs[i].sn) && InSpan(m, xs[i].sn) && InSpan(m, xs[i].sn + 1)
      && low <= xs[i].sn < low + r.wnd
    ensures var t := ArriveAll(m, r, xs);
      && RcvOk(t) && Start(t) == Start(r) && t.wnd == r.wnd && t.acks == r.acks
      && forall y :: Holds(t, y) <==> Holds(r, y) || y in xs
    decreases |xs|
  {
    if xs != [] {
      var x := xs[0];
      ArrivalHeld(m, r, x, content);
      ArriveAllHolds(m, ParseData(m, r, x), low, xs[1..], content);
      assert xs == [x] + xs[1..];
    }
  }

  /** Arrival order and repetition do not matter: two sequences with the same in-window
      segments leave the same rcv_nxt, rcv_queue and rcv_buf. */
  lemma ArrivalOrderIrrelevant(m: Arith, r: Receiver, xs: seq<Arrived>, ys: seq<Arrived>, content: int -> Frag)
    requires RcvOk(r) && RcvInSpan(m, r) && Agree(r, content)
    requires Admissible(m, r, xs, content) && Admissible(m, r, ys, content)
    requires forall y :: y in xs <==> y in ys
    ensures ArriveAll(m, r, xs) == ArriveAll(m, r, ys)
  {
    ArriveAllHolds(m, r, r.nxt, xs, content);
    ArriveAllHolds(m, r, r.nxt, ys, content);
    HeldDeterminesReceiver(ArriveAll(m, r, xs), ArriveAll(m, r, ys));
  }
}
