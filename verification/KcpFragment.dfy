/** `ikcp_send`: how a payload becomes queued segments. */
module KcpFragment {
  import opened KcpTypes
  import opened Sequences
  import opened Products

  const SEND_OK := 0
  const SEND_TOO_LONG := -2

  datatype SendResult = SendResult(queue: seq<Frag>, code: int)

  /** Number of segments for `len` bytes; never zero. */
  function FragmentCount(len: nat, mss: int): int
    requires 0 < mss
  {
    if len <= mss then 1 else Quotient(len + mss - 1, mss)
  }

  /** The fragmenting loop: `n` segments, counting down to 0 unless streaming. */
  function Cut(mss: int, stream: bool, payload: seq<byte>, n: nat): seq<Frag>
    requires 0 < mss
  {
    if n == 0 then []
    else
      var size := Min(mss, |payload|);
      [Frag(if stream then 0 else n - 1, payload[..size])] + Cut(mss, stream, payload[size..], n - 1)
  }

  /** How many bytes streaming mode can add to the last queued segment. */
  function Extension(mss: int, stream: bool, queue: seq<Frag>, payload: seq<byte>): nat
    requires 0 < mss
    ensures Extension(mss, stream, queue, payload) <= |payload|
  {
    if stream && queue != [] && |queue[|queue| - 1].data| < mss
    then Min(|payload|, mss - |queue[|queue| - 1].data|)
    else 0
  }

  /** The queue after streaming mode has rewritten its last segment. */
  function Extended(mss: int, stream: bool, queue: seq<Frag>, payload: seq<byte>): seq<Frag>
    requires 0 < mss
  {
    if stream && queue != [] && |queue[|queue| - 1].data| < mss
    then
      var last := queue[|queue| - 1];
      queue[..|queue| - 1] + [Frag(0, last.data + payload[..Extension(mss, stream, queue, payload)])]
    else queue
  }

  /** `ikcp_send` for a non-negative length. */
  function Send(mss: int, stream: bool, queue: seq<Frag>, payload: seq<byte>): SendResult
    requires 0 < mss
  {
    var base := Extended(mss, stream, queue, payload);
    var rest := payload[Extension(mss, stream, queue, payload)..];
    var count := FragmentCount(|rest|, mss);
    if stream && |rest| == 0 then SendResult(base, SEND_OK)
    else if count >= WND_RCV then SendResult(base, SEND_TOO_LONG)
    else SendResult(base + Cut(mss, stream, rest, count), SEND_OK)
  }

  // ---------------------------------------------------------------- what it means

  /** The bytes a list of segments carries. */
  function Join(fs: seq<Frag>): seq<byte> {
    if fs == [] then [] else fs[0].data + Join(fs[1..])
  }

  lemma {:induction false} JoinAppend(a: seq<Frag>, b: seq<Frag>)
    ensures Join(a + b) == Join(a) + Join(b)
  {
    if a == [] {
      assert a + b == b;
    } else {
      JoinAppend(a[1..], b);
      HeadTail(a, b);
      Assoc(a[0].data, Join(a[1..]), Join(b));
    }
  }

  /** The count is the least number of segments that hold the payload, and at least 1. */
  lemma FragmentCountIsCeiling(len: nat, mss: int)
    requires 0 < mss
    ensures var n := FragmentCount(len, mss);
      1 <= n && len <= Times(n, mss) && (n > 1 ==> Times(n - 1, mss) < len)
  {
    if len > mss {
      CeilingTimes(len, mss);
    } else {
      assert Times(1, mss) == mss + Times(0, mss);
    }
  }

  lemma {:induction false} CeilingTimes(len: nat, mss: int)
    requires 0 < mss
    ensures var n := Quotient(len + mss - 1, mss);
      len <= Times(n, mss) && (n > 0 ==> Times(n - 1, mss) < len) && (len > 0 ==> 1 <= n)
    decreases len
  {
    if len > mss {
      CeilingTimes(len - mss, mss);
    } else if len > 0 {
      assert Quotient(len - 1, mss) == 0;
      assert Times(1, mss) == mss + Times(0, mss);
    }
  }

  /** Each segment fits `mss`, the counters run down to 0 and the data is the payload. */
  ghost predicate IsFragmentation(fs: seq<Frag>, mss: int, payload: seq<byte>) {
    && 0 < |fs|
    && Join(fs) == payload
    && forall i :: 0 <= i < |fs| ==> |fs[i].data| <= mss && fs[i].frg == |fs| - 1 - i
  }

  lemma {:induction false} CutJoins(mss: int, stream: bool, payload: seq<byte>, n: nat)
    requires 0 < mss && |payload| <= Times(n, mss)
    ensures Join(Cut(mss, stream, payload, n)) == payload
    ensures |Cut(mss, stream, payload, n)| == n
  {
    if n == 0 {
      assert payload == [];
    } else {
      var size := Min(mss, |payload|);
      TimesNonNegative(n - 1, mss);
      CutJoins(mss, stream, payload[size..], n - 1);
      assert payload == payload[..size] + payload[size..];
    }
  }

  lemma {:induction false} CutShape(mss: int, payload: seq<byte>, n: nat)
    requires 0 < mss
    ensures var fs := Cut(mss, false, payload, n);
      |fs| == n && forall i :: 0 <= i < n ==> |fs[i].data| <= mss && fs[i].frg == n - 1 - i
  {
    if n > 0 {
      CutShape(mss, payload[Min(mss, |payload|)..], n - 1);
    }
  }

  /** What one message contributes to the queue. */
  function Fragments(mss: int, payload: seq<byte>): seq<Frag>
    requires 0 < mss
  {
    Cut(mss, false, payload, FragmentCount(|payload|, mss))
  }

  /** Message mode: accepted exactly when fewer than 128 segments suffice; accepting
      appends a fragmentation of the payload, refusing changes nothing. */
  lemma SendMessage(mss: int, queue: seq<Frag>, payload: seq<byte>)
    requires 0 < mss
    ensures var r := Send(mss, false, queue, payload);
      var fs := Fragments(mss, payload);
      && (r.code == SEND_OK <==> |payload| <= 127 * mss)
      && (r.code == SEND_OK ==> r.queue == queue + fs && IsFragmentation(fs, mss, payload) && |fs| < WND_RCV)
      && (r.code != SEND_OK ==> r.queue == queue && r.code == SEND_TOO_LONG)
  {
    var n := FragmentCount(|payload|, mss);
    FragmentCountIsCeiling(|payload|, mss);
    CutJoins(mss, false, payload, n);
    CutShape(mss, payload, n);
    assert payload[0..] == payload;
    CountAtMost127(|payload|, mss);
  }

  /** 127 segments suffice exactly for 127 * mss bytes. */
  lemma CountAtMost127(len: nat, mss: int)
    requires 0 < mss
    ensures FragmentCount(len, mss) <= 127 <==> len <= 127 * mss
  {
    var n := FragmentCount(len, mss);
    FragmentCountIsCeiling(len, mss);
    TimesIsProduct(127, mss);
    if n <= 127 { TimesMono(n, 127, mss); } else { TimesMono(127, n - 1, mss); }
  }

  /** A queue filled in streaming mode only: no counters, and only the last segment may
      have room. */
  ghost predicate PureStream(queue: seq<Frag>, mss: int) {
    && (forall i :: 0 <= i < |queue| ==> queue[i].frg == 0 && |queue[i].data| <= mss)
    && (forall i :: 0 <= i < |queue| - 1 ==> |queue[i].data| == mss)
  }

  lemma {:induction false} CutIsPureStream(mss: int, payload: seq<byte>, n: nat)
    requires 0 < mss && (n > 1 ==> Times(n - 1, mss) < |payload|)
    ensures PureStream(Cut(mss, true, payload, n), mss) && |Cut(mss, true, payload, n)| == n
  {
    if n > 1 {
      TimesNonNegative(n - 2, mss);
      CutIsPureStream(mss, payload[mss..], n - 1);
      var fs := Cut(mss, true, payload, n);
      assert fs[1..] == Cut(mss, true, payload[mss..], n - 1);
      forall i | 0 <= i < |fs| - 1 ensures |fs[i].data| == mss {
        if i > 0 { assert fs[i] == fs[1..][i - 1]; }
      }
    } else if n == 1 {
      assert Cut(mss, true, payload[Min(mss, |payload|)..], 0) == [];
    }
  }

  lemma ExtendedBytes(mss: int, queue: seq<Frag>, payload: seq<byte>)
    requires 0 < mss && PureStream(queue, mss)
    ensures var base := Extended(mss, true, queue, payload);
      var ext := Extension(mss, true, queue, payload);
      && PureStream(base, mss)
      && Join(base) == Join(queue) + payload[..ext]
      && (ext < |payload| && base != [] ==> |base[|base| - 1].data| == mss)
  {
    if queue != [] && |queue[|queue| - 1].data| < mss {
      var init := queue[..|queue| - 1];
      var last := queue[|queue| - 1];
      var ext := Extension(mss, true, queue, payload);
      assert queue == init + [last];
      JoinAppend(init, [last]);
      JoinAppend(init, [Frag(0, last.data + payload[..ext])]);
      assert Join([last]) == last.data;
      assert Join([Frag(0, last.data + payload[..ext])]) == last.data + payload[..ext];
      Assoc(Join(init), last.data, payload[..ext]);
    } else {
      assert payload[..0] == [];
    }
  }

  /** Streaming mode: an accepted payload is appended to the queued bytes; a refused one
      has still left its first `Extension` bytes in the last segment. */
  lemma SendStream(mss: int, queue: seq<Frag>, payload: seq<byte>)
    requires 0 < mss && PureStream(queue, mss)
    ensures var r := Send(mss, true, queue, payload);
      var ext := Extension(mss, true, queue, payload);
      && PureStream(r.queue, mss)
      && (r.code == SEND_OK ==> Join(r.queue) == Join(queue) + payload)
      && (r.code != SEND_OK ==> r.code == SEND_TOO_LONG && Join(r.queue) == Join(queue) + payload[..ext])
      && (r.code == SEND_OK <==> |payload| - ext <= 127 * mss)
  {
    var ext := Extension(mss, true, queue, payload);
    ExtendedBytes(mss, queue, payload);
    Split(payload, ext);
    if payload[ext..] == [] {
      assert payload[..ext] == payload;
    } else {
      StreamTail(mss, Extended(mss, true, queue, payload), payload[ext..]);
      Assoc(Join(queue), payload[..ext], payload[ext..]);
    }
  }

  /** The fragments streaming mode appends behind a full queue. */
  lemma StreamTail(mss: int, base: seq<Frag>, rest: seq<byte>)
    requires 0 < mss && rest != [] && PureStream(base, mss)
    requires base != [] ==> |base[|base| - 1].data| == mss
    ensures var n := FragmentCount(|rest|, mss);
      var queue := base + Cut(mss, true, rest, n);
      && PureStream(queue, mss) && Join(queue) == Join(base) + rest
      && (n <= 127 <==> |rest| <= 127 * mss)
  {
    var n := FragmentCount(|rest|, mss);
    FragmentCountIsCeiling(|rest|, mss);
    CutJoins(mss, true, rest, n);
    CutIsPureStream(mss, rest, n);
    JoinAppend(base, Cut(mss, true, rest, n));
    CountAtMost127(|rest|, mss);
  }

  /** A refused streaming send leaves the queued bytes as they were exactly when the last
      queued segment had no room. */
  lemma RefusedStreamIsClean(mss: int, queue: seq<Frag>, payload: seq<byte>)
    requires 0 < mss && PureStream(queue, mss)
    requires Send(mss, true, queue, payload).code != SEND_OK
    ensures Join(Send(mss, true, queue, payload).queue) == Join(queue)
       <==> queue == [] || |queue[|queue| - 1].data| == mss
  {
    SendStream(mss, queue, payload);
    var ext := Extension(mss, true, queue, payload);
    assert |Join(queue) + payload[..ext]| == |Join(queue)| + ext;
  }

  /** It can be unclean: a segment of one byte with room for another takes the first byte of
      a payload that is then refused. */
  lemma RefusedStreamCanExtend()
    ensures var queue := [Frag(0, [7])];
      var r := Send(2, true, queue, seq(257, _ => 0));
      r.code == SEND_TOO_LONG && Join(r.queue) == [7, 0]
  {
    var queue, payload := [Frag(0, [7])], seq(257, _ => 0);
    assert queue[1..] == [] && Join(queue) == [7] + Join([]);
    SendStream(2, queue, payload);
    assert payload[..1] == [0];
  }
}
