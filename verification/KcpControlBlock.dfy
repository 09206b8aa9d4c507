/** The control block of `udp/ikcp.h` as an object whose methods are the functions of
    `udp/ikcp.c`, statement by statement.  Each is proved to take the state `View()` to
    the one the engine function of the same name computes in 32-bit arithmetic. */
module KcpControlBlock {
  import opened Serial
  import opened KcpTypes
  import opened KcpSender
  import opened KcpReceiver
  import opened KcpFragment
  import opened KcpWire
  import opened KcpCongestion
  import Engine = KcpEngine
  import opened KcpOutput
  import opened Products
  import opened Sequences

  class ControlBlock {
    /** The fields that only the settings calls assign. */
    var cfg: Config
    /** `state == (IUINT32)-1`. */
    var dead: bool
    var snd_una: int
    var snd_nxt: int
    var rcv_nxt: int
    var ssthresh: int
    var rx_rttval: int
    var rx_srtt: int
    var rx_rto: int
    var rcv_wnd: int
    var rmt_wnd: nat
    var cwnd: nat
    /** The bits IKCP_ASK_SEND and IKCP_ASK_TELL of `probe`. */
    var ask_send: bool
    var ask_tell: bool
    var current: int
    var ts_flush: int
    var xmit: int
    var nrcv_buf: int
    var nsnd_buf: int
    var nrcv_que: int
    var nsnd_que: int
    var updated: bool
    var ts_probe: int
    var probe_wait: int
    var incr: nat
    var snd_queue: seq<Frag>
    var rcv_queue: seq<Arrived>
    var snd_buf: seq<Segment>
    var rcv_buf: seq<Arrived>
    var acklist: seq<Ack>
    const out: Output

    function Snd(): Sender
      reads this`snd_una, this`snd_nxt, this`snd_queue, this`snd_buf
    {
      Sender(snd_una, snd_nxt, snd_queue, snd_buf)
    }

    function Rcv(): Receiver
      reads this`rcv_nxt, this`rcv_wnd, this`rcv_queue, this`rcv_buf, this`acklist
    {
      Receiver(rcv_nxt, rcv_wnd, rcv_queue, rcv_buf, acklist)
    }

    function CcView(): Congestion
      reads this`rmt_wnd, this`cwnd, this`incr, this`ssthresh
    {
      Congestion(rmt_wnd, cwnd, incr, ssthresh)
    }

    function RttView(): Rtt
      reads this`rx_srtt, this`rx_rttval, this`rx_rto
    {
      Rtt(rx_srtt, rx_rttval, rx_rto)
    }

    function Clk(): Clock
      reads this`current, this`updated, this`ts_flush, this`ts_probe, this`probe_wait, this`ask_send, this`ask_tell, this`xmit, this`dead
    {
      Clock(current, updated, ts_flush, ts_probe, probe_wait, ask_send, ask_tell, xmit, dead)
    }

    /** The control block as a value. */
    function View(): Kcb
      reads this
    {
      Kcb(cfg, Snd(), Rcv(), CcView(), RttView(), Clk())
    }

    /** The sender's counters are its list lengths and no segment is longer than `mss`. */
    ghost predicate SndFits()
      reads this
    {
      nsnd_que == |snd_queue| && nsnd_buf == |snd_buf| && FitsIn(cfg.mss)
    }

    /** The receiver's counters are its list lengths. */
    ghost predicate RcvFits()
      reads this
    {
      && nrcv_que == |rcv_queue| && nrcv_buf == |rcv_buf|
      && 0 < rcv_wnd < HALF
    }

    /** What holds between calls; the scratch buffer is idle and sized for `mtu`. */
    ghost predicate Valid()
      reads this, out, out.buffer
    {
      && ConfigOk(cfg) && SndFits() && RcvFits() && 0 <= xmit < MODULUS
      && out.Idle() && out.mtu == cfg.mtu
    }

    /** `ikcp_create`. */
    constructor (conv: int)
      requires 0 <= conv < MODULUS
      ensures Valid() && fresh(out) && fresh(out.buffer)
      ensures View() == Created(cfg, WND_RCV)
      ensures cfg
        == Config(conv, MTU_DEF, MTU_DEF - OVERHEAD, false, WND_SND, 0, RTO_MIN, INTERVAL, 0, FASTACK_LIMIT, false, DEADLINK)
    {
      snd_una, snd_nxt, rcv_nxt := 0, 0, 0;
      ts_probe, probe_wait := 0, 0;
      rcv_wnd, rmt_wnd := WND_RCV, WND_RCV;
      cwnd, incr := 0, 0;
      ask_send, ask_tell := false, false;
      cfg := Config(conv, MTU_DEF, MTU_DEF - OVERHEAD, false, WND_SND, 0, RTO_MIN, INTERVAL, 0, FASTACK_LIMIT, false, DEADLINK);
      out := new Output(MTU_DEF);
      snd_queue, rcv_queue, snd_buf, rcv_buf := [], [], [], [];
      nrcv_buf, nsnd_buf, nrcv_que, nsnd_que := 0, 0, 0, 0;
      dead := false;
      acklist := [];
      rx_srtt, rx_rttval, rx_rto := 0, 0, RTO_DEF;
      current, ts_flush, updated := 0, INTERVAL, false;
      ssthresh, xmit := THRESH_INIT, 0;
    }

    // -------------------------------------------------------------- settings

    /** `ikcp_nodelay`; negative arguments leave a setting alone. */
    method NoDelay(nodelay: int, interval: int, resend: int, nc: int)
      requires ConfigOk(cfg)
      requires nodelay < HALF && interval < HALF && resend < HALF && nc < HALF
      modifies this`cfg
      ensures ConfigOk(cfg)
      ensures cfg == old(cfg).(
        nodelay := if nodelay >= 0 then nodelay else old(cfg).nodelay,
        minrto := if nodelay > 0 then RTO_NDL else if nodelay == 0 then RTO_MIN else old(cfg).minrto,
        interval := if interval >= 0 then Max(10, Min(interval, 5000)) else old(cfg).interval,
        fastresend := if resend >= 0 then resend else old(cfg).fastresend,
        nocwnd := if nc >= 0 then nc != 0 else old(cfg).nocwnd)
    {
      if nodelay >= 0 {
        cfg := cfg.(nodelay := nodelay, minrto := if nodelay != 0 then RTO_NDL else RTO_MIN);
      }
      if interval >= 0 { cfg := cfg.(interval := Max(10, Min(interval, 5000))); }
      if resend >= 0 { cfg := cfg.(fastresend := resend); }
      if nc >= 0 { cfg := cfg.(nocwnd := nc != 0); }
    }

    /** `ikcp_wndsize`: the receive window always has room for one whole message. */
    method WndSize(sndwnd: int, rcvwnd: int)
      requires ConfigOk(cfg) && sndwnd < HALF && rcvwnd < HALF
      modifies this`cfg, this`rcv_wnd
      ensures ConfigOk(cfg)
      ensures cfg == old(cfg).(sndWnd := if sndwnd > 0 then sndwnd else old(cfg).sndWnd)
      ensures rcv_wnd == if rcvwnd > 0 then Max(rcvwnd, WND_RCV) else old(rcv_wnd)
    {
      if sndwnd > 0 { cfg := cfg.(sndWnd := sndwnd); }
      if rcvwnd > 0 { rcv_wnd := Max(rcvwnd, WND_RCV); }
    }

    /** `ikcp_setmtu`, when no segment waiting is longer than the new mss; allocation succeeds. */
    method SetMtu(mtu: int) returns (code: int)
      requires Valid() && mtu < HALF
      requires mtu >= 50 ==> FitsIn(mtu - OVERHEAD)
      modifies this`cfg, out
      ensures Valid() && out.emitted == old(out.emitted)
      ensures out.buffer == old(out.buffer) || fresh(out.buffer)
      ensures code == if mtu < 50 then -1 else 0
      ensures cfg == if mtu < 50 then old(cfg) else old(cfg).(mtu := mtu, mss := mtu - OVERHEAD)
    {
      if mtu < 50 || mtu < OVERHEAD { return -1; }
      out.Resize(mtu);
      cfg := cfg.(mtu := mtu, mss := mtu - OVERHEAD);
      code := 0;
    }

    /** No segment waiting to be acknowledged or sent is longer than `mss`. */
    ghost predicate FitsIn(mss: int)
      reads this`snd_queue, this`snd_buf
    {
      && (forall i :: 0 <= i < |snd_queue| ==> |snd_queue[i].data| <= mss)
      && (forall i :: 0 <= i < |snd_buf| ==> |snd_buf[i].frag.data| <= mss)
    }

    // -------------------------------------------------------------- acknowledgement

    /** The two estimates of `ikcp_update_ack`. */
    method TakeSample(rtt: int)
      modifies this`rx_srtt, this`rx_rttval
      ensures var t := KcpCongestion.UpdateAck(cfg.interval, cfg.minrto, old(RttView()), rtt);
        rx_srtt == t.srtt && rx_rttval == t.rttval
    {
      if rx_srtt == 0 {
        rx_srtt := rtt;
        rx_rttval := CDiv(rtt, 2);
      } else {
        var delta := rtt - rx_srtt;
        if delta < 0 { delta := -delta; }
        rx_rttval := S32(CDiv(S32(3 * rx_rttval) + delta, 4));
        rx_srtt := CDiv(S32(S32(7 * rx_srtt) + rtt), 8);
        if rx_srtt < 1 { rx_srtt := 1; }
      }
    }

    /** `ikcp_update_ack`. */
    method UpdateAck(rtt: int)
      modifies this`rx_srtt, this`rx_rttval, this`rx_rto
      ensures RttView() == KcpCongestion.UpdateAck(cfg.interval, cfg.minrto, old(RttView()), rtt)
    {
      TakeSample(rtt);
      var rto := U32(rx_srtt + Max(cfg.interval, U32(4 * rx_rttval)));
      rx_rto := Min(Max(cfg.minrto, rto), RTO_MAX);
    }

    /** `ikcp_shrink_buf`. */
    method ShrinkBuf()
      modifies this`snd_una
      ensures Snd() == KcpSender.ShrinkBuf(old(Snd()))
    {
      if snd_buf != [] { snd_una := snd_buf[0].sn; } else { snd_una := snd_nxt; }
    }

    /** `ikcp_parse_ack`. */
    method ParseAck(sn: int)
      requires SndFits()
      modifies this`snd_buf, this`nsnd_buf
      ensures SndFits()
      ensures Snd() == KcpSender.ParseAck(Wrapping, old(Snd()), sn)
    {
      if TimeDiff(sn, snd_una) < 0 || TimeDiff(sn, snd_nxt) >= 0 { return; }
      var p := 0;
      while p < |snd_buf|
        invariant 0 <= p <= |snd_buf| && SndFits()
        invariant snd_buf == old(snd_buf)
        invariant DropSn(Wrapping, snd_buf, sn) == snd_buf[..p] + DropSn(Wrapping, snd_buf[p..], sn)
      {
        DropSnStep(snd_buf, p, sn);
        if sn == snd_buf[p].sn {
          snd_buf := snd_buf[..p] + snd_buf[p + 1..];
          nsnd_buf := nsnd_buf - 1;
          return;
        }
        if TimeDiff(sn, snd_buf[p].sn) < 0 {
          return;
        }
        p := p + 1;
      }
      assert snd_buf[..p] + [] == snd_buf;
    }

    /** `ikcp_parse_una`. */
    method ParseUna(una: int)
      requires SndFits()
      modifies this`snd_buf, this`nsnd_buf
      ensures SndFits()
      ensures Snd() == KcpSender.ParseUna(Wrapping, old(Snd()), una)
    {
      while snd_buf != []
        invariant SndFits()
        invariant DropUna(Wrapping, snd_buf, una) == DropUna(Wrapping, old(snd_buf), una)
        decreases |snd_buf|
      {
        if TimeDiff(una, snd_buf[0].sn) > 0 {
          snd_buf := snd_buf[1..];
          nsnd_buf := nsnd_buf - 1;
        } else {
          break;
        }
      }
    }

    /** The loop of `ikcp_parse_fastack`, which updates the segments in place. */
    method BumpEarlier(sn: int)
      modifies this`snd_buf
      ensures snd_buf == BumpFastack(Wrapping, old(snd_buf), sn)
    {
      ghost var buf := snd_buf;
      var p := 0;
      while p < |snd_buf|
        invariant 0 <= p <= |snd_buf| == |buf|
        invariant snd_buf[p..] == buf[p..]
        invariant BumpFastack(Wrapping, buf, sn) == snd_buf[..p] + BumpFastack(Wrapping, buf[p..], sn)
      {
        assert snd_buf[p] == snd_buf[p..][0] == buf[p];
        BumpStep(buf, snd_buf, p, sn);
        if TimeDiff(sn, snd_buf[p].sn) < 0 {
          return;
        }
        ghost var next := snd_buf[p := Bumped(snd_buf[p], sn)];
        if sn != snd_buf[p].sn {
          snd_buf := snd_buf[p := Bumped(snd_buf[p], sn)];
        } else {
          assert next == snd_buf;
        }
        assert snd_buf == next;
        p := p + 1;
      }
      assert snd_buf[..p] + [] == snd_buf;
    }

    /** `ikcp_parse_fastack`. */
    method ParseFastack(sn: int)
      requires SndFits()
      modifies this`snd_buf
      ensures SndFits()
      ensures Snd() == KcpSender.ParseFastack(Wrapping, old(Snd()), sn)
    {
      if TimeDiff(sn, snd_una) < 0 || TimeDiff(sn, snd_nxt) >= 0 { return; }
      BumpFastackLoad(Wrapping, snd_buf, sn);
      BumpEarlier(sn);
    }

    // -------------------------------------------------------------- data

    /** The loop that moves available segments to `rcv_queue`. */
    method MoveAvailable()
      requires RcvFits()
      modifies this`rcv_buf, this`nrcv_buf, this`rcv_queue, this`nrcv_que, this`rcv_nxt
      ensures RcvFits()
      ensures Rcv() == Drain(Wrapping, old(Rcv()))
    {
      while rcv_buf != []
        invariant RcvFits()
        invariant Drain(Wrapping, Rcv()) == Drain(Wrapping, old(Rcv()))
        decreases |rcv_buf|
      {
        var seg := rcv_buf[0];
        if seg.sn == rcv_nxt && nrcv_que < rcv_wnd {
          rcv_buf := rcv_buf[1..];
          nrcv_buf := nrcv_buf - 1;
          rcv_queue := rcv_queue + [seg];
          nrcv_que := nrcv_que + 1;
          rcv_nxt := U32(rcv_nxt + 1);
        } else {
          break;
        }
      }
    }

    /** The backward search of `ikcp_parse_data` and the insertion behind it. */
    method InsertSegment(newseg: Arrived)
      requires RcvFits()
      modifies this`rcv_buf, this`nrcv_buf
      ensures RcvFits()
      ensures rcv_buf == Insert(Wrapping, old(rcv_buf), newseg)
    {
      var p := |rcv_buf|;
      assert rcv_buf[..p] == rcv_buf && rcv_buf[p..] == [];
      while p > 0
        invariant 0 <= p <= |rcv_buf| && rcv_buf == old(rcv_buf) && RcvFits()
        invariant Insert(Wrapping, rcv_buf, newseg) == Insert(Wrapping, rcv_buf[..p], newseg) + rcv_buf[p..]
      {
        var seg := rcv_buf[p - 1];
        InsertStep(rcv_buf, p, newseg);
        if seg.sn == newseg.sn {
          return;
        }
        if TimeDiff(newseg.sn, seg.sn) > 0 {
          break;
        }
        p := p - 1;
      }
      rcv_buf := rcv_buf[..p] + [newseg] + rcv_buf[p..];
      nrcv_buf := nrcv_buf + 1;
    }

    /** `ikcp_parse_data`. */
    method ParseData(newseg: Arrived)
      requires RcvFits()
      modifies this`rcv_buf, this`nrcv_buf, this`rcv_queue, this`nrcv_que, this`rcv_nxt
      ensures RcvFits()
      ensures Rcv() == KcpReceiver.ParseData(Wrapping, old(Rcv()), newseg)
    {
      if TimeDiff(newseg.sn, U32(rcv_nxt + rcv_wnd)) >= 0 || TimeDiff(newseg.sn, rcv_nxt) < 0 { return; }
      InsertSegment(newseg);
      MoveAvailable();
    }

    /** `ikcp_ack_push`. */
    method AckPush(sn: int, ts: int)
      modifies this`acklist
      ensures acklist == old(acklist) + [Ack(sn, ts)]
    {
      acklist := acklist + [Ack(sn, ts)];
    }

    // -------------------------------------------------------------- application calls

    /** `ikcp_peeksize`. */
    method PeekSize() returns (length: int)
      requires RcvFits()
      ensures length == KcpReceiver.PeekSize(rcv_queue)
    {
      if rcv_queue == [] { return -1; }
      if rcv_queue[0].frag.frg == 0 { return |rcv_queue[0].frag.data|; }
      if nrcv_que < rcv_queue[0].frag.frg + 1 { return -1; }
      length := 0;
      var p := 0;
      assert rcv_queue[0..] == rcv_queue;
      while p < |rcv_queue|
        invariant 0 <= p <= |rcv_queue|
        invariant length + |HeadBytes(rcv_queue[p..])| == |HeadBytes(rcv_queue)|
      {
        HeadStep(rcv_queue, p);
        var seg := rcv_queue[p];
        length := length + |seg.frag.data|;
        if seg.frag.frg == 0 { return; }
        p := p + 1;
      }
    }

    /** The merging loop of `ikcp_recv`. */
    method Merge(peek: bool) returns (message: seq<byte>)
      requires RcvFits()
      modifies this`rcv_queue, this`nrcv_que
      ensures RcvFits()
      ensures message == HeadBytes(old(rcv_queue))
      ensures rcv_queue == if peek then old(rcv_queue) else old(rcv_queue)[MessageSpan(old(rcv_queue))..]
    {
      ghost var queue := rcv_queue;
      ghost var k := 0;
      var p := 0;
      message := [];
      assert queue[0..] == queue;
      while p < |rcv_queue|
        invariant RcvFits() && 0 <= k <= |queue|
        invariant if peek then p == k && rcv_queue == queue else p == 0 && rcv_queue == queue[k..]
        invariant k + MessageSpan(queue[k..]) == MessageSpan(queue)
        invariant message + HeadBytes(queue[k..]) == HeadBytes(queue)
        decreases |queue| - k
      {
        MergeStep(queue, k, message);
        var seg := rcv_queue[p];
        assert seg == queue[k];
        message := message + seg.frag.data;
        k := k + 1;
        if peek {
          p := p + 1;
        } else {
          rcv_queue := rcv_queue[1..];
          nrcv_que := nrcv_que - 1;
        }
        if seg.frag.frg == 0 { return; }
      }
      assert queue[k..] == [];
    }

    /** `ikcp_recv`: the bytes copied out are returned; a negative `len` peeks. */
    method Recv(len: int) returns (code: int, message: seq<byte>)
      requires RcvFits()
      modifies this`rcv_buf, this`nrcv_buf, this`rcv_queue, this`nrcv_que, this`rcv_nxt, this`ask_tell
      ensures RcvFits()
      ensures var r := KcpReceiver.Recv(Wrapping, old(Rcv()), len);
        Rcv() == r.rcv && code == r.code && message == r.message && ask_tell == (old(ask_tell) || r.tell)
    {
      message := [];
      if rcv_queue == [] { return -1, message; }
      var peeksize := PeekSize();
      if peeksize < 0 { return -2, message; }
      if peeksize > (if len < 0 then -len else len) { return -3, message; }
      var recover := nrcv_que >= rcv_wnd;
      message := Merge(len < 0);
      MoveAvailable();
      if nrcv_que < rcv_wnd && recover { ask_tell := true; }
      code := |message|;
    }

    /** The step of `ikcp_send` that fills up the last queued segment in streaming mode. */
    method ExtendLast(payload: seq<byte>) returns (extend: nat)
      requires SndFits() && 0 < cfg.mss && cfg.stream
      modifies this`snd_queue
      ensures SndFits()
      ensures extend == Extension(cfg.mss, true, old(snd_queue), payload)
      ensures snd_queue == Extended(cfg.mss, true, old(snd_queue), payload)
    {
      extend := 0;
      if snd_queue != [] {
        var old_ := snd_queue[|snd_queue| - 1];
        if |old_.data| < cfg.mss {
          var capacity := cfg.mss - |old_.data|;
          extend := if |payload| < capacity then |payload| else capacity;
          var seg := Frag(0, old_.data + payload[..extend]);
          snd_queue := snd_queue[..|snd_queue| - 1] + [seg];
        }
      }
    }

    /** The fragmenting loop of `ikcp_send`. */
    method Fragment(payload: seq<byte>, count: nat)
      requires SndFits() && 0 < cfg.mss
      modifies this`snd_queue, this`nsnd_que
      ensures SndFits()
      ensures snd_queue == old(snd_queue) + Cut(cfg.mss, cfg.stream, payload, count)
    {
      var rest := payload;
      var i := 0;
      while i < count
        invariant 0 <= i <= count && SndFits()
        invariant snd_queue + Cut(cfg.mss, cfg.stream, rest, count - i) == old(snd_queue) + Cut(cfg.mss, cfg.stream, payload, count)
      {
        var size := if |rest| > cfg.mss then cfg.mss else |rest|;
        var seg := Frag(if !cfg.stream then count - i - 1 else 0, rest[..size]);
        CutStep(cfg.mss, cfg.stream, rest, count - i, snd_queue);
        snd_queue := snd_queue + [seg];
        nsnd_que := nsnd_que + 1;
        rest := rest[size..];
        i := i + 1;
      }
      assert snd_queue + [] == snd_queue;
    }

    /** `ikcp_send`. */
    method Send(buffer: seq<byte>, len: int) returns (code: int)
      requires SndFits() && 0 < cfg.mss
      requires len <= |buffer|
      modifies this`snd_queue, this`nsnd_que
      ensures SndFits()
      ensures len < 0 ==> code == -1 && snd_queue == old(snd_queue)
      ensures len >= 0 ==> SendResult(snd_queue, code) == KcpFragment.Send(cfg.mss, cfg.stream, old(snd_queue), buffer[..len])
    {
      if len < 0 { return -1; }
      var payload := buffer[..len];
      var rest := payload;
      if cfg.stream {
        var extend := ExtendLast(payload);
        rest := payload[extend..];
        if |rest| <= 0 { return 0; }
      } else {
        assert payload[0..] == payload;
      }
      var count := 1;
      if |rest| > cfg.mss { count := Divide(|rest| + cfg.mss - 1, cfg.mss); }
      if count >= WND_RCV { return -2; }
      FragmentCountIsCeiling(|rest|, cfg.mss);
      Fragment(rest, count);
      code := 0;
    }

    // -------------------------------------------------------------- input

    /** Start of every round of `ikcp_input`. */
    method TakeUna(wnd: nat, una: int)
      requires SndFits()
      modifies this`rmt_wnd, this`snd_buf, this`nsnd_buf, this`snd_una
      ensures SndFits()
      ensures rmt_wnd == wnd
      ensures Snd() == KcpSender.ShrinkBuf(KcpSender.ParseUna(Wrapping, old(Snd()), una))
    {
      rmt_wnd := wnd;
      ParseUna(una);
      ShrinkBuf();
    }

    /** The ACK branch of `ikcp_input`. */
    method TakeAck(sn: int, ts: int)
      requires SndFits()
      modifies this`rx_srtt, this`rx_rttval, this`rx_rto, this`snd_buf, this`nsnd_buf, this`snd_una
      ensures SndFits()
      ensures Snd() == KcpSender.ShrinkBuf(KcpSender.ParseAck(Wrapping, old(Snd()), sn))
      ensures RttView() == Engine.Sampled(cfg.interval, cfg.minrto, old(RttView()), TimeDiff(current, ts))
    {
      if TimeDiff(current, ts) >= 0 {
        UpdateAck(TimeDiff(current, ts));
      }
      ParseAck(sn);
      ShrinkBuf();
    }

    /** The PUSH branch of `ikcp_input`. */
    method TakePush(newseg: Arrived, ts: int)
      requires RcvFits()
      modifies this`acklist, this`rcv_buf, this`nrcv_buf, this`rcv_queue, this`nrcv_que, this`rcv_nxt
      ensures RcvFits()
      ensures Rcv() == Push(Wrapping, old(Rcv()), newseg, ts)
    {
      if TimeDiff(newseg.sn, U32(rcv_nxt + rcv_wnd)) < 0 {
        AckPush(newseg.sn, ts);
        if TimeDiff(newseg.sn, rcv_nxt) >= 0 {
          ParseData(newseg);
        }
      }
    }

    /** The branch on the command in the loop of `ikcp_input`. */
    method Dispatch(w: Wire)
      requires SndFits() && RcvFits()
      modifies this`rx_srtt, this`rx_rttval, this`rx_rto, this`snd_buf, this`nsnd_buf, this`snd_una
      modifies this`acklist, this`rcv_buf, this`nrcv_buf, this`rcv_queue, this`nrcv_que, this`rcv_nxt, this`ask_tell
      ensures SndFits() && RcvFits()
      ensures Snd() == SndAfter(old(Snd()), w)
      ensures Rcv() == RcvAfter(old(Rcv()), w)
      ensures RttView() == RttAfter(cfg.interval, cfg.minrto, current, old(RttView()), w)
      ensures ask_tell == (old(ask_tell) || w.cmd == CMD_WASK)
    {
      if w.cmd == CMD_ACK {
        TakeAck(w.sn, w.ts);
      } else if w.cmd == CMD_PUSH {
        TakePush(Arrived(w.sn, w.frag), w.ts);
      } else if w.cmd == CMD_WASK {
        ask_tell := true;
      }
    }

    /** One round of the loop of `ikcp_input`. */
    method Take(w: Wire)
      requires SndFits() && RcvFits() && 0 <= w.wnd
      modifies this`rmt_wnd, this`rx_srtt, this`rx_rttval, this`rx_rto, this`snd_buf, this`nsnd_buf, this`snd_una
      modifies this`acklist, this`rcv_buf, this`nrcv_buf, this`rcv_queue, this`nrcv_que, this`rcv_nxt, this`ask_tell
      ensures SndFits() && RcvFits()
      ensures Snd() == SndAfter(KcpSender.ShrinkBuf(KcpSender.ParseUna(Wrapping, old(Snd()), w.una)), w)
      ensures Rcv() == RcvAfter(old(Rcv()), w)
      ensures rmt_wnd == w.wnd
      ensures RttView() == RttAfter(cfg.interval, cfg.minrto, current, old(RttView()), w)
      ensures ask_tell == (old(ask_tell) || w.cmd == CMD_WASK)
    {
      TakeUna(w.wnd, w.una);
      Dispatch(w);
    }

    /** The same, for the whole control block. */
    method TakeUnit(w: Wire)
      requires SndFits() && RcvFits() && 0 <= w.wnd
      modifies this`rmt_wnd, this`rx_srtt, this`rx_rttval, this`rx_rto, this`snd_buf, this`nsnd_buf, this`snd_una
      modifies this`acklist, this`rcv_buf, this`nrcv_buf, this`rcv_queue, this`nrcv_que, this`rcv_nxt, this`ask_tell
      ensures SndFits() && RcvFits()
      ensures View() == AfterUnit(old(View()), w)
    {
      ghost var s := View();
      Take(w);
      AssembleUnit(s, w, View());
    }

    /** Congestion avoidance. */
    method AvoidCongestion()
      requires 0 < cfg.mss
      modifies this`cwnd, this`incr
      ensures CcView() == Avoidance(cfg.mss, old(CcView()))
    {
      if incr < cfg.mss { incr := cfg.mss; }
      var square := Multiply(cfg.mss, cfg.mss);
      var step := Divide(U32(square), incr);
      incr := U32(incr + step + cfg.mss / 16);
      var next := Multiply(cwnd + 1, cfg.mss);
      if U32(next) <= incr {
        cwnd := Divide(U32(incr + cfg.mss - 1), cfg.mss);
      }
    }

    /** Window growth at the end of `ikcp_input`. */
    method GrowWindow()
      requires 0 < cfg.mss
      modifies this`cwnd, this`incr
      ensures CcView() == Grow(cfg.mss, old(CcView()))
    {
      if cwnd < rmt_wnd {
        if cwnd < ssthresh {
          cwnd := U32(cwnd + 1);
          incr := U32(incr + cfg.mss);
        } else {
          AvoidCongestion();
        }
        if cwnd > rmt_wnd {
          cwnd := rmt_wnd;
          var limit := Multiply(rmt_wnd, cfg.mss);
          incr := U32(limit);
        }
      }
    }

    /** What `ikcp_input` does after its loop. */
    method Conclude(note: Engine.AckNote, prev_una: int)
      requires Valid()
      modifies this`snd_buf, this`cwnd, this`incr
      ensures Valid()
      ensures View() == Engine.Conclude(Wrapping, old(View()), note, prev_una)
    {
      ghost var s := View();
      if note.Newest? { ParseFastack(note.sn); }
      assert View() == if note.Newest? then s.(snd := KcpSender.ParseFastack(Wrapping, s.snd, note.sn)) else s;
      if TimeDiff(snd_una, prev_una) > 0 { GrowWindow(); }
    }

    /** The loop of `ikcp_input`: decode, check, take in. */
    method TakeAll(data: seq<byte>) returns (code: int, note: Engine.AckNote)
      requires SndFits() && RcvFits()
      modifies this`rmt_wnd, this`rx_srtt, this`rx_rttval, this`rx_rto, this`snd_buf, this`nsnd_buf, this`snd_una
      modifies this`acklist, this`rcv_buf, this`nrcv_buf, this`rcv_queue, this`nrcv_que, this`rcv_nxt, this`ask_tell
      ensures SndFits() && RcvFits()
      ensures var d := DecodeAll(cfg.conv, data);
        && View() == Engine.ProcessAll(Wrapping, old(View()), d.wires)
        && note == Engine.NoteAll(Wrapping, Engine.NoAck, d.wires)
        && code == d.code
    {
      var rest := data;
      note := Engine.NoAck;
      while true
        invariant SndFits() && RcvFits()
        invariant var d, all := DecodeAll(cfg.conv, rest), DecodeAll(cfg.conv, data);
          && Engine.ProcessAll(Wrapping, View(), d.wires) == Engine.ProcessAll(Wrapping, old(View()), all.wires)
          && Engine.NoteAll(Wrapping, note, d.wires) == Engine.NoteAll(Wrapping, Engine.NoAck, all.wires)
          && d.code == all.code
        decreases |rest|
      {
        if |rest| < OVERHEAD { return 0, note; }
        var h := DecodeHeader(rest);
        if h.conv != cfg.conv { return -1, note; }
        var body := rest[OVERHEAD..];
        if |body| < h.len || h.len >= HALF { return -2, note; }
        if !KnownCommand(h.cmd) { return -3, note; }
        var w := Wire(h.conv, h.cmd, Frag(h.frg, body[..h.len]), h.wnd, h.ts, h.sn, h.una);
        UnitStep(rest, w, View(), note, cfg.conv);
        TakeUnit(w);
        if w.cmd == CMD_ACK {
          if note.NoAck? || TimeDiff(w.sn, note.sn) > 0 { note := Engine.Newest(w.sn); }
        }
        rest := body[h.len..];
      }
    }

    /** The same, between calls. */
    method TakeIn(data: seq<byte>) returns (code: int, note: Engine.AckNote)
      requires Valid() && OVERHEAD <= |data|
      modifies this`rmt_wnd, this`rx_srtt, this`rx_rttval, this`rx_rto, this`snd_buf, this`nsnd_buf, this`snd_una
      modifies this`acklist, this`rcv_buf, this`nrcv_buf, this`rcv_queue, this`nrcv_que, this`rcv_nxt, this`ask_tell
      ensures Valid()
      ensures Engine.Input(old(View()), data) == Engine.InputResult(
        if code != 0 then View() else Engine.Conclude(Wrapping, View(), note, old(snd_una)), code)
    {
      ghost var s := View();
      code, note := TakeAll(data);
      AssembleInput(s, data, View(), note, code);
    }

    /** `ikcp_input`. */
    method Input(data: seq<byte>) returns (code: int)
      requires Valid()
      modifies this`rmt_wnd, this`rx_srtt, this`rx_rttval, this`rx_rto, this`snd_buf, this`nsnd_buf, this`snd_una
      modifies this`acklist, this`rcv_buf, this`nrcv_buf, this`rcv_queue, this`nrcv_que, this`rcv_nxt, this`ask_tell
      modifies this`cwnd, this`incr
      ensures Valid()
      ensures Engine.InputResult(View(), code) == Engine.Input(old(View()), data)
    {
      if |data| < OVERHEAD { return -1; }
      var prev_una := snd_una;
      var note;
      code, note := TakeIn(data);
      if code == 0 { Conclude(note, prev_una); }
    }

    // -------------------------------------------------------------- flush

    /** Flush acknowledges. */
    method FlushAcks(h: Engine.Head)
      requires out.Valid() && OVERHEAD <= out.mtu
      modifies out, out.buffer
      ensures out.Valid() && out.buffer == old(out.buffer) && out.mtu == old(out.mtu) && out.before == old(out.before)
      ensures out.packing == PackMore(out.mtu, old(out.packing), Engine.AckWires(h, acklist))
    {
      ghost var ws := Engine.AckWires(h, acklist);
      var i := 0;
      while i < |acklist|
        invariant 0 <= i <= |acklist| == |ws|
        invariant out.Valid() && out.buffer == old(out.buffer) && out.mtu == old(out.mtu) && out.before == old(out.before)
        invariant out.packing == PackMore(out.mtu, old(out.packing), ws[..i])
      {
        PackMoreSnoc(out.mtu, old(out.packing), ws[..i], ws[i]);
        assert ws[..i + 1] == ws[..i] + [ws[i]];
        out.Put(Engine.ControlWire(h, CMD_ACK, acklist[i].sn, acklist[i].ts));
        i := i + 1;
      }
      assert ws[..i] == ws;
    }

    /** The window-probe timer of `ikcp_flush`. */
    method ProbeTimer()
      modifies this`probe_wait, this`ts_probe, this`ask_send
      ensures Clk() == Engine.ProbeTimer(old(Clk()), rmt_wnd)
    {
      if rmt_wnd == 0 {
        if probe_wait == 0 {
          probe_wait := PROBE_INIT;
          ts_probe := U32(current + probe_wait);
        } else if TimeDiff(current, ts_probe) >= 0 {
          if probe_wait < PROBE_INIT { probe_wait := PROBE_INIT; }
          probe_wait := U32(probe_wait + probe_wait / 2);
          if probe_wait > PROBE_LIMIT { probe_wait := PROBE_LIMIT; }
          ts_probe := U32(current + probe_wait);
          ask_send := true;
        }
      } else {
        ts_probe := 0;
        probe_wait := 0;
      }
    }

    /** Flush window probing commands; they reuse the numbers of the last acknowledgement. */
    method FlushProbes(h: Engine.Head, last: Ack)
      requires out.Valid() && OVERHEAD <= out.mtu
      modifies out, out.buffer
      ensures out.Valid() && out.buffer == old(out.buffer) && out.mtu == old(out.mtu) && out.before == old(out.before)
      ensures out.packing == PackMore(out.mtu, old(out.packing), Engine.ProbeWires(h, Clk(), last))
    {
      var wask, wins := Engine.ControlWire(h, CMD_WASK, last.sn, last.ts), Engine.ControlWire(h, CMD_WINS, last.sn, last.ts);
      ghost var a := if ask_send then [wask] else [];
      assert PackMore(out.mtu, out.packing, []) == out.packing;
      if ask_send {
        PackMoreSnoc(out.mtu, old(out.packing), [], wask);
        assert [] + [wask] == a;
        out.Put(wask);
      }
      assert out.packing == PackMore(out.mtu, old(out.packing), a);
      if ask_tell {
        PackMoreSnoc(out.mtu, old(out.packing), a, wins);
        out.Put(wins);
      } else {
        assert a + [] == a;
      }
    }

    /** Move data from `snd_queue` to `snd_buf`. */
    method NumberSegments(window: int)
      requires SndFits()
      modifies this`snd_queue, this`nsnd_que, this`snd_buf, this`nsnd_buf, this`snd_nxt
      ensures SndFits()
      ensures Snd() == MoveQueue(Wrapping, old(Snd()), window, old(current), old(rx_rto))
    {
      while TimeDiff(snd_nxt, U32(snd_una + window)) < 0
        invariant SndFits()
        invariant MoveQueue(Wrapping, Snd(), window, current, rx_rto) == MoveQueue(Wrapping, old(Snd()), window, current, rx_rto)
        decreases |snd_queue|
      {
        if snd_queue == [] { break; }
        var newseg := snd_queue[0];
        snd_queue := snd_queue[1..];
        snd_buf := snd_buf + [Segment(snd_nxt, newseg, current, rx_rto, 0, 0)];
        nsnd_que := nsnd_que - 1;
        nsnd_buf := nsnd_buf + 1;
        snd_nxt := U32(snd_nxt + 1);
      }
    }

    /** The same, for the whole control block. */
    method NumberAll(window: int)
      requires SndFits()
      modifies this`snd_queue, this`nsnd_que, this`snd_buf, this`nsnd_buf, this`snd_nxt
      ensures SndFits()
      ensures Snd() == MoveQueue(Wrapping, old(Snd()), window, old(current), old(rx_rto))
      ensures cfg == old(cfg) && RttView() == old(RttView()) && CcView() == old(CcView()) && Rcv() == old(Rcv()) && Clk() == old(Clk())
    {
      NumberSegments(window);
    }

    /** `resent`, `rtomin` and the fields the transmission loop reads. */
    function TickNow(): Engine.Tick
      reads this
    {
      Engine.Tick(current, rx_rto, if cfg.nodelay == 0 then rx_rto / 8 else 0,
                  if cfg.fastresend > 0 then cfg.fastresend else 0xffff_ffff, cfg.nodelay, cfg.fastlimit)
    }

    /** `seg.conv`, `seg.wnd` and `seg.una` of `ikcp_flush`. */
    function HeadNow(): Engine.Head
      reads this
    {
      Engine.Head(cfg.conv, (if |rcv_queue| < rcv_wnd then rcv_wnd - |rcv_queue| else 0) % 65536, rcv_nxt)
    }

    /** The decision of the transmission loop for one segment. */
    method Decide(k: Engine.Tick, seg: Segment) returns (seg': Segment, cause: Engine.Cause)
      ensures cause == Engine.CauseOf(k, seg)
      ensures seg' == Engine.Transmitted(k, seg)
    {
      seg' := seg;
      cause := Engine.Hold;
      if seg.xmit == 0 {
        cause := Engine.First;
        seg' := seg.(xmit := U32(seg.xmit + 1), rto := k.rto, resendts := U32(k.current + k.rto + k.rtomin));
      } else if TimeDiff(k.current, seg.resendts) >= 0 {
        cause := Engine.Timeout;
        var rto := seg.rto;
        if k.nodelay == 0 {
          rto := U32(rto + Max(rto, k.rto));
        } else {
          var step := if k.nodelay < 2 then S32(rto) else k.rto;
          rto := U32(rto + CDiv(step, 2));
        }
        seg' := seg.(xmit := U32(seg.xmit + 1), rto := rto, resendts := U32(k.current + rto));
      } else if seg.fastack >= k.resent {
        if S32(seg.xmit) <= k.fastlimit || k.fastlimit <= 0 {
          cause := Engine.Fast;
          seg' := seg.(xmit := U32(seg.xmit + 1), fastack := 0, resendts := U32(k.current + seg.rto));
        }
      }
    }

    /** First half of a round of the transmission loop: decide and update the segment. */
    method Touch(k: Engine.Tick, p: nat, ghost total: int) returns (cause: Engine.Cause)
      requires p < |snd_buf| && xmit == U32(total)
      modifies this`snd_buf, this`xmit
      ensures cause == Engine.CauseOf(k, old(snd_buf)[p])
      ensures snd_buf == old(snd_buf)[p := Engine.Transmitted(k, old(snd_buf)[p])]
      ensures xmit == U32(if cause.Timeout? then total + 1 else total)
    {
      var segment := snd_buf[p];
      segment, cause := Decide(k, segment);
      snd_buf := snd_buf[p := segment];
      if cause.Timeout? {
        NumAdd(total, 1);
        xmit := U32(xmit + 1);
      }
    }

    /** Second half: encode the segment if it is to be sent. */
    method SendIfDue(h: Engine.Head, k: Engine.Tick, segment: Segment, cause: Engine.Cause)
      requires out.Valid() && |segment.frag.data| + OVERHEAD <= out.mtu
      modifies this`dead, out, out.buffer
      ensures out.Valid() && out.buffer == old(out.buffer) && out.mtu == old(out.mtu) && out.before == old(out.before)
      ensures out.packing == if cause.Hold? then old(out.packing) else PackOne(out.mtu, old(out.packing), Engine.PushWire(h, k, segment))
      ensures dead == (old(dead) || (!cause.Hold? && segment.xmit >= cfg.deadLink))
    {
      if !cause.Hold? {
        out.Put(Engine.PushWire(h, k, segment));
        if segment.xmit >= cfg.deadLink { dead := true; }
      }
    }

    /** The segments before position `p` have been updated. */
    ghost predicate Touched(k: Engine.Tick, buf: seq<Segment>, p: nat, total: int)
      requires p <= |buf|
      reads this
    {
      && |snd_buf| == |buf| && xmit == U32(total)
      && (forall j :: 0 <= j < |buf| ==> snd_buf[j] == if j < p then Engine.Transmitted(k, buf[j]) else buf[j])
    }

    /** First half of a round, on the whole buffer. */
    method TouchNext(k: Engine.Tick, ghost buf: seq<Segment>, p: nat, ghost total: int) returns (segment: Segment, cause: Engine.Cause)
      requires p < |buf| && Touched(k, buf, p, total)
      modifies this`snd_buf, this`xmit
      ensures cause == Engine.CauseOf(k, buf[p]) && segment == Engine.Transmitted(k, buf[p])
      ensures Touched(k, buf, p + 1, total + if cause.Timeout? then 1 else 0)
    {
      assert snd_buf[p] == buf[p];
      cause := Touch(k, p, total);
      segment := snd_buf[p];
    }

    /** The loop invariant of the transmission loop. */
    ghost predicate TransmitInv(s: Clock, h: Engine.Head, k: Engine.Tick, buf: seq<Segment>, start: Packing, p: nat,
                                change: bool, lost: bool, total: int)
      requires p <= |buf|
      reads this, out, out.buffer
    {
      && Touched(k, buf, p, total)
      && Counted(s, k, cfg.deadLink, buf, p, change, lost, total, dead)
      && out.Valid()
      && out.packing == PackMore(out.mtu, start, Engine.PushWires(h, k, buf[..p]))
    }

    /** Second half of a round; what it encodes is the unit of the segment as it was. */
    method SendNext(h: Engine.Head, k: Engine.Tick, ghost buf: seq<Segment>, ghost start: Packing, ghost p: nat,
                    segment: Segment, cause: Engine.Cause)
      requires p < |buf| && out.Valid() && |segment.frag.data| + OVERHEAD <= out.mtu
      requires cause == Engine.CauseOf(k, buf[p]) && segment == Engine.Transmitted(k, buf[p])
      requires out.packing == PackMore(out.mtu, start, Engine.PushWires(h, k, buf[..p]))
      modifies this`dead, out, out.buffer
      ensures out.Valid() && out.buffer == old(out.buffer) && out.mtu == old(out.mtu) && out.before == old(out.before)
      ensures out.packing == PackMore(out.mtu, start, Engine.PushWires(h, k, buf[..p + 1]))
      ensures dead == (old(dead) || (!cause.Hold? && segment.xmit >= cfg.deadLink))
    {
      TransmitStep(h, k, buf, p, out.mtu, start);
      SameUnit(h, k, buf[p]);
      SendIfDue(h, k, segment, cause);
    }

    /** One round of the transmission loop. */
    method TransmitRound(ghost s: Clock, h: Engine.Head, k: Engine.Tick, ghost buf: seq<Segment>, ghost start: Packing,
                         p: nat, change: bool, lost: bool, ghost total: int)
      returns (change': bool, lost': bool, ghost total': int)
      requires p < |buf| && TransmitInv(s, h, k, buf, start, p, change, lost, total)
      requires |buf[p].frag.data| + OVERHEAD <= out.mtu
      modifies this`snd_buf, this`xmit, this`dead, out, out.buffer
      ensures TransmitInv(s, h, k, buf, start, p + 1, change', lost', total')
      ensures out.buffer == old(out.buffer) && out.mtu == old(out.mtu) && out.before == old(out.before)
    {
      CountedStep(s, k, cfg.deadLink, buf, p, change, lost, total, dead);
      SameUnit(h, k, buf[p]);
      var segment, cause := TouchNext(k, buf, p, total);
      SendNext(h, k, buf, start, p, segment, cause);
      change' := change || cause.Fast?;
      lost' := lost || cause.Timeout?;
      total' := total + if cause.Timeout? then 1 else 0;
    }

    /** Flush data segments. */
    method Transmit(h: Engine.Head, k: Engine.Tick) returns (change: bool, lost: bool, ghost total: int)
      requires forall i :: 0 <= i < |snd_buf| ==> |snd_buf[i].frag.data| + OVERHEAD <= out.mtu
      requires 0 <= xmit < MODULUS && out.Valid()
      modifies this`snd_buf, this`xmit, this`dead, out, out.buffer
      ensures out.buffer == old(out.buffer) && out.mtu == old(out.mtu) && out.before == old(out.before)
      ensures TransmitInv(old(Clk()), h, k, old(snd_buf), old(out.packing), |old(snd_buf)|, change, lost, total)
    {
      ghost var s, buf, start := Clk(), snd_buf, out.packing;
      total := xmit;
      change, lost := false, false;
      var p := 0;
      CountedStart(s, k, cfg.deadLink, buf);
      while p < |snd_buf|
        invariant 0 <= p <= |buf| == |snd_buf|
        invariant TransmitInv(s, h, k, buf, start, p, change, lost, total)
        invariant out.buffer == old(out.buffer) && out.mtu == old(out.mtu) && out.before == old(out.before)
      {
        change, lost, total := TransmitRound(s, h, k, buf, start, p, change, lost, total);
        p := p + 1;
      }
    }

    /** The same, for the whole control block. */
    method TransmitBuffer(h: Engine.Head, k: Engine.Tick) returns (change: bool, lost: bool, ghost total: int)
      requires forall i :: 0 <= i < |snd_buf| ==> |snd_buf[i].frag.data| + OVERHEAD <= out.mtu
      requires 0 <= xmit < MODULUS && out.Valid()
      modifies this`snd_buf, this`xmit, this`dead, out, out.buffer
      ensures out.buffer == old(out.buffer) && out.mtu == old(out.mtu) && out.before == old(out.before)
      ensures TransmitInv(old(Clk()), h, k, old(snd_buf), old(out.packing), |old(snd_buf)|, change, lost, total)
      ensures cfg == old(cfg) && RttView() == old(RttView()) && CcView() == old(CcView()) && Rcv() == old(Rcv())
      ensures Snd() == old(Snd()).(buf := snd_buf) && Clk() == old(Clk()).(xmit := xmit, dead := dead)
    {
      change, lost, total := Transmit(h, k);
    }

    /** Congestion adjustment at the end of `ikcp_flush`. */
    method AdjustWindow(change: bool, lost: bool, window: int, resent: int)
      requires ConfigOk(cfg) && resent == FastResend(cfg)
      modifies this`ssthresh, this`cwnd, this`incr
      ensures CcView() == KcpCongestion.Adjust(old(cfg), old(CcView()), U32(old(snd_nxt) - old(snd_una)), window, change, lost)
    {
      if change {
        var inflight := U32(snd_nxt - snd_una);
        ssthresh := inflight / 2;
        if ssthresh < THRESH_MIN { ssthresh := THRESH_MIN; }
        cwnd := U32(ssthresh + resent);
        var bytes := Multiply(cwnd, cfg.mss);
        incr := U32(bytes);
      }
      if lost {
        ssthresh := window / 2;
        if ssthresh < THRESH_MIN { ssthresh := THRESH_MIN; }
        cwnd := 1;
        incr := cfg.mss;
      }
      if cwnd < 1 {
        cwnd := 1;
        incr := cfg.mss;
      }
    }

    /** The same, for the whole control block. */
    method Adjust(change: bool, lost: bool, window: int, resent: int)
      requires Valid() && resent == FastResend(cfg)
      modifies this`ssthresh, this`cwnd, this`incr
      ensures Valid()
      ensures View() == old(View()).(
        cc := KcpCongestion.Adjust(old(cfg), old(CcView()), U32(old(snd_nxt) - old(snd_una)), window, change, lost))
    {
      AdjustWindow(change, lost, window, resent);
    }

    /** Probing: run the timer, encode what it asks for, clear the flags. */
    method FlushProbing(h: Engine.Head, last: Ack)
      requires out.Valid() && OVERHEAD <= out.mtu
      modifies this`probe_wait, this`ts_probe, this`ask_send, this`ask_tell, out, out.buffer
      ensures out.Valid() && out.buffer == old(out.buffer) && out.mtu == old(out.mtu) && out.before == old(out.before)
      ensures Clk() == Engine.ProbeTimer(old(Clk()), old(rmt_wnd)).(askSend := false, askTell := false)
      ensures out.packing == PackMore(out.mtu, old(out.packing),
        Engine.ProbeWires(h, Engine.ProbeTimer(old(Clk()), old(rmt_wnd)), last))
    {
      ProbeTimer();
      FlushProbes(h, last);
      ask_send := false;
      ask_tell := false;
    }

    /** Acknowledgements, then probes that reuse the last acknowledgement's numbers. */
    method FlushAcksAndProbes(h: Engine.Head)
      requires out.Valid() && OVERHEAD <= out.mtu
      modifies this`acklist, this`probe_wait, this`ts_probe, this`ask_send, this`ask_tell, out, out.buffer
      ensures out.Valid() && out.buffer == old(out.buffer) && out.mtu == old(out.mtu) && out.before == old(out.before)
      ensures acklist == []
      ensures Clk() == Engine.ProbeTimer(old(Clk()), old(rmt_wnd)).(askSend := false, askTell := false)
      ensures out.packing == PackMore(out.mtu, old(out.packing),
        Engine.AckWires(h, old(acklist))
        + Engine.ProbeWires(h, Engine.ProbeTimer(old(Clk()), old(rmt_wnd)), Engine.ScratchAck(old(acklist))))
    {
      var last := if acklist == [] then Ack(0, 0) else acklist[|acklist| - 1];
      PackMoreConcat(out.mtu, out.packing, Engine.AckWires(h, acklist),
        Engine.ProbeWires(h, Engine.ProbeTimer(Clk(), rmt_wnd), last));
      FlushAcks(h);
      acklist := [];
      FlushProbing(h, last);
    }

    /** The first part of `ikcp_flush`, for the whole control block. */
    method FlushControl(h: Engine.Head)
      requires out.Valid() && OVERHEAD <= out.mtu
      modifies this`acklist, this`probe_wait, this`ts_probe, this`ask_send, this`ask_tell, out, out.buffer
      ensures out.Valid() && out.buffer == old(out.buffer) && out.mtu == old(out.mtu) && out.before == old(out.before)
      ensures cfg == old(cfg) && RttView() == old(RttView()) && CcView() == old(CcView()) && Snd() == old(Snd())
      ensures Rcv() == old(Rcv()).(acks := [])
      ensures Clk() == Engine.ProbeTimer(old(Clk()), old(rmt_wnd)).(askSend := false, askTell := false)
      ensures out.packing == PackMore(out.mtu, old(out.packing),
        Engine.AckWires(h, old(acklist))
        + Engine.ProbeWires(h, Engine.ProbeTimer(old(Clk()), old(rmt_wnd)), Engine.ScratchAck(old(acklist))))
    {
      FlushAcksAndProbes(h);
    }

    /** The transmission loop, with what it leaves in terms of the whole buffer. */
    method FlushData(h: Engine.Head, k: Engine.Tick) returns (change: bool, lost: bool)
      requires SndFits() && 0 <= xmit < MODULUS && cfg.mss + OVERHEAD <= out.mtu
      requires out.Valid()
      modifies this`snd_buf, this`xmit, this`dead, out, out.buffer
      ensures SndFits()
      ensures out.Valid() && out.buffer == old(out.buffer) && out.mtu == old(out.mtu) && out.before == old(out.before)
      ensures cfg == old(cfg) && RttView() == old(RttView()) && CcView() == old(CcView()) && Rcv() == old(Rcv())
      ensures Snd() == old(Snd()).(buf := Engine.TransmitAll(k, old(snd_buf)))
      ensures out.packing == PackMore(out.mtu, old(out.packing), Engine.PushWires(h, k, old(snd_buf)))
      ensures change == (Engine.CountCause(k, Engine.Fast, old(snd_buf)) > 0)
      ensures lost == (Engine.CountCause(k, Engine.Timeout, old(snd_buf)) > 0)
      ensures Clk() == old(Clk()).(
        xmit := U32(old(xmit) + Engine.CountCause(k, Engine.Timeout, old(snd_buf))),
        dead := old(dead) || Engine.LinkDead(k, old(cfg).deadLink, old(snd_buf)))
    {
      ghost var buf := snd_buf;
      ghost var total;
      change, lost, total := TransmitBuffer(h, k);
      assert buf[..|buf|] == buf;
      assert snd_buf == Engine.TransmitAll(k, buf);
      Engine.TransmittedLoad(k, buf);
    }

    /** `ikcp_flush` up to the transmission loop. */
    method FlushFirst(h: Engine.Head, k: Engine.Tick, window: int)
      requires SndFits() && OVERHEAD <= out.mtu && out.Idle()
      requires k.current == current && k.rto == rx_rto
      modifies this`acklist, this`probe_wait, this`ts_probe, this`ask_send, this`ask_tell
      modifies this`snd_queue, this`nsnd_que, this`snd_buf, this`nsnd_buf, this`snd_nxt
      modifies out, out.buffer
      ensures SndFits() && out.Valid() && out.buffer == old(out.buffer) && out.mtu == old(out.mtu)
      ensures out.before == old(out.emitted)
      ensures cfg == old(cfg) && RttView() == old(RttView()) && CcView() == old(CcView())
      ensures Rcv() == old(Rcv()).(acks := [])
      ensures Snd() == MoveQueue(Wrapping, old(Snd()), window, k.current, k.rto)
      ensures Clk() == Engine.ProbeTimer(old(Clk()), old(rmt_wnd)).(askSend := false, askTell := false)
      ensures out.packing == PackMore(out.mtu, Packing([], []),
        Engine.AckWires(h, old(acklist))
        + Engine.ProbeWires(h, Engine.ProbeTimer(old(Clk()), old(rmt_wnd)), Engine.ScratchAck(old(acklist))))
    {
      out.Begin();
      FlushControl(h);
      NumberAll(window);
    }

    /** The transmission loop and the final output. */
    method FlushRest(h: Engine.Head, k: Engine.Tick, ghost first: seq<Wire>) returns (change: bool, lost: bool)
      requires SndFits() && 0 <= xmit < MODULUS && cfg.mss + OVERHEAD <= out.mtu
      requires out.Valid() && out.packing == PackMore(out.mtu, Packing([], []), first)
      modifies this`snd_buf, this`xmit, this`dead, out, out.buffer
      ensures SndFits() && out.Idle() && out.buffer == old(out.buffer) && out.mtu == old(out.mtu)
      ensures cfg == old(cfg) && RttView() == old(RttView()) && CcView() == old(CcView()) && Rcv() == old(Rcv())
      ensures Snd() == old(Snd()).(buf := Engine.TransmitAll(k, old(snd_buf)))
      ensures change == (Engine.CountCause(k, Engine.Fast, old(snd_buf)) > 0)
      ensures lost == (Engine.CountCause(k, Engine.Timeout, old(snd_buf)) > 0)
      ensures Clk() == old(Clk()).(
        xmit := U32(old(xmit) + Engine.CountCause(k, Engine.Timeout, old(snd_buf))),
        dead := old(dead) || Engine.LinkDead(k, old(cfg).deadLink, old(snd_buf)))
      ensures out.emitted == old(out.before) + Datagrams(Pack(out.mtu, first + Engine.PushWires(h, k, old(snd_buf))))
    {
      ghost var p, rest := out.packing, Engine.PushWires(h, k, snd_buf);
      change, lost := FlushData(h, k);
      FinishPacking(out.mtu, p, first, rest, out.packing);
      out.Output();
    }

    /** `ikcp_flush` without its congestion adjustment; `snd` is the sender after numbering,
        `first` the units encoded before the transmission loop. */
    method FlushUnits(h: Engine.Head, k: Engine.Tick, window: int)
      returns (change: bool, lost: bool, ghost snd: Sender, ghost first: seq<Wire>)
      requires SndFits() && 0 <= xmit < MODULUS && cfg.mss + OVERHEAD <= out.mtu && OVERHEAD <= out.mtu && out.Idle()
      requires k.current == current && k.rto == rx_rto
      modifies this`acklist, this`probe_wait, this`ts_probe, this`ask_send, this`ask_tell
      modifies this`snd_queue, this`nsnd_que, this`snd_buf, this`nsnd_buf, this`snd_nxt, this`xmit, this`dead
      modifies out, out.buffer
      ensures SndFits() && out.Idle() && out.buffer == old(out.buffer) && out.mtu == old(out.mtu)
      ensures cfg == old(cfg) && RttView() == old(RttView()) && CcView() == old(CcView())
      ensures Rcv() == old(Rcv()).(acks := [])
      ensures snd == MoveQueue(Wrapping, old(Snd()), window, k.current, k.rto)
      ensures first == Engine.AckWires(h, old(acklist))
        + Engine.ProbeWires(h, Engine.ProbeTimer(old(Clk()), old(rmt_wnd)), Engine.ScratchAck(old(acklist)))
      ensures Snd() == snd.(buf := Engine.TransmitAll(k, snd.buf))
      ensures Clk() == Engine.ClockAfter(old(Clk()), old(rmt_wnd), k, old(cfg).deadLink, snd.buf)
      ensures change == (Engine.CountCause(k, Engine.Fast, snd.buf) > 0)
      ensures lost == (Engine.CountCause(k, Engine.Timeout, snd.buf) > 0)
      ensures out.emitted == old(out.emitted) + Datagrams(Pack(out.mtu, first + Engine.PushWires(h, k, snd.buf)))
    {
      ghost var c := Clk();
      first := Engine.AckWires(h, acklist)
        + Engine.ProbeWires(h, Engine.ProbeTimer(c, rmt_wnd), Engine.ScratchAck(acklist));
      FlushFirst(h, k, window);
      snd := Snd();
      ProbeTimerKeeps(c, rmt_wnd);
      assert xmit == Clk().xmit == c.xmit && dead == Clk().dead == c.dead;
      change, lost := FlushRest(h, k, first);
    }

    /** The same, for the whole control block. */
    method FlushBuffer(h: Engine.Head, k: Engine.Tick, window: int)
      returns (change: bool, lost: bool, ghost snd: Sender, ghost first: seq<Wire>)
      requires Valid()
      requires k.current == current && k.rto == rx_rto
      modifies this`acklist, this`probe_wait, this`ts_probe, this`ask_send, this`ask_tell
      modifies this`snd_queue, this`nsnd_que, this`snd_buf, this`nsnd_buf, this`snd_nxt, this`xmit, this`dead
      modifies out, out.buffer
      ensures Valid() && out.buffer == old(out.buffer)
      ensures snd == MoveQueue(Wrapping, old(Snd()), window, k.current, k.rto)
      ensures first == Engine.AckWires(h, old(acklist))
        + Engine.ProbeWires(h, Engine.ProbeTimer(old(Clk()), old(rmt_wnd)), Engine.ScratchAck(old(acklist)))
      ensures View() == BeforeAdjusting(old(View()), k, snd)
      ensures change == (Engine.CountCause(k, Engine.Fast, snd.buf) > 0)
      ensures lost == (Engine.CountCause(k, Engine.Timeout, snd.buf) > 0)
      ensures out.emitted == old(out.emitted) + Datagrams(Pack(old(cfg).mtu, first + Engine.PushWires(h, k, snd.buf)))
    {
      ghost var s := View();
      change, lost, snd, first := FlushUnits(h, k, window);
      AssembleUnits(s, k, snd, View());
    }

    /** `ikcp_flush` with its scratch header, tick and window. */
    method FlushAll(h: Engine.Head, k: Engine.Tick, window: int) returns (ghost snd: Sender, ghost first: seq<Wire>)
      requires Valid()
      requires k == TickNow() && k.resent == FastResend(cfg)
      modifies this`acklist, this`probe_wait, this`ts_probe, this`ask_send, this`ask_tell
      modifies this`snd_queue, this`nsnd_que, this`snd_buf, this`nsnd_buf, this`snd_nxt, this`xmit, this`dead
      modifies this`ssthresh, this`cwnd, this`incr
      modifies out, out.buffer
      ensures Valid() && out.buffer == old(out.buffer)
      ensures snd == MoveQueue(Wrapping, old(Snd()), window, k.current, k.rto)
      ensures first == Engine.AckWires(h, old(acklist))
        + Engine.ProbeWires(h, Engine.ProbeTimer(old(Clk()), old(rmt_wnd)), Engine.ScratchAck(old(acklist)))
      ensures View() == BeforeAdjusting(old(View()), k, snd).(cc := AdjustedFor(old(View()), k, window, snd))
      ensures out.emitted == old(out.emitted) + Datagrams(Pack(old(cfg).mtu, first + Engine.PushWires(h, k, snd.buf)))
    {
      var change, lost;
      change, lost, snd, first := FlushBuffer(h, k, window);
      assert View().snd.nxt == snd.nxt && View().snd.una == snd.una;
      Adjust(change, lost, window, k.resent);
    }

    /** `ikcp_flush`; `units` is what the emitted datagrams carry. */
    method Flush() returns (ghost units: seq<Wire>)
      requires Valid()
      modifies this, out, out.buffer
      ensures Valid() && out.buffer == old(out.buffer)
      ensures Engine.FlushResult(View(), units) == Engine.Flush(Wrapping, old(View()))
      ensures out.emitted == old(out.emitted) + Datagrams(Pack(old(cfg).mtu, units))
    {
      units := [];
      if !updated {
        assert Datagrams(Pack(cfg.mtu, [])) == [];
        return;
      }
      ghost var s := View();
      var head, tick := HeadNow(), TickNow();
      var window := if cfg.sndWnd <= rmt_wnd then cfg.sndWnd else rmt_wnd;
      if !cfg.nocwnd { window := if cwnd <= window then cwnd else window; }
      ghost var snd, first := FlushAll(head, tick, window);
      units := first + Engine.PushWires(head, tick, snd.buf);
      AssembleFlush(s, head, tick, window, snd, first, View());
    }

    // -------------------------------------------------------------- update and check

    /** The time base of `ikcp_update`, before it decides whether to flush. */
    method Advance(now: int)
      modifies this`current, this`updated, this`ts_flush
      ensures Clk() == Engine.Advanced(old(Clk()), now)
    {
      current := now;
      if !updated {
        updated := true;
        ts_flush := current;
      }
      var slap := TimeDiff(current, ts_flush);
      if slap >= 10000 || slap < -10000 {
        ts_flush := current;
      }
    }

    /** The next flush time. */
    method Reschedule()
      modifies this`ts_flush
      ensures Clk() == Engine.Rescheduled(cfg, old(Clk()))
    {
      ts_flush := U32(ts_flush + cfg.interval);
      if TimeDiff(current, ts_flush) >= 0 {
        ts_flush := U32(current + cfg.interval);
      }
    }

    /** Both, for the whole control block; `due` says whether `ikcp_update` goes on to flush. */
    method Prepare(now: int) returns (due: bool)
      requires Valid()
      modifies this`current, this`updated, this`ts_flush
      ensures Valid()
      ensures var c := Engine.Advanced(old(Clk()), now);
        && due == Engine.FlushDue(c)
        && View() == old(View()).(clk := if due then Engine.Rescheduled(old(cfg), c) else c)
    {
      Advance(now);
      due := TimeDiff(current, ts_flush) >= 0;
      if due { Reschedule(); }
    }

    /** `ikcp_update`. */
    method Update(now: int) returns (ghost units: seq<Wire>)
      requires Valid()
      modifies this, out, out.buffer
      ensures Valid() && out.buffer == old(out.buffer)
      ensures Engine.FlushResult(View(), units) == Engine.Update(Wrapping, old(View()), now)
      ensures out.emitted == old(out.emitted) + Datagrams(Pack(old(cfg).mtu, units))
    {
      var due := Prepare(now);
      if due {
        units := Flush();
      } else {
        units := [];
        assert Datagrams(Pack(cfg.mtu, [])) == [];
      }
    }

    /** The loop of `ikcp_check`. */
    method SoonestDue(now: int) returns (tm_packet: int)
      ensures tm_packet == Engine.SoonestResend(snd_buf, now, 0x7fff_ffff)
    {
      tm_packet := 0x7fff_ffff;
      var p := 0;
      assert snd_buf[0..] == snd_buf;
      while p < |snd_buf|
        invariant 0 <= p <= |snd_buf|
        invariant Engine.SoonestResend(snd_buf, now, 0x7fff_ffff) == Engine.SoonestResend(snd_buf[p..], now, tm_packet)
      {
        assert snd_buf[p..][0] == snd_buf[p] && snd_buf[p..][1..] == snd_buf[p + 1..];
        var diff := TimeDiff(snd_buf[p].resendts, now);
        if diff <= 0 { return 0; }
        if diff < tm_packet { tm_packet := diff; }
        p := p + 1;
      }
    }

    /** `ikcp_check`. */
    method Check(now: int) returns (next: int)
      ensures next == Engine.Check(View(), now)
    {
      var ts_flush := this.ts_flush;
      if !updated { return now; }
      if TimeDiff(now, ts_flush) >= 10000 || TimeDiff(now, ts_flush) < -10000 { ts_flush := now; }
      if TimeDiff(now, ts_flush) >= 0 { return now; }
      var tm_flush := TimeDiff(ts_flush, now);
      var tm_packet := SoonestDue(now);
      if tm_packet == 0 { return now; }
      var minimal := if tm_packet < tm_flush then tm_packet else tm_flush;
      if minimal >= cfg.interval { minimal := cfg.interval; }
      return U32(now + minimal);
    }
  }

  // ---------------------------------------------------------------- loop steps

  lemma {:induction false} PackMoreConcat(mtu: int, p: Packing, a: seq<Wire>, b: seq<Wire>)
    ensures PackMore(mtu, PackMore(mtu, p, a), b) == PackMore(mtu, p, a + b)
    decreases |a|
  {
    if a == [] {
      assert a + b == b;
    } else {
      assert (a + b)[0] == a[0] && (a + b)[1..] == a[1..] + b;
      PackMoreConcat(mtu, PackOne(mtu, p, a[0]), a[1..], b);
    }
  }

  /** The last datagram goes out. */
  lemma {:induction false} FinishPacking(mtu: int, p: Packing, first: seq<Wire>, rest: seq<Wire>, q: Packing)
    requires p == PackMore(mtu, Packing([], []), first) && q == PackMore(mtu, p, rest)
    ensures Emit(q) == Pack(mtu, first + rest)
  {
    PackMoreConcat(mtu, Packing([], []), first, rest);
  }

  /** One more segment through the transmission loop. */
  lemma TransmitStep(h: Engine.Head, k: Engine.Tick, buf: seq<Segment>, p: nat, mtu: int, start: Packing)
    requires p < |buf|
    ensures var before := PackMore(mtu, start, Engine.PushWires(h, k, buf[..p]));
      PackMore(mtu, start, Engine.PushWires(h, k, buf[..p + 1]))
      == (if Engine.CauseOf(k, buf[p]).Hold? then before else PackOne(mtu, before, Engine.PushWire(h, k, buf[p])))
  {
    assert buf[..p + 1][..p] == buf[..p] && buf[..p + 1][p] == buf[p];
    var ws := Engine.PushWires(h, k, buf[..p]);
    PackMoreSnoc(mtu, start, ws, Engine.PushWire(h, k, buf[p]));
    assert ws + [] == ws;
  }

  /** The flags and counters of the transmission loop before position `p`. */
  ghost predicate Counted(s: Clock, k: Engine.Tick, deadLink: int, buf: seq<Segment>, p: nat,
                          change: bool, lost: bool, total: int, dead: bool)
    requires p <= |buf|
  {
    && change == (Engine.CountCause(k, Engine.Fast, buf[..p]) > 0)
    && lost == (Engine.CountCause(k, Engine.Timeout, buf[..p]) > 0)
    && total == s.xmit + Engine.CountCause(k, Engine.Timeout, buf[..p])
    && dead == (s.dead || Engine.LinkDead(k, deadLink, buf[..p]))
  }

  lemma CountedStart(s: Clock, k: Engine.Tick, deadLink: int, buf: seq<Segment>)
    ensures Counted(s, k, deadLink, buf, 0, false, false, s.xmit, s.dead)
  {
  }

  lemma CountedStep(s: Clock, k: Engine.Tick, deadLink: int, buf: seq<Segment>, p: nat,
                    change: bool, lost: bool, total: int, dead: bool)
    requires p < |buf| && Counted(s, k, deadLink, buf, p, change, lost, total, dead)
    ensures var cause := Engine.CauseOf(k, buf[p]);
      Counted(s, k, deadLink, buf, p + 1, change || cause.Fast?, lost || cause.Timeout?,
              total + (if cause.Timeout? then 1 else 0),
              dead || (!cause.Hold? && Engine.Transmitted(k, buf[p]).xmit >= deadLink))
  {
    assert buf[..p + 1][..p] == buf[..p] && buf[..p + 1][p] == buf[p];
  }

  /** A flush that transmitted from `snd`, before it adjusts the congestion window. */
  function BeforeAdjusting(s: Kcb, k: Engine.Tick, snd: Sender): Kcb {
    Kcb(s.cfg, snd.(buf := Engine.TransmitAll(k, snd.buf)), s.rcv.(acks := []), s.cc, s.rtt,
        Engine.ClockAfter(s.clk, s.cc.rmtWnd, k, s.cfg.deadLink, snd.buf))
  }

  function AdjustedFor(s: Kcb, k: Engine.Tick, window: int, snd: Sender): Congestion {
    Adjust(s.cfg, s.cc, U32(snd.nxt - snd.una), window,
           Engine.CountCause(k, Engine.Fast, snd.buf) > 0, Engine.CountCause(k, Engine.Timeout, snd.buf) > 0)
  }

  lemma AssembleUnits(s: Kcb, k: Engine.Tick, snd: Sender, t: Kcb)
    requires t.cfg == s.cfg && t.rtt == s.rtt && t.cc == s.cc && t.rcv == s.rcv.(acks := [])
    requires t.snd == snd.(buf := Engine.TransmitAll(k, snd.buf))
    requires t.clk == Engine.ClockAfter(s.clk, s.cc.rmtWnd, k, s.cfg.deadLink, snd.buf)
    ensures t == BeforeAdjusting(s, k, snd) && t.snd.nxt == snd.nxt && t.snd.una == snd.una
  {
  }

  /** The fields of a flush make up the flush. */
  lemma AssembleFlush(s: Kcb, h: Engine.Head, k: Engine.Tick, window: int, snd: Sender, first: seq<Wire>, t: Kcb)
    requires s.clk.updated && h == Engine.HeadOf(s) && k == Engine.TickOf(s) && window == SendWindow(s.cfg, s.cc)
    requires snd == MoveQueue(Wrapping, s.snd, window, k.current, k.rto)
    requires t == BeforeAdjusting(s, k, snd).(cc := AdjustedFor(s, k, window, snd))
    requires first == Engine.AckWires(h, s.rcv.acks)
      + Engine.ProbeWires(h, Engine.ProbeTimer(s.clk, s.cc.rmtWnd), Engine.ScratchAck(s.rcv.acks))
    ensures Engine.FlushResult(t, first + Engine.PushWires(h, k, snd.buf)) == Engine.Flush(Wrapping, s)
  {
  }

  lemma ProbeTimerKeeps(c: Clock, rmtWnd: int)
    ensures Engine.ProbeTimer(c, rmtWnd).xmit == c.xmit && Engine.ProbeTimer(c, rmtWnd).dead == c.dead
  {
  }

  lemma SameUnit(h: Engine.Head, k: Engine.Tick, g: Segment)
    ensures Engine.PushWire(h, k, Engine.Transmitted(k, g)) == Engine.PushWire(h, k, g)
    ensures Engine.Transmitted(k, g).frag == g.frag
  {
  }


  function SndAfter(s: Sender, w: Wire): Sender {
    if w.cmd == CMD_ACK then KcpSender.ShrinkBuf(KcpSender.ParseAck(Wrapping, s, w.sn)) else s
  }

  function RcvAfter(r: Receiver, w: Wire): Receiver {
    if w.cmd == CMD_PUSH then Push(Wrapping, r, Arrived(w.sn, w.frag), w.ts) else r
  }

  function RttAfter(interval: int, minrto: int, current: int, r: Rtt, w: Wire): Rtt {
    if w.cmd == CMD_ACK then Engine.Sampled(interval, minrto, r, TimeDiff(current, w.ts)) else r
  }

  /** `Engine.Process`, field by field. */
  function AfterUnit(s: Kcb, w: Wire): Kcb {
    Kcb(s.cfg,
        SndAfter(KcpSender.ShrinkBuf(KcpSender.ParseUna(Wrapping, s.snd, w.una)), w),
        RcvAfter(s.rcv, w),
        s.cc.(rmtWnd := w.wnd),
        RttAfter(s.cfg.interval, s.cfg.minrto, s.clk.current, s.rtt, w),
        s.clk.(askTell := s.clk.askTell || w.cmd == CMD_WASK))
  }

  lemma AssembleUnit(s: Kcb, w: Wire, t: Kcb)
    requires t.cfg == s.cfg
    requires t.snd == SndAfter(KcpSender.ShrinkBuf(KcpSender.ParseUna(Wrapping, s.snd, w.una)), w)
    requires t.rcv == RcvAfter(s.rcv, w)
    requires t.cc == s.cc.(rmtWnd := w.wnd)
    requires t.rtt == RttAfter(s.cfg.interval, s.cfg.minrto, s.clk.current, s.rtt, w)
    requires t.clk == s.clk.(askTell := s.clk.askTell || w.cmd == CMD_WASK)
    ensures t == AfterUnit(s, w)
  {
  }

  lemma AssembleInput(s: Kcb, data: seq<byte>, t: Kcb, note: Engine.AckNote, code: int)
    requires OVERHEAD <= |data| && 0 < s.cfg.mss
    requires var d := DecodeAll(s.cfg.conv, data);
      t == Engine.ProcessAll(Wrapping, s, d.wires) && note == Engine.NoteAll(Wrapping, Engine.NoAck, d.wires) && code == d.code
    ensures t.cfg == s.cfg
    ensures Engine.Input(s, data) == Engine.InputResult(
      if code != 0 then t else Engine.Conclude(Wrapping, t, note, s.snd.una), code)
  {
  }

  lemma AfterUnitIsProcess(s: Kcb, w: Wire)
    ensures AfterUnit(s, w) == Engine.Process(Wrapping, s, w)
  {
  }

  /** Decoding one unit off the front of the input. */
  lemma UnitStep(b: seq<byte>, w: Wire, s: Kcb, note: Engine.AckNote, conv: int)
    requires OVERHEAD <= |b|
    requires var h := DecodeHeader(b);
      var body := b[OVERHEAD..];
      && h.conv == conv && h.len <= |body| && h.len < HALF && KnownCommand(h.cmd)
      && w == Wire(h.conv, h.cmd, Frag(h.frg, body[..h.len]), h.wnd, h.ts, h.sn, h.una)
    ensures var d := DecodeAll(conv, b);
      var more := DecodeAll(conv, b[OVERHEAD..][DecodeHeader(b).len..]);
      && d.code == more.code
      && Engine.ProcessAll(Wrapping, s, d.wires) == Engine.ProcessAll(Wrapping, AfterUnit(s, w), more.wires)
      && Engine.NoteAll(Wrapping, note, d.wires) == Engine.NoteAll(Wrapping, Engine.NoteOf(Wrapping, note, w), more.wires)
  {
    var d := DecodeAll(conv, b);
    AfterUnitIsProcess(s, w);
    assert d.wires[0] == w && d.wires[1..] == DecodeAll(conv, b[OVERHEAD..][DecodeHeader(b).len..]).wires;
  }

  /** The bytes of the message at the head of a receive queue. */
  function HeadBytes(queue: seq<Arrived>): seq<byte> {
    Payload(queue[..MessageSpan(queue)])
  }

  lemma HeadStep(queue: seq<Arrived>, p: nat)
    requires p < |queue|
    ensures var rest := queue[p + 1..];
      var last := queue[p].frag.frg == 0;
      && HeadBytes(queue[p..]) == queue[p].frag.data + (if last then [] else HeadBytes(rest))
      && MessageSpan(queue[p..]) == 1 + (if last then 0 else MessageSpan(rest))
  {
    var q := queue[p..];
    var n := MessageSpan(q);
    assert q[0] == queue[p] && q[1..] == queue[p + 1..];
    assert q[..n][0] == q[0] && q[..n][1..] == q[1..][..n - 1];
    assert Payload(q[..n]) == q[0].frag.data + Payload(q[..n][1..]);
    if q[0].frag.frg == 0 {
      assert q[..n][1..] == [];
      assert Payload(q[..n][1..]) == [];
    }
  }

  lemma CutStep(mss: int, stream: bool, payload: seq<byte>, n: nat, queue: seq<Frag>)
    requires 0 < mss && 0 < n
    ensures var size := Min(mss, |payload|);
      queue + Cut(mss, stream, payload, n)
      == queue + [Frag(if stream then 0 else n - 1, payload[..size])] + Cut(mss, stream, payload[size..], n - 1)
  {
  }

  /** One more segment of the message at the head. */
  lemma MergeStep(queue: seq<Arrived>, k: nat, message: seq<byte>)
    requires k < |queue|
    ensures var rest, last := queue[k + 1..], queue[k].frag.frg == 0;
      && queue[k..][1..] == rest
      && message + HeadBytes(queue[k..]) == message + queue[k].frag.data + (if last then [] else HeadBytes(rest))
      && MessageSpan(queue[k..]) == 1 + (if last then 0 else MessageSpan(rest))
  {
    var last := queue[k].frag.frg == 0;
    HeadStep(queue, k);
    Assoc(message, queue[k].frag.data, if last then [] else HeadBytes(queue[k + 1..]));
  }

  lemma DropSnStep(buf: seq<Segment>, p: nat, sn: int)
    requires p < |buf|
    ensures buf[..p] + DropSn(Wrapping, buf[p..], sn) ==
      if sn == buf[p].sn then buf[..p] + buf[p + 1..]
      else if TimeDiff(sn, buf[p].sn) < 0 then buf
      else buf[..p + 1] + DropSn(Wrapping, buf[p + 1..], sn)
  {
    assert buf[p..][1..] == buf[p + 1..];
    assert buf[..p] + buf[p..] == buf;
    assert buf[..p] + ([buf[p]] + DropSn(Wrapping, buf[p + 1..], sn))
        == buf[..p + 1] + DropSn(Wrapping, buf[p + 1..], sn);
  }

  function Bumped(g: Segment, sn: int): Segment {
    if sn != g.sn then g.(fastack := U32(g.fastack + 1)) else g
  }

  /** `now` is `buf` with the bumps before position `p` done. */
  lemma BumpStep(buf: seq<Segment>, now: seq<Segment>, p: nat, sn: int)
    requires p < |buf| == |now| && now[p..] == buf[p..]
    ensures var next := now[p := Bumped(now[p], sn)];
      && next[p + 1..] == buf[p + 1..]
      && now[..p] + BumpFastack(Wrapping, buf[p..], sn) ==
           if TimeDiff(sn, buf[p].sn) < 0 then now else next[..p + 1] + BumpFastack(Wrapping, buf[p + 1..], sn)
  {
    var next := now[p := Bumped(now[p], sn)];
    assert now[p] == now[p..][0] == buf[p];
    assert buf[p..][1..] == buf[p + 1..];
    assert now[p..][1..] == now[p + 1..] == next[p + 1..];
    assert now[..p] + now[p..] == now;
    assert next[..p + 1] == now[..p] + [next[p]];
    var tail := BumpFastack(Wrapping, buf[p + 1..], sn);
    assert now[..p] + ([next[p]] + tail) == now[..p] + [next[p]] + tail;
  }

  lemma InsertStep(buf: seq<Arrived>, p: nat, x: Arrived)
    requires 0 < p <= |buf|
    ensures Insert(Wrapping, buf[..p], x) + buf[p..] ==
      if buf[p - 1].sn == x.sn then buf
      else if TimeDiff(x.sn, buf[p - 1].sn) > 0 then buf[..p] + [x] + buf[p..]
      else Insert(Wrapping, buf[..p - 1], x) + buf[p - 1..]
  {
    assert buf[..p][..p - 1] == buf[..p - 1];
    assert buf[p - 1..] == [buf[p - 1]] + buf[p..];
    assert buf[..p] + buf[p..] == buf;
  }
}
