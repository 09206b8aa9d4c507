/** Congestion control over whole runs of the two-endpoint system. */
module KcpRuns {
  import opened Serial
  import opened KcpTypes
  import opened KcpCongestion
  import opened KcpEngine
  import opened KcpSession

  /** Decoded units change the congestion record only by the advertised window. */
  lemma {:induction false} ProcessAllCc(m: Arith, s: Kcb, ws: seq<Wire>)
    requires 0 <= s.cc.rmtWnd < 65536
    requires forall i :: 0 <= i < |ws| ==> 0 <= ws[i].wnd < 65536
    ensures var t := ProcessAll(m, s, ws); t.cc == s.cc.(rmtWnd := t.cc.rmtWnd) && 0 <= t.cc.rmtWnd < 65536
    decreases |ws|
  {
    if ws != [] { ProcessAllCc(m, Process(m, s, ws[0]), ws[1..]); }
  }

  lemma ConcludeCc(m: Arith, s: Kcb, note: AckNote, prevUna: int)
    requires 0 < s.cfg.mss
    ensures var t := Conclude(m, s, note, prevUna); t.cc == s.cc || t.cc == Grow(s.cfg.mss, s.cc)
  {
  }

  /** A datagram keeps the record sound and never takes cwnd above both its old value and
      the peer's window. */
  lemma InputCc(m: Arith, s: Kcb, ws: seq<Wire>)
    requires CcOk(s.cfg, s.cc) && CcSizes(s.cfg)
    requires forall i :: 0 <= i < |ws| ==> 0 <= ws[i].wnd < 65536
    ensures var t := Deliver(m, s, ws); CcOk(s.cfg, t.cc) && t.cc.cwnd <= Max(s.cc.cwnd, t.cc.rmtWnd)
  {
    ProcessAllCc(m, s, ws);
    var t := ProcessAll(m, s, ws);
    ConcludeCc(m, t, NoteAll(m, NoAck, ws), s.snd.una);
    GrowKeeps(s.cfg, t.cc);
    GrowPeer(s.cfg.mss, t.cc);
  }

  lemma InFlight(m: Arith, p: Peer, q: Peer, s: Kcb) returns (n: nat)
    requires PeerOk(p) && Link(p, q) && Small(m, p) && s == p.kcb.(clk := s.clk) && s.clk.updated
    ensures var snd := Numbered(m, s).snd;
      && snd.una == s.snd.una && snd.nxt == s.snd.nxt + n && 0 <= snd.nxt - snd.una < 65536
      && n == Min(|s.snd.queue|, Max(0, s.snd.una + SendWindow(s.cfg, s.cc) - s.snd.nxt))
  {
    n := FlushedSender(m, s, AllFragments(p.kcb.cfg.mss, p.sent));
  }

  /** A flush numbers no segment at or beyond snd_una plus the send window, which is at most
      snd_wnd, the peer's window and, unless `nocwnd` is set, cwnd. */
  lemma FlushRespectsWindow(m: Arith, p: Peer, q: Peer, s: Kcb)
    requires PeerOk(p) && Link(p, q) && Small(m, p) && s == p.kcb.(clk := s.clk)
    ensures var t := Flush(m, s).kcb.snd;
      && t.una == s.snd.una && s.snd.nxt <= t.nxt
      && (t.nxt > s.snd.nxt ==>
           && t.nxt <= s.snd.una + s.cfg.sndWnd && t.nxt <= s.snd.una + s.cc.rmtWnd
           && (!s.cfg.nocwnd ==> t.nxt <= s.snd.una + s.cc.cwnd))
      && (s.clk.updated && t.queue != [] ==> t.nxt >= s.snd.una + SendWindow(s.cfg, s.cc))
  {
    if s.clk.updated {
      var n := FlushedSender(m, s, AllFragments(p.kcb.cfg.mss, p.sent));
    }
  }

  lemma FlushedCcOk(s: Kcb, snd: Sender)
    requires 0 < s.cfg.sndWnd && CcOk(s.cfg, s.cc) && CcSizes(s.cfg) && 0 <= snd.nxt - snd.una < 65536
    ensures var t := FlushedCc(s, snd); CcOk(s.cfg, t) && 1 <= t.cwnd
  {
    AdjustKeeps(s.cfg, s.cc, U32(snd.nxt - snd.una), SendWindow(s.cfg, s.cc),
                CountCause(TickOf(s), Fast, snd.buf) > 0, CountCause(TickOf(s), Timeout, snd.buf) > 0);
  }

  /** A flush leaves the window open and the record sound. */
  lemma FlushCc(m: Arith, p: Peer, q: Peer, s: Kcb)
    requires PeerOk(p) && Link(p, q) && Small(m, p) && s == p.kcb.(clk := s.clk)
    requires CcOk(s.cfg, s.cc) && CcSizes(s.cfg)
    ensures var t := Flush(m, s).kcb.cc; CcOk(s.cfg, t) && (s.clk.updated ==> 1 <= t.cwnd)
  {
    if s.clk.updated {
      var n := InFlight(m, p, q, s);
      FlushedCcOk(s, Numbered(m, s).snd);
    }
  }

  lemma UpdateCc(m: Arith, p: Peer, q: Peer, now: int)
    requires PeerOk(p) && Link(p, q) && Small(m, p)
    requires CcOk(p.kcb.cfg, p.kcb.cc) && CcSizes(p.kcb.cfg)
    ensures CcOk(p.kcb.cfg, Update(m, p.kcb, now).kcb.cc)
  {
    var c := Advanced(p.kcb.clk, now);
    if FlushDue(c) { FlushCc(m, p, q, p.kcb.(clk := Rescheduled(p.kcb.cfg, c))); }
  }

  /** Every call keeps the congestion record sound. */
  lemma StepCc(m: Arith, p: Peer, q: Peer, act: Act)
    requires PeerOk(p) && PeerOk(q) && Link(p, q) && Small(m, p)
    requires CcOk(p.kcb.cfg, p.kcb.cc) && CcSizes(p.kcb.cfg)
    ensures CcOk(p.kcb.cfg, Do(m, p, q.out, act).kcb.cc)
  {
    match act
    case DoSend(_) =>
    case DoRecv(_) =>
    case DoUpdate(now) => UpdateCc(m, p, q, U32(now));
    case DoFlush => FlushCc(m, p, q, p.kcb);
    case DoInput(d) => if d in q.out { InputCc(m, p.kcb, d); }
  }

  /** The record is sound where the sizes fit. */
  ghost predicate FitOk(s: Kcb) {
    CcSizes(s.cfg) ==> CcOk(s.cfg, s.cc)
  }

  lemma NextCc(m: Arith, s: Sys, mv: Move)
    requires SysOk(s) && AllSmall(m, s) && FitOk(s.a.kcb) && FitOk(s.b.kcb)
    ensures FitOk(Next(m, s, mv).a.kcb) && FitOk(Next(m, s, mv).b.kcb)
  {
    if mv.atA {
      if CcSizes(s.a.kcb.cfg) { StepCc(m, s.a, s.b, mv.act); }
    } else {
      if CcSizes(s.b.kcb.cfg) { StepCc(m, s.b, s.a, mv.act); }
    }
  }

  /** In every run with fixed sizes, at each endpoint whose sizes fit: |incr - cwnd * mss| <
      mss, ssthresh is at least 2, and no field leaves 32 bits. */
  lemma CongestionOverRuns(m: Arith, s: Sys, ca: Config, wa: int, cb: Config, wb: int, moves: seq<Move>)
    requires Fresh(s, ca, wa, cb, wb) && AllSmall(m, Run(m, s, moves))
    ensures var t := Run(m, s, moves);
      && (CcSizes(ca) ==> CcOk(ca, t.a.kcb.cc) && Tracks(ca.mss, t.a.kcb.cc))
      && (CcSizes(cb) ==> CcOk(cb, t.b.kcb.cc) && Tracks(cb.mss, t.b.kcb.cc))
  {
    SoundOverRuns(m, s, ca, wa, cb, wb, moves);
    var t := Run(m, s, moves);
    if CcSizes(ca) { InStepTracks(ca.mss, t.a.kcb.cc); }
    if CcSizes(cb) { InStepTracks(cb.mss, t.b.kcb.cc); }
  }

  lemma {:induction false} SoundOverRuns(m: Arith, s: Sys, ca: Config, wa: int, cb: Config, wb: int, moves: seq<Move>)
    requires Fresh(s, ca, wa, cb, wb) && AllSmall(m, Run(m, s, moves))
    ensures FitOk(Run(m, s, moves).a.kcb) && FitOk(Run(m, s, moves).b.kcb)
    decreases |moves|
  {
    if moves != [] {
      var t := Run(m, s, moves[..|moves| - 1]);
      var mv := moves[|moves| - 1];
      if mv.atA { SentGrows(m, t.a, t.b.out, mv.act); } else { SentGrows(m, t.b, t.a.out, mv.act); }
      Invariant(m, s, ca, wa, cb, wb, moves[..|moves| - 1]);
      SoundOverRuns(m, s, ca, wa, cb, wb, moves[..|moves| - 1]);
      NextCc(m, t, mv);
    }
  }

  // ---------------------------------------------------------------- retransmission timeout

  ghost predicate RtoOk(s: Kcb) {
    s.cfg.minrto <= s.rtt.rto <= RTO_MAX
  }

  lemma ProcessRto(m: Arith, s: Kcb, w: Wire)
    requires RtoOk(s) && s.cfg.minrto <= RTO_MAX
    ensures RtoOk(Process(m, s, w))
  {
    RtoClamped(s.cfg.interval, s.cfg.minrto, s.rtt, TimeDiff(s.clk.current, w.ts));
  }

  lemma {:induction false} ProcessAllRto(m: Arith, s: Kcb, ws: seq<Wire>)
    requires RtoOk(s) && s.cfg.minrto <= RTO_MAX
    ensures RtoOk(ProcessAll(m, s, ws))
    decreases |ws|
  {
    if ws != [] {
      ProcessRto(m, s, ws[0]);
      ProcessAllRto(m, Process(m, s, ws[0]), ws[1..]);
    }
  }

  lemma DeliverRto(m: Arith, s: Kcb, ws: seq<Wire>)
    requires RtoOk(s) && ConfigOk(s.cfg)
    ensures RtoOk(Deliver(m, s, ws))
  {
    ProcessAllRto(m, s, ws);
    ConcludeRto(m, ProcessAll(m, s, ws), NoteAll(m, NoAck, ws), s.snd.una);
  }

  lemma ConcludeRto(m: Arith, s: Kcb, note: AckNote, prevUna: int)
    requires 0 < s.cfg.mss
    ensures Conclude(m, s, note, prevUna).rtt == s.rtt && Conclude(m, s, note, prevUna).cfg == s.cfg
  {
  }

  lemma FlushRto(m: Arith, s: Kcb)
    ensures Flush(m, s).kcb.rtt == s.rtt && Flush(m, s).kcb.cfg == s.cfg
  {
  }

  lemma UpdateRto(m: Arith, s: Kcb, now: int)
    ensures Update(m, s, now).kcb.rtt == s.rtt && Update(m, s, now).kcb.cfg == s.cfg
  {
    var c := Advanced(s.clk, now);
    if FlushDue(c) { FlushRto(m, s.(clk := Rescheduled(s.cfg, c))); }
  }

  lemma StepRto(m: Arith, p: Peer, incoming: set<Datagram>, act: Act)
    requires ConfigOk(p.kcb.cfg) && RtoOk(p.kcb)
    ensures RtoOk(Do(m, p, incoming, act).kcb)
  {
    match act
    case DoSend(_) =>
    case DoRecv(_) =>
    case DoUpdate(now) => UpdateRto(m, p.kcb, U32(now));
    case DoFlush => FlushRto(m, p.kcb);
    case DoInput(d) => if d in incoming { DeliverRto(m, p.kcb, d); }
  }

  /** In every run, whatever the acknowledgements say, the timeout of either endpoint lies
      between its minimum and 60000 ms. */
  lemma {:induction false} RtoOverRuns(m: Arith, s: Sys, ca: Config, wa: int, cb: Config, wb: int, moves: seq<Move>)
    requires Fresh(s, ca, wa, cb, wb)
    ensures RtoOk(Run(m, s, moves).a.kcb) && RtoOk(Run(m, s, moves).b.kcb)
    decreases |moves|
  {
    if moves != [] {
      var t := Run(m, s, moves[..|moves| - 1]);
      var mv := moves[|moves| - 1];
      RtoOverRuns(m, s, ca, wa, cb, wb, moves[..|moves| - 1]);
      if mv.atA { StepRto(m, t.a, t.b.out, mv.act); } else { StepRto(m, t.b, t.a.out, mv.act); }
    }
  }
}
