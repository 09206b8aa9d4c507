/** The engine's entry points as functions on the control block: `ikcp_input`,
    `ikcp_flush`, `ikcp_update`, `ikcp_check`, `ikcp_send` and `ikcp_recv`. */
module KcpEngine {
  import opened Serial
  import opened KcpTypes
  import opened KcpSender
  import opened KcpReceiver
  import opened KcpFragment
  import opened KcpWire
  import opened KcpCongestion

  // ---------------------------------------------------------------- input

  /** `flag`, `maxack` of `ikcp_input`. */
  datatype AckNote = NoAck | Newest(sn: int)

  function Noted(m: Arith, note: AckNote, sn: int): AckNote {
    if note.NoAck? || Diff(m, sn, note.sn) > 0 then Newest(sn) else note
  }

  /** An acknowledgement from the future gives no round-trip sample. */
  function Sampled(interval: int, minrto: int, r: Rtt, age: int): Rtt {
    if age >= 0 then UpdateAck(interval, minrto, r, age) else r
  }

  /** The ACK branch. */
  function TakeAck(m: Arith, s: Kcb, sn: int, ts: int): Kcb {
    s.(rtt := Sampled(s.cfg.interval, s.cfg.minrto, s.rtt, TimeDiff(s.clk.current, ts)),
       snd := ShrinkBuf(ParseAck(m, s.snd, sn)))
  }

  /** What every unit does first: record the peer's window and its cumulative ack. */
  function TakeUna(m: Arith, s: Kcb, wnd: int, una: int): Kcb {
    s.(cc := s.cc.(rmtWnd := wnd), snd := ShrinkBuf(ParseUna(m, s.snd, una)))
  }

  /** One round of the loop of `ikcp_input`. */
  function Process(m: Arith, s: Kcb, w: Wire): Kcb {
    var s' := TakeUna(m, s, w.wnd, w.una);
    if w.cmd == CMD_ACK then TakeAck(m, s', w.sn, w.ts)
    else if w.cmd == CMD_PUSH then s'.(rcv := Push(m, s'.rcv, Arrived(w.sn, w.frag), w.ts))
    else if w.cmd == CMD_WASK then s'.(clk := s'.clk.(askTell := true))
    else s'
  }

  function NoteOf(m: Arith, note: AckNote, w: Wire): AckNote {
    if w.cmd == CMD_ACK then Noted(m, note, w.sn) else note
  }

  function ProcessAll(m: Arith, s: Kcb, ws: seq<Wire>): (t: Kcb)
    ensures t.cfg == s.cfg
    decreases |ws|
  {
    if ws == [] then s else ProcessAll(m, Process(m, s, ws[0]), ws[1..])
  }

  function NoteAll(m: Arith, note: AckNote, ws: seq<Wire>): AckNote
    decreases |ws|
  {
    if ws == [] then note else NoteAll(m, NoteOf(m, note, ws[0]), ws[1..])
  }

  /** What follows the loop: fast acknowledgement and window growth. */
  function Conclude(m: Arith, s: Kcb, note: AckNote, prevUna: int): Kcb
    requires 0 < s.cfg.mss
  {
    var s' := if note.Newest? then s.(snd := ParseFastack(m, s.snd, note.sn)) else s;
    if Diff(m, s'.snd.una, prevUna) > 0 then s'.(cc := Grow(s'.cfg.mss, s'.cc)) else s'
  }

  /** A datagram of decoded units. */
  function Deliver(m: Arith, s: Kcb, ws: seq<Wire>): Kcb
    requires 0 < s.cfg.mss
  {
    Conclude(m, ProcessAll(m, s, ws), NoteAll(m, NoAck, ws), s.snd.una)
  }

  datatype InputResult = InputResult(kcb: Kcb, code: int)

  /** `ikcp_input`: a malformed unit ends the call at once, keeping the effect of the units
      before it but skipping what follows the loop. */
  function Input(s: Kcb, b: seq<byte>): InputResult
    requires 0 < s.cfg.mss
  {
    if |b| < OVERHEAD then InputResult(s, -1)
    else
      var d := DecodeAll(s.cfg.conv, b);
      if d.code != 0 then InputResult(ProcessAll(Wrapping, s, d.wires), d.code)
      else InputResult(Deliver(Wrapping, s, d.wires), 0)
  }

  // ---------------------------------------------------------------- flush

  /** `ikcp_wnd_unused`. */
  function UnusedWindow(r: Receiver): int {
    if |r.queue| < r.wnd then r.wnd - |r.queue| else 0
  }

  /** The `wnd` field as encoded, an IUINT16. */
  function AdvertisedWindow(r: Receiver): int {
    UnusedWindow(r) % 65536
  }

  /** The part of the scratch header of `ikcp_flush` that one flush never changes. */
  datatype Head = Head(conv: int, wnd: int, una: int)

  function HeadOf(s: Kcb): Head {
    Head(s.cfg.conv, AdvertisedWindow(s.rcv), s.rcv.nxt)
  }

  function ControlWire(h: Head, cmd: int, sn: int, ts: int): Wire {
    Wire(h.conv, cmd, Frag(0, []), h.wnd, ts, sn, h.una)
  }

  function AckWires(h: Head, acks: seq<Ack>): (ws: seq<Wire>)
    ensures |ws| == |acks|
    ensures forall i :: 0 <= i < |acks| ==> ws[i] == ControlWire(h, CMD_ACK, acks[i].sn, acks[i].ts)
  {
    seq(|acks|, i requires 0 <= i < |acks| => ControlWire(h, CMD_ACK, acks[i].sn, acks[i].ts))
  }

  /** The sn and ts left in the scratch header, which the probes then carry. */
  function ScratchAck(acks: seq<Ack>): Ack {
    if acks == [] then Ack(0, 0) else acks[|acks| - 1]
  }

  /** The window-probe timer. */
  function ProbeTimer(c: Clock, rmtWnd: int): Clock {
    if rmtWnd != 0 then c.(tsProbe := 0, probeWait := 0)
    else if c.probeWait == 0 then c.(probeWait := PROBE_INIT, tsProbe := U32(c.current + PROBE_INIT))
    else if TimeDiff(c.current, c.tsProbe) >= 0 then
      var w0 := Max(c.probeWait, PROBE_INIT);
      var wait := Min(U32(w0 + w0 / 2), PROBE_LIMIT);
      c.(probeWait := wait, tsProbe := U32(c.current + wait), askSend := true)
    else c
  }

  /** The probes due; `last` is what the scratch header still holds. */
  function ProbeWires(h: Head, c: Clock, last: Ack): seq<Wire> {
    (if c.askSend then [ControlWire(h, CMD_WASK, last.sn, last.ts)] else [])
    + (if c.askTell then [ControlWire(h, CMD_WINS, last.sn, last.ts)] else [])
  }

  /** What the transmission loop reads besides the segment. */
  datatype Tick = Tick(current: int, rto: int, rtomin: int, resent: int, nodelay: int, fastlimit: int)

  function TickOf(s: Kcb): Tick {
    Tick(s.clk.current, s.rtt.rto, if s.cfg.nodelay == 0 then s.rtt.rto / 8 else 0,
         FastResend(s.cfg), s.cfg.nodelay, s.cfg.fastlimit)
  }

  datatype Cause = Hold | First | Timeout | Fast

  /** Why a segment is transmitted now, if at all. */
  function CauseOf(k: Tick, g: Segment): Cause {
    if g.xmit == 0 then First
    else if TimeDiff(k.current, g.resendts) >= 0 then Timeout
    else if g.fastack >= k.resent && (S32(g.xmit) <= k.fastlimit || k.fastlimit <= 0) then Fast
    else Hold
  }

  /** Backed-off timeout after an expiry. */
  function BackOff(k: Tick, rto: int): int {
    if k.nodelay == 0 then U32(rto + Max(rto, k.rto))
    else U32(rto + CDiv(if k.nodelay < 2 then S32(rto) else k.rto, 2))
  }

  function Transmitted(k: Tick, g: Segment): Segment {
    match CauseOf(k, g)
    case Hold => g
    case First => g.(xmit := U32(g.xmit + 1), rto := k.rto, resendts := U32(k.current + k.rto + k.rtomin))
    case Timeout =>
      var rto := BackOff(k, g.rto);
      g.(xmit := U32(g.xmit + 1), rto := rto, resendts := U32(k.current + rto))
    case Fast => g.(xmit := U32(g.xmit + 1), fastack := 0, resendts := U32(k.current + g.rto))
  }

  function TransmitAll(k: Tick, buf: seq<Segment>): (out: seq<Segment>)
    ensures |out| == |buf|
    ensures forall i :: 0 <= i < |buf| ==> out[i] == Transmitted(k, buf[i])
  {
    seq(|buf|, i requires 0 <= i < |buf| => Transmitted(k, buf[i]))
  }

  /** Transmission changes bookkeeping only. */
  lemma TransmittedLoad(k: Tick, buf: seq<Segment>)
    ensures SameLoad(TransmitAll(k, buf), buf)
  {
  }

  function PushWire(h: Head, k: Tick, g: Segment): Wire {
    Wire(h.conv, CMD_PUSH, g.frag, h.wnd, k.current, g.sn, h.una)
  }

  /** The data units of the transmission loop, in buffer order. */
  function PushWires(h: Head, k: Tick, buf: seq<Segment>): seq<Wire> {
    if buf == [] then []
    else
      PushWires(h, k, buf[..|buf| - 1])
      + (if CauseOf(k, buf[|buf| - 1]).Hold? then [] else [PushWire(h, k, buf[|buf| - 1])])
  }

  function CountCause(k: Tick, c: Cause, buf: seq<Segment>): nat {
    if buf == [] then 0
    else CountCause(k, c, buf[..|buf| - 1]) + (if CauseOf(k, buf[|buf| - 1]) == c then 1 else 0)
  }

  /** Some transmitted segment has reached the dead-link count. */
  predicate LinkDead(k: Tick, deadLink: int, buf: seq<Segment>) {
    if buf == [] then false
    else
      var g := buf[|buf| - 1];
      LinkDead(k, deadLink, buf[..|buf| - 1]) || (!CauseOf(k, g).Hold? && Transmitted(k, g).xmit >= deadLink)
  }

  datatype FlushResult = FlushResult(kcb: Kcb, wires: seq<Wire>)

  /** The control block when the transmission loop starts. */
  function Numbered(m: Arith, s: Kcb): Kcb {
    s.(snd := MoveQueue(m, s.snd, SendWindow(s.cfg, s.cc), s.clk.current, s.rtt.rto))
  }

  /** The congestion record after a flush that transmitted from `snd`. */
  function FlushedCc(s: Kcb, snd: Sender): Congestion {
    Adjust(s.cfg, s.cc, U32(snd.nxt - snd.una), SendWindow(s.cfg, s.cc),
           CountCause(TickOf(s), Fast, snd.buf) > 0, CountCause(TickOf(s), Timeout, snd.buf) > 0)
  }

  /** The clock record after the units of `buf` that are due have been transmitted. */
  function ClockAfter(c: Clock, rmtWnd: int, k: Tick, deadLink: int, buf: seq<Segment>): Clock {
    ProbeTimer(c, rmtWnd).(
      askSend := false, askTell := false,
      xmit := U32(c.xmit + CountCause(k, Timeout, buf)),
      dead := c.dead || LinkDead(k, deadLink, buf))
  }

  function FlushedClock(s: Kcb, snd: Sender): Clock {
    ClockAfter(s.clk, s.cc.rmtWnd, TickOf(s), s.cfg.deadLink, snd.buf)
  }

  /** The control block after a flush that transmitted from `snd`. */
  function Flushed(s: Kcb, snd: Sender): Kcb {
    s.(snd := snd.(buf := TransmitAll(TickOf(s), snd.buf)),
       rcv := s.rcv.(acks := []),
       cc := FlushedCc(s, snd),
       clk := FlushedClock(s, snd))
  }

  /** Acknowledgements, probes and due data units, in the order they are encoded. */
  function Units(h: Head, acks: seq<Ack>, c: Clock, rmtWnd: int, k: Tick, buf: seq<Segment>): seq<Wire> {
    AckWires(h, acks) + ProbeWires(h, ProbeTimer(c, rmtWnd), ScratchAck(acks)) + PushWires(h, k, buf)
  }

  /** The units of a flush that transmits from `snd`. */
  function FlushWires(s: Kcb, snd: Sender): seq<Wire> {
    Units(HeadOf(s), s.rcv.acks, s.clk, s.cc.rmtWnd, TickOf(s), snd.buf)
  }

  /** `ikcp_flush`: acknowledgements, probes, newly numbered segments, due transmissions,
      congestion adjustment. */
  function Flush(m: Arith, s: Kcb): FlushResult {
    if !s.clk.updated then FlushResult(s, [])
    else FlushResult(Flushed(s, Numbered(m, s).snd), FlushWires(s, Numbered(m, s).snd))
  }

  // ---------------------------------------------------------------- update and check

  /** The time base after `ikcp_update` has looked at `now`. */
  function Advanced(c: Clock, now: int): Clock {
    var c1 := if c.updated then c.(current := now) else c.(current := now, updated := true, tsFlush := now);
    var slap := TimeDiff(now, c1.tsFlush);
    if slap >= 10000 || slap < -10000 then c1.(tsFlush := now) else c1
  }

  predicate FlushDue(c: Clock) {
    TimeDiff(c.current, c.tsFlush) >= 0
  }

  function Rescheduled(cfg: Config, c: Clock): Clock {
    var next := U32(c.tsFlush + cfg.interval);
    c.(tsFlush := if TimeDiff(c.current, next) >= 0 then U32(c.current + cfg.interval) else next)
  }

  /** `ikcp_update`. */
  function Update(m: Arith, s: Kcb, now: int): FlushResult {
    var c := Advanced(s.clk, now);
    if FlushDue(c) then Flush(m, s.(clk := Rescheduled(s.cfg, c))) else FlushResult(s.(clk := c), [])
  }

  /** The least time until a segment is due, at most `best`; 0 if one is due already. */
  function SoonestResend(buf: seq<Segment>, current: int, best: int): int {
    if buf == [] then best
    else
      var diff := TimeDiff(buf[0].resendts, current);
      if diff <= 0 then 0 else SoonestResend(buf[1..], current, Min(diff, best))
  }

  /** `ikcp_check`. */
  function Check(s: Kcb, current: int): int {
    var c := Advanced(s.clk.(updated := true), current);
    if !s.clk.updated || FlushDue(c) then current
    else
      var packet := SoonestResend(s.snd.buf, current, 0x7fff_ffff);
      if packet == 0 then current
      else U32(current + Min(Min(packet, TimeDiff(c.tsFlush, current)), s.cfg.interval))
  }

  // ---------------------------------------------------------------- application calls

  datatype SendOutcome = SendOutcome(kcb: Kcb, code: int)

  /** `ikcp_send`. */
  function SendCall(s: Kcb, payload: seq<byte>): SendOutcome
    requires 0 < s.cfg.mss
  {
    var r := Send(s.cfg.mss, s.cfg.stream, s.snd.queue, payload);
    SendOutcome(s.(snd := s.snd.(queue := r.queue)), r.code)
  }

  datatype RecvOutcome = RecvOutcome(kcb: Kcb, code: int, message: seq<byte>)

  /** `ikcp_recv`. */
  function RecvCall(m: Arith, s: Kcb, len: int): RecvOutcome {
    var r := Recv(m, s.rcv, len);
    RecvOutcome(s.(rcv := r.rcv, clk := if r.tell then s.clk.(askTell := true) else s.clk), r.code, r.message)
  }
}
