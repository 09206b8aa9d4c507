/** Constants and records of the KCP engine (`udp/ikcp.c`, `udp/ikcp.h`). */
module KcpTypes {
  import opened Serial
  import Bytes

  type byte = Bytes.byte

  const RTO_NDL := 30
  const RTO_MIN := 100
  const RTO_DEF := 200
  const RTO_MAX := 60000
  const CMD_PUSH := 81
  const CMD_ACK := 82
  const CMD_WASK := 83
  const CMD_WINS := 84
  const WND_SND := 32
  const WND_RCV := 128
  const MTU_DEF := 1400
  const INTERVAL := 100
  const OVERHEAD := 24
  const DEADLINK := 20
  const THRESH_INIT := 2
  const THRESH_MIN := 2
  const PROBE_INIT := 7000
  const PROBE_LIMIT := 120000
  const FASTACK_LIMIT := 5

  /** What a queued segment carries: fragment counter and data. */
  datatype Frag = Frag(frg: nat, data: seq<byte>)

  /** A segment of `snd_buf`.  The copies of `ts`, `wnd` and `una` kept in the C struct
      are rewritten immediately before every encoding and read nowhere else. */
  datatype Segment = Segment(sn: int, frag: Frag, resendts: int, rto: int, fastack: int, xmit: int)

  /** A segment of `rcv_buf` or `rcv_queue`. */
  datatype Arrived = Arrived(sn: int, frag: Frag)

  /** An entry of `acklist`. */
  datatype Ack = Ack(sn: int, ts: int)

  /** One protocol unit as `ikcp_encode_seg` receives it and `ikcp_input` decodes it. */
  datatype Wire = Wire(conv: int, cmd: int, frag: Frag, wnd: int, ts: int, sn: int, una: int)

  datatype Config = Config(
    conv: int, mtu: int, mss: int, stream: bool, sndWnd: int, nodelay: int, minrto: int,
    interval: int, fastresend: int, fastlimit: int, nocwnd: bool, deadLink: int)

  datatype Sender = Sender(una: int, nxt: int, queue: seq<Frag>, buf: seq<Segment>)

  datatype Receiver = Receiver(nxt: int, wnd: int, queue: seq<Arrived>, buf: seq<Arrived>, acks: seq<Ack>)

  datatype Congestion = Congestion(rmtWnd: int, cwnd: int, incr: int, ssthresh: int)

  datatype Rtt = Rtt(srtt: int, rttval: int, rto: int)

  /** `askSend` and `askTell` are the bits IKCP_ASK_SEND and IKCP_ASK_TELL of `probe`;
      `dead` is `state == (IUINT32)-1`. */
  datatype Clock = Clock(
    current: int, updated: bool, tsFlush: int, tsProbe: int, probeWait: int,
    askSend: bool, askTell: bool, xmit: int, dead: bool)

  /** The control block. */
  datatype Kcb = Kcb(cfg: Config, snd: Sender, rcv: Receiver, cc: Congestion, rtt: Rtt, clk: Clock)

  function Min(a: int, b: int): int { if a <= b then a else b }

  function Max(a: int, b: int): int { if a >= b then a else b }

  /** What `ikcp_setmtu` and `ikcp_create` establish about the sizes; `mtu` is a C int. */
  predicate SizesOk(cfg: Config) {
    && 50 <= cfg.mtu < HALF
    && cfg.mss == cfg.mtu - OVERHEAD
  }

  /** What `ikcp_nodelay`, `ikcp_interval` and `ikcp_wndsize` establish. */
  predicate TuningOk(cfg: Config) {
    && 10 <= cfg.interval <= 5000
    && 0 < cfg.sndWnd < HALF
    && (cfg.minrto == RTO_NDL || cfg.minrto == RTO_MIN)
    && 0 <= cfg.nodelay < HALF
    && 0 <= cfg.fastresend < HALF
    && -HALF <= cfg.fastlimit < HALF
    && 0 <= cfg.conv < MODULUS
    && 0 <= cfg.deadLink < MODULUS
  }

  predicate ConfigOk(cfg: Config) {
    SizesOk(cfg) && TuningOk(cfg)
  }

  /** `ikcp_create`. */
  function Created(cfg: Config, rcvWnd: int): Kcb {
    Kcb(cfg,
        Sender(0, 0, [], []),
        Receiver(0, rcvWnd, [], [], []),
        Congestion(WND_RCV, 0, 0, THRESH_INIT),
        Rtt(0, 0, RTO_DEF),
        Clock(0, false, INTERVAL, 0, 0, false, false, 0, false))
  }
}
