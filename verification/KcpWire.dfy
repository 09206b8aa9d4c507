/** The wire format: 24-byte little-endian headers, and the packing of protocol units into
    datagrams of at most `mtu` bytes. */
module KcpWire {
  import opened Serial
  import opened KcpTypes
  import opened Sequences

  // ---------------------------------------------------------------- integers

  function Encode16(x: int): (b: seq<byte>)
    ensures |b| == 2
  {
    [x % 256, x / 256 % 256]
  }

  function Encode32(x: int): (b: seq<byte>)
    ensures |b| == 4
  {
    [x % 256, x / 256 % 256, x / 65536 % 256, x / 16777216 % 256]
  }

  function Decode16(b: seq<byte>): (x: int)
    requires |b| == 2
    ensures 0 <= x < 65536
  {
    b[0] as int + 256 * (b[1] as int)
  }

  function Decode32(b: seq<byte>): (x: int)
    requires |b| == 4
    ensures 0 <= x < MODULUS
  {
    b[0] as int + 256 * (b[1] as int) + 65536 * (b[2] as int) + 16777216 * (b[3] as int)
  }

  lemma DecodeEncode16(x: int)
    requires 0 <= x < 65536
    ensures Decode16(Encode16(x)) == x
  {
  }

  lemma DecodeEncode32(x: int)
    requires 0 <= x < MODULUS
    ensures Decode32(Encode32(x)) == x
  {
    var a, b, c := x / 256, x / 65536, x / 16777216;
    assert b == a / 256 && c == b / 256;
    assert c % 256 == c;
  }

  // ---------------------------------------------------------------- protocol units

  function EncodeHeader(w: Wire): (b: seq<byte>)
    ensures |b| == OVERHEAD
  {
    Encode32(w.conv) + [w.cmd % 256] + [w.frag.frg % 256] + Encode16(w.wnd)
    + Encode32(w.ts) + Encode32(w.sn) + Encode32(w.una) + Encode32(|w.frag.data|)
  }

  /** `ikcp_encode_seg` followed by the data. */
  function Encode(w: Wire): seq<byte> {
    EncodeHeader(w) + w.frag.data
  }

  function EncodeAll(ws: seq<Wire>): seq<byte> {
    if ws == [] then [] else Encode(ws[0]) + EncodeAll(ws[1..])
  }

  datatype Header = Header(conv: int, cmd: int, frg: int, wnd: int, ts: int, sn: int, una: int, len: int)

  function DecodeHeader(b: seq<byte>): Header
    requires OVERHEAD <= |b|
  {
    Header(Decode32(b[0..4]), b[4], b[5], Decode16(b[6..8]),
           Decode32(b[8..12]), Decode32(b[12..16]), Decode32(b[16..20]), Decode32(b[20..24]))
  }

  predicate KnownCommand(cmd: int) {
    cmd == CMD_PUSH || cmd == CMD_ACK || cmd == CMD_WASK || cmd == CMD_WINS
  }

  /** The protocol units found before decoding stopped, and the code it stopped with. */
  datatype Decoded = Decoded(wires: seq<Wire>, code: int)

  /** The header loop of `ikcp_input` for conversation `conv`. */
  function DecodeAll(conv: int, b: seq<byte>): Decoded {
    if |b| < OVERHEAD then Decoded([], 0)
    else
      var h := DecodeHeader(b);
      var rest := b[OVERHEAD..];
      if h.conv != conv then Decoded([], -1)
      else if |rest| < h.len || h.len >= HALF then Decoded([], -2)
      else if !KnownCommand(h.cmd) then Decoded([], -3)
      else
        var w := Wire(h.conv, h.cmd, Frag(h.frg, rest[..h.len]), h.wnd, h.ts, h.sn, h.una);
        var more := DecodeAll(conv, rest[h.len..]);
        Decoded([w] + more.wires, more.code)
  }

  /** A unit whose fields fit the header. */
  ghost predicate Fits(w: Wire, conv: int) {
    && w.conv == conv && 0 <= conv < MODULUS
    && KnownCommand(w.cmd) && w.frag.frg < 256 && 0 <= w.wnd < 65536
    && 0 <= w.ts < MODULUS && 0 <= w.sn < MODULUS && 0 <= w.una < MODULUS
    && |w.frag.data| < HALF
  }

  lemma EncodeHeaderLayout(w: Wire)
    ensures var b := EncodeHeader(w);
      && b[0..4] == Encode32(w.conv) && b[4] == w.cmd % 256 && b[5] == w.frag.frg % 256
      && b[6..8] == Encode16(w.wnd) && b[8..12] == Encode32(w.ts) && b[12..16] == Encode32(w.sn)
      && b[16..20] == Encode32(w.una) && b[20..24] == Encode32(|w.frag.data|)
  {
  }

  lemma DecodeHeaderPrefix(a: seq<byte>, rest: seq<byte>)
    requires |a| == OVERHEAD
    ensures DecodeHeader(a + rest) == DecodeHeader(a)
  {
    var b := a + rest;
    assert b[0..4] == a[0..4] && b[6..8] == a[6..8] && b[8..12] == a[8..12];
    assert b[12..16] == a[12..16] && b[16..20] == a[16..20] && b[20..24] == a[20..24];
  }

  lemma DecodeEncodeHeader(w: Wire, conv: int)
    requires Fits(w, conv)
    ensures DecodeHeader(EncodeHeader(w))
         == Header(conv, w.cmd, w.frag.frg, w.wnd, w.ts, w.sn, w.una, |w.frag.data|)
  {
    EncodeHeaderLayout(w);
    DecodeEncode32(w.conv);
    DecodeEncode16(w.wnd);
    DecodeEncode32(w.ts);
    DecodeEncode32(w.sn);
    DecodeEncode32(w.una);
    DecodeEncode32(|w.frag.data|);
  }

  /** Decoding what was encoded gives back the units, with nothing left over. */
  lemma {:induction false} DecodeEncodeAll(ws: seq<Wire>, conv: int)
    requires forall i :: 0 <= i < |ws| ==> Fits(ws[i], conv)
    ensures DecodeAll(conv, EncodeAll(ws)) == Decoded(ws, 0)
  {
    DecodeUpTo(conv, ws, []);
    assert EncodeAll(ws) + [] == EncodeAll(ws) && ws + [] == ws;
  }

  // ---------------------------------------------------------------- the format

  /** The bytes from `at` on write `x`, the lowest first. */
  ghost predicate Writes16(b: seq<byte>, at: nat, x: int) {
    at + 2 <= |b| && b[at] as int + 256 * (b[at + 1] as int) == x
  }

  ghost predicate Writes32(b: seq<byte>, at: nat, x: int) {
    && at + 4 <= |b|
    && b[at] as int + 256 * (b[at + 1] as int) + 65536 * (b[at + 2] as int) + 16777216 * (b[at + 3] as int) == x
  }

  /** Where the fields of a unit lie. */
  ghost predicate LaidOut(b: seq<byte>, w: Wire) {
    && |b| >= 24 + |w.frag.data|
    && Writes32(b, 0, w.conv) && b[4] == w.cmd && b[5] == w.frag.frg && Writes16(b, 6, w.wnd)
    && Writes32(b, 8, w.ts) && Writes32(b, 12, w.sn) && Writes32(b, 16, w.una) && Writes32(b, 20, |w.frag.data|)
    && b[24..24 + |w.frag.data|] == w.frag.data
  }

  lemma Wrote32(b: seq<byte>, at: nat, x: int)
    requires at + 4 <= |b| && 0 <= x < MODULUS && b[at..at + 4] == Encode32(x)
    ensures Writes32(b, at, x)
  {
    DecodeEncode32(x);
    var c := b[at..at + 4];
    assert c[0] == b[at] && c[1] == b[at + 1] && c[2] == b[at + 2] && c[3] == b[at + 3];
  }

  /** Every unit is encoded in that layout. */
  lemma EncodeLayout(w: Wire, conv: int)
    requires Fits(w, conv)
    ensures LaidOut(Encode(w), w) && |Encode(w)| == 24 + |w.frag.data|
  {
    var h, b := EncodeHeader(w), Encode(w);
    EncodeHeaderLayout(w);
    assert b[..24] == h && b[24..] == w.frag.data;
    assert b[24..24 + |w.frag.data|] == w.frag.data;
    Wrote32(h, 0, w.conv);
    Wrote32(h, 8, w.ts);
    Wrote32(h, 12, w.sn);
    Wrote32(h, 16, w.una);
    Wrote32(h, 20, |w.frag.data|);
    DecodeEncode16(w.wnd);
    assert h[6..8][0] == h[6] && h[6..8][1] == h[7];
    assert forall i :: 0 <= i < 24 ==> b[i] == h[i];
  }

  lemma Reads32(b: seq<byte>, at: nat)
    requires at + 4 <= |b|
    ensures Writes32(b, at, Decode32(b[at..at + 4]))
  {
  }

  lemma Writes32Once(b: seq<byte>, at: nat, x: int, y: int)
    requires Writes32(b, at, x) && Writes32(b, at, y)
    ensures x == y
  {
  }

  /** What the first unit of a datagram must be like, read off the bytes: of the conversation,
      with its data present, and of a known kind; else decoding stops there with a code. */
  lemma DecodeMeans(conv: int, b: seq<byte>, c: int, len: int)
    requires |b| >= 24 && Writes32(b, 0, c) && Writes32(b, 20, len)
    ensures var d := DecodeAll(conv, b);
      if c != conv then d == Decoded([], -1)
      else if len > |b| - 24 || len >= 0x8000_0000 then d == Decoded([], -2)
      else if b[4] != 81 && b[4] != 82 && b[4] != 83 && b[4] != 84 then d == Decoded([], -3)
      else
        && d.wires != [] && LaidOut(b, d.wires[0]) && |d.wires[0].frag.data| == len
        && Decoded(d.wires[1..], d.code) == DecodeAll(conv, b[24 + len..])
  {
    Reads32(b, 0);
    Reads32(b, 20);
    Writes32Once(b, 0, c, Decode32(b[0..4]));
    Writes32Once(b, 20, len, Decode32(b[20..24]));
    var d := DecodeAll(conv, b);
    if c == conv && len <= |b| - 24 && len < HALF && KnownCommand(b[4]) {
      FirstUnit(conv, b, len);
    }
  }

  lemma FirstUnit(conv: int, b: seq<byte>, len: int)
    requires |b| >= 24 && DecodeHeader(b).conv == conv && DecodeHeader(b).len == len <= |b| - 24 && len < HALF
    requires KnownCommand(b[4])
    ensures var d := DecodeAll(conv, b);
      && d.wires != [] && LaidOut(b, d.wires[0]) && |d.wires[0].frag.data| == len
      && Decoded(d.wires[1..], d.code) == DecodeAll(conv, b[24 + len..])
  {
    var rest := b[24..];
    assert rest[..len] == b[24..24 + len] && rest[len..] == b[24 + len..];
    Reads32(b, 0);
    Reads32(b, 8);
    Reads32(b, 12);
    Reads32(b, 16);
    Reads32(b, 20);
    var more := DecodeAll(conv, rest[len..]);
    var d := DecodeAll(conv, b);
    assert d.wires[1..] == more.wires;
  }

  /** One encoded unit in front. */
  lemma DecodeOne(conv: int, w: Wire, more: seq<byte>)
    requires Fits(w, conv)
    ensures var d := DecodeAll(conv, more); DecodeAll(conv, Encode(w) + more) == Decoded([w] + d.wires, d.code)
  {
    var b := Encode(w) + more;
    assert b == EncodeHeader(w) + (w.frag.data + more);
    DecodeHeaderPrefix(EncodeHeader(w), w.frag.data + more);
    DecodeEncodeHeader(w, conv);
    var rest := b[OVERHEAD..];
    assert rest == w.frag.data + more;
    assert rest[..|w.frag.data|] == w.frag.data && rest[|w.frag.data|..] == more;
  }

  /** Units with something else behind them. */
  lemma {:induction false} DecodeUpTo(conv: int, ws: seq<Wire>, tail: seq<byte>)
    requires forall i :: 0 <= i < |ws| ==> Fits(ws[i], conv)
    ensures var d := DecodeAll(conv, tail);
      DecodeAll(conv, EncodeAll(ws) + tail) == Decoded(ws + d.wires, d.code)
  {
    var d := DecodeAll(conv, tail);
    if ws == [] {
      assert EncodeAll(ws) + tail == tail && ws + d.wires == d.wires;
    } else {
      DecodeUpTo(conv, ws[1..], tail);
      DecodeOne(conv, ws[0], EncodeAll(ws[1..]) + tail);
      Assoc(Encode(ws[0]), EncodeAll(ws[1..]), tail);
      Assoc([ws[0]], ws[1..], d.wires);
      assert [ws[0]] + ws[1..] == ws;
    }
  }

  lemma {:induction false} EncodeAllAppend(a: seq<Wire>, b: seq<Wire>)
    ensures EncodeAll(a + b) == EncodeAll(a) + EncodeAll(b)
  {
    if a == [] {
      assert a + b == b;
    } else {
      EncodeAllAppend(a[1..], b);
      HeadTail(a, b);
      Assoc(Encode(a[0]), EncodeAll(a[1..]), EncodeAll(b));
    }
  }

  // ---------------------------------------------------------------- packing

  function WireSize(w: Wire): nat {
    OVERHEAD + |w.frag.data|
  }

  function SizeOf(ws: seq<Wire>): nat {
    if ws == [] then 0 else WireSize(ws[0]) + SizeOf(ws[1..])
  }

  /** Datagrams already output and the units in the buffer. */
  datatype Packing = Packing(done: seq<seq<Wire>>, cur: seq<Wire>)

  /** `ikcp_output` skips an empty buffer. */
  function Emit(p: Packing): seq<seq<Wire>> {
    if p.cur == [] then p.done else p.done + [p.cur]
  }

  /** Output first if the next unit does not fit, then append it. */
  function PackOne(mtu: int, p: Packing, w: Wire): Packing {
    if SizeOf(p.cur) + WireSize(w) > mtu then Packing(Emit(p), [w]) else Packing(p.done, p.cur + [w])
  }

  function PackMore(mtu: int, p: Packing, ws: seq<Wire>): Packing
    decreases |ws|
  {
    if ws == [] then p else PackMore(mtu, PackOne(mtu, p, ws[0]), ws[1..])
  }

  /** The datagrams of one flush, as lists of units. */
  function Pack(mtu: int, ws: seq<Wire>): seq<seq<Wire>> {
    Emit(PackMore(mtu, Packing([], []), ws))
  }

  /** The datagrams of one flush, as bytes. */
  function Datagrams(groups: seq<seq<Wire>>): (ds: seq<seq<byte>>)
    ensures |ds| == |groups| && forall i :: 0 <= i < |ds| ==> ds[i] == EncodeAll(groups[i])
  {
    seq(|groups|, i requires 0 <= i < |groups| => EncodeAll(groups[i]))
  }

  function Flat(groups: seq<seq<Wire>>): seq<Wire> {
    if groups == [] then [] else Flat(groups[..|groups| - 1]) + groups[|groups| - 1]
  }

  lemma {:induction false} SizeOfIsLength(ws: seq<Wire>)
    ensures |EncodeAll(ws)| == SizeOf(ws)
  {
    if ws != [] { SizeOfIsLength(ws[1..]); }
  }

  lemma {:induction false} SizeOfAppend(ws: seq<Wire>, w: Wire)
    ensures SizeOf(ws + [w]) == SizeOf(ws) + WireSize(w)
  {
    if ws == [] {
      assert ws + [w] == [w];
    } else {
      SizeOfAppend(ws[1..], w);
      assert (ws + [w])[1..] == ws[1..] + [w];
    }
  }

  ghost predicate AllFit(mtu: int, ws: seq<Wire>) {
    forall i :: 0 <= i < |ws| ==> WireSize(ws[i]) <= mtu
  }

  /** Datagrams are non-empty, at most `mtu` long, and each is as full as the next unit
      allowed. */
  ghost predicate WellPacked(mtu: int, groups: seq<seq<Wire>>) {
    && (forall i :: 0 <= i < |groups| ==> groups[i] != [] && SizeOf(groups[i]) <= mtu)
    && (forall i :: 0 < i < |groups| ==> groups[i] != [] && SizeOf(groups[i - 1]) + WireSize(groups[i][0]) > mtu)
  }

  ghost predicate PackingOk(mtu: int, p: Packing) {
    && WellPacked(mtu, Emit(p))
    && (p.cur == [] ==> p.done == [])
  }

  lemma FlatSnoc(groups: seq<seq<Wire>>, last: seq<Wire>)
    ensures Flat(groups + [last]) == Flat(groups) + last && (groups + [last])[..|groups|] == groups
  {
    assert (groups + [last])[..|groups|] == groups;
  }

  /** Where the buffer ends up when it is output first, and when it is not. */
  lemma PackOneEmits(mtu: int, p: Packing, w: Wire)
    requires p.cur == [] ==> p.done == []
    ensures var q := PackOne(mtu, p, w);
      && q.cur != [] && Emit(q) == q.done + [q.cur] && Flat(Emit(q)) == Flat(Emit(p)) + [w]
      && Emit(q)[..|q.done|] == q.done
  {
    var q := PackOne(mtu, p, w);
    FlatSnoc(q.done, q.cur);
    if SizeOf(p.cur) + WireSize(w) <= mtu {
      if p.cur == [] {
        assert Flat([]) + [w] == [w];
        assert p.cur + [w] == [w];
      } else {
        FlatSnoc(p.done, p.cur);
        Assoc(Flat(p.done), p.cur, [w]);
      }
    }
  }

  lemma PackOneKeeps(mtu: int, p: Packing, w: Wire)
    requires PackingOk(mtu, p) && WireSize(w) <= mtu
    ensures PackingOk(mtu, PackOne(mtu, p, w))
  {
    var q := PackOne(mtu, p, w);
    PackOneEmits(mtu, p, w);
    SizeOfAppend(p.cur, w);
    assert SizeOf([w]) == WireSize(w);
    if SizeOf(p.cur) + WireSize(w) > mtu {
      GroupOpens(mtu, Emit(p), w);
    } else if p.cur != [] {
      GroupGrows(mtu, p.done, p.cur, w);
    }
  }

  /** A unit that starts a datagram. */
  lemma GroupOpens(mtu: int, groups: seq<seq<Wire>>, w: Wire)
    requires WellPacked(mtu, groups) && SizeOf([w]) == WireSize(w) <= mtu
    requires groups != [] ==> SizeOf(groups[|groups| - 1]) + WireSize(w) > mtu
    ensures WellPacked(mtu, groups + [[w]])
  {
  }

  /** A unit that joins the last datagram. */
  lemma GroupGrows(mtu: int, groups: seq<seq<Wire>>, cur: seq<Wire>, w: Wire)
    requires cur != [] && WellPacked(mtu, groups + [cur])
    requires SizeOf(cur + [w]) <= mtu
    ensures WellPacked(mtu, groups + [cur + [w]])
  {
    var before, after := groups + [cur], groups + [cur + [w]];
    assert forall i :: 0 <= i < |groups| ==> after[i] == before[i];
    assert (cur + [w])[0] == cur[0];
  }

  lemma {:induction false} PackMoreFlat(mtu: int, p: Packing, ws: seq<Wire>)
    requires p.cur == [] ==> p.done == []
    ensures Flat(Emit(PackMore(mtu, p, ws))) == Flat(Emit(p)) + ws
    decreases |ws|
  {
    if ws == [] {
      assert Flat(Emit(p)) + ws == Flat(Emit(p));
    } else {
      PackOneEmits(mtu, p, ws[0]);
      PackMoreFlat(mtu, PackOne(mtu, p, ws[0]), ws[1..]);
      HeadTail(ws, []);
      Assoc(Flat(Emit(p)), [ws[0]], ws[1..]);
    }
  }

  lemma {:induction false} PackMoreKeeps(mtu: int, p: Packing, ws: seq<Wire>)
    requires PackingOk(mtu, p) && AllFit(mtu, ws)
    ensures PackingOk(mtu, PackMore(mtu, p, ws))
    decreases |ws|
  {
    if ws != [] {
      PackOneKeeps(mtu, p, ws[0]);
      PackMoreKeeps(mtu, PackOne(mtu, p, ws[0]), ws[1..]);
    }
  }

  /** Every unit is sent once and in order. */
  lemma PackFlat(mtu: int, ws: seq<Wire>)
    ensures Flat(Pack(mtu, ws)) == ws
  {
    PackMoreFlat(mtu, Packing([], []), ws);
    assert Flat([]) + ws == ws;
  }

  /** Datagrams are non-empty and at most `mtu` long, and none could have taken the first
      unit of the next. */
  lemma PackExact(mtu: int, ws: seq<Wire>)
    requires AllFit(mtu, ws)
    ensures WellPacked(mtu, Pack(mtu, ws)) && Flat(Pack(mtu, ws)) == ws
  {
    assert Emit(Packing([], [])) == [];
    PackMoreKeeps(mtu, Packing([], []), ws);
    PackFlat(mtu, ws);
  }

  lemma {:induction false} FlatMembers(groups: seq<seq<Wire>>, i: int, j: int)
    requires 0 <= i < |groups| && 0 <= j < |groups[i]|
    ensures groups[i][j] in Flat(groups)
  {
    if i < |groups| - 1 {
      FlatMembers(groups[..|groups| - 1], i, j);
    } else {
      assert groups[i][j] in groups[|groups| - 1];
    }
  }

  /** The peer's decoder, run over each datagram in turn. */
  function DecodeStream(conv: int, ds: seq<seq<byte>>): seq<Wire> {
    if ds == [] then []
    else DecodeStream(conv, ds[..|ds| - 1]) + DecodeAll(conv, ds[|ds| - 1]).wires
  }

  lemma {:induction false} DecodeStreamFlat(conv: int, groups: seq<seq<Wire>>)
    requires forall i :: 0 <= i < |groups| ==> DecodeAll(conv, EncodeAll(groups[i])).wires == groups[i]
    ensures DecodeStream(conv, Datagrams(groups)) == Flat(groups)
  {
    if groups != [] {
      DecodeStreamFlat(conv, groups[..|groups| - 1]);
      LastDatagram(groups);
    }
  }

  lemma LastDatagram(groups: seq<seq<Wire>>)
    requires groups != []
    ensures var ds, last := Datagrams(groups), |groups| - 1;
      ds != [] && ds[..last] == Datagrams(groups[..last]) && ds[last] == EncodeAll(groups[last])
  {
    assert Datagrams(groups)[..|groups| - 1] == Datagrams(groups[..|groups| - 1]);
  }

  /** Packing, sending and decoding is the identity on units that fit: each datagram is at
      most `mtu` bytes, decodes without error, and together they give back `ws` in order. */
  lemma PackedUnitsDecode(mtu: int, conv: int, ws: seq<Wire>)
    requires AllFit(mtu, ws) && forall i :: 0 <= i < |ws| ==> Fits(ws[i], conv)
    ensures var ds := Datagrams(Pack(mtu, ws));
      && (forall i :: 0 <= i < |ds| ==> 0 < |ds[i]| <= mtu && DecodeAll(conv, ds[i]).code == 0)
      && DecodeStream(conv, ds) == ws
  {
    var groups := Pack(mtu, ws);
    PackExact(mtu, ws);
    forall i | 0 <= i < |groups|
      ensures DecodeAll(conv, EncodeAll(groups[i])) == Decoded(groups[i], 0)
      ensures 0 < |EncodeAll(groups[i])| <= mtu
    {
      forall j | 0 <= j < |groups[i]| ensures Fits(groups[i][j], conv) {
        FlatMembers(groups, i, j);
      }
      DecodeEncodeAll(groups[i], conv);
      SizeOfIsLength(groups[i]);
    }
    DecodeStreamFlat(conv, groups);
  }
}
