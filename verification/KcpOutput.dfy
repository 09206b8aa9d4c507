/** The scratch buffer of `ikcp_flush` with its write pointer, and the datagrams handed to
    the output callback. */
module KcpOutput {
  import opened KcpTypes
  import opened KcpWire

  class Output {
    var mtu: nat
    /** `kcp->buffer`. */
    var buffer: array<byte>
    /** `ptr - buffer`. */
    var size: nat
    /** What the output callback has received. */
    var emitted: seq<seq<byte>>
    /** The units of the running flush, and what was emitted before it. */
    ghost var packing: Packing
    ghost var before: seq<seq<byte>>

    ghost predicate Valid()
      reads this, buffer
    {
      && 50 <= mtu && buffer.Length == (mtu + OVERHEAD) * 3
      && size <= mtu
      && size == SizeOf(packing.cur)
      && buffer[..size] == EncodeAll(packing.cur)
      && emitted == before + Datagrams(packing.done)
    }

    ghost predicate Idle()
      reads this, buffer
    {
      Valid() && packing.cur == []
    }

    constructor (mtu: nat)
      requires 50 <= mtu
      ensures Idle() && fresh(buffer) && this.mtu == mtu && emitted == []
    {
      this.mtu := mtu;
      buffer := new byte[(mtu + OVERHEAD) * 3];
      size := 0;
      emitted := [];
      packing := Packing([], []);
      before := [];
    }

    /** A new buffer for another `mtu`. */
    method Resize(mtu: nat)
      requires Idle() && 50 <= mtu
      modifies this`mtu, this`buffer
      ensures Idle() && this.mtu == mtu && emitted == old(emitted) && fresh(buffer)
    {
      SizeZero(packing.cur);
      this.mtu := mtu;
      buffer := new byte[(mtu + OVERHEAD) * 3];
    }

    /** Start of a flush. */
    ghost method Begin()
      requires Idle()
      modifies this`packing, this`before
      ensures Idle() && packing == Packing([], [])
      ensures before == emitted
    {
      packing := Packing([], []);
      before := emitted;
    }

    method Put8(x: int)
      requires size < buffer.Length
      modifies this`size, buffer
      ensures size == old(size) + 1 && buffer[..size] == old(buffer[..size]) + [x % 256]
    {
      buffer[size] := x % 256;
      size := size + 1;
    }

    method Put16(x: int)
      requires size + 2 <= buffer.Length
      modifies this`size, buffer
      ensures size == old(size) + 2 && buffer[..size] == old(buffer[..size]) + Encode16(x)
    {
      Put8(x);
      Put8(x / 256);
    }

    method Put32(x: int)
      requires size + 4 <= buffer.Length
      modifies this`size, buffer
      ensures size == old(size) + 4 && buffer[..size] == old(buffer[..size]) + Encode32(x)
    {
      Put8(x);
      Put8(x / 256);
      Put8(x / 65536);
      Put8(x / 16777216);
    }

    /** The `memcpy` of a segment's data. */
    method PutBytes(data: seq<byte>)
      requires size + |data| <= buffer.Length
      modifies this`size, buffer
      ensures size == old(size) + |data| && buffer[..size] == old(buffer[..size]) + data
    {
      for i := 0 to |data|
        invariant size == old(size) + i
        invariant buffer[..size] == old(buffer[..size]) + data[..i]
      {
        Put8(data[i]);
      }
    }

    method PutCommand(w: Wire)
      requires size + 8 <= buffer.Length
      modifies this`size, buffer
      ensures size == old(size) + 8
      ensures buffer[..size] == old(buffer[..size]) + HeaderStart(w)
    {
      Put32(w.conv);
      Put8(w.cmd);
      Put8(w.frag.frg);
      Put16(w.wnd);
    }

    method PutNumbers(w: Wire)
      requires size + 16 <= buffer.Length
      modifies this`size, buffer
      ensures size == old(size) + 16
      ensures buffer[..size] == old(buffer[..size]) + HeaderEnd(w)
    {
      Put32(w.ts);
      Put32(w.sn);
      Put32(w.una);
      Put32(|w.frag.data|);
    }

    /** `ikcp_encode_seg` and the data behind it. */
    method Encode(w: Wire)
      requires size + WireSize(w) <= buffer.Length
      modifies this`size, buffer
      ensures size == old(size) + WireSize(w)
      ensures buffer[..size] == old(buffer[..size]) + KcpWire.Encode(w)
    {
      ghost var start := buffer[..size];
      PutCommand(w);
      PutNumbers(w);
      HeaderParts(w);
      PutBytes(w.frag.data);
      assert buffer[..size] == start + HeaderStart(w) + HeaderEnd(w) + w.frag.data;
    }

    /** `ikcp_output` with the pointer reset; an empty buffer is not output. */
    method Output()
      requires Valid()
      modifies this
      ensures Idle() && size == 0
      ensures buffer == old(buffer) && mtu == old(mtu) && before == old(before)
      ensures packing == Packing(Emit(old(packing)), [])
    {
      SizeZero(packing.cur);
      if size > 0 {
        emitted := emitted + [buffer[..size]];
        assert Datagrams(packing.done + [packing.cur]) == Datagrams(packing.done) + [EncodeAll(packing.cur)];
      }
      size := 0;
      packing := Packing(Emit(packing), []);
    }

    /** The repeated step of `ikcp_flush`: output what is there if the unit does not fit
        behind it, then encode the unit.  The write pointer never passes `mtu`. */
    method Put(w: Wire)
      requires Valid() && WireSize(w) <= mtu
      modifies this, buffer
      ensures Valid() && size <= mtu
      ensures buffer == old(buffer) && mtu == old(mtu) && before == old(before)
      ensures packing == PackOne(mtu, old(packing), w)
    {
      if size + WireSize(w) > mtu {
        Output();
      }
      SizeOfAppend(packing.cur, w);
      EncodeAllAppend(packing.cur, [w]);
      assert EncodeAll([w]) == KcpWire.Encode(w);
      Encode(w);
      packing := Packing(packing.done, packing.cur + [w]);
      assert [w] == [] + [w];
    }
  }

  function HeaderStart(w: Wire): seq<byte> {
    Encode32(w.conv) + [w.cmd % 256] + [w.frag.frg % 256] + Encode16(w.wnd)
  }

  function HeaderEnd(w: Wire): seq<byte> {
    Encode32(w.ts) + Encode32(w.sn) + Encode32(w.una) + Encode32(|w.frag.data|)
  }

  lemma HeaderParts(w: Wire)
    ensures EncodeHeader(w) == HeaderStart(w) + HeaderEnd(w)
  {
  }

  lemma SizeZero(ws: seq<Wire>)
    ensures SizeOf(ws) == 0 <==> ws == []
  {
  }

  /** Units put one at a time pack like the whole list. */
  lemma {:induction false} PackMoreSnoc(mtu: int, p: Packing, ws: seq<Wire>, w: Wire)
    ensures PackMore(mtu, p, ws + [w]) == PackOne(mtu, PackMore(mtu, p, ws), w)
    decreases |ws|
  {
    if ws == [] {
      assert [] + [w] == [w];
      assert [w][1..] == [];
    } else {
      PackMoreSnoc(mtu, PackOne(mtu, p, ws[0]), ws[1..], w);
      assert (ws + [w])[1..] == ws[1..] + [w];
    }
  }
}
