/** The allocator itself: `circular_memory` over a byte array, used by one thread. */
module CircularMemory {
  import opened Bytes
  import opened Wrappers
  import opened RingLayout

  /** One past the largest `std::size_t`. */
  const SIZE_LIMIT := 0x1_0000_0000_0000_0000

  class CircularMemory {
    const g: Geometry
    const buffer: array<byte>
    var tail: nat
    var counter: nat
    /** The blocks handed out and not yet released, oldest first. */
    ghost var live: seq<Block>

    ghost predicate Valid()
      reads this, buffer
    {
      && g.Valid()
      && buffer.Length == g.size
      && RingInv(g, buffer[..], tail, counter, live)
    }

    constructor (buffer: array<byte>, base: nat, header: nat)
      requires Geometry(base, buffer.Length, header).Valid()
      ensures Valid() && this.buffer == buffer && g == Geometry(base, buffer.Length, header)
      ensures live == [] && counter == buffer.Length && tail == 0
    {
      g := Geometry(base, buffer.Length, header);
      this.buffer := buffer;
      tail := 0;
      counter := buffer.Length;
      live := [];
    }

    method IsEmpty() returns (empty: bool)
      requires Valid()
      ensures empty <==> live == []
    {
      EmptyIffNoneLive(g, buffer[..], tail, counter, live);
      empty := counter == g.size;
    }

    method UsedMemory(p: nat) returns (len: nat)
      requires Valid()
      requires exists i :: 0 <= i < |live| && live[i].payload == p
      ensures forall i :: 0 <= i < |live| && live[i].payload == p ==> len == live[i].len
    {
      ghost var i :| 0 <= i < |live| && live[i].payload == p;
      assert HeaderIntact(g, buffer[..], live[i]);
      assert buffer[p - g.header..p] == buffer[..][p - g.header..p];
      len := Decode(buffer[p - g.header..p]);
      forall i | 0 <= i < |live| && live[i].payload == p
        ensures len == live[i].len
      {
        assert HeaderIntact(g, buffer[..], live[i]);
        LiveLength(i);
        DecodeEncode(live[i].len, g.header);
      }
    }

    lemma LiveLength(i: nat)
      requires Valid() && i < |live|
      ensures live[i].len < Pow256(g.header)
    {
      SumPrefix(live, i);
    }

    /** Null exactly when nothing fits; otherwise the first fit, and memory changes only in its header. */
    method Allocate(n: nat, alignment: nat) returns (res: Option<nat>)
      requires Valid()
      requires n != 0 && alignment > 0
      requires n < Pow256(g.header) && g.header + n < SIZE_LIMIT
      modifies this, buffer
      ensures Valid()
      ensures res.None? <==> g.NothingFits(old(tail), old(counter), n, alignment)
      ensures res.None? ==> live == old(live) && tail == old(tail) && counter == old(counter)
      ensures res.None? ==> buffer[..] == old(buffer[..])
      ensures res.Some? ==> g.IsFirstFit(old(tail), old(counter), n, alignment, res.value)
      ensures res.Some? ==>
        g.header <= res.value && res.value + n <= g.size && (g.base + res.value) % alignment == 0
      ensures res.Some? ==>
        var b := g.BlockAt(old(tail), n, alignment, res.value);
        && live == old(live) + [b]
        && counter == old(counter) - b.len
        && tail == g.Wrap(old(tail) + b.len)
        && buffer[..] == Overlay(old(buffer[..]), res.value - g.header, Encode(b.len, g.header))
    {
      hide RingInv, Encode, Geometry.NothingFits;
      RingBounds(g, buffer[..], tail, counter, live);
      var size;
      res, size := FindPlace(n, alignment);
      if res.None? {
        return;
      }
      ghost var mem, b := buffer[..], g.BlockAt(tail, n, alignment, res.value);
      DividesIff(alignment, g.base + res.value);
      AllocateKeepsInv(g, mem, tail, counter, live, n, alignment, res.value);
      assert WithHeader(g, mem, b) == Overlay(mem, res.value - g.header, Encode(size, g.header));
      hide Overlay;
      Take(res.value, size, b);
    }

    /** The part of `allocate` that changes memory, counter and tail. */
    method Take(p: nat, size: nat, ghost b: Block)
      requires buffer.Length == g.size && g.header <= p <= g.size
      requires size <= counter && tail + size < 2 * g.size
      modifies this, buffer
      ensures live == old(live) + [b]
      ensures counter == old(counter) - size
      ensures tail == g.Wrap(old(tail) + size)
      ensures buffer[..] == Overlay(old(buffer[..]), p - g.header, Encode(size, g.header))
    {
      CopyTo(p - g.header, Encode(size, g.header));
      WrapIsModulo(g, tail + size);
      counter := counter - size;
      tail := (tail + size) % g.size;
      live := live + [b];
    }

    /** The part of `allocate` that only computes: where the payload goes and how much of the ring it takes. */
    method FindPlace(n: nat, alignment: nat) returns (res: Option<nat>, size: nat)
      requires g.Valid() && g.IsTail(tail) && counter <= g.size
      requires alignment > 0
      ensures res.None? <==> g.NothingFits(tail, counter, n, alignment)
      ensures res.Some? ==> g.IsFirstFit(tail, counter, n, alignment, res.value)
      ensures res.Some? ==> size == g.BlockAt(tail, n, alignment, res.value).len
    {
      var end := tail + counter;
      assert end < Pow256(g.header);
      var first, second;
      if end > g.size {
        first, second := g.size - tail, end - g.size;
      } else {
        first, second := end - tail, 0;
      }
      SegmentsGiveFirstFit(g, tail, counter, n, alignment);

      size := n;
      var pointer := tail;
      res := PadAndAlign(g, n, alignment, pointer, first);
      if res.None? {
        pointer := 0;
        res := PadAndAlign(g, n, alignment, pointer, second);
        if res.None? {
          return;
        }
        size := size + first;
      }
      size := size + (res.value - pointer);
    }

    /** `memcpy` into the buffer. */
    method CopyTo(at: nat, bytes: seq<byte>)
      requires at + |bytes| <= buffer.Length
      modifies buffer
      ensures buffer[..] == Overlay(old(buffer[..]), at, bytes)
    {
      for j := 0 to |bytes|
        invariant buffer[..] == Overlay(old(buffer[..]), at, bytes[..j])
      {
        OverlayGrows(old(buffer[..]), at, bytes, j);
        ghost var was := buffer[..];
        buffer[at + j] := bytes[j];
        assert buffer[..] == was[at + j := bytes[j]];
      }
      assert bytes[..|bytes|] == bytes;
    }

    /** Releasing the oldest block credits exactly what `Allocate` debited for it. */
    method Release(p: nat)
      requires Valid()
      requires live != [] && live[0].payload == p
      modifies `counter, `live
      ensures Valid()
      ensures live == old(live)[1..] && counter == old(counter) + old(live)[0].len
    {
      var len := UsedMemory(p);
      RetireKeepsInv(g, buffer[..], tail, counter, live);
      counter := counter + len;
      live := live[1..];
    }

    /** A client writes a byte of a payload it owns: no header and no other payload changes. */
    method Store(ghost i: nat, p: nat, offset: nat, v: byte)
      requires Valid()
      requires i < |live| && live[i].payload == p && offset < live[i].n
      modifies buffer
      ensures Valid()
      ensures StoreShows(g, old(buffer[..]), buffer[..], live, i, offset, v)
    {
      ghost var mem := buffer[..];
      TilesInBounds(g, g.Wrap(tail + counter), tail, live);
      PayloadStoreAll(g, mem, mem[p + offset := v], tail, counter, live, i, offset, v);
      Poke(p + offset, v);
    }

    /** A store through a pointer into the buffer. */
    method Poke(at: nat, v: byte)
      requires at < buffer.Length
      modifies buffer
      ensures buffer[..] == old(buffer[..])[at := v]
    {
      buffer[at] := v;
    }
  }

  /**
   A run that ends in an empty ring refusing a request although a run of free bytes would hold it: after one
   block was taken and released, the tail is in the middle of the buffer, and no block is laid across it.
   */
  method EmptyRingRefuses() returns (ring: CircularMemory, res: Option<nat>)
    ensures ring.live == [] && ring.counter == ring.g.size == 16 && ring.tail == 9
    ensures res.None? && FitsBytewise(ring.g, ring.tail, ring.counter, 8, 1, 8)
  {
    var buffer := new byte[16];
    assert Pow256(8) == 256 * Pow256(7);
    ring := new CircularMemory(buffer, 0, 8);
    assert ring.g.Fits(0, 16, 1, 1, 8);
    var p := ring.Allocate(1, 1);
    ring.Release(p.value);
    assert ring.tail == 9;
    assert ring.g.NothingFits(9, 16, 8, 1);
    res := ring.Allocate(8, 1);
  }
}
