/**
 Where blocks lie in the ring.

 The buffer is `size` bytes at address `base`. The free region is the arc of `free` bytes that starts at
 `tail` and may run over the end of the buffer to its beginning. A block takes the front of that arc: some
 padding, a header of `header` bytes holding the length of the whole block, and the payload.
 */
module RingLayout {
  import opened Bytes
  import opened Wrappers

  /** `x` is a multiple of `a`. */
  predicate Divides(a: nat, x: nat)
    requires a > 0
    decreases x
  {
    x == 0 || (a <= x && Divides(a, x - a))
  }

  /** `begin_`, `size_` and `sizeof(size_type)`. */
  datatype Geometry = Geometry(base: nat, size: nat, header: nat) {
    /** What the caller owes: a word that can hold `tail_ + free` without wrapping round. */
    predicate Valid() {
      0 < header && 2 * size <= Pow256(header)
    }

    predicate IsTail(tail: nat) {
      tail <= size && (size > 0 ==> tail < size)
    }

    /** Offset `x`, counted on past the end of the buffer by less than one lap. */
    function Wrap(x: nat): nat {
      if x < size then x else x - size
    }

    /** How many bytes the offset `k` lies beyond the offset `from`, going forward round the ring. */
    function Forward(from: nat, k: nat): nat
      requires from <= size
    {
      if from <= k then k - from else k + size - from
    }

    predicate Aligned(a: nat, q: nat)
      requires a > 0
    {
      Divides(a, base + q)
    }

    /** `n` bytes at offset `q` with a header right before them lie in `[offset, offset + space)`. */
    predicate InSegment(offset: nat, space: nat, n: nat, a: nat, q: nat)
      requires a > 0
    {
      offset + header <= q && q + n <= offset + space && Aligned(a, q)
    }

    /** A header and `n` bytes at `q` lie unbroken inside the buffer and inside the free arc. */
    predicate Fits(tail: nat, free: nat, n: nat, a: nat, q: nat)
      requires tail <= size && a > 0
    {
      && header <= q
      && q + n <= size
      && Aligned(a, q)
      && Forward(tail, q - header) + header + n <= free
    }

    /** Among all places that fit, the one met first when walking forward from the tail. */
    ghost predicate IsFirstFit(tail: nat, free: nat, n: nat, a: nat, q: nat)
      requires tail <= size && a > 0
    {
      && Fits(tail, free, n, a, q)
      && forall x: nat :: Fits(tail, free, n, a, x) ==> Forward(tail, q - header) <= Forward(tail, x - header)
    }

    ghost predicate NothingFits(tail: nat, free: nat, n: nat, a: nat)
      requires tail <= size && a > 0
    {
      forall x: nat :: !Fits(tail, free, n, a, x)
    }

    /** The block whose payload is at `q`: it runs from the tail to the end of that payload. */
    function BlockAt(tail: nat, n: nat, a: nat, q: nat): Block
      requires tail <= size && header <= q
    {
      Block(q, n, a, Forward(tail, q - header) + header + n)
    }

    /** Offset `k` holds a byte of the header or the payload of `b`. */
    predicate Covers(b: Block, k: nat) {
      b.payload <= k + header && k < b.payload + b.n
    }
  }

  /** A block that was handed out: its payload offset, the request, and what the header stores. */
  datatype Block = Block(payload: nat, n: nat, align: nat, len: nat)

  function Sum(blocks: seq<Block>): nat {
    if blocks == [] then 0 else blocks[0].len + Sum(blocks[1..])
  }

  /** Block `b` starts at the offset `start` and keeps its header and payload at its end, in one piece. */
  predicate Placed(g: Geometry, start: nat, b: Block) {
    && 0 < b.align
    && g.header + b.n <= b.len <= g.size
    && g.header <= b.payload
    && b.payload + b.n <= g.size
    && g.Aligned(b.align, b.payload)
    && b.payload - g.header == g.Wrap(start + b.len - b.n - g.header)
  }

  /** The blocks follow one another without gaps, forward from `from` to `to`. */
  predicate Tiles(g: Geometry, from: nat, to: nat, blocks: seq<Block>)
    decreases |blocks|
  {
    if blocks == [] then from == to
    else Placed(g, from, blocks[0]) && Tiles(g, g.Wrap(from + blocks[0].len), to, blocks[1..])
  }

  /** The header of `b` in memory holds its length. */
  predicate HeaderIntact(g: Geometry, mem: seq<byte>, b: Block) {
    && g.header <= b.payload <= |mem|
    && mem[b.payload - g.header..b.payload] == Encode(b.len, g.header)
  }

  /** The first `done` bytes of that header are in memory. */
  predicate HeaderPart(g: Geometry, mem: seq<byte>, b: Block, done: nat) {
    && done <= g.header <= b.payload <= |mem|
    && mem[b.payload - g.header..b.payload - g.header + done] == Encode(b.len, g.header)[..done]
  }

  /** The ring invariant: `blocks`, oldest first, are exactly the part of the ring that is not free. */
  ghost predicate RingInv(g: Geometry, mem: seq<byte>, tail: nat, free: nat, blocks: seq<Block>) {
    && |mem| == g.size
    && g.IsTail(tail)
    && free + Sum(blocks) == g.size
    && Tiles(g, g.Wrap(tail + free), tail, blocks)
    && forall i :: 0 <= i < |blocks| ==> HeaderIntact(g, mem, blocks[i])
  }

  lemma RingBounds(g: Geometry, mem: seq<byte>, tail: nat, free: nat, blocks: seq<Block>)
    requires RingInv(g, mem, tail, free, blocks)
    ensures |mem| == g.size && g.IsTail(tail) && free <= g.size
  {
  }

  // ---- alignment ----

  /** In terms of the remainder. */
  lemma {:induction false} DividesIff(a: nat, x: nat)
    requires a > 0
    ensures Divides(a, x) <==> x % a == 0
    decreases x
  {
    if a <= x {
      DividesIff(a, x - a);
      LessOneMultiple(a, x);
    }
  }

  lemma LessOneMultiple(a: nat, x: nat)
    requires 0 < a <= x
    ensures (x - a) % a == x % a
  {
    var i, j := x / a, (x - a) / a;
    var d := i - 1 - j;
    assert a * d == a * i - a - a * j;
    MulOrder(a, d);
  }

  lemma MulOrder(a: int, d: int)
    requires a >= 0
    ensures d >= 1 ==> a * d >= a
    ensures d <= -1 ==> a * d <= -a
    ensures d == 0 ==> a * d == 0
  {
  }

  /** Different multiples are at least one multiple apart. */
  lemma {:induction false} MultiplesApart(a: nat, x: nat, y: nat)
    requires a > 0 && Divides(a, x) && Divides(a, y) && x < y
    ensures x + a <= y
    decreases x
  {
    if x > 0 {
      MultiplesApart(a, x - a, y - a);
    }
  }

  lemma {:induction false} OneDivides(x: nat)
    ensures Divides(1, x)
    decreases x
  {
    if x > 0 {
      OneDivides(x - 1);
    }
  }

  /** The contract of `std::align`: the first address from `addr` on that is a multiple of `a`. */
  function AlignUp(addr: nat, a: nat): (r: nat)
    requires a > 0
    ensures addr <= r < addr + a && Divides(a, r)
    decreases addr
  {
    if addr == 0 then 0 else if addr <= a then a else a + AlignUp(addr - a, a)
  }

  /** The lambda of `allocate`: the least aligned payload offset in one segment, if there is one. */
  function PadAndAlign(g: Geometry, n: nat, a: nat, offset: nat, space: nat): (res: Option<nat>)
    requires a > 0
    ensures res.Some? ==> g.InSegment(offset, space, n, a, res.value)
    ensures res.Some? ==> forall x :: g.InSegment(offset, space, n, a, x) ==> res.value <= x
    ensures res.None? ==> forall x :: !g.InSegment(offset, space, n, a, x)
    ensures space >= g.header + n + a - 1 ==> res.Some?
    ensures res.Some? ==> res.value < offset + g.header + a
  {
    if g.header + n > space then None
    else
      var left := space - g.header;
      var start := offset + g.header;
      var address := AlignUp(g.base + start, a);
      AlignUpLeast(g, n, a, offset, space);
      if address - (g.base + start) + n <= left then Some(address - g.base) else None
  }

  lemma AlignUpLeast(g: Geometry, n: nat, a: nat, offset: nat, space: nat)
    requires a > 0
    ensures forall x :: g.InSegment(offset, space, n, a, x) ==> AlignUp(g.base + offset + g.header, a) <= g.base + x
  {
    var r := AlignUp(g.base + offset + g.header, a);
    forall x | g.InSegment(offset, space, n, a, x)
      ensures r <= g.base + x
    {
      if g.base + x < r {
        MultiplesApart(a, g.base + x, r);
      }
    }
  }

  // ---- the free arc and its two segments ----

  /** The free arc as `allocate` splits it: the part up to the end of the buffer, and the rest at its start. */
  function Split(g: Geometry, tail: nat, free: nat): (split: (nat, nat))
    requires tail <= g.size && free <= g.size
    ensures split.0 + split.1 == free
    ensures tail + split.0 <= g.size && split.1 <= tail
    ensures split.1 > 0 ==> tail + split.0 == g.size
  {
    var end := tail + free;
    if end > g.size then (g.size - tail, end - g.size) else (end - tail, 0)
  }

  /** A place fits exactly when it lies in one of the two segments. */
  lemma FitsIffInASegment(g: Geometry, tail: nat, free: nat, n: nat, a: nat, q: nat)
    requires g.Valid() && tail <= g.size && free <= g.size && a > 0
    ensures var (first, second) := Split(g, tail, free);
            g.Fits(tail, free, n, a, q) <==> g.InSegment(tail, first, n, a, q) || g.InSegment(0, second, n, a, q)
    ensures g.InSegment(tail, Split(g, tail, free).0, n, a, q) ==> q - g.header >= tail
    ensures g.InSegment(0, Split(g, tail, free).1, n, a, q) ==> q - g.header < tail
  {
  }

  /** There is at most one first fit, so what `allocate` returns is determined by the state and the request. */
  lemma FirstFitUnique(g: Geometry, tail: nat, free: nat, n: nat, a: nat, p: nat, q: nat)
    requires g.Valid() && tail <= g.size && a > 0
    requires g.IsFirstFit(tail, free, n, a, p) && g.IsFirstFit(tail, free, n, a, q)
    ensures p == q
  {
    assert g.Forward(tail, p - g.header) == g.Forward(tail, q - g.header);
  }

  /** More room behind what there was does not move the first fit. */
  lemma {:induction false} FirstFitMonotone(g: Geometry, tail: nat, old_: nat, now: nat, n: nat, a: nat, q: nat)
    requires g.Valid() && tail <= g.size && old_ <= now && a > 0
    requires g.IsFirstFit(tail, old_, n, a, q)
    ensures g.IsFirstFit(tail, now, n, a, q)
  {
    forall x: nat | g.Fits(tail, now, n, a, x)
      ensures g.Forward(tail, q - g.header) <= g.Forward(tail, x - g.header)
    {
      assert g.Forward(tail, x - g.header) < g.Forward(tail, q - g.header) ==> g.Fits(tail, old_, n, a, x);
    }
  }

  /** The place chosen from the two segments is the first fit of the whole arc, and null means nothing fits. */
  lemma SegmentsGiveFirstFit(g: Geometry, tail: nat, free: nat, n: nat, a: nat)
    requires g.Valid() && tail <= g.size && free <= g.size && a > 0
    ensures var (first, second) := Split(g, tail, free);
            var res := PadAndAlign(g, n, a, tail, first);
            var res2 := PadAndAlign(g, n, a, 0, second);
            && (res.Some? ==> g.IsFirstFit(tail, free, n, a, res.value))
            && (res.None? && res2.Some? ==> g.IsFirstFit(tail, free, n, a, res2.value))
            && (res.None? && res2.None? ==> g.NothingFits(tail, free, n, a))
  {
    forall q: nat {
      FitsIffInASegment(g, tail, free, n, a, q);
    }
  }

  // ---- progress and waste ----

  /** Enough free bytes, wherever they lie, always let a request through. */
  lemma {:induction false} Progress(g: Geometry, tail: nat, free: nat, n: nat, a: nat)
    requires g.Valid() && tail <= g.size && free <= g.size && a > 0
    requires free + 1 >= 2 * (g.header + n + a - 1)
    ensures exists q: nat :: g.IsFirstFit(tail, free, n, a, q)
  {
    var (first, second) := Split(g, tail, free);
    SegmentsGiveFirstFit(g, tail, free, n, a);
    var res := PadAndAlign(g, n, a, tail, first);
    var res2 := PadAndAlign(g, n, a, 0, second);
    assert res.Some? || res2.Some?;
  }

  /** What a block wastes: padding below one alignment, and, when it wraps, a skipped end too short to serve. */
  lemma {:induction false} WasteBound(g: Geometry, tail: nat, free: nat, n: nat, a: nat, q: nat)
    requires g.Valid() && tail <= g.size && free <= g.size && a > 0
    requires g.IsFirstFit(tail, free, n, a, q)
    ensures g.header + n <= g.BlockAt(tail, n, a, q).len <= free
    ensures q - g.header >= tail ==> g.BlockAt(tail, n, a, q).len <= g.header + n + a - 1
    ensures q - g.header < tail ==> g.BlockAt(tail, n, a, q).len < 2 * (g.header + n + a - 1)
  {
    var (first, second) := Split(g, tail, free);
    SegmentsGiveFirstFit(g, tail, free, n, a);
    FitsIffInASegment(g, tail, free, n, a, q);
    var res := PadAndAlign(g, n, a, tail, first);
    var res2 := PadAndAlign(g, n, a, 0, second);
    var p := if res.Some? then res.value else res2.value;
    FirstFitUnique(g, tail, free, n, a, p, q);
  }

  // ---- completeness against the bytes that are free ----

  /** Offset `k` is one of the bytes of the free arc. */
  predicate IsFreeByte(g: Geometry, tail: nat, free: nat, k: nat)
    requires tail <= g.size
  {
    k < g.size && g.Forward(tail, k) < free
  }

  /** A header and `n` bytes at `q` lie unbroken in the buffer and every one of those bytes is free. */
  ghost predicate FitsBytewise(g: Geometry, tail: nat, free: nat, n: nat, a: nat, q: nat)
    requires tail <= g.size && a > 0
  {
    && g.header <= q
    && q + n <= g.size
    && g.Aligned(a, q)
    && forall k :: q - g.header <= k < q + n ==> IsFreeByte(g, tail, free, k)
  }

  /** While some block is live or the tail is at the start, being free byte by byte is the same as fitting. */
  lemma BytewiseIsArcwise(g: Geometry, tail: nat, free: nat, n: nat, a: nat, q: nat)
    requires g.Valid() && g.IsTail(tail) && free <= g.size && a > 0
    requires free < g.size || tail == 0
    ensures FitsBytewise(g, tail, free, n, a, q) <==> g.Fits(tail, free, n, a, q)
  {
    if FitsBytewise(g, tail, free, n, a, q) {
      assert IsFreeByte(g, tail, free, q - g.header);
      assert IsFreeByte(g, tail, free, q + n - 1);
      assert q - g.header < tail < q + n ==> IsFreeByte(g, tail, free, tail - 1);
    }
  }

  /** Every request that null is returned for really finds no unbroken run of free bytes. */
  ghost predicate NullIsBytewiseComplete(g: Geometry, tail: nat, free: nat)
    requires tail <= g.size
  {
    forall n: nat, a: nat, q: nat :: n > 0 && a > 0 && FitsBytewise(g, tail, free, n, a, q) ==> !g.NothingFits(tail, free, n, a)
  }

  /**
   Null is complete with respect to the free bytes exactly when the ring is not empty, or its tail is at the
   start, or the buffer cannot hold even a header. In an empty ring whose tail is elsewhere all bytes are free,
   but a block is never laid across the tail.
   */
  lemma {:induction false} NullCompleteness(g: Geometry, tail: nat, free: nat)
    requires g.Valid() && g.IsTail(tail) && free <= g.size
    ensures NullIsBytewiseComplete(g, tail, free) <==> free < g.size || tail == 0 || g.size <= g.header
  {
    if free < g.size || tail == 0 {
      forall n: nat, a: nat, q: nat | n > 0 && a > 0 && FitsBytewise(g, tail, free, n, a, q)
        ensures !g.NothingFits(tail, free, n, a)
      {
        BytewiseIsArcwise(g, tail, free, n, a, q);
      }
    } else if g.size > g.header {
      var n := g.size - g.header;
      var q := g.header;
      OneDivides(g.base + q);
      assert forall x: nat :: !g.Fits(tail, free, n, 1, x);
      assert FitsBytewise(g, tail, free, n, 1, q);
      assert g.NothingFits(tail, free, n, 1);
    }
  }

  // ---- tiling ----

  /** Appending the block that starts where the blocks so far end. */
  lemma {:induction false} TilesAppend(g: Geometry, from: nat, to: nat, blocks: seq<Block>, b: Block)
    requires Tiles(g, from, to, blocks) && Placed(g, to, b)
    ensures Tiles(g, from, g.Wrap(to + b.len), blocks + [b])
    ensures Sum(blocks + [b]) == Sum(blocks) + b.len
    decreases |blocks|
  {
    hide Divides;
    if blocks == [] {
    } else {
      TilesAppend(g, g.Wrap(from + blocks[0].len), to, blocks[1..], b);
      assert (blocks + [b])[1..] == blocks[1..] + [b];
    }
  }

  lemma {:induction false} SumPrefix(blocks: seq<Block>, i: nat)
    requires i < |blocks|
    ensures Sum(blocks[..i + 1]) == Sum(blocks[..i]) + blocks[i].len <= Sum(blocks)
  {
    if i == 0 {
      assert blocks[..1] == [blocks[0]];
    } else {
      SumPrefix(blocks[1..], i - 1);
      assert blocks[..i + 1][1..] == blocks[1..][..i] && blocks[..i][1..] == blocks[1..][..i - 1];
    }
  }

  /** Every header or payload byte of a block lies in that block's own stretch of the used arc. */
  lemma {:induction false} CoveredByteArc(g: Geometry, from: nat, to: nat, blocks: seq<Block>, i: nat, k: nat)
    requires Tiles(g, from, to, blocks) && from <= g.size && Sum(blocks) <= g.size
    requires i < |blocks| && g.Covers(blocks[i], k)
    ensures k < g.size && Sum(blocks[..i]) <= g.Forward(from, k) < Sum(blocks[..i + 1])
    decreases i
  {
    if i == 0 {
      SumPrefix(blocks, 0);
      assert g.Covers(blocks[0], k) && Placed(g, from, blocks[0]);
    } else {
      var from' := g.Wrap(from + blocks[0].len);
      CoveredByteArc(g, from', to, blocks[1..], i - 1, k);
      SumPrefix(blocks[1..], i - 1);
      SumHead(blocks, i);
      SumHead(blocks, i + 1);
      ForwardShift(g, from, blocks[0].len, k);
    }
  }

  lemma SumHead(blocks: seq<Block>, i: nat)
    requires 0 < i <= |blocks|
    ensures Sum(blocks[..i]) == blocks[0].len + Sum(blocks[1..][..i - 1])
  {
    assert blocks[..i][1..] == blocks[1..][..i - 1];
  }

  /** Distances from an offset further on are shorter by the way there, as long as they stay within one lap. */
  lemma ForwardShift(g: Geometry, from: nat, len: nat, k: nat)
    requires from <= g.size && len <= g.size && k < g.size
    requires len + g.Forward(g.Wrap(from + len), k) < g.size
    ensures g.Forward(from, k) == len + g.Forward(g.Wrap(from + len), k)
  {
  }

  lemma {:induction false} SumMonotone(blocks: seq<Block>, i: nat, j: nat)
    requires i <= j <= |blocks|
    ensures Sum(blocks[..i]) <= Sum(blocks[..j])
    decreases j
  {
    if i == j {
    } else {
      SumPrefix(blocks, j - 1);
      SumMonotone(blocks, i, j - 1);
    }
  }

  /** No byte of memory belongs to the header or payload of two blocks. */
  lemma {:induction false} BlocksDisjoint(g: Geometry, from: nat, to: nat, blocks: seq<Block>, i: nat, j: nat, k: nat)
    requires Tiles(g, from, to, blocks) && from <= g.size && Sum(blocks) <= g.size
    requires i < j < |blocks|
    ensures !(g.Covers(blocks[i], k) && g.Covers(blocks[j], k))
  {
    hide Divides;
    if g.Covers(blocks[i], k) && g.Covers(blocks[j], k) {
      CoveredByteArc(g, from, to, blocks, i, k);
      CoveredByteArc(g, from, to, blocks, j, k);
      SumMonotone(blocks, i + 1, j);
    }
  }

  // ---- what the operations do to the invariant ----

  /** The bytes a client owns. */
  function Payload(g: Geometry, mem: seq<byte>, b: Block): seq<byte>
    requires |mem| == g.size && b.payload + b.n <= g.size
  {
    mem[b.payload..b.payload + b.n]
  }

  /** `tail_` moves on modulo `size_`. */
  lemma WrapIsModulo(g: Geometry, x: nat)
    requires g.size > 0 && x < 2 * g.size
    ensures x % g.size == g.Wrap(x)
  {
  }

  lemma {:induction false} TilesPlaced(g: Geometry, from: nat, to: nat, blocks: seq<Block>, i: nat)
    requires Tiles(g, from, to, blocks) && i < |blocks|
    ensures exists start: nat :: Placed(g, start, blocks[i])
    decreases i
  {
    if i > 0 {
      TilesPlaced(g, g.Wrap(from + blocks[0].len), to, blocks[1..], i - 1);
    }
  }

  lemma TilesInBounds(g: Geometry, from: nat, to: nat, blocks: seq<Block>)
    requires Tiles(g, from, to, blocks)
    ensures forall i :: 0 <= i < |blocks| ==> g.header <= blocks[i].payload && blocks[i].payload + blocks[i].n <= g.size
  {
    forall i | 0 <= i < |blocks|
      ensures g.header <= blocks[i].payload && blocks[i].payload + blocks[i].n <= g.size
    {
      TilesPlaced(g, from, to, blocks, i);
    }
  }

  /** Every live block is aligned, unbroken, and inside the buffer. */
  lemma LiveBlockInBounds(g: Geometry, mem: seq<byte>, tail: nat, free: nat, blocks: seq<Block>, i: nat)
    requires RingInv(g, mem, tail, free, blocks) && i < |blocks|
    ensures var b := blocks[i];
            && b.align > 0 && g.Aligned(b.align, b.payload)
            && g.header <= b.payload && b.payload + b.n <= g.size
            && g.header + b.n <= b.len
  {
    TilesPlaced(g, g.Wrap(tail + free), tail, blocks, i);
  }

  /** A place that fits becomes a block that continues the tiling, and no sum in taking it overflows. */
  lemma FittingBlockIsPlaced(g: Geometry, tail: nat, free: nat, n: nat, a: nat, q: nat)
    requires g.Valid() && g.IsTail(tail) && free <= g.size && a > 0
    requires g.Fits(tail, free, n, a, q)
    ensures Placed(g, tail, g.BlockAt(tail, n, a, q))
    ensures g.BlockAt(tail, n, a, q).len <= free
    ensures g.BlockAt(tail, n, a, q).len < Pow256(g.header)
    ensures g.size > 0
    ensures tail + g.BlockAt(tail, n, a, q).len < 2 * g.size <= Pow256(g.header)
  {
  }

  /** Header and payload of a block placed in the free arc overlap no live block. */
  lemma PlacedIsFresh(g: Geometry, mem: seq<byte>, tail: nat, free: nat, blocks: seq<Block>, b: Block, i: nat, k: nat)
    requires RingInv(g, mem, tail, free, blocks)
    requires Placed(g, tail, b) && b.len <= free
    requires i < |blocks|
    ensures !(g.Covers(blocks[i], k) && g.Covers(b, k))
  {
    hide Divides;
    var from := g.Wrap(tail + free);
    TilesAppend(g, from, tail, blocks, b);
    BlocksDisjoint(g, from, g.Wrap(tail + b.len), blocks + [b], i, |blocks|, k);
  }

  /** Writing a byte outside all live headers keeps the invariant. */
  lemma StoreKeepsInv(g: Geometry, mem: seq<byte>, tail: nat, free: nat, blocks: seq<Block>, k: nat, v: byte)
    requires RingInv(g, mem, tail, free, blocks) && k < g.size
    requires forall i :: 0 <= i < |blocks| ==> blocks[i].payload <= k || k + g.header < blocks[i].payload
    ensures RingInv(g, mem[k := v], tail, free, blocks)
  {
    forall i | 0 <= i < |blocks|
      ensures HeaderIntact(g, mem[k := v], blocks[i])
    {
      var b := blocks[i];
      assert HeaderIntact(g, mem, b);
      assert mem[k := v][b.payload - g.header..b.payload] == mem[b.payload - g.header..b.payload];
    }
  }

  lemma HeaderPartIntact(g: Geometry, mem: seq<byte>, b: Block)
    ensures HeaderPart(g, mem, b, g.header) <==> HeaderIntact(g, mem, b)
  {
    assert Encode(b.len, g.header)[..g.header] == Encode(b.len, g.header);
  }

  /** Memory after byte `done` of the header of `b` was written. */
  function WithHeaderByte(g: Geometry, mem: seq<byte>, b: Block, done: nat): (r: seq<byte>)
    requires done < g.header <= b.payload <= |mem|
    ensures |r| == |mem|
  {
    mem[b.payload - g.header + done := Encode(b.len, g.header)[done]]
  }

  lemma HeaderPartGrows(g: Geometry, mem: seq<byte>, b: Block, done: nat)
    requires done < g.header && HeaderPart(g, mem, b, done)
    ensures HeaderPart(g, WithHeaderByte(g, mem, b, done), b, done + 1)
  {
    var image := Encode(b.len, g.header);
    var k := b.payload - g.header + done;
    var mem' := mem[k := image[done]];
    assert mem'[k - done..k + 1] == mem[k - done..k] + [image[done]];
    assert image[..done + 1] == image[..done] + [image[done]];
  }

  /** Copying one more byte of the header of a placed block disturbs no live header. */
  lemma HeaderByteKeepsInv(g: Geometry, mem: seq<byte>, tail: nat, free: nat, blocks: seq<Block>, b: Block, done: nat)
    requires RingInv(g, mem, tail, free, blocks)
    requires Placed(g, tail, b) && b.len <= free
    requires done < g.header && HeaderPart(g, mem, b, done)
    ensures var mem' := WithHeaderByte(g, mem, b, done);
            RingInv(g, mem', tail, free, blocks) && HeaderPart(g, mem', b, done + 1)
  {
    hide Divides;
    var image := Encode(b.len, g.header);
    var k := b.payload - g.header + done;
    forall i | 0 <= i < |blocks|
      ensures blocks[i].payload <= k || k + g.header < blocks[i].payload
    {
      HeadersApart(g, mem, tail, free, blocks, b, i);
    }
    StoreKeepsInv(g, mem, tail, free, blocks, k, image[done]);
    HeaderPartGrows(g, mem, b, done);
  }

  /** Reading one more byte of an intact header yields one more byte of the length. */
  lemma HeaderByteRead(g: Geometry, mem: seq<byte>, b: Block, done: nat)
    requires HeaderIntact(g, mem, b) && done < g.header
    ensures Encode(b.len, g.header)[..done] + [mem[b.payload - g.header + done]] == Encode(b.len, g.header)[..done + 1]
  {
    assert mem[b.payload - g.header..b.payload][done] == mem[b.payload - g.header + done];
  }

  /** A byte of a live payload is not in the header of a placed but not yet live block. */
  lemma PayloadOutsideHeader(g: Geometry, mem: seq<byte>, tail: nat, free: nat, blocks: seq<Block>, i: nat, offset: nat, b: Block)
    requires RingInv(g, mem, tail, free, blocks)
    requires i < |blocks| && offset < blocks[i].n
    requires Placed(g, tail, b) && b.len <= free
    ensures var k := blocks[i].payload + offset; k + g.header < b.payload || b.payload <= k
  {
    hide Divides;
    PlacedIsFresh(g, mem, tail, free, blocks, b, i, blocks[i].payload + offset);
  }

  lemma HeaderPartKept(g: Geometry, mem: seq<byte>, b: Block, done: nat, k: nat, v: byte)
    requires HeaderPart(g, mem, b, done) && k < |mem| && (k + g.header < b.payload || b.payload <= k)
    ensures HeaderPart(g, mem[k := v], b, done)
  {
    var lo, hi := b.payload - g.header, b.payload - g.header + done;
    assert mem[k := v][lo..hi] == mem[lo..hi];
  }

  /** Publishing a placed block whose header is in memory moves its length from free to live. */
  lemma GrantKeepsInv(g: Geometry, mem: seq<byte>, tail: nat, free: nat, blocks: seq<Block>, b: Block)
    requires RingInv(g, mem, tail, free, blocks)
    requires Placed(g, tail, b) && b.len <= free && HeaderIntact(g, mem, b)
    ensures RingInv(g, mem, g.Wrap(tail + b.len), free - b.len, blocks + [b])
  {
    hide Divides;
    TilesGrant(g, mem, tail, free, blocks, b);
    HeadersIntactAppend(g, mem, blocks, b);
  }

  lemma TilesGrant(g: Geometry, mem: seq<byte>, tail: nat, free: nat, blocks: seq<Block>, b: Block)
    requires RingInv(g, mem, tail, free, blocks)
    requires Placed(g, tail, b) && b.len <= free
    ensures var tail' := g.Wrap(tail + b.len);
            && g.IsTail(tail')
            && (free - b.len) + Sum(blocks + [b]) == g.size
            && Tiles(g, g.Wrap(tail' + (free - b.len)), tail', blocks + [b])
  {
    hide Divides;
    TilesAppend(g, g.Wrap(tail + free), tail, blocks, b);
    assert g.Wrap(g.Wrap(tail + b.len) + (free - b.len)) == g.Wrap(tail + free);
  }

  lemma HeadersIntactAppend(g: Geometry, mem: seq<byte>, blocks: seq<Block>, b: Block)
    requires HeaderIntact(g, mem, b)
    requires forall i :: 0 <= i < |blocks| ==> HeaderIntact(g, mem, blocks[i])
    ensures forall i :: 0 <= i < |blocks + [b]| ==> HeaderIntact(g, mem, (blocks + [b])[i])
  {
  }

  /** Memory `mem` after `bytes` were copied to the offset `at`. */
  function Overlay(mem: seq<byte>, at: nat, bytes: seq<byte>): (r: seq<byte>)
    requires at + |bytes| <= |mem|
    ensures |r| == |mem|
  {
    mem[..at] + bytes + mem[at + |bytes|..]
  }

  lemma OverlayGrows(mem: seq<byte>, at: nat, bytes: seq<byte>, j: nat)
    requires at + |bytes| <= |mem| && j < |bytes|
    ensures Overlay(mem, at, bytes[..j + 1]) == Overlay(mem, at, bytes[..j])[at + j := bytes[j]]
  {
  }

  /** A header that shares no byte with what is overwritten stays intact. */
  lemma OverlayMisses(g: Geometry, mem: seq<byte>, at: nat, bytes: seq<byte>, c: Block)
    requires at + |bytes| <= |mem| && HeaderIntact(g, mem, c)
    requires c.payload <= at || at + |bytes| + g.header <= c.payload
    ensures HeaderIntact(g, Overlay(mem, at, bytes), c)
  {
    var mem' := Overlay(mem, at, bytes);
    assert mem'[c.payload - g.header..c.payload] == mem[c.payload - g.header..c.payload];
  }

  /** The header of a placed block lies wholly before or wholly behind every live header. */
  lemma HeadersApart(g: Geometry, mem: seq<byte>, tail: nat, free: nat, blocks: seq<Block>, b: Block, i: nat)
    requires RingInv(g, mem, tail, free, blocks) && i < |blocks|
    requires Placed(g, tail, b) && b.len <= free
    ensures blocks[i].payload + g.header <= b.payload || b.payload + g.header <= blocks[i].payload
  {
    hide Divides;
    var c := blocks[i];
    TilesInBounds(g, g.Wrap(tail + free), tail, blocks);
    PlacedIsFresh(g, mem, tail, free, blocks, b, i, c.payload - g.header);
    PlacedIsFresh(g, mem, tail, free, blocks, b, i, b.payload - g.header);
  }

  /** Memory after the header of `b` was copied to its place. */
  function WithHeader(g: Geometry, mem: seq<byte>, b: Block): (r: seq<byte>)
    requires g.header <= b.payload <= |mem|
    ensures |r| == |mem|
  {
    Overlay(mem, b.payload - g.header, Encode(b.len, g.header))
  }

  lemma WithHeaderIntact(g: Geometry, mem: seq<byte>, b: Block)
    requires g.header <= b.payload <= |mem|
    ensures HeaderIntact(g, WithHeader(g, mem, b), b)
  {
    assert WithHeader(g, mem, b)[b.payload - g.header..b.payload] == Encode(b.len, g.header);
  }

  /** Copying the header of a placed block to memory disturbs no live header. */
  lemma HeaderWriteKeepsInv(g: Geometry, mem: seq<byte>, tail: nat, free: nat, blocks: seq<Block>, b: Block)
    requires RingInv(g, mem, tail, free, blocks)
    requires Placed(g, tail, b) && b.len <= free
    ensures RingInv(g, WithHeader(g, mem, b), tail, free, blocks)
  {
    hide Divides;
    forall i | 0 <= i < |blocks|
      ensures HeaderIntact(g, WithHeader(g, mem, b), blocks[i])
    {
      HeadersApart(g, mem, tail, free, blocks, b, i);
      OverlayMisses(g, mem, b.payload - g.header, Encode(b.len, g.header), blocks[i]);
    }
  }

  /** Allocation as a whole: header write, debit, new tail and the new block at the end of the queue. */
  lemma PlacedKeepsInv(g: Geometry, mem: seq<byte>, tail: nat, free: nat, blocks: seq<Block>, b: Block)
    requires RingInv(g, mem, tail, free, blocks)
    requires Placed(g, tail, b) && b.len <= free
    ensures RingInv(g, WithHeader(g, mem, b), g.Wrap(tail + b.len), free - b.len, blocks + [b])
  {
    hide Divides;
    HeaderWriteKeepsInv(g, mem, tail, free, blocks, b);
    WithHeaderIntact(g, mem, b);
    GrantKeepsInv(g, WithHeader(g, mem, b), tail, free, blocks, b);
  }

  /** The same for the block laid at a place that fits. */
  lemma AllocateKeepsInv(g: Geometry, mem: seq<byte>, tail: nat, free: nat, blocks: seq<Block>, n: nat, a: nat, q: nat)
    requires g.Valid() && RingInv(g, mem, tail, free, blocks) && a > 0
    requires g.Fits(tail, free, n, a, q)
    ensures var b := g.BlockAt(tail, n, a, q);
            && b.len <= free && tail + b.len < 2 * g.size
            && RingInv(g, WithHeader(g, mem, b), g.Wrap(tail + b.len), free - b.len, blocks + [b])
  {
    hide Divides;
    var b := g.BlockAt(tail, n, a, q);
    FittingBlockIsPlaced(g, tail, free, n, a, q);
    PlacedKeepsInv(g, mem, tail, free, blocks, b);
  }

  /** A client write into one payload keeps the invariant and shows in that payload only. */
  lemma PayloadStore(g: Geometry, mem: seq<byte>, tail: nat, free: nat, blocks: seq<Block>, i: nat, offset: nat, v: byte, j: nat)
    requires RingInv(g, mem, tail, free, blocks)
    requires i < |blocks| && offset < blocks[i].n && j < |blocks|
    ensures blocks[i].payload + blocks[i].n <= g.size && blocks[j].payload + blocks[j].n <= g.size
    ensures RingInv(g, mem[blocks[i].payload + offset := v], tail, free, blocks)
    ensures var was := Payload(g, mem, blocks[j]);
            Payload(g, mem[blocks[i].payload + offset := v], blocks[j]) == if j == i then was[offset := v] else was
  {
    hide RingInv, Payload;
    RingBounds(g, mem, tail, free, blocks);
    LiveBlockInBounds(g, mem, tail, free, blocks, i);
    LiveBlockInBounds(g, mem, tail, free, blocks, j);
    var k := blocks[i].payload + offset;
    forall m | 0 <= m < |blocks| && m != i
      ensures !g.Covers(blocks[m], k)
    {
      assert g.Covers(blocks[i], k);
      LiveBlocksDisjoint(g, mem, tail, free, blocks, i, m, k);
    }
    StoreKeepsInv(g, mem, tail, free, blocks, k, v);
    PayloadAfterStore(g, mem, blocks[j], k, v);
  }

  lemma PayloadAfterStore(g: Geometry, mem: seq<byte>, b: Block, k: nat, v: byte)
    requires |mem| == g.size && b.payload + b.n <= g.size && k < g.size
    ensures var was := Payload(g, mem, b);
            Payload(g, mem[k := v], b) == if b.payload <= k < b.payload + b.n then was[k - b.payload := v] else was
  {
  }

  /** From `mem` to `mem'` one byte of the payload of block `i` was written, and no other payload changed. */
  ghost predicate StoreShows(g: Geometry, mem: seq<byte>, mem': seq<byte>, blocks: seq<Block>, i: nat, offset: nat, v: byte) {
    && |mem| == |mem'| == g.size
    && i < |blocks| && offset < blocks[i].n
    && blocks[i].payload + offset < g.size && mem' == mem[blocks[i].payload + offset := v]
    && forall j :: 0 <= j < |blocks| ==> StoreShowsIn(g, mem, mem', blocks[j], j == i, offset, v)
  }

  predicate StoreShowsIn(g: Geometry, mem: seq<byte>, mem': seq<byte>, b: Block, written: bool, offset: nat, v: byte)
    requires |mem| == |mem'| == g.size
  {
    && b.payload + b.n <= g.size
    && (written ==> offset < b.n)
    && Payload(g, mem', b) == if written then Payload(g, mem, b)[offset := v] else Payload(g, mem, b)
  }

  lemma PayloadStoreAll(g: Geometry, mem: seq<byte>, mem': seq<byte>, tail: nat, free: nat, blocks: seq<Block>, i: nat, offset: nat, v: byte)
    requires RingInv(g, mem, tail, free, blocks)
    requires i < |blocks| && offset < blocks[i].n
    requires blocks[i].payload + offset < g.size && mem' == mem[blocks[i].payload + offset := v]
    ensures RingInv(g, mem', tail, free, blocks)
    ensures StoreShows(g, mem, mem', blocks, i, offset, v)
  {
    PayloadStore(g, mem, tail, free, blocks, i, offset, v, i);
    forall j | 0 <= j < |blocks|
      ensures StoreShowsIn(g, mem, mem', blocks[j], j == i, offset, v)
    {
      PayloadStore(g, mem, tail, free, blocks, i, offset, v, j);
    }
  }

  /** In a ring that satisfies the invariant no two live blocks share a header or payload byte. */
  lemma LiveBlocksDisjoint(g: Geometry, mem: seq<byte>, tail: nat, free: nat, blocks: seq<Block>, i: nat, j: nat, k: nat)
    requires RingInv(g, mem, tail, free, blocks)
    requires i < |blocks| && j < |blocks| && i != j
    ensures !(g.Covers(blocks[i], k) && g.Covers(blocks[j], k))
  {
    hide Divides;
    if i < j {
      BlocksDisjoint(g, g.Wrap(tail + free), tail, blocks, i, j, k);
    } else {
      BlocksDisjoint(g, g.Wrap(tail + free), tail, blocks, j, i, k);
    }
  }

  /** Retiring the oldest block moves its length from live back to free. */
  lemma RetireKeepsInv(g: Geometry, mem: seq<byte>, tail: nat, free: nat, blocks: seq<Block>)
    requires RingInv(g, mem, tail, free, blocks) && blocks != []
    ensures RingInv(g, mem, tail, free + blocks[0].len, blocks[1..])
  {
    assert g.Wrap(g.Wrap(tail + free) + blocks[0].len) == g.Wrap(tail + (free + blocks[0].len));
    HeadersIntactTail(g, mem, blocks);
  }

  lemma HeadersIntactTail(g: Geometry, mem: seq<byte>, blocks: seq<Block>)
    requires blocks != [] && forall i :: 0 <= i < |blocks| ==> HeaderIntact(g, mem, blocks[i])
    ensures forall i :: 0 <= i < |blocks[1..]| ==> HeaderIntact(g, mem, blocks[1..][i])
  {
    assert forall i :: 0 <= i < |blocks[1..]| ==> blocks[1..][i] == blocks[i + 1];
  }

  /** The counter says "empty" exactly when no block is live. */
  lemma EmptyIffNoneLive(g: Geometry, mem: seq<byte>, tail: nat, free: nat, blocks: seq<Block>)
    requires g.Valid() && RingInv(g, mem, tail, free, blocks)
    ensures free == g.size <==> blocks == []
  {
  }
}
