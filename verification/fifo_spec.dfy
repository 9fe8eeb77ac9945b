/**
 What a client of the ring sees: an allocator whose every step is atomic, over a queue of separate buffers.

 Contents are separate values, so a step that changes one buffer cannot, by construction, change another. A
 grant is what one atomic look at the room gives: the first fit. The one freedom is a refusal, which may go by
 the room there was when the request was made.
 */
module FifoSpec {
  import opened Bytes
  import opened RingLayout

  /** A buffer at offset `at` with `data` in it that takes `len` bytes of the capacity. */
  datatype Buffer = Buffer(at: nat, len: nat, data: seq<byte>)

  /** An allocation under way: what was asked for and the room there was when it was asked. */
  datatype Request = NoRequest | Request(n: nat, align: nat, room: int)

  /** `tail` is where the last buffer granted ends. */
  datatype Fifo = Fifo(tail: nat, queue: seq<Buffer>, request: Request)

  datatype Event =
    | Ask(n: nat, align: nat)
    | Refuse
    | Grant(buffer: Buffer)
    | Store(i: nat, offset: nat, v: byte)
    | Retire
    | Nothing

  function Total(queue: seq<Buffer>): nat {
    if queue == [] then 0 else queue[0].len + Total(queue[1..])
  }

  function RoomIn(g: Geometry, f: Fifo): int {
    g.size - Total(f.queue)
  }

  predicate Disjoint(header: nat, b: Buffer, c: Buffer) {
    b.at + |b.data| + header <= c.at || c.at + |c.data| + header <= b.at
  }

  ghost predicate Init(f: Fifo) {
    f == Fifo(0, [], NoRequest)
  }

  /** The buffer an atomic allocation gives: at the first fit, as long as the way from the tail to its end. */
  ghost predicate IsAtomicGrant(g: Geometry, f: Fifo, b: Buffer) {
    && f.request.Request? && f.request.align > 0 && f.tail <= g.size && RoomIn(g, f) >= 0
    && |b.data| == f.request.n
    && g.IsFirstFit(f.tail, RoomIn(g, f), f.request.n, f.request.align, b.at)
    && b.len == g.BlockAt(f.tail, f.request.n, f.request.align, b.at).len
  }

  /** What a client may rely on: aligned, inside, apart from all other buffers, and wasting little. */
  ghost predicate IsGoodBuffer(g: Geometry, f: Fifo, b: Buffer) {
    && f.request.Request? && f.request.align > 0
    && g.Aligned(f.request.align, b.at)
    && g.header <= b.at && b.at + |b.data| <= g.size
    && g.header + |b.data| <= b.len < 2 * (g.header + |b.data| + f.request.align - 1)
    && Total(f.queue) + b.len <= g.size
    && forall i :: 0 <= i < |f.queue| ==> Disjoint(g.header, f.queue[i], b)
  }

  /** Nothing fitted in the room the request was made with; twice the worst case, less one, is always enough. */
  ghost predicate MayRefuse(g: Geometry, f: Fifo) {
    && f.request.Request? && f.request.align > 0 && f.request.room >= 0 && f.tail <= g.size
    && g.NothingFits(f.tail, f.request.room, f.request.n, f.request.align)
    && f.request.room + 1 < 2 * (g.header + f.request.n + f.request.align - 1)
  }

  ghost predicate Next(g: Geometry, f: Fifo, e: Event, f': Fifo) {
    match e
    case Ask(n, align) =>
      && f.request.NoRequest? && n > 0 && align > 0
      && f' == f.(request := Request(n, align, RoomIn(g, f)))
    case Refuse =>
      && MayRefuse(g, f)
      && f' == f.(request := NoRequest)
    case Grant(b) =>
      && IsAtomicGrant(g, f, b) && IsGoodBuffer(g, f, b) && g.size > 0
      && f' == Fifo((f.tail + b.len) % g.size, f.queue + [b], NoRequest)
    case Store(i, offset, v) =>
      && i < |f.queue| && offset < |f.queue[i].data|
      && f' == f.(queue := f.queue[i := f.queue[i].(data := f.queue[i].data[offset := v])])
    case Retire =>
      && f.queue != []
      && f' == f.(queue := f.queue[1..])
    case Nothing =>
      f' == f
  }

  ghost predicate Run(g: Geometry, fs: seq<Fifo>, es: seq<Event>) {
    && |fs| == |es| + 1
    && Init(fs[0])
    && forall i :: 0 <= i < |es| ==> Next(g, fs[i], es[i], fs[i + 1])
  }
}
