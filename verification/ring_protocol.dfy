/**
 One thread allocates while another releases.

 The counter is the only shared variable. The producer loads it, decides on that snapshot, copies the header
 byte by byte, subtracts, and only then moves its private tail and hands the block over. The consumer copies
 the header out byte by byte and adds. Clients store into payloads at any time in between.
 */
module RingProtocol {
  import opened Bytes
  import opened RingLayout
  import Spec = FifoSpec

  datatype Producer =
    | Idle
    | Loaded(n: nat, a: nat, snapshot: int)
    | Writing(n: nat, a: nat, snapshot: int, b: Block, done: nat)
    | Subtracted(n: nat, a: nat, snapshot: int, b: Block)

  datatype Consumer =
    | Resting
    | Reading(bytes: seq<byte>)

  /** `live` is the queue of blocks between the two threads, oldest first. */
  datatype State = State(mem: seq<byte>, tail: nat, counter: int, live: seq<Block>, producer: Producer, consumer: Consumer)

  datatype Action =
    | Load(n: nat, a: nat)
    | GiveUp
    | Choose(q: nat)
    | WriteByte
    | Subtract
    | Publish
    | BeginRelease
    | ReadByte
    | Add
    | Store(i: nat, offset: nat, v: byte)

  ghost predicate Init(g: Geometry, s: State) {
    && |s.mem| == g.size
    && s.tail == 0 && s.counter == g.size && s.live == []
    && s.producer == Idle && s.consumer == Resting
  }

  ghost predicate Step(g: Geometry, s: State, act: Action, s': State) {
    s.tail <= g.size && match act
    case Load(n, a) =>
      && s.producer.Idle? && n > 0 && a > 0
      && s' == s.(producer := Loaded(n, a, s.counter))
    case GiveUp =>
      && s.producer.Loaded? && s.producer.a > 0 && s.producer.snapshot >= 0
      && g.NothingFits(s.tail, s.producer.snapshot, s.producer.n, s.producer.a)
      && s' == s.(producer := Idle)
    case Choose(q) =>
      && s.producer.Loaded? && s.producer.a > 0 && s.producer.snapshot >= 0
      && var Loaded(n, a, snapshot) := s.producer;
      && g.IsFirstFit(s.tail, snapshot, n, a, q)
      && s' == s.(producer := Writing(n, a, snapshot, g.BlockAt(s.tail, n, a, q), 0))
    case WriteByte =>
      && s.producer.Writing? && s.producer.done < g.header
      && var Writing(n, a, snapshot, b, done) := s.producer;
      && g.header <= b.payload <= |s.mem|
      && s' == s.(mem := WithHeaderByte(g, s.mem, b, done), producer := Writing(n, a, snapshot, b, done + 1))
    case Subtract =>
      && s.producer.Writing? && s.producer.done == g.header
      && var Writing(n, a, snapshot, b, done) := s.producer;
      && s' == s.(counter := s.counter - b.len, producer := Subtracted(n, a, snapshot, b))
    case Publish =>
      && s.producer.Subtracted? && g.size > 0
      && var b := s.producer.b;
      && s' == s.(tail := (s.tail + b.len) % g.size, live := s.live + [b], producer := Idle)
    case BeginRelease =>
      && s.consumer.Resting? && s.live != []
      && s' == s.(consumer := Reading([]))
    case ReadByte =>
      && s.consumer.Reading? && |s.consumer.bytes| < g.header
      && s.live != [] && g.header <= s.live[0].payload <= |s.mem|
      && var bytes := s.consumer.bytes;
      && s' == s.(consumer := Reading(bytes + [s.mem[s.live[0].payload - g.header + |bytes|]]))
    case Add =>
      && s.consumer.Reading? && |s.consumer.bytes| == g.header && s.live != []
      && s' == s.(counter := s.counter + Decode(s.consumer.bytes), live := s.live[1..], consumer := Resting)
    case Store(i, offset, v) =>
      && i < |s.live| && offset < s.live[i].n && s.live[i].payload + s.live[i].n <= |s.mem|
      && s' == s.(mem := s.mem[s.live[i].payload + offset := v])
  }

  // ---- the invariant ----

  /** What is not in the queue: the counter, and a block that was subtracted but not handed over yet. */
  function Unqueued(s: State): int {
    s.counter + if s.producer.Subtracted? then s.producer.b.len else 0
  }

  /** The block the producer is working on lies in the arc its snapshot showed as free. */
  ghost predicate Chosen(g: Geometry, tail: nat, n: nat, a: nat, snapshot: int, b: Block) {
    && n > 0 && a > 0 && b.n == n && b.align == a
    && Placed(g, tail, b)
    && b.len <= snapshot
  }

  ghost predicate ProducerInv(g: Geometry, mem: seq<byte>, tail: nat, counter: int, producer: Producer) {
    match producer
    case Idle => true
    case Loaded(n, a, snapshot) => n > 0 && a > 0 && 0 <= snapshot <= counter
    case Writing(n, a, snapshot, b, done) =>
      && Chosen(g, tail, n, a, snapshot, b)
      && 0 <= snapshot <= counter
      && HeaderPart(g, mem, b, done)
    case Subtracted(n, a, snapshot, b) =>
      && Chosen(g, tail, n, a, snapshot, b)
      && 0 <= snapshot <= counter + b.len
      && HeaderIntact(g, mem, b)
  }

  /** What the consumer has read so far is the beginning of the true length. */
  ghost predicate ConsumerInv(g: Geometry, live: seq<Block>, consumer: Consumer) {
    consumer.Reading? ==>
      && live != []
      && |consumer.bytes| <= g.header
      && consumer.bytes == Encode(live[0].len, g.header)[..|consumer.bytes|]
  }

  ghost predicate Inv(g: Geometry, s: State) {
    && |s.mem| == g.size
    && 0 <= s.counter
    && RingInv(g, s.mem, s.tail, Unqueued(s), s.live)
    && ProducerInv(g, s.mem, s.tail, s.counter, s.producer)
    && ConsumerInv(g, s.live, s.consumer)
  }

  lemma InitInv(g: Geometry, s: State)
    requires g.Valid() && Init(g, s)
    ensures Inv(g, s)
  {
  }

  lemma ChooseKeepsInv(g: Geometry, s: State, q: nat, s': State)
    requires g.Valid() && Inv(g, s) && Step(g, s, Choose(q), s')
    ensures Inv(g, s')
  {
    FittingBlockIsPlaced(g, s.tail, s.producer.snapshot, s.producer.n, s.producer.a, q);
  }

  /** The state after the next byte of the header. */
  function WithByte(g: Geometry, s: State): State
    requires s.producer.Writing? && s.producer.done < g.header <= s.producer.b.payload <= |s.mem|
  {
    s.(mem := WithHeaderByte(g, s.mem, s.producer.b, s.producer.done), producer := s.producer.(done := s.producer.done + 1))
  }

  /** A byte written by the producer is in no live header and in no live payload. */
  lemma WriteByteKeepsInv(g: Geometry, s: State)
    requires g.Valid() && Inv(g, s) && s.producer.Writing? && s.producer.done < g.header
    ensures g.header <= s.producer.b.payload <= |s.mem| && Inv(g, WithByte(g, s))
  {
    hide RingInv, HeaderIntact, WithHeaderByte;
    HeaderByteKeepsInv(g, s.mem, s.tail, s.counter, s.live, s.producer.b, s.producer.done);
  }

  lemma SubtractKeepsInv(g: Geometry, s: State, s': State)
    requires g.Valid() && Inv(g, s) && Step(g, s, Subtract, s')
    ensures Inv(g, s')
  {
    HeaderPartIntact(g, s.mem, s.producer.b);
  }

  lemma PublishKeepsInv(g: Geometry, s: State)
    requires g.Valid() && Inv(g, s) && s.producer.Subtracted?
    ensures Inv(g, Published(g, s))
  {
    hide RingInv, HeaderIntact, HeaderPart;
    var b := s.producer.b;
    GrantKeepsInv(g, s.mem, s.tail, Unqueued(s), s.live, b);
    QueueGrows(g, s.live, b, s.consumer);
  }

  /** The state after the hand-over, its tail at most one lap on. */
  function Published(g: Geometry, s: State): State
    requires s.producer.Subtracted?
  {
    s.(tail := g.Wrap(s.tail + s.producer.b.len), live := s.live + [s.producer.b], producer := Idle)
  }

  lemma NextTail(g: Geometry, s: State)
    requires g.Valid() && Inv(g, s) && s.producer.Subtracted?
    ensures g.size > 0 && (s.tail + s.producer.b.len) % g.size == g.Wrap(s.tail + s.producer.b.len)
    ensures s.producer.b.payload + s.producer.b.n <= g.size
    ensures forall s' :: Step(g, s, Publish, s') ==> s' == Published(g, s)
  {
    WrapIsModulo(g, s.tail + s.producer.b.len);
    hide Geometry.Wrap, RingInv;
  }

  lemma QueueGrows(g: Geometry, live: seq<Block>, b: Block, consumer: Consumer)
    requires ConsumerInv(g, live, consumer)
    ensures ConsumerInv(g, live + [b], consumer)
  {
  }

  lemma ReadByteReadsTheLength(g: Geometry, s: State, s': State)
    requires ConsumerInv(g, s.live, s.consumer) && Step(g, s, ReadByte, s') && HeaderIntact(g, s.mem, s.live[0])
    ensures ConsumerInv(g, s'.live, s'.consumer)
  {
    var b, bytes := s.live[0], s.consumer.bytes;
    HeaderByteRead(g, s.mem, b, |bytes|);
  }

  lemma ReadByteKeepsInv(g: Geometry, s: State, s': State)
    requires g.Valid() && Inv(g, s) && Step(g, s, ReadByte, s')
    ensures Inv(g, s')
  {
    assert HeaderIntact(g, s.mem, s.live[0]);
    ReadByteReadsTheLength(g, s, s');
  }

  /** The consumer credits exactly the length of the block it releases. */
  lemma ReadLength(g: Geometry, s: State)
    requires g.Valid() && Inv(g, s) && s.consumer.Reading? && |s.consumer.bytes| == g.header
    ensures s.live != [] && Decode(s.consumer.bytes) == s.live[0].len
  {
    var b := s.live[0];
    assert b.len < Pow256(g.header);
    assert Encode(b.len, g.header)[..g.header] == Encode(b.len, g.header);
    DecodeEncode(b.len, g.header);
  }

  lemma AddCreditsTheLength(g: Geometry, s: State, s': State)
    requires g.Valid() && Inv(g, s) && Step(g, s, Add, s')
    ensures s'.counter == s.counter + s.live[0].len
    ensures Inv(g, s')
  {
    hide Divides;
    ReadLength(g, s);
    RetireKeepsInv(g, s.mem, s.tail, Unqueued(s), s.live);
  }

  predicate CanStore(s: State, i: nat, offset: nat) {
    i < |s.live| && offset < s.live[i].n && s.live[i].payload + s.live[i].n <= |s.mem|
  }

  /** The state after a client store. */
  function Stored(s: State, i: nat, offset: nat, v: byte): State
    requires CanStore(s, i, offset)
  {
    s.(mem := s.mem[s.live[i].payload + offset := v])
  }

  /** A client store leaves the header the producer is writing alone. */
  lemma StoreMissesProducer(g: Geometry, s: State, i: nat, offset: nat, v: byte)
    requires g.Valid() && Inv(g, s) && CanStore(s, i, offset)
    ensures ProducerInv(g, Stored(s, i, offset, v).mem, s.tail, s.counter, s.producer)
  {
    hide RingInv, HeaderPart, HeaderIntact, Placed;
    var k := s.live[i].payload + offset;
    match s.producer
    case Writing(n, a, snapshot, b, done) =>
      PayloadOutsideHeader(g, s.mem, s.tail, s.counter, s.live, i, offset, b);
      HeaderPartKept(g, s.mem, b, done, k, v);
    case Subtracted(n, a, snapshot, b) =>
      PayloadOutsideHeader(g, s.mem, s.tail, s.counter + b.len, s.live, i, offset, b);
      HeaderPartIntact(g, s.mem, b);
      HeaderPartKept(g, s.mem, b, g.header, k, v);
      HeaderPartIntact(g, Stored(s, i, offset, v).mem, b);
    case _ =>
  }

  lemma StoreKeepsProtocolInv(g: Geometry, s: State, i: nat, offset: nat, v: byte)
    requires g.Valid() && Inv(g, s) && CanStore(s, i, offset)
    ensures Inv(g, Stored(s, i, offset, v))
  {
    hide RingInv, HeaderPart, HeaderIntact, ProducerInv, ConsumerInv;
    PayloadStore(g, s.mem, s.tail, Unqueued(s), s.live, i, offset, v, i);
    StoreMissesProducer(g, s, i, offset, v);
  }

  lemma LocalStepKeepsInv(g: Geometry, s: State, act: Action, s': State)
    requires act.Load? || act.GiveUp? || act.BeginRelease?
    requires g.Valid() && Inv(g, s) && Step(g, s, act, s')
    ensures Inv(g, s')
  {
  }

  /** What a step says of the state before and after it, where it changes memory or the queue. */
  lemma StepMeans(g: Geometry, s: State, act: Action, s': State)
    requires Step(g, s, act, s')
    ensures act.WriteByte? ==>
              && s.producer.Writing? && s.producer.done < g.header <= s.producer.b.payload <= |s.mem|
              && s' == WithByte(g, s)
    ensures act.Publish? ==> s.producer.Subtracted?
    ensures act.Store? ==> CanStore(s, act.i, act.offset) && s' == Stored(s, act.i, act.offset, act.v)
  {
    hide WithHeaderByte;
  }

  /** Every step of either thread and every client store keeps the invariant. */
  lemma StepKeepsInv(g: Geometry, s: State, act: Action, s': State)
    requires g.Valid() && Inv(g, s) && Step(g, s, act, s')
    ensures Inv(g, s')
  {
    hide Step, Inv;
    StepMeans(g, s, act, s');
    match act
    case Load(n, a) => LocalStepKeepsInv(g, s, act, s');
    case GiveUp => LocalStepKeepsInv(g, s, act, s');
    case Choose(q) => ChooseKeepsInv(g, s, q, s');
    case WriteByte => WriteByteKeepsInv(g, s);
    case Subtract => SubtractKeepsInv(g, s, s');
    case Publish =>
      NextTail(g, s);
      PublishKeepsInv(g, s);
    case BeginRelease => LocalStepKeepsInv(g, s, act, s');
    case ReadByte => ReadByteKeepsInv(g, s, s');
    case Add => AddCreditsTheLength(g, s, s');
    case Store(i, offset, v) => StoreKeepsProtocolInv(g, s, i, offset, v);
  }

  // ---- what the producer has chosen ----

  /** Block `b` is the first fit of a request in the room of a snapshot. */
  ghost predicate IsChoice(g: Geometry, tail: nat, n: nat, a: nat, snapshot: int, b: Block) {
    && tail <= g.size && a > 0 && snapshot >= 0 && g.header <= b.payload
    && g.IsFirstFit(tail, snapshot, n, a, b.payload)
    && b == g.BlockAt(tail, n, a, b.payload)
  }

  /** From the choice to the hand-over, the block is the first fit of the snapshot. */
  ghost predicate ChoiceInv(g: Geometry, s: State) {
    s.producer.Writing? || s.producer.Subtracted? ==>
      IsChoice(g, s.tail, s.producer.n, s.producer.a, s.producer.snapshot, s.producer.b)
  }

  lemma StepKeepsChoice(g: Geometry, s: State, act: Action, s': State)
    requires ChoiceInv(g, s) && Step(g, s, act, s')
    ensures ChoiceInv(g, s')
  {
  }

  /** However old its snapshot, the producer chooses what it would choose on the counter as it is now. */
  lemma {:induction false} StaleChoiceIsCurrent(g: Geometry, s: State, q: nat, s': State)
    requires g.Valid() && Inv(g, s) && Step(g, s, Choose(q), s')
    ensures g.IsFirstFit(s.tail, s.counter, s.producer.n, s.producer.a, q)
  {
    FirstFitMonotone(g, s.tail, s.producer.snapshot, s.counter, s.producer.n, s.producer.a, q);
  }

  /** And that is still so when the block is handed over, counting the room without it. */
  lemma {:induction false} ChoiceIsCurrent(g: Geometry, s: State)
    requires g.Valid() && Inv(g, s) && ChoiceInv(g, s) && s.producer.Subtracted?
    ensures IsChoice(g, s.tail, s.producer.n, s.producer.a, Unqueued(s), s.producer.b)
    ensures s.producer.b.len < 2 * (g.header + s.producer.n + s.producer.a - 1)
  {
    var Subtracted(n, a, snapshot, b) := s.producer;
    FirstFitMonotone(g, s.tail, snapshot, Unqueued(s), n, a, b.payload);
    WasteBound(g, s.tail, Unqueued(s), n, a, b.payload);
  }

  // ---- nobody gets stuck ----

  predicate ContinuesAllocate(act: Action) {
    act.GiveUp? || act.Choose? || act.WriteByte? || act.Subtract? || act.Publish?
  }

  predicate ContinuesRelease(act: Action) {
    act.ReadByte? || act.Add?
  }

  /** Once a call of `allocate` has loaded the counter it can always take its next step, whatever the others did. */
  lemma {:induction false} ProducerNeverStuck(g: Geometry, s: State)
    requires g.Valid() && Inv(g, s) && !s.producer.Idle?
    ensures exists act, s' :: ContinuesAllocate(act) && Step(g, s, act, s')
  {
    if s.producer.Loaded? {
      LoadedNotStuck(g, s);
    } else {
      WorkingNotStuck(g, s);
    }
  }

  lemma LoadedNotStuck(g: Geometry, s: State)
    requires g.Valid() && Inv(g, s) && s.producer.Loaded?
    ensures exists act, s' :: ContinuesAllocate(act) && Step(g, s, act, s')
  {
    var Loaded(n, a, snapshot) := s.producer;
    SomethingOrNothingFits(g, s.tail, snapshot, n, a);
    if q: nat :| g.IsFirstFit(s.tail, snapshot, n, a, q) {
      assert Step(g, s, Choose(q), s.(producer := Writing(n, a, snapshot, g.BlockAt(s.tail, n, a, q), 0)));
    } else {
      assert Step(g, s, GiveUp, s.(producer := Idle));
    }
  }

  lemma WorkingNotStuck(g: Geometry, s: State)
    requires Inv(g, s) && (s.producer.Writing? || s.producer.Subtracted?)
    ensures exists act, s' :: ContinuesAllocate(act) && Step(g, s, act, s')
  {
    match s.producer
    case Writing(n, a, snapshot, b, done) =>
      if done < g.header {
        var mem' := WithHeaderByte(g, s.mem, b, done);
        assert Step(g, s, WriteByte, s.(mem := mem', producer := Writing(n, a, snapshot, b, done + 1)));
      } else {
        assert Step(g, s, Subtract, s.(counter := s.counter - b.len, producer := Subtracted(n, a, snapshot, b)));
      }
    case Subtracted(n, a, snapshot, b) =>
      assert Step(g, s, Publish, s.(tail := (s.tail + b.len) % g.size, live := s.live + [b], producer := Idle));
  }

  lemma SomethingOrNothingFits(g: Geometry, tail: nat, free: nat, n: nat, a: nat)
    requires g.Valid() && tail <= g.size && free <= g.size && a > 0
    ensures g.NothingFits(tail, free, n, a) || exists q: nat :: g.IsFirstFit(tail, free, n, a, q)
  {
    SegmentsGiveFirstFit(g, tail, free, n, a);
    var (first, second) := Split(g, tail, free);
    var res, res2 := PadAndAlign(g, n, a, tail, first), PadAndAlign(g, n, a, 0, second);
    assert res.Some? || res2.Some? || g.NothingFits(tail, free, n, a);
  }

  /** A call of `release` can always go on reading the header and then credit it. */
  lemma {:induction false} ConsumerNeverStuck(g: Geometry, s: State)
    requires g.Valid() && Inv(g, s) && s.consumer.Reading?
    ensures exists act, s' :: ContinuesRelease(act) && Step(g, s, act, s')
  {
    var bytes := s.consumer.bytes;
    if |bytes| < g.header {
      assert HeaderIntact(g, s.mem, s.live[0]);
      var next := s.mem[s.live[0].payload - g.header + |bytes|];
      assert Step(g, s, ReadByte, s.(consumer := Reading(bytes + [next])));
    } else {
      assert Step(g, s, Add, s.(counter := s.counter + Decode(bytes), live := s.live[1..], consumer := Resting));
    }
  }

  // ---- refinement of the atomic allocator ----

  predicate InBounds(g: Geometry, mem: seq<byte>, blocks: seq<Block>) {
    && |mem| == g.size
    && forall i :: 0 <= i < |blocks| ==> blocks[i].payload + blocks[i].n <= g.size
  }

  function BufferOf(g: Geometry, mem: seq<byte>, b: Block): Spec.Buffer
    requires |mem| == g.size && b.payload + b.n <= g.size
  {
    Spec.Buffer(b.payload, b.len, Payload(g, mem, b))
  }

  function Buffers(g: Geometry, mem: seq<byte>, blocks: seq<Block>): (r: seq<Spec.Buffer>)
    requires InBounds(g, mem, blocks)
    ensures |r| == |blocks| && forall i :: 0 <= i < |blocks| ==> r[i] == BufferOf(g, mem, blocks[i])
  {
    seq(|blocks|, i requires 0 <= i < |blocks| => BufferOf(g, mem, blocks[i]))
  }

  /** What clients see of a state: the tail, the queue, and the request the producer is serving. */
  function Abstract(g: Geometry, s: State): Spec.Fifo
    requires InBounds(g, s.mem, s.live)
  {
    Spec.Fifo(s.tail,
              Buffers(g, s.mem, s.live),
              match s.producer
              case Idle => Spec.NoRequest
              case Loaded(n, a, _) => Spec.Request(n, a, RoomSeen(s))
              case Writing(n, a, _, _, _) => Spec.Request(n, a, RoomSeen(s))
              case Subtracted(n, a, _, _) => Spec.Request(n, a, RoomSeen(s)))
  }

  /** The room there was when the request was made: the snapshot. */
  function RoomSeen(s: State): int
    requires !s.producer.Idle?
  {
    s.producer.snapshot
  }

  function EventOf(g: Geometry, s: State, act: Action): Spec.Event
    requires |s.mem| == g.size
  {
    match act
    case Load(n, a) => Spec.Ask(n, a)
    case GiveUp => Spec.Refuse
    case Publish =>
      if s.producer.Subtracted? && s.producer.b.payload + s.producer.b.n <= g.size
      then Spec.Grant(BufferOf(g, s.mem, s.producer.b)) else Spec.Nothing
    case Add => Spec.Retire
    case Store(i, offset, v) => Spec.Store(i, offset, v)
    case _ => Spec.Nothing
  }

  /** The step is, to the clients, the event it stands for. */
  ghost predicate Refines(g: Geometry, s: State, act: Action, s': State) {
    && InBounds(g, s.mem, s.live) && InBounds(g, s'.mem, s'.live)
    && Spec.Next(g, Abstract(g, s), EventOf(g, s, act), Abstract(g, s'))
  }

  lemma InvInBounds(g: Geometry, s: State)
    requires Inv(g, s)
    ensures InBounds(g, s.mem, s.live)
  {
    TilesInBounds(g, g.Wrap(s.tail + Unqueued(s)), s.tail, s.live);
  }

  lemma {:induction false} TotalIsSum(g: Geometry, mem: seq<byte>, blocks: seq<Block>)
    requires InBounds(g, mem, blocks)
    ensures Spec.Total(Buffers(g, mem, blocks)) == Sum(blocks)
    decreases |blocks|
  {
    if blocks == [] {
    } else {
      TotalIsSum(g, mem, blocks[1..]);
      assert Buffers(g, mem, blocks)[1..] == Buffers(g, mem, blocks[1..]);
    }
  }

  /** A granted block is apart, header and all, from every buffer in the queue. */
  lemma GrantIsDisjoint(g: Geometry, mem: seq<byte>, tail: nat, free: nat, blocks: seq<Block>, b: Block, i: nat)
    requires g.Valid() && RingInv(g, mem, tail, free, blocks) && InBounds(g, mem, blocks)
    requires Placed(g, tail, b) && b.len <= free && i < |blocks|
    ensures Spec.Disjoint(g.header, BufferOf(g, mem, blocks[i]), BufferOf(g, mem, b))
  {
    var c := blocks[i];
    TilesInBounds(g, g.Wrap(tail + free), tail, blocks);
    PlacedIsFresh(g, mem, tail, free, blocks, b, i, c.payload - g.header);
    PlacedIsFresh(g, mem, tail, free, blocks, b, i, b.payload - g.header);
  }

  lemma BuffersAppend(g: Geometry, mem: seq<byte>, blocks: seq<Block>, b: Block)
    requires InBounds(g, mem, blocks) && b.payload + b.n <= g.size
    ensures InBounds(g, mem, blocks + [b])
    ensures Buffers(g, mem, blocks + [b]) == Buffers(g, mem, blocks) + [BufferOf(g, mem, b)]
  {
  }

  /** The block handed over is what an atomic allocation would give. */
  lemma PublishIsAtomic(g: Geometry, s: State)
    requires g.Valid() && Inv(g, s) && ChoiceInv(g, s) && InBounds(g, s.mem, s.live) && s.producer.Subtracted?
    requires s.producer.b.payload + s.producer.b.n <= g.size
    ensures Spec.IsAtomicGrant(g, Abstract(g, s), BufferOf(g, s.mem, s.producer.b))
  {
    TotalIsSum(g, s.mem, s.live);
    ChoiceIsCurrent(g, s);
  }

  /** It keeps what clients rely on. */
  lemma PublishIsGood(g: Geometry, s: State)
    requires g.Valid() && Inv(g, s) && ChoiceInv(g, s) && InBounds(g, s.mem, s.live) && s.producer.Subtracted?
    requires s.producer.b.payload + s.producer.b.n <= g.size
    ensures Spec.IsGoodBuffer(g, Abstract(g, s), BufferOf(g, s.mem, s.producer.b))
  {
    var Subtracted(n, a, snapshot, b) := s.producer;
    TotalIsSum(g, s.mem, s.live);
    ChoiceIsCurrent(g, s);
    forall i | 0 <= i < |s.live|
      ensures Spec.Disjoint(g.header, BufferOf(g, s.mem, s.live[i]), BufferOf(g, s.mem, b))
    {
      GrantIsDisjoint(g, s.mem, s.tail, Unqueued(s), s.live, b, i);
    }
  }

  lemma PublishIsGrant(g: Geometry, s: State)
    requires g.Valid() && Inv(g, s) && ChoiceInv(g, s) && s.producer.Subtracted?
    requires InBounds(g, s.mem, s.live) && s.producer.b.payload + s.producer.b.n <= g.size
    ensures Refines(g, s, Publish, Published(g, s))
  {
    var b := s.producer.b;
    NextTail(g, s);
    PublishIsAtomic(g, s);
    PublishIsGood(g, s);
    hide RingInv, Spec.IsAtomicGrant, Spec.IsGoodBuffer;
    BuffersAppend(g, s.mem, s.live, b);
  }

  lemma StoreInBuffers(g: Geometry, mem: seq<byte>, tail: nat, free: nat, blocks: seq<Block>, i: nat, offset: nat, v: byte)
    requires RingInv(g, mem, tail, free, blocks) && InBounds(g, mem, blocks)
    requires i < |blocks| && offset < blocks[i].n
    ensures var q := Buffers(g, mem, blocks);
            Buffers(g, mem[blocks[i].payload + offset := v], blocks) == q[i := q[i].(data := q[i].data[offset := v])]
  {
    var q := Buffers(g, mem, blocks);
    var q' := Buffers(g, mem[blocks[i].payload + offset := v], blocks);
    forall j | 0 <= j < |blocks|
      ensures q'[j] == if j == i then q[i].(data := q[i].data[offset := v]) else q[j]
    {
      PayloadStore(g, mem, tail, free, blocks, i, offset, v, j);
    }
  }

  lemma StoreIsStore(g: Geometry, s: State, i: nat, offset: nat, v: byte)
    requires g.Valid() && Inv(g, s) && CanStore(s, i, offset) && InBounds(g, s.mem, s.live)
    ensures Refines(g, s, Store(i, offset, v), Stored(s, i, offset, v))
  {
    StoreInBuffers(g, s.mem, s.tail, Unqueued(s), s.live, i, offset, v);
  }

  /** A byte outside all headers and payloads changes no buffer's contents. */
  lemma OtherByteInBuffers(g: Geometry, mem: seq<byte>, blocks: seq<Block>, k: nat, v: byte)
    requires InBounds(g, mem, blocks) && k < |mem|
    requires forall i :: 0 <= i < |blocks| ==> !g.Covers(blocks[i], k)
    ensures Buffers(g, mem[k := v], blocks) == Buffers(g, mem, blocks)
  {
    forall i | 0 <= i < |blocks|
      ensures Payload(g, mem[k := v], blocks[i]) == Payload(g, mem, blocks[i])
    {
      assert !g.Covers(blocks[i], k);
    }
  }

  lemma HeaderByteInBuffers(g: Geometry, mem: seq<byte>, tail: nat, free: nat, blocks: seq<Block>, b: Block, done: nat)
    requires RingInv(g, mem, tail, free, blocks) && InBounds(g, mem, blocks)
    requires Placed(g, tail, b) && b.len <= free && done < g.header
    ensures Buffers(g, WithHeaderByte(g, mem, b, done), blocks) == Buffers(g, mem, blocks)
  {
    var k := b.payload - g.header + done;
    forall i | 0 <= i < |blocks|
      ensures !g.Covers(blocks[i], k)
    {
      PlacedIsFresh(g, mem, tail, free, blocks, b, i, k);
    }
    OtherByteInBuffers(g, mem, blocks, k, Encode(b.len, g.header)[done]);
  }

  /** Header bytes change no buffer's contents. */
  lemma WriteByteIsNothing(g: Geometry, s: State)
    requires g.Valid() && Inv(g, s) && s.producer.Writing? && s.producer.done < g.header
    requires g.header <= s.producer.b.payload <= |s.mem| && InBounds(g, s.mem, s.live)
    ensures Refines(g, s, WriteByte, WithByte(g, s))
  {
    HeaderByteInBuffers(g, s.mem, s.tail, s.counter, s.live, s.producer.b, s.producer.done);
    hide RingInv, WithHeaderByte;
  }

  lemma GiveUpIsRefuse(g: Geometry, s: State, s': State)
    requires g.Valid() && Inv(g, s) && Step(g, s, GiveUp, s')
    requires InBounds(g, s.mem, s.live) && InBounds(g, s'.mem, s'.live)
    ensures Refines(g, s, GiveUp, s')
  {
    var Loaded(n, a, snapshot) := s.producer;
    if snapshot + 1 >= 2 * (g.header + n + a - 1) {
      Progress(g, s.tail, snapshot, n, a);
    }
  }

  lemma LoadIsAsk(g: Geometry, s: State, n: nat, a: nat, s': State)
    requires g.Valid() && Inv(g, s) && Step(g, s, Load(n, a), s')
    requires InBounds(g, s.mem, s.live) && InBounds(g, s'.mem, s'.live)
    ensures Refines(g, s, Load(n, a), s')
  {
    TotalIsSum(g, s.mem, s.live);
  }

  /** Deciding, subtracting and reading a header show to nobody. */
  lemma QuietStepIsNothing(g: Geometry, s: State, act: Action, s': State)
    requires act.Choose? || act.Subtract? || act.BeginRelease? || act.ReadByte?
    requires Inv(g, s) && Step(g, s, act, s')
    requires InBounds(g, s.mem, s.live) && InBounds(g, s'.mem, s'.live)
    ensures Refines(g, s, act, s')
  {
    hide RingInv, ProducerInv, ConsumerInv, Geometry.IsFirstFit;
  }

  lemma AddIsRetire(g: Geometry, s: State, s': State)
    requires g.Valid() && Inv(g, s) && Step(g, s, Add, s')
    requires InBounds(g, s.mem, s.live) && InBounds(g, s'.mem, s'.live)
    ensures Refines(g, s, Add, s')
  {
    assert Buffers(g, s'.mem, s'.live) == Buffers(g, s.mem, s.live)[1..];
  }

  /** Every step of the protocol is, to the clients, one step of the atomic allocator or none at all. */
  lemma StepRefines(g: Geometry, s: State, act: Action, s': State)
    requires g.Valid() && Inv(g, s) && ChoiceInv(g, s) && Step(g, s, act, s')
    ensures Inv(g, s') && ChoiceInv(g, s')
    ensures Refines(g, s, act, s')
  {
    hide Step, Inv, InBounds, Refines, ChoiceInv;
    StepKeepsInv(g, s, act, s');
    StepKeepsChoice(g, s, act, s');
    StepMeans(g, s, act, s');
    InvInBounds(g, s);
    InvInBounds(g, s');
    match act
    case Load(n, a) => LoadIsAsk(g, s, n, a, s');
    case GiveUp => GiveUpIsRefuse(g, s, s');
    case Choose(q) => QuietStepIsNothing(g, s, act, s');
    case WriteByte => WriteByteIsNothing(g, s);
    case Subtract => QuietStepIsNothing(g, s, act, s');
    case Publish =>
      NextTail(g, s);
      PublishIsGrant(g, s);
    case BeginRelease => QuietStepIsNothing(g, s, act, s');
    case ReadByte => QuietStepIsNothing(g, s, act, s');
    case Add => AddIsRetire(g, s, s');
    case Store(i, offset, v) => StoreIsStore(g, s, i, offset, v);
  }

  // ---- either thread may start at any time ----

  ghost predicate Enabled(g: Geometry, s: State, act: Action) {
    exists s' :: Step(g, s, act, s')
  }

  /** An idle producer may begin any request, whatever the consumer is doing. */
  lemma {:induction false} LoadEnabled(g: Geometry, s: State, n: nat, a: nat)
    requires g.Valid() && Inv(g, s)
    ensures Enabled(g, s, Load(n, a)) <==> s.producer == Idle && n > 0 && a > 0
  {
    if s.producer == Idle && n > 0 && a > 0 {
      assert Step(g, s, Load(n, a), s.(producer := Loaded(n, a, s.counter)));
    }
  }

  /** A resting consumer may begin to release the oldest block, whatever the producer is doing. */
  lemma {:induction false} BeginReleaseEnabled(g: Geometry, s: State)
    requires g.Valid() && Inv(g, s)
    ensures Enabled(g, s, BeginRelease) <==> s.consumer == Resting && s.live != []
  {
    if s.consumer == Resting && s.live != [] {
      assert Step(g, s, BeginRelease, s.(consumer := Reading([])));
    }
  }

  /** Clients may store into any byte of a payload in the queue at any time. */
  lemma {:induction false} StoreEnabled(g: Geometry, s: State, i: nat, offset: nat, v: byte)
    requires g.Valid() && Inv(g, s)
    ensures Enabled(g, s, Store(i, offset, v)) <==> i < |s.live| && offset < s.live[i].n
  {
    if i < |s.live| && offset < s.live[i].n {
      TilesInBounds(g, g.Wrap(s.tail + Unqueued(s)), s.tail, s.live);
      assert Step(g, s, Store(i, offset, v), s.(mem := s.mem[s.live[i].payload + offset := v]));
    }
  }

  // ---- whole runs ----

  ghost predicate Run(g: Geometry, ss: seq<State>, acts: seq<Action>) {
    && |ss| == |acts| + 1
    && Init(g, ss[0])
    && forall i :: 0 <= i < |acts| ==> Step(g, ss[i], acts[i], ss[i + 1])
  }

  lemma {:induction false} RunInv(g: Geometry, ss: seq<State>, acts: seq<Action>, i: nat)
    requires g.Valid() && Run(g, ss, acts) && i < |ss|
    ensures Inv(g, ss[i]) && ChoiceInv(g, ss[i])
  {
    if i == 0 {
      InitInv(g, ss[0]);
    } else {
      RunInv(g, ss, acts, i - 1);
      StepKeepsInv(g, ss[i - 1], acts[i - 1], ss[i]);
      StepKeepsChoice(g, ss[i - 1], acts[i - 1], ss[i]);
    }
  }

  /** In every interleaving the clients see a run of the atomic allocator. */
  lemma {:induction false} RunRefines(g: Geometry, ss: seq<State>, acts: seq<Action>)
    requires g.Valid() && Run(g, ss, acts)
    ensures forall i :: 0 <= i < |ss| ==> |ss[i].mem| == g.size && InBounds(g, ss[i].mem, ss[i].live)
    ensures Spec.Run(g,
                     seq(|ss|, i requires 0 <= i < |ss| => Abstract(g, ss[i])),
                     seq(|acts|, i requires 0 <= i < |acts| => EventOf(g, ss[i], acts[i])))
  {
    forall i | 0 <= i < |ss|
      ensures Inv(g, ss[i]) && ChoiceInv(g, ss[i]) && InBounds(g, ss[i].mem, ss[i].live)
    {
      RunInv(g, ss, acts, i);
      InvInBounds(g, ss[i]);
    }
    forall i | 0 <= i < |acts|
      ensures Refines(g, ss[i], acts[i], ss[i + 1])
    {
      StepRefines(g, ss[i], acts[i], ss[i + 1]);
    }
  }

  /**
   In every reachable state: the snapshot the producer plans on is at most the room it may still count on, and
   the header and payload it has chosen touch no block that is live, however old the snapshot is.
   */
  lemma {:induction false} StaleSnapshotIsSafe(g: Geometry, ss: seq<State>, acts: seq<Action>, i: nat)
    requires g.Valid() && Run(g, ss, acts) && i < |ss|
    ensures ss[i].producer.Loaded? || ss[i].producer.Writing? ==> ss[i].producer.snapshot <= ss[i].counter
    ensures ss[i].producer.Writing? || ss[i].producer.Subtracted? ==>
              forall j, k: nat :: 0 <= j < |ss[i].live| ==>
                !(g.Covers(ss[i].producer.b, k) && g.Covers(ss[i].live[j], k))
  {
    RunInv(g, ss, acts, i);
    var s := ss[i];
    if s.producer.Writing? || s.producer.Subtracted? {
      forall j, k: nat | 0 <= j < |s.live|
        ensures !(g.Covers(s.producer.b, k) && g.Covers(s.live[j], k))
      {
        PlacedIsFresh(g, s.mem, s.tail, Unqueued(s), s.live, s.producer.b, j, k);
      }
    }
  }

  /**
   A null from a current snapshot means that nothing fits. From an older one it can be spurious: every place that
   would fit now needs more than the snapshot. Choices do not suffer, by `StaleChoiceIsCurrent`.
   */
  lemma StaleNullOnly(g: Geometry, s: State, s': State)
    requires g.Valid() && Inv(g, s) && Step(g, s, GiveUp, s')
    ensures s.producer.snapshot == s.counter ==> g.NothingFits(s.tail, s.counter, s.producer.n, s.producer.a)
    ensures forall q: nat :: g.Fits(s.tail, s.counter, s.producer.n, s.producer.a, q) ==>
              s.producer.snapshot < g.BlockAt(s.tail, s.producer.n, s.producer.a, q).len <= s.counter
  {
    forall q: nat | g.Fits(s.tail, s.counter, s.producer.n, s.producer.a, q)
      ensures s.producer.snapshot < g.BlockAt(s.tail, s.producer.n, s.producer.a, q).len
    {
      assert !g.Fits(s.tail, s.producer.snapshot, s.producer.n, s.producer.a, q);
    }
  }

  /** Nothing leaks: between operations the counter and the lengths of the queued blocks add up to the buffer. */
  lemma {:induction false} RoomIsConserved(g: Geometry, ss: seq<State>, acts: seq<Action>, i: nat)
    requires g.Valid() && Run(g, ss, acts) && i < |ss|
    ensures 0 <= ss[i].counter <= g.size
    ensures !ss[i].producer.Subtracted? ==> ss[i].counter + Sum(ss[i].live) == g.size
    ensures !ss[i].producer.Subtracted? ==> (ss[i].counter == g.size <==> ss[i].live == [])
  {
    RunInv(g, ss, acts, i);
    var s := ss[i];
    EmptyIffNoneLive(g, s.mem, s.tail, Unqueued(s), s.live);
  }
}
