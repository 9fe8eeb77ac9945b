/** A run of the two threads, state by state. */
module RingExample {
  import opened Bytes
  import opened RingLayout
  import opened RingProtocol

  /**
   A run with both threads under way at once, in a ring of two bytes with a header of one. The producer takes the
   whole ring, and while the consumer is releasing that block it looks at the counter once more: too early, so it
   gives up although by then the place is free again.
   */
  lemma {:induction false} SpuriousNull() returns (g: Geometry, ss: seq<State>, acts: seq<Action>)
    ensures g.Valid() && Run(g, ss, acts) && |acts| == 10
    ensures acts[6] == Load(1, 1) && ss[6].consumer.Reading? && acts[9] == GiveUp
    ensures ss[9].producer == Loaded(1, 1, 0) && ss[9].counter == 2
    ensures ss[9].tail <= g.size && g.Fits(ss[9].tail, ss[9].counter, 1, 1, 1)
  {
    g := Geometry(0, 2, 1);
    var b := Block(1, 1, 1, 2);
    var before, after: seq<byte> := [0, 0], [2, 0];
    TwoByteRing(g, b, before, after);
    FirstFive(g, b, before, after);
    BothBegin(g, b, after);
    OneByteRead(g, b, after);
    OneByteAdded(g, b, after);
    GivesUp(g, State(after, 0, 2, [], Loaded(1, 1, 0), Resting));
    ss, acts := BuildSpurious(g, b, before, after);
  }

  lemma BuildSpurious(g: Geometry, b: Block, before: seq<byte>, after: seq<byte>) returns (ss: seq<State>, acts: seq<Action>)
    requires Init(g, State(before, 0, 2, [], Idle, Resting))
    requires Step(g, State(before, 0, 2, [], Idle, Resting), Load(1, 1), State(before, 0, 2, [], Loaded(1, 1, 2), Resting))
    requires Step(g, State(before, 0, 2, [], Loaded(1, 1, 2), Resting), Choose(1), State(before, 0, 2, [], Writing(1, 1, 2, b, 0), Resting))
    requires Step(g, State(before, 0, 2, [], Writing(1, 1, 2, b, 0), Resting), WriteByte, State(after, 0, 2, [], Writing(1, 1, 2, b, 1), Resting))
    requires Step(g, State(after, 0, 2, [], Writing(1, 1, 2, b, 1), Resting), Subtract, State(after, 0, 0, [], Subtracted(1, 1, 2, b), Resting))
    requires Step(g, State(after, 0, 0, [], Subtracted(1, 1, 2, b), Resting), Publish, State(after, 0, 0, [b], Idle, Resting))
    requires Step(g, State(after, 0, 0, [b], Idle, Resting), BeginRelease, State(after, 0, 0, [b], Idle, Reading([])))
    requires Step(g, State(after, 0, 0, [b], Idle, Reading([])), Load(1, 1), State(after, 0, 0, [b], Loaded(1, 1, 0), Reading([])))
    requires Step(g, State(after, 0, 0, [b], Loaded(1, 1, 0), Reading([])), ReadByte, State(after, 0, 0, [b], Loaded(1, 1, 0), Reading([2])))
    requires Step(g, State(after, 0, 0, [b], Loaded(1, 1, 0), Reading([2])), Add, State(after, 0, 2, [], Loaded(1, 1, 0), Resting))
    requires Step(g, State(after, 0, 2, [], Loaded(1, 1, 0), Resting), GiveUp, State(after, 0, 2, [], Idle, Resting))
    ensures Run(g, ss, acts) && |acts| == 10 && acts[6] == Load(1, 1) && ss[6].consumer.Reading? && acts[9] == GiveUp
    ensures ss[9] == State(after, 0, 2, [], Loaded(1, 1, 0), Resting)
  {
    hide Step, Run, Init;
    var start := State(before, 0, 2, [], Idle, Resting);
    StartRun(g, start);
    ss, acts := FiveSteps(g, [start], [], Load(1, 1), State(before, 0, 2, [], Loaded(1, 1, 2), Resting),
                          Choose(1), State(before, 0, 2, [], Writing(1, 1, 2, b, 0), Resting),
                          WriteByte, State(after, 0, 2, [], Writing(1, 1, 2, b, 1), Resting),
                          Subtract, State(after, 0, 0, [], Subtracted(1, 1, 2, b), Resting),
                          Publish, State(after, 0, 0, [b], Idle, Resting));
    ss, acts := FiveSteps(g, ss, acts, BeginRelease, State(after, 0, 0, [b], Idle, Reading([])),
                          Load(1, 1), State(after, 0, 0, [b], Loaded(1, 1, 0), Reading([])),
                          ReadByte, State(after, 0, 0, [b], Loaded(1, 1, 0), Reading([2])),
                          Add, State(after, 0, 2, [], Loaded(1, 1, 0), Resting),
                          GiveUp, State(after, 0, 2, [], Idle, Resting));
  }

  lemma FiveSteps(g: Geometry, ss: seq<State>, acts: seq<Action>, a1: Action, s1: State, a2: Action, s2: State,
                  a3: Action, s3: State, a4: Action, s4: State, a5: Action, s5: State) returns (ss': seq<State>, acts': seq<Action>)
    requires Run(g, ss, acts) && |ss| == |acts| + 1 && Step(g, ss[|acts|], a1, s1)
    requires Step(g, s1, a2, s2) && Step(g, s2, a3, s3) && Step(g, s3, a4, s4) && Step(g, s4, a5, s5)
    ensures Run(g, ss', acts') && |acts'| == |acts| + 5 && |ss'| == |acts'| + 1
    ensures var n := |acts|; ss'[n + 1] == s1 && ss'[n + 2] == s2 && ss'[n + 4] == s4 && ss'[n + 5] == s5
    ensures var n := |acts|; acts'[n + 1] == a2 && acts'[n + 4] == a5
  {
    hide Step, Run;
    ss', acts' := Extend(g, ss, acts, a1, s1);
    ss', acts' := Extend(g, ss', acts', a2, s2);
    ss', acts' := Extend(g, ss', acts', a3, s3);
    ss', acts' := Extend(g, ss', acts', a4, s4);
    ss', acts' := Extend(g, ss', acts', a5, s5);
  }

  lemma StartRun(g: Geometry, s: State)
    requires Init(g, s)
    ensures Run(g, [s], [])
  {
  }

  lemma Extend(g: Geometry, ss: seq<State>, acts: seq<Action>, act: Action, s: State) returns (ss': seq<State>, acts': seq<Action>)
    requires Run(g, ss, acts) && ss != [] && Step(g, ss[|ss| - 1], act, s)
    ensures Run(g, ss', acts') && ss' == ss + [s] && acts' == acts + [act] && |ss'| == |ss| + 1 && |acts'| == |acts| + 1
    ensures ss'[|ss'| - 1] == s && |ss'| == |acts'| + 1
  {
    ss', acts' := ss + [s], acts + [act];
    forall i | 0 <= i < |acts'|
      ensures Step(g, ss'[i], acts'[i], ss'[i + 1])
    {
      assert i < |acts| ==> Step(g, ss[i], acts[i], ss[i + 1]);
    }
  }

  lemma FirstFive(g: Geometry, b: Block, before: seq<byte>, after: seq<byte>)
    requires g == Geometry(0, 2, 1) && b == Block(1, 1, 1, 2) && before == [0, 0] && after == [2, 0]
    ensures Step(g, State(before, 0, 2, [], Idle, Resting), Load(1, 1), State(before, 0, 2, [], Loaded(1, 1, 2), Resting))
    ensures Step(g, State(before, 0, 2, [], Loaded(1, 1, 2), Resting), Choose(1), State(before, 0, 2, [], Writing(1, 1, 2, b, 0), Resting))
    ensures Step(g, State(before, 0, 2, [], Writing(1, 1, 2, b, 0), Resting), WriteByte, State(after, 0, 2, [], Writing(1, 1, 2, b, 1), Resting))
    ensures Step(g, State(after, 0, 2, [], Writing(1, 1, 2, b, 1), Resting), Subtract, State(after, 0, 0, [], Subtracted(1, 1, 2, b), Resting))
    ensures Step(g, State(after, 0, 0, [], Subtracted(1, 1, 2, b), Resting), Publish, State(after, 0, 0, [b], Idle, Resting))
  {
    TwoByteRing(g, b, before, after);
    hide Geometry.IsFirstFit, Geometry.BlockAt, WithHeaderByte;
    assert [] + [b] == [b];
  }

  lemma BothBegin(g: Geometry, b: Block, mem: seq<byte>)
    requires g == Geometry(0, 2, 1)
    ensures Step(g, State(mem, 0, 0, [b], Idle, Resting), BeginRelease, State(mem, 0, 0, [b], Idle, Reading([])))
    ensures Step(g, State(mem, 0, 0, [b], Idle, Reading([])), Load(1, 1), State(mem, 0, 0, [b], Loaded(1, 1, 0), Reading([])))
  {
  }

  lemma GivesUp(g: Geometry, s: State)
    requires s.tail <= g.size && s.producer == Loaded(1, 1, 0) && g.NothingFits(s.tail, 0, 1, 1)
    ensures Step(g, s, GiveUp, s.(producer := Idle))
  {
  }

  lemma OneByteRead(g: Geometry, b: Block, mem: seq<byte>)
    requires g == Geometry(0, 2, 1) && b == Block(1, 1, 1, 2) && mem == [2, 0]
    ensures Step(g, State(mem, 0, 0, [b], Loaded(1, 1, 0), Reading([])), ReadByte, State(mem, 0, 0, [b], Loaded(1, 1, 0), Reading([2])))
  {
    var none: seq<byte> := [];
    assert none + [mem[0]] == [2];
  }

  lemma OneByteAdded(g: Geometry, b: Block, mem: seq<byte>)
    requires g == Geometry(0, 2, 1) && b == Block(1, 1, 1, 2)
    ensures Step(g, State(mem, 0, 0, [b], Loaded(1, 1, 0), Reading([2])), Add, State(mem, 0, 2, [], Loaded(1, 1, 0), Resting))
  {
    assert [b][1..] == [];
    assert Decode([2]) == 2 + 256 * Decode([]);
  }

  lemma TwoByteRing(g: Geometry, b: Block, before: seq<byte>, after: seq<byte>)
    requires g == Geometry(0, 2, 1) && b == Block(1, 1, 1, 2) && before == [0, 0] && after == [2, 0]
    ensures g.Valid() && g.IsFirstFit(0, 2, 1, 1, 1) && g.BlockAt(0, 1, 1, 1) == b
    ensures g.NothingFits(0, 0, 1, 1) && g.Fits(0, 2, 1, 1, 1)
    ensures WithHeaderByte(g, before, b, 0) == after && Decode([2]) == 2
  {
    assert Pow256(1) == 256 * Pow256(0);
    assert Encode(2, 1)[0] == 2;
    assert Decode([2]) == 2 + 256 * Decode([]);
    assert g.Fits(0, 2, 1, 1, 1);
  }
}
