/**
 * A worked run of the event core: one index, four types, two handlers A
 * (allocation 0) and B (allocation 1) both listening to type 0.
 */
module EventScenario {
  import opened Masks
  import opened EventSpec

  const Off: Handler := Handler(false, {0}, 0)
  const On: Handler := Handler(true, {0}, 0)

  /** A registered. */
  const S1: State := State(4, 1, true, true, [0, 0, 0, 0], [[0]], map[0 := Off])
  /** A enabled. */
  const S2: State := State(4, 1, true, true, [1, 0, 0, 0], [[0]], map[0 := On])
  /** B registered behind A. */
  const S3: State := State(4, 1, true, true, [1, 0, 0, 0], [[0, 1]], map[0 := On, 1 := Off])
  /** Both enabled. */
  const S4: State := State(4, 1, true, true, [2, 0, 0, 0], [[0, 1]], map[0 := On, 1 := On])
  /** A put again. */
  const S6: State := State(4, 1, true, true, [1, 0, 0, 0], [[0, 1]], map[0 := Off, 1 := On])
  /** Both put again. */
  const S7: State := State(4, 1, true, true, [0, 0, 0, 0], [[0, 1]], map[0 := Off, 1 := Off])

  lemma RegisterA()
    ensures New(Create(4, 1, true, true), None, true, {0}, 0, 0) == (0, S1)
  {
    var s0 := Create(4, 1, true, true);
    assert s0.refs == [0, 0, 0, 0] && s0.lists == [[]];
    assert {0} - Low(4) == {};
    assert s0.lists[0] + [0] == [0];
    var (r, s1) := Init(s0, {0}, 0, 0);
    assert r == 0;
    assert s1.lists == [[0]];
    assert s1.handlers == map[0 := Off];
    assert s1.refs == [0, 0, 0, 0];
    assert s1 == S1;
    assert New(s0, None, true, {0}, 0, 0) == Init(s0, {0}, 0, 0);
  }

  lemma GetA()
    ensures Get(S1, 0) == (S2, [Enable(Bit(0), 0)])
  {
    assert Base(4, 0) == 0;
    assert Shift(S1.refs, 0, {0}, 1) == [1, 0, 0, 0];
    assert S1.handlers[0 := Off.(enabled := true)] == map[0 := On];
    CrossingGap(S1.refs, 0, {0}, 0, 1, 32);
    assert Crossing(S1.refs, 0, {0}, 0, 32) == [0];
    assert Hooks([0], 0, true) == [Enable(Bit(0), 0)];
  }

  lemma RegisterB()
    ensures New(S2, None, true, {0}, 0, 1) == (0, S3)
  {
    assert {0} - Low(4) == {};
    assert S2.lists[0] + [1] == [0, 1];
    assert S2.handlers[1 := Off] == map[0 := On, 1 := Off];
    assert S2.lists[0 := [0, 1]] == [[0, 1]];
    assert New(S2, None, true, {0}, 0, 1) == Init(S2, {0}, 0, 1);
  }

  lemma GetB()
    ensures Get(S3, 1) == (S4, [])
  {
    assert Base(4, 0) == 0;
    assert Shift(S3.refs, 0, {0}, 1) == [2, 0, 0, 0];
    assert S3.handlers[1 := Off.(enabled := true)] == map[0 := On, 1 := On];
    CrossingGap(S3.refs, 0, {0}, 0, 1, 32);
    assert Crossing(S3.refs, 0, {0}, 0, 32) == [];
    assert Hooks([], 0, true) == [];
  }

  lemma TriggerBoth()
    ensures Trigger(S4, {0}, 0, {}) == (S4, [Call(0, {0}, 0), Call(1, {0}, 0)])
  {
    assert [0, 1][..1] == [0] && [0][..0] == [];
    assert [] + [Call(0, {0}, 0)] == [Call(0, {0}, 0)];
    assert [Call(0, {0}, 0)] + [Call(1, {0}, 0)] == [Call(0, {0}, 0), Call(1, {0}, 0)];
    assert On.types * {0} == {0};
    assert Step(S4, 0, {0}, 0, {}) == (S4, [Call(0, {0}, 0)]);
    assert Step(S4, 1, {0}, 0, {}) == (S4, [Call(1, {0}, 0)]);
    assert Walk(S4, [], {0}, 0, {}) == (S4, []);
    assert Walk(S4, [0], {0}, 0, {}) == (S4, [Call(0, {0}, 0)]);
    assert Walk(S4, [0, 1], {0}, 0, {}) == (S4, [Call(0, {0}, 0), Call(1, {0}, 0)]);
  }

  lemma PutA()
    ensures Put(S4, 0) == (S6, [])
  {
    assert Base(4, 0) == 0;
    assert Shift(S4.refs, 0, {0}, -1) == [1, 0, 0, 0];
    assert S4.handlers[0 := On.(enabled := false)] == map[0 := Off, 1 := On];
    CrossingGap(S4.refs, 0, {0}, 1, 1, 32);
    assert Crossing(S4.refs, 0, {0}, 1, 32) == [];
    assert Hooks([], 0, false) == [];
  }

  lemma PutB()
    ensures Put(S6, 1) == (S7, [Disable(Bit(0), 0)])
  {
    assert Base(4, 0) == 0;
    assert Shift(S6.refs, 0, {0}, -1) == [0, 0, 0, 0];
    assert S6.handlers[1 := On.(enabled := false)] == map[0 := Off, 1 := Off];
    CrossingGap(S6.refs, 0, {0}, 1, 1, 32);
    assert Crossing(S6.refs, 0, {0}, 1, 32) == [0];
    assert Hooks([0], 0, false) == [Disable(Bit(0), 0)];
  }

  /**
   * Registering A and B succeeds; getting A enables type 0 once and
   * getting B adds no enable; a trigger of type 0 calls A then B; putting A
   * disables nothing and putting B disables type 0 once.
   */
  lemma TwoHandlersShareType()
    ensures var s0 := Create(4, 1, true, true);
            var (retA, s1) := New(s0, None, true, {0}, 0, 0);
            0 in s1.handlers &&
            var (s2, h2) := Get(s1, 0);
            var (retB, s3) := New(s2, None, true, {0}, 0, 1);
            0 in s3.handlers && 1 in s3.handlers &&
            var (s4, h4) := Get(s3, 1);
            var (s5, h5) := Trigger(s4, {0}, 0, {});
            0 in s5.handlers && 1 in s5.handlers &&
            var (s6, h6) := Put(s5, 0);
            1 in s6.handlers &&
            var (s7, h7) := Put(s6, 1);
            retA == 0 && retB == 0 &&
            h2 == [Enable(Bit(0), 0)] && h4 == [] &&
            h5 == [Call(0, {0}, 0), Call(1, {0}, 0)] &&
            h6 == [] && h7 == [Disable(Bit(0), 0)]
  {
    RegisterA();
    GetA();
    RegisterB();
    GetB();
    TriggerBoth();
    PutA();
    PutB();
  }
}
