/**
 * Sequences of nouveau_event_get / nouveau_event_put calls and the backend
 * hooks they produce: for every counter, the enable calls minus the disable
 * calls of any run equal the change in whether that counter is non-zero, so
 * the backend sees an event type switched on exactly while some enabled
 * handler listens to it.
 */
module EventTrace {
  import opened Masks
  import opened EventSpec
  import opened EventProps

  /** A get or a put of one handler. */
  datatype Op = Arm(x: HandlerId) | Disarm(x: HandlerId)

  function Apply(s: State, op: Op): (State, seq<Hook>)
    requires op.x in s.handlers
  {
    match op
    case Arm(x) => Get(s, x)
    case Disarm(x) => Put(s, x)
  }

  predicate Known(s: State, ops: seq<Op>)
  {
    forall k :: 0 <= k < |ops| ==> ops[k].x in s.handlers
  }

  /** The calls `ops`, one after the other, and all the hooks they make. */
  function Run(s: State, ops: seq<Op>): (State, seq<Hook>)
    requires Known(s, ops)
    decreases |ops|
  {
    if ops == [] then (s, [])
    else
      var (s1, hs1) := Apply(s, ops[0]);
      assert s1.handlers.Keys == s.handlers.Keys;
      var (s2, hs2) := Run(s1, ops[1..]);
      (s2, hs1 + hs2)
  }

  /** The enable calls minus the disable calls for type `t` of index `i`. */
  function Net(hs: seq<Hook>, i: nat, t: Pos): int
  {
    if hs == [] then 0
    else
      var last := hs[|hs| - 1];
      Net(hs[..|hs| - 1], i, t) +
        (if last == Enable(Bit(t), i) then 1 else if last == Disable(Bit(t), i) then -1 else 0)
  }

  /** 1 when the counter of type `t` of index `i` is non-zero. */
  function On(s: State, i: nat, t: nat): int
    requires Slot(s.typesNr, i, t) < |s.refs|
  {
    if s.refs[Slot(s.typesNr, i, t)] != 0 then 1 else 0
  }

  lemma {:induction false} NetAppend(a: seq<Hook>, b: seq<Hook>, i: nat, t: Pos)
    ensures Net(a + b, i, t) == Net(a, i, t) + Net(b, i, t)
    decreases |b|
  {
    if b == [] {
      assert a + b == a;
    } else {
      assert (a + b)[..|a + b| - 1] == a + b[..|b| - 1];
      NetAppend(a, b[..|b| - 1], i, t);
    }
  }

  /** A run of strictly increasing bits turned into hooks names each (index, type) at most once. */
  lemma {:induction false} NetHooks(ts: seq<Pos>, index: nat, enable: bool, i: nat, t: Pos)
    requires forall a, b :: 0 <= a < b < |ts| ==> ts[a] < ts[b]
    ensures Net(Hooks(ts, index, enable), i, t) == (if index == i && t in ts then (if enable then 1 else -1) else 0)
    decreases |ts|
  {
    if ts != [] {
      var init, last := ts[..|ts| - 1], ts[|ts| - 1];
      assert Hooks(ts, index, enable)[..|ts| - 1] == Hooks(init, index, enable);
      NetHooks(init, index, enable, i, t);
      BitInjective(last, t);
      assert t in ts <==> t in init || t == last;
      assert last in init ==> false by {
        assert forall a :: 0 <= a < |init| ==> init[a] < last;
      }
    }
  }

  /** Where the counter under `(i, t)` sits relative to the counters of `x`. */
  lemma HandlerSlot(s: State, x: HandlerId, i: nat, t: nat)
    requires Inv(s) && x in s.handlers && i < s.indexNr && t < s.typesNr
    ensures var h := s.handlers[x];
            var base := Base(s.typesNr, h.index);
            Slot(s.typesNr, i, t) < |s.refs| &&
            ((base <= Slot(s.typesNr, i, t) && Slot(s.typesNr, i, t) - base in h.types) <==> (i == h.index && t in h.types))
  {
    SlotBound(s.typesNr, s.indexNr, i, t);
    SlotOffset(s.typesNr, s.handlers[x].index, i, t, s.handlers[x].types);
  }

  /**
   * One pass of the get (`enable`) or put loop over `types` on the counters
   * above `base`, seen from the counter at `k`: the hooks it makes for
   * `(i, t)` add up to the change in whether that counter is non-zero.
   */
  lemma PassNet(r: seq<int>, base: nat, types: Mask, enable: bool, index: nat, i: nat, t: Pos, k: nat)
    requires k < |r| && r[k] >= 0
    requires !enable && i == index && t in types ==> r[k] >= 1
    requires (base <= k && k - base in types) <==> (i == index && t in types)
    requires i == index ==> k == base + t
    ensures var r' := Shift(r, base, types, if enable then 1 else -1);
            Net(Hooks(Crossing(r, base, types, if enable then 0 else 1, 32), index, enable), i, t) ==
              (if r'[k] != 0 then 1 else 0) - (if r[k] != 0 then 1 else 0)
  {
    var target := if enable then 0 else 1;
    var ts := Crossing(r, base, types, target, 32);
    var r' := Shift(r, base, types, if enable then 1 else -1);
    assert Net(Hooks(ts, index, enable), i, t) == (if index == i && t in ts then (if enable then 1 else -1) else 0) by {
      CrossingFacts(r, base, types, target, 32);
      NetHooks(ts, index, enable, i, t);
    }
    if i == index && t in types {
      assert r'[k] == r[k] + (if enable then 1 else -1);
      assert t in ts <==> r[k] == target by {
        CrossingFacts(r, base, types, target, 32);
      }
    } else {
      assert r'[k] == r[k];
      assert !(i == index && t in ts) by {
        CrossingFacts(r, base, types, target, 32);
      }
    }
  }

  /** A get enables type `t` of index `i` exactly when it lifts that counter off zero. */
  lemma GetNet(s: State, x: HandlerId, i: nat, t: Pos)
    requires Inv(s) && s.hasEnable && x in s.handlers && i < s.indexNr && t < s.typesNr
    ensures var (s', hs) := Get(s, x);
            |s'.refs| == |s.refs| && Slot(s.typesNr, i, t) < |s.refs| &&
            Net(hs, i, t) == On(s', i, t) - On(s, i, t)
  {
    var h := s.handlers[x];
    HandlerSlot(s, x, i, t);
    var k := Slot(s.typesNr, i, t);
    assert s.refs[k] == Armed(s.lists[i], s.handlers, t);
    if !h.enabled {
      PassNet(s.refs, Base(s.typesNr, h.index), h.types, true, h.index, i, t, k);
    }
  }

  /** A put disables type `t` of index `i` exactly when it brings that counter down to zero. */
  lemma PutNet(s: State, x: HandlerId, i: nat, t: Pos)
    requires Inv(s) && s.hasDisable && x in s.handlers && i < s.indexNr && t < s.typesNr
    ensures var (s', hs) := Put(s, x);
            |s'.refs| == |s.refs| && Slot(s.typesNr, i, t) < |s.refs| &&
            Net(hs, i, t) == On(s', i, t) - On(s, i, t)
  {
    var h := s.handlers[x];
    HandlerSlot(s, x, i, t);
    var k := Slot(s.typesNr, i, t);
    assert s.refs[k] == Armed(s.lists[i], s.handlers, t);
    if h.enabled {
      if i == h.index && t in h.types {
        PutNoUnderflow(s, x, t);
      }
      PassNet(s.refs, Base(s.typesNr, h.index), h.types, false, h.index, i, t, k);
    }
  }

  /** One get or put keeps the invariant, the shape, the lists and the set of live handlers. */
  lemma ApplyKeepsInv(s: State, op: Op)
    requires Inv(s) && op.x in s.handlers
    ensures var s' := Apply(s, op).0;
            Inv(s') && s'.typesNr == s.typesNr && s'.indexNr == s.indexNr &&
            s'.hasEnable == s.hasEnable && s'.hasDisable == s.hasDisable && s'.lists == s.lists &&
            forall y :: y in s'.handlers <==> y in s.handlers
  {
    match op {
      case Arm(x) => GetKeepsInv(s, x);
      case Disarm(x) => PutKeepsInv(s, x);
    }
  }

  /** One get or put, seen from one counter. */
  lemma ApplyNet(s: State, op: Op, i: nat, t: Pos)
    requires Inv(s) && s.hasEnable && s.hasDisable && op.x in s.handlers && i < s.indexNr && t < s.typesNr
    ensures var (s', hs) := Apply(s, op);
            |s'.refs| == |s.refs| && Slot(s.typesNr, i, t) < |s.refs| &&
            Net(hs, i, t) == On(s', i, t) - On(s, i, t)
  {
    match op {
      case Arm(x) => GetNet(s, x, i, t);
      case Disarm(x) => PutNet(s, x, i, t);
    }
  }

  /**
   * Over any run of gets and puts, the enable calls minus the disable
   * calls for type `t` of index `i` equal the change in whether that
   * counter is non-zero; the invariant holds throughout.
   */
  lemma {:induction false} RunNet(s: State, ops: seq<Op>, i: nat, t: Pos)
    requires Inv(s) && s.hasEnable && s.hasDisable && Known(s, ops) && i < s.indexNr && t < s.typesNr
    ensures var (s', hs) := Run(s, ops);
            Inv(s') && s'.typesNr == s.typesNr && s'.indexNr == s.indexNr &&
            s'.hasEnable && s'.hasDisable && s'.lists == s.lists &&
            Slot(s.typesNr, i, t) < |s'.refs| && Slot(s.typesNr, i, t) < |s.refs| &&
            Net(hs, i, t) == On(s', i, t) - On(s, i, t)
    decreases |ops|
  {
    if ops != [] {
      var (s1, hs1) := Apply(s, ops[0]);
      ApplyKeepsInv(s, ops[0]);
      ApplyNet(s, ops[0], i, t);
      assert Known(s1, ops[1..]) by {
        assert forall k :: 0 <= k < |ops[1..]| ==> ops[1..][k] == ops[k + 1];
      }
      RunNet(s1, ops[1..], i, t);
      NetAppend(hs1, Run(s1, ops[1..]).1, i, t);
    } else {
      SlotBound(s.typesNr, s.indexNr, i, t);
    }
  }

  /**
   * Refcount symmetry: starting with no handler enabled, after any run of
   * gets and puts the enable calls minus the disable calls for each
   * (index, type) is 1 while some enabled handler on that index listens to
   * the type and 0 otherwise; it is never negative.
   */
  lemma Symmetry(s: State, ops: seq<Op>, i: nat, t: Pos)
    requires Inv(s) && s.hasEnable && s.hasDisable && Known(s, ops) && i < s.indexNr && t < s.typesNr
    requires forall x :: x in s.handlers ==> !s.handlers[x].enabled
    ensures var (s', hs) := Run(s, ops);
            s'.lists == s.lists && Net(hs, i, t) == if Armed(s.lists[i], s'.handlers, t) > 0 then 1 else 0
  {
    RunNet(s, ops, i, t);
    ArmedFrame(s.lists[i], s.handlers, map[], t);
    ArmedNone(s.lists[i], t);
  }

  lemma {:induction false} ArmedNone(ids: seq<HandlerId>, t: nat)
    ensures Armed(ids, map[], t) == 0
    decreases |ids|
  {
    if ids != [] {
      ArmedNone(ids[..|ids| - 1], t);
    }
  }

  /* ---------------------------------------------------------------------- */
  /* Backend calls of a trigger                                              */
  /* ---------------------------------------------------------------------- */

  /**
   * One handler of a trigger's walk: it makes no enable call and, without a
   * disable hook, no disable call; with one, its disable calls for `(i, t)`
   * are those of the put of a dropping handler, bringing that counter to 0.
   */
  lemma StepNet(s: State, y: HandlerId, types: Mask, index: nat, drops: set<HandlerId>, i: nat, t: Pos)
    requires Inv(s) && y in s.handlers && i < s.indexNr && t < s.typesNr
    ensures var (s', hs) := Step(s, y, types, index, drops);
            s'.typesNr == s.typesNr && |s'.refs| == |s.refs| && Slot(s.typesNr, i, t) < |s.refs| &&
            (forall c :: c in hs ==> !c.Enable? && (s.hasDisable || !c.Disable?)) &&
            (s.hasDisable ==> Net(hs, i, t) == On(s', i, t) - On(s, i, t))
  {
    var h := s.handlers[y];
    var (s', hs) := Step(s, y, types, index, drops);
    SlotBound(s.typesNr, s.indexNr, i, t);
    var call := Call(y, h.types * types, index);
    assert Net([call], i, t) == 0 by {
      assert [call][..0] == [];
    }
    if h.enabled && h.types * types != {} && y in drops {
      var (s1, ps) := Put(s, y);
      assert s' == s1 && hs == [call] + ps by {
        StepDelivers(s, y, types, index, drops);
      }
      assert s1.typesNr == s.typesNr && |s1.refs| == |s.refs| &&
             forall c :: c in ps ==> c.Disable? && s.hasDisable by {
        PutDisablesExactly(s, y);
        PutCounters(s, y);
      }
      if s.hasDisable {
        assert Net(ps, i, t) == On(s1, i, t) - On(s, i, t) by {
          PutNet(s, y, i, t);
        }
        NetAppend([call], ps, i, t);
      }
    } else {
      assert s'.refs == s.refs && s'.typesNr == s.typesNr &&
             hs == (if h.enabled && h.types * types != {} then [call] else []) by {
        StepDelivers(s, y, types, index, drops);
      }
    }
  }

  /** The walk of a trigger: no enable call, and disable calls that follow the counters. */
  lemma {:induction false} WalkNet(s: State, ids: seq<HandlerId>, types: Mask, index: nat, drops: set<HandlerId>, i: nat, t: Pos)
    requires Inv(s) && NoDup(ids) && (forall y :: y in ids ==> y in s.handlers) && i < s.indexNr && t < s.typesNr
    ensures var (s', hs) := Walk(s, ids, types, index, drops);
            s'.typesNr == s.typesNr && |s'.refs| == |s.refs| && Slot(s.typesNr, i, t) < |s.refs| &&
            (forall c :: c in hs ==> !c.Enable? && (s.hasDisable || !c.Disable?)) &&
            (s.hasDisable ==> Net(hs, i, t) == On(s', i, t) - On(s, i, t))
    decreases |ids|
  {
    SlotBound(s.typesNr, s.indexNr, i, t);
    if ids != [] {
      var init, y := ids[..|ids| - 1], ids[|ids| - 1];
      assert forall a :: 0 <= a < |init| ==> init[a] == ids[a];
      assert forall z :: z in init ==> z in ids;
      var (s1, hs1) := Walk(s, init, types, index, drops);
      assert s1.typesNr == s.typesNr && |s1.refs| == |s.refs| &&
             (forall c :: c in hs1 ==> !c.Enable? && (s.hasDisable || !c.Disable?)) &&
             (s.hasDisable ==> Net(hs1, i, t) == On(s1, i, t) - On(s, i, t)) by {
        WalkNet(s, init, types, index, drops, i, t);
      }
      assert Inv(s1) && y in s1.handlers && s1.indexNr == s.indexNr && s1.hasDisable == s.hasDisable by {
        WalkDrops(s, init, types, index, drops);
        WalkKeepsInv(s, init, types, index, drops);
      }
      var (s2, hs2) := Step(s1, y, types, index, drops);
      assert Walk(s, ids, types, index, drops) == (s2, hs1 + hs2);
      assert s2.typesNr == s.typesNr && |s2.refs| == |s.refs| &&
             (forall c :: c in hs2 ==> !c.Enable? && (s.hasDisable || !c.Disable?)) &&
             (s.hasDisable ==> Net(hs2, i, t) == On(s2, i, t) - On(s1, i, t)) by {
        StepNet(s1, y, types, index, drops, i, t);
      }
      assert Net(hs1 + hs2, i, t) == Net(hs1, i, t) + Net(hs2, i, t) by {
        NetAppend(hs1, hs2, i, t);
      }
    }
  }

  /**
   * A trigger makes no enable call. Its only backend calls are the disable
   * calls of the puts of dropping handlers, none at all without a disable
   * hook; with one, they net for each (index, type) to the change in whether
   * that counter is non-zero, so a type is switched off exactly when its last
   * listener drops.
   */
  lemma TriggerNet(s: State, types: Mask, index: nat, drops: set<HandlerId>, i: nat, t: Pos)
    requires Inv(s) && i < s.indexNr && t < s.typesNr
    ensures var (s', hs) := Trigger(s, types, index, drops);
            s'.typesNr == s.typesNr && |s'.refs| == |s.refs| && Slot(s.typesNr, i, t) < |s.refs| &&
            (forall c :: c in hs ==> !c.Enable? && (s.hasDisable || !c.Disable?)) &&
            (s.hasDisable ==> Net(hs, i, t) == On(s', i, t) - On(s, i, t))
  {
    SlotBound(s.typesNr, s.indexNr, i, t);
    if index < s.indexNr {
      forall y | y in s.lists[index] ensures y in s.handlers {
        var j :| 0 <= j < |s.lists[index]| && s.lists[index][j] == y;
      }
      WalkNet(s, s.lists[index], types, index, drops, i, t);
    }
  }
}
