/**
 * The event registry of core/event.c as a heap object: `struct
 * nouveau_event` becomes class Registry, whose counter array is updated in
 * place and whose per-index handler lists and handler table are reassigned
 * by the methods. Every method is proved to implement the function of the
 * same name in EventSpec on the abstraction `Abs()`, and every method but
 * Fini to keep `Valid()`.
 * The calls out of the core (backend enable/disable, client callbacks) are
 * returned as a trace of hooks, in the order the source makes them.
 */
module Event {
  import opened Masks
  import opened EventSpec
  import opened EventProps

  class Registry {
    /** `types_nr`, `index_nr`. */
    const typesNr: nat
    const indexNr: nat
    /** Whether the backend installed `event->enable` and `event->disable`. */
    const hasEnable: bool
    const hasDisable: bool
    /** `refs[index_nr * types_nr]`, the trailing array of the structure. */
    const refs: array<int>
    /** `list[index_nr]`: the handlers linked on each index, head to tail. */
    var lists: seq<seq<HandlerId>>
    /** The live handlers (`struct nouveau_eventh`), by allocation. */
    var handlers: map<HandlerId, Handler>
    /** The next fresh allocation; it stands in for kmalloc's addresses. */
    var nextId: nat

    function Abs(): State
      reads this, refs
    {
      State(typesNr, indexNr, hasEnable, hasDisable, refs[..], lists, handlers)
    }

    ghost predicate Valid()
      reads this, refs
    {
      Inv(Abs()) && forall x :: x in handlers ==> x < nextId
    }

    /**
     * The part of `nouveau_event_create` that fills a fresh structure:
     * kzalloc zeroes the counters and every list head is initialised empty.
     * The backend hooks are the ones its caller installs right after.
     */
    constructor (typesNr: nat, indexNr: nat, hasEnable: bool, hasDisable: bool)
      requires typesNr < 32
      ensures Valid() && fresh(refs)
      ensures Abs() == EventSpec.Create(typesNr, indexNr, hasEnable, hasDisable) && nextId == 0
    {
      var ls: seq<seq<HandlerId>> := [];
      for i := 0 to indexNr
        invariant ls == seq(i, _ => [])
      {
        ls := ls + [[]];
      }
      this.typesNr := typesNr;
      this.indexNr := indexNr;
      this.hasEnable := hasEnable;
      this.hasDisable := hasDisable;
      refs := new int[indexNr * typesNr](_ => 0);
      lists := ls;
      handlers := map[];
      nextId := 0;
      new;
      assert refs[..] == seq(indexNr * typesNr, _ => 0);
      CreateValid(typesNr, indexNr, hasEnable, hasDisable);
    }

    /**
     * `nouveau_event_get`: set the handler's enable flag; if it was clear,
     * count the handler in on every type it listens to.
     */
    method Get(x: HandlerId) returns (hs: seq<Hook>)
      requires Valid() && x in handlers
      modifies this, refs
      ensures Valid() && nextId == old(nextId)
      ensures (Abs(), hs) == EventSpec.Get(old(Abs()), x)
    {
      var h := handlers[x];
      if h.enabled {
        return [];
      }
      ghost var s := Abs();
      handlers := handlers[x := h.(enabled := true)];
      SlotsInRange(s, x);
      hs := CountIn(refs, Base(typesNr, h.index), h.types, h.index, hasEnable);
      GetKeepsInv(s, x);
    }

    /**
     * `nouveau_event_put`: clear the handler's enable flag; if it was set,
     * count the handler out of every type it listens to.
     */
    method Put(x: HandlerId) returns (hs: seq<Hook>)
      requires Valid() && x in handlers
      modifies this, refs
      ensures Valid() && nextId == old(nextId)
      ensures (Abs(), hs) == EventSpec.Put(old(Abs()), x)
    {
      var h := handlers[x];
      if !h.enabled {
        return [];
      }
      ghost var s := Abs();
      handlers := handlers[x := h.(enabled := false)];
      SlotsInRange(s, x);
      hs := CountOut(refs, Base(typesNr, h.index), h.types, h.index, hasDisable);
      PutKeepsInv(s, x);
    }

    /**
     * `nouveau_event_init` on the allocated, not yet registered handler `x`:
     * -EINVAL for a type beyond `types_nr` or an index beyond `index_nr`,
     * otherwise the handler starts disabled and is linked at the tail of its
     * index's list.
     */
    method Init(types: Mask, index: nat, x: HandlerId) returns (ret: int)
      requires Valid() && x < nextId && x !in handlers
      modifies this
      ensures Valid() && nextId == old(nextId)
      ensures (ret, Abs()) == EventSpec.Init(old(Abs()), types, index, x)
    {
      ghost var s := Abs();
      if types - Low(typesNr) != {} {
        return -EINVAL;
      }
      if index >= indexNr {
        return -EINVAL;
      }
      handlers := handlers[x := Handler(false, types, index)];
      lists := lists[index := lists[index] + [x]];
      InitKeepsInv(s, types, index, x);
      return 0;
    }

    /**
     * `nouveau_event_new`: `check` is the answer of the backend's admission
     * hook (None when it has none) and `allocOk` whether kmalloc succeeds.
     * A non-zero answer of the check is returned as is with `*phandler`
     * untouched; otherwise `*phandler` receives the allocation, and the
     * result is that of Init, or on a failed allocation `ret` as it stands:
     * -ENOMEM without a check, the check's 0 with one.
     */
    method New(check: Option<int>, allocOk: bool, types: Mask, index: nat, phandler: Option<HandlerId>)
      returns (ret: int, phandler': Option<HandlerId>)
      requires Valid()
      modifies this
      ensures Valid()
      ensures (ret, Abs()) == EventSpec.New(old(Abs()), check, allocOk, types, index, old(nextId))
      ensures check.Some? && check.value != 0 ==> phandler' == phandler
      ensures (check.None? || check.value == 0) ==>
                phandler' == (if allocOk then Some(old(nextId)) else None)
      ensures check == Some(0) && !allocOk ==> ret == 0 && phandler' == None && Abs() == old(Abs())
    {
      ret := -ENOMEM;
      if check.Some? {
        ret := check.value;
        if ret != 0 {
          return ret, phandler;
        }
      }
      if !allocOk {
        return ret, None;
      }
      var x := nextId;
      nextId := nextId + 1;
      phandler' := Some(x);
      ret := Init(types, index, x);
    }

    /**
     * `nouveau_event_fini`: put the handler, then unlink it from its list.
     * The handler stays allocated, so the registry is only whole again once
     * Ref has freed it.
     */
    method Fini(x: HandlerId) returns (hs: seq<Hook>)
      requires Valid() && x in handlers
      modifies this, refs
      ensures nextId == old(nextId)
      ensures (Abs(), hs) == EventSpec.Fini(old(Abs()), x)
    {
      hs := Put(x);
      var ix := handlers[x].index;
      lists := lists[ix := Remove(lists[ix], x)];
    }

    /**
     * `nouveau_event_ref(handler, ref)` with the null `handler` the source
     * insists on: a handler held in `*ref` is finalised and freed, and the
     * result is the new `*ref`.
     */
    method Ref(handler: Option<HandlerId>, ref: Option<HandlerId>) returns (ref': Option<HandlerId>, hs: seq<Hook>)
      requires handler == None
      requires Valid() && (ref.Some? ==> ref.value in handlers)
      modifies this, refs
      ensures Valid() && nextId == old(nextId)
      ensures (ref', Abs(), hs) == EventSpec.Ref(old(Abs()), handler, ref)
    {
      ghost var s := Abs();
      hs := [];
      if ref.Some? {
        hs := Fini(ref.value);
        handlers := handlers - {ref.value};
        RefTearsDown(s, ref.value);
      }
      ref' := handler;
    }

    /**
     * `nouveau_event_trigger`: nothing on an index out of range; otherwise
     * walk the index's list in order, calling back every enabled handler
     * whose types overlap and putting those whose callback answers
     * NVKM_EVENT_DROP (`drops`).
     */
    method Trigger(types: Mask, index: nat, drops: set<HandlerId>) returns (hs: seq<Hook>)
      requires Valid()
      modifies this, refs
      ensures Valid() && nextId == old(nextId)
      ensures (Abs(), hs) == EventSpec.Trigger(old(Abs()), types, index, drops)
    {
      if index >= indexNr {
        return [];
      }
      ghost var s := Abs();
      var ids := lists[index];
      hs := [];
      var j := 0;
      while j < |ids|
        invariant 0 <= j <= |ids| && ids == s.lists[index]
        invariant Valid() && nextId == old(nextId) && indexNr == s.indexNr && lists == s.lists
        invariant (Abs(), hs) == Walk(s, ids[..j], types, index, drops)
      {
        var y := ids[j];
        ghost var s1, hs1 := Abs(), hs;
        WalkSnoc(s, ids, j, types, index, drops);
        assert y in handlers by {
          assert Linked(s1);
        }
        ghost var step := Step(s1, y, types, index, drops);
        var h := handlers[y];
        if h.enabled && h.types * types != {} {
          var call := Call(y, h.types * types, index);
          hs := hs + [call];
          if y in drops {
            assert step == (EventSpec.Put(s1, y).0, [call] + EventSpec.Put(s1, y).1);
            var put := Put(y);
            assert hs1 + [call] + put == hs1 + ([call] + put);
            hs := hs + put;
          } else {
            assert step == (s1, [call]);
          }
        } else {
          assert step == (s1, []);
        }
        assert Abs() == step.0 && hs == hs1 + step.1;
        j := j + 1;
      }
      assert ids[..j] == ids;
    }
  }

  /**
   * `nouveau_event_destroy`: the structure is freed and the caller's
   * `*pevent` becomes null; a null `*pevent` stays null.
   */
  method Destroy(pevent: Registry?) returns (pevent': Registry?)
    ensures pevent' == null
  {
    pevent' := pevent;
    if pevent' != null {
      pevent' := null;
    }
  }

  /**
   * `nouveau_event_create`: `eventOk` and `listOk` say whether the two
   * allocations succeed. Either failure gives -ENOMEM and no registry;
   * success gives 0 and a registry with zeroed counters and empty lists.
   */
  method Create(typesNr: nat, indexNr: nat, hasEnable: bool, hasDisable: bool, eventOk: bool, listOk: bool)
    returns (ret: int, pevent: Registry?)
    requires typesNr < 32
    ensures ret == 0 <==> eventOk && listOk
    ensures ret != 0 ==> ret == -ENOMEM && pevent == null
    ensures ret == 0 ==> pevent != null && fresh(pevent) && pevent.Valid() && pevent.nextId == 0 &&
                         pevent.Abs() == EventSpec.Create(typesNr, indexNr, hasEnable, hasDisable)
  {
    if !eventOk {
      return -ENOMEM, null;
    }
    if !listOk {
      return -ENOMEM, null;
    }
    pevent := new Registry(typesNr, indexNr, hasEnable, hasDisable);
    ret := 0;
  }

  /* ---------------------------------------------------------------------- */
  /* Loop helpers                                                            */
  /* ---------------------------------------------------------------------- */

  /** The counters a handler's types name on its index all exist. */
  lemma SlotsInRange(s: State, x: HandlerId)
    requires Inv(s) && x in s.handlers
    ensures forall t :: t in s.handlers[x].types ==> Base(s.typesNr, s.handlers[x].index) + t < |s.refs|
  {
    var h := s.handlers[x];
    forall t | t in h.types ensures Base(s.typesNr, h.index) + t < |s.refs| {
      SlotBound(s.typesNr, s.indexNr, h.index, t);
    }
  }

  /** The walk over one more handler is the walk so far followed by one step. */
  lemma WalkSnoc(s: State, ids: seq<HandlerId>, j: nat, types: Mask, index: nat, drops: set<HandlerId>)
    requires j < |ids|
    ensures var (s1, hs1) := Walk(s, ids[..j], types, index, drops);
            var (s2, hs2) := Step(s1, ids[j], types, index, drops);
            Walk(s, ids[..j + 1], types, index, drops) == (s2, hs1 + hs2)
  {
    assert ids[..j + 1][..j] == ids[..j];
  }

  lemma HooksSnoc(ts: seq<Pos>, t: Pos, index: nat, enable: bool)
    ensures Hooks(ts + [t], index, enable) ==
            Hooks(ts, index, enable) + [if enable then Enable(Bit(t), index) else Disable(Bit(t), index)]
  {
  }

  /**
   * The locked loop of `nouveau_event_get`: walk the bits of `types`
   * lowest first (`__ffs`), increment each counter of `index` and call the
   * enable hook for each counter that was zero.
   */
  method CountIn(refs: array<int>, base: nat, types: Mask, index: nat, hasEnable: bool) returns (hs: seq<Hook>)
    requires forall t :: t in types ==> base + t < refs.Length
    modifies refs
    ensures refs[..] == Shift(old(refs[..]), base, types, 1)
    ensures hs == if hasEnable then Hooks(Crossing(old(refs[..]), base, types, 0, 32), index, true) else []
  {
    ghost var r0 := refs[..];
    ghost var n := 0;
    ghost var done: Mask := {};
    FirstBit(r0, base, types, 1);
    var m := types;
    hs := [];
    while m != {}
      invariant n <= 32 && m == Above(types, n) && done == Below(types, n)
      invariant refs[..] == Shift(r0, base, done, 1)
      invariant hs == if hasEnable then Hooks(Crossing(r0, base, types, 0, n), index, true) else []
      decreases m
    {
      var t;
      t, hs := TurnIn(refs, base, types, index, hasEnable, r0, m, n, done, hs);
      m := m - Bit(t);
      n := t + 1;
      done := done + Bit(t);
    }
    LastBit(r0, base, types, 0, n);
  }

  /**
   * The locked loop of `nouveau_event_put`: walk the bits of `types`
   * lowest first, decrement each counter of `index` and call the disable
   * hook for each counter that reaches zero.
   */
  method CountOut(refs: array<int>, base: nat, types: Mask, index: nat, hasDisable: bool) returns (hs: seq<Hook>)
    requires forall t :: t in types ==> base + t < refs.Length
    modifies refs
    ensures refs[..] == Shift(old(refs[..]), base, types, -1)
    ensures hs == if hasDisable then Hooks(Crossing(old(refs[..]), base, types, 1, 32), index, false) else []
  {
    ghost var r0 := refs[..];
    ghost var n := 0;
    ghost var done: Mask := {};
    FirstBit(r0, base, types, -1);
    var m := types;
    hs := [];
    while m != {}
      invariant n <= 32 && m == Above(types, n) && done == Below(types, n)
      invariant refs[..] == Shift(r0, base, done, -1)
      invariant hs == if hasDisable then Hooks(Crossing(r0, base, types, 1, n), index, false) else []
      decreases m
    {
      var t;
      t, hs := TurnOut(refs, base, types, index, hasDisable, r0, m, n, done, hs);
      m := m - Bit(t);
      n := t + 1;
      done := done + Bit(t);
    }
    LastBit(r0, base, types, 1, n);
  }

  /**
   * One turn of the get loop: `t` is the lowest bit left in `m`, its
   * counter goes up, and `enable(1 << t)` is called when it was 0; the
   * loop's invariant holds again with `t` visited.
   */
  method TurnIn(refs: array<int>, base: nat, types: Mask, index: nat, hasEnable: bool,
                ghost r0: seq<int>, m: Mask, ghost n: nat, ghost done: Mask, hs: seq<Hook>)
    returns (t: nat, hs': seq<Hook>)
    requires forall u :: u in types ==> base + u < |r0|
    requires m != {} && n <= 32 && m == Above(types, n) && done == Below(types, n)
    requires refs[..] == Shift(r0, base, done, 1)
    requires hs == if hasEnable then Hooks(Crossing(r0, base, types, 0, n), index, true) else []
    modifies refs
    ensures t == Ffs(m) && t < 32 && m - Bit(t) == Above(types, t + 1) && done + Bit(t) == Below(types, t + 1)
    ensures refs[..] == Shift(r0, base, done + Bit(t), 1)
    ensures hs' == if hasEnable then Hooks(Crossing(r0, base, types, 0, t + 1), index, true) else []
  {
    t := Ffs(m);
    ghost var pre := refs[..];
    assert n <= t < 32 && base + t < refs.Length &&
           m - Bit(t) == Above(types, t + 1) && done + Bit(t) == Below(types, t + 1) &&
           refs[base + t] == r0[base + t] &&
           pre[base + t := r0[base + t] + 1] == Shift(r0, base, done + Bit(t), 1) by {
      VisitShift(r0, base, types, n, 1, t);
    }
    assert (if hasEnable then Hooks(Crossing(r0, base, types, 0, t + 1), index, true) else []) ==
           (if hasEnable && r0[base + t] == 0 then hs + [Enable(Bit(t), index)] else hs) by {
      VisitCross(r0, base, types, 0, n, t, index, true);
    }
    hs' := hs;
    if refs[base + t] == 0 {
      if hasEnable {
        hs' := hs + [Enable(Bit(t), index)];
      }
    }
    refs[base + t] := refs[base + t] + 1;
    assert refs[..] == pre[base + t := r0[base + t] + 1];
  }

  /**
   * One turn of the put loop: `t` is the lowest bit left in `m`, its
   * counter goes down, and `disable(1 << t)` is called when it reaches 0;
   * the loop's invariant holds again with `t` visited.
   */
  method TurnOut(refs: array<int>, base: nat, types: Mask, index: nat, hasDisable: bool,
                ghost r0: seq<int>, m: Mask, ghost n: nat, ghost done: Mask, hs: seq<Hook>)
    returns (t: nat, hs': seq<Hook>)
    requires forall u :: u in types ==> base + u < |r0|
    requires m != {} && n <= 32 && m == Above(types, n) && done == Below(types, n)
    requires refs[..] == Shift(r0, base, done, -1)
    requires hs == if hasDisable then Hooks(Crossing(r0, base, types, 1, n), index, false) else []
    modifies refs
    ensures t == Ffs(m) && t < 32 && m - Bit(t) == Above(types, t + 1) && done + Bit(t) == Below(types, t + 1)
    ensures refs[..] == Shift(r0, base, done + Bit(t), -1)
    ensures hs' == if hasDisable then Hooks(Crossing(r0, base, types, 1, t + 1), index, false) else []
  {
    t := Ffs(m);
    ghost var pre := refs[..];
    assert n <= t < 32 && base + t < refs.Length &&
           m - Bit(t) == Above(types, t + 1) && done + Bit(t) == Below(types, t + 1) &&
           refs[base + t] == r0[base + t] &&
           pre[base + t := r0[base + t] + -1] == Shift(r0, base, done + Bit(t), -1) by {
      VisitShift(r0, base, types, n, -1, t);
    }
    assert (if hasDisable then Hooks(Crossing(r0, base, types, 1, t + 1), index, false) else []) ==
           (if hasDisable && r0[base + t] == 1 then hs + [Disable(Bit(t), index)] else hs) by {
      VisitCross(r0, base, types, 1, n, t, index, false);
    }
    hs' := hs;
    refs[base + t] := refs[base + t] - 1;
    if refs[base + t] == 0 {
      if hasDisable {
        hs' := hs + [Disable(Bit(t), index)];
      }
    }
    assert refs[..] == pre[base + t := r0[base + t] + -1];
  }

  /** The bits of `m` at or above `n`: those the loop has still to visit. */
  ghost function Above(m: Mask, n: nat): Mask
  {
    set u | u in m && n <= u
  }

  /** The bits of `m` below `n`: those the loop has visited. */
  ghost function Below(m: Mask, n: nat): Mask
  {
    set u | u in m && u < n
  }

  lemma FirstBit(r: seq<int>, base: nat, m: Mask, d: int)
    ensures Above(m, 0) == m && Below(m, 0) == {} && Shift(r, base, {}, d) == r
  {
  }

  /** The lowest bit still to visit, and what visiting it adds. */
  lemma NextBit(r: seq<int>, base: nat, m: Mask, target: int, n: nat)
    requires n <= 32 && Above(m, n) != {}
    ensures var t := Ffs(Above(m, n));
            n <= t && t in m && t !in Below(m, n) &&
            Above(m, t + 1) == Above(m, n) - Bit(t) &&
            Below(m, t + 1) == Below(m, n) + Bit(t) &&
            Crossing(r, base, m, target, t + 1) ==
              Crossing(r, base, m, target, n) + (if base + t < |r| && r[base + t] == target then [t] else [])
  {
    var t := Ffs(Above(m, n));
    forall u | u in m
      ensures u < n || t <= u
    {
      if n <= u {
        assert u in Above(m, n);
      }
    }
    CrossingGap(r, base, m, target, n, t);
  }

  /** Nothing left to visit: every bit has been visited and no crossing lies above. */
  lemma LastBit(r: seq<int>, base: nat, m: Mask, target: int, n: nat)
    requires n <= 32 && Above(m, n) == {}
    ensures Below(m, n) == m && Crossing(r, base, m, target, 32) == Crossing(r, base, m, target, n)
  {
    forall u | u in m
      ensures u < n
    {
      assert u !in Above(m, n);
    }
    CrossingGap(r, base, m, target, n, 32);
  }

  /** Visiting the lowest bit `t` still to visit: the sets move on and its counter is shifted. */
  lemma VisitShift(r: seq<int>, base: nat, m: Mask, n: nat, d: int, t: nat)
    requires n <= 32 && Above(m, n) != {} && t == Ffs(Above(m, n))
    requires forall u :: u in m ==> base + u < |r|
    ensures n <= t < 32 && base + t < |r| && t !in Below(m, n) &&
            Shift(r, base, Below(m, n), d)[base + t] == r[base + t] &&
            Above(m, t + 1) == Above(m, n) - Bit(t) &&
            Below(m, t + 1) == Below(m, n) + Bit(t) &&
            Shift(r, base, Below(m, n) + Bit(t), d) == Shift(r, base, Below(m, n), d)[base + t := r[base + t] + d]
  {
    NextBit(r, base, m, 0, n);
    ShiftStep(r, base, Below(m, n), t, d);
  }

  /** Visiting `t` adds one hook exactly when its counter held `target` before the loop. */
  lemma VisitCross(r: seq<int>, base: nat, m: Mask, target: int, n: nat, t: nat, index: nat, enable: bool)
    requires n <= 32 && Above(m, n) != {} && t == Ffs(Above(m, n))
    requires forall u :: u in m ==> base + u < |r|
    ensures t < 32 && base + t < |r|
    ensures Hooks(Crossing(r, base, m, target, t + 1), index, enable) ==
              if r[base + t] == target
              then Hooks(Crossing(r, base, m, target, n), index, enable) +
                   [if enable then Enable(Bit(t), index) else Disable(Bit(t), index)]
              else Hooks(Crossing(r, base, m, target, n), index, enable)
  {
    NextBit(r, base, m, target, n);
    if r[base + t] == target {
      HooksSnoc(Crossing(r, base, m, target, n), t, index, enable);
    } else {
      assert Crossing(r, base, m, target, t + 1) == Crossing(r, base, m, target, n);
    }
  }

  /** Shifting one more counter changes that counter and no other. */
  lemma ShiftStep(r: seq<int>, base: nat, d: Mask, t: Pos, delta: int)
    requires t !in d && base + t < |r|
    ensures Shift(r, base, d, delta)[base + t] == r[base + t]
    ensures Shift(r, base, d + Bit(t), delta) == Shift(r, base, d, delta)[base + t := r[base + t] + delta]
  {
  }
}
