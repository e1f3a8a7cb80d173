/**
 * What the event core promises, proved about the value-level model in
 * EventSpec: every operation keeps the counters equal to the number of
 * enabled handlers, get and put fire the backend hooks exactly on the 0/1
 * transitions and undo each other, trigger delivers in list order, and a
 * torn-down handler is never called again.
 */
module EventProps {
  import opened Masks
  import opened EventSpec

  /* ---------------------------------------------------------------------- */
  /* Helpers on counters and lists                                          */
  /* ---------------------------------------------------------------------- */

  /** Every counter of the flat array belongs to exactly one (index, type) pair. */
  lemma SlotOf(typesNr: nat, indexNr: nat, k: nat)
    requires k < indexNr * typesNr
    ensures typesNr > 0 && k / typesNr < indexNr && k % typesNr < typesNr
    ensures Slot(typesNr, k / typesNr, k % typesNr) == k
  {
    if k / typesNr >= indexNr {
      MulMono(indexNr, k / typesNr, typesNr);
    }
  }

  /** Under the invariant no counter is negative. */
  lemma RefsNonNegative(s: State)
    requires Inv(s)
    ensures forall k :: 0 <= k < |s.refs| ==> s.refs[k] >= 0
  {
    forall k | 0 <= k < |s.refs| ensures s.refs[k] >= 0 {
      SlotOf(s.typesNr, s.indexNr, k);
    }
  }

  lemma NotOnOtherList(s: State, x: HandlerId, i: nat)
    requires Linked(s) && x in s.handlers && i < |s.lists| && i != s.handlers[x].index
    ensures x !in s.lists[i]
  {
    assert forall j :: 0 <= j < |s.lists[i]| ==> s.lists[i][j] != x by {
      forall j | 0 <= j < |s.lists[i]| ensures s.lists[i][j] != x {
        assert s.handlers[s.lists[i][j]].index == i;
      }
    }
  }

  /* ---------------------------------------------------------------------- */
  /* Get and put keep the counters consistent                               */
  /* ---------------------------------------------------------------------- */

  /** Setting the flag of a handler to `on` and shifting its counters by one in that direction keeps the invariant. */
  lemma SetFlagKeepsInv(s: State, x: HandlerId, on: bool)
    requires Inv(s) && x in s.handlers && s.handlers[x].enabled != on
    ensures var h := s.handlers[x];
            Inv(s.(refs := Shift(s.refs, Base(s.typesNr, h.index), h.types, if on then 1 else -1),
                   handlers := s.handlers[x := h.(enabled := on)]))
  {
    var h := s.handlers[x];
    var ix := h.index;
    var h' := h.(enabled := on);
    var s' := s.(refs := Shift(s.refs, Base(s.typesNr, ix), h.types, if on then 1 else -1),
                 handlers := s.handlers[x := h']);
    assert Linked(s') by {
      forall i, j | 0 <= i < |s'.lists| && 0 <= j < |s'.lists[i]|
        ensures s'.lists[i][j] in s'.handlers && s'.handlers[s'.lists[i][j]].index == i
      {
        assert s.lists[i][j] in s.handlers;
      }
    }
    forall i, t | 0 <= i < s.indexNr && 0 <= t < s.typesNr
      ensures i < |s'.lists| && Slot(s.typesNr, i, t) < |s'.refs| &&
              s'.refs[Slot(s.typesNr, i, t)] == Armed(s'.lists[i], s'.handlers, t)
    {
      SlotBound(s.typesNr, s.indexNr, i, t);
      var k := Slot(s.typesNr, i, t);
      var d := if i == ix && t in h.types then (if on then 1 else -1) else 0;
      assert s.refs[k] == Armed(s.lists[i], s.handlers, t);
      assert s'.refs[k] == s.refs[k] + d by {
        SlotOffset(s.typesNr, ix, i, t, h.types);
      }
      if i == ix {
        assert Armed(s'.lists[i], s'.handlers, t) == Armed(s.lists[i], s.handlers, t) + d by {
          ArmedUpdate(s.lists[i], s.handlers, x, h', t);
        }
      } else {
        assert Armed(s'.lists[i], s'.handlers, t) == Armed(s.lists[i], s.handlers, t) by {
          NotOnOtherList(s, x, i);
          ArmedFrame(s.lists[i], s.handlers, s'.handlers, t);
        }
      }
    }
  }

  /** Get keeps the counters equal to the number of enabled handlers. */
  lemma GetKeepsInv(s: State, x: HandlerId)
    requires Inv(s) && x in s.handlers
    ensures Inv(Get(s, x).0)
  {
    if !s.handlers[x].enabled {
      SetFlagKeepsInv(s, x, true);
    }
  }

  /** Put keeps the counters equal to the number of enabled handlers. */
  lemma PutKeepsInv(s: State, x: HandlerId)
    requires Inv(s) && x in s.handlers
    ensures Inv(Put(s, x).0)
  {
    if s.handlers[x].enabled {
      SetFlagKeepsInv(s, x, false);
    }
  }

  /**
   * Get of a disabled handler sets its flag and adds exactly one to the
   * counter of each of its types on its index; every other counter, and
   * every other handler, is unchanged. Get of an enabled handler changes
   * nothing and calls nothing.
   */
  lemma GetCounters(s: State, x: HandlerId)
    requires Inv(s) && x in s.handlers
    ensures var h := s.handlers[x];
            var (s', hs) := Get(s, x);
            s'.handlers == s.handlers[x := h.(enabled := true)] && s'.lists == s.lists &&
            |s'.refs| == |s.refs| &&
            (forall i, t :: 0 <= i < s.indexNr && 0 <= t < s.typesNr ==>
               s'.refs[Slot(s.typesNr, i, t)] ==
               s.refs[Slot(s.typesNr, i, t)] + (if !h.enabled && i == h.index && t in h.types then 1 else 0)) &&
            (h.enabled ==> s' == s && hs == [])
  {
    var h := s.handlers[x];
    forall i, t | 0 <= i < s.indexNr && 0 <= t < s.typesNr
      ensures Slot(s.typesNr, i, t) < |s.refs|
      ensures !h.enabled ==>
        Get(s, x).0.refs[Slot(s.typesNr, i, t)] ==
        s.refs[Slot(s.typesNr, i, t)] + (if i == h.index && t in h.types then 1 else 0)
    {
      SlotBound(s.typesNr, s.indexNr, i, t);
      SlotOffset(s.typesNr, h.index, i, t, h.types);
    }
  }

  /** The mirror of GetCounters for put. */
  lemma PutCounters(s: State, x: HandlerId)
    requires Inv(s) && x in s.handlers
    ensures var h := s.handlers[x];
            var (s', hs) := Put(s, x);
            s'.handlers == s.handlers[x := h.(enabled := false)] && s'.lists == s.lists &&
            |s'.refs| == |s.refs| &&
            (forall i, t :: 0 <= i < s.indexNr && 0 <= t < s.typesNr ==>
               s'.refs[Slot(s.typesNr, i, t)] ==
               s.refs[Slot(s.typesNr, i, t)] - (if h.enabled && i == h.index && t in h.types then 1 else 0)) &&
            (!h.enabled ==> s' == s && hs == [])
  {
    var h := s.handlers[x];
    forall i, t | 0 <= i < s.indexNr && 0 <= t < s.typesNr
      ensures Slot(s.typesNr, i, t) < |s.refs|
      ensures h.enabled ==>
        Put(s, x).0.refs[Slot(s.typesNr, i, t)] ==
        s.refs[Slot(s.typesNr, i, t)] - (if i == h.index && t in h.types then 1 else 0)
    {
      SlotBound(s.typesNr, s.indexNr, i, t);
      SlotOffset(s.typesNr, h.index, i, t, h.types);
    }
  }

  /** The counter a put decrements is at least one: it never underflows. */
  lemma PutNoUnderflow(s: State, x: HandlerId, t: nat)
    requires Inv(s) && x in s.handlers && s.handlers[x].enabled && t in s.handlers[x].types
    ensures Slot(s.typesNr, s.handlers[x].index, t) < |s.refs|
    ensures s.refs[Slot(s.typesNr, s.handlers[x].index, t)] >= 1
  {
    var ix := s.handlers[x].index;
    assert t < s.typesNr;
    SlotBound(s.typesNr, s.indexNr, ix, t);
    ArmedPositive(s.lists[ix], s.handlers, x, t);
    assert s.refs[Slot(s.typesNr, ix, t)] == Armed(s.lists[ix], s.handlers, t);
  }

  /* ---------------------------------------------------------------------- */
  /* Which backend hooks get and put call                                   */
  /* ---------------------------------------------------------------------- */

  lemma BitInjective(t: nat, u: nat)
    requires t < 32 && u < 32
    ensures Bit(t) == Bit(u) <==> t == u
  {
    if Bit(t) == Bit(u) {
      assert t in Bit(u);
    }
  }

  lemma HooksMembers(ts: seq<Pos>, index: nat, enable: bool, t: nat)
    requires t < 32
    ensures enable ==> (Enable(Bit(t), index) in Hooks(ts, index, enable) <==> t in ts)
    ensures !enable ==> (Disable(Bit(t), index) in Hooks(ts, index, enable) <==> t in ts)
  {
    var hs := Hooks(ts, index, enable);
    forall a | 0 <= a < |ts| ensures hs[a] == (if enable then Enable(Bit(t), index) else Disable(Bit(t), index)) <==> ts[a] == t {
      BitInjective(ts[a], t);
    }
  }

  /** The calls made for ascending bits `ts` are single-bit calls on `index`, in ascending bit order. */
  lemma HooksShape(ts: seq<Pos>, index: nat, enable: bool)
    requires forall a, b :: 0 <= a < b < |ts| ==> ts[a] < ts[b]
    ensures var hs := Hooks(ts, index, enable);
            (forall a :: 0 <= a < |hs| ==> hs[a].Enable? == enable && !hs[a].Call? && hs[a].index == index &&
                                           hs[a].mask != {} && hs[a].mask == Bit(Ffs(hs[a].mask))) &&
            (forall a, b :: 0 <= a < b < |hs| ==> Ffs(hs[a].mask) < Ffs(hs[b].mask))
  {
    var hs := Hooks(ts, index, enable);
    forall a | 0 <= a < |hs| ensures hs[a].mask == Bit(ts[a]) && Ffs(hs[a].mask) == ts[a] {
    }
  }

  /**
   * Get calls `enable(1 << t, index)` for bit `t` exactly when the handler
   * was disabled, listens to `t`, the hook is installed and no enabled
   * handler on its list listened to `t` (the counter crosses 0 to 1). Every
   * call it makes is such an enable call on the handler's index, and the
   * calls come in ascending bit order.
   */
  lemma GetEnablesExactly(s: State, x: HandlerId)
    requires Inv(s) && x in s.handlers
    ensures var h := s.handlers[x];
            var hs := Get(s, x).1;
            (forall t :: t < 32 ==>
               (Enable(Bit(t), h.index) in hs <==>
                 s.hasEnable && !h.enabled && t in h.types && Armed(s.lists[h.index], s.handlers, t) == 0)) &&
            (forall a :: 0 <= a < |hs| ==> hs[a].Enable? && hs[a].index == h.index &&
                                           hs[a].mask != {} && hs[a].mask == Bit(Ffs(hs[a].mask))) &&
            (forall a, b :: 0 <= a < b < |hs| ==> Ffs(hs[a].mask) < Ffs(hs[b].mask))
  {
    var h := s.handlers[x];
    if !h.enabled && s.hasEnable {
      var base := Base(s.typesNr, h.index);
      var ts := Crossing(s.refs, base, h.types, 0, 32);
      CrossingFacts(s.refs, base, h.types, 0, 32);
      HooksShape(ts, h.index, true);
      forall t | t < 32
        ensures Enable(Bit(t), h.index) in Get(s, x).1 <==>
                t in h.types && Armed(s.lists[h.index], s.handlers, t) == 0
      {
        HooksMembers(ts, h.index, true, t);
        if t in h.types {
          SlotBound(s.typesNr, s.indexNr, h.index, t);
          assert s.refs[Slot(s.typesNr, h.index, t)] == Armed(s.lists[h.index], s.handlers, t);
        }
      }
    }
  }

  /**
   * Put calls `disable(1 << t, index)` for bit `t` exactly when the handler
   * was enabled, listens to `t`, the hook is installed and it was the only
   * enabled handler on its list listening to `t` (the counter crosses 1 to
   * 0), in ascending bit order and with no other calls.
   */
  lemma PutDisablesExactly(s: State, x: HandlerId)
    requires Inv(s) && x in s.handlers
    ensures var h := s.handlers[x];
            var hs := Put(s, x).1;
            (forall t :: t < 32 ==>
               (Disable(Bit(t), h.index) in hs <==>
                 s.hasDisable && h.enabled && t in h.types && Armed(s.lists[h.index], s.handlers, t) == 1)) &&
            (forall a :: 0 <= a < |hs| ==> hs[a].Disable? && hs[a].index == h.index &&
                                           hs[a].mask != {} && hs[a].mask == Bit(Ffs(hs[a].mask))) &&
            (forall a, b :: 0 <= a < b < |hs| ==> Ffs(hs[a].mask) < Ffs(hs[b].mask))
  {
    var h := s.handlers[x];
    if h.enabled && s.hasDisable {
      var base := Base(s.typesNr, h.index);
      var ts := Crossing(s.refs, base, h.types, 1, 32);
      CrossingFacts(s.refs, base, h.types, 1, 32);
      HooksShape(ts, h.index, false);
      forall t | t < 32
        ensures Disable(Bit(t), h.index) in Put(s, x).1 <==>
                t in h.types && Armed(s.lists[h.index], s.handlers, t) == 1
      {
        HooksMembers(ts, h.index, false, t);
        if t in h.types {
          SlotBound(s.typesNr, s.indexNr, h.index, t);
          assert s.refs[Slot(s.typesNr, h.index, t)] == Armed(s.lists[h.index], s.handlers, t);
        }
      }
    }
  }

  /** Get and put are idempotent: a second call changes nothing and calls nothing. */
  lemma GetPutIdempotent(s: State, x: HandlerId)
    requires x in s.handlers
    ensures Get(Get(s, x).0, x) == (Get(s, x).0, [])
    ensures Put(Put(s, x).0, x) == (Put(s, x).0, [])
  {
  }

  lemma {:induction false} CrossingMirror(r: seq<int>, base: nat, m: Mask, n: nat)
    requires n <= 32
    ensures Crossing(Shift(r, base, m, 1), base, m, 1, n) == Crossing(r, base, m, 0, n)
    decreases n
  {
    if n > 0 {
      var t := n - 1;
      var up := Shift(r, base, m, 1);
      CrossingMirror(r, base, m, t);
      assert (t in m && base + t < |up| && up[base + t] == 1) == (t in m && base + t < |r| && r[base + t] == 0) by {
        if t in m && base + t < |r| {
          assert up[base + t] == r[base + t] + 1;
        }
      }
    }
  }

  /**
   * A put straight after a get of a disabled handler restores the state
   * exactly, and the disable calls it makes are for the same bits, in the
   * same order, as the enable calls of the get.
   */
  lemma PutUndoesGet(s: State, x: HandlerId)
    requires x in s.handlers && !s.handlers[x].enabled
    ensures Put(Get(s, x).0, x).0 == s
    ensures s.hasEnable && s.hasDisable ==>
      var en, dis := Get(s, x).1, Put(Get(s, x).0, x).1;
      |en| == |dis| && forall a :: 0 <= a < |en| ==> dis[a] == Disable(en[a].mask, en[a].index)
  {
    var h := s.handlers[x];
    var base := Base(s.typesNr, h.index);
    var up := Shift(s.refs, base, h.types, 1);
    assert Shift(up, base, h.types, -1) == s.refs;
    assert s.handlers[x := h.(enabled := true)][x := h] == s.handlers;
    CrossingMirror(s.refs, base, h.types, 32);
  }

  /* ---------------------------------------------------------------------- */
  /* Registration                                                            */
  /* ---------------------------------------------------------------------- */

  /**
   * Init succeeds exactly when the types fit in `types_nr` bits and the index
   * is in range; then the new handler is disabled and appended at the tail of
   * its list, and nothing else changes. Otherwise it returns -EINVAL and
   * changes nothing.
   */
  lemma InitOutcome(s: State, types: Mask, index: nat, x: HandlerId)
    requires Shaped(s)
    ensures var (ret, s') := Init(s, types, index, x);
            (ret == 0 <==> Fits(types, s.typesNr) && index < s.indexNr) &&
            (ret != 0 ==> ret == -EINVAL && s' == s) &&
            (ret == 0 ==> s'.lists == s.lists[index := s.lists[index] + [x]] &&
                          s'.handlers == s.handlers[x := Handler(false, types, index)] &&
                          s'.refs == s.refs)
  {
    OutsideLowIffNotFits(types, s.typesNr);
  }

  /** The state after `list_add_tail` of the fresh, disabled handler `x` described by `h`. */
  function Linking(s: State, x: HandlerId, h: Handler): State
    requires h.index < |s.lists|
  {
    s.(lists := s.lists[h.index := s.lists[h.index] + [x]], handlers := s.handlers[x := h])
  }

  lemma FreshNotLinked(s: State, x: HandlerId, i: nat)
    requires Linked(s) && x !in s.handlers && i < |s.lists|
    ensures forall j :: 0 <= j < |s.lists[i]| ==> s.lists[i][j] != x
  {
    forall j | 0 <= j < |s.lists[i]| ensures s.lists[i][j] != x {
      assert s.lists[i][j] in s.handlers;
    }
  }

  lemma LinkingKeepsLinked(s: State, x: HandlerId, h: Handler)
    requires Linked(s) && x !in s.handlers && h.index < |s.lists|
    ensures Linked(Linking(s, x, h))
  {
    var s' := Linking(s, x, h);
    var l := s.lists[h.index];
    FreshNotLinked(s, x, h.index);
    forall i, j | 0 <= i < |s'.lists| && 0 <= j < |s'.lists[i]|
      ensures s'.lists[i][j] in s'.handlers && s'.handlers[s'.lists[i][j]].index == i
    {
      if i != h.index || j < |l| {
        assert s.lists[i][j] in s.handlers;
      }
    }
    forall y | y in s'.handlers
      ensures s'.handlers[y].index < |s'.lists| && y in s'.lists[s'.handlers[y].index]
    {
      if y != x {
        var iy := s.handlers[y].index;
        var j :| 0 <= j < |s.lists[iy]| && s.lists[iy][j] == y;
        assert s'.lists[iy][j] == y;
      } else {
        assert s'.lists[h.index][|l|] == x;
      }
    }
    forall i | 0 <= i < |s'.lists| ensures NoDup(s'.lists[i]) {
      if i == h.index {
        assert s'.lists[i] == l + [x];
      }
    }
  }

  /** Appending a fresh, disabled handler to a list leaves its counts alone. */
  lemma ArmedLinking(ids: seq<HandlerId>, tbl: map<HandlerId, Handler>, x: HandlerId, h: Handler, t: nat)
    requires forall j :: 0 <= j < |ids| ==> ids[j] != x
    requires !h.enabled
    ensures Armed(ids, tbl[x := h], t) == Armed(ids, tbl, t)
    ensures Armed(ids + [x], tbl[x := h], t) == Armed(ids, tbl, t)
  {
    ArmedFrame(ids, tbl, tbl[x := h], t);
    assert (ids + [x])[..|ids + [x]| - 1] == ids;
  }

  lemma LinkingKeepsCounted(s: State, x: HandlerId, h: Handler)
    requires Shaped(s) && Counted(s) && h.index < |s.lists| && !h.enabled
    requires forall i, j :: 0 <= i < |s.lists| && 0 <= j < |s.lists[i]| ==> s.lists[i][j] != x
    ensures Counted(Linking(s, x, h))
  {
    var s' := Linking(s, x, h);
    forall i, t | 0 <= i < s'.indexNr && 0 <= t < s'.typesNr
      ensures i < |s'.lists| && Slot(s'.typesNr, i, t) < |s'.refs| &&
              s'.refs[Slot(s'.typesNr, i, t)] == Armed(s'.lists[i], s'.handlers, t)
    {
      assert s.refs[Slot(s.typesNr, i, t)] == Armed(s.lists[i], s.handlers, t);
      ArmedLinking(s.lists[i], s.handlers, x, h, t);
    }
  }

  /** Registering a fresh handler keeps the invariant. */
  lemma InitKeepsInv(s: State, types: Mask, index: nat, x: HandlerId)
    requires Inv(s) && x !in s.handlers
    ensures Inv(Init(s, types, index, x).1)
  {
    OutsideLowIffNotFits(types, s.typesNr);
    if Init(s, types, index, x).0 == 0 {
      var h := Handler(false, types, index);
      assert Init(s, types, index, x).1 == Linking(s, x, h);
      LinkingKeepsLinked(s, x, h);
      forall i | 0 <= i < |s.lists| {
        FreshNotLinked(s, x, i);
      }
      LinkingKeepsCounted(s, x, h);
    }
  }

  /**
   * New returns the admission check's nonzero answer verbatim, and then
   * changes nothing; when the allocation fails it changes nothing and
   * returns -ENOMEM without a check but the check's 0 with one; otherwise
   * what Init returns. Every outcome keeps the invariant.
   */
  lemma NewOutcome(s: State, check: Option<int>, allocOk: bool, types: Mask, index: nat, x: HandlerId)
    requires Inv(s) && x !in s.handlers
    ensures var (ret, s') := New(s, check, allocOk, types, index, x);
            Inv(s') &&
            (check.Some? && check.value != 0 ==> ret == check.value && s' == s) &&
            (check.None? && !allocOk ==> ret == -ENOMEM && s' == s) &&
            (check.Some? && check.value == 0 && !allocOk ==> ret == 0 && s' == s) &&
            ((check.None? || check.value == 0) && allocOk ==>
               (ret, s') == Init(s, types, index, x) &&
               (ret == 0 <==> Fits(types, s.typesNr) && index < s.indexNr))
  {
    InitKeepsInv(s, types, index, x);
    InitOutcome(s, types, index, x);
  }

  /**
   * As written, New reports success without registering a handler exactly
   * when a check is installed, answers 0, and the allocation fails.
   */
  lemma NewSucceedsWithoutHandler(s: State, check: Option<int>, allocOk: bool, types: Mask, index: nat, x: HandlerId)
    requires Inv(s) && x !in s.handlers
    ensures var (ret, s') := New(s, check, allocOk, types, index, x);
            (ret == 0 && x !in s'.handlers) <==> (check == Some(0) && !allocOk)
  {
    InitOutcome(s, types, index, x);
  }

  /**
   * As intended, New returns 0 exactly when the handler is registered,
   * disabled, at the tail of its list; a failed allocation gives -ENOMEM
   * and changes nothing; every outcome keeps the invariant.
   */
  lemma NewIntendedOutcome(s: State, check: Option<int>, allocOk: bool, types: Mask, index: nat, x: HandlerId)
    requires Inv(s) && x !in s.handlers
    ensures var (ret, s') := NewIntended(s, check, allocOk, types, index, x);
            Inv(s') &&
            (check.Some? && check.value != 0 ==> ret == check.value && s' == s) &&
            ((check.None? || check.value == 0) && !allocOk ==> ret == -ENOMEM && s' == s) &&
            (ret == 0 <==> x in s'.handlers) &&
            (ret == 0 ==> s'.handlers[x] == Handler(false, types, index) &&
                          index < |s.lists| && s'.lists[index] == s.lists[index] + [x])
  {
    InitKeepsInv(s, types, index, x);
    InitOutcome(s, types, index, x);
  }

  /* ---------------------------------------------------------------------- */
  /* Teardown                                                                */
  /* ---------------------------------------------------------------------- */

  /** `list_del` of a handler that occurs once removes exactly that occurrence. */
  lemma {:induction false} RemoveAt(l: seq<HandlerId>, x: HandlerId, p: nat)
    requires NoDup(l) && p < |l| && l[p] == x
    ensures Remove(l, x) == l[..p] + l[p + 1..]
    decreases |l|
  {
    var init := l[..|l| - 1];
    if p == |l| - 1 {
      assert forall a :: 0 <= a < |init| ==> init[a] != x;
      RemoveAbsent(init, x);
      assert l[p + 1..] == [];
    } else {
      RemoveAt(init, x, p);
      assert init[..p] == l[..p];
      assert init[p + 1..] + [l[|l| - 1]] == l[p + 1..];
    }
  }

  lemma {:induction false} RemoveAbsent(l: seq<HandlerId>, x: HandlerId)
    requires forall a :: 0 <= a < |l| ==> l[a] != x
    ensures Remove(l, x) == l
    decreases |l|
  {
    if l != [] {
      RemoveAbsent(l[..|l| - 1], x);
    }
  }

  /** The state after `list_del` and `kfree` of the linked handler `x`. */
  function Unlinking(s: State, x: HandlerId): State
    requires x in s.handlers && s.handlers[x].index < |s.lists|
  {
    var ix := s.handlers[x].index;
    s.(lists := s.lists[ix := Remove(s.lists[ix], x)], handlers := s.handlers - {x})
  }

  /** The list of `x` with `x` cut out at its position `p`. */
  lemma RemoveLinked(s: State, x: HandlerId) returns (p: nat)
    requires Linked(s) && x in s.handlers
    ensures var l := s.lists[s.handlers[x].index];
            p < |l| && l[p] == x && Remove(l, x) == l[..p] + l[p + 1..] &&
            forall a :: 0 <= a < |l| - 1 ==> Remove(l, x)[a] == l[if a < p then a else a + 1]
  {
    var l := s.lists[s.handlers[x].index];
    p :| 0 <= p < |l| && l[p] == x;
    RemoveAt(l, x, p);
  }

  lemma UnlinkingKeepsLinked(s: State, x: HandlerId)
    requires Linked(s) && x in s.handlers
    ensures Linked(Unlinking(s, x))
    ensures forall i :: 0 <= i < |s.lists| ==> x !in Unlinking(s, x).lists[i]
  {
    var ix := s.handlers[x].index;
    var s' := Unlinking(s, x);
    var l, l' := s.lists[ix], s'.lists[ix];
    var p := RemoveLinked(s, x);
    forall a | 0 <= a < |l'| ensures l'[a] != x {
      var a0 := if a < p then a else a + 1;
      assert l'[a] == l[a0];
    }
    forall i | 0 <= i < |s.lists| && i != ix ensures x !in s'.lists[i] {
      NotOnOtherList(s, x, i);
    }
    forall i, j | 0 <= i < |s'.lists| && 0 <= j < |s'.lists[i]|
      ensures s'.lists[i][j] in s'.handlers && s'.handlers[s'.lists[i][j]].index == i
    {
      if i == ix {
        var j0 := if j < p then j else j + 1;
        assert s'.lists[i][j] == l[j0];
        assert l[j0] in s.handlers;
      } else {
        assert s.lists[i][j] in s.handlers;
      }
    }
    forall y | y in s'.handlers
      ensures s'.handlers[y].index < |s'.lists| && y in s'.lists[s'.handlers[y].index]
    {
      var iy := s.handlers[y].index;
      var j :| 0 <= j < |s.lists[iy]| && s.lists[iy][j] == y;
      if iy == ix {
        if j < p { assert l'[j] == y; } else { assert j != p && l'[j - 1] == y; }
      } else {
        assert s'.lists[iy][j] == y;
      }
    }
    forall i | 0 <= i < |s'.lists| ensures NoDup(s'.lists[i]) {
      if i == ix {
        forall a, b | 0 <= a < b < |l'| ensures l'[a] != l'[b] {
          var a0 := if a < p then a else a + 1;
          var b0 := if b < p then b else b + 1;
          assert l'[a] == l[a0] && l'[b] == l[b0];
        }
      }
    }
  }

  /** Cutting out an entry that does not count, under a table that agrees on the rest, keeps the count. */
  lemma ArmedCut(l: seq<HandlerId>, p: nat, tbl: map<HandlerId, Handler>, tbl': map<HandlerId, Handler>, t: nat)
    requires p < |l| && Contrib(tbl, l[p], t) == 0
    requires forall y :: y in l && y != l[p] ==> Contrib(tbl, y, t) == Contrib(tbl', y, t)
    requires NoDup(l)
    ensures Armed(l[..p] + l[p + 1..], tbl', t) == Armed(l, tbl, t)
  {
    var x := l[p];
    assert l == l[..p] + [x] + l[p + 1..];
    ArmedAppend(l[..p] + [x], l[p + 1..], tbl, t);
    ArmedAppend(l[..p], [x], tbl, t);
    assert Armed([x], tbl, t) == 0 by {
      assert [x][..0] == [];
    }
    ArmedAppend(l[..p], l[p + 1..], tbl', t);
    forall y | y in l[..p] ensures Contrib(tbl, y, t) == Contrib(tbl', y, t) {
      var a :| 0 <= a < p && l[a] == y;
    }
    forall y | y in l[p + 1..] ensures Contrib(tbl, y, t) == Contrib(tbl', y, t) {
      var a :| p < a < |l| && l[a] == y;
    }
    ArmedFrame(l[..p], tbl, tbl', t);
    ArmedFrame(l[p + 1..], tbl, tbl', t);
  }

  lemma UnlinkingKeepsCounted(s: State, x: HandlerId)
    requires Shaped(s) && Linked(s) && Counted(s) && x in s.handlers && !s.handlers[x].enabled
    ensures Counted(Unlinking(s, x))
  {
    var ix := s.handlers[x].index;
    var s' := Unlinking(s, x);
    var l := s.lists[ix];
    var p := RemoveLinked(s, x);
    forall i, t | 0 <= i < s'.indexNr && 0 <= t < s'.typesNr
      ensures i < |s'.lists| && Slot(s'.typesNr, i, t) < |s'.refs| &&
              s'.refs[Slot(s'.typesNr, i, t)] == Armed(s'.lists[i], s'.handlers, t)
    {
      assert s.refs[Slot(s.typesNr, i, t)] == Armed(s.lists[i], s.handlers, t);
      if i == ix {
        ArmedCut(l, p, s.handlers, s'.handlers, t);
      } else {
        NotOnOtherList(s, x, i);
        ArmedFrame(s.lists[i], s.handlers, s'.handlers, t);
      }
    }
  }

  /** Unlinking a disabled handler and forgetting it keeps the invariant. */
  lemma UnlinkingKeepsInv(s: State, x: HandlerId)
    requires Inv(s) && x in s.handlers && !s.handlers[x].enabled
    ensures Inv(Unlinking(s, x))
    ensures forall i :: 0 <= i < |s.lists| ==> x !in Unlinking(s, x).lists[i]
  {
    var u := Unlinking(s, x);
    assert Shaped(u) && HandlersFit(u);
    assert Linked(u) && forall i :: 0 <= i < |s.lists| ==> x !in u.lists[i] by {
      UnlinkingKeepsLinked(s, x);
    }
    assert Counted(u) by { UnlinkingKeepsCounted(s, x); }
  }

  /**
   * Teardown through `nouveau_event_ref(NULL, &ref)` puts the handler,
   * frees it, sets the reference to null, leaves no list holding it, changes
   * no other handler and keeps the invariant.
   */
  lemma RefTearsDown(s: State, x: HandlerId)
    requires Inv(s) && x in s.handlers
    ensures var (ref', s', hs) := Ref(s, None, Some(x));
            Inv(s') && ref' == None && s'.handlers == s.handlers - {x} &&
            s'.refs == Put(s, x).0.refs && s'.typesNr == s.typesNr && s'.indexNr == s.indexNr &&
            s'.hasEnable == s.hasEnable && s'.hasDisable == s.hasDisable &&
            (forall i :: 0 <= i < |s'.lists| ==> x !in s'.lists[i]) &&
            hs == Put(s, x).1
  {
    var s1 := Put(s, x).0;
    assert Inv(s1) by { PutKeepsInv(s, x); }
    assert s1.lists == s.lists && s1.handlers == s.handlers[x := s.handlers[x].(enabled := false)] by {
      PutCounters(s, x);
    }
    var u := Unlinking(s1, x);
    assert Ref(s, None, Some(x)) == (None, u, Put(s, x).1);
    assert Inv(u) && forall i :: 0 <= i < |s1.lists| ==> x !in u.lists[i] by {
      UnlinkingKeepsInv(s1, x);
    }
    assert u.handlers == s.handlers - {x} by {
      assert s1.handlers - {x} == s.handlers - {x};
    }
  }

  /**
   * Teardown cuts the handler out of its own list at its one position,
   * keeping the other handlers in order, and leaves the other lists alone.
   */
  lemma RefUnlinks(s: State, x: HandlerId)
    requires Inv(s) && x in s.handlers
    ensures var ix := s.handlers[x].index;
            var s' := Ref(s, None, Some(x)).1;
            |s'.lists| == |s.lists| &&
            (forall i :: 0 <= i < |s.lists| && i != ix ==> s'.lists[i] == s.lists[i]) &&
            (exists p :: 0 <= p < |s.lists[ix]| && s.lists[ix][p] == x &&
                         s'.lists[ix] == s.lists[ix][..p] + s.lists[ix][p + 1..])
  {
    var s1 := Put(s, x).0;
    assert s1.lists == s.lists && s1.handlers == s.handlers[x := s.handlers[x].(enabled := false)] by {
      PutCounters(s, x);
    }
    assert Linked(s1);
    var u := Unlinking(s1, x);
    assert Ref(s, None, Some(x)).1 == u;
    var ix := s.handlers[x].index;
    assert exists p :: 0 <= p < |s.lists[ix]| && s.lists[ix][p] == x &&
                       u.lists[ix] == s.lists[ix][..p] + s.lists[ix][p + 1..] by {
      var p := RemoveLinked(s1, x);
    }
  }

  /* ---------------------------------------------------------------------- */
  /* Dispatch                                                                */
  /* ---------------------------------------------------------------------- */

  /** The client callbacks among the calls `hs`, in order. */
  function Calls(hs: seq<Hook>): (cs: seq<Hook>)
    ensures forall c :: c in cs ==> c in hs && c.Call?
  {
    if hs == [] then []
    else
      var cs := Calls(hs[..|hs| - 1]);
      cs + (if hs[|hs| - 1].Call? then [hs[|hs| - 1]] else [])
  }

  /**
   * The callbacks a trigger of `types` on `index` owes the handlers `ids` of
   * the table `tbl`: one per enabled handler whose types overlap, passing
   * the overlap, in list order.
   */
  function Deliveries(ids: seq<HandlerId>, tbl: map<HandlerId, Handler>, types: Mask, index: nat): (cs: seq<Hook>)
    ensures forall c :: c in cs ==> c.Call? && c.handler in ids
  {
    if ids == [] then []
    else
      var y := ids[|ids| - 1];
      var cs := Deliveries(ids[..|ids| - 1], tbl, types, index);
      assert forall c :: c in cs ==> c.handler in ids[..|ids| - 1] ==> c.handler in ids;
      cs + (if y in tbl && tbl[y].enabled && tbl[y].types * types != {}
            then [Call(y, tbl[y].types * types, index)] else [])
  }

  lemma {:induction false} CallsAppend(a: seq<Hook>, b: seq<Hook>)
    ensures Calls(a + b) == Calls(a) + Calls(b)
    decreases |b|
  {
    if b == [] {
      assert a + b == a;
    } else {
      assert (a + b)[..|a + b| - 1] == a + b[..|b| - 1];
      CallsAppend(a, b[..|b| - 1]);
    }
  }

  lemma {:induction false} NoCallsInHooks(ts: seq<Pos>, index: nat)
    ensures Calls(Hooks(ts, index, false)) == []
    decreases |ts|
  {
    if ts != [] {
      var init := ts[..|ts| - 1];
      NoCallsInHooks(init, index);
      assert Hooks(ts, index, false)[..|ts| - 1] == Hooks(init, index, false);
    }
  }

  /** The flag of `y` after a walk over `ids`: cleared when its callback ran and answered NVKM_EVENT_DROP. */
  function Dropped(h: Handler, y: HandlerId, ids: seq<HandlerId>, types: Mask, drops: set<HandlerId>): Handler
  {
    h.(enabled := h.enabled && !(y in ids && y in drops && h.types * types != {}))
  }

  /** One step of the walk: the callback it owes, and a put when that callback drops. */
  lemma StepDelivers(s: State, y: HandlerId, types: Mask, index: nat, drops: set<HandlerId>)
    requires y in s.handlers
    ensures var (s', hs) := Step(s, y, types, index, drops);
            var h := s.handlers[y];
            var fired := h.enabled && h.types * types != {};
            s'.lists == s.lists && s'.typesNr == s.typesNr && s'.indexNr == s.indexNr &&
            s'.hasEnable == s.hasEnable && s'.hasDisable == s.hasDisable &&
            s'.handlers == s.handlers[y := h.(enabled := h.enabled && !(fired && y in drops))] &&
            Calls(hs) == (if fired then [Call(y, h.types * types, index)] else []) &&
            (fired && y in drops ==> s' == Put(s, y).0 && hs == [Call(y, h.types * types, index)] + Put(s, y).1) &&
            (!(fired && y in drops) ==> s'.refs == s.refs && hs == Calls(hs))
  {
    var h := s.handlers[y];
    if h.enabled && h.types * types != {} {
      var call := Call(y, h.types * types, index);
      assert Calls([call]) == [call] by {
        assert [call][..0] == [];
      }
      if y in drops {
        NoCallsInHooks(Crossing(s.refs, Base(s.typesNr, h.index), h.types, 1, 32), h.index);
        CallsAppend([call], Put(s, y).1);
      }
    } else {
      assert s.handlers[y := h] == s.handlers;
    }
  }

  lemma StepKeepsInv(s: State, y: HandlerId, types: Mask, index: nat, drops: set<HandlerId>)
    requires Inv(s) && y in s.handlers
    ensures Inv(Step(s, y, types, index, drops).0)
  {
    PutKeepsInv(s, y);
  }

  /**
   * Walking a list puts exactly the handlers whose callback answered
   * NVKM_EVENT_DROP and changes no list.
   */
  lemma {:induction false} WalkDrops(s: State, ids: seq<HandlerId>, types: Mask, index: nat, drops: set<HandlerId>)
    requires NoDup(ids) && forall y :: y in ids ==> y in s.handlers
    ensures var s' := Walk(s, ids, types, index, drops).0;
            s'.lists == s.lists && s'.handlers.Keys == s.handlers.Keys &&
            s'.typesNr == s.typesNr && s'.indexNr == s.indexNr &&
            s'.hasEnable == s.hasEnable && s'.hasDisable == s.hasDisable &&
            forall y :: y in s.handlers ==> s'.handlers[y] == Dropped(s.handlers[y], y, ids, types, drops)
    decreases |ids|
  {
    if ids != [] {
      var init, y := ids[..|ids| - 1], ids[|ids| - 1];
      assert forall a :: 0 <= a < |init| ==> init[a] == ids[a] != y;
      assert forall z :: z in init ==> z in ids;
      WalkDrops(s, init, types, index, drops);
      var s1 := Walk(s, init, types, index, drops).0;
      var s2 := Step(s1, y, types, index, drops).0;
      assert Walk(s, ids, types, index, drops).0 == s2;
      assert s2.lists == s1.lists && s2.typesNr == s1.typesNr && s2.indexNr == s1.indexNr &&
             s2.hasEnable == s1.hasEnable && s2.hasDisable == s1.hasDisable &&
             s2.handlers == s1.handlers[y := Dropped(s.handlers[y], y, ids, types, drops)] by {
        StepDelivers(s1, y, types, index, drops);
        assert s1.handlers[y] == s.handlers[y];
      }
      forall z | z in s.handlers ensures s2.handlers[z] == Dropped(s.handlers[z], z, ids, types, drops) {
        if z != y {
          assert s2.handlers[z] == s1.handlers[z];
          assert z in ids <==> z in init;
        }
      }
    }
  }

  /** Walking a list delivers exactly the callbacks owed, in list order. */
  lemma {:induction false} WalkDelivers(s: State, ids: seq<HandlerId>, types: Mask, index: nat, drops: set<HandlerId>)
    requires NoDup(ids) && forall y :: y in ids ==> y in s.handlers
    ensures var hs := Walk(s, ids, types, index, drops).1;
            Calls(hs) == Deliveries(ids, s.handlers, types, index)
    decreases |ids|
  {
    if ids != [] {
      var init, y := ids[..|ids| - 1], ids[|ids| - 1];
      assert forall a :: 0 <= a < |init| ==> init[a] == ids[a] != y;
      assert forall z :: z in init ==> z in ids;
      WalkDelivers(s, init, types, index, drops);
      WalkDrops(s, init, types, index, drops);
      var (s1, hs1) := Walk(s, init, types, index, drops);
      StepDelivers(s1, y, types, index, drops);
      var hs2 := Step(s1, y, types, index, drops).1;
      assert s1.handlers[y] == s.handlers[y];
      CallsAppend(hs1, hs2);
    }
  }

  /** The walk keeps the invariant. */
  lemma {:induction false} WalkKeepsInv(s: State, ids: seq<HandlerId>, types: Mask, index: nat, drops: set<HandlerId>)
    requires Inv(s) && NoDup(ids) && forall y :: y in ids ==> y in s.handlers
    ensures Inv(Walk(s, ids, types, index, drops).0)
    decreases |ids|
  {
    if ids != [] {
      var init, y := ids[..|ids| - 1], ids[|ids| - 1];
      assert forall a :: 0 <= a < |init| ==> init[a] == ids[a];
      WalkKeepsInv(s, init, types, index, drops);
      WalkDrops(s, init, types, index, drops);
      StepKeepsInv(Walk(s, init, types, index, drops).0, y, types, index, drops);
    }
  }

  /**
   * A trigger on an index out of range changes nothing and calls nothing;
   * otherwise it calls back, in list order, exactly the enabled handlers of
   * that index whose types overlap, passing the overlap and the index, puts
   * exactly those whose callback answered NVKM_EVENT_DROP, and keeps the
   * invariant.
   */
  lemma TriggerDelivers(s: State, types: Mask, index: nat, drops: set<HandlerId>)
    requires Inv(s)
    ensures var (s', hs) := Trigger(s, types, index, drops);
            Inv(s') && s'.lists == s.lists && s'.handlers.Keys == s.handlers.Keys &&
            (index >= s.indexNr ==> s' == s && hs == []) &&
            (index < s.indexNr ==>
               Calls(hs) == Deliveries(s.lists[index], s.handlers, types, index) &&
               forall y :: y in s.handlers ==>
                 s'.handlers[y] == Dropped(s.handlers[y], y, s.lists[index], types, drops))
  {
    if index < s.indexNr {
      forall y | y in s.lists[index] ensures y in s.handlers {
        var j :| 0 <= j < |s.lists[index]| && s.lists[index][j] == y;
      }
      WalkDelivers(s, s.lists[index], types, index, drops);
      WalkDrops(s, s.lists[index], types, index, drops);
      WalkKeepsInv(s, s.lists[index], types, index, drops);
    }
  }

  /** Once a handler is torn down, no trigger on any index calls it back. */
  lemma NoDeliveryAfterTeardown(s: State, x: HandlerId, types: Mask, index: nat, drops: set<HandlerId>)
    requires Inv(s) && x in s.handlers
    ensures var s' := Ref(s, None, Some(x)).1;
            forall c :: c in Calls(Trigger(s', types, index, drops).1) ==> c.handler != x
  {
    RefTearsDown(s, x);
    var s' := Ref(s, None, Some(x)).1;
    TriggerDelivers(s', types, index, drops);
  }

  /* ---------------------------------------------------------------------- */
  /* Creation                                                                */
  /* ---------------------------------------------------------------------- */

  /** A freshly created registry has all counters zero, all lists empty, and satisfies the invariant. */
  lemma CreateValid(typesNr: nat, indexNr: nat, hasEnable: bool, hasDisable: bool)
    requires typesNr < 32
    ensures var s := Create(typesNr, indexNr, hasEnable, hasDisable);
            Inv(s) && |s.refs| == indexNr * typesNr && |s.lists| == indexNr &&
            (forall k :: 0 <= k < |s.refs| ==> s.refs[k] == 0) &&
            (forall i :: 0 <= i < |s.lists| ==> s.lists[i] == [])
  {
    var s := Create(typesNr, indexNr, hasEnable, hasDisable);
    forall i, t | 0 <= i < indexNr && 0 <= t < typesNr
      ensures Slot(typesNr, i, t) < |s.refs| && s.refs[Slot(typesNr, i, t)] == Armed(s.lists[i], s.handlers, t)
    {
      SlotBound(typesNr, indexNr, i, t);
    }
  }
}
