/**
 * A value-level model of the nouveau event core (core/event.c): the registry
 * state as a datatype and every operation as a function from state to state
 * together with the backend and client hooks it invokes, in order. The
 * imperative registry in module Event is proved to implement these functions,
 * and the lemmas here state what the source promises about them.
 */
module EventSpec {
  import opened Masks

  /** A handler (`struct nouveau_eventh`), named by the identity of its allocation. */
  type HandlerId = nat

  const EINVAL: int := 22
  const ENOMEM: int := 12

  /**
   * What the core keeps of a handler: its NVKM_EVENT_ENABLE flag, the types
   * it listens to and its index. The client callback and its private data
   * are not modelled; their answers are parameters of Trigger.
   */
  datatype Handler = Handler(enabled: bool, types: Mask, index: nat)

  /** One call out of the core, in the order it happens. */
  datatype Hook =
    | Enable(mask: Mask, index: nat)                   // event->enable(event, mask, index)
    | Disable(mask: Mask, index: nat)                  // event->disable(event, mask, index)
    | Call(handler: HandlerId, mask: Mask, index: nat) // handler->func(priv, mask, index)

  /**
   * `struct nouveau_event`: the sizes, whether the enable and disable
   * backend hooks are installed, the flat counter array, one ordered list
   * of handlers per index, and the live handlers.
   */
  datatype State = State(
    typesNr: nat,
    indexNr: nat,
    hasEnable: bool,
    hasDisable: bool,
    refs: seq<int>,
    lists: seq<seq<HandlerId>>,
    handlers: map<HandlerId, Handler>)

  /* ---------------------------------------------------------------------- */
  /* The counter layout                                                      */
  /* ---------------------------------------------------------------------- */

  /** The first counter of index `i`: `i * types_nr`. */
  function Base(typesNr: nat, i: nat): nat
  {
    i * typesNr
  }

  /** The counter of type `t` on index `i`: `refs[i * types_nr + t]`. */
  function Slot(typesNr: nat, i: nat, t: nat): nat
  {
    Base(typesNr, i) + t
  }

  lemma SlotBound(typesNr: nat, indexNr: nat, i: nat, t: nat)
    requires i < indexNr && t < typesNr
    ensures Slot(typesNr, i, t) < indexNr * typesNr
  {
    calc {
      Slot(typesNr, i, t);
    <
      i * typesNr + typesNr;
    ==
      (i + 1) * typesNr;
    <=  { MulMono(i + 1, indexNr, typesNr); }
      indexNr * typesNr;
    }
  }

  lemma MulMono(a: nat, b: nat, c: nat)
    requires a <= b
    ensures a * c <= b * c
  {
  }

  /**
   * Offsets from the base `ix * types_nr` of index `ix` that name a bit of a
   * mask fitting in `types_nr` bits land on index `ix` and nowhere else.
   */
  lemma SlotOffset(typesNr: nat, ix: nat, i: nat, t: nat, m: Mask)
    requires t < typesNr && Fits(m, typesNr)
    ensures (Base(typesNr, ix) <= Slot(typesNr, i, t) && Slot(typesNr, i, t) - Base(typesNr, ix) in m)
            <==> (i == ix && t in m)
  {
    if i < ix {
      MulMono(i + 1, ix, typesNr);
      assert Slot(typesNr, i, t) < (i + 1) * typesNr;
    } else if i > ix {
      MulMono(ix + 1, i, typesNr);
      assert Slot(typesNr, i, t) - Base(typesNr, ix) >= typesNr;
    }
  }

  /* ---------------------------------------------------------------------- */
  /* Counting enabled handlers                                              */
  /* ---------------------------------------------------------------------- */

  /** 1 if handler `x` is live, enabled and listens to type `t`, else 0. */
  function Contrib(tbl: map<HandlerId, Handler>, x: HandlerId, t: nat): nat
  {
    if x in tbl && tbl[x].enabled && t in tbl[x].types then 1 else 0
  }

  /** The number of enabled handlers of `ids` that listen to type `t`. */
  function Armed(ids: seq<HandlerId>, tbl: map<HandlerId, Handler>, t: nat): nat
  {
    if ids == [] then 0 else Armed(ids[..|ids| - 1], tbl, t) + Contrib(tbl, ids[|ids| - 1], t)
  }

  predicate NoDup(ids: seq<HandlerId>)
  {
    forall a, b :: 0 <= a < b < |ids| ==> ids[a] != ids[b]
  }

  lemma {:induction false} ArmedAppend(a: seq<HandlerId>, b: seq<HandlerId>, tbl: map<HandlerId, Handler>, t: nat)
    ensures Armed(a + b, tbl, t) == Armed(a, tbl, t) + Armed(b, tbl, t)
    decreases |b|
  {
    if b == [] {
      assert a + b == a;
    } else {
      var b' := b[..|b| - 1];
      assert (a + b)[..|a + b| - 1] == a + b';
      ArmedAppend(a, b', tbl, t);
    }
  }

  /** Only the handlers on the list matter to its count. */
  lemma {:induction false} ArmedFrame(ids: seq<HandlerId>, tbl: map<HandlerId, Handler>, tbl': map<HandlerId, Handler>, t: nat)
    requires forall x :: x in ids ==> Contrib(tbl, x, t) == Contrib(tbl', x, t)
    ensures Armed(ids, tbl, t) == Armed(ids, tbl', t)
    decreases |ids|
  {
    if ids != [] {
      ArmedFrame(ids[..|ids| - 1], tbl, tbl', t);
    }
  }

  /** Changing one handler that occurs once on the list changes the count by the change of its share. */
  lemma {:induction false} ArmedUpdate(ids: seq<HandlerId>, tbl: map<HandlerId, Handler>, x: HandlerId, h: Handler, t: nat)
    requires NoDup(ids) && x in ids
    ensures Armed(ids, tbl[x := h], t) + Contrib(tbl, x, t) == Armed(ids, tbl, t) + Contrib(tbl[x := h], x, t)
    decreases |ids|
  {
    var init, last := ids[..|ids| - 1], ids[|ids| - 1];
    if last == x {
      assert forall a :: 0 <= a < |init| ==> init[a] == ids[a] != x;
      ArmedFrame(init, tbl, tbl[x := h], t);
    } else {
      assert x in init by {
        var a :| 0 <= a < |ids| && ids[a] == x;
        assert a < |ids| - 1 && init[a] == x;
      }
      ArmedUpdate(init, tbl, x, h, t);
    }
  }

  lemma {:induction false} ArmedPositive(ids: seq<HandlerId>, tbl: map<HandlerId, Handler>, x: HandlerId, t: nat)
    requires x in ids && Contrib(tbl, x, t) == 1
    ensures Armed(ids, tbl, t) >= 1
    decreases |ids|
  {
    if ids[|ids| - 1] != x {
      assert x in ids[..|ids| - 1] by {
        var a :| 0 <= a < |ids| && ids[a] == x;
        assert a < |ids| - 1 && ids[..|ids| - 1][a] == x;
      }
      ArmedPositive(ids[..|ids| - 1], tbl, x, t);
    }
  }

  /* ---------------------------------------------------------------------- */
  /* The registry invariant                                                  */
  /* ---------------------------------------------------------------------- */

  ghost predicate Shaped(s: State)
  {
    s.typesNr < 32 && |s.refs| == s.indexNr * s.typesNr && |s.lists| == s.indexNr
  }

  /** Every live handler passed the checks of registration. */
  ghost predicate HandlersFit(s: State)
  {
    forall x :: x in s.handlers ==> s.handlers[x].index < s.indexNr && Fits(s.handlers[x].types, s.typesNr)
  }

  /** Every live handler is linked exactly once, on the list of its own index, and nothing else is linked. */
  ghost predicate Linked(s: State)
  {
    (forall i, j :: 0 <= i < |s.lists| && 0 <= j < |s.lists[i]| ==>
      s.lists[i][j] in s.handlers && s.handlers[s.lists[i][j]].index == i) &&
    (forall x :: x in s.handlers ==> s.handlers[x].index < |s.lists| && x in s.lists[s.handlers[x].index]) &&
    (forall i :: 0 <= i < |s.lists| ==> NoDup(s.lists[i]))
  }

  /** `refs[i * types_nr + t]` is the number of enabled handlers on list `i` listening to type `t`. */
  ghost predicate Counted(s: State)
  {
    forall i, t :: 0 <= i < s.indexNr && 0 <= t < s.typesNr ==>
      i < |s.lists| && Slot(s.typesNr, i, t) < |s.refs| &&
      s.refs[Slot(s.typesNr, i, t)] == Armed(s.lists[i], s.handlers, t)
  }

  ghost predicate Inv(s: State)
  {
    Shaped(s) && HandlersFit(s) && Linked(s) && Counted(s)
  }

  /* ---------------------------------------------------------------------- */
  /* nouveau_event_get / nouveau_event_put                                   */
  /* ---------------------------------------------------------------------- */

  /** The counters after adding `d` to the counter of every bit of `m` above `base`. */
  function Shift(r: seq<int>, base: nat, m: Mask, d: int): (r': seq<int>)
    ensures |r'| == |r|
  {
    seq(|r|, k requires 0 <= k < |r| => if base <= k && k - base in m then r[k] + d else r[k])
  }

  /**
   * The bits of `m` below `n`, lowest first, whose counter above `base`
   * holds `target` (0 before an increment that enables, 1 before a
   * decrement that disables).
   */
  function Crossing(r: seq<int>, base: nat, m: Mask, target: int, n: nat): seq<Pos>
    requires n <= 32
  {
    if n == 0 then []
    else
      var t := n - 1;
      Crossing(r, base, m, target, t) +
        (if t in m && base + t < |r| && r[base + t] == target then [t] else [])
  }

  lemma {:induction false} CrossingFacts(r: seq<int>, base: nat, m: Mask, target: int, n: nat)
    requires n <= 32
    ensures var c := Crossing(r, base, m, target, n);
            (forall t :: t in c <==> t < n && t in m && base + t < |r| && r[base + t] == target) &&
            (forall a, b :: 0 <= a < b < |c| ==> c[a] < c[b])
    decreases n
  {
    if n > 0 {
      var c := Crossing(r, base, m, target, n - 1);
      CrossingFacts(r, base, m, target, n - 1);
      assert forall a :: 0 <= a < |c| ==> c[a] in c;
    }
  }

  /** No bit of `m` in `[a, n)` means no crossing there either. */
  lemma {:induction false} CrossingGap(r: seq<int>, base: nat, m: Mask, target: int, a: nat, n: nat)
    requires a <= n <= 32 && forall u :: u in m ==> u < a || n <= u
    ensures Crossing(r, base, m, target, n) == Crossing(r, base, m, target, a)
    decreases n
  {
    if n > a {
      CrossingGap(r, base, m, target, a, n - 1);
    }
  }

  /** The backend calls, one per bit of `ts`, each with the single-bit mask `1 << t`. */
  function Hooks(ts: seq<Pos>, index: nat, enable: bool): (hs: seq<Hook>)
    ensures |hs| == |ts|
  {
    seq(|ts|, a requires 0 <= a < |ts| =>
      if enable then Enable(Bit(ts[a]), index) else Disable(Bit(ts[a]), index))
  }

  /** `nouveau_event_get`: the new state and the enable calls made. */
  function Get(s: State, x: HandlerId): (State, seq<Hook>)
    requires x in s.handlers
  {
    var h := s.handlers[x];
    if h.enabled then (s, [])
    else
      var base := Base(s.typesNr, h.index);
      (s.(refs := Shift(s.refs, base, h.types, 1), handlers := s.handlers[x := h.(enabled := true)]),
       if s.hasEnable then Hooks(Crossing(s.refs, base, h.types, 0, 32), h.index, true) else [])
  }

  /** `nouveau_event_put`: the new state and the disable calls made. */
  function Put(s: State, x: HandlerId): (State, seq<Hook>)
    requires x in s.handlers
  {
    var h := s.handlers[x];
    if !h.enabled then (s, [])
    else
      var base := Base(s.typesNr, h.index);
      (s.(refs := Shift(s.refs, base, h.types, -1), handlers := s.handlers[x := h.(enabled := false)]),
       if s.hasDisable then Hooks(Crossing(s.refs, base, h.types, 1, 32), h.index, false) else [])
  }

  /* ---------------------------------------------------------------------- */
  /* nouveau_event_init / nouveau_event_new                                  */
  /* ---------------------------------------------------------------------- */

  /** `nouveau_event_init` on the fresh handler `x`: the return code and the new state. */
  function Init(s: State, types: Mask, index: nat, x: HandlerId): (int, State)
    requires s.typesNr < 32 && |s.lists| == s.indexNr
  {
    if types - Low(s.typesNr) != {} then (-EINVAL, s)
    else if index >= s.indexNr then (-EINVAL, s)
    else
      (0, s.(lists := s.lists[index := s.lists[index] + [x]],
             handlers := s.handlers[x := Handler(false, types, index)]))
  }

  /**
   * `nouveau_event_new` as written: `check` is the answer of the backend
   * admission hook (None when none is installed), `allocOk` whether the
   * allocation of the handler succeeded and `x` the handler it yields.
   * `ret` starts as -ENOMEM but a check answering 0 overwrites it, so a
   * failed allocation then returns 0.
   */
  function New(s: State, check: Option<int>, allocOk: bool, types: Mask, index: nat, x: HandlerId): (int, State)
    requires s.typesNr < 32 && |s.lists| == s.indexNr
  {
    if check.Some? && check.value != 0 then (check.value, s)
    else if !allocOk then (if check.Some? then check.value else -ENOMEM, s)
    else Init(s, types, index, x)
  }

  /** `nouveau_event_new` as evidently intended: every failed allocation gives -ENOMEM. */
  function NewIntended(s: State, check: Option<int>, allocOk: bool, types: Mask, index: nat, x: HandlerId): (int, State)
    requires s.typesNr < 32 && |s.lists| == s.indexNr
  {
    if !allocOk && (check.None? || check.value == 0) then (-ENOMEM, s)
    else New(s, check, allocOk, types, index, x)
  }

  datatype Option<T> = None | Some(value: T)

  /* ---------------------------------------------------------------------- */
  /* nouveau_event_fini / nouveau_event_ref                                  */
  /* ---------------------------------------------------------------------- */

  /** `list_del`: the list without `x`, the rest in order. */
  function Remove(ids: seq<HandlerId>, x: HandlerId): seq<HandlerId>
  {
    if ids == [] then []
    else Remove(ids[..|ids| - 1], x) + (if ids[|ids| - 1] == x then [] else [ids[|ids| - 1]])
  }

  /** `nouveau_event_fini`: put the handler, then unlink it. */
  function Fini(s: State, x: HandlerId): (State, seq<Hook>)
    requires x in s.handlers && s.handlers[x].index < |s.lists|
  {
    var (s1, hs) := Put(s, x);
    var ix := s.handlers[x].index;
    (s1.(lists := s1.lists[ix := Remove(s1.lists[ix], x)]), hs)
  }

  /**
   * `nouveau_event_ref(handler, ref)`: the source admits only a null
   * `handler`; a non-null `*ref` is finalised and freed, and `*ref` becomes
   * `handler`. The result is the new `*ref`, the state and the hooks.
   */
  function Ref(s: State, handler: Option<HandlerId>, ref: Option<HandlerId>): (Option<HandlerId>, State, seq<Hook>)
    requires handler == None
    requires ref.Some? ==> ref.value in s.handlers && s.handlers[ref.value].index < |s.lists|
  {
    if ref.Some? then
      var (s1, hs) := Fini(s, ref.value);
      (handler, s1.(handlers := s1.handlers - {ref.value}), hs)
    else (handler, s, [])
  }

  /* ---------------------------------------------------------------------- */
  /* nouveau_event_trigger                                                   */
  /* ---------------------------------------------------------------------- */

  /**
   * One iteration of the walk: an enabled handler whose types overlap gets
   * its callback with the overlap; if the callback answers
   * NVKM_EVENT_DROP (`x in drops`), the handler is put.
   */
  function Step(s: State, x: HandlerId, types: Mask, index: nat, drops: set<HandlerId>): (State, seq<Hook>)
  {
    if x in s.handlers && s.handlers[x].enabled && s.handlers[x].types * types != {} then
      var call := Call(x, s.handlers[x].types * types, index);
      if x in drops then
        var (s1, hs) := Put(s, x);
        (s1, [call] + hs)
      else (s, [call])
    else (s, [])
  }

  /** The walk over `ids` in order. */
  function Walk(s: State, ids: seq<HandlerId>, types: Mask, index: nat, drops: set<HandlerId>): (State, seq<Hook>)
    decreases |ids|
  {
    if ids == [] then (s, [])
    else
      var (s1, hs1) := Walk(s, ids[..|ids| - 1], types, index, drops);
      var (s2, hs2) := Step(s1, ids[|ids| - 1], types, index, drops);
      (s2, hs1 + hs2)
  }

  /** `nouveau_event_trigger(event, types, index)`. */
  function Trigger(s: State, types: Mask, index: nat, drops: set<HandlerId>): (State, seq<Hook>)
    requires |s.lists| == s.indexNr
  {
    if index >= s.indexNr then (s, [])
    else Walk(s, s.lists[index], types, index, drops)
  }

  /* ---------------------------------------------------------------------- */
  /* nouveau_event_create                                                    */
  /* ---------------------------------------------------------------------- */

  function Create(typesNr: nat, indexNr: nat, hasEnable: bool, hasDisable: bool): State
  {
    State(typesNr, indexNr, hasEnable, hasDisable,
          seq(indexNr * typesNr, _ => 0), seq(indexNr, _ => []), map[])
  }
}
