# nouveau event core in Dafny

This project models the event registry and dispatcher of the nouveau DRM
driver, `drivers/gpu/drm/nouveau/core/core/event.c`. A registry (`struct
nouveau_event`) has three parts:

- `refs`, a flat array of `index_nr * types_nr` reference counters;
- one ordered handler list per index;
- optional backend hooks `enable`, `disable` and `check`.

A handler (`struct nouveau_eventh`) has an enable flag, a 32-bit type mask
and an index.

- `nouveau_event_get` and `nouveau_event_put` set or clear the flag. They
  then walk the set bits of the mask, lowest first, and increment or
  decrement one counter per bit. They call `enable(1 << t, index)` or
  `disable(1 << t, index)` exactly when a counter crosses between 0 and 1.
- `nouveau_event_new` and `nouveau_event_init` register a disabled handler
  at the tail of its index's list. Before that they run the admission
  check, the allocation and the range checks.
- `nouveau_event_ref(NULL, &h)` tears a handler down: it puts it, unlinks
  it and frees it.
- `nouveau_event_trigger` walks one index's list in order. It calls back
  every enabled handler whose types overlap the event, and puts the ones
  whose callback answers `NVKM_EVENT_DROP`.
- `nouveau_event_create` and `nouveau_event_destroy` build and release the
  registry.

The files are:

- `masks.dfy` (module `Masks`): a 32-bit mask is the set of positions of
  its set bits, each below 32. C's `a & b` is `a * b`, `1 << t` is
  `Bit(t)`, `m &= ~(1 << t)` is `m - Bit(t)`, `(1 << n) - 1` is `Low(n)`,
  and `__ffs` is `Ffs`.
- `event_spec.dfy` (module `EventSpec`): the registry as a value `State`,
  and every operation as a function. Each function returns the new state
  and the hooks called, in order. The hooks are backend enable and disable
  calls and client callbacks. This module also defines the registry
  invariant `Inv`. Its main part, `Counted`, says that `refs[i * types_nr
  + t]` is the number of enabled handlers on list `i` that listen to type
  `t`.
- `event_props.dfy` (module `EventProps`): what the source promises about
  each operation, proved on those functions.
- `event.dfy` (module `Event`): the imperative registry.
  - Class `Registry` updates its counter array in place with the loops of
    the source, and reassigns its lists and handler table.
  - Each method is proved to implement the function of the same name on
    `Abs()`, and every method but `Fini` to keep `Valid()`.
  - Handler identities are fresh allocation numbers (`nextId`).
- `event_trace.dfy` (module `EventTrace`): arbitrary runs of gets and
  puts, and the balance of enable and disable calls they make.
- `event_scenario.dfy` (module `EventScenario`): a worked run with two
  handlers that share one type.

## Model

| member | source | states |
|---|---|---|
| Masks.OutsideLowIffNotFits | drivers/gpu/drm/nouveau/core/core/event.c:86 | `types & ~((1 << types_nr) - 1)` is zero exactly when every bit of `types` lies below `types_nr` |
| Masks.Ffs | drivers/gpu/drm/nouveau/core/core/event.c:37 | `__ffs` of a non-zero mask is a set bit, and no set bit is lower |
| EventSpec.CrossingFacts | drivers/gpu/drm/nouveau/core/core/event.c:58-62 | the bits whose hook fires are exactly the bits of the mask whose counter holds the crossing value, in strictly ascending order |
| Event.Registry.Get | drivers/gpu/drm/nouveau/core/core/event.c:47-66 | the new registry and the hooks called are those of `EventSpec.Get` on the old registry; the invariant is kept |
| Event.CountIn | drivers/gpu/drm/nouveau/core/core/event.c:58-64 | the `__ffs` loop leaves every counter named by the mask on the index one higher and the rest unchanged; it calls `enable(1 << t)` for exactly the bits whose counter was 0, lowest first |
| Event.Registry.Put | drivers/gpu/drm/nouveau/core/core/event.c:26-45 | the new registry and the hooks called are those of `EventSpec.Put`; the invariant is kept |
| Event.CountOut | drivers/gpu/drm/nouveau/core/core/event.c:37-43 | the loop leaves every named counter one lower and calls `disable(1 << t)` for exactly the bits whose counter reached 0, lowest first |
| Event.TurnIn | drivers/gpu/drm/nouveau/core/core/event.c:58-63 | one turn of the get loop: `t` is `__ffs` of the bits left, its counter goes up, `enable(1 << t)` is called when it was 0, and the loop's invariant holds again with `t` visited |
| Event.TurnOut | drivers/gpu/drm/nouveau/core/core/event.c:37-42 | one turn of the put loop: `t` is `__ffs` of the bits left, its counter goes down, `disable(1 << t)` is called when it reaches 0, and the loop's invariant holds again with `t` visited |
| Event.Registry.Init | drivers/gpu/drm/nouveau/core/core/event.c:79-102 | the return code and the new registry are those of `EventSpec.Init`; the invariant is kept |
| Event.Registry.New | drivers/gpu/drm/nouveau/core/core/event.c:104-126 | it returns the check's non-zero answer with `*phandler` untouched; otherwise `*phandler` becomes the allocation, or null when it fails, and the result and registry are those of `EventSpec.New`; a check answering 0 followed by a failed allocation returns 0 with `*phandler` null and nothing changed |
| Event.Registry.Fini | drivers/gpu/drm/nouveau/core/core/event.c:68-77 | the handler is put and then unlinked, as in `EventSpec.Fini` |
| Event.Registry.Ref | drivers/gpu/drm/nouveau/core/core/event.c:128-137 | with the required null `handler`, a held `*ref` is finalised and freed and `*ref` becomes null, as in `EventSpec.Ref`; the invariant is kept |
| Event.Registry.Trigger | drivers/gpu/drm/nouveau/core/core/event.c:139-160 | the walk of the list, with a put in the middle of the walk for each drop, yields the registry and calls of `EventSpec.Trigger`; the invariant is kept |
| Event.Registry.constructor | drivers/gpu/drm/nouveau/core/core/event.c:189-194 | all counters are zero, every one of the `index_nr` lists is empty, and the invariant holds |
| Event.Create | drivers/gpu/drm/nouveau/core/core/event.c:172-196 | returns 0 exactly when both allocations succeed, with a fresh, valid, zeroed registry; otherwise -ENOMEM and no registry |
| Event.Destroy | drivers/gpu/drm/nouveau/core/core/event.c:162-170 | `*pevent` is null afterwards |
| EventProps.GetKeepsInv | drivers/gpu/drm/nouveau/core/core/event.c:47-66 | get keeps the counter invariant |
| EventProps.PutKeepsInv | drivers/gpu/drm/nouveau/core/core/event.c:26-45 | put keeps the counter invariant |
| EventProps.GetCounters | drivers/gpu/drm/nouveau/core/core/event.c:54-64 | an already enabled handler changes nothing and calls nothing; otherwise its flag is set and exactly the counters of its types on its index go up by one; no list and no other handler changes |
| EventProps.PutCounters | drivers/gpu/drm/nouveau/core/core/event.c:33-43 | the mirror of GetCounters: a no-op on a disabled handler, otherwise one down on exactly its counters |
| EventProps.PutNoUnderflow | drivers/gpu/drm/nouveau/core/core/event.c:38 | every counter that put decrements is at least 1 beforehand, so no counter goes negative |
| EventProps.GetEnablesExactly | drivers/gpu/drm/nouveau/core/core/event.c:58-62 | `enable(1 << t, index)` is called if and only if the hook is installed, the handler was disabled, listens to `t`, and no enabled handler on its list listened to `t`; every call is a single-bit `enable(1 << t, index)` on the handler's index, so no other call is made, and the calls come in ascending bit order |
| EventProps.PutDisablesExactly | drivers/gpu/drm/nouveau/core/core/event.c:37-41 | `disable(1 << t, index)` is called if and only if the hook is installed, the handler was enabled, listens to `t`, and was the only enabled handler on its list listening to `t`; every call is a single-bit `disable(1 << t, index)` on the handler's index, so no other call is made, and the calls come in ascending bit order |
| EventProps.GetPutIdempotent | drivers/gpu/drm/nouveau/core/core/event.c:26-66 | a second get, or a second put, changes nothing and calls nothing |
| EventProps.PutUndoesGet | drivers/gpu/drm/nouveau/core/core/event.c:26-66 | a put right after a get of a disabled handler restores the registry exactly; its disable calls are for the same bits, in the same order, as the get's enable calls |
| EventProps.InitOutcome | drivers/gpu/drm/nouveau/core/core/event.c:86-101 | init returns 0 exactly when the types fit in `types_nr` bits and the index is below `index_nr`; otherwise -EINVAL with nothing changed; on success the handler is disabled and appended at the tail of its list, and nothing else changes |
| EventProps.InitKeepsInv | drivers/gpu/drm/nouveau/core/core/event.c:91-99 | registering a fresh handler keeps the invariant |
| EventProps.NewOutcome | drivers/gpu/drm/nouveau/core/core/event.c:104-126 | a non-zero check answer is returned verbatim with nothing changed; a failed allocation changes nothing and gives -ENOMEM without a check, but the check's 0 with one; otherwise the result and the new registry are exactly init's; the invariant is kept in every case |
| EventProps.NewSucceedsWithoutHandler | drivers/gpu/drm/nouveau/core/core/event.c:110-125 | new returns 0 without registering the handler if and only if a check is installed, answers 0, and the allocation fails |
| EventProps.NewIntendedOutcome | drivers/gpu/drm/nouveau/core/core/event.c:104-126 | with every failed allocation giving -ENOMEM, new returns 0 exactly when the handler is registered, disabled and at the tail of its list; the invariant is kept |
| EventProps.RefTearsDown | drivers/gpu/drm/nouveau/core/core/event.c:68-77 | teardown makes exactly put's calls and leaves put's counters; it frees the handler, leaves every other handler as it was, holds the handler on no list, nulls `*ref` and keeps the invariant |
| EventProps.RefUnlinks | drivers/gpu/drm/nouveau/core/core/event.c:68-77 | teardown removes the handler from its own list at its one position, keeping the other handlers in order, and leaves every other list alone |
| EventProps.StepDelivers | drivers/gpu/drm/nouveau/core/core/event.c:150-157 | one handler of the walk gets its callback, with `types & handler->types` and the index, exactly when it is enabled and overlaps; when its callback also drops, the new registry and the calls after the callback are exactly those of put; otherwise nothing but the callback happens |
| EventProps.WalkDrops | drivers/gpu/drm/nouveau/core/core/event.c:149-158 | the walk changes no list and no set of live handlers; a handler ends disabled exactly when it was on the list, overlapped and dropped, or was already disabled |
| EventProps.WalkDelivers | drivers/gpu/drm/nouveau/core/core/event.c:149-158 | the callbacks of the walk are exactly those owed to the list's enabled, overlapping handlers, in list order |
| EventProps.WalkKeepsInv | drivers/gpu/drm/nouveau/core/core/event.c:149-158 | the walk, with its puts, keeps the invariant |
| EventProps.TriggerDelivers | drivers/gpu/drm/nouveau/core/core/event.c:139-160 | an out-of-range index changes nothing and calls nothing; otherwise the callbacks are delivered in list order, exactly the dropping handlers are put, and the invariant is kept |
| EventTrace.TriggerNet | drivers/gpu/drm/nouveau/core/core/event.c:139-160 | a trigger never calls `enable`, and calls `disable` only for the puts of dropping handlers (never without the hook); for every (index, type) its disable calls equal the change in whether that counter is non-zero, so a type is switched off exactly when its last listener drops |
| EventProps.NoDeliveryAfterTeardown | drivers/gpu/drm/nouveau/core/core/event.c:128-160 | after `nouveau_event_ref(NULL, &h)`, no trigger on any index calls `h` back |
| EventProps.CreateValid | drivers/gpu/drm/nouveau/core/core/event.c:178-194 | a new registry has `index_nr * types_nr` zero counters and `index_nr` empty lists, and satisfies the invariant |
| EventTrace.GetNet | drivers/gpu/drm/nouveau/core/core/event.c:58-62 | for every (index, type), get's enable calls balance the change in whether that counter is non-zero |
| EventTrace.PutNet | drivers/gpu/drm/nouveau/core/core/event.c:37-41 | for every (index, type), put's disable calls balance the change in whether that counter is non-zero |
| EventTrace.RunNet | drivers/gpu/drm/nouveau/core/core/event.c:26-66 | over any run of gets and puts, enable calls minus disable calls for an (index, type) equal the change in whether its counter is non-zero; the invariant holds throughout |
| EventTrace.Symmetry | drivers/gpu/drm/nouveau/core/core/event.c:26-66 | starting with every handler disabled, after any run of gets and puts, enable calls minus disable calls for each (index, type) is 1 while an enabled handler on that index listens to the type, and 0 otherwise |
| EventScenario.TwoHandlersShareType | drivers/gpu/drm/nouveau/core/core/event.c:26-160 | two handlers on one index and one type: only the first get enables, a trigger calls both in registration order, and only the last put disables |

## Left out

- Locking: the `list_lock` and `refs_lock` spinlocks and interrupt masking are not modelled. Every operation is one sequential step, so the flag updates `__test_and_set_bit` and `__test_and_clear_bit`, the non-atomic variants called outside `refs_lock`, become plain reads and writes; races between concurrent gets and puts of one handler are not modelled.
- Allocation: kmalloc, kzalloc and kfree are not modelled. Success or failure is a boolean parameter, and a successful handler allocation is the next unused number `nextId`.
- Callbacks: `enable`, `disable`, `check` and the client `func` are foreign code. Enable and disable are whether they are installed, plus the calls recorded in the returned trace. `check` is its answer, passed to New. `func` is the set `drops` of handlers whose callback answers `NVKM_EVENT_DROP`. What these functions do, and the `priv` and `func` fields, are not modelled.
- The `handler->event` back-reference is not modelled, because each method acts on one registry.
- Diagnostics: the report printed by `WARN_ON` in trigger and `BUG_ON` in ref is not modelled. The early return of trigger on an index out of range is kept, and ref requires a null `handler`.
- Intrusive lists: `list_head`, `list_add_tail`, `list_del` and `list_for_each_entry` are sequences of handler numbers. Appending, removal and in-order iteration are modelled on them.
- Event.Registry.Init: `index` is a natural number, so a negative index, which the source does not reject, cannot be expressed.
- Event.Registry.Trigger: `index` is a natural number as well. The source takes an `int` and its `WARN_ON(index >= index_nr)` guard lets a negative index through to `list[index]`; that out-of-bounds access cannot be expressed.
- Event.Registry.constructor: requires `types_nr < 32`, because the source computes `1 << types_nr` and a shift of 32 or more is undefined in C. Event.Create has the same requirement.
- Event.Create: when the list allocation fails, the source frees the registry but leaves `*pevent` aimed at the freed memory. The model returns no registry.
- Event.Registry.New: when init fails, `*phandler` keeps the freed allocation. The model returns that allocation number, which is no longer a live handler.
- Event.Destroy: only the nulling of `*pevent` is modelled. The source frees the registry but not its list array; that leak is not modelled.
- Event.Registry.Fini: it does not promise `Valid()`. After fini the handler is still allocated but no longer linked, and only Ref, which frees it, makes the registry whole again, as in the source.
- The counters are unbounded integers. The source's `int` counters could only overflow with more than 2^31 enabled handlers on one index and type.
- Order of the registration checks: `check` runs first (event.c:112-116) and the range checks are made only in init (event.c:86-89); the model keeps this order.

## Findings

| source | as written | input that shows it | evidently intended | confidence | as-written member | corrected member |
|---|---|---|---|---|---|---|
| drivers/gpu/drm/nouveau/core/core/event.c:110-125 | `ret` starts as -ENOMEM, but an installed `check` answering 0 overwrites it; if `kmalloc` then fails, new returns that 0 with `*phandler` null | a registry with a `check` hook that answers 0, and a failed handler allocation | a failed allocation returns -ENOMEM whether or not a check is installed, so 0 always means a registered handler | not executed | EventProps.NewSucceedsWithoutHandler | EventProps.NewIntendedOutcome |

`Event.Registry.New` and `EventSpec.New` follow the code as written, since
that is the behaviour callers see; `EventSpec.NewIntended` is the corrected
definition, which differs only on that path.
