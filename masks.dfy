/**
 * The 32-bit type masks of the event core (`u32 types`), represented by the
 * set of positions of their set bits. Every position is below 32, so the
 * width of the C type is part of the representation: `a & b` is `a * b`,
 * `1 << t` is `Bit(t)`, `m &= ~(1 << t)` is `m - Bit(t)`, `m == 0` is
 * `m == {}` and `__ffs(m)` is `Ffs(m)`.
 */
module Masks {

  type Mask = m: set<nat> | forall t :: t in m ==> t < 32

  /** A bit position of a 32-bit mask. */
  type Pos = t: nat | t < 32

  /** `1 << t`: the mask with only bit `t` set. */
  function Bit(t: nat): (m: Mask)
    requires t < 32
    ensures t in m && forall u :: u in m ==> u == t
  {
    {t}
  }

  /** `(1 << n) - 1`: the mask of the `n` lowest bits (the shift is only defined for n < 32). */
  function Low(n: nat): (m: Mask)
    requires n < 32
    ensures forall t: int :: t in m <==> 0 <= t < n
  {
    if n == 0 then {} else Low(n - 1) + {n - 1}
  }

  /** The mask has no bit at or above position `n`. */
  predicate Fits(m: Mask, n: nat)
  {
    forall t :: t in m ==> t < n
  }

  /** The bit test that guards registration: `m & ~((1 << n) - 1)` is zero exactly when `m` fits in `n` bits. */
  lemma OutsideLowIffNotFits(m: Mask, n: nat)
    requires n < 32
    ensures m - Low(n) == {} <==> Fits(m, n)
  {
    if m - Low(n) == {} {
      forall t | t in m ensures t < n {
        assert t !in m - Low(n);
      }
    }
  }

  /** `__ffs(m)`: the position of the lowest set bit of a non-zero mask. */
  function Ffs(m: Mask): (t: nat)
    requires m != {}
    ensures t in m && forall u :: u in m ==> t <= u
  {
    FfsFrom(m, 0)
  }

  function FfsFrom(m: Mask, i: nat): (t: nat)
    requires m != {}
    requires forall u :: u in m ==> i <= u
    ensures t in m && forall u :: u in m ==> t <= u
    decreases 32 - i
  {
    assert i < 32 by {
      var w :| w in m;
    }
    if i in m then i else FfsFrom(m, i + 1)
  }
}
