/** Bitwise operations on 32-bit keys, on the naturals that stand for them. */
module Bits {
  const MAX32: nat := 0xFFFF_FFFF

  function And(a: nat, b: nat): (r: nat)
    ensures r <= a && r <= b
  {
    if a == 0 || b == 0 then 0
    else 2 * And(a / 2, b / 2) + (if a % 2 == 1 && b % 2 == 1 then 1 else 0)
  }

  function Or(a: nat, b: nat): nat
    decreases a + b
  {
    if a == 0 && b == 0 then 0
    else 2 * Or(a / 2, b / 2) + (if a % 2 == 1 || b % 2 == 1 then 1 else 0)
  }

  /** Complement within n bits of value less than 2^n. */
  function Not(a: nat, n: nat): (r: nat)
    ensures r < Pow2(n)
  {
    if n == 0 then 0
    else 2 * Not(a / 2, n - 1) + (if a % 2 == 1 then 0 else 1)
  }

  function Pow2(n: nat): (r: nat)
    ensures r >= 1
  {
    if n == 0 then 1 else 2 * Pow2(n - 1)
  }

  /** A key matches a partial key when they agree on the bits of the mask. */
  predicate Matches(k: nat, partial: nat, mask: nat) {
    And(k, mask) == And(partial, mask)
  }

  /** aTargetKey | ~aMask: the bits outside the mask all set, the others from the target. */
  function UpperMatch(partial: nat, mask: nat): nat {
    Or(partial, Not(mask, 32))
  }

  lemma {:induction false} AndAbove(k: nat, mask: nat, n: nat)
    requires k < Pow2(n)
    ensures And(k, mask) <= k <= And(k, mask) + Not(mask, n)
    decreases n
  {
    if n > 0 {
      AndAbove(k / 2, mask / 2, n - 1);
      if k == 0 {
      } else if mask == 0 {
        NotZero(n);
      }
    }
  }

  lemma {:induction false} OrHalves(a: nat, b: nat)
    ensures Or(a, b) == 2 * Or(a / 2, b / 2) + if a % 2 == 1 || b % 2 == 1 then 1 else 0
  {
  }

  lemma {:induction false} AndHalves(a: nat, b: nat)
    ensures And(a, b) == 2 * And(a / 2, b / 2) + if a % 2 == 1 && b % 2 == 1 then 1 else 0
  {
  }

  lemma {:induction false} OrNot(p: nat, mask: nat, n: nat)
    requires p < Pow2(n)
    ensures Or(p, Not(mask, n)) == And(p, mask) + Not(mask, n)
  {
    if n > 0 {
      OrNot(p / 2, mask / 2, n - 1);
      var y := Not(mask, n);
      assert y / 2 == Not(mask / 2, n - 1) && y % 2 == 1 - mask % 2;
      OrHalves(p, y);
      AndHalves(p, mask);
    }
  }

  lemma {:induction false} NotZero(n: nat)
    ensures Not(0, n) == Pow2(n) - 1
  {
    if n > 0 { NotZero(n - 1); }
  }

  lemma {:induction false} Pow2Plus4(n: nat)
    ensures Pow2(n + 4) == 16 * Pow2(n)
  {
    assert Pow2(n + 2) == 2 * Pow2(n + 1) == 4 * Pow2(n);
  }

  lemma {:induction false} Pow32()
    ensures Pow2(32) == MAX32 + 1
  {
    Pow2Plus4(0);
    Pow2Plus4(4);
    Pow2Plus4(8);
    Pow2Plus4(12);
    Pow2Plus4(16);
    Pow2Plus4(20);
    Pow2Plus4(24);
    Pow2Plus4(28);
  }

  /** Every matching key lies between the lowest and the highest possible match. */
  lemma MatchBounds(k: nat, partial: nat, mask: nat)
    requires k <= MAX32 && partial <= MAX32 && Matches(k, partial, mask)
    ensures And(partial, mask) <= k <= UpperMatch(partial, mask)
  {
    Pow32();
    AndAbove(k, mask, 32);
    OrNot(partial, mask, 32);
  }
}
