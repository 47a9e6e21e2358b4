/** Words of the occupancy bitmap: `unsigned long` values with bit operators defined bit by bit. */
module Bits {

  predicate Bit(w: nat, k: nat) {
    if k == 0 then w % 2 == 1 else Bit(w / 2, k - 1)
  }

  /** `1UL << k` */
  function One(k: nat): (w: nat)
    ensures w > 0
  {
    if k == 0 then 1 else 2 * One(k - 1)
  }

  /** `v | w` */
  function Or(v: nat, w: nat): nat {
    if v == 0 && w == 0 then 0 else 2 * Or(v / 2, w / 2) + if v % 2 == 1 || w % 2 == 1 then 1 else 0
  }

  /** `v & ~w` */
  function AndNot(v: nat, w: nat): nat {
    if v == 0 then 0 else 2 * AndNot(v / 2, w / 2) + if v % 2 == 1 && w % 2 == 0 then 1 else 0
  }

  /** The `bsf` instruction: index of the lowest bit that is set. */
  function Ffs(v: nat): (k: nat)
    requires v != 0
    ensures Bit(v, k) && forall j: nat :: j < k ==> !Bit(v, j)
  {
    if v % 2 == 1 then 0 else
    var k := Ffs(v / 2);
    assert forall j: nat :: j < k + 1 ==> !Bit(v, j) by {
      forall j: nat | j < k + 1 ensures !Bit(v, j) { if j > 0 { assert !Bit(v / 2, j - 1); } }
    }
    1 + k
  }

  lemma {:induction false} NoBits(k: nat)
    ensures !Bit(0, k)
  {
    if k > 0 { NoBits(k - 1); }
  }

  lemma {:induction false} BitOfOne(k: nat, j: nat)
    ensures Bit(One(k), j) <==> j == k
  {
    if k > 0 && j > 0 { BitOfOne(k - 1, j - 1); }
    else if j > 0 { NoBits(j - 1); }
  }

  lemma {:induction false} BitOfOr(v: nat, w: nat, j: nat)
    ensures Bit(Or(v, w), j) <==> Bit(v, j) || Bit(w, j)
  {
    if v == 0 && w == 0 { NoBits(j); }
    else if j > 0 { BitOfOr(v / 2, w / 2, j - 1); }
  }

  lemma {:induction false} BitOfAndNot(v: nat, w: nat, j: nat)
    ensures Bit(AndNot(v, w), j) <==> Bit(v, j) && !Bit(w, j)
  {
    if v == 0 { NoBits(j); }
    else if j > 0 { BitOfAndNot(v / 2, w / 2, j - 1); }
  }

  /** The mask `(1UL << b) - 1` has exactly the bits below `b`. */
  lemma {:induction false} BitOfLow(b: nat, j: nat)
    ensures One(b) >= 1 && (Bit(One(b) - 1, j) <==> j < b)
  {
    if b == 0 { NoBits(j); }
    else {
      BitOfLow(b - 1, if j == 0 then 0 else j - 1);
      assert (One(b) - 1) / 2 == One(b - 1) - 1;
    }
  }
}
