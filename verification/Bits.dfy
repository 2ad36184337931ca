/** Powers of two and right shifts, as the tree code uses them. */
module Bits {

  function Pow2(n: nat): (p: nat)
    ensures p >= 1
  {
    if n == 0 then 1 else 2 * Pow2(n - 1)
  }

  /** Whether node `i` of a level is a right child: its lowest bit. */
  predicate IsRight(i: nat) {
    i % 2 == 1
  }

  function Parent(i: nat): nat {
    i / 2
  }

  function Sibling(i: nat): nat {
    if IsRight(i) then i - 1 else i + 1
  }

  /** `i >> l`, one bit at a time: the index, at level `l`, of the node above leaf `i`. */
  function Shift(i: nat, l: nat): nat {
    if l == 0 then i else Parent(Shift(i, l - 1))
  }

  lemma {:induction false} ShiftBelow(i: nat, l: nat, k: nat)
    requires i < Pow2(l) * k
    ensures Shift(i, l) < k
  {
    if l > 0 {
      assert Pow2(l) * k == Pow2(l - 1) * (2 * k);
      ShiftBelow(i, l - 1, 2 * k);
    }
  }

  /** A leaf index that fits a tree of depth `d` lies under its single top node. */
  lemma ShiftToRoot(i: nat, d: nat)
    requires i < Pow2(d)
    ensures Shift(i, d) == 0
  {
    ShiftBelow(i, d, 1);
  }

  /**
    * The next leaf's ancestor is the same node or the one right after it; if it is a right
    * child, then its left sibling is this leaf's ancestor, or this leaf has the same sibling.
    */
  lemma {:induction false} ShiftSucc(i: nat, l: nat)
    ensures Shift(i + 1, l) == Shift(i, l) || Shift(i + 1, l) == Shift(i, l) + 1
    ensures IsRight(Shift(i + 1, l)) ==>
              Sibling(Shift(i + 1, l)) == if IsRight(Shift(i, l)) then Sibling(Shift(i, l)) else Shift(i, l)
  {
    if l > 0 {
      ShiftSucc(i, l - 1);
    }
  }

  lemma {:induction false} Pow2Monotone(a: nat, b: nat)
    requires a <= b
    ensures Pow2(a) <= Pow2(b)
    decreases b
  {
    if a < b {
      Pow2Monotone(a, b - 1);
    }
  }

  lemma {:induction false} Pow2Exceeds(n: nat)
    ensures n < Pow2(n)
  {
    if n > 0 {
      Pow2Exceeds(n - 1);
    }
  }
}
