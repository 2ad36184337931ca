/**
  * The pool's Merkle tree as mathematics: the leaves padded with 0 on the right,
  * hashed pairwise. The pair hash is a parameter, so nothing here depends on MiMC.
  * No two-to-one hash over a finite field is injective; soundness is therefore stated
  * by computing an explicit colliding pair whenever a claim about the tree fails.
  */
module Merkle {
  import opened Bits
  import opened Results

  type PairHash = (int, int) -> int

  function Leaf(leaves: seq<int>, j: nat): int {
    if j < |leaves| then leaves[j] else 0
  }

  /** Node `j` of level `l`, counting levels from the leaves. */
  function Node(h: PairHash, leaves: seq<int>, l: nat, j: nat): int {
    if l == 0 then Leaf(leaves, j)
    else h(Node(h, leaves, l - 1, 2 * j), Node(h, leaves, l - 1, 2 * j + 1))
  }

  function Root(h: PairHash, leaves: seq<int>, depth: nat): int {
    Node(h, leaves, depth, 0)
  }

  /** Hash of the all-zero subtree of height `l`. */
  function Zero(h: PairHash, l: nat): int {
    if l == 0 then 0 else h(Zero(h, l - 1), Zero(h, l - 1))
  }

  /** Which way round: three leaves are padded with one zero and hashed left to right. */
  lemma ThreeLeaves(h: PairHash, a: int, b: int, c: int)
    ensures Root(h, [a, b, c], 2) == h(h(a, b), h(c, 0))
  {
    var xs := [a, b, c];
    assert Node(h, xs, 2, 0) == h(Node(h, xs, 1, 0), Node(h, xs, 1, 1));
    assert Node(h, xs, 1, 0) == h(a, b) && Node(h, xs, 1, 1) == h(c, 0);
  }

  // ---- How appending a leaf changes nodes ----

  /** Appending a leaf changes only the nodes above it. */
  lemma {:induction false} AppendFrame(h: PairHash, leaves: seq<int>, x: int, l: nat, j: nat)
    requires Shift(|leaves|, l) != j
    ensures Node(h, leaves + [x], l, j) == Node(h, leaves, l, j)
  {
    if l > 0 {
      AppendFrame(h, leaves, x, l - 1, 2 * j);
      AppendFrame(h, leaves, x, l - 1, 2 * j + 1);
    }
  }

  /** Every node to the right of the last leaf's ancestor is an all-zero subtree. */
  lemma {:induction false} BeyondLast(h: PairHash, leaves: seq<int>, l: nat, j: nat)
    requires |leaves| > 0 ==> j > Shift(|leaves| - 1, l)
    ensures Node(h, leaves, l, j) == Zero(h, l)
  {
    if l > 0 {
      BeyondLast(h, leaves, l - 1, 2 * j);
      BeyondLast(h, leaves, l - 1, 2 * j + 1);
    }
  }

  /** Before any leaf the recomputed root is the zero-subtree hash. */
  lemma EmptyRoot(h: PairHash, depth: nat)
    ensures Root(h, [], depth) == Zero(h, depth)
  {
    BeyondLast(h, [], depth, 0);
  }

  // ---- Authentication paths ----

  /** One step up: the flag says whether the current node is the right child. */
  function Mux(cur: int, sibling: int, isRight: bool): (int, int) {
    if isRight then (sibling, cur) else (cur, sibling)
  }

  function HashPair(h: PairHash, p: (int, int)): int {
    h(p.0, p.1)
  }

  /** The root a leaf and a path lead to, as the withdraw circuit computes it. */
  function Fold(h: PairHash, leaf: int, elements: seq<int>, rights: seq<bool>): int
    requires |elements| == |rights|
  {
    if elements == [] then leaf
    else
      var n := |elements| - 1;
      HashPair(h, Mux(Fold(h, leaf, elements[..n], rights[..n]), elements[n], rights[n]))
  }

  function PathElements(h: PairHash, leaves: seq<int>, index: nat, depth: nat): (p: seq<int>)
    ensures |p| == depth
  {
    if depth == 0 then []
    else PathElements(h, leaves, index, depth - 1) + [Node(h, leaves, depth - 1, Sibling(Shift(index, depth - 1)))]
  }

  function PathRights(index: nat, depth: nat): (p: seq<bool>)
    ensures |p| == depth
  {
    if depth == 0 then [] else PathRights(index, depth - 1) + [IsRight(Shift(index, depth - 1))]
  }

  /** A node and its sibling, put in order, are the two children of their parent. */
  lemma Children(h: PairHash, leaves: seq<int>, l: nat, i: nat)
    ensures HashPair(h, Mux(Node(h, leaves, l, i), Node(h, leaves, l, Sibling(i)), IsRight(i)))
         == Node(h, leaves, l + 1, Parent(i))
  {
    if IsRight(i) {
      assert i - 1 == 2 * Parent(i);
    } else {
      assert i == 2 * Parent(i);
    }
  }

  /** Which way round on a path: the sibling goes to the right of a left child and to the left of a right one. */
  lemma FoldOnce(h: PairHash, leaf: int, sibling: int, right: bool)
    ensures Fold(h, leaf, [sibling], [right]) == if right then h(sibling, leaf) else h(leaf, sibling)
  {
  }

  /** Completeness: the tree's own path for any position folds to the ancestor node. */
  lemma {:induction false} PathFolds(h: PairHash, leaves: seq<int>, index: nat, depth: nat)
    ensures Fold(h, Leaf(leaves, index), PathElements(h, leaves, index, depth), PathRights(index, depth))
         == Node(h, leaves, depth, Shift(index, depth))
  {
    if depth > 0 {
      var n := depth - 1;
      PathFolds(h, leaves, index, n);
      assert PathElements(h, leaves, index, depth)[..n] == PathElements(h, leaves, index, n);
      assert PathRights(index, depth)[..n] == PathRights(index, n);
      Children(h, leaves, n, Shift(index, n));
    }
  }

  function Child(j: nat, isRight: bool): nat {
    2 * j + if isRight then 1 else 0
  }

  /** The leaf position that the flags of a path walk down to from node `j`. */
  function Position(j: nat, rights: seq<bool>): nat
    decreases |rights|
  {
    if rights == [] then j
    else
      var n := |rights| - 1;
      Position(Child(j, rights[n]), rights[..n])
  }

  lemma {:induction false} PositionPath(j: nat, rights: seq<bool>)
    ensures Shift(Position(j, rights), |rights|) == j
    ensures PathRights(Position(j, rights), |rights|) == rights
    decreases |rights|
  {
    if rights != [] {
      var n := |rights| - 1;
      var child := Child(j, rights[n]);
      assert Position(j, rights) == Position(child, rights[..n]);
      hide *;
      PositionPath(child, rights[..n]);
      BelowChild(Position(child, rights[..n]), n, j, rights[n]);
      assert rights == rights[..n] + [rights[n]];
    }
  }

  lemma BelowChild(p: nat, n: nat, j: nat, isRight: bool)
    requires Shift(p, n) == Child(j, isRight)
    ensures Shift(p, n + 1) == j && PathRights(p, n + 1) == PathRights(p, n) + [isRight]
  {
    assert Shift(p, n + 1) == Parent(Shift(p, n));
    ChildOf(j, isRight);
    hide Shift, Parent, IsRight, Child;
  }

  lemma ChildOf(j: nat, isRight: bool)
    ensures Parent(Child(j, isRight)) == j && IsRight(Child(j, isRight)) == isRight
  {
  }

  /** Two different inputs of the pair hash. */
  datatype Collision = Collision(a: (int, int), b: (int, int))

  predicate IsCollision(h: PairHash, c: Collision) {
    c.a != c.b && HashPair(h, c.a) == HashPair(h, c.b)
  }

  /** The two children of node `j` of level `l + 1`. */
  function Pair(h: PairHash, leaves: seq<int>, l: nat, j: nat): (int, int) {
    (Node(h, leaves, l, 2 * j), Node(h, leaves, l, 2 * j + 1))
  }

  /** Walk down from node `j`, comparing the path's pairs with the tree's: the first pair that differs. */
  function PathMismatch(h: PairHash, leaves: seq<int>, j: nat, leaf: int, elements: seq<int>,
                        rights: seq<bool>): Option<Collision>
    requires |elements| == |rights|
    decreases |elements|
  {
    if elements == [] then None
    else
      var n := |elements| - 1;
      var claimed := Mux(Fold(h, leaf, elements[..n], rights[..n]), elements[n], rights[n]);
      if claimed != Pair(h, leaves, n, j) then Some(Collision(claimed, Pair(h, leaves, n, j)))
      else PathMismatch(h, leaves, Child(j, rights[n]), leaf, elements[..n], rights[..n])
  }

  /** The leaf and path really found at position `i`. */
  predicate IsPathAt(h: PairHash, leaves: seq<int>, i: nat, leaf: int, elements: seq<int>, rights: seq<bool>)
    requires |elements| == |rights|
  {
    && leaf == Leaf(leaves, i)
    && elements == PathElements(h, leaves, i, |rights|)
    && rights == PathRights(i, |rights|)
  }

  lemma ExtendPath(h: PairHash, leaves: seq<int>, i: nat, leaf: int, elements: seq<int>, rights: seq<bool>)
    requires |elements| == |rights| > 0
    requires var n := |rights| - 1;
             && IsPathAt(h, leaves, i, leaf, elements[..n], rights[..n])
             && elements[n] == Node(h, leaves, n, Sibling(Shift(i, n)))
             && rights[n] == IsRight(Shift(i, n))
    ensures IsPathAt(h, leaves, i, leaf, elements, rights)
  {
    var n := |rights| - 1;
    assert elements == elements[..n] + [elements[n]];
    assert rights == rights[..n] + [rights[n]];
  }

  /**
    * Soundness: a leaf and path that fold to a node of the tree either are the leaf and
    * the path actually there, or yield a concrete collision of the pair hash.
    */
  lemma {:induction false} PathSound(h: PairHash, leaves: seq<int>, j: nat, leaf: int, elements: seq<int>,
                                     rights: seq<bool>)
    requires |elements| == |rights|
    requires Fold(h, leaf, elements, rights) == Node(h, leaves, |rights|, j)
    ensures match PathMismatch(h, leaves, j, leaf, elements, rights)
            case Some(c) => IsCollision(h, c)
            case None => IsPathAt(h, leaves, Position(j, rights), leaf, elements, rights)
    decreases |rights|
  {
    if rights != [] {
      var n := |rights| - 1;
      var child := Child(j, rights[n]);
      var folded := Fold(h, leaf, elements[..n], rights[..n]);
      var claimed := Mux(folded, elements[n], rights[n]);
      assert HashPair(h, claimed) == HashPair(h, Pair(h, leaves, n, j));
      assert Position(j, rights) == Position(child, rights[..n]);
      hide Node, Shift, PathElements, PathRights, Position, IsRight;
      hide Sibling, Fold, HashPair, Child, Mux, Pair, IsPathAt;
      if claimed == Pair(h, leaves, n, j) {
        MuxIsPair(h, leaves, n, j, folded, elements[n], rights[n]);
        PathSound(h, leaves, child, leaf, elements[..n], rights[..n]);
        PositionPath(child, rights[..n]);
        if PathMismatch(h, leaves, child, leaf, elements[..n], rights[..n]).None? {
          ExtendPath(h, leaves, Position(child, rights[..n]), leaf, elements, rights);
        }
      }
    }
  }

  /** A pair put in order by a flag and equal to a node's children: which child is which. */
  lemma MuxIsPair(h: PairHash, leaves: seq<int>, l: nat, j: nat, cur: int, sibling: int, isRight: bool)
    requires Mux(cur, sibling, isRight) == Pair(h, leaves, l, j)
    ensures cur == Node(h, leaves, l, Child(j, isRight))
    ensures sibling == Node(h, leaves, l, Sibling(Child(j, isRight))) && IsRight(Child(j, isRight)) == isRight
  {
  }

  predicate CollisionInField(r: nat, c: Collision) {
    0 <= c.a.0 < r && 0 <= c.a.1 < r && 0 <= c.b.0 < r && 0 <= c.b.1 < r
  }

  /** A hash into the numbers below `r`. */
  ghost predicate HashesBelow(h: PairHash, r: nat) {
    forall a, b :: 0 <= h(a, b) < r
  }

  lemma {:induction false} NodeBelow(h: PairHash, r: nat, leaves: seq<int>, l: nat, j: nat)
    requires HashesBelow(h, r) && r > 0 && forall x <- leaves :: 0 <= x < r
    ensures 0 <= Node(h, leaves, l, j) < r
  {
    assert l == 0 && j < |leaves| ==> leaves[j] in leaves;
  }

  lemma FoldBelow(h: PairHash, r: nat, leaf: int, elements: seq<int>, rights: seq<bool>)
    requires HashesBelow(h, r) && 0 <= leaf < r && |elements| == |rights|
    ensures 0 <= Fold(h, leaf, elements, rights) < r
  {
  }

  /** With leaves and path elements below `r`, so is the colliding pair found. */
  lemma {:induction false} MismatchInField(h: PairHash, r: nat, leaves: seq<int>, j: nat, leaf: int,
                                           elements: seq<int>, rights: seq<bool>)
    requires HashesBelow(h, r) && 0 <= leaf < r && |elements| == |rights|
    requires (forall x <- leaves :: 0 <= x < r) && (forall x <- elements :: 0 <= x < r)
    ensures var m := PathMismatch(h, leaves, j, leaf, elements, rights); m.Some? ==> CollisionInField(r, m.value)
    decreases |elements|
  {
    if elements != [] {
      var n := |elements| - 1;
      assert elements[n] in elements && forall x <- elements[..n] :: x in elements;
      FoldBelow(h, r, leaf, elements[..n], rights[..n]);
      NodeBelow(h, r, leaves, n, 2 * j);
      NodeBelow(h, r, leaves, n, 2 * j + 1);
      hide Fold, Node;
      MismatchInField(h, r, leaves, Child(j, rights[n]), leaf, elements[..n], rights[..n]);
    }
  }

  /** Walk two trees down from node `j` of level `l`: the first pair of children that differs. */
  function TreeMismatch(h: PairHash, xs: seq<int>, ys: seq<int>, l: nat, j: nat): Option<Collision> {
    if l == 0 then None
    else
      var a, b := Pair(h, xs, l - 1, j), Pair(h, ys, l - 1, j);
      if a != b then Some(Collision(a, b))
      else match TreeMismatch(h, xs, ys, l - 1, 2 * j)
           case Some(c) => Some(c)
           case None => TreeMismatch(h, xs, ys, l - 1, 2 * j + 1)
  }

  /** Binding: equal nodes cover equal padded leaves, or yield a concrete collision. */
  lemma {:induction false} NodeBinds(h: PairHash, xs: seq<int>, ys: seq<int>, l: nat, j: nat)
    requires Node(h, xs, l, j) == Node(h, ys, l, j)
    ensures match TreeMismatch(h, xs, ys, l, j)
            case Some(c) => IsCollision(h, c)
            case None => forall i: nat | Shift(i, l) == j :: Leaf(xs, i) == Leaf(ys, i)
  {
    if l > 0 {
      var a, b := Pair(h, xs, l - 1, j), Pair(h, ys, l - 1, j);
      assert HashPair(h, a) == HashPair(h, b);
      if a == b {
        NodeBinds(h, xs, ys, l - 1, 2 * j);
        NodeBinds(h, xs, ys, l - 1, 2 * j + 1);
        assert forall i: nat :: Shift(i, l) == Shift(i, l - 1) / 2;
      }
    }
  }

  /** Equal roots mean equal padded leaf lists, or a concrete collision. */
  lemma RootBinds(h: PairHash, xs: seq<int>, ys: seq<int>, depth: nat)
    requires Root(h, xs, depth) == Root(h, ys, depth)
    ensures match TreeMismatch(h, xs, ys, depth, 0)
            case Some(c) => IsCollision(h, c)
            case None => forall i: nat | i < Pow2(depth) ::
              (if i < |xs| then xs[i] else 0) == (if i < |ys| then ys[i] else 0)
  {
    NodeBinds(h, xs, ys, depth, 0);
    if TreeMismatch(h, xs, ys, depth, 0).None? {
      forall i: nat | i < Pow2(depth) ensures Leaf(xs, i) == Leaf(ys, i) {
        ShiftToRoot(i, depth);
      }
      assert forall i: nat :: Leaf(xs, i) == if i < |xs| then xs[i] else 0;
      assert forall i: nat :: Leaf(ys, i) == if i < |ys| then ys[i] else 0;
    }
  }

  // ---- Replacing one hash implementation by another ----

  /** Two hashes that agree on residues below `r`, and return residues, build the same tree. */
  ghost predicate AgreeBelow(h: PairHash, g: PairHash, r: nat) {
    forall a, b | 0 <= a < r && 0 <= b < r :: h(a, b) == g(a, b) && 0 <= h(a, b) < r
  }

  lemma {:induction false} SameTree(h: PairHash, g: PairHash, r: nat, leaves: seq<int>, l: nat, j: nat)
    requires r > 0 && AgreeBelow(h, g, r)
    requires forall x <- leaves :: 0 <= x < r
    ensures 0 <= Node(h, leaves, l, j) < r
    ensures Node(h, leaves, l, j) == Node(g, leaves, l, j)
  {
    if l == 0 {
      assert j < |leaves| ==> leaves[j] in leaves;
    } else {
      SameTree(h, g, r, leaves, l - 1, 2 * j);
      SameTree(h, g, r, leaves, l - 1, 2 * j + 1);
      var a, b := Node(h, leaves, l - 1, 2 * j), Node(h, leaves, l - 1, 2 * j + 1);
      assert h(a, b) == g(a, b) && 0 <= h(a, b) < r;
    }
  }
}
