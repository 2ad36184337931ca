/**
  * The off-chain mirror class: it recomputes the whole padded tree on every query.
  * Its capacity is JavaScript's `1 << depth`, a signed 32-bit shift whose count wraps
  * at 32, so the class can only serve depths up to 30; within them it is the tree of `Merkle`.
  */
module PoolTree {
  import opened Bits
  import opened Field
  import opened Results
  import opened Merkle

  datatype TreeError =
    | Full      // "full"
    | NoLeaf    // "no leaf at index"
    | Undefined // an array is read past its end

  /** `1 << depth` in JavaScript. */
  function JsShiftOne(depth: nat): int {
    if depth % 32 == 31 then -0x8000_0000 else Pow2(depth % 32)
  }

  /** It is 2^depth as a signed 32-bit number, and the count of the shift wraps at 32. */
  lemma ShiftWraps(depth: nat)
    ensures JsShiftOne(depth + 32) == JsShiftOne(depth)
    ensures depth < 31 ==> JsShiftOne(depth) == Pow2(depth)
    ensures JsShiftOne(31) == -0x8000_0000
  {
    assert (depth + 32) % 32 == depth % 32;
    assert depth < 31 ==> depth % 32 == depth;
  }

  /** The capacity is the number of leaves of a tree of that depth exactly up to depth 30. */
  lemma CapacityExact(depth: nat)
    ensures JsShiftOne(depth) == Pow2(depth) <==> depth <= 30
  {
    var k := depth % 32;
    assert k <= 31 && (depth <= 31 ==> k == depth) && (depth >= 32 ==> k < depth);
    assert JsShiftOne(depth) == if k == 31 then -0x8000_0000 else Pow2(k);
    hide *;
    if depth >= 32 {
      Pow2Strict(k, depth);
    }
  }

  lemma {:induction false} Pow2Strict(a: nat, b: nat)
    requires a < b
    ensures Pow2(a) < Pow2(b)
  {
    if a < b - 1 {
      Pow2Strict(a, b - 1);
    }
  }

  /** The size of level `l` of the node table the class computes at this depth. */
  function LevelSize(depth: nat, l: nat): nat {
    if depth % 32 == 31 || l > depth % 32 then 0 else Pow2(depth % 32 - l)
  }

  /** The lowest row has as many nodes as the capacity, none if that is negative. */
  lemma LowestRow(depth: nat)
    ensures LevelSize(depth, 0) == if JsShiftOne(depth) < 0 then 0 else JsShiftOne(depth)
  {
  }

  /** A row of the node table holds the tree's own nodes of level `l`. */
  ghost predicate IsRow(h: PairHash, leaves: seq<int>, l: nat, row: seq<int>) {
    forall j: nat | j < |row| :: row[j] == Node(h, leaves, l, j)
  }

  /** A complete node table: every level in full. */
  ghost predicate IsTable(h: PairHash, leaves: seq<int>, depth: nat, levels: seq<seq<int>>) {
    && |levels| == depth + 1
    && forall l: nat | l <= depth :: |levels[l]| == Pow2(depth - l) && IsRow(h, leaves, l, levels[l])
  }

  lemma NextRow(h: PairHash, leaves: seq<int>, l: nat, row: seq<int>, next: seq<int>)
    requires IsRow(h, leaves, l, row) && |row| == 2 * |next|
    requires forall j: nat | j < |next| :: next[j] == h(row[2 * j], row[2 * j + 1])
    ensures IsRow(h, leaves, l + 1, next)
  {
  }

  /** Each row is half the one below; a row of one node is the last that can be computed. */
  lemma LevelSizeHalves(depth: nat, l: nat)
    ensures LevelSize(depth, l) % 2 == 0 ==> LevelSize(depth, l + 1) == LevelSize(depth, l) / 2
    ensures LevelSize(depth, l) % 2 == 0 ==> depth % 32 == 31 || l + 1 <= depth % 32 || l > depth % 32
    ensures l < depth <= 30 ==> LevelSize(depth, l) % 2 == 0
  {
  }

  lemma TableEntry(h: PairHash, leaves: seq<int>, depth: nat, levels: seq<seq<int>>, l: nat, j: nat)
    requires IsTable(h, leaves, depth, levels) && l <= depth && j < Pow2(depth - l)
    ensures l < |levels| && j < |levels[l]| && levels[l][j] == Node(h, leaves, l, j)
  {
  }

  datatype MerklePath = MerklePath(elements: seq<int>, indices: seq<nat>)

  class PoolMerkleTree {
    const r: Modulus
    const h: PairHash
    const depth: nat
    const capacity: int
    var leaves: seq<int>

    ghost predicate Valid()
      reads this
    {
      && capacity == JsShiftOne(depth)
      && |leaves| <= LevelSize(depth, 0)
      && forall x <- leaves :: Residue(r, x)
    }

    constructor (r: Modulus, h: PairHash, depth: nat)
      ensures Valid() && leaves == []
      ensures this.r == r && this.h == h && this.depth == depth
    {
      this.r := r;
      this.h := h;
      this.depth := depth;
      this.capacity := JsShiftOne(depth);
      this.leaves := [];
    }

    method Insert(leaf: int) returns (res: Result<nat, TreeError>)
      requires Valid()
      modifies this
      ensures Valid()
      ensures if |old(leaves)| < LevelSize(depth, 0)
              then leaves == old(leaves) + [leaf % r] && res == Ok(|old(leaves)|)
              else leaves == old(leaves) && res == Err(Full)
    {
      if |leaves| >= capacity {
        return Err(Full);
      }
      leaves := leaves + [ToField(r, leaf)];
      return Ok(|leaves| - 1);
    }

    /** `PoolMerkleTree.from`: insert a list of leaves into a new tree. */
    static method From(r: Modulus, h: PairHash, leaves: seq<int>, depth: nat)
      returns (tree: PoolMerkleTree, e: Option<TreeError>)
      ensures fresh(tree) && tree.Valid() && tree.r == r && tree.h == h && tree.depth == depth
      ensures e == None <==> |leaves| <= LevelSize(depth, 0)
      ensures e == None ==> tree.leaves == seq(|leaves|, i requires 0 <= i < |leaves| => leaves[i] % r)
    {
      tree := new PoolMerkleTree(r, h, depth);
      for n := 0 to |leaves|
        invariant fresh(tree) && tree.Valid() && tree.r == r && tree.h == h && tree.depth == depth
        invariant tree.leaves == seq(n, i requires 0 <= i < n => leaves[i] % r)
      {
        var res := tree.Insert(leaves[n]);
        if res.Err? {
          return tree, Some(res.error);
        }
      }
      return tree, None;
    }

    /** Hash neighbours pairwise; an odd row reads one element past its end. */
    method NextLevel(prev: seq<int>) returns (next: Option<seq<int>>)
      ensures next.Some? <==> |prev| % 2 == 0
      ensures next.Some? ==> |next.value| == |prev| / 2
      ensures next.Some? ==> forall j: nat | j < |next.value| :: next.value[j] == h(prev[2 * j], prev[2 * j + 1])
    {
      var row := [];
      var j := 0;
      while j < |prev|
        invariant j % 2 == 0 && j <= |prev| && |row| == j / 2
        invariant forall k: nat | k < |row| :: 2 * k + 1 < |prev| && row[k] == h(prev[2 * k], prev[2 * k + 1])
      {
        if j + 1 >= |prev| {
          return None;
        }
        row := row + [h(prev[j], prev[j + 1])];
        j := j + 2;
      }
      return Some(row);
    }

    method Levels() returns (levels: Option<seq<seq<int>>>)
      requires Valid()
      ensures depth <= 30 ==> levels.Some? && IsTable(h, leaves, depth, levels.value)
      ensures depth > 30 && levels.Some? ==> |levels.value| == depth + 1 && levels.value[depth] == [] && leaves == []
    {
      hide Pow2;
      var level0 := leaves;
      while |level0| < capacity
        invariant |leaves| <= |level0| <= LevelSize(depth, 0)
        invariant IsRow(h, leaves, 0, level0)
      {
        level0 := level0 + [0];
      }
      var table := [level0];
      for l := 0 to depth
        invariant |table| == l + 1
        invariant depth % 32 == 31 || l <= depth % 32
        invariant forall k: nat | k <= l :: |table[k]| == LevelSize(depth, k) && IsRow(h, leaves, k, table[k])
      {
        LevelSizeHalves(depth, l);
        hide Node, LevelSize, IsRow;
        var next := NextLevel(table[l]);
        if next.None? {
          return None;
        }
        NextRow(h, leaves, l, table[l], next.value);
        table := table + [next.value];
      }
      return Some(table);
    }

    /** The root: defined exactly up to depth 30, and then the tree's root. */
    method Root() returns (root: Option<int>)
      requires Valid()
      ensures root.Some? <==> depth <= 30
      ensures root.Some? ==> root.value == Merkle.Root(h, leaves, depth)
    {
      var levels := Levels();
      if levels.None? || |levels.value[depth]| == 0 {
        return None;
      }
      return Some(levels.value[depth][0]);
    }

    method BuildPath(index: int) returns (path: Result<MerklePath, TreeError>)
      requires Valid()
      ensures !(0 <= index < |leaves|) ==> path == Err(NoLeaf)
      ensures 0 <= index < |leaves| ==> (path.Ok? <==> depth <= 30)
      ensures path.Ok? ==> path.value.elements == PathElements(h, leaves, index, depth)
      ensures path.Ok? ==> path.value.indices == BitsOf(PathRights(index, depth))
    {
      hide Pow2, LevelSize, JsShiftOne;
      if index < 0 || index >= |leaves| {
        return Err(NoLeaf);
      }
      var levels := Levels();
      if levels.None? {
        return Err(Undefined);
      }
      var table := levels.value;
      var elements, indices := [], [];
      var idx: nat := index;
      PathStart(h, leaves, index, depth);
      hide *;
      for l := 0 to depth
        invariant depth <= 30 && idx == Shift(index, l) && idx < Pow2(depth - l)
        invariant elements == PathElements(h, leaves, index, l)
        invariant indices == BitsOf(PathRights(index, l))
      {
        NodeInRow(idx, depth - l);
        PathSnoc(h, leaves, index, l);
        var isRight := if IsRight(idx) then 1 else 0;
        var sibling := Sibling(idx);
        TableEntry(h, leaves, depth, table, l, sibling);
        elements := elements + [table[l][sibling]];
        indices := indices + [isRight];
        idx := Parent(idx);
      }
      return Ok(MerklePath(elements, indices));
    }
  }

  /** A node of a row of `2^k` nodes has its sibling in the row and its parent in the row above. */
  lemma NodeInRow(idx: nat, k: nat)
    requires k > 0 && idx < Pow2(k)
    ensures Sibling(idx) < Pow2(k) && Parent(idx) < Pow2(k - 1)
  {
  }

  lemma PathStart(h: PairHash, leaves: seq<int>, index: nat, depth: nat)
    requires index < |leaves| <= LevelSize(depth, 0)
    ensures Shift(index, 0) == index && PathElements(h, leaves, index, 0) == [] && BitsOf(PathRights(index, 0)) == []
    ensures depth <= 30 ==> index < Pow2(depth)
  {
    hide Pow2;
  }

  /** One level of a path: the sibling and the direction at that level come last. */
  lemma PathSnoc(h: PairHash, leaves: seq<int>, index: nat, l: nat)
    ensures Shift(index, l + 1) == Parent(Shift(index, l))
    ensures PathElements(h, leaves, index, l + 1)
         == PathElements(h, leaves, index, l) + [Node(h, leaves, l, Sibling(Shift(index, l)))]
    ensures BitsOf(PathRights(index, l + 1))
         == BitsOf(PathRights(index, l)) + [if IsRight(Shift(index, l)) then 1 else 0]
  {
    assert PathRights(index, l + 1) == PathRights(index, l) + [IsRight(Shift(index, l))];
  }

  /** The 0/1 direction list the circuit reads. */
  function BitsOf(rights: seq<bool>): seq<nat> {
    seq(|rights|, i requires 0 <= i < |rights| => if rights[i] then 1 else 0)
  }

  /** The path the class returns folds to the root it reports, for every leaf of every tree. */
  lemma BuiltPathFolds(h: PairHash, leaves: seq<int>, index: nat, depth: nat)
    requires index < |leaves| <= Pow2(depth)
    ensures Fold(h, leaves[index], PathElements(h, leaves, index, depth), PathRights(index, depth))
         == Merkle.Root(h, leaves, depth)
  {
    PathFolds(h, leaves, index, depth);
    ShiftToRoot(index, depth);
  }
}
