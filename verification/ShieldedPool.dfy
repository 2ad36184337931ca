/**
  * The Soroban contract: storage keys set in place, one hash per level for an insert,
  * and a 30-slot ring of roots. Every method is proved equal to its `PoolModel` function.
  */
module ShieldedPool {
  import opened Bits
  import opened Field
  import opened Results
  import opened Merkle
  import opened PoolModel

  /** The ring slot `s` holds the root after this many deposits, if that is positive. */
  function SlotInsert(n: nat, s: nat): (k: int)
    ensures n - ROOT_HISTORY < k <= n
  {
    n - (n - s) % ROOT_HISTORY
  }

  class Contract {
    const r: Modulus
    const h: PairHash
    var initialized: bool          // DataKey::Token is set
    var depth: nat                 // DataKey::Depth
    var nextIndex: nat             // DataKey::NextIndex
    var rootIdx: nat               // DataKey::RootIdx
    var roots: map<nat, int>       // DataKey::Root(i)
    var filled: map<nat, int>      // DataKey::FilledSubtree(i)
    var zero: map<nat, int>        // DataKey::Zero(i)
    var nullifiers: set<nat>       // DataKey::Nullifier(h)
    var custody: nat               // the token contract's balance for this contract
    ghost var leaves: seq<int>     // every leaf inserted so far

    ghost function View(): Pool
      reads this
    {
      Pool(initialized, depth, leaves, nullifiers, custody)
    }

    /** The left sibling that the next insert will read at level `l`, if it reads one, is stored. */
    static ghost predicate FilledAt(h: PairHash, filled: map<nat, int>, leaves: seq<int>, l: nat) {
      IsRight(Shift(|leaves|, l)) ==>
        l in filled && filled[l] == Node(h, leaves, l, Sibling(Shift(|leaves|, l)))
    }

    static ghost predicate FilledRange(h: PairHash, filled: map<nat, int>, leaves: seq<int>, lo: nat, hi: nat) {
      forall l: nat | lo <= l < hi :: FilledAt(h, filled, leaves, l)
    }

    static ghost predicate ZerosOk(h: PairHash, zero: map<nat, int>, depth: nat) {
      forall l: nat | l < depth :: l in zero && zero[l] == Zero(h, l)
    }

    static ghost predicate RingOk(h: PairHash, roots: map<nat, int>, p: Pool) {
      forall s: nat ::
        && (s in roots <==> s < ROOT_HISTORY && SlotInsert(|p.leaves|, s) > 0)
        && (s in roots ==> roots[s] == RootAfter(h, p, SlotInsert(|p.leaves|, s)))
    }

    ghost predicate Valid()
      reads this
    {
      && WellFormed(r, View())
      && nextIndex == |leaves|
      && rootIdx == nextIndex % ROOT_HISTORY
      && (initialized ==> ZerosOk(h, zero, depth))
      && FilledRange(h, filled, leaves, 0, depth)
      && RingOk(h, roots, View())
    }

    /** An empty contract instance, before `initialize`. */
    constructor (r: Modulus, h: PairHash, balance: nat)
      ensures Valid()
      ensures View() == Pool(false, 0, [], {}, balance)
      ensures this.r == r && this.h == h
    {
      this.r := r;
      this.h := h;
      initialized, depth, nextIndex, rootIdx := false, 0, 0, 0;
      roots, filled, zero, nullifiers := map[], map[], map[], {};
      custody := balance;
      leaves := [];
    }

    method PrecomputeZeros(depth: nat)
      modifies this`zero
      ensures ZerosOk(h, zero, depth)
    {
      var z := 0;
      for i := 0 to depth
        invariant z == Zero(h, i)
        invariant ZerosOk(h, zero, i)
      {
        zero := zero[i := z];
        z := h(z, z);
      }
    }

    method Initialize(depth: nat) returns (e: Option<Error>)
      requires Valid()
      modifies this
      ensures Valid()
      ensures match InitializePool(old(View()), depth)
              case Ok(p) => e == None && View() == p
              case Err(x) => e == Some(x) && View() == old(View())
    {
      if initialized {
        return Some(AlreadyInitialized);
      }
      initialized := true;
      this.depth := depth;
      nextIndex := 0;
      rootIdx := 0;
      PrecomputeZeros(depth);
      EmptyStorage(h, roots, filled, old(View()), View(), depth);
      return None;
    }

    /** With no leaves, no ring slot is set and no filled node is needed, whatever the depth. */
    static lemma EmptyStorage(h: PairHash, roots: map<nat, int>, filled: map<nat, int>, p: Pool, p': Pool, depth: nat)
      requires p.leaves == p'.leaves == [] && RingOk(h, roots, p)
      ensures RingOk(h, roots, p')
      ensures FilledRange(h, filled, [], 0, depth)
    {
      forall l: nat ensures Shift(0, l) == 0 {
        Pow2Exceeds(l);
        ShiftToRoot(0, l);
      }
    }

    /** The slots hold exactly the recent roots. */
    static lemma RecentIffStored(h: PairHash, roots: map<nat, int>, p: Pool, root: int)
      requires RingOk(h, roots, p)
      ensures root in RecentRoots(h, p) <==> exists s: nat | s < ROOT_HISTORY && s in roots :: roots[s] == root
    {
      hide Root, Pow2, SlotInsert, RecentRoots;
      if s: nat :| s < ROOT_HISTORY && s in roots && roots[s] == root {
        RecentAt(h, p, SlotInsert(|p.leaves|, s));
      }
      if root in RecentRoots(h, p) {
        var i :| 0 <= i < |RecentRoots(h, p)| && RecentRoots(h, p)[i] == root;
        StoredAt(h, roots, p, i);
      }
    }

    /** The root after `k` deposits is known while fewer than 30 deposits followed. */
    static lemma RecentAt(h: PairHash, p: Pool, k: nat)
      requires 0 < k <= |p.leaves| < k + ROOT_HISTORY
      ensures RootAfter(h, p, k) in RecentRoots(h, p)
    {
      hide Root;
      assert RecentRoots(h, p)[|p.leaves| - k] == RootAfter(h, p, k);
    }

    /** The slot last written holds the current root, and nothing before the first deposit. */
    static lemma CurrentSlot(h: PairHash, roots: map<nat, int>, p: Pool)
      requires RingOk(h, roots, p)
      ensures var slot := |p.leaves| % ROOT_HISTORY;
              && (slot in roots <==> p.leaves != [])
              && (slot in roots ==> roots[slot] == Root(h, p.leaves, p.depth))
    {
      hide Root;
      assert SlotInsert(|p.leaves|, |p.leaves| % ROOT_HISTORY) == |p.leaves|;
      assert p.leaves[..|p.leaves|] == p.leaves;
    }

    static lemma StoredAt(h: PairHash, roots: map<nat, int>, p: Pool, i: nat)
      requires RingOk(h, roots, p) && i < |RecentRoots(h, p)|
      ensures var s := (|p.leaves| - i) % ROOT_HISTORY;
              s in roots && roots[s] == RecentRoots(h, p)[i]
    {
      SlotOfRecent(|p.leaves|, i);
      hide Root, SlotInsert;
      assert RecentRoots(h, p)[i] == RootAfter(h, p, |p.leaves| - i);
    }

    /** The root `i` deposits old is in the slot its own deposit wrote. */
    static lemma SlotOfRecent(n: nat, i: nat)
      requires i < n && i < ROOT_HISTORY
      ensures SlotInsert(n, (n - i) % ROOT_HISTORY) == n - i
    {
      assert (n - (n - i) % ROOT_HISTORY) % ROOT_HISTORY == i;
    }

    method IsKnownRoot(root: int) returns (known: bool)
      requires Valid()
      ensures known <==> root in RecentRoots(h, View())
    {
      RecentIffStored(h, roots, View(), root);
      for i := 0 to ROOT_HISTORY
        invariant forall s: nat | s < i && s in roots :: roots[s] != root
      {
        if i in roots && roots[i] == root {
          return true;
        }
      }
      return false;
    }

    method GetRoot() returns (root: int)
      requires Valid()
      ensures root == if leaves == [] then 0 else Root(h, leaves, depth)
    {
      CurrentSlot(h, roots, View());
      assert nextIndex == |leaves| && View().leaves == leaves && View().depth == depth;
      hide *;
      root := if rootIdx in roots then roots[rootIdx] else 0;
    }

    /** The sibling of the new leaf's ancestor: unchanged on the left, still empty on the right. */
    static lemma SiblingStep(h: PairHash, before: seq<int>, leaf: int, i: nat)
      ensures var idx := Shift(|before|, i);
              Node(h, before + [leaf], i, Sibling(idx))
              == if IsRight(idx) then Node(h, before, i, Sibling(idx)) else Zero(h, i)
    {
      var idx := Shift(|before|, i);
      if IsRight(idx) {
        AppendFrame(h, before, leaf, i, Sibling(idx));
      } else {
        BeyondLast(h, before + [leaf], i, Sibling(idx));
      }
    }

    /** After the climb passes a level, that level stores what the following insert will read. */
    static lemma FilledStep(h: PairHash, filled: map<nat, int>, before: seq<int>, leaf: int, i: nat)
      requires FilledAt(h, filled, before, i)
      ensures var grown, idx := before + [leaf], Shift(|before|, i);
              FilledAt(h, if IsRight(idx) then filled else filled[i := Node(h, grown, i, idx)], grown, i)
    {
      hide Node, Shift, IsRight, Sibling, Zero;
      ShiftSucc(|before|, i);
      SiblingStep(h, before, leaf, i);
    }

    /** The loop of `insert`: hash along one path, storing each left node passed. */
    method Climb(leaf: int) returns (cur: int)
      requires ZerosOk(h, zero, depth)
      requires FilledRange(h, filled, leaves, 0, depth)
      requires nextIndex == |leaves|
      modifies this`filled
      ensures cur == Node(h, leaves + [leaf], depth, Shift(nextIndex, depth))
      ensures FilledRange(h, filled, leaves + [leaf], 0, depth)
    {
      var idx := nextIndex;
      cur := leaf;
      ghost var grown := leaves + [leaf];
      assert Shift(idx, 0) == idx && Node(h, grown, 0, idx) == leaf;
      for i := 0 to depth
        invariant idx == Shift(nextIndex, i) && cur == Node(h, grown, i, idx)
        invariant FilledRange(h, filled, grown, 0, i)
        invariant FilledRange(h, filled, leaves, i, depth)
      {
        ghost var was := filled;
        assert FilledAt(h, filled, leaves, i);
        FilledStep(h, filled, leaves, leaf, i);
        SiblingStep(h, leaves, leaf, i);
        Children(h, grown, i, idx);
        assert Shift(nextIndex, i + 1) == Parent(idx);
        hide Node, Shift, Zero, IsRight, Sibling, Parent;
        var left, right;
        if !IsRight(idx) {
          filled := filled[i := cur];
          left, right := cur, zero[i];
        } else {
          left, right := filled[i], cur;
        }
        FilledElsewhere(h, was, filled, leaves, grown, i, depth, cur);
        cur := h(left, right);
        idx := Parent(idx);
      }
    }

    /** Storing at one level leaves the levels below and above as they were. */
    static lemma FilledElsewhere(h: PairHash, was: map<nat, int>, now: map<nat, int>,
                                 before: seq<int>, grown: seq<int>, i: nat, depth: nat, x: int)
      requires i < depth && (now == was || now == was[i := x])
      requires FilledRange(h, was, grown, 0, i) && FilledAt(h, now, grown, i)
      requires FilledRange(h, was, before, i, depth)
      ensures FilledRange(h, now, grown, 0, i + 1) && FilledRange(h, now, before, i + 1, depth)
    {
      hide Node, Shift, IsRight, Sibling;
      forall l: nat | l < i ensures FilledAt(h, now, grown, l) {
        assert FilledAt(h, was, grown, l);
      }
      forall l: nat | i < l < depth ensures FilledAt(h, now, before, l) {
        assert FilledAt(h, was, before, l);
      }
    }

    /**
      * Incremental insert: only the nodes above the new leaf are hashed. The root is
      * that of the fully recomputed tree, and no unset filled node is ever read.
      */
    method Insert(leaf: int) returns (root: int, index: nat)
      requires Valid() && initialized && 0 <= leaf < r
      requires !Full(View()) && nextIndex + 1 < U32_LIMIT
      modifies this
      ensures Valid()
      ensures View() == old(View()).(leaves := old(leaves) + [leaf])
      ensures root == Root(h, leaves, depth) && index == |old(leaves)|
    {
      hide Node, Shift, Pow2;
      index := nextIndex;
      IndexFits(View());
      ShiftToRoot(index, depth);
      root := Climb(leaf);
      leaves := leaves + [leaf];
      RingAfterInsert(h, roots, old(View()), View());
      rootIdx := (rootIdx + 1) % ROOT_HISTORY;
      roots := roots[rootIdx := root];
      nextIndex := index + 1;
    }

    /** Overwriting the next slot with the newest root keeps the ring in step. */
    static lemma RingAfterInsert(h: PairHash, roots: map<nat, int>, p: Pool, p': Pool)
      requires RingOk(h, roots, p)
      requires |p'.leaves| == |p.leaves| + 1 && p.leaves == p'.leaves[..|p.leaves|] && p'.depth == p.depth
      ensures RingOk(h, roots[(|p.leaves| + 1) % ROOT_HISTORY := Root(h, p'.leaves, p'.depth)], p')
    {
      var n := |p.leaves|;
      var slot := (n + 1) % ROOT_HISTORY;
      assert SlotInsert(n + 1, slot) == n + 1;
      assert p'.leaves[..n + 1] == p'.leaves;
      forall s: nat | s < ROOT_HISTORY && s != slot ensures SlotInsert(n + 1, s) == SlotInsert(n, s) {
        SlotStays(n, s);
      }
      forall k: nat | k <= n ensures RootAfter(h, p', k) == RootAfter(h, p, k) {
        assert p'.leaves[..k] == p.leaves[..k];
      }
    }

    static lemma SlotStays(n: nat, s: nat)
      requires s < ROOT_HISTORY && s != (n + 1) % ROOT_HISTORY
      ensures SlotInsert(n + 1, s) == SlotInsert(n, s)
    {
    }

    method Deposit(payerBalance: nat, amount: int, commitment: nat) returns (res: Result<(int, nat), Error>)
      requires Valid()
      modifies this
      ensures Valid()
      ensures match DepositInto(r, old(View()), payerBalance, amount, commitment)
              case Ok(p) => View() == p && res == Ok((Root(h, p.leaves, p.depth), |p.leaves| - 1))
              case Err(x) => View() == old(View()) && res == Err(x)
    {
      if amount <= 0 {
        return Err(InvalidAmount);
      }
      if !initialized {
        return Err(NotInitialized);
      }
      if payerBalance < amount {
        return Err(TransferFailed);
      }
      if depth < 32 && nextIndex >= Pow2(depth) {
        return Err(TreeFull);
      }
      if nextIndex + 1 >= U32_LIMIT {
        return Err(CounterOverflow);
      }
      var root, index := Insert(commitment % r);
      custody := custody + amount;
      return Ok((root, index));
    }

    /** The checks of a withdrawal in the contract's order; also what a simulation of the call reports. */
    method CheckWithdraw(root: int, nullifier: nat, amount: int, proofOk: bool) returns (e: Option<Error>)
      requires Valid()
      ensures match WithdrawFrom(h, View(), root, nullifier, amount, proofOk)
              case Ok(_) => e == None
              case Err(x) => e == Some(x)
    {
      if amount <= 0 {
        return Some(InvalidAmount);
      }
      var known := IsKnownRoot(root);
      if !known {
        return Some(UnknownRoot);
      }
      if nullifier in nullifiers {
        return Some(NullifierUsed);
      }
      if !proofOk {
        return Some(InvalidProof);
      }
      if custody < amount {
        return Some(TransferFailed);
      }
      return None;
    }

    method Withdraw(root: int, nullifier: nat, amount: int, proofOk: bool) returns (e: Option<Error>)
      requires Valid()
      modifies this
      ensures Valid()
      ensures match WithdrawFrom(h, old(View()), root, nullifier, amount, proofOk)
              case Ok(p) => e == None && View() == p
              case Err(x) => e == Some(x) && View() == old(View())
    {
      e := CheckWithdraw(root, nullifier, amount, proofOk);
      if e.None? {
        nullifiers := nullifiers + {nullifier};
        custody := custody - amount;
      }
    }
  }
}
