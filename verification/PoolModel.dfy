/**
  * The shielded pool as a value: the deposited leaves, the spent nullifiers and the
  * tokens held. Roots are recomputed from the whole leaf list; nothing is cached.
  * The contract class in `ShieldedPool` is proved to behave exactly like this.
  */
module PoolModel {
  import opened Bits
  import opened Field
  import opened Results
  import opened Merkle

  const ROOT_HISTORY: nat := 30
  const U32_LIMIT: nat := 0x1_0000_0000

  datatype Error =
    | NotInitialized
    | AlreadyInitialized
    | TreeFull
    | UnknownRoot
    | NullifierUsed
    | InvalidProof
    | InvalidAmount
    | TransferFailed   // the token contract refuses the transfer
    | CounterOverflow  // the u32 leaf counter would wrap; overflow checks trap

  /** `spent` holds nullifier hashes as presented: raw 32-byte values. */
  datatype Pool = Pool(initialized: bool, depth: nat, leaves: seq<int>, spent: set<nat>, custody: nat)

  /** Root of the tree over the first `k` deposits, recomputed in full. */
  function RootAfter(h: PairHash, p: Pool, k: nat): int
    requires k <= |p.leaves|
  {
    Root(h, p.leaves[..k], p.depth)
  }

  /** How many roots are known after `n` deposits. */
  function Recent(n: nat): nat {
    if n <= ROOT_HISTORY then n else ROOT_HISTORY
  }

  /** The roots after each of the last 30 deposits, newest first. */
  function RecentRoots(h: PairHash, p: Pool): seq<int> {
    var n := |p.leaves|;
    seq(Recent(n), i requires 0 <= i < Recent(n) => RootAfter(h, p, n - i))
  }

  predicate Full(p: Pool) {
    p.depth < 32 && |p.leaves| >= Pow2(p.depth)
  }

  function InitializePool(p: Pool, depth: nat): Result<Pool, Error> {
    if p.initialized then Err(AlreadyInitialized)
    else Ok(p.(initialized := true, depth := depth))
  }

  /** A deposit by an account holding `payerBalance` of the pool token. */
  function DepositInto(r: Modulus, p: Pool, payerBalance: nat, amount: int, commitment: nat): Result<Pool, Error> {
    if amount <= 0 then Err(InvalidAmount)
    else if !p.initialized then Err(NotInitialized)
    else if payerBalance < amount then Err(TransferFailed)
    else if Full(p) then Err(TreeFull)
    else if |p.leaves| + 1 >= U32_LIMIT then Err(CounterOverflow)
    else Ok(p.(leaves := p.leaves + [commitment % r], custody := p.custody + amount))
  }

  /** A withdrawal; `proofOk` is the verdict of the Groth16 check on the public signals. */
  function WithdrawFrom(h: PairHash, p: Pool, root: int, nullifier: nat, amount: int,
                        proofOk: bool): Result<Pool, Error> {
    if amount <= 0 then Err(InvalidAmount)
    else if root !in RecentRoots(h, p) then Err(UnknownRoot)
    else if nullifier in p.spent then Err(NullifierUsed)
    else if !proofOk then Err(InvalidProof)
    else if p.custody < amount then Err(TransferFailed)
    else Ok(p.(spent := p.spent + {nullifier}, custody := p.custody - amount))
  }

  /** The known roots are those of the tree after each of the last thirty deposits, none before the first. */
  lemma KnownExactly(h: PairHash, p: Pool, root: int)
    ensures root in RecentRoots(h, p) <==>
            exists k: nat :: 0 < k <= |p.leaves| < k + 30 && root == Root(h, p.leaves[..k], p.depth)
  {
    var n := |p.leaves|;
    if root in RecentRoots(h, p) {
      var i :| 0 <= i < Recent(n) && RecentRoots(h, p)[i] == root;
      assert RecentRoots(h, p)[i] == RootAfter(h, p, n - i) == Root(h, p.leaves[..n - i], p.depth);
    }
    if k: nat :| 0 < k <= n < k + 30 && root == Root(h, p.leaves[..k], p.depth) {
      assert RecentRoots(h, p)[n - k] == RootAfter(h, p, n - (n - k)) == RootAfter(h, p, k);
    }
  }

  /** Initialisation succeeds once, and sets the depth and nothing else. */
  lemma InitializeExactly(p: Pool, depth: nat)
    ensures InitializePool(p, depth)
         == if p.initialized then Err(AlreadyInitialized)
            else Ok(Pool(true, depth, p.leaves, p.spent, p.custody))
  {
  }

  /**
    * A deposit is refused for its amount, an uninitialised pool, the payer's balance, a full tree and
    * a full counter, in that order; else it appends the commitment's residue and takes the amount.
    */
  lemma DepositExactly(r: Modulus, p: Pool, payerBalance: nat, amount: int, commitment: nat)
    ensures match DepositInto(r, p, payerBalance, amount, commitment)
            case Err(InvalidAmount) => amount <= 0
            case Err(NotInitialized) => amount > 0 && !p.initialized
            case Err(TransferFailed) => amount > payerBalance && p.initialized && amount > 0
            case Err(TreeFull) =>
              0 < amount <= payerBalance && p.initialized && p.depth < 32 && |p.leaves| >= Pow2(p.depth)
            case Err(CounterOverflow) =>
              && 0 < amount <= payerBalance && p.initialized && (p.depth >= 32 || |p.leaves| < Pow2(p.depth))
              && |p.leaves| + 1 >= Pow2(32)
            case Err(_) => false
            case Ok(p') =>
              && 0 < amount <= payerBalance && p.initialized && (p.depth >= 32 || |p.leaves| < Pow2(p.depth))
              && |p.leaves| + 1 < Pow2(32)
              && p' == p.(leaves := p.leaves + [commitment % r], custody := p.custody + amount)
  {
    U32IsPow2();
  }

  /**
    * A withdrawal is refused for its amount, its root, its nullifier, its proof and the pool's balance,
    * in that order; else it spends the nullifier and pays the amount.
    */
  lemma WithdrawExactly(h: PairHash, p: Pool, root: int, nullifier: nat, amount: int, proofOk: bool)
    ensures match WithdrawFrom(h, p, root, nullifier, amount, proofOk)
            case Err(InvalidAmount) => amount <= 0
            case Err(UnknownRoot) => amount > 0 && root !in RecentRoots(h, p)
            case Err(NullifierUsed) => amount > 0 && root in RecentRoots(h, p) && nullifier in p.spent
            case Err(InvalidProof) => amount > 0 && root in RecentRoots(h, p) && nullifier !in p.spent && !proofOk
            case Err(TransferFailed) =>
              amount > p.custody && root in RecentRoots(h, p) && nullifier !in p.spent && proofOk
            case Err(_) => false
            case Ok(p') =>
              && 0 < amount <= p.custody && root in RecentRoots(h, p) && nullifier !in p.spent && proofOk
              && p' == p.(spent := p.spent + {nullifier}, custody := p.custody - amount)
  {
  }

  /** What the leaf counter guarantees about the leaves of any pool the contract reaches. */
  ghost predicate WellFormed(r: Modulus, p: Pool) {
    && (!p.initialized ==> p.leaves == [])
    && |p.leaves| < U32_LIMIT
    && |p.leaves| <= Pow2(p.depth)
    && (forall x <- p.leaves :: 0 <= x < r)
  }

  lemma U32IsPow2()
    ensures Pow2(32) == U32_LIMIT
  {
    assert Pow2(4) == 16;
    assert Pow2(8) == 256;
    assert Pow2(12) == 4096;
    assert Pow2(16) == 65536;
    assert Pow2(20) == 1048576;
    assert Pow2(24) == 16777216;
    assert Pow2(28) == 268435456;
  }

  /** A leaf index the contract accepts lies under the tree's top node, at every depth. */
  lemma IndexFits(p: Pool)
    requires !Full(p) && |p.leaves| < U32_LIMIT
    ensures |p.leaves| < Pow2(p.depth)
  {
    if p.depth >= 32 {
      U32IsPow2();
      Pow2Monotone(32, p.depth);
    }
  }

  lemma DepositKeepsWellFormed(r: Modulus, p: Pool, payerBalance: nat, amount: int, commitment: nat)
    requires WellFormed(r, p)
    ensures var d := DepositInto(r, p, payerBalance, amount, commitment);
            d.Ok? ==> WellFormed(r, d.value)
  {
    if !Full(p) {
      IndexFits(p);
    }
  }

  /** The root a deposit produces heads the list of known roots; the rest keep their order. */
  lemma RecentAfterDeposit(h: PairHash, p: Pool, leaf: int)
    ensures var p' := p.(leaves := p.leaves + [leaf]);
            && |RecentRoots(h, p')| == Recent(|p.leaves| + 1)
            && RecentRoots(h, p')[0] == Root(h, p'.leaves, p.depth)
            && RecentRoots(h, p')[1..] == RecentRoots(h, p)[..|RecentRoots(h, p')| - 1]
  {
    var p' := p.(leaves := p.leaves + [leaf]);
    var n := |p.leaves|;
    assert p'.leaves[..n + 1] == p'.leaves;
    assert RecentRoots(h, p')[0] == RootAfter(h, p', n + 1);
    forall k: nat | k <= n ensures RootAfter(h, p', k) == RootAfter(h, p, k) {
      assert p'.leaves[..k] == p.leaves[..k];
    }
  }

  // ---- Runs of calls ----

  datatype Call =
    | Init(depth: nat)
    | Deposit(payerBalance: nat, amount: int, commitment: nat)
    | Withdraw(root: int, nullifier: nat, amount: int, proofOk: bool)

  function Perform(r: Modulus, h: PairHash, p: Pool, c: Call): Result<Pool, Error> {
    match c
    case Init(depth) => InitializePool(p, depth)
    case Deposit(payerBalance, amount, commitment) => DepositInto(r, p, payerBalance, amount, commitment)
    case Withdraw(root, nullifier, amount, proofOk) => WithdrawFrom(h, p, root, nullifier, amount, proofOk)
  }

  /** A refused call is rolled back. */
  function Apply(r: Modulus, h: PairHash, p: Pool, c: Call): Pool {
    match Perform(r, h, p, c)
    case Ok(p') => p'
    case Err(_) => p
  }

  function Run(r: Modulus, h: PairHash, p: Pool, calls: seq<Call>): Pool {
    if calls == [] then p
    else Apply(r, h, Run(r, h, p, calls[..|calls| - 1]), calls[|calls| - 1])
  }

  /** Calls take effect one after the other. */
  lemma RunOneByOne(r: Modulus, h: PairHash, p: Pool, calls: seq<Call>, c: Call)
    ensures Run(r, h, p, []) == p
    ensures Run(r, h, p, calls + [c]) == Apply(r, h, Run(r, h, p, calls), c)
  {
    assert (calls + [c])[..|calls|] == calls;
  }

  lemma {:induction false} RunKeepsWellFormed(r: Modulus, h: PairHash, p: Pool, calls: seq<Call>)
    requires WellFormed(r, p)
    ensures WellFormed(r, Run(r, h, p, calls))
    ensures p.leaves <= Run(r, h, p, calls).leaves
    ensures p.initialized ==> Run(r, h, p, calls).initialized && Run(r, h, p, calls).depth == p.depth
  {
    if calls != [] {
      RunKeepsWellFormed(r, h, p, calls[..|calls| - 1]);
      var q, c := Run(r, h, p, calls[..|calls| - 1]), calls[|calls| - 1];
      if c.Deposit? {
        DepositKeepsWellFormed(r, q, c.payerBalance, c.amount, c.commitment);
      }
    }
  }

  /** Every deposit ages the known roots by one place; nothing else moves them. */
  lemma {:induction false} RootsAge(r: Modulus, h: PairHash, p: Pool, calls: seq<Call>, k: nat)
    requires WellFormed(r, p) && p.initialized
    requires var age := k + |Run(r, h, p, calls).leaves| - |p.leaves|;
             k < |RecentRoots(h, p)| && age < ROOT_HISTORY
    ensures var p' := Run(r, h, p, calls);
            var age := k + |p'.leaves| - |p.leaves|;
            k <= age < |RecentRoots(h, p')| && RecentRoots(h, p')[age] == RecentRoots(h, p)[k]
  {
    RunKeepsWellFormed(r, h, p, calls);
    var p' := Run(r, h, p, calls);
    var n := |p.leaves| - k;
    assert p'.leaves[..n] == p.leaves[..n];
    assert RecentRoots(h, p)[k] == RootAfter(h, p, n);
    assert RecentRoots(h, p')[k + |p'.leaves| - |p.leaves|] == RootAfter(h, p', n);
  }
}
