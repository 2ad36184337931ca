/**
  * The three implementations side by side: the contract with the Rust hash, and the mirror
  * tree with the TypeScript hash, rebuilt from the event log.
  */
module Agreement {
  import opened Bits
  import opened Custody
  import opened Field
  import opened Results
  import opened Merkle
  import opened Mimc
  import opened PoolModel
  import opened PoolSync
  import opened PoolTree
  import opened ShieldedPool

  /** A contract hashing as the Rust port does, whose deposits were `log`, all of it reported by the node. */
  ghost predicate Mirrored(pool: Contract, table: Table, rows: seq<PoolSync.Row>, log: seq<nat>)
    reads pool
  {
    && pool.Valid() && pool.initialized && pool.h == FrNodeHash(pool.r, table)
    && pool.leaves == Reduced(pool.r, log)
    && PoolSync.Honest(rows, log) && Complete(rows, log)
  }

  /** What the mirror rebuilds: the contract's leaves, and the contract's root under the other hash. */
  lemma MirrorMeetsContract(pool: Contract, table: Table, rows: seq<PoolSync.Row>, log: seq<nat>)
    requires Mirrored(pool, table, rows, log)
    ensures pool.Valid() && Leaves(rows) == log && Reduced(pool.r, Leaves(rows)) == pool.leaves
    ensures |log| == |pool.leaves| <= Pow2(pool.depth)
    ensures Root(NodeHash(pool.r, table), pool.leaves, pool.depth) == Root(pool.h, pool.leaves, pool.depth)
    ensures pool.depth <= 30 ==> |pool.leaves| <= LevelSize(pool.depth, 0)
  {
    hide Root, FrNodeHash, NodeHash, Pow2, LevelSize, Leaves, RecentRoots;
    hide Contract.RingOk, Contract.FilledRange, Contract.ZerosOk;
    SyncExact(rows, log);
    RootsAcrossLanguages(pool.r, table, pool.leaves, pool.depth);
    if pool.depth <= 30 {
      CapacityIsSize(pool.depth);
    }
  }

  lemma RootsAcrossLanguages(r: Modulus, table: Table, leaves: seq<int>, depth: nat)
    requires forall x <- leaves :: Residue(r, x)
    ensures Root(NodeHash(r, table), leaves, depth) == Root(FrNodeHash(r, table), leaves, depth)
  {
    TreesAgree(r, table, leaves, depth, 0);
  }

  lemma CapacityIsSize(depth: nat)
    requires depth <= 30
    ensures LevelSize(depth, 0) == Pow2(depth)
  {
    hide Pow2;
    assert depth % 32 == depth;
  }

  /**
    * The contract's incremental root and the mirror's recomputed one are equal from the first
    * deposit on. Before it the contract answers 0 and the mirror the zero-subtree root.
    */
  method CompareRoots(pool: Contract, table: Table, rpc: Rpc, latest: nat, ghost log: seq<nat>)
    returns (onChain: int, mirrored: Option<int>)
    requires Mirrored(pool, table, ScannedRows(rpc, latest, 0), log)
    ensures mirrored.Some? <==> pool.depth <= 30
    ensures mirrored.Some? && log != [] ==> mirrored.value == onChain
    ensures mirrored.Some? && log == [] ==> onChain == 0 && mirrored.value == Zero(NodeHash(pool.r, table), pool.depth)
  {
    ghost var rows := ScannedRows(rpc, latest, 0);
    MirrorMeetsContract(pool, table, rows, log);
    hide Node, Zero, Pow2, Leaves, ScannedRows, PoolSync.Honest, Complete, LevelSize;
    var tree, leaves, e := SyncPoolTree(pool.r, NodeHash(pool.r, table), pool.depth, rpc, latest);
    onChain := pool.GetRoot();
    if e.Some? {
      return onChain, None;
    }
    mirrored := tree.Root();
    EmptyRoot(NodeHash(pool.r, table), pool.depth);
  }

  lemma BitsBack(rights: seq<bool>)
    ensures seq(|BitsOf(rights)|, i requires 0 <= i < |BitsOf(rights)| => BitsOf(rights)[i] == 1) == rights
  {
  }

  lemma RootIsKnown(pool: Contract)
    requires pool.Valid() && pool.leaves != []
    ensures Root(pool.h, pool.leaves, pool.depth) in RecentRoots(pool.h, pool.View())
  {
    hide Pow2, Node, Contract.RingOk, Contract.FilledRange, Contract.ZerosOk;
    assert pool.leaves[..|pool.leaves|] == pool.leaves;
    Contract.RecentAt(pool.h, pool.View(), |pool.leaves|);
  }

  // ---- The withdraw service, end to end ----

  /** The TypeScript hashes, which are also those of the withdraw circuit. */
  function MimcHashes(r: Modulus, table: Table): Hashes {
    Hashes(NodeHash(r, table), (n: NoteData) => Commitment(r, table, n.secret, n.nullifier, n.amount),
           (x: int) => ResidueHash(r, table, x))
  }

  /** They are the sponge of node pair, note and nullifier, each input in its place. */
  lemma MimcHashesAbsorb(r: Modulus, table: Table, x: int, y: int, note: NoteData)
    ensures var hs := MimcHashes(r, table);
            && hs.pair(x, y) == Hash(r, table, [x, y])
            && hs.commit(note) == Hash(r, table, [note.secret, note.nullifier, note.amount])
            && hs.nul(note.nullifier) == Hash(r, table, [note.nullifier])
  {
  }

  function ResidueHash(r: Modulus, table: Table, x: int): nat {
    HashIsResidue(r, table, [x]);
    NullifierHash(r, table, x)
  }

  lemma HashIsResidue(r: Modulus, table: Table, inputs: seq<int>)
    requires inputs != []
    ensures Residue(r, Hash(r, table, inputs))
  {
    AbsorbResidues(r, table, 0, inputs, |inputs|);
  }

  /** These hashes give field elements, so what `Custody` reports as broken is broken on field elements. */
  lemma HashesInField(r: Modulus, table: Table)
    ensures FieldHashes(r, MimcHashes(r, table))
    ensures forall x :: MimcHashes(r, table).nul(x) < r
  {
    var hs := MimcHashes(r, table);
    hide Hash;
    forall a, b ensures Residue(r, hs.pair(a, b)) {
      HashIsResidue(r, table, [a, b]);
    }
    forall n ensures Residue(r, hs.commit(n)) {
      HashIsResidue(r, table, [n.secret, n.nullifier, n.amount]);
    }
    forall x ensures hs.nul(x) < r {
      HashIsResidue(r, table, [x]);
    }
  }

  /** `leaves.findIndex`: the first leaf equal to the note's commitment. */
  method LeafIndex(leaves: seq<nat>, commitment: int) returns (index: Option<nat>)
    ensures match index
            case Some(i) => i < |leaves| && leaves[i] == commitment && forall k | 0 <= k < i :: leaves[k] != commitment
            case None => commitment !in leaves
  {
    for i := 0 to |leaves|
      invariant forall k | 0 <= k < i :: leaves[k] != commitment
    {
      if leaves[i] == commitment {
        return Some(i);
      }
    }
    return None;
  }

  datatype ServiceError = UnknownNote | Refused(error: PoolModel.Error)

  /** The inputs built from the mirror at the leaf of a deposited note satisfy the withdraw circuit. */
  lemma MirrorInputsAccepted(r: Modulus, table: Table, leaves: seq<int>, depth: nat, index: nat, note: NoteData)
    requires index < |leaves| <= Pow2(depth) && leaves[index] == MimcHashes(r, table).commit(note)
    ensures var hs := MimcHashes(r, table);
            var h := NodeHash(r, table);
            CircuitAccepts(hs, depth, Root(h, leaves, depth), hs.nul(note.nullifier), note.amount,
                           Witness(note, PathElements(h, leaves, index, depth), PathRights(index, depth)))
  {
    hide Pow2, Node, Fold, PathElements, PathRights, Hash;
    BuiltPathFolds(NodeHash(r, table), leaves, index, depth);
  }

  /** A raw log entry equal to a commitment is its own residue in the mirror. */
  lemma CommitmentInMirror(r: Modulus, table: Table, leaves: seq<nat>, index: nat, note: NoteData)
    requires index < |leaves|
    ensures var commitment := MimcHashes(r, table).commit(note);
            leaves[index] == commitment ==> Reduced(r, leaves)[index] == commitment
  {
    HashIsResidue(r, table, [note.secret, note.nullifier, note.amount]);
    hide Hash;
    ResidueMod(r, MimcHashes(r, table).commit(note));
  }

  /**
    * Sync, find the note's leaf, build its path, prove and withdraw. Every deposited note gets
    * past the root and proof checks; what remains is only the contract's own amount, nullifier
    * and balance checks. Proving succeeds exactly on inputs that satisfy the circuit. A call that
    * passes simulation returns normally also when its poll runs out before it is on chain, which
    * is when `lands` is false.
    */
  method CreatePoolWithdraw(pool: Contract, table: Table, rpc: Rpc, latest: nat, note: NoteData, lands: bool,
                            ghost log: seq<nat>)
    returns (e: Option<ServiceError>)
    requires Mirrored(pool, table, ScannedRows(rpc, latest, 0), log) && pool.depth <= 30
    modifies pool
    ensures var hs, before := MimcHashes(pool.r, table), old(pool.View());
            var root := Root(pool.h, old(pool.leaves), old(pool.depth));
            if hs.commit(note) !in log then e == Some(UnknownNote) && pool.View() == before
            else match WithdrawFrom(pool.h, before, root, hs.nul(note.nullifier), note.amount, true)
                 case Ok(after) => e == None && pool.View() == if lands then after else before
                 case Err(x) => e == Some(Refused(x)) && pool.View() == before
                                && x in {InvalidAmount, NullifierUsed, TransferFailed}
  {
    hide *;
    var hs := MimcHashes(pool.r, table);
    ghost var rows := ScannedRows(rpc, latest, 0);
    MirrorMeetsContract(pool, table, rows, log);
    var tree, leaves, failed := SyncPoolTree(pool.r, NodeHash(pool.r, table), pool.depth, rpc, latest);
    var index := LeafIndex(leaves, hs.commit(note));
    if index.None? {
      return Some(UnknownNote);
    }
    CommitmentInMirror(pool.r, table, leaves, index.value, note);
    MirrorInputsAccepted(pool.r, table, tree.leaves, pool.depth, index.value, note);
    RootIsKnown(pool);
    var root := tree.Root();
    var path := tree.BuildPath(index.value);
    var rights := seq(|path.value.indices|, i requires 0 <= i < |path.value.indices| => path.value.indices[i] == 1);
    BitsBack(PathRights(index.value, pool.depth));
    var proofOk := CircuitAccepts(hs, pool.depth, root.value, hs.nul(note.nullifier), note.amount,
                                  Witness(note, path.value.elements, rights));
    OnlyOwnChecks(pool.h, pool.View(), root.value, hs.nul(note.nullifier), note.amount);
    var refused := pool.CheckWithdraw(root.value, hs.nul(note.nullifier), note.amount, proofOk);
    if refused.Some? {
      return Some(Refused(refused.value));
    }
    if lands {
      refused := pool.Withdraw(root.value, hs.nul(note.nullifier), note.amount, proofOk);
    }
    return None;
  }

  lemma OnlyOwnChecks(h: PairHash, p: Pool, root: int, nullifier: nat, amount: int)
    requires root in RecentRoots(h, p)
    ensures match WithdrawFrom(h, p, root, nullifier, amount, true)
            case Ok(_) => true
            case Err(x) => x in {InvalidAmount, NullifierUsed, TransferFailed}
  {
  }
}
