/**
  * Solvency of the pool over whole runs. A withdrawal carries the private inputs its proof
  * attests; the only assumptions are the documented ones: an accepted proof has such inputs,
  * and a deposit's amount is the amount bound in its commitment. The contract keys its spent
  * set on the 32 bytes as presented while the proof sees them reduced, so solvency holds under
  * an exact condition on presentations. Where a claim could fail because a hash is not
  * injective, the failing values are computed.
  */
module Custody {
  import opened Bits
  import opened Field
  import opened Results
  import opened Merkle
  import opened PoolModel

  const I128_LIMIT: nat := 0x8000_0000_0000_0000_0000_0000_0000_0000

  const BYTES32_LIMIT: nat := I128_LIMIT * I128_LIMIT * 4

  datatype NoteData = NoteData(secret: int, nullifier: int, amount: int)

  /** The hashes of the pool: tree nodes, note commitments and nullifier hashes. */
  datatype Hashes = Hashes(pair: PairHash, commit: NoteData -> int, nul: int -> nat)

  /** Private inputs of the withdraw circuit. */
  datatype Witness = Witness(note: NoteData, elements: seq<int>, rights: seq<bool>)

  /** The withdraw circuit's constraints on public signals root, nullifier hash and amount. */
  predicate CircuitAccepts(hs: Hashes, depth: nat, root: int, nullifierSignal: int, amountSignal: int, w: Witness) {
    && |w.elements| == |w.rights| == depth
    && w.note.amount == amountSignal
    && hs.nul(w.note.nullifier) == nullifierSignal
    && Fold(hs.pair, hs.commit(w.note), w.elements, w.rights) == root
  }

  datatype Event =
    | DepositEvent(payerBalance: nat, amount: int, commitment: nat, note: NoteData)
    | WithdrawEvent(root: int, nullifier: nat, amount: int, proofOk: bool, inputs: Witness)

  function CallOf(e: Event): Call {
    match e
    case DepositEvent(payerBalance, amount, commitment, _) => Deposit(payerBalance, amount, commitment)
    case WithdrawEvent(root, nullifier, amount, proofOk, _) => Withdraw(root, nullifier, amount, proofOk)
  }

  predicate Accepted(r: Modulus, hs: Hashes, p: Pool, e: Event) {
    Perform(r, hs.pair, p, CallOf(e)).Ok?
  }

  /** Every field of a note is a field element. */
  predicate NoteInField(r: Modulus, n: NoteData) {
    Residue(r, n.secret) && Residue(r, n.nullifier) && Residue(r, n.amount)
  }

  predicate WitnessInField(r: Modulus, w: Witness) {
    NoteInField(r, w.note) && forall x <- w.elements :: Residue(r, x)
  }

  /**
    * What is assumed of one event: of a deposit with a valid amount, that it is the amount of
    * the note committed to; of an accepted proof, that its inputs satisfy the circuit. Amounts
    * of withdrawals are i128 values, which are below the field order.
    */
  predicate Honest(r: Modulus, hs: Hashes, p: Pool, e: Event) {
    match e
    case DepositEvent(_, amount, commitment, note) =>
      amount > 0 ==> NoteInField(r, note) && note.amount == amount && hs.commit(note) == commitment % r
    case WithdrawEvent(root, nullifier, amount, proofOk, w) =>
      && amount < I128_LIMIT <= r
      && (proofOk ==> WitnessInField(r, w) && CircuitAccepts(hs, p.depth, root, nullifier % r, amount % r, w))
  }

  // ---- The ledger of notes behind the pool ----

  /** Which note each leaf was made from, and which leaves have been withdrawn. */
  datatype Ledger = Ledger(pool: Pool, notes: seq<NoteData>, claimed: seq<bool>)

  function Unclaimed(notes: seq<NoteData>, claimed: seq<bool>): int
    requires |notes| == |claimed|
  {
    if notes == [] then 0
    else
      var n := |notes| - 1;
      Unclaimed(notes[..n], claimed[..n]) + if claimed[n] then 0 else notes[n].amount
  }

  lemma {:induction false} ClaimOne(notes: seq<NoteData>, claimed: seq<bool>, i: nat)
    requires |notes| == |claimed| && i < |notes| && !claimed[i]
    requires forall n <- notes :: n.amount > 0
    ensures Unclaimed(notes, claimed[i := true]) == Unclaimed(notes, claimed) - notes[i].amount
    ensures 0 <= Unclaimed(notes, claimed[i := true])
  {
    var n := |notes| - 1;
    if i == n {
      assert claimed[i := true][..n] == claimed[..n];
      UnclaimedNonNegative(notes[..n], claimed[..n]);
    } else {
      assert claimed[i := true][..n] == claimed[..n][i := true];
      ClaimOne(notes[..n], claimed[..n], i);
    }
  }

  lemma {:induction false} UnclaimedNonNegative(notes: seq<NoteData>, claimed: seq<bool>)
    requires |notes| == |claimed|
    requires forall n <- notes :: n.amount > 0
    ensures 0 <= Unclaimed(notes, claimed)
  {
    if notes != [] {
      UnclaimedNonNegative(notes[..|notes| - 1], claimed[..|notes| - 1]);
    }
  }

  function Record(r: Modulus, hs: Hashes, l: Ledger, e: Event): Ledger {
    var p := Apply(r, hs.pair, l.pool, CallOf(e));
    if !Accepted(r, hs, l.pool, e) then l
    else
      match e
      case DepositEvent(_, _, _, note) => Ledger(p, l.notes + [note], l.claimed + [false])
      case WithdrawEvent(_, _, _, _, w) =>
        var i := Position(0, w.rights);
        Ledger(p, l.notes, if i < |l.claimed| then l.claimed[i := true] else l.claimed)
  }

  /** Custody is the initial balance plus the notes not yet withdrawn. */
  predicate Covered(initial: nat, l: Ledger)
    requires |l.notes| == |l.claimed|
  {
    l.pool.custody == initial + Unclaimed(l.notes, l.claimed)
  }

  /**
    * The pool is covered; every spent nullifier is a presentation of a withdrawn note's, and no
    * nullifier hash is spent under two presentations. Distinct nullifier hashes have distinct
    * notes, so this is the injection from spent nullifiers to deposits.
    */
  ghost predicate Solvent(r: Modulus, hs: Hashes, initial: nat, l: Ledger) {
    && WellFormed(r, l.pool)
    && |l.notes| == |l.claimed| == |l.pool.leaves|
    && (forall n <- l.notes :: n.amount > 0 && NoteInField(r, n))
    && (forall i | 0 <= i < |l.notes| :: hs.commit(l.notes[i]) == l.pool.leaves[i])
    && (forall i | 0 <= i < |l.notes| && l.claimed[i] :: Presented(r, l.pool.spent, hs.nul(l.notes[i].nullifier)))
    && (forall s <- l.pool.spent :: SpentByClaim(hs, l, s % r))
    && (forall s <- l.pool.spent :: OnlyAsPresented(r, l.pool, s))
    && Covered(initial, l)
  }

  /** Some spent nullifier is a presentation of this nullifier hash. */
  predicate Presented(r: Modulus, spent: set<nat>, x: nat) {
    exists s <- spent :: s % r == x
  }

  /** No other presentation of this nullifier has been spent: what a caller can check before the call. */
  predicate OnlyAsPresented(r: Modulus, p: Pool, nullifier: nat) {
    forall s <- p.spent :: s % r == nullifier % r ==> s == nullifier
  }

  /** Some withdrawn note has this nullifier hash. */
  predicate SpentByClaim(hs: Hashes, l: Ledger, x: nat)
    requires |l.notes| == |l.claimed|
  {
    exists i :: 0 <= i < |l.notes| && l.claimed[i] && hs.nul(l.notes[i].nullifier) == x
  }

  /** An accepted proof presents the witness note's own nullifier hash and amount. */
  lemma SignalsAreNote(r: Modulus, hs: Hashes, p: Pool, e: Event)
    requires e.WithdrawEvent? && e.proofOk && e.amount >= 0 && Honest(r, hs, p, e)
    ensures hs.nul(e.inputs.note.nullifier) == e.nullifier % r && e.inputs.note.amount == e.amount
  {
    ResidueMod(r, e.amount);
  }

  // ---- From an accepted proof to a deposited note ----

  /** Evidence that one of the pool's hashes failed to bind. */
  datatype Break =
    | PairBreak(c: Collision)
    | CommitBreak(a: NoteData, b: NoteData)
    | ZeroBreak(n: NoteData)  // a note that commits to 0, the padding leaf

  predicate IsBreak(r: Modulus, hs: Hashes, b: Break) {
    match b
    case PairBreak(c) => IsCollision(hs.pair, c)
    case CommitBreak(m, n) => m != n && NoteInField(r, m) && NoteInField(r, n) && hs.commit(m) == hs.commit(n)
    case ZeroBreak(n) => NoteInField(r, n) && hs.commit(n) == 0
  }

  /** After how many deposits a known root was current. */
  ghost function KnownSince(h: PairHash, p: Pool, root: int): (k: nat)
    requires root in RecentRoots(h, p)
    ensures k <= |p.leaves| && RootAfter(h, p, k) == root
  {
    var i :| 0 <= i < |RecentRoots(h, p)| && RecentRoots(h, p)[i] == root;
    |p.leaves| - i
  }

  /** Compare a witness with the tree and notes it claims to be about: what differs, if anything. */
  ghost function FindBreak(hs: Hashes, l: Ledger, root: int, w: Witness): Option<Break>
    requires |l.notes| == |l.pool.leaves|
    requires root in RecentRoots(hs.pair, l.pool) && |w.elements| == |w.rights| == l.pool.depth
  {
    var k := KnownSince(hs.pair, l.pool, root);
    var i := Position(0, w.rights);
    match PathMismatch(hs.pair, l.pool.leaves[..k], 0, hs.commit(w.note), w.elements, w.rights)
    case Some(c) => Some(PairBreak(c))
    case None =>
      if i >= k then Some(ZeroBreak(w.note))
      else if w.note != l.notes[i] then Some(CommitBreak(w.note, l.notes[i]))
      else None
  }

  /** A circuit-accepted withdrawal under a known root is of a deposited note, or a hash broke. */
  lemma WitnessIsDeposit(r: Modulus, hs: Hashes, initial: nat, l: Ledger, root: int, nullifierSignal: int,
                         amountSignal: int, w: Witness)
    requires Solvent(r, hs, initial, l)
    requires root in RecentRoots(hs.pair, l.pool)
    requires WitnessInField(r, w) && CircuitAccepts(hs, l.pool.depth, root, nullifierSignal, amountSignal, w)
    ensures match FindBreak(hs, l, root, w)
            case Some(b) => IsBreak(r, hs, b)
            case None => Position(0, w.rights) < |l.notes| && l.notes[Position(0, w.rights)] == w.note
  {
    var k := KnownSince(hs.pair, l.pool, root);
    PathSound(hs.pair, l.pool.leaves[..k], 0, hs.commit(w.note), w.elements, w.rights);
  }

  /** Both hashes of the tree give field elements. */
  ghost predicate FieldHashes(r: Modulus, hs: Hashes) {
    && (forall a, b :: Residue(r, hs.pair(a, b)))
    && (forall n :: Residue(r, hs.commit(n)))
  }

  /** A broken pair hash is broken on field elements. */
  lemma BreakInField(r: Modulus, hs: Hashes, l: Ledger, root: int, w: Witness)
    requires FieldHashes(r, hs) && WellFormed(r, l.pool) && WitnessInField(r, w) && |l.notes| == |l.pool.leaves|
    requires root in RecentRoots(hs.pair, l.pool) && |w.elements| == |w.rights| == l.pool.depth
    ensures var b := FindBreak(hs, l, root, w);
            b.Some? && b.value.PairBreak? ==> CollisionInField(r, b.value.c)
  {
    var k := KnownSince(hs.pair, l.pool, root);
    assert forall x <- l.pool.leaves[..k] :: x in l.pool.leaves;
    hide PathMismatch, Fold, RecentRoots;
    MismatchInField(hs.pair, r, l.pool.leaves[..k], 0, hs.commit(w.note), w.elements, w.rights);
  }

  predicate UnderKnownRoot(hs: Hashes, p: Pool, e: Event) {
    && e.WithdrawEvent? && e.proofOk && e.root in RecentRoots(hs.pair, p)
    && |e.inputs.elements| == |e.inputs.rights| == p.depth
  }

  /** Comparing the event's inputs with the tree and the notes comes upon broken hash values. */
  ghost predicate Breaks(r: Modulus, hs: Hashes, l: Ledger, e: Event)
    requires |l.notes| == |l.pool.leaves|
  {
    UnderKnownRoot(hs, l.pool, e) &&
    var b := FindBreak(hs, l, e.root, e.inputs);
    b.Some? && IsBreak(r, hs, b.value)
  }

  /** An honest event that does not exhibit a broken hash. */
  ghost predicate Trusted(r: Modulus, hs: Hashes, l: Ledger, e: Event) {
    |l.notes| == |l.pool.leaves| && Honest(r, hs, l.pool, e) && !Breaks(r, hs, l, e)
  }

  // ---- One event ----

  lemma DepositKeepsSolvent(r: Modulus, hs: Hashes, initial: nat, l: Ledger, e: Event)
    requires Solvent(r, hs, initial, l) && Trusted(r, hs, l, e) && e.DepositEvent?
    ensures Solvent(r, hs, initial, Record(r, hs, l, e))
  {
    DepositKeepsWellFormed(r, l.pool, e.payerBalance, e.amount, e.commitment);
    hide CircuitAccepts, FindBreak, RecentRoots, WellFormed, Full, NoteInField;
    if Accepted(r, hs, l.pool, e) {
      var l' := Record(r, hs, l, e);
      assert l'.notes[..|l.notes|] == l.notes && l'.claimed[..|l.claimed|] == l.claimed;
      forall s <- l'.pool.spent ensures SpentByClaim(hs, l', s % r) && OnlyAsPresented(r, l'.pool, s) {
        assert OnlyAsPresented(r, l.pool, s) && SpentByClaim(hs, l, s % r);
        var i :| 0 <= i < |l.notes| && l.claimed[i] && hs.nul(l.notes[i].nullifier) == s % r;
        assert l'.claimed[i] && l'.notes[i] == l.notes[i];
      }
    }
  }

  /** A withdrawal that passes the contract's checks is of a deposit of its amount and nullifier hash. */
  lemma WithdrawIsOfDeposit(r: Modulus, hs: Hashes, initial: nat, l: Ledger, e: Event)
    requires Solvent(r, hs, initial, l) && Trusted(r, hs, l, e)
    ensures UnderKnownRoot(hs, l.pool, e) && e.amount > 0 ==>
              var i := Position(0, e.inputs.rights);
              && i < |l.notes| && l.notes[i] == e.inputs.note
              && l.notes[i].amount == e.amount && hs.nul(l.notes[i].nullifier) == e.nullifier % r
  {
    if UnderKnownRoot(hs, l.pool, e) && e.amount > 0 {
      WitnessIsDeposit(r, hs, initial, l, e.root, e.nullifier % r, e.amount % r, e.inputs);
      SignalsAreNote(r, hs, l.pool, e);
    }
  }

  /** Under the guard that deposit is unclaimed, and custody covers it. */
  lemma WithdrawIsOfUnclaimed(r: Modulus, hs: Hashes, initial: nat, l: Ledger, e: Event)
    requires Solvent(r, hs, initial, l) && Trusted(r, hs, l, e) && UnderKnownRoot(hs, l.pool, e)
    requires e.amount > 0 && e.nullifier !in l.pool.spent && OnlyAsPresented(r, l.pool, e.nullifier)
    ensures var i := Position(0, e.inputs.rights);
            && i < |l.notes| && l.notes[i] == e.inputs.note && !l.claimed[i]
            && l.notes[i].amount == e.amount && hs.nul(l.notes[i].nullifier) == e.nullifier % r
            && e.amount <= l.pool.custody
  {
    var i := Position(0, e.inputs.rights);
    WithdrawIsOfDeposit(r, hs, initial, l, e);
    hide CircuitAccepts, Position, Fold, FindBreak, RecentRoots, NoteInField;
    assert l.claimed[i] ==> Presented(r, l.pool.spent, hs.nul(l.notes[i].nullifier));
    ClaimOne(l.notes, l.claimed, i);
  }

  /** A payment of an unclaimed deposit, under its guard, keeps the pool solvent. */
  lemma PaymentKeepsSolvent(r: Modulus, hs: Hashes, initial: nat, l: Ledger, i: nat, nullifier: nat)
    requires Solvent(r, hs, initial, l) && OnlyAsPresented(r, l.pool, nullifier) && nullifier !in l.pool.spent
    requires i < |l.notes| && !l.claimed[i] && hs.nul(l.notes[i].nullifier) == nullifier % r
    requires l.notes[i].amount <= l.pool.custody
    ensures var p := l.pool.(spent := l.pool.spent + {nullifier}, custody := l.pool.custody - l.notes[i].amount);
            Solvent(r, hs, initial, Ledger(p, l.notes, l.claimed[i := true]))
  {
    hide NoteInField;
    ClaimOne(l.notes, l.claimed, i);
    var p := l.pool.(spent := l.pool.spent + {nullifier}, custody := l.pool.custody - l.notes[i].amount);
    var l' := Ledger(p, l.notes, l.claimed[i := true]);
    forall s <- p.spent ensures SpentByClaim(hs, l', s % r) && OnlyAsPresented(r, p, s) {
      if s == nullifier {
        assert l'.claimed[i];
      } else {
        assert SpentByClaim(hs, l, s % r) && OnlyAsPresented(r, l.pool, s);
        var j :| 0 <= j < |l.notes| && l.claimed[j] && hs.nul(l.notes[j].nullifier) == s % r;
        assert l'.claimed[j];
      }
    }
    forall j | 0 <= j < |l'.notes| && l'.claimed[j] ensures Presented(r, p.spent, hs.nul(l'.notes[j].nullifier)) {
      PresentedStays(r, l.pool.spent, nullifier, hs.nul(l'.notes[j].nullifier));
    }
  }

  lemma WithdrawKeepsSolvent(r: Modulus, hs: Hashes, initial: nat, l: Ledger, e: Event)
    requires Solvent(r, hs, initial, l) && Trusted(r, hs, l, e) && e.WithdrawEvent?
    requires OnlyAsPresented(r, l.pool, e.nullifier)
    ensures Perform(r, hs.pair, l.pool, CallOf(e)) != Err(TransferFailed)
    ensures Solvent(r, hs, initial, Record(r, hs, l, e))
  {
    if e.amount > 0 && e.root in RecentRoots(hs.pair, l.pool) && e.nullifier !in l.pool.spent && e.proofOk {
      WithdrawIsOfUnclaimed(r, hs, initial, l, e);
      assert |l.notes| == |l.claimed|;
      hide CircuitAccepts, Position, Fold, FindBreak, Breaks, RecentRoots, NoteInField, Solvent, OnlyAsPresented;
      PaymentKeepsSolvent(r, hs, initial, l, Position(0, e.inputs.rights), e.nullifier);
    }
  }

  lemma PresentedStays(r: Modulus, spent: set<nat>, n: nat, x: nat)
    ensures Presented(r, spent, x) || n % r == x ==> Presented(r, spent + {n}, x)
  {
    if s: nat :| s in spent && s % r == x {
      assert s in spent + {n};
    } else if n % r == x {
      assert n in spent + {n};
    }
  }

  /** Every deposited note has a nullifier hash of its own. */
  ghost predicate DistinctNullifiers(hs: Hashes, notes: seq<NoteData>) {
    forall i, j | 0 <= i < j < |notes| :: hs.nul(notes[i].nullifier) != hs.nul(notes[j].nullifier)
  }

  /** An accepted withdrawal leaves the pool covered exactly when no other presentation of its nullifier was spent. */
  lemma CoveredAfterExactly(r: Modulus, hs: Hashes, initial: nat, l: Ledger, e: Event)
    requires Solvent(r, hs, initial, l) && Trusted(r, hs, l, e) && DistinctNullifiers(hs, l.notes)
    requires e.WithdrawEvent? && Accepted(r, hs, l.pool, e)
    ensures Covered(initial, Record(r, hs, l, e)) <==> OnlyAsPresented(r, l.pool, e.nullifier)
  {
    if OnlyAsPresented(r, l.pool, e.nullifier) {
      WithdrawKeepsSolvent(r, hs, initial, l, e);
    } else {
      WithdrawIsOfDeposit(r, hs, initial, l, e);
      hide CircuitAccepts, Position, Fold, FindBreak, RecentRoots, NoteInField;
      var i := Position(0, e.inputs.rights);
      var s :| s in l.pool.spent && s % r == e.nullifier % r && s != e.nullifier;
      assert SpentByClaim(hs, l, s % r);
      var j :| 0 <= j < |l.notes| && l.claimed[j] && hs.nul(l.notes[j].nullifier) == s % r;
      assert i == j;
      assert l.claimed[i := true] == l.claimed;
    }
  }

  // ---- Which presentations the contract refuses ----

  /** The mirror's path for a leaf under a known root satisfies the circuit. */
  lemma DepositedIsProvable(hs: Hashes, p: Pool, k: nat, i: nat, note: NoteData)
    requires i < k <= |p.leaves| && |p.leaves| <= Pow2(p.depth) && hs.commit(note) == p.leaves[i]
    ensures var known := p.leaves[..k];
            CircuitAccepts(hs, p.depth, RootAfter(hs.pair, p, k), hs.nul(note.nullifier), note.amount,
                           Witness(note, PathElements(hs.pair, known, i, p.depth), PathRights(i, p.depth)))
  {
    PathFolds(hs.pair, p.leaves[..k], i, p.depth);
    ShiftToRoot(i, p.depth);
  }

  /**
    * Once a note's nullifier hash n is spent in its canonical form and no other, a presentation m
    * of the same note, with m congruent to n, is provable and is refused as used exactly when
    * m is canonical; otherwise it pays again while custody lasts.
    */
  lemma RefusedExactlyIfCanonical(r: Modulus, hs: Hashes, p: Pool, k: nat, i: nat, note: NoteData, m: nat)
    requires i < k <= |p.leaves| && |p.leaves| <= Pow2(p.depth) && hs.commit(note) == p.leaves[i]
    requires RootAfter(hs.pair, p, k) in RecentRoots(hs.pair, p)
    requires 0 < note.amount <= p.custody
    requires hs.nul(note.nullifier) in p.spent && OnlyAsPresented(r, p, hs.nul(note.nullifier))
    requires m % r == hs.nul(note.nullifier) < r
    ensures var root := RootAfter(hs.pair, p, k);
            var path := Witness(note, PathElements(hs.pair, p.leaves[..k], i, p.depth), PathRights(i, p.depth));
            && CircuitAccepts(hs, p.depth, root, m % r, note.amount, path)
            && (WithdrawFrom(hs.pair, p, root, m, note.amount, true) == Err(NullifierUsed) <==> m < r)
            && (m >= r ==> WithdrawFrom(hs.pair, p, root, m, note.amount, true).Ok?)
  {
    DepositedIsProvable(hs, p, k, i, note);
    hide CircuitAccepts, PathElements, PathRights, RecentRoots, RootAfter, Pow2;
    var n := hs.nul(note.nullifier);
    ResidueMod(r, n);
    if m < r {
      ResidueMod(r, m);
    }
  }

  /**
    * The input that shows it: after the canonical n, the presentation n + r of the same note is
    * accepted. It fits the 32 bytes where twice the field order does, as it does here.
    */
  lemma NextPresentationPays(r: Modulus, hs: Hashes, p: Pool, k: nat, i: nat, note: NoteData)
    requires i < k <= |p.leaves| && |p.leaves| <= Pow2(p.depth) && hs.commit(note) == p.leaves[i]
    requires RootAfter(hs.pair, p, k) in RecentRoots(hs.pair, p)
    requires 0 < note.amount <= p.custody
    requires hs.nul(note.nullifier) in p.spent && hs.nul(note.nullifier) < r
    requires hs.nul(note.nullifier) + r !in p.spent
    ensures var n, root := hs.nul(note.nullifier), RootAfter(hs.pair, p, k);
            && (n + r) % r == n && (2 * r <= BYTES32_LIMIT ==> n + r < BYTES32_LIMIT)
            && WithdrawFrom(hs.pair, p, root, n, note.amount, true) == Err(NullifierUsed)
            && WithdrawFrom(hs.pair, p, root, n + r, note.amount, true).Ok?
  {
    ModUnique(r, 1, hs.nul(note.nullifier));
  }

  // ---- Whole runs ----

  function Play(r: Modulus, hs: Hashes, l: Ledger, events: seq<Event>): Ledger {
    if events == [] then l
    else Record(r, hs, Play(r, hs, l, events[..|events| - 1]), events[|events| - 1])
  }

  ghost predicate TrustedRun(r: Modulus, hs: Hashes, l: Ledger, events: seq<Event>) {
    forall k | 0 <= k < |events| :: Trusted(r, hs, Play(r, hs, l, events[..k]), events[k])
  }

  lemma TrustedPrefix(r: Modulus, hs: Hashes, l: Ledger, events: seq<Event>, n: nat)
    requires TrustedRun(r, hs, l, events) && n <= |events|
    ensures TrustedRun(r, hs, l, events[..n])
  {
    forall k | 0 <= k < n ensures Trusted(r, hs, Play(r, hs, l, events[..n][..k]), events[..n][k]) {
      assert events[..n][..k] == events[..k];
      assert Trusted(r, hs, Play(r, hs, l, events[..k]), events[k]);
    }
  }

  predicate Paid(r: Modulus, hs: Hashes, l: Ledger, events: seq<Event>, k: nat)
    requires k < |events|
  {
    events[k].WithdrawEvent? && Accepted(r, hs, Play(r, hs, l, events[..k]).pool, events[k])
  }

  /** Event `k` does not pay, or no other presentation of its nullifier was spent before it. */
  predicate GuardedAt(r: Modulus, hs: Hashes, l: Ledger, events: seq<Event>, k: nat)
    requires k < |events|
  {
    Paid(r, hs, l, events, k) ==> OnlyAsPresented(r, Play(r, hs, l, events[..k]).pool, events[k].nullifier)
  }

  predicate GuardedRun(r: Modulus, hs: Hashes, l: Ledger, events: seq<Event>) {
    forall k | 0 <= k < |events| :: GuardedAt(r, hs, l, events, k)
  }

  lemma GuardedPrefix(r: Modulus, hs: Hashes, l: Ledger, events: seq<Event>, n: nat)
    requires n <= |events|
    ensures forall k | 0 <= k < n :: GuardedAt(r, hs, l, events[..n], k) == GuardedAt(r, hs, l, events, k)
    ensures GuardedRun(r, hs, l, events) ==> GuardedRun(r, hs, l, events[..n])
  {
    forall k | 0 <= k < n ensures GuardedAt(r, hs, l, events[..n], k) == GuardedAt(r, hs, l, events, k) {
      assert events[..n][..k] == events[..k];
    }
  }

  /** The first event that breaks the guard. */
  ghost function FirstUnguarded(r: Modulus, hs: Hashes, l: Ledger, events: seq<Event>): (k: nat)
    requires !GuardedRun(r, hs, l, events)
    ensures k < |events| && !GuardedAt(r, hs, l, events, k) && GuardedRun(r, hs, l, events[..k])
  {
    var n := |events| - 1;
    GuardedPrefix(r, hs, l, events, n);
    if GuardedRun(r, hs, l, events[..n]) then n
    else
      var k := FirstUnguarded(r, hs, l, events[..n]);
      assert events[..n][..k] == events[..k];
      k
  }

  /** A run of canonical presentations on a set of canonical ones is guarded. */
  lemma {:induction false} CanonicalIsGuarded(r: Modulus, hs: Hashes, l: Ledger, events: seq<Event>)
    requires forall s <- l.pool.spent :: s < r
    requires forall e <- events | e.WithdrawEvent? :: e.nullifier < r
    ensures GuardedRun(r, hs, l, events)
    ensures forall s <- Play(r, hs, l, events).pool.spent :: s < r
  {
    if events != [] {
      var n := |events| - 1;
      assert events[n] in events && forall e <- events[..n] :: e in events;
      CanonicalIsGuarded(r, hs, l, events[..n]);
      GuardedPrefix(r, hs, l, events, n);
      var p := Play(r, hs, l, events[..n]).pool;
      if events[n].WithdrawEvent? {
        ResidueMod(r, events[n].nullifier);
        forall s <- p.spent ensures s % r == s {
          ResidueMod(r, s);
        }
      }
      forall k | 0 <= k <= n ensures GuardedAt(r, hs, l, events, k) {
        assert k < n ==> GuardedAt(r, hs, l, events[..n], k);
      }
    }
  }

  /** Every guarded run keeps the pool solvent. */
  lemma {:induction false} RunStaysSolvent(r: Modulus, hs: Hashes, initial: nat, l: Ledger, events: seq<Event>)
    requires Solvent(r, hs, initial, l) && TrustedRun(r, hs, l, events) && GuardedRun(r, hs, l, events)
    ensures Solvent(r, hs, initial, Play(r, hs, l, events))
  {
    hide Solvent, Trusted, OnlyAsPresented;
    if events != [] {
      var n := |events| - 1;
      TrustedPrefix(r, hs, l, events, n);
      GuardedPrefix(r, hs, l, events, n);
      RunStaysSolvent(r, hs, initial, l, events[..n]);
      var before, e := Play(r, hs, l, events[..n]), events[n];
      assert Trusted(r, hs, before, e) && GuardedAt(r, hs, l, events, n);
      if e.DepositEvent? {
        DepositKeepsSolvent(r, hs, initial, before, e);
      } else if Accepted(r, hs, before.pool, e) {
        WithdrawKeepsSolvent(r, hs, initial, before, e);
      }
    }
  }

  ghost predicate HonestRun(r: Modulus, hs: Hashes, l: Ledger, events: seq<Event>) {
    forall k | 0 <= k < |events| :: Honest(r, hs, Play(r, hs, l, events[..k]).pool, events[k])
  }

  /** Event `k` exhibits broken hash values. */
  ghost predicate BreaksAt(r: Modulus, hs: Hashes, l: Ledger, events: seq<Event>, k: nat)
    requires k < |events|
  {
    var before := Play(r, hs, l, events[..k]);
    |before.notes| == |before.pool.leaves| && Breaks(r, hs, before, events[k])
  }

  /** One honest, guarded event. */
  lemma EventKeepsSolvent(r: Modulus, hs: Hashes, initial: nat, l: Ledger, e: Event)
    requires Solvent(r, hs, initial, l) && Honest(r, hs, l.pool, e)
    requires e.WithdrawEvent? && Accepted(r, hs, l.pool, e) ==> OnlyAsPresented(r, l.pool, e.nullifier)
    ensures |l.notes| == |l.pool.leaves| && (Breaks(r, hs, l, e) || Solvent(r, hs, initial, Record(r, hs, l, e)))
  {
    assert |l.notes| == |l.pool.leaves|;
    hide Solvent, Breaks, OnlyAsPresented, Honest;
    if !Breaks(r, hs, l, e) {
      if e.DepositEvent? {
        DepositKeepsSolvent(r, hs, initial, l, e);
      } else if Accepted(r, hs, l.pool, e) {
        WithdrawKeepsSolvent(r, hs, initial, l, e);
      }
    }
  }

  /** With nothing assumed of the hashes, an honest guarded run stays solvent or exhibits broken hash values. */
  lemma {:induction false} SolventOrBroken(r: Modulus, hs: Hashes, initial: nat, l: Ledger, events: seq<Event>)
    requires Solvent(r, hs, initial, l) && HonestRun(r, hs, l, events) && GuardedRun(r, hs, l, events)
    ensures Solvent(r, hs, initial, Play(r, hs, l, events))
            || exists k :: 0 <= k < |events| && BreaksAt(r, hs, l, events, k)
  {
    hide Solvent, Honest, OnlyAsPresented, Breaks;
    if events != [] {
      var n := |events| - 1;
      assert forall k | 0 <= k < n :: events[..n][..k] == events[..k] && events[..n][k] == events[k];
      GuardedPrefix(r, hs, l, events, n);
      SolventOrBroken(r, hs, initial, l, events[..n]);
      if k :| 0 <= k < n && BreaksAt(r, hs, l, events[..n], k) {
        assert BreaksAt(r, hs, l, events, k);
      } else {
        assert GuardedAt(r, hs, l, events, n);
        EventKeepsSolvent(r, hs, initial, Play(r, hs, l, events[..n]), events[n]);
        assert BreaksAt(r, hs, l, events, n) == Breaks(r, hs, Play(r, hs, l, events[..n]), events[n]);
      }
    }
  }

  lemma {:induction false} NotesGrow(r: Modulus, hs: Hashes, l: Ledger, events: seq<Event>, k: nat)
    requires k <= |events|
    ensures Play(r, hs, l, events[..k]).notes <= Play(r, hs, l, events).notes
    decreases |events|
  {
    if k < |events| {
      NotesGrow(r, hs, l, events[..|events| - 1], k);
      assert events[..|events| - 1][..k] == events[..k];
    } else {
      assert events[..k] == events;
    }
  }

  ghost predicate LedgerInStep(l: Ledger) {
    |l.notes| == |l.claimed|
  }

  ghost predicate CoveredThroughout(r: Modulus, hs: Hashes, initial: nat, l: Ledger, events: seq<Event>) {
    forall k | 0 <= k <= |events| ::
      LedgerInStep(Play(r, hs, l, events[..k])) && Covered(initial, Play(r, hs, l, events[..k]))
  }

  lemma PlayNext(r: Modulus, hs: Hashes, l: Ledger, events: seq<Event>, k: nat)
    requires k < |events|
    ensures Play(r, hs, l, events[..k + 1]) == Record(r, hs, Play(r, hs, l, events[..k]), events[k])
  {
    assert events[..k + 1][..k] == events[..k];
  }

  lemma SolventInStep(r: Modulus, hs: Hashes, initial: nat, l: Ledger, e: Event)
    requires Solvent(r, hs, initial, l)
    ensures LedgerInStep(l) && LedgerInStep(Record(r, hs, l, e))
  {
  }

  /** An unguarded payment after a guarded prefix leaves the pool uncovered. */
  lemma UncoveredAfter(r: Modulus, hs: Hashes, initial: nat, l: Ledger, events: seq<Event>, k: nat)
    requires Solvent(r, hs, initial, l) && TrustedRun(r, hs, l, events) && k < |events|
    requires DistinctNullifiers(hs, Play(r, hs, l, events).notes)
    ensures GuardedRun(r, hs, l, events[..k]) && !GuardedAt(r, hs, l, events, k) ==>
              var after := Play(r, hs, l, events[..k + 1]); LedgerInStep(after) && !Covered(initial, after)
  {
    var before := Play(r, hs, l, events[..k]);
    TrustedPrefix(r, hs, l, events, k);
    assert Trusted(r, hs, before, events[k]);
    PlayNext(r, hs, l, events, k);
    hide Solvent, Trusted, Play, TrustedRun, GuardedRun, Record;
    if GuardedRun(r, hs, l, events[..k]) && !GuardedAt(r, hs, l, events, k) {
      RunStaysSolvent(r, hs, initial, l, events[..k]);
      NotesGrow(r, hs, l, events, k);
      SolventInStep(r, hs, initial, before, events[k]);
      CoveredAfterExactly(r, hs, initial, before, events[k]);
    }
  }

  /**
    * Custody equals the initial balance plus the unclaimed notes at every moment of a run exactly
    * when no withdrawal is paid under a second presentation of a nullifier.
    */
  lemma CoveredExactly(r: Modulus, hs: Hashes, initial: nat, l: Ledger, events: seq<Event>)
    requires Solvent(r, hs, initial, l) && TrustedRun(r, hs, l, events)
    requires DistinctNullifiers(hs, Play(r, hs, l, events).notes)
    ensures CoveredThroughout(r, hs, initial, l, events) <==> GuardedRun(r, hs, l, events)
  {
    hide TrustedRun, GuardedRun, Play, Trusted, GuardedAt;
    if GuardedRun(r, hs, l, events) {
      forall k | 0 <= k <= |events|
        ensures LedgerInStep(Play(r, hs, l, events[..k])) && Covered(initial, Play(r, hs, l, events[..k]))
      {
        TrustedPrefix(r, hs, l, events, k);
        GuardedPrefix(r, hs, l, events, k);
        RunStaysSolvent(r, hs, initial, l, events[..k]);
      }
    } else {
      var k := FirstUnguarded(r, hs, l, events);
      UncoveredAfter(r, hs, initial, l, events, k);
    }
  }

  /** A freshly initialised pool, whatever balance it starts with. */
  function Fresh(depth: nat, initial: nat): (l: Ledger)
    ensures InitializePool(Pool(false, 0, [], {}, initial), depth) == Ok(l.pool) && l.notes == [] && l.claimed == []
  {
    Ledger(Pool(true, depth, [], {}, initial), [], [])
  }

  /**
    * Over every guarded run from initialisation, custody covers a withdrawal the contract would
    * otherwise accept, under a nullifier no other presentation of which was spent: the token
    * transfer never fails.
    */
  lemma CustodyCovers(r: Modulus, hs: Hashes, depth: nat, initial: nat, events: seq<Event>, k: nat)
    requires var l := Fresh(depth, initial);
             k < |events| && TrustedRun(r, hs, l, events) && GuardedRun(r, hs, l, events[..k])
    requires events[k].WithdrawEvent?
    requires OnlyAsPresented(r, Play(r, hs, Fresh(depth, initial), events[..k]).pool, events[k].nullifier)
    ensures var p := Play(r, hs, Fresh(depth, initial), events[..k]).pool;
            Perform(r, hs.pair, p, CallOf(events[k])) != Err(TransferFailed)
  {
    var l := Fresh(depth, initial);
    TrustedPrefix(r, hs, l, events, k);
    RunStaysSolvent(r, hs, initial, l, events[..k]);
    assert Trusted(r, hs, Play(r, hs, l, events[..k]), events[k]);
    WithdrawKeepsSolvent(r, hs, initial, Play(r, hs, l, events[..k]), events[k]);
  }

  /** Tokens moved in less tokens moved out by the accepted events of a run. */
  function NetFlow(r: Modulus, hs: Hashes, l: Ledger, events: seq<Event>): int {
    if events == [] then 0
    else
      var n := |events| - 1;
      var before, e := Play(r, hs, l, events[..n]), events[n];
      NetFlow(r, hs, l, events[..n])
      + if !Accepted(r, hs, before.pool, e) then 0 else if e.DepositEvent? then e.amount else -e.amount
  }

  /** Custody is exactly deposits minus withdrawals over every run, with no assumption at all. */
  lemma {:induction false} CustodyIsNetFlow(r: Modulus, hs: Hashes, l: Ledger, events: seq<Event>)
    ensures Play(r, hs, l, events).pool.custody == l.pool.custody + NetFlow(r, hs, l, events)
  {
    if events != [] {
      CustodyIsNetFlow(r, hs, l, events[..|events| - 1]);
    }
  }

  lemma {:induction false} SpentStays(r: Modulus, hs: Hashes, l: Ledger, events: seq<Event>, i: nat, j: nat)
    requires i <= j <= |events|
    ensures Play(r, hs, l, events[..i]).pool.spent <= Play(r, hs, l, events[..j]).pool.spent
    decreases j
  {
    if i < j {
      SpentStays(r, hs, l, events, i, j - 1);
      assert events[..j][..j - 1] == events[..j - 1];
    }
  }

  lemma PaidIsSpent(r: Modulus, hs: Hashes, l: Ledger, events: seq<Event>, i: nat, j: nat)
    requires i < j <= |events| && Paid(r, hs, l, events, i)
    ensures events[i].nullifier in Play(r, hs, l, events[..j]).pool.spent
  {
    assert events[..i + 1][..i] == events[..i];
    SpentStays(r, hs, l, events, i + 1, j);
  }

  /** No nullifier pays twice, in any run, with no assumption at all. */
  lemma NoNullifierPaysTwice(r: Modulus, hs: Hashes, l: Ledger, events: seq<Event>, i: nat, j: nat)
    requires i < j < |events| && Paid(r, hs, l, events, i) && Paid(r, hs, l, events, j)
    ensures events[i].nullifier != events[j].nullifier
  {
    PaidIsSpent(r, hs, l, events, i, j);
  }

  /** Two payments of one note are under different presentations of one nullifier hash, so not both canonical. */
  lemma PaymentsOfOneNote(r: Modulus, hs: Hashes, l: Ledger, events: seq<Event>, i: nat, j: nat)
    requires TrustedRun(r, hs, l, events) && i < j < |events|
    ensures Paid(r, hs, l, events, i) && Paid(r, hs, l, events, j) && events[i].inputs.note == events[j].inputs.note
            ==> && events[i].nullifier != events[j].nullifier
                && events[i].nullifier % r == events[j].nullifier % r
                && (events[i].nullifier >= r || events[j].nullifier >= r)
                && !GuardedAt(r, hs, l, events, j)
  {
    hide CircuitAccepts, Position, Fold, FindBreak, RecentRoots, Play, NoteInField;
    if Paid(r, hs, l, events, i) && Paid(r, hs, l, events, j) && events[i].inputs.note == events[j].inputs.note {
      NoNullifierPaysTwice(r, hs, l, events, i, j);
      PaidIsSpent(r, hs, l, events, i, j);
      assert Trusted(r, hs, Play(r, hs, l, events[..i]), events[i]);
      assert Trusted(r, hs, Play(r, hs, l, events[..j]), events[j]);
      SignalsAreNote(r, hs, Play(r, hs, l, events[..i]).pool, events[i]);
      SignalsAreNote(r, hs, Play(r, hs, l, events[..j]).pool, events[j]);
      if events[i].nullifier < r && events[j].nullifier < r {
        ResidueMod(r, events[i].nullifier);
        ResidueMod(r, events[j].nullifier);
      }
    }
  }

  ghost predicate NoNoteTwice(r: Modulus, hs: Hashes, l: Ledger, events: seq<Event>) {
    forall i, j | 0 <= i < j < |events| && Paid(r, hs, l, events, i) && Paid(r, hs, l, events, j) ::
      events[i].inputs.note != events[j].inputs.note
  }

  /** Everything spent by a run was presented by one of its payments. */
  lemma {:induction false} SpentWasPaid(r: Modulus, hs: Hashes, l: Ledger, events: seq<Event>, s: nat) returns (i: nat)
    requires s !in l.pool.spent && s in Play(r, hs, l, events).pool.spent
    ensures i < |events| && Paid(r, hs, l, events, i) && events[i].nullifier == s
  {
    var n := |events| - 1;
    if s in Play(r, hs, l, events[..n]).pool.spent {
      i := SpentWasPaid(r, hs, l, events[..n], s);
      assert events[..n][..i] == events[..i];
    } else {
      i := n;
    }
  }

  /** A payment of a guarded prefix of a run is of one of the run's notes. */
  lemma PaidNote(r: Modulus, hs: Hashes, initial: nat, l: Ledger, events: seq<Event>, k: nat) returns (i: nat)
    requires Solvent(r, hs, initial, l) && TrustedRun(r, hs, l, events)
    requires k < |events| && GuardedRun(r, hs, l, events[..k]) && Paid(r, hs, l, events, k)
    ensures var notes := Play(r, hs, l, events).notes;
            i < |notes| && notes[i] == events[k].inputs.note && hs.nul(notes[i].nullifier) == events[k].nullifier % r
  {
    var before := Play(r, hs, l, events[..k]);
    TrustedPrefix(r, hs, l, events, k);
    RunStaysSolvent(r, hs, initial, l, events[..k]);
    NotesGrow(r, hs, l, events, k);
    assert Trusted(r, hs, before, events[k]);
    hide Solvent, Play, FindBreak, Position, CircuitAccepts, NoteInField, WitnessInField;
    WithdrawIsOfDeposit(r, hs, initial, before, events[k]);
    i := Position(0, events[k].inputs.rights);
  }

  /** From initialisation, no note pays twice in a run exactly when the run is guarded. */
  lemma NoNotePaysTwice(r: Modulus, hs: Hashes, depth: nat, initial: nat, events: seq<Event>)
    requires TrustedRun(r, hs, Fresh(depth, initial), events)
    requires DistinctNullifiers(hs, Play(r, hs, Fresh(depth, initial), events).notes)
    ensures NoNoteTwice(r, hs, Fresh(depth, initial), events) <==> GuardedRun(r, hs, Fresh(depth, initial), events)
  {
    var l := Fresh(depth, initial);
    assert Solvent(r, hs, initial, l);
    hide Solvent, Play, Trusted, Paid, GuardedAt, TrustedRun;
    if GuardedRun(r, hs, l, events) {
      forall i, j | 0 <= i < j < |events| && Paid(r, hs, l, events, i) && Paid(r, hs, l, events, j)
        ensures events[i].inputs.note != events[j].inputs.note
      {
        PaymentsOfOneNote(r, hs, l, events, i, j);
      }
    } else {
      var k := FirstUnguarded(r, hs, l, events);
      var j := RepeatedPayment(r, hs, depth, initial, events, k);
    }
  }

  lemma FreshIsSolvent(r: Modulus, hs: Hashes, depth: nat, initial: nat)
    ensures Solvent(r, hs, initial, Fresh(depth, initial)) && Fresh(depth, initial).pool.spent == {}
  {
  }

  /** The payment whose note an unguarded one pays again. */
  lemma RepeatedPayment(r: Modulus, hs: Hashes, depth: nat, initial: nat, events: seq<Event>, k: nat) returns (j: nat)
    requires TrustedRun(r, hs, Fresh(depth, initial), events) && k < |events|
    requires DistinctNullifiers(hs, Play(r, hs, Fresh(depth, initial), events).notes)
    ensures var l := Fresh(depth, initial);
            GuardedRun(r, hs, l, events[..k]) && !GuardedAt(r, hs, l, events, k)
            ==> j < k && Paid(r, hs, l, events, j) && Paid(r, hs, l, events, k)
                && events[j].inputs.note == events[k].inputs.note
  {
    var l := Fresh(depth, initial);
    j := 0;
    if GuardedRun(r, hs, l, events[..k]) && !GuardedAt(r, hs, l, events, k) {
      FreshIsSolvent(r, hs, depth, initial);
      hide Solvent, Fresh, Trusted;
      var p := Play(r, hs, l, events[..k]).pool;
      var s :| s in p.spent && s % r == events[k].nullifier % r && s != events[k].nullifier;
      j := SpentWasPaid(r, hs, l, events[..k], s);
      GuardedPrefix(r, hs, l, events[..k], j);
      assert events[..k][..j] == events[..j];
      hide Play, Paid, GuardedAt, GuardedRun;
      var a := PaidNote(r, hs, initial, l, events, k);
      var b := PaidNote(r, hs, initial, l, events, j);
      assert a == b;
    }
  }

  /**
    * The holder of a deposit no presentation of which is spent can always withdraw it: the
    * mirror's path under any root the contract still knows satisfies the circuit, and the
    * contract then pays.
    */
  lemma HonestClaimSucceeds(r: Modulus, hs: Hashes, initial: nat, l: Ledger, k: nat, i: nat, nullifier: nat)
    requires Solvent(r, hs, initial, l)
    requires i < k <= |l.pool.leaves| && RootAfter(hs.pair, l.pool, k) in RecentRoots(hs.pair, l.pool)
    requires hs.nul(l.notes[i].nullifier) == nullifier % r && !Presented(r, l.pool.spent, nullifier % r)
    ensures var root, note, known := RootAfter(hs.pair, l.pool, k), l.notes[i], l.pool.leaves[..k];
            var path := Witness(note, PathElements(hs.pair, known, i, l.pool.depth), PathRights(i, l.pool.depth));
            && CircuitAccepts(hs, l.pool.depth, root, nullifier % r, note.amount, path)
            && WithdrawFrom(hs.pair, l.pool, root, nullifier, note.amount, true).Ok?
  {
    DepositedIsProvable(hs, l.pool, k, i, l.notes[i]);
    assert !l.claimed[i];
    ClaimOne(l.notes, l.claimed, i);
  }
}
