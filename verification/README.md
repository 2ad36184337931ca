# Verified model of the shielded pool and the payment ledgers

This project models, and proves properties of, the parts of the repository where money or
claims could go wrong:

- **The shielded pool's Merkle tree, three ways.** `ShieldedPool.Contract` is the contract: one
  stored left node per level, one hashed path per insert, a ring of 30 roots. `PoolTree.PoolMerkleTree`
  recomputes the whole padded tree. `PoolSync` rebuilds the leaf list from a paged, possibly
  repeating event log. All are related to one definition, `Merkle.Node`, and `Agreement` puts them
  side by side, up to a complete withdraw through the service. Depth, field order, round constants
  and round count are parameters throughout.
- **The pool over whole runs.** `PoolModel` is the contract as a value and `Custody` its solvency:
  custody, the nullifier set, the map from spent nullifiers to deposited notes, and the exact
  condition under which they hold. `Claims` interleaves the separate steps of wallet and bank claims
  with everything else that touches the pool and the payment table; `ClaimService` is one claim as
  the code runs it.
- **MiMC** in both languages: a bijection, and the same hash.
- **The money ledgers**: salary advances (`Advances`, `AdvanceRequests`, `AdvanceRaces`, `AdvanceFifo`),
  benefit conversions (`Conversions`), reconciliation and the other writers of payment status, claims
  of notes included (`Reconcile`, `ReconcileRaces`), treasury yield with its receipt and report (`Yield`).
- **Printers with exact inverses**: the note string and its 32-byte encodings (`Notes`), and the
  report CSV writer against a reader for section 2 of RFC 4180 (`Csv`).

`dafny verify dfyconfig.toml` checks the whole project.

## How the model reads the code

- **Hashes.** No hash of two field elements to one can be injective, so nothing assumes that it is.
  Soundness results compute the colliding inputs whenever the claimed conclusion fails. That a witness
  is a deposited note is derived from the tree (`Custody.WitnessIsDeposit`); `Custody.Trusted` assumes
  only that the values met on the way are not a collision, and `Custody.SolventOrBroken` does without it.
- **Proofs.** The Groth16 verdict is a parameter. `Custody.Honest` assumes of an accepted proof only
  the circuit's own constraints (zk/circuits/withdraw.circom:69-97). `Agreement.CreatePoolWithdraw`
  takes proving to succeed on exactly the inputs that meet them.
- **Deposits.** That a deposit's amount is the amount inside its commitment is assumed where the
  contract documents it as assumed (zk/verifier/src/pool.rs:110-113).
- **Nullifiers.** The set holds the 32 bytes as presented (zk/verifier/src/pool.rs:153), while the
  proof check reduces them (zk/verifier/src/groth16.rs:31). Nothing is assumed of the presentation:
  the solvency results hold exactly under a guard on the spent set that a caller can check
  (`Custody.OnlyAsPresented`). Canonical presentations, which the off-chain encoder always sends
  (lib/pool/proof-encoding.ts:24-27), meet it. The if-and-only-if results take the deposited notes
  to have distinct nullifier hashes.
- **Withdraws that are not confirmed.** The service returns normally when its poll runs out
  (lib/pool/withdraw.ts:120-131). In `Claims` such a withdraw has no effect of its own; if it lands
  later it is one more call on the pool.
- **Money.** Decimals are whole numbers of 1e-8 units (conversions' cash: 1e-7), percentages whole
  hundredths, basis points whole hundredths. Products and quotients before a rounding are exact.
- **Databases and the chain.** Tables are class fields, sequences or maps. A transaction or a guarded
  update is one step; reads and unguarded writes that the code does separately are separate steps.

## Where the code and its description differ

- `get_root` and the mirror's `root` differ before the first deposit (`Agreement.CompareRoots`).
- The mirror's capacity and root are those of the tree up to depth 30 only (`PoolTree.CapacityExact`).
- A missing deposit event is closed up silently; that always loses the log (`PoolSync.SyncExact`).
  Deposits more than 120,000 ledgers back are missing so (`PoolSync.SyncedFromNode`), and those the scan
  does not reach in fifty pages (`PoolSync.PageBoundLoses`).
- The advance limit leaves out the fee, so the total can pass the earned-wage limit by the fee on it
  (`Advances.BoundReached`, `Advances.CapHoldsExactly`); and the transaction around check and creation asks
  for no isolation that would serialise requests, so k concurrent ones can reach k times that
  (`AdvanceRequests.RaceReached`).
- Requests for one item can over-convert it, as many times as there are requests between their check
  and their transaction (`Conversions.OverConversionReached`).
- A nullifier is spent as the bytes presented, so a note whose nullifier was spent in canonical form
  is refused again exactly in canonical form (`Custody.RefusedExactlyIfCanonical`); custody stays equal
  to the unclaimed notes exactly when no second form is paid (`Custody.CoveredExactly`).
- The guarded settle is idempotent, but the other writes of a payment's status are not guarded: the
  failure write beside it, the chain watcher's and those of claims. A claim of its note settles a failed
  payment, and a bank claim in flight reopens a settled one (`ReconcileRaces.ClaimsOverturn`). A terminal
  status is final exactly under the condition of `ReconcileRaces.TerminalForGood`, and then only as long
  as no further failed payout is reported (`ReconcileRaces.FailureReportOverturns`).
- A salary's deduction can be repaid short when another settlement comes in between, and nothing aborts
  (`Advances.PayoutRepaidExactly`). A settlement running beside others is FIFO exactly when it missed no
  row that began to owe after its read (`AdvanceFifo.CommitIsFifoExactly`).
- A sweep-out's failure write is not guarded and can mark a returned position failed; when a closed
  position is final is `ReconcileRaces.ClosedForGood`. A sweep-out that finds the position marked failed
  meanwhile still answers that it was returned (`ReconcileRaces.UnwindAnswerIsReplay`).
- A claim can spend its note and record nothing (`Claims.RecordLostExactly`), and can record a
  nullifier that was never spent (`Claims.UnconfirmedRecordsUnspent`).
- A one-column report whose last row prints as nothing loses that row (`Csv.ReportReadsBack`), and the
  formula guard cannot be undone for a text that itself starts with an apostrophe before a formula
  character (`Csv.UnguardExactly`).

## Model

| member | source | states |
|---|---|---|
| `Field.ToField` | lib/pool/mimc.ts:41-45 | the doubly reduced JavaScript remainder is the least non-negative residue, for negative inputs too |
| `Merkle.AppendFrame` | zk/verifier/src/pool.rs:234-247 | appending a leaf changes only the nodes on the path above it: why hashing one path is enough |
| `Merkle.BeyondLast` | lib/pool/tree.ts:16-21 | every node right of the last leaf's ancestor is the precomputed zero-subtree hash, so the contract may substitute it |
| `Merkle.EmptyRoot` | lib/pool/tree.ts:49-54 | the recomputed root of no leaves is the zero-subtree hash |
| `Merkle.ThreeLeaves` | zk/verifier/src/pool.rs:234-247 | which way round: three leaves are padded with one zero and hashed left to right |
| `Merkle.FoldOnce` | zk/circuits/withdraw.circom:51-64 | which way round on a path: the sibling is to the right of a left child and to the left of a right one |
| `Merkle.PathFolds` | lib/pool/tree.ts:73-95 | completeness: the path of any position folds to the node above it, at every depth |
| `Merkle.PathSound` | zk/circuits/withdraw.circom:45-67 | soundness: a leaf and path folding to a node are the leaf and path really there, or the first differing pair met walking down is a collision of the hash |
| `Merkle.PositionPath` | lib/pool/tree.ts:86-93 | the position read off the direction bits lies under the starting node and has exactly those direction bits |
| `Merkle.RootBinds` | lib/pool/tree.ts:68-71 | equal roots mean equal leaf lists, each padded with zeros to the capacity, or a concrete collision |
| `Merkle.SameTree` | zk/verifier/src/pool.rs:245-246 | two hashes that agree on residues build the same tree, node by node |
| `PoolTree.CapacityExact` | lib/pool/tree.ts:28-31 | the 32-bit `1 << depth` is the number of leaves of the tree exactly for depths up to 30 |
| `PoolTree.ShiftWraps` | lib/pool/tree.ts:28-31 | `1 << depth` is 2^depth as a signed 32-bit number whose shift count wraps at 32 |
| `PoolTree.PoolMerkleTree.Insert` | lib/pool/tree.ts:40-47 | appends the residue at the next index, or refuses and changes nothing when the capacity is reached |
| `PoolTree.PoolMerkleTree.From` | lib/pool/tree.ts:33-38 | succeeds exactly when the list fits, and then holds the residues in order |
| `PoolTree.PoolMerkleTree.NextLevel` | lib/pool/tree.ts:60-63 | pairwise hashing of a row; an odd row reads past its end |
| `PoolTree.PoolMerkleTree.Levels` | lib/pool/tree.ts:49-66 | up to depth 30 the computed table is every node of every level of the padded tree |
| `PoolTree.PoolMerkleTree.Root` | lib/pool/tree.ts:68-71 | a root is defined exactly up to depth 30, and is the tree's root |
| `PoolTree.PoolMerkleTree.BuildPath` | lib/pool/tree.ts:73-95 | no such leaf is refused; otherwise the siblings and 0/1 directions of that leaf, level by level |
| `PoolTree.BuiltPathFolds` | lib/pool/tree.ts:73-95 | the returned path of every leaf folds to the reported root |
| `PoolModel.IndexFits` | zk/verifier/src/pool.rs:229-231 | a leaf index that passes the capacity check lies under the single top node, also where the check is skipped (depth 32 and more) |
| `PoolModel.InitializeExactly` | zk/verifier/src/pool.rs:85-106 | initialisation succeeds once, and sets the depth and nothing else |
| `PoolModel.DepositExactly` | zk/verifier/src/pool.rs:114-130 | which deposits are refused and why, in the contract's order, against the literal limits; an accepted one appends the commitment's residue and takes the amount |
| `PoolModel.WithdrawExactly` | zk/verifier/src/pool.rs:136-182 | which withdrawals are refused and why, in the contract's order; an accepted one spends the nullifier as presented and pays the amount |
| `PoolModel.KnownExactly` | zk/verifier/src/pool.rs:211-221 | a root is known if and only if it is the root after one of the last thirty deposits |
| `PoolModel.DepositKeepsWellFormed` | zk/verifier/src/pool.rs:114-130 | a deposit keeps the leaf count within the tree and every leaf a residue |
| `PoolModel.RecentAfterDeposit` | zk/verifier/src/pool.rs:249-254 | the new root heads the list of known roots, the others age by one place and the thirtieth drops out |
| `PoolModel.RunKeepsWellFormed` | zk/verifier/src/pool.rs:83-182 | over any calls leaves are only appended, the depth never changes and the pool stays well formed |
| `PoolModel.RunOneByOne` | zk/verifier/src/pool.rs:83-182 | calls take effect one after the other, a refused one not at all |
| `PoolModel.RootsAge` | zk/verifier/src/pool.rs:211-221 | over any calls a known root stays known until thirty deposits have followed the one that made it |
| `ShieldedPool.Contract.constructor` | zk/verifier/src/pool.rs:80-84 | an instance before initialisation: nothing stored |
| `ShieldedPool.Contract.PrecomputeZeros` | zk/verifier/src/pool.rs:97-105 | the loop stores the zero-subtree hash of every level below the depth |
| `ShieldedPool.Contract.Initialize` | zk/verifier/src/pool.rs:85-106 | sets token, depth and zeros once; a second call is refused and changes nothing |
| `ShieldedPool.Contract.IsKnownRoot` | zk/verifier/src/pool.rs:211-221 | true exactly for the recomputed roots after each of the last min(n, 30) deposits |
| `ShieldedPool.Contract.RecentIffStored` | zk/verifier/src/pool.rs:250-253 | the ring's slots hold exactly those roots |
| `ShieldedPool.Contract.RingAfterInsert` | zk/verifier/src/pool.rs:250-254 | overwriting the next slot keeps every slot holding the root of the deposit it stands for |
| `ShieldedPool.Contract.GetRoot` | zk/verifier/src/pool.rs:184-191 | 0 before any deposit, afterwards the fully recomputed root |
| `ShieldedPool.Contract.SiblingStep` | zk/verifier/src/pool.rs:237-244 | the sibling met at each level of an insert is the stored left node or the zero subtree |
| `ShieldedPool.Contract.FilledStep` | zk/verifier/src/pool.rs:237-240 | after a level is passed it stores what the following insert will read there, so no unset filled node is ever read |
| `ShieldedPool.Contract.Climb` | zk/verifier/src/pool.rs:233-247 | the loop over levels ends at the top node of the recomputed tree and leaves the filled nodes ready for the next insert |
| `ShieldedPool.Contract.Insert` | zk/verifier/src/pool.rs:223-256 | at every depth and leaf count the incremental root is the root of the fully recomputed zero-padded tree |
| `ShieldedPool.Contract.Deposit` | zk/verifier/src/pool.rs:114-130 | the whole new state and answer, and which refusal comes first |
| `ShieldedPool.Contract.CheckWithdraw` | zk/verifier/src/pool.rs:147-171 | the first refusal in the contract's order, or none |
| `ShieldedPool.Contract.Withdraw` | zk/verifier/src/pool.rs:136-182 | amount, root, nullifier, proof and balance checks in that order; success spends the nullifier and moves the amount, refusal changes nothing |
| `PoolSync.ScanPages` | lib/pool/sync.ts:56-73 | the paging loop collects every row up to the last page or the fiftieth; how far that is, is `PoolSync.ScanIsPages` |
| `PoolSync.ScanIsPages` | lib/pool/sync.ts:56-73 | what is scanned is the pages in order up to the first that follows a missing cursor, a cursor whose toid is at least latest times 2^32, or the fiftieth page |
| `PoolSync.ScanComplete` | lib/pool/sync.ts:56-73 | from a node whose pages report every deposit from the start up to the ledger their cursor names, and that reaches the latest ledger within fifty pages, every deposit from start to latest is scanned |
| `PoolSync.SyncedFromNode` | lib/pool/sync.ts:36-80 | from such a node, with truthful pages, the synced leaves are the whole log if and only if no deposit is more than 120,000 ledgers back |
| `PoolSync.PageBoundLoses` | lib/pool/sync.ts:56-57 | a node in order with one ledger a page, of whose 51 deposits the fifty-page bound loses one |
| `PoolSync.LeavesExactly` | lib/pool/sync.ts:75-79 | from any rows, truthful or not, the leaves are one for each reported index, in increasing order, each the commitment of that index's first row |
| `PoolSync.IndexRows` | lib/pool/sync.ts:75-78 | the first row seen for an index wins |
| `PoolSync.SyncPoolLeaves` | lib/pool/sync.ts:36-80 | the commitments of the scanned rows in index order, one per index |
| `PoolSync.SyncExact` | lib/pool/sync.ts:75-80 | from truthful rows, however paged, repeated or ordered, the leaves are the whole log if and only if every deposit was reported |
| `PoolSync.SyncPoolTree` | lib/pool/sync.ts:82-86 | the mirror holds the residues of the synced leaves, or the list does not fit |
| `PoolSync.SyncedPathStaysKnown` | lib/pool/sync.ts:36-86 | from a complete log, every leaf's path folds to a root the contract knows now and after any calls with at most 29 more deposits |
| `Agreement.MirrorMeetsContract` | lib/pool/tree.ts:3-8 | the synced leaves are the contract's, and the roots under the two languages' hashes are equal |
| `Agreement.CompareRoots` | lib/pool/tree.ts:3-8 | contract root and mirror root are equal from the first deposit on; before it they are 0 and the zero-subtree root |
| `Agreement.HashesInField` | lib/pool/mimc.ts:97-114 | the node, commitment and nullifier hashes are residues for every input |
| `Agreement.MimcHashesAbsorb` | lib/pool/mimc.ts:97-114 | the hashes of node, note and nullifier are the sponge of exactly their inputs in order |
| `Agreement.LeafIndex` | lib/pool/service.ts:82 | the first leaf equal to the commitment, or none |
| `Agreement.MirrorInputsAccepted` | lib/pool/withdraw.ts:48-61 | the inputs built for a deposited note satisfy the withdraw circuit |
| `Agreement.CreatePoolWithdraw` | lib/pool/service.ts:72-95 | end to end: a deposited note always passes the root and proof checks, so it is refused for amount, nullifier or balance alone, and an accepted call takes effect if it lands before its poll gives up; an unknown note is refused |
| `Custody.WitnessIsDeposit` | zk/circuits/withdraw.circom:69-97 | circuit inputs under a known root are those of a deposited note, or the failing hash values are exhibited |
| `Custody.BreakInField` | lib/pool/mimc.ts:97-99 | an exhibited collision of the pair hash is between field elements |
| `Custody.DepositKeepsSolvent` | zk/verifier/src/pool.rs:108-130 | custody equals the initial balance plus unclaimed notes, and spent nullifiers map one to one into claimed notes: kept by a deposit |
| `Custody.WithdrawIsOfDeposit` | zk/verifier/src/pool.rs:158-171 | unless broken hash values are exhibited, a withdrawal under a known root with an accepted proof is of a deposit of its amount, whose nullifier hash is the presented one reduced |
| `Custody.WithdrawIsOfUnclaimed` | zk/verifier/src/pool.rs:147-171 | that deposit is unclaimed and covered by custody if no other presentation of its nullifier was spent |
| `Custody.WithdrawKeepsSolvent` | zk/verifier/src/pool.rs:136-182 | the invariant kept by a withdrawal under that guard, whose token transfer cannot fail |
| `Custody.CoveredAfterExactly` | zk/verifier/src/pool.rs:153-179 | an accepted withdrawal leaves custody equal to the unclaimed notes if and only if no other presentation of its nullifier was spent |
| `Custody.RefusedExactlyIfCanonical` | zk/verifier/src/pool.rs:153-171 | once a nullifier is spent in canonical form only, any presentation of the same note is provable, and is refused as used if and only if it is below the field order |
| `Custody.NextPresentationPays` | zk/verifier/src/pool.rs:153-156 | the input that shows it: nullifier hash plus field order is accepted after the nullifier hash itself, and fits the contract's 32 bytes where twice the field order does |
| `Custody.CanonicalIsGuarded` | lib/pool/proof-encoding.ts:23-27 | a run in which every nullifier is presented below the field order meets the guard throughout |
| `Custody.RunStaysSolvent` | zk/verifier/src/pool.rs:108-182 | the invariant over every guarded run that exhibits no broken hash values |
| `Custody.SolventOrBroken` | zk/verifier/src/pool.rs:108-182 | with nothing assumed of the hashes, an honest guarded run stays solvent or one of its withdrawals computes two inputs of a hash with one value |
| `Custody.CoveredExactly` | zk/verifier/src/pool.rs:108-182 | custody is the initial balance plus the unclaimed notes at every moment of a run if and only if every payment met the guard |
| `Custody.CustodyCovers` | zk/verifier/src/pool.rs:173-179 | after a guarded run custody covers each withdrawal that passes the checks and meets the guard |
| `Custody.CustodyIsNetFlow` | zk/verifier/src/pool.rs:119-124 | custody is deposits minus withdrawals over every run, with no assumption |
| `Custody.NoNullifierPaysTwice` | zk/verifier/src/pool.rs:153-173 | the same 32 bytes never pay twice in any run, with no assumption |
| `Custody.PaymentsOfOneNote` | zk/verifier/src/pool.rs:132-134 | two payments of one note are under different presentations of one nullifier hash, so not both below the field order |
| `Custody.NoNotePaysTwice` | zk/verifier/src/pool.rs:132-134 | from initialisation no note pays twice in a run, whichever roots and paths are used, if and only if every payment met the guard |
| `Custody.HonestClaimSucceeds` | lib/pool/withdraw.ts:36-70 | a deposit no presentation of which is spent can be withdrawn under any root the contract still knows |
| `Claims.OneClaimPerNote` | lib/receiver/claim.ts:75-81 | in every interleaving at most one claim of a note has its withdraw confirmed |
| `Claims.RecordedIsClaimed` | lib/receiver/claim.ts:96-99 | a recorded nullifier hash belongs to a finished claim of the payment's own note, and is spent if that claim's withdraw was confirmed |
| `Claims.RecordedIsSpent` | lib/receiver/claim.ts:79-99 | where every withdraw was confirmed before the claim went on, what is recorded is spent |
| `Claims.SpentExactlyIfConfirmed` | lib/pool/withdraw.ts:120-131 | in every interleaving a nullifier, recorded or not, is spent if and only if some claim of it was confirmed or another withdrawal of it, a late transaction or another caller's, landed |
| `Claims.UnconfirmedRecordsUnspent` | lib/pool/withdraw.ts:120-131 | a run in which the poll gives up and the claim settles and records a nullifier that was never spent |
| `Claims.RecordedExactlyIfDone` | lib/receiver/claim.ts:83-100 | where every withdraw was confirmed, a claim past its withdraw has its nullifier recorded if and only if it finished, or two notes collide |
| `Claims.DoneExactlyIfQuoted` | lib/receiver/claim.ts:142-147 | of the claims that run to their end, a bank claim finishes if and only if its payment had a quote, as the row shows before the withdraw |
| `Claims.RecordLostExactly` | lib/receiver/claim.ts:79-100 | the step after a confirmed withdraw records the nullifier, or, exactly for a bank claim without a quote and for a failure, leaves it spent and unrecorded for ever |
| `Claims.LosingRun` | lib/receiver/claim.ts:138-147 | runs from an empty system that reach both of those ends |
| `Claims.OrphanedForever` | lib/receiver/claim.ts:75-77 | a spent nullifier that no claim is about to record is never recorded by any later step |
| `Claims.RowsKeepTerms` | lib/receiver/claim.ts:130-146 | no step changes a payment's commitment or whether it has a quote |
| `Claims.StatusWrittenFreely` | lib/receiver/claim.ts:130-146 | other writers may give a payment any status at any time, and write nothing else |
| `Claims.PayKeepsInv` | zk/verifier/src/pool.rs:153-173 | the chain step confirms one claim per nullifier whatever the database checks saw |
| `Claims.CommitKeepsInv` | lib/receiver/claim.ts:83-100 | the database step records only the nullifier of its own note |
| `ClaimService.OpeningRuns` | lib/receiver/claim.ts:67-81 | check and withdraw are three steps of the machine in order |
| `ClaimService.WholeClaimExactly` | lib/receiver/claim.ts:67-173 | an uninterrupted claim in columns: nothing changes for an unknown note, a settled or recorded payment and a refused withdraw; otherwise the pool pays if the withdraw is confirmed and the row ends settled, for a wallet, or confirmed on chain, for a bank, with the nullifier hash, unless the quote or the transaction fails |
| `ClaimService.Service.FindFirst` | lib/receiver/claim.ts:71 | some row with the commitment, or none exists |
| `ClaimService.Service.CheckAndWithdraw` | lib/receiver/claim.ts:67-81 | check then withdraw is exactly those steps of the machine, confirmed or not, with the error of the branch taken |
| `ClaimService.Service.Record` | lib/receiver/claim.ts:83-100 | the database transaction, or its failure, is the machine's next step |
| `ClaimService.Service.ClaimToWallet` | lib/receiver/claim.ts:67-100 | an uninterrupted wallet claim is the machine's steps in order, with an unconfirmed withdraw and a failing transaction; a refusal leaves table and chain unchanged |
| `ClaimService.Service.ClaimToBank` | lib/receiver/claim.ts:126-173 | the same for a bank claim, which fails for want of a quote only if its row had none |
| `Mimc.Pow5Correct` | lib/pool/mimc.ts:47-51 | three modular products compute the fifth power |
| `Mimc.RoundIsFifthPower` | lib/pool/mimc.ts:57-73 | a round in integers: the fifth power of key, left half and constant is added to the right half and the halves change places, except in the last; the first constant is not used |
| `Mimc.MimcFeistel` | lib/pool/mimc.ts:57-73 | the loop computes the keyed rounds, swapping the halves in all but the last |
| `Mimc.RoundsInvert` | lib/pool/mimc.ts:57-73 | any number of rounds is undone, in both directions, by the inverse rounds in reverse order |
| `Mimc.FeistelBijective` | lib/pool/mimc.ts:57-73 | a bijection on pairs of residues for every key, constant table and round count |
| `Mimc.MimcSponge` | lib/pool/mimc.ts:79-95 | absorbs every input and squeezes max(1, n) outputs, each one permutation further; no input is an error |
| `Mimc.SqueezeUndone` | lib/pool/mimc.ts:89-93 | each squeezed state is the one before it permuted: the inverse permutation gives that back |
| `Mimc.AbsorbDiffers` | lib/pool/mimc.ts:82-88 | input lists that differ in one residue only end in different states, whatever follows |
| `Mimc.HashesAbsorb` | lib/pool/mimc.ts:97-114 | what the nullifier hash, the node hash and the commitment absorb: every input in its place, its residue added to the left half and the whole state permuted |
| `Mimc.CommitmentSeesEach` | lib/pool/mimc.ts:101-110 | notes that differ in exactly one of secret, nullifier and amount end in different states, of which the commitments are the left halves |
| `Mimc.Hash2` | lib/pool/mimc.ts:97-99 | the exported node hash is one output of the sponge of both children |
| `Mimc.CommitmentHash` | lib/pool/mimc.ts:101-110 | the exported commitment is one output of the sponge of secret, nullifier and amount |
| `Mimc.HashOfNullifier` | lib/pool/mimc.ts:112-114 | the exported nullifier hash is one output of the sponge of the nullifier |
| `Mimc.HashOfResidues` | lib/pool/mimc.ts:82-88 | the hash depends on its inputs only through their residues |
| `Mimc.FrFeistel` | zk/verifier/src/mimc.rs:38-60 | the key-0 loop computes the rounds of the port |
| `Mimc.SpongeWith` | zk/verifier/src/mimc.rs:62-76 | one squeezed output; an empty input list panics |
| `Mimc.PortHash2` | zk/verifier/src/mimc.rs:82-94 | the port's node hash of residues is the TypeScript one |
| `Mimc.PortCommitment` | zk/verifier/src/mimc.rs:96-103 | the port's commitment of residues is the TypeScript one |
| `Mimc.PortNullifierHash` | zk/verifier/src/mimc.rs:105-110 | the port's nullifier hash of a residue is the TypeScript one |
| `Mimc.RoundAgrees` | zk/verifier/src/mimc.rs:43-58 | a round without a key is the keyed round at key 0 |
| `Mimc.HashesAgree` | zk/verifier/src/mimc.rs:62-110 | for input lists of every length the Rust hash of residues is the TypeScript hash |
| `Mimc.TreesAgree` | zk/verifier/src/mimc.rs:82-88 | trees over the same residues are equal at every node in both languages |
| `Notes.PaddedHex` | lib/pool/note.ts:51 | hex text padded to a width is exactly that many digits, for every value that fits |
| `Notes.Hex32Prints` | lib/pool/note.ts:51 | 64 digits print back exactly when their value is below the field order |
| `Notes.LeadingDigit` | lib/pool/note.ts:51 | the first digit weighs most |
| `Notes.SerializedForm` | lib/pool/note.ts:53-56 | a note string is the prefix and 64 hex digits each of the residues of secret, nullifier and amount, in that order |
| `Notes.ParsedExactly` | lib/pool/note.ts:33-69 | a string is a note if and only if it is the prefix and 192 lower-case hex digits; its fields are the residues of the three groups and its hashes those of secret, nullifier and amount in order |
| `Notes.ParseSerialize` | lib/pool/note.ts:53-69 | parsing a serialised note gives the same note, derived fields included |
| `Notes.SerializeParse` | lib/pool/note.ts:53-69 | serialising a parsed string gives that string if and only if each of the three fields is below the field order |
| `Notes.FrBEBytes` | lib/pool/proof-encoding.ts:23-27 | the 32 big-endian base-256 digits of the residue |
| `Notes.AmountEncodersAgree` | zk/verifier/src/pool.rs:72-78 | the contract's amount bytes are the proof encoder's, for every i128 amount below the field order |
| `Notes.CommitmentEncodersAgree` | lib/pool/deposit.ts:18-21 | a canonical commitment has one 32-byte form in deposit, proof encoding and claim lookup |
| `Csv.FieldReads` | lib/reports/csv.ts:14-28 | an escaped cell followed by a delimiter reads back as its guarded text and nothing more |
| `Csv.RecordReads` | lib/reports/csv.ts:30-33 | a row reads back as its cells |
| `Csv.ReadsBackIff` | lib/reports/csv.ts:35-41 | a printed table reads back under section 2 of RFC 4180 if and only if no row is without cells and the last of several rows is not a single empty cell |
| `Csv.ToCsvPrints` | lib/reports/csv.ts:35-41 | header and body are one table joined by CRLF, with or without rows |
| `Csv.ReportReadsBack` | lib/reports/csv.ts:35-41 | with two or more columns every report reads back exactly; with one, exactly when its last row prints as something |
| `Csv.ReportRecovers` | lib/reports/csv.ts:35-41 | every recovered cell of every report that reads back is the text of its row and column, behind one apostrophe where that leads with a formula character |
| `Csv.NoFormulaReadBack` | lib/reports/csv.ts:16-23 | no cell read back starts with =, +, -, @, tab or CR |
| `Csv.GuardExact` | lib/reports/csv.ts:21-23 | the guard puts one apostrophe before exactly the texts that lead with =, +, -, @, tab or CR, and keeps the whole text |
| `Csv.UnguardExactly` | lib/reports/csv.ts:21-23 | a reader who takes such an apostrophe away recovers the text if and only if it was not itself an apostrophe before such a character |
| `Csv.QuotedExactly` | lib/reports/csv.ts:24-27 | a cell is quoted if and only if its guarded text holds a quote, comma, CR or LF, and is else printed bare |
| `Advances.AdvanceTable.constructor` | lib/hr/advances.ts:112-125 | an employee with no advances yet |
| `Advances.AdvanceTable.RequestAdvance` | lib/hr/advances.ts:200-247 | sums what is outstanding and creates the row, or refuses and changes nothing |
| `Advances.AdvanceTable.Approve` | lib/hr/advances.ts:254-265 | moves a requested row only; missing and other rows are refused |
| `Advances.AdvanceTable.MarkDisbursed` | lib/hr/advances.ts:267-278 | moves an approved row only |
| `Advances.AdvanceTable.Reject` | lib/hr/advances.ts:280-292 | moves a row not yet disbursed and clears its balance |
| `Advances.AdvanceTable.Settle` | lib/hr/advances.ts:352-375 | the netting loop gives each row its share stated without any order of processing, and returns min(deduction, total owed) |
| `Money.PercentBounds` | lib/hr/advances.ts:145 | a percentage is the exact one truncated to 7 decimals: a multiple of ten units, at most the exact one and less than ten units below it |
| `Advances.MonthlyBaseBounds` | lib/hr/advances.ts:116-125 | the monthly base is a twelfth of an annual salary, or a monthly one, truncated to 7 decimals |
| `Advances.AllowanceBounds` | lib/hr/advances.ts:135-147 | the allowance in base, day of the month, percentage and cap, from above and below |
| `Advances.RequestExactly` | lib/hr/advances.ts:209-245 | a request passes if and only if with what is outstanding it is within the allowance; its row owes the amount and a fee within ten units of the fee rate, and is approved exactly up to the threshold |
| `Advances.MovesExactly` | lib/hr/advances.ts:200-376 | over all operations, exactly when a row is approved, disbursed, rejected or repaid, and that nothing else of it changes but the balance a settlement lowers |
| `Advances.SettleFifo` | lib/hr/advances.ts:333-337 | a row is touched only if every older owing row is repaid in full |
| `Advances.AtMostOnePartial` | lib/hr/advances.ts:358-374 | of the rows touched at most one is left partly paid |
| `Advances.SettleConserves` | lib/hr/advances.ts:357-375 | what is outstanding falls by exactly what is returned |
| `Advances.DeductionConsumed` | lib/hr/advances.ts:321-322 | a deduction computed on the same rows is consumed in full |
| `Advances.RepaidInFullExactly` | lib/hr/advances.ts:357-375 | a settlement returns the whole deduction if and only if that much is owed when it runs |
| `Advances.PayoutRepaidExactly` | lib/hr/advances.ts:311-375 | a payout's deduction, settled after any further operations, is repaid in full if and only if that much is still owed, and always when no other settlement came between |
| `Advances.SecondPayoutExactly` | lib/hr/advances.ts:321-375 | of two payouts that took their deduction from the same rows, the second is repaid in full if and only if the rows owed both |
| `Advances.AccruedProRata` | lib/hr/advances.ts:142-144 | the accrued amount is the pro rata part of the base truncated to 7 decimals, and the whole base on the last day |
| `Advances.MaxWithinLimit` | lib/hr/advances.ts:142-147 | what accrual allows on any day of the month is at most what the whole month allows |
| `Advances.OutstandingBounded` | lib/hr/advances.ts:213-231 | with each request taken whole, over every run the total outstanding stays within the limit plus the fee on the limit |
| `Advances.BoundReached` | lib/hr/advances.ts:209-231 | the bound is met on the last day of a month of any length: the check leaves the fee out |
| `Advances.CapHoldsExactly` | lib/hr/advances.ts:213-231 | the limit itself is never passed if and only if the fee on it rounds to nothing |
| `Advances.OtherNeverRaises` | lib/hr/advances.ts:254-292 | approval, disbursement, rejection and settlement never raise the total |
| `AdvanceRequests.WholeIsSplit` | lib/hr/advances.ts:216-245 | an uninterrupted request is its check and its creation |
| `AdvanceRequests.OutOfFlight` | lib/hr/advances.ts:216-245 | creation or abandonment takes exactly one request out of flight, and only creation adds its row |
| `AdvanceRequests.RacesBounded` | lib/hr/advances.ts:213-245 | with at most k requests between check and creation the total outstanding stays within k times the limit with its fee, other operations interleaving freely |
| `AdvanceRequests.RaceReached` | lib/hr/advances.ts:213-245 | and k such requests reach k times that bound, for every k, on the last day of a month of 31 days |
| `AdvanceRaces.Runs` | lib/hr/advances.ts:346-376 | every interleaving keeps written rows locked, distinct and as they were read |
| `AdvanceRaces.LifecycleIsAdvances` | lib/hr/advances.ts:200-292 | between settlements the machine's steps are the operations of one employee's table |
| `AdvanceRaces.WriteKeepsInv` | lib/hr/advances.ts:363-372 | kept by a compare-and-set: a match takes a row nobody holds, a mismatch rolls back |
| `AdvanceRaces.CommitKeepsInv` | lib/hr/advances.ts:351-376 | kept by a commit next to any number of running settlements |
| `AdvanceRaces.ReturnedIsFall` | lib/hr/advances.ts:346-376 | the amounts returned by committed settlements are exactly the fall in what is outstanding |
| `AdvanceRaces.CommitReturnsFall` | lib/hr/advances.ts:373-375 | each commit lowers the total by what it returns |
| `AdvanceRaces.OnlyCommitsShow` | lib/hr/advances.ts:336 | an unfinished or aborted settlement changes nothing |
| `AdvanceRaces.StaleReadAborts` | lib/hr/advances.ts:370-372 | a row changed since it was read aborts the settlement |
| `AdvanceFifo.RunsGreedy` | lib/hr/advances.ts:357-361 | in every interleaving each write takes the lesser of what is left of the deduction and what its row owed, and none comes after the deduction is used up |
| `AdvanceFifo.CommitIsFifoExactly` | lib/hr/advances.ts:351-376 | a concurrent commit leaves the FIFO settlement of the rows as they then stand, and returns what that repays, if and only if it missed no owing row: one it did not write though money was left or a newer row was paid |
| `AdvanceFifo.WholeIsSettleOn` | lib/hr/advances.ts:346-376 | a settlement begun, carried out and committed while nobody else holds a row is the sequential one, and returns what that repays |
| `Conversions.ValuationWithin` | lib/hr/conversions.ts:109-118 | cash never exceeds the notional amount, net lies between zero and the cash, and at full rate without a fee less than one unit is lost |
| `Conversions.ValuationBounds` | lib/hr/conversions.ts:109-118 | cash and fee are the exact products truncated to 7 decimals, from above and below |
| `Conversions.SplitCash` | lib/hr/conversions.ts:109-115 | k pieces never yield more gross cash than one conversion and lose at most k - 1 units of 1e-7 |
| `Conversions.SplitNet` | lib/hr/conversions.ts:109-118 | and change the net by at most k - 1 units either way |
| `Conversions.PackageItem.constructor` | lib/hr/conversions.ts:195-197 | an item nothing has been converted from |
| `Conversions.PackageItem.RequestConversion` | lib/hr/conversions.ts:180-227 | an uninterrupted request is the machine's check then reservation, with the error of the branch taken, an item of another employee's or a replaced package included |
| `Conversions.PackageItem.Approve` | lib/hr/conversions.ts:240-253 | moves a requested conversion only |
| `Conversions.PackageItem.MarkDisbursed` | lib/hr/conversions.ts:255-267 | moves an approved conversion only |
| `Conversions.PackageItem.Reject` | lib/hr/conversions.ts:269-292 | moves an undisbursed conversion and releases its reservation once |
| `Conversions.AdmittedExactly` | lib/hr/conversions.ts:195-205 | a request passes if and only if with what is converted it is within the value and its cash, truncated, within the cap |
| `Conversions.ReservesExactly` | lib/hr/conversions.ts:202-227 | an uninterrupted request reserves its amount and creates one conversion with that amount, its cash and its fee |
| `Conversions.MovesExactly` | lib/hr/conversions.ts:240-292 | over all steps, exactly when a conversion is approved, disbursed or rejected, and that only a transaction raises and only a rejection lowers the reserved balance |
| `Conversions.ReservedIsLive` | lib/hr/conversions.ts:207-225 | in every interleaving the converted value is the sum of the conversions not rejected |
| `Conversions.OverConversionBounded` | lib/hr/conversions.ts:195-211 | with at most k requests between check and transaction it stays within k times the item's value; with one, within the value |
| `Conversions.OverConversionReached` | lib/hr/conversions.ts:195-211 | and k such requests reach k times the value, for every k and every policy whose cap admits the value |
| `Reconcile.PaymentRecord.constructor` | lib/reconcile/matcher.ts:13-16 | a payment with no legs and no position |
| `Reconcile.PaymentRecord.TryReconcile` | lib/reconcile/matcher.ts:10-60 | answers and writes as `Reconcile.ReconcilesExactly` says; it answers settled exactly for a settled payment and for an open one with good legs, said in columns |
| `Reconcile.ReconcilesExactly` | lib/reconcile/matcher.ts:23-60 | on an open payment, in columns: fails if and only if a leg failed; settles if and only if the chain leg is confirmed and the fiat leg received or confirmed in the corridor's currency, or none, within one percent of a positive quote; else waits and changes nothing |
| `Reconcile.PaymentRecord.SettleIfOpen` | lib/reconcile/matcher.ts:51-56 | the guarded settle matches a payment that is not terminal, and only then writes |
| `Reconcile.PaymentRecord.ConfirmLeg` | worker/jobs/watch-onchain.ts:36-47 | the leg upsert, whatever the status |
| `Reconcile.PaymentRecord.ConfirmStatus` | worker/jobs/watch-onchain.ts:48-51 | the status update, whatever the status |
| `Reconcile.PaymentRecord.ProcessWatchOnchain` | worker/jobs/watch-onchain.ts:15-64 | uninterrupted: confirms leg then status on an event, fails on the last attempt, leaves terminal payments alone |
| `Reconcile.WatchExactly` | worker/jobs/watch-onchain.ts:15-64 | the same in columns |
| `Reconcile.PaymentRecord.RecordClaim` | lib/receiver/claim.ts:148-173 | the transaction of a claim writes leg, status and nullifier hash, and for a bank claim the corridor and quote, whatever the status |
| `Reconcile.PaymentRecord.Claim` | lib/receiver/claim.ts:67-100 | a claim's check and transaction: refuses a payment that is settled or whose nullifier hash is recorded, and then changes nothing |
| `Reconcile.ClaimExactly` | lib/receiver/claim.ts:75-173 | the same in columns, with what each kind of claim writes |
| `Reconcile.PaymentRecord.RecordPayout` | app/api/webhooks/fiat/route.ts:102-127 | a reported payout replaces the fiat leg, and a failed one fails the payment whatever its status |
| `Reconcile.PaymentRecord.BankClaim` | lib/receiver/claim.ts:126-207 | an uninterrupted bank claim from its check through withdraw, record and payout to its reconciliation; the answer it gives is the status it leaves |
| `Reconcile.BankClaimExactly` | lib/receiver/claim.ts:142-196 | a withdrawn bank claim settles if and only if its fiat leg is in the off-ramp's currency and within one percent of the quote, fails if and only if that leg failed, and otherwise stays confirmed on chain; the payout it orders itself pays the quote |
| `Reconcile.PaymentRecord.SweepIn` | lib/yield/sweep.ts:48-111 | opens one position, moving a pending payment only; a second sweep answers from the first |
| `Reconcile.SweepInExactly` | lib/yield/sweep.ts:48-98 | the same in columns: exactly when a position is opened, with which principal, swap, rate and status |
| `Reconcile.PaymentRecord.CommitUnwind` | lib/yield/sweep.ts:183-203 | the guarded transaction writes the computed columns to a position still held, and moves an open payment only |
| `Reconcile.PaymentRecord.MarkFellBack` | lib/yield/sweep.ts:226-232 | the failure update writes the state column whatever the state |
| `Reconcile.PaymentRecord.SweepOut` | lib/yield/sweep.ts:137-250 | uninterrupted: unwinds a held position or marks it failed; later calls replay the outcome |
| `Reconcile.SweepOutExactly` | lib/yield/sweep.ts:137-250 | the same in columns: which positions are unwound or marked failed, and what becomes of the status |
| `ReconcileRaces.WholeIsSplit` | lib/reconcile/matcher.ts:10-60 | a reconcile call or watcher job taken whole is its read and its writes in order |
| `ReconcileRaces.WholeSweepIsSplit` | lib/yield/sweep.ts:137-250 | so is a sweep-out |
| `ReconcileRaces.WholeClaimIsSplit` | lib/receiver/claim.ts:67-100 | so is a claim of a note, recorded or given up |
| `ReconcileRaces.WholeBankClaimIsSplit` | lib/receiver/claim.ts:126-187 | and a bank claim with its payout's webhook, failed or not, and its reconciliation |
| `ReconcileRaces.OverturnsExactly` | lib/reconcile/matcher.ts:26-30 | a step changes a terminal status if and only if it is an unguarded write, with its job in flight, of another status: a watcher's, a claim's, a failure report's or a reconcile call's |
| `ReconcileRaces.WritesOnce` | worker/jobs/watch-onchain.ts:36-51 | no job does a write twice; only a sweep-out that got no answer may still do its failure write |
| `ReconcileRaces.StatusKeptExactly` | lib/reconcile/matcher.ts:19-56 | a settled or failed payment is so all through a run if and only if no such write falls in it |
| `ReconcileRaces.TerminalForGood` | lib/receiver/claim.ts:75-164 | short of a further failure report it stays so whatever follows if and only if no watcher is between its read and its last write and, if settled, nothing in flight is a failure write or a bank claim, and, if failed, no claim is in flight or open to be made |
| `ReconcileRaces.FailureReportOverturns` | app/api/webhooks/fiat/route.ts:119-127 | a report of a failed payout overturns a settled payment whenever it comes |
| `ReconcileRaces.ClaimsOverturn` | lib/receiver/claim.ts:75-164 | the two ways a claim overturns a status: a wallet claim settles a failed payment whose note is left, and a bank claim checked before a settle turns the settled payment back to confirmed |
| `ReconcileRaces.TerminalAbsorbs` | lib/reconcile/matcher.ts:19-21 | with each job whole, claims included, a settled payment keeps its status for ever, and a failed one if and only if no note of it is left to claim |
| `ReconcileRaces.TerminalStays` | lib/reconcile/matcher.ts:51-55 | only a late confirmation, by the watcher or by a bank claim, takes a payment out of the terminal states |
| `ReconcileRaces.NextWins` | lib/reconcile/matcher.ts:51-56 | a win is exactly a step of a reconcile call that settles an open payment on legs good as it read them |
| `ReconcileRaces.NextReopens` | worker/jobs/watch-onchain.ts:48-51 | a late confirmation is exactly a step out of the terminal states |
| `ReconcileRaces.WinsBounded` | lib/reconcile/matcher.ts:51-56 | in every interleaving the settles exceed the late confirmations by at most one |
| `ReconcileRaces.LateConfirmationsSettleAgain` | worker/jobs/watch-onchain.ts:48-51 | the bound is met for every n: n late confirmations, n + 1 settles |
| `ReconcileRaces.AtMostOneWin` | lib/reconcile/matcher.ts:51-56 | in every interleaving at most one call has won the settle as long as no terminal payment was confirmed late |
| `ReconcileRaces.WholeWatchersNeverReopen` | worker/jobs/watch-onchain.ts:22-51 | and none is while watcher jobs are whole and there is no bank claim, all else split at will |
| `ReconcileRaces.ReadsAreReal` | lib/reconcile/matcher.ts:13-16 | a pending call acts on the rows of one earlier moment |
| `ReconcileRaces.WinsOnGoodLegs` | lib/reconcile/matcher.ts:32-49 | a call wins only if, when it read them, the payment was open, the chain leg confirmed, the fiat leg received or confirmed in the corridor's currency, or none, and within one percent of a positive quote |
| `ReconcileRaces.AnswerIsStored` | lib/reconcile/matcher.ts:52-59 | a settling call's answer is the stored status unless the payment has failed since its read |
| `ReconcileRaces.StaleFailureUndoesSettle` | lib/reconcile/matcher.ts:26-30 | a run in which the unguarded failure write undoes a settle made after the read |
| `ReconcileRaces.ClosedPositionsKeptExactly` | lib/yield/sweep.ts:145-232 | a returned or failed position stays as it is all through a run if and only if no failure write of a sweep-out in flight falls on a returned one |
| `ReconcileRaces.ClosedForGood` | lib/yield/sweep.ts:148-167 | it is final whatever follows if and only if it is a failed one or no sweep-out is in flight |
| `ReconcileRaces.StaleFailureOverReturn` | lib/yield/sweep.ts:226-248 | the run that shows it: two sweep-outs read, one returns the position, the other marks it failed, and later calls report the whole principal short |
| `ReconcileRaces.UnwindAnswerIsReplay` | lib/yield/sweep.ts:206-215 | what a sweep-out answers after its guarded update, matched or not, is what later calls answer if and only if no other one had marked the position failed |
| `ReconcileRaces.StaleUnwindReportsZero` | lib/yield/sweep.ts:206-215 | the run where one did: the sweep-out answers that 0 was returned |
| `ReconcileRaces.PositionsStayBooked` | lib/yield/sweep.ts:184-194 | in every interleaving a stored position's columns, overwritten or not, are the correctly rounded swaps and fee of its own principal and yield |
| `Yield.HalfUp` | lib/yield/swap.ts:52-57 | rounding to 8 decimals: the nearest unit, halves up, stated by bounds that fix the result |
| `Yield.SwapConserves` | lib/yield/swap.ts:42-61 | received plus reported slippage is the input, except one unit more exactly at a rounding tie |
| `Yield.AccrualRate` | lib/yield/accrual.ts:14-28 | a twentieth of the principal for a year, in proportion to the time held, to the nearest unit |
| `Yield.AccrualWithinPrecision` | lib/yield/accrual.ts:26-27 | rounding the held fraction and the products to the library's 20 significant digits moves the accrued yield by at most one unit, up to 5e17 units |
| `Yield.AccrualAdds` | lib/yield/accrual.ts:19-28 | linear in time: cutting a hold in two changes what it accrues by at most one unit |
| `Yield.SweepAmount` | lib/yield/eligibility.ts:26-34 | an amount is swept exactly when it clears buffer and threshold, and leaves the buffer; else the reason is the first that applies |
| `Yield.OpenIsBooked` | lib/yield/sweep.ts:66-83 | a position is opened held, with the swapped amount, at the asset and fee rate configured then |
| `Yield.UnwindExactly` | lib/yield/sweep.ts:169-194 | an unwind accrues a twentieth of the principal a year for the time held, takes the snapshotted fee rate of that, and swaps principal with yield back, each to the nearest unit |
| `Yield.RoundTripSlippage` | lib/reconcile/receipt.ts:71-77 | the receipt's slippage is within one unit of 1e-8 of five basis points of everything that was swapped, for a failed position with an unwind on record too |
| `Yield.NetsAgree` | lib/reports/yield-attribution.ts:62-75 | fee plus net is the accrued yield exactly; the receipt's net is the report's, or one unit more exactly at a tie of the fee |
| `Yield.CentsExactly` | lib/reports/yield-attribution.ts:62-75 | a reported principal is whole cents, at most half a cent off |
| `Yield.AccumulateByAsset` | lib/reports/yield-attribution.ts:95-102 | the loop's totals are, per asset, the sums of that asset's rows, and no other asset appears |
| `Yield.TotalsFollowPositions` | lib/reports/yield-attribution.ts:95-111 | an asset's total net is the sum of its nets exactly; its total principal drifts by at most half a cent a position |

## Left out

- Groth16 pairings, snarkjs, curve point encodings (`feBE`, `negG1`, `g2`) and host calls: a verdict stands for them.
- The recipient address and its field encoding: the circuit does not tie it to the payout, and no property here depends on it.
- The concrete 220 constants and their SHA-256 derivation: any table of residues will do.
- Soroban's `Fr` is taken to reduce modulo the field order when built from bytes, and to be printed canonically.
- Token transfers that go to the pool outside `deposit`, withdrawals paid to the pool's own address, and i128 limits of the token contract.
- RPC, Prisma, queues, mail, PDF, logging, sessions and encryption; the node's answers and the database's choice of row are parameters.
- `PoolMerkleTree` for negative or fractional depths.
- Random note minting, and `xlmToStroops`, a conversion of one decimal string.
- The table of `Advances` has one monthly base: a salary that changes between an employee's requests is not modelled.
- Library precision: decimal quotients are exact here, where the library keeps 20 significant digits; for accrued yield `Yield.AccrualWithinPrecision` bounds the difference. Request amounts with more than 8 decimals are not modelled.
- `ClaimService.Service.ClaimToBank`: stops at the database transaction; payout and reconciliation follow in `Reconcile.PaymentRecord.BankClaim`, on one payment's row.
- `Yield.AccrualRate`: states the exact formula, which the library's 20 digits meet to within one unit (`Yield.AccrualWithinPrecision`).
- The transaction hash and ledger on a leg and the receipt a claim or a settle writes, apart from the yield block.
- `Csv.ReportReadsBack`: cell values are text already; how a number prints is the language's own.
- `joinCsvBlocks`, which puts a blank line between blocks and so is not one table.
- The sort of report totals by asset name, and the counts of positions by status.
- Payroll, FX and reconciliation report tallies, date ranges, dashboards, demo reset and all pages.
