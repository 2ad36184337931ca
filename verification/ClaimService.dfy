/**
  * One claim request from start to end, on the payment table and the contract object. Run
  * without interruption it is exactly the four steps of the `Claims` machine.
  */
module ClaimService {
  import opened Field
  import opened Results
  import opened PoolModel
  import opened Custody
  import opened Payments
  import opened Claims
  import opened ShieldedPool

  datatype ClaimError =
    | UnknownNote | AlreadyClaimed | ChainRefused(error: PoolModel.Error) | UnsupportedCorridor | WriteFailed

  /** The steps of the machine up to the withdraw. */
  function Opening(id: nat, how: Method, note: NoteData, found: Option<nat>, root: int, proofOk: bool,
                   confirmed: bool): seq<Step> {
    [] + [Submit(id, how, note)] + [Check(id, found)] + [Pay(id, root, proofOk, confirmed)]
  }

  lemma OpeningRuns(r: Modulus, hs: Hashes, w: World, id: nat, how: Method, note: NoteData, found: Option<nat>,
                    root: int, proofOk: bool, confirmed: bool)
    ensures Runs(r, hs, w, Opening(id, how, note, found, root, proofOk, confirmed))
         == Next(r, hs, Next(r, hs, Next(r, hs, w, Submit(id, how, note)), Check(id, found)),
                 Pay(id, root, proofOk, confirmed))
  {
    hide Next;
    RunsEmpty(r, hs, w);
    RunsSnoc(r, hs, w, [], Submit(id, how, note));
    RunsSnoc(r, hs, w, [] + [Submit(id, how, note)], Check(id, found));
    RunsSnoc(r, hs, w, [] + [Submit(id, how, note)] + [Check(id, found)], Pay(id, root, proofOk, confirmed));
  }

  /** The note is of a payment neither settled nor recorded, and the pool accepts its withdraw. */
  predicate GoesThrough(hs: Hashes, w: World, note: NoteData, found: Option<nat>, root: int, proofOk: bool)
    requires Matches(hs, w, note, found)
  {
    match found
    case None => false
    case Some(pid) =>
      && w.payments[pid].status != SETTLED && w.payments[pid].nullifierHash.None?
      && WithdrawFrom(hs.pair, w.chain, root, hs.nul(note.nullifier), note.amount, proofOk).Ok?
  }

  lemma OpeningExactly(r: Modulus, hs: Hashes, w: World, id: nat, how: Method, note: NoteData, found: Option<nat>,
                       root: int, proofOk: bool, confirmed: bool)
    requires id !in w.claims && NoteInField(r, note) && Matches(hs, w, note, found)
    ensures var paid := Runs(r, hs, w, Opening(id, how, note, found, root, proofOk, confirmed));
            var res := WithdrawFrom(hs.pair, w.chain, root, hs.nul(note.nullifier), note.amount, proofOk);
            if !GoesThrough(hs, w, note, found, root, proofOk) then
              paid == w.(claims := w.claims[id := Claim(how, note, Rejected)])
            else
              paid == World(if confirmed then res.value else w.chain, w.payments,
                            w.claims[id := Claim(how, note, Paid(found.value, confirmed))])
  {
    OpeningRuns(r, hs, w, id, how, note, found, root, proofOk, confirmed);
    hide Runs, Opening, WithdrawFrom, NoteInField;
  }

  /**
    * A claim nothing interrupts, in the columns it reads and writes. One that does not go through
    * leaves everything as it was. Otherwise the withdraw takes effect if it is confirmed, and the row
    * ends settled, for a wallet, or confirmed on chain, for a bank, with the note's nullifier hash;
    * a bank claim without a quote and a failing transaction leave the row alone.
    */
  lemma WholeClaimExactly(r: Modulus, hs: Hashes, w: World, id: nat, how: Method, note: NoteData, found: Option<nat>,
                          root: int, proofOk: bool, confirmed: bool, commits: bool)
    requires id !in w.claims && NoteInField(r, note) && Matches(hs, w, note, found)
    ensures var end := Runs(r, hs, w, Opening(id, how, note, found, root, proofOk, confirmed)
                            + [if commits then Commit(id) else Crash(id)]);
            var res := WithdrawFrom(hs.pair, w.chain, root, hs.nul(note.nullifier), note.amount, proofOk);
            if !GoesThrough(hs, w, note, found, root, proofOk) then
              end == w.(claims := w.claims[id := Claim(how, note, Rejected)])
            else
              var pid, row := found.value, w.payments[found.value];
              var chain := if confirmed then res.value else w.chain;
              if !commits then end == World(chain, w.payments, w.claims[id := Claim(how, note, Died(pid, confirmed))])
              else if how == Bank && !row.quoted then
                end == World(chain, w.payments, w.claims[id := Claim(how, note, Stranded(pid, confirmed))])
              else
                var row' := row.(status := if how == Wallet then SETTLED else ONCHAIN_CONFIRMED,
                            nullifierHash := Some(hs.nul(note.nullifier)));
                end == World(chain, w.payments[pid := row'], w.claims[id := Claim(how, note, Done(pid, confirmed))])
  {
    var last := if commits then Commit(id) else Crash(id);
    var res := WithdrawFrom(hs.pair, w.chain, root, hs.nul(note.nullifier), note.amount, proofOk);
    OpeningExactly(r, hs, w, id, how, note, found, root, proofOk, confirmed);
    RunsSnoc(r, hs, w, Opening(id, how, note, found, root, proofOk, confirmed), last);
    if !GoesThrough(hs, w, note, found, root, proofOk) {
      RejectedStays(r, hs, w, id, Claim(how, note, Rejected), last);
    } else {
      var chain := if confirmed then res.value else w.chain;
      LastStep(r, hs, World(chain, w.payments, w.claims), id, how, note, found.value, confirmed, commits);
    }
    hide *;
  }

  lemma RejectedStays(r: Modulus, hs: Hashes, w: World, id: nat, c: Claim, last: Step)
    requires c.phase == Rejected && (last == Commit(id) || last == Crash(id))
    ensures var rejected := w.(claims := w.claims[id := c]);
            Next(r, hs, rejected, last) == rejected
  {
  }

  /** The step after a withdraw: the record, the missing quote, or the failure. */
  lemma LastStep(r: Modulus, hs: Hashes, w: World, id: nat, how: Method, note: NoteData, pid: nat, confirmed: bool,
                 commits: bool)
    requires pid in w.payments
    ensures var paid := w.(claims := w.claims[id := Claim(how, note, Paid(pid, confirmed))]);
            var end := Next(r, hs, paid, if commits then Commit(id) else Crash(id));
            var row := w.payments[pid];
            if !commits then end == w.(claims := w.claims[id := Claim(how, note, Died(pid, confirmed))])
            else if how == Bank && !row.quoted then
              end == w.(claims := w.claims[id := Claim(how, note, Stranded(pid, confirmed))])
            else
              var row' := row.(status := if how == Wallet then SETTLED else ONCHAIN_CONFIRMED,
                          nullifierHash := Some(hs.nul(note.nullifier)));
              end == World(w.chain, w.payments[pid := row'], w.claims[id := Claim(how, note, Done(pid, confirmed))])
  {
    var paid := w.(claims := w.claims[id := Claim(how, note, Paid(pid, confirmed))]);
    assert paid.claims[id := Claim(how, note, Died(pid, confirmed))]
        == w.claims[id := Claim(how, note, Died(pid, confirmed))];
    assert paid.claims[id := Claim(how, note, Stranded(pid, confirmed))]
        == w.claims[id := Claim(how, note, Stranded(pid, confirmed))];
    assert paid.claims[id := Claim(how, note, Done(pid, confirmed))]
        == w.claims[id := Claim(how, note, Done(pid, confirmed))];
  }

  class Service {
    const pool: Contract
    const hs: Hashes
    var payments: map<nat, Payment>
    ghost var claims: map<nat, Claim>

    ghost predicate Ready()
      reads this, pool
    {
      pool.Valid() && pool.h == hs.pair
    }

    ghost function Now(): World
      reads this, pool
    {
      World(pool.View(), payments, claims)
    }

    constructor (pool: Contract, hs: Hashes)
      requires pool.Valid() && pool.h == hs.pair
      ensures Ready() && this.pool == pool && this.hs == hs && payments == map[] && claims == map[]
    {
      this.pool := pool;
      this.hs := hs;
      payments := map[];
      claims := map[];
    }

    /** Any payment row with this commitment, if there is one. */
    method FindFirst(note: NoteData) returns (found: Option<nat>)
      ensures Matches(hs, Now(), note, found)
      ensures match found
              case Some(pid) => pid in payments && payments[pid].commitment == Some(hs.commit(note))
              case None => forall pid <- payments :: payments[pid].commitment != Some(hs.commit(note))
    {
      if pid: nat :| pid in payments && payments[pid].commitment == Some(hs.commit(note)) {
        return Some(pid);
      }
      return Option.None;
    }

    /**
      * The checks and the withdraw that wallet and bank claims share. A withdraw passes simulation
      * before it is sent; `confirmed` is whether the poll then saw it on chain before giving up.
      */
    method CheckAndWithdraw(ghost id: nat, ghost how: Method, note: NoteData, root: int, proofOk: bool, confirmed: bool)
      returns (found: Option<nat>, e: Option<ClaimError>)
      requires Ready() && id !in claims && NoteInField(pool.r, note)
      modifies this`claims, pool
      ensures Ready() && Matches(hs, old(Now()), note, found)
      ensures Now() == Runs(pool.r, hs, old(Now()), Opening(id, how, note, found, root, proofOk, confirmed))
      ensures match e
              case None => found.Some? && id in claims && claims[id] == Claim(how, note, Paid(found.value, confirmed))
              case Some(UnknownNote) => found.None?
              case Some(AlreadyClaimed) =>
                && found.Some?
                && (payments[found.value].status == SETTLED || payments[found.value].nullifierHash.Some?)
              case Some(ChainRefused(x)) =>
                WithdrawFrom(hs.pair, old(pool.View()), root, hs.nul(note.nullifier), note.amount, proofOk) == Err(x)
              case _ => false
      ensures e.Some? ==> id in claims && claims[id] == Claim(how, note, Rejected)
      ensures e.Some? || !confirmed ==> pool.View() == old(pool.View())
    {
      ghost var before := Now();
      hide Runs, Next, Opening, WithdrawFrom, WellFormed, NoteInField;
      hide Contract.RingOk, Contract.FilledRange, Contract.ZerosOk;
      found := FindFirst(note);
      OpeningExactly(pool.r, hs, before, id, how, note, found, root, proofOk, confirmed);
      claims := claims[id := Claim(how, note, Rejected)];
      if found.None? {
        return found, Some(UnknownNote);
      }
      if payments[found.value].status == SETTLED || payments[found.value].nullifierHash.Some? {
        return found, Some(AlreadyClaimed);
      }
      var refused := pool.CheckWithdraw(root, hs.nul(note.nullifier), note.amount, proofOk);
      if refused.Some? {
        return found, Some(ChainRefused(refused.value));
      }
      if confirmed {
        refused := pool.Withdraw(root, hs.nul(note.nullifier), note.amount, proofOk);
      }
      claims := claims[id := Claim(how, note, Paid(found.value, confirmed))];
      return found, Option.None;
    }

    /** The database transaction after the withdraw, or its failure. */
    method Record(ghost id: nat, found: nat, note: NoteData, status: Status, commits: bool)
      returns (e: Option<ClaimError>)
      requires Ready() && found in payments
      requires id in claims && claims[id].phase.Paid? && claims[id].phase.payment == found && claims[id].note == note
      requires claims[id].how.Wallet? || payments[found].quoted
      requires status == if claims[id].how.Wallet? then SETTLED else ONCHAIN_CONFIRMED
      modifies this
      ensures Ready() && Now() == Next(pool.r, hs, old(Now()), if commits then Commit(id) else Crash(id))
      ensures e == if commits then Option.None else Some(WriteFailed)
      ensures id in claims && claims[id].phase.Done? == commits
      ensures !commits ==> payments == old(payments)
    {
      if !commits {
        claims := claims[id := claims[id].(phase := Died(found, claims[id].phase.confirmed))];
        return Some(WriteFailed);
      }
      var row := payments[found].(status := status, nullifierHash := Some(hs.nul(note.nullifier)));
      payments := payments[found := row];
      claims := claims[id := claims[id].(phase := Done(found, claims[id].phase.confirmed))];
      return Option.None;
    }

    method ClaimToWallet(ghost id: nat, note: NoteData, root: int, proofOk: bool, confirmed: bool, commits: bool)
      returns (found: Option<nat>, e: Option<ClaimError>)
      requires Ready() && id !in claims && NoteInField(pool.r, note)
      modifies this, pool
      ensures Ready() && Matches(hs, old(Now()), note, found)
      ensures Now() == Runs(pool.r, hs, old(Now()),
                            Opening(id, Wallet, note, found, root, proofOk, confirmed)
                            + [if commits then Commit(id) else Crash(id)])
      ensures e.None? <==> id in claims && claims[id].phase.Done?
      ensures e.Some? ==> payments == old(payments)
      ensures e.Some? && e != Some(WriteFailed) ==> pool.View() == old(pool.View())
    {
      ghost var before := Now();
      found, e := CheckAndWithdraw(id, Wallet, note, root, proofOk, confirmed);
      ghost var opening := Opening(id, Wallet, note, found, root, proofOk, confirmed);
      RunsSnoc(pool.r, hs, before, opening, if commits then Commit(id) else Crash(id));
      hide Runs, Opening, WithdrawFrom;
      if e.None? {
        e := Record(id, found.value, note, SETTLED, commits);
      }
    }

    /** The bank claim up to its database transaction; the off-ramp and reconciliation follow it. */
    method ClaimToBank(ghost id: nat, note: NoteData, root: int, proofOk: bool, confirmed: bool, commits: bool)
      returns (found: Option<nat>, e: Option<ClaimError>)
      requires Ready() && id !in claims && NoteInField(pool.r, note)
      modifies this, pool
      ensures Ready() && Matches(hs, old(Now()), note, found)
      ensures var quoted := found.Some? && old(payments)[found.value].quoted;
              Now() == Runs(pool.r, hs, old(Now()),
                            Opening(id, Bank, note, found, root, proofOk, confirmed)
                            + [if quoted && !commits then Crash(id) else Commit(id)])
      ensures e.None? <==> id in claims && claims[id].phase.Done?
      ensures e == Some(UnsupportedCorridor) <==> id in claims && claims[id].phase.Stranded?
      ensures e == Some(UnsupportedCorridor) ==> found.Some? && !old(payments)[found.value].quoted
      ensures e.Some? ==> payments == old(payments)
    {
      ghost var before := Now();
      found, e := CheckAndWithdraw(id, Bank, note, root, proofOk, confirmed);
      ghost var opening := Opening(id, Bank, note, found, root, proofOk, confirmed);
      ghost var quoted := found.Some? && payments[found.value].quoted;
      RunsSnoc(pool.r, hs, before, opening, if quoted && !commits then Crash(id) else Commit(id));
      hide Runs, Opening, WithdrawFrom;
      if e.None? && !payments[found.value].quoted {
        claims := claims[id := claims[id].(phase := Stranded(found.value, confirmed))];
        e := Some(UnsupportedCorridor);
      } else if e.None? {
        e := Record(id, found.value, note, ONCHAIN_CONFIRMED, commits);
      }
    }
  }
}
