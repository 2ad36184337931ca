/**
  * The claim protocol as a state machine. A claim checks the database, withdraws on chain
  * and commits to the database in three separate steps; any number of wallet and bank
  * claims, other users of the pool, and other writers of payment status interleave freely.
  */
module Claims {
  import opened Bits
  import opened Field
  import opened Results
  import opened PoolModel
  import opened Custody
  import opened Merkle
  import opened Payments

  datatype Method = Wallet | Bank

  /**
    * `confirmed` is whether the poll saw the withdraw succeed. It may run out first: the claim
    * then goes on, although its transaction may land later, as another call, or never.
    */
  datatype Phase =
    | Started
    | Checked(payment: nat)                    // the pre-check passed
    | Paid(payment: nat, confirmed: bool)      // the withdraw was submitted, nothing recorded yet
    | Done(payment: nat, confirmed: bool)      // the database transaction committed
    | Stranded(payment: nat, confirmed: bool)  // a bank claim found no quote after its withdraw
    | Died(payment: nat, confirmed: bool)      // the process or the transaction failed after the withdraw
    | Rejected

  datatype Claim = Claim(how: Method, note: NoteData, phase: Phase)

  /** `quoted` is whether the payment's asset has a rate to the off-ramp currency. */
  datatype Payment = Payment(commitment: Option<int>, nullifierHash: Option<nat>, status: Status, quoted: bool)

  datatype World = World(chain: Pool, payments: map<nat, Payment>, claims: map<nat, Claim>)

  datatype Step =
    | Submit(id: nat, how: Method, note: NoteData)  // a parsed note, whose fields are residues
    | Check(id: nat, found: Option<nat>)  // the row `findFirst` returned
    | Pay(id: nat, root: int, proofOk: bool, confirmed: bool)
    | Commit(id: nat)
    | Crash(id: nat)
    | OtherCall(call: Call)               // any other transaction on the pool, and a late one of a claim
    | Create(payment: nat, commitment: Option<int>, initial: Status, quoted: bool)
    | SetStatus(payment: nat, status: Status)

  /** The pre-check refuses a settled payment and one with a recorded nullifier hash. */
  predicate Claimable(p: Payment) {
    p.status != SETTLED && p.nullifierHash.None?
  }

  /** Whether the database could return this row for this note. */
  predicate Matches(hs: Hashes, w: World, note: NoteData, found: Option<nat>) {
    match found
    case Some(pid) => pid in w.payments && w.payments[pid].commitment == Some(hs.commit(note))
    case None => forall pid <- w.payments :: w.payments[pid].commitment != Some(hs.commit(note))
  }

  function SetPhase(w: World, id: nat, phase: Phase): World
    requires id in w.claims
  {
    w.(claims := w.claims[id := w.claims[id].(phase := phase)])
  }

  /** After the withdraw: a bank claim looks for a quote; then one transaction records the claim. */
  function Finished(hs: Hashes, w: World, id: nat): World
    requires id in w.claims && w.claims[id].phase.Paid? && w.claims[id].phase.payment in w.payments
  {
    var c, pid := w.claims[id], w.claims[id].phase.payment;
    if c.how.Bank? && !w.payments[pid].quoted then SetPhase(w, id, Stranded(pid, c.phase.confirmed))
    else
      var status := if c.how.Wallet? then SETTLED else ONCHAIN_CONFIRMED;
      var row := w.payments[pid].(nullifierHash := Some(hs.nul(c.note.nullifier)), status := status);
      SetPhase(w, id, Done(pid, c.phase.confirmed)).(payments := w.payments[pid := row])
  }

  /** One step; a step that is not enabled changes nothing. */
  function Next(r: Modulus, hs: Hashes, w: World, s: Step): World {
    match s
    case Submit(id, how, note) =>
      if id in w.claims || !NoteInField(r, note) then w else w.(claims := w.claims[id := Claim(how, note, Started)])
    case Check(id, found) =>
      if id !in w.claims || !w.claims[id].phase.Started? || !Matches(hs, w, w.claims[id].note, found) then w
      else if found.None? || !Claimable(w.payments[found.value]) then SetPhase(w, id, Rejected)
      else SetPhase(w, id, Checked(found.value))
    case Pay(id, root, proofOk, confirmed) =>
      if id !in w.claims || !w.claims[id].phase.Checked? then w
      else
        var c := w.claims[id];
        var res := WithdrawFrom(hs.pair, w.chain, root, hs.nul(c.note.nullifier), c.note.amount, proofOk);
        if res.Err? then SetPhase(w, id, Rejected)  // refused in simulation or on chain
        else SetPhase(w, id, Paid(c.phase.payment, confirmed)).(chain := if confirmed then res.value else w.chain)
    case Commit(id) =>
      if id !in w.claims || !w.claims[id].phase.Paid? || w.claims[id].phase.payment !in w.payments then w
      else Finished(hs, w, id)
    case Crash(id) =>
      if id !in w.claims || !w.claims[id].phase.Paid? then w
      else SetPhase(w, id, Died(w.claims[id].phase.payment, w.claims[id].phase.confirmed))
    case OtherCall(call) => w.(chain := Apply(r, hs.pair, w.chain, call))
    case Create(pid, commitment, initial, quoted) =>
      if pid in w.payments then w
      else w.(payments := w.payments[pid := Payment(commitment, Option.None, initial, quoted)])
    case SetStatus(pid, status) =>
      if pid !in w.payments then w else w.(payments := w.payments[pid := w.payments[pid].(status := status)])
  }

  function Runs(r: Modulus, hs: Hashes, w: World, steps: seq<Step>): World {
    if steps == [] then w
    else Next(r, hs, Runs(r, hs, w, steps[..|steps| - 1]), steps[|steps| - 1])
  }

  lemma RunsEmpty(r: Modulus, hs: Hashes, w: World)
    ensures Runs(r, hs, w, []) == w
  {
  }

  lemma RunsSnoc(r: Modulus, hs: Hashes, w: World, steps: seq<Step>, s: Step)
    ensures Runs(r, hs, w, steps + [s]) == Next(r, hs, Runs(r, hs, w, steps), s)
  {
    assert (steps + [s])[..|steps|] == steps;
  }

  // ---- The invariant ----

  /** The claim got past its withdraw, confirmed or not. */
  predicate PassedWithdraw(c: Claim) {
    c.phase.Paid? || c.phase.Done? || c.phase.Stranded? || c.phase.Died?
  }

  predicate Confirmed(c: Claim) {
    PassedWithdraw(c) && c.phase.confirmed
  }

  predicate HasPayment(c: Claim) {
    c.phase.Checked? || PassedWithdraw(c)
  }

  predicate ClaimOk(r: Modulus, hs: Hashes, w: World, c: Claim) {
    && NoteInField(r, c.note)
    && (HasPayment(c) ==> c.phase.payment in w.payments && RowOk(hs, w.payments[c.phase.payment], c))
    && (Confirmed(c) ==> hs.nul(c.note.nullifier) in w.chain.spent)
  }

  /** What a claim's payment row shows for the phase the claim is in. */
  predicate RowOk(hs: Hashes, row: Payment, c: Claim) {
    && row.commitment == Some(hs.commit(c.note))
    && (c.phase.Done? ==> row.nullifierHash.Some? && (c.how.Bank? ==> row.quoted))
    && (c.phase.Stranded? ==> c.how.Bank? && !row.quoted)
  }

  /** The claim finished on this payment with this nullifier hash. */
  predicate DoneWith(hs: Hashes, c: Claim, pid: nat, x: nat) {
    c.phase.Done? && c.phase.payment == pid && hs.nul(c.note.nullifier) == x
  }

  /** Every payment with a recorded nullifier hash has a finished claim that recorded it. */
  predicate RecordedBy(hs: Hashes, w: World, pid: nat, x: nat) {
    exists id <- w.claims :: DoneWith(hs, w.claims[id], pid, x)
  }

  ghost predicate Inv(r: Modulus, hs: Hashes, w: World) {
    && (forall id <- w.claims :: ClaimOk(r, hs, w, w.claims[id]))
    && (forall i, j | i in w.claims && j in w.claims && i != j && Confirmed(w.claims[i]) && Confirmed(w.claims[j]) ::
          hs.nul(w.claims[i].note.nullifier) != hs.nul(w.claims[j].note.nullifier))
    && (forall pid <- w.payments | w.payments[pid].nullifierHash.Some? ::
          RecordedBy(hs, w, pid, w.payments[pid].nullifierHash.value))
  }

  /** A chain step keeps nullifiers spent. */
  lemma SpentGrows(r: Modulus, hs: Hashes, p: Pool, call: Call)
    ensures p.spent <= Apply(r, hs.pair, p, call).spent
  {
  }

  /** Moving a claim forward keeps every record, if the claim was not already done. */
  lemma RecordsSurvive(hs: Hashes, w: World, id: nat, phase: Phase, w': World)
    requires id in w.claims && !w.claims[id].phase.Done?
    requires w'.claims == SetPhase(w, id, phase).claims
    ensures forall pid: nat, x: nat :: RecordedBy(hs, w, pid, x) ==> RecordedBy(hs, w', pid, x)
  {
    forall pid: nat, x: nat | RecordedBy(hs, w, pid, x) ensures RecordedBy(hs, w', pid, x) {
      var d :| d in w.claims && DoneWith(hs, w.claims[d], pid, x);
      assert w'.claims[d] == w.claims[d];
    }
  }

  lemma SubmitKeepsInv(r: Modulus, hs: Hashes, w: World, s: Step)
    requires Inv(r, hs, w) && s.Submit?
    ensures Inv(r, hs, Next(r, hs, w, s))
  {
    hide NoteInField;
    var w' := Next(r, hs, w, s);
    forall pid: nat, x: nat | RecordedBy(hs, w, pid, x) ensures RecordedBy(hs, w', pid, x) {
      var d :| d in w.claims && DoneWith(hs, w.claims[d], pid, x);
      assert w'.claims[d] == w.claims[d];
    }
  }

  lemma ChainKeepsInv(r: Modulus, hs: Hashes, w: World, s: Step)
    requires Inv(r, hs, w) && s.OtherCall?
    ensures Inv(r, hs, Next(r, hs, w, s))
  {
    SpentGrows(r, hs, w.chain, s.call);
    var w' := Next(r, hs, w, s);
    assert w'.claims == w.claims && w'.payments == w.payments && w.chain.spent <= w'.chain.spent;
    hide Next, Apply, NoteInField, RowOk, DoneWith;
    assert forall pid: nat, x: nat :: RecordedBy(hs, w, pid, x) == RecordedBy(hs, w', pid, x);
  }

  lemma TableKeepsInv(r: Modulus, hs: Hashes, w: World, s: Step)
    requires Inv(r, hs, w) && (s.Create? || s.SetStatus?)
    ensures Inv(r, hs, Next(r, hs, w, s))
  {
    hide NoteInField, DoneWith;
    var w' := Next(r, hs, w, s);
    assert w'.claims == w.claims && w'.chain == w.chain;
    assert forall pid: nat, x: nat :: RecordedBy(hs, w, pid, x) == RecordedBy(hs, w', pid, x);
  }

  lemma CheckKeepsInv(r: Modulus, hs: Hashes, w: World, s: Step)
    requires Inv(r, hs, w) && (s.Check? || s.Crash?)
    ensures Inv(r, hs, Next(r, hs, w, s))
  {
    var w' := Next(r, hs, w, s);
    if w' != w {
      RecordsSurvive(hs, w, s.id, w'.claims[s.id].phase, w');
    }
  }

  /** The chain refuses a spent nullifier, so the confirmed claim is the only one of its note. */
  lemma PayKeepsInv(r: Modulus, hs: Hashes, w: World, s: Step)
    requires Inv(r, hs, w) && s.Pay?
    ensures Inv(r, hs, Next(r, hs, w, s))
  {
    var w' := Next(r, hs, w, s);
    if w' != w {
      RecordsSurvive(hs, w, s.id, w'.claims[s.id].phase, w');
    }
  }

  lemma CommitKeepsInv(r: Modulus, hs: Hashes, w: World, s: Step)
    requires Inv(r, hs, w) && s.Commit?
    ensures Inv(r, hs, Next(r, hs, w, s))
  {
    var w' := Next(r, hs, w, s);
    if w' != w {
      var pid, x := w.claims[s.id].phase.payment, hs.nul(w.claims[s.id].note.nullifier);
      RecordsSurvive(hs, w, s.id, w'.claims[s.id].phase, w');
      assert w'.claims[s.id].phase.Done? ==> DoneWith(hs, w'.claims[s.id], pid, x) && RecordedBy(hs, w', pid, x);
    }
  }

  /** A world before any claim: payments may exist, none with a recorded nullifier hash. */
  predicate Fresh(w: World) {
    w.claims == map[] && forall pid <- w.payments :: w.payments[pid].nullifierHash.None?
  }

  lemma {:induction false} RunsKeepInv(r: Modulus, hs: Hashes, w: World, steps: seq<Step>)
    requires Inv(r, hs, w)
    ensures Inv(r, hs, Runs(r, hs, w, steps))
  {
    hide Inv, Next;
    if steps != [] {
      RunsKeepInv(r, hs, w, steps[..|steps| - 1]);
      var before, s := Runs(r, hs, w, steps[..|steps| - 1]), steps[|steps| - 1];
      match s
      case Check(_, _) => CheckKeepsInv(r, hs, before, s);
      case Crash(_) => CheckKeepsInv(r, hs, before, s);
      case Pay(_, _, _, _) => PayKeepsInv(r, hs, before, s);
      case Commit(_) => CommitKeepsInv(r, hs, before, s);
      case Submit(_, _, _) => SubmitKeepsInv(r, hs, before, s);
      case OtherCall(_) => ChainKeepsInv(r, hs, before, s);
      case _ => TableKeepsInv(r, hs, before, s);
    }
  }

  /** A payment keeps its commitment, and whether it has a quote, over any run. */
  lemma {:induction false} RowsKeepTerms(r: Modulus, hs: Hashes, w: World, steps: seq<Step>, pid: nat)
    requires pid in w.payments
    ensures var now := Runs(r, hs, w, steps);
            && pid in now.payments
            && now.payments[pid].commitment == w.payments[pid].commitment
            && now.payments[pid].quoted == w.payments[pid].quoted
  {
    if steps != [] {
      RowsKeepTerms(r, hs, w, steps[..|steps| - 1], pid);
      StepKeepsTerms(r, hs, Runs(r, hs, w, steps[..|steps| - 1]), steps[|steps| - 1], pid);
      hide Next;
    }
  }

  /** Other writers may give a payment any status, at any time, and write nothing else. */
  lemma StatusWrittenFreely(r: Modulus, hs: Hashes, w: World, pid: nat, status: Status)
    requires pid in w.payments
    ensures var row := w.payments[pid];
            Next(r, hs, w, SetStatus(pid, status)) == w.(payments := w.payments[pid := row.(status := status)])
  {
  }

  lemma StepKeepsTerms(r: Modulus, hs: Hashes, w: World, s: Step, pid: nat)
    requires pid in w.payments
    ensures var w' := Next(r, hs, w, s);
            && pid in w'.payments
            && w'.payments[pid].commitment == w.payments[pid].commitment
            && w'.payments[pid].quoted == w.payments[pid].quoted
  {
  }

  // ---- What every interleaving guarantees ----

  /** In every interleaving, at most one claim of a note has its withdraw confirmed. */
  lemma OneClaimPerNote(r: Modulus, hs: Hashes, w: World, steps: seq<Step>, i: nat, j: nat)
    requires Fresh(w)
    requires var now := Runs(r, hs, w, steps);
             && i in now.claims && j in now.claims && i != j
             && now.claims[i].note.nullifier == now.claims[j].note.nullifier
    ensures var now := Runs(r, hs, w, steps);
            !(Confirmed(now.claims[i]) && Confirmed(now.claims[j]))
  {
    RunsKeepInv(r, hs, w, steps);
  }

  /** Every claim that got past its withdraw had it confirmed. */
  ghost predicate AllConfirmed(w: World) {
    forall id <- w.claims :: PassedWithdraw(w.claims[id]) ==> w.claims[id].phase.confirmed
  }

  predicate Records(w: World, pid: nat, x: nat) {
    pid in w.payments && w.payments[pid].nullifierHash == Some(x)
  }

  predicate Recorded(w: World, x: nat) {
    exists pid <- w.payments :: Records(w, pid, x)
  }

  /**
    * In every interleaving, a recorded nullifier hash is that of a note whose commitment is the
    * payment's own, claimed by a finished claim; it is spent if that claim's withdraw was confirmed.
    */
  lemma RecordedIsClaimed(r: Modulus, hs: Hashes, w: World, steps: seq<Step>, pid: nat, x: nat) returns (id: nat)
    requires Fresh(w) && Records(Runs(r, hs, w, steps), pid, x)
    ensures var now := Runs(r, hs, w, steps);
            && id in now.claims && DoneWith(hs, now.claims[id], pid, x)
            && now.payments[pid].commitment == Some(hs.commit(now.claims[id].note))
            && (now.claims[id].phase.confirmed ==> x in now.chain.spent)
  {
    RunsKeepInv(r, hs, w, steps);
    var now := Runs(r, hs, w, steps);
    assert RecordedBy(hs, now, pid, x);
    id :| id in now.claims && DoneWith(hs, now.claims[id], pid, x);
    assert ClaimOk(r, hs, now, now.claims[id]);
  }

  /** So where every withdraw was confirmed, what is recorded is spent. */
  lemma RecordedIsSpent(r: Modulus, hs: Hashes, w: World, steps: seq<Step>, x: nat)
    requires Fresh(w) && AllConfirmed(Runs(r, hs, w, steps)) && Recorded(Runs(r, hs, w, steps), x)
    ensures x in Runs(r, hs, w, steps).chain.spent
  {
    var pid :| Records(Runs(r, hs, w, steps), pid, x);
    var id := RecordedIsClaimed(r, hs, w, steps, pid, x);
  }

  /** Some claim of this nullifier hash had its withdraw confirmed. */
  predicate ConfirmedFor(hs: Hashes, w: World, x: nat) {
    exists id <- w.claims :: ConfirmedAs(hs, w.claims[id], x)
  }

  predicate ConfirmedAs(hs: Hashes, c: Claim, x: nat) {
    Confirmed(c) && hs.nul(c.note.nullifier) == x
  }

  /**
    * The step is a withdrawal of this nullifier by another call, or of a claim's late transaction,
    * that the pool accepts.
    */
  predicate LandsFor(r: Modulus, hs: Hashes, w: World, s: Step, x: nat) {
    s.OtherCall? && s.call.Withdraw? && s.call.nullifier == x && Perform(r, hs.pair, w.chain, s.call).Ok?
  }

  predicate LandedFor(r: Modulus, hs: Hashes, w: World, steps: seq<Step>, x: nat) {
    exists k :: 0 <= k < |steps| && LandsFor(r, hs, Runs(r, hs, w, steps[..k]), steps[k], x)
  }

  /** A step spends a nullifier only by confirming a claim of it or by such a call; both leave it spent. */
  lemma SpentStep(r: Modulus, hs: Hashes, w: World, s: Step, x: nat)
    ensures var w' := Next(r, hs, w, s);
            && (x in w.chain.spent ==> x in w'.chain.spent)
            && (LandsFor(r, hs, w, s, x) ==> x in w'.chain.spent)
            && (x in w'.chain.spent ==> x in w.chain.spent || LandsFor(r, hs, w, s, x) || ConfirmedFor(hs, w', x))
            && (ConfirmedFor(hs, w, x) ==> ConfirmedFor(hs, w', x))
  {
    var w' := Next(r, hs, w, s);
    if id: nat :| id in w.claims && ConfirmedAs(hs, w.claims[id], x) {
      assert ConfirmedAs(hs, w'.claims[id], x);
    }
    if x !in w.chain.spent && x in w'.chain.spent && s.Pay? {
      assert ConfirmedAs(hs, w'.claims[s.id], x);
    }
  }

  lemma LandedSnoc(r: Modulus, hs: Hashes, w: World, steps: seq<Step>, x: nat)
    requires steps != []
    ensures var n := |steps| - 1;
            LandedFor(r, hs, w, steps, x)
            <==> LandedFor(r, hs, w, steps[..n], x) || LandsFor(r, hs, Runs(r, hs, w, steps[..n]), steps[n], x)
  {
    hide Runs, LandsFor;
    var n := |steps| - 1;
    assert forall k | 0 <= k < n :: steps[..n][..k] == steps[..k] && steps[..n][k] == steps[k];
    if k :| 0 <= k < n && LandsFor(r, hs, Runs(r, hs, w, steps[..n][..k]), steps[..n][k], x) {
      assert LandsFor(r, hs, Runs(r, hs, w, steps[..k]), steps[k], x);
    }
    if k :| 0 <= k < |steps| && LandsFor(r, hs, Runs(r, hs, w, steps[..k]), steps[k], x) {
      assert k < n ==> LandsFor(r, hs, Runs(r, hs, w, steps[..n][..k]), steps[..n][k], x);
    }
  }

  lemma {:induction false} SpentHasCause(r: Modulus, hs: Hashes, w: World, steps: seq<Step>, x: nat)
    requires w.chain.spent == {}
    ensures var now := Runs(r, hs, w, steps);
            && (x in now.chain.spent ==> ConfirmedFor(hs, now, x) || LandedFor(r, hs, w, steps, x))
            && (LandedFor(r, hs, w, steps, x) ==> x in now.chain.spent)
  {
    hide Next, ConfirmedFor, LandsFor;
    if steps != [] {
      var n := |steps| - 1;
      SpentHasCause(r, hs, w, steps[..n], x);
      LandedSnoc(r, hs, w, steps, x);
      hide LandedFor;
      SpentStep(r, hs, Runs(r, hs, w, steps[..n]), steps[n], x);
    }
  }

  /**
    * In every interleaving a nullifier, recorded or not, is spent exactly when some claim of it had
    * its withdraw confirmed or another withdrawal of it landed.
    */
  lemma SpentExactlyIfConfirmed(r: Modulus, hs: Hashes, w: World, steps: seq<Step>, x: nat)
    requires Fresh(w) && w.chain.spent == {}
    ensures var now := Runs(r, hs, w, steps);
            x in now.chain.spent <==> ConfirmedFor(hs, now, x) || LandedFor(r, hs, w, steps, x)
  {
    SpentHasCause(r, hs, w, steps, x);
    RunsKeepInv(r, hs, w, steps);
    hide LandedFor;
    var now := Runs(r, hs, w, steps);
    if id: nat :| id in now.claims && ConfirmedAs(hs, now.claims[id], x) {
      assert ClaimOk(r, hs, now, now.claims[id]);
    }
  }

  /** Two different notes submitted in the run have one commitment. */
  predicate CommitsCollide(r: Modulus, hs: Hashes, w: World) {
    exists i, j :: i in w.claims && j in w.claims && Collide(r, hs, w.claims[i].note, w.claims[j].note)
  }

  predicate Collide(r: Modulus, hs: Hashes, m: NoteData, n: NoteData) {
    m != n && NoteInField(r, m) && NoteInField(r, n) && hs.commit(m) == hs.commit(n)
  }

  /** A finished claim's nullifier is recorded, or two notes of the run collide. */
  lemma DoneIsRecorded(r: Modulus, hs: Hashes, w: World, steps: seq<Step>, id: nat)
    requires Fresh(w)
    requires var now := Runs(r, hs, w, steps); id in now.claims && now.claims[id].phase.Done?
    ensures var now := Runs(r, hs, w, steps);
            Recorded(now, hs.nul(now.claims[id].note.nullifier)) || CommitsCollide(r, hs, now)
  {
    RunsKeepInv(r, hs, w, steps);
    var now := Runs(r, hs, w, steps);
    var c := now.claims[id];
    var pid := c.phase.payment;
    assert ClaimOk(r, hs, now, c);
    var y := now.payments[pid].nullifierHash.value;
    assert Records(now, pid, y);
    if y != hs.nul(c.note.nullifier) {
      var d := RecordedIsClaimed(r, hs, w, steps, pid, y);
      assert ClaimOk(r, hs, now, now.claims[d]);
      assert Collide(r, hs, c.note, now.claims[d].note);
    }
  }

  lemma RecordedIsDone(r: Modulus, hs: Hashes, w: World, steps: seq<Step>, id: nat)
    requires Fresh(w) && AllConfirmed(Runs(r, hs, w, steps))
    requires var now := Runs(r, hs, w, steps); id in now.claims && PassedWithdraw(now.claims[id])
    ensures var now := Runs(r, hs, w, steps);
            Recorded(now, hs.nul(now.claims[id].note.nullifier)) ==> now.claims[id].phase.Done?
  {
    var now := Runs(r, hs, w, steps);
    var x := hs.nul(now.claims[id].note.nullifier);
    RunsKeepInv(r, hs, w, steps);
    if pid: nat :| Records(now, pid, x) {
      var d := RecordedIsClaimed(r, hs, w, steps, pid, x);
      assert PassedWithdraw(now.claims[d]);
    }
  }

  /**
    * Where every withdraw was confirmed, a claim that got past its withdraw has its nullifier
    * recorded on a payment exactly when it finished, or two notes of the run collide.
    */
  lemma RecordedExactlyIfDone(r: Modulus, hs: Hashes, w: World, steps: seq<Step>, id: nat)
    requires Fresh(w) && AllConfirmed(Runs(r, hs, w, steps))
    requires var now := Runs(r, hs, w, steps); id in now.claims && PassedWithdraw(now.claims[id])
    ensures var now := Runs(r, hs, w, steps);
            || (Recorded(now, hs.nul(now.claims[id].note.nullifier)) <==> now.claims[id].phase.Done?)
            || CommitsCollide(r, hs, now)
  {
    var now := Runs(r, hs, w, steps);
    if now.claims[id].phase.Done? {
      DoneIsRecorded(r, hs, w, steps, id);
    } else {
      RecordedIsDone(r, hs, w, steps, id);
    }
  }

  /**
    * A claim that runs to its end after the withdraw finishes exactly when it is a wallet claim or
    * its payment has a quote, which the row shows before the withdraw already.
    */
  lemma DoneExactlyIfQuoted(r: Modulus, hs: Hashes, w: World, early: seq<Step>, later: seq<Step>, id: nat)
    requires Fresh(w)
    requires var mid := Runs(r, hs, w, early); id in mid.claims && mid.claims[id].phase.Checked?
    requires var now := Runs(r, hs, Runs(r, hs, w, early), later);
             id in now.claims && (now.claims[id].phase.Done? || now.claims[id].phase.Stranded?)
    ensures var mid := Runs(r, hs, w, early);
            var now := Runs(r, hs, mid, later);
            var pid := mid.claims[id].phase.payment;
            && pid in mid.payments && now.claims[id].phase.payment == pid
            && (now.claims[id].phase.Done? <==> now.claims[id].how.Wallet? || mid.payments[pid].quoted)
  {
    var mid := Runs(r, hs, w, early);
    RunsKeepInv(r, hs, w, early);
    RunsKeepInv(r, hs, mid, later);
    assert ClaimOk(r, hs, mid, mid.claims[id]);
    assert ClaimOk(r, hs, Runs(r, hs, mid, later), Runs(r, hs, mid, later).claims[id]);
    RowsKeepTerms(r, hs, mid, later, mid.claims[id].phase.payment);
    KeepsPayment(r, hs, mid, later, id);
  }

  /** A checked claim stays on the payment it checked. */
  lemma {:induction false} KeepsPayment(r: Modulus, hs: Hashes, w: World, steps: seq<Step>, id: nat)
    requires id in w.claims && HasPayment(w.claims[id])
    ensures var now := Runs(r, hs, w, steps);
            && id in now.claims && now.claims[id].how == w.claims[id].how
            && (|| now.claims[id].phase.Rejected?
                || (HasPayment(now.claims[id]) && now.claims[id].phase.payment == w.claims[id].phase.payment))
  {
    if steps != [] {
      KeepsPayment(r, hs, w, steps[..|steps| - 1], id);
      StepKeepsPayment(r, hs, Runs(r, hs, w, steps[..|steps| - 1]), steps[|steps| - 1], id);
      hide Next;
    }
  }

  lemma StepKeepsPayment(r: Modulus, hs: Hashes, w: World, s: Step, id: nat)
    requires id in w.claims && (w.claims[id].phase.Rejected? || HasPayment(w.claims[id]))
    ensures var w' := Next(r, hs, w, s);
            && id in w'.claims && w'.claims[id].how == w.claims[id].how
            && (w.claims[id].phase.Rejected? ==> w'.claims[id].phase.Rejected?)
            && (HasPayment(w.claims[id]) ==>
                  || w'.claims[id].phase.Rejected?
                  || (HasPayment(w'.claims[id]) && w'.claims[id].phase.payment == w.claims[id].phase.payment))
  {
  }

  // ---- A spent nullifier can stay unrecorded for ever ----

  /** The nullifier is spent, nobody is about to record it, and no payment has it. */
  ghost predicate Orphaned(hs: Hashes, w: World, x: nat) {
    && x in w.chain.spent
    && (forall id <- w.claims :: w.claims[id].phase.Paid? ==> hs.nul(w.claims[id].note.nullifier) != x)
    && (forall pid <- w.payments :: w.payments[pid].nullifierHash != Some(x))
  }

  lemma OrphanedStep(r: Modulus, hs: Hashes, w: World, x: nat, s: Step)
    requires Orphaned(hs, w, x)
    ensures Orphaned(hs, Next(r, hs, w, s), x)
  {
    if s.OtherCall? {
      SpentGrows(r, hs, w.chain, s.call);
    }
  }

  lemma {:induction false} OrphanedForever(r: Modulus, hs: Hashes, w: World, x: nat, steps: seq<Step>)
    requires Orphaned(hs, w, x)
    ensures var now := Runs(r, hs, w, steps);
            && Orphaned(hs, now, x)
            && x in now.chain.spent && forall pid <- now.payments :: now.payments[pid].nullifierHash != Some(x)
  {
    hide Next;
    if steps != [] {
      OrphanedForever(r, hs, w, x, steps[..|steps| - 1]);
      OrphanedStep(r, hs, Runs(r, hs, w, steps[..|steps| - 1]), x, steps[|steps| - 1]);
    }
  }

  /** The two ways a claim ends without its record: a bank claim without a quote, and a failure. */
  predicate LosesRecord(w: World, s: Step)
    requires (s.Commit? || s.Crash?) && s.id in w.claims && w.claims[s.id].phase.Paid?
    requires w.claims[s.id].phase.payment in w.payments
  {
    s.Crash? || (w.claims[s.id].how.Bank? && !w.payments[w.claims[s.id].phase.payment].quoted)
  }

  /**
    * The step after a confirmed withdraw either records the nullifier or, exactly in these two
    * cases, leaves it spent and unrecorded whatever anyone does later.
    */
  lemma RecordLostExactly(r: Modulus, hs: Hashes, w: World, before: seq<Step>, s: Step, later: seq<Step>)
    requires Fresh(w) && AllConfirmed(Runs(r, hs, w, before)) && (s.Commit? || s.Crash?)
    requires var now := Runs(r, hs, w, before); s.id in now.claims && now.claims[s.id].phase.Paid?
    ensures var now := Runs(r, hs, w, before);
            var x, after := hs.nul(now.claims[s.id].note.nullifier), Next(r, hs, now, s);
            && now.claims[s.id].phase.payment in now.payments
            && (LosesRecord(now, s) ==> Orphaned(hs, Runs(r, hs, after, later), x))
            && (!LosesRecord(now, s) ==> Recorded(after, x))
  {
    RunsKeepInv(r, hs, w, before);
    var now := Runs(r, hs, w, before);
    var c := now.claims[s.id];
    var x, after := hs.nul(c.note.nullifier), Next(r, hs, now, s);
    assert ClaimOk(r, hs, now, c);
    if LosesRecord(now, s) {
      RecordedIsDone(r, hs, w, before, s.id);
      forall pid <- now.payments ensures now.payments[pid].nullifierHash != Some(x) {
        assert !Records(now, pid, x);
      }
      hide Inv, ClaimOk, Runs;
      OrphanedForever(r, hs, after, x, later);
    } else {
      assert Records(after, c.phase.payment, x);
    }
  }

  // ---- Runs that reach these states ----

  /** A pool just initialised, no payments and no claims. */
  function Nothing(depth: nat): World {
    World(Custody.Fresh(depth, 0).pool, map[], map[])
  }

  /** Deposit a note, create its payment, and take one claim of it through its withdraw. */
  function PaidSteps(hs: Hashes, depth: nat, note: NoteData, how: Method, quoted: bool, confirmed: bool): seq<Step>
    requires note.amount > 0 && hs.commit(note) >= 0
  {
    [] + [OtherCall(Deposit(note.amount, note.amount, hs.commit(note)))]
    + [Create(0, Some(hs.commit(note)), PENDING, quoted)]
    + [Submit(0, how, note)]
    + [Check(0, Some(0))]
    + [Pay(0, Root(hs.pair, [hs.commit(note)], depth), true, confirmed)]
  }

  lemma DepositThenWithdraw(r: Modulus, hs: Hashes, depth: nat, note: NoteData)
    requires note.amount > 0 && Residue(r, hs.commit(note))
    ensures var start := Custody.Fresh(depth, 0).pool;
            var held := start.(leaves := [hs.commit(note)], custody := note.amount);
            && DepositInto(r, start, note.amount, note.amount, hs.commit(note)) == Ok(held)
            && WithdrawFrom(hs.pair, held, Root(hs.pair, [hs.commit(note)], depth), hs.nul(note.nullifier),
                            note.amount, true)
               == Ok(held.(spent := {hs.nul(note.nullifier)}, custody := 0))
  {
    ResidueMod(r, hs.commit(note));
    hide Root, Pow2;
    var start := Custody.Fresh(depth, 0).pool;
    var held := start.(leaves := [hs.commit(note)], custody := note.amount);
    assert start.leaves + [hs.commit(note)] == held.leaves;
    RecentAfterDeposit(hs.pair, start.(custody := note.amount), hs.commit(note));
    assert RecentRoots(hs.pair, held)[0] == Root(hs.pair, held.leaves, depth);
    assert {} + {hs.nul(note.nullifier)} == {hs.nul(note.nullifier)};
    assert DepositInto(r, start, note.amount, note.amount, hs.commit(note)) == Ok(held);
  }

  lemma PaidRun(r: Modulus, hs: Hashes, depth: nat, note: NoteData, how: Method, quoted: bool, confirmed: bool)
    requires note.amount > 0 && NoteInField(r, note) && Residue(r, hs.commit(note))
    ensures var end := Runs(r, hs, Nothing(depth), PaidSteps(hs, depth, note, how, quoted, confirmed));
            && end.claims == map[0 := Claim(how, note, Paid(0, confirmed))]
            && end.payments == map[0 := Payment(Some(hs.commit(note)), Option.None, PENDING, quoted)]
            && end.chain.spent == if confirmed then {hs.nul(note.nullifier)} else {}
  {
    hide Runs, Root;
    DepositThenWithdraw(r, hs, depth, note);
    hide WithdrawFrom, DepositInto;
    var w, root := Nothing(depth), Root(hs.pair, [hs.commit(note)], depth);
    var s1: seq<Step> := [] + [OtherCall(Deposit(note.amount, note.amount, hs.commit(note)))];
    var s2 := s1 + [Create(0, Some(hs.commit(note)), PENDING, quoted)];
    var s3 := s2 + [Submit(0, how, note)];
    var s4 := s3 + [Check(0, Some(0))];
    RunsEmpty(r, hs, w);
    RunsSnoc(r, hs, w, [], OtherCall(Deposit(note.amount, note.amount, hs.commit(note))));
    RunsSnoc(r, hs, w, s1, Create(0, Some(hs.commit(note)), PENDING, quoted));
    RunsSnoc(r, hs, w, s2, Submit(0, how, note));
    RunsSnoc(r, hs, w, s3, Check(0, Some(0)));
    RunsSnoc(r, hs, w, s4, Pay(0, root, true, confirmed));
  }

  /** Such a run ends with the nullifier spent and lost: a bank claim without a quote, or any claim that dies. */
  lemma LosingRun(r: Modulus, hs: Hashes, depth: nat, note: NoteData, how: Method, later: seq<Step>)
    requires note.amount > 0 && NoteInField(r, note) && Residue(r, hs.commit(note))
    ensures var paid := Runs(r, hs, Nothing(depth), PaidSteps(hs, depth, note, how, false, true));
            && Orphaned(hs, Runs(r, hs, Next(r, hs, paid, Crash(0)), later), hs.nul(note.nullifier))
            && (how == Bank ==> Orphaned(hs, Runs(r, hs, Next(r, hs, paid, Commit(0)), later), hs.nul(note.nullifier)))
  {
    PaidRun(r, hs, depth, note, how, false, true);
    var steps := PaidSteps(hs, depth, note, how, false, true);
    hide Runs, PaidSteps;
    RecordLostExactly(r, hs, Nothing(depth), steps, Crash(0), later);
    RecordLostExactly(r, hs, Nothing(depth), steps, Commit(0), later);
  }

  /** An unconfirmed withdraw can be recorded without ever being made. */
  lemma UnconfirmedRecordsUnspent(r: Modulus, hs: Hashes, depth: nat, note: NoteData)
    requires note.amount > 0 && NoteInField(r, note) && Residue(r, hs.commit(note))
    ensures var end := Next(r, hs, Runs(r, hs, Nothing(depth), PaidSteps(hs, depth, note, Wallet, true, false)),
                            Commit(0));
            && Recorded(end, hs.nul(note.nullifier)) && 0 in end.payments && end.payments[0].status == SETTLED
            && hs.nul(note.nullifier) !in end.chain.spent
  {
    PaidRun(r, hs, depth, note, Wallet, true, false);
    hide Runs, PaidSteps;
    var paid := Runs(r, hs, Nothing(depth), PaidSteps(hs, depth, note, Wallet, true, false));
    var end := Next(r, hs, paid, Commit(0));
    assert Records(end, 0, hs.nul(note.nullifier));
  }
}
