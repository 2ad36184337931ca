/**
  * The jobs of `Reconcile` interleaved, any number of each, with what a job reads and each of
  * its writes as separate steps. Guarded writes check the row again; the others do not.
  */
module ReconcileRaces {
  import opened Results
  import opened Payments
  import opened Reconcile
  import Yield

  /**
    * `reading` holds the reconcile calls that have read the rows and not yet written, `watching`
    * the watcher jobs that have read a payment still open, `confirming` those that have written
    * the leg and not the status, `sweeping` the sweep-outs that have read a held position, with
    * the columns they computed, `claiming` the claims that have passed their pre-check, `failing`
    * the failure reports that have written the leg and not the status. `wins` counts settles by a
    * reconcile call, `reopened` the confirmations of a terminal row.
    */
  datatype World = World(row: Row, reading: map<nat, Row>, watching: set<nat>, confirming: set<nat>,
                         sweeping: map<nat, Yield.Position>, claiming: map<nat, ClaimKind>, failing: set<nat>,
                         wins: nat, reopened: nat)

  datatype Step =
    | Whole                       // a reconcile call that nothing interrupts
    | Read(call: nat)
    | Write(call: nat)
    | Watch(found: bool, lastAttempt: bool)
    | WatchRead(job: nat)
    | WatchLeg(job: nat)          // the event was found
    | WatchStatus(job: nat)
    | WatchGiveUp(job: nat)       // the last attempt found none
    | SweepIn(featureOn: bool, config: Yield.Config)  // one transaction, on a unique key
    | SweepOut(featureOn: bool, heldMs: int, unwinds: bool)
    | SweepRead(job: nat, featureOn: bool, heldMs: int)
    | SweepUnwind(job: nat, answered: bool)  // unanswered: the caller sees an error, whatever was committed
    | SweepFail(job: nat)         // the unguarded failure write
    | Claim(kind: ClaimKind, withdrawn: bool)
    | ClaimCheck(id: nat, kind: ClaimKind)
    | ClaimCommit(id: nat)        // after the withdraw
    | ClaimDrop(id: nat)          // refused on chain, or died
    | SetFiat(leg: Leg)           // the fiat webhook's leg
    | FailReport(id: nat, leg: Leg)  // a failed payout reported: its leg first
    | FailWrite(id: nat)          // and then the unguarded failure write
    | ChainReport                 // the chain webhook's leg

  /** The write half acts on what was read: the settle is guarded, the failure is not. */
  function WriteBack(w: World, call: nat): World
    requires call in w.reading
  {
    var rest := w.reading - {call};
    match Decide(w.reading[call])
    case Settle =>
      w.(row := SettledIfOpen(w.row), reading := rest, wins := w.wins + if Terminal(w.row.status) then 0 else 1)
    case Fail => w.(row := MarkedFailed(w.row), reading := rest)
    case _ => w.(reading := rest)
  }

  function Reconciling(w: World, s: Step): World
    requires s.Whole? || s.Read? || s.Write?
  {
    match s
    case Whole =>
      w.(row := Reconciled(w.row), wins := w.wins + if Decide(w.row) == Settle then 1 else 0)
    case Read(call) => if call in w.reading then w else w.(reading := w.reading[call := w.row])
    case Write(call) => if call in w.reading then WriteBack(w, call) else w
  }

  function Watching(w: World, s: Step): World
    requires s.Watch? || s.WatchRead? || s.WatchLeg? || s.WatchStatus? || s.WatchGiveUp?
  {
    match s
    case Watch(found, lastAttempt) => w.(row := Watched(w.row, found, lastAttempt))
    case WatchRead(job) => if Terminal(w.row.status) then w else w.(watching := w.watching + {job})
    case WatchLeg(job) =>
      if job !in w.watching then w
      else w.(row := LegConfirmed(w.row), watching := w.watching - {job}, confirming := w.confirming + {job})
    case WatchStatus(job) =>
      if job !in w.confirming then w
      else w.(row := StatusConfirmed(w.row), confirming := w.confirming - {job},
           reopened := w.reopened + if Terminal(w.row.status) then 1 else 0)
    case WatchGiveUp(job) =>
      if job !in w.watching then w else w.(row := MarkedFailed(w.row), watching := w.watching - {job})
  }

  function Sweeping(w: World, s: Step): World
    requires s.SweepIn? || s.SweepOut? || s.SweepRead? || s.SweepUnwind? || s.SweepFail?
  {
    match s
    case SweepIn(on, config) => w.(row := SweptInto(w.row, on, config))
    case SweepOut(on, heldMs, unwinds) => w.(row := SweptBack(w.row, on, heldMs, unwinds))
    case SweepRead(job, on, heldMs) =>
      if !on || !HasHeld(w.row) || job in w.sweeping then w
      else w.(sweeping := w.sweeping[job := Yield.Unwind(w.row.position.value, heldMs)])
    case SweepUnwind(job, answered) =>
      if job !in w.sweeping then w
      else w.(row := UnwoundTo(w.row, w.sweeping[job]), sweeping := if answered then w.sweeping - {job} else w.sweeping)
    case SweepFail(job) =>
      if job !in w.sweeping then w else w.(row := FallenBack(w.row), sweeping := w.sweeping - {job})
  }

  function Claiming(w: World, s: Step): World
    requires s.Claim? || s.ClaimCheck? || s.ClaimCommit? || s.ClaimDrop?
  {
    match s
    case Claim(kind, withdrawn) =>
      w.(row := Claimed(w.row, kind, withdrawn),
      reopened := w.reopened + if withdrawn && Claimable(w.row) then Reopening(w.row, kind) else 0)
    case ClaimCheck(id, kind) =>
      if id in w.claiming || !Claimable(w.row) then w else w.(claiming := w.claiming[id := kind])
    case ClaimCommit(id) =>
      if id !in w.claiming then w
      else w.(row := ClaimRecorded(w.row, w.claiming[id]), claiming := w.claiming - {id},
           reopened := w.reopened + Reopening(w.row, w.claiming[id]))
    case ClaimDrop(id) => w.(claiming := w.claiming - {id})
  }

  function Webhook(w: World, s: Step): World
    requires s.SetFiat? || s.FailReport? || s.FailWrite? || s.ChainReport?
  {
    match s
    case SetFiat(leg) => w.(row := w.row.(fiat := Some(leg)))
    case FailReport(id, leg) =>
      w.(row := w.row.(fiat := Some(leg.(status := LegStatus.FAILED))), failing := w.failing + {id})
    case FailWrite(id) => if id !in w.failing then w else w.(row := MarkedFailed(w.row), failing := w.failing - {id})
    case ChainReport => w.(row := LegConfirmed(w.row))
  }

  function Next(w: World, s: Step): World {
    if s.Whole? || s.Read? || s.Write? then Reconciling(w, s)
    else if s.Watch? || s.WatchRead? || s.WatchLeg? || s.WatchStatus? || s.WatchGiveUp? then Watching(w, s)
    else if s.SweepIn? || s.SweepOut? || s.SweepRead? || s.SweepUnwind? || s.SweepFail? then Sweeping(w, s)
    else if s.Claim? || s.ClaimCheck? || s.ClaimCommit? || s.ClaimDrop? then Claiming(w, s)
    else Webhook(w, s)
  }

  /** 1 if recording the claim takes the payment out of a terminal state. */
  function Reopening(row: Row, kind: ClaimKind): nat {
    if kind.ByBank? && Terminal(row.status) then 1 else 0
  }

  function Runs(w: World, steps: seq<Step>): World {
    if steps == [] then w else Next(Runs(w, steps[..|steps| - 1]), steps[|steps| - 1])
  }

  lemma RunsEmpty(w: World)
    ensures Runs(w, []) == w
  {
  }

  lemma RunsSnoc(w: World, steps: seq<Step>, s: Step)
    ensures Runs(w, steps + [s]) == Next(Runs(w, steps), s)
  {
    assert (steps + [s])[..|steps|] == steps;
  }

  lemma RunsOne(w: World, s: Step)
    ensures Runs(w, [s]) == Next(w, s)
  {
    RunsEmpty(w);
    RunsSnoc(w, [], s);
    assert [] + [s] == [s];
  }

  lemma RunsThreeMore(w: World, steps: seq<Step>, a: Step, b: Step, c: Step)
    ensures Runs(w, steps + [a] + [b] + [c]) == Next(Next(Next(Runs(w, steps), a), b), c)
  {
    hide Next, Runs;
    RunsSnoc(w, steps, a);
    RunsSnoc(w, steps + [a], b);
    RunsSnoc(w, steps + [a] + [b], c);
  }

  lemma RunsThree(w: World, a: Step, b: Step, c: Step)
    ensures Runs(w, [] + [a] + [b] + [c]) == Next(Next(Next(w, a), b), c)
  {
    hide Next, Runs;
    RunsEmpty(w);
    RunsThreeMore(w, [], a, b, c);
  }

  /** A reconcile call or a watcher job taken whole is its read and its writes one after the other. */
  lemma WholeIsSplit(w: World, k: nat)
    requires k !in w.reading && k !in w.watching && k !in w.confirming
    ensures Next(w, Whole).row == Next(Next(w, Read(k)), Write(k)).row
    ensures Next(w, Watch(true, false)).row == Next(Next(Next(w, WatchRead(k)), WatchLeg(k)), WatchStatus(k)).row
    ensures Next(w, Watch(false, true)).row == Next(Next(w, WatchRead(k)), WatchGiveUp(k)).row
  {
    hide GoodLegs, LegFailed;
  }

  lemma ClaimSteps(w: World, k: nat, kind: ClaimKind)
    ensures k !in w.claiming ==>
              Next(w, ClaimCheck(k, kind)) == if Claimable(w.row) then w.(claiming := w.claiming[k := kind]) else w
    ensures k !in w.claiming ==> Next(w, ClaimCommit(k)) == w
    ensures k in w.claiming ==>
              Next(w, ClaimCommit(k)) == w.(row := ClaimRecorded(w.row, w.claiming[k]), claiming := w.claiming - {k},
              reopened := w.reopened + Reopening(w.row, w.claiming[k]))
    ensures Next(w, ClaimDrop(k)) == w.(claiming := w.claiming - {k})
    ensures Next(w, Claim(kind, false)) == w
    ensures Next(w, Claim(kind, true)) ==
            if !Claimable(w.row) then w
            else w.(row := ClaimRecorded(w.row, kind), reopened := w.reopened + Reopening(w.row, kind))
  {
    hide Reconciling, Watching, Sweeping, Webhook, ClaimRecorded, Claimable, Reopening;
  }

  /** So is a claim that nothing interrupts, and one that is refused. */
  lemma WholeClaimIsSplit(w: World, k: nat, kind: ClaimKind)
    requires k !in w.claiming
    ensures Next(w, Claim(kind, true)) == Next(Next(w, ClaimCheck(k, kind)), ClaimCommit(k))
    ensures Next(w, Claim(kind, false)) == Next(Next(w, ClaimCheck(k, kind)), ClaimDrop(k))
  {
    var checked := if Claimable(w.row) then w.(claiming := w.claiming[k := kind]) else w;
    ClaimSteps(w, k, kind);
    ClaimSteps(checked, k, kind);
    hide *;
    assert w.claiming[k := kind] - {k} == w.claiming && w.claiming - {k} == w.claiming;
  }

  lemma FailedPayoutSteps(w: World, id: nat, leg: Leg)
    requires leg.status == LegStatus.FAILED
    ensures Next(Next(w, FailReport(id, leg)), FailWrite(id)).row == MarkedFailed(w.row.(fiat := Some(leg)))
  {
    hide Reconciling, Watching, Sweeping, Claiming;
  }

  /** And a bank claim up to its reconciliation, whatever its payout reports. */
  lemma WholeBankClaimIsSplit(w: World, k: nat, quote: int, payout: Leg)
    requires k !in w.claiming && Claimable(w.row)
    ensures var recorded := Next(Next(w, ClaimCheck(k, ByBank(quote))), ClaimCommit(k));
            var reported := if LegFailed(Some(payout)) then Next(Next(recorded, FailReport(k, payout)), FailWrite(k))
                            else Next(recorded, SetFiat(payout));
            Next(reported, Whole).row == BankClaimed(w.row, quote, true, Some(payout))
  {
    var recorded := Next(Next(w, ClaimCheck(k, ByBank(quote))), ClaimCommit(k));
    ClaimSteps(w, k, ByBank(quote));
    ClaimSteps(w.(claiming := w.claiming[k := ByBank(quote)]), k, ByBank(quote));
    hide Next, GoodLegs, ClaimRecorded, Claimable, Reconciled, MarkedFailed;
    assert recorded.row == ClaimRecorded(w.row, ByBank(quote));
    if LegFailed(Some(payout)) {
      FailedPayoutSteps(recorded, k, payout);
      ReconcileSteps(Next(Next(recorded, FailReport(k, payout)), FailWrite(k)), k);
    } else {
      FiatStep(recorded, payout);
      ReconcileSteps(Next(recorded, SetFiat(payout)), k);
    }
  }

  /** So is a sweep-out, whether it unwinds or fails. */
  lemma WholeSweepIsSplit(w: World, k: nat, heldMs: int)
    requires k !in w.sweeping
    ensures Next(w, SweepOut(true, heldMs, true)) == Next(Next(w, SweepRead(k, true, heldMs)), SweepUnwind(k, true))
    ensures Next(w, SweepOut(true, heldMs, false)) == Next(Next(w, SweepRead(k, true, heldMs)), SweepFail(k))
  {
    hide Yield.Unwind, UnwoundTo, FallenBack, Reconciling, Watching, Claiming, Webhook;
    if HasHeld(w.row) {
      var prepared := Yield.Unwind(w.row.position.value, heldMs);
      assert w.sweeping[k := prepared] - {k} == w.sweeping;
    }
  }

  lemma RunsPrefix(w: World, steps: seq<Step>, k: nat)
    requires k < |steps|
    ensures Runs(w, steps[..k + 1]) == Next(Runs(w, steps[..k]), steps[k])
  {
    assert steps[..k + 1] == steps[..k] + [steps[k]];
    RunsSnoc(w, steps[..k], steps[k]);
  }

  /** What every step keeps but the breaking ones is kept as long as none of those comes. */
  lemma {:induction false} KeptUnbroken(w: World, steps: seq<Step>, kept: World -> bool,
                                        breaks: (World, Step) -> bool, k: nat)
    requires kept(w) && forall v, s | kept(v) :: kept(Next(v, s)) <==> !breaks(v, s)
    requires forall i | 0 <= i < |steps| :: !breaks(Runs(w, steps[..i]), steps[i])
    requires k <= |steps|
    ensures kept(Runs(w, steps[..k]))
  {
    hide Next;
    if k == 0 {
      RunsEmpty(w);
    } else {
      hide Runs;
      KeptUnbroken(w, steps, kept, breaks, k - 1);
      RunsPrefix(w, steps, k - 1);
    }
  }

  /** It is kept all through a run exactly when none of those falls in it. */
  lemma KeptExactly(w: World, steps: seq<Step>, kept: World -> bool, breaks: (World, Step) -> bool)
    requires kept(w) && forall v, s | kept(v) :: kept(Next(v, s)) <==> !breaks(v, s)
    ensures (forall k | 0 <= k <= |steps| :: kept(Runs(w, steps[..k])))
       <==> (forall k | 0 <= k < |steps| :: !breaks(Runs(w, steps[..k]), steps[k]))
  {
    hide Next, Runs;
    if forall k | 0 <= k <= |steps| :: kept(Runs(w, steps[..k])) {
      forall k | 0 <= k < |steps| ensures !breaks(Runs(w, steps[..k]), steps[k]) {
        RunsPrefix(w, steps, k);
        assert kept(Runs(w, steps[..k])) && kept(Runs(w, steps[..k + 1]));
      }
    }
    if forall k | 0 <= k < |steps| :: !breaks(Runs(w, steps[..k]), steps[k]) {
      forall k | 0 <= k <= |steps| ensures kept(Runs(w, steps[..k])) {
        KeptUnbroken(w, steps, kept, breaks, k);
      }
    }
  }

  // ---- When a settled or failed payment stays so ----

  /** The claim the step records, if it records one. */
  function Recording(w: World, s: Step): Option<ClaimKind> {
    if s.Claim? && s.withdrawn && Claimable(w.row) then Some(s.kind)
    else if s.ClaimCommit? && s.id in w.claiming then Some(w.claiming[s.id])
    else None
  }

  /** The step is an unguarded write, with its job in flight, of a status the payment does not have. */
  predicate Overturns(w: World, s: Step) {
    || (s.WatchStatus? && s.job in w.confirming)
    || (Recording(w, s).Some? && (w.row.status == SETTLED ==> Recording(w, s).value.ByBank?))
    || (w.row.status == SETTLED
        && (|| (s.FailWrite? && s.id in w.failing)
            || (s.WatchGiveUp? && s.job in w.watching)
            || (s.Write? && s.call in w.reading && Decide(w.reading[s.call]) == Fail)))
  }

  lemma OverturnsExactly(w: World, s: Step)
    requires Terminal(w.row.status)
    ensures Next(w, s).row.status == w.row.status <==> !Overturns(w, s)
  {
    hide GoodLegs, LegFailed, Yield.SweepAmount, Yield.Open, Yield.Unwind;
  }

  /**
    * A settled payment is settled all through a run exactly when no failure write, no late
    * confirmation and no bank claim's record falls in it; a failed one when no confirmation and
    * no claim's record does.
    */
  lemma StatusKeptExactly(w: World, steps: seq<Step>)
    requires Terminal(w.row.status)
    ensures (forall k | 0 <= k <= |steps| :: Runs(w, steps[..k]).row.status == w.row.status)
       <==> (forall k | 0 <= k < |steps| :: !Overturns(Runs(w, steps[..k]), steps[k]))
  {
    var kept := (v: World) => v.row.status == w.row.status;
    forall v: World, s: Step | kept(v) ensures kept(Next(v, s)) <==> !Overturns(v, s) {
      OverturnsExactly(v, s);
    }
    hide Next, Overturns;
    KeptExactly(w, steps, kept, Overturns);
    assert forall k | 0 <= k <= |steps| ::
        kept(Runs(w, steps[..k])) <==> Runs(w, steps[..k]).row.status == w.row.status;
  }

  /**
    * Nothing in flight, and no claim yet to come, can write a status the payment does not have. A
    * settled payment admits no new claim; a failed one does unless its note is already recorded.
    */
  predicate Quiescent(w: World) {
    && w.watching == {} && w.confirming == {}
    && (w.row.status == SETTLED ==>
          && w.failing == {}
          && (forall call <- w.reading :: Decide(w.reading[call]) != Fail)
          && (forall id <- w.claiming :: w.claiming[id].ByWallet?))
    && (w.row.status == Status.FAILED ==> w.claiming == map[] && (w.row.pool ==> w.row.claimed))
  }

  /** Everything but a further report of a failed payout, which overturns a settled payment whenever it comes. */
  predicate Jobs(steps: seq<Step>) {
    forall s <- steps :: !s.FailReport?
  }

  lemma FailureReportOverturns(w: World, id: nat, leg: Leg)
    requires w.row.status == SETTLED
    ensures Next(Next(w, FailReport(id, leg)), FailWrite(id)).row.status == Status.FAILED
  {
  }

  lemma QuiescentStep(w: World, s: Step)
    requires Terminal(w.row.status) && Quiescent(w) && !s.FailReport?
    ensures Next(w, s).row.status == w.row.status && Quiescent(Next(w, s))
  {
    hide GoodLegs, LegFailed, Yield.SweepAmount, Yield.Open, Yield.Unwind;
  }

  lemma {:induction false} QuiescentRuns(w: World, steps: seq<Step>)
    requires Terminal(w.row.status) && Quiescent(w) && Jobs(steps)
    ensures Runs(w, steps).row.status == w.row.status && Quiescent(Runs(w, steps))
  {
    hide Quiescent;
    if steps != [] {
      assert steps[|steps| - 1] in steps && forall s <- steps[..|steps| - 1] :: s in steps;
      QuiescentRuns(w, steps[..|steps| - 1]);
      QuiescentStep(Runs(w, steps[..|steps| - 1]), steps[|steps| - 1]);
    }
  }

  /** A step, or two, that overturns a status that is not quiescent. */
  ghost function Overturning(w: World): (steps: seq<Step>)
    requires Terminal(w.row.status) && !Quiescent(w)
    ensures Jobs(steps) && Runs(w, steps).row.status != w.row.status
  {
    if w.confirming != {} then
      var job :| job in w.confirming;
      OneOverturns(w, WatchStatus(job))
    else if w.watching != {} then
      var job :| job in w.watching;
      RunsOne(w, WatchLeg(job));
      RunsSnoc(w, [WatchLeg(job)], WatchStatus(job));
      [WatchLeg(job)] + [WatchStatus(job)]
    else if w.row.status == Status.FAILED then
      if w.claiming != map[] then
        var id :| id in w.claiming;
        OneOverturns(w, ClaimCommit(id))
      else OneOverturns(w, Claim(ByWallet, true))
    else if w.failing != {} then
      var id :| id in w.failing;
      OneOverturns(w, FailWrite(id))
    else if id :| id in w.claiming && w.claiming[id].ByBank? then OneOverturns(w, ClaimCommit(id))
    else
      var call :| call in w.reading && Decide(w.reading[call]) == Fail;
      OneOverturns(w, Write(call))
  }

  function OneOverturns(w: World, s: Step): (steps: seq<Step>)
    requires Terminal(w.row.status) && Overturns(w, s) && !s.FailReport?
    ensures Jobs(steps) && Runs(w, steps).row.status != w.row.status
  {
    RunsOne(w, s);
    OverturnsExactly(w, s);
    [s]
  }

  /**
    * Short of a further failure report, the payment keeps its terminal status whatever happens from
    * here on, exactly when it is quiescent.
    */
  lemma TerminalForGood(w: World)
    requires Terminal(w.row.status)
    ensures (forall steps | Jobs(steps) :: Runs(w, steps).row.status == w.row.status) <==> Quiescent(w)
  {
    if Quiescent(w) {
      forall steps | Jobs(steps) ensures Runs(w, steps).row.status == w.row.status {
        QuiescentRuns(w, steps);
      }
    } else {
      var steps := Overturning(w);
      assert Jobs(steps);
    }
  }

  /** Each job taken whole, and no payout reported failed after the fact. */
  predicate WholeJobs(steps: seq<Step>) {
    forall s <- steps :: s.Whole? || s.Watch? || s.SweepIn? || s.SweepOut? || s.Claim? || s.SetFiat? || s.ChainReport?
  }

  /** Settled, or not to be claimed any more. */
  predicate Unclaimable(row: Row) {
    row.status == SETTLED || !row.pool || row.claimed
  }

  lemma WholeStep(w: World, steps: seq<Step>, s: Step)
    requires Terminal(w.row.status) && Unclaimable(w.row) && WholeJobs(steps) && s in steps
    ensures Next(w, s).row.status == w.row.status && Next(w, s).wins == w.wins && Unclaimable(Next(w, s).row)
  {
    hide GoodLegs, LegFailed, Yield.SweepAmount, Yield.Open, Yield.Unwind;
  }

  lemma {:induction false} WholeRuns(w: World, steps: seq<Step>)
    requires Terminal(w.row.status) && Unclaimable(w.row) && WholeJobs(steps)
    ensures Runs(w, steps).row.status == w.row.status && Runs(w, steps).wins == w.wins
    ensures Unclaimable(Runs(w, steps).row)
  {
    hide Next, Unclaimable;
    if steps != [] {
      assert steps[|steps| - 1] in steps && forall s <- steps[..|steps| - 1] :: s in steps;
      WholeRuns(w, steps[..|steps| - 1]);
      WholeStep(Runs(w, steps[..|steps| - 1]), steps, steps[|steps| - 1]);
    }
  }

  /**
    * With each job taken whole a settled payment keeps its status for ever, and a failed one
    * exactly when no note of it is left to claim.
    */
  lemma TerminalAbsorbs(w: World)
    requires Terminal(w.row.status)
    ensures (forall steps | WholeJobs(steps) :: Runs(w, steps).row.status == w.row.status) <==> Unclaimable(w.row)
  {
    hide Next, Runs;
    if Unclaimable(w.row) {
      forall steps | WholeJobs(steps) ensures Runs(w, steps).row.status == w.row.status {
        WholeRuns(w, steps);
      }
    } else {
      RunsOne(w, Claim(ByWallet, true));
      OverturnsExactly(w, Claim(ByWallet, true));
      assert WholeJobs([Claim(ByWallet, true)]);
    }
  }

  // ---- Who wins the settle ----

  /** 1 while the payment is terminal. */
  function InTerminal(w: World): nat {
    if Terminal(w.row.status) then 1 else 0
  }

  /** Settles less late confirmations less the terminal state itself never grow. */
  lemma StepCounts(w: World, s: Step)
    ensures var w' := Next(w, s);
            && w'.reopened >= w.reopened
            && w'.wins - w'.reopened - InTerminal(w') <= w.wins - w.reopened - InTerminal(w)
            && (Terminal(w.row.status) && w'.reopened == w.reopened ==> Terminal(w'.row.status) && w'.wins == w.wins)
  {
    hide GoodLegs, LegFailed, Yield.SweepAmount, Yield.Open, Yield.Unwind;
  }

  /**
    * With every read and write interleaved, only a late confirmation, by the watcher or by a bank
    * claim, takes a payment out of the terminal states or lets another call win.
    */
  lemma {:induction false} TerminalStays(w: World, steps: seq<Step>)
    requires Terminal(w.row.status)
    ensures var end := Runs(w, steps);
            && end.reopened >= w.reopened
            && (end.reopened == w.reopened ==> Terminal(end.row.status) && end.wins == w.wins)
  {
    hide Next;
    if steps != [] {
      TerminalStays(w, steps[..|steps| - 1]);
      StepCounts(Runs(w, steps[..|steps| - 1]), steps[|steps| - 1]);
    }
  }

  /**
    * In every interleaving of any number of calls and jobs the settles exceed the late
    * confirmations by at most one, and only while the payment is terminal.
    */
  lemma {:induction false} WinsBounded(w: World, steps: seq<Step>)
    requires w.wins == 0 && w.reopened == 0
    ensures var end := Runs(w, steps); end.wins <= end.reopened + if Terminal(end.row.status) then 1 else 0
  {
    hide Next;
    if steps != [] {
      WinsBounded(w, steps[..|steps| - 1]);
      StepCounts(Runs(w, steps[..|steps| - 1]), steps[|steps| - 1]);
    }
  }

  /** While no confirmation of a terminal payment has happened, at most one call has won the settle. */
  lemma AtMostOneWin(w: World, steps: seq<Step>)
    requires w.wins == 0 && w.reopened == 0
    ensures var end := Runs(w, steps);
            end.reopened == 0 ==> end.wins <= 1 && (end.wins == 1 ==> Terminal(end.row.status))
  {
    WinsBounded(w, steps);
  }

  /** No watcher between its check and its writes, and no bank claim. */
  predicate NoLateConfirmers(w: World) {
    w.watching == {} && w.confirming == {} && forall id <- w.claiming :: w.claiming[id].ByWallet?
  }

  predicate StartsConfirmer(s: Step) {
    s.WatchRead? || ((s.ClaimCheck? || s.Claim?) && s.kind.ByBank?)
  }

  lemma ConfirmerStep(w: World, s: Step)
    requires NoLateConfirmers(w) && !StartsConfirmer(s)
    ensures NoLateConfirmers(Next(w, s)) && Next(w, s).reopened == w.reopened
  {
    hide GoodLegs, LegFailed, Yield.SweepAmount, Yield.Open, Yield.Unwind;
  }

  /** And none happens while watcher jobs are whole and there are no bank claims, all else split at will. */
  lemma {:induction false} WholeWatchersNeverReopen(w: World, steps: seq<Step>)
    requires NoLateConfirmers(w) && forall s <- steps :: !StartsConfirmer(s)
    ensures NoLateConfirmers(Runs(w, steps)) && Runs(w, steps).reopened == w.reopened
  {
    hide Next, NoLateConfirmers, StartsConfirmer;
    if steps != [] {
      assert steps[|steps| - 1] in steps && forall s <- steps[..|steps| - 1] :: s in steps;
      WholeWatchersNeverReopen(w, steps[..|steps| - 1]);
      ConfirmerStep(Runs(w, steps[..|steps| - 1]), steps[|steps| - 1]);
    }
  }

  /** A step takes up a read only of the rows as they are. */
  lemma ReadStep(w: World, s: Step, call: nat)
    ensures call in Next(w, s).reading ==>
              Next(w, s).reading[call] == if call in w.reading then w.reading[call] else w.row
  {
    hide Decide, Reconciled;
  }

  /** Every pending read shows the rows as they were at some earlier moment of the run. */
  lemma {:induction false} ReadsAreReal(w: World, steps: seq<Step>, call: nat) returns (n: nat)
    requires w.reading == map[] && call in Runs(w, steps).reading
    ensures n <= |steps| && Runs(w, steps).reading[call] == Runs(w, steps[..n]).row
  {
    hide Next;
    var m := |steps| - 1;
    ReadStep(Runs(w, steps[..m]), steps[m], call);
    if call in Runs(w, steps[..m]).reading {
      n := ReadsAreReal(w, steps[..m], call);
      assert steps[..m][..n] == steps[..n];
    } else {
      n := m;
    }
  }

  /** `wins` counts the steps of a reconcile call, on good legs as it read them, that settle an open payment. */
  lemma NextWins(w: World, s: Step)
    ensures var settles := !Terminal(w.row.status)
                           && (|| (s.Whole? && Decide(w.row) == Settle)
                               || (s.Write? && s.call in w.reading && Decide(w.reading[s.call]) == Settle));
            && Next(w, s).wins == w.wins + (if settles then 1 else 0)
            && (settles ==> Next(w, s).row.status == SETTLED)
  {
    hide GoodLegs, LegFailed;
  }

  /** `reopened` counts the steps that take the payment out of a terminal state. */
  lemma NextReopens(w: World, s: Step)
    ensures Next(w, s).reopened
         == w.reopened + if Terminal(w.row.status) && !Terminal(Next(w, s).row.status) then 1 else 0
  {
    hide GoodLegs, LegFailed, Yield.SweepAmount, Yield.Open, Yield.Unwind;
  }

  /** The job that this write belongs to is in flight. */
  predicate InFlight(w: World, s: Step) {
    match s
    case Write(call) => call in w.reading
    case WatchLeg(job) => job in w.watching
    case WatchGiveUp(job) => job in w.watching
    case WatchStatus(job) => job in w.confirming
    case SweepUnwind(job, _) => job in w.sweeping
    case SweepFail(job) => job in w.sweeping
    case ClaimCommit(id) => id in w.claiming
    case ClaimDrop(id) => id in w.claiming
    case FailWrite(id) => id in w.failing
    case _ => false
  }

  /** No write is done twice: after it its job is past it. Only a sweep-out that got no answer still is where it was. */
  lemma WritesOnce(w: World, s: Step)
    ensures InFlight(Next(w, s), s) <==> s.SweepUnwind? && !s.answered && s.job in w.sweeping
    ensures s.WatchLeg? && s.job in w.watching ==> InFlight(Next(w, s), WatchStatus(s.job))
  {
    hide Decide, ClaimRecorded, UnwoundTo, FallenBack;
  }

  lemma SettleColumns(row: Row)
    requires Decide(row) == Settle
    ensures Reconciled(row).status == SETTLED && row.status != SETTLED && row.status != Status.FAILED
  {
  }

  /** A call wins only on legs that were good when it read them. */
  lemma WinsOnGoodLegs(w: World, steps: seq<Step>, s: Step)
    requires w.reading == map[] && Next(Runs(w, steps), s).wins > Runs(w, steps).wins
    ensures exists n | 0 <= n <= |steps| ::
              var row := Runs(w, steps[..n]).row;
              && row.status != SETTLED && row.status != Status.FAILED
              && row.onchain.Some? && row.onchain.value.status == CONFIRMED
              && row.fiat.Some? && (row.fiat.value.status == RECEIVED || row.fiat.value.status == CONFIRMED)
              && (row.fiat.value.currency == "" || row.fiat.value.currency == row.corridorTo)
              && match (row.target, row.fiat.value.amount)
                 case (Some(quoted), Some(paid)) => quoted <= 0 || 99 * quoted <= 100 * paid <= 101 * quoted
                 case _ => true
  {
    hide *;
    NextWins(Runs(w, steps), s);
    var n: nat := |steps|;
    assert steps[..|steps|] == steps;
    if s.Write? && s.call in Runs(w, steps).reading {
      n := ReadsAreReal(w, steps, s.call);
    }
    var row := Runs(w, steps[..n]).row;
    SettleColumns(row);
    ReconcilesExactly(row);
  }

  /**
    * What a call answers against what is stored once it has written. A call that found the
    * payment open and its legs good answers "settled" also when the payment has failed since;
    * a failure is always as answered; a call that read a terminal status repeats it.
    */
  lemma AnswerIsStored(w: World, call: nat)
    requires call in w.reading
    ensures var verdict, stored := Decide(w.reading[call]), Next(w, Write(call)).row.status;
            match OutcomeOf(verdict)
            case SettledOutcome =>
              stored == SETTLED <==> w.row.status == SETTLED || (verdict == Settle && w.row.status != Status.FAILED)
            case FailedOutcome => stored == Status.FAILED <==> w.row.status == Status.FAILED || verdict == Fail
            case WaitingOutcome => stored == w.row.status
  {
    hide GoodLegs, LegFailed;
  }

  lemma FiatStep(w: World, leg: Leg)
    ensures Next(w, SetFiat(leg)) == w.(row := w.row.(fiat := Some(leg)))
  {
  }

  lemma ReconcileSteps(w: World, call: nat)
    ensures call !in w.reading ==> Next(w, Read(call)) == w.(reading := w.reading[call := w.row])
    ensures Next(w, Whole).row == Reconciled(w.row) && Next(w, Whole).reading == w.reading
    ensures call in w.reading && Decide(w.reading[call]) == Fail ==> Next(w, Write(call)).row.status == Status.FAILED
  {
    hide Watching, Sweeping, Claiming, Webhook, Decide, GoodLegs;
  }

  /** The unguarded failure write of a call that read a failed leg undoes a settle made meanwhile. */
  lemma StaleFailureUndoesSettle(w: World, bad: Leg, good: Leg)
    requires !Terminal(w.row.status) && w.reading == map[]
    requires bad.status == LegStatus.FAILED
    requires GoodLegs(w.row.(fiat := Some(good)))
    ensures var settled := Runs(w, [] + [SetFiat(bad)] + [Read(0)] + [SetFiat(good)] + [Whole]);
            settled.row.status == SETTLED && Next(settled, Write(0)).row.status == Status.FAILED
  {
    assert Decide(w.row.(fiat := Some(bad))) == Fail && Reconciled(w.row.(fiat := Some(good))).status == SETTLED;
    hide *;
    var w1 := w.(row := w.row.(fiat := Some(bad)));
    var w2 := w1.(reading := w.reading[0 := w1.row]);
    var w3 := w2.(row := w.row.(fiat := Some(good)));
    FiatStep(w, bad);
    ReconcileSteps(w1, 0);
    FiatStep(w2, good);
    ReconcileSteps(w3, 0);
    ReconcileSteps(Next(w3, Whole), 0);
    RunsThree(w, SetFiat(bad), Read(0), SetFiat(good));
    RunsSnoc(w, [] + [SetFiat(bad)] + [Read(0)] + [SetFiat(good)], Whole);
  }

  /**
    * The two ways a claim overturns a status: a wallet claim settles a failed payment whose note
    * is left, and a bank claim checked before a settle marks the settled payment confirmed.
    */
  lemma ClaimsOverturn(w: World, id: nat, quote: int)
    requires Claimable(w.row) && id !in w.claiming
    ensures Next(w, Claim(ByWallet, true)).row.status == SETTLED
    ensures !Terminal(w.row.status) && GoodLegs(w.row) ==>
              var settled := Runs(w, [] + [ClaimCheck(id, ByBank(quote))] + [Whole]);
              settled.row.status == SETTLED && Next(settled, ClaimCommit(id)).row.status == ONCHAIN_CONFIRMED
  {
    var checked := w.(claiming := w.claiming[id := ByBank(quote)]);
    ClaimSteps(w, id, ByWallet);
    ClaimSteps(w, id, ByBank(quote));
    RunsSnoc(w, [], ClaimCheck(id, ByBank(quote)));
    RunsSnoc(w, [] + [ClaimCheck(id, ByBank(quote))], Whole);
    RunsEmpty(w);
    hide Runs, Next, GoodLegs;
    if !Terminal(w.row.status) && GoodLegs(w.row) {
      FirstSettle(checked);
      ClaimSteps(Next(checked, Whole), id, ByWallet);
    }
  }

  // ---- The bound on settles is met ----

  /** `n` watchers read the open payment. */
  function WatchReads(n: nat): seq<Step> {
    if n == 0 then [] else WatchReads(n - 1) + [WatchRead(n - 1)]
  }

  /** A call then settles it, and the first `k` of them confirm late, each followed by another settle. */
  function LateRun(n: nat, k: nat): seq<Step> {
    if k == 0 then WatchReads(n) + [Whole] else LateRun(n, k - 1) + [WatchLeg(k - 1)] + [WatchStatus(k - 1)] + [Whole]
  }

  lemma WatchReadStep(w: World, job: nat)
    requires !Terminal(w.row.status)
    ensures Next(w, WatchRead(job)) == w.(watching := w.watching + {job})
  {
  }

  /** The watchers below `n`. */
  function Watchers(n: nat): set<nat> {
    if n == 0 then {} else Watchers(n - 1) + {n - 1}
  }

  lemma {:induction false} InWatchers(n: nat, i: nat)
    ensures i in Watchers(n) <==> i < n
  {
    if n > 0 {
      InWatchers(n - 1, i);
    }
  }

  lemma {:induction false} AllWatching(w: World, n: nat)
    requires !Terminal(w.row.status) && w.watching == {}
    ensures Runs(w, WatchReads(n)) == w.(watching := Watchers(n))
  {
    hide Next, Terminal;
    if n == 0 {
      RunsEmpty(w);
    } else {
      hide Runs;
      AllWatching(w, n - 1);
      RunsSnoc(w, WatchReads(n - 1), WatchRead(n - 1));
      WatchReadStep(w.(watching := Watchers(n - 1)), n - 1);
    }
  }

  /** A confirmation of a settled payment with good legs, and the settle after it. */
  lemma LateRound(w: World, job: nat)
    requires w.row.status == SETTLED && GoodLegs(w.row) && job in w.watching
    ensures var end := Next(Next(Next(w, WatchLeg(job)), WatchStatus(job)), Whole);
            && end.row.status == SETTLED && GoodLegs(end.row)
            && end.wins == w.wins + 1 && end.reopened == w.reopened + 1 && end.watching == w.watching - {job}
  {
    hide Sweeping, Claiming, Webhook;
  }

  lemma FirstSettle(w: World)
    requires !Terminal(w.row.status) && GoodLegs(w.row)
    ensures Next(w, Whole) == w.(row := w.row.(status := SETTLED), wins := w.wins + 1)
    ensures GoodLegs(Next(w, Whole).row)
  {
    hide Watching, Sweeping, Claiming, Webhook;
  }

  /** For every `n`, a run with `n` late confirmations in which the payment settles `n + 1` times. */
  lemma {:induction false} LateConfirmationsSettleAgain(w: World, n: nat, k: nat)
    requires !Terminal(w.row.status) && GoodLegs(w.row) && w.reopened == 0 && w.wins == 0 && w.watching == {}
    requires k <= n
    ensures var end := Runs(w, LateRun(n, k));
            && end.wins == k + 1 && end.reopened == k && end.row.status == SETTLED && GoodLegs(end.row)
            && forall i: nat :: i in end.watching <==> k <= i < n
    decreases k
  {
    hide Runs;
    if k == 0 {
      AllWatching(w, n);
      RunsSnoc(w, WatchReads(n), Whole);
      FirstSettle(Runs(w, WatchReads(n)));
      hide Next, GoodLegs;
      forall i: nat ensures i in Watchers(n) <==> i < n {
        InWatchers(n, i);
      }
    } else {
      hide Next, GoodLegs;
      LateConfirmationsSettleAgain(w, n, k - 1);
      RunsThreeMore(w, LateRun(n, k - 1), WatchLeg(k - 1), WatchStatus(k - 1), Whole);
      LateRound(Runs(w, LateRun(n, k - 1)), k - 1);
    }
  }

  // ---- Yield positions over a run ----

  predicate Closed(row: Row) {
    row.position.Some? && row.position.value.holding != Yield.Held
  }

  /** A failure write, with its sweep-out in flight, over a position that was returned. */
  predicate Overwrites(w: World, s: Step) {
    s.SweepFail? && s.job in w.sweeping && w.row.position.Some? && w.row.position.value.holding == Yield.Returned
  }

  lemma OverwritesExactly(w: World, s: Step)
    requires Closed(w.row)
    ensures Next(w, s).row.position == w.row.position <==> !Overwrites(w, s)
  {
    hide GoodLegs, LegFailed, Yield.SweepAmount, Yield.Open, Yield.Unwind;
  }

  /** A closed position stays as it is all through a run exactly when no such failure write falls in it. */
  lemma ClosedPositionsKeptExactly(w: World, steps: seq<Step>)
    requires Closed(w.row)
    ensures (forall k | 0 <= k <= |steps| :: Runs(w, steps[..k]).row.position == w.row.position)
       <==> (forall k | 0 <= k < |steps| :: !Overwrites(Runs(w, steps[..k]), steps[k]))
  {
    var kept := (v: World) => v.row.position == w.row.position;
    forall v: World, s: Step | kept(v) ensures kept(Next(v, s)) <==> !Overwrites(v, s) {
      OverwritesExactly(v, s);
    }
    hide Next, Overwrites;
    KeptExactly(w, steps, kept, Overwrites);
    assert forall k | 0 <= k <= |steps| ::
        kept(Runs(w, steps[..k])) <==> Runs(w, steps[..k]).row.position == w.row.position;
  }

  lemma ClosedStep(w: World, s: Step)
    requires Closed(w.row) && (w.sweeping == map[] || w.row.position.value.holding == Yield.FellBack)
    ensures Next(w, s).row.position == w.row.position && (w.sweeping == map[] ==> Next(w, s).sweeping == map[])
  {
    hide GoodLegs, LegFailed, Yield.SweepAmount, Yield.Open, Yield.Unwind;
  }

  lemma {:induction false} NothingInFlight(w: World, steps: seq<Step>)
    requires Closed(w.row) && (w.sweeping == map[] || w.row.position.value.holding == Yield.FellBack)
    ensures Runs(w, steps).row.position == w.row.position
    ensures w.sweeping == map[] ==> Runs(w, steps).sweeping == map[]
  {
    hide Next;
    if steps != [] {
      NothingInFlight(w, steps[..|steps| - 1]);
      ClosedStep(Runs(w, steps[..|steps| - 1]), steps[|steps| - 1]);
    }
  }

  /** A closed position is final, whatever follows, exactly when it fell back or no sweep-out is in flight. */
  lemma ClosedForGood(w: World)
    requires Closed(w.row)
    ensures (forall steps :: Runs(w, steps).row.position == w.row.position)
       <==> w.row.position.value.holding == Yield.FellBack || w.sweeping == map[]
  {
    if w.row.position.value.holding == Yield.FellBack || w.sweeping == map[] {
      forall steps ensures Runs(w, steps).row.position == w.row.position {
        NothingInFlight(w, steps);
      }
    } else {
      var job :| job in w.sweeping;
      RunsOne(w, SweepFail(job));
      assert Runs(w, [SweepFail(job)]).row.position != w.row.position;
    }
  }

  lemma SweepSteps(w: World, job: nat, heldMs: int)
    ensures HasHeld(w.row) && job !in w.sweeping ==>
              Next(w, SweepRead(job, true, heldMs))
              == w.(sweeping := w.sweeping[job := Yield.Unwind(w.row.position.value, heldMs)])
    ensures job in w.sweeping ==>
              Next(w, SweepUnwind(job, true))
              == w.(row := UnwoundTo(w.row, w.sweeping[job]), sweeping := w.sweeping - {job})
    ensures job in w.sweeping ==>
              Next(w, SweepFail(job)) == w.(row := FallenBack(w.row), sweeping := w.sweeping - {job})
  {
    hide Reconciling, Watching, Claiming, Webhook, UnwoundTo, FallenBack, SweptInto, SweptBack;
  }

  /** Two sweep-outs have read the held position. */
  lemma TwoSweeps(w: World, heldMs: int)
    requires HasHeld(w.row) && w.sweeping == map[]
    ensures var prepared := Yield.Unwind(w.row.position.value, heldMs);
            Next(Next(w, SweepRead(0, true, heldMs)), SweepRead(1, true, heldMs))
            == w.(sweeping := map[0 := prepared, 1 := prepared])
  {
    hide Next, Yield.Unwind;
    SweepSteps(w, 0, heldMs);
    SweepSteps(Next(w, SweepRead(0, true, heldMs)), 1, heldMs);
  }

  lemma RowAfterSweeps(row: Row, heldMs: int)
    requires HasHeld(row)
    ensures var prepared := Yield.Unwind(row.position.value, heldMs);
            var returned := UnwoundTo(row, prepared);
            && Replay(true, returned.position).Returned?
            && FallenBack(returned).position.Some? && FallenBack(returned).position.value.holding == Yield.FellBack
            && FallenBack(returned).position.value.sweptOut.Some?
            && Replay(true, FallenBack(returned).position) == Fallback(row.position.value.principal)
  {
    hide Yield.AccrueYield, Yield.FeeOn, Yield.SwapReceived;
  }

  /**
    * Two sweep-outs read the held position, one returns it, the other's transaction throws: the
    * position ends failed with an unwind on record, and later calls report the whole principal short.
    */
  lemma StaleFailureOverReturn(w: World, heldMs: int)
    requires HasHeld(w.row) && w.sweeping == map[]
    ensures var begun := [] + [SweepRead(0, true, heldMs)] + [SweepRead(1, true, heldMs)];
            var returned := Runs(w, begun + [SweepUnwind(0, true)]);
            var end := Next(returned, SweepFail(1));
            && Replay(true, returned.row.position).Returned?
            && end.row.position.Some? && end.row.position.value.holding == Yield.FellBack
            && end.row.position.value.sweptOut.Some?
            && Replay(true, end.row.position) == Fallback(w.row.position.value.principal)
  {
    assert w.row.position.Some?;
    hide *;
    RunsThree(w, SweepRead(0, true, heldMs), SweepRead(1, true, heldMs), SweepUnwind(0, true));
    TwoSweeps(w, heldMs);
    var prepared := Yield.Unwind(w.row.position.value, heldMs);
    var both := w.(sweeping := map[0 := prepared, 1 := prepared]);
    SweepSteps(both, 0, heldMs);
    SweepSteps(Next(both, SweepUnwind(0, true)), 1, heldMs);
    RowAfterSweeps(w.row, heldMs);
  }

  /**
    * What a sweep-out answers after its guarded update: its own figures if the update matched, and
    * otherwise the stored ones, as "returned" whatever the stored state is.
    */
  function UnwindAnswer(w: World, job: nat): Unwound
    requires job in w.sweeping && w.row.position.Some?
  {
    var shown := if HasHeld(w.row) then w.sweeping[job] else w.row.position.value;
    Unwound.Returned(shown.sweptOut.GetOr(0), shown.accrued)
  }

  /** That is what later calls answer exactly when no other sweep-out had marked the position failed. */
  lemma UnwindAnswerIsReplay(w: World, job: nat, answered: bool)
    requires job in w.sweeping && w.row.position.Some?
    ensures UnwindAnswer(w, job) == Replay(true, Next(w, SweepUnwind(job, answered)).row.position)
       <==> w.row.position.value.holding != Yield.FellBack
  {
    hide Reconciling, Watching, Claiming, Webhook;
  }

  /** Two sweep-outs read the held position, one marks it failed, and the other answers that 0 was returned. */
  lemma StaleUnwindReportsZero(w: World, heldMs: int)
    requires HasHeld(w.row) && w.sweeping == map[]
    requires w.row.position.value.sweptOut == None && w.row.position.value.accrued == 0
    ensures var failed := Runs(w, [] + [SweepRead(0, true, heldMs)] + [SweepRead(1, true, heldMs)] + [SweepFail(0)]);
            && 1 in failed.sweeping && failed.row.position.Some? && failed.row.position.value.holding == Yield.FellBack
            && UnwindAnswer(failed, 1) == Unwound.Returned(0, 0)
  {
    hide Runs, Next, Yield.Unwind, UnwoundTo;
    RunsThree(w, SweepRead(0, true, heldMs), SweepRead(1, true, heldMs), SweepFail(0));
    TwoSweeps(w, heldMs);
    var prepared := Yield.Unwind(w.row.position.value, heldMs);
    SweepSteps(w.(sweeping := map[0 := prepared, 1 := prepared]), 0, heldMs);
  }

  /** The position is booked, and every sweep-out in flight computed its columns from these terms. */
  ghost predicate PositionOk(w: World) {
    && (w.row.position.Some? ==> Yield.Booked(w.row.position.value))
    && (forall job <- w.sweeping ::
          && w.row.position.Some? && Yield.SameTerms(w.row.position.value, w.sweeping[job])
          && Yield.Booked(w.sweeping[job]) && w.sweeping[job].holding == Yield.Returned)
  }

  lemma SweepInOk(w: World, s: Step)
    requires PositionOk(w) && s.SweepIn?
    ensures PositionOk(Next(w, s))
  {
    hide Yield.Booked, Yield.Open, Yield.SameTerms, Reconciling, Watching, Claiming, Webhook;
    var amount := Yield.SweepAmount(w.row.source, s.config);
    if amount.Ok? {
      Yield.OpenIsBooked(amount.value, s.config);
    }
  }

  lemma SweepOutOk(w: World, s: Step)
    requires PositionOk(w) && (s.SweepOut? || s.SweepRead? || s.SweepUnwind? || s.SweepFail?)
    ensures PositionOk(Next(w, s))
  {
    hide Reconciling, Watching, Claiming, Webhook;
    if w.row.position.Some? {
      var p := w.row.position.value;
      Yield.FallBackIsBooked(p);
      if s.SweepOut? || s.SweepRead? {
        Yield.UnwindIsBooked(p, s.heldMs);
        Yield.UnwindTerms(p, s.heldMs);
        Yield.CloseIsPrepared(p, Yield.Unwind(p, s.heldMs));
      } else if s.job in w.sweeping {
        Yield.CloseIsPrepared(p, w.sweeping[s.job]);
      }
    }
    hide Yield.Booked, Yield.Unwind;
  }

  /** Only sweeps touch the position and the sweep-outs in flight. */
  lemma OthersKeepPosition(w: World, s: Step)
    requires !s.SweepIn? && !s.SweepOut? && !s.SweepRead? && !s.SweepUnwind? && !s.SweepFail?
    ensures Next(w, s).row.position == w.row.position && Next(w, s).sweeping == w.sweeping
  {
    hide Sweeping, Decide;
  }

  /**
    * In every interleaving the stored position is booked, closed or overwritten as it may be, and
    * so its receipt's slippage and net stay within a unit of what the swaps and the report say.
    */
  lemma {:induction false} PositionsStayBooked(w: World, steps: seq<Step>)
    requires PositionOk(w)
    ensures PositionOk(Runs(w, steps))
  {
    hide Next, Yield.Booked, Yield.SameTerms;
    if steps != [] {
      PositionsStayBooked(w, steps[..|steps| - 1]);
      var before, s := Runs(w, steps[..|steps| - 1]), steps[|steps| - 1];
      if s.SweepIn? {
        SweepInOk(before, s);
      } else if s.SweepOut? || s.SweepRead? || s.SweepUnwind? || s.SweepFail? {
        SweepOutOk(before, s);
      } else {
        OthersKeepPosition(before, s);
      }
    }
  }
}
