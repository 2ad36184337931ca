/**
  * Two-leg reconciliation and the other jobs that write a payment's status. Each job is a
  * method on the payment record, made of the database writes the code performs one by one;
  * `ReconcileRaces` interleaves those.
  */
module Reconcile {
  import opened Results
  import opened Payments
  import Yield

  datatype LegStatus = PENDING | RECEIVED | CONFIRMED | FAILED

  /** Amounts in units of 1e-8; an absent or empty currency is "". */
  datatype Leg = Leg(status: LegStatus, amount: Option<int>, currency: string)

  /**
    * `pool` is whether the payment is a disbursement of a pool note, `claimed` whether a claim has
    * recorded the note's nullifier hash on it.
    */
  datatype Row = Row(status: Status, onchain: Option<Leg>, fiat: Option<Leg>, corridorTo: string, source: int,
                     target: Option<int>, position: Option<Yield.Position>, pool: bool, claimed: bool)

  datatype Verdict = AlreadySettled | AlreadyFailed | Fail | Wait | Settle

  function Abs(x: int): nat {
    if x < 0 then -x else x
  }

  function LegFailed(leg: Option<Leg>): bool {
    leg.Some? && leg.value.status == LegStatus.FAILED
  }

  /** The settle conditions, said outright: both legs good, same corridor, within one percent. */
  predicate GoodLegs(row: Row) {
    && row.onchain.Some? && row.onchain.value.status == CONFIRMED
    && row.fiat.Some? && row.fiat.value.status in {RECEIVED, CONFIRMED}
    && (row.fiat.value.currency != "" ==> row.fiat.value.currency == row.corridorTo)
    && (row.target.Some? && row.fiat.value.amount.Some? && row.target.value > 0 ==>
          100 * Abs(row.target.value - row.fiat.value.amount.value) <= row.target.value)
  }

  /** What a reconcile call decides from the rows it read. */
  function Decide(row: Row): Verdict {
    if row.status == SETTLED then AlreadySettled
    else if row.status == Status.FAILED then AlreadyFailed
    else if LegFailed(row.onchain) || LegFailed(row.fiat) then Fail
    else if GoodLegs(row) then Settle
    else Wait
  }

  datatype Outcome = SettledOutcome | WaitingOutcome | FailedOutcome

  function Reconciled(row: Row): Row {
    match Decide(row)
    case Settle => row.(status := SETTLED)
    case Fail => row.(status := Status.FAILED)
    case _ => row
  }

  /**
    * What a call does to an open payment, in its columns: it fails on a failed leg of either kind,
    * settles when the chain leg is confirmed and the fiat leg received in the corridor's currency,
    * if it names one, within one percent of a quote, if there is one, and otherwise waits.
    */
  lemma ReconcilesExactly(row: Row)
    requires row.status != SETTLED && row.status != Status.FAILED
    ensures Reconciled(row).status == Status.FAILED <==>
            || (row.onchain.Some? && row.onchain.value.status == LegStatus.FAILED)
            || (row.fiat.Some? && row.fiat.value.status == LegStatus.FAILED)
    ensures Reconciled(row).status == SETTLED <==>
            && row.onchain.Some? && row.onchain.value.status == CONFIRMED
            && row.fiat.Some? && (row.fiat.value.status == RECEIVED || row.fiat.value.status == CONFIRMED)
            && (row.fiat.value.currency == "" || row.fiat.value.currency == row.corridorTo)
            && match (row.target, row.fiat.value.amount)
               case (Some(quoted), Some(paid)) => quoted <= 0 || 99 * quoted <= 100 * paid <= 101 * quoted
               case _ => true
    ensures Reconciled(row).status in {row.status, SETTLED, Status.FAILED}
    ensures Reconciled(row) == row.(status := Reconciled(row).status)
    ensures OutcomeOf(Decide(row)) == match Reconciled(row).status
                                      case SETTLED => SettledOutcome
                                      case FAILED => FailedOutcome
                                      case _ => WaitingOutcome
  {
  }

  lemma TerminalReconciles(row: Row)
    requires Terminal(row.status)
    ensures Reconciled(row) == row
    ensures OutcomeOf(Decide(row)) == if row.status == SETTLED then SettledOutcome else FailedOutcome
  {
  }

  function OutcomeOf(v: Verdict): Outcome {
    match v
    case AlreadySettled => SettledOutcome
    case Settle => SettledOutcome
    case Wait => WaitingOutcome
    case _ => FailedOutcome
  }

  // ---- What each database write does to the row ----

  function LegConfirmed(row: Row): Row {
    var leg := if row.onchain.Some? then row.onchain.value.(status := CONFIRMED) else Leg(CONFIRMED, None, "");
    row.(onchain := Some(leg))
  }

  function StatusConfirmed(row: Row): Row {
    row.(status := ONCHAIN_CONFIRMED)
  }

  function MarkedFailed(row: Row): Row {
    row.(status := Status.FAILED)
  }

  /** The settle is guarded: it matches only a payment that is not terminal. */
  function SettledIfOpen(row: Row): Row {
    if Terminal(row.status) then row else row.(status := SETTLED)
  }

  /** The unwind is guarded: it matches only a position that is still held. */
  function UnwoundTo(row: Row, prepared: Yield.Position): Row {
    if !HasHeld(row) then row
    else row.(position := Some(Yield.Close(row.position.value, prepared)),
         status := if row.status in {SETTLED, Status.FAILED, SWEPT_OUT} then row.status else SWEPT_OUT)
  }

  /** The failure write of a sweep-out is not guarded. */
  function FallenBack(row: Row): Row {
    if row.position.None? then row else row.(position := Some(Yield.FallBack(row.position.value)))
  }

  const OFFRAMP_CURRENCY := "PHP"

  /** How a receiver claims a pool note; a bank claim carries the quoted amount. */
  datatype ClaimKind = ByWallet | ByBank(quote: int)

  /** The pre-check of a claim: it refuses a settled payment and one with a recorded nullifier hash. */
  predicate Claimable(row: Row) {
    row.pool && row.status != SETTLED && !row.claimed
  }

  /** The transaction that records a claim checks nothing again. */
  function ClaimRecorded(row: Row, kind: ClaimKind): Row {
    var confirmed := LegConfirmed(row).(claimed := true);
    match kind
    case ByWallet => confirmed.(status := SETTLED)
    case ByBank(quote) => confirmed.(status := ONCHAIN_CONFIRMED, corridorTo := OFFRAMP_CURRENCY, target := Some(quote))
  }

  // ---- Jobs that nothing interrupts ----

  /** A claim whose withdraw goes through, or not. */
  function Claimed(row: Row, kind: ClaimKind, withdrawn: bool): Row {
    if Claimable(row) && withdrawn then ClaimRecorded(row, kind) else row
  }

  /** The payout of a bank claim as its webhook reports it, if it does: a failed one fails the payment. */
  function PayoutReported(row: Row, payout: Option<Leg>): Row {
    if payout.None? then row
    else if LegFailed(payout) then MarkedFailed(row.(fiat := payout))
    else row.(fiat := payout)
  }

  /** A bank claim from its check to the reconciliation at its end. */
  function BankClaimed(row: Row, quote: int, withdrawn: bool, payout: Option<Leg>): Row {
    if Claimable(row) && withdrawn then Reconciled(PayoutReported(ClaimRecorded(row, ByBank(quote)), payout)) else row
  }

  /** The payout is in the off-ramp's currency, or in none it names, and within one percent of the quote. */
  predicate PaysQuote(leg: Leg, quote: int) {
    && leg.status in {RECEIVED, CONFIRMED}
    && leg.currency in {"", "PHP"}
    && (leg.amount.Some? && quote > 0 ==> 99 * quote <= 100 * leg.amount.value <= 101 * quote)
  }

  /**
    * A bank claim whose withdraw went through, on a payment it may claim, settles exactly when its
    * fiat leg, the reported one or else the one stored, pays the quote, fails exactly when that leg
    * failed, and otherwise leaves the payment confirmed on chain. The payout it orders itself pays
    * the quote. Any other bank claim leaves the row alone.
    */
  lemma BankClaimExactly(row: Row, quote: int, withdrawn: bool, payout: Option<Leg>)
    ensures !withdrawn || !row.pool || row.status == SETTLED || row.claimed ==>
              BankClaimed(row, quote, withdrawn, payout) == row
    ensures withdrawn && row.pool && row.status != SETTLED && !row.claimed ==>
              var end, fiat := BankClaimed(row, quote, true, payout), if payout.Some? then payout else row.fiat;
              && end.claimed && !Claimable(end)
              && (end.status == SETTLED <==> fiat.Some? && PaysQuote(fiat.value, quote))
              && (end.status == Status.FAILED <==> LegFailed(fiat))
              && end.status in {SETTLED, Status.FAILED, ONCHAIN_CONFIRMED}
    ensures PaysQuote(Leg(RECEIVED, Some(quote), OFFRAMP_CURRENCY), quote)
  {
  }

  /** The chain watcher: confirm the leg when its event is found, fail on the last attempt. */
  function Watched(row: Row, found: bool, lastAttempt: bool): Row {
    if Terminal(row.status) then row
    else if found then StatusConfirmed(LegConfirmed(row))
    else if lastAttempt then MarkedFailed(row)
    else row
  }

  /** Open a position unless there is one or the amount does not qualify. */
  function SweptInto(row: Row, featureOn: bool, config: Yield.Config): Row {
    var amount := Yield.SweepAmount(row.source, config);
    if !featureOn || row.position.Some? || amount.Err? then row
    else
      var status := if row.status == Status.PENDING then SWEPT_IN else row.status;
      row.(position := Some(Yield.Open(amount.value, config)), status := status)
  }

  predicate HasHeld(row: Row) {
    row.position.Some? && row.position.value.holding == Yield.Held
  }

  /** Unwind a held position, or mark it failed; other positions are left alone. */
  function SweptBack(row: Row, featureOn: bool, heldMs: int, unwinds: bool): Row {
    if !featureOn || !HasHeld(row) then row
    else if unwinds then UnwoundTo(row, Yield.Unwind(row.position.value, heldMs))
    else FallenBack(row)
  }

  // ---- The jobs in the row's columns ----

  /**
    * A claim takes effect exactly when its withdraw goes through on a pool payment that is neither
    * settled nor claimed; it confirms the chain leg, and what else it writes depends on its kind.
    */
  lemma ClaimExactly(row: Row, kind: ClaimKind, withdrawn: bool)
    ensures var end := Claimed(row, kind, withdrawn);
            if withdrawn && row.pool && row.status != SETTLED && !row.claimed then
              && end.claimed && end.onchain.Some? && end.onchain.value.status == CONFIRMED
              && (row.onchain.Some? ==> end.onchain.value == row.onchain.value.(status := CONFIRMED))
              && match kind
                 case ByWallet => end == row.(status := SETTLED, onchain := end.onchain, claimed := true)
                 case ByBank(quote) =>
                   end == row.(status := ONCHAIN_CONFIRMED, onchain := end.onchain, claimed := true,
                   corridorTo := "PHP", target := Some(quote))
            else end == row
  {
  }

  /** The watcher acts on an open payment only: with the event it confirms, without it the last attempt fails it. */
  lemma WatchExactly(row: Row, found: bool, lastAttempt: bool)
    ensures var end := Watched(row, found, lastAttempt);
            if row.status == SETTLED || row.status == Status.FAILED || (!found && !lastAttempt) then end == row
            else if found then
              && end.onchain.Some? && end.onchain.value.status == CONFIRMED
              && (row.onchain.Some? ==> end.onchain.value == row.onchain.value.(status := CONFIRMED))
              && end == row.(status := ONCHAIN_CONFIRMED, onchain := end.onchain)
            else end == row.(status := Status.FAILED)
  {
  }

  /**
    * A sweep-in opens a position exactly when the feature and the tenant's configuration are on, there
    * is none yet, and what the source exceeds the buffer by is positive and clears the threshold.
    */
  lemma SweepInExactly(row: Row, featureOn: bool, config: Yield.Config)
    ensures var end, idle := SweptInto(row, featureOn, config), row.source - config.minIdleBuffer;
            if featureOn && config.enabled && row.position.None? && idle > 0 && idle >= config.sweepThreshold then
              && (match end.position
                  case Some(p) =>
                    && p.holding == Yield.Held && p.principal == idle && p.asset == config.asset
                    && p.feeBps == config.feeBps && p.accrued == 0 && p.sweptOut == None
                    && Yield.Rounds(p.sweptIn, idle * 9995, 10000)
                  case None => false)
              && end.status == (if row.status == Status.PENDING then SWEPT_IN else row.status)
              && end == row.(status := end.status, position := end.position)
            else end == row
  {
    var idle := row.source - config.minIdleBuffer;
    if idle > 0 {
      Yield.OpenIsBooked(idle, config);
    }
    hide Yield.Open, Yield.Rounds;
  }

  /**
    * A sweep-out closes a held position, with an unwind's columns or as failed and otherwise as it was,
    * and marks the payment swept out unless it failed to unwind or the payment is terminal.
    */
  lemma SweepOutExactly(row: Row, featureOn: bool, heldMs: int, unwinds: bool)
    ensures var end := SweptBack(row, featureOn, heldMs, unwinds);
            match (featureOn, row.position)
            case (true, Some(p)) =>
              if p.holding != Yield.Held then end == row
              else if unwinds then
                && end.position == Some(Yield.Unwind(p, heldMs))
                && end.status == (if row.status in {SETTLED, Status.FAILED} then row.status else SWEPT_OUT)
                && end == row.(status := end.status, position := end.position)
              else end == row.(position := Some(p.(holding := Yield.FellBack)))
            case _ => end == row
  {
    if row.position.Some? {
      Yield.UnwindTerms(row.position.value, heldMs);
      Yield.CloseIsPrepared(row.position.value, Yield.Unwind(row.position.value, heldMs));
    }
    hide Yield.Unwind;
  }

  datatype Unwound = Skipped | Returned(sweptOut: nat, accrued: nat) | Fallback(shortfall: nat)

  /** What a sweep-out answers, read off the position it leaves behind. */
  function Replay(featureOn: bool, position: Option<Yield.Position>): Unwound {
    if !featureOn || position.None? then Skipped
    else
      var p := position.value;
      match p.holding
      case Held => Skipped
      case Returned => Unwound.Returned(p.sweptOut.GetOr(0), p.accrued)
      case FellBack => Fallback(p.principal)
  }

  // ---- The jobs, on the stored record ----

  class PaymentRecord {
    var status: Status
    var onchain: Option<Leg>
    var fiat: Option<Leg>
    var position: Option<Yield.Position>
    var corridorTo: string
    var target: Option<int>
    var claimed: bool
    const source: int
    const pool: bool

    function View(): Row
      reads this
    {
      Row(status, onchain, fiat, corridorTo, source, target, position, pool, claimed)
    }

    constructor (corridorTo: string, source: int, target: Option<int>, pool: bool)
      ensures View() == Row(DRAFT, None, None, corridorTo, source, target, None, pool, false)
    {
      status, onchain, fiat, position, claimed := DRAFT, None, None, None, false;
      this.source := source;
      this.pool := pool;
      this.corridorTo := corridorTo;
      this.target := target;
    }

    method TryReconcile() returns (outcome: Outcome)
      modifies this`status
      ensures View() == Reconciled(old(View()))
      ensures outcome == OutcomeOf(Decide(old(View())))
      ensures outcome == SettledOutcome <==>
              || old(status) == SETTLED
              || (&& old(status) != Status.FAILED
                  && onchain.Some? && onchain.value.status == CONFIRMED
                  && fiat.Some? && (fiat.value.status == RECEIVED || fiat.value.status == CONFIRMED)
                  && (fiat.value.currency == "" || fiat.value.currency == corridorTo)
                  && match (target, fiat.value.amount)
                     case (Some(quoted), Some(paid)) => quoted <= 0 || 99 * quoted <= 100 * paid <= 101 * quoted
                     case _ => true)
    {
      ghost var row := View();
      if Terminal(status) {
        TerminalReconciles(row);
      } else {
        ReconcilesExactly(row);
      }
      hide Reconciled, Decide, OutcomeOf;
      if status == SETTLED {
        return SettledOutcome;
      }
      if status == Status.FAILED {
        return FailedOutcome;
      }
      if || (onchain.Some? && onchain.value.status == LegStatus.FAILED)
         || (fiat.Some? && fiat.value.status == LegStatus.FAILED) {
        MarkFailed();
        return FailedOutcome;
      }
      if onchain.None? || fiat.None? {
        return WaitingOutcome;
      }
      if onchain.value.status != CONFIRMED {
        return WaitingOutcome;
      }
      if fiat.value.status != RECEIVED && fiat.value.status != CONFIRMED {
        return WaitingOutcome;
      }
      if fiat.value.currency != "" && fiat.value.currency != corridorTo {
        return WaitingOutcome;
      }
      if target.Some? && fiat.value.amount.Some? {
        var quoted, realized := target.value, fiat.value.amount.value;
        if quoted > 0 {
          var difference := Abs(quoted - realized);  // deviation = difference / quoted
          if 100 * difference > quoted {
            return WaitingOutcome;
          }
        }
      }
      var _ := SettleIfOpen();
      return SettledOutcome;
    }

    /** The transaction of a claim, after its withdraw. */
    method RecordClaim(kind: ClaimKind)
      modifies this`status, this`onchain, this`claimed, this`corridorTo, this`target
      ensures View() == ClaimRecorded(old(View()), kind)
    {
      ConfirmLeg();
      claimed := true;
      match kind
      case ByWallet => status := SETTLED;
      case ByBank(quote) =>
        status := ONCHAIN_CONFIRMED;
        corridorTo := OFFRAMP_CURRENCY;
        target := Some(quote);
    }

    /** The row's part of a claim that nothing interrupts; `refused` is the answer of the pre-check. */
    method Claim(kind: ClaimKind, withdrawn: bool) returns (refused: bool)
      modifies this`status, this`onchain, this`claimed, this`corridorTo, this`target
      ensures View() == Claimed(old(View()), kind, withdrawn) && refused == !Claimable(old(View()))
    {
      refused := !pool || status == SETTLED || claimed;
      if !refused && withdrawn {
        RecordClaim(kind);
      }
    }

    method RecordPayout(payout: Leg)
      modifies this`status, this`fiat
      ensures View() == PayoutReported(old(View()), Some(payout))
    {
      fiat := Some(payout);
      if payout.status == LegStatus.FAILED {
        MarkFailed();
      }
    }

    /**
      * A bank claim nothing interrupts, with the payout its webhook reports, if it does. There is
      * no answer when the claim stops at its check or its withdraw.
      */
    method BankClaim(quote: int, withdrawn: bool, payout: Option<Leg>) returns (outcome: Option<Outcome>)
      modifies this`status, this`onchain, this`fiat, this`claimed, this`corridorTo, this`target
      ensures View() == BankClaimed(old(View()), quote, withdrawn, payout)
      ensures outcome.Some? <==> Claimable(old(View())) && withdrawn
      ensures outcome == Some(SettledOutcome) ==> status == SETTLED
      ensures outcome == Some(FailedOutcome) ==> status == Status.FAILED
    {
      var refused := Claim(ByBank(quote), withdrawn);
      if refused || !withdrawn {
        return None;
      }
      if payout.Some? {
        RecordPayout(payout.value);
      }
      var answer := TryReconcile();
      outcome := Some(answer);
    }

    /** The guarded settle; `updated` is whether it matched the row. */
    method SettleIfOpen() returns (updated: bool)
      modifies this`status
      ensures View() == SettledIfOpen(old(View())) && updated == !Terminal(old(status))
    {
      updated := status != SETTLED && status != Status.FAILED;
      if updated {
        status := SETTLED;
      }
    }

    /** The leg upsert of the watcher, which checks no status. */
    method ConfirmLeg()
      modifies this`onchain
      ensures View() == LegConfirmed(old(View()))
    {
      onchain := Some(if onchain.Some? then onchain.value.(status := CONFIRMED) else Leg(CONFIRMED, None, ""));
    }

    /** The watcher's status update, which checks no status either. */
    method ConfirmStatus()
      modifies this`status
      ensures View() == StatusConfirmed(old(View()))
    {
      status := ONCHAIN_CONFIRMED;
    }

    method MarkFailed()
      modifies this`status
      ensures View() == MarkedFailed(old(View()))
    {
      status := Status.FAILED;
    }

    method ProcessWatchOnchain(found: bool, lastAttempt: bool)
      modifies this`status, this`onchain
      ensures View() == Watched(old(View()), found, lastAttempt)
    {
      if status == SETTLED || status == Status.FAILED {
        return;
      }
      if found {
        ConfirmLeg();
        ConfirmStatus();
      } else if lastAttempt {
        MarkFailed();
      }
    }

    method SweepIn(featureOn: bool, config: Yield.Config) returns (swept: Option<nat>)
      modifies this`status, this`position
      ensures View() == SweptInto(old(View()), featureOn, config)
      ensures swept == if featureOn && position.Some? then Some(position.value.sweptIn) else None
    {
      if !featureOn {
        return None;
      }
      if position.Some? {
        return Some(position.value.sweptIn);
      }
      var amount := Yield.SweepAmount(source, config);
      if amount.Err? {
        return None;
      }
      position := Some(Yield.Open(amount.value, config));
      if status == Status.PENDING {
        status := SWEPT_IN;
      }
      swept := Some(position.value.sweptIn);
    }

    /** The guarded transaction of a sweep-out; `updated` is whether it matched the position. */
    method CommitUnwind(prepared: Yield.Position) returns (updated: bool)
      modifies this`status, this`position
      ensures View() == UnwoundTo(old(View()), prepared) && updated == HasHeld(old(View()))
    {
      updated := position.Some? && position.value.holding == Yield.Held;
      if updated {
        position := Some(Yield.Close(position.value, prepared));
        if status != SETTLED && status != Status.FAILED && status != SWEPT_OUT {
          status := SWEPT_OUT;
        }
      }
    }

    /** The failure update, which checks neither state nor columns. */
    method MarkFellBack()
      modifies this`position
      ensures View() == FallenBack(old(View()))
    {
      if position.Some? {
        position := Some(Yield.FallBack(position.value));
      }
    }

    method SweepOut(featureOn: bool, heldMs: int, unwinds: bool) returns (outcome: Unwound)
      modifies this`status, this`position
      ensures View() == SweptBack(old(View()), featureOn, heldMs, unwinds)
      ensures outcome == Replay(featureOn, position)
    {
      if !featureOn || position.None? {
        return Skipped;
      }
      var p := position.value;
      if p.holding == Yield.Returned {
        return Unwound.Returned(p.sweptOut.GetOr(0), p.accrued);
      }
      if p.holding == Yield.FellBack {
        return Fallback(p.principal);
      }
      if !unwinds {
        MarkFellBack();
        return Fallback(p.principal);
      }
      var prepared := Yield.Unwind(p, heldMs);
      var updated := CommitUnwind(prepared);
      outcome := Unwound.Returned(prepared.sweptOut.GetOr(0), prepared.accrued);
    }
  }
}
