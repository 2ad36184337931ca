/**
  * Salary advances of one employee: eligibility, the guarded lifecycle, and the FIFO netting
  * of a salary payout. The table is a class field updated row by row; its specification is
  * a set of functions on the list of rows in creation order.
  */
module Advances {
  import opened Results
  import opened Money

  datatype Status = REQUESTED | APPROVED | DISBURSED | REPAID | REJECTED

  datatype Advance = Advance(amount: nat, fee: nat, outstanding: nat, status: Status, paidBy: Option<nat>,
                             repaidBy: Option<nat>)

  datatype Policy = Policy(maxPercent: Percent, feePercent: Percent, cap: Option<nat>, autoApproveUnder: Option<nat>)

  datatype Error = OverLimit | NotFound | Conflict

  function Min(a: int, b: int): int {
    if a <= b then a else b
  }

  // ---- Eligibility ----

  /** The day of the month and the month's length. */
  datatype Day = Day(day: nat, days: nat)

  predicate CalendarDay(d: Day) {
    1 <= d.day <= d.days
  }

  /** A base-salary item of the employee's package: its amount, a year's or a month's. */
  datatype Salary = Salary(amount: nat, annual: bool)

  /** The monthly base, truncated to 7 decimals; an employee without a salary item has none. */
  function MonthlyBase(item: Option<Salary>): nat {
    match item
    case None => 0
    case Some(s) => 10 * Quotient(s.amount, if s.annual then 120 else 10)
  }

  /** A multiple of ten units; twelve of an annual salary's, or one of a monthly one's, fall short by the truncation. */
  lemma MonthlyBaseBounds(item: Option<Salary>)
    ensures MonthlyBase(item) % 10 == 0 && (item.None? ==> MonthlyBase(item) == 0)
    ensures item.Some? ==>
              var months := if item.value.annual then 12 else 1;
              months * MonthlyBase(item) <= item.value.amount < months * (MonthlyBase(item) + 10)
  {
  }

  function Accrued(base: nat, d: Day): nat
    requires CalendarDay(d)
  {
    10 * Quotient(base * d.day, 10 * d.days)
  }

  /** Pro rata to within one unit of 1e-7, never more than earned, and the whole base at month end. */
  lemma AccruedProRata(base: nat, d: Day)
    requires CalendarDay(d)
    ensures Accrued(base, d) * d.days <= base * d.day < (Accrued(base, d) + 10) * d.days
    ensures d.day == d.days && base % 10 == 0 ==> Accrued(base, d) == base
  {
    var q := Quotient(base * d.day, 10 * d.days);
    assert q * (10 * d.days) == (10 * q) * d.days && (q + 1) * (10 * d.days) == (10 * q + 10) * d.days;
    if d.day == d.days && base % 10 == 0 {
      LessProduct(base, 10 * q + 10, d.days);
      CancelFactor(10 * q, base, d.days);
    }
  }

  function Capped(x: nat, cap: Option<nat>): nat {
    if cap.Some? && x > cap.value then cap.value else x
  }

  function MaxAdvanceable(base: nat, policy: Policy, d: Day): nat
    requires CalendarDay(d)
  {
    Capped(PercentOf(Accrued(base, d), policy.maxPercent), policy.cap)
  }

  function Eligible(base: nat, outstanding: nat, policy: Policy, d: Day): nat
    requires CalendarDay(d)
  {
    var m := MaxAdvanceable(base, policy, d);
    if m > outstanding then m - outstanding else 0
  }

  /**
    * The allowance in base, day and percentage: never more than they allow nor than the cap, and
    * where the cap does not bind short of them by the two truncations only.
    */
  lemma AllowanceBounds(base: nat, policy: Policy, d: Day)
    requires CalendarDay(d)
    ensures var m, p := MaxAdvanceable(base, policy, d), policy.maxPercent;
            && m * 10000 * d.days <= base * d.day * p
            && (policy.cap.Some? ==> m <= policy.cap.value)
            && (policy.cap == Some(m) || base * d.day * p < ((m + 10) * 10000 + 10 * p) * d.days)
  {
    var a, p := Accrued(base, d), policy.maxPercent;
    var q, m := PercentOf(a, p), MaxAdvanceable(base, policy, d);
    assert m == q || (m < q && policy.cap == Some(m));
    AccruedProRata(base, d);
    PercentBounds(a, p);
    hide *;
    TwoTruncations(a, p, q, base * d.day, d.days);
    ScaleOrder(q, m, 10000 * d.days);
    assert m * 10000 * d.days == m * (10000 * d.days) && q * 10000 * d.days == q * (10000 * d.days);
  }

  /** A percentage of a truncated share against the percentage of the exact share `e / days`. */
  lemma TwoTruncations(a: nat, p: nat, q: nat, e: nat, days: nat)
    requires a * days <= e < (a + 10) * days && q * 10000 <= a * p < (q + 10) * 10000
    ensures q * 10000 * days <= e * p < ((q + 10) * 10000 + 10 * p) * days
  {
    ScaleOrder(a * p, q * 10000, days);
    ScaleOrder(e, a * days, p);
    assert a * days * p == a * p * days;
    ScaleOrder((a + 10) * days, e, p);
    assert (a + 10) * days * p == (a * p + 10 * p) * days;
    StrictScale(a * p + 10 * p, (q + 10) * 10000 + 10 * p, days);
  }

  lemma StrictScale(x: int, y: int, d: nat)
    requires x < y && d > 0
    ensures x * d < y * d
  {
    assert y * d == x * d + (y - x) * d;
  }

  /** What counts against eligibility: every row not repaid and not rejected. */
  function OutstandingTotal(rows: seq<Advance>): nat {
    if rows == [] then 0
    else
      var last := rows[|rows| - 1];
      OutstandingTotal(rows[..|rows| - 1])
      + if last.status.REPAID? || last.status.REJECTED? then 0 else last.outstanding
  }

  lemma {:induction false} TotalUpdate(rows: seq<Advance>, i: nat, row: Advance)
    requires i < |rows|
    ensures OutstandingTotal(rows[i := row]) - OutstandingTotal([row])
         == OutstandingTotal(rows) - OutstandingTotal([rows[i]])
  {
    var n := |rows| - 1;
    assert [row][..0] == [] && [rows[i]][..0] == [];
    if i == n {
      assert rows[i := row][..n] == rows[..n];
    } else {
      assert rows[i := row][..n] == rows[..n][i := row];
      TotalUpdate(rows[..n], i, row);
    }
  }

  // ---- The lifecycle on rows ----

  /** The row a request creates: amount and fee reserved, approved at once under the threshold. */
  function Requested(policy: Policy, amount: nat): Advance {
    var fee := PercentOf(amount, policy.feePercent);
    var approved := policy.autoApproveUnder.Some? && amount <= policy.autoApproveUnder.value;
    Advance(amount, fee, amount + fee, if approved then APPROVED else REQUESTED, None, None)
  }

  function RequestOn(rows: seq<Advance>, base: nat, policy: Policy, d: Day, amount: nat): Result<seq<Advance>, Error>
    requires CalendarDay(d)
  {
    if amount > Eligible(base, OutstandingTotal(rows), policy, d) then Err(OverLimit)
    else Ok(rows + [Requested(policy, amount)])
  }

  /** Which requests pass, and what the row they create says: the fee is on top of what was asked. */
  lemma RequestExactly(rows: seq<Advance>, base: nat, policy: Policy, d: Day, amount: nat)
    requires CalendarDay(d)
    ensures var res := RequestOn(rows, base, policy, d, amount);
            && (res.Ok? <==> amount == 0 || OutstandingTotal(rows) + amount <= MaxAdvanceable(base, policy, d))
            && (res.Ok? ==>
                  && |res.value| == |rows| + 1 && res.value[..|rows|] == rows
                  && var row := res.value[|rows|];
                  && row.amount == amount && row.outstanding == amount + row.fee && row.fee % 10 == 0
                  && row.fee * 10000 <= amount * policy.feePercent < (row.fee + 10) * 10000
                  && row.paidBy == None && row.repaidBy == None
                  && row.status == match policy.autoApproveUnder
                                   case Some(u) => if amount <= u then APPROVED else REQUESTED
                                   case None => REQUESTED)
  {
    PercentBounds(amount, policy.feePercent);
    hide PercentOf, MaxAdvanceable, OutstandingTotal;
  }

  /** A guarded compare-and-set of one row's status. */
  function MoveOn(rows: seq<Advance>, i: nat, from: set<Status>, row: Advance -> Advance): Result<seq<Advance>, Error> {
    if i >= |rows| then Err(NotFound)
    else if rows[i].status !in from then Err(Conflict)
    else Ok(rows[i := row(rows[i])])
  }

  function ApproveOn(rows: seq<Advance>, i: nat): Result<seq<Advance>, Error> {
    MoveOn(rows, i, {REQUESTED}, (a: Advance) => a.(status := APPROVED))
  }

  function DisburseOn(rows: seq<Advance>, i: nat, payment: nat): Result<seq<Advance>, Error> {
    MoveOn(rows, i, {APPROVED}, (a: Advance) => a.(status := DISBURSED, paidBy := Some(payment)))
  }

  function RejectOn(rows: seq<Advance>, i: nat): Result<seq<Advance>, Error> {
    MoveOn(rows, i, {REQUESTED, APPROVED}, (a: Advance) => a.(status := REJECTED, outstanding := 0))
  }

  // ---- FIFO settlement on rows ----

  predicate Owing(a: Advance) {
    a.status == DISBURSED && a.outstanding > 0
  }

  function Owed(a: Advance): nat {
    if Owing(a) then a.outstanding else 0
  }

  function OwedTotal(rows: seq<Advance>): nat {
    if rows == [] then 0 else OwedTotal(rows[..|rows| - 1]) + Owed(rows[|rows| - 1])
  }

  function PayRow(a: Advance, applied: nat, salary: nat): Advance
    requires applied <= a.outstanding
  {
    if applied == a.outstanding then a.(outstanding := 0, status := REPAID, repaidBy := Some(salary))
    else a.(outstanding := a.outstanding - applied)
  }

  /**
    * What each row should get, said without any order of processing: the part of the
    * deduction left over once all older owing rows are paid in full.
    */
  function Share(rows: seq<Advance>, deduction: int, i: nat): (s: nat)
    requires i < |rows|
    ensures s <= Owed(rows[i])
  {
    var left := deduction - OwedTotal(rows[..i]);
    if left <= 0 then 0 else Min(left, Owed(rows[i]))
  }

  function SettledRow(rows: seq<Advance>, deduction: int, salary: nat, i: nat): Advance
    requires i < |rows|
  {
    var s := Share(rows, deduction, i);
    if s == 0 then rows[i] else PayRow(rows[i], s, salary)
  }

  function SettleOn(rows: seq<Advance>, deduction: int, salary: nat): (rows': seq<Advance>)
    ensures |rows'| == |rows|
  {
    seq(|rows|, i requires 0 <= i < |rows| => SettledRow(rows, deduction, salary, i))
  }

  function Repaid(rows: seq<Advance>, deduction: int): nat {
    if deduction <= 0 then 0 else Min(deduction, OwedTotal(rows))
  }

  lemma OwedPrefix(rows: seq<Advance>, i: nat)
    requires i < |rows|
    ensures OwedTotal(rows[..i + 1]) == OwedTotal(rows[..i]) + Owed(rows[i])
  {
    assert rows[..i + 1][..i] == rows[..i];
  }

  lemma {:induction false} OwedMonotone(rows: seq<Advance>, i: nat, j: nat)
    requires i <= j <= |rows|
    ensures OwedTotal(rows[..i]) <= OwedTotal(rows[..j])
    decreases j
  {
    if i < j {
      OwedMonotone(rows, i, j - 1);
      OwedPrefix(rows, j - 1);
    }
  }

  /** FIFO: a row receives anything only if every older owing row is repaid in full. */
  lemma SettleFifo(rows: seq<Advance>, deduction: int, salary: nat, i: nat, j: nat)
    requires i < j < |rows| && Owing(rows[i])
    requires SettleOn(rows, deduction, salary)[j] != rows[j]
    ensures SettleOn(rows, deduction, salary)[i]
         == rows[i].(outstanding := 0, status := REPAID, repaidBy := Some(salary))
  {
    OwedPrefix(rows, i);
    OwedMonotone(rows, i + 1, j);
  }

  /** Of two rows that a settlement touches, at most one is left partly paid. */
  lemma AtMostOnePartial(rows: seq<Advance>, deduction: int, salary: nat, i: nat, j: nat)
    requires i < |rows| && j < |rows| && i != j
    requires var rows' := SettleOn(rows, deduction, salary);
             rows'[i] != rows[i] && rows'[j] != rows[j]
    ensures var rows' := SettleOn(rows, deduction, salary);
            rows'[i].status == REPAID || rows'[j].status == REPAID
  {
    if i < j {
      SettleFifo(rows, deduction, salary, i, j);
    } else {
      SettleFifo(rows, deduction, salary, j, i);
    }
  }

  /** A settlement lowers what is outstanding by exactly what it repays. */
  lemma {:induction false} SettleConserves(rows: seq<Advance>, deduction: int, salary: nat)
    ensures OutstandingTotal(SettleOn(rows, deduction, salary)) + Repaid(rows, deduction) == OutstandingTotal(rows)
    ensures OwedTotal(SettleOn(rows, deduction, salary)) + Repaid(rows, deduction) == OwedTotal(rows)
  {
    if rows != [] {
      var n := |rows| - 1;
      SettleConserves(rows[..n], deduction, salary);
      SettlePrefix(rows, deduction, salary, n);
    }
  }

  /** Settling the older rows does not depend on the newer ones. */
  lemma SettlePrefix(rows: seq<Advance>, deduction: int, salary: nat, n: nat)
    requires n <= |rows|
    ensures SettleOn(rows, deduction, salary)[..n] == SettleOn(rows[..n], deduction, salary)
  {
    forall i: nat | i < n
      ensures SettledRow(rows[..n], deduction, salary, i) == SettledRow(rows, deduction, salary, i)
    {
      assert rows[..n][..i] == rows[..i];
    }
  }

  /** `computeSalaryPayout`: the deduction is the smaller of the salary and what is owed. */
  function PayoutDeduction(base: nat, rows: seq<Advance>): nat {
    Min(base, OwedTotal(rows))
  }

  /** A deduction computed on the same state is consumed in full. */
  lemma DeductionConsumed(base: nat, rows: seq<Advance>)
    ensures Repaid(rows, PayoutDeduction(base, rows)) == PayoutDeduction(base, rows)
  {
  }

  // ---- A deduction taken before the settlement ----

  /** A settlement repays the whole of a deduction exactly when that much is owed. */
  lemma RepaidInFullExactly(rows: seq<Advance>, deduction: nat)
    ensures Repaid(rows, deduction) == deduction <==> deduction <= OwedTotal(rows)
  {
  }

  lemma {:induction false} OwedUpdate(rows: seq<Advance>, i: nat, row: Advance)
    requires i < |rows|
    ensures OwedTotal(rows[i := row]) - Owed(row) == OwedTotal(rows) - Owed(rows[i])
  {
    var n := |rows| - 1;
    if i == n {
      assert rows[i := row][..n] == rows[..n];
    } else {
      assert rows[i := row][..n] == rows[..n][i := row];
      OwedUpdate(rows[..n], i, row);
    }
  }

  /**
    * Two payouts that took their deduction from the same rows: the second settlement falls short
    * exactly when the rows do not owe both.
    */
  lemma SecondPayoutExactly(base: nat, rows: seq<Advance>, salary: nat)
    ensures var deduction := PayoutDeduction(base, rows);
            Repaid(SettleOn(rows, deduction, salary), deduction) == deduction <==> 2 * deduction <= OwedTotal(rows)
  {
    var deduction := PayoutDeduction(base, rows);
    SettleConserves(rows, deduction, salary);
    DeductionConsumed(base, rows);
    RepaidInFullExactly(SettleOn(rows, deduction, salary), deduction);
  }

  // ---- The table ----

  class AdvanceTable {
    const base: nat
    const policy: Policy
    var rows: seq<Advance>

    constructor (base: nat, policy: Policy)
      ensures rows == [] && this.base == base && this.policy == policy
    {
      this.base := base;
      this.policy := policy;
      rows := [];
    }

    method RequestAdvance(d: Day, amount: nat) returns (e: Option<Error>)
      requires CalendarDay(d)
      modifies this
      ensures match RequestOn(old(rows), base, policy, d, amount)
              case Ok(rows') => rows == rows' && e == None
              case Err(x) => rows == old(rows) && e == Some(x)
    {
      var fee := PercentOf(amount, policy.feePercent);
      var outstanding := 0;
      for i := 0 to |rows|
        invariant outstanding == OutstandingTotal(rows[..i])
      {
        assert rows[..i + 1][..i] == rows[..i];
        if !rows[i].status.REPAID? && !rows[i].status.REJECTED? {
          outstanding := outstanding + rows[i].outstanding;
        }
      }
      assert rows[..|rows|] == rows;
      if amount > Eligible(base, outstanding, policy, d) {
        return Some(OverLimit);
      }
      var approved := policy.autoApproveUnder.Some? && amount <= policy.autoApproveUnder.value;
      rows := rows + [Advance(amount, fee, amount + fee, if approved then APPROVED else REQUESTED, None, None)];
      return None;
    }

    method Approve(i: nat) returns (e: Option<Error>)
      modifies this
      ensures e == Some(NotFound) <==> i >= |old(rows)|
      ensures e == None <==> i < |old(rows)| && old(rows)[i].status == REQUESTED
      ensures match ApproveOn(old(rows), i)
              case Ok(rows') => rows == rows' && e == None
              case Err(x) => rows == old(rows) && e == Some(x)
    {
      if i >= |rows| {
        return Some(NotFound);
      }
      if rows[i].status != REQUESTED {
        return Some(Conflict);
      }
      rows := rows[i := rows[i].(status := APPROVED)];
      return None;
    }

    method MarkDisbursed(i: nat, payment: nat) returns (e: Option<Error>)
      modifies this
      ensures e == Some(NotFound) <==> i >= |old(rows)|
      ensures e == None <==> i < |old(rows)| && old(rows)[i].status == APPROVED
      ensures match DisburseOn(old(rows), i, payment)
              case Ok(rows') => rows == rows' && e == None
              case Err(x) => rows == old(rows) && e == Some(x)
    {
      if i >= |rows| {
        return Some(NotFound);
      }
      if rows[i].status != APPROVED {
        return Some(Conflict);
      }
      rows := rows[i := rows[i].(status := DISBURSED, paidBy := Some(payment))];
      return None;
    }

    method Reject(i: nat) returns (e: Option<Error>)
      modifies this
      ensures e == Some(NotFound) <==> i >= |old(rows)|
      ensures e == None <==> i < |old(rows)| && (old(rows)[i].status == REQUESTED || old(rows)[i].status == APPROVED)
      ensures match RejectOn(old(rows), i)
              case Ok(rows') => rows == rows' && e == None
              case Err(x) => rows == old(rows) && e == Some(x)
    {
      if i >= |rows| {
        return Some(NotFound);
      }
      if rows[i].status != REQUESTED && rows[i].status != APPROVED {
        return Some(Conflict);
      }
      rows := rows[i := rows[i].(status := REJECTED, outstanding := 0)];
      return None;
    }

    /** The netting loop: oldest owing row first, until the deduction runs out. */
    method Settle(deduction: int, salary: nat) returns (repaid: nat)
      modifies this
      ensures rows == SettleOn(old(rows), deduction, salary)
      ensures repaid == Repaid(old(rows), deduction)
    {
      ghost var before := rows;
      var remaining := deduction;
      for i := 0 to |rows|
        invariant |rows| == |before|
        invariant forall k: nat | i <= k < |rows| :: rows[k] == before[k]
        invariant forall k: nat | k < i :: rows[k] == SettledRow(before, deduction, salary, k)
        invariant deduction > 0 ==> remaining == deduction - Min(deduction, OwedTotal(before[..i]))
        invariant deduction <= 0 ==> remaining == deduction
      {
        OwedPrefix(before, i);
        ghost var share := Share(before, deduction, i);
        ghost var settled := SettledRow(before, deduction, salary, i);
        assert rows[i] == before[i];
        assert settled == if share == 0 then rows[i] else PayRow(rows[i], share, salary);
        hide SettledRow, PayRow, Share;
        if Owing(rows[i]) && remaining > 0 {
          var applied := Min(remaining, rows[i].outstanding);
          assert applied == share;
          rows := rows[i := PayRow(rows[i], applied, salary)];
          remaining := remaining - applied;
        }
        assert rows[i] == settled;
      }
      assert before[..|before|] == before;
      repaid := deduction - remaining;
    }
  }

  // ---- The limit over whole runs ----

  datatype Op =
    | Request(d: Day, amount: nat)
    | Approval(i: nat)
    | Disbursement(i: nat, payment: nat)
    | Rejection(i: nat)
    | Settlement(deduction: int, salary: nat)

  predicate ValidOp(op: Op) {
    op.Request? ==> CalendarDay(op.d)
  }

  function OrElse(res: Result<seq<Advance>, Error>, rows: seq<Advance>): seq<Advance> {
    match res
    case Ok(rows') => rows'
    case Err(_) => rows
  }

  function Perform(base: nat, policy: Policy, rows: seq<Advance>, op: Op): seq<Advance>
    requires ValidOp(op)
  {
    match op
    case Request(d, amount) => OrElse(RequestOn(rows, base, policy, d, amount), rows)
    case Approval(i) => OrElse(ApproveOn(rows, i), rows)
    case Disbursement(i, payment) => OrElse(DisburseOn(rows, i, payment), rows)
    case Rejection(i) => OrElse(RejectOn(rows, i), rows)
    case Settlement(deduction, salary) => SettleOn(rows, deduction, salary)
  }

  /**
    * How an existing row moves, over all operations: approved when asked for, disbursed when
    * approved, rejected before it is disbursed, repaid when a settlement's deduction reaches it in
    * full. Amount and fee never change, and only a rejection or a settlement lowers the balance.
    */
  lemma MovesExactly(base: nat, policy: Policy, rows: seq<Advance>, op: Op, i: nat)
    requires ValidOp(op) && i < |rows|
    ensures var rows' := Perform(base, policy, rows, op);
            && |rows'| == |rows| + (if op.Request? && RequestOn(rows, base, policy, op.d, op.amount).Ok? then 1 else 0)
            && var row, row' := rows[i], rows'[i];
            var moves := row'.status != row.status;
            && (moves && row'.status == APPROVED <==> op == Approval(i) && row.status == REQUESTED)
            && (moves && row'.status == DISBURSED <==>
                op.Disbursement? && op.i == i && row.status == APPROVED)
            && (moves && row'.status == REJECTED <==>
                op == Rejection(i) && (row.status == REQUESTED || row.status == APPROVED))
            && (moves && row'.status == REPAID <==>
                op.Settlement? && Owing(row) && OwedTotal(rows[..i]) + row.outstanding <= op.deduction)
            && (moves ==> row'.status != REQUESTED)
            && row'.amount == row.amount && row'.fee == row.fee
            && row'.outstanding == (if moves && row'.status == REJECTED then 0
                                    else if op.Settlement? then row.outstanding - Share(rows, op.deduction, i)
                                    else row.outstanding)
            && row'.paidBy == (if moves && row'.status == DISBURSED then Some(op.payment) else row.paidBy)
            && row'.repaidBy == (if moves && row'.status == REPAID then Some(op.salary) else row.repaidBy)
  {
    hide OwedTotal, Eligible, PercentOf;
  }

  predicate ValidOps(ops: seq<Op>) {
    forall op <- ops :: ValidOp(op)
  }

  /** Any operations from no rows. */
  function RunOps(base: nat, policy: Policy, ops: seq<Op>): seq<Advance>
    requires ValidOps(ops)
  {
    Continue(base, policy, [], ops)
  }

  /** Any further operations on these rows. */
  function Continue(base: nat, policy: Policy, rows: seq<Advance>, ops: seq<Op>): seq<Advance>
    requires ValidOps(ops)
  {
    if ops == [] then rows
    else Perform(base, policy, Continue(base, policy, rows, ops[..|ops| - 1]), ops[|ops| - 1])
  }

  /** Nothing but a settlement lowers what is owed. */
  lemma OwedNeverFalls(base: nat, policy: Policy, rows: seq<Advance>, op: Op)
    requires ValidOp(op) && !op.Settlement?
    ensures OwedTotal(rows) <= OwedTotal(Perform(base, policy, rows, op))
  {
    var rows' := Perform(base, policy, rows, op);
    if rows' != rows {
      match op
      case Request(_, _) => assert rows'[..|rows|] == rows;
      case Approval(i) => OwedUpdate(rows, i, rows'[i]);
      case Disbursement(i, _) => OwedUpdate(rows, i, rows'[i]);
      case Rejection(i) => OwedUpdate(rows, i, rows'[i]);
    }
  }

  lemma {:induction false} OwedNeverFallsOver(base: nat, policy: Policy, rows: seq<Advance>, ops: seq<Op>)
    requires ValidOps(ops) && forall op <- ops :: !op.Settlement?
    ensures OwedTotal(rows) <= OwedTotal(Continue(base, policy, rows, ops))
  {
    if ops != [] {
      var n := |ops| - 1;
      assert ops[n] in ops && forall op <- ops[..n] :: op in ops;
      OwedNeverFallsOver(base, policy, rows, ops[..n]);
      OwedNeverFalls(base, policy, Continue(base, policy, rows, ops[..n]), ops[n]);
      hide Perform, OwedTotal;
    }
  }

  /**
    * A payout's deduction, settled after any other operations, is repaid in full exactly when that
    * much is still owed; without another settlement in between it always is.
    */
  lemma PayoutRepaidExactly(base: nat, policy: Policy, rows: seq<Advance>, ops: seq<Op>)
    requires ValidOps(ops)
    ensures var deduction, later := PayoutDeduction(base, rows), Continue(base, policy, rows, ops);
            && (Repaid(later, deduction) == deduction <==> deduction <= OwedTotal(later))
            && ((forall op <- ops :: !op.Settlement?) ==> Repaid(later, deduction) == deduction)
  {
    RepaidInFullExactly(Continue(base, policy, rows, ops), PayoutDeduction(base, rows));
    if forall op <- ops :: !op.Settlement? {
      OwedNeverFallsOver(base, policy, rows, ops);
    }
  }

  /** The most that can ever be advanced: the whole month accrued, at the percentage, under the cap. */
  function Limit(base: nat, policy: Policy): nat {
    Capped(PercentOf(base, policy.maxPercent), policy.cap)
  }

  /** The limit with the fee on it; the eligibility check compares the amount without its fee. */
  function LimitWithFee(base: nat, policy: Policy): nat {
    Limit(base, policy) + PercentOf(Limit(base, policy), policy.feePercent)
  }

  lemma MaxWithinLimit(base: nat, policy: Policy, d: Day)
    requires CalendarDay(d)
    ensures MaxAdvanceable(base, policy, d) <= Limit(base, policy)
  {
    AccruedProRata(base, d);
    assert base * d.day <= base * d.days;
    hide Accrued;
    CancelFactor(Accrued(base, d), base, d.days);
    PercentMonotone(Accrued(base, d), base, policy.maxPercent);
  }

  lemma RequestWithinLimit(rows: seq<Advance>, base: nat, policy: Policy, d: Day, amount: nat)
    requires CalendarDay(d)
    requires OutstandingTotal(rows) <= LimitWithFee(base, policy)
    ensures OutstandingTotal(OrElse(RequestOn(rows, base, policy, d, amount), rows)) <= LimitWithFee(base, policy)
  {
    var res := RequestOn(rows, base, policy, d, amount);
    if res.Ok? {
      assert res.value[..|rows|] == rows;
      MaxWithinLimit(base, policy, d);
      hide Eligible, MaxAdvanceable, Limit;
      if amount <= Limit(base, policy) {
        PercentMonotone(amount, Limit(base, policy), policy.feePercent);
      }
      RequestedFits(base, OutstandingTotal(rows), policy, d, amount);
    }
  }

  lemma RequestedFits(base: nat, outstanding: nat, policy: Policy, d: Day, amount: nat)
    requires CalendarDay(d) && amount <= Eligible(base, outstanding, policy, d)
    ensures amount == 0 || outstanding + amount <= MaxAdvanceable(base, policy, d)
  {
  }

  /** A guarded move of one row raises nothing. */
  lemma MoveNeverRaises(rows: seq<Advance>, i: nat, from: set<Status>, row: Advance -> Advance)
    requires forall a: Advance :: OutstandingTotal([row(a)]) <= OutstandingTotal([a]) || a.status !in from
    ensures OutstandingTotal(OrElse(MoveOn(rows, i, from, row), rows)) <= OutstandingTotal(rows)
  {
    if MoveOn(rows, i, from, row).Ok? {
      TotalUpdate(rows, i, row(rows[i]));
    }
  }

  /** Nothing but a request raises the total. */
  lemma OtherNeverRaises(base: nat, policy: Policy, rows: seq<Advance>, op: Op)
    requires ValidOp(op) && !op.Request?
    ensures OutstandingTotal(Perform(base, policy, rows, op)) <= OutstandingTotal(rows)
  {
    forall a: Advance ensures [a][..0] == [] {
    }
    match op
    case Settlement(deduction, salary) => SettleConserves(rows, deduction, salary);
    case Approval(i) => MoveNeverRaises(rows, i, {REQUESTED}, (a: Advance) => a.(status := APPROVED));
    case Disbursement(i, payment) =>
      MoveNeverRaises(rows, i, {APPROVED}, (a: Advance) => a.(status := DISBURSED, paidBy := Some(payment)));
    case Rejection(i) =>
      MoveNeverRaises(rows, i, {REQUESTED, APPROVED}, (a: Advance) => a.(status := REJECTED, outstanding := 0));
  }

  lemma StepBounded(base: nat, policy: Policy, rows: seq<Advance>, op: Op)
    requires ValidOp(op) && OutstandingTotal(rows) <= LimitWithFee(base, policy)
    ensures OutstandingTotal(Perform(base, policy, rows, op)) <= LimitWithFee(base, policy)
  {
    match op
    case Request(d, amount) => RequestWithinLimit(rows, base, policy, d, amount);
    case _ => OtherNeverRaises(base, policy, rows, op);
  }

  /**
    * Over every run of requests, approvals, disbursements, rejections and settlements, what
    * is outstanding stays within the limit plus the fee on the limit.
    */
  lemma {:induction false} OutstandingBounded(base: nat, policy: Policy, ops: seq<Op>)
    requires ValidOps(ops)
    ensures OutstandingTotal(RunOps(base, policy, ops)) <= LimitWithFee(base, policy)
  {
    if ops != [] {
      OutstandingBounded(base, policy, ops[..|ops| - 1]);
      assert ops[|ops| - 1] in ops;
      StepBounded(base, policy, RunOps(base, policy, ops[..|ops| - 1]), ops[|ops| - 1]);
    }
  }

  /** On the last day of a month, with nothing outstanding, the whole limit is eligible. */
  lemma LimitEligible(base: nat, policy: Policy)
    requires base % 10 == 0
    ensures forall days: nat | days > 0 :: Eligible(base, 0, policy, Day(days, days)) == Limit(base, policy)
  {
    forall days: nat | days > 0 ensures Eligible(base, 0, policy, Day(days, days)) == Limit(base, policy) {
      AccruedProRata(base, Day(days, days));
      hide Accrued, PercentOf;
    }
  }

  /** The bound is reached: one request for the whole limit on the last day of a month. */
  lemma BoundReached(base: nat, policy: Policy, days: nat)
    requires days > 0 && base % 10 == 0
    ensures var ops := [Request(Day(days, days), Limit(base, policy))];
            OutstandingTotal(RunOps(base, policy, ops)) == LimitWithFee(base, policy)
  {
    LimitEligible(base, policy);
    hide Eligible, Limit, PercentOf;
    var d := Day(days, days);
    var ops := [Request(d, Limit(base, policy))];
    assert ops[..0] == [] && RunOps(base, policy, ops[..0]) == [];
    assert OutstandingTotal([]) == 0 && Eligible(base, 0, policy, d) == Limit(base, policy);
    var row := Requested(policy, Limit(base, policy));
    assert RunOps(base, policy, ops) == [] + [row];
    assert ([] + [row])[..0] == [];
  }

  /** No run takes the total past the limit itself exactly when the fee on the limit rounds to nothing. */
  lemma CapHoldsExactly(base: nat, policy: Policy)
    requires base % 10 == 0
    ensures (forall ops | ValidOps(ops) :: OutstandingTotal(RunOps(base, policy, ops)) <= Limit(base, policy))
       <==> PercentOf(Limit(base, policy), policy.feePercent) == 0
  {
    hide Limit, RunOps, OutstandingTotal, PercentOf;
    forall ops | ValidOps(ops) ensures OutstandingTotal(RunOps(base, policy, ops)) <= LimitWithFee(base, policy) {
      OutstandingBounded(base, policy, ops);
    }
    BoundReached(base, policy, 31);
  }
}
