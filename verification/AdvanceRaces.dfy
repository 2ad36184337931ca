/**
  * Concurrent settlements, row by row. A settlement reads a snapshot of the owing rows, then
  * compare-and-sets them one at a time inside its transaction: a written row stays locked
  * and unseen until commit, a mismatch rolls everything back. Other lifecycle operations and
  * any number of settlements interleave between these steps.
  */
module AdvanceRaces {
  import opened Results
  import Advances

  type Row = Advances.Advance

  /** One compare-and-set that matched: the row, what was read, and what was taken off it. */
  datatype Write = Write(row: nat, seen: Row, applied: nat)

  datatype Phase = Running | Committed | Aborted

  /** `plan` is the snapshot: owing rows with the values read, oldest first. */
  datatype Settlement = Settlement(deduction: int, salary: nat, plan: seq<(nat, Row)>, writes: seq<Write>,
                                   remaining: int, phase: Phase)

  /** The history fields add up amounts requested, rejected and returned by committed settlements. */
  datatype World = World(rows: seq<Row>, txs: map<nat, Settlement>, issued: nat, cancelled: nat, returned: nat)

  datatype Step =
    | Begin(tx: nat, deduction: int, salary: nat)
    | CompareAndSet(tx: nat)
    | Commit(tx: nat)
    | Request(row: Row)  // any row a request creates
    | Approve(i: nat)
    | Disburse(i: nat, payment: nat)
    | Reject(i: nat)

  /** The owing rows from `i` on, oldest first. */
  function Snapshot(rows: seq<Row>, i: nat): (plan: seq<(nat, Row)>)
    requires i <= |rows|
    ensures forall k | 0 <= k < |plan| ::
              i <= plan[k].0 < |rows| && plan[k].1 == rows[plan[k].0] && Advances.Owing(plan[k].1)
    ensures forall k, l | 0 <= k < l < |plan| :: plan[k].0 < plan[l].0
    decreases |rows| - i
  {
    if i == |rows| then []
    else (if Advances.Owing(rows[i]) then [(i, rows[i])] else []) + Snapshot(rows, i + 1)
  }

  predicate Holds(t: Settlement, i: nat) {
    t.phase.Running? && exists k :: 0 <= k < |t.writes| && t.writes[k].row == i
  }

  predicate Locked(w: World, i: nat) {
    exists tx <- w.txs :: Holds(w.txs[tx], i)
  }

  /** The settlement has no further row to write: the deduction or the plan ran out. */
  predicate Finished(t: Settlement) {
    t.remaining <= 0 || |t.writes| >= |t.plan|
  }

  function AfterWrite(wr: Write, salary: nat): Row
    requires wr.applied <= wr.seen.outstanding
  {
    Advances.PayRow(wr.seen, wr.applied, salary)
  }

  /** Make a transaction's writes visible. */
  function Publish(rows: seq<Row>, writes: seq<Write>, salary: nat): (rows': seq<Row>)
    requires forall wr <- writes :: wr.row < |rows| && wr.applied <= wr.seen.outstanding
    ensures |rows'| == |rows|
  {
    if writes == [] then rows
    else
      var n := |writes| - 1;
      assert writes[n] in writes;
      Publish(rows, writes[..n], salary)[writes[n].row := AfterWrite(writes[n], salary)]
  }

  /** The settlement after a matching compare-and-set of its next row. */
  function Extend(rows: seq<Row>, t: Settlement): Settlement
    requires !Finished(t) && t.plan[|t.writes|].0 < |rows|
  {
    var (i, seen) := t.plan[|t.writes|];
    var applied := Advances.Min(t.remaining, seen.outstanding);
    t.(writes := t.writes + [Write(i, rows[i], applied)], remaining := t.remaining - applied)
  }

  function Next(w: World, s: Step): World
    requires Inv(w)
  {
    match s
    case Begin(tx, deduction, salary) =>
      if tx in w.txs then w
      else w.(txs := w.txs[tx := Settlement(deduction, salary, Snapshot(w.rows, 0), [], deduction, Running)])
    case CompareAndSet(tx) =>
      if tx !in w.txs || !w.txs[tx].phase.Running? || Finished(w.txs[tx]) then w
      else
        var t := w.txs[tx];
        var (i, seen) := t.plan[|t.writes|];
        if Locked(w, i) then w  // waits for the row lock
        else if i >= |w.rows| || w.rows[i].status != seen.status || w.rows[i].outstanding != seen.outstanding then
          w.(txs := w.txs[tx := t.(phase := Aborted)])
        else w.(txs := w.txs[tx := Extend(w.rows, t)])
    case Commit(tx) =>
      if tx !in w.txs || !w.txs[tx].phase.Running? || !Finished(w.txs[tx]) then w
      else
        var t := w.txs[tx];
        assert TxOk(w, t);
        w.(rows := Publish(w.rows, t.writes, t.salary),
        txs := w.txs[tx := t.(phase := Committed)],
        returned := w.returned + Applied(t.writes))
    case Request(row) =>
      if row.outstanding != row.amount + row.fee || row.status !in {Advances.REQUESTED, Advances.APPROVED} then w
      else w.(rows := w.rows + [row], issued := w.issued + row.outstanding)
    case Approve(i) => Move(w, Advances.ApproveOn(w.rows, i), 0)
    case Disburse(i, payment) => Move(w, Advances.DisburseOn(w.rows, i, payment), 0)
    case Reject(i) => Move(w, Advances.RejectOn(w.rows, i), if i < |w.rows| then w.rows[i].outstanding else 0)
  }

  function Move(w: World, res: Result<seq<Row>, Advances.Error>, cancelled: nat): World {
    if res.Ok? then w.(rows := res.value, cancelled := w.cancelled + cancelled) else w
  }

  /** Outside settlements the machine is the lifecycle of `Advances`, any request that passes included. */
  lemma LifecycleIsAdvances(w: World, base: nat, policy: Advances.Policy, d: Advances.Day, amount: nat, i: nat,
                            payment: nat)
    requires Inv(w) && Advances.CalendarDay(d)
    ensures Next(w, Approve(i)).rows == Advances.Perform(base, policy, w.rows, Advances.Approval(i))
    ensures Next(w, Disburse(i, payment)).rows
         == Advances.Perform(base, policy, w.rows, Advances.Disbursement(i, payment))
    ensures Next(w, Reject(i)).rows == Advances.Perform(base, policy, w.rows, Advances.Rejection(i))
    ensures Advances.RequestOn(w.rows, base, policy, d, amount).Ok? ==>
              Next(w, Request(Advances.Requested(policy, amount))).rows
              == Advances.Perform(base, policy, w.rows, Advances.Op.Request(d, amount))
  {
    hide Inv, Advances.Eligible;
  }

  // ---- The invariant ----

  function Applied(writes: seq<Write>): nat {
    if writes == [] then 0 else Applied(writes[..|writes| - 1]) + writes[|writes| - 1].applied
  }

  function Total(rows: seq<Row>): nat {
    Advances.OutstandingTotal(rows)
  }

  /** A running settlement's writes are of distinct rows, each still as it was read. */
  ghost predicate TxOk(w: World, t: Settlement) {
    && (forall wr <- t.writes :: wr.row < |w.rows| && wr.seen == w.rows[wr.row]
                                 && Advances.Owing(wr.seen) && wr.applied <= wr.seen.outstanding)
    && (forall k, l | 0 <= k < l < |t.writes| :: t.writes[k].row < t.writes[l].row)
    && |t.writes| <= |t.plan|
    && (forall k | 0 <= k < |t.writes| :: t.writes[k].row == t.plan[k].0)
    && (forall k, l | 0 <= k < l < |t.plan| :: t.plan[k].0 < t.plan[l].0)
    && (forall k | 0 <= k < |t.plan| :: Advances.Owing(t.plan[k].1))
    && t.remaining == t.deduction - Applied(t.writes)
  }

  ghost predicate Inv(w: World) {
    && (forall tx <- w.txs | w.txs[tx].phase.Running? :: TxOk(w, w.txs[tx]))
    && (forall a, b, i: nat | a in w.txs && b in w.txs && a != b && Holds(w.txs[a], i) :: !Holds(w.txs[b], i))
    && w.issued == Total(w.rows) + w.cancelled + w.returned
  }

  // ---- Steps keep the invariant ----

  lemma TotalOfOne(row: Row)
    ensures Total([row])
         == if row.status == Advances.REPAID || row.status == Advances.REJECTED then 0 else row.outstanding
  {
    assert [row][..|[row]| - 1] == [];
    assert Total([]) == 0;
  }

  /** Publishing a transaction's writes lowers the total by exactly what they took off. */
  lemma {:induction false} PublishConserves(rows: seq<Row>, writes: seq<Write>, salary: nat)
    requires forall wr <- writes ::
               wr.row < |rows| && wr.seen == rows[wr.row] && Advances.Owing(wr.seen)
               && wr.applied <= wr.seen.outstanding
    requires forall k, l | 0 <= k < l < |writes| :: writes[k].row < writes[l].row
    ensures Total(Publish(rows, writes, salary)) + Applied(writes) == Total(rows)
    ensures forall i: nat | i < |rows| && (forall wr <- writes :: wr.row != i) ::
              Publish(rows, writes, salary)[i] == rows[i]
  {
    if writes != [] {
      var n := |writes| - 1;
      var wr, rows' := writes[n], Publish(rows, writes[..n], salary);
      assert wr in writes;
      PublishConserves(rows, writes[..n], salary);
      assert forall v <- writes[..n] :: v.row != wr.row;
      assert rows'[wr.row] == wr.seen;
      Advances.TotalUpdate(rows', wr.row, AfterWrite(wr, salary));
      TotalOfOne(wr.seen);
      TotalOfOne(AfterWrite(wr, salary));
    }
  }

  /** No row of another running settlement is among these writes. */
  lemma OthersUntouched(w: World, a: nat, b: nat)
    requires Inv(w) && a in w.txs && b in w.txs && a != b
    requires w.txs[a].phase.Running? && w.txs[b].phase.Running?
    ensures forall wa <- w.txs[a].writes, wb <- w.txs[b].writes :: wa.row != wb.row
  {
    forall wa <- w.txs[a].writes, wb <- w.txs[b].writes ensures wa.row != wb.row {
      assert Holds(w.txs[a], wa.row);
      assert wa.row == wb.row ==> Holds(w.txs[b], wb.row);
    }
  }

  lemma BeginKeepsInv(w: World, s: Step)
    requires Inv(w) && s.Begin?
    ensures Inv(Next(w, s))
  {
    hide Total, Holds, Advances.Owing;
    var w' := Next(w, s);
    assert forall tx <- w.txs :: w'.txs[tx] == w.txs[tx];
    forall tx <- w.txs | w.txs[tx].phase.Running? ensures TxOk(w', w'.txs[tx]) {
      SameRows(w, w', w.txs[tx]);
    }
    if s.tx !in w.txs {
      HoldsNothing(w'.txs[s.tx]);
    }
  }

  lemma HoldsNothing(t: Settlement)
    requires t.writes == []
    ensures forall i: nat :: !Holds(t, i)
  {
  }

  lemma ExtendOk(w: World, t: Settlement)
    requires TxOk(w, t) && !Finished(t)
    requires var (i, seen) := t.plan[|t.writes|];
             i < |w.rows| && w.rows[i].status == seen.status && w.rows[i].outstanding == seen.outstanding
    ensures TxOk(w, Extend(w.rows, t))
  {
    var t', n := Extend(w.rows, t), |t.writes|;
    var added := t'.writes[n];
    assert t'.writes == t.writes + [added] && t'.writes[..n] == t.writes;
    assert Advances.Owing(t.plan[n].1) && Advances.Owing(added.seen);
    assert Applied(t'.writes) == Applied(t.writes) + added.applied;
    assert t'.plan == t.plan && added.row == t.plan[n].0 && added.applied <= added.seen.outstanding;
    hide Applied, Advances.Owing, Extend;
    forall wr <- t'.writes ensures wr == added || wr in t.writes {
    }
  }

  lemma ExtendHolds(rows: seq<Row>, t: Settlement, i: nat)
    requires !Finished(t) && t.plan[|t.writes|].0 < |rows| && t.phase.Running?
    requires Holds(Extend(rows, t), i)
    ensures Holds(t, i) || i == t.plan[|t.writes|].0
  {
    var t' := Extend(rows, t);
    var k :| 0 <= k < |t'.writes| && t'.writes[k].row == i;
    if k < |t.writes| {
      assert t.writes[k].row == i;
    }
  }

  /** A settlement is well formed or not by the rows alone. */
  lemma SameRows(w: World, w': World, t: Settlement)
    requires w'.rows == w.rows
    ensures TxOk(w', t) == TxOk(w, t)
  {
  }

  /** Changing one settlement keeps the invariant if it takes only rows nobody holds. */
  lemma ReplaceTx(w: World, tx: nat, t: Settlement)
    requires Inv(w) && tx in w.txs
    requires t.phase.Running? ==> TxOk(w, t)
    requires forall i: nat | Holds(t, i) :: Holds(w.txs[tx], i) || !Locked(w, i)
    ensures Inv(w.(txs := w.txs[tx := t]))
  {
    var w' := w.(txs := w.txs[tx := t]);
    hide Holds, Total;
    forall b <- w'.txs | w'.txs[b].phase.Running? ensures TxOk(w', w'.txs[b]) {
      SameRows(w, w', w'.txs[b]);
    }
  }

  lemma WriteKeepsInv(w: World, s: Step)
    requires Inv(w) && s.CompareAndSet?
    ensures Inv(Next(w, s))
  {
    var w' := Next(w, s);
    if w' != w {
      var t := w.txs[s.tx];
      assert TxOk(w, t) && w' == w.(txs := w.txs[s.tx := w'.txs[s.tx]]);
      var (i, seen) := t.plan[|t.writes|];
      assert !Locked(w, i);
      if w'.txs[s.tx] == t.(phase := Aborted) {
        hide Total, TxOk, Next, Inv, Locked;
        ReplaceTx(w, s.tx, t.(phase := Aborted));
      } else {
        assert w'.txs[s.tx] == Extend(w.rows, t);
        hide Total, Next, Inv, Locked;
        ExtendOk(w, t);
        forall j: nat | Holds(Extend(w.rows, t), j) ensures Holds(t, j) || j == i {
          ExtendHolds(w.rows, t, j);
        }
        ReplaceTx(w, s.tx, Extend(w.rows, t));
      }
    }
  }

  /** A settlement stays well formed while every owing row stays as it is. */
  lemma OwingRowsKept(w: World, w': World, t: Settlement)
    requires TxOk(w, t) && |w.rows| <= |w'.rows|
    requires forall i | 0 <= i < |w.rows| && Advances.Owing(w.rows[i]) :: w'.rows[i] == w.rows[i]
    ensures TxOk(w', t)
  {
  }

  lemma CommitKeepsInv(w: World, s: Step)
    requires Inv(w) && s.Commit?
    ensures Inv(Next(w, s))
  {
    var w' := Next(w, s);
    if w' != w {
      var t := w.txs[s.tx];
      assert TxOk(w, t);
      PublishConserves(w.rows, t.writes, t.salary);
      forall b <- w'.txs | w'.txs[b].phase.Running? ensures TxOk(w', w'.txs[b]) {
        assert b != s.tx && TxOk(w, w.txs[b]);
        OthersUntouched(w, s.tx, b);
      }
      assert forall b: nat, i: nat | b in w'.txs && Holds(w'.txs[b], i) :: Holds(w.txs[b], i);
    }
  }

  /** Lifecycle moves touch only rows that are not disbursed, so no settlement has written them. */
  lemma LifecycleKeepsInv(w: World, s: Step)
    requires Inv(w) && (s.Request? || s.Approve? || s.Disburse? || s.Reject?)
    ensures Inv(Next(w, s))
  {
    var w' := Next(w, s);
    if w' != w {
      LifecycleBalances(w, s);
      assert forall i | 0 <= i < |w.rows| && Advances.Owing(w.rows[i]) :: w'.rows[i] == w.rows[i];
      hide Next, Total, Holds;
      forall b <- w'.txs | w'.txs[b].phase.Running? ensures TxOk(w', w'.txs[b]) {
        OwingRowsKept(w, w', w.txs[b]);
      }
    }
  }

  lemma LifecycleBalances(w: World, s: Step)
    requires Inv(w) && (s.Request? || s.Approve? || s.Disburse? || s.Reject?)
    ensures var w' := Next(w, s);
            && w'.txs == w.txs && |w.rows| <= |w'.rows|
            && w'.issued == Total(w'.rows) + w'.cancelled + w'.returned
  {
    if s.Request? {
      RequestBalances(w, s);
    } else {
      MovedRow(w, s);
      var w' := Next(w, s);
      hide *;
      if w' != w {
        MoveBalances(w.rows, w'.rows, s.i);
      }
    }
  }

  lemma RequestBalances(w: World, s: Step)
    requires Inv(w) && s.Request?
    ensures var w' := Next(w, s);
            w'.txs == w.txs && |w.rows| <= |w'.rows| && w'.issued == Total(w'.rows) + w'.cancelled + w'.returned
  {
    hide Holds, TxOk;
    var w' := Next(w, s);
    if w' != w {
      assert w'.rows[..|w.rows|] == w.rows;
    }
  }

  /** Approval and disbursement keep a row's balance, rejection cancels it. */
  lemma MovedRow(w: World, s: Step)
    requires Inv(w) && (s.Approve? || s.Disburse? || s.Reject?)
    ensures var w' := Next(w, s);
            w' != w ==>
              && s.i < |w.rows| == |w'.rows| && w'.rows == w.rows[s.i := w'.rows[s.i]]
              && Open(w.rows[s.i]) && w'.txs == w.txs && w'.issued == w.issued && w'.returned == w.returned
              && w.issued == Total(w.rows) + w.cancelled + w.returned
              && w'.cancelled - w.cancelled
                 == w.rows[s.i].outstanding - if Open(w'.rows[s.i]) then w'.rows[s.i].outstanding else 0
  {
    hide Holds, TxOk, Total;
  }

  predicate Open(row: Row) {
    row.status != Advances.REPAID && row.status != Advances.REJECTED
  }

  lemma MoveBalances(rows: seq<Row>, rows': seq<Row>, i: nat)
    requires i < |rows| == |rows'| && rows' == rows[i := rows'[i]]
    requires Open(rows[i])
    ensures Total(rows') == Total(rows) - rows[i].outstanding + if Open(rows'[i]) then rows'[i].outstanding else 0
  {
    Advances.TotalUpdate(rows, i, rows'[i]);
    TotalOfOne(rows[i]);
    TotalOfOne(rows'[i]);
    hide Advances.OutstandingTotal;
  }

  lemma NextKeepsInv(w: World, s: Step)
    requires Inv(w)
    ensures Inv(Next(w, s))
  {
    match s
    case Begin(_, _, _) => BeginKeepsInv(w, s);
    case CompareAndSet(_) => WriteKeepsInv(w, s);
    case Commit(_) => CommitKeepsInv(w, s);
    case _ => LifecycleKeepsInv(w, s);
  }

  // ---- Whole interleavings ----

  const START := World([], map[], 0, 0, 0)

  ghost function Runs(steps: seq<Step>): (w: World)
    ensures Inv(w)
  {
    if steps == [] then START
    else
      var w := Runs(steps[..|steps| - 1]);
      NextKeepsInv(w, steps[|steps| - 1]);
      Next(w, steps[|steps| - 1])
  }

  /**
    * Over every interleaving, what committed settlements returned is exactly what was
    * requested, less what was rejected, less what is still outstanding: no repayment is
    * counted twice and none is lost.
    */
  lemma ReturnedIsFall(steps: seq<Step>)
    ensures var w := Runs(steps);
            w.returned == w.issued - w.cancelled - Total(w.rows)
  {
  }

  /** A commit lowers the total by exactly the amount the settlement returns. */
  lemma CommitReturnsFall(w: World, tx: nat)
    requires Inv(w) && tx in w.txs && w.txs[tx].phase.Running? && Finished(w.txs[tx])
    ensures var w' := Next(w, Commit(tx));
            && Total(w.rows) - Total(w'.rows) == w.txs[tx].deduction - w.txs[tx].remaining
            && w'.returned - w.returned == w.txs[tx].deduction - w.txs[tx].remaining
  {
    assert TxOk(w, w.txs[tx]);
    PublishConserves(w.rows, w.txs[tx].writes, w.txs[tx].salary);
  }

  /** Until it commits a settlement changes no row, so one that aborts changes nothing. */
  lemma OnlyCommitsShow(w: World, s: Step)
    requires Inv(w) && (s.Begin? || s.CompareAndSet?)
    ensures Next(w, s).rows == w.rows && Next(w, s).returned == w.returned
  {
  }

  /** A settlement whose next row was changed since its snapshot aborts, and changes nothing. */
  lemma StaleReadAborts(w: World, tx: nat)
    requires Inv(w) && tx in w.txs && w.txs[tx].phase.Running? && !Finished(w.txs[tx])
    requires var (i, seen) := w.txs[tx].plan[|w.txs[tx].writes|];
             !Locked(w, i) && i < |w.rows| && w.rows[i].outstanding != seen.outstanding
    ensures Next(w, CompareAndSet(tx)).txs[tx].phase == Aborted
    ensures Next(w, CompareAndSet(tx)).rows == w.rows
  {
  }
}
