/**
  * The two forms of a settlement against each other: what a concurrent one publishes, write by
  * write, and the FIFO shares of `Advances.SettleOn`. They are the same exactly when no older
  * row started to owe behind the settlement's snapshot; a settlement nothing interrupts is FIFO.
  */
module AdvanceFifo {
  import opened Results
  import opened AdvanceRaces
  import Advances

  // ---- Each write takes as much as it can ----

  /** What the first `k` writes leave of the deduction. */
  function Left(t: Settlement, k: nat): int
    requires k <= |t.writes|
  {
    t.deduction - Applied(t.writes[..k])
  }

  ghost predicate Greedy(t: Settlement) {
    forall k | 0 <= k < |t.writes| ::
      Left(t, k) > 0 && t.writes[k].applied == Advances.Min(Left(t, k), t.writes[k].seen.outstanding)
  }

  ghost predicate AllGreedy(w: World) {
    forall tx <- w.txs :: Greedy(w.txs[tx])
  }

  lemma ExtendGreedy(w: World, t: Settlement)
    requires TxOk(w, t) && Greedy(t) && !Finished(t)
    requires var (i, seen) := t.plan[|t.writes|]; i < |w.rows| && w.rows[i].outstanding == seen.outstanding
    ensures Greedy(Extend(w.rows, t))
  {
    var t', n := Extend(w.rows, t), |t.writes|;
    assert t.writes[..n] == t.writes;
    forall k | 0 <= k < |t'.writes|
      ensures Left(t', k) > 0 && t'.writes[k].applied == Advances.Min(Left(t', k), t'.writes[k].seen.outstanding)
    {
      assert t'.writes[..k] == t.writes[..k];
      assert k < n ==> t'.writes[k] == t.writes[k] && Left(t, k) > 0;
    }
  }

  lemma StepGreedy(w: World, s: Step)
    requires Inv(w) && AllGreedy(w)
    ensures AllGreedy(Next(w, s))
  {
    hide Total, Greedy;
    var w' := Next(w, s);
    match s
    case Begin(tx, deduction, salary) =>
      NothingWritten(Settlement(deduction, salary, Snapshot(w.rows, 0), [], deduction, Running));
    case CompareAndSet(tx) =>
      if w' != w {
        var t := w.txs[tx];
        assert TxOk(w, t) && Greedy(t);
        if w'.txs[tx].phase.Running? {
          ExtendGreedy(w, t);
        } else {
          PhaseKeepsGreedy(t, Aborted);
        }
      }
    case Commit(tx) => if w' != w { PhaseKeepsGreedy(w.txs[tx], Committed); }
    case _ =>
  }

  lemma NothingWritten(t: Settlement)
    requires t.writes == []
    ensures Greedy(t)
  {
  }

  lemma PhaseKeepsGreedy(t: Settlement, phase: Phase)
    requires Greedy(t)
    ensures Greedy(t.(phase := phase))
  {
    assert forall k | 0 <= k < |t.writes| :: Left(t.(phase := phase), k) == Left(t, k);
  }

  lemma {:induction false} RunsGreedy(steps: seq<Step>)
    ensures AllGreedy(Runs(steps))
  {
    hide Next, Inv;
    if steps != [] {
      RunsGreedy(steps[..|steps| - 1]);
      StepGreedy(Runs(steps[..|steps| - 1]), steps[|steps| - 1]);
    }
  }

  // ---- Writes against the rows they are of ----

  /** Writes of distinct owing rows in order, each as it stands. */
  predicate WritesOf(rows: seq<Row>, writes: seq<Write>) {
    && (forall k | 0 <= k < |writes| ::
          && writes[k].row < |rows| && writes[k].seen == rows[writes[k].row]
          && Advances.Owing(writes[k].seen) && writes[k].applied <= writes[k].seen.outstanding)
    && (forall k, l | 0 <= k < l < |writes| :: writes[k].row < writes[l].row)
  }

  predicate Written(writes: seq<Write>, k: nat, i: nat)
    requires k <= |writes|
  {
    exists l :: 0 <= l < k && writes[l].row == i
  }

  /** Every owing row before `i` is among the first `k` writes. */
  predicate Covers(rows: seq<Row>, writes: seq<Write>, k: nat, i: nat)
    requires k <= |writes| && i <= |rows|
  {
    forall j: nat | j < i && Advances.Owing(rows[j]) :: Written(writes, k, j)
  }

  /** What the written rows owed. */
  function OutSum(writes: seq<Write>): nat {
    if writes == [] then 0 else OutSum(writes[..|writes| - 1]) + writes[|writes| - 1].seen.outstanding
  }

  lemma SumSnoc(writes: seq<Write>, k: nat)
    requires k < |writes|
    ensures OutSum(writes[..k + 1]) == OutSum(writes[..k]) + writes[k].seen.outstanding
    ensures Applied(writes[..k + 1]) == Applied(writes[..k]) + writes[k].applied
  {
    assert writes[..k + 1][..k] == writes[..k];
  }

  /** Rows that do not owe add nothing to what is owed before them. */
  lemma {:induction false} OwedGap(rows: seq<Row>, a: nat, b: nat)
    requires a <= b <= |rows| && forall i | a <= i < b :: !Advances.Owing(rows[i])
    ensures Advances.OwedTotal(rows[..b]) == Advances.OwedTotal(rows[..a])
  {
    if a < b {
      OwedGap(rows, a, b - 1);
      Advances.OwedPrefix(rows, b - 1);
    }
  }

  /** Behind the last of the writes that cover `i` nothing owes, and the others cover what is before it. */
  lemma LastCovered(rows: seq<Row>, writes: seq<Write>, k: nat, i: nat)
    requires WritesOf(rows, writes) && 0 < k <= |writes| && i <= |rows| && Covers(rows, writes, k, i)
    requires forall l | 0 <= l < k :: writes[l].row < i
    ensures var j := writes[k - 1].row;
            && j < i && (forall m | j < m < i :: !Advances.Owing(rows[m])) && Covers(rows, writes, k - 1, j)
            && Advances.Owed(rows[j]) == writes[k - 1].seen.outstanding
            && (forall l | 0 <= l < k - 1 :: writes[l].row < j)
  {
    var j := writes[k - 1].row;
    assert Advances.Owing(rows[j]) && writes[k - 1].seen == rows[j];
    assert forall l | 0 <= l < k - 1 :: writes[l].row < j;
    hide WritesOf, Advances.Owing;
    forall m: nat | m < i && Advances.Owing(rows[m]) && m != j ensures m < j && Written(writes, k - 1, m) {
      assert Written(writes, k, m);
      var l :| 0 <= l < k && writes[l].row == m;
      assert l != k - 1;
    }
  }

  lemma {:induction false} PrefixOwed(rows: seq<Row>, writes: seq<Write>, k: nat, i: nat)
    requires WritesOf(rows, writes) && k <= |writes| && i <= |rows| && Covers(rows, writes, k, i)
    requires forall l | 0 <= l < k :: writes[l].row < i
    ensures Advances.OwedTotal(rows[..i]) == OutSum(writes[..k])
  {
    if k == 0 {
      OwedGap(rows, 0, i);
      assert rows[..0] == [];
    } else {
      LastCovered(rows, writes, k, i);
      hide WritesOf, Covers, OutSum, Applied, Advances.OwedTotal, Advances.Owed, Advances.Owing;
      var j := writes[k - 1].row;
      OwedGap(rows, j + 1, i);
      Advances.OwedPrefix(rows, j);
      SumSnoc(writes, k - 1);
      PrefixOwed(rows, writes, k - 1, j);
    }
  }

  /** The rows before `i` owe at least what the written ones among them owed. */
  lemma {:induction false} OwedAtLeast(rows: seq<Row>, writes: seq<Write>, k: nat, i: nat)
    requires WritesOf(rows, writes) && k <= |writes| && i <= |rows|
    requires forall l | 0 <= l < k :: writes[l].row < i
    ensures Advances.OwedTotal(rows[..i]) >= OutSum(writes[..k]) >= Applied(writes[..k])
  {
    if k > 0 {
      var j := writes[k - 1].row;
      OwedAtLeast(rows, writes, k - 1, j);
      Advances.OwedPrefix(rows, j);
      Advances.OwedMonotone(rows, j + 1, i);
      SumSnoc(writes, k - 1);
    }
  }

  /** While something is left of the deduction, every write so far paid its row in full. */
  lemma {:induction false} FullBefore(t: Settlement, k: nat)
    requires Greedy(t) && k <= |t.writes| && Left(t, k) > 0
    ensures Applied(t.writes[..k]) == OutSum(t.writes[..k])
  {
    if k > 0 {
      SumSnoc(t.writes, k - 1);
      assert Left(t, k - 1) > 0;
      FullBefore(t, k - 1);
    }
  }

  lemma {:induction false} PublishAt(rows: seq<Row>, writes: seq<Write>, salary: nat, k: nat)
    requires WritesOf(rows, writes) && k < |writes|
    requires forall wr <- writes :: wr.row < |rows| && wr.applied <= wr.seen.outstanding
    ensures Publish(rows, writes, salary)[writes[k].row] == AfterWrite(writes[k], salary)
  {
    var n := |writes| - 1;
    if k < n {
      assert forall wr <- writes[..n] :: wr in writes;
      PublishAt(rows, writes[..n], salary, k);
    }
  }

  // ---- When a commit is FIFO ----

  /** An owing row the settlement passed over: it has money left, or it paid a newer row. */
  predicate Missed(rows: seq<Row>, t: Settlement, i: nat) {
    && i < |rows| && Advances.Owing(rows[i]) && !Written(t.writes, |t.writes|, i)
    && (t.remaining > 0 || exists k :: 0 <= k < |t.writes| && t.writes[k].row > i)
  }

  /** A settlement ready to commit, with its writes as the invariant has them. */
  ghost predicate Ready(rows: seq<Row>, t: Settlement) {
    && WritesOf(rows, t.writes) && Greedy(t) && t.remaining == Left(t, |t.writes|)
    && (forall wr <- t.writes :: wr.row < |rows| && wr.applied <= wr.seen.outstanding)
  }

  lemma IndexedWrites(rows: seq<Row>, writes: seq<Write>)
    requires forall wr <- writes ::
               wr.row < |rows| && wr.seen == rows[wr.row] && Advances.Owing(wr.seen)
               && wr.applied <= wr.seen.outstanding
    requires forall k, l | 0 <= k < l < |writes| :: writes[k].row < writes[l].row
    ensures WritesOf(rows, writes)
  {
    hide Advances.Owing;
    assert forall k | 0 <= k < |writes| :: writes[k] in writes;
  }

  lemma ReadyToCommit(w: World, tx: nat)
    requires Inv(w) && AllGreedy(w) && tx in w.txs && w.txs[tx].phase.Running?
    ensures Ready(w.rows, w.txs[tx])
  {
    var t := w.txs[tx];
    assert TxOk(w, t) && Greedy(t);
    hide Inv, AllGreedy, Greedy, Applied, Advances.Owing, WritesOf;
    assert t.writes[..|t.writes|] == t.writes;
    IndexedWrites(w.rows, t.writes);
  }

  /** With no row missed, every owing row before a written one was written. */
  lemma CoversToWritten(rows: seq<Row>, t: Settlement, k: nat)
    requires Ready(rows, t) && k < |t.writes| && forall i :: !Missed(rows, t, i)
    ensures t.writes[k].row < |rows| && Covers(rows, t.writes, k, t.writes[k].row)
  {
    hide Greedy, Left, Advances.Owing;
    var i := t.writes[k].row;
    forall j: nat | j < i && Advances.Owing(rows[j]) ensures Written(t.writes, k, j) {
      assert !Missed(rows, t, j);
      assert Written(t.writes, |t.writes|, j);
      var l :| 0 <= l < |t.writes| && t.writes[l].row == j;
      assert l < k;
    }
  }

  /** With no row missed, a written row got its FIFO share. */
  lemma WrittenShare(rows: seq<Row>, t: Settlement, k: nat)
    requires Ready(rows, t) && k < |t.writes| && forall i :: !Missed(rows, t, i)
    ensures t.writes[k].applied > 0
    ensures t.writes[k].row < |rows| && Advances.Share(rows, t.deduction, t.writes[k].row) == t.writes[k].applied
  {
    CoversToWritten(rows, t, k);
    assert Left(t, k) > 0 && t.writes[k].applied == Advances.Min(Left(t, k), t.writes[k].seen.outstanding);
    FullBefore(t, k);
    var i := t.writes[k].row;
    assert WritesOf(rows, t.writes) && t.writes[k].seen == rows[i] && Advances.Owing(rows[i]);
    assert forall l | 0 <= l < k :: t.writes[l].row < i;
    hide Missed, Greedy, WritesOf, Covers, Ready;
    PrefixOwed(rows, t.writes, k, i);
  }

  /** With no row missed, an unwritten row has no share. */
  lemma UnwrittenShare(rows: seq<Row>, t: Settlement, i: nat)
    requires Ready(rows, t) && i < |rows| && !Written(t.writes, |t.writes|, i) && !Missed(rows, t, i)
    ensures Advances.Share(rows, t.deduction, i) == 0
  {
    hide Greedy;
    if Advances.Owing(rows[i]) {
      forall l | 0 <= l < |t.writes| ensures t.writes[l].row < i {
        assert t.writes[l].row != i;
      }
      OwedAtLeast(rows, t.writes, |t.writes|, i);
    }
  }

  /** Before the first missed row every owing row was written. */
  lemma CoversToMissed(rows: seq<Row>, t: Settlement, i: nat, k: nat)
    requires Ready(rows, t) && Missed(rows, t, i) && forall j: nat | j < i :: !Missed(rows, t, j)
    requires k <= |t.writes| && (forall l | k <= l < |t.writes| :: t.writes[l].row >= i)
    ensures Covers(rows, t.writes, k, i)
  {
    hide Greedy, Left, Advances.Owing;
    forall j: nat | j < i && Advances.Owing(rows[j]) ensures Written(t.writes, k, j) {
      assert !Missed(rows, t, j);
      assert Written(t.writes, |t.writes|, j);
      var l :| 0 <= l < |t.writes| && t.writes[l].row == j;
      assert l < k;
    }
  }

  /** A settlement that missed a row had money left when it passed it. */
  lemma MissedLeft(rows: seq<Row>, t: Settlement, i: nat, k: nat)
    requires Ready(rows, t) && Missed(rows, t, i) && k <= |t.writes|
    requires k == |t.writes| ==> forall l | 0 <= l < |t.writes| :: t.writes[l].row < i
    ensures Left(t, k) > 0
  {
    hide WritesOf, Left;
  }

  /** The first missed row had a share. */
  lemma MissedShare(rows: seq<Row>, t: Settlement, i: nat)
    requires Ready(rows, t) && Missed(rows, t, i) && forall j: nat | j < i :: !Missed(rows, t, j)
    ensures Advances.Share(rows, t.deduction, i) > 0
  {
    assert i < |rows| && Advances.Owing(rows[i]) && WritesOf(rows, t.writes) && Greedy(t);
    var k := WritesBefore(t.writes, i);
    hide *;
    CoversToMissed(rows, t, i, k);
    MissedLeft(rows, t, i, k);
    FullBefore(t, k);
    CoveredShare(rows, t, i, k);
  }

  lemma CoveredShare(rows: seq<Row>, t: Settlement, i: nat, k: nat)
    requires WritesOf(rows, t.writes) && i < |rows| && Advances.Owing(rows[i])
    requires k <= |t.writes| && Covers(rows, t.writes, k, i) && forall l | 0 <= l < k :: t.writes[l].row < i
    requires Applied(t.writes[..k]) == OutSum(t.writes[..k]) && Left(t, k) > 0
    ensures Advances.Share(rows, t.deduction, i) > 0
  {
    hide Covers, WritesOf, Applied, OutSum, Advances.OwedTotal;
    PrefixOwed(rows, t.writes, k, i);
  }

  /** How many writes are of rows before `i`. */
  ghost function WritesBefore(writes: seq<Write>, i: nat): (k: nat)
    requires forall k, l | 0 <= k < l < |writes| :: writes[k].row < writes[l].row
    ensures k <= |writes|
    ensures (forall l | 0 <= l < k :: writes[l].row < i) && (forall l | k <= l < |writes| :: writes[l].row >= i)
  {
    var n := |writes| - 1;
    if writes == [] then 0
    else if writes[n].row < i then
      assert forall l | 0 <= l < n :: writes[l].row < writes[n].row;
      n + 1
    else WritesBefore(writes[..n], i)
  }

  lemma {:induction false} FirstMissed(rows: seq<Row>, t: Settlement, i: nat) returns (m: nat)
    requires Missed(rows, t, i)
    ensures m <= i && Missed(rows, t, m) && forall j: nat | j < m :: !Missed(rows, t, j)
    decreases i
  {
    if j: nat :| j < i && Missed(rows, t, j) {
      m := FirstMissed(rows, t, j);
    } else {
      m := i;
    }
  }

  lemma PublishedIsSettled(rows: seq<Row>, t: Settlement)
    requires Ready(rows, t) && forall i :: !Missed(rows, t, i)
    ensures Publish(rows, t.writes, t.salary) == Advances.SettleOn(rows, t.deduction, t.salary)
  {
    PublishConserves(rows, t.writes, t.salary);
    hide Publish, Advances.Share, Missed, Greedy, Total;
    forall i: nat | i < |rows|
      ensures Publish(rows, t.writes, t.salary)[i] == Advances.SettledRow(rows, t.deduction, t.salary, i)
    {
      if Written(t.writes, |t.writes|, i) {
        var k :| 0 <= k < |t.writes| && t.writes[k].row == i;
        PublishAt(rows, t.writes, t.salary, k);
        WrittenShare(rows, t, k);
      } else {
        UnwrittenShare(rows, t, i);
        UnwrittenKept(rows, t.writes, t.salary, i);
      }
    }
  }

  lemma UnwrittenKept(rows: seq<Row>, writes: seq<Write>, salary: nat, i: nat)
    requires WritesOf(rows, writes) && i < |rows| && !Written(writes, |writes|, i)
    requires forall wr <- writes :: wr.row < |rows| && wr.applied <= wr.seen.outstanding
    ensures Publish(rows, writes, salary)[i] == rows[i]
  {
    PublishConserves(rows, writes, salary);
  }

  lemma MissedUnsettled(rows: seq<Row>, t: Settlement, i: nat)
    requires Ready(rows, t) && Missed(rows, t, i)
    ensures Publish(rows, t.writes, t.salary) != Advances.SettleOn(rows, t.deduction, t.salary)
  {
    var m := FirstMissed(rows, t, i);
    MissedShare(rows, t, m);
    UnwrittenKept(rows, t.writes, t.salary, m);
    hide Publish, Advances.Share;
    assert Advances.SettleOn(rows, t.deduction, t.salary)[m] == Advances.SettledRow(rows, t.deduction, t.salary, m);
  }

  /**
    * A commit leaves exactly the FIFO settlement of the rows as they then stand if and only if no
    * owing row was missed; it then returns what that settlement repays.
    */
  lemma CommitIsFifoExactly(w: World, tx: nat)
    requires Inv(w) && AllGreedy(w) && tx in w.txs && w.txs[tx].phase.Running? && Finished(w.txs[tx])
    ensures var t, w' := w.txs[tx], Next(w, Commit(tx));
            var settled := Advances.SettleOn(w.rows, t.deduction, t.salary);
            && (w'.rows == settled <==> forall i :: !Missed(w.rows, t, i))
            && (w'.rows == settled ==> w'.returned - w.returned == Advances.Repaid(w.rows, t.deduction))
  {
    var t := w.txs[tx];
    ReadyToCommit(w, tx);
    CommitReturnsFall(w, tx);
    Advances.SettleConserves(w.rows, t.deduction, t.salary);
    assert Next(w, Commit(tx)).rows == Publish(w.rows, t.writes, t.salary);
    hide Next, Publish, Inv, Ready, Missed, Advances.SettleOn, Advances.Repaid;
    if i :| Missed(w.rows, t, i) {
      MissedUnsettled(w.rows, t, i);
    } else {
      PublishedIsSettled(w.rows, t);
    }
  }

  // ---- A settlement nothing interrupts ----

  /** `n` compare-and-sets of one settlement in a row. */
  ghost function Carried(w: World, tx: nat, n: nat): (w': World)
    requires Inv(w)
    ensures Inv(w')
  {
    if n == 0 then w
    else
      var before := Carried(w, tx, n - 1);
      NextKeepsInv(before, CompareAndSet(tx));
      Next(before, CompareAndSet(tx))
  }

  lemma {:induction false} SnapshotComplete(rows: seq<Row>, from: nat, i: nat)
    requires from <= i < |rows| && Advances.Owing(rows[i])
    ensures exists k :: 0 <= k < |Snapshot(rows, from)| && Snapshot(rows, from)[k].0 == i
    decreases i - from
  {
    var plan, rest := Snapshot(rows, from), Snapshot(rows, from + 1);
    assert plan == (if Advances.Owing(rows[from]) then [(from, rows[from])] else []) + rest;
    hide Snapshot, Advances.Owing;
    if from < i {
      SnapshotComplete(rows, from + 1, i);
      var k :| 0 <= k < |rest| && rest[k].0 == i;
      assert plan[|plan| - |rest| + k] == rest[k];
    } else {
      assert plan[0].0 == i;
    }
  }

  /** A settlement alone with its rows: as begun but for its writes, and nobody else holds a row. */
  ghost predicate Alone(w: World, tx: nat, rows: seq<Row>, deduction: int, salary: nat) {
    && w.rows == rows && tx in w.txs && w.txs[tx].phase.Running?
    && w.txs[tx].plan == Snapshot(rows, 0) && w.txs[tx].deduction == deduction && w.txs[tx].salary == salary
    && forall b: nat, i: nat | b in w.txs && b != tx :: !Holds(w.txs[b], i)
  }

  lemma StepAlone(w: World, tx: nat, rows: seq<Row>, deduction: int, salary: nat)
    requires Inv(w) && Alone(w, tx, rows, deduction, salary)
    ensures var w' := Next(w, CompareAndSet(tx));
            && Alone(w', tx, rows, deduction, salary)
            && (Finished(w.txs[tx]) ==> w' == w)
            && (!Finished(w.txs[tx]) ==> |w'.txs[tx].writes| == |w.txs[tx].writes| + 1)
  {
    var t := w.txs[tx];
    assert TxOk(w, t);
    if !Finished(t) {
      var i := t.plan[|t.writes|].0;
      assert !Holds(t, i);
      assert !Locked(w, i);
    }
  }

  lemma {:induction false} CarriedAlone(w: World, tx: nat, rows: seq<Row>, deduction: int, salary: nat, n: nat)
    requires Inv(w) && Alone(w, tx, rows, deduction, salary) && w.txs[tx].writes == []
    ensures var end := Carried(w, tx, n);
            Alone(end, tx, rows, deduction, salary) && (Finished(end.txs[tx]) || |end.txs[tx].writes| == n)
  {
    hide Inv, Next, Finished;
    if n > 0 {
      CarriedAlone(w, tx, rows, deduction, salary, n - 1);
      StepAlone(Carried(w, tx, n - 1), tx, rows, deduction, salary);
    }
  }

  lemma {:induction false} CarriedGreedy(w: World, tx: nat, n: nat)
    requires Inv(w) && AllGreedy(w)
    ensures AllGreedy(Carried(w, tx, n))
  {
    hide AllGreedy, Next, Inv;
    if n > 0 {
      CarriedGreedy(w, tx, n - 1);
      StepGreedy(Carried(w, tx, n - 1), CompareAndSet(tx));
    }
  }

  lemma AloneMissesNothing(w: World, tx: nat, rows: seq<Row>, deduction: int, salary: nat, i: nat)
    requires Inv(w) && Alone(w, tx, rows, deduction, salary) && Finished(w.txs[tx])
    ensures !Missed(rows, w.txs[tx], i)
  {
    var t := w.txs[tx];
    assert TxOk(w, t);
    hide Inv, Applied, Holds, Advances.Owing;
    if i < |rows| && Advances.Owing(rows[i]) {
      SnapshotComplete(rows, 0, i);
      var k :| 0 <= k < |t.plan| && t.plan[k].0 == i;
      if k < |t.writes| {
        assert t.writes[k].row == i && Written(t.writes, |t.writes|, i);
      } else {
        assert forall l | 0 <= l < |t.writes| :: t.writes[l].row < i;
      }
    }
  }

  lemma BegunAlone(w: World, tx: nat, deduction: int, salary: nat)
    requires Inv(w) && AllGreedy(w) && tx !in w.txs && forall i: nat :: !Locked(w, i)
    ensures var begun := Next(w, Begin(tx, deduction, salary));
            && Inv(begun) && AllGreedy(begun) && begun.returned == w.returned
            && Alone(begun, tx, w.rows, deduction, salary) && begun.txs[tx].writes == []
  {
    NextKeepsInv(w, Begin(tx, deduction, salary));
    StepGreedy(w, Begin(tx, deduction, salary));
    hide Inv, AllGreedy, Snapshot;
    forall b: nat, i: nat | b in w.txs ensures !Holds(w.txs[b], i) {
      assert !Locked(w, i);
    }
  }

  /** Carried out to the end of its plan, it is ready to commit and has missed nothing. */
  lemma CarriedFinishes(w: World, tx: nat, rows: seq<Row>, deduction: int, salary: nat)
    requires Inv(w) && AllGreedy(w) && Alone(w, tx, rows, deduction, salary) && w.txs[tx].writes == []
    ensures var ready := Carried(w, tx, |Snapshot(rows, 0)|);
            && AllGreedy(ready) && ready.returned == w.returned && Alone(ready, tx, rows, deduction, salary)
            && Finished(ready.txs[tx]) && forall i :: !Missed(rows, ready.txs[tx], i)
  {
    var n := |Snapshot(rows, 0)|;
    hide Inv, AllGreedy, Carried, Missed, Snapshot;
    CarriedAlone(w, tx, rows, deduction, salary, n);
    CarriedGreedy(w, tx, n);
    CarriedReturns(w, tx, n);
    var ready := Carried(w, tx, n);
    assert Finished(ready.txs[tx]);
    forall i ensures !Missed(rows, ready.txs[tx], i) {
      AloneMissesNothing(ready, tx, rows, deduction, salary, i);
    }
  }

  /** Begun and carried out while nobody else holds a row, a settlement is `SettleOn` and returns `Repaid`. */
  lemma WholeIsSettleOn(w: World, tx: nat, deduction: int, salary: nat)
    requires Inv(w) && AllGreedy(w) && tx !in w.txs && forall i: nat :: !Locked(w, i)
    ensures var begun := Next(w, Begin(tx, deduction, salary));
            && Inv(begun)
            && var end := Next(Carried(begun, tx, |Snapshot(w.rows, 0)|), Commit(tx));
            && end.rows == Advances.SettleOn(w.rows, deduction, salary)
            && end.returned - w.returned == Advances.Repaid(w.rows, deduction)
  {
    hide Next, Carried, Inv, Missed, AllGreedy, Finished, Snapshot, Locked, Advances.SettleOn, Advances.Repaid;
    BegunAlone(w, tx, deduction, salary);
    var begun := Next(w, Begin(tx, deduction, salary));
    CarriedFinishes(begun, tx, w.rows, deduction, salary);
    CommitIsFifoExactly(Carried(begun, tx, |Snapshot(w.rows, 0)|), tx);
  }

  lemma {:induction false} CarriedReturns(w: World, tx: nat, n: nat)
    requires Inv(w)
    ensures Carried(w, tx, n).returned == w.returned
  {
    hide Next, Inv;
    if n > 0 {
      CarriedReturns(w, tx, n - 1);
      OnlyCommitsShow(Carried(w, tx, n - 1), CompareAndSet(tx));
    }
  }
}
