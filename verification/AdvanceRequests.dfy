/**
  * Concurrent advance requests. A request sums what is outstanding and checks the limit, then
  * creates its row. The transaction around the two asks for no isolation, so other requests
  * and any other operation may come between; the machine below interleaves the two steps.
  */
module AdvanceRequests {
  import opened Results
  import opened Money
  import opened Advances

  /** A request that has passed its check: the row it is going to create. */
  datatype World = World(rows: seq<Advance>, inFlight: seq<Advance>)

  datatype Step =
    | Check(d: Day, amount: nat)
    | Create(k: nat)
    | Abandon(k: nat)
    | Other(op: Op)  // an operation that nothing interrupts

  predicate ValidStep(s: Step) {
    (s.Check? ==> CalendarDay(s.d)) && (s.Other? ==> ValidOp(s.op) && !s.op.Request?)
  }

  predicate ValidSteps(steps: seq<Step>) {
    forall s <- steps :: ValidStep(s)
  }

  function Without(xs: seq<Advance>, k: nat): seq<Advance>
    requires k < |xs|
  {
    xs[..k] + xs[k + 1..]
  }

  function Next(base: nat, policy: Policy, w: World, s: Step): World
    requires ValidStep(s)
  {
    match s
    case Check(d, amount) =>
      if amount > Eligible(base, OutstandingTotal(w.rows), policy, d) then w
      else w.(inFlight := w.inFlight + [Requested(policy, amount)])
    case Create(k) =>
      if k >= |w.inFlight| then w else World(w.rows + [w.inFlight[k]], Without(w.inFlight, k))
    case Abandon(k) => if k >= |w.inFlight| then w else w.(inFlight := Without(w.inFlight, k))
    case Other(op) => w.(rows := Perform(base, policy, w.rows, op))
  }

  function Runs(base: nat, policy: Policy, steps: seq<Step>): World
    requires ValidSteps(steps)
  {
    if steps == [] then World([], [])
    else Next(base, policy, Runs(base, policy, steps[..|steps| - 1]), steps[|steps| - 1])
  }

  lemma RunsLast(base: nat, policy: Policy, steps: seq<Step>)
    requires ValidSteps(steps) && steps != []
    ensures ValidSteps(steps[..|steps| - 1]) && ValidStep(steps[|steps| - 1])
    ensures Runs(base, policy, steps)
         == Next(base, policy, Runs(base, policy, steps[..|steps| - 1]), steps[|steps| - 1])
  {
    assert forall s <- steps[..|steps| - 1] :: s in steps;
  }

  /** A request that nothing interrupts is its check and its creation. */
  lemma WholeIsSplit(base: nat, policy: Policy, rows: seq<Advance>, d: Day, amount: nat)
    requires CalendarDay(d)
    ensures Next(base, policy, Next(base, policy, World(rows, []), Check(d, amount)), Create(0))
         == World(Perform(base, policy, rows, Request(d, amount)), [])
  {
    hide Eligible, OutstandingTotal;
    assert Without([Requested(policy, amount)], 0) == [];
  }

  /** Creation and abandonment take exactly one request out of flight, and only creation adds its row. */
  lemma OutOfFlight(base: nat, policy: Policy, w: World, k: nat)
    requires k < |w.inFlight|
    ensures var rest := w.inFlight[..k] + w.inFlight[k + 1..];
            && Next(base, policy, w, Create(k)) == World(w.rows + [w.inFlight[k]], rest)
            && Next(base, policy, w, Abandon(k)) == World(w.rows, rest)
  {
  }

  // ---- How far concurrent requests can pass the limit ----

  predicate Reserves(rows: seq<Advance>, bound: nat) {
    forall row <- rows :: (row.status == REQUESTED || row.status == APPROVED) && row.outstanding <= bound
  }

  lemma TotalSnoc(rows: seq<Advance>, row: Advance)
    ensures OutstandingTotal(rows + [row])
         == OutstandingTotal(rows) + if row.status.REPAID? || row.status.REJECTED? then 0 else row.outstanding
  {
    assert (rows + [row])[..|rows|] == rows;
  }

  lemma {:induction false} TotalWithout(rows: seq<Advance>, k: nat, bound: nat)
    requires k < |rows| && Reserves(rows, bound)
    ensures OutstandingTotal(Without(rows, k)) == OutstandingTotal(rows) - rows[k].outstanding
    ensures Reserves(Without(rows, k), bound)
  {
    hide OutstandingTotal;
    var n := |rows| - 1;
    assert forall row <- Without(rows, k) :: row in rows;
    assert rows[n] in rows && rows == rows[..n] + [rows[n]];
    TotalSnoc(rows[..n], rows[n]);
    if k == n {
      assert Without(rows, k) == rows[..n];
    } else {
      assert forall row <- rows[..n] :: row in rows;
      TotalWithout(rows[..n], k, bound);
      assert Without(rows, k) == Without(rows[..n], k) + [rows[n]];
      TotalSnoc(Without(rows[..n], k), rows[n]);
    }
  }

  lemma {:induction false} TotalOfReserves(rows: seq<Advance>, bound: nat)
    requires Reserves(rows, bound)
    ensures OutstandingTotal(rows) <= |rows| * bound
  {
    if rows != [] {
      var n := |rows| - 1;
      assert rows[n] in rows && forall row <- rows[..n] :: row in rows;
      assert rows[n].outstanding <= bound && Reserves(rows[..n], bound);
      assert rows == rows[..n] + [rows[n]];
      hide OutstandingTotal, Reserves;
      TotalSnoc(rows[..n], rows[n]);
      TotalOfReserves(rows[..n], bound);
      OneMore(n, bound);
    }
  }

  lemma OneMore(n: nat, bound: nat)
    ensures (n + 1) * bound == n * bound + bound
  {
  }

  /** Outstanding and in-flight reservations together stay within `k` times the limit with its fee. */
  ghost predicate WithinTimes(base: nat, policy: Policy, w: World, k: nat) {
    && Reserves(w.inFlight, LimitWithFee(base, policy))
    && OutstandingTotal(w.rows) + OutstandingTotal(w.inFlight) <= k * LimitWithFee(base, policy)
  }

  /** A checked request reserves at most the limit with its fee, on top of what is outstanding. */
  lemma CheckedFits(base: nat, policy: Policy, outstanding: nat, d: Day, amount: nat)
    requires CalendarDay(d) && amount <= Eligible(base, outstanding, policy, d)
    ensures Requested(policy, amount).outstanding <= LimitWithFee(base, policy)
    ensures amount == 0 || outstanding + Requested(policy, amount).outstanding <= LimitWithFee(base, policy)
  {
    MaxWithinLimit(base, policy, d);
    RequestedFits(base, outstanding, policy, d, amount);
    hide Eligible, MaxAdvanceable, Limit;
    PercentMonotone(amount, Limit(base, policy), policy.feePercent);
  }

  lemma CheckWithinTimes(base: nat, policy: Policy, w: World, s: Step, k: nat)
    requires WithinTimes(base, policy, w, k) && s.Check? && ValidStep(s)
    requires |Next(base, policy, w, s).inFlight| <= k
    ensures WithinTimes(base, policy, Next(base, policy, w, s), k)
  {
    var w' := Next(base, policy, w, s);
    if w' != w {
      CheckedFits(base, policy, OutstandingTotal(w.rows), s.d, s.amount);
      hide Eligible, OutstandingTotal, LimitWithFee;
      var bound := LimitWithFee(base, policy);
      TotalSnoc(w.inFlight, Requested(policy, s.amount));
      TotalOfReserves(w.inFlight, bound);
      ScaleOrder(k - 1, |w.inFlight|, bound);
      assert k * bound == (k - 1) * bound + bound;
    }
  }

  lemma NextWithinTimes(base: nat, policy: Policy, w: World, s: Step, k: nat)
    requires WithinTimes(base, policy, w, k) && ValidStep(s)
    requires |Next(base, policy, w, s).inFlight| <= k
    ensures WithinTimes(base, policy, Next(base, policy, w, s), k)
  {
    hide Eligible, OutstandingTotal, LimitWithFee, Perform, Requested;
    var bound := LimitWithFee(base, policy);
    match s
    case Check(_, _) => CheckWithinTimes(base, policy, w, s, k);
    case Create(i) =>
      if i < |w.inFlight| {
        assert w.inFlight[i] in w.inFlight;
        TotalWithout(w.inFlight, i, bound);
        TotalSnoc(w.rows, w.inFlight[i]);
      }
    case Abandon(i) => if i < |w.inFlight| { TotalWithout(w.inFlight, i, bound); }
    case Other(op) => OtherNeverRaises(base, policy, w.rows, op);
  }

  /** At no point of the run are more than `k` requests between check and creation. */
  ghost predicate AtMostInFlight(base: nat, policy: Policy, steps: seq<Step>, k: nat)
    requires ValidSteps(steps)
  {
    forall n | 0 <= n <= |steps| ::
      (assert forall s <- steps[..n] :: s in steps; |Runs(base, policy, steps[..n]).inFlight| <= k)
  }

  /**
    * With at most `k` requests in flight at a time, the total outstanding never exceeds `k` times
    * the limit with its fee; with one at a time it is the bound of serialised requests.
    */
  lemma {:induction false} RacesBounded(base: nat, policy: Policy, steps: seq<Step>, k: nat)
    requires ValidSteps(steps) && AtMostInFlight(base, policy, steps, k)
    ensures WithinTimes(base, policy, Runs(base, policy, steps), k)
    ensures OutstandingTotal(Runs(base, policy, steps).rows) <= k * LimitWithFee(base, policy)
  {
    if steps != [] {
      var n := |steps| - 1;
      RunsLast(base, policy, steps);
      assert forall m | 0 <= m <= n :: steps[..n][..m] == steps[..m];
      hide Runs, Next, WithinTimes, LimitWithFee;
      RacesBounded(base, policy, steps[..n], k);
      assert steps[..|steps|] == steps;
      NextWithinTimes(base, policy, Runs(base, policy, steps[..n]), steps[n], k);
      WithinBounds(base, policy, Runs(base, policy, steps), k);
    }
  }

  lemma WithinBounds(base: nat, policy: Policy, w: World, k: nat)
    requires WithinTimes(base, policy, w, k)
    ensures OutstandingTotal(w.rows) <= k * LimitWithFee(base, policy)
  {
  }

  // ---- The bound is met ----

  /** `k` requests for the whole limit on a month's last day pass their check before any creates its row. */
  function Checks(k: nat, amount: nat): seq<Step> {
    seq(k, _ => Check(Day(31, 31), amount))
  }

  function Creates(k: nat): seq<Step> {
    seq(k, _ => Create(0))
  }

  lemma {:induction false} ChecksAllPass(base: nat, policy: Policy, k: nat)
    requires base % 10 == 0
    ensures Runs(base, policy, Checks(k, Limit(base, policy)))
         == World([], seq(k, _ => Requested(policy, Limit(base, policy))))
  {
    if k > 0 {
      ChecksAllPass(base, policy, k - 1);
      var steps := Checks(k, Limit(base, policy));
      assert steps[..k - 1] == Checks(k - 1, Limit(base, policy));
      RunsLast(base, policy, steps);
      LimitEligible(base, policy);
      hide Runs, Eligible, Limit, Requested;
      assert seq(k, _ => Requested(policy, Limit(base, policy)))
          == seq(k - 1, _ => Requested(policy, Limit(base, policy))) + [Requested(policy, Limit(base, policy))];
    }
  }

  lemma CreateFirst(base: nat, policy: Policy, w: World, left: nat, row: Advance)
    requires w.inFlight == seq(left + 1, _ => row)
    ensures Next(base, policy, w, Create(0)) == World(w.rows + [row], seq(left, _ => row))
  {
    assert Without(w.inFlight, 0) == seq(left, _ => row);
  }

  /** The bound is reached for every `k`. */
  lemma {:induction false} RaceReached(base: nat, policy: Policy, k: nat, done: nat)
    requires base % 10 == 0 && done <= k
    ensures var w := Runs(base, policy, Checks(k, Limit(base, policy)) + Creates(done));
            && OutstandingTotal(w.rows) == done * LimitWithFee(base, policy)
            && w.inFlight == seq(k - done, _ => Requested(policy, Limit(base, policy)))
    decreases done
  {
    hide Runs, Next, Limit, Eligible;
    var row := Requested(policy, Limit(base, policy));
    var steps := Checks(k, Limit(base, policy)) + Creates(done);
    if done == 0 {
      ChecksAllPass(base, policy, k);
      assert steps == Checks(k, Limit(base, policy));
    } else {
      RaceReached(base, policy, k, done - 1);
      var before := Checks(k, Limit(base, policy)) + Creates(done - 1);
      assert steps[..|steps| - 1] == before && steps[|steps| - 1] == Create(0);
      assert row.outstanding == LimitWithFee(base, policy) && !row.status.REPAID? && !row.status.REJECTED?;
      assert done * LimitWithFee(base, policy) == (done - 1) * LimitWithFee(base, policy) + LimitWithFee(base, policy);
      hide OutstandingTotal, Requested, LimitWithFee;
      RunsLast(base, policy, steps);
      var w := Runs(base, policy, before);
      CreateFirst(base, policy, w, k - done, row);
      TotalSnoc(w.rows, row);
    }
  }
}
