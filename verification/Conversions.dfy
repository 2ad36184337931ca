/**
  * Benefit conversions: the valuation and its rounding, and the reservation ledger of one
  * package item under interleaved requests, approvals, disbursements and rejections. The
  * balance check of a request runs before, and outside, the transaction that reserves.
  */
module Conversions {
  import opened Results
  import opened Money

  // ---- Valuation ----

  /** Gross cash of a notional amount, in units of 1e-7. */
  function Cash(notional: nat, rate: Percent): nat {
    Quotient(notional * rate, 100000)
  }

  /** The fee on a cash amount, both in units of 1e-7. */
  function Fee(cash: nat, fee: Percent): nat {
    Quotient(cash * fee, 10000)
  }

  function Net(cash: nat, fee: Percent): int {
    cash - Fee(cash, fee)
  }

  /**
    * Truncation favours the payer in the cash and the employee in the fee: the cash is the
    * largest whole number of units within the rate, the fee within the fee rate.
    */
  lemma ValuationBounds(notional: nat, rate: Percent, cash: nat, fee: Percent)
    ensures Cash(notional, rate) * 100000 <= notional * rate < (Cash(notional, rate) + 1) * 100000
    ensures Fee(cash, fee) * 10000 <= cash * fee < (Fee(cash, fee) + 1) * 10000
  {
  }

  /** So they never favour the employee beyond the notional amount and never turn the net negative. */
  lemma ValuationWithin(notional: nat, rate: Percent, fee: Percent)
    ensures 10 * Cash(notional, rate) <= notional
    ensures 0 <= Net(Cash(notional, rate), fee) <= Cash(notional, rate)
    ensures rate == 10000 && fee == 0 ==> notional - 10 < 10 * Net(Cash(notional, rate), fee)
  {
    var cash := Cash(notional, rate);
    ScaleOrder(10000, rate, notional);
    ScaleOrder(10000, fee, cash);
    LessProduct(Fee(cash, fee), cash + 1, 10000);
  }

  function Sum(parts: seq<nat>): nat {
    if parts == [] then 0 else Sum(parts[..|parts| - 1]) + parts[|parts| - 1]
  }

  function CashOfPieces(parts: seq<nat>, rate: Percent): nat {
    if parts == [] then 0 else CashOfPieces(parts[..|parts| - 1], rate) + Cash(parts[|parts| - 1], rate)
  }

  function NetOfPieces(parts: seq<nat>, rate: Percent, fee: Percent): int {
    if parts == [] then 0
    else NetOfPieces(parts[..|parts| - 1], rate, fee) + Net(Cash(parts[|parts| - 1], rate), fee)
  }

  /** A truncated quotient of a sum exceeds the sum of the truncated quotients by 0 or 1. */
  lemma QuotientOfSum(a: nat, b: nat, d: nat)
    requires d > 0
    ensures Quotient(a, d) + Quotient(b, d) <= Quotient(a + b, d) <= Quotient(a, d) + Quotient(b, d) + 1
  {
    var p, q, s := Quotient(a, d), Quotient(b, d), Quotient(a + b, d);
    assert (p + q) * d == p * d + q * d;
    assert (p + 1) * d == p * d + d && (q + 1) * d == q * d + d && (s + 1) * d == s * d + d;
    assert (p + q + 2) * d == p * d + q * d + d + d;
    LessProduct(p + q, s + 1, d);
    LessProduct(s, p + q + 2, d);
  }

  lemma CashOfSum(a: nat, b: nat, rate: Percent)
    ensures Cash(a, rate) + Cash(b, rate) <= Cash(a + b, rate) <= Cash(a, rate) + Cash(b, rate) + 1
  {
    assert (a + b) * rate == a * rate + b * rate;
    QuotientOfSum(a * rate, b * rate, 100000);
  }

  /** Splitting a conversion never yields more gross cash, and loses less than a unit a split. */
  lemma {:induction false} SplitCash(parts: seq<nat>, rate: Percent)
    requires parts != []
    ensures CashOfPieces(parts, rate) <= Cash(Sum(parts), rate) <= CashOfPieces(parts, rate) + |parts| - 1
  {
    var n := |parts| - 1;
    assert parts[..0] == [];
    if n == 0 {
      assert Sum(parts) == Sum(parts[..0]) + parts[0];
      assert CashOfPieces(parts, rate) == CashOfPieces(parts[..0], rate) + Cash(parts[0], rate);
    } else {
      SplitCash(parts[..n], rate);
      CashOfSum(Sum(parts[..n]), parts[n], rate);
    }
  }

  /** Net of a sum: the fee's truncation can only favour the pieces, by at most one unit. */
  lemma NetOfSum(a: nat, b: nat, fee: Percent)
    ensures Net(a, fee) + Net(b, fee) - 1 <= Net(a + b, fee) <= Net(a, fee) + Net(b, fee)
  {
    assert (a + b) * fee == a * fee + b * fee;
    QuotientOfSum(a * fee, b * fee, 10000);
  }

  /** One more unit of cash raises the net by 0 or 1. */
  lemma NetStep(cash: nat, fee: Percent)
    ensures Net(cash, fee) <= Net(cash + 1, fee) <= Net(cash, fee) + 1
  {
    var f, g := Fee(cash, fee), Fee(cash + 1, fee);
    assert (cash + 1) * fee == cash * fee + fee;
    QuotientMonotone(cash * fee, (cash + 1) * fee, 10000);
    LessProduct(g, f + 2, 10000);
  }

  /**
    * Converting in k pieces changes the net cash by at most k - 1 units either way, for
    * every rate and fee between 0 and 100 percent.
    */
  lemma {:induction false} SplitNet(parts: seq<nat>, rate: Percent, fee: Percent)
    requires parts != []
    ensures var whole := Net(Cash(Sum(parts), rate), fee);
            NetOfPieces(parts, rate, fee) - (|parts| - 1) <= whole <= NetOfPieces(parts, rate, fee) + |parts| - 1
  {
    hide Cash, Net, Fee;
    var n := |parts| - 1;
    assert parts[..0] == [];
    if n == 0 {
      assert Sum(parts) == Sum(parts[..0]) + parts[0];
      assert NetOfPieces(parts, rate, fee) == NetOfPieces(parts[..0], rate, fee) + Net(Cash(parts[0], rate), fee);
    } else {
      SplitNet(parts[..n], rate, fee);
      var a, b := Cash(Sum(parts[..n]), rate), Cash(parts[n], rate);
      CashOfSum(Sum(parts[..n]), parts[n], rate);
      NetOfSum(a, b, fee);
      NetStep(a + b, fee);
    }
  }

  // ---- The reservation ledger of one item ----

  datatype Status = REQUESTED | APPROVED | DISBURSED | REJECTED

  datatype Conversion = Conversion(notional: nat, cash: nat, fee: nat, status: Status)

  datatype Policy = Policy(rate: Percent, fee: Percent, cap: Option<nat>)

  /** `inFlight` holds the amounts of requests between their balance check and their transaction. */
  datatype Item = Item(notionalValue: nat, converted: int, conversions: seq<Conversion>, inFlight: seq<nat>)

  datatype Step =
    | Check(amount: nat)   // read the balance; refuse what exceeds it or the cap
    | Reserve(request: nat) // the transaction: increment and create
    | Abandon(request: nat) // a request that dies after its check
    | Approve(i: nat)
    | Disburse(i: nat)
    | Reject(i: nat)

  /** The checks that a request passes before its transaction. */
  predicate Admitted(policy: Policy, item: Item, amount: nat) {
    && amount <= item.notionalValue - item.converted
    && (policy.cap.Some? ==> 10 * Cash(amount, policy.rate) <= policy.cap.value)
  }

  /** The checks in amounts and rates: the cap admits what its exact cash value, truncated, does not exceed. */
  lemma AdmittedExactly(policy: Policy, item: Item, amount: nat)
    ensures Admitted(policy, item, amount) <==>
            && item.converted + amount <= item.notionalValue
            && (policy.cap.Some? ==> amount * policy.rate < (policy.cap.value / 10 + 1) * 100000)
  {
    var cash := Cash(amount, policy.rate);
    ValuationBounds(amount, policy.rate, cash, policy.fee);
    if policy.cap.Some? {
      var n, e := policy.cap.value / 10, amount * policy.rate;
      assert 10 * cash <= policy.cap.value <==> cash <= n;
      ScaleOrder(n, cash, 100000);
      ScaleOrder(cash, n + 1, 100000);
    }
  }

  /** A request that goes through reserves its amount and creates one conversion, valued within a unit. */
  lemma ReservesExactly(policy: Policy, item: Item, amount: nat)
    requires item.inFlight == [] && Admitted(policy, item, amount)
    ensures var item', n := Next(policy, Next(policy, item, Check(amount)), Reserve(0)), |item.conversions|;
            && item'.converted == item.converted + amount && item'.inFlight == []
            && |item'.conversions| == n + 1 && item'.conversions[..n] == item.conversions
            && var c := item'.conversions[n];
            && c.notional == amount && c.status == REQUESTED
            && c.cash * 100000 <= amount * policy.rate < (c.cash + 1) * 100000
            && c.fee * 10000 <= c.cash * policy.fee < (c.fee + 1) * 10000
  {
    var cash := Cash(amount, policy.rate);
    ValuationBounds(amount, policy.rate, cash, policy.fee);
    hide Cash, Fee, Admitted;
    assert Without([amount], 0) == [];
  }

  function Without(xs: seq<nat>, i: nat): seq<nat>
    requires i < |xs|
  {
    xs[..i] + xs[i + 1..]
  }

  function Reserved(policy: Policy, item: Item, amount: nat): Item {
    var cash := Cash(amount, policy.rate);
    item.(converted := item.converted + amount,
    conversions := item.conversions + [Conversion(amount, cash, Fee(cash, policy.fee), REQUESTED)])
  }

  function WithStatus(item: Item, i: nat, from: set<Status>, status: Status): Item {
    if i < |item.conversions| && item.conversions[i].status in from
    then item.(conversions := item.conversions[i := item.conversions[i].(status := status)])
    else item
  }

  function Next(policy: Policy, item: Item, s: Step): Item {
    match s
    case Check(amount) =>
      if Admitted(policy, item, amount) then item.(inFlight := item.inFlight + [amount]) else item
    case Reserve(k) =>
      if k < |item.inFlight| then Reserved(policy, item, item.inFlight[k]).(inFlight := Without(item.inFlight, k))
      else item
    case Abandon(k) => if k < |item.inFlight| then item.(inFlight := Without(item.inFlight, k)) else item
    case Approve(i) => WithStatus(item, i, {REQUESTED}, APPROVED)
    case Disburse(i) => WithStatus(item, i, {APPROVED}, DISBURSED)
    case Reject(i) =>
      var item' := WithStatus(item, i, {REQUESTED, APPROVED}, REJECTED);
      if item' == item then item else item'.(converted := item.converted - item.conversions[i].notional)
  }

  /**
    * How an existing conversion moves, over all steps: approved when asked for, disbursed when
    * approved, rejected before it is disbursed; nothing else of it changes. Only the transaction of a
    * request in flight raises the reserved balance, and only a rejection lowers it.
    */
  lemma MovesExactly(policy: Policy, item: Item, s: Step, i: nat)
    requires i < |item.conversions|
    ensures var item' := Next(policy, item, s);
            && |item'.conversions| == |item.conversions| + (if s.Reserve? && s.request < |item.inFlight| then 1 else 0)
            && var c, c' := item.conversions[i], item'.conversions[i];
            && c' == c.(status := c'.status) && (c'.status != c.status ==> c'.status != REQUESTED)
            && (c'.status != c.status && c'.status == APPROVED <==> s == Approve(i) && c.status == REQUESTED)
            && (c'.status != c.status && c'.status == DISBURSED <==> s == Disburse(i) && c.status == APPROVED)
            && (c'.status != c.status && c'.status == REJECTED <==>
                s == Reject(i) && (c.status == REQUESTED || c.status == APPROVED))
            && (s == Reject(i) ==> item'.converted == item.converted - if c'.status != c.status then c.notional else 0)
    ensures s.Reserve? && s.request < |item.inFlight| ==>
              Next(policy, item, s).converted == item.converted + item.inFlight[s.request]
    ensures !s.Reserve? && !s.Reject? ==> Next(policy, item, s).converted == item.converted
    ensures (s.Reserve? || s.Abandon?) && s.request < |item.inFlight| ==>
              Next(policy, item, s).inFlight == item.inFlight[..s.request] + item.inFlight[s.request + 1..]
  {
    hide Cash, Fee, Admitted;
  }

  function NewItem(notionalValue: nat): Item {
    Item(notionalValue, 0, [], [])
  }

  function Runs(policy: Policy, notionalValue: nat, steps: seq<Step>): Item {
    if steps == [] then NewItem(notionalValue)
    else Next(policy, Runs(policy, notionalValue, steps[..|steps| - 1]), steps[|steps| - 1])
  }

  // ---- The stored item, one request at a time ----

  datatype Error = ItemNotFound | NotConvertible | ExceedsBalance(remaining: int) | OverCap | NotFound | Conflict

  /** What a guarded status change answers. */
  function MoveError(item: Item, i: nat, from: set<Status>): Option<Error> {
    if i >= |item.conversions| then Some(NotFound)
    else if item.conversions[i].status !in from then Some(Conflict)
    else None
  }

  class PackageItem {
    const policy: Policy
    const owner: nat        // the employee of the item's package
    const superseded: bool  // whether that package has been replaced
    const convertible: bool
    const notionalValue: Option<nat>
    var converted: int
    var conversions: seq<Conversion>

    function View(): Item
      reads this
    {
      Item(notionalValue.GetOr(0), converted, conversions, [])
    }

    constructor (policy: Policy, owner: nat, superseded: bool, convertible: bool, notionalValue: Option<nat>)
      ensures View() == NewItem(notionalValue.GetOr(0))
      ensures this.policy == policy && this.owner == owner && this.superseded == superseded
      ensures this.convertible == convertible && this.notionalValue == notionalValue
    {
      this.policy := policy;
      this.owner := owner;
      this.superseded := superseded;
      this.convertible := convertible;
      this.notionalValue := notionalValue;
      converted, conversions := 0, [];
    }

    /** The item as this employee's requests find it: in a current package of their own, and convertible. */
    predicate ConvertibleBy(employee: nat) {
      employee == owner && !superseded && convertible && notionalValue.Some?
    }

    /** A request that nothing interrupts is the machine's check followed by its reservation. */
    method RequestConversion(employee: nat, amount: nat) returns (e: Option<Error>)
      modifies this
      ensures ConvertibleBy(employee) ==> View() == Next(policy, Next(policy, old(View()), Check(amount)), Reserve(0))
      ensures !ConvertibleBy(employee) ==> View() == old(View())
      ensures e == Some(ItemNotFound) <==> employee != owner || superseded
      ensures e == Some(NotConvertible) <==> employee == owner && !superseded && (!convertible || notionalValue.None?)
      ensures e == None <==> ConvertibleBy(employee) && Admitted(policy, old(View()), amount)
      ensures e == Some(OverCap) ==> amount <= old(View()).notionalValue - old(converted)
      ensures match e
              case Some(ExceedsBalance(left)) => left == notionalValue.GetOr(0) - old(converted) < amount
              case _ => true
    {
      if employee != owner || superseded {
        return Some(ItemNotFound);
      }
      if !convertible || notionalValue.None? {
        return Some(NotConvertible);
      }
      var remaining := notionalValue.value - converted;
      if amount > remaining {
        return Some(ExceedsBalance(remaining));
      }
      var cash := Cash(amount, policy.rate);
      var fee := Fee(cash, policy.fee);
      if policy.cap.Some? && 10 * cash > policy.cap.value {
        return Some(OverCap);
      }
      converted := converted + amount;
      conversions := conversions + [Conversion(amount, cash, fee, REQUESTED)];
      return None;
    }

    method Approve(i: nat) returns (e: Option<Error>)
      modifies this
      ensures e == Some(NotFound) <==> i >= |old(conversions)|
      ensures e == None <==> i < |old(conversions)| && old(conversions)[i].status == REQUESTED
      ensures View() == Next(policy, old(View()), Step.Approve(i)) && e == MoveError(old(View()), i, {REQUESTED})
    {
      e := MoveError(View(), i, {REQUESTED});
      if e.None? {
        conversions := conversions[i := conversions[i].(status := APPROVED)];
      }
    }

    method MarkDisbursed(i: nat) returns (e: Option<Error>)
      modifies this
      ensures e == Some(NotFound) <==> i >= |old(conversions)|
      ensures e == None <==> i < |old(conversions)| && old(conversions)[i].status == APPROVED
      ensures View() == Next(policy, old(View()), Step.Disburse(i)) && e == MoveError(old(View()), i, {APPROVED})
    {
      e := MoveError(View(), i, {APPROVED});
      if e.None? {
        conversions := conversions[i := conversions[i].(status := DISBURSED)];
      }
    }

    method Reject(i: nat) returns (e: Option<Error>)
      modifies this
      ensures e == Some(NotFound) <==> i >= |old(conversions)|
      ensures e == None <==>
              && i < |old(conversions)|
              && (old(conversions)[i].status == REQUESTED || old(conversions)[i].status == APPROVED)
      ensures View() == Next(policy, old(View()), Step.Reject(i))
              && e == MoveError(old(View()), i, {REQUESTED, APPROVED})
    {
      e := MoveError(View(), i, {REQUESTED, APPROVED});
      if e.None? {
        converted := converted - conversions[i].notional;
        conversions := conversions[i := conversions[i].(status := REJECTED)];
      }
    }
  }

  lemma RunsLast(policy: Policy, notionalValue: nat, steps: seq<Step>)
    requires steps != []
    ensures Runs(policy, notionalValue, steps)
         == Next(policy, Runs(policy, notionalValue, steps[..|steps| - 1]), steps[|steps| - 1])
  {
  }

  // ---- What is reserved is what is live ----

  /** The notional amounts of every conversion that is not rejected. */
  function Live(conversions: seq<Conversion>): nat {
    if conversions == [] then 0
    else
      var last := conversions[|conversions| - 1];
      Live(conversions[..|conversions| - 1]) + if last.status.REJECTED? then 0 else last.notional
  }

  lemma {:induction false} LiveUpdate(conversions: seq<Conversion>, i: nat, status: Status)
    requires i < |conversions| && !conversions[i].status.REJECTED?
    ensures Live(conversions[i := conversions[i].(status := status)])
         == Live(conversions) - if status.REJECTED? then conversions[i].notional else 0
  {
    var n := |conversions| - 1;
    var updated := conversions[i := conversions[i].(status := status)];
    if i == n {
      assert updated[..n] == conversions[..n];
    } else {
      assert updated[..n] == conversions[..n][i := conversions[i].(status := status)];
      LiveUpdate(conversions[..n], i, status);
    }
  }

  lemma NextBalances(policy: Policy, item: Item, s: Step)
    requires item.converted == Live(item.conversions)
    ensures Next(policy, item, s).converted == Live(Next(policy, item, s).conversions)
  {
    var item' := Next(policy, item, s);
    if item' != item {
      match s
      case Check(_) =>
      case Abandon(_) =>
      case Reserve(_) => assert item'.conversions[..|item.conversions|] == item.conversions;
      case Approve(i) => LiveUpdate(item.conversions, i, APPROVED);
      case Disburse(i) => LiveUpdate(item.conversions, i, DISBURSED);
      case Reject(i) => LiveUpdate(item.conversions, i, REJECTED);
    }
  }

  /** In every interleaving, the reserved balance is the sum of the conversions not rejected. */
  lemma {:induction false} ReservedIsLive(policy: Policy, notionalValue: nat, steps: seq<Step>)
    ensures var item := Runs(policy, notionalValue, steps);
            item.converted == Live(item.conversions) && item.notionalValue == notionalValue
  {
    if steps != [] {
      ReservedIsLive(policy, notionalValue, steps[..|steps| - 1]);
      NextBalances(policy, Runs(policy, notionalValue, steps[..|steps| - 1]), steps[|steps| - 1]);
    }
  }

  // ---- How far requests in flight can over-convert an item ----

  lemma {:induction false} SumWithout(xs: seq<nat>, i: nat)
    requires i < |xs|
    ensures Sum(Without(xs, i)) == Sum(xs) - xs[i]
    ensures forall x <- Without(xs, i) :: x in xs
  {
    var n := |xs| - 1;
    if i == n {
      assert Without(xs, i) == xs[..n];
    } else {
      SumWithout(xs[..n], i);
      assert Without(xs, i)[..n - 1] == Without(xs[..n], i);
    }
  }

  lemma SumSnoc(xs: seq<nat>, x: nat)
    ensures Sum(xs + [x]) == Sum(xs) + x
  {
    assert (xs + [x])[..|xs|] == xs;
  }

  lemma {:induction false} SumBounded(xs: seq<nat>, bound: nat)
    requires forall i | 0 <= i < |xs| :: xs[i] <= bound
    ensures Sum(xs) <= |xs| * bound
  {
    if xs != [] {
      SumBounded(xs[..|xs| - 1], bound);
      assert |xs| * bound == (|xs| - 1) * bound + bound;
    }
  }

  /** At no point of the run are more than `k` requests between check and transaction. */
  ghost predicate AtMostInFlight(policy: Policy, notionalValue: nat, steps: seq<Step>, k: nat) {
    forall n | 0 <= n <= |steps| :: |Runs(policy, notionalValue, steps[..n]).inFlight| <= k
  }

  /** Reserved and in-flight amounts together stay within `k` times the item's value. */
  ghost predicate WithinTimes(item: Item, k: nat) {
    && 0 <= item.converted
    && (forall x <- item.inFlight :: x <= item.notionalValue)
    && item.converted + Sum(item.inFlight) <= k * item.notionalValue
  }

  lemma NextWithinTimes(policy: Policy, item: Item, s: Step, k: nat)
    requires WithinTimes(item, k) && item.converted == Live(item.conversions)
    requires |Next(policy, item, s).inFlight| <= k
    ensures WithinTimes(Next(policy, item, s), k)
  {
    hide Cash, Fee, Live, Sum, Without;
    var item' := Next(policy, item, s);
    NextBalances(policy, item, s);
    match s
    case Check(amount) =>
      if item' != item {
        SumSnoc(item.inFlight, amount);
        assert forall i | 0 <= i < |item.inFlight| :: item.inFlight[i] in item.inFlight;
        SumBounded(item.inFlight, item.notionalValue);
        ScaleOrder(k - 1, |item.inFlight|, item.notionalValue);
        assert k * item.notionalValue == (k - 1) * item.notionalValue + item.notionalValue;
      }
    case Reserve(i) => if i < |item.inFlight| { SumWithout(item.inFlight, i); }
    case Abandon(i) => if i < |item.inFlight| { SumWithout(item.inFlight, i); }
    case _ =>
  }

  /**
    * With at most `k` requests in flight at a time, the reserved balance never exceeds `k`
    * times the item's value; with one at a time it never exceeds the value itself.
    */
  lemma {:induction false} OverConversionBounded(policy: Policy, notionalValue: nat, steps: seq<Step>, k: nat)
    requires AtMostInFlight(policy, notionalValue, steps, k)
    ensures WithinTimes(Runs(policy, notionalValue, steps), k)
    ensures k == 1 ==> Runs(policy, notionalValue, steps).converted <= notionalValue
  {
    ReservedIsLive(policy, notionalValue, steps);
    if steps == [] {
      assert WithinTimes(NewItem(notionalValue), k);
    } else {
      var n := |steps| - 1;
      RunsLast(policy, notionalValue, steps);
      hide Runs, Next, WithinTimes;
      forall m | 0 <= m <= n ensures |Runs(policy, notionalValue, steps[..n][..m]).inFlight| <= k {
        assert steps[..n][..m] == steps[..m];
      }
      OverConversionBounded(policy, notionalValue, steps[..n], k);
      ReservedIsLive(policy, notionalValue, steps[..n]);
      assert steps[..|steps|] == steps;
      NextWithinTimes(policy, Runs(policy, notionalValue, steps[..n]), steps[n], k);
      WithinOnce(Runs(policy, notionalValue, steps), k);
    }
  }

  lemma WithinOnce(item: Item, k: nat)
    requires WithinTimes(item, k)
    ensures k == 1 ==> item.converted <= item.notionalValue
  {
  }

  /** `k` requests that all pass their check before any reserves. */
  function Checks(k: nat, amount: nat): seq<Step> {
    seq(k, _ => Check(amount))
  }

  function Reserves(k: nat): seq<Step> {
    seq(k, _ => Reserve(0))
  }

  lemma {:induction false} ChecksAllPass(policy: Policy, notionalValue: nat, k: nat)
    requires Admitted(policy, NewItem(notionalValue), notionalValue)
    ensures Runs(policy, notionalValue, Checks(k, notionalValue))
         == NewItem(notionalValue).(inFlight := seq(k, _ => notionalValue))
  {
    if k > 0 {
      ChecksAllPass(policy, notionalValue, k - 1);
      assert Checks(k, notionalValue)[..k - 1] == Checks(k - 1, notionalValue);
      RunsLast(policy, notionalValue, Checks(k, notionalValue));
      hide Runs, Cash;
      assert seq(k, _ => notionalValue) == seq(k - 1, _ => notionalValue) + [notionalValue];
    }
  }

  lemma ReserveFirst(policy: Policy, item: Item, left: nat, amount: nat)
    requires item.inFlight == seq(left + 1, _ => amount)
    ensures var item' := Next(policy, item, Reserve(0));
            item'.converted == item.converted + amount && item'.inFlight == seq(left, _ => amount)
  {
    assert Without(item.inFlight, 0) == seq(left, _ => amount);
  }

  /**
    * The bound is reached for every `k`, under every policy whose cap admits the item's value:
    * the check outside the transaction lets all of them reserve.
    */
  lemma {:induction false} OverConversionReached(policy: Policy, notionalValue: nat, k: nat, done: nat)
    requires Admitted(policy, NewItem(notionalValue), notionalValue) && done <= k
    ensures var item := Runs(policy, notionalValue, Checks(k, notionalValue) + Reserves(done));
            item.converted == done * notionalValue && item.inFlight == seq(k - done, _ => notionalValue)
    decreases done
  {
    hide Runs, Next, Admitted;
    var steps := Checks(k, notionalValue) + Reserves(done);
    if done == 0 {
      ChecksAllPass(policy, notionalValue, k);
      assert steps == Checks(k, notionalValue);
    } else {
      OverConversionReached(policy, notionalValue, k, done - 1);
      var before := Checks(k, notionalValue) + Reserves(done - 1);
      assert steps[..|steps| - 1] == before && steps[|steps| - 1] == Reserve(0);
      hide *;
      var item := Runs(policy, notionalValue, before);
      RunsLast(policy, notionalValue, steps);
      ReserveFirst(policy, item, k - done, notionalValue);
      assert done * notionalValue == (done - 1) * notionalValue + notionalValue;
    }
  }
}
