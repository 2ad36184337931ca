/**
  * Treasury yield: the sweep of idle balance into the yield asset and back, the receipt of a
  * position and the attribution report. Amounts are whole units of 1e-8, fee rates whole
  * hundredths of a basis point; products and quotients before a rounding are exact.
  */
module Yield {
  import opened Results
  import opened Money

  const FEE_SCALE: nat := 1000000
  const MS_PER_YEAR: nat := 31536000000
  const CENT: nat := 1000000

  type FeeRate = b: nat | b <= 1000000

  /** `q` is the quotient of `n` by `d` rounded to the nearest whole number, halves up. */
  predicate Rounds(q: int, n: int, d: int) {
    (2 * q - 1) * d <= 2 * n < (2 * q + 1) * d
  }

  /** What toFixed computes on a non-negative quotient. */
  function HalfUp(n: nat, d: nat): (q: nat)
    requires d > 0
    ensures Rounds(q, n, d)
  {
    var q := Quotient(2 * n + d, 2 * d);
    assert q * (2 * d) == (2 * q - 1) * d + d && (q + 1) * (2 * d) == (2 * q + 1) * d + d;
    q
  }

  lemma RoundsUnique(p: nat, q: nat, n: nat, d: nat)
    requires Rounds(p, n, d) && Rounds(q, n, d)
    ensures p == q
  {
    LessProduct(2 * p - 1, 2 * q + 1, d);
    LessProduct(2 * q - 1, 2 * p + 1, d);
  }

  /** A numerator is half way between two results exactly when it is an odd multiple of half the denominator. */
  lemma TieExact(p: nat, n: nat, d: nat)
    requires d > 0 && Rounds(p, n, d)
    ensures 2 * (n % d) == d <==> 2 * n == (2 * p - 1) * d
  {
    var a := n / d;
    assert n == a * d + n % d;
    if 2 * (n % d) == d {
      TieRounds(p, n, d, a);
    }
    if 2 * n == (2 * p - 1) * d {
      OddMultiple(p, d);
      hide Rounds;
      QuotientUnique(n, d, p - 1);
      assert a == p - 1;
    }
  }

  lemma OddMultiple(p: int, d: nat)
    ensures (2 * p - 1) * d == 2 * ((p - 1) * d) + d
    ensures p * d == (p - 1) * d + d
    ensures (2 * p + 1) * d == 2 * (p * d) + d
  {
  }

  lemma TieRounds(p: nat, n: nat, d: nat, a: nat)
    requires d > 0 && Rounds(p, n, d) && 2 * n == 2 * (a * d) + d
    ensures 2 * n == (2 * p - 1) * d
  {
    OddMultiple(a, d);
    OddMultiple(a + 1, d);
    RoundsUnique(p, a + 1, n, d);
  }

  /** Two parts of a whole, each rounded half up, exceed the whole by one exactly at a tie. */
  lemma PartsOfWhole(p: nat, q: nat, n: nat, m: nat, whole: nat, d: nat)
    requires d > 0 && n + m == whole * d
    requires Rounds(p, n, d) && Rounds(q, m, d)
    ensures p + q == whole + if 2 * (n % d) == d then 1 else 0
  {
    TieExact(p, n, d);
    OddMultiple(p, d);
    OddMultiple(q, d);
    assert p * d + q * d == (p + q) * d;
    hide *;
    if 2 * (n % d) == d {
      LessProduct(whole, p + q, d);
    } else {
      assert (whole + 1) * d == whole * d + d;
      LessProduct(p + q, whole + 1, d);
    }
    assert (p + q + 1) * d == (p + q) * d + d && (whole + 2) * d == whole * d + 2 * d;
    LessProduct(whole, p + q + 1, d);
    LessProduct(p + q, whole + 2, d);
  }

  // ---- Swap, accrual, eligibility ----

  /** A one to one swap less five basis points. */
  function SwapReceived(from: nat): nat {
    HalfUp(from * 9995, 10000)
  }

  function SwapSlippage(from: nat): nat {
    HalfUp(from * 5, 10000)
  }

  /** What a swap says was received and lost adds up to what went in, except at a tie. */
  lemma SwapConserves(from: nat)
    ensures SwapReceived(from) + SwapSlippage(from) == from <==> from % 2000 != 1000
    ensures from <= SwapReceived(from) + SwapSlippage(from) <= from + 1
  {
    PartsOfWhole(SwapSlippage(from), SwapReceived(from), from * 5, from * 9995, from, 10000);
    FiveTimesMod(from);
    hide *;
  }

  lemma FiveTimesMod(x: nat)
    ensures x * 5 % 10000 == 5 * (x % 2000)
  {
    var q, m := x / 2000, x % 2000;
    assert x * 5 == q * 10000 + 5 * m && 0 <= 5 * m < 10000;
    assert x * 5 / 10000 == q;
  }

  /** Five per cent a year, linear in the time held; nothing for a hold that is not positive. */
  function AccrueYield(principal: nat, heldMs: int): nat {
    if heldMs <= 0 then 0 else HalfUp(principal * 500 * heldMs, 10000 * MS_PER_YEAR)
  }

  /** A twentieth of the principal for a year held, in proportion, to the nearest unit. */
  lemma AccrualRate(principal: nat, heldMs: nat)
    ensures Rounds(AccrueYield(principal, heldMs), principal * heldMs, 20 * MS_PER_YEAR)
    ensures Rounds(AccrueYield(principal, MS_PER_YEAR), principal, 20) && MS_PER_YEAR == 365 * 24 * 3600 * 1000
  {
    ScaleRounds(AccrueYield(principal, heldMs), principal * heldMs, 20 * MS_PER_YEAR, 500);
    assert principal * 500 * heldMs == 500 * (principal * heldMs);
    ScaleRounds(AccrueYield(principal, MS_PER_YEAR), principal, 20, 500 * MS_PER_YEAR);
  }

  lemma ScaleRounds(q: nat, n: nat, d: nat, k: nat)
    requires k > 0
    ensures Rounds(q, k * n, k * d) <==> Rounds(q, n, d)
  {
    Reassociate(2 * q - 1, d, k);
    Reassociate(2 * q + 1, d, k);
    Reassociate(2, n, k);
    OrderScales((2 * q - 1) * d, 2 * n, k);
    OrderScales(2 * n, (2 * q + 1) * d, k);
  }

  lemma Reassociate(a: int, b: int, k: int)
    ensures a * (k * b) == (a * b) * k
  {
  }

  lemma OrderScales(a: int, b: int, k: nat)
    requires k > 0
    ensures a * k <= b * k <==> a <= b
    ensures a * k < b * k <==> a < b
  {
    assert b * k == a * k + (b - a) * k;
    ScaleOrder(b, a, k);
    ScaleOrder(a, b, k);
    ScaleOrder(b, a + 1, k);
    ScaleOrder(a, b + 1, k);
    assert (a + 1) * k == a * k + k && (b + 1) * k == b * k + k;
  }

  /** Two quotients at most half a unit apart round to within one unit. */
  lemma HalfUnitApart(p: nat, q: nat, a: nat, b: nat, n: nat, d: nat)
    requires b > 0 && d > 0 && Rounds(p, a, b) && Rounds(q, n, d)
    requires -(b * d) <= 2 * (a * d - n * b) <= b * d
    ensures q - 1 <= p <= q + 1
  {
    var unit := b * d;
    OrderScales((2 * p - 1) * b, 2 * a, d);
    OrderScales(2 * a, (2 * p + 1) * b, d);
    OrderScales((2 * q - 1) * d, 2 * n, b);
    OrderScales(2 * n, (2 * q + 1) * d, b);
    hide Rounds;
    Units(2 * p - 1, b, d);
    Units(2 * p + 1, b, d);
    Units(2 * q - 1, d, b);
    Units(2 * q + 1, d, b);
    Units(2, a, d);
    Units(2, n, b);
    assert (2 * p - 1) * unit <= (2 * q + 1) * unit + unit && (2 * q - 1) * unit <= (2 * p + 1) * unit + unit;
    assert (2 * q + 1) * unit + unit == (2 * q + 2) * unit && (2 * p + 1) * unit + unit == (2 * p + 2) * unit;
    OrderScales(2 * p - 1, 2 * q + 2, unit);
    OrderScales(2 * q - 1, 2 * p + 2, unit);
  }

  lemma Units(k: int, b: nat, d: nat)
    ensures (k * b) * d == k * (b * d) == k * (d * b)
  {
  }

  /** Five thousand million whole coins. */
  const PRECISE: nat := 500_000_000_000_000_000

  /**
    * The library rounds the held fraction and the products to 20 significant digits. If the value
    * a / b it formats is off by one part in 1e18 at most, and the yield is at most 5e17 units, the
    * result is the exact formula's to within one unit.
    */
  lemma AccrualWithinPrecision(principal: nat, heldMs: nat, a: nat, b: nat)
    requires b > 0
    requires var n, d := principal * 500 * heldMs, 10000 * MS_PER_YEAR;
             && -(n * b) <= 1000000000000000000 * (a * d - n * b) <= n * b
             && n <= PRECISE * d
    ensures AccrueYield(principal, heldMs) - 1 <= HalfUp(a, b) <= AccrueYield(principal, heldMs) + 1
  {
    var n, d := principal * 500 * heldMs, 10000 * MS_PER_YEAR;
    ScaleOrder(PRECISE * d, n, b);
    assert (PRECISE * d) * b == PRECISE * (b * d);
    if heldMs > 0 {
      HalfUnitApart(HalfUp(a, b), AccrueYield(principal, heldMs), a, b, n, d);
    } else {
      assert n == 0 && a * d == 0;
    }
  }

  /** Interrupting a hold changes what it accrues by at most one unit. */
  lemma AccrualAdds(principal: nat, a: nat, b: nat)
    ensures var parts, whole := AccrueYield(principal, a) + AccrueYield(principal, b), AccrueYield(principal, a + b);
            whole - 1 <= parts <= whole + 1
  {
    hide Rounds, AccrueYield;
    AccrualRate(principal, a);
    AccrualRate(principal, b);
    AccrualRate(principal, a + b);
    assert principal * (a + b) == principal * a + principal * b;
    SumOfRounded(AccrueYield(principal, a), AccrueYield(principal, b), AccrueYield(principal, a + b),
                 principal * a, principal * b, 20 * MS_PER_YEAR);
  }

  lemma SumOfRounded(p: nat, q: nat, s: nat, n: nat, m: nat, d: nat)
    requires d > 0 && Rounds(p, n, d) && Rounds(q, m, d) && Rounds(s, n + m, d)
    ensures s - 1 <= p + q <= s + 1
  {
    assert (2 * p - 1) * d + (2 * q - 1) * d == (2 * (p + q) - 2) * d;
    assert (2 * p + 1) * d + (2 * q + 1) * d == (2 * (p + q) + 2) * d;
    LessProduct(2 * (p + q) - 2, 2 * s + 1, d);
    LessProduct(2 * s - 1, 2 * (p + q) + 2, d);
  }

  datatype Config = Config(enabled: bool, asset: string, minIdleBuffer: nat, sweepThreshold: nat, feeBps: FeeRate)

  datatype Reason = Disabled | WithinBuffer | BelowThreshold

  function SweepAmount(source: int, config: Config): (r: Result<nat, Reason>)
    ensures r.Ok? <==>
            && config.enabled
            && source - config.minIdleBuffer >= if config.sweepThreshold > 0 then config.sweepThreshold else 1
    ensures r.Ok? ==> r.value > 0 && r.value + config.minIdleBuffer == source
    ensures r == Err(Disabled) <==> !config.enabled
    ensures r == Err(WithinBuffer) <==> config.enabled && source <= config.minIdleBuffer
  {
    var eligible := source - config.minIdleBuffer;
    if !config.enabled then Err(Disabled)
    else if eligible <= 0 then Err(WithinBuffer)
    else if eligible < config.sweepThreshold then Err(BelowThreshold)
    else Ok(eligible)
  }

  // ---- Positions ----

  /** Swept in, swept out, or failed to unwind and served from the buffer. */
  datatype Holding = Held | Returned | FellBack

  datatype Position = Position(holding: Holding, asset: string, principal: nat, sweptIn: nat, sweptOut: Option<nat>,
                               accrued: nat, fee: nat, feeBps: FeeRate)

  function Open(principal: nat, config: Config): Position {
    Position(Held, config.asset, principal, SwapReceived(principal), None, 0, 0, config.feeBps)
  }

  function FeeOn(accrued: nat, feeBps: FeeRate): nat {
    HalfUp(accrued * feeBps, FEE_SCALE)
  }

  function Unwind(p: Position, heldMs: int): Position {
    var accrued := AccrueYield(p.principal, heldMs);
    p.(holding := Returned, accrued := accrued, fee := FeeOn(accrued, p.feeBps),
    sweptOut := Some(SwapReceived(p.principal + accrued)))
  }

  /** The guarded update of a sweep-out: the columns computed from the position it read. */
  function Close(p: Position, prepared: Position): Position {
    p.(holding := Returned, accrued := prepared.accrued, fee := prepared.fee, sweptOut := prepared.sweptOut)
  }

  /** The unguarded failure update writes the state column alone. */
  function FallBack(p: Position): Position {
    p.(holding := FellBack)
  }

  /** The columns fixed when the position was opened. */
  predicate SameTerms(p: Position, q: Position) {
    p.asset == q.asset && p.principal == q.principal && p.sweptIn == q.sweptIn && p.feeBps == q.feeBps
  }

  /** What a stored position means, in terms of its own columns only. A failed one may carry an unwind. */
  predicate Booked(p: Position) {
    && p.principal > 0
    && Rounds(p.sweptIn, p.principal * 9995, 10000)
    && Rounds(p.fee, p.accrued * p.feeBps, 1_000_000)
    && (match p.sweptOut
        case Some(back) => p.holding != Held && Rounds(back, (p.principal + p.accrued) * 9995, 10000)
        case None => p.holding != Returned && p.accrued == 0)
  }

  /** A position as opened: held, at the rate and in the asset configured then, with nothing accrued. */
  lemma OpenIsBooked(principal: nat, config: Config)
    requires principal > 0
    ensures var p := Open(principal, config);
            && Booked(p) && p.holding == Held && p.principal == principal
            && p.asset == config.asset && p.feeBps == config.feeBps && p.accrued == 0 && p.sweptOut == None
  {
  }

  /**
    * What unwinding a position computes from its principal, rate and time held: the accrued yield,
    * the fee on it, and principal with yield swapped back; its terms stay.
    */
  lemma UnwindExactly(p: Position, heldMs: int)
    ensures var q, held: nat := Unwind(p, heldMs), if heldMs > 0 then heldMs else 0;
            && q.holding == Returned && SameTerms(p, q)
            && Rounds(q.accrued, p.principal * held, 20 * 31_536_000_000)
            && Rounds(q.fee, q.accrued * p.feeBps, 1_000_000)
            && match q.sweptOut
               case Some(back) => Rounds(back, (p.principal + q.accrued) * 9995, 10000)
               case None => false
  {
    AccrualRate(p.principal, if heldMs > 0 then heldMs else 0);
    UnwindTerms(p, heldMs);
    hide AccrueYield, HalfUp, Rounds;
  }

  lemma UnwindIsBooked(p: Position, heldMs: int)
    requires Booked(p)
    ensures Booked(Unwind(p, heldMs))
  {
    hide AccrueYield, HalfUp, Rounds;
  }

  lemma UnwindTerms(p: Position, heldMs: int)
    ensures SameTerms(p, Unwind(p, heldMs)) && Unwind(p, heldMs).holding == Returned
  {
    hide AccrueYield, FeeOn, SwapReceived;
  }

  /** While the terms are the same, the guarded update writes exactly the prepared position. */
  lemma CloseIsPrepared(p: Position, prepared: Position)
    requires SameTerms(p, prepared) && prepared.holding == Returned
    ensures Close(p, prepared) == prepared
  {
  }

  lemma FallBackIsBooked(p: Position)
    requires Booked(p)
    ensures Booked(FallBack(p))
  {
  }

  // ---- Receipt and report row ----

  /** The receipt derives fee, net and slippage again from the stored columns. */
  datatype Receipt = Receipt(principal: nat, accrued: nat, platformFee: nat, netYield: nat, slippage: int)

  function YieldBlock(p: Position): Receipt {
    var inSlip := p.principal - p.sweptIn;
    var outSlip := if p.sweptOut.Some? then p.principal + p.accrued - p.sweptOut.value else 0;
    Receipt(ToCents(p.principal), p.accrued, FeeOn(p.accrued, p.feeBps), NetOf(p.accrued, p.feeBps), inSlip + outSlip)
  }

  /** The accrued yield less the exact fee, rounded once. */
  function NetOf(accrued: nat, feeBps: FeeRate): nat {
    HalfUp(accrued * (FEE_SCALE - feeBps), FEE_SCALE)
  }

  /** Rounded to two decimals. */
  function ToCents(x: nat): nat {
    HalfUp(x, CENT) * CENT
  }

  /** Whole cents, at most half a cent off. */
  lemma CentsExactly(x: nat)
    ensures ToCents(x) % 1_000_000 == 0 && -1_000_000 < 2 * (ToCents(x) - x) <= 1_000_000
  {
  }

  datatype Row = Row(asset: string, principal: nat, accrued: nat, platformFee: nat, netYield: int)

  function ToRow(p: Position): Row {
    Row(p.asset, ToCents(p.principal), p.accrued, p.fee, p.accrued - p.fee)
  }

  /** The legs taken together cost five basis points of what crossed them, within one unit of 1e-8. */
  lemma RoundTripSlippage(p: Position)
    requires Booked(p)
    ensures var crossed := p.principal + if p.sweptOut.Some? then p.principal + p.accrued else 0;
            -10000 <= 10000 * YieldBlock(p).slippage - 5 * crossed < 10000
  {
    hide FeeOn, NetOf, ToCents;
  }

  /**
    * The report's fee and net add up to the accrued yield exactly. The receipt's fee is the
    * stored one; its net is the report's, or one unit above it exactly when the fee was a tie.
    */
  lemma NetsAgree(p: Position)
    requires Booked(p)
    ensures YieldBlock(p).platformFee == ToRow(p).platformFee
    ensures YieldBlock(p).accrued == ToRow(p).accrued == p.accrued && ToRow(p).asset == p.asset
    ensures YieldBlock(p).principal == ToRow(p).principal == ToCents(p.principal)
    ensures 0 <= ToRow(p).netYield && ToRow(p).platformFee + ToRow(p).netYield == p.accrued
    ensures YieldBlock(p).netYield - ToRow(p).netYield ==
            if 2 * (p.accrued * p.feeBps % FEE_SCALE) == FEE_SCALE then 1 else 0
  {
    hide HalfUp, Rounds;
    var kept: nat := FEE_SCALE - p.feeBps;
    assert p.accrued * p.feeBps + p.accrued * kept == p.accrued * FEE_SCALE;
    RoundsUnique(FeeOn(p.accrued, p.feeBps), p.fee, p.accrued * p.feeBps, FEE_SCALE);
    PartsOfWhole(p.fee, NetOf(p.accrued, p.feeBps), p.accrued * p.feeBps, p.accrued * kept, p.accrued, FEE_SCALE);
    FeeWithin(p.fee, p.accrued, p.feeBps);
  }

  lemma FeeWithin(fee: nat, accrued: nat, feeBps: FeeRate)
    requires Rounds(fee, accrued * feeBps, FEE_SCALE)
    ensures fee <= accrued
  {
    ScaleOrder(FEE_SCALE, feeBps, accrued);
    assert (2 * fee - 1) * FEE_SCALE <= (2 * accrued) * FEE_SCALE;
  }

  // ---- Totals by asset ----

  datatype Total = Total(principal: nat, accrued: nat, fee: nat)

  const NOTHING := Total(0, 0, 0)

  function Plus(t: Total, r: Row): Total {
    Total(t.principal + r.principal, t.accrued + r.accrued, t.fee + r.platformFee)
  }

  /** The sum of an asset's rows. */
  function TotalOf(rows: seq<Row>, asset: string): Total {
    if rows == [] then NOTHING
    else
      var before, last := TotalOf(rows[..|rows| - 1], asset), rows[|rows| - 1];
      if last.asset == asset then Plus(before, last) else before
  }

  method AccumulateByAsset(rows: seq<Row>) returns (totals: map<string, Total>)
    ensures totals.Keys == set r <- rows :: r.asset
    ensures forall asset <- totals :: totals[asset] == TotalOf(rows, asset)
  {
    totals := map[];
    for i := 0 to |rows|
      invariant totals.Keys == set r <- rows[..i] :: r.asset
      invariant forall asset :: TotalOf(rows[..i], asset) == if asset in totals then totals[asset] else NOTHING
    {
      assert rows[..i + 1][..i] == rows[..i] && rows[..i + 1] == rows[..i] + [rows[i]];
      var current := if rows[i].asset in totals then totals[rows[i].asset] else NOTHING;
      totals := totals[rows[i].asset := Plus(current, rows[i])];
    }
    assert rows[..|rows|] == rows;
  }

  function OfAsset(ps: seq<Position>, asset: string): seq<Position> {
    if ps == [] then []
    else OfAsset(ps[..|ps| - 1], asset) + if ps[|ps| - 1].asset == asset then [ps[|ps| - 1]] else []
  }

  function SumPrincipal(ps: seq<Position>): nat {
    if ps == [] then 0 else SumPrincipal(ps[..|ps| - 1]) + ps[|ps| - 1].principal
  }

  function SumNet(ps: seq<Position>): int {
    if ps == [] then 0 else SumNet(ps[..|ps| - 1]) + ToRow(ps[|ps| - 1]).netYield
  }

  function Rows(ps: seq<Position>): seq<Row> {
    seq(|ps|, i requires 0 <= i < |ps| => ToRow(ps[i]))
  }

  /**
    * An asset's total net is the sum of its rows' nets exactly; its total principal, summed
    * over rounded rows, is off by at most half a cent a position.
    */
  lemma {:induction false} TotalsFollowPositions(ps: seq<Position>, asset: string)
    ensures var t, own := TotalOf(Rows(ps), asset), OfAsset(ps, asset);
            && t.accrued - t.fee == SumNet(own)
            && -|own| * CENT <= 2 * (t.principal - SumPrincipal(own)) <= |own| * CENT
  {
    if ps != [] {
      var rest, last := ps[..|ps| - 1], ps[|ps| - 1];
      TotalsFollowPositions(rest, asset);
      assert Rows(ps)[..|ps| - 1] == Rows(rest) && Rows(ps)[|ps| - 1] == ToRow(last);
      var own := OfAsset(rest, asset);
      assert (own + [last])[..|own|] == own && own + [] == own;
    }
  }
}
