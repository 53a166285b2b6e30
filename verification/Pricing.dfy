/** What usage costs, in whole micro-dollars (`src/billing/pricing.rs`). */
module Pricing {
  import opened Prelude

  type u64 = x: int | 0 <= x < 0x1_0000_0000_0000_0000
  type i64 = x: int | I64_MIN <= x <= I64_MAX

  const I128_MAX: int := 0x7FFF_FFFF_FFFF_FFFF_FFFF_FFFF_FFFF_FFFF

  /** Tokens per price unit: a price is per million tokens. */
  const UNIT: int := 1_000_000

  predicate FitsI128(v: int) {
    -I128_MAX - 1 <= v <= I128_MAX
  }

  datatype Prices = Prices(input: i64, cachedInput: i64, output: i64) {
    /** The tables' CHECK on every price column. */
    predicate NonNegative() {
      input >= 0 && cachedInput >= 0 && output >= 0
    }
  }

  datatype PriceError =
    | NoPriceSnapshot
    | IncompleteUsage
    | CachedExceedsInput(inputTokens: u64, cachedTokens: u64)
    | Overflow
    | NotANumber
    | OutOfRange

  /** Rust's integer division: toward zero. */
  function TruncDiv(n: int, d: int): int
    requires d > 0
  {
    if n >= 0 then n / d else -(-n / d)
  }

  function ComponentCost(tokens: u64, price: i64): Result<i64, PriceError> {
    var product := tokens * price;
    if !FitsI128(product) || !FitsI128(product * 2) || !FitsI128(product * 2 + UNIT) then Err(Overflow)
    else
      var rounded := TruncDiv(product * 2 + UNIT, UNIT * 2);
      if FitsI64(rounded) then Ok(rounded) else Err(Overflow)
  }

  datatype LineCost = LineCost(
    uncachedInputTokens: u64, inputCost: i64, cachedInputCost: i64, outputCost: i64, total: i64)

  function Components(input: u64, cached: u64, output: u64, prices: Prices): (r: Result<(i64, i64, i64), PriceError>)
    ensures r.Ok? ==> cached <= input
  {
    if cached > input then Err(CachedExceedsInput(input, cached))
    else
      match ComponentCost(input - cached, prices.input)
      case Err(e) => Err(e)
      case Ok(a) =>
        match ComponentCost(cached, prices.cachedInput)
        case Err(e) => Err(e)
        case Ok(b) =>
          match ComponentCost(output, prices.output)
          case Err(e) => Err(e)
          case Ok(c) => Ok((a, b, c))
  }

  function LineTotal(a: i64, b: i64, c: i64, uncached: u64): Result<LineCost, PriceError> {
    if FitsI64(a + b) && FitsI64(a + b + c) then Ok(LineCost(uncached, a, b, c, a + b + c)) else Err(Overflow)
  }

  function PriceLine(input: u64, cached: u64, output: u64, prices: Prices): Result<LineCost, PriceError> {
    match Components(input, cached, output, prices)
    case Err(e) => Err(e)
    case Ok((a, b, c)) => LineTotal(a, b, c, input - cached)
  }

  /** Unreported input or output refuses; an unreported cached count is read as zero here. */
  function Billable(input: Option<u64>, output: Option<u64>, cached: Option<u64>): Result<(u64, u64, u64), PriceError> {
    if input.None? || output.None? then Err(IncompleteUsage)
    else Ok((input.value, output.value, if cached.Some? then cached.value else 0))
  }

  predicate NeedsCachedCount(prices: Prices) {
    prices.cachedInput != prices.input
  }

  // ---------------------------------------------------------------------
  // Rounding
  // ---------------------------------------------------------------------

  /** `r` is the whole number nearest to `n / d`, and a tie goes away from zero. */
  ghost predicate NearestAway(r: int, n: int, d: int)
    requires d > 0
  {
    && -d <= 2 * (r * d - n) <= d
    && (n >= 0 ==> 2 * (r * d - n) != -d)
    && (n < 0 ==> 2 * (r * d - n) != d)
  }

  lemma NearestAwayUnique(r: int, s: int, n: int)
    requires NearestAway(r, n, UNIT) && NearestAway(s, n, UNIT)
    ensures r == s
  {
  }

  /** The code's quotient, without the width checks. */
  function Rounded(product: int): int {
    TruncDiv(product * 2 + UNIT, UNIT * 2)
  }

  /** Exact condition: the rounding is half away from zero if and only if the product is above minus one half. */
  lemma RoundsAwayExactlyWhen(product: int)
    ensures NearestAway(Rounded(product), product, UNIT) <==> 2 * product > -UNIT
  {
    var n := product * 2 + UNIT;
    if n >= 0 {
      assert n == UNIT * 2 * (n / (UNIT * 2)) + n % (UNIT * 2);
    } else {
      assert -n == UNIT * 2 * (-n / (UNIT * 2)) + -n % (UNIT * 2);
    }
  }

  /** The same for the function: no caller meets the second half with a price the tables allow. */
  lemma CostRoundsAwayExactlyWhen(tokens: u64, price: i64)
    requires ComponentCost(tokens, price).Ok?
    ensures NearestAway(ComponentCost(tokens, price).value, tokens * price, UNIT) <==> 2 * tokens * price > -UNIT
  {
    RoundsAwayExactlyWhen(tokens * price);
  }

  /** A refund price rounds half a unit toward zero: one token's worth at minus one dollar costs nothing. */
  lemma NegativePriceRoundsWrong()
    ensures ComponentCost(1_000_000, -1) == Ok(0)
    ensures NearestAway(-1, 1_000_000 * -1, UNIT)
  {
  }

  lemma ProductBound(tokens: u64, price: i64)
    ensures price >= 0 ==> 0 <= tokens * price <= 0xFFFF_FFFF_FFFF_FFFF * I64_MAX
    ensures FitsI128(tokens * price)
  {
    if price >= 0 {
      MulMonotone(tokens, 0xFFFF_FFFF_FFFF_FFFF, price, I64_MAX);
    } else {
      var refund: int := 0 - price;
      MulMonotone(tokens, 0xFFFF_FFFF_FFFF_FFFF, refund, 0x8000_0000_0000_0000);
      assert tokens * price == -(tokens * refund);
    }
  }

  lemma MulMonotone(a: int, a': int, b: int, b': int)
    requires 0 <= a <= a' && 0 <= b <= b'
    ensures 0 <= a * b <= a' * b'
  {
    assert a * b <= a' * b;
    assert a' * b <= a' * b';
  }

  /**
   * For a price the tables allow, the cost is the exact quotient rounded half away from zero,
   * and it is refused exactly when that value does not fit: the intermediate `i128` checks
   * never refuse anything else.
   */
  lemma ComponentCostExact(tokens: u64, price: i64)
    requires price >= 0
    ensures NearestAway(Rounded(tokens * price), tokens * price, UNIT)
    ensures ComponentCost(tokens, price)
         == if Rounded(tokens * price) <= I64_MAX then Ok(Rounded(tokens * price)) else Err(Overflow)
  {
    ProductBound(tokens, price);
    var product := tokens * price;
    RoundsAwayExactlyWhen(product);
  }

  /** More tokens, or a higher price, never cost less; and what fits still fits when there is less of it. */
  lemma ComponentCostMonotone(tokens: u64, tokens': u64, price: i64, price': i64)
    requires tokens <= tokens' && 0 <= price <= price'
    requires ComponentCost(tokens', price').Ok?
    ensures ComponentCost(tokens, price).Ok?
    ensures 0 <= ComponentCost(tokens, price).value <= ComponentCost(tokens', price').value
  {
    ComponentCostExact(tokens, price);
    ComponentCostExact(tokens', price');
    MulMonotone(tokens, tokens', price, price');
  }

  // ---------------------------------------------------------------------
  // Lines
  // ---------------------------------------------------------------------

  /** A million times the exact cost of a line, before any rounding. */
  function Exact(input: int, cached: int, output: int, prices: Prices): int {
    (input - cached) * prices.input + cached * prices.cachedInput + output * prices.output
  }

  ghost predicate LineFits(input: int, cached: int, output: int, prices: Prices) {
    Rounded((input - cached) * prices.input) + Rounded(cached * prices.cachedInput) + Rounded(output * prices.output)
      <= I64_MAX
  }

  /** A line's parts are exact to half a unit each and add up to its total; it is refused only when they cannot. */
  lemma PriceLineExact(input: u64, cached: u64, output: u64, prices: Prices)
    requires prices.NonNegative()
    ensures var r := PriceLine(input, cached, output, prices);
      && (cached > input <==> r == Err(CachedExceedsInput(input, cached)))
      && (cached <= input ==> (r.Ok? <==> LineFits(input, cached, output, prices)))
      && (r.Err? && cached <= input ==> r == Err(Overflow))
      && (r.Ok? ==>
           && r.value.total == r.value.inputCost + r.value.cachedInputCost + r.value.outputCost
           && r.value.uncachedInputTokens == input - cached
           && NearestAway(r.value.inputCost, (input - cached) * prices.input, UNIT)
           && NearestAway(r.value.cachedInputCost, cached * prices.cachedInput, UNIT)
           && NearestAway(r.value.outputCost, output * prices.output, UNIT)
           && r.value.total >= 0)
  {
    if cached <= input {
      ComponentCostExact(input - cached, prices.input);
      ComponentCostExact(cached, prices.cachedInput);
      ComponentCostExact(output, prices.output);
      NotNegative((input - cached), prices.input);
      NotNegative(cached, prices.cachedInput);
      NotNegative(output, prices.output);
    }
  }

  lemma NotNegative(tokens: u64, price: i64)
    requires price >= 0
    ensures Rounded(tokens * price) >= 0
  {
    MulMonotone(0, tokens, 0, price);
  }

  /** A priced line is within one and a half micro-dollars of exact. */
  lemma LineWithinOneAndAHalf(input: u64, cached: u64, output: u64, prices: Prices)
    requires prices.NonNegative() && PriceLine(input, cached, output, prices).Ok?
    ensures cached <= input
    ensures -3 * UNIT <= 2 * (PriceLine(input, cached, output, prices).value.total * UNIT
                              - Exact(input, cached, output, prices)) <= 3 * UNIT
  {
    PriceLineExact(input, cached, output, prices);
  }

  /** One request's reported tokens. */
  datatype Request = Request(input: u64, cached: u64, output: u64)

  function TotalInput(rs: seq<Request>): int {
    if rs == [] then 0 else TotalInput(rs[..|rs| - 1]) + rs[|rs| - 1].input
  }

  function TotalCached(rs: seq<Request>): int {
    if rs == [] then 0 else TotalCached(rs[..|rs| - 1]) + rs[|rs| - 1].cached
  }

  function TotalOutput(rs: seq<Request>): int {
    if rs == [] then 0 else TotalOutput(rs[..|rs| - 1]) + rs[|rs| - 1].output
  }

  ghost predicate AllPriced(rs: seq<Request>, prices: Prices) {
    forall i :: 0 <= i < |rs| ==> PriceLine(rs[i].input, rs[i].cached, rs[i].output, prices).Ok?
  }

  ghost function PricedAlone(rs: seq<Request>, prices: Prices): int
    requires AllPriced(rs, prices)
  {
    if rs == [] then 0
    else
      var last := rs[|rs| - 1];
      PricedAlone(rs[..|rs| - 1], prices) + PriceLine(last.input, last.cached, last.output, prices).value.total
  }

  lemma {:induction false} RequestsAddUp(rs: seq<Request>, prices: Prices)
    requires prices.NonNegative() && AllPriced(rs, prices)
    ensures 0 <= TotalCached(rs) <= TotalInput(rs) && 0 <= TotalOutput(rs)
    ensures var exact := Exact(TotalInput(rs), TotalCached(rs), TotalOutput(rs), prices);
      -3 * |rs| * UNIT <= 2 * (PricedAlone(rs, prices) * UNIT - exact) <= 3 * |rs| * UNIT
  {
    if rs != [] {
      var most, last := rs[..|rs| - 1], rs[|rs| - 1];
      RequestsAddUp(most, prices);
      LineWithinOneAndAHalf(last.input, last.cached, last.output, prices);
      ExactAddsUp(TotalInput(most), TotalCached(most), TotalOutput(most), last.input, last.cached, last.output, prices);
    }
  }

  lemma ExactAddsUp(i: int, c: int, o: int, i': int, c': int, o': int, prices: Prices)
    ensures Exact(i + i', c + c', o + o', prices) == Exact(i, c, o, prices) + Exact(i', c', o', prices)
  {
    Distribute(i - c, i' - c', prices.input);
    Distribute(c, c', prices.cachedInput);
    Distribute(o, o', prices.output);
  }

  lemma Distribute(a: int, b: int, c: int)
    ensures (a + b) * c == a * c + b * c
  {
  }

  /**
   * Summing tokens before pricing moves a line's amount by at most three halves of a micro-dollar
   * per request, and one more.
   */
  lemma GroupedVersusAlone(rs: seq<Request>, prices: Prices)
    requires prices.NonNegative() && AllPriced(rs, prices)
    requires TotalInput(rs) <= 0xFFFF_FFFF_FFFF_FFFF && TotalOutput(rs) <= 0xFFFF_FFFF_FFFF_FFFF
    ensures 0 <= TotalCached(rs) <= TotalInput(rs) && 0 <= TotalOutput(rs)
    ensures var line := PriceLine(TotalInput(rs), TotalCached(rs), TotalOutput(rs), prices);
      line.Ok? ==> -3 * (|rs| + 1) <= 2 * (line.value.total - PricedAlone(rs, prices)) <= 3 * (|rs| + 1)
  {
    RequestsAddUp(rs, prices);
    if PriceLine(TotalInput(rs), TotalCached(rs), TotalOutput(rs), prices).Ok? {
      LineWithinOneAndAHalf(TotalInput(rs), TotalCached(rs), TotalOutput(rs), prices);
    }
  }

  lemma TotalsSnoc(rs: seq<Request>, r: Request)
    ensures TotalInput(rs + [r]) == TotalInput(rs) + r.input
    ensures TotalCached(rs + [r]) == TotalCached(rs) + r.cached
    ensures TotalOutput(rs + [r]) == TotalOutput(rs) + r.output
  {
    assert (rs + [r])[..|rs|] == rs;
  }

  /** What fits together fits one by one: a request is no larger than the total it is part of. */
  lemma PartsFit(rs: seq<Request>, prices: Prices)
    requires prices.NonNegative() && forall i :: 0 <= i < |rs| ==> rs[i].cached <= rs[i].input
    requires TotalInput(rs) <= 0xFFFF_FFFF_FFFF_FFFF && TotalOutput(rs) <= 0xFFFF_FFFF_FFFF_FFFF
    requires 0 <= TotalCached(rs) <= TotalInput(rs) && 0 <= TotalOutput(rs)
    requires PriceLine(TotalInput(rs), TotalCached(rs), TotalOutput(rs), prices).Ok?
    ensures AllPriced(rs, prices)
  {
    forall i | 0 <= i < |rs| ensures PriceLine(rs[i].input, rs[i].cached, rs[i].output, prices).Ok? {
      PartOfTotal(rs, i);
      PartFits(rs[i], TotalInput(rs), TotalCached(rs), TotalOutput(rs), prices);
    }
  }

  lemma {:induction false} PartOfTotal(rs: seq<Request>, i: nat)
    requires i < |rs| && forall j :: 0 <= j < |rs| ==> rs[j].cached <= rs[j].input
    ensures rs[i].cached <= TotalCached(rs) && rs[i].output <= TotalOutput(rs)
    ensures rs[i].input - rs[i].cached <= TotalInput(rs) - TotalCached(rs)
  {
    var n := |rs| - 1;
    if i < n {
      PartOfTotal(rs[..n], i);
    } else {
      NoneNegative(rs[..n]);
    }
  }

  lemma {:induction false} NoneNegative(rs: seq<Request>)
    requires forall j :: 0 <= j < |rs| ==> rs[j].cached <= rs[j].input
    ensures 0 <= TotalCached(rs) <= TotalInput(rs) && 0 <= TotalOutput(rs)
  {
    if rs != [] {
      NoneNegative(rs[..|rs| - 1]);
    }
  }

  lemma PartFits(r: Request, input: u64, cached: u64, output: u64, prices: Prices)
    requires prices.NonNegative() && r.cached <= r.input && cached <= input
    requires r.cached <= cached && r.output <= output && r.input - r.cached <= input - cached
    requires PriceLine(input, cached, output, prices).Ok?
    ensures PriceLine(r.input, r.cached, r.output, prices).Ok?
  {
    PriceLineExact(input, cached, output, prices);
    PriceLineExact(r.input, r.cached, r.output, prices);
    LineFitsLess(r, input, cached, output, prices);
  }

  lemma LineFitsLess(r: Request, input: nat, cached: nat, output: nat, prices: Prices)
    requires prices.NonNegative() && r.cached <= r.input && cached <= input
    requires r.cached <= cached && r.output <= output && r.input - r.cached <= input - cached
    requires LineFits(input, cached, output, prices)
    ensures LineFits(r.input, r.cached, r.output, prices)
  {
    RoundedMonotone(r.input - r.cached, input - cached, prices.input);
    RoundedMonotone(r.cached, cached, prices.cachedInput);
    RoundedMonotone(r.output, output, prices.output);
  }

  lemma RoundedMonotone(a: nat, b: nat, price: i64)
    requires a <= b && price >= 0
    ensures Rounded(a * price) <= Rounded(b * price)
  {
    MulMonotone(a, b, price, price);
    RoundedGrows(a * price, b * price);
  }

  lemma RoundedGrows(m: nat, n: nat)
    requires m <= n
    ensures Rounded(m) <= Rounded(n)
  {
  }
}
