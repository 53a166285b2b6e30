/**
 * A day of usage turned into a statement draft: the database's grouping (`src/billing/store.rs`)
 * and the generator's loop over its groups (`src/billing/statements.rs`).
 */
module Usage {
  import opened Prelude
  import opened Period
  import opened Pricing
  import opened Generator

  // ---------------------------------------------------------------------
  // Usage rows and their grouping
  // ---------------------------------------------------------------------

  /** One metered request. `at` is when it was accepted; tokens and prices may be unreported. */
  datatype UsageRow = UsageRow(
    consumer: string, at: int, model: string,
    inputPrice: Option<i64>, cachedPrice: Option<i64>, outputPrice: Option<i64>,
    input: Option<i64>, cached: Option<i64>, output: Option<i64>)

  datatype Key = Key(model: string, inputPrice: Option<i64>, cachedPrice: Option<i64>, outputPrice: Option<i64>)

  function KeyOf(row: UsageRow): Key {
    Key(row.model, row.inputPrice, row.cachedPrice, row.outputPrice)
  }

  datatype Column = Input | Cached | Output

  function Get(row: UsageRow, column: Column): Option<i64> {
    match column
    case Input => row.input
    case Cached => row.cached
    case Output => row.output
  }

  function OrZero(v: Option<int>): int {
    if v.Some? then v.value else 0
  }

  /** The `billable` column: reported in full, priced in full, and believable. */
  predicate IsBillable(row: UsageRow) {
    && row.input.Some? && row.input.value >= 0
    && row.output.Some? && row.output.value >= 0
    && row.inputPrice.Some? && row.cachedPrice.Some? && row.outputPrice.Some?
    && (row.cachedPrice.value == row.inputPrice.value || row.cached.Some?)
    && 0 <= OrZero(row.cached) <= row.input.value
  }

  /** `SUM(column) FILTER (WHERE billable)`: absent when no billable row reports the column. */
  function SumOf(rows: seq<UsageRow>, column: Column): Option<int> {
    if rows == [] then None
    else
      var rest, last := SumOf(rows[..|rows| - 1], column), rows[|rows| - 1];
      if !IsBillable(last) || Get(last, column).None? then rest
      else Some(OrZero(rest) + Get(last, column).value)
  }

  function CountBillable(rows: seq<UsageRow>): (n: nat)
    ensures n <= |rows|
  {
    if rows == [] then 0
    else CountBillable(rows[..|rows| - 1]) + (if IsBillable(rows[|rows| - 1]) then 1 else 0)
  }

  /** The price snapshot of a grouping key: present only when all three columns are. */
  function SnapshotOf(k: Key): Option<Prices> {
    if k.inputPrice.Some? && k.cachedPrice.Some? && k.outputPrice.Some?
    then Some(Prices(k.inputPrice.value, k.cachedPrice.value, k.outputPrice.value)) else None
  }

  datatype UsageGroup = UsageGroup(
    model: string, prices: Option<Prices>, requestCount: nat,
    input: Option<int>, cached: Option<int>, output: Option<int>, incompleteCount: nat)

  function Aggregate(k: Key, rows: seq<UsageRow>): UsageGroup {
    UsageGroup(k.model, SnapshotOf(k), CountBillable(rows),
      SumOf(rows, Input), SumOf(rows, Cached), SumOf(rows, Output), |rows| - CountBillable(rows))
  }

  function WithKey(rows: seq<UsageRow>, k: Key): seq<UsageRow> {
    if rows == [] then []
    else WithKey(rows[..|rows| - 1], k) + (if KeyOf(rows[|rows| - 1]) == k then [rows[|rows| - 1]] else [])
  }

  /** Any enumeration of the keys present, each once: the database's `ORDER BY` is one of them. */
  ghost predicate IsKeyList(keys: seq<Key>, rows: seq<UsageRow>) {
    && (forall i, j :: 0 <= i < j < |keys| ==> keys[i] != keys[j])
    && (forall i :: 0 <= i < |rows| ==> KeyOf(rows[i]) in keys)
  }

  function GroupsBy(keys: seq<Key>, rows: seq<UsageRow>): (groups: seq<UsageGroup>)
    ensures |groups| == |keys|
  {
    if keys == [] then []
    else GroupsBy(keys[..|keys| - 1], rows) + [Aggregate(keys[|keys| - 1], WithKey(rows, keys[|keys| - 1]))]
  }

  /** The rows a statement is about: one consumer's, accepted inside the day. */
  function RowsOfDay(ledger: seq<UsageRow>, consumer: string, day: Day, tz: Timezone): seq<UsageRow> {
    if ledger == [] then []
    else
      var last := ledger[|ledger| - 1];
      RowsOfDay(ledger[..|ledger| - 1], consumer, day, tz)
      + (if last.consumer == consumer && Contains(day, tz, last.at) then [last] else [])
  }

  /** They are the ledger's rows of that consumer that were accepted on that day. */
  lemma {:induction false} RowsOfDayExactly(ledger: seq<UsageRow>, consumer: string, day: Day, tz: Timezone,
                                            row: UsageRow)
    ensures row in RowsOfDay(ledger, consumer, day, tz)
       <==> row in ledger && row.consumer == consumer && DayOf(row.at, tz) == day
  {
    if ledger != [] {
      var most, last := ledger[..|ledger| - 1], ledger[|ledger| - 1];
      RowsOfDayExactly(most, consumer, day, tz, row);
      ContainsExactly(day, tz, last.at);
      assert row in ledger <==> row in most || row == last;
    }
  }

  lemma {:induction false} WithKeyExactly(rows: seq<UsageRow>, k: Key, row: UsageRow)
    ensures row in WithKey(rows, k) <==> row in rows && KeyOf(row) == k
  {
    if rows != [] {
      var most, last := rows[..|rows| - 1], rows[|rows| - 1];
      WithKeyExactly(most, k, row);
      assert row in rows <==> row in most || row == last;
    }
  }

  /** The database raises an error instead of overflowing a `SUM`. */
  predicate SumsFit(groups: seq<UsageGroup>) {
    forall i :: 0 <= i < |groups| ==>
      && FitsI64(OrZero(groups[i].input)) && FitsI64(OrZero(groups[i].cached)) && FitsI64(OrZero(groups[i].output))
  }

  // ---------------------------------------------------------------------
  // Pricing one group
  // ---------------------------------------------------------------------

  datatype IncompleteReason = UsageMissing | CachedCountMissing | NoSnapshot | CachedTooMany | TooLarge

  function ReasonFor(e: PriceError): IncompleteReason {
    match e
    case NoPriceSnapshot => NoSnapshot
    case IncompleteUsage => UsageMissing
    case CachedExceedsInput(_, _) => CachedTooMany
    case Overflow => TooLarge
    case NotANumber => NoSnapshot
    case OutOfRange => NoSnapshot
  }

  datatype Line = Line(
    model: string, prices: Prices, requestCount: nat,
    inputTokens: int, cachedInputTokens: int, outputTokens: int, cost: LineCost)

  /** A summed column as a count: negative is read as not reported. */
  function TokenCount(v: Option<int>): Option<u64> {
    if v.Some? && 0 <= v.value <= I64_MAX then Some(v.value) else None
  }

  function LineFor(g: UsageGroup): Result<Line, IncompleteReason> {
    if g.prices.None? then Err(NoSnapshot)
    else if NeedsCachedCount(g.prices.value) && g.cached.None? then Err(CachedCountMissing)
    else
      match Billable(TokenCount(g.input), TokenCount(g.output), TokenCount(g.cached))
      case Err(e) => Err(ReasonFor(e))
      case Ok((input, output, cached)) =>
        match PriceLine(input, cached, output, g.prices.value)
        case Err(e) => Err(ReasonFor(e))
        case Ok(cost) => Ok(Line(g.model, g.prices.value, g.requestCount, input, cached, output, cost))
  }

  // ---------------------------------------------------------------------
  // The generator's loop
  // ---------------------------------------------------------------------

  function LinesOf(groups: seq<UsageGroup>): seq<Line> {
    if groups == [] then []
    else
      var rest, g := LinesOf(groups[..|groups| - 1]), groups[|groups| - 1];
      if g.requestCount > 0 && LineFor(g).Ok? then rest + [LineFor(g).value] else rest
  }

  function IncompleteOf(groups: seq<UsageGroup>): nat {
    if groups == [] then 0
    else
      var g := groups[|groups| - 1];
      IncompleteOf(groups[..|groups| - 1]) + g.incompleteCount
      + (if g.requestCount > 0 && LineFor(g).Err? then g.requestCount else 0)
  }

  /** `payment_terms_minutes` is checked to be at least 0, and for nothing else. */
  datatype Partner = Partner(consumer: string, mode: BillingMode, termsMinutes: nat, createdAt: Option<int>) {

    /** `checked_add`: no deadline when the local clock the period is given in cannot show it. */
    function DueAtFor(periodEnd: int, tz: Timezone): Option<int> {
      var due := periodEnd + termsMinutes * MINUTE;
      if mode.Invoice? && due + tz * MINUTE < CALENDAR_END then Some(due) else None
    }
  }

  datatype Draft = Draft(
    consumer: string, day: Day, mode: BillingMode, cutoff: int, dueAt: Option<int>, incomplete: nat, lines: seq<Line>)

  /** What the generator drafts from the ledger, for one enumeration of the day's keys. */
  function DraftOf(g: Generator, partner: Partner, day: Day, groups: seq<UsageGroup>): Draft {
    Draft(partner.consumer, day, partner.mode, g.CutoffFor(day),
      partner.DueAtFor(EndExclusiveUtc(day, g.tz), g.tz), IncompleteOf(groups), LinesOf(groups))
  }

  /** `statement_for_day`: the loop, from the groups the read returned. */
  method StatementForDay(g: Generator, partner: Partner, day: Day, groups: seq<UsageGroup>) returns (draft: Draft)
    ensures draft == DraftOf(g, partner, day, groups)
  {
    var lines: seq<Line> := [];
    var incomplete: nat := 0;
    var i := 0;
    while i < |groups|
      invariant 0 <= i <= |groups|
      invariant lines == LinesOf(groups[..i]) && incomplete == IncompleteOf(groups[..i])
    {
      var group := groups[i];
      assert groups[..i + 1][..i] == groups[..i];
      i := i + 1;
      incomplete := incomplete + group.incompleteCount;
      if group.requestCount == 0 {
        continue;
      }
      match LineFor(group) {
        case Ok(line) => lines := lines + [line];
        case Err(_) => incomplete := incomplete + group.requestCount;
      }
    }
    assert groups[..|groups|] == groups;
    draft := Draft(partner.consumer, day, partner.mode, g.CutoffFor(day),
      partner.DueAtFor(EndExclusiveUtc(day, g.tz), g.tz), incomplete, lines);
  }

  // ---------------------------------------------------------------------
  // Every request is on the statement, once
  // ---------------------------------------------------------------------

  function Requests(lines: seq<Line>): nat {
    if lines == [] then 0 else Requests(lines[..|lines| - 1]) + lines[|lines| - 1].requestCount
  }

  /** Requests a draft accounts for: charged on a line, or counted as incomplete. */
  function Accounted(d: Draft): nat {
    Requests(d.lines) + d.incomplete
  }

  lemma RequestsSnoc(lines: seq<Line>, l: Line)
    ensures Requests(lines + [l]) == Requests(lines) + l.requestCount
  {
    assert (lines + [l])[..|lines|] == lines;
  }

  lemma {:induction false} LoopAccounts(keys: seq<Key>, rows: seq<UsageRow>)
    requires IsKeyList(keys, rows)
    ensures Requests(LinesOf(GroupsBy(keys, rows))) + IncompleteOf(GroupsBy(keys, rows)) == |rows|
  {
    if rows != [] {
      assert KeyOf(rows[0]) in keys;
    }
    if keys != [] {
      var most, k := keys[..|keys| - 1], keys[|keys| - 1];
      var others := WithoutKey(rows, k);
      SplitByKey(rows, k);
      WithoutKeyMembers(rows, k);
      FewerKeys(keys, rows);
      LoopAccounts(most, others);
      SameGroups(most, rows, k);
      var groups := GroupsBy(keys, rows);
      assert groups[..|most|] == GroupsBy(most, rows);
      OneMoreGroup(groups);
    }
  }

  lemma FewerKeys(keys: seq<Key>, rows: seq<UsageRow>)
    requires keys != [] && IsKeyList(keys, rows)
    ensures IsKeyList(keys[..|keys| - 1], WithoutKey(rows, keys[|keys| - 1]))
  {
    var most, k := keys[..|keys| - 1], keys[|keys| - 1];
    var others := WithoutKey(rows, k);
    WithoutKeyMembers(rows, k);
    forall i | 0 <= i < |others| ensures KeyOf(others[i]) in most {
      assert others[i] in others;
      var j :| 0 <= j < |keys| && keys[j] == KeyOf(others[i]);
      assert most[j] == KeyOf(others[i]);
    }
  }

  /** One turn of the loop accounts for the whole group, charged or not. */
  lemma OneMoreGroup(groups: seq<UsageGroup>)
    requires groups != []
    ensures var most, g := groups[..|groups| - 1], groups[|groups| - 1];
      Requests(LinesOf(groups)) + IncompleteOf(groups)
        == Requests(LinesOf(most)) + IncompleteOf(most) + g.requestCount + g.incompleteCount
  {
    var most, g := groups[..|groups| - 1], groups[|groups| - 1];
    if g.requestCount > 0 && LineFor(g).Ok? {
      RequestsSnoc(LinesOf(most), LineFor(g).value);
    }
  }

  function WithoutKey(rows: seq<UsageRow>, k: Key): seq<UsageRow> {
    if rows == [] then []
    else WithoutKey(rows[..|rows| - 1], k) + (if KeyOf(rows[|rows| - 1]) != k then [rows[|rows| - 1]] else [])
  }

  lemma {:induction false} SplitByKey(rows: seq<UsageRow>, k: Key)
    ensures |WithKey(rows, k)| + |WithoutKey(rows, k)| == |rows|
  {
    if rows != [] {
      SplitByKey(rows[..|rows| - 1], k);
    }
  }

  lemma {:induction false} WithoutKeyMembers(rows: seq<UsageRow>, k: Key)
    ensures forall r :: r in WithoutKey(rows, k) ==> r in rows && KeyOf(r) != k
  {
    if rows != [] {
      WithoutKeyMembers(rows[..|rows| - 1], k);
    }
  }

  lemma {:induction false} WithKeyOfOthers(rows: seq<UsageRow>, k: Key, other: Key)
    requires k != other
    ensures WithKey(WithoutKey(rows, other), k) == WithKey(rows, k)
  {
    if rows != [] {
      var most, last := rows[..|rows| - 1], rows[|rows| - 1];
      WithKeyOfOthers(most, k, other);
      if KeyOf(last) != other {
        assert (WithoutKey(most, other) + [last])[..|WithoutKey(most, other)|] == WithoutKey(most, other);
      } else {
        assert WithoutKey(most, other) + [] == WithoutKey(most, other);
      }
    }
  }

  lemma {:induction false} SameGroups(keys: seq<Key>, rows: seq<UsageRow>, other: Key)
    requires other !in keys
    ensures GroupsBy(keys, rows) == GroupsBy(keys, WithoutKey(rows, other))
  {
    if keys != [] {
      SameGroups(keys[..|keys| - 1], rows, other);
      WithKeyOfOthers(rows, keys[|keys| - 1], other);
    }
  }

  /**
   * A statement accounts for every row of its day, each once: the lines' requests and the
   * incomplete count add up to the rows, whatever the pricer refused and however the keys are ordered.
   */
  lemma DraftAccountsForEveryRow(g: Generator, partner: Partner, day: Day, ledger: seq<UsageRow>, keys: seq<Key>)
    requires IsKeyList(keys, RowsOfDay(ledger, partner.consumer, day, g.tz))
    ensures Accounted(DraftOf(g, partner, day, GroupsBy(keys, RowsOfDay(ledger, partner.consumer, day, g.tz))))
         == |RowsOfDay(ledger, partner.consumer, day, g.tz)|
  {
    LoopAccounts(keys, RowsOfDay(ledger, partner.consumer, day, g.tz));
  }

  // ---------------------------------------------------------------------
  // The read and the pricer agree
  // ---------------------------------------------------------------------

  ghost predicate AllWithKey(rows: seq<UsageRow>, k: Key) {
    forall i :: 0 <= i < |rows| ==> KeyOf(rows[i]) == k
  }

  lemma {:induction false} WithKeyAll(rows: seq<UsageRow>, k: Key)
    ensures AllWithKey(WithKey(rows, k), k)
  {
    if rows != [] {
      WithKeyAll(rows[..|rows| - 1], k);
    }
  }

  /** What the sums of a group with something billable in it look like. */
  lemma {:induction false} SumsOfBillable(rows: seq<UsageRow>, k: Key)
    requires AllWithKey(rows, k)
    ensures 0 <= OrZero(SumOf(rows, Cached)) <= OrZero(SumOf(rows, Input)) && 0 <= OrZero(SumOf(rows, Output))
    ensures CountBillable(rows) > 0 ==> SumOf(rows, Input).Some? && SumOf(rows, Output).Some? && SnapshotOf(k).Some?
    ensures CountBillable(rows) > 0 && k.cachedPrice != k.inputPrice ==> SumOf(rows, Cached).Some?
  {
    if rows != [] {
      SumsOfBillable(rows[..|rows| - 1], k);
      assert KeyOf(rows[|rows| - 1]) == k;
    }
  }

  /**
   * The database's classification and the generator's never disagree: a group with billable
   * requests is charged, unless its cost does not fit in micro-dollars. No other refusal can happen.
   */
  lemma ClassificationsAgree(k: Key, ledger: seq<UsageRow>)
    requires CountBillable(WithKey(ledger, k)) > 0 && SumsFit([Aggregate(k, WithKey(ledger, k))])
    ensures SnapshotOf(k).Some?
    ensures var g := Aggregate(k, WithKey(ledger, k));
      && LineFor(g) != Err(UsageMissing) && LineFor(g) != Err(CachedCountMissing)
      && LineFor(g) != Err(NoSnapshot) && LineFor(g) != Err(CachedTooMany)
      && (SnapshotOf(k).value.NonNegative() ==>
           (LineFor(g).Ok? <==> LineFits(OrZero(g.input), OrZero(g.cached), OrZero(g.output), SnapshotOf(k).value)))
  {
    var rows := WithKey(ledger, k);
    var g := Aggregate(k, rows);
    WithKeyAll(ledger, k);
    SumsOfBillable(rows, k);
    assert SumsFit([g]) && [g][0] == g;
    if SnapshotOf(k).value.NonNegative() {
      PriceLineExact(g.input.value, OrZero(g.cached), g.output.value, SnapshotOf(k).value);
    }
    OnlyOverflows(g.input.value, OrZero(g.cached), g.output.value, SnapshotOf(k).value);
  }

  /** Whatever the prices, a line whose cached tokens are part of its input is refused only for its size. */
  lemma OnlyOverflows(input: u64, cached: u64, output: u64, prices: Prices)
    requires cached <= input
    ensures var r := PriceLine(input, cached, output, prices); r.Err? ==> r.error == Overflow
  {
  }

  /** One row as the pricer would be given it, had it a group to itself and no filter before it. */
  function Alone(row: UsageRow): UsageGroup {
    UsageGroup(row.model, SnapshotOf(KeyOf(row)), 1, row.input, row.cached, row.output, 0)
  }

  /**
   * The filter lets through exactly the rows the pricer would not refuse, unless for their size, if
   * it were handed them one by one; and of those none with a negative cached count, which the
   * pricer reads as unreported.
   */
  lemma BillableExactlyWhen(row: UsageRow)
    ensures IsBillable(row) <==>
      OrZero(row.cached) >= 0 && (LineFor(Alone(row)).Ok? || LineFor(Alone(row)) == Err(TooLarge))
  {
    if SnapshotOf(KeyOf(row)).Some? && row.input.Some? && row.input.value >= 0
       && row.output.Some? && row.output.value >= 0 && 0 <= OrZero(row.cached) <= row.input.value {
      OnlyOverflows(row.input.value, OrZero(row.cached), row.output.value, SnapshotOf(KeyOf(row)).value);
    }
  }

  // ---------------------------------------------------------------------
  // What a drafted line says about its rows
  // ---------------------------------------------------------------------

  /** The billable rows' own reports; a cached count that is not needed may be missing, and is none. */
  function RequestsOf(rows: seq<UsageRow>): seq<Request> {
    if rows == [] then []
    else
      var most, last := RequestsOf(rows[..|rows| - 1]), rows[|rows| - 1];
      if IsBillable(last) then most + [Request(last.input.value, OrZero(last.cached), last.output.value)] else most
  }

  lemma {:induction false} SumsAreTotals(rows: seq<UsageRow>)
    ensures |RequestsOf(rows)| == CountBillable(rows)
    ensures OrZero(SumOf(rows, Input)) == TotalInput(RequestsOf(rows))
    ensures OrZero(SumOf(rows, Cached)) == TotalCached(RequestsOf(rows))
    ensures OrZero(SumOf(rows, Output)) == TotalOutput(RequestsOf(rows))
    ensures forall i :: 0 <= i < |RequestsOf(rows)| ==> RequestsOf(rows)[i].cached <= RequestsOf(rows)[i].input
  {
    if rows != [] {
      var most, last := rows[..|rows| - 1], rows[|rows| - 1];
      SumsAreTotals(most);
      if IsBillable(last) {
        var r := Request(last.input.value, OrZero(last.cached), last.output.value);
        TotalsSnoc(RequestsOf(most), r);
      }
    }
  }

  /** The line charges these rows: their tokens, at this price, with parts that add up to the total. */
  ghost predicate Charges(l: Line, k: Key, rows: seq<UsageRow>) {
    var rs := RequestsOf(WithKey(rows, k));
    && l.model == k.model && l.requestCount == |rs| > 0
    && (k.inputPrice, k.cachedPrice, k.outputPrice)
       == (Some(l.prices.input), Some(l.prices.cachedInput), Some(l.prices.output))
    && l.inputTokens == TotalInput(rs) && l.cachedInputTokens == TotalCached(rs) && l.outputTokens == TotalOutput(rs)
    && l.cost.uncachedInputTokens == l.inputTokens - l.cachedInputTokens
    && l.cost.total == l.cost.inputCost + l.cost.cachedInputCost + l.cost.outputCost
    && (l.prices.NonNegative() ==> ChargesFairly(l, rs))
  }

  /** Each part is its tokens' exact cost, rounded once; and the whole is near what the requests cost one by one. */
  ghost predicate ChargesFairly(l: Line, rs: seq<Request>) {
    && NearestAway(l.cost.inputCost, (l.inputTokens - l.cachedInputTokens) * l.prices.input, UNIT)
    && NearestAway(l.cost.cachedInputCost, l.cachedInputTokens * l.prices.cachedInput, UNIT)
    && NearestAway(l.cost.outputCost, l.outputTokens * l.prices.output, UNIT)
    && AllPriced(rs, l.prices)
    && -3 * (|rs| + 1) <= 2 * (l.cost.total - PricedAlone(rs, l.prices)) <= 3 * (|rs| + 1)
  }

  lemma LineCharges(k: Key, rows: seq<UsageRow>)
    requires SumsFit([Aggregate(k, WithKey(rows, k))])
    requires Aggregate(k, WithKey(rows, k)).requestCount > 0 && LineFor(Aggregate(k, WithKey(rows, k))).Ok?
    ensures Charges(LineFor(Aggregate(k, WithKey(rows, k))).value, k, rows)
  {
    var mine := WithKey(rows, k);
    var g, rs := Aggregate(k, mine), RequestsOf(mine);
    var l := LineFor(g).value;
    assert SumsFit([g]) && [g][0] == g;
    WithKeyAll(rows, k);
    SumsOfBillable(mine, k);
    SumsAreTotals(mine);
    if l.prices.NonNegative() {
      ChargedFairly(l, rs);
    }
  }

  lemma ChargedFairly(l: Line, rs: seq<Request>)
    requires l.prices.NonNegative() && forall i :: 0 <= i < |rs| ==> rs[i].cached <= rs[i].input
    requires 0 <= l.inputTokens == TotalInput(rs) <= 0xFFFF_FFFF_FFFF_FFFF
    requires 0 <= l.cachedInputTokens == TotalCached(rs) <= l.inputTokens
    requires 0 <= l.outputTokens == TotalOutput(rs) <= 0xFFFF_FFFF_FFFF_FFFF
    requires PriceLine(l.inputTokens, l.cachedInputTokens, l.outputTokens, l.prices) == Ok(l.cost)
    ensures ChargesFairly(l, rs)
  {
    PriceLineExact(l.inputTokens, l.cachedInputTokens, l.outputTokens, l.prices);
    PartsFit(rs, l.prices);
    GroupedVersusAlone(rs, l.prices);
  }

  lemma {:induction false} GroupsAt(keys: seq<Key>, rows: seq<UsageRow>, i: nat)
    requires i < |keys|
    ensures GroupsBy(keys, rows)[i] == Aggregate(keys[i], WithKey(rows, keys[i]))
  {
    if i < |keys| - 1 {
      GroupsAt(keys[..|keys| - 1], rows, i);
    }
  }

  /** The line drafted `i`-th was drafted for one of the groups. */
  lemma {:induction false} LineComesFrom(groups: seq<UsageGroup>, i: nat) returns (j: nat)
    requires i < |LinesOf(groups)|
    ensures j < |groups| && groups[j].requestCount > 0 && LineFor(groups[j]) == Ok(LinesOf(groups)[i])
  {
    var n := |groups| - 1;
    if i < |LinesOf(groups[..n])| {
      j := LineComesFrom(groups[..n], i);
    } else {
      j := n;
    }
  }

  lemma {:induction false} LineIsDrafted(groups: seq<UsageGroup>, j: nat)
    requires j < |groups| && groups[j].requestCount > 0 && LineFor(groups[j]).Ok?
    ensures LineFor(groups[j]).value in LinesOf(groups)
  {
    var n := |groups| - 1;
    if j < n {
      LineIsDrafted(groups[..n], j);
    }
  }

  /**
   * Every line of a draft charges the day's billable rows of one key: with their tokens, at the
   * price they were metered at, each part rounded once, the parts adding up, and the total within
   * three halves of a micro-dollar for each request, and one more, of what they would cost alone.
   */
  lemma EveryLineChargesItsRows(g: Generator, partner: Partner, day: Day, ledger: seq<UsageRow>, keys: seq<Key>,
                                i: nat)
    returns (k: Key)
    requires var rows := RowsOfDay(ledger, partner.consumer, day, g.tz);
      IsKeyList(keys, rows) && SumsFit(GroupsBy(keys, rows))
      && i < |DraftOf(g, partner, day, GroupsBy(keys, rows)).lines|
    ensures var rows := RowsOfDay(ledger, partner.consumer, day, g.tz);
      k in keys && Charges(DraftOf(g, partner, day, GroupsBy(keys, rows)).lines[i], k, rows)
  {
    var rows := RowsOfDay(ledger, partner.consumer, day, g.tz);
    var groups := GroupsBy(keys, rows);
    var j := LineComesFrom(groups, i);
    k := keys[j];
    GroupsAt(keys, rows, j);
    assert [groups[j]][0] == groups[j];
    LineCharges(k, rows);
  }

  /** And every key with a billable row has its line, unless what they cost together does not fit. */
  lemma EveryBillableRowIsCharged(g: Generator, partner: Partner, day: Day, ledger: seq<UsageRow>, keys: seq<Key>,
                                  i: nat)
    requires var rows := RowsOfDay(ledger, partner.consumer, day, g.tz);
      IsKeyList(keys, rows) && SumsFit(GroupsBy(keys, rows)) && i < |rows| && IsBillable(rows[i])
    ensures var rows := RowsOfDay(ledger, partner.consumer, day, g.tz);
      var rs, l := RequestsOf(WithKey(rows, KeyOf(rows[i]))), DraftOf(g, partner, day, GroupsBy(keys, rows)).lines;
      var prices := Prices(rows[i].inputPrice.value, rows[i].cachedPrice.value, rows[i].outputPrice.value);
      prices.NonNegative() && LineFits(TotalInput(rs), TotalCached(rs), TotalOutput(rs), prices) ==>
        exists line :: line in l && Charges(line, KeyOf(rows[i]), rows)
  {
    var rows := RowsOfDay(ledger, partner.consumer, day, g.tz);
    var groups, k := GroupsBy(keys, rows), KeyOf(rows[i]);
    var j :| 0 <= j < |keys| && keys[j] == k;
    GroupsAt(keys, rows, j);
    assert [groups[j]][0] == groups[j];
    CountsARow(rows, i);
    SumsAreTotals(WithKey(rows, k));
    ClassificationsAgree(k, rows);
    if LineFor(groups[j]).Ok? {
      LineIsDrafted(groups, j);
      LineCharges(k, rows);
    }
  }

  lemma {:induction false} CountsARow(rows: seq<UsageRow>, i: nat)
    requires i < |rows| && IsBillable(rows[i])
    ensures CountBillable(WithKey(rows, KeyOf(rows[i]))) > 0
  {
    var n, k := |rows| - 1, KeyOf(rows[i]);
    var most := WithKey(rows[..n], k);
    if i < n {
      CountsARow(rows[..n], i);
    }
    if KeyOf(rows[n]) == k {
      assert (most + [rows[n]])[..|most|] == most;
    } else {
      assert most + [] == most;
    }
  }

  // ---------------------------------------------------------------------
  // The store accepts what the generator drafts
  // ---------------------------------------------------------------------

  function Total(lines: seq<Line>): int {
    if lines == [] then 0 else Total(lines[..|lines| - 1]) + lines[|lines| - 1].cost.total
  }

  predicate ConsistentLine(l: Line) {
    && l.cost.uncachedInputTokens == l.inputTokens - l.cachedInputTokens
    && l.cachedInputTokens <= l.inputTokens
  }

  /** `validate_draft`: the checks the store makes before writing. */
  predicate ValidDraft(d: Draft) {
    && (d.mode.Invoice? <==> d.dueAt.Some?)
    && forall i :: 0 <= i < |d.lines| ==> ConsistentLine(d.lines[i])
  }

  lemma {:induction false} DraftedLinesConsistent(groups: seq<UsageGroup>)
    ensures forall i :: 0 <= i < |LinesOf(groups)| ==> ConsistentLine(LinesOf(groups)[i])
  {
    if groups != [] {
      DraftedLinesConsistent(groups[..|groups| - 1]);
    }
  }

  /** A draft with a line whose token counts contradict each other is refused. */
  lemma ContradictionIsRefused(d: Draft, i: nat)
    requires i < |d.lines|
    requires d.lines[i].cachedInputTokens > d.lines[i].inputTokens
          || d.lines[i].cost.uncachedInputTokens + d.lines[i].cachedInputTokens != d.lines[i].inputTokens
    ensures !ValidDraft(d)
  {
  }

  /** The deadline of this partner's day, if it is to have one. */
  function DueTime(g: Generator, partner: Partner, day: Day): int {
    EndExclusiveUtc(day, g.tz) + partner.termsMinutes * MINUTE
  }

  /**
   * Whatever was in the groups, a draft contradicts itself exactly when it is an invoice whose
   * terms lead out of the calendar: it then has no deadline.
   */
  lemma DraftIsValidExactlyWhen(g: Generator, partner: Partner, day: Day, groups: seq<UsageGroup>)
    ensures ValidDraft(DraftOf(g, partner, day, groups)) <==>
      partner.mode.Reconciliation? || DueTime(g, partner, day) + g.tz * MINUTE < CALENDAR_END
  {
    DraftedLinesConsistent(groups);
  }

  /**
   * What a draft says of its day: whose and which day it is, that it closes the delay after the
   * day's end, and that an invoice falls due its terms after that end, where the calendar has it.
   */
  lemma DraftIsOfItsDay(g: Generator, partner: Partner, day: Day, groups: seq<UsageGroup>)
    ensures var d := DraftOf(g, partner, day, groups);
      && (d.consumer, d.day, d.mode) == (partner.consumer, day, partner.mode)
      && d.cutoff - EndExclusiveUtc(day, g.tz) == g.closeDelayMinutes * MINUTE
      && (d.dueAt.Some? <==> d.mode.Invoice? && DueTime(g, partner, day) + g.tz * MINUTE < CALENDAR_END)
      && (d.dueAt.Some? ==> d.dueAt.value - EndExclusiveUtc(day, g.tz) == partner.termsMinutes * MINUTE)
  {
  }

  /** `StatementDraft::total`: every partial sum has to fit. */
  predicate TotalFits(lines: seq<Line>) {
    lines == [] || (TotalFits(lines[..|lines| - 1]) && FitsI64(Total(lines)))
  }

  function Totals(lines: seq<Line>): seq<int> {
    seq(|lines|, i requires 0 <= i < |lines| => lines[i].cost.total)
  }

  /** With the lines' totals not negative, no partial sum decides more than the whole one. */
  lemma {:induction false} TotalFitsExactlyWhen(lines: seq<Line>)
    requires forall i :: 0 <= i < |lines| ==> lines[i].cost.total >= 0
    ensures 0 <= Total(lines) == Sum(Totals(lines))
    ensures TotalFits(lines) <==> Sum(Totals(lines)) <= I64_MAX
  {
    if lines != [] {
      TotalFitsExactlyWhen(lines[..|lines| - 1]);
      assert Totals(lines)[..|lines| - 1] == Totals(lines[..|lines| - 1]);
    }
  }

  /** What the store can write: a valid draft with a total, and a deadline that can be rendered in UTC. */
  predicate Writable(d: Draft) {
    ValidDraft(d) && TotalFits(d.lines) && (d.dueAt.Some? ==> d.dueAt.value < CALENDAR_END)
  }

  /** The day owes nothing, or its deadline is in the calendar, on the local clock and in UTC. */
  predicate Payable(g: Generator, partner: Partner, day: Day) {
    partner.mode.Reconciliation? || DueTime(g, partner, day) + Max(0, g.tz * MINUTE) < CALENDAR_END
  }

  /** So besides its total, only the partner's terms and the day decide whether a draft can be written. */
  lemma DraftIsWritableExactlyWhen(g: Generator, partner: Partner, day: Day, groups: seq<UsageGroup>)
    ensures Writable(DraftOf(g, partner, day, groups)) <==> TotalFits(LinesOf(groups)) && Payable(g, partner, day)
  {
    DraftIsValidExactlyWhen(g, partner, day, groups);
  }

  /** Terms too long for one day are too long for every later one, whatever usage it has. */
  lemma RefusedFromThenOn(g: Generator, partner: Partner, day: Day, later: Day, groups: seq<UsageGroup>)
    requires !Payable(g, partner, day) && day <= later
    ensures !Payable(g, partner, later) && !Writable(DraftOf(g, partner, later, groups))
  {
    DraftIsWritableExactlyWhen(g, partner, later, groups);
  }
}
