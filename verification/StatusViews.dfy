/**
 * Two readers of the derived status: the dashboard's list (`src/billing/api.rs`) and the
 * scheduler's observer, which logs only changes (`src/billing/worker.rs`).
 */
module StatusViews {
  import opened Prelude
  import opened Timefmt
  import opened Status

  datatype PartnerRow = PartnerRow(consumer: string, mode: string)

  /** `consumer_id` is the primary key of `partners`. */
  ghost predicate Keyed(partners: seq<PartnerRow>) {
    forall i, j :: 0 <= i < j < |partners| ==> partners[i].consumer != partners[j].consumer
  }

  /** The bills of one consumer, in the order they came. */
  function OfConsumer(bills: seq<Bill>, consumer: string): seq<Bill> {
    if bills == [] then []
    else
      var rest, last := OfConsumer(bills[..|bills| - 1], consumer), bills[|bills| - 1];
      if last.consumer == consumer then rest + [last] else rest
  }

  datatype View = View(consumer: string, status: ServiceStatus, overdueCount: nat, overdueAmount: int)

  function Amounts(rows: seq<OverdueRow>): (r: seq<int>)
    ensures |r| == |rows|
  {
    if rows == [] then [] else Amounts(rows[..|rows| - 1]) + [rows[|rows| - 1].total]
  }

  /** The fold in `view_status`: an addition that would overflow leaves the sum as it was. */
  function FoldAmounts(rows: seq<OverdueRow>): int {
    if rows == [] then 0
    else
      var sum, total := FoldAmounts(rows[..|rows| - 1]), rows[|rows| - 1].total;
      if FitsI64(sum + total) then sum + total else sum
  }

  function ViewOf(partner: PartnerRow, rows: seq<OverdueRow>, now: Instant, iso: string -> Option<Instant>): View {
    View(partner.consumer, StatusFor(partner.mode, now, rows, iso), |rows|, FoldAmounts(rows))
  }

  /** Groups one read of the overdue bills in a map. */
  method GroupRows(overdue: seq<Bill>) returns (groups: map<string, seq<OverdueRow>>)
    ensures forall c :: Lookup(groups, c) == Rows(OfConsumer(overdue, c))
  {
    groups := map[];
    for i := 0 to |overdue|
      invariant forall c :: Lookup(groups, c) == Rows(OfConsumer(overdue[..i], c))
    {
      var b := overdue[i];
      forall c ensures Rows(OfConsumer(overdue[..i + 1], c))
        == Rows(OfConsumer(overdue[..i], c)) + if c == b.consumer then [ToOverdueRow(b)] else [] {
        assert overdue[..i + 1][..i] == overdue[..i];
        RowsSnoc(OfConsumer(overdue[..i], c), b);
      }
      groups := groups[b.consumer := Lookup(groups, b.consumer) + [ToOverdueRow(b)]];
    }
    assert overdue[..|overdue|] == overdue;
  }

  /** Takes each partner's group out of the map, and renders its status with the rows behind it. */
  method StatusesInScope(partners: seq<PartnerRow>, overdue: seq<Bill>, now: Instant, iso: string -> Option<Instant>)
    returns (out: seq<View>)
    requires Keyed(partners)
    ensures |out| == |partners|
    ensures forall i :: 0 <= i < |partners| ==>
      out[i] == ViewOf(partners[i], Rows(OfConsumer(overdue, partners[i].consumer)), now, iso)
  {
    var groups := GroupRows(overdue);
    out := [];
    for i := 0 to |partners|
      invariant |out| == i
      invariant forall k :: i <= k < |partners| ==>
        Lookup(groups, partners[k].consumer) == Rows(OfConsumer(overdue, partners[k].consumer))
      invariant forall k :: 0 <= k < i ==>
        out[k] == ViewOf(partners[k], Rows(OfConsumer(overdue, partners[k].consumer)), now, iso)
    {
      var rows := Lookup(groups, partners[i].consumer);
      groups := groups - {partners[i].consumer};
      out := out + [ViewOf(partners[i], rows, now, iso)];
    }
  }

  function Lookup(groups: map<string, seq<OverdueRow>>, consumer: string): seq<OverdueRow> {
    if consumer in groups then groups[consumer] else []
  }

  lemma {:induction false} RowsSnoc(bills: seq<Bill>, b: Bill)
    ensures Rows(bills + [b]) == Rows(bills) + [ToOverdueRow(b)]
  {
    if bills == [] {
      RowsOfOne(b);
      assert bills + [b] == [b];
    } else {
      RowsSnoc(bills[1..], b);
      assert (bills + [b])[1..] == bills[1..] + [b];
    }
  }

  lemma {:induction false} OfConsumerKeeps(s: seq<Bill>, consumer: string)
    requires Sorted(s)
    ensures Sorted(OfConsumer(s, consumer))
    ensures forall b :: b in OfConsumer(s, consumer) <==> b in s && b.consumer == consumer
  {
    if s != [] {
      var n := |s| - 1;
      var rest := OfConsumer(s[..n], consumer);
      assert Sorted(s[..n]);
      OfConsumerKeeps(s[..n], consumer);
      assert forall b :: b in s <==> b in s[..n] || b == s[n];
      forall i | 0 <= i < |rest| ensures Before(rest[i], s[n]) {
        assert rest[i] in s[..n];
        var k :| 0 <= k < n && s[k] == rest[i];
      }
    }
  }

  /**
   * One wide read grouped in memory tells every partner what its own narrow read would, and what
   * the request path's snapshot tells it.
   */
  lemma {:induction false} DashboardAgrees(bills: seq<Bill>, consumer: string, mode: string, read: Instant,
                                           now: Instant, iso: string -> Option<Instant>)
    requires Legal(bills)
    ensures OfConsumer(Select(bills, Query(None, read, false)), consumer)
         == Select(bills, Query(Some(consumer), read, false))
    ensures CanonicalDues(bills) && Nanos(now) <= Nanos(read) ==>
      StatusFor(mode, now, Rows(OfConsumer(Select(bills, Query(None, read, false)), consumer)), iso)
      == StatusFor(mode, now, Rows(Preselected(bills, consumer, now)), iso)
  {
    OfConsumerKeeps(Select(bills, Query(None, read, false)), consumer);
    SortedOnce(OfConsumer(Select(bills, Query(None, read, false)), consumer),
               Select(bills, Query(Some(consumer), read, false)));
    if CanonicalDues(bills) && Nanos(now) <= Nanos(read) {
      SnapshotAgrees(bills, consumer, mode, read, now, iso);
    }
  }

  /** How many of a consumer's bills are overdue, and what they come to. */
  ghost function OverdueCount(bills: seq<Bill>, consumer: string, clock: Instant): nat {
    if bills == [] then 0
    else
      var last := bills[|bills| - 1];
      OverdueCount(bills[..|bills| - 1], consumer, clock)
      + if last.consumer == consumer && Overdue(last, clock) then 1 else 0
  }

  ghost function OverdueTotal(bills: seq<Bill>, consumer: string, clock: Instant): int {
    if bills == [] then 0
    else
      var last := bills[|bills| - 1];
      OverdueTotal(bills[..|bills| - 1], consumer, clock)
      + if last.consumer == consumer && Overdue(last, clock) then last.total else 0
  }

  function TotalOf(bills: seq<Bill>): int {
    if bills == [] then 0 else bills[0].total + TotalOf(bills[1..])
  }

  lemma {:induction false} PlaceAddsOne(b: Bill, s: seq<Bill>)
    requires b.dueAt.Some? && Sorted(s)
    ensures |Place(b, s)| == |s| + 1 && TotalOf(Place(b, s)) == b.total + TotalOf(s)
  {
    if s != [] && !Before(b, s[0]) {
      PlaceAddsOne(b, s[1..]);
      assert ([s[0]] + Place(b, s[1..]))[1..] == Place(b, s[1..]);
    } else if s != [] {
      assert ([b] + s)[1..] == s;
    }
  }

  lemma {:induction false} SelectCounts(bills: seq<Bill>, consumer: string, clock: Instant)
    requires Legal(bills) && CanonicalDues(bills)
    ensures |Select(bills, Query(Some(consumer), clock, false))| == OverdueCount(bills, consumer, clock)
    ensures TotalOf(Select(bills, Query(Some(consumer), clock, false))) == OverdueTotal(bills, consumer, clock)
  {
    if bills != [] {
      var most, last := bills[..|bills| - 1], bills[|bills| - 1];
      SelectCounts(most, consumer, clock);
      assert last in bills;
      if last.dueAt.Some? {
        DueAsText(last.dueAt.value, clock);
        PlaceAddsOne(last, Select(most, Query(Some(consumer), clock, false)));
      }
    }
  }

  lemma {:induction false} AmountsAddUp(s: seq<Bill>)
    ensures Sum(Amounts(Rows(s))) == TotalOf(s)
  {
    if s != [] {
      AmountsAddUp(s[1..]);
      SumCons(s[0].total, Amounts(Rows(s[1..])));
      AmountsCons(ToOverdueRow(s[0]), Rows(s[1..]));
    }
  }

  lemma {:induction false} AmountsCons(row: OverdueRow, rows: seq<OverdueRow>)
    ensures Amounts([row] + rows) == [row.total] + Amounts(rows)
  {
    if rows == [] {
      assert [row] + rows == [row] && [row][..0] == [];
    } else {
      var n := |rows| - 1;
      AmountsCons(row, rows[..n]);
      assert ([row] + rows)[..|rows|] == [row] + rows[..n];
    }
  }

  lemma {:induction false} SumCons(x: int, s: seq<int>)
    ensures Sum([x] + s) == x + Sum(s)
  {
    if s == [] {
      assert [x] + s == [x] && [x][..0] == [];
    } else {
      var n := |s| - 1;
      SumCons(x, s[..n]);
      assert ([x] + s)[..|s|] == [x] + s[..n];
    }
  }

  lemma {:induction false} RowsAreNotNegative(s: seq<Bill>)
    requires forall b :: b in s ==> b.total >= 0
    ensures forall i :: 0 <= i < |Rows(s)| ==> Rows(s)[i].total >= 0
  {
    if s != [] {
      RowsAreNotNegative(s[1..]);
    }
  }

  /**
   * What the dashboard shows of a partner, read off the bills: its service status, how many of its
   * invoices are overdue and unpaid, and what they come to, when that fits 64 bits.
   */
  lemma {:induction false} ViewShowsTheBills(bills: seq<Bill>, partner: PartnerRow, read: Instant, now: Instant,
                                             iso: string -> Option<Instant>)
    requires Legal(bills) && CanonicalDues(bills) && Nanos(now) <= Nanos(read)
    ensures var rows := Rows(OfConsumer(Select(bills, Query(None, read, false)), partner.consumer));
      var view := ViewOf(partner, rows, now, iso);
      && view.consumer == partner.consumer
      && IsStatusOf(view.status, bills, partner.consumer, partner.mode, now)
      && view.overdueCount == OverdueCount(bills, partner.consumer, read)
      && (view.overdueAmount == OverdueTotal(bills, partner.consumer, read)
          <==> OverdueTotal(bills, partner.consumer, read) <= I64_MAX)
  {
    var mine := Select(bills, Query(Some(partner.consumer), read, false));
    DashboardAgrees(bills, partner.consumer, partner.mode, read, now, iso);
    WholeListDecides(bills, partner.consumer, partner.mode, read, now, iso);
    SelectCounts(bills, partner.consumer, read);
    RowsAreNotNegative(mine);
    AmountsAddUp(mine);
    AmountShownExactlyWhen(Rows(mine));
  }

  lemma {:induction false} FoldBounds(rows: seq<OverdueRow>)
    requires forall i :: 0 <= i < |rows| ==> 0 <= rows[i].total
    ensures 0 <= FoldAmounts(rows) <= Sum(Amounts(rows)) && FoldAmounts(rows) <= I64_MAX
    ensures Sum(Amounts(rows)) <= I64_MAX ==> FoldAmounts(rows) == Sum(Amounts(rows))
  {
    if rows != [] {
      var n := |rows| - 1;
      FoldBounds(rows[..n]);
      assert Amounts(rows)[..n] == Amounts(rows[..n]);
    }
  }

  /** The amount shown is the amount owed exactly when that fits; past it, rows are left out of the sum. */
  lemma AmountShownExactlyWhen(rows: seq<OverdueRow>)
    requires forall i :: 0 <= i < |rows| ==> 0 <= rows[i].total
    ensures FoldAmounts(rows) == Sum(Amounts(rows)) <==> Sum(Amounts(rows)) <= I64_MAX
  {
    FoldBounds(rows);
  }

  // ---------------------------------------------------------------------
  // The scheduler's observer
  // ---------------------------------------------------------------------

  datatype Event = PartnerSuspended(consumer: string) | PartnerResumed(consumer: string)

  /** Reads the log of one consumer from `state`; nothing when a line reports no change. */
  function Replay(log: seq<Event>, consumer: string, state: bool): Option<bool> {
    if log == [] then Some(state)
    else
      var before, e := Replay(log[..|log| - 1], consumer, state), log[|log| - 1];
      if before.None? || e.consumer != consumer then before
      else if before.value == e.PartnerSuspended? then None
      else Some(e.PartnerSuspended?)
  }

  /** Every line is a change, and the last one about a consumer is what was last observed. */
  ghost predicate Tells(log: seq<Event>, first: map<string, bool>, observed: map<string, bool>) {
    && first.Keys == observed.Keys
    && (forall e :: e in log ==> e.consumer in observed)
    && (forall c :: c in observed ==> Replay(log, c, first[c]) == Some(observed[c]))
  }

  function Change(consumer: string, suspended: bool): Event {
    if suspended then PartnerSuspended(consumer) else PartnerResumed(consumer)
  }

  lemma TellsFirstSight(log: seq<Event>, first: map<string, bool>, observed: map<string, bool>, consumer: string,
                        suspended: bool)
    requires Tells(log, first, observed) && consumer !in observed
    ensures Tells(log, first[consumer := suspended], observed[consumer := suspended])
  {
    Unmentioned(log, consumer, suspended);
  }

  lemma TellsChange(log: seq<Event>, first: map<string, bool>, observed: map<string, bool>, consumer: string,
                    suspended: bool)
    requires Tells(log, first, observed) && consumer in observed && observed[consumer] != suspended
    ensures Tells(log + [Change(consumer, suspended)], first, observed[consumer := suspended])
  {
    var e, after := Change(consumer, suspended), observed[consumer := suspended];
    var longer := log + [e];
    forall c | c in observed ensures Replay(longer, c, first[c]) == Some(after[c]) {
      ReplaySnoc(log, longer, e, c, first[c], observed[c]);
    }
    forall x | x in longer ensures x.consumer in after {
      assert x in log || x == e;
    }
  }

  /** A line about `e.consumer` that reports a change makes it what it reports, and no one else anything. */
  lemma ReplaySnoc(log: seq<Event>, longer: seq<Event>, e: Event, consumer: string, state: bool, seen: bool)
    requires longer == log + [e] && Replay(log, consumer, state) == Some(seen)
    requires e.consumer == consumer ==> seen != e.PartnerSuspended?
    ensures Replay(longer, consumer, state) == Some(if e.consumer == consumer then e.PartnerSuspended? else seen)
  {
    assert longer[..|longer| - 1] == log;
  }

  /** Whether one of the first `n` partners is this consumer, and its rows were read. */
  ghost predicate Answered(partners: seq<PartnerRow>, answers: seq<Option<seq<OverdueRow>>>, n: nat, consumer: string)
    requires n <= |partners| == |answers|
  {
    exists i :: 0 <= i < n && partners[i].consumer == consumer && answers[i].Some?
  }

  class StatusObserver {
    var observed: map<string, bool>
    var log: seq<Event>
    ghost var first: map<string, bool>

    ghost predicate Truthful()
      reads this
    {
      Tells(log, first, observed)
    }

    constructor ()
      ensures Truthful() && observed == map[] && log == []
    {
      observed, log, first := map[], [], map[];
    }

    method ObserveOne(consumer: string, suspended: bool)
      requires Truthful()
      modifies this
      ensures Truthful()
      ensures observed == old(observed)[consumer := suspended]
      ensures log == old(log) +
        if consumer in old(observed) && old(observed)[consumer] != suspended
        then [Change(consumer, suspended)] else []
    {
      var previous := if consumer in observed then Some(observed[consumer]) else None;
      if previous.None? {
        TellsFirstSight(log, first, observed, consumer, suspended);
        observed := observed[consumer := suspended];
        first := first[consumer := suspended];
        return;
      }
      if previous.value != suspended {
        TellsChange(log, first, observed, consumer, suspended);
      } else {
        assert observed == observed[consumer := suspended];
      }
      observed := observed[consumer := suspended];
      match (previous.value, suspended) {
        case (false, true) => log := log + [PartnerSuspended(consumer)];
        case (true, false) => log := log + [PartnerResumed(consumer)];
        case _ =>
      }
    }

    /** One pass: a partner whose rows could not be read is left as it was last seen. */
    method Observe(partners: seq<PartnerRow>, answers: seq<Option<seq<OverdueRow>>>, now: Instant,
                   iso: string -> Option<Instant>)
      requires Truthful() && Keyed(partners) && |answers| == |partners|
      modifies this
      ensures Truthful() && old(log) <= log
      ensures IsObserved(old(observed), partners, answers, |partners|, now, iso, observed)
    {
      for i := 0 to |partners|
        invariant Truthful() && old(log) <= log
        invariant IsObserved(old(observed), partners, answers, i, now, iso, observed)
      {
        ObservePartner(old(observed), partners, answers, i, now, iso);
      }
    }

    /** The body of the loop: one partner, if its rows could be read. */
    method ObservePartner(ghost before: map<string, bool>, partners: seq<PartnerRow>,
                          answers: seq<Option<seq<OverdueRow>>>, i: nat, now: Instant, iso: string -> Option<Instant>)
      requires Truthful() && Keyed(partners) && i < |partners| == |answers|
      requires IsObserved(before, partners, answers, i, now, iso, observed)
      modifies this
      ensures Truthful() && old(log) <= log
      ensures IsObserved(before, partners, answers, i + 1, now, iso, observed)
    {
      if answers[i].Some? {
        var status := StatusFor(partners[i].mode, now, answers[i].value, iso);
        OneMoreObserved(before, partners, answers, i, now, iso, observed);
        ObserveOne(partners[i].consumer, status.Suspended?);
      } else {
        OneMoreUnread(before, partners, answers, i, now, iso, observed);
      }
    }
  }

  /** What was seen of the first `n` partners: those read by their status, everyone else as before. */
  ghost predicate IsObserved(before: map<string, bool>, partners: seq<PartnerRow>,
                             answers: seq<Option<seq<OverdueRow>>>, n: nat, now: Instant,
                             iso: string -> Option<Instant>, after: map<string, bool>)
    requires n <= |partners| == |answers|
  {
    && (forall i :: 0 <= i < n && answers[i].Some? ==>
         && partners[i].consumer in after
         && after[partners[i].consumer] == StatusFor(partners[i].mode, now, answers[i].value, iso).Suspended?)
    && (forall c :: c in before ==> c in after)
    && (forall c :: c in after && !Answered(partners, answers, n, c) ==> c in before && after[c] == before[c])
  }

  lemma {:induction false} OneMoreObserved(before: map<string, bool>, partners: seq<PartnerRow>,
                                           answers: seq<Option<seq<OverdueRow>>>, i: nat, now: Instant,
                                           iso: string -> Option<Instant>, seen: map<string, bool>)
    requires Keyed(partners) && i < |partners| == |answers| && answers[i].Some?
    requires IsObserved(before, partners, answers, i, now, iso, seen)
    ensures var status := StatusFor(partners[i].mode, now, answers[i].value, iso);
      IsObserved(before, partners, answers, i + 1, now, iso, seen[partners[i].consumer := status.Suspended?])
  {
    var me := partners[i].consumer;
    assert Answered(partners, answers, i + 1, me);
    forall c | !Answered(partners, answers, i + 1, c) ensures c != me && !Answered(partners, answers, i, c) {
      AnsweredGrows(partners, answers, i, c);
    }
  }

  lemma {:induction false} OneMoreUnread(before: map<string, bool>, partners: seq<PartnerRow>,
                                         answers: seq<Option<seq<OverdueRow>>>, i: nat, now: Instant,
                                         iso: string -> Option<Instant>, seen: map<string, bool>)
    requires i < |partners| == |answers| && answers[i].None?
    requires IsObserved(before, partners, answers, i, now, iso, seen)
    ensures IsObserved(before, partners, answers, i + 1, now, iso, seen)
  {
    forall c | !Answered(partners, answers, i + 1, c) ensures !Answered(partners, answers, i, c) {
      AnsweredGrows(partners, answers, i, c);
    }
  }

  lemma AnsweredGrows(partners: seq<PartnerRow>, answers: seq<Option<seq<OverdueRow>>>, n: nat, consumer: string)
    requires n < |partners| == |answers|
    ensures Answered(partners, answers, n, consumer) ==> Answered(partners, answers, n + 1, consumer)
  {
  }

  lemma {:induction false} Unmentioned(log: seq<Event>, consumer: string, state: bool)
    requires forall e :: e in log ==> e.consumer != consumer
    ensures Replay(log, consumer, state) == Some(state)
  {
    if log != [] {
      Unmentioned(log[..|log| - 1], consumer, state);
    }
  }
}
