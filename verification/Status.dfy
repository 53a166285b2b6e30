/**
 * A partner's service status, derived from its statements (`src/billing/status.rs`), and the two
 * queries it is derived from: the whole overdue list (`src/billing/store.rs`), and the one row the
 * key snapshot pre-selects (`src/apikeys/store.rs`).
 */
module Status {
  import opened Prelude
  import opened Timefmt

  datatype Payment = Payment(at: string, recorder: string, reference: Option<string>, note: Option<string>)

  /** A row of `daily_statements`, with the columns the status depends on. */
  datatype Bill = Bill(id: int, consumer: string, date: string, mode: string, total: int, incomplete: nat,
                       dueAt: Option<string>, payment: Option<Payment>)

  datatype OverdueRow = OverdueRow(id: int, date: string, dueAt: string, total: int, incomplete: nat)

  datatype ServiceStatus =
    | Active
    | Suspended(id: int, date: string, due: Instant, amount: int)

  /** The table's own constraints: one row per id, and no payment life for a reconciliation. */
  ghost predicate Legal(bills: seq<Bill>) {
    && (forall i, j :: 0 <= i < j < |bills| ==> bills[i].id != bills[j].id)
    && (forall b :: b in bills ==>
         && (b.mode == "invoice" || b.mode == "reconciliation") && b.total >= 0
         && (b.mode == "invoice" || (b.dueAt.None? && b.payment.None?)))
  }

  /** Every deadline is written by `format_ts`. */
  ghost predicate CanonicalDues(bills: seq<Bill>) {
    forall b :: b in bills && b.dueAt.Some? ==> ParseCanonical(b.dueAt.value).Some?
  }

  /** A missing deadline becomes the empty text, not the epoch. */
  function ToOverdueRow(b: Bill): OverdueRow {
    OverdueRow(b.id, b.date, if b.dueAt.Some? then b.dueAt.value else "", b.total, b.incomplete)
  }

  function Rows(bills: seq<Bill>): (r: seq<OverdueRow>)
    ensures |r| == |bills|
  {
    if bills == [] then [] else [ToOverdueRow(bills[0])] + Rows(bills[1..])
  }

  /** The first complete, non-zero row that is due, if the partner owes payments at all. */
  function StatusFor(mode: string, now: Instant, rows: seq<OverdueRow>, iso: string -> Option<Instant>): ServiceStatus {
    if mode != "invoice" || rows == [] then Active
    else
      var row, due := rows[0], ParseTs(rows[0].dueAt, iso);
      if row.incomplete == 0 && row.total > 0 && due.Some? && Nanos(due.value) <= Nanos(now)
      then Suspended(row.id, row.date, due.value, row.total)
      else StatusFor(mode, now, rows[1..], iso)
  }

  // ---------------------------------------------------------------------
  // The queries
  // ---------------------------------------------------------------------

  /** What a query keeps; `enforceable` adds the snapshot's two extra conditions. */
  datatype Query = Query(consumer: Option<string>, clock: Instant, enforceable: bool)

  ghost predicate Keeps(q: Query, b: Bill) {
    && b.mode == "invoice" && b.payment.None?
    && b.dueAt.Some? && !TextLess(FormatTs(q.clock), b.dueAt.value)
    && (q.consumer.Some? ==> b.consumer == q.consumer.value)
    && (q.enforceable ==> b.incomplete == 0 && b.total > 0)
  }

  /** `ORDER BY due_at, id`. */
  ghost predicate Before(a: Bill, b: Bill)
    requires a.dueAt.Some? && b.dueAt.Some?
  {
    TextLess(a.dueAt.value, b.dueAt.value) || (a.dueAt == b.dueAt && a.id < b.id)
  }

  ghost predicate Sorted(s: seq<Bill>) {
    && (forall b :: b in s ==> b.dueAt.Some?)
    && (forall i, j :: 0 <= i < j < |s| ==> Before(s[i], s[j]))
  }

  ghost function Place(b: Bill, s: seq<Bill>): seq<Bill>
    requires b.dueAt.Some? && Sorted(s)
  {
    if s == [] then [b]
    else if Before(b, s[0]) then [b] + s
    else [s[0]] + Place(b, s[1..])
  }

  ghost function Select(bills: seq<Bill>, q: Query): (r: seq<Bill>)
    requires Legal(bills)
    ensures Sorted(r) && forall b :: b in r <==> b in bills && Keeps(q, b)
  {
    if bills == [] then []
    else
      var rest, b := Select(bills[..|bills| - 1], q), bills[|bills| - 1];
      assert forall x :: x in bills <==> x in bills[..|bills| - 1] || x == b;
      if !Keeps(q, b) then rest
      else
        (PlaceSorts(b, rest); Place(b, rest))
  }

  lemma {:induction false} TextLessTransitive(a: string, b: string, c: string)
    requires TextLess(a, b) && TextLess(b, c)
    ensures TextLess(a, c)
  {
    if a != [] && a[0] == b[0] == c[0] {
      TextLessTransitive(a[1..], b[1..], c[1..]);
    }
  }

  lemma BeforeTransitive(a: Bill, b: Bill, c: Bill)
    requires a.dueAt.Some? && b.dueAt.Some? && c.dueAt.Some? && Before(a, b) && Before(b, c)
    ensures Before(a, c)
  {
    if TextLess(a.dueAt.value, b.dueAt.value) && TextLess(b.dueAt.value, c.dueAt.value) {
      TextLessTransitive(a.dueAt.value, b.dueAt.value, c.dueAt.value);
    }
  }

  /** On canonical deadlines that is the order of time, and of ids at the same time. */
  lemma BeforeIsTimeOrder(a: Bill, b: Bill)
    requires a.dueAt.Some? && b.dueAt.Some?
    requires ParseCanonical(a.dueAt.value).Some? && ParseCanonical(b.dueAt.value).Some?
    ensures var x, y := Nanos(ParseCanonical(a.dueAt.value).value), Nanos(ParseCanonical(b.dueAt.value).value);
      Before(a, b) <==> x < y || (x == y && a.id < b.id)
  {
    CanonicalText(a.dueAt.value);
    CanonicalText(b.dueAt.value);
    TextOrderIsTimeOrder(ParseCanonical(a.dueAt.value).value, ParseCanonical(b.dueAt.value).value);
  }

  lemma BeforeTotal(a: Bill, b: Bill)
    requires a.dueAt.Some? && b.dueAt.Some? && a.id != b.id
    ensures Before(a, b) <==> !Before(b, a)
  {
    TextTrichotomy(a.dueAt.value, b.dueAt.value);
    if TextLess(a.dueAt.value, b.dueAt.value) {
      TextLessAsymmetric(a.dueAt.value, b.dueAt.value);
    } else if TextLess(b.dueAt.value, a.dueAt.value) {
      TextLessAsymmetric(b.dueAt.value, a.dueAt.value);
    }
  }

  lemma {:induction false} PlaceSorts(b: Bill, s: seq<Bill>)
    requires b.dueAt.Some? && Sorted(s) && forall x :: x in s ==> x.id != b.id
    ensures Sorted(Place(b, s)) && forall x :: x in Place(b, s) <==> x == b || x in s
  {
    if s == [] {
    } else if Before(b, s[0]) {
      forall j | 1 <= j < |s| ensures Before(b, s[j]) {
        BeforeTransitive(b, s[0], s[j]);
      }
    } else {
      BeforeTotal(b, s[0]);
      var rest := Place(b, s[1..]);
      PlaceSorts(b, s[1..]);
      forall j | 0 <= j < |rest| ensures Before(s[0], rest[j]) {
        assert rest[j] in rest;
        if rest[j] in s[1..] {
          var k :| 0 <= k < |s[1..]| && s[1..][k] == rest[j];
          assert Before(s[0], s[k + 1]);
        }
      }
      forall i, j | 0 <= i < j < |[s[0]] + rest| ensures Before(([s[0]] + rest)[i], ([s[0]] + rest)[j]) {
        if i > 0 {
          assert Before(rest[i - 1], rest[j - 1]);
        }
      }
    }
  }

  // ---------------------------------------------------------------------
  // When a partner is suspended, and over which bill
  // ---------------------------------------------------------------------

  /** A complete, non-zero, unpaid invoice whose deadline has passed. */
  ghost predicate Enforceable(b: Bill, now: Instant) {
    && b.mode == "invoice" && b.payment.None? && b.incomplete == 0 && b.total > 0
    && b.dueAt.Some? && ParseCanonical(b.dueAt.value).Some?
    && Nanos(ParseCanonical(b.dueAt.value).value) <= Nanos(now)
  }

  ghost predicate Owes(bills: seq<Bill>, consumer: string, now: Instant) {
    exists b :: b in bills && b.consumer == consumer && Enforceable(b, now)
  }

  ghost predicate Names(status: ServiceStatus, b: Bill) {
    && status.Suspended? && b.dueAt.Some? && ParseCanonical(b.dueAt.value).Some?
    && status == Suspended(b.id, b.date, ParseCanonical(b.dueAt.value).value, b.total)
  }

  /** `b` is the oldest bill that suspends this consumer. */
  ghost predicate IsOldest(bills: seq<Bill>, consumer: string, now: Instant, b: Bill) {
    && b in bills && b.consumer == consumer && Enforceable(b, now)
    && forall other :: other in bills && other.consumer == consumer && Enforceable(other, now) && other != b ==>
         Before(b, other)
  }

  /** What the status of one consumer should be. */
  ghost predicate IsStatusOf(status: ServiceStatus, bills: seq<Bill>, consumer: string, mode: string, now: Instant) {
    && (status.Suspended? <==> mode == "invoice" && Owes(bills, consumer, now))
    && (status.Suspended? ==> exists b :: IsOldest(bills, consumer, now, b) && Names(status, b))
  }

  /** An unpaid invoice whose deadline has passed, whether or not it can be enforced. */
  ghost predicate Overdue(b: Bill, clock: Instant) {
    && b.mode == "invoice" && b.payment.None?
    && b.dueAt.Some? && ParseCanonical(b.dueAt.value).Some?
    && Nanos(ParseCanonical(b.dueAt.value).value) <= Nanos(clock)
  }

  /**
   * What the two queries return: the overdue bills, of one consumer or of all, those with incomplete
   * usage or nothing to pay included; and, for the snapshot, the enforceable ones.
   */
  lemma SelectsExactly(bills: seq<Bill>, q: Query, b: Bill)
    requires Legal(bills) && CanonicalDues(bills)
    ensures b in Select(bills, q) <==>
      && b in bills && (q.consumer.None? || q.consumer == Some(b.consumer))
      && (if q.enforceable then Enforceable(b, q.clock) else Overdue(b, q.clock))
  {
    if b in bills && b.dueAt.Some? {
      DueAsText(b.dueAt.value, q.clock);
    }
  }

  lemma OneStatus(a: ServiceStatus, b: ServiceStatus, bills: seq<Bill>, consumer: string, mode: string, now: Instant)
    requires Legal(bills) && IsStatusOf(a, bills, consumer, mode, now) && IsStatusOf(b, bills, consumer, mode, now)
    ensures a == b
  {
    if a.Suspended? {
      var x :| IsOldest(bills, consumer, now, x) && Names(a, x);
      var y :| IsOldest(bills, consumer, now, y) && Names(b, y);
      if x != y {
        BeforeTotal(x, y);
      }
    }
  }

  /** Comparing the deadline column as text decides what comparing the instants would. */
  lemma DueAsText(due: string, now: Instant)
    requires ParseCanonical(due).Some?
    ensures !TextLess(FormatTs(now), due) <==> Nanos(ParseCanonical(due).value) <= Nanos(now)
  {
    CanonicalText(due);
    TextOrderIsTimeOrder(now, ParseCanonical(due).value);
  }

  /** That is so exactly when every deadline is some instant as `format_ts` writes it. */
  lemma CanonicalDuesExactlyWhen(bills: seq<Bill>)
    ensures CanonicalDues(bills) <==>
      forall b :: b in bills && b.dueAt.Some? ==> exists t: Instant :: b.dueAt.value == FormatTs(t)
  {
    forall b | b in bills && b.dueAt.Some?
      ensures ParseCanonical(b.dueAt.value).Some? <==> exists t: Instant :: b.dueAt.value == FormatTs(t) {
      CanonicalText(b.dueAt.value);
      if t: Instant :| b.dueAt.value == FormatTs(t) {
        RenderedIsCanonical(t);
      }
    }
  }

  lemma RenderedIsCanonical(t: Instant)
    ensures ParseCanonical(FormatTs(t)).Some?
  {
    CanonicalText(FormatTs(t));
  }

  ghost predicate AllOwed(s: seq<Bill>) {
    forall b :: b in s ==>
      b.mode == "invoice" && b.payment.None? && b.dueAt.Some? && ParseCanonical(b.dueAt.value).Some?
  }

  /** `StatusFor` reports the first enforceable row, or none when there is none. */
  lemma {:induction false} FirstWins(now: Instant, s: seq<Bill>, iso: string -> Option<Instant>)
    requires AllOwed(s)
    ensures var status := StatusFor("invoice", now, Rows(s), iso);
      if status.Active? then forall b :: b in s ==> !Enforceable(b, now)
      else exists i :: 0 <= i < |s| && Enforceable(s[i], now) && Names(status, s[i])
                       && forall j :: 0 <= j < i ==> !Enforceable(s[j], now)
  {
    if s != [] {
      if Enforceable(s[0], now) {
        assert Names(StatusFor("invoice", now, Rows(s), iso), s[0]);
      } else {
        FirstWins(now, s[1..], iso);
        var status := StatusFor("invoice", now, Rows(s[1..]), iso);
        assert status == StatusFor("invoice", now, Rows(s), iso);
        if status.Suspended? {
          var i :| 0 <= i < |s[1..]| && Enforceable(s[1..][i], now) && Names(status, s[1..][i])
                   && forall j :: 0 <= j < i ==> !Enforceable(s[1..][j], now);
          assert s[i + 1] == s[1..][i];
          forall j | 0 <= j < i + 1 ensures !Enforceable(s[j], now) {
            if j > 0 {
              assert s[j] == s[1..][j - 1];
            }
          }
        }
      }
    }
  }

  ghost predicate HoldsEnforceable(s: seq<Bill>, bills: seq<Bill>, consumer: string, now: Instant) {
    && (forall b :: b in s ==> b in bills && b.consumer == consumer)
    && (forall b :: b in bills && b.consumer == consumer && Enforceable(b, now) ==> b in s)
  }

  lemma FirstIsOldest(bills: seq<Bill>, consumer: string, now: Instant, s: seq<Bill>, i: nat)
    requires Sorted(s) && HoldsEnforceable(s, bills, consumer, now)
    requires i < |s| && Enforceable(s[i], now) && forall j :: 0 <= j < i ==> !Enforceable(s[j], now)
    ensures IsOldest(bills, consumer, now, s[i])
  {
    assert s[i] in s;
    forall other | other in bills && other.consumer == consumer && Enforceable(other, now) && other != s[i]
      ensures Before(s[i], other) {
      var k :| 0 <= k < |s| && s[k] == other;
      assert k > i;
    }
  }

  /** Rows in order, holding every enforceable bill of this consumer and no one else's, decide its status. */
  lemma {:induction false} OrderedRowsDecide(bills: seq<Bill>, consumer: string, mode: string, now: Instant,
                                             s: seq<Bill>, iso: string -> Option<Instant>)
    requires AllOwed(s) && Sorted(s) && HoldsEnforceable(s, bills, consumer, now)
    ensures IsStatusOf(StatusFor(mode, now, Rows(s), iso), bills, consumer, mode, now)
  {
    if mode == "invoice" {
      var status := StatusFor("invoice", now, Rows(s), iso);
      FirstWins(now, s, iso);
      if status.Suspended? {
        var i :| 0 <= i < |s| && Enforceable(s[i], now) && Names(status, s[i])
                 && forall j :: 0 <= j < i ==> !Enforceable(s[j], now);
        FirstIsOldest(bills, consumer, now, s, i);
      }
    }
  }

  /**
   * The worker's and the dashboard's reading: the status of the whole overdue list is suspended
   * exactly when this consumer owes a bill, and names its oldest. The list may have been read
   * with a clock later than the one it is judged by.
   */
  lemma {:induction false} WholeListDecides(bills: seq<Bill>, consumer: string, mode: string, read: Instant,
                                            now: Instant, iso: string -> Option<Instant>)
    requires Legal(bills) && CanonicalDues(bills) && Nanos(now) <= Nanos(read)
    ensures IsStatusOf(StatusFor(mode, now, Rows(Select(bills, Query(Some(consumer), read, false))), iso),
                       bills, consumer, mode, now)
  {
    var s := Select(bills, Query(Some(consumer), read, false));
    forall b | b in bills && b.consumer == consumer && Enforceable(b, now) ensures b in s {
      DueAsText(b.dueAt.value, read);
    }
    OrderedRowsDecide(bills, consumer, mode, now, s, iso);
  }

  /** The snapshot's subquery: at most one row, the first enforceable one. */
  ghost function Preselected(bills: seq<Bill>, consumer: string, now: Instant): seq<Bill>
    requires Legal(bills)
  {
    var s := Select(bills, Query(Some(consumer), now, true));
    if s == [] then [] else [s[0]]
  }

  lemma {:induction false} PreselectedDecides(bills: seq<Bill>, consumer: string, mode: string, now: Instant,
                                              iso: string -> Option<Instant>)
    requires Legal(bills) && CanonicalDues(bills)
    ensures IsStatusOf(StatusFor(mode, now, Rows(Preselected(bills, consumer, now)), iso), bills, consumer, mode, now)
  {
    var s := Select(bills, Query(Some(consumer), now, true));
    forall b | b in bills && b.consumer == consumer ensures b in s <==> Enforceable(b, now) {
      if b.dueAt.Some? {
        DueAsText(b.dueAt.value, now);
      }
    }
    if s != [] {
      assert s[0] in s;
      FirstWins(now, s, iso);
      FirstWins(now, [s[0]], iso);
      OrderedRowsDecide(bills, consumer, mode, now, s, iso);
      assert StatusFor("invoice", now, Rows([s[0]]), iso) == StatusFor("invoice", now, Rows(s), iso);
    }
  }

  /**
   * The request path and everyone else answer alike: the one row the snapshot pre-selects gives
   * the same status as the whole overdue list, whenever deadlines are canonical texts.
   */
  lemma {:induction false} SnapshotAgrees(bills: seq<Bill>, consumer: string, mode: string, read: Instant, now: Instant,
                       iso: string -> Option<Instant>)
    requires Legal(bills) && CanonicalDues(bills) && Nanos(now) <= Nanos(read)
    ensures StatusFor(mode, now, Rows(Preselected(bills, consumer, now)), iso)
         == StatusFor(mode, now, Rows(Select(bills, Query(Some(consumer), read, false))), iso)
  {
    PreselectedDecides(bills, consumer, mode, now, iso);
    WholeListDecides(bills, consumer, mode, read, now, iso);
    OneStatus(StatusFor(mode, now, Rows(Preselected(bills, consumer, now)), iso),
              StatusFor(mode, now, Rows(Select(bills, Query(Some(consumer), read, false))), iso),
              bills, consumer, mode, now);
  }

  /** Time alone never lifts a suspension: while no bill that suspends is paid, it persists. */
  lemma SuspensionPersists(bills: seq<Bill>, later: seq<Bill>, consumer: string, mode: string, now: Instant,
                           future: Instant, before: ServiceStatus, after: ServiceStatus)
    requires IsStatusOf(before, bills, consumer, mode, now) && IsStatusOf(after, later, consumer, mode, future)
    requires Nanos(now) <= Nanos(future) && forall b :: b in bills ==> b in later
    ensures before.Suspended? ==> after.Suspended?
  {
  }

  // ---------------------------------------------------------------------
  // Exactly when the two readings agree, whatever stands in the deadline column
  // ---------------------------------------------------------------------

  /** A row `StatusFor` stops at. */
  predicate Suspends(row: OverdueRow, now: Instant, iso: string -> Option<Instant>) {
    && row.incomplete == 0 && row.total > 0
    && ParseTs(row.dueAt, iso).Some? && Nanos(ParseTs(row.dueAt, iso).value) <= Nanos(now)
  }

  ghost predicate NoneSuspends(s: seq<Bill>, now: Instant, iso: string -> Option<Instant>) {
    forall i :: 0 <= i < |s| ==> !Suspends(ToOverdueRow(s[i]), now, iso)
  }

  lemma {:induction false} ActiveExactlyWhen(s: seq<Bill>, now: Instant, iso: string -> Option<Instant>)
    ensures StatusFor("invoice", now, Rows(s), iso).Active? <==> NoneSuspends(s, now, iso)
  {
    if s != [] {
      ActiveExactlyWhen(s[1..], now, iso);
      if NoneSuspends(s[1..], now, iso) && !Suspends(ToOverdueRow(s[0]), now, iso) {
        forall i | 0 <= i < |s| ensures !Suspends(ToOverdueRow(s[i]), now, iso) {
          assert i > 0 ==> s[i] == s[1..][i - 1];
        }
      }
    }
  }

  lemma {:induction false} FirstToSuspend(s: seq<Bill>, i: nat, now: Instant, iso: string -> Option<Instant>)
    requires i < |s| && Suspends(ToOverdueRow(s[i]), now, iso)
    requires forall j :: 0 <= j < i ==> !Suspends(ToOverdueRow(s[j]), now, iso)
    ensures StatusFor("invoice", now, Rows(s), iso) == StatusFor("invoice", now, Rows([s[i]]), iso)
  {
    RowsOfOne(s[i]);
    if i > 0 {
      FirstToSuspend(s[1..], i - 1, now, iso);
    }
  }

  /** A row kept with an earlier clock is kept with a later one. */
  lemma LaterClockKeeps(due: string, now: Instant, read: Instant)
    requires !TextLess(FormatTs(now), due) && Nanos(now) <= Nanos(read)
    ensures !TextLess(FormatTs(read), due)
  {
    TextOrderIsTimeOrder(now, read);
    if TextLess(FormatTs(read), due) && now != read {
      TextLessTransitive(FormatTs(now), FormatTs(read), due);
    }
  }

  /** The bill the snapshot pre-selects comes first among the list's complete, non-zero ones. */
  lemma PreselectedComesFirst(bills: seq<Bill>, consumer: string, read: Instant, now: Instant) returns (i: nat)
    requires Legal(bills) && Nanos(now) <= Nanos(read) && Preselected(bills, consumer, now) != []
    ensures var s := Select(bills, Query(Some(consumer), read, false));
      && i < |s| && s[i] == Preselected(bills, consumer, now)[0]
      && forall j :: 0 <= j < i ==> s[j].incomplete != 0 || s[j].total <= 0
  {
    var s, picked := Select(bills, Query(Some(consumer), read, false)), Select(bills, Query(Some(consumer), now, true));
    var p := picked[0];
    assert p in picked;
    LaterClockKeeps(p.dueAt.value, now, read);
    assert p in s;
    i :| 0 <= i < |s| && s[i] == p;
    forall j | 0 <= j < i ensures s[j].incomplete != 0 || s[j].total <= 0 {
      if s[j].incomplete == 0 && s[j].total > 0 {
        EarlierDueIsKept(s[j], p, now);
        assert s[j] in s;
        assert s[j] in picked;
        var k :| 0 <= k < |picked| && picked[k] == s[j];
        BeforeAsymmetric(s[j], p);
      }
    }
  }

  lemma EarlierDueIsKept(b: Bill, p: Bill, now: Instant)
    requires b.dueAt.Some? && p.dueAt.Some? && Before(b, p) && !TextLess(FormatTs(now), p.dueAt.value)
    ensures !TextLess(FormatTs(now), b.dueAt.value)
  {
    if TextLess(FormatTs(now), b.dueAt.value) && TextLess(b.dueAt.value, p.dueAt.value) {
      TextLessTransitive(FormatTs(now), b.dueAt.value, p.dueAt.value);
    }
  }

  /**
   * With any texts in the deadline column, the snapshot's one row and the whole list give the same
   * status exactly when the row it pre-selects is one that suspends, or no row of the list is.
   */
  lemma {:induction false} SnapshotAgreesExactlyWhen(bills: seq<Bill>, consumer: string, mode: string, read: Instant,
                                                     now: Instant, iso: string -> Option<Instant>)
    requires Legal(bills) && Nanos(now) <= Nanos(read)
    ensures var pre, s := Preselected(bills, consumer, now), Select(bills, Query(Some(consumer), read, false));
      StatusFor(mode, now, Rows(pre), iso) == StatusFor(mode, now, Rows(s), iso)
      <==> mode != "invoice" || (pre != [] && Suspends(ToOverdueRow(pre[0]), now, iso)) || NoneSuspends(s, now, iso)
  {
    var pre, s := Preselected(bills, consumer, now), Select(bills, Query(Some(consumer), read, false));
    ActiveExactlyWhen(pre, now, iso);
    ActiveExactlyWhen(s, now, iso);
    if pre != [] && Suspends(ToOverdueRow(pre[0]), now, iso) {
      var i := PreselectedComesFirst(bills, consumer, read, now);
      FirstToSuspend(s, i, now, iso);
    }
  }

  /** Two bills due the same night; the first one's deadline is not a canonical text. */
  function BlankDue(): Bill { Bill(1, "acme", "2026-09-26", "invoice", 5, 0, Some(""), None) }

  function ProperDue(due: Instant): Bill { Bill(2, "acme", "2026-09-27", "invoice", 7, 0, Some(FormatTs(due)), None) }

  /**
   * A list on which they part. This product writes no such deadline; the column admits it. The
   * empty text sorts first, so the snapshot pre-selects it and finds nothing to enforce, while the
   * whole list goes on to the next bill.
   */
  lemma {:induction false} NonCanonicalDueDisagrees(due: Instant, now: Instant, iso: string -> Option<Instant>)
    requires Nanos(due) <= Nanos(now) && iso("").None?
    ensures var bills := [BlankDue(), ProperDue(due)];
      && Legal(bills)
      && StatusFor("invoice", now, Rows(Preselected(bills, "acme", now)), iso) == Active
      && StatusFor("invoice", now, Rows(Select(bills, Query(Some("acme"), now, false))), iso)
         == Suspended(2, "2026-09-27", due, 7)
  {
    var bills := [BlankDue(), ProperDue(due)];
    assert Legal(bills);
    BothSelected(due, now, false);
    BothSelected(due, now, true);
    EmptyIsNoTimestamp();
    TimestampRoundTrip(due, iso);
    assert Preselected(bills, "acme", now) == [BlankDue()];
    RowsOfOne(BlankDue());
    RowsOfTwo(BlankDue(), ProperDue(due));
    var rows := Rows(bills);
    assert StatusFor("invoice", now, rows, iso) == StatusFor("invoice", now, rows[1..], iso);
  }

  lemma RowsOfOne(a: Bill)
    ensures Rows([a]) == [ToOverdueRow(a)]
  {
    assert [a][1..] == [];
  }

  lemma RowsOfTwo(a: Bill, b: Bill)
    ensures Rows([a, b]) == [ToOverdueRow(a), ToOverdueRow(b)]
  {
    RowsOfOne(b);
    assert [a, b][1..] == [b];
  }

  lemma BothSelected(due: Instant, now: Instant, enforceable: bool)
    requires Nanos(due) <= Nanos(now)
    ensures Legal([BlankDue(), ProperDue(due)])
    ensures Select([BlankDue(), ProperDue(due)], Query(Some("acme"), now, enforceable)) == [BlankDue(), ProperDue(due)]
  {
    var a, b, q := BlankDue(), ProperDue(due), Query(Some("acme"), now, enforceable);
    TextOrderIsTimeOrder(now, due);
    TimestampWidth(due);
    assert Keeps(q, a) && Keeps(q, b) && Before(a, b);
    SortedOnce([a, b], Select([a, b], q));
  }

  lemma EmptyIsNoTimestamp()
    ensures ParseCanonical("").None?
  {
    if ParseCanonical("").Some? {
      CanonicalText("");
      TimestampWidth(ParseCanonical("").value);
    }
  }

  lemma BeforeAsymmetric(a: Bill, b: Bill)
    requires a.dueAt.Some? && b.dueAt.Some? && Before(a, b)
    ensures !Before(b, a)
  {
    if TextLess(a.dueAt.value, b.dueAt.value) {
      TextLessAsymmetric(a.dueAt.value, b.dueAt.value);
    } else {
      TextNotLessSelf(a.dueAt.value);
    }
  }

  lemma RestOf(s: seq<Bill>, b: Bill)
    requires Sorted(s) && s != []
    ensures b in s[1..] <==> b in s && b != s[0]
  {
    if b in s[1..] {
      var k :| 0 <= k < |s[1..]| && s[1..][k] == b;
      assert s[k + 1] == b && Before(s[0], b);
      BeforeAsymmetric(s[0], b);
    }
  }

  lemma SameFirst(s: seq<Bill>, t: seq<Bill>)
    requires Sorted(s) && Sorted(t) && s != [] && t != [] && s[0] in t && t[0] in s
    ensures s[0] == t[0]
  {
    if s[0] != t[0] {
      var i :| 0 <= i < |t| && t[i] == s[0];
      var j :| 0 <= j < |s| && s[j] == t[0];
      BeforeAsymmetric(s[0], t[0]);
    }
  }

  /** Two ordered lists of the same bills are the same list. */
  lemma {:induction false} SortedOnce(s: seq<Bill>, t: seq<Bill>)
    requires Sorted(s) && Sorted(t) && forall b :: b in s <==> b in t
    ensures s == t
  {
    assert s != [] ==> s[0] in t;
    assert t != [] ==> t[0] in s;
    if s != [] {
      SameFirst(s, t);
      forall b ensures b in s[1..] <==> b in t[1..] {
        RestOf(s, b);
        RestOf(t, b);
      }
      SortedOnce(s[1..], t[1..]);
      assert s == [s[0]] + s[1..] && t == [t[0]] + t[1..];
    }
  }
}
