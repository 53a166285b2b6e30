/**
 * Usage is conserved over runs of the walk: what the statements account for is what the ledger
 * holds, because a day is drafted only after the close delay has let its last rows in.
 */
module Conservation {
  import opened Prelude
  import opened Period
  import opened Generator
  import opened Usage
  import opened Statements
  import opened Walks

  function Rows(g: Generator, ledger: seq<UsageRow>, consumer: string, day: Day): nat {
    |RowsOfDay(ledger, consumer, day, g.tz)|
  }

  /** A row reaches the ledger within the close delay of being accepted. */
  ghost predicate InTime(world: World, s: State, step: Step) {
    step.Accept? ==> step.row.at >= s.clock - world.g.closeDelayMinutes * MINUTE
  }

  ghost predicate AccurateDraft(g: Generator, ledger: seq<UsageRow>, d: Draft) {
    Accounted(d) == Rows(g, ledger, d.consumer, d.day)
  }

  /** Every written statement, and every draft in some worker's hands, accounts for the ledger as it is now. */
  ghost predicate Accurate(world: World, s: State) {
    && (forall i :: 0 <= i < |s.table| ==> AccurateDraft(world.g, s.ledger, s.table[i]))
    && (forall w :: 0 <= w < |s.workers| && s.workers[w].Holding? ==>
         AccurateDraft(world.g, s.ledger, s.workers[w].draft))
  }

  lemma RowsSnoc(g: Generator, ledger: seq<UsageRow>, row: UsageRow, consumer: string, day: Day)
    ensures Rows(g, ledger + [row], consumer, day)
         == Rows(g, ledger, consumer, day) + (if row.consumer == consumer && DayOf(row.at, g.tz) == day then 1 else 0)
  {
    assert (ledger + [row])[..|ledger|] == ledger;
    ContainsExactly(day, g.tz, row.at);
  }

  lemma {:induction false} RowsReplace(g: Generator, ledger: seq<UsageRow>, i: nat, row: UsageRow,
                                       consumer: string, day: Day)
    requires i < |ledger| && row.consumer == ledger[i].consumer && row.at == ledger[i].at
    ensures Rows(g, ledger[i := row], consumer, day) == Rows(g, ledger, consumer, day)
  {
    var most, last := ledger[..|ledger| - 1], ledger[|ledger| - 1];
    if i < |most| {
      RowsReplace(g, most, i, row, consumer, day);
      assert ledger[i := row] == most[i := row] + [last];
      RowsSnoc(g, most[i := row], last, consumer, day);
    } else {
      assert ledger[i := row] == most + [row];
      RowsSnoc(g, most, row, consumer, day);
    }
    RowsSnoc(g, most, last, consumer, day);
    assert ledger == most + [last];
  }

  /** A row that comes in time is not of a day that could already have been drafted. */
  lemma InTimeIsNotSettled(g: Generator, clock: int, at: int, day: Day)
    requires at >= clock - g.closeDelayMinutes * MINUTE && g.CutoffFor(day) <= clock
    ensures DayOf(at, g.tz) != day
  {
    ContainsExactly(day, g.tz, at);
  }

  /**
   * The delay is no longer than it has to be: a row accepted in the last nanosecond of its day is in
   * time exactly while that day may not be closed yet.
   */
  lemma InTimeUntilTheCutoff(world: World, s: State, row: UsageRow)
    requires row.at == EndExclusiveUtc(DayOf(row.at, world.g.tz), world.g.tz) - 1
    ensures InTime(world, s, Accept(row)) <==> s.clock < world.g.CutoffFor(DayOf(row.at, world.g.tz))
  {
  }

  /** Exactly which arrivals the statements miss: one row of a day already stated, or already drafted. */
  lemma ArrivalMissedExactlyWhen(world: World, s: State, row: UsageRow)
    requires Accurate(world, s)
    ensures Accurate(world, Apply(world, s, Accept(row))) <==>
      && !Has(s.table, row.consumer, DayOf(row.at, world.g.tz))
      && (forall w :: 0 <= w < |s.workers| && s.workers[w].Holding? ==>
           !IsFor(s.workers[w].draft, row.consumer, DayOf(row.at, world.g.tz)))
  {
    var s', day := Apply(world, s, Accept(row)), DayOf(row.at, world.g.tz);
    forall d: Draft ensures AccurateDraft(world.g, s.ledger, d) ==>
        (AccurateDraft(world.g, s'.ledger, d) <==> !IsFor(d, row.consumer, day)) {
      RowsSnoc(world.g, s.ledger, row, d.consumer, d.day);
    }
    if Has(s.table, row.consumer, day) {
      var i :| 0 <= i < |s.table| && IsFor(s.table[i], row.consumer, day);
      assert !AccurateDraft(world.g, s'.ledger, s'.table[i]);
    }
  }

  lemma AcceptKeepsAccurate(world: World, s: State, row: UsageRow)
    requires Sound(world, s) && Accurate(world, s) && InTime(world, s, Accept(row))
    ensures Accurate(world, Apply(world, s, Accept(row)))
  {
    var day := DayOf(row.at, world.g.tz);
    if Has(s.table, row.consumer, day) {
      InTimeIsNotSettled(world.g, s.clock, row.at, day);
    }
    forall w | 0 <= w < |s.workers| && s.workers[w].Holding?
      ensures !IsFor(s.workers[w].draft, row.consumer, day)
    {
      CutoffMonotone(world.g, s.workers[w].next, s.workers[w].through);
      InTimeIsNotSettled(world.g, s.clock, row.at, s.workers[w].next);
    }
    ArrivalMissedExactlyWhen(world, s, row);
  }

  lemma FinaliseKeepsAccurate(world: World, s: State, i: nat, row: UsageRow)
    requires Accurate(world, s) && Enabled(world, s, Finalise(i, row))
    ensures Accurate(world, Apply(world, s, Finalise(i, row)))
  {
    forall d: Draft ensures AccurateDraft(world.g, s.ledger, d) == AccurateDraft(world.g, s.ledger[i := row], d) {
      RowsReplace(world.g, s.ledger, i, row, d.consumer, d.day);
    }
  }

  lemma DraftKeepsAccurate(world: World, s: State, w: nat, keys: seq<Key>)
    requires Accurate(world, s) && Enabled(world, s, DraftDay(w, keys))
    ensures Accurate(world, Apply(world, s, DraftDay(w, keys)))
  {
    var k := s.workers[w];
    var rows := DayRows(world.g, s, k.partner.consumer, k.next);
    var d := DraftOf(world.g, k.partner, k.next, GroupsBy(keys, rows));
    assert AccurateDraft(world.g, s.ledger, d) by {
      DraftAccountsForEveryRow(world.g, k.partner, k.next, s.ledger, keys);
    }
    PutKeepsAccurate(world, s, w, Holding(k.partner, k.next, k.through, k.failed, d));
  }

  lemma PutKeepsAccurate(world: World, s: State, w: nat, k: Worker)
    requires Accurate(world, s) && w < |s.workers|
    requires k.Holding? ==> AccurateDraft(world.g, s.ledger, k.draft)
    ensures Accurate(world, Put(s, w, k))
  {
  }

  lemma StepKeepsAccurate(world: World, s: State, step: Step)
    requires Sound(world, s) && Accurate(world, s) && Enabled(world, s, step) && InTime(world, s, step)
    ensures Accurate(world, Apply(world, s, step))
  {
    match step {
      case Accept(row) => AcceptKeepsAccurate(world, s, row);
      case Finalise(i, row) => FinaliseKeepsAccurate(world, s, i, row);
      case DraftDay(w, keys) => DraftKeepsAccurate(world, s, w, keys);
      case _ =>
    }
  }

  ghost predicate InTimeRun(world: World, s: State, steps: seq<Step>)
    requires CanRun(world, s, steps)
    decreases |steps|
  {
    steps == [] || (InTime(world, s, steps[0]) && InTimeRun(world, Apply(world, s, steps[0]), steps[1..]))
  }

  /** Such a run is one in which every arrival is in time at its step. */
  lemma {:induction false} InTimeRunExactlyWhen(world: World, s: State, steps: seq<Step>)
    requires CanRun(world, s, steps)
    ensures InTimeRun(world, s, steps) <==>
      forall k :: 0 <= k < |steps| && steps[k].Accept? ==>
        steps[k].row.at >= StateAt(world, s, steps, k).clock - world.g.closeDelayMinutes * MINUTE
    decreases |steps|
  {
    if steps != [] {
      var next, rest := Apply(world, s, steps[0]), steps[1..];
      InTimeRunExactlyWhen(world, next, rest);
      assert forall k :: 0 <= k < |rest| ==> rest[k] == steps[k + 1];
      assert forall k :: 0 <= k < |rest| ==> StateAt(world, next, rest, k) == StateAt(world, s, steps, k + 1);
      if InTimeRun(world, s, steps) {
        forall k | 0 <= k < |steps| && steps[k].Accept?
          ensures steps[k].row.at >= StateAt(world, s, steps, k).clock - world.g.closeDelayMinutes * MINUTE {
          if k > 0 {
            assert rest[k - 1] == steps[k];
          }
        }
      }
    }
  }

  /** Over every run whose rows come in time, every statement accounts for exactly the rows its day holds now. */
  lemma {:induction false} RunsAreAccurate(world: World, s: State, steps: seq<Step>)
    requires Sound(world, s) && Accurate(world, s) && CanRun(world, s, steps) && InTimeRun(world, s, steps)
    ensures Accurate(world, RunTo(world, s, steps))
    decreases |steps|
  {
    if steps != [] {
      StepKeepsSound(world, s, steps[0]);
      StepKeepsAccurate(world, s, steps[0]);
      RunsAreAccurate(world, Apply(world, s, steps[0]), steps[1..]);
    }
  }

  // ---------------------------------------------------------------------
  // From single statements to a partner's whole history
  // ---------------------------------------------------------------------

  function AccountedFor(t: Table, consumer: string): nat {
    if t == [] then 0
    else AccountedFor(t[..|t| - 1], consumer) + (if t[|t| - 1].consumer == consumer then Accounted(t[|t| - 1]) else 0)
  }

  /** How many of a consumer's rows fall on a day that has a statement. */
  function StatedRows(g: Generator, ledger: seq<UsageRow>, t: Table, consumer: string): nat {
    if ledger == [] then 0
    else
      var last := ledger[|ledger| - 1];
      StatedRows(g, ledger[..|ledger| - 1], t, consumer)
      + (if last.consumer == consumer && Has(t, consumer, DayOf(last.at, g.tz)) then 1 else 0)
  }

  /** How many of a consumer's rows were accepted from one instant up to another. */
  function RowsBetween(ledger: seq<UsageRow>, consumer: string, from: int, to: int): nat {
    if ledger == [] then 0
    else
      var last := ledger[|ledger| - 1];
      RowsBetween(ledger[..|ledger| - 1], consumer, from, to)
      + (if last.consumer == consumer && from <= last.at < to then 1 else 0)
  }

  lemma {:induction false} OneMoreStatement(g: Generator, ledger: seq<UsageRow>, t: Table, d: Draft, consumer: string)
    requires !Has(t, d.consumer, d.day)
    ensures StatedRows(g, ledger, t + [d], consumer)
         == StatedRows(g, ledger, t, consumer)
            + (if d.consumer == consumer then Rows(g, ledger, consumer, d.day) else 0)
  {
    if ledger != [] {
      var most, last := ledger[..|ledger| - 1], ledger[|ledger| - 1];
      OneMoreStatement(g, most, t, d, consumer);
      RowsSnoc(g, most, last, consumer, d.day);
      HasSnoc(t, d);
      assert ledger == most + [last];
    }
  }

  lemma {:induction false} StatedRowsOfEmpty(g: Generator, ledger: seq<UsageRow>, consumer: string)
    ensures StatedRows(g, ledger, [], consumer) == 0
  {
    if ledger != [] {
      StatedRowsOfEmpty(g, ledger[..|ledger| - 1], consumer);
    }
  }

  lemma {:induction false} StatementsAddUp(g: Generator, ledger: seq<UsageRow>, t: Table, consumer: string)
    requires Unique(t) && forall i :: 0 <= i < |t| ==> AccurateDraft(g, ledger, t[i])
    ensures AccountedFor(t, consumer) == StatedRows(g, ledger, t, consumer)
  {
    if t == [] {
      StatedRowsOfEmpty(g, ledger, consumer);
    } else {
      var most, last := t[..|t| - 1], t[|t| - 1];
      assert forall i :: 0 <= i < |most| ==> most[i] == t[i];
      StatementsAddUp(g, ledger, most, consumer);
      assert !Has(most, last.consumer, last.day);
      OneMoreStatement(g, ledger, most, last, consumer);
      assert t == most + [last];
    }
  }

  lemma {:induction false} StatedRowsOfRun(g: Generator, ledger: seq<UsageRow>, t: Table, consumer: string, first: Day)
    requires Contiguous(t, consumer, first)
    ensures StatedRows(g, ledger, t, consumer)
         == RowsBetween(ledger, consumer, StartUtc(first, g.tz), EndExclusiveUtc(NewestOr(t, consumer, first), g.tz))
  {
    if ledger != [] {
      StatedRowsOfRun(g, ledger[..|ledger| - 1], t, consumer, first);
      DaysTile(first, NewestOr(t, consumer, first), g.tz, ledger[|ledger| - 1].at);
    }
  }

  /**
   * Conservation: over every orderly run whose rows come in time, the requests and incomplete
   * counts on a partner's statements add up to that partner's usage rows, from the start of the
   * day it was created to the end of its newest stated day; none twice, none missing.
   */
  lemma UsageIsConserved(world: World, s: State, steps: seq<Step>, consumer: string)
    requires Init(s) && CanRun(world, s, steps)
    requires CreationKnown(world, consumer)
    requires OrderlyRun(world, s, steps, consumer) && InTimeRun(world, s, steps)
    ensures var last := RunTo(world, s, steps);
      AccountedFor(last.table, consumer)
        == RowsBetween(last.ledger, consumer, StartUtc(First(world, consumer), world.g.tz),
             EndExclusiveUtc(NewestOr(last.table, consumer, First(world, consumer)), world.g.tz))
  {
    var last := RunTo(world, s, steps);
    InitIsGood(world, s, consumer);
    RunsAreSound(world, s, steps);
    RunsLeaveNoGap(world, s, steps, consumer);
    RunsAreAccurate(world, s, steps);
    StatementsAddUp(world.g, last.ledger, last.table, consumer);
    StatedRowsOfRun(world.g, last.ledger, last.table, consumer, First(world, consumer));
  }

  // ---------------------------------------------------------------------
  // A row that comes too late is lost
  // ---------------------------------------------------------------------

  lemma RowsOnlyGrow(world: World, s: State, step: Step, consumer: string, day: Day)
    requires Enabled(world, s, step)
    ensures Rows(world.g, s.ledger, consumer, day) <= Rows(world.g, Apply(world, s, step).ledger, consumer, day)
  {
    match step {
      case Accept(row) => RowsSnoc(world.g, s.ledger, row, consumer, day);
      case Finalise(i, row) => RowsReplace(world.g, s.ledger, i, row, consumer, day);
      case _ =>
    }
  }

  /** Once a statement misses a row, it misses it in every run: nothing ever writes that day again. */
  lemma {:induction false} LateRowsAreLost(world: World, s: State, steps: seq<Step>, i: nat)
    requires Sound(world, s) && CanRun(world, s, steps)
    requires i < |s.table| && Accounted(s.table[i]) < Rows(world.g, s.ledger, s.table[i].consumer, s.table[i].day)
    ensures var last := RunTo(world, s, steps);
      && i < |last.table| && last.table[i] == s.table[i]
      && Accounted(last.table[i]) < Rows(world.g, last.ledger, last.table[i].consumer, last.table[i].day)
    decreases |steps|
  {
    if steps != [] {
      var s' := Apply(world, s, steps[0]);
      StepKeepsSound(world, s, steps[0]);
      RowsOnlyGrow(world, s, steps[0], s.table[i].consumer, s.table[i].day);
      assert s'.table[i] == s.table[i];
      LateRowsAreLost(world, s', steps[1..], i);
    }
  }

  // ---------------------------------------------------------------------
  // Late or not: what a statement counts is the ledger it was drafted from
  // ---------------------------------------------------------------------

  ghost predicate Holds(s: State, w: nat, d: Draft) {
    w < |s.workers| && s.workers[w].Holding? && s.workers[w].draft == d
  }

  /** Step `k` of the run is the one that drafts `d`. */
  ghost predicate DraftedAt(world: World, s: State, steps: seq<Step>, k: nat, d: Draft)
    requires CanRun(world, s, steps)
  {
    && k < |steps| && steps[k].DraftDay?
    && Enabled(world, StateAt(world, s, steps, k), steps[k])
    && Holds(Apply(world, StateAt(world, s, steps, k), steps[k]), steps[k].w, d)
  }

  ghost predicate InHands(s: State, d: Draft) {
    exists w: nat :: Holds(s, w, d)
  }

  ghost predicate DraftedOnTheWay(world: World, s: State, steps: seq<Step>, d: Draft)
    requires CanRun(world, s, steps)
  {
    exists k: nat :: DraftedAt(world, s, steps, k, d)
  }

  /** A statement a run leaves in the table was there before, was in some hands, or was drafted on the way. */
  lemma {:induction false} StatementsComeFromDrafts(world: World, s: State, steps: seq<Step>, i: nat)
    requires CanRun(world, s, steps) && i < |RunTo(world, s, steps).table|
    ensures var d := RunTo(world, s, steps).table[i];
      (i < |s.table| && s.table[i] == d) || InHands(s, d) || DraftedOnTheWay(world, s, steps, d)
    decreases |steps|
  {
    if steps != [] {
      var next, d := Apply(world, s, steps[0]), RunTo(world, s, steps).table[i];
      StatementsComeFromDrafts(world, next, steps[1..], i);
      if DraftedOnTheWay(world, next, steps[1..], d) {
        DraftedOneLater(world, s, steps, d);
      } else if InHands(next, d) {
        var w: nat :| Holds(next, w, d);
        HeldSinceOrDrafted(world, s, steps, w, d);
      } else {
        WrittenFromHands(world, s, steps[0], i);
      }
    }
  }

  lemma DraftedOneLater(world: World, s: State, steps: seq<Step>, d: Draft)
    requires CanRun(world, s, steps) && steps != []
    requires DraftedOnTheWay(world, Apply(world, s, steps[0]), steps[1..], d)
    ensures DraftedOnTheWay(world, s, steps, d)
  {
    var k: nat :| DraftedAt(world, Apply(world, s, steps[0]), steps[1..], k, d);
    assert steps[k + 1] == steps[1..][k];
    assert StateAt(world, s, steps, k + 1) == StateAt(world, Apply(world, s, steps[0]), steps[1..], k);
    assert DraftedAt(world, s, steps, k + 1, d);
  }

  lemma HeldBefore(world: World, s: State, step: Step, w: nat, d: Draft)
    requires Enabled(world, s, step) && Holds(Apply(world, s, step), w, d)
    ensures Holds(s, w, d) || (step.DraftDay? && step.w == w)
  {
  }

  lemma HeldSinceOrDrafted(world: World, s: State, steps: seq<Step>, w: nat, d: Draft)
    requires CanRun(world, s, steps) && steps != [] && Holds(Apply(world, s, steps[0]), w, d)
    ensures InHands(s, d) || DraftedOnTheWay(world, s, steps, d)
  {
    HeldBefore(world, s, steps[0], w, d);
    if !Holds(s, w, d) {
      assert StateAt(world, s, steps, 0) == s;
      assert DraftedAt(world, s, steps, 0, d);
    }
  }

  lemma WrittenFromHands(world: World, s: State, step: Step, i: nat)
    requires Enabled(world, s, step) && i < |Apply(world, s, step).table|
    ensures (i < |s.table| && s.table[i] == Apply(world, s, step).table[i])
         || InHands(s, Apply(world, s, step).table[i])
  {
    if step.Write? && i >= |s.table| {
      assert Holds(s, step.w, Apply(world, s, step).table[i]);
    }
  }

  lemma {:induction false} LaterLedgerHoldsNoFewer(world: World, s: State, steps: seq<Step>, k: nat,
                                                   consumer: string, day: Day)
    requires CanRun(world, s, steps) && k <= |steps|
    ensures Rows(world.g, StateAt(world, s, steps, k).ledger, consumer, day)
         <= Rows(world.g, RunTo(world, s, steps).ledger, consumer, day)
    decreases |steps|
  {
    if steps != [] {
      var next := Apply(world, s, steps[0]);
      RowsOnlyGrow(world, s, steps[0], consumer, day);
      LaterLedgerHoldsNoFewer(world, next, steps[1..], if k == 0 then 0 else k - 1, consumer, day);
    }
  }

  /**
   * Without any hypothesis on when rows arrive, or on what fails: every statement of every run was
   * drafted at some step of it, accounts for exactly the rows its day held at that step, and so
   * never for more than the day holds now.
   */
  lemma EveryStatementCountsItsDraftTime(world: World, s: State, steps: seq<Step>, i: nat) returns (k: nat)
    requires Init(s) && CanRun(world, s, steps) && i < |RunTo(world, s, steps).table|
    ensures var d := RunTo(world, s, steps).table[i];
      && DraftedAt(world, s, steps, k, d)
      && Accounted(d) == Rows(world.g, StateAt(world, s, steps, k).ledger, d.consumer, d.day)
      && Accounted(d) <= Rows(world.g, RunTo(world, s, steps).ledger, d.consumer, d.day)
  {
    InitIsGood(world, s, "");
    StatementsComeFromDrafts(world, s, steps, i);
    var d := RunTo(world, s, steps).table[i];
    assert !InHands(s, d);
    k :| DraftedAt(world, s, steps, k, d);
    var at, w := StateAt(world, s, steps, k), steps[k].w;
    DraftAccountsForEveryRow(world.g, at.workers[w].partner, at.workers[w].next, at.ledger, steps[k].keys);
    LaterLedgerHoldsNoFewer(world, s, steps, k, d.consumer, d.day);
  }
}
