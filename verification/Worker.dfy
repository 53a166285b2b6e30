/**
 * One scheduler's tick (`src/billing/worker.rs`): for every partner, walk forward from its newest
 * statement and write one statement a day, counting what happened.
 */
module Worker {
  import opened Prelude
  import opened Period
  import opened Generator
  import opened Pricing
  import opened Usage
  import opened Statements

  /**
   * What the database does to one (partner, day) of a tick. The statement is read back after its
   * insert has committed, so that read can fail too.
   */
  datatype Fault = NoFault | ReadFails | WriteFails | ReadBackFails

  /** Everything the database may refuse during one tick. */
  datatype Faults = Faults(list: bool, anchors: set<string>, days: map<(string, Day), Fault>)

  function FaultOn(f: Faults, consumer: string, day: Day): Fault {
    if (consumer, day) in f.days then f.days[(consumer, day)] else NoFault
  }

  datatype BillingError = Database | Invalid

  // ---------------------------------------------------------------------
  // The read: one enumeration of the day's keys
  // ---------------------------------------------------------------------

  /** The keys of `rows`, in the order they first appear. */
  function KeysOf(rows: seq<UsageRow>): seq<Key> {
    if rows == [] then []
    else
      var most, k := KeysOf(rows[..|rows| - 1]), KeyOf(rows[|rows| - 1]);
      if k in most then most else most + [k]
  }

  lemma {:induction false} KeysOfIsKeyList(rows: seq<UsageRow>)
    ensures IsKeyList(KeysOf(rows), rows)
  {
    if rows != [] {
      var n := |rows| - 1;
      KeysOfIsKeyList(rows[..n]);
      forall i | 0 <= i < |rows| ensures KeyOf(rows[i]) in KeysOf(rows) {
        if i < n {
          assert rows[i] == rows[..n][i];
        }
      }
    }
  }

  function GroupsOfDay(g: Generator, partner: Partner, day: Day, ledger: seq<UsageRow>): seq<UsageGroup> {
    var rows := RowsOfDay(ledger, partner.consumer, day, g.tz);
    GroupsBy(KeysOf(rows), rows)
  }

  function DraftFor(g: Generator, partner: Partner, day: Day, ledger: seq<UsageRow>): Draft {
    DraftOf(g, partner, day, GroupsOfDay(g, partner, day, ledger))
  }

  predicate ReadSucceeds(g: Generator, partner: Partner, day: Day, ledger: seq<UsageRow>, fault: Fault) {
    fault != ReadFails && SumsFit(GroupsOfDay(g, partner, day, ledger))
  }

  /** Whether this tick leaves this day as it was. It does not depend on what is already stated. */
  predicate DayFails(g: Generator, partner: Partner, day: Day, ledger: seq<UsageRow>, fault: Fault) {
    || !ReadSucceeds(g, partner, day, ledger, fault)
    || fault == WriteFails
    || !Writable(DraftFor(g, partner, day, ledger))
  }

  /** What a tick would write for each day, or nothing where it writes nothing. */
  type Plan = Day -> Option<Draft>

  function PlanFor(g: Generator, partner: Partner, ledger: seq<UsageRow>, f: Faults): Plan {
    (day: Day) =>
      if DayFails(g, partner, day, ledger, FaultOn(f, partner.consumer, day)) then None
      else Some(DraftFor(g, partner, day, ledger))
  }

  /** A day is written exactly when its read and write succeed, its sums and total fit, and its deadline exists. */
  lemma PlanStatesExactlyWhen(g: Generator, partner: Partner, ledger: seq<UsageRow>, f: Faults, day: Day)
    ensures var fault, groups := FaultOn(f, partner.consumer, day), GroupsOfDay(g, partner, day, ledger);
      PlanFor(g, partner, ledger, f)(day).Some? <==>
        && fault != ReadFails && fault != WriteFails
        && SumsFit(groups) && TotalFits(LinesOf(groups)) && Payable(g, partner, day)
  {
    DraftIsWritableExactlyWhen(g, partner, day, GroupsOfDay(g, partner, day, ledger));
  }

  function After(t: Table, outcome: Option<Draft>): Table {
    match outcome case Some(d) => Insert(t, d) case None => t
  }

  /** The table after `n` days of a walk starting on `first`. */
  function TableAfterDays(t: Table, plan: Plan, first: Day, n: nat): Table {
    if n == 0 then t else After(TableAfterDays(t, plan, first, n - 1), plan(first + n - 1))
  }

  lemma {:induction false} OneMoreDay(t: Table, plan: Plan, first: Day, n: nat, day: Day)
    requires day == first + n
    ensures TableAfterDays(t, plan, first, n + 1) == After(TableAfterDays(t, plan, first, n), plan(day))
  {
  }

  /** The statement is new and in the table, and the tick is told that writing it failed. */
  predicate LostReport(t: Table, plan: Plan, f: Faults, consumer: string, day: Day) {
    plan(day).Some? && FaultOn(f, consumer, day) == ReadBackFails && !Has(t, consumer, day)
  }

  /** How many of the first `n` days of a walk end that way. */
  function Unreported(t: Table, plan: Plan, f: Faults, consumer: string, first: Day, n: nat): nat {
    if n == 0 then 0
    else
      Unreported(t, plan, f, consumer, first, n - 1) +
      if LostReport(TableAfterDays(t, plan, first, n - 1), plan, f, consumer, first + n - 1) then 1 else 0
  }

  lemma {:induction false} OneMoreReport(t: Table, plan: Plan, f: Faults, consumer: string, first: Day,
                                         n: nat, day: Day)
    requires day == first + n
    ensures Unreported(t, plan, f, consumer, first, n + 1)
         == Unreported(t, plan, f, consumer, first, n)
            + if LostReport(TableAfterDays(t, plan, first, n), plan, f, consumer, day) then 1 else 0
  {
  }

  function WalkLength(first: Day, through: Day): nat {
    Max(0, through + 1 - first)
  }

  function WalkStart(g: Generator, t: Table, partner: Partner, through: Day): Day {
    g.FirstDay(Some(AnchorFor(g, t, partner, through)), through)
  }

  /**
   * A partner with no statement whose creation time cannot be read: the walk covers a day less than
   * the bound, and is not reported as cut short, although nothing before the bound was looked at.
   */
  lemma UnreadableCreationIsNotReported(g: Generator, t: Table, partner: Partner, through: Day)
    requires Newest(t, partner.consumer).None? && partner.createdAt.None?
    ensures WalkLength(WalkStart(g, t, partner, through), through) == MAX_CATCHUP_DAYS - 1
    ensures !g.CatchupTruncated(Some(AnchorFor(g, t, partner, through)), through)
    ensures g.CatchupTruncated(None, through)
  {
  }

  function TableAfterWalk(g: Generator, t: Table, partner: Partner, through: Day, plan: Plan): Table {
    var first := WalkStart(g, t, partner, through);
    TableAfterDays(t, plan, first, WalkLength(first, through))
  }

  /** A pass so far: the table, and whether every anchor could be read. */
  datatype Pass = Pass(table: Table, ok: bool)

  function PassOver(g: Generator, t: Table, partners: seq<Partner>, through: Day, ledger: seq<UsageRow>, f: Faults)
    : Pass
    decreases |partners|
  {
    if partners == [] then Pass(t, true)
    else if partners[0].consumer in f.anchors then Pass(t, false)
    else
      var t' := TableAfterWalk(g, t, partners[0], through, PlanFor(g, partners[0], ledger, f));
      PassOver(g, t', partners[1..], through, ledger, f)
  }

  function UnreportedInWalk(g: Generator, t: Table, partner: Partner, through: Day, plan: Plan, f: Faults): nat {
    var first := WalkStart(g, t, partner, through);
    Unreported(t, plan, f, partner.consumer, first, WalkLength(first, through))
  }

  function UnreportedOver(g: Generator, t: Table, partners: seq<Partner>, through: Day, ledger: seq<UsageRow>,
                          f: Faults)
    : nat
    decreases |partners|
  {
    if partners == [] || partners[0].consumer in f.anchors then 0
    else
      var plan := PlanFor(g, partners[0], ledger, f);
      UnreportedInWalk(g, t, partners[0], through, plan, f)
      + UnreportedOver(g, TableAfterWalk(g, t, partners[0], through, plan), partners[1..], through, ledger, f)
  }

  // ---------------------------------------------------------------------
  // The store, the tally and the tick
  // ---------------------------------------------------------------------

  class BillingStore {
    var statements: Table

    constructor ()
      ensures statements == []
    {
      statements := [];
    }

    /**
     * Writes the statement, reads it back, and reports whether it was this call that created it. A
     * failed read-back is an error over a statement that is in the table.
     */
    method WriteStatement(draft: Draft, fault: Fault) returns (r: Result<bool, BillingError>)
      modifies this
      ensures r.Err? <==>
        !Writable(draft) || fault == WriteFails || fault == ReadBackFails
      ensures statements == if Writable(draft) && fault != WriteFails
                            then Insert(old(statements), draft) else old(statements)
      ensures r.Ok? ==> (r.value <==> !Has(old(statements), draft.consumer, draft.day))
    {
      if !Writable(draft) {
        return Err(Invalid);
      }
      if fault == WriteFails {
        return Err(Database);
      }
      var inserted := !Has(statements, draft.consumer, draft.day);
      if inserted {
        statements := statements + [draft];
      }
      if fault == ReadBackFails {
        return Err(Database);
      }
      return Ok(inserted);
    }

    method LastStatementDateFor(consumer: string) returns (day: Option<Day>)
      ensures day == Newest(statements, consumer)
    {
      day := Newest(statements, consumer);
    }
  }

  class Tick {
    var days: nat
    var created: nat
    var existing: nat
    var incomplete: nat
    var failures: nat

    constructor ()
      ensures days == 0 && created == 0 && existing == 0 && incomplete == 0 && failures == 0 && Balanced()
    {
      days, created, existing, incomplete, failures := 0, 0, 0, 0, 0;
    }

    /** Every day reached ended in exactly one of three ways. */
    ghost predicate Balanced()
      reads this
    {
      days == created + existing + failures && incomplete <= created
    }
  }

  class Worker {
    const store: BillingStore
    const g: Generator

    constructor (store: BillingStore, g: Generator)
      ensures this.store == store && this.g == g
    {
      this.store := store;
      this.g := g;
    }

    /** How many statements this tick does not count as created: a method that keeps it counts exactly its inserts. */
    ghost function Unwritten(tick: Tick): int
      reads store, tick
    {
      |store.statements| - tick.created
    }

    /** Creates the statement, finds it there, or fails; a failed read-back fails over a written statement. */
    method CloseDay(partner: Partner, day: Day, ledger: seq<UsageRow>, f: Faults, tick: Tick, ghost plan: Plan)
      requires plan == PlanFor(g, partner, ledger, f)
      modifies store, tick
      ensures store.statements == After(old(store.statements), plan(day))
      ensures tick.days == old(tick.days)
      ensures Unwritten(tick)
           == old(Unwritten(tick)) + if LostReport(old(store.statements), plan, f, partner.consumer, day) then 1 else 0
      ensures tick.failures == old(tick.failures)
           + if plan(day).None? || FaultOn(f, partner.consumer, day) == ReadBackFails then 1 else 0
      ensures tick.created + tick.existing + tick.failures
           == old(tick.created) + old(tick.existing) + old(tick.failures) + 1
      ensures tick.incomplete - old(tick.incomplete)
           == if tick.created > old(tick.created) && plan(day).value.incomplete > 0 then 1 else 0
    {
      var fault := FaultOn(f, partner.consumer, day);
      var groups := GroupsOfDay(g, partner, day, ledger);
      if fault == ReadFails || !SumsFit(groups) {
        tick.failures := tick.failures + 1;
        return;
      }
      var draft := StatementForDay(g, partner, day, groups);
      var outcome := store.WriteStatement(draft, fault);
      match outcome {
        case Ok(true) =>
          tick.created := tick.created + 1;
          if draft.incomplete > 0 {
            tick.incomplete := tick.incomplete + 1;
          }
        case Ok(false) => tick.existing := tick.existing + 1;
        case Err(_) => tick.failures := tick.failures + 1;
      }
    }

    /** The body of the loop over days: the day is counted, then closed. */
    method CountDay(partner: Partner, day: Day, ledger: seq<UsageRow>, f: Faults, tick: Tick, ghost plan: Plan)
      requires tick.Balanced() && plan == PlanFor(g, partner, ledger, f)
      modifies store, tick
      ensures store.statements == After(old(store.statements), plan(day))
      ensures tick.Balanced() && tick.days == old(tick.days) + 1
      ensures Unwritten(tick)
           == old(Unwritten(tick)) + if LostReport(old(store.statements), plan, f, partner.consumer, day) then 1 else 0
    {
      tick.days := tick.days + 1;
      CloseDay(partner, day, ledger, f, tick, plan);
    }

    method RunDays(partner: Partner, first: Day, days: seq<Day>, ledger: seq<UsageRow>, f: Faults, tick: Tick,
                   ghost plan: Plan)
      requires tick.Balanced() && forall i :: 0 <= i < |days| ==> days[i] == first + i
      requires plan == PlanFor(g, partner, ledger, f)
      modifies store, tick
      ensures store.statements == TableAfterDays(old(store.statements), plan, first, |days|)
      ensures tick.Balanced() && tick.days == old(tick.days) + |days|
      ensures Unwritten(tick)
           == old(Unwritten(tick)) + Unreported(old(store.statements), plan, f, partner.consumer, first, |days|)
    {
      for i := 0 to |days|
        invariant store.statements == TableAfterDays(old(store.statements), plan, first, i)
        invariant tick.Balanced() && tick.days == old(tick.days) + i
        invariant Unwritten(tick)
               == old(Unwritten(tick)) + Unreported(old(store.statements), plan, f, partner.consumer, first, i)
      {
        OneMoreDay(old(store.statements), plan, first, i, days[i]);
        OneMoreReport(old(store.statements), plan, f, partner.consumer, first, i, days[i]);
        CountDay(partner, days[i], ledger, f, tick, plan);
      }
    }

    /** The newest stated day, or the day before the partner existed. */
    method AnchorOf(partner: Partner, through: Day) returns (anchor: Day)
      ensures anchor == AnchorFor(g, store.statements, partner, through)
    {
      var newest := store.LastStatementDateFor(partner.consumer);
      match newest {
        case Some(day) => return day;
        case None =>
      }
      match partner.createdAt {
        case Some(created) => return DayOf(created, g.tz) - 1;
        case None => return g.OldestCloseable(through);
      }
    }

    method WalkPartner(partner: Partner, through: Day, ledger: seq<UsageRow>, f: Faults, tick: Tick)
      requires tick.Balanced()
      modifies store, tick
      ensures store.statements
           == TableAfterWalk(g, old(store.statements), partner, through, PlanFor(g, partner, ledger, f))
      ensures tick.Balanced()
      ensures Unwritten(tick) == old(Unwritten(tick))
           + UnreportedInWalk(g, old(store.statements), partner, through, PlanFor(g, partner, ledger, f), f)
    {
      var anchor := AnchorOf(partner, through);
      var days := g.DaysToClose(Some(anchor), through);
      RunDays(partner, WalkStart(g, store.statements, partner, through), days, ledger, f, tick,
              PlanFor(g, partner, ledger, f));
    }

    /** One pass over every partner. A failed listing, or anchor, ends it; a failed day does not. */
    method CloseDays(now: int, partners: seq<Partner>, ledger: seq<UsageRow>, f: Faults, tick: Tick)
      returns (r: Result<(), BillingError>)
      requires tick.Balanced()
      modifies store, tick
      ensures tick.Balanced()
      ensures g.ClosableThrough(now).None? ==> r == Ok(())
      ensures g.ClosableThrough(now).Some? && f.list ==> r.Err?
      ensures g.ClosableThrough(now).None? || f.list ==>
        store.statements == old(store.statements) && Unwritten(tick) == old(Unwritten(tick))
      ensures g.ClosableThrough(now).Some? && !f.list ==>
        var through := g.ClosableThrough(now).value;
        && Pass(store.statements, r.Ok?) == PassOver(g, old(store.statements), partners, through, ledger, f)
        && Unwritten(tick)
           == old(Unwritten(tick)) + UnreportedOver(g, old(store.statements), partners, through, ledger, f)
    {
      var closable := g.ClosableThrough(now);
      if closable.None? {
        return Ok(());
      }
      if f.list {
        return Err(Database);
      }
      var through := closable.value;
      for i := 0 to |partners|
        invariant PassOver(g, old(store.statements), partners, through, ledger, f)
               == PassOver(g, store.statements, partners[i..], through, ledger, f)
        invariant old(Unwritten(tick)) + UnreportedOver(g, old(store.statements), partners, through, ledger, f)
               == Unwritten(tick) + UnreportedOver(g, store.statements, partners[i..], through, ledger, f)
        invariant tick.Balanced()
      {
        if partners[i].consumer in f.anchors {
          return Err(Database);
        }
        assert partners[i..][1..] == partners[i + 1..];
        WalkPartner(partners[i], through, ledger, f, tick);
      }
      return Ok(());
    }
  }

  // ---------------------------------------------------------------------
  // Exactly when one walk leaves no gap
  // ---------------------------------------------------------------------

  /** A plan for one consumer drafts each day as that day. */
  ghost predicate PlanOf(plan: Plan, consumer: string) {
    forall day: Day :: plan(day).Some? ==> IsFor(plan(day).value, consumer, day)
  }

  lemma PlansAreFor(g: Generator, partner: Partner, ledger: seq<UsageRow>, f: Faults)
    ensures PlanOf(PlanFor(g, partner, ledger, f), partner.consumer)
  {
  }

  /** A walk states exactly the days of it that did not fail. */
  lemma {:induction false} WalkStates(t: Table, plan: Plan, first: Day, n: nat, consumer: string, day: Day)
    requires PlanOf(plan, consumer)
    ensures Has(TableAfterDays(t, plan, first, n), consumer, day)
      <==> Has(t, consumer, day) || (first <= day < first + n && plan(day).Some?)
  {
    if n > 0 {
      var d, before := first + n - 1, TableAfterDays(t, plan, first, n - 1);
      WalkStates(t, plan, first, n - 1, consumer, day);
      if plan(d).Some? {
        InsertAdds(before, plan(d).value);
      }
    }
  }

  /**
   * What a partner still owes: a day after every stated one, or, when none is, not before the
   * partner was created; within the month that ends with `through`.
   */
  ghost predicate StillOwed(g: Generator, t: Table, partner: Partner, through: Day, day: Day) {
    && day <= through && through - day < MAX_CATCHUP_DAYS
    && (forall stated :: Has(t, partner.consumer, stated) ==> stated < day)
    && ((forall stated :: !Has(t, partner.consumer, stated)) ==>
         match partner.createdAt
         case Some(created) => DayOf(created, g.tz) <= day
         case None => through - day < MAX_CATCHUP_DAYS - 1)
  }

  lemma OwedAfterAnchor(g: Generator, t: Table, partner: Partner, through: Day, day: Day)
    ensures StillOwed(g, t, partner, through, day) <==> WalkStart(g, t, partner, through) <= day <= through
  {
    if Newest(t, partner.consumer).Some? {
      assert Has(t, partner.consumer, Newest(t, partner.consumer).value);
    }
  }

  /** A walk states every day the partner still owes, unless its plan fails it, and nothing else. */
  lemma {:induction false} WalkStatesWhatIsOwed(g: Generator, t: Table, partner: Partner, through: Day, plan: Plan,
                                                day: Day)
    requires PlanOf(plan, partner.consumer)
    ensures Has(TableAfterWalk(g, t, partner, through, plan), partner.consumer, day)
       <==> Has(t, partner.consumer, day) || (StillOwed(g, t, partner, through, day) && plan(day).Some?)
  {
    var first := WalkStart(g, t, partner, through);
    WalkStates(t, plan, first, WalkLength(first, through), partner.consumer, day);
    OwedAfterAnchor(g, t, partner, through, day);
  }

  /** `consumer_id` is the primary key of `partners`. */
  ghost predicate Keyed(partners: seq<Partner>) {
    forall i, j :: 0 <= i < j < |partners| ==> partners[i].consumer != partners[j].consumer
  }

  /** No partner up to and including this one has an anchor that cannot be read. */
  ghost predicate Reached(partners: seq<Partner>, f: Faults, i: nat)
    requires i < |partners|
  {
    forall j :: 0 <= j <= i ==> partners[j].consumer !in f.anchors
  }

  /** What one consumer has stated decides what another's walk does not touch. */
  lemma {:induction false} WalkLeavesOthers(g: Generator, t: Table, partner: Partner, through: Day, plan: Plan,
                                            other: Partner, day: Day)
    requires PlanOf(plan, partner.consumer) && other.consumer != partner.consumer
    ensures var after := TableAfterWalk(g, t, partner, through, plan);
      && (Has(after, other.consumer, day) <==> Has(t, other.consumer, day))
      && (StillOwed(g, after, other, through, day) <==> StillOwed(g, t, other, through, day))
  {
    var first, n := WalkStart(g, t, partner, through), WalkLength(WalkStart(g, t, partner, through), through);
    forall d ensures Has(TableAfterDays(t, plan, first, n), other.consumer, d) <==> Has(t, other.consumer, d) {
      DaysLeaveOthers(t, plan, first, n, partner.consumer, other.consumer, d);
    }
  }

  lemma {:induction false} DaysLeaveOthers(t: Table, plan: Plan, first: Day, n: nat, consumer: string, other: string,
                                           day: Day)
    requires PlanOf(plan, consumer) && other != consumer
    ensures Has(TableAfterDays(t, plan, first, n), other, day) <==> Has(t, other, day)
  {
    if n > 0 {
      DaysLeaveOthers(t, plan, first, n - 1, consumer, other, day);
      if plan(first + n - 1).Some? {
        InsertAdds(TableAfterDays(t, plan, first, n - 1), plan(first + n - 1).value);
      }
    }
  }

  /**
   * A pass states, of every partner up to the first whose anchor cannot be read, what it still owes
   * and does not fail, and touches no one after such a partner.
   */
  lemma {:induction false} PassStatesWhatIsOwed(g: Generator, t: Table, partners: seq<Partner>, through: Day,
                                                ledger: seq<UsageRow>, f: Faults, i: nat, day: Day)
    requires Keyed(partners) && i < |partners|
    ensures Has(PassOver(g, t, partners, through, ledger, f).table, partners[i].consumer, day) <==>
      || Has(t, partners[i].consumer, day)
      || (Reached(partners, f, i) && StillOwed(g, t, partners[i], through, day)
          && PlanFor(g, partners[i], ledger, f)(day).Some?)
    decreases |partners|
  {
    if partners[0].consumer !in f.anchors {
      if i == 0 {
        HeadIsWalked(g, t, partners, through, ledger, f, day);
      } else {
        var t' := TableAfterWalk(g, t, partners[0], through, PlanFor(g, partners[0], ledger, f));
        PassStatesWhatIsOwed(g, t', partners[1..], through, ledger, f, i - 1, day);
        HeadDoesNotMatter(g, t, partners, through, ledger, f, i, day);
      }
    }
  }

  lemma HeadIsWalked(g: Generator, t: Table, partners: seq<Partner>, through: Day, ledger: seq<UsageRow>, f: Faults,
                     day: Day)
    requires Keyed(partners) && partners != [] && partners[0].consumer !in f.anchors
    ensures Has(PassOver(g, t, partners, through, ledger, f).table, partners[0].consumer, day)
       <==> Has(t, partners[0].consumer, day)
            || (StillOwed(g, t, partners[0], through, day) && PlanFor(g, partners[0], ledger, f)(day).Some?)
  {
    var head, plan := partners[0], PlanFor(g, partners[0], ledger, f);
    PlansAreFor(g, head, ledger, f);
    WalkStatesWhatIsOwed(g, t, head, through, plan, day);
    var walked := TableAfterWalk(g, t, head, through, plan);
    PassLeavesOthers(g, walked, partners[1..], through, ledger, f, head.consumer, day);
  }

  /** For a later partner, the first one's walk changes neither what it has, nor what it owes, nor if it is reached. */
  lemma HeadDoesNotMatter(g: Generator, t: Table, partners: seq<Partner>, through: Day, ledger: seq<UsageRow>,
                          f: Faults, i: nat, day: Day)
    requires Keyed(partners) && 0 < i < |partners| && partners[0].consumer !in f.anchors
    ensures var t' := TableAfterWalk(g, t, partners[0], through, PlanFor(g, partners[0], ledger, f));
      && (Has(t', partners[i].consumer, day) <==> Has(t, partners[i].consumer, day))
      && (StillOwed(g, t', partners[i], through, day) <==> StillOwed(g, t, partners[i], through, day))
      && (Reached(partners, f, i) <==> Reached(partners[1..], f, i - 1))
  {
    PlansAreFor(g, partners[0], ledger, f);
    WalkLeavesOthers(g, t, partners[0], through, PlanFor(g, partners[0], ledger, f), partners[i], day);
    assert forall j :: 0 <= j < |partners[1..]| ==> partners[1..][j] == partners[j + 1];
  }

  /** It succeeds exactly when every anchor could be read. */
  lemma {:induction false} PassSucceedsExactlyWhen(g: Generator, t: Table, partners: seq<Partner>, through: Day,
                                                   ledger: seq<UsageRow>, f: Faults)
    ensures PassOver(g, t, partners, through, ledger, f).ok <==>
      forall j :: 0 <= j < |partners| ==> partners[j].consumer !in f.anchors
    decreases |partners|
  {
    if partners != [] && partners[0].consumer !in f.anchors {
      var t' := TableAfterWalk(g, t, partners[0], through, PlanFor(g, partners[0], ledger, f));
      PassSucceedsExactlyWhen(g, t', partners[1..], through, ledger, f);
      assert forall j :: 0 < j < |partners| ==> partners[j] == partners[1..][j - 1];
    }
  }

  lemma {:induction false} PassLeavesOthers(g: Generator, t: Table, partners: seq<Partner>, through: Day,
                                            ledger: seq<UsageRow>, f: Faults, consumer: string, day: Day)
    requires forall j :: 0 <= j < |partners| ==> partners[j].consumer != consumer
    ensures Has(PassOver(g, t, partners, through, ledger, f).table, consumer, day) <==> Has(t, consumer, day)
    decreases |partners|
  {
    if partners != [] && partners[0].consumer !in f.anchors {
      var head := partners[0];
      var plan := PlanFor(g, head, ledger, f);
      PlansAreFor(g, head, ledger, f);
      WalkLeavesOthers(g, t, head, through, plan, Partner(consumer, head.mode, 0, None), day);
      PassLeavesOthers(g, TableAfterWalk(g, t, head, through, plan), partners[1..], through, ledger, f, consumer, day);
    }
  }

  /**
   * A walk's tally counts exactly its inserts if and only if it reads back every statement it
   * inserts: a read-back that fails over a statement already there costs the tally nothing.
   */
  lemma {:induction false} TallyCountsInsertsExactlyWhen(t: Table, plan: Plan, f: Faults, consumer: string, first: Day,
                                                         n: nat)
    requires PlanOf(plan, consumer)
    ensures Unreported(t, plan, f, consumer, first, n) == 0
       <==> forall day :: first <= day < first + n ==> !LostReport(t, plan, f, consumer, day)
  {
    if n > 0 {
      var day := first + n - 1;
      TallyCountsInsertsExactlyWhen(t, plan, f, consumer, first, n - 1);
      WalkStates(t, plan, first, n - 1, consumer, day);
      assert LostReport(TableAfterDays(t, plan, first, n - 1), plan, f, consumer, day)
        <==> LostReport(t, plan, f, consumer, day);
    }
  }

  /** Once a day of the walk fails, every later one does too. */
  ghost predicate FailuresAreASuffix(plan: Plan, first: Day, through: Day) {
    forall a, b :: first <= a < b <= through && plan(a).None? ==> plan(b).None?
  }

  ghost predicate AllFail(plan: Plan, first: Day, through: Day) {
    forall a :: first <= a <= through ==> plan(a).None?
  }

  /**
   * One uninterrupted walk keeps a partner's history gap-free if and only if no day of it
   * succeeded after one had failed, and, when the month's bound cut it short, nothing succeeded at all.
   */
  lemma {:induction false} WalkGapFreeExactlyWhen(g: Generator, t: Table, partner: Partner, start: Day, through: Day,
                                                  plan: Plan)
    requires Contiguous(t, partner.consumer, start) && PlanOf(plan, partner.consumer)
    requires partner.createdAt.Some? && start == DayOf(partner.createdAt.value, g.tz)
    ensures Contiguous(TableAfterWalk(g, t, partner, through, plan), partner.consumer, start) <==>
      if g.CatchupTruncated(Some(AnchorFor(g, t, partner, through)), through)
      then AllFail(plan, WalkStart(g, t, partner, through), through)
      else FailuresAreASuffix(plan, WalkStart(g, t, partner, through), through)
  {
    var c, anchor, first := partner.consumer, AnchorFor(g, t, partner, through), WalkStart(g, t, partner, through);
    var t' := TableAfterWalk(g, t, partner, through, plan);
    assert anchor == NewestOr(t, c, start);
    forall day ensures Has(t', c, day) <==> Has(t, c, day) || (first <= day <= through && plan(day).Some?) {
      WalkStates(t, plan, first, WalkLength(first, through), c, day);
    }
    if g.CatchupTruncated(Some(anchor), through) {
      if AllFail(plan, first, through) {
        NewestDetermined(t, t', c);
      } else {
        var a :| first <= a <= through && plan(a).Some?;
        SkippedDayIsAGap(t', c, start, anchor, anchor + 1, a);
      }
    } else if FailuresAreASuffix(plan, first, through) {
      SuffixGapFree(t, t', c, start, through, plan);
    } else {
      var a, b :| first <= a < b <= through && plan(a).None? && plan(b).Some?;
      SkippedDayIsAGap(t', c, start, anchor, a, b);
    }
  }

  /**
   * When only deadlines out of the calendar fail, the walk leaves no gap: such a failure is the
   * same partner's on every later day of it.
   */
  lemma LongTermsFailToTheEnd(g: Generator, partner: Partner, ledger: seq<UsageRow>, f: Faults,
                              first: Day, through: Day)
    requires forall day :: first <= day <= through && PlanFor(g, partner, ledger, f)(day).None? ==>
      !Payable(g, partner, day)
    ensures FailuresAreASuffix(PlanFor(g, partner, ledger, f), first, through)
  {
    var plan := PlanFor(g, partner, ledger, f);
    forall a, b | first <= a < b <= through && plan(a).None? ensures plan(b).None? {
      RefusedFromThenOn(g, partner, a, b, GroupsOfDay(g, partner, b, ledger));
    }
  }

  lemma SkippedDayIsAGap(t: Table, consumer: string, start: Day, anchor: Day, gap: Day, later: Day)
    requires start - 1 <= anchor < gap < later && !Has(t, consumer, gap) && Has(t, consumer, later)
    ensures !Contiguous(t, consumer, start)
  {
  }

  lemma {:induction false} SuffixGapFree(t: Table, t': Table, c: string, start: Day, through: Day, plan: Plan)
    requires Contiguous(t, c, start) && FailuresAreASuffix(plan, NewestOr(t, c, start) + 1, through)
    requires forall day :: Has(t', c, day) <==>
      Has(t, c, day) || (NewestOr(t, c, start) + 1 <= day <= through && plan(day).Some?)
    ensures Contiguous(t', c, start)
  {
    var anchor, newest := NewestOr(t, c, start), NewestOr(t', c, start);
    assert newest >= anchor by {
      if Newest(t, c).Some? {
        assert Has(t', c, anchor);
      } else if Newest(t', c).Some? {
        assert Has(t', c, newest);
      }
    }
    forall day ensures Has(t', c, day) <==> start <= day <= newest {
      if anchor < day <= newest {
        assert Has(t', c, newest);
      }
    }
  }
}
