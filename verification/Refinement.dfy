/**
 * The scheduler's own loop (`Worker`) is one of the step machine's runs (`Walks`): so what holds of
 * every run holds of it, and the day a walk skips is lost in the machine too.
 */
module Refinement {
  import opened Prelude
  import opened Period
  import opened Generator
  import opened Usage
  import opened Statements
  import opened Walks
  import W = Worker

  /** Where a list of steps leads, if it can be run. */
  ghost function Reach(world: World, s: State, steps: seq<Step>): Option<State> {
    if CanRun(world, s, steps) then Some(RunTo(world, s, steps)) else None
  }

  lemma ReachConcat(world: World, s: State, a: seq<Step>, mid: State, b: seq<Step>, end: State)
    requires Reach(world, s, a) == Some(mid) && Reach(world, mid, b) == Some(end)
    ensures Reach(world, s, a + b) == Some(end)
  {
    RunConcat(world, s, a, b);
  }

  /** Some steps lead from one state to the other. */
  ghost predicate Leads(world: World, a: State, b: State) {
    exists steps :: Reach(world, a, steps) == Some(b)
  }

  lemma LeadsOn(world: World, a: State, before: seq<Step>, mid: State, end: State) returns (steps: seq<Step>)
    requires Reach(world, a, before) == Some(mid) && Leads(world, mid, end)
    ensures Reach(world, a, steps) == Some(end)
  {
    var last :| Reach(world, mid, last) == Some(end);
    steps := before + last;
    ReachConcat(world, a, before, mid, last, end);
  }

  lemma {:induction false} PathIsSteps(world: World, path: seq<State>) returns (steps: seq<Step>)
    requires path != [] && forall i :: 0 < i < |path| ==> Leads(world, path[i - 1], path[i])
    ensures Reach(world, path[0], steps) == Some(path[|path| - 1])
  {
    var n := |path| - 1;
    if n == 0 {
      steps := [];
    } else {
      var before := PathIsSteps(world, path[..n]);
      steps := LeadsOn(world, path[0], before, path[n - 1], path[n]);
    }
  }

  lemma TwoSteps(world: World, s: State, one: Step, two: Step)
    requires Enabled(world, s, one) && Enabled(world, Apply(world, s, one), two)
    ensures CanRun(world, s, [one, two]) && RunTo(world, s, [one, two]) == Apply(world, Apply(world, s, one), two)
  {
    OneStep(world, s, one);
    OneStep(world, Apply(world, s, one), two);
    RunConcat(world, s, [one], [two]);
    assert [one] + [two] == [one, two];
  }

  /** The state once scheduler `w` has dealt with the day it is on. */
  ghost function DayDone(s: State, w: nat, outcome: Option<Draft>): State
    requires w < |s.workers| && s.workers[w].Walking?
  {
    var k := s.workers[w];
    Put(s.(table := W.After(s.table, outcome)), w, Walking(k.partner, k.next + 1, k.through, k.failed || outcome.None?))
  }

  lemma HeldDraft(world: World, s: State, w: nat)
    requires w < |s.workers| && s.workers[w].Walking? && s.workers[w].next <= s.workers[w].through
    ensures var k := s.workers[w];
      var keys := W.KeysOf(DayRows(world.g, s, k.partner.consumer, k.next));
      && Enabled(world, s, DraftDay(w, keys))
      && Apply(world, s, DraftDay(w, keys))
         == Put(s, w, Holding(k.partner, k.next, k.through, k.failed, W.DraftFor(world.g, k.partner, k.next, s.ledger)))
  {
    W.KeysOfIsKeyList(DayRows(world.g, s, s.workers[w].partner.consumer, s.workers[w].next));
  }

  /** What the plan states for a day is the draft of these rows, which the store takes. */
  ghost predicate Drafted(g: Generator, partner: Partner, ledger: seq<UsageRow>, day: Day, outcome: Option<Draft>) {
    outcome.Some? ==> outcome.value == W.DraftFor(g, partner, day, ledger) && Writable(outcome.value)
  }

  /** So it is on every day. */
  ghost predicate PlanDrafts(g: Generator, partner: Partner, ledger: seq<UsageRow>, plan: W.Plan) {
    forall day: Day :: Drafted(g, partner, ledger, day, plan(day))
  }

  lemma LoopPlanDrafts(g: Generator, partner: Partner, ledger: seq<UsageRow>, f: W.Faults)
    ensures PlanDrafts(g, partner, ledger, W.PlanFor(g, partner, ledger, f))
  {
  }

  /** One day of the loop is one failing step of the machine, or a draft and a write. */
  lemma DayIsSteps(world: World, s: State, w: nat, outcome: Option<Draft>) returns (steps: seq<Step>)
    requires w < |s.workers| && s.workers[w].Walking? && s.workers[w].next <= s.workers[w].through
    requires Drafted(world.g, s.workers[w].partner, s.ledger, s.workers[w].next, outcome)
    ensures Reach(world, s, steps) == Some(DayDone(s, w, outcome))
  {
    var k := s.workers[w];
    if outcome.None? {
      steps := [DraftFails(w)];
      OneStep(world, s, DraftFails(w));
      assert Apply(world, s, DraftFails(w)) == DayDone(s, w, outcome);
    } else {
      HeldDraft(world, s, w);
      var draft := DraftDay(w, W.KeysOf(DayRows(world.g, s, k.partner.consumer, k.next)));
      steps := [draft, Write(w)];
      TwoSteps(world, s, draft, Write(w));
      assert Apply(world, Apply(world, s, draft), Write(w)).workers == DayDone(s, w, outcome).workers;
    }
  }

  /** Whether one of the first `n` days failed. */
  ghost predicate AnyFailed(plan: W.Plan, first: Day, n: nat) {
    exists day :: first <= day < first + n && plan(day).None?
  }

  /** The state once scheduler `w`, walking from `first`, has dealt with `n` days. */
  ghost function DaysDone(s: State, w: nat, plan: W.Plan, n: nat): State
    requires w < |s.workers| && s.workers[w].Walking?
  {
    var k := s.workers[w];
    Put(s.(table := W.TableAfterDays(s.table, plan, k.next, n)), w,
        Walking(k.partner, k.next + n, k.through, k.failed || AnyFailed(plan, k.next, n)))
  }

  lemma {:induction false} DaysDoneSnoc(s: State, w: nat, plan: W.Plan, n: nat)
    requires w < |s.workers| && s.workers[w].Walking?
    ensures DaysDone(s, w, plan, n + 1) == DayDone(DaysDone(s, w, plan, n), w, plan(s.workers[w].next + n))
  {
    var first := s.workers[w].next;
    assert AnyFailed(plan, first, n + 1) <==> AnyFailed(plan, first, n) || plan(first + n).None?;
    W.OneMoreDay(s.table, plan, first, n, first + n);
  }

  lemma {:induction false} NoDaysDone(s: State, w: nat, plan: W.Plan)
    requires w < |s.workers| && s.workers[w].Walking?
    ensures DaysDone(s, w, plan, 0) == s
  {
    assert s.workers[w := s.workers[w]] == s.workers;
  }

  lemma {:induction false} StillWalking(s: State, w: nat, plan: W.Plan, n: nat)
    requires w < |s.workers| && s.workers[w].Walking?
    ensures var mid, k := DaysDone(s, w, plan, n), s.workers[w];
      && mid.ledger == s.ledger && w < |mid.workers| && mid.workers[w].Walking?
      && mid.workers[w].partner == k.partner && mid.workers[w].through == k.through
      && mid.workers[w].next == k.next + n
  {
  }

  lemma {:induction false} NextDayLeads(world: World, s: State, w: nat, plan: W.Plan, n: nat, day: Day)
    requires w < |s.workers| && s.workers[w].Walking? && day == s.workers[w].next + n <= s.workers[w].through
    requires Drafted(world.g, s.workers[w].partner, s.ledger, day, plan(day))
    ensures Leads(world, DaysDone(s, w, plan, n), DaysDone(s, w, plan, n + 1))
  {
    StillWalking(s, w, plan, n);
    DaysDoneSnoc(s, w, plan, n);
    DayLeads(world, DaysDone(s, w, plan, n), w, plan(day));
  }

  lemma DayLeads(world: World, s: State, w: nat, outcome: Option<Draft>)
    requires w < |s.workers| && s.workers[w].Walking? && s.workers[w].next <= s.workers[w].through
    requires Drafted(world.g, s.workers[w].partner, s.ledger, s.workers[w].next, outcome)
    ensures Leads(world, s, DayDone(s, w, outcome))
  {
    var steps := DayIsSteps(world, s, w, outcome);
  }

  ghost predicate EveryDayLeads(world: World, s: State, w: nat, plan: W.Plan, n: nat)
    requires w < |s.workers| && s.workers[w].Walking?
  {
    forall i :: 0 <= i < n ==> Leads(world, DaysDone(s, w, plan, i), DaysDone(s, w, plan, i + 1))
  }

  lemma {:induction false} DaysLead(world: World, s: State, w: nat, plan: W.Plan, n: nat)
    requires w < |s.workers| && s.workers[w].Walking? && (n == 0 || s.workers[w].next + n <= s.workers[w].through + 1)
    requires PlanDrafts(world.g, s.workers[w].partner, s.ledger, plan)
    ensures EveryDayLeads(world, s, w, plan, n)
  {
    forall i | 0 <= i < n ensures Leads(world, DaysDone(s, w, plan, i), DaysDone(s, w, plan, i + 1)) {
      NextDayLeads(world, s, w, plan, i, s.workers[w].next + i);
    }
  }

  lemma {:induction false} DaysAreSteps(world: World, s: State, w: nat, plan: W.Plan, n: nat)
    returns (steps: seq<Step>)
    requires w < |s.workers| && s.workers[w].Walking? && EveryDayLeads(world, s, w, plan, n)
    ensures Reach(world, s, steps) == Some(DaysDone(s, w, plan, n))
  {
    var path := seq(n + 1, i requires 0 <= i <= n => DaysDone(s, w, plan, i));
    NoDaysDone(s, w, plan);
    steps := PathIsSteps(world, path);
  }

  /** A whole walk of the loop: taking the anchor, every day of it, and leaving the partner. */
  lemma {:induction false} WalkIsSteps(world: World, s: State, w: nat, partner: Partner, plan: W.Plan)
    returns (steps: seq<Step>)
    requires w < |s.workers| && s.workers[w].Ticking? && Enabled(world, s, Take(w, partner))
    requires PlanDrafts(world.g, partner, s.ledger, plan)
    ensures CanRun(world, s, steps)
    ensures RunTo(world, s, steps)
         == s.(table := W.TableAfterWalk(world.g, s.table, partner, s.workers[w].through, plan))
  {
    var through := s.workers[w].through;
    var taken := Apply(world, s, Take(w, partner));
    var first := W.WalkStart(world.g, s.table, partner, through);
    var n := W.WalkLength(first, through);
    assert taken.workers[w] == Walking(partner, first, through, false);
    OneStep(world, s, Take(w, partner));
    DaysLead(world, taken, w, plan, n);
    var days := DaysAreSteps(world, taken, w, plan, n);
    RunConcat(world, s, [Take(w, partner)], days);
    var walked := DaysDone(taken, w, plan, n);
    OneStep(world, walked, Leave(w));
    RunConcat(world, s, [Take(w, partner)] + days, [Leave(w)]);
    steps := [Take(w, partner)] + days + [Leave(w)];
    assert Apply(world, walked, Leave(w)).workers == s.workers;
  }

  // ---------------------------------------------------------------------
  // A whole pass
  // ---------------------------------------------------------------------

  /** The partners are the ones the world knows, with the creation times it knows. */
  ghost predicate Listed(world: World, partners: seq<Partner>) {
    forall i :: 0 <= i < |partners| ==>
      partners[i].consumer in world.created && partners[i].createdAt == world.created[partners[i].consumer]
  }

  ghost function WithTable(s: State, t: Table): State {
    s.(table := t)
  }

  /** The loop over partners is a run: each walk in turn, up to an anchor that cannot be read. */
  lemma {:induction false} PartnersAreSteps(world: World, s: State, w: nat, partners: seq<Partner>, f: W.Faults)
    returns (steps: seq<Step>)
    requires w < |s.workers| && s.workers[w].Ticking? && Listed(world, partners)
    ensures Reach(world, s, steps)
         == Some(WithTable(s, W.PassOver(world.g, s.table, partners, s.workers[w].through, s.ledger, f).table))
    decreases |partners|
  {
    if partners == [] || partners[0].consumer in f.anchors {
      steps := [];
    } else {
      var plan := W.PlanFor(world.g, partners[0], s.ledger, f);
      LoopPlanDrafts(world.g, partners[0], s.ledger, f);
      var walk := WalkIsSteps(world, s, w, partners[0], plan);
      var walked := WithTable(s, W.TableAfterWalk(world.g, s.table, partners[0], s.workers[w].through, plan));
      var rest := PartnersAreSteps(world, walked, w, partners[1..], f);
      steps := walk + rest;
      var passed := W.PassOver(world.g, s.table, partners, s.workers[w].through, s.ledger, f).table;
      ReachConcat(world, s, walk, walked, rest, WithTable(s, passed));
    }
  }

  /**
   * The scheduler's whole pass, from rest to rest, is a run of the machine that ends in the table
   * the loop ends in: so what holds of every run holds of `CloseDays`.
   */
  lemma PassIsSteps(world: World, s: State, w: nat, partners: seq<Partner>, f: W.Faults)
    returns (steps: seq<Step>)
    requires w < |s.workers| && s.workers[w].Resting? && Listed(world, partners)
    requires world.g.ClosableThrough(s.clock).Some?
    ensures Reach(world, s, steps)
         == Some(WithTable(s, W.PassOver(world.g, s.table, partners, world.g.ClosableThrough(s.clock).value,
                                         s.ledger, f).table))
  {
    var ticking := Apply(world, s, Begin(w));
    var through := world.g.ClosableThrough(s.clock).value;
    var end := WithTable(s, W.PassOver(world.g, s.table, partners, through, s.ledger, f).table);
    OneStep(world, s, Begin(w));
    var pass := PartnersAreSteps(world, ticking, w, partners, f);
    var passed := WithTable(ticking, end.table);
    ReachConcat(world, s, [Begin(w)], ticking, pass, passed);
    OneStep(world, passed, Stop(w));
    assert Apply(world, passed, Stop(w)).workers == s.workers;
    ReachConcat(world, s, [Begin(w)] + pass, passed, [Stop(w)], end);
    steps := [Begin(w)] + pass + [Stop(w)];
  }

  function CreatedOf(partners: seq<Partner>): map<string, Option<int>> {
    if partners == [] then map[]
    else CreatedOf(partners[..|partners| - 1])[partners[|partners| - 1].consumer := partners[|partners| - 1].createdAt]
  }

  lemma {:induction false} CreatedLists(g: Generator, partners: seq<Partner>)
    requires W.Keyed(partners)
    ensures Listed(World(g, CreatedOf(partners)), partners)
  {
    if partners != [] {
      CreatedLists(g, partners[..|partners| - 1]);
      var n := |partners| - 1;
      forall i | 0 <= i < n ensures partners[i].consumer in CreatedOf(partners)
        && partners[i].createdAt == CreatedOf(partners)[partners[i].consumer] {
        assert partners[..n][i] == partners[i];
      }
    }
  }

  /** One statement per partner and day, none before its cutoff, none that the store's checks refuse. */
  ghost predicate SoundTable(g: Generator, now: int, t: Table) {
    Unique(t) && forall i :: 0 <= i < |t| ==> g.CutoffFor(t[i].day) <= now && Writable(t[i])
  }

  /** So the loop itself keeps the table sound, and changes no statement, whatever the database refuses. */
  lemma CloseDaysIsSound(g: Generator, t: Table, partners: seq<Partner>, ledger: seq<UsageRow>, f: W.Faults, now: int)
    requires SoundTable(g, now, t) && W.Keyed(partners) && g.ClosableThrough(now).Some?
    ensures var after := W.PassOver(g, t, partners, g.ClosableThrough(now).value, ledger, f).table;
      t <= after && SoundTable(g, now, after)
  {
    var world, s := World(g, CreatedOf(partners)), State(now, ledger, t, [Resting]);
    CreatedLists(g, partners);
    var steps := PassIsSteps(world, s, 0, partners, f);
    RunsAreSound(world, s, steps);
  }

  /** One partner's walk by the loop keeps its history gap-free exactly as `WalkGapFreeExactlyWhen` says of its plan. */
  lemma LoopGapFreeExactlyWhen(g: Generator, t: Table, partner: Partner, start: Day, through: Day,
                               ledger: seq<UsageRow>, f: W.Faults)
    requires Contiguous(t, partner.consumer, start)
    requires partner.createdAt.Some? && start == DayOf(partner.createdAt.value, g.tz)
    ensures var plan := W.PlanFor(g, partner, ledger, f);
      var first := W.WalkStart(g, t, partner, through);
      Contiguous(W.TableAfterWalk(g, t, partner, through, plan), partner.consumer, start) <==>
        if g.CatchupTruncated(Some(AnchorFor(g, t, partner, through)), through)
        then W.AllFail(plan, first, through)
        else W.FailuresAreASuffix(plan, first, through)
  {
    W.PlansAreFor(g, partner, ledger, f);
    W.WalkGapFreeExactlyWhen(g, t, partner, start, through, W.PlanFor(g, partner, ledger, f));
  }

  // ---------------------------------------------------------------------
  // The day a walk skips
  // ---------------------------------------------------------------------

  ghost predicate NobodyWalks(s: State, consumer: string) {
    forall w :: 0 <= w < |s.workers| && (s.workers[w].Walking? || s.workers[w].Holding?) ==>
      s.workers[w].partner.consumer != consumer
  }

  /** The walk passed over `gap`, a day not yet stated, and stated a later one. */
  ghost predicate Skips(g: Generator, t: Table, partner: Partner, through: Day, plan: W.Plan, gap: Day, later: Day) {
    && !Has(t, partner.consumer, gap) && gap < later <= through
    && W.WalkStart(g, t, partner, through) <= later && plan(later).Some?
    && (gap < W.WalkStart(g, t, partner, through) || plan(gap).None?)
  }

  lemma {:induction false} SkippedIsAbandoned(g: Generator, s: State, partner: Partner, through: Day,
                                              plan: W.Plan, gap: Day, later: Day)
    requires W.PlanOf(plan, partner.consumer) && NobodyWalks(s, partner.consumer)
    requires Skips(g, s.table, partner, through, plan, gap, later)
    ensures Abandoned(s.(table := W.TableAfterWalk(g, s.table, partner, through, plan)), partner.consumer, gap)
  {
    var first := W.WalkStart(g, s.table, partner, through);
    W.WalkStates(s.table, plan, first, W.WalkLength(first, through), partner.consumer, gap);
    W.WalkStates(s.table, plan, first, W.WalkLength(first, through), partner.consumer, later);
  }

  /**
   * A day the walk failed on, or never reached because the month's bound cut it off, is lost the
   * moment a later day of that walk succeeds: the walk is a run after which no run, by any
   * scheduler, with any number of restarts, states that day.
   */
  lemma {:induction false} SkippedDayIsLost(world: World, s: State, w: nat, partner: Partner,
                                            plan: W.Plan, gap: Day, later: Day)
    returns (steps: seq<Step>)
    requires Sound(world, s) && NobodyWalks(s, partner.consumer)
    requires w < |s.workers| && s.workers[w].Ticking? && Enabled(world, s, Take(w, partner))
    requires PlanDrafts(world.g, partner, s.ledger, plan)
    requires Skips(world.g, s.table, partner, s.workers[w].through, plan, gap, later)
    ensures CanRun(world, s, steps)
    ensures RunTo(world, s, steps)
         == s.(table := W.TableAfterWalk(world.g, s.table, partner, s.workers[w].through, plan))
    ensures forall more :: CanRun(world, RunTo(world, s, steps), more) ==>
      !Has(RunTo(world, RunTo(world, s, steps), more).table, partner.consumer, gap)
  {
    var through := s.workers[w].through;
    steps := WalkIsSteps(world, s, w, partner, plan);
    RunsAreSound(world, s, steps);
    SkippedIsAbandoned(world.g, s, partner, through, plan, gap, later);
    var after := RunTo(world, s, steps);
    forall more | CanRun(world, after, more) ensures !Has(RunTo(world, after, more).table, partner.consumer, gap) {
      GapsAreForEver(world, after, more, partner.consumer, gap);
    }
  }

  /**
   * Such a walk is easy to have: one failed read of a partner's first day, with the next day's
   * fine, and no usage at all. The failed day is never stated, though it is documented as retried.
   */
  lemma OneFailedReadLosesADay(g: Generator, partner: Partner, day: Day, through: Day)
    requires partner.createdAt.Some? && DayOf(partner.createdAt.value, g.tz) == day
    requires day < through < day + MAX_CATCHUP_DAYS
    requires Payable(g, partner, day + 1)
    ensures var f := W.Faults(false, {}, map[(partner.consumer, day) := W.ReadFails]);
      Skips(g, [], partner, through, W.PlanFor(g, partner, [], f), day, day + 1)
  {
    var f := W.Faults(false, {}, map[(partner.consumer, day) := W.ReadFails]);
    assert W.FaultOn(f, partner.consumer, day + 1) == W.NoFault;
    assert RowsOfDay([], partner.consumer, day + 1, g.tz) == [];
    assert W.GroupsOfDay(g, partner, day + 1, []) == [];
    DraftIsWritableExactlyWhen(g, partner, day + 1, []);
    assert Newest([], partner.consumer) == None;
  }
}
