/**
 * Several schedulers over one statement table (`src/billing/worker.rs`), as a step machine: each
 * database read or write is one step, and any other instance may step in between, or die.
 */
module Walks {
  import opened Prelude
  import opened Period
  import opened Generator
  import opened Usage
  import opened Statements

  /** Where one scheduler is. `failed` remembers whether a day of the current walk has failed. */
  datatype Worker =
    | Resting
    | Ticking(through: Day)
    | Walking(partner: Partner, next: Day, through: Day, failed: bool)
    | Holding(partner: Partner, next: Day, through: Day, failed: bool, draft: Draft)

  datatype State = State(clock: int, ledger: seq<UsageRow>, table: Table, workers: seq<Worker>)

  datatype Step =
    | Advance(to: int)
    | Accept(row: UsageRow)
    | Finalise(i: nat, row: UsageRow)
    | Begin(w: nat)
    | Take(w: nat, partner: Partner)
    | DraftDay(w: nat, keys: seq<Key>)
    | DraftFails(w: nat)
    | Write(w: nat)
    | WriteFails(w: nat)
    | Leave(w: nat)
    | Stop(w: nat)

  /** What one deployment fixes: its calendar and delay, and when each consumer's partner row was created. */
  datatype World = World(g: Generator, created: map<string, Option<int>>)

  function Put(s: State, w: nat, k: Worker): State
    requires w < |s.workers|
  {
    s.(workers := s.workers[w := k])
  }

  function DayRows(g: Generator, s: State, consumer: string, day: Day): seq<UsageRow> {
    RowsOfDay(s.ledger, consumer, day, g.tz)
  }

  ghost predicate Enabled(world: World, s: State, step: Step) {
    match step
    case Advance(to) => s.clock <= to
    case Accept(row) => true
    case Finalise(i, row) => i < |s.ledger| && row.consumer == s.ledger[i].consumer && row.at == s.ledger[i].at
    case Begin(w) => w < |s.workers| && s.workers[w].Resting? && world.g.ClosableThrough(s.clock).Some?
    case Take(w, partner) =>
      && w < |s.workers| && s.workers[w].Ticking?
      && partner.consumer in world.created && partner.createdAt == world.created[partner.consumer]
    case DraftDay(w, keys) =>
      && w < |s.workers| && s.workers[w].Walking? && s.workers[w].next <= s.workers[w].through
      && IsKeyList(keys, DayRows(world.g, s, s.workers[w].partner.consumer, s.workers[w].next))
    case DraftFails(w) => w < |s.workers| && s.workers[w].Walking? && s.workers[w].next <= s.workers[w].through
    case Write(w) => w < |s.workers| && s.workers[w].Holding? && Writable(s.workers[w].draft)
    case WriteFails(w) => w < |s.workers| && s.workers[w].Holding?
    case Leave(w) => w < |s.workers| && s.workers[w].Walking? && s.workers[w].next > s.workers[w].through
    case Stop(w) => w < |s.workers|
  }

  ghost function Apply(world: World, s: State, step: Step): State
    requires Enabled(world, s, step)
  {
    match step
    case Advance(to) => s.(clock := to)
    case Accept(row) => s.(ledger := s.ledger + [row])
    case Finalise(i, row) => s.(ledger := s.ledger[i := row])
    case Begin(w) => Put(s, w, Ticking(world.g.ClosableThrough(s.clock).value))
    case Take(w, partner) =>
      var through := s.workers[w].through;
      var anchor := AnchorFor(world.g, s.table, partner, through);
      Put(s, w, Walking(partner, world.g.FirstDay(Some(anchor), through), through, false))
    case DraftDay(w, keys) =>
      var k := s.workers[w];
      var groups := GroupsBy(keys, DayRows(world.g, s, k.partner.consumer, k.next));
      Put(s, w, Holding(k.partner, k.next, k.through, k.failed, DraftOf(world.g, k.partner, k.next, groups)))
    case DraftFails(w) =>
      var k := s.workers[w];
      Put(s, w, Walking(k.partner, k.next + 1, k.through, true))
    case Write(w) =>
      var k := s.workers[w];
      Put(s.(table := Insert(s.table, k.draft)), w, Walking(k.partner, k.next + 1, k.through, k.failed))
    case WriteFails(w) =>
      var k := s.workers[w];
      Put(s, w, Walking(k.partner, k.next + 1, k.through, true))
    case Leave(w) => Put(s, w, Ticking(s.workers[w].through))
    case Stop(w) => Put(s, w, Resting)
  }

  ghost predicate CanRun(world: World, s: State, steps: seq<Step>)
    decreases |steps|
  {
    steps == [] || (Enabled(world, s, steps[0]) && CanRun(world, Apply(world, s, steps[0]), steps[1..]))
  }

  ghost function RunTo(world: World, s: State, steps: seq<Step>): State
    requires CanRun(world, s, steps)
    decreases |steps|
  {
    if steps == [] then s else RunTo(world, Apply(world, s, steps[0]), steps[1..])
  }

  /** The state after the first `k` steps. */
  ghost function StateAt(world: World, s: State, steps: seq<Step>, k: nat): State
    requires CanRun(world, s, steps) && k <= |steps|
    decreases k
  {
    if k == 0 then s else StateAt(world, Apply(world, s, steps[0]), steps[1..], k - 1)
  }

  lemma {:induction false} RunConcat(world: World, s: State, a: seq<Step>, b: seq<Step>)
    requires CanRun(world, s, a) && CanRun(world, RunTo(world, s, a), b)
    ensures CanRun(world, s, a + b) && RunTo(world, s, a + b) == RunTo(world, RunTo(world, s, a), b)
    decreases |a|
  {
    if a == [] {
      assert a + b == b;
    } else {
      RunConcat(world, Apply(world, s, a[0]), a[1..], b);
      assert (a + b)[0] == a[0] && (a + b)[1..] == a[1..] + b;
    }
  }

  lemma OneStep(world: World, s: State, step: Step)
    requires Enabled(world, s, step)
    ensures CanRun(world, s, [step]) && RunTo(world, s, [step]) == Apply(world, s, step)
  {
    assert CanRun(world, Apply(world, s, step), [step][1..]);
  }

  /** An empty table, and nobody walking. */
  ghost predicate Init(s: State) {
    s.table == [] && forall w :: 0 <= w < |s.workers| ==> s.workers[w].Resting?
  }

  /** A deployment starts so, with any usage and any number of schedulers. */
  lemma RestIsInit(clock: int, ledger: seq<UsageRow>, schedulers: nat)
    ensures Init(State(clock, ledger, [], seq(schedulers, _ => Resting)))
  {
  }

  /** A walking scheduler has a day to do, or leaves: never both, never neither. */
  lemma WalksOrLeaves(world: World, s: State, w: nat)
    requires w < |s.workers| && s.workers[w].Walking?
    ensures Enabled(world, s, Leave(w)) <==> !Enabled(world, s, DraftFails(w))
    ensures Enabled(world, s, DraftFails(w)) <==> s.workers[w].next <= s.workers[w].through
  {
  }

  /** A day that is drafted and then not written is a day that failed. */
  lemma FailedWriteIsAFailedDay(world: World, s: State, w: nat, keys: seq<Key>)
    requires Enabled(world, s, DraftDay(w, keys))
    ensures Enabled(world, Apply(world, s, DraftDay(w, keys)), WriteFails(w)) && Enabled(world, s, DraftFails(w))
    ensures Apply(world, Apply(world, s, DraftDay(w, keys)), WriteFails(w)) == Apply(world, s, DraftFails(w))
  {
    var k := Walking(s.workers[w].partner, s.workers[w].next + 1, s.workers[w].through, true);
    assert Apply(world, s, DraftDay(w, keys)).workers[w := k] == s.workers[w := k];
  }

  // ---------------------------------------------------------------------
  // What every run keeps, whatever fails
  // ---------------------------------------------------------------------

  ghost predicate WorkerSettled(g: Generator, clock: int, k: Worker) {
    match k
    case Resting => true
    case Ticking(through) => g.CutoffFor(through) <= clock
    case Walking(_, next, through, _) => g.CutoffFor(through) <= clock
    case Holding(partner, next, through, _, draft) =>
      g.CutoffFor(through) <= clock && next <= through && IsFor(draft, partner.consumer, next)
  }

  /** One statement per partner and day, none before its cutoff, none that the store's checks refuse. */
  ghost predicate Sound(world: World, s: State) {
    && Unique(s.table)
    && (forall i :: 0 <= i < |s.table| ==> world.g.CutoffFor(s.table[i].day) <= s.clock && Writable(s.table[i]))
    && (forall w :: 0 <= w < |s.workers| ==> WorkerSettled(world.g, s.clock, s.workers[w]))
  }

  lemma CutoffMonotone(g: Generator, a: Day, b: Day)
    requires a <= b
    ensures g.CutoffFor(a) <= g.CutoffFor(b)
  {
  }

  lemma WriteKeepsSound(world: World, s: State, w: nat)
    requires Sound(world, s) && Enabled(world, s, Write(w))
    ensures Sound(world, Apply(world, s, Write(w))) && s.table <= Apply(world, s, Write(w)).table
  {
    var k := s.workers[w];
    InsertKeepsUnique(s.table, k.draft);
    CutoffMonotone(world.g, k.next, k.through);
  }

  lemma PutKeepsSound(world: World, s: State, w: nat, k: Worker)
    requires Sound(world, s) && w < |s.workers| && WorkerSettled(world.g, s.clock, k)
    ensures Sound(world, Put(s, w, k))
  {
  }

  lemma AdvanceKeepsSound(world: World, s: State, to: int)
    requires Sound(world, s) && s.clock <= to
    ensures Sound(world, s.(clock := to))
  {
  }

  /** What a scheduler turns to in a step that changes nothing else is a day that has passed its cutoff too. */
  lemma TurnIsSettled(world: World, s: State, step: Step)
    requires Sound(world, s) && Enabled(world, s, step)
    requires !step.Advance? && !step.Accept? && !step.Finalise? && !step.Write?
    ensures Sound(world, Apply(world, s, step))
  {
    if step.Begin? {
      var through := world.g.ClosableThrough(s.clock).value;
      WalkIsSettled(world.g, s.clock, through, through);
    }
    PutKeepsSound(world, s, step.w, Apply(world, s, step).workers[step.w]);
  }

  lemma StepKeepsSound(world: World, s: State, step: Step)
    requires Sound(world, s) && Enabled(world, s, step)
    ensures Sound(world, Apply(world, s, step))
    ensures s.table <= Apply(world, s, step).table && s.clock <= Apply(world, s, step).clock
  {
    match step {
      case Advance(to) => AdvanceKeepsSound(world, s, to);
      case Accept(_) =>
      case Finalise(_, _) =>
      case Write(w) => WriteKeepsSound(world, s, w);
      case _ => TurnIsSettled(world, s, step);
    }
  }

  /**
   * Over every run of every number of schedulers, with any failures, deaths and restarts: one
   * statement per partner and day, none before its cutoff, and a written statement never changes.
   */
  lemma {:induction false} RunsAreSound(world: World, s: State, steps: seq<Step>)
    requires Sound(world, s) && CanRun(world, s, steps)
    ensures Sound(world, RunTo(world, s, steps))
    ensures s.table <= RunTo(world, s, steps).table
    decreases |steps|
  {
    if steps != [] {
      StepKeepsSound(world, s, steps[0]);
      RunsAreSound(world, Apply(world, s, steps[0]), steps[1..]);
    }
  }

  // ---------------------------------------------------------------------
  // No gaps, when no walk is cut short and no day succeeds after one failed
  // ---------------------------------------------------------------------

  ghost predicate CreationKnown(world: World, consumer: string) {
    consumer in world.created && world.created[consumer].Some?
  }

  /** The day a consumer's statements start on. */
  ghost function First(world: World, consumer: string): Day
    requires CreationKnown(world, consumer)
  {
    DayOf(world.created[consumer].value, world.g.tz)
  }

  /** The two hypotheses, step by step, about one consumer. */
  ghost predicate Orderly(world: World, s: State, step: Step, consumer: string)
    requires Enabled(world, s, step)
  {
    match step
    case Take(w, partner) =>
      partner.consumer == consumer ==>
        var through := s.workers[w].through;
        !world.g.CatchupTruncated(Some(AnchorFor(world.g, s.table, partner, through)), through)
    case Write(w) =>
      s.workers[w].partner.consumer == consumer ==>
        !s.workers[w].failed || Has(s.table, consumer, s.workers[w].next)
    case _ => true
  }

  /** A walk is taken up orderly exactly when it leaves out no day after its anchor. */
  lemma OrderlyTakeExactlyWhen(world: World, s: State, w: nat, partner: Partner)
    requires Enabled(world, s, Take(w, partner))
    ensures Orderly(world, s, Take(w, partner), partner.consumer) <==>
      Apply(world, s, Take(w, partner)).workers[w].next
      == AnchorFor(world.g, s.table, partner, s.workers[w].through) + 1
  {
  }

  /** And a day is written orderly exactly when none of its walk had failed, or it changes nothing. */
  lemma OrderlyWriteExactlyWhen(world: World, s: State, w: nat)
    requires Enabled(world, s, Write(w)) && HoldsItsDay(s.workers[w])
    ensures Orderly(world, s, Write(w), s.workers[w].partner.consumer) <==>
      !s.workers[w].failed || Apply(world, s, Write(w)).table == s.table
  {
  }

  /** A live walk that has not failed is at most one day ahead of the table. */
  ghost predicate NotAhead(t: Table, k: Worker, consumer: string, first: Day) {
    (k.Walking? || k.Holding?) && k.partner.consumer == consumer && !k.failed ==>
      first <= k.next <= NewestOr(t, consumer, first) + 1
  }

  /** What a scheduler holds is the draft of the day it is on. */
  ghost predicate HoldsItsDay(k: Worker) {
    k.Holding? ==> IsFor(k.draft, k.partner.consumer, k.next)
  }

  ghost predicate GapFree(world: World, s: State, consumer: string)
    requires CreationKnown(world, consumer)
  {
    && Contiguous(s.table, consumer, First(world, consumer))
    && (forall w :: 0 <= w < |s.workers| ==> NotAhead(s.table, s.workers[w], consumer, First(world, consumer)))
    && (forall w :: 0 <= w < |s.workers| ==> HoldsItsDay(s.workers[w]))
  }

  lemma AnchorIsNewest(world: World, t: Table, partner: Partner, through: Day)
    requires CreationKnown(world, partner.consumer) && partner.createdAt == world.created[partner.consumer]
    ensures AnchorFor(world.g, t, partner, through) == NewestOr(t, partner.consumer, First(world, partner.consumer))
  {
  }

  lemma NewestNotBefore(t: Table, consumer: string, first: Day)
    requires Contiguous(t, consumer, first)
    ensures first - 1 <= NewestOr(t, consumer, first)
  {
    if Newest(t, consumer).Some? {
      assert Has(t, consumer, Newest(t, consumer).value);
    }
  }

  /** A write in its place keeps one consumer's days a run, and the run only grows. */
  lemma InsertKeepsRun(t: Table, d: Draft, consumer: string, first: Day)
    requires Contiguous(t, consumer, first)
    requires d.consumer == consumer ==> Has(t, consumer, d.day) || d.day == NewestOr(t, consumer, first) + 1
    ensures Contiguous(Insert(t, d), consumer, first)
    ensures NewestOr(t, consumer, first) <= NewestOr(Insert(t, d), consumer, first)
    ensures d.consumer == consumer ==> d.day <= NewestOr(Insert(t, d), consumer, first)
  {
    if d.consumer != consumer {
      InsertElsewhere(t, d, consumer, first);
    } else if !Has(t, consumer, d.day) {
      NewestNotBefore(t, consumer, first);
      InsertKeepsRunExactlyWhen(t, d, first);
    }
  }

  lemma WriteKeepsGapFree(world: World, s: State, w: nat, consumer: string)
    requires CreationKnown(world, consumer) && GapFree(world, s, consumer)
    requires Enabled(world, s, Write(w)) && Orderly(world, s, Write(w), consumer)
    ensures GapFree(world, Apply(world, s, Write(w)), consumer)
  {
    var k, first := s.workers[w], First(world, consumer);
    assert NotAhead(s.table, k, consumer, first) && HoldsItsDay(k);
    InsertKeepsRun(s.table, k.draft, consumer, first);
    var t' := Insert(s.table, k.draft);
    LaterTableKeepsNotAhead(s.table, t', s.workers, consumer, first);
    assert NotAhead(t', Walking(k.partner, k.next + 1, k.through, k.failed), consumer, first);
  }

  lemma LaterTableKeepsNotAhead(t: Table, t': Table, workers: seq<Worker>, consumer: string, first: Day)
    requires NewestOr(t, consumer, first) <= NewestOr(t', consumer, first)
    requires forall i :: 0 <= i < |workers| ==> NotAhead(t, workers[i], consumer, first)
    ensures forall i :: 0 <= i < |workers| ==> NotAhead(t', workers[i], consumer, first)
  {
    forall i | 0 <= i < |workers| ensures NotAhead(t', workers[i], consumer, first) {
      assert NotAhead(t, workers[i], consumer, first);
    }
  }

  lemma TakeKeepsGapFree(world: World, s: State, w: nat, partner: Partner, consumer: string)
    requires CreationKnown(world, consumer) && GapFree(world, s, consumer)
    requires Enabled(world, s, Take(w, partner)) && Orderly(world, s, Take(w, partner), consumer)
    ensures GapFree(world, Apply(world, s, Take(w, partner)), consumer)
  {
    if partner.consumer == consumer {
      AnchorIsNewest(world, s.table, partner, s.workers[w].through);
      NewestNotBefore(s.table, consumer, First(world, consumer));
    }
  }

  lemma StepKeepsGapFree(world: World, s: State, step: Step, consumer: string)
    requires CreationKnown(world, consumer) && GapFree(world, s, consumer)
    requires Enabled(world, s, step) && Orderly(world, s, step, consumer)
    ensures GapFree(world, Apply(world, s, step), consumer)
  {
    match step {
      case Take(w, partner) => TakeKeepsGapFree(world, s, w, partner, consumer);
      case Write(w) => WriteKeepsGapFree(world, s, w, consumer);
      case _ =>
    }
  }

  ghost predicate OrderlyRun(world: World, s: State, steps: seq<Step>, consumer: string)
    requires CanRun(world, s, steps)
    decreases |steps|
  {
    steps == [] ||
    (Orderly(world, s, steps[0], consumer) && OrderlyRun(world, Apply(world, s, steps[0]), steps[1..], consumer))
  }

  /** Such a run is one whose every step is orderly where it is taken. */
  lemma {:induction false} OrderlyRunExactlyWhen(world: World, s: State, steps: seq<Step>, consumer: string)
    requires CanRun(world, s, steps)
    ensures OrderlyRun(world, s, steps, consumer) <==>
      forall k :: 0 <= k < |steps| ==>
        Enabled(world, StateAt(world, s, steps, k), steps[k])
        && Orderly(world, StateAt(world, s, steps, k), steps[k], consumer)
    decreases |steps|
  {
    if steps != [] {
      var next, rest := Apply(world, s, steps[0]), steps[1..];
      OrderlyRunExactlyWhen(world, next, rest, consumer);
      assert forall k :: 0 <= k < |rest| ==> StateAt(world, next, rest, k) == StateAt(world, s, steps, k + 1);
      assert StateAt(world, s, steps, 0) == s;
      if OrderlyRun(world, s, steps, consumer) {
        forall k | 0 <= k < |steps|
          ensures Enabled(world, StateAt(world, s, steps, k), steps[k])
               && Orderly(world, StateAt(world, s, steps, k), steps[k], consumer) {
          if k > 0 {
            assert rest[k - 1] == steps[k];
          }
        }
      }
    }
  }

  /**
   * Over every orderly run, a partner's stated days stay one contiguous run from the day it was
   * created, and no live walk is ever more than a day ahead of it.
   */
  lemma {:induction false} RunsLeaveNoGap(world: World, s: State, steps: seq<Step>, consumer: string)
    requires CreationKnown(world, consumer) && GapFree(world, s, consumer)
    requires CanRun(world, s, steps) && OrderlyRun(world, s, steps, consumer)
    ensures GapFree(world, RunTo(world, s, steps), consumer)
    decreases |steps|
  {
    if steps != [] {
      StepKeepsGapFree(world, s, steps[0], consumer);
      RunsLeaveNoGap(world, Apply(world, s, steps[0]), steps[1..], consumer);
    }
  }

  lemma InitIsGood(world: World, s: State, consumer: string)
    requires Init(s)
    ensures Sound(world, s)
    ensures CreationKnown(world, consumer) ==> GapFree(world, s, consumer)
    ensures forall day :: NothingFrom(world, s, consumer, day)
  {
    assert forall day :: !Has(s.table, consumer, day);
  }

  /** Exactly which write breaks a gap-free table: one of a day past the next. */
  lemma WriteBreaksRunExactlyWhen(world: World, s: State, w: nat)
    requires Enabled(world, s, Write(w)) && Sound(world, s)
    requires CreationKnown(world, s.workers[w].partner.consumer)
    requires Contiguous(s.table, s.workers[w].partner.consumer, First(world, s.workers[w].partner.consumer))
    requires First(world, s.workers[w].partner.consumer) <= s.workers[w].next
    ensures var c := s.workers[w].partner.consumer;
      Contiguous(Apply(world, s, Write(w)).table, c, First(world, c))
      <==> s.workers[w].next <= NewestOr(s.table, c, First(world, c)) + 1
  {
    var k := s.workers[w];
    InsertKeepsRunExactlyWhen(s.table, k.draft, First(world, k.partner.consumer));
  }

  // ---------------------------------------------------------------------
  // A gap is for ever
  // ---------------------------------------------------------------------

  /** A day behind the newest statement, with nobody left who could still write it. */
  ghost predicate Abandoned(s: State, consumer: string, gap: Day) {
    && !Has(s.table, consumer, gap)
    && Newest(s.table, consumer).Some? && gap < Newest(s.table, consumer).value
    && forall w :: 0 <= w < |s.workers| ==> PastGap(s.workers[w], consumer, gap)
  }

  predicate PastGap(k: Worker, consumer: string, gap: Day) {
    (k.Walking? || k.Holding?) && k.partner.consumer == consumer ==> gap < k.next
  }

  lemma WriteKeepsAbandoned(world: World, s: State, w: nat, consumer: string, gap: Day)
    requires Sound(world, s) && Abandoned(s, consumer, gap) && Enabled(world, s, Write(w))
    ensures Abandoned(Apply(world, s, Write(w)), consumer, gap)
  {
    var k, newest := s.workers[w], Newest(s.table, consumer).value;
    InsertAdds(s.table, k.draft);
    assert Has(Insert(s.table, k.draft), consumer, newest);
    assert PastGap(k, consumer, gap);
  }

  lemma StepKeepsAbandoned(world: World, s: State, step: Step, consumer: string, gap: Day)
    requires Sound(world, s) && Abandoned(s, consumer, gap) && Enabled(world, s, step)
    ensures Abandoned(Apply(world, s, step), consumer, gap)
  {
    match step {
      case Write(w) => WriteKeepsAbandoned(world, s, w, consumer, gap);
      case _ =>
    }
  }

  /**
   * A gap is never filled, in any run: the walk starts from the newest statement, so no later
   * tick of any instance ever reaches back, although a failed day is documented as retried.
   */
  lemma {:induction false} GapsAreForEver(world: World, s: State, steps: seq<Step>, consumer: string, gap: Day)
    requires Sound(world, s) && Abandoned(s, consumer, gap) && CanRun(world, s, steps)
    ensures !Has(RunTo(world, s, steps).table, consumer, gap)
    decreases |steps|
  {
    if steps != [] {
      StepKeepsSound(world, s, steps[0]);
      StepKeepsAbandoned(world, s, steps[0], consumer, gap);
      GapsAreForEver(world, Apply(world, s, steps[0]), steps[1..], consumer, gap);
    }
  }

  // ---------------------------------------------------------------------
  // Terms too long are never stated
  // ---------------------------------------------------------------------

  /** Whenever this consumer is taken, its partner row cannot be invoiced for `day`, and so for no later one. */
  ghost predicate TakenUnpayable(world: World, step: Step, consumer: string, day: Day) {
    step.Take? && step.partner.consumer == consumer ==> !Payable(world.g, step.partner, day)
  }

  /** What a scheduler has in its hands about this consumer will not be written, from `day` on. */
  ghost predicate Refused(world: World, k: Worker, consumer: string, day: Day) {
    && ((k.Walking? || k.Holding?) && k.partner.consumer == consumer ==> !Payable(world.g, k.partner, day))
    && (k.Holding? ==> IsFor(k.draft, k.partner.consumer, k.next))
    && (k.Holding? && k.partner.consumer == consumer && k.next >= day ==> !Writable(k.draft))
  }

  ghost predicate NothingFrom(world: World, s: State, consumer: string, day: Day) {
    && (forall d :: d >= day ==> !Has(s.table, consumer, d))
    && (forall w :: 0 <= w < |s.workers| ==> Refused(world, s.workers[w], consumer, day))
  }

  lemma DraftIsRefused(world: World, s: State, w: nat, keys: seq<Key>, consumer: string, day: Day)
    requires Enabled(world, s, DraftDay(w, keys)) && Refused(world, s.workers[w], consumer, day)
    ensures Refused(world, Apply(world, s, DraftDay(w, keys)).workers[w], consumer, day)
  {
    var k := s.workers[w];
    if k.partner.consumer == consumer && k.next >= day {
      RefusedFromThenOn(world.g, k.partner, day, k.next,
                        GroupsBy(keys, DayRows(world.g, s, k.partner.consumer, k.next)));
    }
  }

  lemma WriteStatesNothing(world: World, s: State, w: nat, consumer: string, day: Day)
    requires Enabled(world, s, Write(w)) && NothingFrom(world, s, consumer, day)
    ensures forall d :: d >= day ==> !Has(Apply(world, s, Write(w)).table, consumer, d)
  {
    assert Refused(world, s.workers[w], consumer, day);
    InsertAdds(s.table, s.workers[w].draft);
  }

  lemma StepStatesNothing(world: World, s: State, step: Step, consumer: string, day: Day)
    requires Enabled(world, s, step) && NothingFrom(world, s, consumer, day)
    requires TakenUnpayable(world, step, consumer, day)
    ensures NothingFrom(world, Apply(world, s, step), consumer, day)
  {
    match step {
      case DraftDay(w, keys) => DraftIsRefused(world, s, w, keys, consumer, day);
      case Write(w) => WriteStatesNothing(world, s, w, consumer, day);
      case _ =>
    }
  }

  /**
   * Terms whose deadline for some day is not in the calendar: while a partner has such terms, no
   * run of any number of schedulers ever states that day, or a later one.
   */
  lemma {:induction false} LongTermsAreNeverStated(world: World, s: State, steps: seq<Step>, consumer: string, day: Day)
    requires NothingFrom(world, s, consumer, day) && CanRun(world, s, steps)
    requires forall i :: 0 <= i < |steps| ==> TakenUnpayable(world, steps[i], consumer, day)
    ensures NothingFrom(world, RunTo(world, s, steps), consumer, day)
    decreases |steps|
  {
    if steps != [] {
      StepStatesNothing(world, s, steps[0], consumer, day);
      LongTermsAreNeverStated(world, Apply(world, s, steps[0]), steps[1..], consumer, day);
    }
  }
}
