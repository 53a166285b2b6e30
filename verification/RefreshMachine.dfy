/**
 * Several instances caching one database's keys (`src/apikeys/store.rs`, `src/apikeys/refresher.rs`).
 * A refresh loads, and later swaps; no lock spans the two, so refreshes of one instance overlap,
 * and anyone may commit, or time pass, in between.
 */
module RefreshMachine {
  import opened Prelude
  import opened Timefmt
  import opened Status
  import opened KeyTable
  import opened KeySnapshot

  /** What the database holds, and when: either may change what a load returns. */
  datatype Moment = Moment(db: Db, now: Instant)

  ghost predicate Sane(m: Moment) {
    Legal(m.db.bills) && Good(m.db.keys)
  }

  type Iso = string -> Option<Instant>

  // ---------------------------------------------------------------------
  // What a load at one moment returns
  // ---------------------------------------------------------------------

  ghost function Authenticating(rows: seq<KeyRow>, now: Instant): seq<KeyRow> {
    if rows == [] then []
    else
      var rest, last := Authenticating(rows[..|rows| - 1], now), rows[|rows| - 1];
      if Authenticates(last, now) then rest + [last] else rest
  }

  ghost function SelectedRows(order: seq<KeyRow>, m: Moment): seq<SelectedRow>
    requires Legal(m.db.bills)
  {
    seq(|order|, i requires 0 <= i < |order| => SelectedOf(m.db, order[i], m.now))
  }

  ghost function Entries(m: Moment, iso: Iso): seq<(string, Config)>
    requires Legal(m.db.bills)
  {
    var selected := SelectedRows(Authenticating(m.db.keys.rows, m.now), m);
    seq(|selected|, i requires 0 <= i < |selected| => EntryOf(m.db.models, selected, i, m.now, iso))
  }

  ghost function Loaded(m: Moment, iso: Iso): Snapshot
    requires Sane(m)
  {
    FromRows(Entries(m, iso))
  }

  lemma {:induction false} AuthenticatingIsOrder(rows: seq<KeyRow>, now: Instant)
    requires forall i, j :: 0 <= i < j < |rows| ==> rows[i].id < rows[j].id
    ensures forall k :: k in Authenticating(rows, now) <==> k in rows && Authenticates(k, now)
    ensures forall i, j :: 0 <= i < j < |Authenticating(rows, now)| ==>
      Authenticating(rows, now)[i] != Authenticating(rows, now)[j]
  {
    if rows != [] {
      var n := |rows| - 1;
      var rest := Authenticating(rows[..n], now);
      AuthenticatingIsOrder(rows[..n], now);
      forall i | 0 <= i < |rest| ensures rest[i] != rows[n] {
        assert rest[i] in rows[..n];
      }
    }
  }

  /** A load at one moment is the authenticating set of that moment. */
  lemma {:induction false} LoadedIsTheAuthSet(m: Moment, iso: Iso)
    requires Sane(m)
    ensures IsAuth(Loaded(m, iso), m.db, m.now, iso)
  {
    var order := Authenticating(m.db.keys.rows, m.now);
    AuthenticatingIsOrder(m.db.keys.rows, m.now);
    LoadIsLossless(m.db, order, SelectedRows(order, m), m.now, iso, Entries(m, iso));
  }

  /** What a load returns at each moment; the machine below needs no more of it than that it is one. */
  type Loader = Moment -> Snapshot

  /** The loads of this product. */
  ghost function LoaderOf(iso: Iso): Loader {
    (m: Moment) => if Sane(m) then Loaded(m, iso) else map[]
  }

  // ---------------------------------------------------------------------
  // The machine
  // ---------------------------------------------------------------------

  /** A refresh between its load and its swap; `at` is the moment it loaded. */
  datatype Load = Load(value: Snapshot, at: nat)

  datatype Node = Node(snapshot: Snapshot, at: nat, loads: map<nat, Load>)

  /** Every moment so far, the current one last. */
  datatype State = State(history: seq<Moment>, nodes: seq<Node>)

  datatype Step =
    | Change(m: Moment)
    | BeginLoad(i: nat, r: nat)
    | Fail(i: nat, r: nat)
    | Swap(i: nat, r: nat)

  ghost predicate Enabled(s: State, step: Step) {
    match step
    case Change(m) => Sane(m)
    case BeginLoad(i, r) => i < |s.nodes| && r !in s.nodes[i].loads && s.history != []
    case Fail(i, r) => i < |s.nodes|
    case Swap(i, r) => i < |s.nodes| && r in s.nodes[i].loads
  }

  function Put(s: State, i: nat, n: Node): State
    requires i < |s.nodes|
  {
    s.(nodes := s.nodes[i := n])
  }

  ghost function Loading(m: Moment, at: nat, n: Node, r: nat, load: Loader): Node
  {
    n.(loads := n.loads[r := Load(load(m), at)])
  }

  function Swapped(n: Node, r: nat): Node
    requires r in n.loads
  {
    Node(n.loads[r].value, n.loads[r].at, n.loads - {r})
  }

  ghost function Apply(s: State, step: Step, load: Loader): State
    requires Enabled(s, step)
  {
    match step
    case Change(m) => s.(history := s.history + [m])
    case BeginLoad(i, r) => Put(s, i, Loading(s.history[|s.history| - 1], |s.history| - 1, s.nodes[i], r, load))
    case Fail(i, r) => Put(s, i, s.nodes[i].(loads := s.nodes[i].loads - {r}))
    case Swap(i, r) => Put(s, i, Swapped(s.nodes[i], r))
  }

  ghost predicate CanRun(s: State, steps: seq<Step>, load: Loader)
    decreases |steps|
  {
    steps == [] || (Enabled(s, steps[0]) && CanRun(Apply(s, steps[0], load), steps[1..], load))
  }

  ghost function RunTo(s: State, steps: seq<Step>, load: Loader): State
    requires CanRun(s, steps, load)
    decreases |steps|
  {
    if steps == [] then s else RunTo(Apply(s, steps[0], load), steps[1..], load)
  }

  ghost predicate SaneHistory(history: seq<Moment>) {
    history != [] && forall v :: 0 <= v < |history| ==> Sane(history[v])
  }

  /** What each moment so far would load. */
  ghost function Answers(history: seq<Moment>, load: Loader): (r: seq<Snapshot>)
    ensures |r| == |history|
  {
    seq(|history|, v requires 0 <= v < |history| => load(history[v]))
  }

  /** What the node serves, and what its refreshes hold, are answers of past moments. */
  ghost predicate HonestNode(answers: seq<Snapshot>, n: Node) {
    && n.at < |answers| && n.snapshot == answers[n.at]
    && forall r :: r in n.loads ==> n.loads[r].at < |answers| && n.loads[r].value == answers[n.loads[r].at]
  }

  /** Every snapshot, served or still in flight, is what some past moment would load. */
  ghost predicate Honest(s: State, load: Loader) {
    AllHonest(Answers(s.history, load), s.nodes)
  }

  ghost predicate AllHonest(answers: seq<Snapshot>, nodes: seq<Node>) {
    forall i :: 0 <= i < |nodes| ==> HonestNode(answers, nodes[i])
  }

  /** Instances that have loaded once, from whatever the database held when each of them started. */
  ghost predicate Started(s: State, load: Loader) {
    s.history != [] && forall i :: 0 <= i < |s.nodes| ==>
      s.nodes[i].at < |s.history| && s.nodes[i].snapshot == load(s.history[s.nodes[i].at]) && s.nodes[i].loads == map[]
  }

  lemma {:induction false} StartedIsHonest(s: State, load: Loader)
    requires Started(s, load)
    ensures Honest(s, load)
  {
  }

  /** An empty database is a sane one, whenever it is. */
  lemma EmptyIsSane(now: Instant)
    ensures Sane(Moment(Db(Table([], 0), map[], [], []), now))
  {
  }

  lemma {:induction false} OneMoreAnswer(history: seq<Moment>, m: Moment, load: Loader)
    ensures Answers(history + [m], load) == Answers(history, load) + [load(m)]
  {
  }

  lemma MoreAnswersKeepHonest(answers: seq<Snapshot>, one: Snapshot, nodes: seq<Node>)
    requires AllHonest(answers, nodes)
    ensures AllHonest(answers + [one], nodes)
  {
    forall i | 0 <= i < |nodes| ensures HonestNode(answers + [one], nodes[i]) {
      assert HonestNode(answers, nodes[i]);
    }
  }

  lemma LoadKeepsHonest(answers: seq<Snapshot>, n: Node, r: nat, at: nat)
    requires HonestNode(answers, n) && at < |answers|
    ensures HonestNode(answers, n.(loads := n.loads[r := Load(answers[at], at)]))
  {
  }

  lemma NodeKeepsHonest(answers: seq<Snapshot>, nodes: seq<Node>, i: nat, n: Node)
    requires AllHonest(answers, nodes) && i < |nodes| && HonestNode(answers, n)
    ensures AllHonest(answers, nodes[i := n])
  {
  }

  lemma {:induction false} ChangeKeepsHonest(s: State, m: Moment, load: Loader)
    requires Honest(s, load)
    ensures Honest(s.(history := s.history + [m]), load)
  {
    OneMoreAnswer(s.history, m, load);
    MoreAnswersKeepHonest(Answers(s.history, load), load(m), s.nodes);
  }

  lemma {:induction false} PutKeepsHonest(s: State, i: nat, n: Node, load: Loader)
    requires Honest(s, load) && i < |s.nodes|
    requires HonestNode(Answers(s.history, load), s.nodes[i]) ==> HonestNode(Answers(s.history, load), n)
    ensures Honest(Put(s, i, n), load)
  {
    NodeKeepsHonest(Answers(s.history, load), s.nodes, i, n);
  }

  lemma {:induction false} LastAnswer(history: seq<Moment>, load: Loader)
    requires history != []
    ensures Answers(history, load)[|history| - 1] == load(history[|history| - 1])
  {
  }

  lemma LoadPutKeepsHonest(answers: seq<Snapshot>, nodes: seq<Node>, i: nat, r: nat, at: nat)
    requires AllHonest(answers, nodes) && i < |nodes| && at < |answers|
    ensures AllHonest(answers, nodes[i := nodes[i].(loads := nodes[i].loads[r := Load(answers[at], at)])])
  {
    LoadKeepsHonest(answers, nodes[i], r, at);
    NodeKeepsHonest(answers, nodes, i, nodes[i].(loads := nodes[i].loads[r := Load(answers[at], at)]));
  }

  lemma {:induction false} StepKeepsHonest(s: State, step: Step, load: Loader)
    requires Honest(s, load) && Enabled(s, step)
    ensures Honest(Apply(s, step, load), load)
    ensures s.history <= Apply(s, step, load).history && |Apply(s, step, load).nodes| == |s.nodes|
  {
    match step {
      case Change(m) => ChangeKeepsHonest(s, m, load);
      case BeginLoad(i, r) =>
        LastAnswer(s.history, load);
        LoadPutKeepsHonest(Answers(s.history, load), s.nodes, i, r, |s.history| - 1);
      case Fail(i, r) => PutKeepsHonest(s, i, s.nodes[i].(loads := s.nodes[i].loads - {r}), load);
      case Swap(i, r) => PutKeepsHonest(s, i, Swapped(s.nodes[i], r), load);
    }
  }

  lemma {:induction false} RunKeepsHonest(s: State, steps: seq<Step>, load: Loader)
    requires Honest(s, load) && CanRun(s, steps, load)
    ensures Honest(RunTo(s, steps, load), load)
    ensures |RunTo(s, steps, load).nodes| == |s.nodes|
    decreases |steps|
  {
    if steps != [] {
      StepKeepsHonest(s, steps[0], load);
      RunKeepsHonest(Apply(s, steps[0], load), steps[1..], load);
    }
  }

  lemma {:induction false} RunKeepsSaneHistory(s: State, steps: seq<Step>, load: Loader)
    requires SaneHistory(s.history) && CanRun(s, steps, load)
    ensures SaneHistory(RunTo(s, steps, load).history)
    decreases |steps|
  {
    if steps != [] {
      RunKeepsSaneHistory(Apply(s, steps[0], load), steps[1..], load);
    }
  }

  /** What node `i` serves is the authenticating set of a moment of the history. */
  ghost predicate ServesARealState(s: State, iso: Iso, i: nat) {
    && i < |s.nodes| && s.nodes[i].at < |s.history|
    && var m := s.history[s.nodes[i].at];
      Sane(m) && IsAuth(s.nodes[i].snapshot, m.db, m.now, iso)
  }

  /**
   * In every run of every number of instances, whatever fails, what an instance authenticates
   * against is the authenticating set of a state the database really was in.
   */
  lemma {:induction false} EveryNodeServesARealState(s: State, steps: seq<Step>, iso: Iso, i: nat)
    requires SaneHistory(s.history) && Honest(s, LoaderOf(iso))
    requires CanRun(s, steps, LoaderOf(iso)) && i < |s.nodes|
    ensures ServesARealState(RunTo(s, steps, LoaderOf(iso)), iso, i)
  {
    RunKeepsHonest(s, steps, LoaderOf(iso));
    RunKeepsSaneHistory(s, steps, LoaderOf(iso));
    var end := RunTo(s, steps, LoaderOf(iso));
    assert HonestNode(Answers(end.history, LoaderOf(iso)), end.nodes[i]);
    LoadedIsTheAuthSet(end.history[end.nodes[i].at], iso);
  }

  /**
   * Refreshes that fail or have only loaded, commits, the passing of time, other nodes: a run
   * without a swap of its own leaves what a node serves as it was.
   */
  lemma {:induction false} OnlyItsOwnSwapChangesANode(s: State, steps: seq<Step>, load: Loader, i: nat)
    requires i < |s.nodes| && CanRun(s, steps, load)
    requires forall k :: 0 <= k < |steps| ==> !(steps[k].Swap? && steps[k].i == i)
    ensures i < |RunTo(s, steps, load).nodes|
    ensures RunTo(s, steps, load).nodes[i].snapshot == s.nodes[i].snapshot
    decreases |steps|
  {
    if steps != [] {
      var next := Apply(s, steps[0], load);
      assert next.nodes[i].snapshot == s.nodes[i].snapshot && |next.nodes| == |s.nodes|;
      OnlyItsOwnSwapChangesANode(next, steps[1..], load, i);
    }
  }

  // ---------------------------------------------------------------------
  // When a commit is visible, and for how long
  // ---------------------------------------------------------------------

  /** Refresh `r` of node `i`, if in flight, loaded at moment `v` or later. */
  ghost predicate FreshLoad(s: State, i: nat, r: nat, v: nat) {
    i < |s.nodes| && v < |s.history| && (r in s.nodes[i].loads ==> s.nodes[i].loads[r].at >= v)
  }

  lemma {:induction false} LoadStaysFresh(s: State, steps: seq<Step>, load: Loader, i: nat, r: nat, v: nat)
    requires FreshLoad(s, i, r, v) && CanRun(s, steps, load)
    ensures FreshLoad(RunTo(s, steps, load), i, r, v)
    decreases |steps|
  {
    if steps != [] {
      assert FreshLoad(Apply(s, steps[0], load), i, r, v);
      LoadStaysFresh(Apply(s, steps[0], load), steps[1..], load, i, r, v);
    }
  }

  /**
   * A refresh that begins after a commit and completes makes it visible, however many steps of
   * other refreshes and other instances come between its load and its swap. This covers an
   * instance's own mutations and a sibling's commits alike.
   */
  lemma {:induction false} CompleteRefreshSees(s: State, steps: seq<Step>, load: Loader, i: nat, r: nat, v: nat)
    requires v < |s.history| && Enabled(s, BeginLoad(i, r))
    requires CanRun(Apply(s, BeginLoad(i, r), load), steps, load)
    requires Enabled(RunTo(Apply(s, BeginLoad(i, r), load), steps, load), Swap(i, r))
    ensures Apply(RunTo(Apply(s, BeginLoad(i, r), load), steps, load), Swap(i, r), load).nodes[i].at >= v
  {
    LoadStaysFresh(Apply(s, BeginLoad(i, r), load), steps, load, i, r, v);
  }

  ghost predicate AllFresh(s: State, i: nat, v: nat) {
    && i < |s.nodes| && v < |s.history| && s.nodes[i].at >= v
    && forall r :: r in s.nodes[i].loads ==> s.nodes[i].loads[r].at >= v
  }

  lemma {:induction false} AllFreshStays(s: State, steps: seq<Step>, load: Loader, i: nat, v: nat)
    requires AllFresh(s, i, v) && CanRun(s, steps, load)
    ensures AllFresh(RunTo(s, steps, load), i, v)
    decreases |steps|
  {
    if steps != [] {
      assert AllFresh(Apply(s, steps[0], load), i, v);
      AllFreshStays(Apply(s, steps[0], load), steps[1..], load, i, v);
    }
  }

  ghost predicate VisibleForGood(s: State, load: Loader, i: nat, v: nat)
    requires i < |s.nodes|
  {
    forall steps :: CanRun(s, steps, load) ==>
      i < |RunTo(s, steps, load).nodes| && RunTo(s, steps, load).nodes[i].at >= v
  }

  /** A visible commit stays visible in every continuation exactly when no refresh in flight loaded before it. */
  lemma {:induction false} VisibleForGoodExactlyWhen(s: State, load: Loader, i: nat, v: nat)
    requires i < |s.nodes| && v < |s.history| && s.nodes[i].at >= v
    ensures VisibleForGood(s, load, i, v) <==> forall r :: r in s.nodes[i].loads ==> s.nodes[i].loads[r].at >= v
  {
    if forall r :: r in s.nodes[i].loads ==> s.nodes[i].loads[r].at >= v {
      forall steps | CanRun(s, steps, load)
        ensures i < |RunTo(s, steps, load).nodes| && RunTo(s, steps, load).nodes[i].at >= v {
        AllFreshStays(s, steps, load, i, v);
      }
    } else {
      var r :| r in s.nodes[i].loads && s.nodes[i].loads[r].at < v;
      StepFirst(s, Swap(i, r), [], load);
      assert RunTo(s, [Swap(i, r)] + [], load).nodes[i].at < v;
    }
  }

  lemma {:induction false} StepFirst(s: State, step: Step, rest: seq<Step>, load: Loader)
    requires Enabled(s, step) && CanRun(Apply(s, step, load), rest, load)
    ensures CanRun(s, [step] + rest, load)
    ensures RunTo(s, [step] + rest, load) == RunTo(Apply(s, step, load), rest, load)
  {
    assert ([step] + rest)[1..] == rest;
  }

  /** One step from a known state to a known state. */
  ghost predicate Moves(s: State, step: Step, t: State, load: Loader) {
    Enabled(s, step) && Apply(s, step, load) == t
  }

  lemma PutSame(s: State, i: nat)
    requires i < |s.nodes|
    ensures Put(s, i, s.nodes[i]) == s
  {
    assert s.nodes[i := s.nodes[i]] == s.nodes;
  }

  lemma PutTwice(s: State, i: nat, a: Node, b: Node)
    requires i < |s.nodes|
    ensures Put(Put(s, i, a), i, b) == Put(s, i, b)
  {
    assert s.nodes[i := a][i := b] == s.nodes[i := b];
  }

  lemma {:induction false} LoadMoves(s: State, i: nat, n: Node, r: nat, load: Loader)
    requires i < |s.nodes| && r !in n.loads && s.history != []
    ensures var now := |s.history| - 1;
      Moves(Put(s, i, n), BeginLoad(i, r), Put(s, i, Loading(s.history[now], now, n, r, load)), load)
  {
    var now := |s.history| - 1;
    PutTwice(s, i, n, Loading(s.history[now], now, n, r, load));
  }

  lemma {:induction false} SwapMoves(s: State, i: nat, n: Node, r: nat, load: Loader)
    requires i < |s.nodes| && r in n.loads
    ensures Moves(Put(s, i, n), Swap(i, r), Put(s, i, Swapped(n, r)), load)
  {
    PutTwice(s, i, n, Swapped(n, r));
  }

  lemma {:induction false} ChangeMoves(s: State, i: nat, n: Node, m: Moment, load: Loader)
    requires i < |s.nodes| && Sane(m)
    ensures Moves(Put(s, i, n), Change(m), Put(s.(history := s.history + [m]), i, n), load)
  {
  }

  /** Two loads, swapped in the wrong order. */
  lemma LaterSwapWins(n: Node, first: Load, second: Load)
    ensures var both := n.(loads := n.loads[0 := first][1 := second]);
      && Swapped(both, 1).snapshot == second.value && 0 in Swapped(both, 1).loads
      && Swapped(Swapped(both, 1), 0).snapshot == first.value
  {
  }

  /** The states of a run in which a poll undoes a change. */
  datatype Undoing = Undoing(polling: State, committed: State, reloading: State, visible: State, undone: State)

  /** A poll loads, a change is committed and refreshed, and the poll swaps its own set in. */
  ghost predicate IsUndoing(s: State, m: Moment, u: Undoing, load: Loader, i: nat) {
    && Moves(s, BeginLoad(i, 0), u.polling, load) && Moves(u.polling, Change(m), u.committed, load)
    && Moves(u.committed, BeginLoad(i, 1), u.reloading, load) && Moves(u.reloading, Swap(i, 1), u.visible, load)
    && Moves(u.visible, Swap(i, 0), u.undone, load)
  }

  /**
   * The run that regresses: a poll loads, this instance commits and refreshes, so its change is
   * visible, and then the poll swaps its older set in.
   */
  lemma {:induction false} PollUndoesAMutation(s: State, m: Moment, load: Loader, i: nat) returns (u: Undoing)
    requires s.history != [] && Sane(m)
    requires i < |s.nodes| && s.nodes[i].loads == map[]
    ensures IsUndoing(s, m, u, load, i)
    ensures i < |u.visible.nodes| && u.visible.nodes[i].snapshot == load(m)
    ensures i < |u.undone.nodes| && u.undone.nodes[i].snapshot == load(s.history[|s.history| - 1])
  {
    var polled, at, n := s.history[|s.history| - 1], |s.history| - 1, s.nodes[i];
    var n1 := Loading(polled, at, n, 0, load);
    var n3 := Loading(m, at + 1, n1, 1, load);
    var longer := s.(history := s.history + [m]);
    LaterSwapWins(n, Load(load(polled), at), Load(load(m), at + 1));
    var n4 := Swapped(n3, 1);
    u := Undoing(Put(s, i, n1), Put(longer, i, n1), Put(longer, i, n3), Put(longer, i, n4),
      Put(longer, i, Swapped(n4, 0)));
    PutSame(s, i);
    LoadMoves(s, i, n, 0, load);
    ChangeMoves(s, i, n1, m, load);
    LoadMoves(longer, i, n1, 1, load);
    SwapMoves(longer, i, n3, 1, load);
    SwapMoves(longer, i, n4, 0, load);
  }

  lemma {:induction false} RevocationRemovesTheKey(m: Moment, id: nat, at: string, iso: Iso)
    requires Sane(m) && IndexOf(m.db.keys.rows, id).Some?
    requires Authenticates(m.db.keys.rows[IndexOf(m.db.keys.rows, id).value], m.now)
    ensures var key := m.db.keys.rows[IndexOf(m.db.keys.rows, id).value];
      var after := Moment(m.db.(keys := RevokeReply(m.db.keys, id, at).table), m.now);
      Sane(after) && key.hash in Loaded(m, iso) && key.hash !in Loaded(after, iso)
  {
    var i := IndexOf(m.db.keys.rows, id).value;
    var key := m.db.keys.rows[i];
    var after := Moment(m.db.(keys := RevokeReply(m.db.keys, id, at).table), m.now);
    RevokeKeepsGood(m.db.keys, id, at);
    LoadedIsTheAuthSet(m, iso);
    assert key in m.db.keys.rows;
    LoadedIsTheAuthSet(after, iso);
    forall j | 0 <= j < |after.db.keys.rows| && after.db.keys.rows[j].hash == key.hash
      ensures !Authenticates(after.db.keys.rows[j], m.now) {
      assert m.db.keys.rows[j].hash == key.hash;
    }
  }

  /** So a key this instance has revoked, and already refuses, is accepted again once the poll swaps. */
  lemma {:induction false} RevokedKeyIsBack(s: State, i: nat, id: nat, at: string, iso: Iso) returns (u: Undoing)
    requires s.history != [] && i < |s.nodes| && s.nodes[i].loads == map[]
    requires var m := s.history[|s.history| - 1];
      && Sane(m) && IndexOf(m.db.keys.rows, id).Some?
      && Authenticates(m.db.keys.rows[IndexOf(m.db.keys.rows, id).value], m.now)
    ensures var m := s.history[|s.history| - 1];
      var hash := m.db.keys.rows[IndexOf(m.db.keys.rows, id).value].hash;
      && IsUndoing(s, Moment(m.db.(keys := RevokeReply(m.db.keys, id, at).table), m.now), u, LoaderOf(iso), i)
      && i < |u.visible.nodes| && hash !in u.visible.nodes[i].snapshot
      && i < |u.undone.nodes| && hash in u.undone.nodes[i].snapshot
  {
    var m := s.history[|s.history| - 1];
    RevocationRemovesTheKey(m, id, at, iso);
    u := PollUndoesAMutation(s, Moment(m.db.(keys := RevokeReply(m.db.keys, id, at).table), m.now), LoaderOf(iso), i);
  }
}
