/**
 * The snapshot requests authenticate against (`src/apikeys/store.rs`, `src/billing/partner.rs`):
 * every key that works right now, with its partner's whole configuration.
 */
module KeySnapshot {
  import opened Prelude
  import opened Timefmt
  import opened Pricing
  import opened Status
  import opened KeyTable

  datatype PartnerInfo = PartnerInfo(mode: string, email: string)

  datatype ModelRow = ModelRow(consumer: string, model: string, prices: Prices)

  /** The four tables one load reads, in one transaction. */
  datatype Db = Db(keys: Table, partners: map<string, PartnerInfo>, models: seq<ModelRow>, bills: seq<Bill>)

  /** A row of the load's second query. */
  datatype SelectedRow = SelectedRow(hash: string, name: string, consumer: string, mode: string, email: string,
                                     overdue: Option<OverdueRow>)

  datatype Config = Config(consumer: string, name: string, mode: BillingMode, email: string, status: ServiceStatus,
                           models: map<string, Prices>)

  type Snapshot = map<string, Config>

  /** An unreadable mode counts as `invoice`. */
  function ModeOf(text: string): BillingMode {
    if text == "reconciliation" then Reconciliation else Invoice
  }

  function ConfigOf(row: SelectedRow, models: map<string, Prices>, now: Instant, iso: string -> Option<Instant>)
    : Config
  {
    var overdue := if row.overdue.Some? then [row.overdue.value] else [];
    Config(row.consumer, row.name, ModeOf(row.mode), row.email, StatusFor(row.mode, now, overdue, iso), models)
  }

  /** `status = 'active' AND (expires_at IS NULL OR expires_at > now)`. */
  ghost predicate Authenticates(k: KeyRow, now: Instant) {
    k.active && (k.expiresAt.None? || TextLess(FormatTs(now), k.expiresAt.value))
  }

  /** A key without a partner row still authenticates, as an invoice partner with no address. */
  ghost function SelectedOf(db: Db, k: KeyRow, now: Instant): SelectedRow
    requires Legal(db.bills)
  {
    var p := if k.consumer in db.partners then db.partners[k.consumer] else PartnerInfo("invoice", "");
    var pre := Preselected(db.bills, k.consumer, now);
    SelectedRow(k.hash, k.name, k.consumer, p.mode, p.email, if pre == [] then None else Some(ToOverdueRow(pre[0])))
  }

  /** `keys` is the query's result: every authenticating key once, in some order. */
  ghost predicate IsOrder(order: seq<KeyRow>, keys: Table, now: Instant) {
    && (forall k :: k in order <==> k in keys.rows && Authenticates(k, now))
    && (forall i, j :: 0 <= i < j < |order| ==> order[i] != order[j])
  }

  ghost predicate IsSelection(selected: seq<SelectedRow>, order: seq<KeyRow>, db: Db, now: Instant)
    requires Legal(db.bills)
  {
    |selected| == |order| && forall i :: 0 <= i < |order| ==> selected[i] == SelectedOf(db, order[i], now)
  }

  // ---------------------------------------------------------------------
  // Loading
  // ---------------------------------------------------------------------

  /** A partner's price list; a later row of the same model replaces an earlier one. */
  function ModelsOf(rows: seq<ModelRow>, consumer: string): map<string, Prices> {
    if rows == [] then map[]
    else
      var rest, last := ModelsOf(rows[..|rows| - 1], consumer), rows[|rows| - 1];
      if last.consumer == consumer then rest[last.model := last.prices] else rest
  }

  function Lookup(groups: map<string, map<string, Prices>>, consumer: string): map<string, Prices> {
    if consumer in groups then groups[consumer] else map[]
  }

  /** Whether one of the first `n` rows is this consumer's. */
  predicate Taken(selected: seq<SelectedRow>, n: nat, consumer: string)
    requires n <= |selected|
  {
    exists j :: 0 <= j < n && selected[j].consumer == consumer
  }

  /** The models a row's config is built with: a consumer's first row takes them all. */
  function ModelsGiven(rows: seq<ModelRow>, selected: seq<SelectedRow>, i: nat): map<string, Prices>
    requires i < |selected|
  {
    if Taken(selected, i, selected[i].consumer) then map[] else ModelsOf(rows, selected[i].consumer)
  }

  /** The load's first query, filling a map of price lists. */
  method GroupModels(modelRows: seq<ModelRow>) returns (models: map<string, map<string, Prices>>)
    ensures forall c :: Lookup(models, c) == ModelsOf(modelRows, c)
  {
    models := map[];
    for i := 0 to |modelRows|
      invariant forall c :: Lookup(models, c) == ModelsOf(modelRows[..i], c)
    {
      var row := modelRows[i];
      assert modelRows[..i + 1][..i] == modelRows[..i];
      models := models[row.consumer := Lookup(models, row.consumer)[row.model := row.prices]];
    }
    assert modelRows[..|modelRows|] == modelRows;
  }

  lemma TakenNext(selected: seq<SelectedRow>, i: nat, consumer: string)
    requires i < |selected|
    ensures Taken(selected, i + 1, consumer) <==> Taken(selected, i, consumer) || selected[i].consumer == consumer
  {
  }

  function EntryOf(rows: seq<ModelRow>, selected: seq<SelectedRow>, i: nat, now: Instant,
                   iso: string -> Option<Instant>)
    : (string, Config)
    requires i < |selected|
  {
    (selected[i].hash, ConfigOf(selected[i], ModelsGiven(rows, selected, i), now, iso))
  }

  /** Builds one row per key, removing each partner's price list as its key comes up. */
  method LoadActive(modelRows: seq<ModelRow>, selected: seq<SelectedRow>, now: Instant, iso: string -> Option<Instant>)
    returns (out: seq<(string, Config)>)
    ensures |out| == |selected|
    ensures forall i :: 0 <= i < |selected| ==> out[i] == EntryOf(modelRows, selected, i, now, iso)
  {
    var models := GroupModels(modelRows);
    out := [];
    for i := 0 to |selected|
      invariant |out| == i
      invariant forall c :: Lookup(models, c) == if Taken(selected, i, c) then map[] else ModelsOf(modelRows, c)
      invariant forall k :: 0 <= k < i ==> out[k] == EntryOf(modelRows, selected, k, now, iso)
    {
      var mine := Lookup(models, selected[i].consumer);
      forall c ensures Lookup(models - {selected[i].consumer}, c)
        == if Taken(selected, i + 1, c) then map[] else ModelsOf(modelRows, c) {
        TakenNext(selected, i, c);
      }
      models := models - {selected[i].consumer};
      out := out + [(selected[i].hash, ConfigOf(selected[i], mine, now, iso))];
    }
  }

  /** Collecting rows into a map: a later row of the same hash replaces an earlier one. */
  function FromRows(rows: seq<(string, Config)>): Snapshot {
    if rows == [] then map[]
    else FromRows(rows[..|rows| - 1])[rows[|rows| - 1].0 := rows[|rows| - 1].1]
  }

  // ---------------------------------------------------------------------
  // Nothing is lost
  // ---------------------------------------------------------------------

  ghost function FullConfig(db: Db, k: KeyRow, now: Instant, iso: string -> Option<Instant>): Config
    requires Legal(db.bills)
  {
    ConfigOf(SelectedOf(db, k, now), ModelsOf(db.models, k.consumer), now, iso)
  }

  /** The authenticating set: one entry for each key that works, with its partner's whole configuration. */
  ghost predicate IsAuth(snapshot: Snapshot, db: Db, now: Instant, iso: string -> Option<Instant>)
    requires Legal(db.bills)
  {
    && (forall k :: k in db.keys.rows && Authenticates(k, now) ==>
         k.hash in snapshot && snapshot[k.hash] == FullConfig(db, k, now, iso))
    && (forall h :: h in snapshot ==> exists k :: k in db.keys.rows && Authenticates(k, now) && k.hash == h)
  }

  lemma {:induction false} FromRowsKeys(rows: seq<(string, Config)>, h: string)
    ensures h in FromRows(rows) <==> exists i :: 0 <= i < |rows| && rows[i].0 == h
  {
    if rows != [] {
      var n := |rows| - 1;
      FromRowsKeys(rows[..n], h);
      if h in FromRows(rows[..n]) {
        var i :| 0 <= i < n && rows[..n][i].0 == h;
        assert rows[i].0 == h;
      } else if h in FromRows(rows) {
        assert rows[n].0 == h;
      }
    }
  }

  ghost predicate DistinctHashes(rows: seq<(string, Config)>) {
    forall i, j :: 0 <= i < j < |rows| ==> rows[i].0 != rows[j].0
  }

  lemma {:induction false} FromRowsAt(rows: seq<(string, Config)>, i: nat)
    requires DistinctHashes(rows) && i < |rows|
    ensures rows[i].0 in FromRows(rows) && FromRows(rows)[rows[i].0] == rows[i].1
  {
    var n := |rows| - 1;
    if i < n {
      FromRowsAt(rows[..n], i);
    }
  }

  lemma {:induction false} FromRowsSize(rows: seq<(string, Config)>)
    requires DistinctHashes(rows)
    ensures |FromRows(rows)| == |rows|
  {
    if rows != [] {
      var n := |rows| - 1;
      FromRowsSize(rows[..n]);
      FromRowsKeys(rows[..n], rows[n].0);
    }
  }

  lemma KeysDiffer(db: Db, order: seq<KeyRow>, now: Instant, i: nat, j: nat)
    requires Good(db.keys) && IsOrder(order, db.keys, now) && i < j < |order|
    ensures order[i].hash != order[j].hash && order[i].consumer != order[j].consumer
  {
    assert order[i] in order && order[j] in order;
    var a :| 0 <= a < |db.keys.rows| && db.keys.rows[a] == order[i];
    var b :| 0 <= b < |db.keys.rows| && db.keys.rows[b] == order[j];
    assert a != b;
  }

  /**
   * The load loses nothing: one entry per active unexpired key, each with exactly its partner's
   * full price list. Both uniqueness constraints are needed, one for the map of hashes, the other
   * because a price list is removed by the first key that uses it.
   */
  lemma {:induction false} LoadIsLossless(db: Db, order: seq<KeyRow>, selected: seq<SelectedRow>, now: Instant,
                       iso: string -> Option<Instant>, rows: seq<(string, Config)>)
    requires Good(db.keys) && Legal(db.bills) && IsOrder(order, db.keys, now) && IsSelection(selected, order, db, now)
    requires |rows| == |selected|
    requires forall i :: 0 <= i < |selected| ==>
      rows[i] == EntryOf(db.models, selected, i, now, iso)
    ensures IsAuth(FromRows(rows), db, now, iso) && |FromRows(rows)| == |order|
  {
    forall i, j | 0 <= i < j < |rows| ensures rows[i].0 != rows[j].0 {
      KeysDiffer(db, order, now, i, j);
    }
    forall i | 0 <= i < |rows| ensures rows[i] == (order[i].hash, FullConfig(db, order[i], now, iso)) {
      if Taken(selected, i, selected[i].consumer) {
        var j :| 0 <= j < i && selected[j].consumer == selected[i].consumer;
        KeysDiffer(db, order, now, j, i);
      }
    }
    FromRowsSize(rows);
    LoadedIsAuth(db, order, now, iso, rows);
  }

  lemma {:induction false} LoadedIsAuth(db: Db, order: seq<KeyRow>, now: Instant, iso: string -> Option<Instant>,
                                        rows: seq<(string, Config)>)
    requires Legal(db.bills) && IsOrder(order, db.keys, now) && |rows| == |order| && DistinctHashes(rows)
    requires forall i :: 0 <= i < |rows| ==> rows[i] == (order[i].hash, FullConfig(db, order[i], now, iso))
    ensures IsAuth(FromRows(rows), db, now, iso)
  {
    forall k | k in db.keys.rows && Authenticates(k, now)
      ensures k.hash in FromRows(rows) && FromRows(rows)[k.hash] == FullConfig(db, k, now, iso) {
      var i :| 0 <= i < |order| && order[i] == k;
      FromRowsAt(rows, i);
    }
    forall h | h in FromRows(rows) ensures exists k :: k in db.keys.rows && Authenticates(k, now) && k.hash == h {
      FromRowsKeys(rows, h);
      var i :| 0 <= i < |rows| && rows[i].0 == h;
      assert order[i] in order;
    }
  }

  /** There is only one authenticating set, whatever order the rows came in. */
  lemma {:induction false} OneAuth(a: Snapshot, b: Snapshot, db: Db, now: Instant, iso: string -> Option<Instant>)
    requires Legal(db.bills) && IsAuth(a, db, now, iso) && IsAuth(b, db, now, iso)
    ensures a == b
  {
    forall h | h in a || h in b ensures h in a && h in b && a[h] == b[h] {
      var k :| k in db.keys.rows && Authenticates(k, now) && k.hash == h;
    }
    assert a.Keys == b.Keys;
  }

  /** Without the first constraint a key loses models exactly when its consumer's came up before and had some. */
  lemma ModelsLostExactlyWhen(rows: seq<ModelRow>, selected: seq<SelectedRow>)
    ensures (forall i :: 0 <= i < |selected| ==> ModelsGiven(rows, selected, i) == ModelsOf(rows, selected[i].consumer))
       <==> (forall i, j :: 0 <= j < i < |selected| && selected[j].consumer == selected[i].consumer ==>
              ModelsOf(rows, selected[i].consumer) == map[])
  {
    if forall i :: 0 <= i < |selected| ==> ModelsGiven(rows, selected, i) == ModelsOf(rows, selected[i].consumer) {
      forall i, j | 0 <= j < i < |selected| && selected[j].consumer == selected[i].consumer
        ensures ModelsOf(rows, selected[i].consumer) == map[] {
        assert Taken(selected, i, selected[i].consumer);
        assert ModelsGiven(rows, selected, i) == map[];
      }
    }
  }

  /** `partner_models` is unique on consumer and model. */
  ghost predicate UniqueModels(rows: seq<ModelRow>) {
    forall i, j :: 0 <= i < j < |rows| ==> rows[i].consumer != rows[j].consumer || rows[i].model != rows[j].model
  }

  /** A price list holds exactly the partner's rows, given that a model has one row per partner. */
  lemma {:induction false} ModelsExactly(rows: seq<ModelRow>, consumer: string, model: string, prices: Prices)
    requires UniqueModels(rows)
    ensures (model in ModelsOf(rows, consumer) && ModelsOf(rows, consumer)[model] == prices)
       <==> ModelRow(consumer, model, prices) in rows
  {
    if rows != [] {
      var n := |rows| - 1;
      ModelsExactly(rows[..n], consumer, model, prices);
      assert forall r :: r in rows <==> r in rows[..n] || r == rows[n];
      forall i | 0 <= i < n && rows[i].consumer == rows[n].consumer ensures rows[i].model != rows[n].model {
      }
    }
  }

  function AddressOf(db: Db, consumer: string): string {
    if consumer in db.partners then db.partners[consumer].email else ""
  }

  /** What a config holds for a key, read off the tables. */
  ghost predicate Serves(c: Config, db: Db, k: KeyRow, now: Instant) {
    var mode := if k.consumer in db.partners then db.partners[k.consumer].mode else "invoice";
    && c.name == k.name && c.consumer == k.consumer && c.email == AddressOf(db, k.consumer)
    && (c.mode == Reconciliation <==> mode == "reconciliation")
    && IsStatusOf(c.status, db.bills, k.consumer, mode, now)
    && forall model, prices :: (model in c.models && c.models[model] == prices)
                           <==> ModelRow(k.consumer, model, prices) in db.models
  }

  /**
   * Field by field: every key that works is served its own name, its partner's address, mode and
   * service status, and exactly its partner's price list; and no other hash is served.
   */
  lemma {:induction false} EveryKeyIsServedItsPartner(snapshot: Snapshot, db: Db, now: Instant,
                                                      iso: string -> Option<Instant>)
    requires Good(db.keys) && Legal(db.bills) && CanonicalDues(db.bills) && UniqueModels(db.models)
    requires IsAuth(snapshot, db, now, iso)
    ensures forall h :: h in snapshot <==> exists k :: k in db.keys.rows && Authenticates(k, now) && k.hash == h
    ensures forall k :: k in db.keys.rows && Authenticates(k, now) ==>
      k.hash in snapshot && Serves(snapshot[k.hash], db, k, now)
  {
    forall k | k in db.keys.rows && Authenticates(k, now) ensures Serves(snapshot[k.hash], db, k, now) {
      FullConfigServes(db, k, now, iso);
    }
  }

  lemma {:induction false} FullConfigServes(db: Db, k: KeyRow, now: Instant, iso: string -> Option<Instant>)
    requires Legal(db.bills) && CanonicalDues(db.bills) && UniqueModels(db.models)
    ensures Serves(FullConfig(db, k, now, iso), db, k, now)
  {
    var c := FullConfig(db, k, now, iso);
    forall model, prices ensures (model in c.models && c.models[model] == prices)
                             <==> ModelRow(k.consumer, model, prices) in db.models {
      ModelsExactly(db.models, k.consumer, model, prices);
    }
    StatusServed(db, k, now, iso);
  }

  lemma {:induction false} StatusServed(db: Db, k: KeyRow, now: Instant, iso: string -> Option<Instant>)
    requires Legal(db.bills) && CanonicalDues(db.bills)
    ensures IsStatusOf(FullConfig(db, k, now, iso).status, db.bills, k.consumer, SelectedOf(db, k, now).mode, now)
  {
    PreselectedDecides(db.bills, k.consumer, SelectedOf(db, k, now).mode, now, iso);
    var pre := Preselected(db.bills, k.consumer, now);
    if pre != [] {
      RowsOfOne(pre[0]);
    }
  }

  /** A logged change of service: the key's hash, and whether it is now suspended. */
  datatype Transition = Transition(hash: string, suspended: bool)

  /** What changed between two snapshots: a key in both whose status differs, or a new one already suspended. */
  ghost predicate IsTransition(previous: Snapshot, next: Snapshot, t: Transition) {
    && t.hash in next && next[t.hash].status.Suspended? == t.suspended
    && if t.hash in previous then previous[t.hash].status.Suspended? != t.suspended else t.suspended
  }

  /** Logs every change once, in no particular order, and nothing else; a key that vanished is no resumption. */
  method LogServiceTransitions(previous: Snapshot, next: Snapshot) returns (log: seq<Transition>)
    ensures forall t :: t in log <==> IsTransition(previous, next, t)
    ensures forall i, j :: 0 <= i < j < |log| ==> log[i].hash != log[j].hash
  {
    log := [];
    var left := next.Keys;
    while left != {}
      invariant left <= next.Keys
      invariant forall t :: t in log <==> IsTransition(previous, next, t) && t.hash !in left
      invariant forall i, j :: 0 <= i < j < |log| ==> log[i].hash != log[j].hash
      decreases |left|
    {
      var hash :| hash in left;
      left := left - {hash};
      var suspended := next[hash].status.Suspended?;
      var changed := if hash in previous then previous[hash].status.Suspended? != suspended else suspended;
      if changed {
        forall i | 0 <= i < |log| ensures log[i].hash != hash {
          assert log[i] in log;
        }
        log := log + [Transition(hash, suspended)];
      }
    }
  }

  /** Comparing the expiry column as text decides what comparing the instants would. */
  lemma ExpiryAsInstant(k: KeyRow, now: Instant)
    requires k.expiresAt.Some? ==> ParseCanonical(k.expiresAt.value).Some?
    ensures Authenticates(k, now) <==>
      k.active && (k.expiresAt.None? || Nanos(now) < Nanos(ParseCanonical(k.expiresAt.value).value))
  {
    if k.expiresAt.Some? {
      CanonicalText(k.expiresAt.value);
      TextOrderIsTimeOrder(now, ParseCanonical(k.expiresAt.value).value);
    }
  }

  /** The request path serves or refuses a partner exactly as the dashboard and the scheduler report it. */
  lemma {:induction false} SnapshotStatusAgrees(db: Db, k: KeyRow, read: Instant, now: Instant,
                                                iso: string -> Option<Instant>)
    requires Legal(db.bills) && CanonicalDues(db.bills) && Nanos(now) <= Nanos(read)
    ensures FullConfig(db, k, now, iso).status
         == StatusFor(SelectedOf(db, k, now).mode, now,
                      Rows(Select(db.bills, Query(Some(k.consumer), read, false))), iso)
  {
    var row := SelectedOf(db, k, now);
    SnapshotAgrees(db.bills, k.consumer, row.mode, read, now, iso);
    var pre := Preselected(db.bills, k.consumer, now);
    if pre != [] {
      RowsOfOne(pre[0]);
    }
  }
}
