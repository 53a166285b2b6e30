/**
 * The `api_keys` table (`src/apikeys/store.rs`, `src/ledger/schema.sql`): create, update, revoke
 * and rotate, each one transaction against two uniqueness constraints.
 */
module KeyTable {
  import opened Prelude

  datatype KeyRow = KeyRow(id: nat, name: string, consumer: string, prefix: string, hash: string, active: bool,
                           createdAt: string, updatedAt: string, expiresAt: Option<string>, revokedAt: Option<string>)

  /** Rows in id order; `lastId` is what `AUTOINCREMENT` remembers. */
  datatype Table = Table(rows: seq<KeyRow>, lastId: nat)

  datatype KeyError =
    | Database
    | NotFound(id: nat)
    | NotActive(id: nat)
    | AlreadyActive(consumer: string)
    | Invalid

  type Hasher = string -> string

  const KEY_PREFIX_LEN := 12

  function PrefixOf(plaintext: string): string {
    plaintext[..Min(KEY_PREFIX_LEN, |plaintext|)]
  }

  /** Unicode's `White_Space` property, which `str::trim` strips. */
  predicate IsSpace(c: char) {
    var n := c as int;
    || 0x9 <= n <= 0xD || n == 0x20 || n == 0x85 || n == 0xA0 || n == 0x1680 || 0x2000 <= n <= 0x200A
    || n == 0x2028 || n == 0x2029 || n == 0x202F || n == 0x205F || n == 0x3000
  }

  /** In ASCII: the space, and the controls from tab to carriage return. */
  lemma AsciiSpaces(c: char)
    requires c as int < 128
    ensures IsSpace(c) <==> c == ' ' || '\t' <= c <= '\r'
  {
  }

  function Trim(s: string): string {
    if s != [] && IsSpace(s[0]) then Trim(s[1..])
    else if s != [] && IsSpace(s[|s| - 1]) then Trim(s[..|s| - 1])
    else s
  }

  predicate HashTaken(rows: seq<KeyRow>, hash: string) {
    exists i :: 0 <= i < |rows| && rows[i].hash == hash
  }

  predicate HasActive(rows: seq<KeyRow>, consumer: string) {
    exists i :: 0 <= i < |rows| && rows[i].active && rows[i].consumer == consumer
  }

  function IndexOf(rows: seq<KeyRow>, id: nat): (r: Option<nat>)
    ensures r.Some? ==> r.value < |rows| && rows[r.value].id == id
    ensures r.None? <==> forall i :: 0 <= i < |rows| ==> rows[i].id != id
  {
    if rows == [] then None
    else if rows[|rows| - 1].id == id then Some(|rows| - 1)
    else IndexOf(rows[..|rows| - 1], id)
  }

  function Fresh(t: Table, name: string, consumer: string, expiresAt: Option<string>, hash: string, prefix: string,
                 now: string): KeyRow
  {
    KeyRow(t.lastId + 1, name, consumer, prefix, hash, true, now, now, expiresAt, None)
  }

  /** `INSERT`: refused by either constraint, with one and the same error code. */
  predicate Insertable(t: Table, row: KeyRow) {
    !HashTaken(t.rows, row.hash) && !HasActive(t.rows, row.consumer)
  }

  function Inserted(t: Table, row: KeyRow): Table {
    Table(t.rows + [row], row.id)
  }

  function RevokedRow(row: KeyRow, now: string): KeyRow {
    row.(active := false, revokedAt := Some(now), updatedAt := now)
  }

  function WithRow(t: Table, i: nat, row: KeyRow): Table
    requires i < |t.rows|
  {
    t.(rows := t.rows[i := row])
  }

  // ---------------------------------------------------------------------
  // What each operation should do
  // ---------------------------------------------------------------------

  datatype Op =
    | Create(name: string, consumer: string, expiresAt: Option<string>, plaintext: string, now: string)
    | Update(id: nat, newName: Option<string>, now: string)
    | Revoke(id: nat, now: string)
    | Rotate(id: nat, plaintext: string, now: string)

  datatype Reply = Reply(table: Table, result: Result<KeyRow, KeyError>)

  function CreateReply(h: Hasher, t: Table, name: string, consumer: string, expiresAt: Option<string>,
                       plaintext: string, now: string): Reply
  {
    if Trim(name) == "" || Trim(consumer) == "" || Trim(plaintext) == "" then Reply(t, Err(Invalid))
    else
      var row := Fresh(t, Trim(name), Trim(consumer), expiresAt, h(plaintext), PrefixOf(plaintext), now);
      if Insertable(t, row) then Reply(Inserted(t, row), Ok(row))
      else if HasActive(t.rows, row.consumer) then Reply(t, Err(AlreadyActive(row.consumer)))
      else Reply(t, Err(Database))
  }

  function UpdateReply(t: Table, id: nat, newName: Option<string>, now: string): Reply {
    if newName.Some? && Trim(newName.value) == "" then Reply(t, Err(Invalid))
    else
      match IndexOf(t.rows, id)
      case None => Reply(t, Err(NotFound(id)))
      case Some(i) =>
        if !t.rows[i].active then Reply(t, Err(NotActive(id)))
        else
          var row := t.rows[i].(name := if newName.Some? then newName.value else t.rows[i].name, updatedAt := now);
          Reply(WithRow(t, i, row), Ok(row))
  }

  function RevokeReply(t: Table, id: nat, now: string): Reply {
    match IndexOf(t.rows, id)
    case None => Reply(t, Err(NotFound(id)))
    case Some(i) =>
      if !t.rows[i].active then Reply(t, Ok(t.rows[i]))
      else Reply(WithRow(t, i, RevokedRow(t.rows[i], now)), Ok(RevokedRow(t.rows[i], now)))
  }

  function RotateReply(h: Hasher, t: Table, id: nat, plaintext: string, now: string): Reply {
    match IndexOf(t.rows, id)
    case None => Reply(t, Err(NotFound(id)))
    case Some(i) =>
      if !t.rows[i].active then Reply(t, Err(NotActive(id)))
      else
        var without := WithRow(t, i, RevokedRow(t.rows[i], now));
        var row := Fresh(t, t.rows[i].name, t.rows[i].consumer, t.rows[i].expiresAt, h(plaintext),
                         PrefixOf(plaintext), now);
        if Insertable(without, row) then Reply(Inserted(without, row), Ok(row)) else Reply(t, Err(Database))
  }

  function ReplyTo(h: Hasher, t: Table, op: Op): Reply {
    match op
    case Create(name, consumer, expiresAt, plaintext, now) =>
      CreateReply(h, t, name, consumer, expiresAt, plaintext, now)
    case Update(id, newName, now) => UpdateReply(t, id, newName, now)
    case Revoke(id, now) => RevokeReply(t, id, now)
    case Rotate(id, plaintext, now) => RotateReply(h, t, id, plaintext, now)
  }

  function RunOps(h: Hasher, t: Table, ops: seq<Op>): Table {
    if ops == [] then t else ReplyTo(h, RunOps(h, t, ops[..|ops| - 1]), ops[|ops| - 1]).table
  }

  // ---------------------------------------------------------------------
  // The store, row by row
  // ---------------------------------------------------------------------

  class ApiKeyStore {
    const hash: Hasher
    var rows: seq<KeyRow>
    var lastId: nat

    constructor (hash: Hasher)
      ensures this.hash == hash && rows == [] && lastId == 0 && Good(Contents())
    {
      this.hash, rows, lastId := hash, [], 0;
    }

    ghost function Contents(): Table
      reads this
    {
      Table(rows, lastId)
    }

    /** Shared by `Create` and `Rotate`. */
    method InsertKey(name: string, consumer: string, prefix: string, keyHash: string, now: string,
                     expiresAt: Option<string>) returns (created: Option<KeyRow>)
      modifies this
      ensures var row := Fresh(old(Contents()), name, consumer, expiresAt, keyHash, prefix, now);
        if Insertable(old(Contents()), row)
        then Contents() == Inserted(old(Contents()), row) && created == Some(row)
        else Contents() == old(Contents()) && created == None
    {
      if HashTaken(rows, keyHash) || HasActive(rows, consumer) {
        return None;
      }
      lastId := lastId + 1;
      var row := KeyRow(lastId, name, consumer, prefix, keyHash, true, now, now, expiresAt, None);
      rows := rows + [row];
      return Some(row);
    }

    method CreateWithPlaintext(name: string, consumer: string, expiresAt: Option<string>, plaintext: string,
                               now: string) returns (r: Result<KeyRow, KeyError>)
      modifies this
      ensures Reply(Contents(), r) == CreateReply(hash, old(Contents()), name, consumer, expiresAt, plaintext, now)
    {
      var trimmedName, trimmedConsumer := Trim(name), Trim(consumer);
      if trimmedName == "" || trimmedConsumer == "" || Trim(plaintext) == "" {
        return Err(Invalid);
      }
      var created := InsertKey(trimmedName, trimmedConsumer, PrefixOf(plaintext), hash(plaintext), now, expiresAt);
      if created.Some? {
        return Ok(created.value);
      }
      return Err(if HasActive(rows, trimmedConsumer) then AlreadyActive(trimmedConsumer) else Database);
    }

    method Update(id: nat, newName: Option<string>, now: string) returns (r: Result<KeyRow, KeyError>)
      modifies this
      ensures Reply(Contents(), r) == UpdateReply(old(Contents()), id, newName, now)
    {
      if newName.Some? && Trim(newName.value) == "" {
        return Err(Invalid);
      }
      var at := IndexOf(rows, id);
      if at.None? {
        return Err(NotFound(id));
      }
      var row := rows[at.value];
      if !row.active {
        return Err(NotActive(id));
      }
      if newName.Some? {
        row := row.(name := newName.value);
      }
      row := row.(updatedAt := now);
      rows := rows[at.value := row];
      return Ok(row);
    }

    method Revoke(id: nat, now: string) returns (r: Result<KeyRow, KeyError>)
      modifies this
      ensures Reply(Contents(), r) == RevokeReply(old(Contents()), id, now)
    {
      var at := IndexOf(rows, id);
      if at.None? {
        return Err(NotFound(id));
      }
      if rows[at.value].active {
        rows := rows[at.value := RevokedRow(rows[at.value], now)];
      }
      return Ok(rows[at.value]);
    }

    /** The revocation is undone when the insert is refused: the transaction rolls back. */
    method Rotate(id: nat, plaintext: string, now: string) returns (r: Result<KeyRow, KeyError>)
      modifies this
      ensures Reply(Contents(), r) == RotateReply(hash, old(Contents()), id, plaintext, now)
    {
      var at := IndexOf(rows, id);
      if at.None? {
        return Err(NotFound(id));
      }
      var before, current := rows, rows[at.value];
      if !current.active {
        return Err(NotActive(id));
      }
      rows := rows[at.value := RevokedRow(current, now)];
      var created := InsertKey(current.name, current.consumer, PrefixOf(plaintext), hash(plaintext), now,
                               current.expiresAt);
      if created.None? {
        rows := before;
        return Err(Database);
      }
      return Ok(created.value);
    }
  }

  // ---------------------------------------------------------------------
  // What every sequence of operations keeps
  // ---------------------------------------------------------------------

  ghost predicate Good(t: Table) {
    && (forall i :: 0 <= i < |t.rows| ==> t.rows[i].id <= t.lastId)
    && (forall i, j :: 0 <= i < j < |t.rows| ==> t.rows[i].id < t.rows[j].id)
    && (forall i, j :: 0 <= i < j < |t.rows| ==> t.rows[i].hash != t.rows[j].hash)
    && (forall i, j :: 0 <= i < j < |t.rows| && t.rows[i].active && t.rows[j].active ==>
         t.rows[i].consumer != t.rows[j].consumer)
    && (forall i :: 0 <= i < |t.rows| ==> (t.rows[i].active <==> t.rows[i].revokedAt.None?))
  }

  /** What a row is for good: everything but its name, its status and when it was last touched. */
  predicate SameKey(a: KeyRow, b: KeyRow) {
    && a.id == b.id && a.consumer == b.consumer && a.hash == b.hash && a.prefix == b.prefix
    && a.createdAt == b.createdAt && a.expiresAt == b.expiresAt
  }

  /** No row is lost or becomes another, and a revoked row never changes again. */
  ghost predicate Keeps(before: Table, after: Table) {
    && |before.rows| <= |after.rows| && before.lastId <= after.lastId
    && forall i :: 0 <= i < |before.rows| ==>
         SameKey(before.rows[i], after.rows[i]) && (before.rows[i].active || after.rows[i] == before.rows[i])
  }

  lemma ChangeKeepsGood(t: Table, i: nat, row: KeyRow)
    requires Good(t) && i < |t.rows| && SameKey(t.rows[i], row)
    requires t.rows[i].active && (row.active <==> row.revokedAt.None?)
    ensures Good(WithRow(t, i, row)) && Keeps(t, WithRow(t, i, row))
  {
  }

  lemma InsertKeepsGood(t: Table, row: KeyRow)
    requires Good(t) && Insertable(t, row) && row.id == t.lastId + 1 && row.active && row.revokedAt.None?
    ensures Good(Inserted(t, row)) && Keeps(t, Inserted(t, row))
  {
    forall i | 0 <= i < |t.rows| ensures t.rows[i].hash != row.hash
      ensures t.rows[i].active ==> t.rows[i].consumer != row.consumer
    {
      assert !HashTaken(t.rows, row.hash) && !HasActive(t.rows, row.consumer);
    }
  }

  lemma KeepsTransitive(a: Table, b: Table, c: Table)
    requires Keeps(a, b) && Keeps(b, c)
    ensures Keeps(a, c)
  {
    forall i | 0 <= i < |a.rows|
      ensures SameKey(a.rows[i], c.rows[i]) && (a.rows[i].active || c.rows[i] == a.rows[i])
    {
      assert SameKey(a.rows[i], b.rows[i]) && SameKey(b.rows[i], c.rows[i]);
    }
  }

  lemma {:induction false} CreateKeepsGood(h: Hasher, t: Table, name: string, consumer: string,
                                           expiresAt: Option<string>, plaintext: string, now: string)
    requires Good(t)
    ensures var after := CreateReply(h, t, name, consumer, expiresAt, plaintext, now).table;
      Good(after) && Keeps(t, after)
  {
    var row := Fresh(t, Trim(name), Trim(consumer), expiresAt, h(plaintext), PrefixOf(plaintext), now);
    if Insertable(t, row) {
      InsertKeepsGood(t, row);
    }
  }

  lemma UpdateKeepsGood(t: Table, id: nat, newName: Option<string>, now: string)
    requires Good(t)
    ensures Good(UpdateReply(t, id, newName, now).table) && Keeps(t, UpdateReply(t, id, newName, now).table)
  {
    var reply := UpdateReply(t, id, newName, now);
    if reply.result.Ok? {
      ChangeKeepsGood(t, IndexOf(t.rows, id).value, reply.result.value);
    }
  }

  lemma RevokeKeepsGood(t: Table, id: nat, now: string)
    requires Good(t)
    ensures Good(RevokeReply(t, id, now).table) && Keeps(t, RevokeReply(t, id, now).table)
  {
    var at := IndexOf(t.rows, id);
    if at.Some? && t.rows[at.value].active {
      ChangeKeepsGood(t, at.value, RevokedRow(t.rows[at.value], now));
    }
  }

  lemma {:induction false} RotateKeepsGood(h: Hasher, t: Table, id: nat, plaintext: string, now: string)
    requires Good(t)
    ensures Good(RotateReply(h, t, id, plaintext, now).table) && Keeps(t, RotateReply(h, t, id, plaintext, now).table)
  {
    var reply := RotateReply(h, t, id, plaintext, now);
    if reply.result.Ok? {
      var i := IndexOf(t.rows, id).value;
      var without := WithRow(t, i, RevokedRow(t.rows[i], now));
      ChangeKeepsGood(t, i, RevokedRow(t.rows[i], now));
      InsertKeepsGood(without, reply.result.value);
      KeepsTransitive(t, without, reply.table);
    }
  }

  lemma {:induction false} OpKeepsGood(h: Hasher, t: Table, op: Op)
    requires Good(t)
    ensures Good(ReplyTo(h, t, op).table) && Keeps(t, ReplyTo(h, t, op).table)
  {
    match op {
      case Create(name, consumer, expiresAt, plaintext, now) =>
        CreateKeepsGood(h, t, name, consumer, expiresAt, plaintext, now);
      case Update(id, newName, now) => UpdateKeepsGood(t, id, newName, now);
      case Revoke(id, now) => RevokeKeepsGood(t, id, now);
      case Rotate(id, plaintext, now) => RotateKeepsGood(h, t, id, plaintext, now);
    }
  }

  /**
   * Any sequence of operations, refused ones included: one active key per consumer, unique hashes,
   * revoked exactly when a revocation time is set, a revoked row never touched again, and a row's
   * consumer, hash and expiry never changed.
   */
  lemma {:induction false} RunsKeepKeys(h: Hasher, t: Table, ops: seq<Op>)
    requires Good(t)
    ensures Good(RunOps(h, t, ops)) && Keeps(t, RunOps(h, t, ops))
  {
    if ops != [] {
      var before := RunOps(h, t, ops[..|ops| - 1]);
      RunsKeepKeys(h, t, ops[..|ops| - 1]);
      OpKeepsGood(h, before, ops[|ops| - 1]);
      KeepsTransitive(t, before, RunOps(h, t, ops));
    }
  }

  lemma {:induction false} RefusalChangesNothing(h: Hasher, t: Table, op: Op)
    ensures ReplyTo(h, t, op).result.Err? ==> ReplyTo(h, t, op).table == t
  {
  }

  /** The operations of a run that are not refused at their turn. */
  function Accepted(h: Hasher, t: Table, ops: seq<Op>): seq<Op> {
    if ops == [] then []
    else
      var most, last := ops[..|ops| - 1], ops[|ops| - 1];
      Accepted(h, t, most) + if ReplyTo(h, RunOps(h, t, most), last).result.Ok? then [last] else []
  }

  ghost predicate NoneRefused(h: Hasher, t: Table, ops: seq<Op>) {
    ops == [] ||
    (NoneRefused(h, t, ops[..|ops| - 1]) && ReplyTo(h, RunOps(h, t, ops[..|ops| - 1]), ops[|ops| - 1]).result.Ok?)
  }

  /** A run leaves what the run of its accepted operations alone leaves, and there none of them is refused either. */
  lemma {:induction false} RefusedOperationsDoNotMatter(h: Hasher, t: Table, ops: seq<Op>)
    ensures RunOps(h, t, Accepted(h, t, ops)) == RunOps(h, t, ops)
    ensures NoneRefused(h, t, Accepted(h, t, ops))
  {
    if ops != [] {
      var most, last := ops[..|ops| - 1], ops[|ops| - 1];
      RefusedOperationsDoNotMatter(h, t, most);
      RefusalChangesNothing(h, RunOps(h, t, most), last);
      var before := Accepted(h, t, most);
      assert (before + [last])[..|before|] == before;
      assert before + [] == before;
    }
  }

  // ---------------------------------------------------------------------
  // What the replies of a run say
  // ---------------------------------------------------------------------

  /** What one can know from the replies alone: each consumer's live key, and the hashes in use. */
  datatype Told = Told(live: map<string, nat>, hashes: set<string>)

  /** A revocation tells something new only about a live key: a key revoked before is reported again. */
  function Hear(h: Hasher, v: Told, op: Op, result: Result<KeyRow, KeyError>): Told {
    if result.Err? || op.Update? then v
    else
      var row := result.value;
      if !op.Revoke? then Told(v.live[row.consumer := row.id], v.hashes + {h(op.plaintext)})
      else if row.consumer in v.live && v.live[row.consumer] == row.id then v.(live := v.live - {row.consumer})
      else v
  }

  function HearAll(h: Hasher, v: Told, t: Table, ops: seq<Op>): Told {
    if ops == [] then v
    else
      var most, last := ops[..|ops| - 1], ops[|ops| - 1];
      Hear(h, HearAll(h, v, t, most), last, ReplyTo(h, RunOps(h, t, most), last).result)
  }

  ghost predicate IsLive(rows: seq<KeyRow>, consumer: string, id: nat) {
    exists i :: 0 <= i < |rows| && rows[i].active && rows[i].consumer == consumer && rows[i].id == id
  }

  ghost predicate LiveAgrees(live: map<string, nat>, rows: seq<KeyRow>) {
    forall c, id :: c in live && live[c] == id <==> IsLive(rows, c, id)
  }

  ghost predicate HashesAgree(hashes: set<string>, rows: seq<KeyRow>) {
    forall x :: x in hashes <==> HashTaken(rows, x)
  }

  ghost predicate Agrees(v: Told, t: Table) {
    LiveAgrees(v.live, t.rows) && HashesAgree(v.hashes, t.rows)
  }

  lemma LiveIsActive(live: map<string, nat>, rows: seq<KeyRow>, consumer: string)
    requires LiveAgrees(live, rows)
    ensures consumer in live <==> HasActive(rows, consumer)
  {
    if consumer in live {
      assert IsLive(rows, consumer, live[consumer]);
    }
    if HasActive(rows, consumer) {
      var i :| 0 <= i < |rows| && rows[i].active && rows[i].consumer == consumer;
      assert IsLive(rows, consumer, rows[i].id);
    }
  }

  lemma InsertAgrees(v: Told, t: Table, row: KeyRow)
    requires Agrees(v, t) && Insertable(t, row) && row.active
    ensures Agrees(Told(v.live[row.consumer := row.id], v.hashes + {row.hash}), Inserted(t, row))
  {
    var live, rows := v.live[row.consumer := row.id], t.rows + [row];
    LiveIsActive(v.live, t.rows, row.consumer);
    forall c, id ensures c in live && live[c] == id <==> IsLive(rows, c, id) {
      LiveSnoc(t.rows, row, c, id);
      if c == row.consumer {
        assert !IsLive(t.rows, c, id);
      }
    }
    forall x ensures x in v.hashes + {row.hash} <==> HashTaken(rows, x) {
      HashSnoc(t.rows, row, x);
    }
  }

  lemma LiveSnoc(rows: seq<KeyRow>, row: KeyRow, consumer: string, id: nat)
    ensures IsLive(rows + [row], consumer, id)
       <==> IsLive(rows, consumer, id) || (row.active && row.consumer == consumer && row.id == id)
  {
    if IsLive(rows, consumer, id) {
      var i :| 0 <= i < |rows| && rows[i].active && rows[i].consumer == consumer && rows[i].id == id;
      assert (rows + [row])[i] == rows[i];
    }
    assert (rows + [row])[|rows|] == row;
  }

  lemma HashSnoc(rows: seq<KeyRow>, row: KeyRow, hash: string)
    ensures HashTaken(rows + [row], hash) <==> HashTaken(rows, hash) || row.hash == hash
  {
    if HashTaken(rows, hash) {
      var i :| 0 <= i < |rows| && rows[i].hash == hash;
      assert (rows + [row])[i] == rows[i];
    }
    assert (rows + [row])[|rows|] == row;
  }

  lemma SameHashes(a: seq<KeyRow>, b: seq<KeyRow>, hash: string)
    requires |a| == |b| && forall i :: 0 <= i < |a| ==> a[i].hash == b[i].hash
    ensures HashTaken(a, hash) <==> HashTaken(b, hash)
  {
    if HashTaken(a, hash) {
      var i :| 0 <= i < |a| && a[i].hash == hash;
      assert b[i].hash == hash;
    }
    if HashTaken(b, hash) {
      var i :| 0 <= i < |b| && b[i].hash == hash;
      assert a[i].hash == hash;
    }
  }

  /** A change of a row that leaves it active, or makes the consumer's live key be no longer one. */
  lemma ChangeAgrees(v: Told, t: Table, i: nat, row: KeyRow)
    requires Good(t) && Agrees(v, t) && i < |t.rows| && t.rows[i].active && SameKey(t.rows[i], row)
    ensures row.consumer in v.live && v.live[row.consumer] == row.id
    ensures row.active ==> Agrees(v, WithRow(t, i, row))
    ensures !row.active ==> Agrees(v.(live := v.live - {row.consumer}), WithRow(t, i, row))
  {
    var live, rows := if row.active then v.live else v.live - {row.consumer}, t.rows[i := row];
    assert IsLive(t.rows, row.consumer, row.id);
    forall c, id ensures c in live && live[c] == id <==> IsLive(rows, c, id) {
      LiveAfterChange(t, i, row, c, id);
    }
    forall x ensures x in v.hashes <==> HashTaken(rows, x) {
      SameHashes(t.rows, rows, x);
    }
  }

  lemma LiveAfterChange(t: Table, i: nat, row: KeyRow, consumer: string, id: nat)
    requires Good(t) && i < |t.rows| && t.rows[i].active && SameKey(t.rows[i], row)
    ensures IsLive(t.rows[i := row], consumer, id)
       <==> IsLive(t.rows, consumer, id) && (row.active || consumer != row.consumer)
  {
    if IsLive(t.rows, consumer, id) {
      var k :| 0 <= k < |t.rows| && t.rows[k].active && t.rows[k].consumer == consumer && t.rows[k].id == id;
      assert consumer != row.consumer ==> k != i;
      assert t.rows[i := row][k].consumer == consumer;
    }
    if IsLive(t.rows[i := row], consumer, id) {
      var k :| 0 <= k < |t.rows| && t.rows[i := row][k].active
               && t.rows[i := row][k].consumer == consumer && t.rows[i := row][k].id == id;
      assert t.rows[k].active && t.rows[k].consumer == consumer && t.rows[k].id == id;
    }
  }

  lemma {:induction false} RotateAgrees(h: Hasher, v: Told, t: Table, id: nat, plaintext: string, now: string)
    requires Good(t) && Agrees(v, t) && RotateReply(h, t, id, plaintext, now).result.Ok?
    ensures var row := RotateReply(h, t, id, plaintext, now).result.value;
      Agrees(Told(v.live[row.consumer := row.id], v.hashes + {h(plaintext)}),
             RotateReply(h, t, id, plaintext, now).table)
  {
    var reply, i := RotateReply(h, t, id, plaintext, now), IndexOf(t.rows, id).value;
    var without, row := WithRow(t, i, RevokedRow(t.rows[i], now)), reply.result.value;
    var between := v.(live := v.live - {row.consumer});
    ChangeAgrees(v, t, i, RevokedRow(t.rows[i], now));
    InsertAgrees(between, without, row);
    assert between.live[row.consumer := row.id] == v.live[row.consumer := row.id];
  }

  lemma RevokeAgrees(v: Told, t: Table, id: nat, now: string)
    requires Good(t) && Agrees(v, t) && RevokeReply(t, id, now).result.Ok?
    ensures var row := RevokeReply(t, id, now).result.value;
      if row.consumer in v.live && v.live[row.consumer] == row.id
      then Agrees(v.(live := v.live - {row.consumer}), RevokeReply(t, id, now).table)
      else Agrees(v, RevokeReply(t, id, now).table)
  {
    var i := IndexOf(t.rows, id).value;
    if t.rows[i].active {
      ChangeAgrees(v, t, i, RevokedRow(t.rows[i], now));
    } else {
      RevokedIsNotLive(t, i);
    }
  }

  lemma RevokedIsNotLive(t: Table, i: nat)
    requires Good(t) && i < |t.rows| && !t.rows[i].active
    ensures !IsLive(t.rows, t.rows[i].consumer, t.rows[i].id)
  {
  }

  lemma {:induction false} OpAgrees(h: Hasher, v: Told, t: Table, op: Op)
    requires Good(t) && Agrees(v, t)
    ensures Agrees(Hear(h, v, op, ReplyTo(h, t, op).result), ReplyTo(h, t, op).table)
  {
    RefusalChangesNothing(h, t, op);
    if ReplyTo(h, t, op).result.Ok? {
      match op {
        case Create(_, _, _, _, _) => InsertAgrees(v, t, ReplyTo(h, t, op).result.value);
        case Update(id, newName, now) =>
          ChangeAgrees(v, t, IndexOf(t.rows, id).value, UpdateReply(t, id, newName, now).result.value);
        case Revoke(id, now) => RevokeAgrees(v, t, id, now);
        case Rotate(id, plaintext, now) => RotateAgrees(h, v, t, id, plaintext, now);
      }
    }
  }

  /** After any run, what the replies said is what the table holds: each consumer's live key, and every hash used. */
  lemma {:induction false} RepliesTellTheTable(h: Hasher, v: Told, t: Table, ops: seq<Op>)
    requires Good(t) && Agrees(v, t)
    ensures Agrees(HearAll(h, v, t, ops), RunOps(h, t, ops))
  {
    if ops != [] {
      var most := ops[..|ops| - 1];
      RepliesTellTheTable(h, v, t, most);
      RunsKeepKeys(h, t, most);
      OpAgrees(h, HearAll(h, v, t, most), RunOps(h, t, most), ops[|ops| - 1]);
    }
  }

  /**
   * After any run from an empty table: a well-formed create is told `AlreadyActive` exactly when, by
   * the replies so far, the consumer was given a key that was not revoked since; a database error
   * exactly when it was not, and the plaintext hashes like one given before; and otherwise a key.
   * The error code cannot tell the two apart, so a plaintext issued twice to a consumer with an
   * active key is reported as that consumer's.
   */
  lemma {:induction false} AlreadyActiveExactlyWhen(h: Hasher, ops: seq<Op>, name: string, consumer: string,
                                                    expiresAt: Option<string>, plaintext: string, now: string)
    requires Trim(name) != "" && Trim(consumer) != "" && Trim(plaintext) != ""
    ensures var empty, c := Table([], 0), Trim(consumer);
      var told := HearAll(h, Told(map[], {}), empty, ops);
      CreateReply(h, RunOps(h, empty, ops), name, consumer, expiresAt, plaintext, now).result
      == if c in told.live then Err(AlreadyActive(c))
         else if h(plaintext) in told.hashes then Err(Database)
         else Ok(Fresh(RunOps(h, empty, ops), Trim(name), c, expiresAt, h(plaintext), PrefixOf(plaintext), now))
  {
    var empty := Table([], 0);
    var told := HearAll(h, Told(map[], {}), empty, ops);
    RepliesTellTheTable(h, Told(map[], {}), empty, ops);
    LiveIsActive(told.live, RunOps(h, empty, ops).rows, Trim(consumer));
  }

  /** Rotating an active key is refused only when the new plaintext's hash exists already. */
  lemma {:induction false} RotateSucceedsExactlyWhen(h: Hasher, t: Table, id: nat, plaintext: string, now: string)
    requires Good(t)
    ensures RotateReply(h, t, id, plaintext, now).result.Ok? <==>
      IndexOf(t.rows, id).Some? && t.rows[IndexOf(t.rows, id).value].active && !HashTaken(t.rows, h(plaintext))
  {
    var at := IndexOf(t.rows, id);
    if at.Some? && t.rows[at.value].active {
      var i := at.value;
      var without := WithRow(t, i, RevokedRow(t.rows[i], now));
      assert forall k :: 0 <= k < |t.rows| ==> without.rows[k].hash == t.rows[k].hash;
      assert HashTaken(without.rows, h(plaintext)) <==> HashTaken(t.rows, h(plaintext)) by {
        if HashTaken(t.rows, h(plaintext)) {
          var k :| 0 <= k < |t.rows| && t.rows[k].hash == h(plaintext);
          assert without.rows[k].hash == h(plaintext);
        }
      }
      assert !HasActive(without.rows, t.rows[i].consumer);
    }
  }

  /** A rotation swaps one active row for another of the same name, consumer and expiry. */
  lemma {:induction false} RotationSwapsOne(h: Hasher, t: Table, id: nat, plaintext: string, now: string)
    requires Good(t) && RotateReply(h, t, id, plaintext, now).result.Ok?
    ensures var reply := RotateReply(h, t, id, plaintext, now);
      var after, replacement := reply.table, reply.result.value;
      var i := IndexOf(t.rows, id).value;
      && t.rows[i].active && replacement.active
      && replacement.name == t.rows[i].name && replacement.consumer == t.rows[i].consumer
      && replacement.expiresAt == t.rows[i].expiresAt
      && replacement.hash == h(plaintext) && replacement.id > t.lastId
      && after.rows == t.rows[i := RevokedRow(t.rows[i], now)] + [replacement]
      && (forall c :: HasActive(after.rows, c) <==> HasActive(t.rows, c))
  {
    var after, i := RotateReply(h, t, id, plaintext, now).table, IndexOf(t.rows, id).value;
    var n := |t.rows|;
    forall c ensures HasActive(after.rows, c) <==> HasActive(t.rows, c) {
      if c == t.rows[i].consumer {
        assert after.rows[n].active && after.rows[n].consumer == c;
        assert HasActive(after.rows, c) && HasActive(t.rows, c);
      } else {
        if HasActive(t.rows, c) {
          var k :| 0 <= k < n && t.rows[k].active && t.rows[k].consumer == c;
          assert after.rows[k].active && after.rows[k].consumer == c;
        }
        if HasActive(after.rows, c) {
          var k :| 0 <= k <= n && after.rows[k].active && after.rows[k].consumer == c;
          assert k < n && t.rows[k].active && t.rows[k].consumer == c;
        }
      }
    }
  }

  predicate IsTrimmed(s: string) {
    s == [] || (!IsSpace(s[0]) && !IsSpace(s[|s| - 1]))
  }

  ghost predicate AllSpace(s: string) {
    forall i :: 0 <= i < |s| ==> IsSpace(s[i])
  }

  /** Trimming takes white space off both ends and nothing else. */
  lemma {:induction false} TrimTakesOffSpace(s: string) returns (left: string, right: string)
    ensures s == left + Trim(s) + right && AllSpace(left) && AllSpace(right)
    decreases |s|
  {
    left, right := [], [];
    if s != [] && IsSpace(s[0]) {
      var more, end := TrimTakesOffSpace(s[1..]);
      left, right := [s[0]] + more, end;
    } else if s != [] && IsSpace(s[|s| - 1]) {
      var start, more := TrimTakesOffSpace(s[..|s| - 1]);
      left, right := start, more + [s[|s| - 1]];
    }
  }

  lemma {:induction false} TrimIsTrimmed(s: string)
    ensures IsTrimmed(Trim(s)) && |Trim(s)| <= |s|
    ensures Trim(s) == s <==> IsTrimmed(s)
    decreases |s|
  {
    if s != [] && IsSpace(s[0]) {
      TrimIsTrimmed(s[1..]);
    } else if s != [] && IsSpace(s[|s| - 1]) {
      TrimIsTrimmed(s[..|s| - 1]);
    }
  }

  /**
   * `update` checks a trimmed name and then stores the name as given: what it stores is trimmed, as
   * everything `create` stores is, exactly when no white space stands at either end of the name.
   */
  lemma UpdateStoresATrimmedNameExactlyWhen(t: Table, id: nat, newName: string, now: string)
    requires IndexOf(t.rows, id).Some? && t.rows[IndexOf(t.rows, id).value].active && Trim(newName) != ""
    ensures var r := UpdateReply(t, id, Some(newName), now).result;
      r.Ok? && (r.value.name == Trim(newName) <==> IsTrimmed(newName))
  {
    TrimIsTrimmed(newName);
  }

  lemma {:induction false} CreateStoresATrimmedName(h: Hasher, t: Table, name: string, consumer: string,
                                                    expiresAt: Option<string>, plaintext: string, now: string)
    ensures var r := CreateReply(h, t, name, consumer, expiresAt, plaintext, now).result;
      r.Ok? ==> IsTrimmed(r.value.name) && IsTrimmed(r.value.consumer)
  {
    TrimIsTrimmed(name);
    TrimIsTrimmed(consumer);
  }

  /** A key that was just issued: active from `now`, for this plaintext, of which it shows at most twelve characters. */
  ghost predicate IsIssued(h: Hasher, row: KeyRow, plaintext: string, expiresAt: Option<string>, now: string) {
    && row.active && row.revokedAt.None? && row.createdAt == row.updatedAt == now && row.expiresAt == expiresAt
    && row.hash == h(plaintext)
    && row.prefix <= plaintext && |row.prefix| == Min(12, |plaintext|)
  }

  /** What a successful operation writes, column by column: one row for a create, two for a rotation. */
  lemma {:induction false} WritesExactly(h: Hasher, t: Table, op: Op)
    requires ReplyTo(h, t, op).result.Ok?
    ensures var after, row := ReplyTo(h, t, op).table.rows, ReplyTo(h, t, op).result.value;
      match op
      case Create(name, consumer, expiresAt, plaintext, now) =>
        && IsIssued(h, row, plaintext, expiresAt, now) && row.name == Trim(name) && row.consumer == Trim(consumer)
        && row.id == t.lastId + 1 && after == t.rows + [row]
      case Update(id, newName, now) =>
        var i := IndexOf(t.rows, id).value;
        && after == t.rows[i := row] && row.updatedAt == now
        && row.name == (if newName.Some? then newName.value else t.rows[i].name)
        && row == t.rows[i].(name := row.name, updatedAt := now)
      case Revoke(id, now) =>
        var i := IndexOf(t.rows, id).value;
        && after == t.rows[i := row]
        && (if t.rows[i].active
            then row == t.rows[i].(active := false, revokedAt := Some(now), updatedAt := now) else row == t.rows[i])
      case Rotate(id, plaintext, now) =>
        var i := IndexOf(t.rows, id).value;
        var was := t.rows[i];
        && IsIssued(h, row, plaintext, was.expiresAt, now) && row.name == was.name && row.consumer == was.consumer
        && row.id == t.lastId + 1
        && after == t.rows[i := was.(active := false, revokedAt := Some(now), updatedAt := now)] + [row]
  {
  }

  ghost predicate Exists(t: Table, id: nat) {
    exists i :: 0 <= i < |t.rows| && t.rows[i].id == id
  }

  ghost predicate IsActive(t: Table, id: nat) {
    exists i :: 0 <= i < |t.rows| && t.rows[i].id == id && t.rows[i].active
  }

  lemma ActiveAt(t: Table, id: nat)
    requires Good(t)
    ensures Exists(t, id) <==> IndexOf(t.rows, id).Some?
    ensures IsActive(t, id) <==> IndexOf(t.rows, id).Some? && t.rows[IndexOf(t.rows, id).value].active
  {
  }

  /** When the operations on an issued key are refused, and with what. */
  lemma {:induction false} RefusesExactlyWhen(h: Hasher, t: Table, id: nat, newName: Option<string>, plaintext: string,
                                              now: string)
    requires Good(t)
    ensures var update, revoke := UpdateReply(t, id, newName, now).result, RevokeReply(t, id, now).result;
      var rotate := RotateReply(h, t, id, plaintext, now).result;
      && (update == Err(Invalid) <==> newName.Some? && Trim(newName.value) == "")
      && (update.Ok? <==> IsActive(t, id) && (newName.Some? ==> Trim(newName.value) != ""))
      && (revoke.Ok? <==> Exists(t, id))
      && (rotate.Ok? <==> IsActive(t, id) && !HashTaken(t.rows, h(plaintext)))
      && (update.Err? && update.error != Invalid ==>
           update.error == if Exists(t, id) then NotActive(id) else NotFound(id))
      && (revoke.Err? ==> revoke.error == NotFound(id))
      && (rotate.Err? ==>
           rotate.error == if IsActive(t, id) then Database else if Exists(t, id) then NotActive(id) else NotFound(id))
  {
    ActiveAt(t, id);
    RotateSucceedsExactlyWhen(h, t, id, plaintext, now);
  }
}
