/**
 Why alembic/versions/061_active_key_unique_index.py replaced the reject triggers of 047:
 transactions that overlap. A statement sees the committed rows and its own transaction's,
 so the triggers of 047 miss what another open transaction has written. The unique index
 makes a statement wait for a transaction that has touched its key.
 */
module Transactions {
  import opened Prelude
  import opened ActiveKey

  type Tx = nat

  /** One statement of a transaction, or its end. */
  datatype Step = Act(tx: Tx, write: Write) | Commit(tx: Tx) | Rollback(tx: Tx)

  /** An open transaction: what it has made of the rows it wrote (None is a deleted row), the
      active keys those rows had or got, and its writes so far. It keeps rows and keys until
      it ends. */
  datatype Open = Open(rows: map<Id, Option<Entry>>, keys: set<Key>, log: seq<Write>)

  /** The committed rows, the open transactions, and the committed writes in the order of the
      commits. */
  datatype Database = Database(committed: Table, open: map<Tx, Open>, history: seq<Write>)

  /** What enforces uniqueness. */
  datatype Guard = Triggers047 | Index061(limit: nat)

  datatype Outcome = Written(view: Table) | Rejected | Waits

  function Mine(db: Database, tx: Tx): Open {
    if tx in db.open then db.open[tx] else Open(map[], {}, [])
  }

  function Overlay(table: Table, rows: map<Id, Option<Entry>>): Table {
    map id | id in table.Keys + rows.Keys && (id in rows ==> rows[id].Some?) ::
      if id in rows then rows[id].value else table[id]
  }

  /** What a statement of the transaction sees: the committed rows under its own. */
  function View(db: Database, tx: Tx): Table {
    Overlay(db.committed, Mine(db, tx).rows)
  }

  function KeysOf(e: Entry): set<Key> {
    if e.active.Some? then {e.active.value} else {}
  }

  /** The key that a write gives to a row that is not deleted. */
  function Gives(w: Write): Option<Key> {
    if !w.Delete? && w.deleted == Some(0) then w.key else None
  }

  /** The active keys that a write takes from a row or gives to it. */
  function Touched(view: Table, w: Write): set<Key> {
    (if w.id in view then KeysOf(view[w.id]) else {}) + (if Gives(w).Some? then {Gives(w).value} else {})
  }

  predicate RowHeld(db: Database, tx: Tx, id: Id) {
    exists u | u in db.open :: u != tx && id in db.open[u].rows
  }

  predicate KeyHeld(db: Database, tx: Tx, keys: set<Key>) {
    exists u | u in db.open :: u != tx && !(db.open[u].keys !! keys)
  }

  /** A write waits for a transaction that holds its row, under the index also for one that
      holds its key; otherwise the statement runs on what it sees. */
  function Answer(guard: Guard, db: Database, tx: Tx, w: Write): Outcome {
    var view := View(db, tx);
    if RowHeld(db, tx, w.id) || (guard.Index061? && KeyHeld(db, tx, Touched(view, w))) then Waits else
    match (if guard.Index061? then Execute061(view, w, guard.limit) else Execute047(view, w))
    case Some(now) => Written(now)
    case None => Rejected
  }

  /** An accepted write becomes part of its transaction. */
  function Recorded(db: Database, tx: Tx, w: Write, now: Table): Database {
    var mine := Mine(db, tx);
    var row := if w.id in now then Some(now[w.id]) else None;
    db.(open := db.open[tx := Open(mine.rows[w.id := row], mine.keys + Touched(View(db, tx), w), mine.log + [w])])
  }

  function Next(guard: Guard, db: Database, step: Step): Database {
    match step
    case Commit(tx) => Database(View(db, tx), db.open - {tx}, db.history + Mine(db, tx).log)
    case Rollback(tx) => db.(open := db.open - {tx})
    case Act(tx, w) =>
      match Answer(guard, db, tx, w)
      case Written(now) => Recorded(db, tx, w, now)
      case _ => db
  }

  /** Any statements of any transactions in any order; a write that waits or is rejected
      changes nothing, and may be tried again later in the run. */
  function Run(guard: Guard, db: Database, run: seq<Step>): Database {
    if run == [] then db else Next(guard, Run(guard, db, run[..|run| - 1]), run[|run| - 1])
  }

  // ---- One transaction after the other ----

  /** Writes one after the other; None when one of them is rejected. */
  function Replay(table: Table, log: seq<Write>, limit: nat): Option<Table> {
    if log == [] then Some(table) else
    match Replay(table, log[..|log| - 1], limit)
    case Some(t) => Execute061(t, log[|log| - 1], limit)
    case None => None
  }

  lemma ReplayNext(table: Table, log: seq<Write>, w: Write, limit: nat)
    requires Replay(table, log, limit).Some?
    ensures Replay(table, log + [w], limit) == Execute061(Replay(table, log, limit).value, w, limit)
  {
    assert (log + [w])[..|log|] == log;
  }

  lemma {:induction false} ReplayConcat(table: Table, a: seq<Write>, b: seq<Write>, limit: nat)
    requires Replay(table, a, limit).Some?
    ensures Replay(table, a + b, limit) == Replay(Replay(table, a, limit).value, b, limit)
  {
    if b == [] {
      assert a + b == a;
    } else {
      var front, last := b[..|b| - 1], b[|b| - 1];
      ReplayConcat(table, a, front, limit);
      assert (a + b)[..|a + b| - 1] == a + front;
    }
  }

  ghost predicate Good(table: Table) {
    Keyed(table) && IndexHolds(table)
  }

  lemma {:induction false} ReplayGood(table: Table, log: seq<Write>, limit: nat)
    requires Good(table) && limit >= 1 && Replay(table, log, limit).Some?
    ensures Good(Replay(table, log, limit).value)
    ensures Run061(table, log, limit) == Replay(table, log, limit).value
  {
    if log != [] {
      var front := log[..|log| - 1];
      ReplayGood(table, front, limit);
      SameWrite(Replay(table, front, limit).value, log[|log| - 1], limit);
    }
  }

  // ---- What other rows and keys do not matter for ----

  predicate HasKey(table: Table, id: Id, k: Key) {
    id in table && table[id].active == Some(k)
  }

  /** Two tables with the same rows `ids`, and the same rows holding the keys `keys`. */
  ghost predicate Agree(t: Table, u: Table, ids: set<Id>, keys: set<Key>) {
    && (forall id | id in ids :: (id in t <==> id in u) && (id in t ==> t[id] == u[id]))
    && (forall id, k | k in keys :: HasKey(t, id, k) <==> HasKey(u, id, k))
  }

  /** The rows outside `ids` are those of the first table. */
  ghost predicate Unchanged(t: Table, u: Table, ids: set<Id>) {
    forall id | id !in ids :: (id in t <==> id in u) && (id in t ==> t[id] == u[id])
  }

  lemma ClashByKey(table: Table, id: Id, e: Entry)
    requires Keyed(table) && Filled(e)
    ensures Clashes(table, id, e) <==> e.deleted == Some(0) && exists other :: other != id && HasKey(table, other, e.key.value)
  {
    forall other | other in table
      ensures table[other].deleted == Some(0) && table[other].key == e.key <==> HasKey(table, other, e.key.value)
    {
      assert table[other].active == Expected(table[other]);
    }
  }

  /** What an accepted write does: only its own row changes, to the same row whatever else
      is in the table. */
  lemma WriteIsLocal(table: Table, w: Write, limit: nat)
    requires Good(table) && limit >= 1 && Execute061(table, w, limit).Some?
    ensures var now := Execute061(table, w, limit).value;
      && Good(now) && Unchanged(table, now, {w.id})
      && (w.id in now <==> !w.Delete?)
      && (w.id in now ==> now[w.id] == NewRow(w) && KeysOf(now[w.id]) <= Touched(table, w))
  {
    SameWrite(table, w, limit);
    if !w.Delete? {
      SameStore(table, w.id, Stored(table, w), limit);
    }
  }

  function Stored(table: Table, w: Write): Entry
    requires !w.Delete?
  {
    Entry(w.key, w.deleted, if w.id in table then table[w.id].active else None)
  }

  function NewRow(w: Write): Entry
    requires !w.Delete?
  {
    Entry(w.key, w.deleted, if w.deleted == Some(0) then w.key else None)
  }

  lemma SameClash(t: Table, u: Table, ids: set<Id>, keys: set<Key>, id: Id, e: Entry)
    requires Keyed(t) && Keyed(u) && Agree(t, u, ids, keys) && Filled(e) && e.key.value in keys
    ensures Clashes(t, id, e) <==> Clashes(u, id, e)
  {
    ClashByKey(t, id, e);
    ClashByKey(u, id, e);
  }

  /** A write is accepted alike, and leaves tables that agree alike. */
  lemma FrameWrite(t: Table, u: Table, w: Write, ids: set<Id>, keys: set<Key>, limit: nat)
    requires Good(t) && Good(u) && limit >= 1 && Agree(t, u, ids, keys)
    requires w.id in ids && Touched(t, w) <= keys && Execute061(t, w, limit).Some?
    ensures Touched(u, w) == Touched(t, w) && Execute061(u, w, limit).Some?
    ensures Agree(Execute061(t, w, limit).value, Execute061(u, w, limit).value, ids, keys)
  {
    if !w.Delete? {
      var e := Stored(t, w);
      SameStore(t, w.id, e, limit);
      SameStore(u, w.id, e, limit);
      if w.deleted == Some(0) {
        SameClash(t, u, ids, keys, w.id, e);
      }
    }
    hide Execute061;
    WriteIsLocal(t, w, limit);
    WriteIsLocal(u, w, limit);
    AgreeAfter(t, u, Execute061(t, w, limit).value, Execute061(u, w, limit).value, w.id, ids, keys);
  }

  lemma AgreeAfter(t: Table, u: Table, t': Table, u': Table, id: Id, ids: set<Id>, keys: set<Key>)
    requires Agree(t, u, ids, keys) && Unchanged(t, t', {id}) && Unchanged(u, u', {id})
    requires (id in t' <==> id in u') && (id in t' ==> t'[id] == u'[id])
    ensures Agree(t', u', ids, keys)
  {
    forall i, k | k in keys
      ensures HasKey(t', i, k) <==> HasKey(u', i, k)
    {
      assert HasKey(t, i, k) <==> HasKey(u, i, k);
    }
  }

  /** The writes touch only these rows and keys. */
  ghost predicate Within(table: Table, log: seq<Write>, ids: set<Id>, keys: set<Key>, limit: nat) {
    log == [] ||
    var front, last := log[..|log| - 1], log[|log| - 1];
    && Within(table, front, ids, keys, limit)
    && Replay(table, front, limit).Some?
    && last.id in ids && Touched(Replay(table, front, limit).value, last) <= keys
  }

  lemma {:induction false} WithinMore(table: Table, log: seq<Write>, ids: set<Id>, keys: set<Key>,
                                      moreIds: set<Id>, moreKeys: set<Key>, limit: nat)
    requires Within(table, log, ids, keys, limit) && ids <= moreIds && keys <= moreKeys
    ensures Within(table, log, moreIds, moreKeys, limit)
  {
    if log != [] {
      WithinMore(table, log[..|log| - 1], ids, keys, moreIds, moreKeys, limit);
    }
  }

  /** Writes that touch only rows and keys on which two tables agree are all accepted on the
      second when they are on the first, and do the same there. */
  lemma {:induction false} FrameLog(t: Table, u: Table, log: seq<Write>, ids: set<Id>, keys: set<Key>, limit: nat)
    requires Good(t) && Good(u) && limit >= 1 && Agree(t, u, ids, keys)
    requires Within(t, log, ids, keys, limit) && Replay(t, log, limit).Some?
    ensures Within(u, log, ids, keys, limit) && Replay(u, log, limit).Some?
    ensures Agree(Replay(t, log, limit).value, Replay(u, log, limit).value, ids, keys)
    ensures Unchanged(u, Replay(u, log, limit).value, ids)
  {
    hide Good, Agree, Touched, Execute061;
    if log != [] {
      var front, last := log[..|log| - 1], log[|log| - 1];
      FrameLog(t, u, front, ids, keys, limit);
      ReplayGood(t, front, limit);
      ReplayGood(u, front, limit);
      FrameWrite(Replay(t, front, limit).value, Replay(u, front, limit).value, last, ids, keys, limit);
      WriteIsLocal(Replay(u, front, limit).value, last, limit);
    }
  }

  lemma NothingOver(table: Table)
    ensures Overlay(table, map[]) == table
  {
  }

  // ---- The invariant ----

  /** The keys of the rows, as committed and as they are now, are among these. */
  ghost predicate HoldsKeys(committed: Table, rows: map<Id, Option<Entry>>, keys: set<Key>) {
    && (forall id | id in rows && id in committed :: KeysOf(committed[id]) <= keys)
    && (forall id | id in rows && rows[id].Some? :: KeysOf(rows[id].value) <= keys)
  }

  /** The view of a transaction is what its writes make of the committed rows, and it holds
      the rows and the keys they touched. */
  ghost predicate Sound(committed: Table, o: Open, limit: nat) {
    && Replay(committed, o.log, limit) == Some(Overlay(committed, o.rows))
    && Within(committed, o.log, o.rows.Keys, o.keys, limit)
    && HoldsKeys(committed, o.rows, o.keys)
  }

  ghost predicate Apart(o: Open, p: Open) {
    o.rows.Keys !! p.rows.Keys && o.keys !! p.keys
  }

  ghost predicate Inv(table: Table, db: Database, limit: nat) {
    && Good(db.committed) && Replay(table, db.history, limit) == Some(db.committed)
    && (forall t | t in db.open :: Sound(db.committed, db.open[t], limit))
    && (forall t, u | t in db.open && u in db.open && t != u :: Apart(db.open[t], db.open[u]))
  }

  lemma NothingOpen(committed: Table, limit: nat)
    ensures Sound(committed, Open(map[], {}, []), limit)
  {
    NothingOver(committed);
  }

  lemma OverlayPut(committed: Table, rows: map<Id, Option<Entry>>, id: Id, now: Table)
    requires Unchanged(Overlay(committed, rows), now, {id})
    ensures Overlay(committed, rows[id := if id in now then Some(now[id]) else None]) == now
  {
  }

  lemma HoldsPut(committed: Table, rows: map<Id, Option<Entry>>, keys: set<Key>, id: Id, row: Option<Entry>, more: set<Key>)
    requires HoldsKeys(committed, rows, keys) && keys <= more
    requires id !in rows && id in committed ==> KeysOf(committed[id]) <= more
    requires row.Some? ==> KeysOf(row.value) <= more
    ensures HoldsKeys(committed, rows[id := row], more)
  {
  }

  /** A transaction's own next write keeps its part of the invariant. */
  lemma SoundWrite(committed: Table, o: Open, w: Write, limit: nat, now: Table, next: Open)
    requires Good(committed) && limit >= 1 && Sound(committed, o, limit)
    requires Execute061(Overlay(committed, o.rows), w, limit) == Some(now)
    requires next == Open(o.rows[w.id := if w.id in now then Some(now[w.id]) else None],
                          o.keys + Touched(Overlay(committed, o.rows), w), o.log + [w])
    ensures Sound(committed, next, limit)
  {
    var view := Overlay(committed, o.rows);
    assert w.id !in o.rows && w.id in committed ==> KeysOf(committed[w.id]) <= Touched(view, w);
    hide Good, Execute061, KeysOf, Touched, Overlay, Unchanged, Replay, HoldsKeys;
    ReplayGood(committed, o.log, limit);
    ReplayNext(committed, o.log, w, limit);
    WriteIsLocal(view, w, limit);
    OverlayPut(committed, o.rows, w.id, now);
    HoldsPut(committed, o.rows, o.keys, w.id, if w.id in now then Some(now[w.id]) else None, next.keys);
    WithinMore(committed, o.log, o.rows.Keys, o.keys, next.rows.Keys, next.keys, limit);
    assert next.log[..|o.log|] == o.log;
  }

  /** The commit of another transaction changes none of its rows, and no holder of its keys. */
  lemma AgreeCommit(committed: Table, o: Open, other: Open)
    requires HoldsKeys(committed, other.rows, other.keys) && Apart(o, other)
    ensures Agree(committed, Overlay(committed, other.rows), o.rows.Keys, o.keys)
  {
    var now := Overlay(committed, other.rows);
    forall id, k | k in o.keys
      ensures HasKey(committed, id, k) <==> HasKey(now, id, k)
    {
      assert k !in other.keys;
    }
  }

  lemma OverlayAfter(t: Table, u: Table, rows: map<Id, Option<Entry>>, result: Table, keys: set<Key>)
    requires Agree(Overlay(t, rows), result, rows.Keys, keys) && Unchanged(u, result, rows.Keys)
    ensures result == Overlay(u, rows)
  {
  }

  lemma HoldsCommit(committed: Table, o: Open, other: Open)
    requires HoldsKeys(committed, o.rows, o.keys) && Apart(o, other)
    ensures HoldsKeys(Overlay(committed, other.rows), o.rows, o.keys)
  {
  }

  lemma SoundCommit(committed: Table, o: Open, other: Open, limit: nat)
    requires Good(committed) && limit >= 1 && Sound(committed, o, limit) && Sound(committed, other, limit)
    requires Apart(o, other)
    ensures Sound(Overlay(committed, other.rows), o, limit)
  {
    hide Good, Agree, Unchanged, Overlay, Replay, Within, HoldsKeys, Apart;
    var now := Overlay(committed, other.rows);
    ReplayGood(committed, other.log, limit);
    AgreeCommit(committed, o, other);
    FrameLog(committed, now, o.log, o.rows.Keys, o.keys, limit);
    OverlayAfter(committed, now, o.rows, Replay(now, o.log, limit).value, o.keys);
    HoldsCommit(committed, o, other);
  }

  // ---- Every run under the index ----

  lemma InvWrite(table: Table, db: Database, tx: Tx, w: Write, limit: nat)
    requires Inv(table, db, limit) && limit >= 1
    ensures Inv(table, Next(Index061(limit), db, Act(tx, w)), limit)
  {
    hide Good, Replay, Sound;
    var guard := Index061(limit);
    if Answer(guard, db, tx, w).Written? {
      var mine, now := Mine(db, tx), Answer(guard, db, tx, w).view;
      var next := Next(guard, db, Act(tx, w)).open[tx];
      NothingOpen(db.committed, limit);
      SoundWrite(db.committed, mine, w, limit, now, next);
      forall u | u in db.open && u != tx
        ensures Apart(next, db.open[u])
      {
        assert w.id !in db.open[u].rows;
      }
    }
  }

  lemma InvCommit(table: Table, db: Database, tx: Tx, limit: nat)
    requires Inv(table, db, limit) && limit >= 1 && Good(table)
    ensures Inv(table, Next(Index061(limit), db, Commit(tx)), limit)
  {
    hide Replay, Sound, Overlay, Apart, Good;
    var mine := Mine(db, tx);
    NothingOpen(db.committed, limit);
    SoundView(db.committed, mine, limit);
    ReplayConcat(table, db.history, mine.log, limit);
    forall u | u in db.open && u != tx
      ensures Sound(View(db, tx), db.open[u], limit)
    {
      NothingApart(db.open[u]);
      SoundCommit(db.committed, db.open[u], mine, limit);
    }
  }

  lemma NothingApart(o: Open)
    ensures Apart(o, Open(map[], {}, []))
  {
  }

  lemma SoundView(committed: Table, o: Open, limit: nat)
    requires Good(committed) && limit >= 1 && Sound(committed, o, limit)
    ensures Replay(committed, o.log, limit) == Some(Overlay(committed, o.rows)) && Good(Overlay(committed, o.rows))
  {
    ReplayGood(committed, o.log, limit);
  }

  lemma {:induction false} InvRun(table: Table, run: seq<Step>, limit: nat)
    requires Good(table) && limit >= 1
    ensures Inv(table, Run(Index061(limit), Database(table, map[], []), run), limit)
  {
    if run != [] {
      var front, last := run[..|run| - 1], run[|run| - 1];
      InvRun(table, front, limit);
      var db := Run(Index061(limit), Database(table, map[], []), front);
      match last
      case Act(tx, w) => InvWrite(table, db, tx, w, limit);
      case Commit(tx) => InvCommit(table, db, tx, limit);
      case Rollback(tx) =>
    }
  }

  /** However transactions overlap under the index, the committed rows are those that the
      committed transactions leave one after the other, in the order of their commits and
      without a rejected write; they are the rows that 047's triggers leave when no two
      transactions overlap; and no two rows that are not deleted have the same key. */
  lemma OverlapIsOneAfterTheOther(table: Table, run: seq<Step>, limit: nat)
    requires Keyed(table) && IndexHolds(table) && limit >= 1
    ensures var db := Run(Index061(limit), Database(table, map[], []), run);
      && Replay(table, db.history, limit) == Some(db.committed)
      && Plain(db.committed) == Run047(Plain(table), db.history)
      && Keyed(db.committed) && UniqueActive(db.committed)
  {
    InvRun(table, run, limit);
    var db := Run(Index061(limit), Database(table, map[], []), run);
    hide Run;
    ReplayGood(table, db.history, limit);
    SameRuns(table, db.history, limit);
  }

  /** After one of two writes that give a key to different rows, the other is rejected. */
  lemma KeyIsTaken(table: Table, a: Write, b: Write, limit: nat)
    requires Good(table) && limit >= 1 && a.id != b.id && Gives(a).Some? && Gives(a) == Gives(b)
    requires Execute061(table, a, limit).Some?
    ensures Execute061(Execute061(table, a, limit).value, b, limit).None?
  {
    WriteIsLocal(table, a, limit);
    var now := Execute061(table, a, limit).value;
    assert now[a.id] == NewRow(a);
    var e := Stored(now, b);
    SameStore(now, b.id, e, limit);
    hide Store;
    assert Filled(e) ==> Clashes(now, b.id, e);
  }

  /** The database after the first write of the first transaction. */
  lemma FirstWrite(table: Table, x: Tx, a: Write, limit: nat)
    requires Good(table) && limit >= 1 && Execute061(table, a, limit).Some?
    ensures var first := Next(Index061(limit), Database(table, map[], []), Act(x, a));
      && first.open.Keys == {x} && first.committed == table && Touched(table, a) <= first.open[x].keys
      && first.open[x].rows.Keys == {a.id} && View(first, x) == Execute061(table, a, limit).value
  {
    var now := Execute061(table, a, limit).value;
    hide Execute061, Touched, Good, Unchanged, Overlay;
    NothingOver(table);
    WriteIsLocal(table, a, limit);
    OverlayPut(table, map[], a.id, now);
  }

  /** Two writes that each would be accepted alone and that give one key to two rows: the
      second waits for the first; it fails when the first commits, and goes through when the
      first is rolled back. */
  lemma SecondWaits(table: Table, x: Tx, a: Write, y: Tx, b: Write, limit: nat)
    requires x != y && Good(table) && limit >= 1 && a.id != b.id
    requires Gives(a).Some? && Gives(a) == Gives(b)
    requires Execute061(table, a, limit).Some? && Execute061(table, b, limit).Some?
    ensures var guard := Index061(limit);
      var first := Next(guard, Database(table, map[], []), Act(x, a));
      && Answer(guard, first, y, b) == Waits
      && Answer(guard, Next(guard, first, Commit(x)), y, b) == Rejected
      && Answer(guard, Next(guard, first, Rollback(x)), y, b) == Written(Execute061(table, b, limit).value)
  {
    var guard, now := Index061(limit), Execute061(table, a, limit).value;
    var first := Next(guard, Database(table, map[], []), Act(x, a));
    FirstWrite(table, x, a, limit);
    KeyIsTaken(table, a, b, limit);
    NothingOver(table);
    NothingOver(now);
    HoldsGivenKey(first, x, y, table, a, b);
    hide Execute061, Overlay, Good, Touched, KeyHeld;
    var committed, undone := Next(guard, first, Commit(x)), Next(guard, first, Rollback(x));
    assert View(committed, y) == now && View(undone, y) == table;
    NobodyHolds(committed, y, b);
    NobodyHolds(undone, y, b);
  }

  lemma HoldsGivenKey(db: Database, x: Tx, y: Tx, table: Table, a: Write, b: Write)
    requires x != y && x in db.open && Touched(table, a) <= db.open[x].keys
    requires Gives(a).Some? && Gives(a) == Gives(b)
    ensures KeyHeld(db, y, Touched(View(db, y), b))
  {
    assert Gives(a).value in db.open[x].keys && Gives(b).value in Touched(View(db, y), b);
  }

  lemma NobodyHolds(db: Database, y: Tx, w: Write)
    requires db.open == map[]
    ensures !RowHeld(db, y, w.id) && !KeyHeld(db, y, Touched(View(db, y), w))
  {
  }

  /** Exactly when a write waits: for its row under either guard, and under the index for the
      key that its row has or that it gives to it. */
  lemma WaitsExactly(db: Database, tx: Tx, w: Write, limit: nat)
    ensures Answer(Triggers047, db, tx, w) == Waits <==> exists u | u in db.open && u != tx :: w.id in db.open[u].rows
    ensures Answer(Index061(limit), db, tx, w) == Waits <==>
      exists u | u in db.open && u != tx ::
        || w.id in db.open[u].rows
        || exists k | k in db.open[u].keys ::
             HasKey(View(db, tx), w.id, k) || (!w.Delete? && w.deleted == Some(0) && w.key == Some(k))
  {
    var view := View(db, tx);
    forall k
      ensures k in Touched(view, w) <==> HasKey(view, w.id, k) || (!w.Delete? && w.deleted == Some(0) && w.key == Some(k))
    {
    }
    hide Execute061, Execute047, Touched, View, HasKey;
    forall u | u in db.open
      ensures !(db.open[u].keys !! Touched(view, w)) <==> exists k :: k in db.open[u].keys && k in Touched(view, w)
    {
      Meets(db.open[u].keys, Touched(view, w));
    }
  }

  lemma Meets(a: set<Key>, b: set<Key>)
    ensures !(a !! b) <==> exists k :: k in a && k in b
  {
    if !exists k :: k in a && k in b {
      assert a !! b;
    }
  }

  /** What an accepted write leaves: its transaction sees the table it has made, and holds the
      row and those keys besides what it held; nothing else changes. */
  lemma HoldsExactly(table: Table, run: seq<Step>, limit: nat, tx: Tx, w: Write, now: Table)
    requires Good(table) && limit >= 1
    requires var db := Run(Index061(limit), Database(table, map[], []), run);
      Answer(Index061(limit), db, tx, w) == Written(now)
    ensures var db := Run(Index061(limit), Database(table, map[], []), run);
      var next := Next(Index061(limit), db, Act(tx, w));
      && next.committed == db.committed && next.history == db.history && next.open.Keys == db.open.Keys + {tx}
      && View(next, tx) == now && next.open[tx].rows.Keys == Mine(db, tx).rows.Keys + {w.id}
      && next.open[tx].log == Mine(db, tx).log + [w]
      && (forall u | u in db.open && u != tx :: next.open[u] == db.open[u])
      && (forall k :: k in next.open[tx].keys <==>
            k in Mine(db, tx).keys || HasKey(View(db, tx), w.id, k) || (!w.Delete? && w.deleted == Some(0) && w.key == Some(k)))
  {
    InvRun(table, run, limit);
    var db := Run(Index061(limit), Database(table, map[], []), run);
    NothingOpen(db.committed, limit);
    SoundView(db.committed, Mine(db, tx), limit);
    hide *;
    WriteHolds(db, limit, tx, w, now);
  }

  lemma WriteHolds(db: Database, limit: nat, tx: Tx, w: Write, now: Table)
    requires Good(View(db, tx)) && limit >= 1 && Answer(Index061(limit), db, tx, w) == Written(now)
    ensures var next := Next(Index061(limit), db, Act(tx, w));
      && next.committed == db.committed && next.history == db.history && next.open.Keys == db.open.Keys + {tx}
      && View(next, tx) == now && next.open[tx].rows.Keys == Mine(db, tx).rows.Keys + {w.id}
      && next.open[tx].log == Mine(db, tx).log + [w]
      && (forall u | u in db.open && u != tx :: next.open[u] == db.open[u])
      && (forall k :: k in next.open[tx].keys <==>
            k in Mine(db, tx).keys || HasKey(View(db, tx), w.id, k) || (!w.Delete? && w.deleted == Some(0) && w.key == Some(k)))
  {
    hide Execute061, Good, Unchanged, Overlay, RowHeld, KeyHeld;
    WriteIsLocal(View(db, tx), w, limit);
    OverlayPut(db.committed, Mine(db, tx).rows, w.id, now);
  }

  // ---- Two transactions under the triggers ----

  ghost predicate AllFilled(table: Table) {
    forall id | id in table :: Filled(table[id])
  }

  /** The write under 047; a rejected one changes nothing. */
  function Effect(table: Table, w: Write): Table {
    match Execute047(table, w)
    case Some(now) => now
    case None => table
  }

  /** Alone, a write under 047 keeps the keys of rows that are not deleted unique. */
  lemma EffectUnique(table: Table, w: Write)
    requires AllFilled(table) && UniqueActive(table)
    ensures AllFilled(Effect(table, w)) && UniqueActive(Effect(table, w)) && Unchanged(table, Effect(table, w), {w.id})
    ensures Execute047(table, w).Some? ==>
              var now := Execute047(table, w).value;
              (w.id in now <==> !w.Delete?) && (w.id in now ==> now[w.id].key == w.key && now[w.id].deleted == w.deleted)
  {
    if !w.Delete? && w.key.Some? && w.deleted.Some? {
      LegacyRejects(table, w.id, Entry(w.key, w.deleted, None));
    }
    hide LegacyCondition;
  }

  /** A transaction that no other overlaps leaves what its write leaves. */
  lemma Alone(db: Database, tx: Tx, w: Write)
    requires db.open == map[]
    ensures var after := Next(Triggers047, Next(Triggers047, db, Act(tx, w)), Commit(tx));
      after.committed == Effect(db.committed, w) && after.open == map[]
  {
    hide Execute047;
    NothingOver(db.committed);
    if Execute047(db.committed, w).Some? {
      var now := Execute047(db.committed, w).value;
      ExecuteIsLocal(db.committed, w);
      OverlayPut(db.committed, map[], w.id, now);
    }
  }

  lemma ExecuteIsLocal(table: Table, w: Write)
    requires Execute047(table, w).Some?
    ensures Unchanged(table, Execute047(table, w).value, {w.id})
  {
    hide LegacyCondition;
  }

  /** The row that an accepted write leaves behind, by its id; nothing for a rejected one. */
  function Changed(table: Table, w: Write): map<Id, Option<Entry>> {
    match Execute047(table, w)
    case Some(now) => map[w.id := if w.id in now then Some(now[w.id]) else None]
    case None => map[]
  }

  lemma ChangedIsEffect(table: Table, w: Write)
    ensures Overlay(table, Changed(table, w)) == Effect(table, w) && Changed(table, w).Keys <= {w.id}
    ensures Execute047(table, w).None? ==> Changed(table, w) == map[] && Effect(table, w) == table
  {
    hide Execute047;
    NothingOver(table);
    if Execute047(table, w).Some? {
      ExecuteIsLocal(table, w);
      OverlayPut(table, map[], w.id, Execute047(table, w).value);
    }
  }

  /** Two writes before either commit: each sees only the committed rows, and the second waits
      exactly when the first holds its row. */
  lemma BothWrite(table: Table, x: Tx, a: Write, y: Tx, b: Write)
    requires x != y
    ensures var db := Next(Triggers047, Next(Triggers047, Database(table, map[], []), Act(x, a)), Act(y, b));
      && db.committed == table && Mine(db, x).rows == Changed(table, a)
      && Mine(db, y).rows == if a.id == b.id && Execute047(table, a).Some? then map[] else Changed(table, b)
  {
    hide Execute047, Touched, Overlay;
    NothingOver(table);
    var first := Next(Triggers047, Database(table, map[], []), Act(x, a));
    assert Mine(first, x).rows == Changed(table, a);
    assert RowHeld(first, y, b.id) <==> a.id == b.id && Execute047(table, a).Some?;
  }

  lemma OverlayOrder(table: Table, rows: map<Id, Option<Entry>>, others: map<Id, Option<Entry>>)
    requires rows.Keys !! others.Keys
    ensures Overlay(Overlay(table, rows), others) == Overlay(Overlay(table, others), rows)
  {
  }

  lemma BothCommit(db: Database, x: Tx, y: Tx)
    requires x != y && Mine(db, x).rows.Keys !! Mine(db, y).rows.Keys
    ensures var rows, others := Mine(db, x).rows, Mine(db, y).rows;
      && Next(Triggers047, Next(Triggers047, db, Commit(x)), Commit(y)).committed == Overlay(Overlay(db.committed, rows), others)
      && Next(Triggers047, Next(Triggers047, db, Commit(y)), Commit(x)).committed == Overlay(Overlay(db.committed, rows), others)
  {
    var rows, others := Mine(db, x).rows, Mine(db, y).rows;
    OverlayOrder(db.committed, rows, others);
    hide Overlay;
  }

  /** The two writes are accepted on their own, on different rows, and give the same key to
      rows that are not deleted. */
  ghost predicate Collide(table: Table, a: Write, b: Write) {
    && a.id != b.id && Gives(a).Some? && Gives(a) == Gives(b)
    && Execute047(table, a).Some? && Execute047(table, b).Some?
  }

  lemma CollideOrNot(table: Table, a: Write, b: Write)
    requires AllFilled(table) && UniqueActive(table) && a.id != b.id
    ensures UniqueActive(Overlay(Effect(table, a), Changed(table, b))) <==> !Collide(table, a, b)
  {
    if Execute047(table, a).Some? && Execute047(table, b).Some? {
      BothAccepted(table, a, b);
    } else {
      assert !Collide(table, a, b);
      hide *;
      ChangedIsEffect(table, a);
      ChangedIsEffect(table, b);
      EffectUnique(table, a);
      EffectUnique(table, b);
      NothingOver(Effect(table, a));
    }
  }

  lemma BothAccepted(table: Table, a: Write, b: Write)
    requires AllFilled(table) && UniqueActive(table) && a.id != b.id
    requires Execute047(table, a).Some? && Execute047(table, b).Some?
    ensures UniqueActive(Overlay(Effect(table, a), Changed(table, b))) <==> !Collide(table, a, b)
  {
    EffectUnique(table, a);
    EffectUnique(table, b);
    var left, right := Effect(table, a), Effect(table, b);
    var both := Overlay(left, Changed(table, b));
    hide Execute047, UniqueActive, AllFilled;
    OverlayRow(left, right, both, b.id, Changed(table, b));
    PairDecides(both, left, right, a.id, b.id);
  }

  lemma OverlayRow(left: Table, right: Table, both: Table, id: Id, rows: map<Id, Option<Entry>>)
    requires both == Overlay(left, rows) && rows == map[id := if id in right then Some(right[id]) else None]
    ensures Unchanged(left, both, {id})
    ensures (id in both <==> id in right) && (id in both ==> both[id] == right[id])
  {
  }

  lemma PairDecides(both: Table, left: Table, right: Table, i: Id, j: Id)
    requires i != j && Unchanged(left, both, {j}) && Unchanged(right, both, {i})
    requires UniqueActive(left) && UniqueActive(right)
    ensures UniqueActive(both) <==>
      !(i in both && j in both && both[i].deleted == Some(0) && both[j].deleted == Some(0) && both[i].key == both[j].key)
  {
  }

  /** One of the ways to take the steps of two transactions in turns. */
  predicate IsInterleaving(run: seq<Step>, x: seq<Step>, y: seq<Step>) {
    if run == [] then x == [] && y == [] else
    var front, last := run[..|run| - 1], run[|run| - 1];
    || (x != [] && x[|x| - 1] == last && IsInterleaving(front, x[..|x| - 1], y))
    || (y != [] && y[|y| - 1] == last && IsInterleaving(front, x, y[..|y| - 1]))
  }

  lemma {:induction false} InterleavingSwap(run: seq<Step>, x: seq<Step>, y: seq<Step>)
    requires IsInterleaving(run, x, y)
    ensures IsInterleaving(run, y, x)
  {
    if run != [] {
      var front, last := run[..|run| - 1], run[|run| - 1];
      if x != [] && x[|x| - 1] == last && IsInterleaving(front, x[..|x| - 1], y) {
        InterleavingSwap(front, x[..|x| - 1], y);
      } else {
        InterleavingSwap(front, x, y[..|y| - 1]);
      }
    }
  }

  lemma {:induction false} OneLeft(run: seq<Step>, y: seq<Step>)
    requires IsInterleaving(run, [], y)
    ensures run == y
  {
    if run != [] {
      OneLeft(run[..|run| - 1], y[..|y| - 1]);
      assert run == run[..|run| - 1] + [run[|run| - 1]];
    }
  }

  lemma ThreeWays(run: seq<Step>, a: Step, b: Step, c: Step)
    requires IsInterleaving(run, [a], [b, c])
    ensures run == [a, b, c] || run == [b, a, c] || run == [b, c, a]
  {
    assert [a][..0] == [] && [b, c][..1] == [b] && [b][..0] == [];
    var front, last := run[..|run| - 1], run[|run| - 1];
    assert run == front + [last];
    if last == a && IsInterleaving(front, [], [b, c]) {
      OneLeft(front, [b, c]);
    } else {
      assert last == c && IsInterleaving(front, [a], [b]);
      assert front == front[..|front| - 1] + [front[|front| - 1]];
      if front[|front| - 1] == a && IsInterleaving(front[..|front| - 1], [], [b]) {
        OneLeft(front[..|front| - 1], [b]);
      } else {
        InterleavingSwap(front[..|front| - 1], [a], []);
        OneLeft(front[..|front| - 1], [a]);
      }
    }
  }

  lemma SixWays(run: seq<Step>, a: Step, ca: Step, b: Step, cb: Step)
    requires IsInterleaving(run, [a, ca], [b, cb])
    ensures run in {[a, ca, b, cb], [b, cb, a, ca], [a, b, ca, cb], [a, b, cb, ca], [b, a, ca, cb], [b, a, cb, ca]}
  {
    assert [a, ca][..1] == [a] && [b, cb][..1] == [b];
    var front, last := run[..|run| - 1], run[|run| - 1];
    assert run == front + [last];
    if last == ca && IsInterleaving(front, [a], [b, cb]) {
      ThreeWays(front, a, b, cb);
    } else {
      InterleavingSwap(front, [a, ca], [b]);
      ThreeWays(front, b, a, ca);
    }
    assert run == [front[0], front[1], front[2], last];
  }

  lemma FourSteps(db: Database, s: seq<Step>)
    requires |s| == 4
    ensures Run(Triggers047, db, s)
         == Next(Triggers047, Next(Triggers047, Next(Triggers047, Next(Triggers047, db, s[0]), s[1]), s[2]), s[3])
  {
    hide Next;
    assert s[..3][..2] == s[..2] && s[..2][..1] == s[..1] && s[..1][..0] == [];
    assert Run(Triggers047, db, s[..1]) == Next(Triggers047, db, s[0]);
    assert Run(Triggers047, db, s[..2]) == Next(Triggers047, Run(Triggers047, db, s[..1]), s[1]);
    assert Run(Triggers047, db, s[..3]) == Next(Triggers047, Run(Triggers047, db, s[..2]), s[2]);
  }

  lemma OneThenOther(table: Table, x: Tx, a: Write, y: Tx, b: Write)
    requires AllFilled(table) && UniqueActive(table)
    ensures UniqueActive(Run(Triggers047, Database(table, map[], []), [Act(x, a), Commit(x), Act(y, b), Commit(y)]).committed)
  {
    var db := Database(table, map[], []);
    FourSteps(db, [Act(x, a), Commit(x), Act(y, b), Commit(y)]);
    Alone(db, x, a);
    var middle := Next(Triggers047, Next(Triggers047, db, Act(x, a)), Commit(x));
    hide Next, UniqueActive, Effect;
    Alone(middle, y, b);
    EffectUnique(table, a);
    EffectUnique(Effect(table, a), b);
  }

  lemma CommitOrder(table: Table, x: Tx, a: Write, y: Tx, b: Write, run: seq<Step>)
    requires x != y && run in {[Act(x, a), Act(y, b), Commit(x), Commit(y)], [Act(x, a), Act(y, b), Commit(y), Commit(x)]}
    ensures Run(Triggers047, Database(table, map[], []), run).committed
         == Overlay(Effect(table, a), if a.id == b.id && Execute047(table, a).Some? then map[] else Changed(table, b))
  {
    hide *;
    var db := Next(Triggers047, Next(Triggers047, Database(table, map[], []), Act(x, a)), Act(y, b));
    FourSteps(Database(table, map[], []), run);
    BothWrite(table, x, a, y, b);
    ChangedIsEffect(table, a);
    ChangedIsEffect(table, b);
    BothCommit(db, x, y);
  }

  lemma WritesFirst(table: Table, x: Tx, a: Write, y: Tx, b: Write, run: seq<Step>)
    requires x != y && AllFilled(table) && UniqueActive(table)
    requires run in {[Act(x, a), Act(y, b), Commit(x), Commit(y)], [Act(x, a), Act(y, b), Commit(y), Commit(x)]}
    ensures UniqueActive(Run(Triggers047, Database(table, map[], []), run).committed) <==> !Collide(table, a, b)
  {
    assert a.id == b.id ==> !Collide(table, a, b);
    hide *;
    CommitOrder(table, x, a, y, b, run);
    ChangedIsEffect(table, a);
    ChangedIsEffect(table, b);
    EffectUnique(table, a);
    EffectUnique(table, b);
    NothingOver(Effect(table, a));
    if a.id != b.id {
      CollideOrNot(table, a, b);
    }
  }

  lemma CollideSwap(table: Table, a: Write, b: Write)
    ensures Collide(table, a, b) <==> Collide(table, b, a)
  {
  }

  /** Two transactions of one write each under 047, in any interleaving: two rows that are not
      deleted end up with one key exactly when both writes come before either commit, and
      either write on its own would be accepted and gives the same key to another row. */
  lemma TriggersMissOverlap(table: Table, x: Tx, a: Write, y: Tx, b: Write, run: seq<Step>)
    requires x != y && AllFilled(table) && UniqueActive(table)
    requires IsInterleaving(run, [Act(x, a), Commit(x)], [Act(y, b), Commit(y)])
    ensures |run| == 4
    ensures !UniqueActive(Run(Triggers047, Database(table, map[], []), run).committed)
       <==> run[0].Act? && run[1].Act? && Collide(table, a, b)
  {
    SixWays(run, Act(x, a), Commit(x), Act(y, b), Commit(y));
    hide Run, UniqueActive, Collide, AllFilled;
    if !run[1].Act? {
      OneThenOther(table, x, a, y, b);
      OneThenOther(table, y, b, x, a);
    } else if run[0] == Act(x, a) {
      WritesFirst(table, x, a, y, b, run);
    } else {
      CollideSwap(table, a, b);
      WritesFirst(table, y, b, x, a, run);
    }
  }

  // ---- When the triggers are enough ----

  function PlainRows(rows: map<Id, Option<Entry>>): map<Id, Option<Entry>> {
    map id | id in rows :: if rows[id].Some? then Some(rows[id].value.(active := None)) else None
  }

  /** The same database without the derived column. */
  ghost predicate SameRows(db: Database, plain: Database) {
    && plain.committed == Plain(db.committed) && plain.open.Keys == db.open.Keys
    && forall t | t in db.open :: plain.open[t].rows == PlainRows(db.open[t].rows)
  }

  /** No write of the run waits for a key. */
  ghost predicate NoKeyAwaited(table: Table, run: seq<Step>, limit: nat) {
    run == [] ||
    var front, last := run[..|run| - 1], run[|run| - 1];
    var db := Run(Index061(limit), Database(table, map[], []), front);
    && NoKeyAwaited(table, front, limit)
    && (last.Act? ==> !KeyHeld(db, last.tx, Touched(View(db, last.tx), last.write)))
  }

  lemma PlainView(db: Database, plain: Database, tx: Tx)
    requires SameRows(db, plain)
    ensures View(plain, tx) == Plain(View(db, tx))
  {
    MinePlain(db, plain, tx);
  }

  lemma SameAnswer(table: Table, db: Database, plain: Database, tx: Tx, w: Write, limit: nat)
    requires SameRows(db, plain) && Inv(table, db, limit) && limit >= 1
    requires !KeyHeld(db, tx, Touched(View(db, tx), w))
    ensures var answer, other := Answer(Index061(limit), db, tx, w), Answer(Triggers047, plain, tx, w);
      (answer.Written? <==> other.Written?) && (answer.Written? ==> other.view == Plain(answer.view))
  {
    hide Execute061, Execute047, Overlay, KeyHeld, RowHeld, Touched, Plain, Replay, Keyed, IndexHolds, SameRows, Sound;
    NothingOpen(db.committed, limit);
    SoundView(db.committed, Mine(db, tx), limit);
    SameWrite(View(db, tx), w, limit);
    PlainView(db, plain, tx);
    SameHolders(db, plain, tx, w.id);
  }

  lemma SameRowsWrite(table: Table, db: Database, plain: Database, tx: Tx, w: Write, limit: nat)
    requires SameRows(db, plain) && Inv(table, db, limit) && limit >= 1
    requires !KeyHeld(db, tx, Touched(View(db, tx), w))
    ensures SameRows(Next(Index061(limit), db, Act(tx, w)), Next(Triggers047, plain, Act(tx, w)))
  {
    SameAnswer(table, db, plain, tx, w, limit);
    hide Answer, KeyHeld, Touched, Inv, View, SameRows, Plain, Recorded;
    var answer := Answer(Index061(limit), db, tx, w);
    if answer.Written? {
      SameRecorded(db, plain, tx, w, answer.view);
    }
  }

  lemma SameRecorded(db: Database, plain: Database, tx: Tx, w: Write, now: Table)
    requires SameRows(db, plain)
    ensures SameRows(Recorded(db, tx, w, now), Recorded(plain, tx, w, Plain(now)))
  {
    MinePlain(db, plain, tx);
    PlainPut(Mine(db, tx).rows, w.id, now);
    hide Plain, PlainRows, Touched, View, Mine;
  }

  lemma MinePlain(db: Database, plain: Database, tx: Tx)
    requires SameRows(db, plain)
    ensures Mine(plain, tx).rows == PlainRows(Mine(db, tx).rows)
  {
    assert PlainRows(map[]) == map[];
  }

  lemma SameHolders(db: Database, plain: Database, tx: Tx, id: Id)
    requires SameRows(db, plain)
    ensures RowHeld(db, tx, id) <==> RowHeld(plain, tx, id)
  {
    forall u | u in db.open
      ensures id in db.open[u].rows <==> id in plain.open[u].rows
    {
    }
  }

  lemma PlainPut(rows: map<Id, Option<Entry>>, id: Id, now: Table)
    ensures PlainRows(rows[id := if id in now then Some(now[id]) else None])
         == PlainRows(rows)[id := if id in Plain(now) then Some(Plain(now)[id]) else None]
  {
  }

  /** As long as no write would have had to wait for a key, the triggers of 047 leave the same
      rows as the index, in every run of any transactions. */
  lemma {:induction false} TriggersSuffice(table: Table, run: seq<Step>, limit: nat)
    requires Good(table) && limit >= 1 && NoKeyAwaited(table, run, limit)
    ensures SameRows(Run(Index061(limit), Database(table, map[], []), run), Run(Triggers047, Database(Plain(table), map[], []), run))
  {
    if run != [] {
      var front, last := run[..|run| - 1], run[|run| - 1];
      TriggersSuffice(table, front, limit);
      InvRun(table, front, limit);
      var db := Run(Index061(limit), Database(table, map[], []), front);
      var plain := Run(Triggers047, Database(Plain(table), map[], []), front);
      match last
      case Act(tx, w) => SameRowsWrite(table, db, plain, tx, w, limit);
      case Commit(tx) => PlainView(db, plain, tx);
      case Rollback(tx) =>
    }
  }
}
