/**
 "Unique among the rows that are not deleted", twice: as the reject triggers of
 alembic/versions/047_soft_delete_partial_unique.py, and as the derived column, unique
 index and fill triggers of alembic/versions/061_active_key_unique_index.py.
 */
module ActiveKey {
  import opened Prelude
  import opened Sql

  type Id = nat
  type Key = int

  /** A row: the key column (imo_number, email), is_deleted, and the active key column. */
  datatype Entry = Entry(key: Option<Key>, deleted: Option<int>, active: Option<Key>)

  type Table = map<Id, Entry>

  /** The key column and is_deleted are NOT NULL. */
  predicate Filled(e: Entry) {
    e.key.Some? && e.deleted.Some?
  }

  /** A single-row write that does not mention the active key column. */
  datatype Write =
    | Insert(id: Id, key: Option<Key>, deleted: Option<int>)
    | Update(id: Id, key: Option<Key>, deleted: Option<int>)
    | Delete(id: Id)

  // ---- 047: reject triggers ----

  /** `t.key = new.key AND t.is_deleted = 0 AND t.id <> new.id` for one row of the table. */
  function ClashT(other: Entry, otherId: Id, id: Id, key: Option<Key>): Truth {
    AndT(AndT(EqualT(other.key, key), EqualT(other.deleted, Some(0))), Bool(otherId != id))
  }

  /** `new.is_deleted <> 0 OR NOT EXISTS (…)`; EXISTS is true or false, never unknown. */
  function LegacyCondition(table: Table, id: Id, key: Option<Key>, deleted: Option<int>): Truth {
    OrT(NotT(EqualT(deleted, Some(0))),
        Bool(!exists other | other in table :: ClashT(table[other], other, id, key).True?))
  }

  /** The write under 047; None is a rejected write. */
  function Execute047(table: Table, w: Write): Option<Table> {
    match w
    case Delete(id) => if id in table then Some(table - {id}) else None
    case Insert(id, key, deleted) =>
      if id in table || key.None? || deleted.None? || NotT(LegacyCondition(table, id, key, deleted)).True? then None
      else Some(table[id := Entry(key, deleted, None)])
    case Update(id, key, deleted) =>
      if id !in table || key.None? || deleted.None? || NotT(LegacyCondition(table, id, key, deleted)).True? then None
      else Some(table[id := Entry(key, deleted, table[id].active)])
  }

  // ---- 061: derived column, unique index, fill triggers ----

  /** `CASE WHEN is_deleted = 0 THEN key ELSE NULL END` */
  function Expected(e: Entry): Option<Key> {
    if EqualT(e.deleted, Some(0)).True? then e.key else None
  }

  /** `(is_deleted = 0 AND (active IS NULL OR active <> key)) OR (is_deleted <> 0 AND active IS NOT NULL)` */
  function NeedsFill(e: Entry): Truth {
    OrT(AndT(EqualT(e.deleted, Some(0)), OrT(Bool(e.active.None?), NotT(EqualT(e.active, e.key)))),
        AndT(NotT(EqualT(e.deleted, Some(0))), Bool(e.active.Some?)))
  }

  /** A unique index allows any number of NULLs and every other value once. */
  predicate IndexHolds(table: Table) {
    forall i, j | i in table && j in table && i != j :: table[i].active.Some? ==> table[i].active != table[j].active
  }

  /** What the fill triggers come to. */
  datatype Settled = Done(table: Table, selfUpdates: nat) | Violation | TooDeep

  /** The AFTER trigger on row `id`: while the value is wrong, update the row itself, which
      fires the trigger again - nested at most `limit` deep. */
  function Settle(table: Table, id: Id, limit: nat, selfUpdates: nat): Settled
    requires id in table
    decreases limit
  {
    if !NeedsFill(table[id]).True? then Done(table, selfUpdates)
    else if limit == 0 then TooDeep
    else
      var filled := table[id := table[id].(active := Expected(table[id]))];
      if IndexHolds(filled) then Settle(filled, id, limit - 1, selfUpdates + 1) else Violation
  }

  /** A stored row, then its fill triggers; any error undoes the whole statement. */
  function Store(table: Table, id: Id, e: Entry, limit: nat): Option<Table> {
    var stored := table[id := e];
    if !Filled(e) || !IndexHolds(stored) then None else
    match Settle(stored, id, limit, 0)
    case Done(t, _) => Some(t)
    case _ => None
  }

  /** The write under 061; None is a rejected write. */
  function Execute061(table: Table, w: Write, limit: nat): Option<Table> {
    match w
    case Delete(id) => if id in table then Some(table - {id}) else None
    case Insert(id, key, deleted) => if id in table then None else Store(table, id, Entry(key, deleted, None), limit)
    case Update(id, key, deleted) =>
      if id !in table then None else Store(table, id, Entry(key, deleted, table[id].active), limit)
  }

  // ---- What holds after every write ----

  /** The active key column is the key of a row that is not deleted, and NULL otherwise. */
  ghost predicate Keyed(table: Table) {
    forall id | id in table ::
      Filled(table[id]) && table[id].active == if table[id].deleted == Some(0) then table[id].key else None
  }

  /** No two rows that are not deleted have the same key. */
  predicate UniqueActive(table: Table) {
    forall i, j | i in table && j in table && i != j ::
      table[i].deleted == Some(0) && table[j].deleted == Some(0) ==> table[i].key != table[j].key
  }

  lemma KeyedIndex(table: Table)
    requires Keyed(table)
    ensures IndexHolds(table) <==> UniqueActive(table)
  {
    if IndexHolds(table) {
      forall i, j | i in table && j in table && i != j && table[i].deleted == Some(0) && table[j].deleted == Some(0)
        ensures table[i].key != table[j].key
      {
        assert table[i].active == table[i].key && table[j].active == table[j].key;
      }
    }
  }

  /** The table as 047 sees it: without the active key column. */
  function Plain(table: Table): Table {
    map id | id in table :: table[id].(active := None)
  }

  /** 047 rejects a row that is not deleted exactly when another such row has its key. */
  predicate Clashes(table: Table, id: Id, e: Entry) {
    && e.deleted == Some(0)
    && exists other | other in table :: other != id && table[other].deleted == Some(0) && table[other].key == e.key
  }

  lemma LegacyRejects(table: Table, id: Id, e: Entry)
    requires Filled(e) && forall i | i in table :: Filled(table[i])
    ensures NotT(LegacyCondition(table, id, e.key, e.deleted)).True? <==> Clashes(table, id, e)
  {
    forall other | other in table
      ensures ClashT(table[other], other, id, e.key).True?
         <==> other != id && table[other].deleted == Some(0) && table[other].key == e.key
    {
    }
  }

  /** The fill triggers stop after at most one self-update, whatever the nesting limit, and
      fail exactly on a key that another row holds. */
  lemma SettlesAtOnce(table: Table, id: Id, e: Entry, limit: nat)
    requires Keyed(table) && IndexHolds(table) && Filled(e) && limit >= 1
    requires e.active == (if id in table then table[id].active else None)
    ensures IndexHolds(table[id := e])
    ensures var settled := Settle(table[id := e], id, limit, 0);
      if Clashes(table, id, e) then settled == Violation
      else settled.Done? && settled.selfUpdates <= 1 && settled.table == table[id := e.(active := Expected(e))]
           && Keyed(settled.table) && IndexHolds(settled.table)
  {
    var stored := table[id := e];
    StoredKeepsIndex(table, id, e);
    var f := e.(active := Expected(e));
    var filled := stored[id := f];
    assert filled == table[id := f];
    FilledIndex(table, id, f);
    if NeedsFill(e).True? {
      assert stored[id] == e;
      assert !NeedsFill(f).True?;
      assert Settle(stored, id, limit, 0) == if IndexHolds(filled) then Settle(filled, id, limit - 1, 1) else Violation;
    } else {
      RightValue(e);
      assert filled == stored;
    }
  }

  lemma RightValue(e: Entry)
    requires Filled(e)
    ensures NeedsFill(e).True? <==> e.active != Expected(e)
  {
  }

  lemma StoredKeepsIndex(table: Table, id: Id, e: Entry)
    requires IndexHolds(table) && e.active == (if id in table then table[id].active else None)
    ensures IndexHolds(table[id := e])
  {
  }

  /** With the right value in it, the row fits the index exactly when 047 lets it pass. */
  lemma FilledIndex(table: Table, id: Id, f: Entry)
    requires Keyed(table) && IndexHolds(table) && Filled(f) && f.active == Expected(f)
    ensures Keyed(table[id := f])
    ensures IndexHolds(table[id := f]) <==> !Clashes(table, id, f)
  {
    var now := table[id := f];
    if Clashes(table, id, f) {
      var other :| other in table && other != id && table[other].deleted == Some(0) && table[other].key == f.key;
      assert now[other].active == now[id].active;
    } else {
      forall i, j | i in now && j in now && i != j && now[i].active.Some?
        ensures now[i].active != now[j].active
      {
        if i == id {
          assert now[j].active == Expected(now[j]);
        } else if j == id {
          assert now[i].active == Expected(now[i]);
        }
      }
    }
  }

  /** 047's table holds the same rows, so a write that stores a row leaves the same rows. */
  lemma PlainStore(table: Table, id: Id, e: Entry, f: Entry)
    requires f == e.(active := f.active)
    ensures Plain(table[id := f]) == Plain(table)[id := e.(active := None)]
  {
  }

  lemma SameStore(table: Table, id: Id, e: Entry, limit: nat)
    requires Keyed(table) && IndexHolds(table) && limit >= 1
    requires e.active == (if id in table then table[id].active else None)
    ensures Store(table, id, e, limit).Some? <==> Filled(e) && !Clashes(table, id, e)
    ensures Store(table, id, e, limit).Some? ==>
      var f := e.(active := Expected(e));
      Store(table, id, e, limit).value == table[id := f] && Keyed(table[id := f]) && IndexHolds(table[id := f])
  {
    if Filled(e) {
      SettlesAtOnce(table, id, e, limit);
    }
    hide Settle, Keyed, Expected, Clashes, IndexHolds;
  }

  /** One write: 061 accepts exactly what 047 accepts, changes the same columns in the same
      way, and keeps the derived column right. */
  lemma SameWrite(table: Table, w: Write, limit: nat)
    requires Keyed(table) && IndexHolds(table) && limit >= 1
    ensures Execute061(table, w, limit).Some? <==> Execute047(Plain(table), w).Some?
    ensures Execute061(table, w, limit).Some? ==>
      && Keyed(Execute061(table, w, limit).value) && IndexHolds(Execute061(table, w, limit).value)
      && Plain(Execute061(table, w, limit).value) == Execute047(Plain(table), w).value
  {
    if w.Delete? {
      assert Plain(table - {w.id}) == Plain(table) - {w.id};
    } else {
      hide Settle, Store, Keyed, Expected, LegacyCondition, IndexHolds, NotT;
      var e := Entry(w.key, w.deleted, if w.id in table then table[w.id].active else None);
      var f := e.(active := Expected(e));
      assert w.id in Plain(table) <==> w.id in table;
      SameStore(table, w.id, e, limit);
      PlainStore(table, w.id, e, f);
      if Filled(e) {
        PlainFilled(table);
        LegacyRejects(Plain(table), w.id, e);
        PlainClash(table, w.id, e);
      }
      hide Plain, Clashes;
    }
  }

  /** No other row that is not deleted has the key. */
  predicate Free(table: Table, id: Id, key: Option<Key>) {
    forall other | other in table && other != id :: table[other].deleted != Some(0) || table[other].key != key
  }

  /** What every write does under 061: which ones are accepted, and the rows they leave. */
  lemma WriteUnderIndex(table: Table, w: Write, limit: nat)
    requires Keyed(table) && IndexHolds(table) && limit >= 1
    ensures Execute061(table, w, limit)
         == if w.Delete? then
              if w.id in table then Some(table - {w.id}) else None
            else if w.key.Some? && w.deleted.Some? && (w.id in table <==> w.Update?)
                    && (w.deleted == Some(0) ==> Free(table, w.id, w.key)) then
              Some(table[w.id := Entry(w.key, w.deleted, if w.deleted == Some(0) then w.key else None)])
            else None
  {
    if !w.Delete? {
      var e := Entry(w.key, w.deleted, if w.id in table then table[w.id].active else None);
      SameStore(table, w.id, e, limit);
      hide Store, Keyed, IndexHolds;
    }
  }

  /** And under 047. */
  lemma WriteUnderTriggers(table: Table, w: Write)
    requires forall i | i in table :: Filled(table[i])
    ensures Execute047(table, w)
         == if w.Delete? then
              if w.id in table then Some(table - {w.id}) else None
            else if w.key.Some? && w.deleted.Some? && (w.id in table <==> w.Update?)
                    && (w.deleted == Some(0) ==> Free(table, w.id, w.key)) then
              Some(table[w.id := Entry(w.key, w.deleted, if w.id in table then table[w.id].active else None)])
            else None
  {
    if !w.Delete? && w.key.Some? && w.deleted.Some? {
      LegacyRejects(table, w.id, Entry(w.key, w.deleted, None));
      hide LegacyCondition;
    }
  }

  lemma PlainFilled(table: Table)
    requires Keyed(table)
    ensures forall i | i in Plain(table) :: Filled(Plain(table)[i])
  {
  }

  lemma PlainClash(table: Table, id: Id, e: Entry)
    ensures Clashes(Plain(table), id, e) <==> Clashes(table, id, e)
  {
    if Clashes(table, id, e) {
      var other :| other in table && other != id && table[other].deleted == Some(0) && table[other].key == e.key;
      assert other in Plain(table);
    }
  }

  // ---- Over every run ----

  function Run047(table: Table, run: seq<Write>): Table {
    if run == [] then table else
    var t := Run047(table, run[..|run| - 1]);
    match Execute047(t, run[|run| - 1]) case Some(next) => next case None => t
  }

  function Run061(table: Table, run: seq<Write>, limit: nat): Table {
    if run == [] then table else
    var t := Run061(table, run[..|run| - 1], limit);
    match Execute061(t, run[|run| - 1], limit) case Some(next) => next case None => t
  }

  /** Over every run of writes, the index and its fill triggers do what the reject triggers
      did: the same rows result, the derived column is right after each write, and keys of
      rows that are not deleted stay unique. */
  lemma {:induction false} SameRuns(table: Table, run: seq<Write>, limit: nat)
    requires Keyed(table) && IndexHolds(table) && limit >= 1
    ensures Keyed(Run061(table, run, limit)) && IndexHolds(Run061(table, run, limit)) && UniqueActive(Run061(table, run, limit))
    ensures Plain(Run061(table, run, limit)) == Run047(Plain(table), run)
  {
    if run != [] {
      var front := run[..|run| - 1];
      SameRuns(table, front, limit);
      SameWrite(Run061(table, front, limit), run[|run| - 1], limit);
    }
    KeyedIndex(Run061(table, run, limit));
  }

  /** The NOT NULL constraint on the key column is what makes the triggers stop: on a row
      that is not deleted and whose key were NULL, they would not stop at any depth. */
  lemma {:induction false} NullKeyNeverSettles(table: Table, id: Id, limit: nat, selfUpdates: nat)
    requires id in table && table[id].deleted == Some(0) && table[id].key == None && table[id].active == None
    requires IndexHolds(table)
    ensures Settle(table, id, limit, selfUpdates) == TooDeep
    decreases limit
  {
    assert table[id := table[id].(active := None)] == table;
    if limit > 0 {
      NullKeyNeverSettles(table, id, limit - 1, selfUpdates + 1);
    }
  }
}
