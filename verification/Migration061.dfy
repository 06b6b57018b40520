/**
 The migration that puts the derived key columns in place and takes them away again:
 upgrade and downgrade of alembic/versions/061_active_key_unique_index.py. Every statement
 looks at the catalog first, so a run that was cut off anywhere can be started again.
 */
module Migration061 {
  import opened Prelude
  import opened ActiveKey

  datatype Event = OnInsert | OnUpdate

  const EVENTS := [OnInsert, OnUpdate]

  /** A reject trigger of 047 or a fill trigger of 061. */
  datatype Trigger = Legacy(event: Event) | Fill(event: Event)

  /** Which of the four triggers of a table exist. */
  datatype Triggers = Triggers(legacyInsert: bool, legacyUpdate: bool, fillInsert: bool, fillUpdate: bool) {
    predicate Has(x: Trigger) {
      match x
      case Legacy(e) => if e.OnInsert? then legacyInsert else legacyUpdate
      case Fill(e) => if e.OnInsert? then fillInsert else fillUpdate
    }

    function Turn(x: Trigger, on: bool): Triggers {
      match x
      case Legacy(e) => if e.OnInsert? then this.(legacyInsert := on) else this.(legacyUpdate := on)
      case Fill(e) => if e.OnInsert? then this.(fillInsert := on) else this.(fillUpdate := on)
    }
  }

  /** One entry of ACTIVE_KEYS: the triggers of the table, whether its active key column and
      the index on it exist, and its rows. */
  datatype TableState = TableState(triggers: Triggers, column: bool, index: bool, rows: Table)

  datatype Step =
    | DropTrigger(trigger: Trigger)
    | CreateTrigger(trigger: Trigger)
    | AddColumn
    | Backfill
    | CreateIndex
    | DropIndex
    | DropColumn

  /** What the backfill writes: every row with the value its other columns call for. */
  function Filling(rows: Table): Table {
    map id | id in rows :: rows[id].(active := Expected(rows[id]))
  }

  /** One guarded statement. `have` is the list of triggers read when the run started. */
  function Effect(table: TableState, have: Triggers, s: Step): TableState {
    match s
    case DropTrigger(x) => if have.Has(x) then table.(triggers := table.triggers.Turn(x, false)) else table
    case CreateTrigger(x) => if have.Has(x) then table else table.(triggers := table.triggers.Turn(x, true))
    case AddColumn => if table.column then table else table.(column := true, rows := Plain(table.rows))
    case Backfill => table.(rows := Filling(table.rows))
    case CreateIndex => if table.index then table else table.(index := true)
    case DropIndex => if table.index then table.(index := false) else table
    case DropColumn => if table.column then table.(column := false, rows := Plain(table.rows)) else table
  }

  /** The statement is sent and the database refuses it: an object that is not there or is
      there already, a row that 047's trigger rejects, or values that are not unique. */
  predicate Raises(table: TableState, have: Triggers, s: Step) {
    match s
    case DropTrigger(x) => have.Has(x) && !table.triggers.Has(x)
    case CreateTrigger(x) => !have.Has(x) && table.triggers.Has(x)
    case AddColumn => false
    case Backfill =>
      || !table.column
      || (table.triggers.legacyUpdate && !UniqueActive(table.rows))
      || (table.index && !IndexHolds(Filling(table.rows)))
    case CreateIndex => !table.index && (!table.column || !IndexHolds(table.rows))
    case DropIndex => false
    case DropColumn => table.column && table.index
  }

  /** The statements of one table, in the order upgrade and downgrade send them. */
  function Steps(up: bool): (steps: seq<Step>)
    ensures |steps| == if up then 7 else 6
  {
    if up then
      [DropTrigger(Legacy(OnInsert)), DropTrigger(Legacy(OnUpdate)), AddColumn, Backfill, CreateIndex,
       CreateTrigger(Fill(OnInsert)), CreateTrigger(Fill(OnUpdate))]
    else
      [DropTrigger(Fill(OnInsert)), DropTrigger(Fill(OnUpdate)), DropIndex, DropColumn,
       CreateTrigger(Legacy(OnInsert)), CreateTrigger(Legacy(OnUpdate))]
  }

  /** The table after the first `k` statements of its part of a run. */
  function Stage(table: TableState, up: bool, k: nat): TableState
    requires k <= |Steps(up)|
  {
    if k == 0 then table else Effect(Stage(table, up, k - 1), table.triggers, Steps(up)[k - 1])
  }

  // ---- Where a whole run ends ----

  /** The table as 061 wants it. */
  function Upgraded(table: TableState): TableState {
    TableState(Triggers(false, false, true, true), true, true, Filling(table.rows))
  }

  /** The table as 060 had it. */
  function Downgraded(table: TableState): TableState {
    TableState(Triggers(true, true, false, false), false, false, Plain(table.rows))
  }

  /** The columns that are NOT NULL are filled, and neither an index nor a value is there
      without the column. */
  ghost predicate Wellformed(table: TableState) {
    && (forall id | id in table.rows :: Filled(table.rows[id]))
    && (!table.column ==> !table.index && table.rows == Plain(table.rows))
  }

  lemma FillingIsKeyed(rows: Table)
    requires forall id | id in rows :: Filled(rows[id])
    ensures Keyed(Filling(rows)) && (IndexHolds(Filling(rows)) <==> UniqueActive(rows))
  {
    hide IndexHolds, UniqueActive;
    KeyedIndex(Filling(rows));
    SameUnique(rows, Filling(rows));
  }

  lemma FillingAndPlain(rows: Table)
    ensures Plain(Filling(rows)) == Plain(rows) == Plain(Plain(rows))
    ensures Filling(Plain(rows)) == Filling(rows) == Filling(Filling(rows))
  {
  }

  lemma SameUnique(a: Table, b: Table)
    requires a.Keys == b.Keys && forall id | id in a :: a[id].key == b[id].key && a[id].deleted == b[id].deleted
    ensures UniqueActive(a) <==> UniqueActive(b)
  {
  }

  /** The stages of an upgrade and of a downgrade, spelled out. */
  function UpgradeStage(table: TableState, k: nat): TableState
    requires k <= 7
  {
    var had := table.triggers;
    TableState(
      Triggers(k < 1 && had.legacyInsert, k < 2 && had.legacyUpdate, k >= 6 || had.fillInsert, k >= 7 || had.fillUpdate),
      k >= 3 || table.column, k >= 5 || table.index,
      if k >= 4 then Filling(table.rows) else if k == 3 && !table.column then Plain(table.rows) else table.rows)
  }

  function DowngradeStage(table: TableState, k: nat): TableState
    requires k <= 6
  {
    var had := table.triggers;
    TableState(
      Triggers(k >= 5 || had.legacyInsert, k >= 6 || had.legacyUpdate, k < 1 && had.fillInsert, k < 2 && had.fillUpdate),
      k < 4 && table.column, k < 3 && table.index,
      if k >= 4 && table.column then Plain(table.rows) else table.rows)
  }

  lemma {:induction false} StagesSpelledOut(table: TableState, up: bool, k: nat)
    requires k <= |Steps(up)|
    ensures Stage(table, up, k) == if up then UpgradeStage(table, k) else DowngradeStage(table, k)
  {
    FillingAndPlain(table.rows);
    hide Plain, Filling;
    if k > 0 {
      StagesSpelledOut(table, up, k - 1);
    }
  }

  /** From any catalog and any values in the column, an upgrade of a table without duplicates
      sends no statement that fails, and ends in the one form 061 wants. */
  lemma UpgradeOfTable(table: TableState)
    requires Wellformed(table) && UniqueActive(table.rows)
    ensures forall k: nat | k < 7 :: !Raises(Stage(table, true, k), table.triggers, Steps(true)[k])
    ensures Stage(table, true, 7) == Upgraded(table)
  {
    var rows := table.rows;
    FillingIsKeyed(rows);
    FillingAndPlain(rows);
    hide Stage, Keyed, UniqueActive, IndexHolds, Plain, Filling;
    forall k: nat | k <= 7 ensures Stage(table, true, k) == UpgradeStage(table, k) {
      StagesSpelledOut(table, true, k);
    }
  }

  lemma DowngradeOfTable(table: TableState)
    requires Wellformed(table)
    ensures forall k: nat | k < 6 :: !Raises(Stage(table, false, k), table.triggers, Steps(false)[k])
    ensures Stage(table, false, 6) == Downgraded(table)
  {
    hide Stage, Plain, Filling, UniqueActive, IndexHolds;
    forall k: nat | k <= 6 ensures Stage(table, false, k) == DowngradeStage(table, k) {
      StagesSpelledOut(table, false, k);
    }
  }

  // ---- All tables ----

  type Database = seq<TableState>

  /** How many of the first `k` statements of a run concern table `i`. */
  function Part(up: bool, k: nat, i: nat): (part: nat)
    ensures part <= |Steps(up)|
  {
    var before := if up then 7 * i else 6 * i;
    if k <= before then 0 else if k - before <= |Steps(up)| then k - before else |Steps(up)|
  }

  /** The database after the first `k` statements of a run: the tables one after another. */
  function Run(db: Database, up: bool, k: nat): Database {
    seq(|db|, i requires 0 <= i < |db| => Stage(db[i], up, Part(up, k, i)))
  }

  function Whole(db: Database, up: bool): nat {
    if up then 7 * |db| else 6 * |db|
  }

  ghost predicate AllWellformed(db: Database) {
    forall i | 0 <= i < |db| :: Wellformed(db[i])
  }

  /** The keys that more than one row that is not deleted has. */
  function DuplicateKeys(rows: Table): set<Option<Key>> {
    set i, j | i in rows && j in rows && i != j
               && rows[i].deleted == Some(0) == rows[j].deleted && rows[i].key == rows[j].key :: rows[i].key
  }

  predicate AnyDuplicates(db: Database) {
    exists i :: 0 <= i < |db| && |DuplicateKeys(db[i].rows)| > 0
  }

  /** The count made before the first statement is zero exactly when keys are unique among
      the rows that are not deleted. */
  lemma CountsDuplicates(rows: Table)
    ensures |DuplicateKeys(rows)| == 0 <==> UniqueActive(rows)
  {
    if DuplicateKeys(rows) == {} {
      forall i, j | i in rows && j in rows && i != j && rows[i].deleted == Some(0) && rows[j].deleted == Some(0)
        ensures rows[i].key != rows[j].key
      {
        assert rows[i].key !in DuplicateKeys(rows);
      }
    } else {
      var key :| key in DuplicateKeys(rows);
      assert !UniqueActive(rows);
    }
  }

  /** One attempt, cut off after `k` statements. An upgrade counts duplicates first. */
  function Attempt(db: Database, up: bool, k: nat): Database {
    if up && AnyDuplicates(db) then db else Run(db, up, k)
  }

  /** The columns that are not derived are the same. */
  ghost predicate SameData(a: Database, b: Database) {
    |a| == |b| && forall i | 0 <= i < |a| :: Plain(a[i].rows) == Plain(b[i].rows)
  }

  lemma StageKeepsData(table: TableState, up: bool, k: nat)
    requires Wellformed(table) && k <= |Steps(up)|
    ensures Wellformed(Stage(table, up, k)) && Plain(Stage(table, up, k).rows) == Plain(table.rows)
  {
    StagesSpelledOut(table, up, k);
    FillingAndPlain(table.rows);
    hide Stage;
  }

  /** An attempt, cut off anywhere, changes nothing but the derived column. */
  lemma AttemptKeepsData(db: Database, up: bool, k: nat)
    requires AllWellformed(db)
    ensures AllWellformed(Attempt(db, up, k)) && SameData(Attempt(db, up, k), db)
  {
    hide Wellformed, Stage, Plain, AnyDuplicates;
    forall i | 0 <= i < |db|
      ensures Wellformed(Run(db, up, k)[i]) && Plain(Run(db, up, k)[i].rows) == Plain(db[i].rows)
    {
      StageKeepsData(db[i], up, Part(up, k, i));
    }
  }

  lemma SameDuplicates(a: Database, b: Database)
    requires SameData(a, b)
    ensures AnyDuplicates(a) <==> AnyDuplicates(b)
  {
    forall i | 0 <= i < |a| ensures |DuplicateKeys(a[i].rows)| > 0 <==> |DuplicateKeys(b[i].rows)| > 0 {
      CountsDuplicates(a[i].rows);
      CountsDuplicates(b[i].rows);
      SamePlainUnique(a[i].rows, b[i].rows);
    }
  }

  lemma SamePlainUnique(a: Table, b: Table)
    requires Plain(a) == Plain(b)
    ensures UniqueActive(a) <==> UniqueActive(b)
  {
    SameUnique(a, Plain(a));
    SameUnique(b, Plain(b));
  }

  /** A whole upgrade sends no statement that fails and ends in 061's form, whatever the
      catalog and the derived column held before. */
  lemma WholeUpgrade(db: Database)
    requires AllWellformed(db) && !AnyDuplicates(db)
    ensures |Run(db, true, Whole(db, true))| == |db|
    ensures forall i | 0 <= i < |db| :: Run(db, true, Whole(db, true))[i] == Upgraded(db[i])
    ensures forall i, k: nat | 0 <= i < |db| && k < 7 :: !Raises(Stage(db[i], true, k), db[i].triggers, Steps(true)[k])
  {
    hide Stage, Wellformed, UniqueActive, DuplicateKeys, Upgraded, Raises;
    forall i | 0 <= i < |db|
      ensures Part(true, Whole(db, true), i) == 7 && Stage(db[i], true, 7) == Upgraded(db[i])
      ensures forall k: nat | k < 7 :: !Raises(Stage(db[i], true, k), db[i].triggers, Steps(true)[k])
    {
      CountsDuplicates(db[i].rows);
      UpgradeOfTable(db[i]);
    }
  }

  lemma WholeDowngrade(db: Database)
    requires AllWellformed(db)
    ensures |Run(db, false, Whole(db, false))| == |db|
    ensures forall i | 0 <= i < |db| :: Run(db, false, Whole(db, false))[i] == Downgraded(db[i])
    ensures forall i, k: nat | 0 <= i < |db| && k < 6 :: !Raises(Stage(db[i], false, k), db[i].triggers, Steps(false)[k])
  {
    hide Stage, Wellformed, Downgraded, Raises;
    forall i | 0 <= i < |db|
      ensures Part(false, Whole(db, false), i) == 6 && Stage(db[i], false, 6) == Downgraded(db[i])
      ensures forall k: nat | k < 6 :: !Raises(Stage(db[i], false, k), db[i].triggers, Steps(false)[k])
    {
      DowngradeOfTable(db[i]);
    }
  }

  /** Any number of attempts, each an upgrade or a downgrade and each cut off somewhere. */
  function Attempts(db: Database, runs: seq<(bool, nat)>): Database {
    if runs == [] then db else Attempt(Attempts(db, runs[..|runs| - 1]), runs[|runs| - 1].0, runs[|runs| - 1].1)
  }

  lemma {:induction false} AttemptsKeepData(db: Database, runs: seq<(bool, nat)>)
    requires AllWellformed(db)
    ensures AllWellformed(Attempts(db, runs)) && SameData(Attempts(db, runs), db)
  {
    hide AllWellformed, Attempt;
    if runs != [] {
      AttemptsKeepData(db, runs[..|runs| - 1]);
      AttemptKeepsData(Attempts(db, runs[..|runs| - 1]), runs[|runs| - 1].0, runs[|runs| - 1].1);
    }
  }

  /** Whatever attempts were cut off before, the upgrade that runs to its end leaves what one
      uninterrupted upgrade leaves: the same triggers, column, index and values. With
      duplicates, no upgrade changes anything. */
  lemma Resumable(db: Database, runs: seq<(bool, nat)>)
    requires AllWellformed(db)
    ensures var cut := Attempts(db, runs);
      if AnyDuplicates(db) then forall k: nat :: Attempt(cut, true, k) == cut
      else Attempt(cut, true, Whole(cut, true)) == Attempt(db, true, Whole(db, true))
  {
    var cut := Attempts(db, runs);
    AttemptsKeepData(db, runs);
    SameDuplicates(cut, db);
    if !AnyDuplicates(db) {
      WholeUpgrade(db);
      WholeUpgrade(cut);
      forall i | 0 <= i < |db| ensures Upgraded(cut[i]) == Upgraded(db[i]) {
        FillingAndPlain(cut[i].rows);
        FillingAndPlain(db[i].rows);
      }
    }
  }

  /** A downgrade takes back exactly what the upgrade did to a database in 060's form. */
  lemma DowngradeUndoesUpgrade(db: Database)
    requires AllWellformed(db) && !AnyDuplicates(db)
    requires forall i | 0 <= i < |db| :: !db[i].column && db[i].triggers == Triggers(true, true, false, false)
    ensures var up := Attempt(db, true, Whole(db, true)); Attempt(up, false, Whole(up, false)) == db
  {
    var up := Attempt(db, true, Whole(db, true));
    WholeUpgrade(db);
    AttemptKeepsData(db, true, Whole(db, true));
    WholeDowngrade(up);
    forall i | 0 <= i < |db| ensures Downgraded(Upgraded(db[i])) == db[i] {
      FillingAndPlain(db[i].rows);
    }
  }

  /** After the upgrade, every run of writes does to the rows of a table what it would have
      done under 047's triggers. */
  lemma UpgradeKeepsTheRule(db: Database, i: nat, run: seq<Write>, limit: nat)
    requires AllWellformed(db) && !AnyDuplicates(db) && i < |db| && limit >= 1
    ensures i < |Attempt(db, true, Whole(db, true))|
    ensures var rows := Attempt(db, true, Whole(db, true))[i].rows;
      Keyed(rows) && IndexHolds(rows) && Plain(Run061(rows, run, limit)) == Run047(Plain(db[i].rows), run)
  {
    WholeUpgrade(db);
    CountsDuplicates(db[i].rows);
    FillingIsKeyed(db[i].rows);
    FillingAndPlain(db[i].rows);
    SameRuns(Filling(db[i].rows), run, limit);
  }

  // ---- The migration as it runs ----

  lemma StageNext(table: TableState, up: bool, k: nat, next: nat)
    requires k < |Steps(up)| && next == k + 1
    ensures Stage(table, up, next) == Effect(Stage(table, up, k), table.triggers, Steps(up)[k])
  {
  }

  lemma PutTwice(db: Database, t: nat, a: TableState, b: TableState)
    requires t < |db|
    ensures db[t := a][t := b] == db[t := b]
  {
  }

  /** `now` is `db` with the tables before `t` done. */
  ghost predicate TablesDone(now: Database, db: Database, up: bool, t: nat) {
    |now| == |db| && forall i | 0 <= i < |db| :: now[i] == if i < t then Stage(db[i], up, |Steps(up)|) else db[i]
  }

  lemma StageZero(table: TableState, up: bool)
    ensures Stage(table, up, 0) == table
  {
  }

  /** A run that was cut off in table `t`, or that did all tables. */
  lemma DoneIsRun(now: Database, db: Database, up: bool, t: nat, part: nat, k: nat)
    requires TablesDone(now, db, up, t) && t <= |db| && part <= |Steps(up)|
    requires t == |db| ==> k >= Whole(db, up)
    requires t < |db| ==> k == (if up then 7 * t else 6 * t) + part
    ensures (if t == |db| then now else now[t := Stage(db[t], up, part)]) == Run(db, up, k)
  {
    forall i | 0 <= i < |db|
      ensures Part(up, k, i) == if i < t then |Steps(up)| else if i == t then part else 0
      ensures Stage(db[i], up, 0) == db[i]
    {
      StageZero(db[i], up);
    }
    hide Stage, Part;
  }

  datatype Outcome = Finished | Cut | Duplicates

  class Migration {
    var db: Database

    constructor (db: Database)
      ensures this.db == db
    {
      this.db := db;
    }

    /** drop_trigger and create_trigger: only what the list read at the start calls for. */
    method DropTrigger(t: nat, x: Trigger, existing: Triggers)
      requires t < |db| && !Raises(db[t], existing, Step.DropTrigger(x))
      modifies this
      ensures db == old(db)[t := Effect(old(db)[t], existing, Step.DropTrigger(x))]
    {
      if existing.Has(x) {
        db := db[t := db[t].(triggers := db[t].triggers.Turn(x, false))];
      }
    }

    method CreateTrigger(t: nat, x: Trigger, existing: Triggers)
      requires t < |db| && !Raises(db[t], existing, Step.CreateTrigger(x))
      modifies this
      ensures db == old(db)[t := Effect(old(db)[t], existing, Step.CreateTrigger(x))]
    {
      if !existing.Has(x) {
        db := db[t := db[t].(triggers := db[t].triggers.Turn(x, true))];
      }
    }

    /** The statements that look at the catalog themselves. */
    method Execute(t: nat, s: Step, ghost existing: Triggers)
      requires t < |db| && !s.DropTrigger? && !s.CreateTrigger? && !Raises(db[t], existing, s)
      modifies this
      ensures db == old(db)[t := Effect(old(db)[t], existing, s)]
    {
      var table := db[t];
      match s {
        case AddColumn =>
          if !table.column {
            db := db[t := table.(column := true, rows := Plain(table.rows))];
          }
        case Backfill =>
          db := db[t := table.(rows := Filling(table.rows))];
        case CreateIndex =>
          if !table.index {
            db := db[t := table.(index := true)];
          }
        case DropIndex =>
          if table.index {
            db := db[t := table.(index := false)];
          }
        case DropColumn =>
          if table.column {
            db := db[t := table.(column := false, rows := Plain(table.rows))];
          }
      }
    }

    /** The part of upgrade that concerns one table, as far as `left` statements reach. */
    method UpgradeTable(t: nat, existing: Triggers, left: nat) returns (used: nat)
      requires t < |db| && existing == db[t].triggers
      requires forall k: nat | k < 7 :: !Raises(Stage(db[t], true, k), existing, Steps(true)[k])
      modifies this
      ensures used == if left < 7 then left else 7
      ensures db == old(db)[t := Stage(old(db)[t], true, used)]
    {
      ghost var was := db;
      StageZero(was[t], true);
      hide Stage, Raises, Effect;
      for e := 0 to |EVENTS|
        invariant |db| == |was| && e <= left && db == was[t := Stage(was[t], true, e)]
      {
        if left == e {
          return e;
        }
        StageNext(was[t], true, e, e + 1);
        PutTwice(was, t, Stage(was[t], true, e), Stage(was[t], true, e + 1));
        DropTrigger(t, Legacy(EVENTS[e]), existing);
      }
      if left == 2 {
        return 2;
      }
      StageNext(was[t], true, 2, 3);
      PutTwice(was, t, Stage(was[t], true, 2), Stage(was[t], true, 3));
      Execute(t, AddColumn, existing);
      if left == 3 {
        return 3;
      }
      StageNext(was[t], true, 3, 4);
      PutTwice(was, t, Stage(was[t], true, 3), Stage(was[t], true, 4));
      Execute(t, Backfill, existing);
      if left == 4 {
        return 4;
      }
      StageNext(was[t], true, 4, 5);
      PutTwice(was, t, Stage(was[t], true, 4), Stage(was[t], true, 5));
      Execute(t, CreateIndex, existing);
      for e := 0 to |EVENTS|
        invariant |db| == |was| && 5 + e <= left && db == was[t := Stage(was[t], true, 5 + e)]
      {
        if left == 5 + e {
          return 5 + e;
        }
        StageNext(was[t], true, 5 + e, 5 + e + 1);
        PutTwice(was, t, Stage(was[t], true, 5 + e), Stage(was[t], true, 5 + e + 1));
        CreateTrigger(t, Fill(EVENTS[e]), existing);
      }
      return 7;
    }

    /** The same for downgrade. */
    method DowngradeTable(t: nat, existing: Triggers, left: nat) returns (used: nat)
      requires t < |db| && existing == db[t].triggers
      requires forall k: nat | k < 6 :: !Raises(Stage(db[t], false, k), existing, Steps(false)[k])
      modifies this
      ensures used == if left < 6 then left else 6
      ensures db == old(db)[t := Stage(old(db)[t], false, used)]
    {
      ghost var was := db;
      StageZero(was[t], false);
      hide Stage, Raises, Effect;
      for e := 0 to |EVENTS|
        invariant |db| == |was| && e <= left && db == was[t := Stage(was[t], false, e)]
      {
        if left == e {
          return e;
        }
        StageNext(was[t], false, e, e + 1);
        PutTwice(was, t, Stage(was[t], false, e), Stage(was[t], false, e + 1));
        DropTrigger(t, Fill(EVENTS[e]), existing);
      }
      if left == 2 {
        return 2;
      }
      StageNext(was[t], false, 2, 3);
      PutTwice(was, t, Stage(was[t], false, 2), Stage(was[t], false, 3));
      Execute(t, DropIndex, existing);
      if left == 3 {
        return 3;
      }
      StageNext(was[t], false, 3, 4);
      PutTwice(was, t, Stage(was[t], false, 3), Stage(was[t], false, 4));
      Execute(t, DropColumn, existing);
      for e := 0 to |EVENTS|
        invariant |db| == |was| && 4 + e <= left && db == was[t := Stage(was[t], false, 4 + e)]
      {
        if left == 4 + e {
          return 4 + e;
        }
        StageNext(was[t], false, 4 + e, 4 + e + 1);
        PutTwice(was, t, Stage(was[t], false, 4 + e), Stage(was[t], false, 4 + e + 1));
        CreateTrigger(t, Legacy(EVENTS[e]), existing);
      }
      return 6;
    }

    /** upgrade, on a connection that is lost after `stopAfter` guarded statements. */
    method Upgrade(stopAfter: nat) returns (outcome: Outcome)
      requires AllWellformed(db)
      modifies this
      ensures db == Attempt(old(db), true, stopAfter)
      ensures outcome == if AnyDuplicates(old(db)) then Duplicates else if stopAfter < Whole(old(db), true) then Cut else Finished
    {
      ghost var was := db;
      if AnyDuplicates(db) {
        return Duplicates;
      }
      hide Stage, AllWellformed, AnyDuplicates, Raises, Run;
      WholeUpgrade(was);
      var have := seq(|db|, i requires 0 <= i < |db| reads this => db[i].triggers);
      var t, left := 0, stopAfter;
      while t < |db|
        invariant t <= |db| == |was| && left == stopAfter - 7 * t
        invariant TablesDone(db, was, true, t)
      {
        ghost var now := db;
        var used := UpgradeTable(t, have[t], left);
        if used < 7 {
          DoneIsRun(now, was, true, t, used, stopAfter);
          return Cut;
        }
        left := left - used;
        t := t + 1;
      }
      DoneIsRun(db, was, true, t, 0, stopAfter);
      return Finished;
    }

    /** downgrade, in the same way. */
    method Downgrade(stopAfter: nat) returns (outcome: Outcome)
      requires AllWellformed(db)
      modifies this
      ensures db == Attempt(old(db), false, stopAfter)
      ensures outcome == if stopAfter < Whole(old(db), false) then Cut else Finished
    {
      ghost var was := db;
      hide Stage, AllWellformed, AnyDuplicates, Raises, Run;
      WholeDowngrade(was);
      var have := seq(|db|, i requires 0 <= i < |db| reads this => db[i].triggers);
      var t, left := 0, stopAfter;
      while t < |db|
        invariant t <= |db| == |was| && left == stopAfter - 6 * t
        invariant TablesDone(db, was, false, t)
      {
        ghost var now := db;
        var used := DowngradeTable(t, have[t], left);
        if used < 6 {
          DoneIsRun(now, was, false, t, used, stopAfter);
          return Cut;
        }
        left := left - used;
        t := t + 1;
      }
      DoneIsRun(db, was, false, t, 0, stopAfter);
      return Finished;
    }
  }
}
