/**
 The immutability guard of stored calculation runs
 (alembic/versions/a7d3e9b14f26_restore_constraints_as_triggers.py and
 alembic/versions/051_immutable_update_null_safe.py): the only change a stored run may see
 is its recalculation flag going from 0 to 1.
 */
module Immutable {
  import opened Prelude
  import opened Sql

  const NEEDS_RECALC: Column := "needs_recalc"

  /** The columns that must not change, split by whether they may be NULL. */
  datatype Frozen = Frozen(notNull: seq<Column>, nullable: seq<Column>)

  const CALCULATION_RUN: Frozen := Frozen(
    ["id", "calculation_type", "vessel_id", "input_hash", "parameter_hash", "model_version", "result_json",
     "parameters_used", "created_at"],
    ["voyage_id", "weather_snapshot_id", "warnings_json", "duration_ms"])

  /** The comparison of the first revision. */
  function Unchanged(c: Column, nullable: bool): Condition {
    var same := Equal(New(c), Obj(c));
    if !nullable then same else Or(same, And(IsNull(New(c)), IsNull(Obj(c))))
  }

  /** The comparison of revision 051, with the NULL cases written out. */
  function Same(c: Column, nullable: bool): Condition {
    if !nullable then Equal(New(c), Obj(c))
    else Or(And(IsNull(New(c)), IsNull(Obj(c))), And(And(IsNotNull(New(c)), IsNotNull(Obj(c))), Equal(New(c), Obj(c))))
  }

  function Flip(): seq<Condition> {
    [Equal(New(NEEDS_RECALC), Literal(1)), Equal(Obj(NEEDS_RECALC), Literal(0))]
  }

  function Parts(frozen: Frozen, compare: (Column, bool) -> Condition): (parts: seq<Condition>)
    ensures |parts| == 2 + |frozen.notNull| + |frozen.nullable|
  {
    Flip()
    + seq(|frozen.notNull|, i requires 0 <= i < |frozen.notNull| => compare(frozen.notNull[i], false))
    + seq(|frozen.nullable|, i requires 0 <= i < |frozen.nullable| => compare(frozen.nullable[i], true))
  }

  function LegacyCondition(frozen: Frozen): Condition {
    Joined(Parts(frozen, Unchanged))
  }

  function NullSafeCondition(frozen: Frozen): Condition {
    Joined(Parts(frozen, Same))
  }

  /** The schema's NOT NULL columns are filled. */
  predicate Filled(frozen: Frozen, row: Row) {
    Field(row, NEEDS_RECALC).Some? && forall c | c in frozen.notNull :: Field(row, c).Some?
  }

  predicate FlagRaised(now: Row, before: Row) {
    Field(before, NEEDS_RECALC) == Some(0) && Field(now, NEEDS_RECALC) == Some(1)
  }

  predicate OneSideNull(now: Row, before: Row, c: Column) {
    Field(now, c).None? != Field(before, c).None?
  }

  predicate SameIn(now: Row, before: Row, columns: seq<Column>) {
    forall c | c in columns :: Field(now, c) == Field(before, c)
  }

  /** A conjunction of parts is admitted when no part is false. */
  lemma AdmittedParts(parts: seq<Condition>, now: Row, before: Row)
    requires parts != []
    ensures Admitted(Joined(parts), now, before) <==> forall k | 0 <= k < |parts| :: !Eval(parts[k], now, before).False?
  {
    JoinedTruth(parts, now, before);
  }

  /** Each part of the list stands for the flag or for one column. */
  lemma PartsByColumn(frozen: Frozen, compare: (Column, bool) -> Condition, now: Row, before: Row)
    ensures (forall k | 0 <= k < |Parts(frozen, compare)| :: !Eval(Parts(frozen, compare)[k], now, before).False?)
       <==> !Eval(Flip()[0], now, before).False? && !Eval(Flip()[1], now, before).False?
            && (forall c | c in frozen.notNull :: !Eval(compare(c, false), now, before).False?)
            && (forall c | c in frozen.nullable :: !Eval(compare(c, true), now, before).False?)
  {
    var parts, n := Parts(frozen, compare), |frozen.notNull|;
    assert parts[0] == Flip()[0] && parts[1] == Flip()[1];
    assert forall i | 0 <= i < n :: parts[2 + i] == compare(frozen.notNull[i], false);
    assert forall i | 0 <= i < |frozen.nullable| :: parts[2 + n + i] == compare(frozen.nullable[i], true);
    if forall k | 0 <= k < |parts| :: !Eval(parts[k], now, before).False? {
      forall c | c in frozen.notNull
        ensures !Eval(compare(c, false), now, before).False?
      {
        var i :| 0 <= i < n && frozen.notNull[i] == c;
        assert parts[2 + i] == compare(c, false);
      }
      forall c | c in frozen.nullable
        ensures !Eval(compare(c, true), now, before).False?
      {
        var i :| 0 <= i < |frozen.nullable| && frozen.nullable[i] == c;
        assert parts[2 + n + i] == compare(c, true);
      }
    } else {
      var k :| 0 <= k < |parts| && Eval(parts[k], now, before).False?;
      if 2 <= k < 2 + n {
        assert parts[k] == compare(frozen.notNull[k - 2], false);
      } else if 2 + n <= k {
        assert parts[k] == compare(frozen.nullable[k - 2 - n], true);
      }
    }
  }

  /** The guard of revision 051 admits exactly the raising of the flag with every frozen
      column identical, whatever columns are frozen and whichever of them are NULL. */
  lemma NullSafeAdmitsExactly(frozen: Frozen, now: Row, before: Row)
    requires Filled(frozen, now) && Filled(frozen, before)
    ensures Admitted(NullSafeCondition(frozen), now, before)
       <==> FlagRaised(now, before) && SameIn(now, before, frozen.notNull) && SameIn(now, before, frozen.nullable)
  {
    AdmittedParts(Parts(frozen, Same), now, before);
    PartsByColumn(frozen, Same, now, before);
    forall c
      ensures Field(now, c).Some? && Field(before, c).Some? ==>
        (!Eval(Same(c, false), now, before).False? <==> Field(now, c) == Field(before, c))
      ensures !Eval(Same(c, true), now, before).False? <==> Field(now, c) == Field(before, c)
    {
      SameTruth(c, now, before);
    }
  }

  lemma SameTruth(c: Column, now: Row, before: Row)
    ensures Field(now, c).Some? && Field(before, c).Some? ==>
      (!Eval(Same(c, false), now, before).False? <==> Field(now, c) == Field(before, c))
    ensures !Eval(Same(c, true), now, before).False? <==> Field(now, c) == Field(before, c)
  {
    BothNull(c, now, before);
    var filled := And(IsNotNull(New(c)), IsNotNull(Obj(c)));
    assert Eval(filled, now, before) == Bool(Field(now, c).Some? && Field(before, c).Some?);
    assert Eval(And(filled, Equal(New(c), Obj(c))), now, before)
      == AndT(Eval(filled, now, before), EqualT(Field(now, c), Field(before, c)));
  }

  lemma BothNull(c: Column, now: Row, before: Row)
    ensures Eval(And(IsNull(New(c)), IsNull(Obj(c))), now, before) == Bool(Field(now, c).None? && Field(before, c).None?)
  {
  }

  lemma UnchangedTruth(c: Column, now: Row, before: Row)
    ensures Field(now, c).Some? && Field(before, c).Some? ==>
      (!Eval(Unchanged(c, false), now, before).False? <==> Field(now, c) == Field(before, c))
    ensures !Eval(Unchanged(c, true), now, before).False?
       <==> Field(now, c) == Field(before, c) || OneSideNull(now, before, c)
  {
    BothNull(c, now, before);
    assert Eval(Equal(New(c), Obj(c)), now, before) == EqualT(Field(now, c), Field(before, c));
  }

  /** The guard of the first revision also admitted a nullable column that was NULL on one
      side only. */
  lemma LegacyAdmitsExactly(frozen: Frozen, now: Row, before: Row)
    requires Filled(frozen, now) && Filled(frozen, before)
    ensures Admitted(LegacyCondition(frozen), now, before)
       <==> FlagRaised(now, before) && SameIn(now, before, frozen.notNull)
            && forall c | c in frozen.nullable :: Field(now, c) == Field(before, c) || OneSideNull(now, before, c)
  {
    AdmittedParts(Parts(frozen, Unchanged), now, before);
    PartsByColumn(frozen, Unchanged, now, before);
    forall c
      ensures Field(now, c).Some? && Field(before, c).Some? ==>
        (!Eval(Unchanged(c, false), now, before).False? <==> Field(now, c) == Field(before, c))
      ensures !Eval(Unchanged(c, true), now, before).False?
         <==> Field(now, c) == Field(before, c) || OneSideNull(now, before, c)
    {
      UnchangedTruth(c, now, before);
    }
  }

  /** What revision 051 closed: exactly the admitted changes in which some nullable column
      was NULL on one side only. Nothing that was rejected before is admitted now. */
  lemma ClosedHole(frozen: Frozen, now: Row, before: Row)
    requires Filled(frozen, now) && Filled(frozen, before)
    ensures Admitted(NullSafeCondition(frozen), now, before) ==> Admitted(LegacyCondition(frozen), now, before)
    ensures Admitted(LegacyCondition(frozen), now, before) ==>
      (!Admitted(NullSafeCondition(frozen), now, before) <==> exists c | c in frozen.nullable :: OneSideNull(now, before, c))
  {
    NullSafeAdmitsExactly(frozen, now, before);
    LegacyAdmitsExactly(frozen, now, before);
  }

  // ---- Every run of the table ----

  type Id = nat
  type Table = map<Id, Row>

  datatype Statement = Insert(id: Id, row: Row) | Update(id: Id, row: Row) | Delete(id: Id)

  /** Exactly the columns of the table. */
  predicate Shaped(frozen: Frozen, row: Row) {
    row.Keys == (set c | c in frozen.notNull) + (set c | c in frozen.nullable) + {NEEDS_RECALC}
  }

  /** One statement on the table with its triggers; a rejected statement changes nothing. */
  function Execute(frozen: Frozen, table: Table, s: Statement): Table {
    match s
    case Insert(id, row) =>
      if id !in table && Shaped(frozen, row) && Filled(frozen, row) then table[id := row] else table
    case Update(id, row) =>
      if id in table && Shaped(frozen, row) && Filled(frozen, row) && Admitted(NullSafeCondition(frozen), row, table[id])
      then table[id := row] else table
    case Delete(_) => table
  }

  function After(frozen: Frozen, table: Table, run: seq<Statement>): Table {
    if run == [] then table else Execute(frozen, After(frozen, table, run[..|run| - 1]), run[|run| - 1])
  }

  ghost predicate Legal(frozen: Frozen, table: Table) {
    forall id | id in table :: Shaped(frozen, table[id]) && Filled(frozen, table[id])
  }

  /** The same run, or the run with its flag raised and nothing else changed. */
  predicate SameOrRaised(before: Row, now: Row) {
    now == before
    || (Field(before, NEEDS_RECALC) == Some(0) && NEEDS_RECALC in before && now == before[NEEDS_RECALC := Some(1)])
  }

  lemma RaisedOnly(frozen: Frozen, now: Row, before: Row)
    requires Shaped(frozen, now) && Shaped(frozen, before) && Filled(frozen, now) && Filled(frozen, before)
    requires Admitted(NullSafeCondition(frozen), now, before)
    ensures now == before[NEEDS_RECALC := Some(1)] && Field(before, NEEDS_RECALC) == Some(0)
  {
    NullSafeAdmitsExactly(frozen, now, before);
    var raised := before[NEEDS_RECALC := Some(1)];
    assert now.Keys == raised.Keys;
    forall c | c in now
      ensures now[c] == raised[c]
    {
      if c != NEEDS_RECALC {
        assert Field(now, c) == Field(before, c);
      }
    }
  }

  /** A row of the table of calculation runs: its fourteen columns, ten of which are never NULL. */
  ghost predicate IsRun(row: Row) {
    var filled := {"id", "calculation_type", "vessel_id", "input_hash", "parameter_hash", "model_version", "result_json",
                   "parameters_used", "created_at", "needs_recalc"};
    && row.Keys == filled + {"voyage_id", "weather_snapshot_id", "warnings_json", "duration_ms"}
    && forall c | c in filled :: row[c].Some?
  }

  lemma RunColumns()
    ensures forall c :: c in CALCULATION_RUN.notNull <==>
      c in {"id", "calculation_type", "vessel_id", "input_hash", "parameter_hash", "model_version", "result_json",
            "parameters_used", "created_at"}
    ensures forall c :: c in CALCULATION_RUN.nullable <==>
      c in {"voyage_id", "weather_snapshot_id", "warnings_json", "duration_ms"}
  {
  }

  lemma RunIsShaped(row: Row)
    requires IsRun(row)
    ensures Shaped(CALCULATION_RUN, row) && Filled(CALCULATION_RUN, row)
  {
    RunColumns();
    hide CALCULATION_RUN;
  }

  /** The one update of a calculation run that the guard admits: the flag is raised and the
      rest of the row is the same. */
  lemma OneUpdateOfARun(now: Row, before: Row)
    requires IsRun(now) && IsRun(before)
    ensures Admitted(NullSafeCondition(CALCULATION_RUN), now, before)
       <==> before["needs_recalc"] == Some(0) && now == before["needs_recalc" := Some(1)]
  {
    RunIsShaped(now);
    RunIsShaped(before);
    if before["needs_recalc"] == Some(0) && now == before["needs_recalc" := Some(1)] {
      RaisedIsSame(now, before);
    }
    hide Admitted, Shaped, Filled, NullSafeCondition, FlagRaised, SameIn, CALCULATION_RUN;
    NullSafeAdmitsExactly(CALCULATION_RUN, now, before);
    if Admitted(NullSafeCondition(CALCULATION_RUN), now, before) {
      RaisedOnly(CALCULATION_RUN, now, before);
    }
  }

  lemma RaisedIsSame(now: Row, before: Row)
    requires IsRun(before) && before["needs_recalc"] == Some(0) && now == before["needs_recalc" := Some(1)]
    ensures FlagRaised(now, before) && SameIn(now, before, CALCULATION_RUN.notNull) && SameIn(now, before, CALCULATION_RUN.nullable)
  {
    RunColumns();
    hide CALCULATION_RUN;
  }

  /** One statement keeps every row, up to one raising of its flag. */
  lemma StatementKeeps(frozen: Frozen, table: Table, s: Statement)
    requires Legal(frozen, table)
    ensures Legal(frozen, Execute(frozen, table, s))
    ensures forall id | id in table ::
      id in Execute(frozen, table, s) && SameOrRaised(table[id], Execute(frozen, table, s)[id])
  {
    match s
    case Update(id, row) =>
      if id in table && Shaped(frozen, row) && Filled(frozen, row) && Admitted(NullSafeCondition(frozen), row, table[id]) {
        RaisedOnly(frozen, row, table[id]);
      }
    case _ =>
  }

  /** Over any run of statements a stored row is never deleted, and it is what it was or
      the same with the flag raised - so it has at most two versions. */
  lemma {:induction false} StoredRunsStay(frozen: Frozen, table: Table, run: seq<Statement>)
    requires Legal(frozen, table)
    ensures Legal(frozen, After(frozen, table, run))
    ensures forall id | id in table ::
      id in After(frozen, table, run) && SameOrRaised(table[id], After(frozen, table, run)[id])
  {
    if run != [] {
      var front := run[..|run| - 1];
      StoredRunsStay(frozen, table, front);
      StatementKeeps(frozen, After(frozen, table, front), run[|run| - 1]);
      forall id | id in table
        ensures SameOrRaised(table[id], After(frozen, table, run)[id])
      {
        RaisedOnce(table[id], After(frozen, table, front)[id], After(frozen, table, run)[id]);
      }
    }
  }

  lemma RaisedOnce(a: Row, b: Row, c: Row)
    requires SameOrRaised(a, b) && SameOrRaised(b, c)
    ensures SameOrRaised(a, c) && (a == b || b == c)
  {
  }

  /** Of any three moments in the life of a row, two neighbouring ones show the same version. */
  lemma AtMostTwoVersions(frozen: Frozen, table: Table, first: seq<Statement>, second: seq<Statement>, id: Id)
    requires Legal(frozen, table) && id in table
    ensures id in After(frozen, table, first) && id in After(frozen, After(frozen, table, first), second)
    ensures table[id] == After(frozen, table, first)[id]
         || After(frozen, table, first)[id] == After(frozen, After(frozen, table, first), second)[id]
  {
    StoredRunsStay(frozen, table, first);
    StoredRunsStay(frozen, After(frozen, table, first), second);
    RaisedOnce(table[id], After(frozen, table, first)[id], After(frozen, After(frozen, table, first), second)[id]);
  }

  // ---- Snapshots ----

  /** The snapshot table rejects every update and every delete. */
  function ExecuteSnapshot(table: Table, s: Statement): Table {
    match s
    case Insert(id, row) => if id !in table then table[id := row] else table
    case Update(_, _) => table
    case Delete(_) => table
  }

  function AfterSnapshot(table: Table, run: seq<Statement>): Table {
    if run == [] then table else ExecuteSnapshot(AfterSnapshot(table, run[..|run| - 1]), run[|run| - 1])
  }

  lemma {:induction false} SnapshotsNeverChange(table: Table, run: seq<Statement>)
    ensures forall id | id in table :: id in AfterSnapshot(table, run) && AfterSnapshot(table, run)[id] == table[id]
  {
    if run != [] {
      SnapshotsNeverChange(table, run[..|run| - 1]);
    }
  }
}
