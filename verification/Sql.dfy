/** SQL conditions under three-valued logic, as trigger conditions use them. */
module Sql {
  import opened Prelude

  type Column = string

  /** A column value; None is NULL. */
  type Value = Option<int>

  type Row = map<Column, Value>

  datatype Truth = True | False | Unknown

  function AndT(a: Truth, b: Truth): Truth {
    if a.False? || b.False? then False else if a.True? && b.True? then True else Unknown
  }

  function OrT(a: Truth, b: Truth): Truth {
    if a.True? || b.True? then True else if a.False? && b.False? then False else Unknown
  }

  function NotT(a: Truth): Truth {
    match a case True => False case False => True case Unknown => Unknown
  }

  function Bool(b: bool): Truth {
    if b then True else False
  }

  /** A comparison with NULL is neither true nor false. */
  function EqualT(a: Value, b: Value): Truth {
    if a.None? || b.None? then Unknown else Bool(a == b)
  }

  /** A column of the row before (`obj`) or after (`new`) the change, or a literal. */
  datatype Term = New(c: Column) | Obj(c: Column) | Literal(n: int)

  datatype Condition =
    | Equal(a: Term, b: Term)
    | IsNull(t: Term)
    | IsNotNull(t: Term)
    | And(left: Condition, right: Condition)
    | Or(left: Condition, right: Condition)
    | Not(inner: Condition)

  function Field(row: Row, c: Column): Value {
    if c in row then row[c] else None
  }

  function ValueOf(t: Term, now: Row, before: Row): Value {
    match t
    case New(c) => Field(now, c)
    case Obj(c) => Field(before, c)
    case Literal(n) => Some(n)
  }

  function Eval(cond: Condition, now: Row, before: Row): Truth {
    match cond
    case Equal(a, b) => EqualT(ValueOf(a, now, before), ValueOf(b, now, before))
    case IsNull(t) => Bool(ValueOf(t, now, before).None?)
    case IsNotNull(t) => Bool(ValueOf(t, now, before).Some?)
    case And(l, r) => AndT(Eval(l, now, before), Eval(r, now, before))
    case Or(l, r) => OrT(Eval(l, now, before), Eval(r, now, before))
    case Not(c) => NotT(Eval(c, now, before))
  }

  /** `" AND ".join(parts)` */
  function Joined(parts: seq<Condition>): Condition
    requires parts != []
  {
    if |parts| == 1 then parts[0] else And(Joined(parts[..|parts| - 1]), parts[|parts| - 1])
  }

  /** A conjunction is false as soon as one part is, and true only if all parts are. */
  lemma {:induction false} JoinedTruth(parts: seq<Condition>, now: Row, before: Row)
    requires parts != []
    ensures Eval(Joined(parts), now, before).False? <==> exists k | 0 <= k < |parts| :: Eval(parts[k], now, before).False?
    ensures Eval(Joined(parts), now, before).True? <==> forall k | 0 <= k < |parts| :: Eval(parts[k], now, before).True?
  {
    if |parts| > 1 {
      var front := parts[..|parts| - 1];
      JoinedTruth(front, now, before);
      assert forall k | 0 <= k < |front| :: front[k] == parts[k];
    }
  }

  /** `BEFORE UPDATE … IF NOT (cond) EXECUTE REJECT`: the change is stopped only when the
      negated condition is true; an unknown one lets it through. */
  predicate Admitted(cond: Condition, now: Row, before: Row) {
    !Eval(Not(cond), now, before).True?
  }
}
