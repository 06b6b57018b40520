/**
 The change-history checker (scripts/check_changelog_rows.py): rows of a history table
 must not disappear between the base, the commits of a pull request and the merge result.
 */
module Changelog {
  import opened Prelude

  /** A row is identified by the set of references in its commit column. */
  type Key = set<string>

  /** A line of a document: a history row with its commit column, or something else. */
  datatype Line =
    | Other
    | Row(date: string, references: Key, placeholder: bool, summary: string)

  datatype Entry = Entry(key: Key, date: string, summary: string)

  // ---- Rows of a text ----

  predicate Counted(line: Line) {
    line.Row? && !line.placeholder && line.references != {}
  }

  function EntryOf(line: Line): Entry
    requires Counted(line)
  {
    Entry(line.references, line.date, line.summary)
  }

  function Entries(text: seq<Line>): seq<Entry> {
    if text == [] then []
    else Entries(text[..|text| - 1]) + if Counted(text[|text| - 1]) then [EntryOf(text[|text| - 1])] else []
  }

  /** Line i is a row whose commit column names something and has no blank left to fill in. */
  ghost predicate RowLine(text: seq<Line>, i: nat) {
    i < |text| && text[i].Row? && !text[i].placeholder && text[i].references != {}
  }

  /** The numbers of the lines that count, in order. */
  ghost predicate AreRowLines(at: seq<nat>, text: seq<Line>) {
    && Increasing(at)
    && (forall i: nat :: i in at <==> RowLine(text, i))
  }

  /** The k-th entry has the references, the date and the summary of the k-th of these lines. */
  ghost predicate AreEntriesOf(entries: seq<Entry>, at: seq<nat>, text: seq<Line>)
    requires AreRowLines(at, text)
  {
    && |entries| == |at|
    && forall k | 0 <= k < |at| ::
         at[k] in at
         && entries[k] == Entry(text[at[k]].references, text[at[k]].date, text[at[k]].summary)
  }

  lemma SkippedLine(at: seq<nat>, text: seq<Line>, line: Line, entries: seq<Entry>)
    requires AreRowLines(at, text) && AreEntriesOf(entries, at, text) && !Counted(line)
    ensures AreRowLines(at, text + [line]) && AreEntriesOf(entries, at, text + [line])
  {
    forall i: nat
      ensures RowLine(text + [line], i) <==> RowLine(text, i)
    {
    }
  }

  lemma CountedLine(at: seq<nat>, text: seq<Line>, line: Line, entries: seq<Entry>)
    requires AreRowLines(at, text) && AreEntriesOf(entries, at, text) && Counted(line)
    ensures AreRowLines(at + [|text|], text + [line])
    ensures AreEntriesOf(entries + [EntryOf(line)], at + [|text|], text + [line])
  {
    forall i: nat
      ensures RowLine(text + [line], i) <==> RowLine(text, i) || i == |text|
    {
    }
    forall k | 0 <= k < |at|
      ensures at[k] < |text|
    {
      assert at[k] in at;
    }
    forall i: nat
      ensures i in at + [|text|] <==> RowLine(text + [line], i)
    {
    }
  }

  /** The rows of a text in order; rows whose commit column is not filled in yet are skipped. */
  method RowEntries(text: seq<Line>) returns (entries: seq<Entry>, ghost at: seq<nat>)
    ensures entries == Entries(text)
    ensures AreRowLines(at, text) && AreEntriesOf(entries, at, text)
  {
    entries, at := [], [];
    assert text[..0] == [];
    for i := 0 to |text|
      invariant entries == Entries(text[..i])
      invariant AreRowLines(at, text[..i]) && AreEntriesOf(entries, at, text[..i])
    {
      var line := text[i];
      assert text[..i + 1] == text[..i] + [line] && text[..i + 1][..i] == text[..i];
      if !line.Row? {
        SkippedLine(at, text[..i], line, entries);
        continue;
      }
      if line.placeholder || line.references == {} {
        SkippedLine(at, text[..i], line, entries);
        continue;
      }
      CountedLine(at, text[..i], line, entries);
      entries := entries + [Entry(line.references, line.date, line.summary)];
      at := at + [i];
    }
    assert text[..|text|] == text;
  }

  // ---- Counters ----

  /** A count per key; a missing key counts zero. */
  type Counter = map<Key, nat>

  function Get(c: Counter, key: Key): nat {
    if key in c then c[key] else 0
  }

  /** Difference that keeps positive counts only. */
  function Minus(a: Counter, b: Counter): (c: Counter)
    ensures forall key :: Get(c, key) == if Get(a, key) > Get(b, key) then Get(a, key) - Get(b, key) else 0
    ensures c == map[] <==> forall key :: Get(a, key) <= Get(b, key)
  {
    var c := map key | key in a && a[key] > Get(b, key) :: a[key] - Get(b, key);
    assert forall key :: Get(a, key) > Get(b, key) ==> key in c;
    c
  }

  /** The larger count of each key. */
  function Or(a: Counter, b: Counter): (c: Counter)
    ensures forall key :: Get(c, key) == if Get(a, key) > Get(b, key) then Get(a, key) else Get(b, key)
  {
    map key | key in a.Keys + b.Keys :: if Get(a, key) > Get(b, key) then Get(a, key) else Get(b, key)
  }

  function WithKey(entries: seq<Entry>, key: Key): seq<Entry> {
    if entries == [] then []
    else WithKey(entries[..|entries| - 1], key)
         + if entries[|entries| - 1].key == key then [entries[|entries| - 1]] else []
  }

  /** How many rows of each key a list of rows has. */
  function Count(entries: seq<Entry>): (c: Counter)
    ensures forall key :: Get(c, key) == |WithKey(entries, key)|
  {
    if entries == [] then map[] else
    var c, key := Count(entries[..|entries| - 1]), entries[|entries| - 1].key;
    c[key := Get(c, key) + 1]
  }

  function RowKeys(text: seq<Line>): Counter {
    Count(Entries(text))
  }

  /** The lines that are rows with this key. */
  ghost function LinesWith(text: seq<Line>, key: Key): set<nat> {
    set i: nat | i < |text| && RowLine(text, i) && text[i].references == key
  }

  lemma LinesWithNext(text: seq<Line>, key: Key)
    requires text != []
    ensures var n := |text| - 1;
      var before := LinesWith(text[..n], key);
      n !in before
      && LinesWith(text, key) == before + if RowLine(text, n) && text[n].references == key then {n} else {}
  {
  }

  lemma RowKeysNext(text: seq<Line>, key: Key)
    requires text != []
    ensures var n := |text| - 1;
      Get(RowKeys(text), key) == Get(RowKeys(text[..n]), key) + if RowLine(text, n) && text[n].references == key then 1 else 0
  {
    var n := |text| - 1;
    if Counted(text[n]) {
      assert Entries(text)[..|Entries(text)| - 1] == Entries(text[..n]);
    } else {
      assert Entries(text) == Entries(text[..n]);
    }
  }

  /** The count of a key is the number of lines that are rows with it. */
  lemma {:induction false} RowKeysCount(text: seq<Line>, key: Key)
    ensures Get(RowKeys(text), key) == |LinesWith(text, key)|
  {
    if text != [] {
      RowKeysCount(text[..|text| - 1], key);
      RowKeysNext(text, key);
      LinesWithNext(text, key);
      hide RowKeys, LinesWith;
    }
  }

  /** Rows that the merge result has fewer of than the base. */
  function Overwritten(base: Counter, merged: Counter): Counter {
    Minus(base, merged)
  }

  /** Rows that the commits added and the merge result has fewer of. */
  function DroppedInPr(seen: Counter, merged: Counter): Counter {
    Minus(seen, merged)
  }

  /** A commit adds a key when it has more rows of it than every parent. */
  ghost predicate Adds(commit: Counter, parents: seq<Counter>, key: Key) {
    Get(commit, key) > 0 && forall i | 0 <= i < |parents| :: Get(parents[i], key) < Get(commit, key)
  }

  /** The rows a commit added over all its parents, each key with the number of rows that
      the commit had. */
  method AddedRows(commit: Counter, parents: seq<Counter>) returns (added: Counter)
    ensures forall key :: Get(added, key) == if Adds(commit, parents, key) then Get(commit, key) else 0
  {
    var inherited: Counter := map[];
    for i := 0 to |parents|
      invariant forall key, j | 0 <= j < i :: Get(parents[j], key) <= Get(inherited, key)
      invariant forall key :: Get(inherited, key) > 0 ==> exists j | 0 <= j < i :: Get(parents[j], key) == Get(inherited, key)
    {
      inherited := Or(inherited, parents[i]);
    }
    var more := Minus(commit, inherited);
    added := map key | key in more && Get(commit, key) > Get(inherited, key) :: commit[key];
    forall key
      ensures Get(added, key) == if Adds(commit, parents, key) then Get(commit, key) else 0
    {
      assert Get(more, key) > 0 <==> Get(commit, key) > Get(inherited, key);
      assert Get(commit, key) > Get(inherited, key) <==> Adds(commit, parents, key);
    }
  }

  // ---- New rows under a wrong number ----

  function LastOf(entries: seq<Entry>, n: nat): seq<Entry> {
    if n >= |entries| then entries else entries[|entries| - n..]
  }

  /** What is reported for one key: as many of its last rows as the merge result has more
      than the base, unless the key is the number of the pull request. */
  function Surplus(base: Counter, merged: seq<Entry>, expected: Key, key: Key): seq<Entry> {
    if key == expected then [] else LastOf(WithKey(merged, key), Get(Minus(Count(merged), base), key))
  }

  lemma {:induction false} WithKeyConcat(a: seq<Entry>, b: seq<Entry>, key: Key)
    ensures WithKey(a + b, key) == WithKey(a, key) + WithKey(b, key)
  {
    if b == [] {
      assert a + b == a;
    } else {
      assert (a + b)[..|a + b| - 1] == a + b[..|b| - 1];
      WithKeyConcat(a, b[..|b| - 1], key);
    }
  }

  lemma WithKeyNext(entries: seq<Entry>, last: Entry, key: Key)
    ensures WithKey(entries + [last], key) == WithKey(entries, key) + if last.key == key then [last] else []
  {
    assert (entries + [last])[..|entries|] == entries;
  }

  lemma {:induction false} AllWithKey(entries: seq<Entry>, key: Key, other: Key)
    requires forall i | 0 <= i < |entries| :: entries[i].key == key
    ensures WithKey(entries, other) == if other == key then entries else []
  {
    if entries != [] {
      var front, last := entries[..|entries| - 1], entries[|entries| - 1];
      AllWithKey(front, key, other);
      WithKeyNext(front, last, other);
      hide WithKey;
      assert entries == front + [last];
    }
  }

  lemma {:induction false} WithKeyHasKey(entries: seq<Entry>, key: Key)
    ensures forall e | e in WithKey(entries, key) :: e.key == key && e in entries
  {
    if entries != [] {
      WithKeyHasKey(entries[..|entries| - 1], key);
    }
  }

  /** The keys of a list of rows, each once, in order of first use. */
  function KeysInOrder(entries: seq<Entry>): (keys: seq<Key>)
    ensures forall e | e in entries :: e.key in keys
    ensures forall i, j | 0 <= i < j < |keys| :: keys[i] != keys[j]
  {
    if entries == [] then [] else
    var keys, last := KeysInOrder(entries[..|entries| - 1]), entries[|entries| - 1];
    assert entries == entries[..|entries| - 1] + [last];
    if last.key in keys then keys else keys + [last.key]
  }

  /** The rows that the pull request added under another key than its own number. */
  method Misnumbered(base: Counter, merged: seq<Entry>, expected: Key) returns (found: seq<Entry>)
    ensures forall key :: WithKey(found, key) == Surplus(base, merged, expected, key)
  {
    hide WithKey, Count, KeysInOrder;
    var added := Minus(Count(merged), base);
    var keys := KeysInOrder(merged);
    found := [];
    assert forall key :: WithKey(found, key) == [] by {
      NoRows();
    }
    for i := 0 to |keys|
      invariant forall key | key in keys[..i] :: WithKey(found, key) == Surplus(base, merged, expected, key)
      invariant forall key | key !in keys[..i] :: WithKey(found, key) == []
    {
      var key := keys[i];
      ghost var found0 := found;
      assert key !in keys[..i];
      if key in added && key != expected {
        var same := WithKey(merged, key);
        found := found + LastOf(same, added[key]);
        forall other
          ensures WithKey(found, other) == if other == key then LastOf(same, added[key]) else WithKey(found0, other)
        {
          AppendedRows(found0, merged, key, added[key], other);
        }
      } else {
        NothingSurplus(base, merged, expected, key);
      }
      assert keys[..i + 1] == keys[..i] + [key];
    }
    forall key | key !in keys
      ensures Surplus(base, merged, expected, key) == []
    {
      AbsentKey(merged, key);
    }
  }

  lemma NoRows()
    ensures forall key :: WithKey([], key) == []
  {
  }

  lemma AppendedRows(found: seq<Entry>, merged: seq<Entry>, key: Key, n: nat, other: Key)
    ensures WithKey(found + LastOf(WithKey(merged, key), n), other)
         == WithKey(found, other) + if other == key then LastOf(WithKey(merged, key), n) else []
  {
    var last := LastOf(WithKey(merged, key), n);
    WithKeyConcat(found, last, other);
    WithKeyHasKey(merged, key);
    AllWithKey(last, key, other);
  }

  lemma NothingSurplus(base: Counter, merged: seq<Entry>, expected: Key, key: Key)
    requires key == expected || key !in Minus(Count(merged), base)
    ensures Surplus(base, merged, expected, key) == []
  {
    var w := WithKey(merged, key);
    assert w[|w|..] == [];
  }

  lemma AbsentKey(merged: seq<Entry>, key: Key)
    requires forall e | e in merged :: e.key != key
    ensures WithKey(merged, key) == []
  {
    WithKeyHasKey(merged, key);
    if WithKey(merged, key) != [] {
      assert WithKey(merged, key)[0] in WithKey(merged, key);
    }
  }

  // ---- The history ----

  type Document = string

  /** A commit: its parents, and its files. Commits are numbered so that parents come
      before children. */
  datatype Commit = Commit(parents: seq<nat>, files: map<Document, seq<Line>>)

  type History = seq<Commit>

  ghost predicate WellFormed(h: History) {
    forall c, i | 0 <= c < |h| && 0 <= i < |h[c].parents| :: h[c].parents[i] < c
  }

  ghost predicate InHistory(h: History, commits: seq<nat>) {
    && (forall c: nat | c in commits :: c < |h|)
    && (forall m: nat | m < |commits| :: commits[m] < |h|)
  }

  /** The rows of a document at a commit; a file that is not there has none. */
  function RowsAt(h: History, c: nat, doc: Document): Counter
    requires c < |h|
  {
    RowKeys(if doc in h[c].files then h[c].files[doc] else [])
  }

  predicate Ancestor(h: History, a: nat, c: nat)
    requires c < |h| && WellFormed(h)
    decreases c
  {
    a == c || exists i | 0 <= i < |h[c].parents| :: Ancestor(h, a, h[c].parents[i])
  }

  /** From each commit of the path to one of its parents. */
  ghost predicate IsPath(h: History, path: seq<nat>) {
    && path != [] && (forall k | 0 <= k < |path| :: path[k] < |h|)
    && forall k | 0 < k < |path| :: path[k] in h[path[k - 1]].parents
  }

  ghost predicate Leads(h: History, path: seq<nat>, c: nat, a: nat) {
    IsPath(h, path) && path[0] == c && path[|path| - 1] == a
  }

  /** The ancestors of a commit are the commits that a path from parent to parent leads to. */
  lemma AncestorsByPath(h: History, a: nat, c: nat)
    requires WellFormed(h) && c < |h|
    ensures Ancestor(h, a, c) <==> exists path :: Leads(h, path, c, a)
  {
    if Ancestor(h, a, c) {
      var path := PathTo(h, a, c);
    }
    if exists path :: Leads(h, path, c, a) {
      var path :| Leads(h, path, c, a);
      PathLeads(h, path);
    }
  }

  lemma {:induction false} PathTo(h: History, a: nat, c: nat) returns (path: seq<nat>)
    requires WellFormed(h) && c < |h| && Ancestor(h, a, c)
    ensures Leads(h, path, c, a)
    decreases c
  {
    if a == c {
      path := [c];
    } else {
      var i :| 0 <= i < |h[c].parents| && Ancestor(h, a, h[c].parents[i]);
      var rest := PathTo(h, a, h[c].parents[i]);
      path := [c] + rest;
      assert forall k | 0 < k < |path| :: path[k] == rest[k - 1];
    }
  }

  lemma {:induction false} PathLeads(h: History, path: seq<nat>)
    requires WellFormed(h) && IsPath(h, path)
    ensures Ancestor(h, path[|path| - 1], path[0])
    decreases |path|
  {
    if |path| > 1 {
      var rest := path[1..];
      assert forall k | 0 <= k < |rest| :: rest[k] == path[k + 1];
      PathLeads(h, rest);
      assert path[1] in h[path[0]].parents;
    }
  }

  /** `git rev-list base..head`: the ancestors of head that are not ancestors of base. */
  function RevList(h: History, base: nat, head: nat): (commits: seq<nat>)
    requires WellFormed(h) && base < |h| && head < |h|
    ensures forall c: nat :: c in commits <==> c < |h| && Ancestor(h, c, head) && !Ancestor(h, c, base)
  {
    RevListBelow(h, base, head, |h|)
  }

  function RevListBelow(h: History, base: nat, head: nat, n: nat): (commits: seq<nat>)
    requires WellFormed(h) && base < |h| && head < |h| && n <= |h|
    ensures forall c: nat :: c in commits <==> c < n && Ancestor(h, c, head) && !Ancestor(h, c, base)
  {
    if n == 0 then []
    else RevListBelow(h, base, head, n - 1)
         + if Ancestor(h, n - 1, head) && !Ancestor(h, n - 1, base) then [n - 1] else []
  }

  lemma {:induction false} AncestorStep(h: History, c: nat, i: nat, top: nat)
    requires WellFormed(h) && top < |h| && c < |h| && i < |h[c].parents| && Ancestor(h, c, top)
    ensures Ancestor(h, h[c].parents[i], top)
    decreases top
  {
    var p := h[c].parents[i];
    if c == top {
      assert Ancestor(h, p, p);
    } else {
      var j :| 0 <= j < |h[top].parents| && Ancestor(h, c, h[top].parents[j]);
      AncestorStep(h, c, i, h[top].parents[j]);
    }
  }

  // ---- The check ----

  /** What is reported for one document. */
  datatype Report = Report(overwritten: Counter, misnumbered: seq<Entry>, dropped: Counter)

  predicate Silent(r: Report) {
    r.overwritten == map[] && r.misnumbered == [] && r.dropped == map[]
  }

  /** The commits the check reads: those of the pull request, and those of the head pushed
      before when it is known. */
  function CommitsRead(h: History, base: nat, head: nat, previous: Option<nat>): (commits: seq<nat>)
    requires WellFormed(h) && base < |h| && head < |h| && (previous.Some? ==> previous.value < |h|)
    ensures InHistory(h, commits)
    ensures forall c: nat :: c in commits <==>
      c < |h| && !Ancestor(h, c, base) && (Ancestor(h, c, head) || (previous.Some? && Ancestor(h, c, previous.value)))
  {
    var commits := RevList(h, base, head) + match previous case None => [] case Some(p) => RevList(h, base, p);
    assert forall m: nat | m < |commits| :: commits[m] in commits;
    commits
  }

  function ParentRows(h: History, c: nat, doc: Document): (rows: seq<Counter>)
    requires WellFormed(h) && c < |h|
    ensures |rows| == |h[c].parents|
  {
    seq(|h[c].parents|, i requires 0 <= i < |h[c].parents| => RowsAt(h, h[c].parents[i], doc))
  }

  /** Every row that one of the commits added is still there in that number. */
  ghost predicate AddedRowsStay(h: History, commits: seq<nat>, doc: Document, merged: Counter)
    requires WellFormed(h) && InHistory(h, commits)
  {
    forall m: nat, key | m < |commits| :: RowStays(h, commits[m], doc, merged, key)
  }

  ghost predicate RowStays(h: History, c: nat, doc: Document, merged: Counter, key: Key)
    requires WellFormed(h) && c < |h|
  {
    Adds(RowsAt(h, c, doc), ParentRows(h, c, doc), key) ==> Get(RowsAt(h, c, doc), key) <= Get(merged, key)
  }

  /** Per key, the largest number of rows that a commit which added the key had. */
  method CollectAdded(h: History, commits: seq<nat>, doc: Document) returns (seen: Counter)
    requires WellFormed(h) && InHistory(h, commits)
    ensures forall key :: MostAdded(h, commits, doc, key, Get(seen, key))
  {
    hide RowsAt, ParentRows, Adds;
    seen := map[];
    for n := 0 to |commits|
      invariant forall m: nat, key | m < n :: RowStays(h, commits[m], doc, seen, key)
      invariant InHistory(h, commits[..n])
      invariant forall key :: Get(seen, key) > 0 ==> AddedBy(h, commits[..n], doc, key, Get(seen, key))
    {
      var c := commits[n];
      var added := AddedRows(RowsAt(h, c, doc), ParentRows(h, c, doc));
      ghost var seen0 := seen;
      seen := Or(seen, added);
      assert InHistory(h, commits[..n + 1]);
      forall m: nat, key | m < n + 1
        ensures RowStays(h, commits[m], doc, seen, key)
      {
        if m < n {
          assert RowStays(h, commits[m], doc, seen0, key);
        }
      }
      forall key | Get(seen, key) > 0
        ensures AddedBy(h, commits[..n + 1], doc, key, Get(seen, key))
      {
        if Get(seen, key) == Get(seen0, key) {
          AddedByMore(h, commits, n, doc, key, Get(seen, key));
        } else {
          assert commits[..n + 1][n] == c;
        }
      }
    }
    assert commits[..|commits|] == commits;
    hide RowStays, AddedBy;
    forall key ensures MostAdded(h, commits, doc, key, Get(seen, key)) {
      forall m: nat | m < |commits| ensures AddsAtMost(h, commits[m], doc, key, Get(seen, key)) {
        assert RowStays(h, commits[m], doc, seen, key);
        StaysAtMost(h, commits[m], doc, seen, key);
      }
    }
  }

  ghost predicate AddsAtMost(h: History, c: nat, doc: Document, key: Key, n: nat)
    requires WellFormed(h) && c < |h|
  {
    Adds(RowsAt(h, c, doc), ParentRows(h, c, doc), key) ==> Get(RowsAt(h, c, doc), key) <= n
  }

  lemma StaysAtMost(h: History, c: nat, doc: Document, counts: Counter, key: Key)
    requires WellFormed(h) && c < |h|
    ensures RowStays(h, c, doc, counts, key) <==> AddsAtMost(h, c, doc, key, Get(counts, key))
  {
  }

  /** The largest number of rows of a key that a commit which added the key had; 0 if none did. */
  ghost predicate MostAdded(h: History, commits: seq<nat>, doc: Document, key: Key, n: nat)
    requires WellFormed(h) && InHistory(h, commits)
  {
    && (forall m: nat | m < |commits| :: AddsAtMost(h, commits[m], doc, key, n))
    && (n > 0 ==> AddedBy(h, commits, doc, key, n))
  }

  lemma MostAddedUnique(h: History, commits: seq<nat>, doc: Document, key: Key, n: nat, n': nat)
    requires WellFormed(h) && InHistory(h, commits)
    requires MostAdded(h, commits, doc, key, n) && MostAdded(h, commits, doc, key, n')
    ensures n == n'
  {
    hide RowsAt, ParentRows, Adds;
    if n > 0 {
      AddedByAtMost(h, commits, doc, key, n, n');
    }
    if n' > 0 {
      AddedByAtMost(h, commits, doc, key, n', n);
    }
  }

  lemma AddedByAtMost(h: History, commits: seq<nat>, doc: Document, key: Key, n: nat, n': nat)
    requires WellFormed(h) && InHistory(h, commits)
    requires AddedBy(h, commits, doc, key, n) && forall m: nat | m < |commits| :: AddsAtMost(h, commits[m], doc, key, n')
    ensures n <= n'
  {
    hide RowsAt, ParentRows, Adds;
    var m: nat :| m < |commits| && Adds(RowsAt(h, commits[m], doc), ParentRows(h, commits[m], doc), key)
      && Get(RowsAt(h, commits[m], doc), key) == n;
    assert AddsAtMost(h, commits[m], doc, key, n');
  }

  /** What a report says: rows of the base that became fewer; for every key the surplus rows
      under a wrong number; for every key by how many rows the merge result falls short of the
      most that a commit which added the key had. */
  ghost predicate IsReport(h: History, commits: seq<nat>, base: nat, doc: Document, text: seq<Line>, number: Option<Key>,
                           r: Report)
    requires WellFormed(h) && base < |h| && InHistory(h, commits)
  {
    && (forall key :: Get(r.overwritten, key)
          == if Get(RowsAt(h, base, doc), key) > Get(RowKeys(text), key) then Get(RowsAt(h, base, doc), key) - Get(RowKeys(text), key)
             else 0)
    && (r.overwritten == map[] <==> forall key :: Get(RowsAt(h, base, doc), key) <= Get(RowKeys(text), key))
    && (number.None? ==> r.misnumbered == [])
    && (number.Some? ==>
      forall key :: WithKey(r.misnumbered, key) == Surplus(RowsAt(h, base, doc), Entries(text), number.value, key))
    && (forall key, n: nat | MostAdded(h, commits, doc, key, n) ::
         Get(r.dropped, key) == if n > Get(RowKeys(text), key) then n - Get(RowKeys(text), key) else 0)
    && (r.dropped == map[] <==> AddedRowsStay(h, commits, doc, RowKeys(text)))
  }

  /** The report for one document of the working tree. */
  method CheckDocument(h: History, commits: seq<nat>, base: nat, doc: Document, text: seq<Line>, number: Option<Key>)
      returns (r: Report)
    requires WellFormed(h) && base < |h| && InHistory(h, commits)
    ensures IsReport(h, commits, base, doc, text, number, r)
  {
    hide RowsAt, AddedRowsStay, RowStays, AddedBy, WithKey, Surplus, Count, MostAdded;
    var mergedEntries, _ := RowEntries(text);
    var merged := Count(mergedEntries);
    var baseKeys := RowsAt(h, base, doc);
    var misnumbered := [];
    if number.Some? {
      misnumbered := Misnumbered(baseKeys, mergedEntries, number.value);
    }
    var seen := CollectAdded(h, commits, doc);
    SeenIsAdded(h, commits, doc, seen, merged);
    forall key, n: nat | MostAdded(h, commits, doc, key, n) ensures n == Get(seen, key) {
      MostAddedUnique(h, commits, doc, key, n, Get(seen, key));
    }
    r := Report(Overwritten(baseKeys, merged), misnumbered, DroppedInPr(seen, merged));
  }

  /** The count was added by one of the commits. */
  ghost predicate AddedBy(h: History, commits: seq<nat>, doc: Document, key: Key, count: nat)
    requires WellFormed(h) && InHistory(h, commits)
  {
    exists m: nat :: m < |commits| && Adds(RowsAt(h, commits[m], doc), ParentRows(h, commits[m], doc), key)
      && Get(RowsAt(h, commits[m], doc), key) == count
  }

  lemma AddedByMore(h: History, commits: seq<nat>, n: nat, doc: Document, key: Key, count: nat)
    requires WellFormed(h) && n < |commits| && InHistory(h, commits)
    requires AddedBy(h, commits[..n], doc, key, count)
    ensures AddedBy(h, commits[..n + 1], doc, key, count)
  {
    var m: nat :| m < n && Adds(RowsAt(h, commits[..n][m], doc), ParentRows(h, commits[..n][m], doc), key)
      && Get(RowsAt(h, commits[..n][m], doc), key) == count;
    assert commits[..n + 1][m] == commits[..n][m];
  }

  lemma SeenIsAdded(h: History, commits: seq<nat>, doc: Document, seen: Counter, merged: Counter)
    requires WellFormed(h) && InHistory(h, commits)
    requires forall key :: MostAdded(h, commits, doc, key, Get(seen, key))
    ensures (forall key :: Get(seen, key) <= Get(merged, key)) <==> AddedRowsStay(h, commits, doc, merged)
  {
    hide RowsAt, ParentRows, Adds, AddedBy;
    if AddedRowsStay(h, commits, doc, merged) {
      forall key | Get(seen, key) > 0
        ensures Get(seen, key) <= Get(merged, key)
      {
        forall m: nat | m < |commits| ensures AddsAtMost(h, commits[m], doc, key, Get(merged, key)) {
          assert RowStays(h, commits[m], doc, merged, key);
        }
        assert MostAdded(h, commits, doc, key, Get(seen, key));
        AddedByAtMost(h, commits, doc, key, Get(seen, key), Get(merged, key));
      }
    } else {
      var m: nat, key :| m < |commits| && !RowStays(h, commits[m], doc, merged, key);
      assert MostAdded(h, commits, doc, key, Get(seen, key));
      assert AddsAtMost(h, commits[m], doc, key, Get(seen, key));
    }
  }

  /** The whole check: a report for every document that the working tree still has. When all
      are silent, nothing is lost exactly if the documents that are gone had nothing to lose. */
  method Check(h: History, docs: seq<Document>, tree: map<Document, seq<Line>>, base: nat, head: nat,
               previous: Option<nat>, number: Option<Key>) returns (reports: map<Document, Report>)
    requires WellFormed(h) && base < |h| && head < |h| && (previous.Some? ==> previous.value < |h|)
    ensures reports.Keys == set doc | doc in docs && doc in tree
    ensures forall doc | doc in reports ::
      IsReport(h, CommitsRead(h, base, head, previous), base, doc, tree[doc], number, reports[doc])
    ensures forall doc | doc in reports :: (Silent(reports[doc])
      ==> NothingLost(h, doc, RowKeys(tree[doc]), base, CommitsRead(h, base, head, previous)))
    ensures forall doc, c: nat, key | doc in reports && Silent(reports[doc]) && c < |h| && !Ancestor(h, c, base)
                                      && (Ancestor(h, c, head) || (previous.Some? && Ancestor(h, c, previous.value))) ::
      RowKept(h, doc, RowKeys(tree[doc]), base, c, key)
    ensures (forall doc | doc in reports :: Silent(reports[doc])) ==>
      ((forall doc | doc in docs :: NothingLost(h, doc, RowsInTree(tree, doc), base, CommitsRead(h, base, head, previous)))
       <==> forall doc | doc in docs && doc !in tree :: NothingToLose(h, CommitsRead(h, base, head, previous), doc, base))
  {
    hide IsReport, NothingLost, RowKeys, RowsAt, CommitsRead, NothingToLose, RowKept;
    var commits := CommitsRead(h, base, head, previous);
    reports := map[];
    for i := 0 to |docs|
      invariant reports.Keys == set doc | doc in docs[..i] && doc in tree
      invariant forall doc | doc in reports :: IsReport(h, commits, base, doc, tree[doc], number, reports[doc])
      invariant forall doc | doc in reports :: (Silent(reports[doc])
        ==> NothingLost(h, doc, RowKeys(tree[doc]), base, commits))
    {
      var doc := docs[i];
      if doc in tree {
        var r := CheckDocument(h, commits, base, doc, tree[doc], number);
        SilentReport(h, base, head, previous, doc, tree[doc], number, r);
        reports := reports[doc := r];
      }
      assert docs[..i + 1] == docs[..i] + [doc];
    }
    assert docs[..|docs|] == docs;
    forall doc, c: nat, key | doc in reports && Silent(reports[doc]) && c in commits
      ensures RowKept(h, doc, RowKeys(tree[doc]), base, c, key)
    {
      KeptBySilence(h, doc, RowKeys(tree[doc]), base, commits, c, key);
    }
    forall doc | doc in docs && doc !in tree
      ensures NothingLost(h, doc, RowsInTree(tree, doc), base, commits) <==> NothingToLose(h, commits, doc, base)
    {
      DeletedDocumentLosesRows(h, doc, base, head, previous);
    }
  }

  lemma KeptBySilence(h: History, doc: Document, merged: Counter, base: nat, commits: seq<nat>, c: nat, key: Key)
    requires WellFormed(h) && base < |h| && InHistory(h, commits)
    requires NothingLost(h, doc, merged, base, commits) && c in commits
    ensures RowKept(h, doc, merged, base, c, key)
  {
  }

  /** The rows of a document in the merge result. */
  function RowsInTree(tree: map<Document, seq<Line>>, doc: Document): Counter {
    RowKeys(if doc in tree then tree[doc] else [])
  }

  lemma SilentReport(h: History, base: nat, head: nat, previous: Option<nat>, doc: Document, text: seq<Line>,
                     number: Option<Key>, r: Report)
    requires WellFormed(h) && base < |h| && head < |h| && (previous.Some? ==> previous.value < |h|)
    requires IsReport(h, CommitsRead(h, base, head, previous), base, doc, text, number, r)
    ensures Silent(r) ==> NothingLost(h, doc, RowKeys(text), base, CommitsRead(h, base, head, previous))
  {
    hide RowsAt, RowKeys, AddedRowsStay, NothingLost, CommitsRead;
    if Silent(r) {
      SilentLosesNothing(h, doc, RowKeys(text), base, head, previous);
    }
  }

  /** How many rows of a key are reported: those the merge result has more than the base, and
      they are the last ones. */
  lemma SurplusCount(base: Counter, merged: seq<Entry>, expected: Key, key: Key)
    ensures |Surplus(base, merged, expected, key)|
         == if key == expected then 0
            else if Get(Count(merged), key) > Get(base, key) then Get(Count(merged), key) - Get(base, key)
            else 0
    ensures var all, reported := WithKey(merged, key), Surplus(base, merged, expected, key);
      |reported| <= |all| && all[|all| - |reported|..] == reported
  {
    hide WithKey, Count;
    NothingKept(WithKey(merged, key));
  }

  lemma NothingKept(rows: seq<Entry>)
    ensures LastOf(rows, 0) == []
  {
  }

  // ---- Misses nothing ----

  /** The merge result has at least as many rows of every key as the base; and for every
      commit read, either it has at least as many as the commit had, or an ancestor that
      base and commit share had already that many. */
  ghost predicate NothingLost(h: History, doc: Document, merged: Counter, base: nat, commits: seq<nat>)
    requires WellFormed(h) && base < |h| && InHistory(h, commits)
  {
    && (forall key :: Get(RowsAt(h, base, doc), key) <= Get(merged, key))
    && (forall c: nat, key | c in commits :: RowKept(h, doc, merged, base, c, key))
  }

  ghost predicate RowKept(h: History, doc: Document, merged: Counter, base: nat, c: nat, key: Key)
    requires WellFormed(h) && base < |h| && c < |h|
  {
    Get(RowsAt(h, c, doc), key) <= Get(merged, key) || SharedAncestorHad(h, doc, base, c, key)
  }

  ghost predicate SharedAncestorHad(h: History, doc: Document, base: nat, c: nat, key: Key)
    requires WellFormed(h) && base < |h| && c < |h|
  {
    exists a: nat :: a < |h| && Ancestor(h, a, base) && Ancestor(h, a, c)
      && Get(RowsAt(h, a, doc), key) >= Get(RowsAt(h, c, doc), key)
  }

  lemma AncestorOfParent(h: History, a: nat, c: nat, i: nat)
    requires WellFormed(h) && c < |h| && i < |h[c].parents| && Ancestor(h, a, h[c].parents[i])
    ensures Ancestor(h, a, c)
  {
  }

  /** One commit of the range: follow the parent that already had as many rows, until the
      commit that added them or a commit of the base side. */
  lemma {:induction false} CommitLosesNothing(h: History, doc: Document, merged: Counter, base: nat, top: nat, c: nat, key: Key)
    requires WellFormed(h) && base < |h| && top < |h| && c < |h|
    requires Ancestor(h, c, top) && !Ancestor(h, c, base)
    requires forall d: nat | d < |h| && Ancestor(h, d, top) && !Ancestor(h, d, base) ::
      RowStays(h, d, doc, merged, key) || SharedAncestorHad(h, doc, base, d, key)
    ensures RowKept(h, doc, merged, base, c, key)
    decreases c
  {
    hide RowsAt;
    var parents := ParentRows(h, c, doc);
    assert RowStays(h, c, doc, merged, key) || SharedAncestorHad(h, doc, base, c, key);
    if !Adds(RowsAt(h, c, doc), parents, key) && Get(RowsAt(h, c, doc), key) > 0 {
      var i :| 0 <= i < |parents| && Get(parents[i], key) >= Get(RowsAt(h, c, doc), key);
      var p := h[c].parents[i];
      AncestorOfParent(h, p, c, i);
      AncestorStep(h, c, i, top);
      if !Ancestor(h, p, base) {
        CommitLosesNothing(h, doc, merged, base, top, p, key);
        if SharedAncestorHad(h, doc, base, p, key) {
          SharedByChild(h, doc, base, c, i, key);
        }
      }
    }
  }

  lemma SharedByChild(h: History, doc: Document, base: nat, c: nat, i: nat, key: Key)
    requires WellFormed(h) && base < |h| && c < |h| && i < |h[c].parents|
    requires Get(RowsAt(h, h[c].parents[i], doc), key) >= Get(RowsAt(h, c, doc), key)
    requires SharedAncestorHad(h, doc, base, h[c].parents[i], key)
    ensures SharedAncestorHad(h, doc, base, c, key)
  {
    hide RowsAt;
    var p := h[c].parents[i];
    var a: nat :| a < |h| && Ancestor(h, a, base) && Ancestor(h, a, p)
      && Get(RowsAt(h, a, doc), key) >= Get(RowsAt(h, p, doc), key);
    AncestorOfParent(h, a, c, i);
  }

  /** Every row that a commit added is still there in that number, or a shared ancestor had it
      in that number. */
  ghost predicate AddedRowsKept(h: History, commits: seq<nat>, doc: Document, merged: Counter, base: nat)
    requires WellFormed(h) && base < |h| && InHistory(h, commits)
  {
    forall m: nat, key | m < |commits| ::
      RowStays(h, commits[m], doc, merged, key) || SharedAncestorHad(h, doc, base, commits[m], key)
  }

  /** Nothing is lost exactly when the result dominates the base and every added row is kept:
      rows that a commit only carried along need no look. */
  lemma NothingLostExactly(h: History, doc: Document, merged: Counter, base: nat, head: nat, previous: Option<nat>)
    requires WellFormed(h) && base < |h| && head < |h| && (previous.Some? ==> previous.value < |h|)
    ensures var commits := CommitsRead(h, base, head, previous);
      NothingLost(h, doc, merged, base, commits)
      <==> Overwritten(RowsAt(h, base, doc), merged) == map[] && AddedRowsKept(h, commits, doc, merged, base)
  {
    var commits := CommitsRead(h, base, head, previous);
    if NothingLost(h, doc, merged, base, commits) {
      hide RowsAt, CommitsRead, SharedAncestorHad;
      forall m: nat, key | m < |commits|
        ensures RowStays(h, commits[m], doc, merged, key) || SharedAncestorHad(h, doc, base, commits[m], key)
      {
        assert commits[m] in commits;
        assert RowKept(h, doc, merged, base, commits[m], key);
      }
    }
    if Overwritten(RowsAt(h, base, doc), merged) == map[] && AddedRowsKept(h, commits, doc, merged, base) {
      AddedKeptLosesNothing(h, doc, merged, base, head, previous);
    }
  }

  lemma AddedKeptLosesNothing(h: History, doc: Document, merged: Counter, base: nat, head: nat, previous: Option<nat>)
    requires WellFormed(h) && base < |h| && head < |h| && (previous.Some? ==> previous.value < |h|)
    requires Overwritten(RowsAt(h, base, doc), merged) == map[]
    requires AddedRowsKept(h, CommitsRead(h, base, head, previous), doc, merged, base)
    ensures NothingLost(h, doc, merged, base, CommitsRead(h, base, head, previous))
  {
    hide RowsAt, RowStays, RowKept, Ancestor, SharedAncestorHad;
    var commits := CommitsRead(h, base, head, previous);
    forall c: nat, key | c in commits
      ensures RowKept(h, doc, merged, base, c, key)
    {
      var top := if c in RevList(h, base, head) then head else previous.value;
      forall d: nat | d < |h| && Ancestor(h, d, top) && !Ancestor(h, d, base)
        ensures RowStays(h, d, doc, merged, key) || SharedAncestorHad(h, doc, base, d, key)
      {
        assert d in commits;
        var m :| 0 <= m < |commits| && commits[m] == d;
        assert RowStays(h, commits[m], doc, merged, key) || SharedAncestorHad(h, doc, base, commits[m], key);
      }
      CommitLosesNothing(h, doc, merged, base, top, c, key);
    }
  }

  /** If nothing was overwritten and no added row was dropped, nothing was lost. */
  lemma SilentLosesNothing(h: History, doc: Document, merged: Counter, base: nat, head: nat, previous: Option<nat>)
    requires WellFormed(h) && base < |h| && head < |h| && (previous.Some? ==> previous.value < |h|)
    requires Overwritten(RowsAt(h, base, doc), merged) == map[]
    requires AddedRowsStay(h, CommitsRead(h, base, head, previous), doc, merged)
    ensures NothingLost(h, doc, merged, base, CommitsRead(h, base, head, previous))
  {
    hide RowsAt, RowStays, CommitsRead, NothingLost, Overwritten;
    AddedKeptLosesNothing(h, doc, merged, base, head, previous);
  }

  // ---- Documents that are gone ----

  /** The base has no row of the document, and no commit read added one - but for rows that
      an ancestor shared with the base already had in that number. */
  ghost predicate NothingToLose(h: History, commits: seq<nat>, doc: Document, base: nat)
    requires WellFormed(h) && base < |h| && InHistory(h, commits)
  {
    && RowsAt(h, base, doc) == map[]
    && forall m: nat, key | m < |commits| ::
         Adds(RowsAt(h, commits[m], doc), ParentRows(h, commits[m], doc), key) ==> SharedAncestorHad(h, doc, base, commits[m], key)
  }

  /** A document that the merge result no longer has is not looked at; nothing of it is lost
      exactly when there was nothing to lose. */
  lemma DeletedDocumentLosesRows(h: History, doc: Document, base: nat, head: nat, previous: Option<nat>)
    requires WellFormed(h) && base < |h| && head < |h| && (previous.Some? ==> previous.value < |h|)
    ensures var commits := CommitsRead(h, base, head, previous);
      NothingLost(h, doc, RowKeys([]), base, commits) <==> NothingToLose(h, commits, doc, base)
  {
    var commits := CommitsRead(h, base, head, previous);
    NothingLostExactly(h, doc, RowKeys([]), base, head, previous);
    assert RowKeys([]) == map[];
    EmptyWhenDominated(h, doc, base);
    hide RowsAt, ParentRows, SharedAncestorHad, CommitsRead, NothingLost;
    forall m: nat, key | m < |commits|
      ensures RowStays(h, commits[m], doc, map[], key)
         <==> !Adds(RowsAt(h, commits[m], doc), ParentRows(h, commits[m], doc), key)
    {
    }
  }

  lemma EmptyWhenDominated(h: History, doc: Document, base: nat)
    requires base < |h|
    ensures Overwritten(RowsAt(h, base, doc), map[]) == map[] <==> RowsAt(h, base, doc) == map[]
  {
    var rows := RowsAt(h, base, doc);
    CountPositive(Entries(if doc in h[base].files then h[base].files[doc] else []));
    if rows != map[] {
      var key :| key in rows;
      assert Get(rows, key) > 0;
    }
  }

  /** A row that a commit of the pull request added and a later one removed with its document
      is lost unreported, although the base never had it. */
  lemma AddedRowIsLostToo(doc: Document, row: Line)
    requires Counted(row)
    ensures var h := [Commit([], map[]), Commit([0], map[doc := [row]]), Commit([1], map[])];
      && WellFormed(h) && RowsAt(h, 0, doc) == map[]
      && !NothingLost(h, doc, RowKeys([]), 0, CommitsRead(h, 0, 2, None))
  {
    var h := [Commit([], map[]), Commit([0], map[doc := [row]]), Commit([1], map[])];
    var key := row.references;
    assert Ancestor(h, 1, h[2].parents[0]) && Ancestor(h, 1, 2) && !Ancestor(h, 1, 0);
    var commits := CommitsRead(h, 0, 2, None);
    assert 1 in commits;
    assert [row][..0] == [] && Entries([row]) == [EntryOf(row)];
    assert [EntryOf(row)][..0] == [];
    assert Get(RowsAt(h, 1, doc), key) == 1;
    forall a: nat | a < |h| && Ancestor(h, a, 0) ensures Get(RowsAt(h, a, doc), key) == 0 {
    }
    assert !RowKept(h, doc, RowKeys([]), 0, 1, key);
  }

  lemma {:induction false} CountPositive(entries: seq<Entry>)
    ensures forall key | key in Count(entries) :: Count(entries)[key] > 0
  {
    if entries != [] {
      CountPositive(entries[..|entries| - 1]);
    }
  }
}
