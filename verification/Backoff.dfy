/**
 The login delay per e-mail address of src/cii_platform/auth/backoff.py: a bounded table of
 failure counts, against the streak of failures in the whole history.
 */
module Backoff {
  import opened Prelude

  const THRESHOLD := 5
  const BASE_DELAY_SECONDS := 0.4
  const MAX_DELAY_SECONDS := 6.4
  const WINDOW_SECONDS := 900.0
  const MAX_TRACKED_EMAILS := 10_000

  function Pow2(n: nat): (p: real)
    ensures p >= 1.0
  {
    if n == 0 then 1.0 else 2.0 * Pow2(n - 1)
  }

  function DelayForFailures(failures: nat): real {
    if failures < THRESHOLD then 0.0 else
    var delay := BASE_DELAY_SECONDS * Pow2(failures - THRESHOLD);
    if delay <= MAX_DELAY_SECONDS then delay else MAX_DELAY_SECONDS
  }

  lemma {:induction false} Pow2Grows(m: nat, n: nat)
    requires m <= n
    ensures Pow2(m) <= Pow2(n)
  {
    if m < n {
      Pow2Grows(m, n - 1);
    }
  }

  /** More failures never mean a shorter delay; the delay starts with the fifth failure and
      stays at its ceiling from the ninth on. */
  lemma DelayGrows(m: nat, n: nat)
    requires m <= n
    ensures DelayForFailures(m) <= DelayForFailures(n) <= 6.4
    ensures DelayForFailures(n) > 0.0 <==> n >= 5
    ensures DelayForFailures(n) == 6.4 <==> n >= 9
  {
    if m >= THRESHOLD {
      Pow2Grows(m - THRESHOLD, n - THRESHOLD);
    }
    assert Pow2(0) == 1.0 && Pow2(1) == 2.0 && Pow2(2) == 4.0 && Pow2(3) == 8.0 && Pow2(4) == 16.0;
    if n >= 9 {
      Pow2Grows(4, n - THRESHOLD);
    } else if n >= 5 {
      Pow2Grows(n - THRESHOLD, 3);
    }
  }

  /** Between the fifth failure and the ninth each failure doubles the delay. */
  lemma DelayDoubles(n: nat)
    requires 5 <= n < 9
    ensures DelayForFailures(5) == 0.4 && DelayForFailures(n + 1) == 2.0 * DelayForFailures(n)
  {
    assert Pow2(0) == 1.0 && Pow2(1) == 2.0 && Pow2(2) == 4.0 && Pow2(3) == 8.0 && Pow2(4) == 16.0;
  }

  /** The seconds to wait after so many failures in a row. */
  predicate DelayIs(failures: nat, delay: real) {
    if failures < 5 then delay == 0.0
    else if failures == 5 then delay == 0.4
    else if failures == 6 then delay == 0.8
    else if failures == 7 then delay == 1.6
    else if failures == 8 then delay == 3.2
    else delay == 6.4
  }

  lemma DelayTable(n: nat)
    ensures DelayIs(n, DelayForFailures(n))
  {
    DelayGrows(n, n);
    DelayDoubles(5);
    DelayDoubles(6);
    DelayDoubles(7);
  }

  // ---- The table: a dictionary in the order its keys were put in ----

  datatype Item = Item(email: string, failures: nat, last: real)

  type Table = seq<Item>

  function Lookup(t: Table, email: string): Option<Item> {
    if t == [] then None else if t[0].email == email then Some(t[0]) else Lookup(t[1..], email)
  }

  /** No key is there twice. */
  predicate Distinct(t: Table) {
    t == [] || (Lookup(t[1..], t[0].email).None? && Distinct(t[1..]))
  }

  function Pop(t: Table, email: string): Table {
    if t == [] then [] else if t[0].email == email then t[1..] else [t[0]] + Pop(t[1..], email)
  }

  function PopAll(t: Table, emails: seq<string>): Table
    decreases |emails|
  {
    if emails == [] then t else PopAll(Pop(t, emails[0]), emails[1..])
  }

  /** An entry keeps its place when it is overwritten; a new one goes to the end. */
  function Put(t: Table, x: Item): Table {
    if t == [] then [x] else if t[0].email == x.email then [x] + t[1..] else [t[0]] + Put(t[1..], x)
  }

  predicate Expired(last: real, now: real) {
    now - last > WINDOW_SECONDS
  }

  function Stale(t: Table, now: real): seq<string> {
    if t == [] then [] else (if Expired(t[0].last, now) then [t[0].email] else []) + Stale(t[1..], now)
  }

  /** Sorted by time; equal times stay in the order of the table. */
  function SortByLast(t: Table): (sorted: Table)
    ensures |sorted| == |t| && multiset(sorted) == multiset(t)
  {
    if t == [] then [] else
    assert t == [t[0]] + t[1..];
    Insert(t[0], SortByLast(t[1..]))
  }

  function Insert(x: Item, sorted: Table): (r: Table)
    ensures |r| == |sorted| + 1 && multiset(r) == multiset(sorted) + multiset{x}
  {
    if sorted == [] || x.last <= sorted[0].last then [x] + sorted else
    assert sorted == [sorted[0]] + sorted[1..];
    [sorted[0]] + Insert(x, sorted[1..])
  }

  function Emails(t: Table): (emails: seq<string>)
    ensures |emails| == |t|
    ensures forall i | 0 <= i < |t| :: emails[i] == t[i].email
  {
    if t == [] then [] else [t[0].email] + Emails(t[1..])
  }

  /** What _evict leaves of the table. */
  function Evicted(t: Table, now: real): Table {
    if |t| <= MAX_TRACKED_EMAILS then t else
    var kept := PopAll(t, Stale(t, now));
    if |kept| <= MAX_TRACKED_EMAILS then kept else
    PopAll(kept, Emails(SortByLast(kept)[..|kept| - MAX_TRACKED_EMAILS]))
  }

  // ---- The dictionary ----

  lemma {:induction false} LookupFinds(t: Table, email: string)
    ensures Lookup(t, email).Some? ==> Lookup(t, email).value in t && Lookup(t, email).value.email == email
    ensures Lookup(t, email).None? ==> forall x | x in t :: x.email != email
  {
    if t != [] && t[0].email != email {
      LookupFinds(t[1..], email);
    }
  }

  lemma {:induction false} MemberIsFound(t: Table, x: Item)
    requires Distinct(t) && x in t
    ensures Lookup(t, x.email) == Some(x)
  {
    if t[0] != x {
      MemberIsFound(t[1..], x);
    }
  }

  lemma Cons(x: Item, t: Table)
    requires Distinct(t) && Lookup(t, x.email).None?
    ensures Distinct([x] + t)
    ensures forall e :: Lookup([x] + t, e) == if e == x.email then Some(x) else Lookup(t, e)
  {
    assert ([x] + t)[1..] == t;
  }

  lemma {:induction false} PopFacts(t: Table, email: string)
    requires Distinct(t)
    ensures Distinct(Pop(t, email)) && forall x | x in Pop(t, email) :: x in t
    ensures forall e :: Lookup(Pop(t, email), e) == if e == email then None else Lookup(t, e)
    ensures |Pop(t, email)| == |t| - if Lookup(t, email).Some? then 1 else 0
  {
    if t != [] && t[0].email != email {
      PopFacts(t[1..], email);
      Cons(t[0], Pop(t[1..], email));
    }
  }

  lemma {:induction false} PopAllFacts(t: Table, emails: seq<string>)
    requires Distinct(t)
    ensures Distinct(PopAll(t, emails)) && forall x | x in PopAll(t, emails) :: x in t
    ensures forall e :: Lookup(PopAll(t, emails), e) == if e in emails then None else Lookup(t, e)
    ensures |PopAll(t, emails)| <= |t|
    decreases |emails|
  {
    if emails != [] {
      PopFacts(t, emails[0]);
      PopAllFacts(Pop(t, emails[0]), emails[1..]);
    }
  }

  lemma {:induction false} PopAllCounts(t: Table, emails: seq<string>)
    requires Distinct(t) && (forall i, j | 0 <= i < j < |emails| :: emails[i] != emails[j])
    requires forall i | 0 <= i < |emails| :: Lookup(t, emails[i]).Some?
    ensures |PopAll(t, emails)| == |t| - |emails|
    decreases |emails|
  {
    if emails != [] {
      PopFacts(t, emails[0]);
      PopAllCounts(Pop(t, emails[0]), emails[1..]);
    }
  }

  lemma {:induction false} PutFacts(t: Table, x: Item)
    requires Distinct(t)
    ensures Distinct(Put(t, x)) && forall y | y in Put(t, x) :: y == x || y in t
    ensures forall e :: Lookup(Put(t, x), e) == if e == x.email then Some(x) else Lookup(t, e)
    ensures |Put(t, x)| == |t| + if Lookup(t, x.email).Some? then 0 else 1
    ensures Lookup(t, x.email).None? ==> Put(t, x) == t + [x]
  {
    if t == [] {
      Cons(x, []);
    } else if t[0].email == x.email {
      Cons(x, t[1..]);
    } else {
      PutFacts(t[1..], x);
      Cons(t[0], Put(t[1..], x));
    }
  }

  /** An address that is there keeps its place. */
  lemma {:induction false} PutKeepsPlace(t: Table, x: Item, k: nat)
    requires Distinct(t) && k < |t| && t[k].email == x.email
    ensures Put(t, x) == t[k := x]
  {
    if k > 0 {
      LookupFinds(t[1..], t[0].email);
      assert t[1..][k - 1] == t[k];
      PutKeepsPlace(t[1..], x, k - 1);
    }
  }

  lemma {:induction false} StaleFacts(t: Table, now: real)
    requires Distinct(t)
    ensures forall e :: e in Stale(t, now) <==> Lookup(t, e).Some? && Expired(Lookup(t, e).value.last, now)
  {
    if t != [] {
      StaleFacts(t[1..], now);
    }
  }

  predicate Sorted(t: Table) {
    forall i, j | 0 <= i < j < |t| :: t[i].last <= t[j].last
  }

  lemma {:induction false} InsertSorted(x: Item, sorted: Table)
    requires Sorted(sorted)
    ensures Sorted(Insert(x, sorted))
  {
    if sorted != [] && x.last > sorted[0].last {
      InsertSorted(x, sorted[1..]);
      forall y | y in Insert(x, sorted[1..]) ensures sorted[0].last <= y.last {
        assert y in multiset(Insert(x, sorted[1..]));
        assert y == x || y in multiset(sorted[1..]);
      }
    }
  }

  lemma {:induction false} SortSorts(t: Table)
    ensures Sorted(SortByLast(t))
  {
    if t != [] {
      SortSorts(t[1..]);
      InsertSorted(t[0], SortByLast(t[1..]));
    }
  }

  /** The newest entry at the end of the table is not the first one to go, even among equals. */
  lemma {:induction false} NewestIsNotFirst(t: Table)
    requires |t| >= 2 && Distinct(t) && forall x | x in t :: x.last <= t[|t| - 1].last
    ensures SortByLast(t)[0] != t[|t| - 1]
  {
    var rest := t[1..];
    LookupFinds(rest, t[0].email);
    assert t[|t| - 1] == rest[|rest| - 1] && t[|t| - 1] in rest;
    if |t| == 2 {
      assert SortByLast(rest) == [t[1]] by { assert SortByLast(rest[1..]) == []; }
    } else {
      NewestIsNotFirst(rest);
      hide Distinct, Lookup;
    }
  }

  lemma {:induction false} PopKeepsLast(t: Table, email: string)
    requires t != [] && t[|t| - 1].email != email
    ensures Pop(t, email) != [] && Pop(t, email)[|Pop(t, email)| - 1] == t[|t| - 1]
  {
    if t[0].email != email {
      if |t| > 1 {
        PopKeepsLast(t[1..], email);
      } else {
        assert t[1..] == [] && Pop(t, email) == [t[0]];
      }
    }
  }

  lemma {:induction false} PopAllKeepsLast(t: Table, emails: seq<string>)
    requires t != [] && t[|t| - 1].email !in emails
    ensures PopAll(t, emails) != [] && PopAll(t, emails)[|PopAll(t, emails)| - 1] == t[|t| - 1]
    decreases |emails|
  {
    if emails != [] {
      PopKeepsLast(t, emails[0]);
      PopAllKeepsLast(Pop(t, emails[0]), emails[1..]);
    }
  }

  // ---- Eviction ----

  lemma SortedEmails(t: Table, sorted: Table)
    requires Distinct(t) && multiset(sorted) == multiset(t)
    ensures forall i | 0 <= i < |sorted| :: Lookup(t, sorted[i].email) == Some(sorted[i])
    ensures forall i, j | 0 <= i < j < |sorted| :: sorted[i].email != sorted[j].email
  {
    DistinctOnce(t);
    forall i | 0 <= i < |sorted| ensures Lookup(t, sorted[i].email) == Some(sorted[i]) {
      assert sorted[i] in multiset(sorted);
      MemberIsFound(t, sorted[i]);
    }
    hide Lookup, Distinct;
    forall i, j | 0 <= i < j < |sorted| ensures sorted[i].email != sorted[j].email {
      if sorted[i] == sorted[j] {
        TwiceInSeq(sorted, i, j);
      }
    }
  }

  lemma {:induction false} DistinctOnce(t: Table)
    requires Distinct(t)
    ensures forall x :: multiset(t)[x] <= 1
  {
    if t != [] {
      DistinctOnce(t[1..]);
      LookupFinds(t[1..], t[0].email);
      assert t == [t[0]] + t[1..];
    }
  }

  lemma TwiceInSeq(t: Table, i: nat, j: nat)
    requires i < j < |t| && t[i] == t[j]
    ensures multiset(t)[t[i]] >= 2
  {
    assert t == t[..i] + [t[i]] + t[i + 1..j] + [t[j]] + t[j + 1..];
  }

  lemma SortedAt(sorted: Table, i: nat, j: nat)
    requires Sorted(sorted) && i < j < |sorted|
    ensures sorted[i].last <= sorted[j].last
  {
  }

  /** x stands before y in the table. */
  ghost predicate Before(t: Table, x: Item, y: Item) {
    exists i, j | 0 <= i < j < |t| :: t[i] == x && t[j] == y
  }

  lemma BeforeInTail(t: Table, x: Item, y: Item)
    requires t != [] && (Before(t[1..], x, y) || (t[0] == x && y in t[1..]))
    ensures Before(t, x, y)
  {
    if Before(t[1..], x, y) {
      var i, j :| 0 <= i < j < |t[1..]| && t[1..][i] == x && t[1..][j] == y;
      assert t[i + 1] == x && t[j + 1] == y;
    } else {
      var j :| 0 <= j < |t[1..]| && t[1..][j] == y;
      assert t[0] == x && t[j + 1] == y;
    }
  }

  /** Entries are in the order of age, those of one age in the order of the table. */
  ghost predicate Stable(sorted: Table, t: Table) {
    forall i, j | 0 <= i < j < |sorted| && sorted[i].last == sorted[j].last :: Before(t, sorted[i], sorted[j])
  }

  /** The entries of the same age as x stand behind it in t. */
  ghost predicate Heads(x: Item, rest: Table, t: Table) {
    forall y | y in rest && y.last == x.last :: Before(t, x, y)
  }

  lemma StableCons(x: Item, rest: Table, t: Table)
    requires Stable(rest, t) && Heads(x, rest, t)
    ensures Stable([x] + rest, t)
  {
    var all := [x] + rest;
    forall i, j | 0 <= i < j < |all| && all[i].last == all[j].last
      ensures Before(t, all[i], all[j])
    {
      assert all[j] == rest[j - 1];
      if i > 0 {
        assert all[i] == rest[i - 1];
      }
    }
  }

  lemma StableTail(sorted: Table, t: Table)
    requires sorted != [] && Stable(sorted, t)
    ensures Stable(sorted[1..], t) && Heads(sorted[0], sorted[1..], t)
  {
    var rest := sorted[1..];
    forall i, j | 0 <= i < j < |rest| && rest[i].last == rest[j].last
      ensures Before(t, rest[i], rest[j])
    {
      assert rest[i] == sorted[i + 1] && rest[j] == sorted[j + 1];
    }
    forall y | y in rest && y.last == sorted[0].last
      ensures Before(t, sorted[0], y)
    {
      var k :| 0 <= k < |rest| && rest[k] == y;
      assert sorted[k + 1] == y;
    }
  }

  lemma {:induction false} InsertStable(x: Item, sorted: Table, t: Table)
    requires Stable(sorted, t) && forall y | y in sorted :: Before(t, x, y)
    ensures Stable(Insert(x, sorted), t)
    decreases |sorted|
  {
    hide Stable, Before;
    if sorted == [] || x.last <= sorted[0].last {
      StableCons(x, sorted, t);
    } else {
      var rest, r := sorted[1..], Insert(x, sorted[1..]);
      StableTail(sorted, t);
      InsertStable(x, rest, t);
      forall y | y in r && y.last == sorted[0].last
        ensures Before(t, sorted[0], y)
      {
        assert y in multiset(r);
        assert y in multiset(rest);
      }
      StableCons(sorted[0], r, t);
    }
  }

  lemma {:induction false} SortIsStable(t: Table)
    ensures Stable(SortByLast(t), t)
  {
    if t != [] {
      var rest := t[1..];
      SortIsStable(rest);
      SortSorts(rest);
      var sorted := SortByLast(rest);
      forall i, j | 0 <= i < j < |sorted| && sorted[i].last == sorted[j].last
        ensures Before(t, sorted[i], sorted[j])
      {
        BeforeInTail(t, sorted[i], sorted[j]);
      }
      forall y | y in sorted
        ensures Before(t, t[0], y)
      {
        assert y in multiset(sorted);
        BeforeInTail(t, t[0], y);
      }
      InsertStable(t[0], sorted, t);
    }
  }

  lemma {:induction false} PopKeepsOrder(t: Table, email: string, x: Item, y: Item)
    requires Before(Pop(t, email), x, y)
    ensures Before(t, x, y)
  {
    var p := Pop(t, email);
    var i, j :| 0 <= i < j < |p| && p[i] == x && p[j] == y;
    if t[0].email == email {
      BeforeInTail(t, x, y);
    } else {
      assert p == [t[0]] + Pop(t[1..], email);
      if i == 0 {
        PopHasOnly(t[1..], email, y);
      } else {
        assert Pop(t[1..], email)[i - 1] == x && Pop(t[1..], email)[j - 1] == y;
        PopKeepsOrder(t[1..], email, x, y);
      }
      BeforeInTail(t, x, y);
    }
  }

  lemma {:induction false} PopHasOnly(t: Table, email: string, y: Item)
    requires y in Pop(t, email)
    ensures y in t
  {
    if t[0].email != email && y != t[0] {
      PopHasOnly(t[1..], email, y);
    }
  }

  lemma {:induction false} PopAllKeepsOrder(t: Table, emails: seq<string>, x: Item, y: Item)
    requires Before(PopAll(t, emails), x, y)
    ensures Before(t, x, y)
    decreases |emails|
  {
    if emails != [] {
      PopAllKeepsOrder(Pop(t, emails[0]), emails[1..], x, y);
      PopKeepsOrder(t, emails[0], x, y);
    }
  }

  /** Of two entries that have not expired, x goes first: it is the older one, or of the same age
      and put in earlier. */
  ghost predicate GoesFirst(t: Table, x: Item, y: Item) {
    x.last < y.last || (x.last == y.last && Before(t, x, y))
  }

  /** The first `n` in that order go, and no other. */
  lemma OldestGo(t: Table, n: nat, email: string, x: Item)
    requires Distinct(t) && n <= |t|
    requires email in Emails(SortByLast(t)[..n]) && x in PopAll(t, Emails(SortByLast(t)[..n]))
    ensures Lookup(t, email).Some? && GoesFirst(t, Lookup(t, email).value, x)
  {
    hide *;
    var sorted := SortByLast(t);
    var oldest := Emails(sorted[..n]);
    var i :| 0 <= i < n && oldest[i] == email;
    SortSorts(t);
    SortIsStable(t);
    SortedEmails(t, sorted);
    PopAllFacts(t, oldest);
    MemberIsFound(PopAll(t, oldest), x);
    assert x in multiset(sorted);
    var j :| 0 <= j < |sorted| && sorted[j] == x;
    forall k | 0 <= k < n ensures sorted[k].email in oldest {
      assert oldest[k] == sorted[..n][k].email;
    }
    SortedAt(sorted, i, j);
    OrderedAt(t, sorted, i, j);
  }

  lemma OrderedAt(t: Table, sorted: Table, i: nat, j: nat)
    requires Sorted(sorted) && Stable(sorted, t) && i < j < |sorted|
    ensures GoesFirst(t, sorted[i], sorted[j])
  {
  }

  lemma OldestCount(t: Table, n: nat)
    requires Distinct(t) && n <= |t|
    ensures |PopAll(t, Emails(SortByLast(t)[..n]))| == |t| - n
  {
    SortedEmails(t, SortByLast(t));
    hide SortByLast, Emails, Distinct, Lookup, PopAll;
    PopAllCounts(t, Emails(SortByLast(t)[..n]));
  }

  /** What stays of a table that is too long: no entry older than fifteen minutes, the others as
      they were and in their order - all of them, or the 10,000 that go last. */
  ghost predicate Cut(t: Table, now: real, kept: Table) {
    && Distinct(kept) && |kept| <= 10_000
    && (forall x | x in kept :: x in t && now - x.last <= 900.0)
    && (forall x, y | Before(kept, x, y) :: Before(t, x, y))
    && (forall x | x in t && now - x.last <= 900.0 && x !in kept :: |kept| == 10_000 && forall y | y in kept :: GoesFirst(t, x, y))
  }

  /** A table of up to 10,000 addresses is left alone, and a longer one is cut. */
  lemma EvictedExactly(t: Table, now: real)
    requires Distinct(t)
    ensures |t| <= 10_000 ==> Evicted(t, now) == t
    ensures |t| > 10_000 ==> Cut(t, now, Evicted(t, now))
  {
    hide *;
    EvictedIs(t, now);
    if |t| > 10_000 {
      var kept := PopAll(t, Stale(t, now));
      SweptIsCut(t, now);
      if |kept| > 10_000 {
        CutToLimit(kept);
        CutAgain(t, now, kept, ToLimit(kept));
      }
    }
  }

  lemma SweptIsCut(t: Table, now: real)
    requires Distinct(t)
    ensures var kept := PopAll(t, Stale(t, now));
      && Distinct(kept) && (forall x :: x in kept <==> x in t && now - x.last <= 900.0)
      && (forall x, y | Before(kept, x, y) :: Before(t, x, y))
      && (|kept| <= 10_000 ==> Cut(t, now, kept))
  {
    hide Stale, PopAll, Distinct, Before;
    var stale := Stale(t, now);
    FreshStay(t, now);
    forall x, y | Before(PopAll(t, stale), x, y)
      ensures Before(t, x, y)
    {
      PopAllKeepsOrder(t, stale, x, y);
    }
  }

  lemma CutAgain(t: Table, now: real, swept: Table, kept: Table)
    requires forall x :: x in swept <==> x in t && now - x.last <= 900.0
    requires forall x, y | Before(swept, x, y) :: Before(t, x, y)
    requires Distinct(kept) && |kept| == 10_000 && forall x | x in kept :: x in swept
    requires forall x, y | Before(kept, x, y) :: Before(swept, x, y)
    requires forall x, y | x in swept && x !in kept && y in kept :: GoesFirst(swept, x, y)
    ensures Cut(t, now, kept)
  {
    hide Before, Distinct;
  }

  lemma EvictedIs(t: Table, now: real)
    ensures var kept := PopAll(t, Stale(t, now));
      Evicted(t, now) == if |t| <= 10_000 then t else if |kept| <= 10_000 then kept else ToLimit(kept)
  {
  }

  /** The table without the oldest ones that are too many. */
  function ToLimit(t: Table): Table
    requires |t| > 10_000
  {
    PopAll(t, Emails(SortByLast(t)[..|t| - MAX_TRACKED_EMAILS]))
  }

  /** Sweeping leaves exactly the entries that are not older than fifteen minutes. */
  lemma FreshStay(t: Table, now: real)
    requires Distinct(t)
    ensures var kept := PopAll(t, Stale(t, now));
      Distinct(kept) && forall x :: x in kept <==> x in t && now - x.last <= 900.0
  {
    var stale := Stale(t, now);
    var kept := PopAll(t, stale);
    PopAllFacts(t, stale);
    StaleFacts(t, now);
    hide Stale, PopAll, Distinct, Lookup;
    forall x
      ensures x in kept <==> x in t && now - x.last <= 900.0
    {
      if x in t {
        MemberIsFound(t, x);
        LookupFinds(kept, x.email);
      }
    }
  }

  lemma CutToLimit(t: Table)
    requires Distinct(t) && |t| > 10_000
    ensures var kept := ToLimit(t);
      && Distinct(kept) && |kept| == 10_000 && (forall x | x in kept :: x in t)
      && (forall x, y | Before(kept, x, y) :: Before(t, x, y))
      && (forall x, y | x in t && x !in kept && y in kept :: GoesFirst(t, x, y))
  {
    var n := |t| - MAX_TRACKED_EMAILS;
    var oldest := Emails(SortByLast(t)[..n]);
    var kept := PopAll(t, oldest);
    OldestCount(t, n);
    PopAllFacts(t, oldest);
    hide SortByLast, Emails, Distinct, Lookup, PopAll, Before;
    forall x, y | Before(kept, x, y)
      ensures Before(t, x, y)
    {
      PopAllKeepsOrder(t, oldest, x, y);
    }
    forall x, y | x in t && x !in kept && y in kept
      ensures GoesFirst(t, x, y)
    {
      MemberIsFound(t, x);
      LookupFinds(kept, x.email);
      OldestGo(t, n, x.email, y);
    }
  }

  /** What stays after _evict, as lookups see it: nothing is gone but expired entries - unless the
      rest are still too many, and then none that stays is older than one that went. */
  lemma EvictedFacts(t: Table, now: real)
    requires Distinct(t)
    ensures Distinct(Evicted(t, now)) && |Evicted(t, now)| <= MAX_TRACKED_EMAILS
    ensures forall x | x in Evicted(t, now) :: x in t
    ensures forall e :: Lookup(Evicted(t, now), e) == Lookup(t, e) || Lookup(Evicted(t, now), e).None?
    ensures forall e :: Lookup(t, e).Some? && Lookup(Evicted(t, now), e).None? && !Expired(Lookup(t, e).value.last, now) ==>
      |t| > MAX_TRACKED_EMAILS && |Evicted(t, now)| == MAX_TRACKED_EMAILS
      && forall x | x in Evicted(t, now) :: Lookup(t, e).value.last <= x.last
  {
    var kept := Evicted(t, now);
    EvictedExactly(t, now);
    hide Evicted, Distinct, Before, Lookup;
    forall e
      ensures Lookup(kept, e) == Lookup(t, e) || Lookup(kept, e).None?
      ensures Lookup(t, e).Some? && Lookup(kept, e).None? && !Expired(Lookup(t, e).value.last, now) ==>
        |t| > MAX_TRACKED_EMAILS && |kept| == MAX_TRACKED_EMAILS && forall x | x in kept :: Lookup(t, e).value.last <= x.last
    {
      LookupFinds(t, e);
      LookupFinds(kept, e);
      if Lookup(kept, e).Some? {
        MemberIsFound(t, Lookup(kept, e).value);
      }
    }
  }

  /** The newest entry, at the end of a table that is one too long, stays. */
  lemma NewestStays(t: Table, now: real)
    requires Distinct(t) && t != [] && |t| <= MAX_TRACKED_EMAILS + 1
    requires forall x | x in t :: x.last <= t[|t| - 1].last
    requires t[|t| - 1].last == now
    ensures Lookup(Evicted(t, now), t[|t| - 1].email) == Some(t[|t| - 1])
  {
    var x := t[|t| - 1];
    MemberIsFound(t, x);
    if |t| > MAX_TRACKED_EMAILS {
      var stale := Stale(t, now);
      var kept := PopAll(t, stale);
      assert x.email !in stale by {
        StaleFacts(t, now);
      }
      PopAllFacts(t, stale);
      PopAllKeepsLast(t, stale);
      hide Stale, PopAll, SortByLast, Emails, Distinct, Lookup;
      if |kept| > MAX_TRACKED_EMAILS {
        assert |kept| == MAX_TRACKED_EMAILS + 1;
        NewestIsNotOldest(kept);
        PopAllFacts(kept, Emails(SortByLast(kept)[..1]));
      }
    }
  }

  lemma NewestIsNotOldest(t: Table)
    requires |t| >= 2 && Distinct(t) && forall x | x in t :: x.last <= t[|t| - 1].last
    ensures t[|t| - 1].email !in Emails(SortByLast(t)[..1])
  {
    var x := t[|t| - 1];
    var first := SortByLast(t)[0];
    NewestIsNotFirst(t);
    assert first in multiset(SortByLast(t));
    MemberIsFound(t, x);
    MemberIsFound(t, first);
    hide SortByLast, Emails, Distinct, Lookup;
  }

  // ---- The whole history ----

  datatype Event =
    | Failed(email: string, checked: real, recorded: real)
    | Succeeded(email: string)

  datatype Streak = Streak(failures: nat, last: real)

  /** The failures in a row of one address, in a history of which nothing is forgotten: a
      success ends the streak, and so does a failure more than 15 minutes after the last one. */
  function StreakOf(log: seq<Event>, email: string): Option<Streak> {
    if log == [] then None else
    var before := StreakOf(log[..|log| - 1], email);
    match log[|log| - 1]
    case Succeeded(e) => if e == email then None else before
    case Failed(e, checked, recorded) =>
      if e != email then before
      else if before.None? || Expired(before.value.last, checked) then Some(Streak(1, recorded))
      else Some(Streak(before.value.failures + 1, recorded))
  }

  /** The failures that count at a given time. */
  function Counted(streak: Option<Streak>, now: real): nat {
    if streak.None? || Expired(streak.value.last, now) then 0 else streak.value.failures
  }

  /** Up to `end`, the latest event of the address is a success or a failure more than fifteen
      minutes before `time`, or there is none. */
  ghost predicate Pauses(log: seq<Event>, email: string, end: nat, time: real) {
    end <= |log|
    && forall i | 0 <= i < end && log[i].email == email && (forall j | i < j < end :: log[j].email != email) ::
         log[i].Succeeded? || time - log[i].recorded > 900.0
  }

  /** Failures of the address in a row, up to the end of the history: none with a success or
      with more than fifteen minutes between them, and none more in front. */
  ghost predicate IsRun(at: seq<nat>, log: seq<Event>, email: string) {
    && Increasing(at)
    && (forall k | 0 <= k < |at| :: at[k] < |log| && log[at[k]].Failed? && log[at[k]].email == email)
    && (forall k | 0 < k < |at| :: log[at[k]].checked - log[at[k - 1]].recorded <= 900.0)
    && (at != [] ==> (forall i | at[0] <= i < |log| && log[i].email == email :: i in at)
                     && Pauses(log, email, at[0], log[at[0]].checked))
  }

  /** The failures of the address that count at a given time. */
  ghost predicate InARow(at: seq<nat>, log: seq<Event>, email: string, now: real) {
    IsRun(at, log, email)
    && if at == [] then Pauses(log, email, |log|, now) else now - log[at[|at| - 1]].recorded <= 900.0
  }

  /** The delay is that of the failures in a row. */
  ghost predicate Owed(log: seq<Event>, email: string, now: real, delay: real) {
    exists at :: InARow(at, log, email, now) && DelayIs(|at|, delay)
  }

  /** The run of a streak. */
  ghost predicate RunOf(at: seq<nat>, log: seq<Event>, email: string, streak: Option<Streak>) {
    && IsRun(at, log, email)
    && match streak
       case None => at == [] && forall time :: Pauses(log, email, |log|, time)
       case Some(s) => |at| == s.failures > 0 && log[at[|at| - 1]].recorded == s.last
  }

  lemma OtherEvent(front: seq<Event>, next: Event, email: string, at: seq<nat>, streak: Option<Streak>)
    requires RunOf(at, front, email, streak) && next.email != email
    ensures RunOf(at, front + [next], email, streak)
  {
    var log := front + [next];
    assert forall i | 0 <= i < |front| :: log[i] == front[i];
    forall time | streak.None?
      ensures Pauses(log, email, |log|, time)
    {
      assert Pauses(front, email, |front|, time);
    }
  }

  /** Where a run has ended, a new one may begin. */
  lemma RunPauses(at: seq<nat>, log: seq<Event>, email: string, streak: Option<Streak>, time: real)
    requires RunOf(at, log, email, streak) && (streak.Some? ==> time - streak.value.last > 900.0)
    ensures Pauses(log, email, |log|, time)
  {
    if streak.Some? {
      forall i | 0 <= i < |log| && log[i].email == email && (forall j | i < j < |log| :: log[j].email != email)
        ensures time - log[i].recorded > 900.0
      {
        var last := at[|at| - 1];
        assert !(i < last < |log|);
        var k :| 0 <= k < |at| && at[k] == i;
      }
    }
  }

  lemma FirstFailure(front: seq<Event>, next: Event, email: string)
    requires next.Failed? && next.email == email && Pauses(front, email, |front|, next.checked)
    ensures RunOf([|front|], front + [next], email, Some(Streak(1, next.recorded)))
  {
    assert forall i | 0 <= i < |front| :: (front + [next])[i] == front[i];
  }

  lemma PausesStay(front: seq<Event>, next: Event, email: string, end: nat, time: real)
    requires Pauses(front, email, end, time)
    ensures Pauses(front + [next], email, end, time)
  {
    assert forall i | 0 <= i < |front| :: (front + [next])[i] == front[i];
  }

  lemma FurtherFailure(front: seq<Event>, next: Event, email: string, at: seq<nat>, streak: Streak)
    requires RunOf(at, front, email, Some(streak)) && next.Failed? && next.email == email
    requires next.checked - streak.last <= 900.0
    ensures RunOf(at + [|front|], front + [next], email, Some(Streak(streak.failures + 1, next.recorded)))
  {
    hide Pauses;
    var log, all := front + [next], at + [|front|];
    assert all[0] == at[0] && log[at[0]] == front[at[0]];
    PausesStay(front, next, email, at[0], front[at[0]].checked);
    forall k | 0 <= k < |all|
      ensures all[k] < |log| && log[all[k]].Failed? && log[all[k]].email == email
      ensures k > 0 ==> log[all[k]].checked - log[all[k - 1]].recorded <= 900.0
    {
      if k < |at| {
        assert all[k] == at[k] && log[at[k]] == front[at[k]];
      }
      if k > 0 {
        assert all[k - 1] == at[k - 1] && log[at[k - 1]] == front[at[k - 1]];
      }
    }
    forall i | all[0] <= i < |log| && log[i].email == email
      ensures i in all
    {
      if i < |front| {
        assert log[i] == front[i] && i in at;
      }
    }
  }

  lemma AfterSuccess(front: seq<Event>, email: string)
    ensures RunOf([], front + [Succeeded(email)], email, None)
  {
    assert (front + [Succeeded(email)])[|front|].email == email;
  }

  /** The streak is the run of failures in the history. */
  lemma {:induction false} StreakIsRun(log: seq<Event>, email: string) returns (at: seq<nat>)
    ensures RunOf(at, log, email, StreakOf(log, email))
  {
    at := [];
    if log != [] {
      var front, next := log[..|log| - 1], log[|log| - 1];
      assert log == front + [next];
      at := StreakIsRun(front, email);
      var before := StreakOf(front, email);
      hide RunOf;
      if next.email != email {
        OtherEvent(front, next, email, at, before);
      } else if next.Succeeded? {
        at := [];
        AfterSuccess(front, email);
      } else if before.None? || Expired(before.value.last, next.checked) {
        RunPauses(at, front, email, before, next.checked);
        at := [|front|];
        FirstFailure(front, next, email);
      } else {
        FurtherFailure(front, next, email, at, before.value);
        at := at + [|front|];
      }
    }
  }

  /** What counts is exactly that many failures in a row, and the delay is theirs. */
  lemma CountedInARow(log: seq<Event>, email: string, now: real)
    ensures Owed(log, email, now, DelayForFailures(Counted(StreakOf(log, email), now)))
  {
    var streak := StreakOf(log, email);
    var at := StreakIsRun(log, email);
    DelayTable(Counted(streak, now));
    hide StreakOf, DelayForFailures, DelayIs;
    if streak.None? || Expired(streak.value.last, now) {
      RunPauses(at, log, email, streak, now);
      assert InARow([], log, email, now);
    } else {
      assert InARow(at, log, email, now);
    }
  }

  function AsStreak(entry: Option<Item>): Option<Streak> {
    if entry.None? then None else Some(Streak(entry.value.failures, entry.value.last))
  }

  /** Sweeping expired entries out changes no answer, then or later. */
  lemma SweepChangesNoAnswer(t: Table, email: string, swept: real, now: real)
    requires Distinct(t) && swept <= now
    ensures Counted(AsStreak(Lookup(PopAll(t, Stale(t, swept)), email)), now) == Counted(AsStreak(Lookup(t, email)), now)
  {
    PopAllFacts(t, Stale(t, swept));
    StaleFacts(t, swept);
  }

  /** How an entry of the table stands to the streak in the history. `lossy`: the streak lost
      its entry, or an earlier one of it, because the table was full. */
  predicate Agrees(entry: Option<Item>, streak: Option<Streak>, lossy: bool, clock: real) {
    match entry
    case Some(x) =>
      && streak.Some? && streak.value.last == x.last <= clock
      && 1 <= x.failures <= streak.value.failures
      && (lossy || x.failures == streak.value.failures)
    case None => lossy || streak.None? || Expired(streak.value.last, clock)
  }

  ghost predicate AllAgree(t: Table, log: seq<Event>, lossy: set<string>, clock: real) {
    forall email :: Agrees(Lookup(t, email), StreakOf(log, email), email in lossy, clock)
  }

  lemma AgreeAt(t: Table, log: seq<Event>, lossy: set<string>, clock: real, email: string)
    requires AllAgree(t, log, lossy, clock)
    ensures Agrees(Lookup(t, email), StreakOf(log, email), email in lossy, clock)
  {
  }

  /** The addresses whose entry a full table drops although it has not expired. */
  ghost function Dropped(t: Table, now: real): set<string> {
    set x | x in t && Lookup(Evicted(t, now), x.email).None? && !Expired(x.last, now) :: x.email
  }

  /** Time passes, and an entry that has expired is taken out. */
  lemma AgreeLater(t: Table, next: Table, log: seq<Event>, lossy: set<string>, clock: real, now: real)
    requires AllAgree(t, log, lossy, clock) && clock <= now
    requires forall e :: Lookup(next, e) == Lookup(t, e)
                      || (Lookup(next, e).None? && Lookup(t, e).Some? && Expired(Lookup(t, e).value.last, now))
    ensures AllAgree(next, log, lossy, now)
  {
    forall e ensures Agrees(Lookup(next, e), StreakOf(log, e), e in lossy, now) {
      AgreeAt(t, log, lossy, clock, e);
    }
  }

  /** The streak after one more failure of the same address. */
  function NextStreak(before: Option<Streak>, checked: real, recorded: real): Streak {
    if before.None? || Expired(before.value.last, checked) then Streak(1, recorded) else Streak(before.value.failures + 1, recorded)
  }

  lemma StreakFailed(log: seq<Event>, email: string, checked: real, recorded: real, e: string)
    ensures StreakOf(log + [Failed(email, checked, recorded)], e)
         == if e == email then Some(NextStreak(StreakOf(log, email), checked, recorded)) else StreakOf(log, e)
  {
    assert (log + [Failed(email, checked, recorded)])[..|log|] == log;
  }

  /** A streak that begins again has lost nothing. */
  ghost function LossyAfter(lossy: set<string>, email: string, streak: Streak): set<string> {
    if streak.failures == 1 then lossy - {email} else lossy
  }

  lemma AgreesNext(entry: Option<Item>, streak: Option<Streak>, lossy: bool, email: string, checked: real, recorded: real)
    requires Agrees(entry, streak, lossy, checked) && checked <= recorded
    requires entry.Some? ==> !Expired(entry.value.last, checked)
    ensures var next := NextStreak(streak, checked, recorded);
      Agrees(Some(Item(email, Counted(AsStreak(entry), checked) + 1, recorded)), Some(next), lossy && next.failures != 1, recorded)
  {
  }

  /** A failure is put into the table. */
  lemma AgreeFailed(t: Table, log: seq<Event>, lossy: set<string>, email: string, checked: real, recorded: real)
    requires Distinct(t) && AllAgree(t, log, lossy, checked) && checked <= recorded
    requires Lookup(t, email).Some? ==> !Expired(Lookup(t, email).value.last, checked)
    ensures var counted := Counted(AsStreak(Lookup(t, email)), checked);
      AllAgree(Put(t, Item(email, counted + 1, recorded)), log + [Failed(email, checked, recorded)],
               LossyAfter(lossy, email, NextStreak(StreakOf(log, email), checked, recorded)), recorded)
  {
    hide *;
    var entry := Lookup(t, email);
    var x := Item(email, Counted(AsStreak(entry), checked) + 1, recorded);
    var next := log + [Failed(email, checked, recorded)];
    var streak := NextStreak(StreakOf(log, email), checked, recorded);
    var after := LossyAfter(lossy, email, streak);
    PutFacts(t, x);
    AgreeAt(t, log, lossy, checked, email);
    AgreesNext(entry, StreakOf(log, email), email in lossy, email, checked, recorded);
    forall e ensures Agrees(Lookup(Put(t, x), e), StreakOf(next, e), e in after, recorded) {
      StreakFailed(log, email, checked, recorded, e);
      LossyAt(lossy, email, streak, e);
      if e != email {
        AgreeAt(t, log, lossy, checked, e);
        AgreesLater(Lookup(t, e), StreakOf(log, e), e in lossy, checked, recorded);
      }
    }
    AllAgreeIntro(Put(t, x), next, after, recorded);
  }

  lemma LossyAt(lossy: set<string>, email: string, streak: Streak, e: string)
    ensures e in LossyAfter(lossy, email, streak) <==> e in lossy && (e == email ==> streak.failures != 1)
  {
  }

  lemma AgreesLater(entry: Option<Item>, streak: Option<Streak>, lossy: bool, clock: real, now: real)
    requires Agrees(entry, streak, lossy, clock) && clock <= now
    ensures Agrees(entry, streak, lossy, now)
  {
  }

  lemma AllAgreeIntro(t: Table, log: seq<Event>, lossy: set<string>, clock: real)
    requires forall e :: Agrees(Lookup(t, e), StreakOf(log, e), e in lossy, clock)
    ensures AllAgree(t, log, lossy, clock)
  {
  }

  /** A table that was too long is cut. */
  lemma AgreeEvicted(t: Table, log: seq<Event>, lossy: set<string>, now: real)
    requires Distinct(t) && AllAgree(t, log, lossy, now)
    ensures AllAgree(Evicted(t, now), log, lossy + Dropped(t, now), now)
  {
    EvictedFacts(t, now);
    forall e ensures Agrees(Lookup(Evicted(t, now), e), StreakOf(log, e), e in lossy + Dropped(t, now), now) {
      AgreeAt(t, log, lossy, now, e);
      LookupFinds(t, e);
    }
  }

  lemma AgreeSucceeded(t: Table, log: seq<Event>, lossy: set<string>, clock: real, email: string)
    requires Distinct(t) && AllAgree(t, log, lossy, clock)
    ensures AllAgree(Pop(t, email), log + [Succeeded(email)], lossy - {email}, clock)
  {
    PopFacts(t, email);
    assert (log + [Succeeded(email)])[..|log|] == log;
    forall e ensures Agrees(Lookup(Pop(t, email), e), StreakOf(log + [Succeeded(email)], e), e in lossy - {email}, clock) {
      AgreeAt(t, log, lossy, clock, e);
    }
  }

  /** What agreement means for the answer. */
  lemma AgreedAnswer(t: Table, log: seq<Event>, lossy: set<string>, now: real, email: string)
    requires AllAgree(t, log, lossy, now)
    ensures var counted, full := Counted(AsStreak(Lookup(t, email)), now), Counted(StreakOf(log, email), now);
      && DelayForFailures(counted) <= DelayForFailures(full)
      && (email !in lossy ==> counted == full)
  {
    AgreeAt(t, log, lossy, now, email);
    DelayGrows(Counted(AsStreak(Lookup(t, email)), now), Counted(StreakOf(log, email), now));
  }

  /** The entry just put into the table survives the cut after it. */
  lemma RecordedStays(t: Table, x: Item, log: seq<Event>, lossy: set<string>)
    requires Distinct(t) && |t| <= MAX_TRACKED_EMAILS
    requires AllAgree(Put(t, x), log, lossy, x.last)
    ensures Lookup(Evicted(Put(t, x), x.last), x.email) == Some(x)
    ensures x.email !in Dropped(Put(t, x), x.last)
    ensures |t| < MAX_TRACKED_EMAILS ==> Dropped(Put(t, x), x.last) == {}
  {
    var next := Put(t, x);
    PutFacts(t, x);
    forall y | y in next ensures y.last <= x.last && Lookup(next, y.email) == Some(y) {
      MemberIsFound(next, y);
      AgreeAt(next, log, lossy, x.last, y.email);
    }
    hide AllAgree, Distinct, StreakOf, Put;
    if Lookup(t, x.email).None? {
      NewestStays(next, x.last);
    }
  }

  /** Only addresses whose last failure is the longest ago lose their entry. */
  lemma DroppedAreOldest(t: Table, log: seq<Event>, lossy: set<string>, now: real, email: string)
    requires Distinct(t) && AllAgree(t, log, lossy, now) && email in Dropped(t, now)
    ensures StreakOf(log, email).Some? && |Evicted(t, now)| == 10_000
    ensures forall y | y in Evicted(t, now) :: StreakOf(log, email).value.last <= y.last
  {
    var x :| x in t && Lookup(Evicted(t, now), x.email).None? && !Expired(x.last, now) && x.email == email;
    MemberIsFound(t, x);
    AgreeAt(t, log, lossy, now, email);
    EvictedFacts(t, now);
    hide Evicted, Lookup, StreakOf, Distinct, AllAgree;
  }

  class LoginBackoff {
    var failures: Table

    /** Every failure and success since the start, the latest clock reading, and the addresses
        whose streak lost an entry because the table was full. */
    ghost var log: seq<Event>
    ghost var clock: real
    ghost var lossy: set<string>

    ghost predicate Valid()
      reads this
    {
      && Distinct(failures) && |failures| <= MAX_TRACKED_EMAILS
      && AllAgree(failures, log, lossy, clock)
    }

    constructor (now: real)
      ensures Valid() && log == [] && lossy == {} && clock == now
    {
      failures := [];
      log := [];
      clock := now;
      lossy := {};
    }

    method Current(email: string, now: real) returns (count: nat, last: real)
      requires Valid() && clock <= now
      modifies this
      ensures Valid() && clock == now && log == old(log) && lossy == old(lossy)
      ensures count == Counted(AsStreak(Lookup(failures, email)), now)
      ensures Lookup(failures, email).Some? ==> !Expired(Lookup(failures, email).value.last, now)
      ensures |failures| <= old(|failures|)
    {
      ghost var was := failures;
      PopFacts(failures, email);
      AgreeLater(failures, failures, log, lossy, clock, now);
      clock := now;
      hide AllAgree, Distinct, StreakOf, Pop;
      match Lookup(failures, email)
      case None =>
        return 0, 0.0;
      case Some(entry) =>
        if now - entry.last > WINDOW_SECONDS {
          failures := Pop(failures, email);
          AgreeLater(was, failures, log, lossy, now, now);
          return 0, 0.0;
        }
        return entry.failures, entry.last;
    }

    /** Before an attempt: the delay of the streak in the whole history, for every address that
        a full table did not touch - and never a longer one. */
    method DelaySeconds(email: string, now: real) returns (delay: real)
      requires Valid() && clock <= now
      modifies this
      ensures Valid() && clock == now && log == old(log) && lossy == old(lossy)
      ensures delay <= DelayForFailures(Counted(StreakOf(log, email), now))
      ensures email !in lossy ==> delay == DelayForFailures(Counted(StreakOf(log, email), now)) && Owed(log, email, now, delay)
    {
      CountedInARow(log, email, now);
      var count, _ := Current(email, now);
      AgreedAnswer(failures, log, lossy, now, email);
      return DelayForFailures(count);
    }

    method Evict(now: real)
      modifies this`failures
      ensures failures == Evicted(old(failures), now)
    {
      hide SortByLast, Emails, PopAll;
      if |failures| <= MAX_TRACKED_EMAILS {
        return;
      }
      var stale: seq<string> := [];
      var i := 0;
      while i < |failures|
        invariant i <= |failures|
        invariant stale + Stale(failures[i..], now) == Stale(failures, now)
      {
        if now - failures[i].last > WINDOW_SECONDS {
          stale := stale + [failures[i].email];
        }
        i := i + 1;
      }
      assert stale == Stale(failures, now);
      PopEach(stale);
      var excess := |failures| - MAX_TRACKED_EMAILS;
      if excess <= 0 {
        return;
      }
      PopEach(Emails(SortByLast(failures)[..excess]));
    }

    method PopEach(emails: seq<string>)
      modifies this`failures
      ensures failures == PopAll(old(failures), emails)
    {
      var i := 0;
      while i < |emails|
        invariant i <= |emails|
        invariant PopAll(failures, emails[i..]) == PopAll(old(failures), emails)
      {
        failures := Pop(failures, emails[i]);
        i := i + 1;
      }
    }

    /** After a failure: the table is not over its limit, the entry just recorded is in it, and
        an address only becomes lossy when the table was full. */
    method RecordFailure(email: string, checked: real, recorded: real)
      requires Valid() && clock <= checked <= recorded
      modifies this
      ensures Valid() && clock == recorded && log == old(log) + [Failed(email, checked, recorded)]
      ensures Lookup(failures, email).Some? && Lookup(failures, email).value.last == recorded
      ensures email in lossy ==> email in old(lossy) && StreakOf(log, email) != Some(Streak(1, recorded))
      ensures old(|failures|) < 10_000 ==> lossy <= old(lossy)
      ensures !(lossy <= old(lossy)) ==> |failures| == 10_000
      ensures forall e | e in lossy && e !in old(lossy) ::
        StreakOf(log, e).Some? && forall y | y in failures :: StreakOf(log, e).value.last <= y.last
    {
      hide AllAgree, Distinct, StreakOf, Pop, Put, Lookup, Evicted;
      var count, _ := Current(email, checked);
      ghost var x := Item(email, count + 1, recorded);
      ghost var was := failures;
      PutFacts(failures, x);
      AgreeFailed(failures, log, lossy, email, checked, recorded);
      ghost var streak := NextStreak(StreakOf(log, email), checked, recorded);
      StreakFailed(log, email, checked, recorded, email);
      failures := Put(failures, Item(email, count + 1, recorded));
      log := log + [Failed(email, checked, recorded)];
      lossy := LossyAfter(lossy, email, streak);
      clock := recorded;
      RecordedStays(was, x, log, lossy);
      EvictedFacts(failures, recorded);
      AgreeEvicted(failures, log, lossy, recorded);
      forall e | e in Dropped(failures, recorded)
        ensures StreakOf(log, e).Some? && |Evicted(failures, recorded)| == 10_000
        ensures forall y | y in Evicted(failures, recorded) :: StreakOf(log, e).value.last <= y.last
      {
        DroppedAreOldest(failures, log, lossy, recorded, e);
      }
      lossy := lossy + Dropped(failures, recorded);
      Evict(recorded);
    }

    method RecordSuccess(email: string)
      requires Valid()
      modifies this
      ensures Valid() && clock == old(clock) && log == old(log) + [Succeeded(email)]
      ensures lossy == old(lossy) - {email}
    {
      PopFacts(failures, email);
      AgreeSucceeded(failures, log, lossy, clock, email);
      failures := Pop(failures, email);
      log := log + [Succeeded(email)];
      lossy := lossy - {email};
    }
  }
}
