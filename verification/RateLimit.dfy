/**
 The fixed-window request limit of src/cii_platform/api/rate_limit.py, against the whole
 history of calls: the limiter only keeps one counter per key and one window start.
 */
module RateLimit {
  const WINDOW_SECONDS := 60.0

  type Bucket = string
  type Key = (Bucket, string)

  /** A call that got as far as reading the clock. */
  datatype Call = Call(time: real, key: Key)

  datatype RateLimits = RateLimits(default_: int, auth: int, calculation: int, chat: int) {
    function ForBucket(bucket: Bucket): int {
      if bucket == "auth" then auth
      else if bucket == "calculation" then calculation
      else if bucket == "chat" then chat
      else default_
    }
  }

  // ---- The history ----

  /** The clock does not go back. */
  predicate Ordered(start: real, log: seq<Call>) {
    && (forall i | 0 <= i < |log| :: start <= log[i].time)
    && (forall i, j | 0 <= i < j < |log| :: log[i].time <= log[j].time)
  }

  /** Where the window begins in which the last call of the history falls: windows begin at
      `start` and at every first call that is 60 seconds or more after the last beginning. */
  function WindowStart(start: real, log: seq<Call>): real {
    if log == [] then start else
    var before := WindowStart(start, log[..|log| - 1]);
    if log[|log| - 1].time - before >= WINDOW_SECONDS then log[|log| - 1].time else before
  }

  /** The calls with this key at `since` or later. */
  function CallsSince(log: seq<Call>, key: Key, since: real): nat {
    if log == [] then 0 else
    CallsSince(log[..|log| - 1], key, since) + if log[|log| - 1].key == key && log[|log| - 1].time >= since then 1 else 0
  }

  /** The last call of the history is turned away: its window already holds `limit` calls
      with the same key. */
  predicate LastRejected(start: real, log: seq<Call>, limit: int)
    requires log != []
  {
    CallsSince(log[..|log| - 1], log[|log| - 1].key, WindowStart(start, log)) >= limit
  }

  /** The accepted calls with this key in the time from `from` up to but not at `to`. */
  function Accepted(start: real, log: seq<Call>, key: Key, limit: int, from: real, to: real): nat {
    if log == [] then 0 else
    var last := log[|log| - 1];
    Accepted(start, log[..|log| - 1], key, limit, from, to)
      + if last.key == key && from <= last.time < to && !LastRejected(start, log, limit) then 1 else 0
  }

  // ---- Windows ----

  /** The window of the last call contains it, and begins at `start` or at one of the calls. */
  lemma {:induction false} WindowHoldsLastCall(start: real, log: seq<Call>)
    requires Ordered(start, log)
    ensures start <= WindowStart(start, log)
    ensures log != [] ==> WindowStart(start, log) <= log[|log| - 1].time < WindowStart(start, log) + 60.0
  {
    if log != [] {
      WindowHoldsLastCall(start, log[..|log| - 1]);
    }
  }

  /** All calls come before the time. */
  predicate AllBefore(log: seq<Call>, time: real) {
    forall i | 0 <= i < |log| :: log[i].time < time
  }

  /** The next window begins with the first call that comes 60 seconds or more after the
      beginning of the one before. */
  ghost predicate Follows(before: real, next: real, log: seq<Call>) {
    exists i | 0 <= i < |log| && log[i].time == next :: next >= before + 60.0 && AllBefore(log[..i], before + 60.0)
  }

  /** The beginnings of the windows, the last of which holds the last call. */
  ghost predicate AreWindows(begins: seq<real>, start: real, log: seq<Call>) {
    && begins != [] && begins[0] == start
    && (forall k | 0 < k < |begins| :: Follows(begins[k - 1], begins[k], log))
    && AllBefore(log, begins[|begins| - 1] + 60.0)
  }

  lemma FollowsStill(before: real, next: real, front: seq<Call>, last: Call)
    requires Follows(before, next, front)
    ensures Follows(before, next, front + [last])
  {
    var log := front + [last];
    var i :| 0 <= i < |front| && front[i].time == next && next >= before + 60.0 && AllBefore(front[..i], before + 60.0);
    assert log[i] == front[i] && log[..i] == front[..i];
  }

  lemma FollowsNow(before: real, front: seq<Call>, last: Call)
    requires AllBefore(front, before + 60.0) && last.time >= before + 60.0
    ensures Follows(before, last.time, front + [last])
  {
    var log := front + [last];
    assert log[|front|] == last && log[..|front|] == front;
  }

  lemma BeforeStill(front: seq<Call>, last: Call, time: real)
    requires AllBefore(front, time) && last.time < time
    ensures AllBefore(front + [last], time)
  {
  }

  /** The window of the last call is the last of these. */
  lemma {:induction false} WindowsFollow(start: real, log: seq<Call>) returns (begins: seq<real>)
    requires Ordered(start, log)
    ensures AreWindows(begins, start, log) && WindowStart(start, log) == begins[|begins| - 1]
  {
    begins := [start];
    if log != [] {
      var front, last := log[..|log| - 1], log[|log| - 1];
      begins := WindowsFollow(start, front);
      var before := begins[|begins| - 1];
      WindowNext(start, log);
      hide WindowStart, Follows, AllBefore, Ordered;
      assert log == front + [last];
      forall k | 0 < k < |begins|
        ensures Follows(begins[k - 1], begins[k], log)
      {
        FollowsStill(begins[k - 1], begins[k], front, last);
      }
      if last.time - before >= 60.0 {
        FollowsNow(before, front, last);
        LaterStill(front, before + 60.0, last.time + 60.0);
        BeforeStill(front, last, last.time + 60.0);
        begins := begins + [last.time];
      } else {
        BeforeStill(front, last, before + 60.0);
      }
    }
  }

  lemma LaterStill(log: seq<Call>, time: real, later: real)
    requires AllBefore(log, time) && time <= later
    ensures AllBefore(log, later)
  {
  }

  lemma WindowNext(start: real, log: seq<Call>)
    requires log != []
    ensures var before, last := WindowStart(start, log[..|log| - 1]), log[|log| - 1].time;
      WindowStart(start, log) == if last - before >= 60.0 then last else before
  {
  }

  /** The calls counted are those with the key at the time or later. */
  lemma {:induction false} CallsAre(log: seq<Call>, key: Key, since: real)
    ensures CallsSince(log, key, since) == |set i | 0 <= i < |log| && log[i].key == key && log[i].time >= since|
  {
    var all := set i | 0 <= i < |log| && log[i].key == key && log[i].time >= since;
    if log != [] {
      var front := log[..|log| - 1];
      var some := set i | 0 <= i < |front| && front[i].key == key && front[i].time >= since;
      CallsAre(front, key, since);
      assert all == some + if log[|log| - 1].key == key && log[|log| - 1].time >= since then {|log| - 1} else {};
    }
  }

  /** A call with the key in that time that was not turned away when it came. */
  predicate Taken(start: real, log: seq<Call>, key: Key, limit: int, from: real, to: real, i: nat)
    requires i < |log|
  {
    log[i].key == key && from <= log[i].time < to && !LastRejected(start, log[..i + 1], limit)
  }

  lemma TakenSame(start: real, log: seq<Call>, key: Key, limit: int, from: real, to: real, n: nat, i: nat)
    requires i < n <= |log|
    ensures Taken(start, log[..n], key, limit, from, to, i) == Taken(start, log, key, limit, from, to, i)
  {
    assert log[..n][..i + 1] == log[..i + 1];
  }

  lemma AcceptedLast(start: real, log: seq<Call>, key: Key, limit: int, from: real, to: real)
    requires log != []
    ensures Accepted(start, log, key, limit, from, to) == Accepted(start, log[..|log| - 1], key, limit, from, to)
                                                          + if Taken(start, log, key, limit, from, to, |log| - 1) then 1 else 0
  {
    assert log[..|log| - 1 + 1] == log;
  }

  function AllTaken(start: real, log: seq<Call>, key: Key, limit: int, from: real, to: real): set<nat> {
    set i: nat | i < |log| && Taken(start, log, key, limit, from, to, i)
  }

  lemma TakenNext(start: real, log: seq<Call>, key: Key, limit: int, from: real, to: real)
    requires log != []
    ensures var n := |log| - 1;
      var before := AllTaken(start, log[..n], key, limit, from, to);
      n !in before
      && AllTaken(start, log, key, limit, from, to) == before + if Taken(start, log, key, limit, from, to, n) then {n} else {}
  {
    hide Taken;
    var n := |log| - 1;
    forall i: nat | i < n
      ensures Taken(start, log[..n], key, limit, from, to, i) == Taken(start, log, key, limit, from, to, i)
    {
      TakenSame(start, log, key, limit, from, to, n, i);
    }
  }

  /** The accepted calls are exactly those. */
  lemma {:induction false} AcceptedAre(start: real, log: seq<Call>, key: Key, limit: int, from: real, to: real)
    ensures Accepted(start, log, key, limit, from, to) == |AllTaken(start, log, key, limit, from, to)|
  {
    if log != [] {
      AcceptedAre(start, log[..|log| - 1], key, limit, from, to);
      AcceptedLast(start, log, key, limit, from, to);
      TakenNext(start, log, key, limit, from, to);
      hide Taken, Accepted, AllTaken;
    }
  }

  /** One window never accepts more than `limit` calls with a key. */
  lemma {:induction false} AcceptedInWindow(start: real, log: seq<Call>, key: Key, limit: int, to: real)
    requires Ordered(start, log) && limit > 0
    ensures var since := WindowStart(start, log);
      && Accepted(start, log, key, limit, since, to) <= limit
      && Accepted(start, log, key, limit, since, to) <= CallsSince(log, key, since)
  {
    if log != [] {
      var front := log[..|log| - 1];
      var since := WindowStart(start, log);
      if since == WindowStart(start, front) {
        AcceptedInWindow(start, front, key, limit, to);
      } else {
        WindowHoldsLastCall(start, front);
        NothingLater(start, front, key, limit, since, to);
      }
    }
  }

  lemma {:induction false} NothingLater(start: real, log: seq<Call>, key: Key, limit: int, from: real, to: real)
    requires forall i | 0 <= i < |log| :: log[i].time < from
    ensures Accepted(start, log, key, limit, from, to) == 0 == CallsSince(log, key, from)
  {
    if log != [] {
      NothingLater(start, log[..|log| - 1], key, limit, from, to);
    }
  }

  /** What lies less than 60 seconds before the window lies in the one window before it. */
  lemma {:induction false} AcceptedBeforeWindow(start: real, log: seq<Call>, key: Key, limit: int, from: real)
    requires Ordered(start, log) && limit > 0 && from > WindowStart(start, log) - WINDOW_SECONDS
    ensures Accepted(start, log, key, limit, from, WindowStart(start, log)) <= limit
  {
    if log != [] {
      var front := log[..|log| - 1];
      var since := WindowStart(start, log);
      WindowHoldsLastCall(start, log);
      if since == WindowStart(start, front) {
        AcceptedBeforeWindow(start, front, key, limit, from);
      } else {
        AcceptedInWindow(start, front, key, limit, since);
        Narrower(start, front, key, limit, WindowStart(start, front), from, since);
      }
    }
  }

  lemma {:induction false} Narrower(start: real, log: seq<Call>, key: Key, limit: int, wide: real, from: real, to: real)
    requires wide <= from
    ensures Accepted(start, log, key, limit, from, to) <= Accepted(start, log, key, limit, wide, to)
  {
    if log != [] {
      Narrower(start, log[..|log| - 1], key, limit, wide, from, to);
    }
  }

  lemma {:induction false} SplitAt(start: real, log: seq<Call>, key: Key, limit: int, from: real, mid: real, to: real)
    requires from <= mid <= to
    ensures Accepted(start, log, key, limit, from, to)
         == Accepted(start, log, key, limit, from, mid) + Accepted(start, log, key, limit, mid, to)
  {
    if log != [] {
      SplitAt(start, log[..|log| - 1], key, limit, from, mid, to);
    }
  }

  /** In no stretch of 60 seconds are more than twice the limit accepted, wherever the
      stretch begins and whatever the other keys do. */
  lemma {:induction false} AtMostTwiceTheLimit(start: real, log: seq<Call>, key: Key, limit: int, from: real)
    requires Ordered(start, log) && limit > 0
    ensures Accepted(start, log, key, limit, from, from + 60.0) <= 2 * limit
  {
    if log != [] {
      var front, last := log[..|log| - 1], log[|log| - 1];
      var to := from + WINDOW_SECONDS;
      var since := WindowStart(start, log);
      if last.time >= to || last.time < from {
        AtMostTwiceTheLimit(start, front, key, limit, from);
      } else {
        WindowHoldsLastCall(start, log);
        AcceptedInWindow(start, log, key, limit, to);
        if since <= from {
          Narrower(start, log, key, limit, since, from, to);
        } else {
          SplitAt(start, log, key, limit, from, since, to);
          AcceptedBeforeWindow(start, log, key, limit, from);
        }
      }
    }
  }

  /** `n` calls with one key at one moment. */
  function Burst(time: real, key: Key, n: nat): seq<Call> {
    if n == 0 then [] else Burst(time, key, n - 1) + [Call(time, key)]
  }

  /** What one more call adds to the history. */
  lemma NextCall(start: real, front: seq<Call>, call: Call, limit: int, from: real, to: real, since: real)
    ensures var log, key := front + [call], call.key;
      && WindowStart(start, log)
         == (if call.time - WindowStart(start, front) >= WINDOW_SECONDS then call.time else WindowStart(start, front))
      && CallsSince(log, key, since) == CallsSince(front, key, since) + (if call.time >= since then 1 else 0)
      && (LastRejected(start, log, limit) <==> CallsSince(front, key, WindowStart(start, log)) >= limit)
      && Accepted(start, log, key, limit, from, to)
         == Accepted(start, front, key, limit, from, to)
            + (if from <= call.time < to && !LastRejected(start, log, limit) then 1 else 0)
  {
    assert (front + [call])[..|front|] == front;
  }

  lemma NextOrdered(start: real, front: seq<Call>, call: Call)
    requires Ordered(start, front) && start <= call.time
    requires forall i | 0 <= i < |front| :: front[i].time <= call.time
    ensures Ordered(start, front + [call])
  {
  }

  /** Up to `limit` calls in the last second of the first window are all accepted. */
  lemma {:induction false} FirstBurst(key: Key, limit: int, n: nat)
    requires n <= limit
    ensures var log := Burst(59.0, key, n);
      && WindowStart(0.0, log) == 0.0 && Ordered(0.0, log)
      && CallsSince(log, key, 0.0) == n && CallsSince(log, key, 60.0) == 0
      && Accepted(0.0, log, key, limit, 59.0, 119.0) == n
    ensures forall i | 0 <= i < |Burst(59.0, key, n)| :: Burst(59.0, key, n)[i].time <= 59.0
  {
    hide WindowStart, CallsSince, Accepted, LastRejected, Ordered;
    if n == 0 {
      NoCalls(key, limit);
    } else {
      FirstBurst(key, limit, n - 1);
      var front, call := Burst(59.0, key, n - 1), Call(59.0, key);
      NextCall(0.0, front, call, limit, 59.0, 119.0, 0.0);
      NextCall(0.0, front, call, limit, 59.0, 119.0, 60.0);
      NextOrdered(0.0, front, call);
    }
  }

  lemma NoCalls(key: Key, limit: int)
    ensures WindowStart(0.0, []) == 0.0 && Ordered(0.0, [])
    ensures CallsSince([], key, 0.0) == 0 && CallsSince([], key, 60.0) == 0
    ensures Accepted(0.0, [], key, limit, 59.0, 119.0) == 0
  {
  }

  /** As many a second later open the next window and are all accepted as well. */
  lemma {:induction false} SecondBurst(key: Key, limit: int, n: nat)
    requires n <= limit
    ensures var log := Burst(59.0, key, limit) + Burst(60.0, key, n);
      && WindowStart(0.0, log) == (if n == 0 then 0.0 else 60.0) && Ordered(0.0, log)
      && CallsSince(log, key, 60.0) == n
      && Accepted(0.0, log, key, limit, 59.0, 119.0) == limit + n
    ensures var log := Burst(59.0, key, limit) + Burst(60.0, key, n); forall i | 0 <= i < |log| :: log[i].time <= 60.0
  {
    hide WindowStart, CallsSince, Accepted, LastRejected, Ordered;
    var first := Burst(59.0, key, limit);
    if n == 0 {
      FirstBurst(key, limit, limit);
      assert first + Burst(60.0, key, 0) == first;
    } else {
      SecondBurst(key, limit, n - 1);
      var front, call := first + Burst(60.0, key, n - 1), Call(60.0, key);
      assert first + Burst(60.0, key, n) == front + [call];
      NextCall(0.0, front, call, limit, 59.0, 119.0, 60.0);
      NextOrdered(0.0, front, call);
    }
  }

  /** For every limit there is a stretch of 60 seconds that holds twice as many accepted
      calls: the limit at the end of a window, and again at the start of the next. */
  lemma TwiceIsReached(key: Key, limit: int)
    requires limit > 0
    ensures var log := Burst(59.0, key, limit) + Burst(60.0, key, limit);
      Ordered(0.0, log) && Accepted(0.0, log, key, limit, 59.0, 59.0 + 60.0) == 2 * limit
  {
    SecondBurst(key, limit, limit);
  }

  // ---- The limiter ----

  function Count(counts: map<Key, nat>, key: Key): nat {
    if key in counts then counts[key] else 0
  }

  /** The counters hold the calls since the window began. */
  ghost predicate Tallies(counts: map<Key, nat>, log: seq<Call>, since: real) {
    forall key :: Count(counts, key) == CallsSince(log, key, since)
  }

  lemma TallyFromZero(log: seq<Call>, since: real)
    requires forall i | 0 <= i < |log| :: log[i].time < since
    ensures Tallies(map[], log, since)
  {
    forall key ensures CallsSince(log, key, since) == 0 {
      NothingLater(0.0, log, key, 0, since, since);
    }
  }

  lemma TallyOf(counts: map<Key, nat>, log: seq<Call>, key: Key, since: real)
    requires Tallies(counts, log, since)
    ensures Count(counts, key) == CallsSince(log, key, since)
  {
  }

  lemma TallyNext(counts: map<Key, nat>, log: seq<Call>, call: Call, since: real)
    requires Tallies(counts, log, since) && since <= call.time
    ensures Tallies(counts[call.key := Count(counts, call.key) + 1], log + [call], since)
  {
    assert (log + [call])[..|log|] == log;
    forall key
      ensures Count(counts[call.key := Count(counts, call.key) + 1], key) == CallsSince(log + [call], key, since)
    {
      TallyOf(counts, log, key, since);
    }
  }

  class RateLimiter {
    const limits: RateLimits
    var counts: map<Key, nat>
    var windowStart: real

    /** When the limiter was made, and every call since that read the clock. */
    ghost const start: real
    ghost var log: seq<Call>

    ghost predicate Valid()
      reads this
    {
      && Ordered(start, log)
      && windowStart == WindowStart(start, log)
      && Tallies(counts, log, windowStart)
    }

    constructor (limits: RateLimits, now: real)
      ensures Valid() && this.limits == limits && log == []
    {
      this.limits := limits;
      counts := map[];
      windowStart := now;
      start := now;
      log := [];
    }

    /** The answer is that of the whole history: turned away exactly when `limit` earlier
        calls with the same bucket and address fall in the current window. A bucket without a
        limit is not counted and does not move the window. */
    method Consume(ip: string, bucket: Bucket, now: real) returns (rejected: bool, ghost limit: int)
      requires Valid()
      requires start <= now && (log != [] ==> log[|log| - 1].time <= now)
      modifies this
      ensures Valid()
      ensures bucket == "auth" ==> limit == limits.auth
      ensures bucket == "calculation" ==> limit == limits.calculation
      ensures bucket == "chat" ==> limit == limits.chat
      ensures bucket !in {"auth", "calculation", "chat"} ==> limit == limits.default_
      ensures if limit <= 0
        then !rejected && log == old(log) && counts == old(counts) && windowStart == old(windowStart)
        else log == old(log) + [Call(now, (bucket, ip))] && (rejected <==> LastRejected(start, log, limit))
    {
      var most := limits.ForBucket(bucket);
      limit := most;
      if most <= 0 {
        return false, most;
      }
      hide Tallies, CallsSince;
      ghost var call := Call(now, (bucket, ip));
      assert (log + [call])[..|log|] == log;
      WindowHoldsLastCall(start, log);
      if now - windowStart >= WINDOW_SECONDS {
        counts := map[];
        windowStart := now;
        TallyFromZero(log, now);
      }
      TallyNext(counts, log, call, windowStart);
      assert Count(counts, call.key) == CallsSince(log, call.key, windowStart) by {
        TallyOf(counts, log, call.key, windowStart);
      }
      var key := (bucket, ip);
      counts := counts[key := Count(counts, key) + 1];
      log := log + [call];
      return counts[key] > most, most;
    }
  }
}
