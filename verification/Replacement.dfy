/**
 Replacing the production database by a restored dump: restore, _swap and what they call in
 scripts/db_backup.py. Every command that is sent may do its work, refuse it, fail silently
 behind a `|| true`, or do its work and still be reported as failed.
 */
module Replacement {
  import opened Prelude
  import Digits
  import Names

  /** What a database holds: what the comparison looks at, and everything else. */
  datatype Content = Content(revision: string, counts: map<string, nat>, triggers: nat, data: seq<int>)

  /** The host: databases by name, names whose server is up, and the application. */
  datatype State = State(dbs: map<string, Content>, up: set<string>, appUp: bool)

  datatype Command =
    | StopServer(name: string)
    | DeleteDb(name: string)
    | CreateAndLoad(name: string, loaded: Content, partial: Content)
    | RenameDb(name: string, target: string)
    | StartServer(name: string)
    | StopApp
    | StartApp
    | Look

  datatype Fate = Works | Silent | Refused | Lost

  /** Servers are stopped and databases are deleted behind `|| true`. */
  predicate Quiet(c: Command) {
    c.StopServer? || c.DeleteDb?
  }

  predicate Possible(s: State, c: Command) {
    match c
    case StopServer(n) => true
    case DeleteDb(n) => n in s.dbs && n !in s.up
    case CreateAndLoad(n, _, _) => n !in s.dbs
    case RenameDb(n, target) => n in s.dbs && n !in s.up && target !in s.dbs
    case StartServer(n) => n in s.dbs
    case StopApp => true
    case StartApp => true
    case Look => true
  }

  function Done(s: State, c: Command): State
    requires Possible(s, c)
  {
    match c
    case StopServer(n) => s.(up := s.up - {n})
    case DeleteDb(n) => s.(dbs := s.dbs - {n})
    case CreateAndLoad(n, loaded, _) => s.(dbs := s.dbs[n := loaded])
    case RenameDb(n, target) => s.(dbs := (s.dbs - {n})[target := s.dbs[n]])
    case StartServer(n) => s.(up := s.up + {n})
    case StopApp => s.(appUp := false)
    case StartApp => s.(appUp := true)
    case Look => s
  }

  /** The state after a command. A load that breaks off leaves a part of the dump. */
  function After(s: State, c: Command, f: Fate): State {
    if !Possible(s, c) || f.Silent? || f.Refused? then s
    else if f.Lost? && c.CreateAndLoad? then s.(dbs := s.dbs[c.name := c.partial])
    else Done(s, c)
  }

  /** Whether the script is told that the command worked. */
  predicate Succeeds(s: State, c: Command, f: Fate) {
    if Quiet(c) then f.Works? || f.Silent? else f.Works? && Possible(s, c)
  }

  // ---- What must hold after every command ----

  /** The old content is still there, under the production name or the name it is kept under. */
  predicate OldIsThere(s: State, live: string, kept: string, was: Content) {
    || (live in s.dbs && s.dbs[live] == was)
    || (kept in s.dbs && s.dbs[kept] == was)
  }

  /** The application only runs over a production database whose server is up. */
  predicate AppIsServed(s: State, live: string) {
    s.appUp ==> live in s.dbs && live in s.up
  }

  predicate Safe(s: State, live: string, kept: string, was: Content) {
    OldIsThere(s, live, kept, was) && AppIsServed(s, live)
  }

  /** The commands that a replacement sends. */
  predicate OfReplacement(c: Command, live: string, staged: string, kept: string) {
    match c
    case DeleteDb(n) => n == staged
    case CreateAndLoad(n, _, _) => n == staged
    case RenameDb(n, target) => (n, target) in {(live, kept), (kept, live), (staged, live)}
    case _ => true
  }

  function Outcome(s: State, run: seq<(Command, Fate)>): State {
    if run == [] then s else After(Outcome(s, run[..|run| - 1]), run[|run| - 1].0, run[|run| - 1].1)
  }

  /** In whatever order the commands of a replacement come, and whatever becomes of each, the
      old content is not lost: a name that is taken is never overwritten. */
  lemma {:induction false} NothingLosesTheOldContent(s: State, run: seq<(Command, Fate)>, live: string, staged: string,
                                                        kept: string, was: Content)
    requires live != staged && staged != kept && OldIsThere(s, live, kept, was)
    requires forall i | 0 <= i < |run| :: OfReplacement(run[i].0, live, staged, kept)
    ensures OldIsThere(Outcome(s, run), live, kept, was)
  {
    if run != [] {
      NothingLosesTheOldContent(s, run[..|run| - 1], live, staged, kept, was);
    }
  }

  // ---- Comparison with the manifest ----

  datatype Manifest = Manifest(database: string, revision: string, counts: map<string, nat>, triggers: nat)

  /** The restored database is what the manifest says. Tables the manifest does not know are
      not looked for. */
  predicate Matches(c: Content, m: Manifest) {
    && c.revision == m.revision
    && c.triggers == m.triggers
    && forall t | t in m.counts :: t in c.counts && c.counts[t] == m.counts[t]
  }

  datatype Problem = WrongRevision | MissingTables(names: set<string>) | WrongCount(table: string) | WrongTriggers

  predicate IsProblem(p: Problem, c: Content, m: Manifest) {
    match p
    case WrongRevision => c.revision != m.revision
    case MissingTables(names) => names == m.counts.Keys - c.counts.Keys && names != {}
    case WrongCount(t) => t in m.counts && t in c.counts && c.counts[t] != m.counts[t]
    case WrongTriggers => c.triggers != m.triggers
  }

  /** The list of differences: exactly those there are, and none when the database matches. */
  method VerifyRestored(c: Content, m: Manifest) returns (problems: seq<Problem>)
    ensures forall p :: p in problems <==> IsProblem(p, c, m)
    ensures problems == [] <==> Matches(c, m)
  {
    problems := [];
    if c.revision != m.revision {
      problems := problems + [WrongRevision];
    }
    var missing := m.counts.Keys - c.counts.Keys;
    if missing != {} {
      problems := problems + [MissingTables(missing)];
    }
    ghost var before := problems;
    var both := m.counts.Keys * c.counts.Keys;
    var todo := both;
    while todo != {}
      invariant todo <= both
      invariant forall p :: p in problems <==> p in before || (p.WrongCount? && p.table in both - todo && IsProblem(p, c, m))
    {
      var name :| name in todo;
      todo := todo - {name};
      if c.counts[name] != m.counts[name] {
        problems := problems + [WrongCount(name)];
      }
    }
    if c.triggers != m.triggers {
      problems := problems + [WrongTriggers];
    }
    NoProblemIsMatch(c, m);
    forall p ensures p in problems <==> IsProblem(p, c, m) {
    }
    assert problems != [] ==> problems[0] in problems;
  }

  lemma NoProblemIsMatch(c: Content, m: Manifest)
    ensures (forall p :: !IsProblem(p, c, m)) <==> Matches(c, m)
  {
    if forall p :: !IsProblem(p, c, m) {
      assert !IsProblem(WrongRevision, c, m) && !IsProblem(WrongTriggers, c, m);
      assert !IsProblem(MissingTables(m.counts.Keys - c.counts.Keys), c, m);
      forall t | t in m.counts ensures t in c.counts && c.counts[t] == m.counts[t] {
        assert !IsProblem(WrongCount(t), c, m);
        assert t !in m.counts.Keys - c.counts.Keys;
      }
    }
  }

  // ---- The swap ----

  /** How _swap ends: the rows of the table in restore's description; an error of a command
      that the table does not list. */
  datatype Ended = Swapped | NotRenamed | RolledBack | RollbackFailed | ServerNotStarted | CommandFailed

  datatype Reply = Reply(command: Command, ok: bool)

  function AppOn(app: bool): seq<Reply> {
    if app then [Reply(StartApp, true)] else []
  }

  /** Which commands were sent and how they were answered, for every way to end: first after
      the production database could not be renamed, after the new one could not, and after
      both names were changed; then the whole swap. */
  predicate KeepFailedLog(log: seq<Reply>, live: string, app: bool, ended: Ended) {
    match ended
    case NotRenamed => log == [Reply(StartServer(live), true)] + AppOn(app)
    case CommandFailed =>
      || log == [Reply(StartServer(live), false)]
      || (app && log == [Reply(StartServer(live), true), Reply(StartApp, false)])
    case _ => false
  }

  predicate PutFailedLog(log: seq<Reply>, live: string, kept: string, app: bool, ended: Ended) {
    var back, start := RenameDb(kept, live), StartServer(live);
    match ended
    case RolledBack => log == [Reply(back, true), Reply(start, true)] + AppOn(app)
    case RollbackFailed => log == [Reply(back, false)] || log == [Reply(back, true), Reply(start, false)]
    case CommandFailed => app && log == [Reply(back, true), Reply(start, true), Reply(StartApp, false)]
    case _ => false
  }

  predicate StartNewLog(log: seq<Reply>, live: string, app: bool, ended: Ended) {
    match ended
    case Swapped => log == [Reply(StartServer(live), true)] + AppOn(app)
    case ServerNotStarted => log == [Reply(StartServer(live), false)]
    case CommandFailed => app && log == [Reply(StartServer(live), true), Reply(StartApp, false)]
    case _ => false
  }

  predicate SwapLog(log: seq<Reply>, live: string, staged: string, kept: string, app: bool, ended: Ended) {
    var stop, stopNew := StopServer(live), StopServer(staged);
    var keep, put := RenameDb(live, kept), RenameDb(staged, live);
    || (ended.CommandFailed? && log in {[Reply(stop, false)], [Reply(stop, true), Reply(stopNew, false)]})
    || (|| ([Reply(stop, true), Reply(stopNew, true), Reply(keep, false)] <= log && KeepFailedLog(log[3..], live, app, ended))
        || ([Reply(stop, true), Reply(stopNew, true), Reply(keep, true), Reply(put, false)] <= log
            && PutFailedLog(log[4..], live, kept, app, ended))
        || ([Reply(stop, true), Reply(stopNew, true), Reply(keep, true), Reply(put, true)] <= log
            && StartNewLog(log[4..], live, app, ended)))
  }

  function SwappedDbs(dbs: map<string, Content>, live: string, staged: string, kept: string): map<string, Content>
    requires live in dbs && staged in dbs
  {
    (dbs - {live, staged})[kept := dbs[live]][live := dbs[staged]]
  }

  /** The two contents are where they were, or exchanged, or the old one is kept and nothing
      has the production name; every other database is as it was. */
  predicate Placed(dbs: map<string, Content>, after: map<string, Content>, live: string, staged: string, kept: string)
    requires live in dbs && staged in dbs
  {
    || after == dbs
    || after == (dbs - {live})[kept := dbs[live]]
    || after == SwappedDbs(dbs, live, staged, kept)
  }

  /** What is left for every way to end, of the databases `dbs` before. */
  predicate SwapLeaves(dbs: map<string, Content>, after: State, live: string, staged: string, kept: string, app: bool, ended: Ended)
    requires live in dbs && staged in dbs
  {
    match ended
    case Swapped =>
      kept !in dbs && after.dbs == SwappedDbs(dbs, live, staged, kept) && live in after.up && after.appUp == app
    case NotRenamed => after.dbs == dbs && live in after.up && after.appUp == app
    case RolledBack => after.dbs == dbs && live in after.up && after.appUp == app
    case RollbackFailed => kept !in dbs && Placed(dbs, after.dbs, live, staged, kept) && !after.appUp
    case ServerNotStarted => kept !in dbs && after.dbs == SwappedDbs(dbs, live, staged, kept) && !after.appUp
    case CommandFailed => Placed(dbs, after.dbs, live, staged, kept)
  }

  /** What was sent decides how the swap ends. */
  lemma RepliesDecide(log: seq<Reply>, live: string, staged: string, kept: string, app: bool, e: Ended, e': Ended)
    requires SwapLog(log, live, staged, kept, app, e) && SwapLog(log, live, staged, kept, app, e')
    ensures e == e'
  {
    if |log| >= 3 {
      assert log[2] in {Reply(RenameDb(live, kept), true), Reply(RenameDb(live, kept), false)};
      PartsDecide(log[3..], live, kept, app, e, e');
    }
    if |log| >= 4 && log[2].ok {
      assert log[3] in {Reply(RenameDb(staged, live), true), Reply(RenameDb(staged, live), false)};
      PartsDecide(log[4..], live, kept, app, e, e');
    }
    hide KeepFailedLog, PutFailedLog, StartNewLog;
  }

  lemma PartsDecide(log: seq<Reply>, live: string, kept: string, app: bool, e: Ended, e': Ended)
    ensures KeepFailedLog(log, live, app, e) && KeepFailedLog(log, live, app, e') ==> e == e'
    ensures PutFailedLog(log, live, kept, app, e) && PutFailedLog(log, live, kept, app, e') ==> e == e'
    ensures StartNewLog(log, live, app, e) && StartNewLog(log, live, app, e') ==> e == e'
  {
    assert AppOn(app) == if app then [Reply(StartApp, true)] else [];
    if |log| > 0 { assert log[0].ok || !log[0].ok; }
    if |log| > 1 { assert log[1].ok || !log[1].ok; }
    if |log| > 2 { assert log[2].ok || !log[2].ok; }
  }

  // ---- What a pattern of failures comes to ----

  /** A stopping command is taken for done when it worked and when it silently did nothing. */
  predicate Told(f: Fate) {
    f.Works? || f.Silent?
  }

  /** A renaming took effect when it worked and when only its answer was lost. */
  predicate Took(f: Fate) {
    f.Works? || f.Lost?
  }

  /** The servers that are still up after the two stops that begin a swap. */
  function UpAfterStops(s: State, live: string, staged: string, f: nat -> Fate, k: nat): set<string> {
    s.up - (if f(k).Works? then {live} else {}) - (if f(k + 1).Works? then {staged} else {})
  }

  predicate CanKeep(s: State, live: string, staged: string, kept: string, f: nat -> Fate, k: nat) {
    live !in UpAfterStops(s, live, staged, f, k) && kept !in s.dbs
  }

  predicate CanPut(s: State, live: string, staged: string, f: nat -> Fate, k: nat) {
    staged != live && staged !in UpAfterStops(s, live, staged, f, k)
  }

  /** The old database can get its name back unless the new one has it. */
  predicate CanBack(s: State, live: string, staged: string, kept: string, f: nat -> Fate, k: nat) {
    kept !in UpAfterStops(s, live, staged, f, k) && !(CanPut(s, live, staged, f, k) && Took(f(k + 3)))
  }

  /** How a swap ends that starts in `s` and whose i-th command meets the fate f(k + i). */
  function SwapEnds(s: State, live: string, staged: string, kept: string, app: bool, f: nat -> Fate, k: nat): Ended {
    if !Told(f(k)) || !Told(f(k + 1)) then CommandFailed
    else if !CanKeep(s, live, staged, kept, f, k) || !f(k + 2).Works? then
      if (CanKeep(s, live, staged, kept, f, k) && Took(f(k + 2))) || !f(k + 3).Works? then CommandFailed
      else if app && !f(k + 4).Works? then CommandFailed else NotRenamed
    else if CanPut(s, live, staged, f, k) && f(k + 3).Works? then
      if !f(k + 4).Works? then ServerNotStarted
      else if app && !f(k + 5).Works? then CommandFailed else Swapped
    else if !CanBack(s, live, staged, kept, f, k) || !f(k + 4).Works? || !f(k + 5).Works? then RollbackFailed
    else if app && !f(k + 6).Works? then CommandFailed else RolledBack
  }

  /** Where the two contents are during a swap: where they were; the old one kept and the
      production name free; the new one in production. */
  datatype Phase = Before | Between | Replaced

  function PhaseDbs(p: Phase, dbs: map<string, Content>, live: string, staged: string, kept: string): map<string, Content>
    requires live in dbs && staged in dbs
  {
    match p
    case Before => dbs
    case Between => (dbs - {live})[kept := dbs[live]]
    case Replaced => SwappedDbs(dbs, live, staged, kept)
  }

  /** Where they are at the end. */
  function SwapPhase(s: State, live: string, staged: string, kept: string, f: nat -> Fate, k: nat): Phase {
    if !Told(f(k)) || !Told(f(k + 1)) || !CanKeep(s, live, staged, kept, f, k) || !Took(f(k + 2)) then Before
    else if f(k + 2).Lost? then Between
    else if CanPut(s, live, staged, f, k) && Took(f(k + 3)) then Replaced
    else if CanBack(s, live, staged, kept, f, k) && Took(f(k + 4)) then Before
    else Between
  }

  /** If only the renaming of the new database fails, without effect, the old one gets its name
      back and runs again. */
  lemma OnlyTheSecondRenameFails(s: State, live: string, staged: string, kept: string, app: bool, f: nat -> Fate, k: nat)
    requires forall i: nat | i != k + 3 :: f(i).Works?
    requires !Took(f(k + 3)) && kept !in s.dbs && kept !in s.up
    ensures SwapEnds(s, live, staged, kept, app, f, k) == RolledBack && SwapPhase(s, live, staged, kept, f, k) == Before
  {
    assert f(k).Works? && f(k + 1).Works? && f(k + 2).Works? && f(k + 4).Works? && f(k + 5).Works? && f(k + 6).Works?;
  }

  /** If no command fails, the swap succeeds - but not onto a kept name that is taken, and not
      from the production name itself. */
  lemma NoCommandFails(s: State, live: string, staged: string, kept: string, app: bool, f: nat -> Fate, k: nat)
    requires AllWork(f)
    ensures kept in s.dbs ==> SwapEnds(s, live, staged, kept, app, f, k) == NotRenamed && SwapPhase(s, live, staged, kept, f, k) == Before
    ensures kept !in s.dbs && staged != live ==>
      SwapEnds(s, live, staged, kept, app, f, k) == Swapped && SwapPhase(s, live, staged, kept, f, k) == Replaced
    ensures kept !in s.dbs && staged == live && kept !in s.up ==>
      SwapEnds(s, live, staged, kept, app, f, k) == RolledBack && SwapPhase(s, live, staged, kept, f, k) == Before
  {
    assert f(k).Works? && f(k + 1).Works? && f(k + 2).Works? && f(k + 3).Works?;
    assert f(k + 4).Works? && f(k + 5).Works? && f(k + 6).Works?;
  }

  /** The message of a failed rollback says which content is under which name. */
  predicate RollbackTextHolds(dbs: map<string, Content>, after: map<string, Content>, live: string, staged: string, kept: string)
    requires live in dbs && staged in dbs
  {
    kept in after && after[kept] == dbs[live] && staged in after && after[staged] == dbs[staged]
  }

  /** It is right exactly when neither renaming back took effect nor the renaming that had been
      reported as failed - and the new database is another one than the old. */
  lemma RollbackTextExactly(s: State, live: string, staged: string, kept: string, app: bool, f: nat -> Fate, k: nat)
    requires staged != kept && live in s.dbs && staged in s.dbs
    requires SwapEnds(s, live, staged, kept, app, f, k) == RollbackFailed
    ensures RollbackTextHolds(s.dbs, PhaseDbs(SwapPhase(s, live, staged, kept, f, k), s.dbs, live, staged, kept), live, staged, kept)
       <==> staged != live
            && !(CanPut(s, live, staged, f, k) && Took(f(k + 3)))
            && !(CanBack(s, live, staged, kept, f, k) && Took(f(k + 4)))
  {
    hide UpAfterStops;
  }

  /** The wrong message is reached: from every state in which the names are free, when the
      renaming is refused, the name is given back and only the server does not start; and when
      only the answer to the renaming is lost. */
  lemma WrongTextIsReached(s: State, live: string, staged: string, kept: string, app: bool, f: nat -> Fate)
    requires staged != kept && staged != live && live in s.dbs && staged in s.dbs && kept !in s.dbs && kept !in s.up
    requires f(0).Works? && f(1).Works? && f(2).Works?
    requires (f(3).Refused? && f(4).Works? && f(5).Refused?) || f(3).Lost?
    ensures SwapEnds(s, live, staged, kept, app, f, 0) == RollbackFailed
    ensures var after := PhaseDbs(SwapPhase(s, live, staged, kept, f, 0), s.dbs, live, staged, kept);
      && !RollbackTextHolds(s.dbs, after, live, staged, kept)
      && (f(3).Refused? ==> after == s.dbs)
      && (f(3).Lost? ==> after == SwappedDbs(s.dbs, live, staged, kept))
  {
  }

  lemma WrongTextHasAPattern(s: State, live: string, staged: string, kept: string, app: bool) returns (f: nat -> Fate)
    requires staged != kept && staged != live && live in s.dbs && staged in s.dbs && kept !in s.dbs && kept !in s.up
    ensures SwapEnds(s, live, staged, kept, app, f, 0) == RollbackFailed
    ensures PhaseDbs(SwapPhase(s, live, staged, kept, f, 0), s.dbs, live, staged, kept) == s.dbs
    ensures !RollbackTextHolds(s.dbs, s.dbs, live, staged, kept)
  {
    f := k => if k == 3 || k == 5 then Refused else Works;
    WrongTextIsReached(s, live, staged, kept, app, f);
  }

  // ---- The steps of a swap ----

  predicate In(p: Phase, s: State, s0: State, live: string, staged: string, kept: string)
    requires live in s0.dbs && staged in s0.dbs
  {
    !s.appUp && s.dbs == PhaseDbs(p, s0.dbs, live, staged, kept)
  }

  /** What is safe is claimed only for a new database that is another one than the old. */
  predicate SafeIf(s: State, live: string, staged: string, kept: string, was: Content) {
    live != staged ==> Safe(s, live, kept, was)
  }

  lemma PhaseIsSafe(p: Phase, s: State, s0: State, live: string, staged: string, kept: string)
    requires staged != kept && (live == kept ==> p.Before?) && live in s0.dbs && staged in s0.dbs
    requires In(p, s, s0, live, staged, kept)
    ensures SafeIf(s, live, staged, kept, s0.dbs[live])
    ensures live in s.dbs <==> !p.Between?
  {
  }

  lemma ServerStep(s: State, c: Command, f: Fate)
    requires c.StopServer? || c.StartServer?
    ensures After(s, c, f).dbs == s.dbs && After(s, c, f).appUp == s.appUp
    ensures c.StopServer? ==> (Succeeds(s, c, f) <==> Told(f))
    ensures c.StopServer? && Told(f) ==> After(s, c, f).up == s.up - if f.Works? then {c.name} else {}
    ensures c.StartServer? ==> (Succeeds(s, c, f) <==> f.Works? && c.name in s.dbs)
    ensures c.StartServer? && Succeeds(s, c, f) ==> c.name in After(s, c, f).up
  {
  }

  lemma KeepStep(s: State, f: Fate, s0: State, live: string, staged: string, kept: string)
    requires staged != kept && live in s0.dbs && staged in s0.dbs
    requires In(Before, s, s0, live, staged, kept)
    ensures var c := RenameDb(live, kept); var next := After(s, c, f);
      var can := live !in s.up && kept !in s0.dbs;
      && next.up == s.up && (Succeeds(s, c, f) <==> can && f.Works?)
      && In(if can && Took(f) then Between else Before, next, s0, live, staged, kept)
  {
  }

  lemma PutStep(s: State, f: Fate, s0: State, live: string, staged: string, kept: string)
    requires staged != kept && live in s0.dbs && staged in s0.dbs && kept !in s0.dbs
    requires In(Between, s, s0, live, staged, kept)
    ensures var c := RenameDb(staged, live); var next := After(s, c, f);
      var can := staged != live && staged !in s.up;
      && next.up == s.up && (Succeeds(s, c, f) <==> can && f.Works?)
      && In(if can && Took(f) then Replaced else Between, next, s0, live, staged, kept)
  {
    if staged != live {
      assert (s.dbs - {staged})[live := s.dbs[staged]] == SwappedDbs(s0.dbs, live, staged, kept);
    }
  }

  lemma BackStep(s: State, f: Fate, p: Phase, s0: State, live: string, staged: string, kept: string)
    requires staged != kept && live in s0.dbs && staged in s0.dbs
    requires kept !in s0.dbs && (p.Between? || p.Replaced?) && In(p, s, s0, live, staged, kept)
    ensures var c := RenameDb(kept, live); var next := After(s, c, f);
      var can := p.Between? && kept !in s.up;
      && (Succeeds(s, c, f) <==> can && f.Works?)
      && In(if can && Took(f) then Before else p, next, s0, live, staged, kept)
  {
    if p.Between? {
      assert (s.dbs - {kept})[live := s.dbs[kept]] == s0.dbs;
    }
  }

  lemma AppStep(s: State, f: Fate, live: string, staged: string, kept: string, was: Content)
    requires SafeIf(s, live, staged, kept, was) && live in s.dbs && live in s.up
    ensures var next := After(s, StartApp, f);
      && SafeIf(next, live, staged, kept, was) && next.dbs == s.dbs && next.up == s.up
      && (Succeeds(s, StartApp, f) ==> next.appUp) && (Succeeds(s, StartApp, f) <==> f.Works?)
  {
  }

  lemma InBefore(s: State, live: string, staged: string, kept: string)
    requires live in s.dbs && staged in s.dbs && !s.appUp
    ensures In(Before, s, s, live, staged, kept)
  {
  }

  /** No command fails. */
  ghost predicate AllWork(fates: nat -> Fate) {
    forall k :: fates(k).Works?
  }

  lemma SwapLogStops(log: seq<Reply>, live: string, staged: string, kept: string, app: bool)
    requires || log == [Reply(StopServer(live), false)]
             || log == [Reply(StopServer(live), true), Reply(StopServer(staged), false)]
    ensures SwapLog(log, live, staged, kept, app, CommandFailed)
  {
  }

  lemma SwapLogParts(log: seq<Reply>, live: string, staged: string, kept: string, app: bool, ended: Ended)
    requires |log| >= 3 && log[0] == Reply(StopServer(live), true) && log[1] == Reply(StopServer(staged), true)
    requires || (log[2] == Reply(RenameDb(live, kept), false) && KeepFailedLog(log[3..], live, app, ended))
             || (log[2] == Reply(RenameDb(live, kept), true) && |log| >= 4
                 && (|| (log[3] == Reply(RenameDb(staged, live), false) && PutFailedLog(log[4..], live, kept, app, ended))
                     || (log[3] == Reply(RenameDb(staged, live), true) && StartNewLog(log[4..], live, app, ended))))
    ensures SwapLog(log, live, staged, kept, app, ended)
  {
  }

  lemma LeavesFailed(s0: State, after: State, live: string, staged: string, kept: string, app: bool)
    requires live in s0.dbs && staged in s0.dbs && In(Before, after, s0, live, staged, kept)
    ensures SwapLeaves(s0.dbs, after, live, staged, kept, app, CommandFailed)
  {
  }

  ghost predicate SafeFrom(trace: seq<State>, from: nat, live: string, staged: string, kept: string, was: Content) {
    forall i | from <= i < |trace| :: SafeIf(trace[i], live, staged, kept, was)
  }

  // ---- The whole restore ----

  /** How restore ends. Up to `Mismatch` the application was not touched; `Unconfirmed` is an
      error of one of the last commands, after the databases had been exchanged. */
  datatype Ending =
    | Restored
    | Declined
    | NotCompared
    | Mismatch(problems: seq<Problem>)
    | AppNotStopped
    | SwapFailed(ended: Ended)
    | Unconfirmed

  function StagedName(live: string, stamp: string): string
    requires |stamp| == 10
  {
    Names.DerivedName(live, Names.TAG_STAGED, stamp).value
  }

  function KeptName(live: string, stamp: string): string
    requires |stamp| == 10
  {
    Names.DerivedName(live, Names.TAG_KEPT, stamp).value
  }

  /** Both names end in their tag and the time, behind at most five characters of the production
      name. */
  lemma NamesEndInTags(live: string, stamp: string)
    requires |stamp| == 10
    ensures exists k: nat | k <= 5 && k <= |live| :: StagedName(live, stamp) == live[..k] + "_s" + stamp
    ensures exists k: nat | k <= 5 && k <= |live| :: KeptName(live, stamp) == live[..k] + "_b" + stamp
  {
    var staged, kept := StagedName(live, stamp), KeptName(live, stamp);
    var i, j := |staged| - 12, |kept| - 12;
    assert staged == live[..i] + "_s" + stamp && kept == live[..j] + "_b" + stamp;
  }

  /** The three names of a replacement are different, unless the production name already
      carries the tag and the time of this replacement. */
  lemma NamesDiffer(live: string, stamp: string)
    requires |stamp| == 10 && Digits.AllDigits(stamp)
    ensures StagedName(live, stamp) != KeptName(live, stamp)
    ensures StagedName(live, stamp) == live <==> Names.AlreadyTagged(live, Names.TAG_STAGED, stamp)
    ensures KeptName(live, stamp) == live <==> Names.AlreadyTagged(live, Names.TAG_KEPT, stamp)
  {
    Names.DerivedIsLive(live, Names.TAG_STAGED, stamp);
    Names.DerivedIsLive(live, Names.TAG_KEPT, stamp);
    if StagedName(live, stamp) == KeptName(live, stamp) {
      Names.DerivedDistinct(live, Names.TAG_STAGED, stamp, live, Names.TAG_KEPT, stamp);
    }
  }

  /** If it carries the tag of the staged database, the two commands with which a restore
      makes room for the new database stop and delete the production database. */
  lemma TaggedNameIsDeleted(s: State, live: string, stamp: string)
    requires |stamp| == 10 && Digits.AllDigits(stamp) && Names.AlreadyTagged(live, Names.TAG_STAGED, stamp)
    ensures var drop := [(StopServer(StagedName(live, stamp)), Works), (DeleteDb(StagedName(live, stamp)), Works)];
      live !in Outcome(s, drop).dbs
  {
    NamesDiffer(live, stamp);
    var drop := [(StopServer(live), Works), (DeleteDb(live), Works)];
    assert drop[..1] == [(StopServer(live), Works)] && drop[..1][..0] == [];
  }

  ghost predicate OnlyReplaces(run: seq<(Command, Fate)>, live: string, stamp: string)
    requires |stamp| == 10
  {
    forall i | 0 <= i < |run| :: OfReplacement(run[i].0, live, StagedName(live, stamp), KeptName(live, stamp))
  }

  /** The old content survives every order and every fate of the commands of a replacement
      exactly when the production name does not carry the tag of the staged database with the
      time of this replacement. A name that carries the tag of the kept one is safe. */
  lemma SurvivesExactly(s: State, live: string, stamp: string)
    requires |stamp| == 10 && Digits.AllDigits(stamp) && live in s.dbs
    ensures (forall run | OnlyReplaces(run, live, stamp) :: OldIsThere(Outcome(s, run), live, KeptName(live, stamp), s.dbs[live]))
       <==> !Names.AlreadyTagged(live, Names.TAG_STAGED, stamp)
  {
    var staged, kept, was := StagedName(live, stamp), KeptName(live, stamp), s.dbs[live];
    NamesDiffer(live, stamp);
    hide StagedName, KeptName, Names.AlreadyTagged;
    if staged == live {
      var run := LosingRun(s, live, kept);
      assert OnlyReplaces(run, live, stamp);
    } else {
      forall run | OnlyReplaces(run, live, stamp) ensures OldIsThere(Outcome(s, run), live, kept, was) {
        NothingLosesTheOldContent(s, run, live, staged, kept, was);
      }
    }
  }

  /** Under a staged name that is the production name, not even a copy under the kept name is safe. */
  lemma LosingRun(s: State, live: string, kept: string) returns (run: seq<(Command, Fate)>)
    requires live != kept
    ensures forall i | 0 <= i < |run| :: OfReplacement(run[i].0, live, live, kept)
    ensures live !in Outcome(s, run).dbs && kept !in Outcome(s, run).dbs
  {
    var drop := [(StopServer(live), Works), (DeleteDb(live), Works)];
    var first := AppendTwo(s, [], drop[0], drop[1]);
    var move := [(StopServer(kept), Works), (RenameDb(kept, live), Works)];
    var second := AppendTwo(s, first, move[0], move[1]);
    run := AppendTwo(s, second, drop[0], drop[1]);
  }

  lemma AppendTwo(s: State, run: seq<(Command, Fate)>, c: (Command, Fate), d: (Command, Fate)) returns (longer: seq<(Command, Fate)>)
    ensures longer == run + [c, d]
    ensures Outcome(s, longer) == After(After(Outcome(s, run), c.0, c.1), d.0, d.1)
  {
    longer := run + [c, d];
    assert longer[..|run| + 1] == run + [c] && longer[..|run| + 1][..|run|] == run;
  }

  /** The conditions under which the application may be stopped and the databases exchanged. */
  predicate MayReplace(live: string, confirm: string, manifest: Option<Manifest>, app: bool, appStopped: bool, loaded: Content) {
    (app || appStopped) && manifest.Some? && manifest.value.database == live == confirm && Matches(loaded, manifest.value)
  }

  /** The conditions under which the new database is made at all. */
  predicate MayTry(live: string, confirm: string, manifest: Option<Manifest>, app: bool, appStopped: bool) {
    (app || appStopped) && manifest.Some? && manifest.value.database == live == confirm
  }

  predicate Holds(s: State, name: string, c: Content) {
    name in s.dbs && s.dbs[name] == c
  }

  /** The problems shown are exactly those there are, and there is one. */
  ghost predicate Shows(problems: seq<Problem>, c: Content, m: Manifest) {
    !Matches(c, m) && forall p :: p in problems <==> IsProblem(p, c, m)
  }

  /** Only the database that is being made has changed. */
  predicate OnlyStaged(s: State, s0: State, staged: string) {
    && s.dbs - {staged} == s0.dbs - {staged}
    && s.appUp == s0.appUp
    && s.up - {staged} == s0.up - {staged}
  }

  lemma OnlyStagedIsSafe(s: State, s0: State, live: string, staged: string, kept: string)
    requires live in s0.dbs && AppIsServed(s0, live) && OnlyStaged(s, s0, staged)
    ensures SafeIf(s, live, staged, kept, s0.dbs[live])
    ensures live != staged ==> live in s.dbs && s.dbs[live] == s0.dbs[live]
    ensures kept != staged ==> (kept in s.dbs <==> kept in s0.dbs) && (kept in s.up <==> kept in s0.up)
    ensures kept != staged && kept in s.dbs ==> s.dbs[kept] == s0.dbs[kept]
  {
    assert forall n | n != staged :: (n in s.dbs <==> n in s.dbs - {staged}) && (n in s0.dbs <==> n in s0.dbs - {staged});
    assert forall n | n != staged && n in s.dbs :: s.dbs[n] == (s.dbs - {staged})[n] == (s0.dbs - {staged})[n] == s0.dbs[n];
    assert forall n | n != staged :: (n in s.up <==> n in s.up - {staged}) && (n in s0.up <==> n in s0.up - {staged});
  }

  lemma OnlyStagedStep(s: State, c: Command, f: Fate, s0: State, staged: string)
    requires OnlyStaged(s, s0, staged)
    requires c == StopServer(staged) || c == DeleteDb(staged) || (c.CreateAndLoad? && c.name == staged) || c == Look
    ensures OnlyStaged(After(s, c, f), s0, staged)
    ensures c.CreateAndLoad? && Succeeds(s, c, f) ==> After(s, c, f).dbs == s.dbs[staged := c.loaded] && staged !in s.dbs
    ensures c == Look ==> After(s, c, f) == s && (f.Works? ==> Succeeds(s, c, f))
    ensures c.CreateAndLoad? && f.Works? && staged !in s.dbs ==> Succeeds(s, c, f)
    ensures c.StopServer? && f.Works? ==> Succeeds(s, c, f) && staged !in After(s, c, f).up
    ensures c.DeleteDb? && f.Works? ==> Succeeds(s, c, f) && (staged !in s.up ==> staged !in After(s, c, f).dbs)
  {
  }

  /** The first `n` commands of this restore were questions that were answered: the name, the
      ownership of the files, the locale and the directory. */
  ghost predicate AskedFirst(log: seq<Reply>, from: nat, n: nat) {
    |log| >= from + n && forall i | from <= i < from + n :: log[i] == Reply(Look, true)
  }

  /** No command so far in this restore touched the application. */
  ghost predicate AppUntouched(log: seq<Reply>, from: nat) {
    forall i | from <= i < |log| :: log[i].command != StopApp && log[i].command != StartApp
  }

  lemma UntouchedByLooks(before: seq<Reply>, log: seq<Reply>, from: nat)
    requires AppUntouched(before, from) && before <= log && forall i | |before| <= i < |log| :: log[i].command == Look
    ensures AppUntouched(log, from)
  {
    forall i | from <= i < |log| ensures log[i].command != StopApp && log[i].command != StartApp {
      if i < |before| { assert log[i] == before[i]; }
    }
  }

  lemma UntouchedByCreate(log: seq<Reply>, c: Command, ok: bool, from: nat)
    requires AppUntouched(log, from) && c.CreateAndLoad?
    ensures AppUntouched(log + [Reply(c, ok)], from)
  {
  }

  lemma SafeNext(trace: seq<State>, from: nat, live: string, staged: string, kept: string, was: Content)
    requires trace != [] && SafeFrom(trace[..|trace| - 1], from, live, staged, kept, was)
    requires SafeIf(trace[|trace| - 1], live, staged, kept, was)
    ensures SafeFrom(trace, from, live, staged, kept, was)
  {
    forall i | from <= i < |trace| ensures SafeIf(trace[i], live, staged, kept, was) {
      if i < |trace| - 1 { assert trace[i] == trace[..|trace| - 1][i]; }
    }
  }

  lemma StopAppStep(s: State, f: Fate, live: string, staged: string, kept: string, was: Content)
    requires SafeIf(s, live, staged, kept, was)
    ensures var next := After(s, StopApp, f);
      && next.dbs == s.dbs && next.up == s.up && SafeIf(next, live, staged, kept, was)
      && (Succeeds(s, StopApp, f) ==> !next.appUp) && (f.Works? ==> Succeeds(s, StopApp, f))
  {
  }

  lemma StagedIsMade(s: State, s0: State, staged: string, loaded: Content)
    requires OnlyStaged(s, s0, staged) && staged in s.dbs && s.dbs[staged] == loaded
    ensures s.dbs == s0.dbs[staged := loaded] && s.appUp == s0.appUp && s.up - {staged} == s0.up - {staged}
  {
    assert s.dbs == (s.dbs - {staged})[staged := loaded];
    assert s0.dbs[staged := loaded] == (s0.dbs - {staged})[staged := loaded];
  }

  lemma StagedIsGone(s: State, s0: State, staged: string)
    requires OnlyStaged(s, s0, staged)
    ensures staged !in s.dbs ==> s.dbs == s0.dbs - {staged}
  {
    if staged !in s.dbs {
      assert s.dbs == s.dbs - {staged};
    }
  }

  lemma SafeJoin(trace: seq<State>, from: nat, before: seq<State>, live: string, staged: string, kept: string, was: Content, made: Content)
    requires before <= trace && SafeFrom(before, from, live, staged, kept, was)
    requires SafeFrom(trace, |before|, live, staged, kept, made) && (live != staged ==> made == was)
    ensures SafeFrom(trace, from, live, staged, kept, was)
  {
    forall i | from <= i < |trace| ensures SafeIf(trace[i], live, staged, kept, was) {
      if i < |before| { assert trace[i] == before[i]; }
    }
  }

  lemma SwappedIsSafe(dbs: map<string, Content>, s: State, live: string, staged: string, kept: string, app: bool)
    requires live in dbs && staged in dbs && staged != kept
    requires SwapLeaves(dbs, s, live, staged, kept, app, Swapped)
    ensures SafeIf(s, live, staged, kept, dbs[live])
    ensures s.dbs == SwappedDbs(dbs, live, staged, kept) && live in s.up && s.appUp == app
  {
  }

  lemma SafeMeans(trace: seq<State>, from: nat, live: string, staged: string, kept: string, was: Content)
    requires SafeFrom(trace, from, live, staged, kept, was)
    ensures live != staged ==> forall i | from <= i < |trace| :: Safe(trace[i], live, kept, was)
  {
  }

  lemma OnlyStagedDbs(s: State, s0: State, staged: string, loaded: Content)
    requires OnlyStaged(s, s0, staged)
    ensures s.dbs - {staged} == s0.dbs - {staged} && s.appUp == s0.appUp
    ensures s0.dbs[staged := loaded] - {staged} == s0.dbs - {staged}
  {
  }

  lemma OnlyStagedNow(s: State, staged: string)
    ensures OnlyStaged(s, s, staged)
  {
  }

  lemma NothingYet(trace: seq<State>, from: nat, log: seq<Reply>, sentFrom: nat, live: string, staged: string, kept: string, was: Content)
    requires from == |trace| && sentFrom == |log|
    ensures SafeFrom(trace, from, live, staged, kept, was) && AppUntouched(log, sentFrom)
  {
  }

  lemma ShowsMismatch(end: Ending, loaded: Content, m: Manifest)
    requires end.Mismatch? ==> Shows(end.problems, loaded, m)
    ensures end.Mismatch? ==> !Matches(loaded, m)
  {
  }

  lemma WorksAlways(fates: nat -> Fate, k: nat)
    ensures AllWork(fates) ==> fates(k).Works?
  {
  }

  /** After some command the old content is under neither name. */
  ghost predicate LostIn(trace: seq<State>, from: nat, live: string, kept: string, was: Content) {
    exists i :: from <= i < |trace| && !OldIsThere(trace[i], live, kept, was)
  }

  lemma LostNow(trace: seq<State>, from: nat, live: string, kept: string, was: Content)
    requires from < |trace| && live !in trace[|trace| - 1].dbs
    requires kept in trace[|trace| - 1].dbs ==> trace[|trace| - 1].dbs[kept] != was
    ensures LostIn(trace, from, live, kept, was)
  {
    assert !OldIsThere(trace[|trace| - 1], live, kept, was);
  }

  lemma StaysLost(before: seq<State>, trace: seq<State>, from: nat, live: string, kept: string, was: Content)
    requires before <= trace && LostIn(before, from, live, kept, was)
    ensures LostIn(trace, from, live, kept, was)
  {
    var i :| from <= i < |before| && !OldIsThere(before[i], live, kept, was);
    assert trace[i] == before[i];
  }

  // ---- The commands that are sent ----

  function Answered(steps: seq<Command>): (log: seq<Reply>)
    ensures |log| == |steps|
  {
    seq(|steps|, i requires 0 <= i < |steps| => Reply(steps[i], true))
  }

  /** The steps were sent in this order; all of them worked, or one did not and was the last. */
  ghost predicate Sent(before: seq<Reply>, log: seq<Reply>, steps: seq<Command>, ok: bool) {
    if ok then log == before + Answered(steps)
    else exists k | 0 <= k < |steps| :: log == before + Answered(steps[..k]) + [Reply(steps[k], false)]
  }

  lemma SentNothing(log: seq<Reply>)
    ensures Sent(log, log, [], true)
  {
  }

  lemma SentOne(before: seq<Reply>, c: Command, ok: bool)
    ensures Sent(before, before + [Reply(c, ok)], [c], ok)
  {
    assert [c][0] == c && [c][..0] == [];
  }

  lemma AnsweredConcat(a: seq<Command>, b: seq<Command>)
    ensures Answered(a + b) == Answered(a) + Answered(b)
  {
  }

  lemma SentThen(before: seq<Reply>, mid: seq<Reply>, log: seq<Reply>, a: seq<Command>, b: seq<Command>, ok: bool)
    requires Sent(before, mid, a, true) && Sent(mid, log, b, ok)
    ensures Sent(before, log, a + b, ok)
  {
    if ok {
      AnsweredConcat(a, b);
      assert before + Answered(a) + Answered(b) == before + (Answered(a) + Answered(b));
    } else {
      var k :| 0 <= k < |b| && log == mid + Answered(b[..k]) + [Reply(b[k], false)];
      var n := |a| + k;
      AnsweredConcat(a, b[..k]);
      assert (a + b)[..n] == a + b[..k] && (a + b)[n] == b[k];
      assert before + Answered(a) + Answered(b[..k]) == before + (Answered(a) + Answered(b[..k]));
    }
  }

  lemma SentCut(before: seq<Reply>, log: seq<Reply>, a: seq<Command>, b: seq<Command>)
    requires Sent(before, log, a, false)
    ensures Sent(before, log, a + b, false)
  {
    var k :| 0 <= k < |a| && log == before + Answered(a[..k]) + [Reply(a[k], false)];
    assert (a + b)[..k] == a[..k] && (a + b)[k] == a[k];
  }

  function Looks(n: nat): (steps: seq<Command>)
    ensures |steps| == n && forall i | 0 <= i < n :: steps[i] == Look
  {
    seq(n, i => Look)
  }

  /** Dropping a database: first its server, then the files. */
  function DropSteps(name: string): seq<Command> {
    [StopServer(name), DeleteDb(name)]
  }

  /** Making the new database and asking for what the manifest lists. */
  function MakeSteps(staged: string, loaded: Content, partial: Content): seq<Command> {
    DropSteps(staged) + [Look, CreateAndLoad(staged, loaded, partial)] + Looks(4)
  }

  function SwapSteps(live: string, staged: string, kept: string, app: bool): seq<Command> {
    [StopServer(live), StopServer(staged), RenameDb(live, kept), RenameDb(staged, live), StartServer(live)]
    + if app then [StartApp] else []
  }

  /** The questions behind a swap. */
  function QuestionsAfter(app: bool, frontendUp: bool): seq<Command> {
    Looks(2) + if app then Looks(if frontendUp then 2 else 1) else []
  }

  /** The commands that a restore sends once its questions are answered, for every way to end. */
  ghost predicate ReplaceSends(before: seq<Reply>, log: seq<Reply>, live: string, staged: string, kept: string, app: bool,
                               frontendUp: bool, loaded: Content, partial: Content, end: Ending)
  {
    var make := MakeSteps(staged, loaded, partial);
    var stopped := make + if app then [StopApp] else [];
    match end
    case Declined => log == before
    case NotCompared => Sent(before, log, make + DropSteps(staged), false)
    case Mismatch(_) => Sent(before, log, make + DropSteps(staged), true)
    case AppNotStopped => app && Sent(before, log, stopped, false)
    case SwapFailed(ended) =>
      before + Answered(stopped) <= log && SwapLog(log[|before| + |stopped|..], live, staged, kept, app, ended)
    case Unconfirmed =>
      Sent(before + Answered(stopped) + Answered(SwapSteps(live, staged, kept, app)), log, QuestionsAfter(app, frontendUp), false)
    case Restored =>
      Sent(before, log, stopped + (SwapSteps(live, staged, kept, app) + QuestionsAfter(app, frontendUp)), true)
  }

  lemma SwappedSends(log: seq<Reply>, live: string, staged: string, kept: string, app: bool)
    requires SwapLog(log, live, staged, kept, app, Swapped)
    ensures log == Answered(SwapSteps(live, staged, kept, app))
  {
    var head := [Reply(StopServer(live), true), Reply(StopServer(staged), true), Reply(RenameDb(live, kept), true),
                 Reply(RenameDb(staged, live), true)];
    assert head <= log && log == head + log[4..];
  }

  lemma FirstQuestion(before: seq<Reply>, log: seq<Reply>, ok: bool)
    requires Sent(before, log, Looks(1), ok)
    ensures if ok then log == before + [Reply(Look, true)] else Sent(before, log, Looks(5), false)
  {
    assert Looks(1) == [Look] && Answered([Look]) == [Reply(Look, true)];
    if !ok {
      assert Looks(5) == Looks(1) + Looks(4);
      SentCut(before, log, Looks(1), Looks(4));
    }
  }

  lemma FurtherQuestions(before: seq<Reply>, mid: seq<Reply>, log: seq<Reply>, ok: bool)
    requires mid == before + [Reply(Look, true)] && Sent(mid, log, Looks(4), ok)
    ensures Sent(before, log, Looks(5), ok)
    ensures ok ==> log == before + Answered(Looks(5)) && AskedFirst(log, |before|, 5)
  {
    assert Looks(1) == [Look] && Answered([Look]) == [Reply(Look, true)];
    assert Looks(5) == Looks(1) + Looks(4);
    SentThen(before, mid, log, Looks(1), Looks(4), ok);
  }

  lemma StillAsked(before: seq<Reply>, log: seq<Reply>, from: nat, n: nat)
    requires AskedFirst(before, from, n) && before <= log
    ensures AskedFirst(log, from, n)
  {
  }

  lemma ExchangeSends(before: seq<Reply>, mid: seq<Reply>, log: seq<Reply>, live: string, staged: string, kept: string, app: bool,
                      frontendUp: bool, loaded: Content, partial: Content, end: Ending)
    requires end.SwapFailed? || end.Restored? || end.Unconfirmed?
    requires Sent(before, mid, MakeSteps(staged, loaded, partial) + if app then [StopApp] else [], true) && mid <= log
    requires end.SwapFailed? ==> SwapLog(log[|mid|..], live, staged, kept, app, end.ended)
    requires !end.SwapFailed? ==>
      Sent(mid + Answered(SwapSteps(live, staged, kept, app)), log, QuestionsAfter(app, frontendUp), end.Restored?)
    ensures ReplaceSends(before, log, live, staged, kept, app, frontendUp, loaded, partial, end)
  {
    hide SwapLog, MakeSteps, SwapSteps, QuestionsAfter;
    var stopped := MakeSteps(staged, loaded, partial) + if app then [StopApp] else [];
    assert mid == before + Answered(stopped);
    if end.Restored? {
      var swap, ask := SwapSteps(live, staged, kept, app), QuestionsAfter(app, frontendUp);
      AnsweredConcat(swap, ask);
      SentThen(before, mid, log, stopped, swap + ask, true);
    }
  }

  /** What is left for every way to end. */
  predicate RestoreLeaves(s0: State, s: State, live: string, staged: string, kept: string, app: bool, loaded: Content, end: Ending)
    requires live in s0.dbs
  {
    match end
    case Declined => s == s0
    case NotCompared => OnlyStaged(s, s0, staged)
    case Mismatch(_) => OnlyStaged(s, s0, staged)
    case AppNotStopped => s.dbs == s0.dbs[staged := loaded] && s.up - {staged} == s0.up - {staged}
    case SwapFailed(ended) =>
      !ended.Swapped? && SwapLeaves(s0.dbs[staged := loaded], s, live, staged, kept, app, ended)
    case Unconfirmed => s.dbs == SwappedDbs(s0.dbs[staged := loaded], live, staged, kept) && live in s.up && s.appUp == app
    case Restored => s.dbs == SwappedDbs(s0.dbs[staged := loaded], live, staged, kept) && live in s.up && s.appUp == app
  }

  class Host {
    var now: State

    /** What becomes of the k-th command. */
    const fates: nat -> Fate
    var sent: nat

    /** Every reply, and the state after every command. */
    ghost var log: seq<Reply>
    ghost var trace: seq<State>

    constructor (s: State, fates: nat -> Fate)
      ensures now == s && this.fates == fates && sent == 0 && log == [] && trace == []
    {
      now := s;
      this.fates := fates;
      sent := 0;
      log := [];
      trace := [];
    }

    method Send(c: Command) returns (ok: bool)
      modifies this
      ensures now == After(old(now), c, fates(old(sent))) && ok == Succeeds(old(now), c, fates(old(sent)))
      ensures sent == old(sent) + 1 && log == old(log) + [Reply(c, ok)] && trace == old(trace) + [now]
    {
      var fate := fates(sent);
      ok := Succeeds(now, c, fate);
      now := After(now, c, fate);
      sent := sent + 1;
      log := log + [Reply(c, ok)];
      trace := trace + [now];
    }

    /** start_app: nothing to do in a deployment where the application is elsewhere. */
    method StartAppIfAny(app: bool, live: string, ghost staged: string, ghost kept: string, ghost was: Content, ghost from: nat)
      returns (ok: bool)
      requires SafeIf(now, live, staged, kept, was) && live in now.dbs && live in now.up && !now.appUp
      requires SafeFrom(trace, from, live, staged, kept, was)
      modifies this
      ensures SafeFrom(trace, from, live, staged, kept, was) && old(trace) <= trace
      ensures now.dbs == old(now).dbs && now.up == old(now).up
      ensures ok <==> !app || fates(old(sent)).Works?
      ensures ok ==> now.appUp == app && log == old(log) + AppOn(app)
      ensures !ok ==> app && log == old(log) + [Reply(StartApp, false)]
    {
      ok := true;
      if app {
        AppStep(now, fates(sent), live, staged, kept, was);
        ok := Send(StartApp);
      }
    }

    /** The production database could not be renamed: start it again. */
    method KeepFailed(live: string, ghost staged: string, ghost kept: string, app: bool, ghost p: Phase, ghost s0: State, ghost from: nat)
      returns (ended: Ended)
      requires staged != kept && live in s0.dbs && staged in s0.dbs
      requires (p.Before? || (p.Between? && kept !in s0.dbs)) && In(p, now, s0, live, staged, kept)
      requires SafeFrom(trace, from, live, staged, kept, s0.dbs[live])
      modifies this
      ensures old(trace) <= trace && SafeFrom(trace, from, live, staged, kept, s0.dbs[live])
      ensures SwapLeaves(s0.dbs, now, live, staged, kept, app, ended) && now.dbs == old(now).dbs
      ensures old(log) <= log && KeepFailedLog(log[|old(log)|..], live, app, ended)
      ensures ended == if p.Before? && fates(old(sent)).Works? && (!app || fates(old(sent) + 1).Works?) then NotRenamed else CommandFailed
    {
      hide After, Succeeds, Safe;
      ServerStep(now, StartServer(live), fates(sent));
      PhaseIsSafe(p, now, s0, live, staged, kept);
      var ok := Send(StartServer(live));
      PhaseIsSafe(p, now, s0, live, staged, kept);
      if !ok {
        return CommandFailed;
      }
      ok := StartAppIfAny(app, live, staged, kept, s0.dbs[live], from);
      return if ok then NotRenamed else CommandFailed;
    }

    /** The new database could not be renamed: give the old one its name back. */
    method PutFailed(live: string, ghost staged: string, kept: string, app: bool, ghost p: Phase, ghost s0: State, ghost from: nat)
      returns (ended: Ended)
      requires staged != kept && live in s0.dbs && staged in s0.dbs
      requires kept !in s0.dbs && (p.Between? || p.Replaced?) && In(p, now, s0, live, staged, kept)
      requires SafeFrom(trace, from, live, staged, kept, s0.dbs[live])
      modifies this
      ensures old(trace) <= trace && SafeFrom(trace, from, live, staged, kept, s0.dbs[live])
      ensures SwapLeaves(s0.dbs, now, live, staged, kept, app, ended)
      ensures old(log) <= log && PutFailedLog(log[|old(log)|..], live, kept, app, ended)
      ensures var can := p.Between? && kept !in old(now).up;
        && now.dbs == PhaseDbs(if can && Took(fates(old(sent))) then Before else p, s0.dbs, live, staged, kept)
        && ended == if !can || !fates(old(sent)).Works? || !fates(old(sent) + 1).Works? then RollbackFailed
                    else if app && !fates(old(sent) + 2).Works? then CommandFailed else RolledBack
    {
      hide After, Succeeds, Safe;
      BackStep(now, fates(sent), p, s0, live, staged, kept);
      ghost var q := if p.Between? && kept !in now.up && Took(fates(sent)) then Before else p;
      var ok := Send(RenameDb(kept, live));
      PhaseIsSafe(q, now, s0, live, staged, kept);
      if !ok {
        return RollbackFailed;
      }
      ServerStep(now, StartServer(live), fates(sent));
      ok := Send(StartServer(live));
      PhaseIsSafe(Before, now, s0, live, staged, kept);
      if !ok {
        return RollbackFailed;
      }
      ok := StartAppIfAny(app, live, staged, kept, s0.dbs[live], from);
      return if ok then RolledBack else CommandFailed;
    }

    /** Both names are changed: start the new database and the application. */
    method StartNew(live: string, ghost staged: string, ghost kept: string, app: bool, ghost s0: State, ghost from: nat)
      returns (ended: Ended)
      requires staged != kept && live in s0.dbs && staged in s0.dbs
      requires kept !in s0.dbs && In(Phase.Replaced, now, s0, live, staged, kept)
      requires SafeFrom(trace, from, live, staged, kept, s0.dbs[live])
      modifies this
      ensures old(trace) <= trace && SafeFrom(trace, from, live, staged, kept, s0.dbs[live])
      ensures SwapLeaves(s0.dbs, now, live, staged, kept, app, ended) && now.dbs == old(now).dbs
      ensures old(log) <= log && StartNewLog(log[|old(log)|..], live, app, ended)
      ensures ended == if !fates(old(sent)).Works? then ServerNotStarted
                       else if app && !fates(old(sent) + 1).Works? then CommandFailed else Swapped
    {
      hide After, Succeeds, Safe;
      PhaseIsSafe(Phase.Replaced, now, s0, live, staged, kept);
      ServerStep(now, StartServer(live), fates(sent));
      var ok := Send(StartServer(live));
      PhaseIsSafe(Phase.Replaced, now, s0, live, staged, kept);
      if !ok {
        return ServerNotStarted;
      }
      ok := StartAppIfAny(app, live, staged, kept, s0.dbs[live], from);
      return if ok then Swapped else CommandFailed;
    }

    /** Both servers are stopped first, the new one to be sure: one that is up cannot be renamed. */
    method StopBoth(live: string, staged: string, ghost kept: string, ghost app: bool, ghost s0: State, ghost from: nat)
      returns (ok: bool)
      requires staged != kept && live in s0.dbs && staged in s0.dbs
      requires In(Before, now, s0, live, staged, kept) && SafeFrom(trace, from, live, staged, kept, s0.dbs[live])
      modifies this
      ensures old(trace) <= trace && SafeFrom(trace, from, live, staged, kept, s0.dbs[live])
      ensures In(Before, now, s0, live, staged, kept)
      ensures ok <==> Told(fates(old(sent))) && Told(fates(old(sent) + 1))
      ensures ok ==> log == old(log) + [Reply(StopServer(live), true), Reply(StopServer(staged), true)] && sent == old(sent) + 2
      ensures ok ==> now.up == UpAfterStops(old(now), live, staged, fates, old(sent))
      ensures !ok ==> old(log) <= log && SwapLog(log[|old(log)|..], live, staged, kept, app, CommandFailed)
    {
      hide After, Succeeds, Safe, SwapLog;
      ghost var before := log;
      ServerStep(now, StopServer(live), fates(sent));
      ok := Send(StopServer(live));
      PhaseIsSafe(Before, now, s0, live, staged, kept);
      if !ok {
        SwapLogStops(log[|before|..], live, staged, kept, app);
        return;
      }
      ServerStep(now, StopServer(staged), fates(sent));
      ok := Send(StopServer(staged));
      PhaseIsSafe(Before, now, s0, live, staged, kept);
      SwapLogStops([Reply(StopServer(live), true), Reply(StopServer(staged), false)], live, staged, kept, app);
      assert log[|before|..] == [Reply(StopServer(live), true), Reply(StopServer(staged), ok)];
    }

    /** The swap ends in one of the ways of the table. The pattern of failures decides which,
        and where both contents are then; the replies show it; every state on the way is safe. */
    method Swap(live: string, staged: string, kept: string, app: bool) returns (ended: Ended)
      requires staged != kept && live in now.dbs && staged in now.dbs && !now.appUp
      modifies this
      ensures ended == SwapEnds(old(now), live, staged, kept, app, fates, old(sent))
      ensures now.dbs == PhaseDbs(SwapPhase(old(now), live, staged, kept, fates, old(sent)), old(now).dbs, live, staged, kept)
      ensures old(log) <= log && SwapLog(log[|old(log)|..], live, staged, kept, app, ended)
      ensures SwapLeaves(old(now).dbs, now, live, staged, kept, app, ended)
      ensures old(trace) <= trace && SafeFrom(trace, |old(trace)|, live, staged, kept, old(now).dbs[live])
    {
      hide After, Succeeds, Safe, SwapLeaves, SwapLog, KeepFailedLog, PutFailedLog, StartNewLog, UpAfterStops, SwappedDbs;
      ghost var s0, k, from, before := now, sent, |trace|, log;
      InBefore(now, live, staged, kept);
      var ok := StopBoth(live, staged, kept, app, s0, from);
      if !ok {
        LeavesFailed(s0, now, live, staged, kept, app);
        return CommandFailed;
      }
      KeepStep(now, fates(sent), s0, live, staged, kept);
      ghost var p := if CanKeep(s0, live, staged, kept, fates, k) && Took(fates(sent)) then Between else Before;
      ok := Send(RenameDb(live, kept));
      PhaseIsSafe(p, now, s0, live, staged, kept);
      if !ok {
        ghost var mid := log;
        ended := KeepFailed(live, staged, kept, app, p, s0, from);
        assert log[|before|..][3..] == log[|mid|..];
        SwapLogParts(log[|before|..], live, staged, kept, app, ended);
        return;
      }
      PutStep(now, fates(sent), s0, live, staged, kept);
      p := if CanPut(s0, live, staged, fates, k) && Took(fates(sent)) then Replaced else Between;
      ok := Send(RenameDb(staged, live));
      PhaseIsSafe(p, now, s0, live, staged, kept);
      ghost var mid := log;
      if !ok {
        ended := PutFailed(live, staged, kept, app, p, s0, from);
      } else {
        ended := StartNew(live, staged, kept, app, s0, from);
      }
      assert log[|before|..][4..] == log[|mid|..];
      SwapLogParts(log[|before|..], live, staged, kept, app, ended);
    }

    /** A question to the database or to the host: it changes nothing and may fail. */
    method Ask(ghost live: string, ghost staged: string, ghost kept: string, ghost was: Content, ghost from: nat) returns (ok: bool)
      requires SafeIf(now, live, staged, kept, was) && SafeFrom(trace, from, live, staged, kept, was)
      modifies this
      ensures now == old(now) && SafeFrom(trace, from, live, staged, kept, was) && old(trace) <= trace
      ensures log == old(log) + [Reply(Look, ok)]
      ensures AllWork(fates) ==> ok
    {
      ok := Send(Look);
    }

    /** Several questions in a row, until one fails. */
    method AskAll(n: nat, ghost live: string, ghost staged: string, ghost kept: string, ghost was: Content, ghost from: nat)
      returns (ok: bool)
      requires SafeIf(now, live, staged, kept, was) && SafeFrom(trace, from, live, staged, kept, was)
      modifies this
      ensures now == old(now) && SafeFrom(trace, from, live, staged, kept, was) && old(trace) <= trace
      ensures old(log) <= log && forall i | |old(log)| <= i < |log| :: log[i].command == Look
      ensures ok ==> AskedFirst(log, |old(log)|, n) && |log| == |old(log)| + n
      ensures Sent(old(log), log, Looks(n), ok)
      ensures AllWork(fates) ==> ok
    {
      hide SafeIf, SafeFrom, AllWork, Sent;
      ok := true;
      var k := 0;
      assert Looks(0) == [];
      SentNothing(log);
      while ok && k < n
        invariant k <= n && now == old(now) && SafeFrom(trace, from, live, staged, kept, was) && old(trace) <= trace
        invariant old(log) <= log && |log| == |old(log)| + k
        invariant forall i | |old(log)| <= i < |log| :: log[i].command == Look && (ok ==> log[i].ok)
        invariant Sent(old(log), log, Looks(k), ok)
        invariant AllWork(fates) ==> ok
      {
        ghost var before := log;
        ok := Ask(live, staged, kept, was, from);
        SentOne(before, Look, ok);
        SentThen(old(log), before, log, Looks(k), [Look], ok);
        k := k + 1;
        assert Looks(k) == Looks(k - 1) + [Look];
      }
      assert Looks(n) == Looks(k) + Looks(n - k);
      if !ok {
        SentCut(old(log), log, Looks(k), Looks(n - k));
      }
    }

    /** _drop_database: no error when there is nothing to drop. */
    method DropDatabase(live: string, staged: string, ghost kept: string, ghost s0: State, ghost from: nat, ghost sentFrom: nat)
      returns (ok: bool)
      requires live in s0.dbs && AppIsServed(s0, live) && OnlyStaged(now, s0, staged) && from <= |trace|
      requires SafeFrom(trace, from, live, staged, kept, s0.dbs[live]) && AppUntouched(log, sentFrom)
      modifies this
      ensures OnlyStaged(now, s0, staged)
      ensures SafeFrom(trace, from, live, staged, kept, s0.dbs[live]) && AppUntouched(log, sentFrom)
      ensures old(trace) <= trace && old(log) <= log && trace != [] && from < |trace| && trace[|trace| - 1] == now
      ensures Sent(old(log), log, DropSteps(staged), ok)
      ensures ok ==> sent == old(sent) + 2
      ensures ok && fates(old(sent)).Works? && fates(old(sent) + 1).Works? ==> staged !in now.dbs
      ensures AllWork(fates) ==> ok && staged !in now.dbs
    {
      hide After, Succeeds, Safe, OnlyStaged, Sent;
      OnlyStagedStep(now, StopServer(staged), fates(sent), s0, staged);
      ok := Send(StopServer(staged));
      SentOne(old(log), StopServer(staged), ok);
      OnlyStagedIsSafe(now, s0, live, staged, kept);
      if ok {
        ghost var before := log;
        OnlyStagedStep(now, DeleteDb(staged), fates(sent), s0, staged);
        ok := Send(DeleteDb(staged));
        SentOne(before, DeleteDb(staged), ok);
        SentThen(old(log), before, log, [StopServer(staged)], [DeleteDb(staged)], ok);
        OnlyStagedIsSafe(now, s0, live, staged, kept);
      } else {
        SentCut(old(log), log, [StopServer(staged)], [DeleteDb(staged)]);
      }
      assert DropSteps(staged) == [StopServer(staged)] + [DeleteDb(staged)];
    }

    /** Under the production name itself, making room for the new database loses the old one
        unless the kept name holds the same content. */
    method RestoreInto(live: string, staged: string, loaded: Content, partial: Content,
                       ghost kept: string, ghost s0: State, ghost from: nat, ghost sentFrom: nat) returns (ok: bool)
      requires live in s0.dbs && AppIsServed(s0, live) && OnlyStaged(now, s0, staged) && staged != kept && from <= |trace|
      requires SafeFrom(trace, from, live, staged, kept, s0.dbs[live]) && AppUntouched(log, sentFrom)
      modifies this
      ensures OnlyStaged(now, s0, staged)
      ensures SafeFrom(trace, from, live, staged, kept, s0.dbs[live]) && AppUntouched(log, sentFrom)
      ensures old(trace) <= trace && old(log) <= log
      ensures ok ==> staged in now.dbs && now.dbs[staged] == loaded
      ensures Sent(old(log), log, DropSteps(staged) + [Look, CreateAndLoad(staged, loaded, partial)], ok)
      ensures AllWork(fates) ==> ok
      ensures AllWork(fates) && live == staged && !Holds(s0, kept, s0.dbs[live]) ==> LostIn(trace, from, live, kept, s0.dbs[live])
    {
      hide After, Succeeds, Safe, OnlyStaged, LostIn, SafeFrom, AppUntouched, Sent;
      ghost var create := CreateAndLoad(staged, loaded, partial);
      ok := DropDatabase(live, staged, kept, s0, from, sentFrom);
      OnlyStagedIsSafe(now, s0, live, staged, kept);
      ghost var dropped := trace;
      if ok && staged !in now.dbs && live == staged && !Holds(s0, kept, s0.dbs[live]) {
        LostNow(trace, from, live, kept, s0.dbs[live]);
      }
      if !ok {
        SentCut(old(log), log, DropSteps(staged), [Look, create]);
        return;
      }
      ghost var asking := log;
      ok := Ask(live, staged, kept, s0.dbs[live], from);
      SentOne(asking, Look, ok);
      UntouchedByLooks(asking, log, sentFrom);
      if !ok {
        SentCut(asking, log, [Look], [create]);
      } else {
        OnlyStagedStep(now, create, fates(sent), s0, staged);
        ghost var before, sending := trace, log;
        ok := Send(CreateAndLoad(staged, loaded, partial));
        SentOne(sending, create, ok);
        SentThen(asking, sending, log, [Look], [create], ok);
        OnlyStagedIsSafe(now, s0, live, staged, kept);
        assert trace[..|trace| - 1] == before;
        SafeNext(trace, from, live, staged, kept, s0.dbs[live]);
        UntouchedByCreate(sending, create, ok, sentFrom);
      }
      assert [Look] + [create] == [Look, create];
      SentThen(old(log), asking, log, DropSteps(staged), [Look, create], ok);
      if LostIn(dropped, from, live, kept, s0.dbs[live]) {
        StaysLost(dropped, trace, from, live, kept, s0.dbs[live]);
      }
    }

    /** Make the new database and compare it; no application is stopped for that. */
    method MakeAndCompare(live: string, staged: string, loaded: Content, partial: Content, m: Manifest,
                          ghost kept: string, ghost s0: State, ghost from: nat, ghost sentFrom: nat) returns (end: Option<Ending>)
      requires live in s0.dbs && AppIsServed(s0, live) && OnlyStaged(now, s0, staged) && staged != kept && from <= |trace|
      requires SafeFrom(trace, from, live, staged, kept, s0.dbs[live]) && AppUntouched(log, sentFrom)
      modifies this
      ensures OnlyStaged(now, s0, staged)
      ensures SafeFrom(trace, from, live, staged, kept, s0.dbs[live]) && AppUntouched(log, sentFrom)
      ensures old(trace) <= trace && old(log) <= log
      ensures end.None? ==> Matches(loaded, m) && staged in now.dbs && now.dbs[staged] == loaded
      ensures end.Some? ==> end.value.NotCompared? || end.value.Mismatch?
      ensures end.Some? && end.value.Mismatch? ==> Shows(end.value.problems, loaded, m)
      // A database that does not match is dropped again.
      ensures end.None? ==> Sent(old(log), log, MakeSteps(staged, loaded, partial), true)
      ensures end.Some? ==>
        Sent(old(log), log, MakeSteps(staged, loaded, partial) + DropSteps(staged), end.value.Mismatch?)
      ensures end.Some? && end.value.Mismatch? && sent >= 2 && fates(sent - 2).Works? && fates(sent - 1).Works? ==>
        now.dbs == s0.dbs - {staged}
      ensures AllWork(fates) ==> end.None? || (end.value.Mismatch? && now.dbs == s0.dbs - {staged})
      ensures AllWork(fates) && live == staged && !Holds(s0, kept, s0.dbs[live]) ==> LostIn(trace, from, live, kept, s0.dbs[live])
    {
      hide Safe, SafeFrom, AppUntouched, OnlyStaged, Matches, AppIsServed, AllWork, LostIn, Holds, Sent, DropSteps;
      var ok := RestoreInto(live, staged, loaded, partial, kept, s0, from, sentFrom);
      ghost var into := DropSteps(staged) + [Look, CreateAndLoad(staged, loaded, partial)];
      if !ok {
        SentCut(old(log), log, into, Looks(4));
        SentCut(old(log), log, into + Looks(4), DropSteps(staged));
        return Some(NotCompared);
      }
      OnlyStagedIsSafe(now, s0, live, staged, kept);
      ghost var before, made := log, trace;
      ok := AskAll(4, live, staged, kept, s0.dbs[live], from);
      SentThen(old(log), before, log, into, Looks(4), ok);
      UntouchedByLooks(before, log, sentFrom);
      if !ok {
        SentCut(old(log), log, into + Looks(4), DropSteps(staged));
        end := Some(NotCompared);
      } else {
        var problems := VerifyRestored(now.dbs[staged], m);
        if problems != [] {
          ghost var compared := log;
          WorksAlways(fates, sent);
          WorksAlways(fates, sent + 1);
          ok := DropDatabase(live, staged, kept, s0, from, sentFrom);
          SentThen(old(log), compared, log, into + Looks(4), DropSteps(staged), ok);
          StagedIsGone(now, s0, staged);
          end := Some(if ok then Mismatch(problems) else NotCompared);
        } else {
          end := None;
        }
      }
      if LostIn(made, from, live, kept, s0.dbs[live]) {
        StaysLost(made, trace, from, live, kept, s0.dbs[live]);
      }
    }

    /** The swap, and what is left to do after it. */
    method Exchange(live: string, staged: string, kept: string, app: bool, frontendUp: bool,
                    ghost dbs: map<string, Content>, ghost was: Content, ghost loaded: Content, ghost from: nat)
      returns (end: Ending)
      requires staged != kept && live in dbs && dbs[live] == was
      requires now.dbs == dbs[staged := loaded] && !now.appUp && SafeFrom(trace, from, live, staged, kept, was)
      modifies this
      ensures old(trace) <= trace && old(log) <= log && SafeFrom(trace, from, live, staged, kept, was)
      ensures end.Restored? || end.Unconfirmed? || end.SwapFailed?
      ensures end.Restored? || end.Unconfirmed? ==> staged != live && kept != live
      ensures end.Restored? || end.Unconfirmed? ==>
        now.dbs == SwappedDbs(dbs[staged := loaded], live, staged, kept) && live in now.up && now.appUp == app
      ensures end.SwapFailed? ==> !end.ended.Swapped? && SwapLeaves(dbs[staged := loaded], now, live, staged, kept, app, end.ended)
      ensures kept in dbs ==> now.dbs == dbs[staged := loaded]
      // The commands that were sent.
      ensures end.SwapFailed? ==> SwapLog(log[|old(log)|..], live, staged, kept, app, end.ended)
      ensures !end.SwapFailed? ==>
        Sent(old(log) + Answered(SwapSteps(live, staged, kept, app)), log, QuestionsAfter(app, frontendUp), end.Restored?)
      ensures AllWork(fates) ==>
        && (kept in dbs ==> end == SwapFailed(NotRenamed))
        && (kept !in dbs && staged != live ==> end.Restored?)
        && (kept !in dbs && staged == live && kept !in old(now).up ==> end == SwapFailed(RolledBack) && now.dbs == dbs[staged := loaded])
    {
      hide Safe, SafeFrom, SwappedDbs, SwapLeaves, SwapLog, UpAfterStops, Sent, SwapSteps;
      ghost var s, k, before := now, sent, trace;
      if AllWork(fates) {
        NoCommandFails(s, live, staged, kept, app, fates, k);
      }
      hide AllWork;
      var ended := Swap(live, staged, kept, app);
      SafeJoin(trace, from, before, live, staged, kept, was, s.dbs[live]);
      if ended != Swapped {
        return SwapFailed(ended);
      }
      hide SwapEnds, SwapPhase;
      SwappedIsSafe(s.dbs, now, live, staged, kept, app);
      ghost var swapped, n := log, if frontendUp then 2 else 1;
      SwappedSends(log[|old(log)|..], live, staged, kept, app);
      assert swapped == old(log) + log[|old(log)|..];
      var ok := AskAll(2, live, staged, kept, was, from);
      if app {
        if ok {
          ghost var owned := log;
          ok := AskAll(if frontendUp then 2 else 1, live, staged, kept, was, from);
          SentThen(swapped, owned, log, Looks(2), Looks(n), ok);
        } else {
          SentCut(swapped, log, Looks(2), Looks(n));
        }
      } else {
        assert Looks(2) + [] == Looks(2);
      }
      return if ok then Restored else Unconfirmed;
    }

    /** The application is stopped, where there is one, and the databases are exchanged. */
    method StopAndExchange(live: string, staged: string, kept: string, app: bool, frontendUp: bool, ghost partial: Content,
                           ghost s0: State, ghost loaded: Content, ghost from: nat, ghost before: seq<Reply>)
      returns (end: Ending)
      requires staged != kept && live in s0.dbs && now.dbs == s0.dbs[staged := loaded] && now.up - {staged} == s0.up - {staged}
      requires (!app ==> !now.appUp) && SafeIf(now, live, staged, kept, s0.dbs[live])
      requires SafeFrom(trace, from, live, staged, kept, s0.dbs[live]) && from <= |trace|
      requires Sent(before, log, MakeSteps(staged, loaded, partial), true)
      modifies this
      ensures old(trace) <= trace && old(log) <= log && SafeFrom(trace, from, live, staged, kept, s0.dbs[live])
      ensures end.AppNotStopped? || end.SwapFailed? || end.Restored? || end.Unconfirmed?
      ensures RestoreLeaves(s0, now, live, staged, kept, app, loaded, end)
      ensures ReplaceSends(before, log, live, staged, kept, app, frontendUp, loaded, partial, end)
      ensures end.Restored? || end.Unconfirmed? ==> staged != live && kept != live
      ensures kept in s0.dbs ==> now.dbs == s0.dbs[staged := loaded]
      ensures AllWork(fates) ==>
        && (kept in s0.dbs ==> end == SwapFailed(NotRenamed))
        && (kept !in s0.dbs && staged != live ==> end.Restored?)
        && (kept !in s0.dbs && staged == live && kept !in s0.up ==> end == SwapFailed(RolledBack) && now.dbs == s0.dbs[staged := loaded])
    {
      hide Safe, SafeFrom, SafeIf, AllWork, SwappedDbs, SwapLeaves, Sent, SwapLog, MakeSteps, SwapSteps, QuestionsAfter;
      ghost var was, make, answered := s0.dbs[live], MakeSteps(staged, loaded, partial), log;
      assert kept in now.up - {staged} <==> kept in s0.up - {staged};
      var ok := true;
      if app {
        StopAppStep(now, fates(sent), live, staged, kept, was);
        ghost var moment := trace;
        WorksAlways(fates, sent);
        ok := Send(StopApp);
        assert trace[..|trace| - 1] == moment;
        SafeNext(trace, from, live, staged, kept, was);
        SentOne(answered, StopApp, ok);
        SentThen(before, answered, log, make, [StopApp], ok);
      } else {
        assert make + [] == make;
      }
      if !ok {
        return AppNotStopped;
      }
      ghost var off := log;
      end := Exchange(live, staged, kept, app, frontendUp, s0.dbs, was, loaded, from);
      ExchangeSends(before, off, log, live, staged, kept, app, frontendUp, loaded, partial, end);
    }

    /** What restore does once its questions are answered, with the names it has made. */
    method Replace(live: string, staged: string, kept: string, m: Manifest, app: bool, frontendUp: bool, loaded: Content, partial: Content,
                   ghost s0: State, ghost from: nat, ghost sentFrom: nat) returns (end: Ending)
      requires live in s0.dbs && AppIsServed(s0, live) && OnlyStaged(now, s0, staged) && staged != kept && from <= |trace|
      requires !app ==> !s0.appUp
      requires SafeFrom(trace, from, live, staged, kept, s0.dbs[live]) && AppUntouched(log, sentFrom)
      modifies this
      ensures old(trace) <= trace && old(log) <= log && SafeFrom(trace, from, live, staged, kept, s0.dbs[live])
      ensures !end.Declined? && RestoreLeaves(s0, now, live, staged, kept, app, loaded, end)
      ensures ReplaceSends(old(log), log, live, staged, kept, app, frontendUp, loaded, partial, end)
      ensures end.NotCompared? || end.Mismatch? ==> AppUntouched(log, sentFrom)
      ensures end.Mismatch? ==> Shows(end.problems, loaded, m)
      // A database that does not match is dropped again.
      ensures end.Mismatch? && sent >= 2 && fates(sent - 2).Works? && fates(sent - 1).Works? ==> now.dbs == s0.dbs - {staged}
      ensures end.Mismatch? && AllWork(fates) ==> now.dbs == s0.dbs - {staged}
      ensures AllWork(fates) && !Matches(loaded, m) ==> end.Mismatch?
      ensures !end.NotCompared? && !end.Mismatch? ==> Matches(loaded, m)
      ensures end.Restored? || end.Unconfirmed? ==> staged != live && kept != live
      ensures kept in s0.dbs ==> now.dbs - {staged} == s0.dbs - {staged}
      ensures AllWork(fates) && live == staged && !Holds(s0, kept, s0.dbs[live]) ==> LostIn(trace, from, live, kept, s0.dbs[live])
      ensures AllWork(fates) && Matches(loaded, m) ==>
        && (kept in s0.dbs ==> end == SwapFailed(NotRenamed))
        && (kept !in s0.dbs && staged != live ==> end.Restored?)
        && (kept !in s0.dbs && staged == live && kept !in s0.up ==> end == SwapFailed(RolledBack) && now.dbs == s0.dbs[staged := loaded])
    {
      ghost var was := s0.dbs[live];
      hide Safe, SafeFrom, SafeIf, AppUntouched, OnlyStaged, Matches, AppIsServed, AllWork, LostIn, Holds, SwappedDbs, SwapLeaves;
      hide Sent, SwapLog, MakeSteps, DropSteps, SwapSteps, QuestionsAfter;
      var failed := MakeAndCompare(live, staged, loaded, partial, m, kept, s0, from, sentFrom);
      OnlyStagedIsSafe(now, s0, live, staged, kept);
      OnlyStagedDbs(now, s0, staged, loaded);
      if failed.Some? {
        ShowsMismatch(failed.value, loaded, m);
        return failed.value;
      }
      StagedIsMade(now, s0, staged, loaded);
      ghost var made := trace;
      end := StopAndExchange(live, staged, kept, app, frontendUp, partial, s0, loaded, from, old(log));
      if LostIn(made, from, live, kept, was) {
        StaysLost(made, trace, from, live, kept, was);
      }
    }

    /** The questions before anything is changed: the production name, which the operator and
        the dump must name too; then the owner of the files, the locale and the directory. */
    method Confirmed(live: string, confirm: string, m: Manifest, ghost staged: string, ghost kept: string, ghost was: Content)
      returns (ok: bool)
      requires SafeIf(now, live, staged, kept, was)
      modifies this
      ensures now == old(now) && old(trace) <= trace && old(log) <= log
      ensures SafeFrom(trace, |old(trace)|, live, staged, kept, was) && AppUntouched(log, |old(log)|)
      ensures ok ==> log == old(log) + Answered(Looks(5)) && AskedFirst(log, |old(log)|, 5) && confirm == live == m.database
      ensures !ok ==> Sent(old(log), log, Looks(5), false) || log == old(log) + [Reply(Look, true)]
      ensures AllWork(fates) && confirm == live == m.database ==> ok
    {
      hide SafeIf, SafeFrom, AppUntouched, AllWork, Sent;
      ghost var from := |trace|;
      NothingYet(trace, from, log, |log|, live, staged, kept, was);
      ok := AskAll(1, live, staged, kept, was, from);
      UntouchedByLooks(old(log), log, |old(log)|);
      FirstQuestion(old(log), log, ok);
      if !ok || confirm != live || m.database != live {
        return false;
      }
      ghost var before := log;
      ok := AskAll(4, live, staged, kept, was, from);
      UntouchedByLooks(before, log, |old(log)|);
      FurtherQuestions(old(log), before, log, ok);
    }

    /** The same for any names under which the new database is made and the old one is kept. */
    method RestoreNamed(live: string, confirm: string, manifest: Option<Manifest>, staged: string, kept: string, app: bool,
                        appStopped: bool, frontendUp: bool, loaded: Content, partial: Content) returns (end: Ending)
      requires staged != kept && live in now.dbs && AppIsServed(now, live) && SafeIf(now, live, staged, kept, now.dbs[live])
      requires !app && appStopped ==> !now.appUp
      modifies this
      ensures old(trace) <= trace && old(log) <= log
      ensures SafeFrom(trace, |old(trace)|, live, staged, kept, old(now).dbs[live])
      ensures RestoreLeaves(old(now), now, live, staged, kept, app, loaded, end)
      ensures end.Declined? || end.NotCompared? || end.Mismatch? ==> AppUntouched(log, |old(log)|)
      ensures !end.Declined? ==> AskedFirst(log, |old(log)|, 5)
      ensures end.Declined? ==> Sent(old(log), log, Looks(5), false) || log == old(log) || log == old(log) + [Reply(Look, true)]
      ensures !end.Declined? ==>
        ReplaceSends(old(log) + Answered(Looks(5)), log, live, staged, kept, app, frontendUp, loaded, partial, end)
      ensures end.Mismatch? && sent >= 2 && fates(sent - 2).Works? && fates(sent - 1).Works? ==> now.dbs == old(now).dbs - {staged}
      ensures AllWork(fates) && MayTry(live, confirm, manifest, app, appStopped) && !Matches(loaded, manifest.value) ==>
        end.Mismatch? && now.dbs == old(now).dbs - {staged}
      ensures end.Mismatch? ==> manifest.Some? && Shows(end.problems, loaded, manifest.value)
      ensures end.Restored? || end.Unconfirmed? || end.SwapFailed? || end.AppNotStopped? ==>
        MayReplace(live, confirm, manifest, app, appStopped, loaded)
      ensures staged == live || kept == live ==> !end.Restored? && !end.Unconfirmed?
      ensures kept in old(now).dbs ==> now.dbs - {staged} == old(now).dbs - {staged}
      ensures AllWork(fates) && MayTry(live, confirm, manifest, app, appStopped)
              && staged == live && !Holds(old(now), kept, old(now).dbs[live]) ==>
        LostIn(trace, |old(trace)|, live, kept, old(now).dbs[live])
      ensures AllWork(fates) && MayReplace(live, confirm, manifest, app, appStopped, loaded) ==>
        && (kept in old(now).dbs ==> end == SwapFailed(NotRenamed))
        && (kept !in old(now).dbs && staged != live ==> end.Restored?)
        && (kept !in old(now).dbs && staged == live && kept !in old(now).up ==>
              end == SwapFailed(RolledBack) && now.dbs == old(now).dbs[live := loaded])
    {
      hide Safe, SafeIf, SafeFrom, AppUntouched, Matches, Shows, AppIsServed, AllWork, LostIn, Holds;
      hide SwappedDbs, SwapLeaves, OnlyStaged, ReplaceSends, Sent, Answered, Looks, AskedFirst;
      ghost var s0, from, sentFrom, was := now, |trace|, |log|, now.dbs[live];
      NothingYet(trace, from, log, sentFrom, live, staged, kept, was);
      if (!app && !appStopped) || manifest.None? {
        return Declined;
      }
      var m := manifest.value;
      var ok := Confirmed(live, confirm, m, staged, kept, was);
      if !ok {
        return Declined;
      }
      OnlyStagedNow(s0, staged);
      ghost var asked := log;
      end := Replace(live, staged, kept, m, app, frontendUp, loaded, partial, s0, from, sentFrom);
      StillAsked(asked, log, sentFrom, 5);
    }

    /** Replace the production database by the dump. Whatever becomes of the commands, and
        unless the production name carries the staged tag with this time: after every command
        the old content is there and the application is served. The application is stopped
        only for a database that matches the manifest, and the way it ends says what is left. */
    method Restore(live: string, confirm: string, manifest: Option<Manifest>, stamp: string, app: bool, appStopped: bool,
                   frontendUp: bool, loaded: Content, partial: Content) returns (end: Ending)
      requires live in now.dbs && AppIsServed(now, live)
      requires !app && appStopped ==> !now.appUp
      requires |stamp| == 10 && Digits.AllDigits(stamp)
      modifies this
      ensures old(trace) <= trace && old(log) <= log
      ensures !Names.AlreadyTagged(live, Names.TAG_STAGED, stamp) ==>
        forall i | |old(trace)| <= i < |trace| :: Safe(trace[i], live, KeptName(live, stamp), old(now).dbs[live])
      ensures RestoreLeaves(old(now), now, live, StagedName(live, stamp), KeptName(live, stamp), app, loaded, end)
      ensures end.Declined? || end.NotCompared? || end.Mismatch? ==> AppUntouched(log, |old(log)|)
      ensures !end.Declined? ==> AskedFirst(log, |old(log)|, 5)
      // The commands that were sent: five questions, and then those of the table.
      ensures end.Declined? ==> Sent(old(log), log, Looks(5), false) || log == old(log) || log == old(log) + [Reply(Look, true)]
      ensures !end.Declined? ==> ReplaceSends(old(log) + Answered(Looks(5)), log, live, StagedName(live, stamp),
                                              KeptName(live, stamp), app, frontendUp, loaded, partial, end)
      // A database that does not match is dropped again.
      ensures end.Mismatch? && sent >= 2 && fates(sent - 2).Works? && fates(sent - 1).Works? ==>
        now.dbs == old(now).dbs - {StagedName(live, stamp)}
      ensures AllWork(fates) && MayTry(live, confirm, manifest, app, appStopped) && !Matches(loaded, manifest.value) ==>
        end.Mismatch? && now.dbs == old(now).dbs - {StagedName(live, stamp)}
      ensures end.Mismatch? ==> manifest.Some? && Shows(end.problems, loaded, manifest.value)
      ensures end.Restored? || end.Unconfirmed? || end.SwapFailed? || end.AppNotStopped? ==>
        MayReplace(live, confirm, manifest, app, appStopped, loaded)
      // What the names decide.
      ensures Names.AlreadyTagged(live, Names.TAG_STAGED, stamp) || Names.AlreadyTagged(live, Names.TAG_KEPT, stamp) ==>
        !end.Restored? && !end.Unconfirmed?
      ensures Names.AlreadyTagged(live, Names.TAG_KEPT, stamp) ==>
        now.dbs - {StagedName(live, stamp)} == old(now).dbs - {StagedName(live, stamp)}
      ensures (AllWork(fates) && MayTry(live, confirm, manifest, app, appStopped)
               && Names.AlreadyTagged(live, Names.TAG_STAGED, stamp)
               && !Holds(old(now), KeptName(live, stamp), old(now).dbs[live])) ==>
        LostIn(trace, |old(trace)|, live, KeptName(live, stamp), old(now).dbs[live])
      // What happens when no command fails.
      ensures AllWork(fates) && MayReplace(live, confirm, manifest, app, appStopped, loaded) ==>
        var kept := KeptName(live, stamp);
        && (kept in old(now).dbs ==> end == SwapFailed(NotRenamed))
        && (kept !in old(now).dbs && !Names.AlreadyTagged(live, Names.TAG_STAGED, stamp) ==> end.Restored?)
        && (kept !in old(now).dbs && Names.AlreadyTagged(live, Names.TAG_STAGED, stamp) && kept !in old(now).up ==>
              end == SwapFailed(RolledBack) && now.dbs == old(now).dbs[live := loaded])
    {
      NamesDiffer(live, stamp);
      OnlyStagedIsSafe(now, now, live, StagedName(live, stamp), KeptName(live, stamp));
      ghost var from := |trace|;
      end := RestoreNamed(live, confirm, manifest, StagedName(live, stamp), KeptName(live, stamp), app, appStopped, frontendUp,
                          loaded, partial);
      SafeMeans(trace, from, live, StagedName(live, stamp), KeptName(live, stamp), old(now).dbs[live]);
    }
  }
}
