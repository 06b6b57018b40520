/**
 Names of databases and of the files that belong to them: derived_name, _belongs_to and
 parse_ownership in scripts/db_backup.py.
 */
module Names {
  import opened Prelude
  import opened Digits

  const MAX_DB_NAME := 17

  const TAG_STAGED := "_s"
  const TAG_KEPT := "_b"

  datatype NameError = TagTooLong

  function StripUnderscores(s: string): (r: string)
    ensures r <= s && (r != [] ==> r[|r| - 1] != '_')
    ensures forall i | |r| <= i < |s| :: s[i] == '_'
  {
    if s != [] && s[|s| - 1] == '_' then StripUnderscores(s[..|s| - 1]) else s
  }

  function Front(s: string, n: nat): string {
    if |s| <= n then s else s[..n]
  }

  function DerivedName(live: string, tag: string, stamp: string): (r: Result<string, NameError>)
    ensures r.Ok? <==> |tag| + |stamp| <= 16
    ensures r.Ok? ==> |r.value| <= 17
    ensures r.Ok? ==>
      var k := |r.value| - |tag| - |stamp|;
      && 0 <= k <= |live| && r.value == live[..k] + tag + stamp
      && (k > 0 ==> live[k - 1] != '_')
      && forall i | k <= i < |live| && i < 17 - |tag| - |stamp| :: live[i] == '_'
  {
    var room := MAX_DB_NAME - |tag| - |stamp|;
    if room < 1 then Err(TagTooLong) else Ok(StripUnderscores(Front(live, room)) + tag + stamp)
  }

  /** Different tags of one length, or different stamps of one length, never give the same name. */
  lemma DerivedDistinct(live: string, tag: string, stamp: string, live': string, tag': string, stamp': string)
    requires |tag| == |tag'| && |stamp| == |stamp'| && |tag| + |stamp| < MAX_DB_NAME
    requires DerivedName(live, tag, stamp) == DerivedName(live', tag', stamp')
    ensures tag == tag' && stamp == stamp'
  {
    var room := MAX_DB_NAME - |tag| - |stamp|;
    var kept, kept' := StripUnderscores(Front(live, room)), StripUnderscores(Front(live', room));
    hide StripUnderscores, Front;
    SameEnd(kept + tag, stamp, kept' + tag', stamp');
    SameEnd(kept, tag, kept', tag');
  }

  lemma SameEnd(a: string, x: string, b: string, y: string)
    requires |x| == |y|
    ensures a + x == b + y ==> a == b && x == y
  {
    if a + x == b + y {
      assert a == (a + x)[..|a|] && b == (b + y)[..|b|];
      assert x == (a + x)[|a|..] && y == (b + y)[|b|..];
    }
  }

  /** The tag of a replacement, and a time of month, day, hour, minute and second. */
  predicate ReplacementTag(tag: string, stamp: string) {
    tag in {TAG_STAGED, TAG_KEPT} && |stamp| == 10 && AllDigits(stamp)
  }

  /** The production database already carries this very tag and time, behind four or five
      characters that do not end in an underscore. */
  predicate AlreadyTagged(live: string, tag: string, stamp: string) {
    && |live| - 12 in {4, 5}
    && live[|live| - 12..] == tag + stamp
    && live[|live| - 13] != '_'
  }

  /** A derived name is the production name itself exactly for a name that already carries it. */
  lemma DerivedIsLive(live: string, tag: string, stamp: string)
    requires ReplacementTag(tag, stamp)
    ensures DerivedName(live, tag, stamp) == Ok(live) <==> AlreadyTagged(live, tag, stamp)
  {
    var p := |live| - 12;
    if AlreadyTagged(live, tag, stamp) {
      assert live[p] == (tag + stamp)[0] == '_';
      StripOneUnderscore(live[..p], Front(live, 5));
      assert live == live[..p] + live[p..] == live[..p] + tag + stamp;
    }
    if DerivedName(live, tag, stamp) == Ok(live) {
      CarriesItsTag(live, tag, stamp);
    }
  }

  lemma CarriesItsTag(live: string, tag: string, stamp: string)
    requires ReplacementTag(tag, stamp) && DerivedName(live, tag, stamp) == Ok(live)
    ensures AlreadyTagged(live, tag, stamp)
  {
    var front := Front(live, 5);
    var kept := StripUnderscores(front);
    assert live == kept + (tag + stamp);
    assert live[|kept|..] == tag + stamp && live[|kept| + 1] == tag[1] != '_';
    assert front == live[..5] && forall i | |kept| <= i < 5 :: live[i] == front[i] == '_';
    assert |kept| + 1 >= 5;
    assert live[|kept| - 1] == kept[|kept| - 1];
  }

  lemma StripOneUnderscore(p: string, s: string)
    requires p != [] && p[|p| - 1] != '_' && p <= s && (s == p || s == p + "_")
    ensures StripUnderscores(s) == p
  {
    if s == p + "_" {
      assert s[..|s| - 1] == p;
    }
  }

  // ---- Whose file is it ----

  /** A database's files carry its name, or its name, an underscore and more. */
  predicate Fits(basename: string, name: string) {
    basename == name || name + "_" <= basename
  }

  /** The owner of a file: the longest of the names that fit, or no name. */
  predicate IsOwner(owner: string, basename: string, names: set<string>) {
    && (owner == [] || (owner in names && Fits(basename, owner)))
    && forall n | n in names && Fits(basename, n) :: |n| <= |owner|
  }

  /** Names that fit are beginnings of the file's name, so two of one length are the same. */
  lemma OneOwner(basename: string, names: set<string>, a: string, b: string)
    requires IsOwner(a, basename, names) && IsOwner(b, basename, names)
    ensures a == b
  {
    if a != [] && b != [] {
      FitsIsPrefix(basename, a);
      FitsIsPrefix(basename, b);
    }
  }

  lemma FitsIsPrefix(basename: string, name: string)
    requires Fits(basename, name)
    ensures name <= basename
  {
    if basename != name {
      assert name == (name + "_")[..|name|];
    }
  }

  /** Whatever the order in which the registered names come up. */
  method BelongsTo(basename: string, live: string, registered: set<string>) returns (mine: bool)
    ensures mine <==> IsOwner(live, basename, registered + {live})
  {
    var names := registered + {live};
    var owner: string := [];
    var todo := names;
    while todo != {}
      invariant todo <= names
      invariant IsOwner(owner, basename, names - todo)
    {
      var name :| name in todo;
      assert names - (todo - {name}) == (names - todo) + {name};
      todo := todo - {name};
      if Fits(basename, name) && |name| > |owner| {
        owner := name;
      }
    }
    assert names - todo == names;
    if IsOwner(live, basename, names) {
      OneOwner(basename, names, live, owner);
    }
    mine := owner == live;
  }

  /** Databases in one directory share its files without overlap, and a file that carries the
      longer name of another database is not the production database's. */
  lemma FilesAreShared(basename: string, names: set<string>, a: string, b: string)
    requires a in names && b in names && a != b
    ensures !(IsOwner(a, basename, names) && IsOwner(b, basename, names))
    ensures Fits(basename, b) && |b| > |a| ==> !IsOwner(a, basename, names)
  {
    if IsOwner(a, basename, names) && IsOwner(b, basename, names) {
      OneOwner(basename, names, a, b);
    }
  }

  // ---- Can the server open its files ----

  /** The lines of the ownership report, taken apart. */
  datatype Line =
    | Want(uid: string)
    | Registered(name: string)
    | Directory(uid: string, path: string)
    | Entry(uid: string, path: string)
    | Server(uid: string, words: seq<string>)

  datatype Complaint =
    | Unreadable
    | RunsAs(uid: string)
    | DirectoryOwner(uid: string)
    | FileOwners(paths: seq<string>)
    | ServerUser(uid: string)

  /** What stands behind the last slash. */
  function Basename(path: string): string {
    if '/' !in path then path else
    assert path != [];
    Basename(path[1..])
  }

  /** The longest end of a path without a slash. */
  lemma {:induction false} BasenameIs(path: string)
    ensures var name := Basename(path);
      && '/' !in name && |name| <= |path| && path[|path| - |name|..] == name
      && (|name| < |path| ==> path[|path| - |name| - 1] == '/')
  {
    if '/' in path {
      BasenameIs(path[1..]);
      assert path == [path[0]] + path[1..];
    } else {
      assert path[0..] == path;
    }
  }

  function LastWant(lines: seq<Line>): Option<string> {
    if lines == [] then None
    else if lines[|lines| - 1].Want? then Some(lines[|lines| - 1].uid)
    else LastWant(lines[..|lines| - 1])
  }

  function DirectoryOwnerOf(lines: seq<Line>): Option<string> {
    if lines == [] then None
    else if lines[|lines| - 1].Directory? then Some(lines[|lines| - 1].uid)
    else DirectoryOwnerOf(lines[..|lines| - 1])
  }

  function RegisteredNames(lines: seq<Line>): set<string> {
    set l | l in lines && l.Registered? :: l.name
  }

  function EntriesOf(lines: seq<Line>): (entries: seq<Line>)
    ensures forall l | l in entries :: l.Entry?
  {
    if lines == [] then [] else
    EntriesOf(lines[..|lines| - 1]) + if lines[|lines| - 1].Entry? then [lines[|lines| - 1]] else []
  }

  function ServersOf(lines: seq<Line>): (servers: seq<Line>)
    ensures forall l | l in servers :: l.Server?
  {
    if lines == [] then [] else
    ServersOf(lines[..|lines| - 1]) + if lines[|lines| - 1].Server? then [lines[|lines| - 1]] else []
  }

  /** The files of the production database that another user owns, in the order of the report. */
  function WrongPaths(entries: seq<Line>, want: string, live: string, names: set<string>): seq<string>
    requires forall l | l in entries :: l.Entry?
  {
    if entries == [] then [] else
    var l := entries[|entries| - 1];
    WrongPaths(entries[..|entries| - 1], want, live, names)
      + if l.uid != want && IsOwner(live, Basename(l.path), names) then [l.path] else []
  }

  /** Line i is a file of the production database that another user owns. */
  ghost predicate WrongFile(lines: seq<Line>, i: nat, want: string, live: string, names: set<string>) {
    i < |lines| && lines[i].Entry? && lines[i].uid != want && IsOwner(live, Basename(lines[i].path), names)
  }

  ghost predicate AreWrongFiles(at: seq<nat>, lines: seq<Line>, want: string, live: string, names: set<string>) {
    Increasing(at) && forall i: nat :: i in at <==> WrongFile(lines, i, want, live, names)
  }

  ghost predicate ArePathsOf(paths: seq<string>, at: seq<nat>, lines: seq<Line>) {
    && |paths| == |at|
    && forall k | 0 <= k < |at| :: at[k] < |lines| && lines[at[k]].Entry? && paths[k] == lines[at[k]].path
  }

  lemma OtherLine(at: seq<nat>, paths: seq<string>, front: seq<Line>, l: Line, want: string, live: string, names: set<string>)
    requires AreWrongFiles(at, front, want, live, names) && ArePathsOf(paths, at, front)
    requires !WrongFile(front + [l], |front|, want, live, names)
    ensures AreWrongFiles(at, front + [l], want, live, names) && ArePathsOf(paths, at, front + [l])
  {
    hide IsOwner, Basename;
    forall i: nat
      ensures WrongFile(front + [l], i, want, live, names) <==> WrongFile(front, i, want, live, names)
    {
    }
  }

  lemma WrongLine(at: seq<nat>, paths: seq<string>, front: seq<Line>, l: Line, want: string, live: string, names: set<string>)
    requires AreWrongFiles(at, front, want, live, names) && ArePathsOf(paths, at, front)
    requires WrongFile(front + [l], |front|, want, live, names)
    ensures AreWrongFiles(at + [|front|], front + [l], want, live, names)
    ensures ArePathsOf(paths + [l.path], at + [|front|], front + [l])
  {
    hide IsOwner, Basename;
    forall i: nat
      ensures WrongFile(front + [l], i, want, live, names) <==> WrongFile(front, i, want, live, names) || i == |front|
    {
    }
    forall i: nat
      ensures i in at + [|front|] <==> WrongFile(front + [l], i, want, live, names)
    {
    }
  }

  lemma NextWrongPath(front: seq<Line>, l: Line, want: string, live: string, names: set<string>)
    ensures WrongPaths(EntriesOf(front + [l]), want, live, names)
         == WrongPaths(EntriesOf(front), want, live, names)
            + if WrongFile(front + [l], |front|, want, live, names) then [l.path] else []
  {
    hide IsOwner, Basename;
    var entries := EntriesOf(front);
    assert (front + [l])[..|front|] == front;
    if l.Entry? {
      assert (entries + [l])[..|entries|] == entries;
    } else {
      assert entries + [] == entries;
    }
  }

  lemma NextWrongFile(at0: seq<nat>, front: seq<Line>, l: Line, want: string, live: string, names: set<string>)
      returns (at: seq<nat>)
    requires AreWrongFiles(at0, front, want, live, names)
    requires ArePathsOf(WrongPaths(EntriesOf(front), want, live, names), at0, front)
    ensures AreWrongFiles(at, front + [l], want, live, names)
    ensures ArePathsOf(WrongPaths(EntriesOf(front + [l]), want, live, names), at, front + [l])
  {
    hide *;
    var paths := WrongPaths(EntriesOf(front), want, live, names);
    NextWrongPath(front, l, want, live, names);
    if WrongFile(front + [l], |front|, want, live, names) {
      WrongLine(at0, paths, front, l, want, live, names);
      at := at0 + [|front|];
    } else {
      assert paths + [] == paths;
      OtherLine(at0, paths, front, l, want, live, names);
      at := at0;
    }
  }

  /** They are all those of the report, each once and in its order. */
  lemma {:induction false} WrongPathsAre(lines: seq<Line>, want: string, live: string, names: set<string>)
      returns (at: seq<nat>)
    ensures AreWrongFiles(at, lines, want, live, names)
    ensures ArePathsOf(WrongPaths(EntriesOf(lines), want, live, names), at, lines)
  {
    at := [];
    if lines != [] {
      var front, l := lines[..|lines| - 1], lines[|lines| - 1];
      at := WrongPathsAre(front, want, live, names);
      at := NextWrongFile(at, front, l, want, live, names);
      assert front + [l] == lines;
    }
  }

  predicate IsDifference(c: Complaint, lines: seq<Line>, live: string, want: string, owner: string) {
    match c
    case DirectoryOwner(uid) => uid == owner && uid != want
    case FileOwners(paths) => paths == WrongPaths(EntriesOf(lines), want, live, RegisteredNames(lines) + {live}) && paths != []
    case ServerUser(uid) => uid != want && exists l | l in ServersOf(lines) :: l.uid == uid && live in l.words
    case _ => false
  }

  /** What the report shows, exactly - wherever in it the names of the databases stand. */
  ghost predicate IsComplaint(c: Complaint, lines: seq<Line>, live: string) {
    if LastWant(lines).None? || DirectoryOwnerOf(lines).None? then c == Unreadable else
    var want, owner := LastWant(lines).value, DirectoryOwnerOf(lines).value;
    || IsDifference(c, lines, live, want, owner)
    || (c == RunsAs(want) && exists d :: IsDifference(d, lines, live, want, owner))
  }

  /** The servers that run the production database as another user, in the order of the report. */
  function WrongServers(servers: seq<Line>, want: string, live: string): seq<Complaint>
    requires forall l | l in servers :: l.Server?
  {
    if servers == [] then [] else
    var l := servers[|servers| - 1];
    WrongServers(servers[..|servers| - 1], want, live)
      + if l.uid != want && live in l.words then [ServerUser(l.uid)] else []
  }

  function DirectoryAndFiles(lines: seq<Line>, live: string, want: string, owner: string): seq<Complaint> {
    var paths := WrongPaths(EntriesOf(lines), want, live, RegisteredNames(lines) + {live});
    (if owner != want then [DirectoryOwner(owner)] else []) + (if paths != [] then [FileOwners(paths)] else [])
  }

  /** The whole list: first the user the server should run as, then the directory, the files,
      and one complaint for each server. */
  function Complaints(lines: seq<Line>, live: string): seq<Complaint> {
    if LastWant(lines).None? || DirectoryOwnerOf(lines).None? then [Unreadable] else
    var want, owner := LastWant(lines).value, DirectoryOwnerOf(lines).value;
    var found := DirectoryAndFiles(lines, live, want, owner) + WrongServers(ServersOf(lines), want, live);
    if found != [] then [RunsAs(want)] + found else []
  }

  lemma {:induction false} WrongServersAre(servers: seq<Line>, want: string, live: string, c: Complaint)
    requires forall l | l in servers :: l.Server?
    ensures c in WrongServers(servers, want, live)
       <==> c.ServerUser? && c.uid != want && exists l | l in servers :: l.uid == c.uid && live in l.words
  {
    if servers != [] {
      var front, last := servers[..|servers| - 1], servers[|servers| - 1];
      assert servers == front + [last];
      WrongServersAre(front, want, live, c);
    }
  }

  /** The list holds exactly what the report shows. */
  lemma ComplaintsAre(lines: seq<Line>, live: string, c: Complaint)
    ensures c in Complaints(lines, live) <==> IsComplaint(c, lines, live)
  {
    hide LastWant, DirectoryOwnerOf, RegisteredNames, EntriesOf, ServersOf, IsOwner, WrongPaths, WrongServers;
    if LastWant(lines).Some? && DirectoryOwnerOf(lines).Some? {
      var want, owner := LastWant(lines).value, DirectoryOwnerOf(lines).value;
      forall d ensures d in DirectoryAndFiles(lines, live, want, owner) + WrongServers(ServersOf(lines), want, live)
         <==> IsDifference(d, lines, live, want, owner) {
        WrongServersAre(ServersOf(lines), want, live, d);
      }
      var found := DirectoryAndFiles(lines, live, want, owner) + WrongServers(ServersOf(lines), want, live);
      if found != [] {
        assert IsDifference(found[0], lines, live, want, owner);
      }
    }
  }

  lemma EmptyReport()
    ensures LastWant([]) == None && DirectoryOwnerOf([]) == None && RegisteredNames([]) == {}
    ensures EntriesOf([]) == [] && ServersOf([]) == []
  {
  }

  /** What one more line adds to the report. */
  lemma NextLine(front: seq<Line>, line: Line)
    ensures LastWant(front + [line]) == if line.Want? then Some(line.uid) else LastWant(front)
    ensures DirectoryOwnerOf(front + [line]) == if line.Directory? then Some(line.uid) else DirectoryOwnerOf(front)
    ensures RegisteredNames(front + [line]) == RegisteredNames(front) + if line.Registered? then {line.name} else {}
    ensures EntriesOf(front + [line]) == EntriesOf(front) + if line.Entry? then [line] else []
    ensures ServersOf(front + [line]) == ServersOf(front) + if line.Server? then [line] else []
  {
    assert (front + [line])[..|front|] == front;
  }

  method ReadReport(lines: seq<Line>)
    returns (want: Option<string>, directory: Option<string>, registered: set<string>, entries: seq<Line>, servers: seq<Line>)
    ensures want == LastWant(lines) && directory == DirectoryOwnerOf(lines) && registered == RegisteredNames(lines)
    ensures entries == EntriesOf(lines) && servers == ServersOf(lines)
  {
    want, registered, directory, entries, servers := None, {}, None, [], [];
    assert lines[..0] == [];
    EmptyReport();
    hide LastWant, DirectoryOwnerOf, RegisteredNames, EntriesOf, ServersOf;
    for i := 0 to |lines|
      invariant want == LastWant(lines[..i]) && directory == DirectoryOwnerOf(lines[..i])
      invariant registered == RegisteredNames(lines[..i])
      invariant entries == EntriesOf(lines[..i]) && servers == ServersOf(lines[..i])
    {
      var line := lines[i];
      assert lines[..i + 1] == lines[..i] + [line];
      NextLine(lines[..i], line);
      match line {
        case Want(uid) => want := Some(uid);
        case Registered(name) => registered := registered + {name};
        case Directory(uid, _) => directory := Some(uid);
        case Entry(_, _) => entries := entries + [line];
        case Server(_, _) => servers := servers + [line];
      }
    }
    assert lines[..|lines|] == lines;
  }

  lemma AllComplaintsAre(lines: seq<Line>, live: string)
    ensures forall c :: c in Complaints(lines, live) <==> IsComplaint(c, lines, live)
  {
    forall c
      ensures c in Complaints(lines, live) <==> IsComplaint(c, lines, live)
    {
      ComplaintsAre(lines, live, c);
    }
  }

  method FilesOfOthers(entries: seq<Line>, want: string, live: string, registered: set<string>) returns (wrong: seq<string>)
    requires forall l | l in entries :: l.Entry?
    ensures wrong == WrongPaths(entries, want, live, registered + {live})
  {
    hide IsOwner;
    wrong := [];
    for i := 0 to |entries|
      invariant wrong == WrongPaths(entries[..i], want, live, registered + {live})
    {
      var entry := entries[i];
      assert entries[..i + 1][..i] == entries[..i];
      var mine := BelongsTo(Basename(entry.path), live, registered);
      if entry.uid != want && mine {
        wrong := wrong + [entry.path];
      }
    }
    assert entries[..|entries|] == entries;
  }

  method ParseOwnership(lines: seq<Line>, live: string) returns (complaints: seq<Complaint>)
    ensures complaints == Complaints(lines, live)
    ensures forall c :: c in complaints <==> IsComplaint(c, lines, live)
  {
    AllComplaintsAre(lines, live);
    hide LastWant, DirectoryOwnerOf, RegisteredNames, EntriesOf, ServersOf, IsOwner, IsComplaint, WrongPaths;
    var want, directory, registered, entries, servers := ReadReport(lines);
    if want.None? || directory.None? {
      return [Unreadable];
    }
    complaints := [];
    if directory.value != want.value {
      complaints := complaints + [DirectoryOwner(directory.value)];
    }
    var wrong := FilesOfOthers(entries, want.value, live, registered);
    if wrong != [] {
      complaints := complaints + [FileOwners(wrong)];
    }
    ghost var before := DirectoryAndFiles(lines, live, want.value, directory.value);
    for i := 0 to |servers|
      invariant complaints == before + WrongServers(servers[..i], want.value, live)
    {
      var server := servers[i];
      assert servers[..i + 1][..i] == servers[..i];
      if server.uid != want.value && live in server.words {
        complaints := complaints + [ServerUser(server.uid)];
      }
    }
    assert servers[..|servers|] == servers;
    if complaints != [] {
      complaints := [RunsAs(want.value)] + complaints;
    }
  }
}
