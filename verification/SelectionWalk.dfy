/**
 Enumerating a file selection (`Walk` in src/clipboard/files.rs): a depth-first walk over a directory
 graph that may contain cycles, with a budget on the entries it inspects.

 The file system is a set of answers that depend on when they are asked for, so nothing here relies on
 it holding still during the walk.
 */
module SelectionWalk {
  import opened Regions
  import opened FileNames

  const MAX_DIRECTORY_DEPTH: nat := 128
  const U32_MAX: nat := 0xffff_ffff

  datatype Identity = Identity(device: nat, inode: nat)

  datatype Metadata = File(id: Identity, length: nat) | Directory(id: Identity) | Special | Unreadable

  /** The answers of the operating system, by the number of the question. */
  datatype FileSystem = FileSystem(
    stat: (nat, string) -> Metadata,
    open: (nat, string) -> Metadata,
    list: (nat, string) -> Option<seq<Option<string>>>,
    fileName: string -> Option<string>,
    sort: seq<string> -> seq<string>)
  {
    /** Sorting keeps the paths. */
    ghost predicate Valid() {
      forall paths: seq<string> {:trigger sort(paths)} :: multiset(sort(paths)) == multiset(paths)
    }
  }

  /** An emitted file or directory; `parent` are the names of the directories above it. */
  datatype Entry = Entry(path: string, parent: seq<string>, name: string, directory: bool)

  // ----- what an emitted list promises

  function Utf16Length(s: string): nat {
    if s == [] then 0 else (if s[0] as int < 0x1_0000 then 1 else 2) + Utf16Length(s[1..])
  }

  function ParentLength(parent: seq<string>): nat {
    if parent == [] then 0 else Utf16Length(parent[0]) + 1 + ParentLength(parent[1..])
  }

  predicate WireNameFits(parent: seq<string>, name: string) {
    ParentLength(parent) + Utf16Length(name) < 260
  }

  /** Entry `j` is the directory that holds what has `parent` as its parent. */
  predicate IsHolder(e: Entry, parent: seq<string>) {
    e.directory && e.parent + [e.name] == parent
  }

  ghost predicate HolderListed(files: seq<Entry>, parent: seq<string>) {
    parent == [] || exists j :: 0 <= j < |files| && IsHolder(files[j], parent)
  }

  /** Every entry comes after the directory that holds it. */
  ghost predicate DirectoriesFirst(files: seq<Entry>) {
    forall i :: 0 <= i < |files| ==> HolderListed(files[..i], files[i].parent)
  }

  /** Siblings have different keys. */
  ghost predicate SiblingsDiffer(files: seq<Entry>, t: CaseTable) {
    forall i, j :: 0 <= i < j < |files| && files[i].parent == files[j].parent ==> Key(files[i].name, t) != Key(files[j].name, t)
  }

  /** The key of every emitted name is recorded for its directory. */
  ghost predicate NamesRecorded(files: seq<Entry>, used: map<seq<string>, set<string>>, t: CaseTable) {
    forall i :: 0 <= i < |files| ==> files[i].parent in used && Key(files[i].name, t) in used[files[i].parent]
  }

  ghost predicate NamesFit(files: seq<Entry>) {
    forall i :: 0 <= i < |files| ==> WireNameFits(files[i].parent, files[i].name) && SafeName(files[i].name)
  }

  ghost predicate WellListed(files: seq<Entry>, used: map<seq<string>, set<string>>, t: CaseTable) {
    DirectoriesFirst(files) && SiblingsDiffer(files, t) && NamesRecorded(files, used, t) && NamesFit(files)
  }

  lemma HolderStays(files: seq<Entry>, more: seq<Entry>, parent: seq<string>)
    requires files <= more && HolderListed(files, parent)
    ensures HolderListed(more, parent)
  {
    if parent != [] {
      var j :| 0 <= j < |files| && IsHolder(files[j], parent);
      assert IsHolder(more[j], parent);
    }
  }

  /** Emitting an entry under a fresh name keeps the promises. */
  lemma EmitKeepsListing(files: seq<Entry>, used: map<seq<string>, set<string>>, e: Entry, t: CaseTable)
    requires WellListed(files, used, t) && HolderListed(files, e.parent)
    requires e.parent in used ==> Key(e.name, t) !in used[e.parent]
    requires WireNameFits(e.parent, e.name) && SafeName(e.name)
    ensures WellListed(files + [e], Record(used, e.parent, Key(e.name, t)), t)
  {
    var after := files + [e];
    forall i | 0 <= i < |after|
      ensures HolderListed(after[..i], after[i].parent)
    {
      assert after[..i] == files[..i];
      if i == |files| {
        assert files[..i] == files;
      } else {
        assert HolderListed(files[..i], files[i].parent);
      }
    }
    forall i, j | 0 <= i < j < |after| && after[i].parent == after[j].parent
      ensures Key(after[i].name, t) != Key(after[j].name, t)
    {
      if j == |files| {
        assert Key(files[i].name, t) in used[files[i].parent];
      }
    }
  }

  /** The names taken in a directory, with one more. */
  function Record(used: map<seq<string>, set<string>>, parent: seq<string>, key: string): map<seq<string>, set<string>> {
    used[parent := UsedIn(used, parent) + {key}]
  }

  /** Recording a name that is not emitted keeps the promises too. */
  lemma RecordKeepsListing(files: seq<Entry>, used: map<seq<string>, set<string>>, parent: seq<string>, key: string, t: CaseTable)
    requires WellListed(files, used, t)
    ensures WellListed(files, Record(used, parent, key), t)
  {
  }

  /** The names taken in a directory so far. */
  function UsedIn(used: map<seq<string>, set<string>>, parent: seq<string>): set<string> {
    if parent in used then used[parent] else {}
  }

  /** The names taken in other directories, no deeper than `parent`, are what they were. */
  ghost predicate OthersKept(before: map<seq<string>, set<string>>, after: map<seq<string>, set<string>>, parent: seq<string>) {
    forall p: seq<string> :: |p| <= |parent| && p != parent ==> UsedIn(after, p) == UsedIn(before, p)
  }

  /** Names are recorded in a directory only if the directory's own name is recorded. */
  ghost predicate ParentsRecorded(used: map<seq<string>, set<string>>, t: CaseTable) {
    forall p: seq<string> :: p in used && p != [] ==>
      p[..|p| - 1] in used && Key(p[|p| - 1], t) in used[p[..|p| - 1]]
  }

  lemma TopIsListed(files: seq<Entry>)
    ensures HolderListed(files, [])
  {
  }

  lemma HolderIsRecorded(files: seq<Entry>, used: map<seq<string>, set<string>>, parent: seq<string>, t: CaseTable)
    requires WellListed(files, used, t) && HolderListed(files, parent) && parent != []
    ensures parent[..|parent| - 1] in used && Key(parent[|parent| - 1], t) in used[parent[..|parent| - 1]]
  {
    hide DirectoriesFirst, SiblingsDiffer, NamesFit, Key;
    var j :| 0 <= j < |files| && IsHolder(files[j], parent);
    assert parent[..|parent| - 1] == files[j].parent && parent[|parent| - 1] == files[j].name;
  }

  lemma RecordGrows(used: map<seq<string>, set<string>>, parent: seq<string>, key: string)
    ensures forall p: seq<string> :: p in used ==> p in Record(used, parent, key) && used[p] <= Record(used, parent, key)[p]
    ensures forall p: seq<string> :: p in Record(used, parent, key) ==> p in used || p == parent
  {
  }

  lemma RecordKeepsParents(files: seq<Entry>, used: map<seq<string>, set<string>>, parent: seq<string>, key: string, t: CaseTable)
    requires WellListed(files, used, t) && HolderListed(files, parent) && ParentsRecorded(used, t)
    ensures ParentsRecorded(Record(used, parent, key), t)
  {
    hide WellListed, HolderListed, Key, Record;
    RecordGrows(used, parent, key);
    var after := Record(used, parent, key);
    forall p: seq<string> | p in after && p != []
      ensures p[..|p| - 1] in after && Key(p[|p| - 1], t) in after[p[..|p| - 1]]
    {
      if p !in used {
        HolderIsRecorded(files, used, parent, t);
      }
      assert p[..|p| - 1] in used && Key(p[|p| - 1], t) in used[p[..|p| - 1]];
    }
  }

  /** The list and the recorded names agree. */
  ghost predicate Listing(files: seq<Entry>, used: map<seq<string>, set<string>>, t: CaseTable) {
    WellListed(files, used, t) && ParentsRecorded(used, t)
  }

  lemma RecordMeans(used: map<seq<string>, set<string>>, parent: seq<string>, key: string)
    ensures UsedIn(Record(used, parent, key), parent) == UsedIn(used, parent) + {key}
    ensures OthersKept(used, Record(used, parent, key), parent)
  {
  }

  /** A name that is new to its directory is recorded, whether or not its entry is listed. */
  lemma NameTaken(files: seq<Entry>, used: map<seq<string>, set<string>>, path: string, parent: seq<string>, name: string,
                  directory: bool, t: CaseTable)
    requires Listing(files, used, t) && HolderListed(files, parent) && Key(name, t) !in UsedIn(used, parent) && SafeName(name)
    ensures var after := Record(used, parent, Key(name, t));
            && Listing(files, after, t)
            && (WireNameFits(parent, name) ==> Listing(files + [Entry(path, parent, name, directory)], after, t))
            && UsedIn(after, parent) == UsedIn(used, parent) + {Key(name, t)}
            && OthersKept(used, after, parent) && parent + [name] !in after
  {
    var inner := parent + [name];
    assert inner[..|inner| - 1] == parent && inner[|inner| - 1] == name;
    assert inner !in used;
    RecordMeans(used, parent, Key(name, t));
    RecordKeepsParents(files, used, parent, Key(name, t), t);
    RecordKeepsListing(files, used, parent, Key(name, t), t);
    hide Listing, HolderListed, Key, OthersKept, SafeName;
    if WireNameFits(parent, name) {
      EmitKeepsListing(files, used, Entry(path, parent, name, directory), t);
    }
  }

  // ----- what a walk did

  /** Where a walk is: questions asked, entries it may still inspect, names taken in a directory, entries listed. */
  datatype Spot = Spot(question: nat, budget: nat, used: set<string>, files: seq<Entry>)

  /** A look at one path: what was there before and after it, and the looks at what a directory holds. */
  datatype Look = Look(path: string, parent: seq<string>, depth: nat, above: set<Identity>, from: Spot, to: Spot, children: seq<Look>)

  /** Where a walk that began at `start` is after the first `k` looks. */
  ghost function Reached(looks: seq<Look>, k: nat, start: Spot): Spot
    requires k <= |looks|
  {
    if k == 0 then start else looks[k - 1].to
  }

  ghost predicate LooksAt(l: Look, path: string, parent: seq<string>, depth: nat, above: set<Identity>) {
    l.path == path && l.parent == parent && l.depth == depth && l.above == above
  }

  /** One look for each path, one after the other. */
  ghost predicate Chained(looks: seq<Look>, paths: seq<string>, parent: seq<string>, depth: nat, above: set<Identity>, start: Spot, end: Spot) {
    && |looks| == |paths| && end == Reached(looks, |looks|, start)
    && (forall k :: 0 <= k < |looks| ==> LooksAt(looks[k], paths[k], parent, depth, above))
    && (forall k :: 0 <= k < |looks| ==> looks[k].from == Reached(looks, k, start))
  }

  lemma ReachedBefore(looks: seq<Look>, l: Look, start: Spot)
    ensures forall k :: 0 <= k <= |looks| ==> Reached(looks + [l], k, start) == Reached(looks, k, start)
    ensures Reached(looks + [l], |looks| + 1, start) == l.to
  {
  }

  lemma ChainedOneMore(looks: seq<Look>, paths: seq<string>, parent: seq<string>, depth: nat, above: set<Identity>, start: Spot, end: Spot, l: Look)
    requires Chained(looks, paths, parent, depth, above, start, end)
    requires LooksAt(l, l.path, parent, depth, above) && l.from == end
    ensures Chained(looks + [l], paths + [l.path], parent, depth, above, start, l.to)
  {
    ReachedBefore(looks, l, start);
    hide Reached, LooksAt;
    var longer := looks + [l];
    forall k | 0 <= k < |longer|
      ensures longer[k].from == Reached(longer, k, start) && LooksAt(longer[k], (paths + [l.path])[k], parent, depth, above)
    {
      if k < |looks| {
        assert longer[k] == looks[k];
      }
    }
  }

  // ----- no two entries collide on a client that ignores case

  function Keys(names: seq<string>, t: CaseTable): seq<string> {
    if names == [] then [] else [Key(names[0], t)] + Keys(names[1..], t)
  }

  /** The relative path that the client sees. */
  function WindowsPath(e: Entry): string { Join(e.parent + [e.name]) }

  function Join(names: seq<string>): string
    requires names != []
  {
    if |names| == 1 then names[0] else names[0] + "\\" + Join(names[1..])
  }

  lemma {:induction false} Utf16Concat(a: string, b: string)
    ensures Utf16Length(a + b) == Utf16Length(a) + Utf16Length(b)
    decreases |a|
  {
    if a == [] {
      assert a + b == b;
    } else {
      assert (a + b)[1..] == a[1..] + b;
      Utf16Concat(a[1..], b);
    }
  }

  lemma {:induction false} JoinedLength(parent: seq<string>, name: string)
    ensures Utf16Length(Join(parent + [name])) == ParentLength(parent) + Utf16Length(name)
    decreases |parent|
  {
    if parent == [] {
    } else {
      assert (parent + [name])[1..] == parent[1..] + [name];
      JoinedLength(parent[1..], name);
      Utf16Concat(parent[0] + "\\", Join(parent[1..] + [name]));
      Utf16Concat(parent[0], "\\");
    }
  }

  /** A name fits exactly when the client's path and its terminating null take at most 260 units of UTF-16. */
  lemma FitsIsPathLength(e: Entry)
    ensures WireNameFits(e.parent, e.name) <==> Utf16Length(WindowsPath(e)) + 1 <= 260
  {
    JoinedLength(e.parent, e.name);
  }

  lemma {:induction false} KeyOfJoin(names: seq<string>, t: CaseTable)
    requires names != [] && t.Valid()
    ensures Keys(names, t) != [] && Key(Join(names), t) == Join(Keys(names, t))
    decreases |names|
  {
    if |names| == 1 {
      assert Keys(names, t) == [Key(names[0], t)];
    } else {
      KeyOfJoin(names[1..], t);
      var rest := Join(names[1..]);
      KeyConcat(names[0] + "\\", rest, t);
      KeyConcat(names[0], "\\", t);
      assert Key("\\", t) == "\\" by {
        assert Key("\\", t) == t.upper('\\') + Key([], t);
      }
      assert Keys(names, t)[1..] == Keys(names[1..], t);
    }
  }

  function FirstBackslash(s: string): nat {
    if s == [] || s[0] == '\\' then 0 else 1 + FirstBackslash(s[1..])
  }

  lemma {:induction false} FirstBackslashAfter(a: string, b: string)
    requires '\\' !in a
    ensures FirstBackslash(a + b) == |a| + FirstBackslash(b)
    decreases |a|
  {
    if a == [] {
      assert a + b == b;
    } else {
      assert (a + b)[1..] == a[1..] + b;
      FirstBackslashAfter(a[1..], b);
    }
  }

  /** The first part of a joined path ends at its first separator. */
  lemma FirstPart(names: seq<string>)
    requires names != [] && '\\' !in names[0]
    ensures FirstBackslash(Join(names)) == |names[0]| <= |Join(names)|
    ensures |names| == 1 <==> |names[0]| == |Join(names)|
    ensures Join(names)[..|names[0]|] == names[0]
    ensures |names| > 1 ==> Join(names)[|names[0]| + 1..] == Join(names[1..])
  {
    if |names| == 1 {
      FirstBackslashAfter(names[0], "");
      assert names[0] + "" == names[0];
    } else {
      FirstBackslashAfter(names[0], "\\" + Join(names[1..]));
      assert Join(names) == names[0] + ("\\" + Join(names[1..]));
    }
  }

  /** Joined paths determine the names, since no name holds the separator. */
  lemma {:induction false} JoinInjective(a: seq<string>, b: seq<string>)
    requires a != [] && b != [] && Join(a) == Join(b)
    requires forall i :: 0 <= i < |a| ==> '\\' !in a[i]
    requires forall i :: 0 <= i < |b| ==> '\\' !in b[i]
    ensures a == b
    decreases |a|
  {
    FirstPart(a);
    FirstPart(b);
    if |a| == 1 {
    } else {
      JoinInjective(a[1..], b[1..]);
      assert a == [a[0]] + a[1..] && b == [b[0]] + b[1..];
    }
  }

  lemma {:induction false} KeysApart(names: seq<string>, t: CaseTable)
    requires t.Valid() && forall i :: 0 <= i < |names| ==> '\\' !in names[i]
    ensures |Keys(names, t)| == |names|
    ensures forall i :: 0 <= i < |names| ==> Keys(names, t)[i] == Key(names[i], t) && '\\' !in Keys(names, t)[i]
    decreases |names|
  {
    if names == [] {
    } else {
      KeyHasNoBackslash(names[0], t);
      KeysApart(names[1..], t);
    }
  }

  /** The names above an entry are names of emitted directories, so none holds a separator. */
  lemma {:induction false} ParentNamesFit(files: seq<Entry>, parent: seq<string>)
    requires DirectoriesFirst(files) && NamesFit(files) && HolderListed(files, parent)
    ensures forall i :: 0 <= i < |parent| ==> '\\' !in parent[i]
    decreases |parent|
  {
    if parent == [] {
    } else {
      var j :| 0 <= j < |files| && IsHolder(files[j], parent);
      SafeHasNoBackslash(files[j].name);
      HolderStays(files[..j], files, files[j].parent);
      ParentNamesFit(files, files[j].parent);
    }
  }

  /** Two entries whose key paths agree, name by name, are the same entry. */
  lemma {:induction false} SameKeysSameEntry(files: seq<Entry>, i: nat, j: nat, t: CaseTable)
    requires DirectoriesFirst(files) && SiblingsDiffer(files, t)
    requires i < |files| && j < |files|
    requires |files[i].parent| == |files[j].parent|
    requires forall k :: 0 <= k < |files[i].parent| ==> Key(files[i].parent[k], t) == Key(files[j].parent[k], t)
    requires Key(files[i].name, t) == Key(files[j].name, t)
    ensures i == j
    decreases |files[i].parent|
  {
    if files[i].parent == [] {
    } else {
      var a := HolderOf(files, i);
      var b := HolderOf(files, j);
      SameKeysSameEntry(files, a, b, t);
    }
  }

  /** The directory that holds entry `i`. */
  lemma HolderOf(files: seq<Entry>, i: nat) returns (a: nat)
    requires DirectoriesFirst(files) && i < |files| && files[i].parent != []
    ensures a < i && IsHolder(files[a], files[i].parent)
    ensures |files[a].parent| == |files[i].parent| - 1 && files[a].name == files[i].parent[|files[i].parent| - 1]
    ensures forall k :: 0 <= k < |files[a].parent| ==> files[a].parent[k] == files[i].parent[k]
  {
    assert HolderListed(files[..i], files[i].parent);
    a :| 0 <= a < i && IsHolder(files[..i][a], files[i].parent);
    assert files[a].parent + [files[a].name] == files[i].parent;
  }

  /** No two emitted paths are equal for a client that ignores case. */
  lemma WindowsPathsDiffer(files: seq<Entry>, used: map<seq<string>, set<string>>, i: nat, j: nat, t: CaseTable)
    requires t.Valid() && WellListed(files, used, t) && i < |files| && j < |files| && i != j
    ensures Key(WindowsPath(files[i]), t) != Key(WindowsPath(files[j]), t)
  {
    if Key(WindowsPath(files[i]), t) == Key(WindowsPath(files[j]), t) {
      var a, b := files[i].parent + [files[i].name], files[j].parent + [files[j].name];
      NamesOf(files, i);
      NamesOf(files, j);
      KeyOfJoin(a, t);
      KeyOfJoin(b, t);
      KeysApart(a, t);
      KeysApart(b, t);
      JoinInjective(Keys(a, t), Keys(b, t));
      KeysByPosition(files[i], files[j], t);
      SameKeysSameEntry(files, i, j, t);
    }
  }

  lemma NamesOf(files: seq<Entry>, i: nat)
    requires DirectoriesFirst(files) && NamesFit(files) && i < |files|
    ensures forall k :: 0 <= k < |files[i].parent + [files[i].name]| ==> '\\' !in (files[i].parent + [files[i].name])[k]
  {
    HolderStays(files[..i], files, files[i].parent);
    ParentNamesFit(files, files[i].parent);
    SafeHasNoBackslash(files[i].name);
  }

  lemma KeysByPosition(x: Entry, y: Entry, t: CaseTable)
    requires t.Valid()
    requires var a, b := x.parent + [x.name], y.parent + [y.name];
             && |Keys(a, t)| == |a| && |Keys(b, t)| == |b| && Keys(a, t) == Keys(b, t)
             && (forall i :: 0 <= i < |a| ==> Keys(a, t)[i] == Key(a[i], t))
             && (forall i :: 0 <= i < |b| ==> Keys(b, t)[i] == Key(b[i], t))
    ensures |x.parent| == |y.parent| && Key(x.name, t) == Key(y.name, t)
    ensures forall k :: 0 <= k < |x.parent| ==> Key(x.parent[k], t) == Key(y.parent[k], t)
  {
    var a, b := x.parent + [x.name], y.parent + [y.name];
    assert a[|x.parent|] == x.name && b[|y.parent|] == y.name;
    forall k | 0 <= k < |x.parent|
      ensures Key(x.parent[k], t) == Key(y.parent[k], t)
    {
      assert a[k] == x.parent[k] && b[k] == y.parent[k];
    }
  }

  // ----- the walk

  /** The accounts of a walk with `limit` entries to inspect, `waiting` of them not looked at yet. */
  ghost predicate Budgeted(listed: nat, looked: nat, remaining: nat, waiting: nat, asked: nat, limit: nat) {
    && listed + remaining + waiting <= limit
    && looked + remaining + waiting <= limit
    && asked + 3 * remaining + 2 * waiting <= 3 * limit
  }

  lemma RoomForOne(listed: nat, looked: nat, remaining: nat, waiting: nat, asked: nat, limit: nat)
    requires Budgeted(listed, looked, remaining, waiting, asked, limit) && listed + remaining + waiting < limit
    ensures Budgeted(listed + 1, looked, remaining, waiting, asked, limit)
  {
  }

  class Walk {
    const fs: FileSystem
    const cases: CaseTable
    const hugeFiles: bool
    const maxEntries: nat
    var remaining: nat
    var ancestors: set<Identity>
    var usedNames: map<seq<string>, set<string>>
    var files: seq<Entry>
    var truncated: bool
    /** How many questions were put to the file system. */
    var asked: nat
    /** Paths that were charged to the budget and not looked at yet. */
    ghost var unvisited: nat
    /** The paths that were looked at. */
    ghost var visited: set<string>

    /**
     What is listed or was looked at, what may still be inspected and what waits never exceed the budget,
     and three questions were or can be asked for each inspected entry.
     */
    ghost predicate WithinBudget()
      reads this`remaining, this`files, this`unvisited, this`visited, this`asked
    {
      Budgeted(|files|, |visited|, remaining, unvisited, asked, maxEntries)
    }

    /** `more` questions can be asked besides two for each waiting path and three for each uninspected entry. */
    ghost predicate QuestionsLeft(more: nat)
      reads this`remaining, this`unvisited, this`asked
    {
      asked + more + 3 * remaining + 2 * unvisited <= 3 * maxEntries
    }

    ghost predicate Valid()
      reads this
    {
      cases.Valid() && fs.Valid() && WithinBudget() && Listing(files, usedNames, cases)
    }

    constructor (fs: FileSystem, cases: CaseTable, hugeFiles: bool, maxEntries: nat)
      requires fs.Valid() && cases.Valid()
      ensures Valid() && this.maxEntries == maxEntries && remaining == maxEntries && unvisited == 0
      ensures files == [] && visited == {} && ancestors == {} && !truncated && asked == 0 && usedNames == map[]
      ensures this.cases == cases && this.fs == fs && this.hugeFiles == hugeFiles
    {
      this.fs, this.cases, this.hugeFiles, this.maxEntries := fs, cases, hugeFiles, maxEntries;
      remaining, ancestors, usedNames, files, truncated, asked, unvisited, visited := maxEntries, {}, map[], [], false, 0, 0, {};
    }

    predicate IsFull()
      reads this`files
    {
      |files| >= maxEntries
    }

    ghost function At(parent: seq<string>): Spot
      reads this`asked, this`remaining, this`usedNames, this`files
    {
      Spot(asked, remaining, UsedIn(usedNames, parent), files)
    }

    /** The sanitized file name, or its first numbered form that is free. */
    ghost predicate NameFor(path: string, used: set<string>, name: string) {
      var raw := fs.fileName(path);
      FirstFree(SanitizeFileName(if raw.Some? then raw.value else "unnamed"), used, name, cases)
    }

    /** Emit one entry under a unique name, unless its relative name is too long for the wire. */
    method Emit(path: string, parent: seq<string>, directory: bool) returns (name: string, listed: bool)
      requires Valid() && HolderListed(files, parent) && |files| + remaining + unvisited < maxEntries
      modifies this`usedNames, this`files
      ensures Valid()
      ensures listed == WireNameFits(parent, name)
      ensures files == if listed then old(files) + [Entry(path, parent, name, directory)] else old(files)
      ensures NameFor(path, UsedIn(old(usedNames), parent), name)
      ensures UsedIn(usedNames, parent) == UsedIn(old(usedNames), parent) + {Key(name, cases)}
      ensures OthersKept(old(usedNames), usedNames, parent)
      ensures parent + [name] !in usedNames
    {
      hide Budgeted, UsedIn, Listing, NameFor, OthersKept, HolderListed, Record, Key, WireNameFits, SafeName, CaseTable.Valid, FileSystem.Valid;
      name := ChooseName(path, parent);
      NameTaken(files, usedNames, path, parent, name, directory, cases);
      RoomForOne(|files|, |visited|, remaining, unvisited, asked, maxEntries);
      usedNames := Record(usedNames, parent, Key(name, cases));
      if !WireNameFits(parent, name) {
        return name, false;
      }
      files := files + [Entry(path, parent, name, directory)];
      return name, true;
    }

    /** `unique_name`. */
    method ChooseName(path: string, parent: seq<string>) returns (name: string)
      requires cases.Valid()
      ensures NameFor(path, UsedIn(usedNames, parent), name) && SafeName(name) && Key(name, cases) !in UsedIn(usedNames, parent)
    {
      hide CaseTable.Valid, SafeName, SanitizeFileName;
      var raw := fs.fileName(path);
      ghost var taken;
      name, taken := UniqueFileName(if raw.Some? then raw.value else "unnamed", UsedIn(usedNames, parent), cases);
    }

    /** A file the peer can be offered, as the opened file itself reports it. */
    predicate Offerable(pinned: Metadata) {
      pinned.File? && (hugeFiles || pinned.length <= U32_MAX)
    }

    /** Nothing was listed; `questions` were asked. */
    ghost predicate Idle(l: Look, questions: nat) {
      l.to == l.from.(question := l.from.question + questions) && l.children == []
    }

    /** What reading a directory must lead to: a look at each readable entry within the budget, directories first. */
    ghost predicate DirectoryRead(path: string, inner: seq<string>, depth: nat, above: set<Identity>, start: Spot, end: Spot, children: seq<Look>) {
      var entries := fs.list(start.question, path);
      if entries.None? then children == [] && end == start.(question := start.question + 1)
      else
        var inspected := Min(|entries.value|, start.budget);
        var sorted := fs.sort(Readable(entries.value[..inspected]));
        var q := start.question + 1;
        Chained(children, Chosen(sorted, q, true) + Chosen(sorted, q, false), inner, depth, above,
                Spot(q + |sorted|, start.budget - inspected, start.used, start.files), end)
    }

    /** A directory is listed under a unique name before what it holds; if the name is too long, all of it is skipped. */
    ghost predicate DirectoryListed(l: Look, id: Identity, name: string, innerUsed: set<string>) {
      && NameFor(l.path, l.from.used, name) && l.to.used == l.from.used + {Key(name, cases)}
      && if WireNameFits(l.parent, name)
         then DirectoryRead(l.path, l.parent + [name], l.depth + 1, l.above + {id},
                            Spot(l.from.question + 1, l.from.budget, {}, l.from.files + [Entry(l.path, l.parent, name, true)]),
                            Spot(l.to.question, l.to.budget, innerUsed, l.to.files), l.children)
         else l.to.question == l.from.question + 1 && l.to.budget == l.from.budget && l.to.files == l.from.files && l.children == []
    }

    ghost predicate FileListed(l: Look, name: string) {
      && NameFor(l.path, l.from.used, name) && l.children == []
      && l.to == Spot(l.from.question + 2, l.from.budget, l.from.used + {Key(name, cases)},
                      if WireNameFits(l.parent, name) then l.from.files + [Entry(l.path, l.parent, name, false)] else l.from.files)
    }

    /**
     A look came to what it must: an offerable file is listed; a directory that is not its own ancestor is
     listed, and what it holds is looked at; anything else, and what lies too deep, is passed over.
     */
    ghost predicate Right(l: Look)
      decreases l
    {
      var seen := fs.stat(l.from.question, l.path);
      if l.depth > MAX_DIRECTORY_DEPTH then Idle(l, 0)
      else if seen.File? then
        if Offerable(fs.open(l.from.question + 1, l.path)) then exists name :: FileListed(l, name) else Idle(l, 2)
      else if seen.Directory? && seen.id !in l.above then
        && (exists name: string, innerUsed: set<string> :: DirectoryListed(l, seen.id, name, innerUsed))
        && forall k :: 0 <= k < |l.children| ==> Right(l.children[k])
      else Idle(l, 1)
    }

    /** The budget cut a directory short, here or below. */
    ghost predicate Cut(l: Look)
      decreases l
    {
      || (l.to.files != l.from.files && fs.stat(l.from.question, l.path).Directory? &&
          var entries := fs.list(l.from.question + 1, l.path); entries.Some? && |entries.value| > l.from.budget)
      || exists k :: 0 <= k < |l.children| && Cut(l.children[k])
    }

    ghost predicate AllRight(looks: seq<Look>) {
      forall k :: 0 <= k < |looks| ==> Right(looks[k])
    }

    ghost predicate AnyCut(looks: seq<Look>) {
      exists k :: 0 <= k < |looks| && Cut(looks[k])
    }

    /** A right look only adds to the list. */
    lemma {:induction false} RightGrows(l: Look)
      requires Right(l)
      ensures l.from.files <= l.to.files
      decreases l
    {
      hide NameFor, Chosen, Readable, UsedIn, Key, Chained, Offerable;
      var seen := fs.stat(l.from.question, l.path);
      if l.depth <= MAX_DIRECTORY_DEPTH && seen.Directory? && seen.id !in l.above {
        var name: string, innerUsed: set<string> :| DirectoryListed(l, seen.id, name, innerUsed);
        if WireNameFits(l.parent, name) && fs.list(l.from.question + 1, l.path).Some? {
          forall k | 0 <= k < |l.children|
            ensures l.children[k].from.files <= l.children[k].to.files
          {
            RightGrows(l.children[k]);
          }
          var listed := l.from.files + [Entry(l.path, l.parent, name, true)];
          ReadGrows(l, name, seen.id, listed, innerUsed);
        }
      }
    }

    lemma ReadGrows(l: Look, name: string, id: Identity, listed: seq<Entry>, innerUsed: set<string>)
      requires fs.list(l.from.question + 1, l.path).Some?
      requires DirectoryRead(l.path, l.parent + [name], l.depth + 1, l.above + {id}, Spot(l.from.question + 1, l.from.budget, {}, listed),
                             Spot(l.to.question, l.to.budget, innerUsed, l.to.files), l.children)
      requires forall k :: 0 <= k < |l.children| ==> l.children[k].from.files <= l.children[k].to.files
      ensures listed <= l.to.files
    {
      var entries := fs.list(l.from.question + 1, l.path).value;
      var inspected := Min(|entries|, l.from.budget);
      var sorted := fs.sort(Readable(entries[..inspected]));
      ChainGrows(l.children, |l.children|, Spot(l.from.question + 2 + |sorted|, l.from.budget - inspected, {}, listed));
    }

    lemma AtTheStart()
      requires asked == 0 && usedNames == map[] && files == []
      ensures At([]) == Spot(0, remaining, {}, []) && !AnyCut([])
    {
    }

    lemma BudgetIs(parent: seq<string>)
      ensures At(parent).budget == remaining && At(parent).files == files
    {
    }

    /** A full list leaves nothing to inspect. */
    lemma FullIsSpent()
      requires WithinBudget() && IsFull()
      ensures remaining == 0
    {
    }

    lemma Totals()
      requires WithinBudget()
      ensures |files| <= maxEntries && |visited| <= maxEntries && asked <= 3 * maxEntries
    {
    }

    lemma NoLooks(parent: seq<string>, depth: nat, above: set<Identity>, start: Spot, used: map<seq<string>, set<string>>)
      ensures Chained([], [], parent, depth, above, start, start) && AllRight([]) && !AnyCut([]) && OthersKept(used, used, parent)
    {
    }

    lemma OneMoreLook(looks: seq<Look>, l: Look)
      ensures AnyCut(looks + [l]) <==> AnyCut(looks) || Cut(l)
      ensures AllRight(looks + [l]) <==> AllRight(looks) && Right(l)
    {
      hide Cut, Right;
      var longer := looks + [l];
      assert longer[|looks|] == l && forall k :: 0 <= k < |looks| ==> longer[k] == looks[k];
    }

    lemma Unreadable(path: string, inner: seq<string>, depth: nat, above: set<Identity>, start: Spot)
      requires fs.list(start.question, path).None?
      ensures DirectoryRead(path, inner, depth, above, start, start.(question := start.question + 1), [])
    {
    }

    /** The looks at what a directory holds are those that reading it must lead to. */
    lemma ReadThrough(path: string, inner: seq<string>, depth: nat, above: set<Identity>, start: Spot, middle: Spot, end: Spot,
                      sorted: seq<string>, ordered: seq<string>, children: seq<Look>)
      requires fs.list(start.question, path).Some?
      requires var entries := fs.list(start.question, path).value;
               sorted == fs.sort(Readable(entries[..Min(|entries|, start.budget)])) &&
               middle == Spot(start.question + 1 + |sorted|, start.budget - Min(|entries|, start.budget), start.used, start.files)
      requires ordered == Chosen(sorted, start.question + 1, true) + Chosen(sorted, start.question + 1, false)
      requires Chained(children, ordered, inner, depth, above, middle, end)
      ensures DirectoryRead(path, inner, depth, above, start, end, children)
    {
      hide Chained, Chosen, Readable;
    }

    /**
     Look at one path that was charged to the budget.  On return the ancestors are what they were,
     exactly the given path has left the waiting ones, whatever was listed stays listed, and the look is right.
     */
    method FreezePath(path: string, parent: seq<string>, depth: nat) returns (ghost l: Look)
      requires Valid() && unvisited > 0 && HolderListed(files, parent)
      modifies this
      ensures Valid() && ancestors == old(ancestors) && unvisited == old(unvisited) - 1
      ensures old(files) <= files && remaining <= old(remaining)
      ensures l.path == path && l.parent == parent && l.depth == depth && l.above == old(ancestors)
      ensures l.from == old(At(parent)) && l.to == At(parent) && Right(l)
      ensures OthersKept(old(usedNames), usedNames, parent)
      ensures old(visited) + {path} <= visited
      ensures truncated == (old(truncated) || Cut(l))
      decreases MAX_DIRECTORY_DEPTH + 2 - Min(depth, MAX_DIRECTORY_DEPTH + 1), 1
    {
      hide Listing, HolderListed, OthersKept, UsedIn, Right, Cut, Idle, CaseTable.Valid, FileSystem.Valid;
      ghost var from := At(parent);
      NoLooks(parent, depth, ancestors, from, usedNames);
      truncated := truncated || IsFull();
      if IsFull() {
        return Look(path, parent, depth, ancestors, from, At(parent), []);
      }
      unvisited := unvisited - 1;
      visited := visited + {path};
      if depth > MAX_DIRECTORY_DEPTH {
        l := Look(path, parent, depth, ancestors, from, At(parent), []);
        PassedOver(l);
        return;
      }
      var metadata := fs.stat(asked, path);
      asked := asked + 1;
      if metadata.File? {
        l := FreezeFile(path, parent, depth, from);
        return;
      } else if metadata.Directory? {
        if metadata.id in ancestors {
          l := Look(path, parent, depth, ancestors, from, At(parent), []);
          PassedOver(l);
          return;
        }
        l := FreezeDirectory(path, parent, depth, metadata.id, from);
        return;
      }
      l := Look(path, parent, depth, ancestors, from, At(parent), []);
      PassedOver(l);
    }

    /** Looks that list nothing and go no further. */
    lemma PassedOver(l: Look)
      requires l.children == [] && l.to.files == l.from.files && l.to.used == l.from.used && l.to.budget == l.from.budget
      requires var seen := fs.stat(l.from.question, l.path);
               if l.depth > MAX_DIRECTORY_DEPTH then l.to.question == l.from.question
               else l.to.question == l.from.question + 1 && !seen.File? && (seen.Directory? ==> seen.id in l.above)
      ensures Right(l) && !Cut(l)
    {
    }

    /** One path of the selection is charged and looked at. */
    method FreezeSelected(path: string) returns (ghost l: Look)
      requires Valid() && remaining > 0 && unvisited == 0
      modifies this
      ensures Valid() && ancestors == old(ancestors) && unvisited == 0 && remaining < old(remaining)
      ensures old(ancestors) == {} ==> SelectedSeen(this, path, old(At([])), l)
      ensures l.to == At([])
      ensures old(visited) + {path} <= visited
      ensures truncated == (old(truncated) || Cut(l))
    {
      hide Listing, Right, Cut, OthersKept, HolderListed, CaseTable.Valid, FileSystem.Valid;
      TopIsListed(files);
      remaining := remaining - 1;
      unvisited := unvisited + 1;
      l := FreezePath(path, [], 0);
    }

    /** A file is pinned first; only what the opened file says counts. */
    method FreezeFile(path: string, parent: seq<string>, depth: nat, ghost from: Spot) returns (ghost l: Look)
      requires Valid() && HolderListed(files, parent) && |files| + remaining + unvisited < maxEntries && QuestionsLeft(1)
      requires At(parent) == from.(question := from.question + 1) && fs.stat(from.question, path).File? && depth <= MAX_DIRECTORY_DEPTH
      modifies this`usedNames, this`files, this`asked
      ensures Valid() && old(files) <= files
      ensures l == Look(path, parent, depth, ancestors, from, At(parent), []) && Right(l) && !Cut(l)
      ensures OthersKept(old(usedNames), usedNames, parent)
    {
      hide Listing, HolderListed, NameFor, CaseTable.Valid, FileSystem.Valid;
      var pinned := fs.open(asked, path);
      asked := asked + 1;
      if !pinned.File? || (!hugeFiles && pinned.length > U32_MAX) {
        return Look(path, parent, depth, ancestors, from, At(parent), []);
      }
      var name, listed := Emit(path, parent, false);
      l := Look(path, parent, depth, ancestors, from, At(parent), []);
      assert FileListed(l, name);
    }

    method FreezeDirectory(path: string, parent: seq<string>, depth: nat, id: Identity, ghost from: Spot) returns (ghost l: Look)
      requires Valid() && HolderListed(files, parent) && |files| + remaining + unvisited < maxEntries && QuestionsLeft(1)
      requires id !in ancestors && depth <= MAX_DIRECTORY_DEPTH
      requires At(parent) == from.(question := from.question + 1) && fs.stat(from.question, path) == Directory(id)
      modifies this
      ensures Valid() && ancestors == old(ancestors) && unvisited == old(unvisited)
      ensures old(files) <= files && remaining <= old(remaining)
      ensures old(visited) <= visited
      ensures l.path == path && l.parent == parent && l.depth == depth && l.above == ancestors && l.from == from && l.to == At(parent)
      ensures Right(l) && OthersKept(old(usedNames), usedNames, parent)
      ensures truncated == (old(truncated) || Cut(l))
      decreases MAX_DIRECTORY_DEPTH + 2 - depth, 0
    {
      hide Listing, HolderListed, NameFor, DirectoryRead, WithinBudget, QuestionsLeft, UsedIn, OthersKept, Right, Cut, AllRight, AnyCut,
           WireNameFits, Key, CaseTable.Valid, FileSystem.Valid, IsHolder;
      ancestors := ancestors + {id};
      var name, listed := Emit(path, parent, true);
      ghost var named, inner, children := usedNames, At(parent + [name]), [];
      EmptyDirectory(parent, name);
      if listed {
        LastIsHolder(files, path, parent, name);
        children := FreezeChildren(path, parent, name, depth);
      }
      ancestors := ancestors - {id};
      l := Look(path, parent, depth, ancestors, from, At(parent), children);
      KeptBelow(old(usedNames), named, usedNames, parent, name);
      NoLooks(parent, depth, ancestors, from, usedNames);
      assert DirectoryListed(l, id, name, UsedIn(usedNames, parent + [name]));
      DirectoryLook(l, id, name, UsedIn(usedNames, parent + [name]));
      DirectoryCut(l, id);
    }

    /** A directory that was just named holds no names. */
    lemma EmptyDirectory(parent: seq<string>, name: string)
      requires parent + [name] !in usedNames
      ensures UsedIn(usedNames, parent + [name]) == {}
    {
    }

    /** The look at a directory, put together. */
    lemma DirectoryLook(l: Look, id: Identity, name: string, innerUsed: set<string>)
      requires fs.stat(l.from.question, l.path) == Directory(id) && id !in l.above && l.depth <= MAX_DIRECTORY_DEPTH
      requires DirectoryListed(l, id, name, innerUsed) && AllRight(l.children)
      ensures Right(l)
    {
      hide DirectoryListed;
    }

    /** It was cut short if the directory has more entries than could be inspected, or something below was. */
    lemma DirectoryCut(l: Look, id: Identity)
      requires fs.stat(l.from.question, l.path) == Directory(id)
      ensures var entries := fs.list(l.from.question + 1, l.path);
              Cut(l) == ((l.to.files != l.from.files && entries.Some? && |entries.value| > l.from.budget) || AnyCut(l.children))
    {
    }

    /** The children of an emitted directory, directories first. */
    method FreezeChildren(path: string, parent: seq<string>, name: string, depth: nat) returns (ghost children: seq<Look>)
      requires Valid() && HolderListed(files, parent + [name]) && depth <= MAX_DIRECTORY_DEPTH && QuestionsLeft(1)
      modifies this
      ensures Valid() && ancestors == old(ancestors) && unvisited == old(unvisited)
      ensures old(files) <= files && remaining <= old(remaining)
      ensures old(visited) <= visited
      ensures DirectoryRead(path, parent + [name], depth + 1, ancestors, old(At(parent + [name])), At(parent + [name]), children)
      ensures AllRight(children)
      ensures OthersKept(old(usedNames), usedNames, parent + [name])
      ensures truncated ==
              (old(truncated) || (fs.list(old(asked), path).Some? && |fs.list(old(asked), path).value| > old(remaining)) || AnyCut(children))
      decreases MAX_DIRECTORY_DEPTH + 1 - depth, 3
    {
      hide Listing, HolderListed, CaseTable.Valid, Readable, Chosen, Right, Cut, Chained, OthersKept, AllRight, AnyCut, DirectoryRead, UsedIn;
      ghost var start := At(parent + [name]);
      var entries := fs.list(asked, path);
      asked := asked + 1;
      if entries.None? {
        NoLooks(parent + [name], depth + 1, ancestors, start, usedNames);
        Unreadable(path, parent + [name], depth + 1, ancestors, start);
        return [];
      }
      var collected := CollectChildren(entries.value);
      var sorted := fs.sort(collected);
      assert |multiset(sorted)| == |multiset(collected)|;
      var ordered := DirectoriesThenLeaves(sorted);
      ghost var middle := At(parent + [name]);
      children := FreezeAll(ordered, parent + [name], depth);
      ReadThrough(path, parent + [name], depth + 1, ancestors, start, middle, At(parent + [name]), sorted, ordered, children);
    }

    method FreezeAll(ordered: seq<string>, parent: seq<string>, depth: nat) returns (ghost looks: seq<Look>)
      requires Valid() && HolderListed(files, parent) && depth <= MAX_DIRECTORY_DEPTH && unvisited >= |ordered|
      modifies this
      ensures Valid() && ancestors == old(ancestors) && unvisited == old(unvisited) - |ordered|
      ensures old(files) <= files && remaining <= old(remaining)
      ensures old(visited) <= visited && forall c :: c in ordered ==> c in visited
      ensures Chained(looks, ordered, parent, depth + 1, ancestors, old(At(parent)), At(parent))
      ensures AllRight(looks) && OthersKept(old(usedNames), usedNames, parent)
      ensures truncated == (old(truncated) || AnyCut(looks))
      decreases MAX_DIRECTORY_DEPTH + 1 - depth, 2
    {
      hide Listing, HolderListed, Right, Cut, Chained, AllRight, AnyCut, OthersKept, UsedIn, CaseTable.Valid, FileSystem.Valid;
      ghost var start, begin := files, At(parent);
      looks := [];
      NoLooks(parent, depth + 1, ancestors, begin, usedNames);
      assert ordered[..0] == [];
      var k := 0;
      while k < |ordered|
        invariant 0 <= k <= |ordered| && |looks| == k
        invariant Valid() && ancestors == old(ancestors) && start <= files && remaining <= old(remaining)
        invariant unvisited == old(unvisited) - k
        invariant old(visited) <= visited && forall i :: 0 <= i < k ==> ordered[i] in visited
        invariant Chained(looks, ordered[..k], parent, depth + 1, ancestors, begin, At(parent))
        invariant AllRight(looks) && OthersKept(old(usedNames), usedNames, parent)
        invariant truncated == (old(truncated) || AnyCut(looks))
      {
        truncated := truncated || IsFull();
        if IsFull() {
          return;
        }
        HolderStays(start, files, parent);
        ghost var so, named := At(parent), usedNames;
        ghost var l := FreezePath(ordered[k], parent, depth + 1);
        KeptTwice(old(usedNames), named, usedNames, parent);
        OneMoreLook(looks, l);
        ChainedOneMore(looks, ordered[..k], parent, depth + 1, ancestors, begin, so, l);
        assert ordered[..k + 1] == ordered[..k] + [ordered[k]];
        looks := looks + [l];
        k := k + 1;
      }
      assert ordered[..k] == ordered;
    }

    function Readable(entries: seq<Option<string>>): seq<string> {
      if entries == [] then []
      else
        var last := entries[|entries| - 1];
        Readable(entries[..|entries| - 1]) + if last.Some? then [last.value] else []
    }

    /** Every inspected entry is charged to the budget, also one that cannot be read. */
    method CollectChildren(entries: seq<Option<string>>) returns (children: seq<string>)
      requires Valid()
      modifies this`remaining, this`truncated, this`unvisited
      ensures Valid() && unvisited == old(unvisited) + |children| && QuestionsLeft(|children|)
      ensures |children| <= old(remaining) - remaining == Min(|entries|, old(remaining))
      ensures children == Readable(entries[..old(remaining) - remaining])
      ensures truncated == (old(truncated) || |entries| > old(remaining))
    {
      hide Listing, CaseTable.Valid, FileSystem.Valid;
      children := [];
      var k := 0;
      while k < |entries|
        invariant 0 <= k <= |entries|
        invariant Valid() && unvisited == old(unvisited) + |children| && QuestionsLeft(|children|)
        invariant |children| <= old(remaining) - remaining == k
        invariant children == Readable(entries[..k]) && truncated == old(truncated)
      {
        if remaining == 0 {
          truncated := true;
          break;
        }
        remaining := remaining - 1;
        assert entries[..k + 1][..k] == entries[..k];
        if entries[k].Some? {
          children := children + [entries[k].value];
          unvisited := unvisited + 1;
        }
        k := k + 1;
      }
    }

    /** The children that a look, starting with the given question, finds to be directories, or not. */
    function Chosen(children: seq<string>, question: nat, directories: bool): seq<string> {
      if children == [] then []
      else
        var last := |children| - 1;
        Chosen(children[..last], question, directories) +
        if fs.stat(question + last, children[last]).Directory? == directories then [children[last]] else []
    }

    /** Every child is chosen on exactly one side. */
    lemma {:induction false} ChosenSplits(children: seq<string>, question: nat)
      ensures multiset(Chosen(children, question, true)) + multiset(Chosen(children, question, false)) == multiset(children)
      decreases |children|
    {
      if children == [] {
      } else {
        var front, last := children[..|children| - 1], [children[|children| - 1]];
        ChosenSplits(front, question);
        assert children == front + last;
        OneMoreOnOneSide(Chosen(front, question, true), Chosen(front, question, false), front, last);
      }
    }

    /** `partition` by a fresh look at each child, then the two halves in turn. */
    method DirectoriesThenLeaves(children: seq<string>) returns (ordered: seq<string>)
      requires Valid() && QuestionsLeft(|children|)
      modifies this`asked
      ensures Valid() && |ordered| == |children| && asked == old(asked) + |children|
      ensures multiset(ordered) == multiset(children)
      ensures ordered == Chosen(children, old(asked), true) + Chosen(children, old(asked), false)
    {
      hide Listing, CaseTable.Valid, FileSystem.Valid;
      var directories: seq<string>, leaves: seq<string> := [], [];
      var k := 0;
      while k < |children|
        invariant 0 <= k <= |children|
        invariant Valid() && asked == old(asked) + k
        invariant directories == Chosen(children[..k], old(asked), true) && leaves == Chosen(children[..k], old(asked), false)
      {
        var metadata := fs.stat(asked, children[k]);
        asked := asked + 1;
        if metadata.Directory? {
          directories := directories + [children[k]];
        } else {
          leaves := leaves + [children[k]];
        }
        assert children[..k + 1] == children[..k] + [children[k]];
        assert children[..k + 1][..k] == children[..k];
        k := k + 1;
      }
      assert children[..k] == children;
      ordered := directories + leaves;
      ChosenSplits(children, old(asked));
      assert |multiset(ordered)| == |multiset(children)|;
    }
  }

  /** What was recorded below a directory changes nothing of its siblings' names. */
  lemma KeptBelow(before: map<seq<string>, set<string>>, named: map<seq<string>, set<string>>, after: map<seq<string>, set<string>>,
                  parent: seq<string>, name: string)
    requires OthersKept(before, named, parent) && (after == named || OthersKept(named, after, parent + [name]))
    ensures OthersKept(before, after, parent) && UsedIn(after, parent) == UsedIn(named, parent)
  {
  }

  lemma KeptTwice(a: map<seq<string>, set<string>>, b: map<seq<string>, set<string>>, c: map<seq<string>, set<string>>, parent: seq<string>)
    requires OthersKept(a, b, parent) && OthersKept(b, c, parent)
    ensures OthersKept(a, c, parent)
  {
  }

  lemma OneMoreOnOneSide(a: seq<string>, b: seq<string>, whole: seq<string>, last: seq<string>)
    requires multiset(a) + multiset(b) == multiset(whole)
    ensures multiset(a + last) + multiset(b + []) == multiset(whole + last)
    ensures multiset(a + []) + multiset(b + last) == multiset(whole + last)
  {
    assert a + [] == a && b + [] == b;
  }

  lemma LastIsHolder(files: seq<Entry>, path: string, parent: seq<string>, name: string)
    requires files != [] && files[|files| - 1] == Entry(path, parent, name, true)
    ensures HolderListed(files, parent + [name])
  {
    assert IsHolder(files[|files| - 1], parent + [name]);
  }

  lemma {:induction false} ChainGrows(looks: seq<Look>, k: nat, start: Spot)
    requires k <= |looks|
    requires forall i :: 0 <= i < |looks| ==> looks[i].from.files == Reached(looks, i, start).files && looks[i].from.files <= looks[i].to.files
    ensures start.files <= Reached(looks, k, start).files
    ensures forall i :: 0 <= i <= k ==> Reached(looks, i, start).files <= Reached(looks, k, start).files
    decreases k
  {
    if k == 0 {
    } else {
      ChainGrows(looks, k - 1, start);
      assert looks[k - 1].from.files == Reached(looks, k - 1, start).files;
    }
  }

  /** The look at one path of the selection, for which an entry of the budget is charged. */
  ghost predicate SelectedSeen(walk: Walk, path: string, before: Spot, l: Look) {
    && walk.Right(l) && LooksAt(l, path, [], 0, {})
    && before.budget > 0 && l.from == before.(budget := before.budget - 1)
  }

  /** The looks at the first paths of a selection, one after the other. */
  ghost predicate SelectionSeen(walk: Walk, paths: seq<string>, start: Spot, looks: seq<Look>) {
    |looks| <= |paths| && forall k :: 0 <= k < |looks| ==> SelectedSeen(walk, paths[k], Reached(looks, k, start), looks[k])
  }

  lemma OneMoreSeen(walk: Walk, paths: seq<string>, start: Spot, looks: seq<Look>, l: Look)
    requires SelectionSeen(walk, paths, start, looks) && |looks| < |paths|
    requires SelectedSeen(walk, paths[|looks|], Reached(looks, |looks|, start), l)
    ensures SelectionSeen(walk, paths, start, looks + [l]) && Reached(looks + [l], |looks| + 1, start) == l.to
  {
    ReachedBefore(looks, l, start);
    hide Reached, SelectedSeen;
    var longer := looks + [l];
    forall k | 0 <= k < |longer|
      ensures SelectedSeen(walk, paths[k], Reached(longer, k, start), longer[k])
    {
      if k < |looks| {
        assert longer[k] == looks[k];
      }
    }
  }

  /**
   `freeze_paths_with_limits`: the whole selection.  The walk ends on every directory graph, cyclic or
   changing; it looks at no more than `maxEntries` paths and asks the file system no more than three
   questions for each.  What is listed is exactly what the right looks at the selected paths, in order, came
   to; the selection is truncated exactly if a path was not looked at or a directory was cut short.  Each
   directory comes before its contents, every relative name is short enough for the wire, and no two paths
   are alike for a client ignoring case.
   */
  method FreezePaths(fs: FileSystem, cases: CaseTable, paths: seq<string>, maxEntries: nat, hugeFiles: bool)
    returns (files: seq<Entry>, truncated: bool, ghost visited: set<string>, ghost asked: nat, ghost walk: Walk, ghost looks: seq<Look>)
    requires fs.Valid() && cases.Valid()
    ensures |files| <= maxEntries && |visited| <= maxEntries && asked <= 3 * maxEntries
    ensures DirectoriesFirst(files) && NamesFit(files)
    ensures forall i, j :: 0 <= i < j < |files| ==> Key(WindowsPath(files[i]), cases) != Key(WindowsPath(files[j]), cases)
    ensures walk.fs == fs && walk.cases == cases && walk.hugeFiles == hugeFiles && SelectionSeen(walk, paths, Spot(0, maxEntries, {}, []), looks)
    ensures files == Reached(looks, |looks|, Spot(0, maxEntries, {}, [])).files
    ensures |looks| == |paths| || Reached(looks, |looks|, Spot(0, maxEntries, {}, [])).budget == 0
    ensures truncated <==> |looks| < |paths| || walk.AnyCut(looks)
    ensures |paths| > maxEntries ==> truncated
    ensures !truncated ==> forall k :: 0 <= k < |paths| ==> paths[k] in visited
  {
    hide Listing, CaseTable.Valid, FileSystem.Valid, SelectionSeen, SelectedSeen, Reached, Walk.Right, Walk.Cut, Walk.AnyCut, Walk.At,
         Walk.WithinBudget, Walk.IsFull, UsedIn, DirectoriesFirst, NamesFit, WindowsPath, Key;
    var w := new Walk(fs, cases, hugeFiles, maxEntries);
    looks := [];
    w.AtTheStart();
    NothingSeen(w, paths, Spot(0, maxEntries, {}, []));
    var k := 0;
    while k < |paths|
      invariant 0 <= k <= |paths| && |looks| == k
      invariant w.Valid() && fresh(w) && w.maxEntries == maxEntries && w.cases == cases && w.fs == fs && w.hugeFiles == hugeFiles
      invariant w.ancestors == {} && w.remaining <= maxEntries - k && w.unvisited == 0
      invariant forall i :: 0 <= i < k ==> paths[i] in w.visited
      invariant SelectionSeen(w, paths, Spot(0, maxEntries, {}, []), looks) && w.At([]) == Reached(looks, |looks|, Spot(0, maxEntries, {}, []))
      invariant w.truncated <==> w.AnyCut(looks)
    {
      if w.remaining == 0 {
        break;
      }
      w.BudgetIs([]);
      ghost var l := w.FreezeSelected(paths[k]);
      w.OneMoreLook(looks, l);
      OneMoreSeen(w, paths, Spot(0, maxEntries, {}, []), looks, l);
      looks := looks + [l];
      k := k + 1;
      if w.IsFull() {
        w.FullIsSpent();
        break;
      }
    }
    if k < |paths| {
      w.truncated := true;
    }
    walk := w;
    files, truncated, visited, asked := w.files, w.truncated, w.visited, w.asked;
    w.BudgetIs([]);
    w.Totals();
    AllPathsDiffer(files, w.usedNames, cases);
  }

  lemma NothingSeen(walk: Walk, paths: seq<string>, start: Spot)
    ensures SelectionSeen(walk, paths, start, []) && Reached([], 0, start) == start
  {
  }

  /**
   A selected regular file is listed under its own path if it can be opened as one and its length fits 32 bits
   or huge files were agreed on, unless its name is too long; otherwise it is passed over.
   */
  lemma SelectedFileIsListed(walk: Walk, paths: seq<string>, start: Spot, looks: seq<Look>, k: nat)
    requires SelectionSeen(walk, paths, start, looks) && k < |looks|
    requires walk.fs.stat(looks[k].from.question, paths[k]).File?
    ensures var found := walk.fs.open(looks[k].from.question + 1, paths[k]);
            if found.File? && (walk.hugeFiles || found.length < 0x1_0000_0000) then
              exists name: string ::
                walk.NameFor(paths[k], Reached(looks, k, start).used, name) &&
                (WireNameFits([], name) ==> Entry(paths[k], [], name, false) in Reached(looks, |looks|, start).files)
            else looks[k].to.files == looks[k].from.files
  {
    hide Walk.Right, Walk.NameFor, WireNameFits;
    SelectionGrows(walk, paths, start, looks, k);
    assert SelectedSeen(walk, paths[k], Reached(looks, k, start), looks[k]);
    if !walk.Offerable(walk.fs.open(looks[k].from.question + 1, paths[k])) {
      FileIsPassedOver(walk, looks[k]);
    } else {
      var name := FileIsListed(walk, looks[k]);
      if WireNameFits([], name) {
        var at := |looks[k].from.files|;
        assert Reached(looks, |looks|, start).files[at] == looks[k].to.files[at];
      }
    }
  }

  lemma FileIsListed(walk: Walk, l: Look) returns (name: string)
    requires walk.Right(l) && l.depth <= 128 && walk.fs.stat(l.from.question, l.path).File?
    requires walk.Offerable(walk.fs.open(l.from.question + 1, l.path))
    ensures walk.NameFor(l.path, l.from.used, name)
    ensures WireNameFits(l.parent, name) ==> l.to.files == l.from.files + [Entry(l.path, l.parent, name, false)]
  {
    hide Walk.NameFor, WireNameFits;
    name :| walk.FileListed(l, name);
  }

  lemma FileIsPassedOver(walk: Walk, l: Look)
    requires walk.Right(l) && walk.fs.stat(l.from.question, l.path).File?
    requires !walk.Offerable(walk.fs.open(l.from.question + 1, l.path))
    ensures l.to.files == l.from.files
  {
  }

  lemma SelectionGrows(walk: Walk, paths: seq<string>, start: Spot, looks: seq<Look>, k: nat)
    requires SelectionSeen(walk, paths, start, looks) && k < |looks|
    ensures looks[k].to.files <= Reached(looks, |looks|, start).files
  {
    hide Walk.Right;
    forall i | 0 <= i < |looks|
      ensures looks[i].from.files == Reached(looks, i, start).files && looks[i].from.files <= looks[i].to.files
    {
      assert SelectedSeen(walk, paths[i], Reached(looks, i, start), looks[i]);
      walk.RightGrows(looks[i]);
    }
    ChainGrows(looks, |looks|, start);
    assert Reached(looks, k + 1, start) == looks[k].to;
  }

  lemma AllPathsDiffer(files: seq<Entry>, used: map<seq<string>, set<string>>, t: CaseTable)
    requires t.Valid() && Listing(files, used, t)
    ensures DirectoriesFirst(files) && NamesFit(files)
    ensures forall i, j :: 0 <= i < j < |files| ==> Key(WindowsPath(files[i]), t) != Key(WindowsPath(files[j]), t)
  {
    hide WindowsPath, DirectoriesFirst, NamesFit, SiblingsDiffer, NamesRecorded, CaseTable.Valid;
    forall i, j | 0 <= i < j < |files|
      ensures Key(WindowsPath(files[i]), t) != Key(WindowsPath(files[j]), t)
    {
      WindowsPathsDiffer(files, used, i, j, t);
    }
  }
}
