/** How sync_project compares the folder groups of a project with the
    directories they stand for. */
module GroupDiff {

  /** A file or directory, as its components from the root. */
  type Path = seq<string>

  /** Directories with the names they hold, and regular files.  An entry of a
      directory may be neither, a dangling link for instance. */
  datatype FileSystem = FileSystem(dirs: map<Path, seq<string>>, files: set<Path>)

  /** The ignore patterns, for last components and for whole paths. */
  datatype Ignore = Ignore(basename: string -> bool, pathname: Path -> bool)

  /** A file reference of a project: an object that names a path.  Two references to
      one path differ in their identity. */
  datatype Ref = Ref(path: Path, id: nat)

  /** A folder group: the directory it stands for, its subgroups and its files. */
  datatype Group = Group(name: string, path: Path, groups: seq<Group>, files: seq<Ref>)

  /** Whether a path was found on the source side, on the target side, or both. */
  datatype Entry = Entry(inSource: bool, inTarget: bool)

  type Entries = map<Path, Entry>

  predicate InSource(entries: Entries, p: Path) {
    p in entries && entries[p].inSource
  }

  predicate InTarget(entries: Entries, p: Path) {
    p in entries && entries[p].inTarget
  }

  predicate IgnoredName(ig: Ignore, name: string) {
    name == "." || name == ".." || ig.basename(name)
  }

  // ---------- the walk, declaratively ----------

  /** `p` is listed in the directory `d` and not ignored. */
  predicate IsEntry(fs: FileSystem, ig: Ignore, d: Path, p: Path) {
    && d in fs.dirs && |p| == |d| + 1 && p[..|d|] == d
    && p[|d|] in fs.dirs[d] && p[|d|] != "." && p[|d|] != ".." && !ig.basename(p[|d|]) && !ig.pathname(p)
  }

  /** The directory `d` is `root`, or lies under it through entries that are not ignored. */
  predicate WalkedDir(fs: FileSystem, ig: Ignore, root: Path, d: Path)
    decreases |d|
  {
    || d == root
    || (d != [] && d in fs.dirs && IsEntry(fs, ig, d[..|d| - 1], d) && WalkedDir(fs, ig, root, d[..|d| - 1]))
  }

  /** `p` is no directory and lies under `root` through entries that are not ignored. */
  predicate WalkedFile(fs: FileSystem, ig: Ignore, root: Path, p: Path) {
    p != [] && p !in fs.dirs && IsEntry(fs, ig, p[..|p| - 1], p) && WalkedDir(fs, ig, root, p[..|p| - 1])
  }

  ghost predicate Walked(fs: FileSystem, ig: Ignore, roots: set<Path>, p: Path) {
    exists r :: r in roots && WalkedFile(fs, ig, r, p)
  }

  lemma {:induction false} WalkedDirExtends(fs: FileSystem, ig: Ignore, a: Path, b: Path, d: Path)
    requires WalkedDir(fs, ig, a, b) && WalkedDir(fs, ig, b, d)
    ensures WalkedDir(fs, ig, a, d)
    decreases |d|
  {
    if d != b {
      WalkedDirExtends(fs, ig, a, b, d[..|d| - 1]);
    }
  }

  // ---------- the groups ----------

  /** The directories all groups and subgroups stand for. */
  function Dirs(groups: seq<Group>): set<Path>
    decreases groups
  {
    if groups == [] then {} else {groups[0].path} + Dirs(groups[0].groups) + Dirs(groups[1..])
  }

  function Members(s: seq<Ref>): set<Ref> {
    set r | r in s
  }

  function Paths(refs: set<Ref>): set<Path> {
    set r | r in refs :: r.path
  }

  lemma PathsUnion(a: set<Ref>, b: set<Ref>)
    ensures Paths(a + b) == Paths(a) + Paths(b)
  {
    assert forall r :: r in a + b ==> r in a || r in b;
  }

  /** The references listed in all groups and subgroups, in the order they are
      visited: those of the subgroups come before a group's own. */
  function Visits(groups: seq<Group>): seq<Ref>
    decreases groups
  {
    if groups == [] then [] else Visits(groups[0].groups) + groups[0].files + Visits(groups[1..])
  }

  function Files(groups: seq<Group>): set<Ref> {
    Members(Visits(groups))
  }

  /** The reference that names each path when references are visited in turn: the
      last one. */
  function Named(refs: map<Path, Ref>, visited: seq<Ref>): map<Path, Ref> {
    if visited == [] then refs
    else
      var last := visited[|visited| - 1];
      Named(refs, visited[..|visited| - 1])[last.path := last]
  }

  /** Each path in `paths` is named by one of the references in `from`. */
  ghost predicate Chooses(refs: map<Path, Ref>, from: set<Ref>, paths: set<Path>) {
    forall p :: p in paths ==> p in refs && refs[p] in from && refs[p].path == p
  }

  lemma {:induction false} NamedConcat(refs: map<Path, Ref>, a: seq<Ref>, b: seq<Ref>)
    ensures Named(refs, a + b) == Named(Named(refs, a), b)
  {
    if b == [] {
      assert a + b == a;
    } else {
      assert (a + b)[..|a + b| - 1] == a + b[..|b| - 1];
      NamedConcat(refs, a, b[..|b| - 1]);
    }
  }

  lemma {:induction false} NamedChooses(visited: seq<Ref>)
    ensures Chooses(Named(map[], visited), Members(visited), Paths(Members(visited)))
  {
    if visited != [] {
      var init, last := visited[..|visited| - 1], visited[|visited| - 1];
      NamedChooses(init);
      assert Members(visited) == Members(init) + {last};
      PathsUnion(Members(init), {last});
    }
  }

  lemma {:induction false} LastNames(refs: map<Path, Ref>, visited: seq<Ref>, i: nat)
    requires i < |visited| && forall k :: i < k < |visited| ==> visited[k].path != visited[i].path
    ensures var named := Named(refs, visited); visited[i].path in named && named[visited[i].path] == visited[i]
    decreases |visited|
  {
    if i < |visited| - 1 {
      LastNames(refs, visited[..|visited| - 1], i);
    }
  }

  /** When a group and its subgroups list several references to one path, the last one
      among the group's own files names it. */
  lemma OwnFilesNameLast(refs: map<Path, Ref>, g: Group, i: nat)
    requires i < |g.files| && forall k :: i < k < |g.files| ==> g.files[k].path != g.files[i].path
    ensures var named := Named(refs, Visits([g])); g.files[i].path in named && named[g.files[i].path] == g.files[i]
  {
    assert [g][1..] == [] && Visits([g]) == Visits(g.groups) + g.files;
    NamedConcat(refs, Visits(g.groups), g.files);
    LastNames(Named(refs, Visits(g.groups)), g.files, i);
  }

  lemma OneMoreFile(files: seq<Ref>, i: nat, listed: set<Ref>, refs: map<Path, Ref>)
    requires i < |files|
    ensures Paths(listed + Members(files[..i + 1])) == Paths(listed + Members(files[..i])) + {files[i].path}
    ensures Named(refs, files[..i + 1]) == Named(refs, files[..i])[files[i].path := files[i]]
  {
    assert files[..i + 1] == files[..i] + [files[i]] && files[..i + 1][..i] == files[..i];
    assert listed + Members(files[..i + 1]) == (listed + Members(files[..i])) + {files[i]};
    PathsUnion(listed + Members(files[..i]), {files[i]});
  }

  lemma {:induction false} GroupsConcat(a: seq<Group>, b: seq<Group>)
    ensures Dirs(a + b) == Dirs(a) + Dirs(b)
    ensures Visits(a + b) == Visits(a) + Visits(b)
    ensures Files(a + b) == Files(a) + Files(b)
  {
    if a == [] {
      assert a + b == b;
    } else {
      assert (a + b)[1..] == a[1..] + b;
      GroupsConcat(a[1..], b);
    }
  }

  lemma OneMoreGroup(groups: seq<Group>, i: nat)
    requires i < |groups|
    ensures var g := groups[i];
            && Dirs(groups[..i + 1]) == Dirs(groups[..i]) + {g.path} + Dirs(g.groups)
            && Visits(groups[..i + 1]) == Visits(groups[..i]) + Visits(g.groups) + g.files
            && Files(groups[..i + 1]) == Files(groups[..i]) + Files(g.groups) + Members(g.files)
  {
    var g := groups[i];
    assert groups[..i + 1] == groups[..i] + [g];
    GroupsConcat(groups[..i], [g]);
    assert [g][1..] == [];
  }

  lemma OneMoreGroupAdds(groups: seq<Group>, i: nat, roots: set<Path>, listed: set<Ref>, refs: map<Path, Ref>)
    requires i < |groups|
    ensures var g := groups[i];
            && roots + Dirs(groups[..i + 1]) == roots + Dirs(groups[..i]) + {g.path} + Dirs(g.groups)
            && listed + Files(groups[..i + 1]) == listed + Files(groups[..i]) + Files(g.groups) + Members(g.files)
            && Named(refs, Visits(groups[..i + 1]))
               == Named(Named(Named(refs, Visits(groups[..i])), Visits(g.groups)), g.files)
  {
    var g := groups[i];
    OneMoreGroup(groups, i);
    NamedConcat(refs, Visits(groups[..i]), Visits(g.groups));
    NamedConcat(refs, Visits(groups[..i]) + Visits(g.groups), g.files);
  }

  // ---------- tracking differences ----------

  class Diff {
    var entries: Entries
    var refs: map<Path, Ref>

    constructor ()
      ensures entries == map[] && refs == map[]
    {
      entries, refs := map[], map[];
    }

    /** Tracks the path and marks it as found in the source. */
    method MarkSource(p: Path)
      modifies this`entries
      ensures entries == old(entries)[p := Entry(true, InTarget(old(entries), p))]
    {
      var entry := if p in entries then entries[p] else Entry(false, false);
      entries := entries[p := entry.(inSource := true)];
    }

    /** Tracks the path of a reference, which then names it, and marks it as found in
        the target. */
    method MarkTarget(r: Ref)
      modifies this
      ensures entries == old(entries)[r.path := Entry(InSource(old(entries), r.path), true)]
      ensures refs == old(refs)[r.path := r]
    {
      var entry := if r.path in entries then entries[r.path] else Entry(false, false);
      entries := entries[r.path := entry.(inTarget := true)];
      refs := refs[r.path := r];
    }

    method Name(r: Ref)
      modifies this`refs
      ensures refs == old(refs)[r.path := r]
    {
      refs := refs[r.path := r];
    }
  }

  /** Everything directly in `d` has been dealt with. */
  ghost predicate Complete(fs: FileSystem, ig: Ignore, d: Path, dirs: set<Path>, entries: Entries) {
    forall p :: IsEntry(fs, ig, d, p) ==> if p in fs.dirs then p in dirs else InSource(entries, p)
  }

  /** `entries` has grown from `before` by source marks only. */
  ghost predicate OnlySourcesAdded(before: Entries, entries: Entries) {
    && before.Keys <= entries.Keys
    && (forall p :: p in entries ==> entries[p].inTarget == InTarget(before, p))
    && (forall p :: p in entries && !InSource(entries, p) ==> p in before)
    && (forall p :: InSource(before, p) ==> InSource(entries, p))
  }

  /** The traversal that has marked what lies under `roots` and what is listed. */
  ghost predicate Tracked(fs: FileSystem, ig: Ignore, roots: set<Path>, listed: set<Path>,
                          dirs: set<Path>, entries: Entries)
  {
    && roots <= dirs
    && (forall d :: d in dirs ==> Complete(fs, ig, d, dirs, entries))
    && (forall p :: InSource(entries, p) ==> Walked(fs, ig, roots, p) || p in listed * fs.files)
    && (forall p :: p in listed * fs.files ==> InSource(entries, p))
    && (forall p :: InTarget(entries, p) <==> p in listed)
    && (forall p :: p in entries ==> InSource(entries, p) || InTarget(entries, p))
  }

  /** Nothing under a complete traversal is missed. */
  lemma {:induction false} CompleteHoldsDir(fs: FileSystem, ig: Ignore, dirs: set<Path>, entries: Entries,
                                            root: Path, d: Path)
    requires root in dirs && forall x :: x in dirs ==> Complete(fs, ig, x, dirs, entries)
    requires WalkedDir(fs, ig, root, d)
    ensures d in dirs
    decreases |d|
  {
    if d != root {
      CompleteHoldsDir(fs, ig, dirs, entries, root, d[..|d| - 1]);
    }
  }

  /** A path is flagged exactly when it lies under some group directory through
      entries that are not ignored and is no directory, or is listed in a group
      and exists. */
  lemma TrackedExactly(fs: FileSystem, ig: Ignore, roots: set<Path>, listed: set<Path>,
                       dirs: set<Path>, entries: Entries, p: Path)
    requires Tracked(fs, ig, roots, listed, dirs, entries)
    ensures InSource(entries, p) <==> Walked(fs, ig, roots, p) || p in listed * fs.files
    ensures InTarget(entries, p) <==> p in listed
    ensures p in entries <==> InSource(entries, p) || InTarget(entries, p)
  {
    if Walked(fs, ig, roots, p) {
      var r :| r in roots && WalkedFile(fs, ig, r, p);
      CompleteHoldsDir(fs, ig, dirs, entries, r, p[..|p| - 1]);
    }
  }

  /** Only which directories and files the groups name matters: their order,
      nesting, repetition and aliasing do not. */
  lemma OrderIrrelevant(fs: FileSystem, ig: Ignore, groups: seq<Group>, others: seq<Group>,
                        dirs: set<Path>, entries: Entries, dirs': set<Path>, entries': Entries)
    requires Dirs(groups) == Dirs(others) && Paths(Files(groups)) == Paths(Files(others))
    requires Tracked(fs, ig, Dirs(groups), Paths(Files(groups)), dirs, entries)
    requires Tracked(fs, ig, Dirs(others), Paths(Files(others)), dirs', entries')
    ensures entries == entries'
  {
    forall p
      ensures p in entries <==> p in entries'
      ensures p in entries ==> p in entries' && entries[p] == entries'[p]
    {
      TrackedExactly(fs, ig, Dirs(groups), Paths(Files(groups)), dirs, entries, p);
      TrackedExactly(fs, ig, Dirs(others), Paths(Files(others)), dirs', entries', p);
    }
  }

  // ---------- the traversal ----------

  /** The entries of a directory that are not ignored. */
  method ListEntries(fs: FileSystem, ig: Ignore, path: Path) returns (result: seq<Path>)
    ensures forall p :: p in result <==> IsEntry(fs, ig, path, p)
  {
    result := [];
    if path in fs.dirs {
      var names := fs.dirs[path];
      for i := 0 to |names|
        invariant forall p :: p in result <==> IsEntry(fs, ig, path, p) && p[|path|] in names[..i]
      {
        var p := path + [names[i]];
        assert forall name :: name in names[..i + 1] <==> name in names[..i] || name == names[i];
        assert forall q: Path :: |q| == |path| + 1 && q[..|path|] == path && q[|path|] == names[i] ==> q == p;
        if !IgnoredName(ig, names[i]) && !ig.pathname(p) {
          result := result + [p];
        }
      }
    }
  }

  class GroupDiffer {
    const fs: FileSystem
    const ig: Ignore
    const diff: Diff
    var dirs: set<Path>

    constructor (fs: FileSystem, ig: Ignore)
      ensures this.fs == fs && this.ig == ig && fresh(diff)
      ensures dirs == {} && diff.entries == map[] && diff.refs == map[]
    {
      this.fs, this.ig, this.dirs := fs, ig, {};
      this.diff := new Diff();
    }

    /** Walks the directory, unless it has been walked before. */
    method FindFsFiles(path: Path)
      modifies this, diff`entries
      ensures old(dirs) + {path} <= dirs
      ensures Walk(path, old(dirs), old(diff.entries), dirs, diff.entries)
      decreases fs.dirs.Keys - dirs, 0
    {
      if path in dirs {
        return;
      }
      dirs := dirs + {path};
      ghost var start := dirs;
      var found := ListEntries(fs, ig, path);
      for i := 0 to |found|
        invariant start <= dirs
        invariant Walk(path, start, old(diff.entries), dirs, diff.entries)
        invariant forall k :: 0 <= k < i ==>
                    if found[k] in fs.dirs then found[k] in dirs else InSource(diff.entries, found[k])
      {
        ghost var known, marked := dirs, diff.entries;
        assert found[i] in found && path in fs.dirs;
        VisitEntry(path, found[i]);
        WalkContinues(path, start, old(diff.entries), known, marked, dirs, diff.entries);
      }
      assert Complete(fs, ig, path, dirs, diff.entries);
    }

    method VisitEntry(path: Path, p: Path)
      requires IsEntry(fs, ig, path, p)
      modifies this, diff`entries
      ensures old(dirs) <= dirs
      ensures Walk(path, old(dirs), old(diff.entries), dirs, diff.entries)
      ensures if p in fs.dirs then p in dirs else InSource(diff.entries, p)
      decreases fs.dirs.Keys - dirs, 1
    {
      assert p[..|p| - 1] == path;
      if p in fs.dirs {
        FindFsFiles(p);
        assert WalkedDir(fs, ig, path, p);
        forall d | WalkedDir(fs, ig, p, d)
          ensures WalkedDir(fs, ig, path, d)
        {
          WalkedDirExtends(fs, ig, path, p, d);
        }
      } else {
        diff.MarkSource(p);
      }
    }

    /** What a walk of `path` may change, from `known` and `before`. */
    ghost predicate Walk(path: Path, known: set<Path>, before: Entries, dirs: set<Path>, entries: Entries) {
      && known <= dirs
      && (forall d :: d in dirs && d !in known ==> WalkedDir(fs, ig, path, d) && Complete(fs, ig, d, dirs, entries))
      && OnlySourcesAdded(before, entries)
      && (forall p :: InSource(entries, p) ==> InSource(before, p) || WalkedFile(fs, ig, path, p))
    }

    lemma WalkContinues(path: Path, known: set<Path>, before: Entries, dirs: set<Path>, entries: Entries,
                        dirs': set<Path>, entries': Entries)
      requires Walk(path, known, before, dirs, entries) && Walk(path, dirs, entries, dirs', entries')
      ensures Walk(path, known, before, dirs', entries')
    {
      forall d | d in dirs && d !in known
        ensures Complete(fs, ig, d, dirs', entries')
      {
        assert Complete(fs, ig, d, dirs, entries);
      }
    }

    /** A finished walk extends what is tracked by one root. */
    lemma WalkTracks(path: Path, roots: set<Path>, listed: set<Path>, known: set<Path>, before: Entries,
                     dirs: set<Path>, entries: Entries)
      requires Tracked(fs, ig, roots, listed, known, before)
      requires Walk(path, known, before, dirs, entries) && path in dirs
      ensures Tracked(fs, ig, roots + {path}, listed, dirs, entries)
    {
      forall d | d in dirs
        ensures Complete(fs, ig, d, dirs, entries)
      {
        if d in known {
          assert Complete(fs, ig, d, known, before);
        }
      }
      forall p | InSource(entries, p)
        ensures Walked(fs, ig, roots + {path}, p) || p in listed * fs.files
      {
        if !InSource(before, p) {
          assert path in roots + {path} && WalkedFile(fs, ig, path, p);
        } else if Walked(fs, ig, roots, p) {
          var r :| r in roots && WalkedFile(fs, ig, r, p);
          assert r in roots + {path};
        }
      }
    }

    lemma MarkTracks(roots: set<Path>, listed: set<Path>, before: Entries, p: Path, entries: Entries)
      requires Tracked(fs, ig, roots, listed, dirs, before)
      requires entries == before[p := Entry(InSource(before, p) || p in fs.files, true)]
      ensures Tracked(fs, ig, roots, listed + {p}, dirs, entries)
    {
      forall d | d in dirs
        ensures Complete(fs, ig, d, dirs, entries)
      {
        assert Complete(fs, ig, d, dirs, before);
      }
      forall q | q in (listed + {p}) * fs.files
        ensures InSource(entries, q)
      {
        assert q == p || q in listed * fs.files;
      }
    }

    /** Marks what a group lists. */
    method MarkListed(files: seq<Ref>, ghost roots: set<Path>, ghost listed: set<Ref>)
      requires Tracked(fs, ig, roots, Paths(listed), dirs, diff.entries)
      modifies diff
      ensures Tracked(fs, ig, roots, Paths(listed + Members(files)), dirs, diff.entries)
      ensures diff.refs == Named(old(diff.refs), files)
    {
      for i := 0 to |files|
        invariant Tracked(fs, ig, roots, Paths(listed + Members(files[..i])), dirs, diff.entries)
        invariant diff.refs == Named(old(diff.refs), files[..i])
      {
        ghost var before, done := diff.entries, listed + Members(files[..i]);
        var r := files[i];
        diff.MarkTarget(r);
        if r.path in fs.files {
          diff.MarkSource(r.path);
        }
        OneMoreFile(files, i, listed, old(diff.refs));
        MarkTracks(roots, Paths(done), before, r.path, diff.entries);
      }
      assert files[..|files|] == files;
    }

    /** Traverses the groups and all their subgroups. */
    method DiffProjectFiles(groups: seq<Group>, ghost roots: set<Path>, ghost listed: set<Ref>)
      requires Tracked(fs, ig, roots, Paths(listed), dirs, diff.entries)
      modifies this, diff
      ensures Tracked(fs, ig, roots + Dirs(groups), Paths(listed + Files(groups)), dirs, diff.entries)
      ensures diff.refs == Named(old(diff.refs), Visits(groups))
      decreases groups
    {
      for i := 0 to |groups|
        invariant Tracked(fs, ig, roots + Dirs(groups[..i]), Paths(listed + Files(groups[..i])), dirs, diff.entries)
        invariant diff.refs == Named(old(diff.refs), Visits(groups[..i]))
      {
        ghost var r, l := roots + Dirs(groups[..i]), listed + Files(groups[..i]);
        var g := groups[i];
        ghost var known, before := dirs, diff.entries;
        FindFsFiles(g.path);
        WalkTracks(g.path, r, Paths(l), known, before, dirs, diff.entries);
        DiffProjectFiles(g.groups, r + {g.path}, l);
        MarkListed(g.files, r + {g.path} + Dirs(g.groups), l + Files(g.groups));
        OneMoreGroupAdds(groups, i, roots, listed, old(diff.refs));
      }
      assert groups[..|groups|] == groups;
    }

    /** Compares the groups with the file system; a listed path is named by the
        reference to it that is visited last. */
    method DiffGroups(groups: seq<Group>)
      requires dirs == {} && diff.entries == map[] && diff.refs == map[]
      modifies this, diff
      ensures Tracked(fs, ig, Dirs(groups), Paths(Files(groups)), dirs, diff.entries)
      ensures forall p :: InSource(diff.entries, p) <==>
                Walked(fs, ig, Dirs(groups), p) || p in Paths(Files(groups)) * fs.files
      ensures forall p :: InTarget(diff.entries, p) <==> p in Paths(Files(groups))
      ensures diff.refs == Named(map[], Visits(groups))
    {
      DiffProjectFiles(groups, {}, {});
      assert {} + Dirs(groups) == Dirs(groups) && {} + Files(groups) == Files(groups);
      forall p
        ensures InSource(diff.entries, p) <==> Walked(fs, ig, Dirs(groups), p) || p in Paths(Files(groups)) * fs.files
      {
        TrackedExactly(fs, ig, Dirs(groups), Paths(Files(groups)), dirs, diff.entries, p);
      }
    }
  }
}
