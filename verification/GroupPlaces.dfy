/** Where files are listed in the tree of groups. */
module GroupPlaces {
  import opened Text
  import opened GroupDiff
  import opened SyncSpec

  // ---------- group trees ----------

  /** The position of the first group called `name`, or the number of groups. */
  function FindGroup(groups: seq<Group>, name: string): (r: nat)
    ensures r <= |groups| && (r < |groups| ==> groups[r].name == name)
    ensures forall k :: 0 <= k < r ==> groups[k].name != name
  {
    if groups == [] || groups[0].name == name then 0 else 1 + FindGroup(groups[1..], name)
  }

  /** Lists a reference in the subgroup that `names` lead to.  A subgroup that is
      missing is created and stands for the directory of its parent. */
  function AddFile(g: Group, names: seq<string>, r: Ref): Group
    decreases |names|
  {
    if names == [] then g.(files := g.files + [r])
    else
      var i := FindGroup(g.groups, names[0]);
      if i < |g.groups| then g.(groups := g.groups[i := AddFile(g.groups[i], names[1..], r)])
      else g.(groups := g.groups + [AddFile(Group(names[0], g.path, [], []), names[1..], r)])
  }

  lemma OneGroup(g: Group)
    ensures Dirs([g]) == {g.path} + Dirs(g.groups)
    ensures Files([g]) == Members(g.files) + Files(g.groups)
  {
    assert [g][1..] == [];
    assert Visits([g]) == Visits(g.groups) + g.files;
  }

  lemma ReplaceGroup(groups: seq<Group>, i: nat, g: Group)
    requires i < |groups|
    ensures Dirs([g]) == Dirs([groups[i]]) ==> Dirs(groups[i := g]) == Dirs(groups)
    ensures forall r :: Files([g]) == Files([groups[i]]) + {r} ==> Files(groups[i := g]) == Files(groups) + {r}
  {
    var a, b := groups[..i], groups[i + 1..];
    assert groups == a + ([groups[i]] + b) && groups[i := g] == a + ([g] + b);
    GroupsConcat(a, [groups[i]] + b);
    GroupsConcat([groups[i]], b);
    GroupsConcat(a, [g] + b);
    GroupsConcat([g], b);
  }

  lemma {:induction false} AddFileExact(g: Group, names: seq<string>, r: Ref)
    ensures AddFile(g, names, r).path == g.path
    ensures Dirs([AddFile(g, names, r)]) == Dirs([g])
    ensures Files([AddFile(g, names, r)]) == Files([g]) + {r}
    decreases |names|
  {
    var more := AddFile(g, names, r);
    OneGroup(g);
    OneGroup(more);
    if names == [] {
      assert Members(g.files + [r]) == Members(g.files) + {r};
    } else {
      var i := FindGroup(g.groups, names[0]);
      if i < |g.groups| {
        AddFileExact(g.groups[i], names[1..], r);
        ReplaceGroup(g.groups, i, AddFile(g.groups[i], names[1..], r));
      } else {
        var child := Group(names[0], g.path, [], []);
        AddFileExact(child, names[1..], r);
        OneGroup(child);
        GroupsConcat(g.groups, [AddFile(child, names[1..], r)]);
      }
    }
  }

  function Drop(files: seq<Ref>, r: Ref): seq<Ref> {
    if files == [] then [] else (if files[0] == r then [] else [files[0]]) + Drop(files[1..], r)
  }

  /** The groups without the reference `r`; other references to its path stay. */
  function RemoveFile(groups: seq<Group>, r: Ref): seq<Group>
    decreases groups
  {
    if groups == [] then []
    else
      var g := groups[0];
      [g.(files := Drop(g.files, r), groups := RemoveFile(g.groups, r))] + RemoveFile(groups[1..], r)
  }

  lemma {:induction false} DropExact(files: seq<Ref>, r: Ref)
    ensures Members(Drop(files, r)) == Members(files) - {r}
  {
    if files != [] {
      DropExact(files[1..], r);
      assert Members(files) == {files[0]} + Members(files[1..]);
      assert Members(Drop(files, r)) == (if files[0] == r then {} else {files[0]}) + Members(Drop(files[1..], r));
    }
  }

  lemma FilesSplit(groups: seq<Group>)
    requires groups != []
    ensures Files(groups) == Files(groups[0].groups) + Members(groups[0].files) + Files(groups[1..])
  {
  }

  lemma {:induction false} RemoveFileExact(groups: seq<Group>, r: Ref)
    ensures Dirs(RemoveFile(groups, r)) == Dirs(groups)
    ensures Files(RemoveFile(groups, r)) == Files(groups) - {r}
    decreases groups
  {
    if groups != [] {
      var g := groups[0];
      RemoveFileExact(g.groups, r);
      RemoveFileExact(groups[1..], r);
      DropExact(g.files, r);
      var less := RemoveFile(groups, r);
      assert less[1..] == RemoveFile(groups[1..], r);
      FilesSplit(groups);
      FilesSplit(less);
    }
  }

  /** The path lies under the group's directory; a relative path that starts with
      two dots counts as outside. */
  predicate Contains(g: Group, p: Path) {
    g.path <= p && (|p| == |g.path| || !StartsWith(p[|g.path|], ".."))
  }

  /** The names of the subgroups between a group and a file in it. */
  function Between(g: Group, p: Path): seq<string>
    requires g.path <= p
  {
    if |p| <= |g.path| + 1 then ["."] else p[|g.path|..|p| - 1]
  }

  // ---------- which group a file belongs in ----------

  /** The length of the longest common beginning. */
  function Common(a: Path, b: Path): (n: nat)
    ensures n <= |a| && n <= |b| && a[..n] == b[..n]
    ensures n < |a| && n < |b| ==> a[n] != b[n]
  {
    if a == [] || b == [] || a[0] != b[0] then 0 else 1 + Common(a[1..], b[1..])
  }

  /** The path as it is written relative to a directory. */
  function RelativeTo(p: Path, base: Path): (r: Path)
    ensures r != []
  {
    var n := Common(base, p);
    var rel := seq(|base| - n, _ => "..") + p[n..];
    if rel == [] then ["."] else rel
  }

  function DirName(p: Path): Path {
    if |p| <= 1 then ["."] else p[..|p| - 1]
  }

  /** A group contains exactly the paths whose relative form does not start with two
      dots, and a file belongs in the subgroup that the directory of this form names. */
  lemma RelativeForm(g: Group, p: Path)
    ensures Contains(g, p) <==> !StartsWith(RelativeTo(p, g.path)[0], "..")
    ensures Contains(g, p) ==> Between(g, p) == DirName(RelativeTo(p, g.path))
  {
    var base := g.path;
    var n := Common(base, p);
    if base <= p {
      assert n == |base|;
    } else {
      assert n < |base|;
      assert RelativeTo(p, base)[0] == "..";
    }
  }

  ghost predicate UnderRoot(groups: seq<Group>, p: Path) {
    exists i :: 0 <= i < |groups| && Contains(groups[i], p)
  }

  ghost predicate AllUnderRoot(groups: seq<Group>, paths: set<Path>) {
    forall p :: p in paths ==> UnderRoot(groups, p)
  }

  ghost predicate SameRoots(groups: seq<Group>, others: seq<Group>) {
    |groups| == |others| && forall i :: 0 <= i < |groups| ==> groups[i].path == others[i].path
  }

  /** The first root group that contains the path is `i`, and it lists the file in the
      subgroup that `names` lead to. */
  ghost predicate Belongs(groups: seq<Group>, p: Path, i: nat, names: seq<string>) {
    && i < |groups| && Contains(groups[i], p) && names == Between(groups[i], p)
    && forall k :: 0 <= k < i ==> !Contains(groups[k], p)
  }

  lemma BelongsBySameRoots(groups: seq<Group>, others: seq<Group>, p: Path, i: nat, names: seq<string>)
    requires SameRoots(groups, others)
    ensures Belongs(groups, p, i, names) <==> Belongs(others, p, i, names)
  {
  }

  // ---------- looking groups up ----------

  /** The subgroup that `names` lead to. */
  function GroupAt(g: Group, names: seq<string>): Option<Group> {
    if names == [] then Some(g)
    else
      var i := FindGroup(g.groups, names[0]);
      if i < |g.groups| then GroupAt(g.groups[i], names[1..]) else None
  }

  function FilesAt(g: Group, names: seq<string>): seq<Ref> {
    match GroupAt(g, names) case None => [] case Some(h) => h.files
  }

  lemma FoundFirst(groups: seq<Group>, name: string, k: nat)
    requires k <= |groups| && (k < |groups| ==> groups[k].name == name)
    requires forall j :: 0 <= j < k ==> groups[j].name != name
    ensures FindGroup(groups, name) == k
  {
  }

  lemma FindReplaced(groups: seq<Group>, i: nat, h: Group, name: string)
    requires i < |groups| && h.name == groups[i].name
    ensures FindGroup(groups[i := h], name) == FindGroup(groups, name)
  {
    FoundFirst(groups[i := h], name, FindGroup(groups, name));
  }

  lemma FindAppended(groups: seq<Group>, h: Group, name: string)
    ensures FindGroup(groups + [h], name)
         == var i := FindGroup(groups, name); if i < |groups| || h.name == name then i else i + 1
  {
    var i := FindGroup(groups, name);
    FoundFirst(groups + [h], name, if i < |groups| || h.name == name then i else i + 1);
  }

  /** The subgroup on the way: the one that is there, or an empty new one. */
  function Child(g: Group, name: string): Group {
    var i := FindGroup(g.groups, name);
    if i < |g.groups| then g.groups[i] else Group(name, g.path, [], [])
  }

  lemma LookedUp(g: Group, name: string, other: seq<string>)
    requires other != [] && other[0] == name
    ensures FilesAt(g, other) == FilesAt(Child(g, name), other[1..])
    ensures GroupAt(g, other)
         == if FindGroup(g.groups, name) < |g.groups| then GroupAt(Child(g, name), other[1..]) else None
  {
  }

  lemma {:induction false} AddFileName(g: Group, names: seq<string>, r: Ref)
    ensures AddFile(g, names, r).name == g.name && AddFile(g, names, r).path == g.path
  {
  }

  lemma AddedLookedUp(g: Group, names: seq<string>, r: Ref, other: seq<string>)
    requires names != [] && other != []
    ensures GroupAt(AddFile(g, names, r), other)
         == if other[0] == names[0] then GroupAt(AddFile(Child(g, names[0]), names[1..], r), other[1..])
            else GroupAt(g, other)
  {
    var i, inner := FindGroup(g.groups, names[0]), AddFile(Child(g, names[0]), names[1..], r);
    AddFileName(Child(g, names[0]), names[1..], r);
    if i < |g.groups| {
      FindReplaced(g.groups, i, inner, other[0]);
    } else {
      FindAppended(g.groups, inner, other[0]);
    }
  }

  /** A new reference is listed last in the group that the names lead to, and every other
      group lists what it did. */
  lemma {:induction false} AddFilePlaces(g: Group, names: seq<string>, r: Ref, other: seq<string>)
    ensures FilesAt(AddFile(g, names, r), other) == FilesAt(g, other) + if other == names then [r] else []
    decreases |names|
  {
    if names != [] && other != [] {
      AddedLookedUp(g, names, r, other);
      if other[0] == names[0] {
        AddFilePlaces(Child(g, names[0]), names[1..], r, other[1..]);
        LookedUp(g, names[0], other);
        assert other == [names[0]] + other[1..] && names == [names[0]] + names[1..];
      }
    }
  }

  /** Every group that was there stays and stands for what it did; of the others only
      those on the way are created. */
  lemma {:induction false} AddFileGroups(g: Group, names: seq<string>, r: Ref, other: seq<string>)
    ensures var more := GroupAt(AddFile(g, names, r), other);
            match GroupAt(g, other)
            case Some(h) => more.Some? && more.value.path == h.path
            case None => more.Some? <==> other <= names
    decreases |names|
  {
    if names != [] && other != [] {
      AddedLookedUp(g, names, r, other);
      if other[0] == names[0] {
        AddFileGroups(Child(g, names[0]), names[1..], r, other[1..]);
        LookedUp(g, names[0], other);
      }
    }
    AddFileName(g, names, r);
  }

  /** A group that is created stands for the directory of the group it is in. */
  lemma {:induction false} CreatedPath(g: Group, names: seq<string>, r: Ref, other: seq<string>)
    requires other <= names && GroupAt(g, other).None?
    ensures var more := AddFile(g, names, r);
            var above, created := GroupAt(more, other[..|other| - 1]), GroupAt(more, other);
            above.Some? && created.Some? && created.value.path == above.value.path
    decreases |names|
  {
    var up := other[..|other| - 1];
    AddedLookedUp(g, names, r, other);
    AddFileName(g, names, r);
    AddFileName(Child(g, names[0]), names[1..], r);
    if |other| > 1 {
      AddedLookedUp(g, names, r, up);
      assert up[1..] == other[1..][..|other| - 2];
      LookedUp(g, names[0], other);
      CreatedPath(Child(g, names[0]), names[1..], r, other[1..]);
    }
  }

  /** One group without the reference `r`. */
  function RemovedIn(g: Group, r: Ref): Group {
    g.(files := Drop(g.files, r), groups := RemoveFile(g.groups, r))
  }

  lemma {:induction false} RemovedGroup(groups: seq<Group>, r: Ref)
    ensures |RemoveFile(groups, r)| == |groups|
    ensures forall i :: 0 <= i < |groups| ==> RemoveFile(groups, r)[i] == RemovedIn(groups[i], r)
    decreases |groups|
  {
    if groups != [] {
      RemovedGroup(groups[1..], r);
    }
  }

  /** A group lists its files but for `r`. */
  lemma {:induction false} RemoveFilePlaces(g: Group, r: Ref, names: seq<string>)
    ensures FilesAt(RemovedIn(g, r), names) == Drop(FilesAt(g, names), r)
    decreases |names|
  {
    if names != [] {
      var i := FindGroup(g.groups, names[0]);
      RemovedGroup(g.groups, r);
      FoundFirst(RemoveFile(g.groups, r), names[0], i);
      if i < |g.groups| {
        RemoveFilePlaces(g.groups[i], r, names[1..]);
      }
    }
  }

  // ---------- where the files of a project are ----------

  /** The new references to those of some paths that belong at a place. */
  ghost function NewAt(groups: seq<Group>, paths: set<Path>, id: nat, i: nat, names: seq<string>): set<Ref> {
    set p | p in paths && Belongs(groups, p, i, names) :: Ref(p, id)
  }

  /** How often each reference is listed at a place. */
  ghost function Listing(groups: seq<Group>, i: nat, names: seq<string>): multiset<Ref>
    requires i < |groups|
  {
    multiset(FilesAt(groups[i], names))
  }

  /** The new references have been listed where they belong, the references in `gone` are
      nowhere, and everything else is listed where it was. */
  ghost predicate ArrangedAt(before: seq<Group>, after: seq<Group>, paths: set<Path>, id: nat, gone: set<Ref>,
                             i: nat, names: seq<string>)
    requires i < |before| == |after|
  {
    Listing(after, i, names) == Without(Listing(before, i, names) + multiset(NewAt(before, paths, id, i, names)), gone)
  }

  ghost predicate Arranged(before: seq<Group>, after: seq<Group>, paths: set<Path>, id: nat, gone: set<Ref>) {
    && SameRoots(before, after)
    && forall i: nat, names :: i < |before| ==> ArrangedAt(before, after, paths, id, gone, i, names)
  }

  lemma WithoutNone(m: multiset<Ref>)
    ensures Without(m, {}) == m
  {
  }

  lemma NothingArranged(groups: seq<Group>, id: nat)
    ensures Arranged(groups, groups, {}, id, {})
  {
    forall i: nat, names | i < |groups|
      ensures ArrangedAt(groups, groups, {}, id, {}, i, names)
    {
      assert NewAt(groups, {}, id, i, names) == {};
      WithoutNone(Listing(groups, i, names));
    }
  }

  /** `more` lists `r` last where it belongs and is otherwise `groups`. */
  ghost predicate ListedWhereItBelongs(groups: seq<Group>, r: Ref, more: seq<Group>) {
    && SameRoots(groups, more)
    && forall i: nat, names :: i < |groups| ==>
         FilesAt(more[i], names) == FilesAt(groups[i], names) + if Belongs(groups, r.path, i, names) then [r] else []
  }

  lemma PlacedInFirstRoot(groups: seq<Group>, i: nat, r: Ref)
    requires i < |groups| && Contains(groups[i], r.path) && forall k :: 0 <= k < i ==> !Contains(groups[k], r.path)
    ensures ListedWhereItBelongs(groups, r, groups[i := AddFile(groups[i], Between(groups[i], r.path), r)])
  {
    var names := Between(groups[i], r.path);
    var more := groups[i := AddFile(groups[i], names, r)];
    AddFileName(groups[i], names, r);
    forall k: nat, other | k < |groups|
      ensures FilesAt(more[k], other)
           == FilesAt(groups[k], other) + if Belongs(groups, r.path, k, other) then [r] else []
    {
      AddFilePlaces(groups[i], names, r, other);
    }
  }

  lemma NewAtMore(groups: seq<Group>, paths: set<Path>, p: Path, id: nat, i: nat, names: seq<string>)
    requires p !in paths
    ensures multiset(NewAt(groups, paths + {p}, id, i, names))
         == multiset(NewAt(groups, paths, id, i, names))
            + if Belongs(groups, p, i, names) then multiset{Ref(p, id)} else multiset{}
  {
    var few, more := NewAt(groups, paths, id, i, names), NewAt(groups, paths + {p}, id, i, names);
    assert Ref(p, id) !in few;
    assert more == few + if Belongs(groups, p, i, names) then {Ref(p, id)} else {};
  }

  lemma ListingMore(before: seq<Group>, mid: seq<Group>, after: seq<Group>, paths: set<Path>, r: Ref,
                    i: nat, names: seq<string>)
    requires Arranged(before, mid, paths, r.id, {}) && ListedWhereItBelongs(mid, r, after) && r.path !in paths
    requires i < |before| == |after|
    ensures ArrangedAt(before, after, paths + {r.path}, r.id, {}, i, names)
  {
    assert ArrangedAt(before, mid, paths, r.id, {}, i, names);
    BelongsBySameRoots(before, mid, r.path, i, names);
    NewAtMore(before, paths, r.path, r.id, i, names);
    WithoutNone(Listing(before, i, names) + multiset(NewAt(before, paths, r.id, i, names)));
    WithoutNone(Listing(before, i, names) + multiset(NewAt(before, paths + {r.path}, r.id, i, names)));
  }

  lemma OneMoreListed(before: seq<Group>, mid: seq<Group>, after: seq<Group>, paths: set<Path>, r: Ref)
    requires Arranged(before, mid, paths, r.id, {}) && ListedWhereItBelongs(mid, r, after) && r.path !in paths
    ensures Arranged(before, after, paths + {r.path}, r.id, {})
  {
    forall i: nat, names | i < |before|
      ensures ArrangedAt(before, after, paths + {r.path}, r.id, {}, i, names)
    {
      ListingMore(before, mid, after, paths, r, i, names);
    }
  }

  lemma {:induction false} DropCounts(files: seq<Ref>, r: Ref, q: Ref)
    ensures multiset(Drop(files, r))[q] == if q == r then 0 else multiset(files)[q]
  {
    if files != [] {
      DropCounts(files[1..], r, q);
      assert files == [files[0]] + files[1..];
      assert multiset(files) == multiset{files[0]} + multiset(files[1..]);
    }
  }

  lemma DropWithout(files: seq<Ref>, r: Ref, m: multiset<Ref>, gone: set<Ref>)
    requires multiset(files) == Without(m, gone)
    ensures multiset(Drop(files, r)) == Without(m, gone + {r})
  {
    forall q: Ref
      ensures multiset(Drop(files, r))[q] == Without(m, gone + {r})[q]
    {
      DropCounts(files, r, q);
    }
  }

  lemma OneMoreRemoved(before: seq<Group>, mid: seq<Group>, paths: set<Path>, id: nat, gone: set<Ref>, r: Ref)
    requires Arranged(before, mid, paths, id, gone)
    ensures Arranged(before, RemoveFile(mid, r), paths, id, gone + {r})
  {
    var after := RemoveFile(mid, r);
    RemovedGroup(mid, r);
    forall i: nat, names | i < |before|
      ensures ArrangedAt(before, after, paths, id, gone + {r}, i, names)
    {
      assert ArrangedAt(before, mid, paths, id, gone, i, names);
      RemoveFilePlaces(mid[i], r, names);
      var listed := Listing(before, i, names) + multiset(NewAt(before, paths, id, i, names));
      DropWithout(FilesAt(mid[i], names), r, listed, gone);
    }
  }

  lemma AddedThenRemoved(before: seq<Group>, mid: seq<Group>, after: seq<Group>, paths: set<Path>, id: nat, next: nat,
                         gone: set<Ref>)
    requires Arranged(before, mid, paths, id, {}) && Arranged(mid, after, {}, next, gone)
    ensures Arranged(before, after, paths, id, gone)
  {
    forall i: nat, names | i < |before|
      ensures ArrangedAt(before, after, paths, id, gone, i, names)
    {
      assert ArrangedAt(before, mid, paths, id, {}, i, names) && ArrangedAt(mid, after, {}, next, gone, i, names);
      WithoutNone(Listing(before, i, names) + multiset(NewAt(before, paths, id, i, names)));
      assert NewAt(mid, {}, next, i, names) == {};
      assert Listing(mid, i, names) + multiset{} == Listing(mid, i, names);
    }
  }
}
