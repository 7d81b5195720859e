/** The synchroniser of sync_project, step by step. */
module SyncProject {
  import opened Text
  import opened GroupDiff
  import opened SyncSpec
  import opened GroupPlaces

  // ---------- one target ----------

  /** Adds a reference in the phase the extension selects. */
  function AddReference(t: Target, r: Ref): Target {
    match PhaseOf(r.path)
    case Sources => t.(sources := t.sources + multiset{r})
    case Resources => t.(resources := t.resources + multiset{r})
    case NoPhase => t
  }

  function RemoveReference(t: Target, r: Ref): Target {
    match PhaseOf(r.path)
    case Sources => t.(sources := t.sources - multiset{r})
    case Resources => t.(resources := t.resources - multiset{r})
    case NoPhase => t
  }

  lemma AddReferenceCounts(t: Target, r: Ref, q: Ref)
    ensures var u := AddReference(t, r);
            && u.sources[q] == Recount(t.sources[q], q == r && PhaseOf(r.path) == Sources, false)
            && u.resources[q] == Recount(t.resources[q], q == r && PhaseOf(r.path) == Resources, false)
  {
  }

  lemma RemoveReferenceCounts(t: Target, r: Ref, q: Ref)
    ensures var u := RemoveReference(t, r);
            && u.sources[q] == Recount(t.sources[q], false, q == r && PhaseOf(r.path) == Sources)
            && u.resources[q] == Recount(t.resources[q], false, q == r && PhaseOf(r.path) == Resources)
  {
  }

  lemma SyncedAddAt(t: Target, adds: set<Ref>, drops: set<Ref>, r: Ref, q: Ref)
    requires r !in adds && r !in drops && adds !! drops
    ensures var a, b := SyncedTarget(t, adds + {r}, drops), AddReference(SyncedTarget(t, adds, drops), r);
            a.sources[q] == b.sources[q] && a.resources[q] == b.resources[q]
  {
    SyncedCounts(t, adds, drops, q);
    SyncedCounts(t, adds + {r}, drops, q);
    AddReferenceCounts(SyncedTarget(t, adds, drops), r, q);
  }

  lemma SyncedDropAt(t: Target, adds: set<Ref>, drops: set<Ref>, r: Ref, q: Ref)
    requires r !in adds && r !in drops && adds !! drops
    ensures var a, b := SyncedTarget(t, adds, drops + {r}), RemoveReference(SyncedTarget(t, adds, drops), r);
            a.sources[q] == b.sources[q] && a.resources[q] == b.resources[q]
  {
    SyncedCounts(t, adds, drops, q);
    SyncedCounts(t, adds, drops + {r}, q);
    RemoveReferenceCounts(SyncedTarget(t, adds, drops), r, q);
  }

  lemma SameCounts(a: Target, b: Target)
    requires a.name == b.name && a.headers == b.headers
    requires forall q :: a.sources[q] == b.sources[q] && a.resources[q] == b.resources[q]
    ensures a == b
  {
    assert a.sources == b.sources && a.resources == b.resources;
  }

  lemma SyncedAdd(t: Target, adds: set<Ref>, drops: set<Ref>, r: Ref)
    requires r !in adds && r !in drops && adds !! drops
    ensures SyncedTarget(t, adds + {r}, drops) == AddReference(SyncedTarget(t, adds, drops), r)
  {
    var a, b := SyncedTarget(t, adds + {r}, drops), AddReference(SyncedTarget(t, adds, drops), r);
    forall q
      ensures a.sources[q] == b.sources[q] && a.resources[q] == b.resources[q]
    {
      SyncedAddAt(t, adds, drops, r, q);
    }
    SameCounts(a, b);
  }

  lemma SyncedDrop(t: Target, adds: set<Ref>, drops: set<Ref>, r: Ref)
    requires r !in adds && r !in drops && adds !! drops
    ensures SyncedTarget(t, adds, drops + {r}) == RemoveReference(SyncedTarget(t, adds, drops), r)
  {
    var a, b := SyncedTarget(t, adds, drops + {r}), RemoveReference(SyncedTarget(t, adds, drops), r);
    forall q
      ensures a.sources[q] == b.sources[q] && a.resources[q] == b.resources[q]
    {
      SyncedDropAt(t, adds, drops, r, q);
    }
    SameCounts(a, b);
  }

  lemma PathsStep(all: set<Ref>, todo: set<Ref>, r: Ref)
    requires todo <= all && r in todo
    ensures all - (todo - {r}) == (all - todo) + {r}
    ensures Paths(all - (todo - {r})) == Paths(all - todo) + {r.path}
  {
    assert all - (todo - {r}) == (all - todo) + {r};
    PathsUnion(all - todo, {r});
  }

  method MarkAllSources(diff: Diff, matched: set<Ref>)
    requires diff.entries == map[] && diff.refs == map[]
    modifies diff
    ensures forall p :: InSource(diff.entries, p) <==> p in Paths(matched)
    ensures forall p :: p in diff.entries ==> InSource(diff.entries, p) && !InTarget(diff.entries, p)
    ensures Chooses(diff.refs, matched, Paths(matched))
  {
    var todo := matched;
    while todo != {}
      invariant todo <= matched
      invariant forall p :: InSource(diff.entries, p) <==> p in Paths(matched - todo)
      invariant forall p :: p in diff.entries ==> InSource(diff.entries, p) && !InTarget(diff.entries, p)
      invariant Chooses(diff.refs, matched, Paths(matched - todo))
      decreases todo
    {
      var r :| r in todo;
      PathsStep(matched, todo, r);
      diff.MarkSource(r.path);
      diff.Name(r);
      todo := todo - {r};
    }
    assert matched - todo == matched;
  }

  method MarkAllTargets(diff: Diff, ghost matched: set<Ref>, files: set<Ref>)
    requires forall p :: InSource(diff.entries, p) <==> p in Paths(matched)
    requires forall p :: p in diff.entries ==> InSource(diff.entries, p) && !InTarget(diff.entries, p)
    requires Chooses(diff.refs, matched, Paths(matched))
    modifies diff
    ensures forall p :: InSource(diff.entries, p) <==> p in Paths(matched)
    ensures forall p :: InTarget(diff.entries, p) <==> p in Paths(files)
    ensures forall p :: p in diff.entries ==> p in Paths(matched) || p in Paths(files)
    ensures Chooses(diff.refs, files, Paths(files)) && Chooses(diff.refs, matched, Paths(matched) - Paths(files))
  {
    var todo := files;
    while todo != {}
      invariant todo <= files
      invariant forall p :: InSource(diff.entries, p) <==> p in Paths(matched)
      invariant forall p :: InTarget(diff.entries, p) <==> p in Paths(files - todo)
      invariant forall p :: p in diff.entries ==> p in Paths(matched) || p in Paths(files - todo)
      invariant Chooses(diff.refs, files, Paths(files - todo))
      invariant Chooses(diff.refs, matched, Paths(matched) - Paths(files - todo))
      decreases todo
    {
      var r :| r in todo;
      PathsStep(files, todo, r);
      diff.MarkTarget(r);
      todo := todo - {r};
    }
    assert files - todo == files;
  }

  /** Compares the references a target should have with those it has.  A missing path
      is named by one of the former, any other by one of the latter. */
  method DiffTarget(t: Target, matched: set<Ref>) returns (diff: Diff)
    ensures fresh(diff)
    ensures forall p :: InSource(diff.entries, p) <==> p in Paths(matched)
    ensures forall p :: InTarget(diff.entries, p) <==> p in InPhases(t)
    ensures forall p :: p in diff.entries ==> p in Paths(matched) || p in InPhases(t)
    ensures Chooses(diff.refs, Refs(t), InPhases(t)) && Chooses(diff.refs, matched, Paths(matched) - InPhases(t))
  {
    diff := new Diff();
    MarkAllSources(diff, matched);
    MarkAllTargets(diff, matched, Refs(t));
  }

  /** A missing file is added and a stale one dropped, once. */
  function EntrySynced(t: Target, r: Ref, entry: Entry): Target {
    if entry == Entry(true, false) then AddReference(t, r)
    else if entry.inSource then t
    else RemoveReference(t, r)
  }

  function EntryChanges(r: Ref, entry: Entry): nat {
    if entry == Entry(true, true) || PhaseOf(r.path) == NoPhase then 0 else 1
  }

  /** Synchronises one file of a target. */
  method SyncTargetEntry(t: Target, r: Ref, entry: Entry) returns (after: Target, changes: nat)
    ensures after == EntrySynced(t, r, entry) && changes == EntryChanges(r, entry)
  {
    if entry.inSource && entry.inTarget {
      return t, 0;
    }
    if PhaseOf(r.path) == NoPhase {
      return t, 0;
    }
    after := if entry.inSource then AddReference(t, r) else RemoveReference(t, r);
    return after, 1;
  }

  /** How the entries of a target's diff say what to add and what to drop. */
  ghost predicate Guides(entries: Entries, refs: map<Path, Ref>, adds: set<Path>, drops: set<Path>) {
    && adds <= entries.Keys && drops <= entries.Keys && adds !! drops
    && forall p :: p in entries ==>
         && p in refs && refs[p].path == p
         && (p in adds <==> PhaseOf(p) != NoPhase && entries[p] == Entry(true, false))
         && (p in drops <==> PhaseOf(p) != NoPhase && !entries[p].inSource)
  }

  lemma SetStep(s: set<Path>, todo: set<Path>, p: Path)
    requires p in todo
    ensures p in s ==> s - (todo - {p}) == (s - todo) + {p} && |s - (todo - {p})| == |s - todo| + 1
    ensures p !in s ==> s - (todo - {p}) == s - todo
  {
    if p in s {
      assert s - (todo - {p}) == (s - todo) + {p};
    } else {
      assert s - (todo - {p}) == s - todo;
    }
  }

  /** Every path of `paths` is named by a reference to it. */
  ghost predicate NamedRight(refs: map<Path, Ref>, paths: set<Path>) {
    forall p :: p in paths ==> p in refs && refs[p].path == p
  }

  lemma PickedRight(refs: map<Path, Ref>, paths: set<Path>, r: Ref)
    requires NamedRight(refs, paths)
    ensures r in Picked(refs, paths) <==> r.path in paths && r == refs[r.path]
  {
  }

  lemma PickedStep(refs: map<Path, Ref>, s: set<Path>, todo: set<Path>, p: Path)
    requires p in todo && p in s && NamedRight(refs, s)
    ensures Picked(refs, s - (todo - {p})) == Picked(refs, s - todo) + {refs[p]}
  {
    assert s - (todo - {p}) == (s - todo) + {p};
  }

  lemma PickedApart(refs: map<Path, Ref>, adds: set<Path>, drops: set<Path>, p: Path)
    requires NamedRight(refs, adds) && NamedRight(refs, drops) && adds !! drops
    requires p !in adds && p !in drops && p in refs && refs[p].path == p
    ensures Picked(refs, adds) !! Picked(refs, drops)
    ensures refs[p] !in Picked(refs, adds) && refs[p] !in Picked(refs, drops)
  {
    forall r: Ref
      ensures r in Picked(refs, adds) <==> r.path in adds && r == refs[r.path]
      ensures r in Picked(refs, drops) <==> r.path in drops && r == refs[r.path]
    {
      PickedRight(refs, adds, r);
      PickedRight(refs, drops, r);
    }
  }

  lemma PickedMore(refs: map<Path, Ref>, adds: set<Path>, drops: set<Path>, todo: set<Path>, p: Path)
    requires NamedRight(refs, adds) && NamedRight(refs, drops) && adds !! drops && p in todo && p in adds
    ensures var a, d := Picked(refs, adds - todo), Picked(refs, drops - todo);
            && Picked(refs, adds - (todo - {p})) == a + {refs[p]} && Picked(refs, drops - (todo - {p})) == d
            && refs[p] !in a && refs[p] !in d && a !! d
  {
    SetStep(drops, todo, p);
    PickedStep(refs, adds, todo, p);
    PickedApart(refs, adds - todo, drops - todo, p);
  }

  lemma EntryAdds(t: Target, refs: map<Path, Ref>, adds: set<Path>, drops: set<Path>, todo: set<Path>, p: Path)
    requires NamedRight(refs, adds) && NamedRight(refs, drops) && adds !! drops && p in todo && p in adds
    ensures SyncedTarget(t, Picked(refs, adds - (todo - {p})), Picked(refs, drops - (todo - {p})))
         == AddReference(SyncedTarget(t, Picked(refs, adds - todo), Picked(refs, drops - todo)), refs[p])
  {
    PickedMore(refs, adds, drops, todo, p);
    SyncedAdd(t, Picked(refs, adds - todo), Picked(refs, drops - todo), refs[p]);
  }

  lemma EntryDrops(t: Target, refs: map<Path, Ref>, adds: set<Path>, drops: set<Path>, todo: set<Path>, p: Path)
    requires NamedRight(refs, adds) && NamedRight(refs, drops) && adds !! drops && p in todo && p in drops
    ensures SyncedTarget(t, Picked(refs, adds - (todo - {p})), Picked(refs, drops - (todo - {p})))
         == RemoveReference(SyncedTarget(t, Picked(refs, adds - todo), Picked(refs, drops - todo)), refs[p])
  {
    PickedMore(refs, drops, adds, todo, p);
    SyncedDrop(t, Picked(refs, adds - todo), Picked(refs, drops - todo), refs[p]);
  }

  /** The target when all entries but `todo` have been dealt with. */
  ghost function Reached(t: Target, refs: map<Path, Ref>, adds: set<Path>, drops: set<Path>, todo: set<Path>): Target {
    SyncedTarget(t, Picked(refs, adds - todo), Picked(refs, drops - todo))
  }

  lemma EntryKeeps(t: Target, refs: map<Path, Ref>, adds: set<Path>, drops: set<Path>, todo: set<Path>, p: Path)
    requires p in todo && p !in adds && p !in drops
    ensures Reached(t, refs, adds, drops, todo - {p}) == Reached(t, refs, adds, drops, todo)
  {
    SetStep(adds, todo, p);
    SetStep(drops, todo, p);
  }

  lemma EntryStep(t: Target, entries: Entries, refs: map<Path, Ref>, adds: set<Path>, drops: set<Path>,
                  todo: set<Path>, p: Path)
    requires Guides(entries, refs, adds, drops) && p in todo && p in entries
    ensures Reached(t, refs, adds, drops, todo - {p})
         == EntrySynced(Reached(t, refs, adds, drops, todo), refs[p], entries[p])
  {
    if p in adds {
      EntryAdds(t, refs, adds, drops, todo, p);
    } else if p in drops {
      EntryDrops(t, refs, adds, drops, todo, p);
    } else {
      EntryKeeps(t, refs, adds, drops, todo, p);
    }
  }

  lemma CountStep(entries: Entries, refs: map<Path, Ref>, adds: set<Path>, drops: set<Path>, todo: set<Path>, p: Path)
    requires Guides(entries, refs, adds, drops) && p in todo && p in entries
    ensures |adds - (todo - {p})| + |drops - (todo - {p})|
         == |adds - todo| + |drops - todo| + EntryChanges(refs[p], entries[p])
  {
    SetStep(adds, todo, p);
    SetStep(drops, todo, p);
  }

  lemma ReachedEnds(t: Target, refs: map<Path, Ref>, adds: set<Path>, drops: set<Path>, all: set<Path>)
    requires adds <= all && drops <= all
    ensures Reached(t, refs, adds, drops, all) == t && |adds - all| + |drops - all| == 0
    ensures Reached(t, refs, adds, drops, {}) == SyncedTarget(t, Picked(refs, adds), Picked(refs, drops))
    ensures |adds - {}| + |drops - {}| == |adds| + |drops|
  {
    assert adds - all == {} && drops - all == {} && Picked(refs, {}) == {};
    NothingSynced(t);
    assert adds - {} == adds && drops - {} == drops;
  }

  method SyncEntries(t: Target, entries: Entries, refs: map<Path, Ref>, ghost adds: set<Path>, ghost drops: set<Path>)
    returns (after: Target, changes: nat)
    requires Guides(entries, refs, adds, drops)
    ensures after == SyncedTarget(t, Picked(refs, adds), Picked(refs, drops)) && changes == |adds| + |drops|
  {
    after, changes := t, 0;
    var todo := entries.Keys;
    ReachedEnds(t, refs, adds, drops, todo);
    while todo != {}
      invariant todo <= entries.Keys
      invariant after == Reached(t, refs, adds, drops, todo)
      invariant changes == |adds - todo| + |drops - todo|
      decreases todo
    {
      var p :| p in todo;
      EntryStep(t, entries, refs, adds, drops, todo, p);
      CountStep(entries, refs, adds, drops, todo, p);
      var n;
      after, n := SyncTargetEntry(after, refs[p], entries[p]);
      changes := changes + n;
      todo := todo - {p};
    }
  }

  lemma TargetDiffGuides(t: Target, matched: set<Ref>, entries: Entries, refs: map<Path, Ref>)
    requires forall p :: InSource(entries, p) <==> p in Paths(matched)
    requires forall p :: InTarget(entries, p) <==> p in InPhases(t)
    requires forall p :: p in entries ==> p in Paths(matched) || p in InPhases(t)
    requires Chooses(refs, Refs(t), InPhases(t)) && Chooses(refs, matched, Paths(matched) - InPhases(t))
    ensures Guides(entries, refs, TargetAdds(t, Paths(matched)), TargetDrops(t, Paths(matched)))
  {
    var m := Paths(matched);
    forall p | p in m || p in InPhases(t)
      ensures p in entries
    {
      assert InSource(entries, p) || InTarget(entries, p);
    }
    forall p | p in entries
      ensures entries[p].inSource == (p in m) && entries[p].inTarget == (p in InPhases(t))
      ensures p in refs && refs[p].path == p
    {
      assert InSource(entries, p) == (p in m) && InTarget(entries, p) == (p in InPhases(t));
      assert p in InPhases(t) || p in m - InPhases(t);
    }
  }

  /** Synchronises the sources of a target with the references it should have. */
  method SyncTarget(t: Target, matched: set<Ref>) returns (after: Target, changes: nat, ghost refs: map<Path, Ref>)
    ensures changes == |TargetAdds(t, Paths(matched))| + |TargetDrops(t, Paths(matched))|
    ensures var m := Paths(matched);
            && Chooses(refs, matched, TargetAdds(t, m)) && Chooses(refs, Refs(t), TargetDrops(t, m))
            && after == SyncedTarget(t, Picked(refs, TargetAdds(t, m)), Picked(refs, TargetDrops(t, m)))
  {
    var diff := DiffTarget(t, matched);
    ghost var m := Paths(matched);
    refs := diff.refs;
    TargetDiffGuides(t, matched, diff.entries, diff.refs);
    after, changes := SyncEntries(t, diff.entries, diff.refs, TargetAdds(t, m), TargetDrops(t, m));
  }

  /** Drops the references in `gone` altogether. */
  method RemoveAll(m: multiset<Ref>, gone: set<Ref>) returns (r: multiset<Ref>)
    ensures r == Without(m, gone)
  {
    r := m;
    var todo := gone;
    while todo != {}
      invariant todo <= gone
      invariant forall p :: r[p] == if p in gone && p !in todo then 0 else m[p]
      decreases todo
    {
      var p :| p in todo;
      r := r[p := 0];
      todo := todo - {p};
    }
  }

  // ---------- steps on values ----------

  lemma NewRefsStep(toAdd: set<Path>, todo: set<Path>, p: Path, id: nat)
    requires todo <= toAdd && p in todo
    ensures NewRefs(toAdd - (todo - {p}), id) == NewRefs(toAdd - todo, id) + {Ref(p, id)}
  {
    assert toAdd - (todo - {p}) == (toAdd - todo) + {p};
  }

  lemma GroupTreesStep(trees: map<Ref, string>, refs: set<Ref>, r: Ref)
    ensures trees + GroupTrees(refs + {r}) == (trees + GroupTrees(refs))[r := GROUP_TREE]
  {
  }

  /** Lists a reference under the first root group that contains its path, in the
      subgroup that the directories between lead to. */
  method PlaceFile(groups: seq<Group>, r: Ref) returns (under: bool, more: seq<Group>)
    ensures forall others :: SameRoots(others, groups) ==> under == UnderRoot(others, r.path)
    ensures under ==> ListedWhereItBelongs(groups, r, more)
    ensures under ==> SameRoots(groups, more) && Dirs(more) == Dirs(groups) && Files(more) == Files(groups) + {r}
  {
    var i := 0;
    while i < |groups| && !Contains(groups[i], r.path)
      invariant i <= |groups|
      invariant forall k :: 0 <= k < i ==> !Contains(groups[k], r.path)
    {
      i := i + 1;
    }
    if i == |groups| {
      return false, groups;
    }
    var names := Between(groups[i], r.path);
    AddFileExact(groups[i], names, r);
    PlacedInFirstRoot(groups, i, r);
    ReplaceGroup(groups, i, AddFile(groups[i], names, r));
    return true, groups[i := AddFile(groups[i], names, r)];
  }

  /** The references managed by groups that are neither ignored nor to be removed. */
  method FindProjectFilesAfterRemoval(ig: Ignore, trees: map<Ref, string>, toRemove: set<Path>) returns (files: set<Ref>)
    ensures files == Survivors(ig, trees, toRemove)
  {
    files := {};
    var todo := trees.Keys;
    while todo != {}
      invariant todo <= trees.Keys
      invariant forall r :: r in files <==> r in trees && r !in todo && Survives(ig, trees, toRemove, r)
      decreases |todo|
    {
      var r :| r in todo;
      todo := todo - {r};
      if trees[r] != GROUP_TREE || r.path in toRemove {
        continue;
      }
      if (r.path != [] && IgnoredName(ig, r.path[|r.path| - 1])) || ig.pathname(r.path) {
        continue;
      }
      files := files + {r};
    }
  }

  /** What the entries of the groups' diff say is to be added and removed. */
  method Tally(entries: Entries, ghost source: set<Path>, ghost listed: set<Path>)
    returns (toAdd: set<Path>, toRemove: set<Path>, changes: nat)
    requires forall p :: p in source <==> InSource(entries, p)
    requires forall p :: p in listed <==> InTarget(entries, p)
    ensures toAdd == source - listed && toRemove == listed - source && changes == |toAdd| + |toRemove|
  {
    toAdd := set p | p in entries && entries[p].inSource && !entries[p].inTarget;
    toRemove := set p | p in entries && !entries[p].inSource && entries[p].inTarget;
    var changed := set p | p in entries && entries[p].inSource != entries[p].inTarget;
    changes := |changed|;
    assert changed == toAdd + toRemove && toAdd !! toRemove;
  }

  method RemoveFromTargets(targets0: seq<Target>, gone: set<Ref>) returns (targets: seq<Target>)
    ensures |targets| == |targets0|
    ensures forall i :: 0 <= i < |targets| ==> targets[i] == RemovedFrom(targets0[i], gone)
  {
    targets := [];
    for i := 0 to |targets0|
      invariant |targets| == i
      invariant forall k :: 0 <= k < i ==> targets[k] == RemovedFrom(targets0[k], gone)
    {
      var t := targets0[i];
      var sources := RemoveAll(t.sources, gone);
      var headers := RemoveAll(t.headers, gone);
      var resources := RemoveAll(t.resources, gone);
      targets := targets + [Target(t.name, sources, headers, resources)];
    }
  }

  lemma MatchedPaths(c: Config, v: View, t: Target, def: TargetDef, matched: set<Ref>)
    requires DefOf(c.defs, t.name) == Some(def)
    requires matched == set r | r in ProjectRefs(c, v) && DefMatches(def, r.path)
    ensures Paths(matched) == Matched(c, v, t) && matched <= ProjectRefs(c, v)
  {
    forall p | p in Matched(c, v, t)
      ensures p in Paths(matched)
    {
      var r :| r in ProjectRefs(c, v) && r.path == p;
      assert r in matched;
    }
  }

  ghost predicate SyncedBy(c: Config, v: View, t: Target, after: Target, refs: map<Path, Ref>) {
    (SyncsSources(c, t) ==> ChoosesFor(c, v, t, refs)) && after == MidTarget(c, v, t, refs)
  }

  /** Synchronises a target if its definition asks for it. */
  method SyncDefinedTarget(c: Config, ghost v: View, projectRefs: set<Ref>, t: Target)
    returns (after: Target, changes: nat, ghost refs: map<Path, Ref>)
    requires projectRefs == ProjectRefs(c, v)
    ensures SyncedBy(c, v, t, after, refs) && changes == TargetChanges(c, v, t)
  {
    var def := DefOf(c.defs, t.name);
    if def.Some? && def.value.syncSources {
      var matched := set r | r in projectRefs && DefMatches(def.value, r.path);
      MatchedPaths(c, v, t, def.value, matched);
      after, changes, refs := SyncTarget(t, matched);
    } else {
      after, changes, refs := t, 0, map[];
    }
  }

  /** The first `n` targets have been synchronised with the references in `chosen`. */
  ghost predicate SyncedUpTo(c: Config, v: View, targets: seq<Target>, chosen: seq<map<Path, Ref>>, n: nat) {
    && n <= |v.targets| && n <= |targets| && n <= |chosen|
    && (n > 0 ==>
          && SyncedUpTo(c, v, targets, chosen, n - 1)
          && SyncedBy(c, v, v.targets[n - 1], targets[n - 1], chosen[n - 1]))
  }

  lemma SyncedUpToLess(c: Config, v: View, targets: seq<Target>, chosen: seq<map<Path, Ref>>, n: nat)
    requires SyncedUpTo(c, v, targets, chosen, n) && n > 0
    ensures SyncedUpTo(c, v, targets, chosen, n - 1)
    ensures SyncedBy(c, v, v.targets[n - 1], targets[n - 1], chosen[n - 1])
  {
  }

  lemma {:induction false} SyncedUpToAt(c: Config, v: View, targets: seq<Target>, chosen: seq<map<Path, Ref>>, n: nat,
                                        i: nat)
    requires SyncedUpTo(c, v, targets, chosen, n) && i < n
    ensures SyncedBy(c, v, v.targets[i], targets[i], chosen[i])
  {
    SyncedUpToLess(c, v, targets, chosen, n);
    if i < n - 1 {
      SyncedUpToAt(c, v, targets, chosen, n - 1, i);
    }
  }

  lemma {:induction false} SyncedUpToLonger(c: Config, v: View, targets: seq<Target>, chosen: seq<map<Path, Ref>>,
                                            t: Target, refs: map<Path, Ref>, n: nat)
    requires SyncedUpTo(c, v, targets, chosen, n)
    ensures SyncedUpTo(c, v, targets + [t], chosen + [refs], n)
    decreases n
  {
    if n > 0 {
      SyncedUpToLonger(c, v, targets, chosen, t, refs, n - 1);
    }
  }

  method SyncTargets(c: Config, ghost v: View, projectRefs: set<Ref>, targets0: seq<Target>)
    returns (targets: seq<Target>, changes: nat, ghost chosen: seq<map<Path, Ref>>)
    requires projectRefs == ProjectRefs(c, v) && targets0 == v.targets
    ensures |targets| == |chosen| == |targets0|
    ensures SyncedUpTo(c, v, targets, chosen, |targets0|) && changes == ChangesUpTo(c, v, |targets0|)
  {
    targets, changes, chosen := [], 0, [];
    for i := 0 to |targets0|
      invariant |targets| == |chosen| == i
      invariant SyncedUpTo(c, v, targets, chosen, i) && changes == ChangesUpTo(c, v, i)
    {
      ghost var refs;
      var t, n;
      t, n, refs := SyncDefinedTarget(c, v, projectRefs, targets0[i]);
      SyncedUpToLonger(c, v, targets, chosen, t, refs, i);
      targets, changes, chosen := targets + [t], changes + n, chosen + [refs];
    }
  }

  lemma ChoiceMade(c: Config, v: View, ch: Choice, mids: seq<Target>)
    requires |mids| == |v.targets| == |ch.chosen| && SyncedUpTo(c, v, mids, ch.chosen, |v.targets|)
    requires Chooses(ch.gone, v.listed, Paths(v.listed))
    ensures IsChoice(c, v, ch)
  {
    forall i | 0 <= i < |v.targets| && SyncsSources(c, v.targets[i])
      ensures ChoosesFor(c, v, v.targets[i], ch.chosen[i])
    {
      SyncedUpToAt(c, v, mids, ch.chosen, |v.targets|, i);
    }
  }

  lemma AfterTargets(c: Config, v: View, ch: Choice, mids: seq<Target>, targets: seq<Target>)
    requires |targets| == |mids| == |v.targets| == |ch.chosen| && SyncedUpTo(c, v, mids, ch.chosen, |v.targets|)
    requires forall i :: 0 <= i < |targets| ==> targets[i] == RemovedFrom(mids[i], Gone(c, v, ch))
    ensures targets == After(c, v, ch).targets
  {
    forall i | 0 <= i < |targets|
      ensures targets[i] == After(c, v, ch).targets[i]
    {
      SyncedUpToAt(c, v, mids, ch.chosen, |v.targets|, i);
    }
  }

  /** The steps of a synchronisation, put together. */
  lemma SyncEnds(c: Config, v: View, ch: Choice, toAdd: set<Path>, toRemove: set<Path>, gone: set<Ref>,
                 mids: seq<Target>, after: View)
    requires toAdd == ToAdd(c, v) && toRemove == ToRemove(c, v) && gone == Picked(ch.gone, toRemove)
    requires |mids| == |v.targets| == |ch.chosen| && SyncedUpTo(c, v, mids, ch.chosen, |v.targets|)
    requires Chooses(ch.gone, v.listed, Paths(v.listed))
    requires after.dirs == v.dirs && after.listed == v.listed + NewRefs(toAdd, v.next) - gone
    requires after.trees == v.trees + GroupTrees(NewRefs(toAdd, v.next)) - gone
    requires |after.targets| == |mids|
    requires forall i :: 0 <= i < |mids| ==> after.targets[i] == RemovedFrom(mids[i], gone)
    requires after.next == if toAdd == {} then v.next else v.next + 1
    ensures IsChoice(c, v, ch) && after == After(c, v, ch)
  {
    ChoiceMade(c, v, ch, mids);
    AfterTargets(c, v, ch, mids, after.targets);
    ViewAfter(c, v, ch, toAdd, gone, after);
  }

  // ---------- the project ----------

  class Project {
    var groups: seq<Group>
    var trees: map<Ref, string>
    var targets: seq<Target>
    var next: nat

    ghost function Value(): View
      reads this
    {
      View(Dirs(groups), Files(groups), trees, targets, next)
    }

    /** Compares the groups with the file system; each listed path is named by the
        reference to it that is visited last. */
    method DiffGroups(c: Config, ghost v: View)
      returns (toAdd: set<Path>, toRemove: set<Path>, changes: nat, refs: map<Path, Ref>)
      requires v == Value()
      ensures toAdd == ToAdd(c, v) && toRemove == ToRemove(c, v) && changes == |toAdd| + |toRemove|
      ensures refs == Named(map[], Visits(groups)) && Chooses(refs, v.listed, Paths(v.listed))
    {
      var differ := new GroupDiffer(c.fs, c.ig);
      differ.DiffGroups(groups);
      var entries := differ.diff.entries;
      refs := differ.diff.refs;
      NamedChooses(Visits(groups));
      forall p
        ensures p in SourcePaths(c, v) <==> InSource(entries, p)
      {
        SourcePathsExact(c, v, p);
      }
      toAdd, toRemove, changes := Tally(entries, SourcePaths(c, v), Paths(v.listed));
    }

    /** Lists a new reference to every new file where it belongs under the first root
        group that contains it; stops at a file that lies under none, when `done` have
        been listed. */
    method AddToProject(toAdd: set<Path>) returns (ok: bool, ghost done: set<Path>)
      modifies this`groups, this`trees, this`next
      ensures Arranged(old(groups), groups, done, old(next), {})
      ensures ok <==> AllUnderRoot(old(groups), toAdd)
      ensures done <= toAdd && AllUnderRoot(old(groups), done) && (ok <==> done == toAdd)
      ensures Dirs(groups) == Dirs(old(groups)) && Files(groups) == Files(old(groups)) + NewRefs(done, old(next))
      ensures trees == old(trees) + GroupTrees(NewRefs(done, old(next)))
      ensures next == if done == {} then old(next) else old(next) + 1
    {
      var todo, id := toAdd, next;
      assert toAdd - todo == {} && NewRefs({}, id) == {};
      NothingArranged(groups, id);
      while todo != {}
        invariant todo <= toAdd
        invariant Arranged(old(groups), groups, toAdd - todo, id, {})
        invariant SameRoots(old(groups), groups) && Dirs(groups) == Dirs(old(groups))
        invariant AllUnderRoot(old(groups), toAdd - todo)
        invariant Files(groups) == Files(old(groups)) + NewRefs(toAdd - todo, id)
        invariant trees == old(trees) + GroupTrees(NewRefs(toAdd - todo, id))
        invariant next == if toAdd - todo == {} then id else id + 1
        decreases todo
      {
        var p :| p in todo;
        var r := Ref(p, id);
        var under, more := PlaceFile(groups, r);
        assert under == UnderRoot(old(groups), p);
        if !under {
          return false, toAdd - todo;
        }
        NewRefsStep(toAdd, todo, p, id);
        GroupTreesStep(old(trees), NewRefs(toAdd - todo, id), r);
        OneMoreListed(old(groups), groups, more, toAdd - todo, r);
        assert p in toAdd - (todo - {p}) && toAdd - (todo - {p}) == (toAdd - todo) + {p};
        groups, trees, next := more, trees[r := GROUP_TREE], id + 1;
        todo := todo - {p};
      }
      assert toAdd - todo == toAdd;
      return true, toAdd;
    }

    /** Removes references from the groups, from the project and from all targets. */
    method RemoveFromProject(gone: set<Ref>)
      modifies this`groups, this`trees, this`targets
      ensures Arranged(old(groups), groups, {}, next, gone)
      ensures Dirs(groups) == Dirs(old(groups)) && Files(groups) == Files(old(groups)) - gone
      ensures trees == old(trees) - gone
      ensures |targets| == |old(targets)|
      ensures forall i :: 0 <= i < |targets| ==> targets[i] == RemovedFrom(old(targets)[i], gone)
    {
      var todo := gone;
      NothingArranged(groups, next);
      assert gone - todo == {};
      while todo != {}
        invariant Arranged(old(groups), groups, {}, next, gone - todo)
        invariant todo <= gone && targets == old(targets) && trees == old(trees)
        invariant Dirs(groups) == Dirs(old(groups)) && Files(groups) == Files(old(groups)) - (gone - todo)
        decreases todo
      {
        var r :| r in todo;
        RemoveFileExact(groups, r);
        OneMoreRemoved(old(groups), groups, {}, next, gone - todo, r);
        assert gone - (todo - {r}) == (gone - todo) + {r};
        groups := RemoveFile(groups, r);
        todo := todo - {r};
      }
      assert gone - todo == gone;
      trees := trees - gone;
      targets := RemoveFromTargets(targets, gone);
    }

    /** Synchronises all targets with the project files that will be left. */
    method SyncAllTargets(c: Config, ghost v: View, toRemove: set<Path>)
      returns (changes: nat, ghost chosen: seq<map<Path, Ref>>)
      requires trees == TreesAdded(c, v) && toRemove == ToRemove(c, v) && targets == v.targets
      modifies this`targets
      ensures |targets| == |chosen| == |v.targets|
      ensures SyncedUpTo(c, v, targets, chosen, |v.targets|) && changes == ChangesUpTo(c, v, |v.targets|)
    {
      var files := FindProjectFilesAfterRemoval(c.ig, trees, toRemove);
      targets, changes, chosen := SyncTargets(c, v, files, targets);
    }

    /** The synchronisation of `v` from where the new files have been added. */
    method SyncAdded(c: Config, ghost v: View, ghost toAdd: set<Path>, toRemove: set<Path>, refs: map<Path, Ref>)
      returns (changes: nat, ghost ch: Choice)
      requires toAdd == ToAdd(c, v) && toRemove == ToRemove(c, v) && Chooses(refs, v.listed, Paths(v.listed))
      requires Dirs(groups) == v.dirs && Files(groups) == v.listed + NewRefs(toAdd, v.next) && targets == v.targets
      requires trees == v.trees + GroupTrees(NewRefs(toAdd, v.next))
      requires next == if toAdd == {} then v.next else v.next + 1
      modifies this`groups, this`trees, this`targets
      ensures Arranged(old(groups), groups, {}, next, Gone(c, v, ch))
      ensures IsChoice(c, v, ch) && ch.gone == refs && Value() == After(c, v, ch)
      ensures changes == ChangesUpTo(c, v, |v.targets|)
    {
      ghost var chosen;
      changes, chosen := SyncAllTargets(c, v, toRemove);
      ghost var mids := targets;
      ch := Choice(refs, chosen);
      var gone := Picked(refs, toRemove);
      RemoveFromProject(gone);
      SyncEnds(c, v, ch, toAdd, toRemove, gone, mids, Value());
    }

    /** Compares and adds: what has to be done before the targets can be synchronised. */
    method AddMissing(c: Config, ghost v: View)
      returns (ok: bool, toAdd: set<Path>, toRemove: set<Path>, changes: nat, refs: map<Path, Ref>)
      requires v == Value()
      modifies this`groups, this`trees, this`next
      ensures ok ==> Arranged(old(groups), groups, toAdd, v.next, {})
      ensures toAdd == ToAdd(c, v) && toRemove == ToRemove(c, v) && changes == |toAdd| + |toRemove|
      ensures refs == Named(map[], Visits(old(groups))) && Chooses(refs, v.listed, Paths(v.listed))
      ensures ok <==> AllUnderRoot(old(groups), toAdd)
      ensures ok ==>
                && Dirs(groups) == v.dirs && Files(groups) == v.listed + NewRefs(toAdd, v.next)
                && trees == v.trees + GroupTrees(NewRefs(toAdd, v.next))
                && next == if toAdd == {} then v.next else v.next + 1
    {
      toAdd, toRemove, changes, refs := DiffGroups(c, v);
      ghost var done;
      ok, done := AddToProject(toAdd);
    }

    method SyncFrom(c: Config, ghost v: View) returns (result: Option<nat>, ghost ch: Choice)
      requires v == Value()
      modifies this
      ensures result.Some? <==> AllUnderRoot(old(groups), ToAdd(c, v))
      ensures result.Some? ==> Arranged(old(groups), groups, ToAdd(c, v), v.next, Gone(c, v, ch))
      ensures result.Some? ==>
                && IsChoice(c, v, ch) && ch.gone == Named(map[], Visits(old(groups)))
                && Value() == After(c, v, ch) && result.value == Changes(c, v)
    {
      var ok, toAdd, toRemove, changes, refs := AddMissing(c, v);
      if !ok {
        return None, Choice(map[], []);
      }
      var more;
      ghost var mid := groups;
      more, ch := SyncAdded(c, v, toAdd, toRemove, refs);
      AddedThenRemoved(old(groups), mid, groups, toAdd, v.next, next, Gone(c, v, ch));
      return Some(changes + more), ch;
    }

    /** Synchronises the project with the file system and returns the number of
        changes, or nothing when a new file lies under no root group.  Which of several
        references to a path is removed is decided by the order of visits.  Each new file
        is listed where it belongs, and nothing else moves. */
    method Sync(c: Config) returns (result: Option<nat>, ghost ch: Choice)
      modifies this
      ensures result.Some? <==> AllUnderRoot(old(groups), ToAdd(c, old(Value())))
      ensures result.Some? ==>
                Arranged(old(groups), groups, ToAdd(c, old(Value())), old(next), Gone(c, old(Value()), ch))
      ensures result.Some? ==>
                && IsChoice(c, old(Value()), ch) && ch.gone == Named(map[], Visits(old(groups)))
                && Value() == After(c, old(Value()), ch) && result.value == Changes(c, old(Value()))
    {
      result, ch := SyncFrom(c, Value());
    }

    /** Synchronising twice: the second run never fails, and it finds nothing to do
        exactly when every removed path was listed once and every target settles. */
    method SyncTwice(c: Config) returns (first: Option<nat>, second: Option<nat>, ghost ch: Choice)
      modifies this
      ensures first.Some? ==>
                && IsChoice(c, old(Value()), ch) && second.Some?
                && (second.value == 0 <==> RemovedOnce(c, old(Value())) && AllSettle(c, old(Value()), ch))
                && (OneReference(old(Value())) ==> (second.value == 0 <==> NoSticky(c, old(Value()))))
                && (second.value == 0 ==> Value() == After(c, old(Value()), ch))
    {
      ghost var v := Value();
      ghost var again;
      first, ch := Sync(c);
      if first.None? {
        return None, None, ch;
      }
      GroupsSettled(c, v, ch);
      Converges(c, v, ch);
      if OneReference(v) {
        ConvergesOneReference(c, v, ch);
      }
      second, again := Sync(c);
      if second == Some(0) {
        NoChangesNoEffect(c, After(c, v, ch), again);
      }
    }
  }
}
