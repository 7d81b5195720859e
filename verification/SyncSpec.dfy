/** What a synchronisation does to a project, and when a second one finds nothing
    left to do. */
module SyncSpec {
  import opened Text
  import opened GroupDiff

  datatype Phase = Sources | Resources | NoPhase

  /** A native target with the references in its three interesting build phases. */
  datatype Target = Target(name: string, sources: multiset<Ref>, headers: multiset<Ref>, resources: multiset<Ref>)

  /** A target definition: its name, whether its sources are synchronised, and its patterns. */
  datatype TargetDef = TargetDef(name: string, syncSources: bool, sourceFiles: Path -> bool, excludeFiles: Path -> bool)

  /** A project: the directories and references of its groups, the source tree of
      each file reference, its targets, and the identity of the next reference. */
  datatype View = View(dirs: set<Path>, listed: set<Ref>, trees: map<Ref, string>, targets: seq<Target>, next: nat)

  datatype Config = Config(fs: FileSystem, ig: Ignore, defs: seq<TargetDef>)

  const GROUP_TREE := "<group>"
  const HEADERS := {".h"}
  const SOURCES := {".c", ".cc", ".m", ".mm", ".swift"}

  // ---------- phases ----------

  predicate AllDots(s: string) {
    forall i :: 0 <= i < |s| ==> s[i] == '.'
  }

  /** The last dot of a name and what follows it; dots it starts with do not count. */
  function ExtName(name: string): string {
    if name == "" then ""
    else
      var init, last := name[..|name| - 1], name[|name| - 1];
      if last == '.' then (if AllDots(init) then "" else ".")
      else if ExtName(init) == "" then "" else ExtName(init) + [last]
  }

  function PhaseOfExt(ext: string): Phase {
    if ext in SOURCES then Sources else if ext in HEADERS then NoPhase else Resources
  }

  function PhaseOf(p: Path): Phase {
    PhaseOfExt(if p == [] then "" else ExtName(p[|p| - 1]))
  }

  lemma {:induction false} ExtensionRead(dots: string, stem: string, ext: string)
    requires AllDots(dots) && stem != "" && stem[0] != '.' && '.' !in ext
    ensures ExtName(dots + stem + "." + ext) == "." + ext
  {
    var name := dots + stem + "." + ext;
    if ext == "" {
      var init := name[..|name| - 1];
      assert init == dots + stem && init[|dots|] != '.' && name[|name| - 1] == '.';
    } else {
      var init, last := ext[..|ext| - 1], ext[|ext| - 1];
      ExtensionRead(dots, stem, init);
      assert name[..|name| - 1] == dots + stem + "." + init && name[|name| - 1] == last;
      assert "." + ext == "." + init + [last];
    }
  }

  lemma {:induction false} NoExtension(dots: string, stem: string)
    requires AllDots(dots) && '.' !in stem
    ensures ExtName(dots + stem) == ""
  {
    var name := dots + stem;
    if stem != "" {
      NoExtension(dots, stem[..|stem| - 1]);
      assert name[..|name| - 1] == dots + stem[..|stem| - 1] && name[|name| - 1] == stem[|stem| - 1];
    } else if dots != "" {
      assert name == dots;
    }
  }

  lemma SameAfterDot(a: string, b: string)
    ensures "." + a == "." + b <==> a == b
  {
    assert ("." + a)[1..] == a && ("." + b)[1..] == b;
  }

  lemma PhaseAfterDot(ext: string)
    ensures PhaseOfExt("." + ext)
         == if ext == "c" || ext == "cc" || ext == "m" || ext == "mm" || ext == "swift" then Sources
            else if ext == "h" then NoPhase
            else Resources
  {
    SameAfterDot(ext, "c");
    SameAfterDot(ext, "cc");
    SameAfterDot(ext, "m");
    SameAfterDot(ext, "mm");
    SameAfterDot(ext, "swift");
    SameAfterDot(ext, "h");
    assert "." + "c" == ".c" && "." + "cc" == ".cc" && "." + "m" == ".m" && "." + "mm" == ".mm";
    assert "." + "swift" == ".swift" && "." + "h" == ".h";
  }

  /** The extension selects the phase: headers are in none, and everything that is
      neither a header nor a source is a resource, with an extension or without. */
  lemma PhaseByExtension(dir: Path, dots: string, stem: string, ext: string)
    requires AllDots(dots) && stem != "" && stem[0] != '.' && '.' !in ext
    ensures PhaseOf(dir + [dots + stem + "." + ext])
         == if ext == "c" || ext == "cc" || ext == "m" || ext == "mm" || ext == "swift" then Sources
            else if ext == "h" then NoPhase
            else Resources
    ensures '.' !in stem ==> PhaseOf(dir + [dots + stem]) == Resources
  {
    ExtensionRead(dots, stem, ext);
    PhaseAfterDot(ext);
    if '.' !in stem {
      NoExtension(dots, stem);
      assert PhaseOfExt("") == Resources;
    }
  }

  // ---------- the groups ----------

  ghost function EntryPaths(fs: FileSystem): set<Path> {
    set d, i | d in fs.dirs && 0 <= i < |fs.dirs[d]| :: d + [fs.dirs[d][i]]
  }

  /** The paths found on the file system. */
  ghost function SourcePaths(c: Config, v: View): set<Path> {
    (set p | p in EntryPaths(c.fs) && Walked(c.fs, c.ig, v.dirs, p)) + Paths(v.listed) * c.fs.files
  }

  lemma SourcePathsExact(c: Config, v: View, p: Path)
    ensures p in SourcePaths(c, v) <==> Walked(c.fs, c.ig, v.dirs, p) || p in Paths(v.listed) * c.fs.files
  {
    if Walked(c.fs, c.ig, v.dirs, p) {
      var d := p[..|p| - 1];
      var i :| 0 <= i < |c.fs.dirs[d]| && c.fs.dirs[d][i] == p[|d|];
      assert p == d + [c.fs.dirs[d][i]];
    }
  }

  ghost function ToAdd(c: Config, v: View): set<Path> {
    SourcePaths(c, v) - Paths(v.listed)
  }

  ghost function ToRemove(c: Config, v: View): set<Path> {
    Paths(v.listed) - SourcePaths(c, v)
  }

  /** The new references to some paths. */
  function NewRefs(paths: set<Path>, id: nat): set<Ref> {
    set p | p in paths :: Ref(p, id)
  }

  function GroupTrees(refs: set<Ref>): map<Ref, string> {
    map r | r in refs :: GROUP_TREE
  }

  ghost function TreesAdded(c: Config, v: View): map<Ref, string> {
    v.trees + GroupTrees(NewRefs(ToAdd(c, v), v.next))
  }

  // ---------- the targets ----------

  predicate Ignored(ig: Ignore, p: Path) {
    || (p != [] && (p[|p| - 1] == "." || p[|p| - 1] == ".." || ig.basename(p[|p| - 1])))
    || ig.pathname(p)
  }

  predicate Survives(ig: Ignore, trees: map<Ref, string>, toRemove: set<Path>, r: Ref)
    requires r in trees
  {
    trees[r] == GROUP_TREE && r.path !in toRemove && !Ignored(ig, r.path)
  }

  function Survivors(ig: Ignore, trees: map<Ref, string>, toRemove: set<Path>): set<Ref> {
    set r | r in trees && Survives(ig, trees, toRemove, r)
  }

  /** The references managed by groups whose paths are not to be removed. */
  ghost function ProjectRefs(c: Config, v: View): set<Ref> {
    Survivors(c.ig, TreesAdded(c, v), ToRemove(c, v))
  }

  ghost function ProjectFiles(c: Config, v: View): set<Path> {
    Paths(ProjectRefs(c, v))
  }

  /** The first definition with the given name. */
  function DefOf(defs: seq<TargetDef>, name: string): Option<TargetDef> {
    if defs == [] then None else if defs[0].name == name then Some(defs[0]) else DefOf(defs[1..], name)
  }

  lemma {:induction false} DefOfIsFirst(defs: seq<TargetDef>, name: string, i: nat)
    requires i <= |defs| && forall k :: 0 <= k < i ==> defs[k].name != name
    ensures i == |defs| ==> DefOf(defs, name) == None
    ensures i < |defs| && defs[i].name == name ==> DefOf(defs, name) == Some(defs[i])
    decreases i
  {
    if i > 0 {
      DefOfIsFirst(defs[1..], name, i - 1);
    }
  }

  predicate SyncsSources(c: Config, t: Target) {
    var def := DefOf(c.defs, t.name);
    def.Some? && def.value.syncSources
  }

  predicate DefMatches(def: TargetDef, p: Path) {
    def.sourceFiles(p) && !def.excludeFiles(p)
  }

  /** The target's patterns match the path. */
  predicate Wants(c: Config, t: Target, p: Path) {
    var def := DefOf(c.defs, t.name);
    def.Some? && def.value.sourceFiles(p) && !def.value.excludeFiles(p)
  }

  /** The surviving project files the target's patterns match. */
  ghost function Matched(c: Config, v: View, t: Target): set<Path> {
    set p | p in ProjectFiles(c, v) && Wants(c, t, p)
  }

  function Refs(t: Target): set<Ref> {
    set r | r in t.sources + t.headers + t.resources
  }

  function InPhases(t: Target): set<Path> {
    Paths(Refs(t))
  }

  /** How often a reference is in the target, and in the phase its extension selects. */
  function Times(t: Target, r: Ref): nat {
    t.sources[r] + t.headers[r] + t.resources[r]
  }

  function TimesInPhase(t: Target, r: Ref): nat {
    match PhaseOf(r.path)
    case Sources => t.sources[r]
    case Resources => t.resources[r]
    case NoPhase => 0
  }

  ghost function TargetAdds(t: Target, matched: set<Path>): set<Path> {
    set p | p in matched && p !in InPhases(t) && PhaseOf(p) != NoPhase
  }

  ghost function TargetDrops(t: Target, matched: set<Path>): set<Path> {
    set p | p in InPhases(t) && p !in matched && PhaseOf(p) != NoPhase
  }

  ghost function OfPhase(refs: set<Ref>, phase: Phase): set<Ref> {
    set r | r in refs && PhaseOf(r.path) == phase
  }

  /** `n` references after one is perhaps added or perhaps dropped. */
  function Recount(n: nat, added: bool, dropped: bool): nat {
    if added then n + 1 else if dropped && n > 0 then n - 1 else n
  }

  /** Each of some references added once and each of some others dropped once, in the
      phase that the extension selects. */
  ghost function SyncedTarget(t: Target, adds: set<Ref>, drops: set<Ref>): Target {
    t.(sources := t.sources + multiset(OfPhase(adds, Sources)) - multiset(OfPhase(drops, Sources)),
       resources := t.resources + multiset(OfPhase(adds, Resources)) - multiset(OfPhase(drops, Resources)))
  }

  /** `m` without the elements of `gone`. */
  ghost function Without(m: multiset<Ref>, gone: set<Ref>): (r: multiset<Ref>)
    ensures forall p :: r[p] == if p in gone then 0 else m[p]
  {
    if gone == {} then m
    else
      var p :| p in gone;
      Without(m[p := 0], gone - {p})
  }

  ghost function RemovedFrom(t: Target, gone: set<Ref>): Target {
    Target(t.name, Without(t.sources, gone), Without(t.headers, gone), Without(t.resources, gone))
  }

  // ---------- which reference is meant ----------

  /** Several references may name one path.  Which of them an entry of a comparison
      refers to depends on the order of visits: `gone` names those that are removed,
      `chosen[i]` those that are added to or dropped from target `i`. */
  datatype Choice = Choice(gone: map<Path, Ref>, chosen: seq<map<Path, Ref>>)

  function Picked(refs: map<Path, Ref>, paths: set<Path>): set<Ref> {
    set p | p in paths && p in refs :: refs[p]
  }

  /** A missing file is named by a surviving project reference, a stale one by a
      reference of the target. */
  ghost predicate ChoosesFor(c: Config, v: View, t: Target, refs: map<Path, Ref>) {
    var m := Matched(c, v, t);
    Chooses(refs, ProjectRefs(c, v), TargetAdds(t, m)) && Chooses(refs, Refs(t), TargetDrops(t, m))
  }

  ghost predicate IsChoice(c: Config, v: View, ch: Choice) {
    && Chooses(ch.gone, v.listed, ToRemove(c, v))
    && |ch.chosen| == |v.targets|
    && forall i :: 0 <= i < |v.targets| && SyncsSources(c, v.targets[i]) ==>
         ChoosesFor(c, v, v.targets[i], ch.chosen[i])
  }

  /** The references that are removed from the project. */
  ghost function Gone(c: Config, v: View, ch: Choice): set<Ref> {
    Picked(ch.gone, ToRemove(c, v))
  }

  // ---------- a synchronisation ----------

  /** A target given the files `m` it should have, when `gone` leave the project. */
  ghost function Settled(t: Target, m: set<Path>, refs: map<Path, Ref>, gone: set<Ref>): Target {
    RemovedFrom(SyncedTarget(t, Picked(refs, TargetAdds(t, m)), Picked(refs, TargetDrops(t, m))), gone)
  }

  /** A target after its sources have been synchronised. */
  ghost function MidTarget(c: Config, v: View, t: Target, refs: map<Path, Ref>): Target {
    var m := Matched(c, v, t);
    if SyncsSources(c, t) then SyncedTarget(t, Picked(refs, TargetAdds(t, m)), Picked(refs, TargetDrops(t, m))) else t
  }

  ghost function AfterTarget(c: Config, v: View, t: Target, refs: map<Path, Ref>, gone: set<Ref>): Target {
    RemovedFrom(MidTarget(c, v, t, refs), gone)
  }

  ghost function After(c: Config, v: View, ch: Choice): View
    requires |ch.chosen| == |v.targets|
  {
    var gone := Gone(c, v, ch);
    View(v.dirs,
         v.listed + NewRefs(ToAdd(c, v), v.next) - gone,
         TreesAdded(c, v) - gone,
         seq(|v.targets|, i requires 0 <= i < |v.targets| => AfterTarget(c, v, v.targets[i], ch.chosen[i], gone)),
         if ToAdd(c, v) == {} then v.next else v.next + 1)
  }

  ghost function TargetChanges(c: Config, v: View, t: Target): nat {
    var m := Matched(c, v, t);
    if SyncsSources(c, t) then |TargetAdds(t, m)| + |TargetDrops(t, m)| else 0
  }

  ghost function Sum(f: nat -> nat, n: nat): nat {
    if n == 0 then 0 else Sum(f, n - 1) + f(n - 1)
  }

  /** The changes that each target needs. */
  ghost function Counter(c: Config, v: View): nat -> nat {
    (i: nat) => if i < |v.targets| then TargetChanges(c, v, v.targets[i]) else 0
  }

  ghost function ChangesUpTo(c: Config, v: View, n: nat): nat {
    Sum(Counter(c, v), n)
  }

  /** The number of changes a synchronisation reports. */
  ghost function Changes(c: Config, v: View): nat {
    |ToAdd(c, v)| + |ToRemove(c, v)| + ChangesUpTo(c, v, |v.targets|)
  }

  // ---------- the groups settle ----------

  /** Some listed reference to `p` is not the one that is removed. */
  ghost predicate ListedTwice(v: View, p: Path) {
    exists r, s :: r in v.listed && s in v.listed && r.path == s.path == p && r != s
  }

  lemma GonePath(c: Config, v: View, ch: Choice, r: Ref)
    requires Chooses(ch.gone, v.listed, ToRemove(c, v))
    ensures r in Gone(c, v, ch) <==> r.path in ToRemove(c, v) && r == ch.gone[r.path]
  {
  }

  /** After a synchronisation a path is listed if it is on the file system, or was to
      be removed and had another reference. */
  lemma ListedAfter(c: Config, v: View, ch: Choice, p: Path)
    requires Chooses(ch.gone, v.listed, ToRemove(c, v)) && |ch.chosen| == |v.targets|
    ensures p in Paths(After(c, v, ch).listed) <==>
            p in SourcePaths(c, v) || (p in ToRemove(c, v) && ListedTwice(v, p))
  {
    var listed := After(c, v, ch).listed;
    if p in SourcePaths(c, v) {
      var r: Ref;
      if p in ToAdd(c, v) {
        r := Ref(p, v.next);
      } else {
        r :| r in v.listed && r.path == p;
      }
      GonePath(c, v, ch, r);
      assert r in listed;
    }
    if p in ToRemove(c, v) && ListedTwice(v, p) {
      var r, s :| r in v.listed && s in v.listed && r.path == s.path == p && r != s;
      var other := if r == ch.gone[p] then s else r;
      GonePath(c, v, ch, other);
      assert other in listed;
    }
    if p in Paths(listed) && p !in SourcePaths(c, v) {
      var r :| r in listed && r.path == p;
      assert r in v.listed;
      assert p in ToRemove(c, v);
      GonePath(c, v, ch, r);
      assert ch.gone[p] in v.listed && ch.gone[p] != r;
    }
  }

  /** The second synchronisation has nothing to add, and to remove exactly what was to
      be removed and is listed more than once. */
  lemma GroupsSettled(c: Config, v: View, ch: Choice)
    requires Chooses(ch.gone, v.listed, ToRemove(c, v)) && |ch.chosen| == |v.targets|
    ensures SourcePaths(c, After(c, v, ch)) == SourcePaths(c, v)
    ensures ToAdd(c, After(c, v, ch)) == {}
    ensures forall p :: p in ToRemove(c, After(c, v, ch)) <==> p in ToRemove(c, v) && ListedTwice(v, p)
  {
    var v1 := After(c, v, ch);
    forall p
      ensures p in SourcePaths(c, v1) <==> p in SourcePaths(c, v)
      ensures p in Paths(v1.listed) <==> p in SourcePaths(c, v) || (p in ToRemove(c, v) && ListedTwice(v, p))
    {
      SourcePathsExact(c, v, p);
      SourcePathsExact(c, v1, p);
      ListedAfter(c, v, ch, p);
    }
  }

  // ---------- the targets settle ----------

  /** A reference managed by groups is left of a path that was to be removed. */
  ghost predicate LeftIn(ig: Ignore, trees: map<Ref, string>, toRemove: set<Path>, gone: set<Ref>, p: Path) {
    && p in toRemove && !Ignored(ig, p)
    && exists r :: r in trees && r !in gone && r.path == p && trees[r] == GROUP_TREE
  }

  ghost predicate LeftOver(c: Config, v: View, gone: set<Ref>, p: Path) {
    LeftIn(c.ig, TreesAdded(c, v), ToRemove(c, v), gone, p)
  }

  lemma SurvivorsSettled(ig: Ignore, trees: map<Ref, string>, toRemove: set<Path>, gone: set<Ref>, p: Path)
    requires Paths(gone) <= toRemove
    ensures p in Paths(Survivors(ig, trees - gone, {})) <==>
            p in Paths(Survivors(ig, trees, toRemove)) || LeftIn(ig, trees, toRemove, gone, p)
  {
    var before, after := Survivors(ig, trees, toRemove), Survivors(ig, trees - gone, {});
    if r :| r in before && r.path == p {
      assert r in gone ==> p in Paths(gone);
      assert r in after;
    }
    if LeftIn(ig, trees, toRemove, gone, p) {
      var r :| r in trees && r !in gone && r.path == p && trees[r] == GROUP_TREE;
      assert r in after;
    }
    if r :| r in after && r.path == p {
      assert r in before || p in toRemove;
    }
  }

  lemma TreesSettled(c: Config, v: View, ch: Choice)
    requires IsChoice(c, v, ch)
    ensures TreesAdded(c, After(c, v, ch)) == TreesAdded(c, v) - Gone(c, v, ch)
  {
    GroupsSettled(c, v, ch);
  }

  lemma GonePaths(c: Config, v: View, ch: Choice)
    requires Chooses(ch.gone, v.listed, ToRemove(c, v))
    ensures Paths(Gone(c, v, ch)) == ToRemove(c, v)
  {
    forall p | p in ToRemove(c, v)
      ensures p in Paths(Gone(c, v, ch))
    {
      assert ch.gone[p] in Gone(c, v, ch);
    }
  }

  /** The same project files are offered to the targets again, and those left over. */
  lemma ProjectFilesSettled(c: Config, v: View, ch: Choice, p: Path)
    requires IsChoice(c, v, ch) && ToRemove(c, After(c, v, ch)) == {}
    ensures p in ProjectFiles(c, After(c, v, ch)) <==> p in ProjectFiles(c, v) || LeftOver(c, v, Gone(c, v, ch), p)
  {
    TreesSettled(c, v, ch);
    GonePaths(c, v, ch);
    SurvivorsSettled(c.ig, TreesAdded(c, v), ToRemove(c, v), Gone(c, v, ch), p);
  }

  /** The project has a file reference that a group manages. */
  predicate InGroups(v: View, r: Ref) {
    r in v.trees && v.trees[r] == "<group>"
  }

  /** The references offered to the targets, before anything is removed, are those the
      groups manage in the project as the synchronisation leaves it, but for ignored
      paths and other references to removed ones. */
  lemma ProjectRefsAfter(c: Config, v: View, ch: Choice, r: Ref)
    requires IsChoice(c, v, ch)
    ensures r in ProjectRefs(c, v) <==>
            InGroups(After(c, v, ch), r) && !Ignored(c.ig, r.path) && r.path !in ToRemove(c, v)
  {
    GonePath(c, v, ch, r);
  }

  /** A reference to `p` stays in the target: one that is neither removed from the
      project nor dropped, or that dropping once does not drop. */
  ghost predicate Stays(t: Target, p: Path, refs: map<Path, Ref>, gone: set<Ref>) {
    exists r :: r in Refs(t) && r.path == p && r !in gone
                && (p in refs && r == refs[p] ==> Times(t, r) > 1 || TimesInPhase(t, r) == 0)
  }

  lemma SyncedCounts(t: Target, adds: set<Ref>, drops: set<Ref>, r: Ref)
    requires adds !! drops
    ensures var u, phase := SyncedTarget(t, adds, drops), PhaseOf(r.path);
            && u.headers == t.headers
            && u.sources[r] == Recount(t.sources[r], phase == Sources && r in adds, phase == Sources && r in drops)
            && u.resources[r] == Recount(t.resources[r], phase == Resources && r in adds, phase == Resources && r in drops)
  {
    assert multiset(OfPhase(adds, Sources))[r] == if r in OfPhase(adds, Sources) then 1 else 0;
    assert multiset(OfPhase(drops, Sources))[r] == if r in OfPhase(drops, Sources) then 1 else 0;
    assert multiset(OfPhase(adds, Resources))[r] == if r in OfPhase(adds, Resources) then 1 else 0;
    assert multiset(OfPhase(drops, Resources))[r] == if r in OfPhase(drops, Resources) then 1 else 0;
  }

  lemma SettledTimes(t: Target, adds: set<Ref>, drops: set<Ref>, gone: set<Ref>, r: Ref)
    requires adds !! drops && PhaseOf(r.path) != NoPhase
    ensures var u := RemovedFrom(SyncedTarget(t, adds, drops), gone);
            r in Refs(u) <==>
            r !in gone
            && (r in adds || (if r in drops then Times(t, r) > 1 || (Times(t, r) == 1 && TimesInPhase(t, r) == 0)
                              else r in Refs(t)))
  {
    var u := RemovedFrom(SyncedTarget(t, adds, drops), gone);
    SyncedCounts(t, adds, drops, r);
    assert r in Refs(t) <==> Times(t, r) > 0;
    assert r in Refs(u) <==> Times(u, r) > 0;
  }

  lemma PickedPath(refs: map<Path, Ref>, from: set<Ref>, paths: set<Path>, r: Ref)
    requires Chooses(refs, from, paths)
    ensures r in Picked(refs, paths) <==> r.path in paths && r == refs[r.path]
  {
  }

  lemma SettledRef(t: Target, m: set<Path>, refs: map<Path, Ref>, from: set<Ref>, gone: set<Ref>, r: Ref)
    requires Chooses(refs, from, TargetAdds(t, m)) && Chooses(refs, Refs(t), TargetDrops(t, m))
    requires PhaseOf(r.path) != NoPhase
    ensures r in Refs(Settled(t, m, refs, gone)) <==>
            r !in gone
            && if r.path in TargetAdds(t, m) && r == refs[r.path] then true
               else if r.path in TargetDrops(t, m) && r == refs[r.path]
               then Times(t, r) > 1 || TimesInPhase(t, r) == 0
               else r in Refs(t)
  {
    var adds, drops := Picked(refs, TargetAdds(t, m)), Picked(refs, TargetDrops(t, m));
    forall s: Ref
      ensures !(s in adds && s in drops)
    {
      PickedPath(refs, from, TargetAdds(t, m), s);
      PickedPath(refs, Refs(t), TargetDrops(t, m), s);
    }
    PickedPath(refs, from, TargetAdds(t, m), r);
    PickedPath(refs, Refs(t), TargetDrops(t, m), r);
    SettledTimes(t, adds, drops, gone, r);
    assert r in drops ==> Times(t, r) > 0;
  }

  lemma SettledHoldsMatched(t: Target, m: set<Path>, refs: map<Path, Ref>, from: set<Ref>, gone: set<Ref>, p: Path)
    requires Chooses(refs, from, TargetAdds(t, m)) && Chooses(refs, Refs(t), TargetDrops(t, m))
    requires Paths(gone) !! m && PhaseOf(p) != NoPhase && p in m
    ensures p in InPhases(Settled(t, m, refs, gone))
  {
    var r: Ref;
    if p in InPhases(t) {
      r :| r in Refs(t) && r.path == p;
    } else {
      r := refs[p];
    }
    assert r in gone ==> p in Paths(gone);
    SettledRef(t, m, refs, from, gone, r);
  }

  lemma StayingRef(t: Target, m: set<Path>, refs: map<Path, Ref>, from: set<Ref>, gone: set<Ref>, r: Ref)
    requires Chooses(refs, from, TargetAdds(t, m)) && Chooses(refs, Refs(t), TargetDrops(t, m))
    requires PhaseOf(r.path) != NoPhase && r.path !in m
    ensures r in Refs(Settled(t, m, refs, gone)) <==>
            r in Refs(t) && r !in gone
            && (r.path in refs && r == refs[r.path] ==> Times(t, r) > 1 || TimesInPhase(t, r) == 0)
  {
    SettledRef(t, m, refs, from, gone, r);
    assert r in Refs(t) ==> r.path in InPhases(t);
  }

  /** A target holds what it should, and what stays although it should not. */
  lemma SettledHolds(t: Target, m: set<Path>, refs: map<Path, Ref>, from: set<Ref>, gone: set<Ref>, p: Path)
    requires Chooses(refs, from, TargetAdds(t, m)) && Chooses(refs, Refs(t), TargetDrops(t, m))
    requires Paths(gone) !! m && PhaseOf(p) != NoPhase
    ensures p in InPhases(Settled(t, m, refs, gone)) <==> p in m || Stays(t, p, refs, gone)
  {
    if p in m {
      SettledHoldsMatched(t, m, refs, from, gone, p);
    } else {
      forall r: Ref | r.path == p
        ensures r in Refs(Settled(t, m, refs, gone)) <==>
                r in Refs(t) && r !in gone
                && (r.path in refs && r == refs[r.path] ==> Times(t, r) > 1 || TimesInPhase(t, r) == 0)
      {
        StayingRef(t, m, refs, from, gone, r);
      }
    }
  }

  // ---------- convergence ----------

  /** A file that the target should not have now stays in it if and only if it is left
      over and wanted by the next synchronisation. */
  ghost predicate SettlesAt(c: Config, v: View, t: Target, refs: map<Path, Ref>, gone: set<Ref>, p: Path) {
    p !in Matched(c, v, t) ==> (Stays(t, p, refs, gone) <==> LeftOver(c, v, gone, p) && Wants(c, t, p))
  }

  ghost predicate Settles(c: Config, v: View, t: Target, refs: map<Path, Ref>, gone: set<Ref>) {
    forall p :: PhaseOf(p) != NoPhase ==> SettlesAt(c, v, t, refs, gone, p)
  }

  /** The target holds the file if and only if it should. */
  ghost predicate Agrees(t: Target, m: set<Path>, p: Path) {
    p in InPhases(t) <==> p in m
  }

  lemma NoChangeIffSame(t: Target, m: set<Path>)
    ensures |TargetAdds(t, m)| + |TargetDrops(t, m)| == 0 <==>
            forall p :: PhaseOf(p) != NoPhase ==> Agrees(t, m, p)
  {
    var adds, drops := TargetAdds(t, m), TargetDrops(t, m);
    if adds == {} && drops == {} {
      forall p | PhaseOf(p) != NoPhase
        ensures Agrees(t, m, p)
      {
        assert p !in adds && p !in drops;
      }
    }
    if forall p :: PhaseOf(p) != NoPhase ==> Agrees(t, m, p) {
      assert forall p :: p in adds || p in drops ==> !Agrees(t, m, p);
    }
  }

  lemma MatchedSettled(c: Config, v: View, ch: Choice, t: Target, u: Target, p: Path)
    requires IsChoice(c, v, ch) && ToRemove(c, After(c, v, ch)) == {} && u.name == t.name
    ensures p in Matched(c, After(c, v, ch), u) <==>
            p in Matched(c, v, t) || (LeftOver(c, v, Gone(c, v, ch), p) && Wants(c, t, p))
  {
    ProjectFilesSettled(c, v, ch, p);
  }

  lemma MatchedNotGone(c: Config, v: View, t: Target, gone: set<Ref>)
    requires Paths(gone) == ToRemove(c, v)
    ensures Paths(gone) !! Matched(c, v, t)
  {
    forall p | p in Matched(c, v, t)
      ensures p !in ToRemove(c, v)
    {
      var r :| r in ProjectRefs(c, v) && r.path == p;
    }
  }

  lemma SettledAt(c: Config, v: View, ch: Choice, i: nat, p: Path)
    requires IsChoice(c, v, ch) && i < |v.targets| && SyncsSources(c, v.targets[i]) && PhaseOf(p) != NoPhase
    ensures p in InPhases(After(c, v, ch).targets[i]) <==>
            p in Matched(c, v, v.targets[i]) || Stays(v.targets[i], p, ch.chosen[i], Gone(c, v, ch))
  {
    var t, refs, gone := v.targets[i], ch.chosen[i], Gone(c, v, ch);
    GonePaths(c, v, ch);
    MatchedNotGone(c, v, t, gone);
    assert ChoosesFor(c, v, t, refs);
    SettledHolds(t, Matched(c, v, t), refs, ProjectRefs(c, v), gone, p);
  }

  lemma SettledMatches(c: Config, v: View, ch: Choice, i: nat, p: Path)
    requires IsChoice(c, v, ch) && ToRemove(c, After(c, v, ch)) == {} && i < |v.targets|
    requires SyncsSources(c, v.targets[i]) && PhaseOf(p) != NoPhase
    ensures var u := After(c, v, ch).targets[i];
            Agrees(u, Matched(c, After(c, v, ch), u), p) <==>
            SettlesAt(c, v, v.targets[i], ch.chosen[i], Gone(c, v, ch), p)
  {
    SettledAt(c, v, ch, i, p);
    MatchedSettled(c, v, ch, v.targets[i], After(c, v, ch).targets[i], p);
  }

  lemma SettlesIffMatches(c: Config, v: View, ch: Choice, i: nat)
    requires IsChoice(c, v, ch) && ToRemove(c, After(c, v, ch)) == {} && i < |v.targets|
    requires SyncsSources(c, v.targets[i])
    ensures var u := After(c, v, ch).targets[i];
            Settles(c, v, v.targets[i], ch.chosen[i], Gone(c, v, ch)) <==>
            forall p :: PhaseOf(p) != NoPhase ==> Agrees(u, Matched(c, After(c, v, ch), u), p)
  {
    var u := After(c, v, ch).targets[i];
    var m1 := Matched(c, After(c, v, ch), u);
    forall p | PhaseOf(p) != NoPhase
      ensures Agrees(u, m1, p) <==> SettlesAt(c, v, v.targets[i], ch.chosen[i], Gone(c, v, ch), p)
    {
      SettledMatches(c, v, ch, i, p);
    }
  }

  /** A synchronised target needs no further change if and only if it settles. */
  lemma TargetSettled(c: Config, v: View, ch: Choice, i: nat, u: Target)
    requires IsChoice(c, v, ch) && ToRemove(c, After(c, v, ch)) == {} && i < |v.targets|
    requires SyncsSources(c, v.targets[i]) && u == After(c, v, ch).targets[i]
    ensures TargetChanges(c, After(c, v, ch), u) == 0 <==>
            Settles(c, v, v.targets[i], ch.chosen[i], Gone(c, v, ch))
  {
    SettlesIffMatches(c, v, ch, i);
    NoChangeIffSame(u, Matched(c, After(c, v, ch), u));
    assert SyncsSources(c, u);
  }

  ghost predicate Unchanged(c: Config, v: View, t: Target) {
    TargetChanges(c, v, t) == 0
  }

  lemma {:induction false} NoSum(f: nat -> nat, n: nat)
    ensures Sum(f, n) == 0 <==> forall i: nat :: i < n ==> f(i) == 0
  {
    if n > 0 {
      NoSum(f, n - 1);
    }
  }

  lemma NoChangesUpTo(c: Config, v: View)
    ensures ChangesUpTo(c, v, |v.targets|) == 0 <==> forall i :: 0 <= i < |v.targets| ==> Unchanged(c, v, v.targets[i])
  {
    var f := Counter(c, v);
    NoSum(f, |v.targets|);
    forall i: nat | i < |v.targets|
      ensures f(i) == 0 <==> Unchanged(c, v, v.targets[i])
    {
    }
  }

  ghost predicate AllSettle(c: Config, v: View, ch: Choice)
    requires |ch.chosen| == |v.targets|
  {
    forall i :: 0 <= i < |v.targets| && SyncsSources(c, v.targets[i]) ==>
      Settles(c, v, v.targets[i], ch.chosen[i], Gone(c, v, ch))
  }

  lemma OneTargetSettled(c: Config, v: View, ch: Choice, i: nat)
    requires IsChoice(c, v, ch) && ToRemove(c, After(c, v, ch)) == {} && i < |v.targets|
    ensures Unchanged(c, After(c, v, ch), After(c, v, ch).targets[i]) <==>
            (SyncsSources(c, v.targets[i]) ==> Settles(c, v, v.targets[i], ch.chosen[i], Gone(c, v, ch)))
  {
    if SyncsSources(c, v.targets[i]) {
      TargetSettled(c, v, ch, i, After(c, v, ch).targets[i]);
    }
  }

  lemma CountsSettled(c: Config, v: View, ch: Choice)
    requires IsChoice(c, v, ch) && ToRemove(c, After(c, v, ch)) == {}
    ensures ChangesUpTo(c, After(c, v, ch), |v.targets|) == 0 <==> AllSettle(c, v, ch)
  {
    var v1 := After(c, v, ch);
    NoChangesUpTo(c, v1);
    forall i | 0 <= i < |v.targets|
      ensures Unchanged(c, v1, v1.targets[i]) <==>
              (SyncsSources(c, v.targets[i]) ==> Settles(c, v, v.targets[i], ch.chosen[i], Gone(c, v, ch)))
    {
      OneTargetSettled(c, v, ch, i);
    }
  }

  /** Every path that is to be removed has one reference in the groups. */
  ghost predicate RemovedOnce(c: Config, v: View) {
    forall p :: p in ToRemove(c, v) ==> !ListedTwice(v, p)
  }

  /** A second synchronisation reports no change if and only if every removed path
      was listed once and every synchronised target settles. */
  lemma Converges(c: Config, v: View, ch: Choice)
    requires IsChoice(c, v, ch)
    ensures Changes(c, After(c, v, ch)) == 0 <==> RemovedOnce(c, v) && AllSettle(c, v, ch)
  {
    var again := ToRemove(c, After(c, v, ch));
    GroupsSettled(c, v, ch);
    if RemovedOnce(c, v) {
      assert again == {};
      CountsSettled(c, v, ch);
    } else {
      var p :| p in ToRemove(c, v) && ListedTwice(v, p);
      assert p in again;
    }
  }

  // ---------- one reference for each path ----------

  ghost predicate IsRef(v: View, r: Ref) {
    r in v.listed || r in v.trees || exists i :: 0 <= i < |v.targets| && r in Refs(v.targets[i])
  }

  ghost predicate OneReference(v: View) {
    forall r, s :: IsRef(v, r) && IsRef(v, s) && r.path == s.path ==> r == s
  }

  /** Dropping the reference once from the phase its extension selects does not make
      it go away. */
  predicate Sticky(t: Target, r: Ref) {
    Times(t, r) != 1 || TimesInPhase(t, r) == 0
  }

  /** Every stale file of a synchronised target is in the target once, in the phase
      its extension selects, or is removed from the whole project. */
  ghost predicate NoStickyIn(c: Config, v: View, t: Target) {
    forall r :: r in Refs(t) && r.path in TargetDrops(t, Matched(c, v, t)) && r.path !in ToRemove(c, v) ==> !Sticky(t, r)
  }

  ghost predicate NoSticky(c: Config, v: View) {
    forall i :: 0 <= i < |v.targets| && SyncsSources(c, v.targets[i]) ==> NoStickyIn(c, v, v.targets[i])
  }

  lemma NothingLeftOver(c: Config, v: View, ch: Choice, p: Path)
    requires IsChoice(c, v, ch) && OneReference(v)
    ensures !LeftOver(c, v, Gone(c, v, ch), p)
  {
    forall r | r in TreesAdded(c, v) && r.path == p && p in ToRemove(c, v)
      ensures r in Gone(c, v, ch)
    {
      GonePath(c, v, ch, r);
      assert IsRef(v, ch.gone[p]);
      assert r in v.trees && IsRef(v, r);
    }
  }

  lemma StaysIffSticky(c: Config, v: View, ch: Choice, i: nat, r: Ref)
    requires IsChoice(c, v, ch) && OneReference(v) && i < |v.targets| && SyncsSources(c, v.targets[i])
    requires r in Refs(v.targets[i]) && r.path in TargetDrops(v.targets[i], Matched(c, v, v.targets[i]))
    ensures Stays(v.targets[i], r.path, ch.chosen[i], Gone(c, v, ch)) <==>
            r.path !in ToRemove(c, v) && Sticky(v.targets[i], r)
  {
    var t, refs, gone := v.targets[i], ch.chosen[i], Gone(c, v, ch);
    assert ChoosesFor(c, v, t, refs);
    forall s: Ref | s in Refs(t) && s.path == r.path
      ensures s == r
    {
      assert IsRef(v, s) && IsRef(v, r);
    }
    GonePath(c, v, ch, r);
    assert IsRef(v, r);
    assert r.path in ToRemove(c, v) ==> IsRef(v, ch.gone[r.path]);
    assert r in Refs(t) <==> Times(t, r) > 0;
  }

  lemma SettlesIffNoSticky(c: Config, v: View, ch: Choice, i: nat)
    requires IsChoice(c, v, ch) && OneReference(v) && i < |v.targets| && SyncsSources(c, v.targets[i])
    ensures Settles(c, v, v.targets[i], ch.chosen[i], Gone(c, v, ch)) <==> NoStickyIn(c, v, v.targets[i])
  {
    var t, refs, gone, m := v.targets[i], ch.chosen[i], Gone(c, v, ch), Matched(c, v, v.targets[i]);
    forall p
      ensures SettlesAt(c, v, t, refs, gone, p) <==> p in m || !Stays(t, p, refs, gone)
    {
      NothingLeftOver(c, v, ch, p);
    }
    forall r | r in Refs(t) && r.path in TargetDrops(t, m)
      ensures SettlesAt(c, v, t, refs, gone, r.path) <==> r.path in ToRemove(c, v) || !Sticky(t, r)
    {
      StaysIffSticky(c, v, ch, i, r);
    }
    forall p | PhaseOf(p) != NoPhase && !SettlesAt(c, v, t, refs, gone, p)
      ensures exists r :: r in Refs(t) && r.path == p && p in TargetDrops(t, m)
    {
      var r :| r in Refs(t) && r.path == p;
    }
  }

  /** With one reference for each path, a second synchronisation reports no change if
      and only if no stale file sticks in a target: two references, or one in the
      wrong phase. */
  lemma ConvergesOneReference(c: Config, v: View, ch: Choice)
    requires IsChoice(c, v, ch) && OneReference(v)
    ensures Changes(c, After(c, v, ch)) == 0 <==> NoSticky(c, v)
  {
    Converges(c, v, ch);
    assert RemovedOnce(c, v) by {
      forall r, s | r in v.listed && s in v.listed && r.path == s.path
        ensures r == s
      {
        assert IsRef(v, r) && IsRef(v, s);
      }
    }
    forall i | 0 <= i < |v.targets| && SyncsSources(c, v.targets[i])
      ensures Settles(c, v, v.targets[i], ch.chosen[i], Gone(c, v, ch)) <==> NoStickyIn(c, v, v.targets[i])
    {
      SettlesIffNoSticky(c, v, ch, i);
    }
  }

  // ---------- what else follows ----------

  lemma WithoutNothing(t: Target)
    ensures RemovedFrom(t, {}) == t
  {
    assert Without(t.sources, {}) == t.sources && Without(t.headers, {}) == t.headers
           && Without(t.resources, {}) == t.resources;
  }

  lemma NothingSynced(t: Target)
    ensures SyncedTarget(t, {}, {}) == t
  {
    assert OfPhase({}, Sources) == {} && OfPhase({}, Resources) == {};
  }

  lemma UnchangedTarget(c: Config, v: View, t: Target, refs: map<Path, Ref>)
    requires TargetChanges(c, v, t) == 0
    ensures AfterTarget(c, v, t, refs, {}) == t
  {
    WithoutNothing(t);
    if SyncsSources(c, t) {
      var m := Matched(c, v, t);
      var adds, drops := TargetAdds(t, m), TargetDrops(t, m);
      assert adds == {} && drops == {};
      assert Picked(refs, {}) == {};
      NothingSynced(t);
    }
  }

  lemma UnchangedTargets(c: Config, v: View, ch: Choice)
    requires |ch.chosen| == |v.targets| && Gone(c, v, ch) == {} && ChangesUpTo(c, v, |v.targets|) == 0
    ensures After(c, v, ch).targets == v.targets
  {
    NoChangesUpTo(c, v);
    forall i | 0 <= i < |v.targets|
      ensures After(c, v, ch).targets[i] == v.targets[i]
    {
      assert Unchanged(c, v, v.targets[i]);
      UnchangedTarget(c, v, v.targets[i], ch.chosen[i]);
    }
  }

  lemma ViewAfter(c: Config, v: View, ch: Choice, toAdd: set<Path>, gone: set<Ref>, after: View)
    requires |ch.chosen| == |v.targets| && toAdd == ToAdd(c, v) && gone == Gone(c, v, ch)
    requires after.dirs == v.dirs && after.listed == v.listed + NewRefs(toAdd, v.next) - gone
    requires after.trees == v.trees + GroupTrees(NewRefs(toAdd, v.next)) - gone
    requires after.targets == After(c, v, ch).targets && after.next == if toAdd == {} then v.next else v.next + 1
    ensures after == After(c, v, ch)
  {
  }

  lemma NothingAdded(v: View)
    ensures v.listed + NewRefs({}, v.next) - {} == v.listed
    ensures v.trees + GroupTrees(NewRefs({}, v.next)) - {} == v.trees
  {
  }

  /** A synchronisation that reports no change makes none. */
  lemma NoChangesNoEffect(c: Config, v: View, ch: Choice)
    requires |ch.chosen| == |v.targets| && Changes(c, v) == 0
    ensures After(c, v, ch) == v
  {
    var toAdd, toRemove, gone := ToAdd(c, v), ToRemove(c, v), Gone(c, v, ch);
    assert toAdd == {} && toRemove == {};
    assert gone == {};
    UnchangedTargets(c, v, ch);
    NothingAdded(v);
    ViewAfter(c, v, ch, toAdd, gone, v);
  }

  /** When the second synchronisation finds nothing to do, what a synchronised target
      holds besides headers is exactly what its patterns match of the project files. */
  lemma TargetsMatchPatterns(c: Config, v: View, ch: Choice, i: nat, p: Path)
    requires IsChoice(c, v, ch) && Changes(c, After(c, v, ch)) == 0
    requires i < |v.targets| && SyncsSources(c, v.targets[i]) && PhaseOf(p) != NoPhase
    ensures var u := After(c, v, ch).targets[i];
            p in InPhases(u) <==> p in Matched(c, After(c, v, ch), u)
  {
    var u := After(c, v, ch).targets[i];
    Converges(c, v, ch);
    GroupsSettled(c, v, ch);
    assert ToRemove(c, After(c, v, ch)) == {};
    SettlesIffMatches(c, v, ch, i);
    assert Agrees(u, Matched(c, After(c, v, ch), u), p);
  }

  /** Every reference is older than the next one. */
  ghost predicate Fresh(v: View) {
    forall r :: IsRef(v, r) ==> r.id < v.next
  }

  lemma AddedRef(c: Config, v: View, r: Ref)
    requires Fresh(v) && (r in v.listed + NewRefs(ToAdd(c, v), v.next) || r in TreesAdded(c, v))
    ensures r.id < if ToAdd(c, v) == {} then v.next else v.next + 1
  {
    if r in v.listed || r in v.trees {
      assert IsRef(v, r);
    } else {
      assert r in NewRefs(ToAdd(c, v), v.next);
    }
  }

  lemma SyncedRef(t: Target, adds: set<Ref>, drops: set<Ref>, gone: set<Ref>, r: Ref)
    requires r in Refs(RemovedFrom(SyncedTarget(t, adds, drops), gone))
    ensures r in Refs(t) || r in adds
  {
    var u := RemovedFrom(SyncedTarget(t, adds, drops), gone);
    assert Times(u, r) > 0;
    if r !in Refs(t) {
      assert Times(t, r) == 0;
      assert r in OfPhase(adds, Sources) || r in OfPhase(adds, Resources);
    }
  }

  lemma TargetRef(c: Config, v: View, ch: Choice, i: nat, r: Ref)
    requires IsChoice(c, v, ch) && i < |v.targets| && r in Refs(After(c, v, ch).targets[i])
    ensures r in Refs(v.targets[i]) || r in TreesAdded(c, v)
  {
    var t, refs, m, gone := v.targets[i], ch.chosen[i], Matched(c, v, v.targets[i]), Gone(c, v, ch);
    if SyncsSources(c, t) {
      assert ChoosesFor(c, v, t, refs);
      SyncedRef(t, Picked(refs, TargetAdds(t, m)), Picked(refs, TargetDrops(t, m)), gone, r);
      PickedPath(refs, ProjectRefs(c, v), TargetAdds(t, m), r);
    } else {
      NothingSynced(t);
      SyncedRef(t, {}, {}, gone, r);
    }
  }

  /** A synchronisation keeps references apart. */
  lemma FreshKept(c: Config, v: View, ch: Choice)
    requires IsChoice(c, v, ch) && Fresh(v)
    ensures Fresh(After(c, v, ch))
  {
    var v1 := After(c, v, ch);
    forall r | IsRef(v1, r)
      ensures r.id < v1.next
    {
      if r in v1.listed || r in v1.trees {
        AddedRef(c, v, r);
      } else {
        var i :| 0 <= i < |v1.targets| && r in Refs(v1.targets[i]);
        TargetRef(c, v, ch, i, r);
        if r in Refs(v.targets[i]) {
          assert IsRef(v, r);
        } else {
          AddedRef(c, v, r);
        }
      }
    }
  }

  // ---------- projects that do not settle ----------

  function EmptyDisk(defs: seq<TargetDef>): Config {
    Config(FileSystem(map[], {}), Ignore(_ => false, _ => false), defs)
  }

  /** Two references to one missing file: only one of them is removed, and the other
      is reported by the next synchronisation. */
  lemma DoubleReferenceStays(p: Path, ch: Choice)
    requires IsChoice(EmptyDisk([]), View({}, {Ref(p, 0), Ref(p, 1)}, map[], [], 2), ch)
    ensures var c, v := EmptyDisk([]), View({}, {Ref(p, 0), Ref(p, 1)}, map[], [], 2);
            p in ToRemove(c, After(c, v, ch)) && Changes(c, After(c, v, ch)) != 0
  {
    var c, v := EmptyDisk([]), View({}, {Ref(p, 0), Ref(p, 1)}, map[], [], 2);
    assert Ref(p, 0) in v.listed && Ref(p, 1) in v.listed;
    SourcePathsExact(c, v, p);
    assert p in ToRemove(c, v) && ListedTwice(v, p);
    GroupsSettled(c, v, ch);
    Converges(c, v, ch);
  }

  lemma SourceName()
    ensures PhaseOf(["a.cc"]) == Sources
  {
    PhaseByExtension([], "", "a", "cc");
    assert "" + "a" + "." + "cc" == "a.cc" && [] + ["a.cc"] == ["a.cc"];
  }

  /** A source file that sits in the resources phase is reported for ever. */
  lemma MisplacedFileSticks(ch: Choice, c: Config, v: View)
    requires c == EmptyDisk([TargetDef("Tests", true, _ => false, _ => false)])
    requires v == View({}, {}, map[], [Target("Tests", multiset{}, multiset{}, multiset{Ref(["a.cc"], 0)})], 1)
    requires IsChoice(c, v, ch)
    ensures Changes(c, After(c, v, ch)) != 0
  {
    var t, r, p := v.targets[0], Ref(["a.cc"], 0), ["a.cc"];
    SourceName();
    assert SyncsSources(c, t);
    assert r in Refs(t) && p in InPhases(t);
    assert p !in Matched(c, v, t);
    assert p in TargetDrops(t, Matched(c, v, t)) && p !in ToRemove(c, v) && Sticky(t, r);
    assert !NoStickyIn(c, v, v.targets[0]);
    assert OneReference(v);
    ConvergesOneReference(c, v, ch);
  }
}
