/** The dependency closure of pod_lib_lint: a depth-first search over the
    podspecs of one directory that shares one mutable set of seen podspecs. */
module LocalDeps {

  /** A spec or subspec with the names of its dependencies. */
  datatype Spec = Spec(dependencies: seq<string>)

  /** The podspec files of a directory, and the specs each file loads to. */
  datatype Directory = Directory(local: set<string>, load: string -> seq<Spec>)

  class Seen {
    var names: set<string>

    constructor (ignored: set<string>)
      ensures names == ignored
    {
      names := ignored;
    }
  }

  function Podspec(name: string): string {
    name + ".podspec"
  }

  /** The pod a dependency names: a subspec path is cut at its first slash. */
  function PodName(dependency: string): string {
    if dependency == "" || dependency[0] == '/' then "" else [dependency[0]] + PodName(dependency[1..])
  }

  lemma {:induction false} PodNameCut(name: string, rest: string)
    requires '/' !in name
    ensures PodName(name) == name && PodName(name + "/" + rest) == name
  {
    if name == "" {
      assert (name + "/" + rest)[0] == '/';
    } else {
      PodNameCut(name[1..], rest);
      assert (name + "/" + rest)[1..] == name[1..] + "/" + rest;
    }
  }

  ghost predicate DependsOn(specs: seq<Spec>, name: string) {
    exists i, j :: 0 <= i < |specs| && 0 <= j < |specs[i].dependencies| && PodName(specs[i].dependencies[j]) == name
  }

  /** `to` is a local podspec on which some spec of `from` depends. */
  ghost predicate Edge(dir: Directory, from: string, to: string) {
    to in dir.local && exists name :: DependsOn(dir.load(from), name) && to == name + ".podspec"
  }

  /** A path from `root` to `x` whose later podspecs all avoid `avoid`. */
  ghost predicate IsPath(dir: Directory, root: string, x: string, avoid: set<string>, path: seq<string>) {
    && |path| >= 2 && path[0] == root && path[|path| - 1] == x
    && (forall i :: 0 < i < |path| ==> path[i] !in avoid)
    && (forall i :: 0 < i < |path| ==> Edge(dir, path[i - 1], path[i]))
  }

  ghost predicate Reachable(dir: Directory, root: string, x: string, avoid: set<string>) {
    exists path :: IsPath(dir, root, x, avoid, path)
  }

  ghost predicate Distinct(s: seq<string>) {
    forall i, j :: 0 <= i < j < |s| ==> s[i] != s[j]
  }

  /** All local dependencies of `from` have been seen. */
  ghost predicate Expanded(dir: Directory, from: string, seen: set<string>) {
    forall to :: Edge(dir, from, to) ==> to in seen
  }

  lemma FirstEdge(dir: Directory, root: string, x: string, avoid: set<string>)
    requires Edge(dir, root, x) && x !in avoid
    ensures Reachable(dir, root, x, avoid)
  {
    assert IsPath(dir, root, x, avoid, [root, x]);
  }

  /** A path found below a dependency is a path of the podspec that has it. */
  lemma PrependEdge(dir: Directory, root: string, dep: string, x: string, avoid: set<string>, more: set<string>)
    requires Edge(dir, root, dep) && dep !in avoid && avoid <= more
    requires Reachable(dir, dep, x, more)
    ensures Reachable(dir, root, x, avoid)
  {
    var path :| IsPath(dir, dep, x, more, path);
    var longer := [root] + path;
    forall i | 0 < i < |longer|
      ensures longer[i] !in avoid && Edge(dir, longer[i - 1], longer[i])
    {
      assert longer[i] == path[i - 1];
    }
    assert IsPath(dir, root, x, avoid, longer);
  }

  /** A set of podspecs closed under dependencies holds everything reachable. */
  lemma {:induction false} ClosedHoldsPath(dir: Directory, root: string, x: string, avoid: set<string>,
                                           found: set<string>, path: seq<string>)
    requires Expanded(dir, root, avoid + found)
    requires forall w :: w in found ==> Expanded(dir, w, avoid + found)
    requires IsPath(dir, root, x, avoid, path)
    ensures x in found
    decreases |path|
  {
    var before := path[|path| - 2];
    assert Edge(dir, path[|path| - 1 - 1], path[|path| - 1]);
    if |path| > 2 {
      var shorter := path[..|path| - 1];
      assert IsPath(dir, root, before, avoid, shorter);
      ClosedHoldsPath(dir, root, before, avoid, found, shorter);
    }
  }

  /** A path can be cut where it comes back to its root for the last time. */
  lemma {:induction false} CutAtRoot(dir: Directory, root: string, x: string, avoid: set<string>, path: seq<string>)
    requires IsPath(dir, root, x, avoid, path) && x != root
    ensures Reachable(dir, root, x, avoid + {root})
    decreases |path|
  {
    if k :| 0 < k < |path| && path[k] == root {
      var shorter := path[k..];
      forall i | 0 < i < |shorter|
        ensures shorter[i] !in avoid && Edge(dir, shorter[i - 1], shorter[i])
      {
        assert Edge(dir, path[k + i - 1], path[k + i]);
      }
      CutAtRoot(dir, root, x, avoid, shorter);
    } else {
      assert IsPath(dir, root, x, avoid + {root}, path);
    }
  }

  /** Avoiding the root as well excludes nothing but the root. */
  lemma RootMayBeAvoided(dir: Directory, root: string, x: string, avoid: set<string>)
    ensures Reachable(dir, root, x, avoid + {root}) <==> x != root && Reachable(dir, root, x, avoid)
  {
    if Reachable(dir, root, x, avoid + {root}) {
      var path :| IsPath(dir, root, x, avoid + {root}, path);
      assert IsPath(dir, root, x, avoid, path);
    }
    if x != root && Reachable(dir, root, x, avoid) {
      var path :| IsPath(dir, root, x, avoid, path);
      CutAtRoot(dir, root, x, avoid, path);
    }
  }

  lemma DependsOnNext(specs: seq<Spec>, i: nat, name: string)
    requires i < |specs|
    ensures var deps := specs[i].dependencies;
            DependsOn(specs[..i + 1], name) <==>
            DependsOn(specs[..i], name) || exists k :: 0 <= k < |deps| && PodName(deps[k]) == name
  {
    var upTo, deps := specs[..i + 1], specs[i].dependencies;
    if k :| 0 <= k < |deps| && PodName(deps[k]) == name {
      assert upTo[i].dependencies[k] == deps[k];
    }
    if DependsOn(specs[..i], name) {
      var a, b :| 0 <= a < i && 0 <= b < |specs[..i][a].dependencies| && PodName(specs[..i][a].dependencies[b]) == name;
      assert upTo[a].dependencies[b] == specs[..i][a].dependencies[b];
    }
    if DependsOn(upTo, name) {
      var a, b :| 0 <= a < |upTo| && 0 <= b < |upTo[a].dependencies| && PodName(upTo[a].dependencies[b]) == name;
      if a < i {
        assert specs[..i][a].dependencies[b] == upTo[a].dependencies[b];
      }
    }
  }

  lemma DistinctInsert(a: seq<string>, x: string, b: seq<string>)
    requires Distinct(a) && Distinct(b) && x !in a && x !in b
    requires forall y :: y in b ==> y !in a
    ensures Distinct(a + [x] + b)
  {
    var all := a + [x] + b;
    forall i, j | 0 <= i < j < |all|
      ensures all[i] != all[j]
    {
      if j > |a| {
        assert all[j] == b[j - |a| - 1] && all[j] in b;
      }
      if i > |a| {
        assert all[i] == b[i - |a| - 1];
      }
    }
  }

  /** The pods a list of specs depends on, each once. */
  method AllDeps(specs: seq<Spec>) returns (result: seq<string>)
    ensures Distinct(result)
    ensures forall name :: name in result <==> DependsOn(specs, name)
  {
    result := [];
    for i := 0 to |specs|
      invariant Distinct(result)
      invariant forall name :: name in result <==> DependsOn(specs[..i], name)
    {
      var deps := specs[i].dependencies;
      for j := 0 to |deps|
        invariant Distinct(result)
        invariant forall name :: name in result <==>
                    DependsOn(specs[..i], name) || exists k :: 0 <= k < j && PodName(deps[k]) == name
      {
        var name := PodName(deps[j]);
        if name !in result {
          result := result + [name];
        }
      }
      forall name
        ensures DependsOn(specs[..i + 1], name) <==>
                DependsOn(specs[..i], name) || exists k :: 0 <= k < |deps| && PodName(deps[k]) == name
      {
        DependsOnNext(specs, i, name);
      }
    }
    assert specs[..|specs|] == specs;
  }

  /** Terminates on every dependency graph and returns, each exactly once and
      never the root, exactly the local podspecs reachable along paths that avoid
      the podspecs seen at the start. */
  method FindLocalDeps(dir: Directory, podspec: string, seen: Seen) returns (results: seq<string>)
    modifies seen
    ensures seen.names == old(seen.names) + {podspec} + set x | x in results
    ensures Distinct(results)
    ensures forall x :: x in results ==> x !in old(seen.names) + {podspec}
    ensures forall x :: x in results <==> Reachable(dir, podspec, x, old(seen.names) + {podspec})
    ensures Expanded(dir, podspec, seen.names)
    ensures forall w :: w in results ==> Expanded(dir, w, seen.names)
    decreases dir.local - seen.names
  {
    seen.names := seen.names + {podspec};
    ghost var start := seen.names;
    results := [];
    var deps := AllDeps(dir.load(podspec));
    for i := 0 to |deps|
      invariant seen.names == start + set x | x in results
      invariant Distinct(results)
      invariant forall x :: x in results ==> x !in start
      invariant forall x :: x in results ==> Reachable(dir, podspec, x, start)
      invariant forall w :: w in results ==> Expanded(dir, w, seen.names)
      invariant forall k :: 0 <= k < i && Podspec(deps[k]) in dir.local ==> Podspec(deps[k]) in seen.names
    {
      var dep := Podspec(deps[i]);
      if dep in dir.local {
        if dep !in seen.names {
          assert deps[i] in deps;
          assert Edge(dir, podspec, dep);
          ghost var before := results;
          FirstEdge(dir, podspec, dep, start);
          seen.names := seen.names + {dep};
          ghost var known := seen.names;
          var found := FindLocalDeps(dir, dep, seen);
          DistinctInsert(results, dep, found);
          results := results + [dep] + found;
          forall x | x in found
            ensures Reachable(dir, podspec, x, start)
          {
            PrependEdge(dir, podspec, dep, x, start, known + {dep});
          }
        }
      }
    }
    ghost var found := set x | x in results;
    forall x | Reachable(dir, podspec, x, start)
      ensures x in results
    {
      var path :| IsPath(dir, podspec, x, start, path);
      ClosedHoldsPath(dir, podspec, x, start, found, path);
    }
  }

  /** The local podspecs that must be included when a podspec is checked, apart from
      the ignored ones and those only they lead to. */
  method IncludedPodspecs(dir: Directory, podspec: string, ignored: set<string>) returns (results: seq<string>)
    ensures Distinct(results)
    ensures forall x :: x in results <==> x != podspec && Reachable(dir, podspec, x, ignored)
  {
    var seen := new Seen(ignored);
    results := FindLocalDeps(dir, podspec, seen);
    forall x
      ensures x in results <==> x != podspec && Reachable(dir, podspec, x, ignored)
    {
      RootMayBeAvoided(dir, podspec, x, ignored);
    }
  }
}
