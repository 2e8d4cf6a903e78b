/** The directories a project depends on by path, and what resolving one says about those it leads to. */
module DirectoryWalks {
  import opened Wrappers
  import opened Graphs
  import opened LockModel
  import opened ProjectPaths
  import opened Resolver

  /** The directory a dependency declared in `dir` leads to. */
  function ChildOf(w: World, dir: Directory, d: Dependency): Option<Directory> {
    if d.acquisition.ByPath? then Canonicalize(w.tree, dir, d.acquisition.path) else None
  }

  predicate DependsAt(w: World, a: Directory, k: nat, b: Directory) {
    && ReadManifest(w, Local(a)).Some?
    && k < |ReadManifest(w, Local(a)).value.dependencies|
    && ChildOf(w, a, ReadManifest(w, Local(a)).value.dependencies[k]) == Some(b)
  }

  /** The directories with a manifest, and those each depends on by path. */
  function DirectoryGraph(w: World): Graph<Directory> {
    map a | a in w.manifests ::
      set b | b in w.manifests && exists k :: 0 <= k < |w.manifests[a].dependencies| && DependsAt(w, a, k, b)
  }

  lemma EdgeDependsAt(w: World, a: Directory, b: Directory) returns (k: nat)
    requires Edge(DirectoryGraph(w), a, b)
    ensures DependsAt(w, a, k, b) && a in w.manifests && b in w.manifests
    ensures ReadManifest(w, Local(a)) == Some(w.manifests[a])
  {
    k :| 0 <= k < |w.manifests[a].dependencies| && DependsAt(w, a, k, b);
  }

  lemma DependencyReached(w: World, from: Directory, a: Directory, k: nat, b: Directory)
    requires Reaches(DirectoryGraph(w), from, a) && DependsAt(w, a, k, b) && b in w.manifests
    ensures Edge(DirectoryGraph(w), a, b) && Reaches(DirectoryGraph(w), from, b)
  {
    assert k < |w.manifests[a].dependencies|;
    ReachesExtend(DirectoryGraph(w), from, a, b);
  }

  // ----- What a resolved directory leads to resolves -----

  ghost predicate Resolves(w: World, project: Directory, dir: Directory, source: LockedSource, stack: set<Name>,
                           r: Resolution)
  {
    ReadManifest(w, Local(dir)).Some? && Resolve(w, project, dir, source, stack) == Ok(r)
  }

  lemma {:induction false} DependencyOk(w: World, project: Directory, dir: Directory, stack: set<Name>, m: Manifest,
                                        k: nat, g: Gathered, i: nat)
    requires ReadManifest(w, Local(dir)) == Some(m) && k <= i < |m.dependencies|
    requires ResolveDependencies(w, project, dir, stack, k, g).Ok?
    ensures ResolveChild(w, project, dir, stack, m.dependencies[i]).Ok?
    decreases i - k
  {
    if k < i {
      var child := ResolveChild(w, project, dir, stack, m.dependencies[k]).value;
      var next := Gather(m, m.dependencies[k], g, child.0, child.1).value;
      DependencyOk(w, project, dir, stack, m, k + 1, next, i);
    }
  }

  /** When a directory resolves, so does each directory it depends on, below it on the stack. */
  lemma EdgeOk(w: World, project: Directory, a: Directory, b: Directory, source: LockedSource, stack: set<Name>,
               r: Resolution)
    returns (child: Resolution)
    requires Edge(DirectoryGraph(w), a, b) && Resolves(w, project, a, source, stack, r)
    ensures Resolves(w, project, b, SourceOf(b, project), stack + {w.manifests[a].name}, child)
  {
    var k := EdgeDependsAt(w, a, b);
    var m := w.manifests[a];
    DependencyOk(w, project, a, stack + {m.name}, m, 0, Gathered(map[], [], []), k);
    child := Resolve(w, project, b, SourceOf(b, project), stack + {m.name}).value;
  }

  /** The same along a walk: the stack grows by the names that are passed. */
  lemma {:induction false} PathOk(w: World, project: Directory, path: seq<Directory>, source: LockedSource,
                                  stack: set<Name>, r: Resolution)
    returns (below: LockedSource, deeper: set<Name>, last: Resolution)
    requires IsPath(DirectoryGraph(w), path) && Resolves(w, project, path[0], source, stack, r)
    ensures stack <= deeper && Resolves(w, project, path[|path| - 1], below, deeper, last)
    decreases |path|
  {
    if |path| == 1 {
      below, deeper, last := source, stack, r;
    } else {
      assert Edge(DirectoryGraph(w), path[0], path[1]);
      var child := EdgeOk(w, project, path[0], path[1], source, stack, r);
      PathTail(DirectoryGraph(w), path);
      below, deeper, last := PathOk(w, project, path[1..], SourceOf(path[1], project),
                                    stack + {w.manifests[path[0]].name}, child);
    }
  }

  // ----- Walks that meet a name twice -----

  /** Two directories on one walk from the project carry the same name; on a directory cycle they are the same. */
  ghost predicate Repeats(w: World, project: Directory) {
    exists a, b, c :: RepeatsAt(w, project, a, b, c)
  }

  ghost predicate RepeatsAt(w: World, project: Directory, a: Directory, b: Directory, c: Directory) {
    && Reaches(DirectoryGraph(w), project, a) && Edge(DirectoryGraph(w), a, b) && Reaches(DirectoryGraph(w), b, c)
    && a in w.manifests && c in w.manifests && w.manifests[a].name == w.manifests[c].name
  }

  /** In every world, a project with such a walk does not resolve. */
  lemma RepeatedNameNeverResolves(w: World, project: Directory)
    requires ReadManifest(w, Local(project)).Some? && Repeats(w, project)
    ensures ResolveLock(w, project).Err?
  {
    var g := DirectoryGraph(w);
    var a, b, c :| RepeatsAt(w, project, a, b, c);
    if ResolveLock(w, project).Ok? {
      var r := Resolve(w, project, project, PathSource(["."]), {}).value;
      var there :| Connects(g, there, project, a);
      var source, stack, last := PathOk(w, project, there, PathSource(["."]), {}, r);
      last := EdgeOk(w, project, a, b, source, stack, last);
      var back :| Connects(g, back, b, c);
      var _, deeper, _ := PathOk(w, project, back, SourceOf(b, project), stack + {w.manifests[a].name}, last);
      assert w.manifests[a].name in deeper;
    }
  }
}
