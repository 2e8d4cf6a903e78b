/**
 The converse of agreement: a lock that verifies is the one that resolution writes, as long as
 it spells its paths and picks its releases the way resolution would.
 */
module ResolverConverse {
  import opened Wrappers
  import opened StringOrder
  import opened Graphs
  import opened LockModel
  import opened ProjectPaths
  import opened Resolver
  import opened VerifierSteps
  import opened ResolverSoundness
  import opened DirectoryWalks
  import opened ResolverAgreement
  import opened RecordedPaths

  /** Local packages other than the project are recorded by the path that resolution records. */
  predicate PathsCanonical(w: World, project: Directory, lock: Lock) {
    forall p :: p in lock.packages && p.name != lock.root && p.source.PathSource? ==>
      PathCanonical(w, project, p.source.path)
  }

  predicate PathCanonical(w: World, project: Directory, path: RelativePath) {
    var d := Canonicalize(w.tree, project, path);
    d.Some? ==> path == Recorded(d.value, project)
  }

  /** A registry dependency would be resolved again to a release that the lock holds with its closure. */
  ghost predicate ReleaseCurrent(w: World, m: Manifest, d: Dependency, lock: Lock) {
    d.acquisition.ByVersion? ==>
      var r := ResolveRelease(w, m, d.package, d.acquisition.requirement, d.acquisition.registry);
      r.Ok? && Within(r.value.1.packages, lock.packages)
  }

  ghost predicate ReleasesCurrent(w: World, project: Directory, lock: Lock) {
    forall dir, k :: Reaches(DirectoryGraph(w), project, dir) && dir in w.manifests
                     && 0 <= k < |w.manifests[dir].dependencies| ==>
      ReleaseCurrent(w, w.manifests[dir], w.manifests[dir].dependencies[k], lock)
  }

  /** The lock is what resolution would choose again. */
  ghost predicate Current(w: World, project: Directory, lock: Lock) {
    PathsCanonical(w, project, lock) && ReleasesCurrent(w, project, lock)
  }

  /** Two parts of one sorted collection never conflict. */
  lemma PartsAreCompatible(a: seq<LockedPackage>, b: seq<LockedPackage>, whole: seq<LockedPackage>)
    requires Sorted(whole) && Within(a, whole) && Within(b, whole)
    ensures Compatible(a, b)
  {
    SortedIsCompatible(whole);
  }

  /** A package never lies in the closure of its own dependency. */
  lemma NoWayBack(lock: Lock, parent: Name, closure: seq<LockedPackage>, child: Name)
    requires Sorted(lock.packages) && Acyclic(DependencyGraph(lock.packages))
    requires Edge(DependencyGraph(lock.packages), parent, child)
    requires Within(closure, lock.packages)
    requires forall n :: n in Names(closure) ==> Reaches(DependencyGraph(closure), child, n)
    ensures parent !in Names(closure)
  {
    WithinGraph(closure, lock.packages);
    forall n | n in Names(closure)
      ensures n != parent
    {
      ReachesMonotone(DependencyGraph(closure), DependencyGraph(lock.packages), child, n);
      WalkEndsElsewhere(DependencyGraph(lock.packages), parent, child, n);
    }
  }

  /** The first `k` edges are those the manifest declares, in its order. */
  predicate InDeclaredOrder(exact: seq<LockedDependency>, m: Manifest, k: nat) {
    |exact| == k <= |m.dependencies| && forall i :: 0 <= i < k ==> exact[i].name == m.dependencies[i].package
  }

  lemma {:induction false} ExactNamesDependencies(w: World, project: Directory, root: PackageRoot, m: Manifest,
                                                  lock: Lock, stack: set<Name>, k: nat, v: Verified, final: Verified)
    requires ReadManifest(w, root) == Some(m) && InDeclaredOrder(v.exact, m, k)
    requires CompileDependencies(w, project, root, lock, stack, k, v) == Ok(final)
    ensures InDeclaredOrder(final.exact, m, |m.dependencies|)
    decreases |m.dependencies| - k
  {
    if k < |m.dependencies| {
      var next := VerifiedStep(w, project, root, m, lock, stack, k, v);
      ExactNamesDependencies(w, project, root, m, lock, stack, k + 1, next, final);
    }
  }

  lemma VerifiedStep(w: World, project: Directory, root: PackageRoot, m: Manifest, lock: Lock, stack: set<Name>, k: nat,
                     v: Verified)
    returns (next: Verified)
    requires ReadManifest(w, root) == Some(m) && k < |m.dependencies| && InDeclaredOrder(v.exact, m, k)
    requires CompileDependencies(w, project, root, lock, stack, k, v).Ok?
    ensures CompileDependencies(w, project, root, lock, stack, k, v) ==
              CompileDependencies(w, project, root, lock, stack, k + 1, next)
    ensures InDeclaredOrder(next.exact, m, k + 1)
  {
    var found := Find(lock.packages, m.dependencies[k].package).value;
    var child := LockedRoot(w, project, root, m, m.dependencies[k], found).value;
    var graph := CompileLocked(w, project, child, lock, stack).value;
    next := Verified(v.supplied[m.dependencies[k].alias := graph], v.exact + [EdgeTo(found)]);
  }

  /** The edge from a verified package to each of its declared dependencies is in the lock. */
  lemma LockHasEdges(w: World, project: Directory, root: PackageRoot, lock: Lock, stack: set<Name>)
    requires ReadManifest(w, root).Some? && CompileLocked(w, project, root, lock, stack).Ok?
    ensures var m := ReadManifest(w, root).value;
            forall i :: 0 <= i < |m.dependencies| ==>
              Edge(DependencyGraph(lock.packages), m.name, m.dependencies[i].package)
  {
    var m := ReadManifest(w, root).value;
    var start := Verified(map[], []);
    var v := CompileDependencies(w, project, root, lock, stack + {m.name}, 0, start).value;
    ExactNamesDependencies(w, project, root, m, lock, stack + {m.name}, 0, start, v);
    var locked := Find(lock.packages, m.name).value;
    assert locked.dependencies == SortDependencies(v.exact);
    forall i | 0 <= i < |m.dependencies|
      ensures Edge(DependencyGraph(lock.packages), m.name, m.dependencies[i].package)
    {
      SortKeepsMember(v.exact, v.exact[i]);
    }
  }

  lemma {:induction false} SortKeepsMember(dependencies: seq<LockedDependency>, d: LockedDependency)
    requires d in dependencies
    ensures d in SortDependencies(dependencies)
  {
    assert dependencies == [dependencies[0]] + dependencies[1..];
    InsertDependencyContains(SortDependencies(dependencies[1..]), dependencies[0]);
    if d != dependencies[0] {
      SortKeepsMember(dependencies[1..], d);
    }
  }

  lemma {:induction false} InsertDependencyContains(sorted: seq<LockedDependency>, d: LockedDependency)
    ensures d in InsertDependency(sorted, d) && forall e :: e in sorted ==> e in InsertDependency(sorted, d)
  {
    if sorted != [] && !Less(d.name, sorted[0].name) {
      InsertDependencyContains(sorted[1..], d);
      assert sorted == [sorted[0]] + sorted[1..];
    }
  }

  /** Verification located dependency `d` and compiled it to `graph`. */
  predicate ChildAccepted(w: World, project: Directory, dir: Directory, m: Manifest, d: Dependency, lock: Lock,
                          stack: set<Name>, found: LockedPackage, at: PackageRoot, graph: PackageGraph)
  {
    && Locate(w, project, Local(dir), m, lock, d) == Ok((found, at))
    && CompileLocked(w, project, at, lock, stack) == Ok(graph)
  }

  /** A verified dependency was accepted, and the loop went on with its graph. */
  lemma AcceptedStep(w: World, project: Directory, dir: Directory, lock: Lock, stack: set<Name>, m: Manifest, k: nat,
                     v: Verified, final: Verified)
    returns (found: LockedPackage, at: PackageRoot, graph: PackageGraph)
    requires ReadManifest(w, Local(dir)) == Some(m) && k < |m.dependencies|
    requires CompileDependencies(w, project, Local(dir), lock, stack, k, v) == Ok(final)
    ensures ChildAccepted(w, project, dir, m, m.dependencies[k], lock, stack, found, at, graph)
    ensures CompileDependencies(w, project, Local(dir), lock, stack, k + 1,
                                Verified(v.supplied[m.dependencies[k].alias := graph], v.exact + [EdgeTo(found)])) ==
                                  Ok(final)
  {
    var located := Locate(w, project, Local(dir), m, lock, m.dependencies[k]).value;
    found, at := located.0, located.1;
    graph := CompileLocked(w, project, at, lock, stack).value;
  }

  // ----- The stack holds ancestors, which no closure below them contains -----

  ghost predicate Ancestors(lock: Lock, stack: set<Name>, name: Name) {
    forall n :: n in stack ==> Reaches(DependencyGraph(lock.packages), n, name)
  }

  lemma AncestorsAt(lock: Lock, stack: set<Name>, name: Name)
    requires Ancestors(lock, stack, name)
    ensures Ancestors(lock, stack + {name}, name)
  {
    ReachesSelf(DependencyGraph(lock.packages), name);
  }

  lemma AncestorsBelow(lock: Lock, stack: set<Name>, name: Name, child: Name)
    requires Ancestors(lock, stack, name) && Edge(DependencyGraph(lock.packages), name, child)
    ensures Ancestors(lock, stack, child)
  {
    forall n | n in stack
      ensures Reaches(DependencyGraph(lock.packages), n, child)
    {
      ReachesExtend(DependencyGraph(lock.packages), n, name, child);
    }
  }

  lemma AncestorsAreApart(lock: Lock, stack: set<Name>, name: Name, child: Name, closure: seq<LockedPackage>)
    requires Sorted(lock.packages) && Acyclic(DependencyGraph(lock.packages)) && Within(closure, lock.packages)
    requires Ancestors(lock, stack, name) && Edge(DependencyGraph(lock.packages), name, child)
    requires forall n :: n in Names(closure) ==> Reaches(DependencyGraph(closure), child, n)
    ensures stack !! Names(closure)
  {
    var g := DependencyGraph(lock.packages);
    WithinGraph(closure, lock.packages);
    forall n | n in Names(closure)
      ensures n !in stack
    {
      ReachesMonotone(DependencyGraph(closure), g, child, n);
      if n in stack {
        WalkRoundTrip(g, name, child, n);
      }
    }
  }

  lemma WalkRoundTrip(g: Graph<Name>, a: Name, b: Name, c: Name)
    requires Acyclic(g) && Edge(g, a, b) && Reaches(g, b, c)
    ensures !Reaches(g, c, a)
  {
    if Reaches(g, c, a) {
      var there :| Connects(g, there, b, c);
      var back :| Connects(g, back, c, a);
      ReachesJoin(g, b, c, a);
      WalkEndsElsewhere(g, a, b, a);
    }
  }

  // ----- Verified dependencies resolve -----

  /** What is fixed while a verified lock is resolved again. */
  ghost predicate Setting(w: World, project: Directory, lock: Lock) {
    Lawful(w) && ValidLock(lock) && Current(w, project, lock)
  }

  /** One verified dependency is resolved to the same graph, from the lock's own entries. */
  lemma {:induction false} ChildResolves(w: World, project: Directory, dir: Directory, m: Manifest, k: nat, lock: Lock,
                                         stack: set<Name>, found: LockedPackage, at: PackageRoot, graph: PackageGraph)
    returns (child: Resolution)
    requires Setting(w, project, lock) && lock.root in stack && Ancestors(lock, stack, m.name)
    requires dir in w.tree.directories && Reaches(DirectoryGraph(w), project, dir)
    requires ReadManifest(w, Local(dir)) == Some(m) && k < |m.dependencies| && DependsOnAll(lock, m)
    requires ChildAccepted(w, project, dir, m, m.dependencies[k], lock, stack, found, at, graph)
    ensures ResolveChild(w, project, dir, stack, m.dependencies[k]) == Ok((found.version, child))
    ensures child.graph == graph && Sound(child, m.dependencies[k].package, found.version)
    ensures Within(child.packages, lock.packages)
    decreases Names(lock.packages) - stack, 2, 0
  {
    var d := m.dependencies[k];
    if d.acquisition.ByPath? {
      child := PathChildResolves(w, project, dir, m, k, lock, stack, found, at, graph);
    } else {
      assert ReleaseCurrent(w, m, d, lock);
      child := ReleaseResolves(w, project, dir, m, d, lock, stack, found, at, graph);
    }
  }

  lemma {:induction false} PathChildResolves(w: World, project: Directory, dir: Directory, m: Manifest, k: nat,
                                             lock: Lock, stack: set<Name>, found: LockedPackage, at: PackageRoot,
                                             graph: PackageGraph)
    returns (child: Resolution)
    requires Setting(w, project, lock) && lock.root in stack && Ancestors(lock, stack, m.name)
    requires dir in w.tree.directories && Reaches(DirectoryGraph(w), project, dir)
    requires ReadManifest(w, Local(dir)) == Some(m) && k < |m.dependencies| && DependsOnAll(lock, m)
    requires m.dependencies[k].acquisition.ByPath?
    requires ChildAccepted(w, project, dir, m, m.dependencies[k], lock, stack, found, at, graph)
    ensures ResolveChild(w, project, dir, stack, m.dependencies[k]) == Ok((found.version, child))
    ensures child.graph == graph && Sound(child, m.dependencies[k].package, found.version)
    ensures Within(child.packages, lock.packages)
    decreases Names(lock.packages) - stack, 1, 1
  {
    var d := m.dependencies[k];
    LocatedLocally(w, project, dir, m, d, lock, found, at, stack);
    DependencyReached(w, project, dir, k, at.dir);
    AncestorsBelow(lock, stack, m.name, d.package);
    child := VerifiedChild(w, project, at.dir, lock, stack, found, graph);
    LocalChild(w, project, dir, d, at.dir, stack, child);
  }

  lemma {:induction false} VerifiedChild(w: World, project: Directory, dir: Directory, lock: Lock, stack: set<Name>,
                                         found: LockedPackage, graph: PackageGraph) returns (child: Resolution)
    requires Setting(w, project, lock) && lock.root in stack && Ancestors(lock, stack, found.name)
    requires dir in w.tree.directories && Reaches(DirectoryGraph(w), project, dir)
    requires ReadManifest(w, Local(dir)).Some? && ReadManifest(w, Local(dir)).value.name == found.name
    requires Find(lock.packages, found.name) == Some(found) && found.source == SourceOf(dir, project)
    requires CompileLocked(w, project, Local(dir), lock, stack) == Ok(graph)
    ensures Resolves(w, project, dir, SourceOf(dir, project), stack, child)
    ensures child.graph == graph && Within(child.packages, lock.packages)
    ensures Sound(child, found.name, ReadManifest(w, Local(dir)).value.version)
    decreases Names(lock.packages) - stack, 1, 0
  {
    VerifiedResolves(w, project, dir, found.source, lock, stack);
    ResolveIsSound(w, project, dir, found.source, stack);
    child := Resolve(w, project, dir, found.source, stack).value;
  }

  lemma LocalChild(w: World, project: Directory, dir: Directory, d: Dependency, at: Directory, stack: set<Name>,
                   child: Resolution)
    requires ReadManifest(w, Local(dir)).Some? && ChildOf(w, dir, d) == Some(at)
    requires Resolves(w, project, at, SourceOf(at, project), stack, child)
    requires ReadManifest(w, Local(at)).value.name == d.package
    ensures ResolveChild(w, project, dir, stack, d) == Ok((ReadManifest(w, Local(at)).value.version, child))
  {
  }

  lemma LocatedLocally(w: World, project: Directory, dir: Directory, m: Manifest, d: Dependency, lock: Lock,
                       found: LockedPackage, at: PackageRoot, stack: set<Name>)
    requires Lawful(w) && PathsCanonical(w, project, lock) && dir in w.tree.directories && d.acquisition.ByPath?
    requires Locate(w, project, Local(dir), m, lock, d) == Ok((found, at))
    requires CompileLocked(w, project, at, lock, stack).Ok? && lock.root in stack
    ensures at.Local? && at.dir in w.tree.directories && ChildOf(w, dir, d) == Some(at.dir) && at.dir in w.manifests
    ensures found.name == d.package && found.source == SourceOf(at.dir, project)
    ensures Find(lock.packages, d.package) == Some(found)
    ensures ReadManifest(w, Local(at.dir)).Some?
    ensures ReadManifest(w, Local(at.dir)).value.name == found.name
    ensures ReadManifest(w, Local(at.dir)).value.version == found.version
  {
    CanonicalizeIsCanonical(w.tree, dir, d.acquisition.path);
    assert found.name !in stack;
    assert PathCanonical(w, project, found.source.path);
  }

  lemma ReleaseResolves(w: World, project: Directory, dir: Directory, m: Manifest, d: Dependency, lock: Lock,
                        stack: set<Name>, found: LockedPackage, at: PackageRoot, graph: PackageGraph)
    returns (child: Resolution)
    requires Lawful(w) && ValidLock(lock) && Ancestors(lock, stack, m.name)
    requires Edge(DependencyGraph(lock.packages), m.name, d.package)
    requires ReadManifest(w, Local(dir)) == Some(m) && d.acquisition.ByVersion? && ReleaseCurrent(w, m, d, lock)
    requires ChildAccepted(w, project, dir, m, d, lock, stack, found, at, graph)
    ensures ResolveChild(w, project, dir, stack, d) == Ok((found.version, child))
    ensures child.graph == graph && Sound(child, d.package, found.version) && Within(child.packages, lock.packages)
  {
    var (version, r) := ResolveRelease(w, m, d.package, d.acquisition.requirement, d.acquisition.registry).value;
    ReleaseIsSound(w, m, d.package, d.acquisition.requirement, d.acquisition.registry);
    AncestorsAreApart(lock, stack, m.name, d.package, r.packages);
    ReleaseAgrees(w, project, Local(dir), m, d, lock, stack);
    SameChild(w, project, dir, m, d, lock, stack, found, at, graph, version, r);
    child := r;
  }

  lemma SameChild(w: World, project: Directory, dir: Directory, m: Manifest, d: Dependency, lock: Lock,
                  stack: set<Name>, found: LockedPackage, at: PackageRoot, graph: PackageGraph, version: Version,
                  r: Resolution)
    requires ChildAccepted(w, project, dir, m, d, lock, stack, found, at, graph)
    requires ChildVerifies(w, project, Local(dir), m, d, lock, stack, version, r)
    ensures r.graph == graph && version == found.version
  {
  }

  predicate DependsOnAll(lock: Lock, m: Manifest) {
    forall i :: 0 <= i < |m.dependencies| ==> Edge(DependencyGraph(lock.packages), m.name, m.dependencies[i].package)
  }

  /** The resolver gathered what the verifier verified, from the lock's own entries. */
  predicate Gathers(r: Result<Gathered, Error>, v: Verified, lock: Lock) {
    r.Ok? && r.value.supplied == v.supplied && r.value.direct == v.exact && Within(r.value.packages, lock.packages)
  }

  lemma {:induction false} DependenciesResolve(w: World, project: Directory, dir: Directory, lock: Lock,
                                               stack: set<Name>, m: Manifest, k: nat, g: Gathered, v: Verified)
    requires Setting(w, project, lock) && lock.root in stack && Ancestors(lock, stack, m.name)
    requires dir in w.tree.directories && Reaches(DirectoryGraph(w), project, dir)
    requires ReadManifest(w, Local(dir)) == Some(m) && k <= |m.dependencies| && DependsOnAll(lock, m)
    requires GatheredSoundly(g, m, k) && LaterAliasesUnused(g, m, k) && Within(g.packages, lock.packages)
    requires CompileDependencies(w, project, Local(dir), lock, stack, k, Verified(g.supplied, g.direct)) == Ok(v)
    ensures Gathers(ResolveDependencies(w, project, dir, stack, k, g), v, lock)
    decreases Names(lock.packages) - stack, 3, |m.dependencies| - k
  {
    if k < |m.dependencies| {
      var next := OneDependencyResolves(w, project, dir, lock, stack, m, k, g, v);
      DependenciesResolve(w, project, dir, lock, stack, m, k + 1, next, v);
    }
  }

  lemma {:induction false} OneDependencyResolves(w: World, project: Directory, dir: Directory, lock: Lock,
                                                 stack: set<Name>, m: Manifest, k: nat, g: Gathered, v: Verified)
    returns (next: Gathered)
    requires Setting(w, project, lock) && lock.root in stack && Ancestors(lock, stack, m.name)
    requires dir in w.tree.directories && Reaches(DirectoryGraph(w), project, dir)
    requires ReadManifest(w, Local(dir)) == Some(m) && k < |m.dependencies| && DependsOnAll(lock, m)
    requires GatheredSoundly(g, m, k) && LaterAliasesUnused(g, m, k) && Within(g.packages, lock.packages)
    requires CompileDependencies(w, project, Local(dir), lock, stack, k, Verified(g.supplied, g.direct)) == Ok(v)
    ensures GatheredSoundly(next, m, k + 1) && LaterAliasesUnused(next, m, k + 1)
    ensures Within(next.packages, lock.packages)
    ensures CompileDependencies(w, project, Local(dir), lock, stack, k + 1, Verified(next.supplied, next.direct)) ==
              Ok(v)
    ensures ResolveDependencies(w, project, dir, stack, k, g) ==
              ResolveDependencies(w, project, dir, stack, k + 1, next)
    decreases Names(lock.packages) - stack, 2, 1
  {
    var d := m.dependencies[k];
    var found, at, graph := AcceptedStep(w, project, dir, lock, stack, m, k, Verified(g.supplied, g.direct), v);
    var child := ChildResolves(w, project, dir, m, k, lock, stack, found, at, graph);
    next := GatherOne(w, project, dir, lock, stack, m, k, g, found.version, child);
    LocatedEdge(w, project, dir, m, d, lock, found, at);
  }

  lemma LocatedEdge(w: World, project: Directory, dir: Directory, m: Manifest, d: Dependency, lock: Lock,
                    found: LockedPackage, at: PackageRoot)
    requires Locate(w, project, Local(dir), m, lock, d) == Ok((found, at))
    ensures Find(lock.packages, d.package) == Some(found)
  {
  }

  /** One resolved dependency is gathered, without conflict and without a cycle, from the lock's own entries. */
  lemma GatherOne(w: World, project: Directory, dir: Directory, lock: Lock, stack: set<Name>, m: Manifest, k: nat,
                  g: Gathered, version: Version, child: Resolution)
    returns (next: Gathered)
    requires ValidLock(lock) && ReadManifest(w, Local(dir)) == Some(m) && k < |m.dependencies| && DependsOnAll(lock, m)
    requires GatheredSoundly(g, m, k) && LaterAliasesUnused(g, m, k) && Within(g.packages, lock.packages)
    requires ResolveChild(w, project, dir, stack, m.dependencies[k]) == Ok((version, child))
    requires Sound(child, m.dependencies[k].package, version) && Within(child.packages, lock.packages)
    ensures GatheredSoundly(next, m, k + 1) && LaterAliasesUnused(next, m, k + 1)
    ensures Within(next.packages, lock.packages)
    ensures ResolveDependencies(w, project, dir, stack, k, g) ==
              ResolveDependencies(w, project, dir, stack, k + 1, next)
    ensures Find(lock.packages, m.dependencies[k].package).Some?
    ensures next.direct == g.direct + [EdgeTo(Find(lock.packages, m.dependencies[k].package).value)]
    ensures next.supplied == g.supplied[m.dependencies[k].alias := child.graph]
  {
    NoWayBack(lock, m.name, child.packages, m.dependencies[k].package);
    next := StepResolves(m, k, g, version, child, lock);
    ResolveStep(w, project, dir, stack, m, k, g, version, child, next);
  }

  lemma ResolveStep(w: World, project: Directory, dir: Directory, stack: set<Name>, m: Manifest, k: nat, g: Gathered,
                    version: Version, child: Resolution, next: Gathered)
    requires ReadManifest(w, Local(dir)) == Some(m) && k < |m.dependencies|
    requires ResolveChild(w, project, dir, stack, m.dependencies[k]) == Ok((version, child))
    requires Gather(m, m.dependencies[k], g, version, child) == Ok(next)
    ensures ResolveDependencies(w, project, dir, stack, k, g) ==
              ResolveDependencies(w, project, dir, stack, k + 1, next)
  {
  }

  /** Gathering one resolved child keeps the collections sound and inside the lock. */
  lemma StepResolves(m: Manifest, k: nat, g: Gathered, version: Version, child: Resolution, lock: Lock)
    returns (next: Gathered)
    requires ManifestValid(m) && k < |m.dependencies| && GatheredSoundly(g, m, k) && LaterAliasesUnused(g, m, k)
    requires Sorted(lock.packages) && Within(g.packages, lock.packages) && Within(child.packages, lock.packages)
    requires Sound(child, m.dependencies[k].package, version) && m.name !in Names(child.packages)
    ensures Gather(m, m.dependencies[k], g, version, child) == Ok(next)
    ensures GatheredSoundly(next, m, k + 1) && LaterAliasesUnused(next, m, k + 1)
    ensures Within(next.packages, lock.packages)
    ensures Find(lock.packages, m.dependencies[k].package).Some?
    ensures next.direct == g.direct + [EdgeTo(Find(lock.packages, m.dependencies[k].package).value)]
    ensures next.supplied == g.supplied[m.dependencies[k].alias := child.graph]
  {
    GatherSucceeds(m, m.dependencies[k], g, version, child, lock);
    GatherIsSound(m, k, g, version, child);
    SoundEntry(child, m.dependencies[k].package, version, lock);
    next := Gather(m, m.dependencies[k], g, version, child).value;
    GatherFields(m, m.dependencies[k], g, version, child, next);
  }

  lemma GatherFields(m: Manifest, d: Dependency, g: Gathered, version: Version, child: Resolution, next: Gathered)
    requires Gather(m, d, g, version, child) == Ok(next)
    ensures next.direct == g.direct + [LockedDependency(d.package, version, RootDigest(child.graph))]
    ensures next.supplied == g.supplied[d.alias := child.graph]
  {
  }

  lemma GatherSucceeds(m: Manifest, d: Dependency, g: Gathered, version: Version, child: Resolution, lock: Lock)
    requires Sorted(lock.packages) && m.name !in Names(child.packages)
    requires Sorted(child.packages) && Within(child.packages, lock.packages)
    requires Sorted(g.packages) && Within(g.packages, lock.packages)
    ensures var next := Gather(m, d, g, version, child);
            next.Ok? && Within(next.value.packages, lock.packages)
  {
    PartsAreCompatible(g.packages, child.packages, lock.packages);
    MergeIsUnion(g.packages, child.packages);
  }

  /** A verified package is resolved to the same graph, from the lock's own entries. */
  lemma {:induction false} VerifiedResolves(w: World, project: Directory, dir: Directory, source: LockedSource,
                                            lock: Lock, stack: set<Name>)
    requires Setting(w, project, lock) && dir in w.tree.directories && Reaches(DirectoryGraph(w), project, dir)
    requires ReadManifest(w, Local(dir)).Some?
    requires var m := ReadManifest(w, Local(dir)).value;
             && (lock.root in stack || lock.root == m.name) && Ancestors(lock, stack, m.name)
             && Find(lock.packages, m.name).Some? && Find(lock.packages, m.name).value.source == source
    requires CompileLocked(w, project, Local(dir), lock, stack).Ok?
    ensures var r := Resolve(w, project, dir, source, stack);
            && r.Ok? && Ok(r.value.graph) == CompileLocked(w, project, Local(dir), lock, stack)
            && Within(r.value.packages, lock.packages)
    decreases Names(lock.packages) - stack, 0, 1
  {
    var m := ReadManifest(w, Local(dir)).value;
    LockHasEdges(w, project, Local(dir), lock, stack);
    AncestorsAt(lock, stack, m.name);
    var v := LockedSteps(w, project, Local(dir), m, lock, stack);
    var g := VerifiedGathers(w, project, dir, lock, stack + {m.name}, m, v);
    GatheredResolves(w, project, dir, m, source, stack, lock, v, g);
  }

  lemma {:induction false} VerifiedGathers(w: World, project: Directory, dir: Directory, lock: Lock, stack: set<Name>,
                                           m: Manifest, v: Verified) returns (g: Gathered)
    requires Setting(w, project, lock) && lock.root in stack && Ancestors(lock, stack, m.name)
    requires dir in w.tree.directories && Reaches(DirectoryGraph(w), project, dir)
    requires ReadManifest(w, Local(dir)) == Some(m) && DependsOnAll(lock, m)
    requires CompileDependencies(w, project, Local(dir), lock, stack, 0, Verified(map[], [])) == Ok(v)
    ensures ResolveDependencies(w, project, dir, stack, 0, Gathered(map[], [], [])) == Ok(g)
    ensures GatheredSoundly(g, m, |m.dependencies|) && Gathers(Ok(g), v, lock)
    decreases Names(lock.packages) - stack, 4
  {
    var start := Gathered(map[], [], []);
    EmptyIsSound(m);
    DependenciesResolve(w, project, dir, lock, stack, m, 0, start, v);
    ResolveDependenciesAreSound(w, project, dir, stack, 0, start);
    g := ResolveDependencies(w, project, dir, stack, 0, start).value;
  }

  lemma GatheredResolves(w: World, project: Directory, dir: Directory, m: Manifest, source: LockedSource,
                         stack: set<Name>, lock: Lock, v: Verified, g: Gathered)
    requires ReadManifest(w, Local(dir)) == Some(m) && m.name !in stack && GatheredSoundly(g, m, |m.dependencies|)
    requires ResolveDependencies(w, project, dir, stack + {m.name}, 0, Gathered(map[], [], [])) == Ok(g)
    requires Gathers(Ok(g), v, lock) && Sorted(lock.packages) && Find(lock.packages, m.name).Some?
    requires Find(lock.packages, m.name).value.version == m.version
    requires Find(lock.packages, m.name).value.source == source
    requires FinishLocked(w, Local(dir), lock, Find(lock.packages, m.name).value, v).Ok?
    ensures var r := Resolve(w, project, dir, source, stack);
            && r.Ok? && Ok(r.value.graph) == FinishLocked(w, Local(dir), lock, Find(lock.packages, m.name).value, v)
            && Within(r.value.packages, lock.packages)
  {
    assert v == Verified(g.supplied, g.direct);
    FinishResolves(w, dir, m, lock, g);
    ResolveFinishes(w, project, dir, m, source, stack, g);
  }

  lemma ResolveFinishes(w: World, project: Directory, dir: Directory, m: Manifest, source: LockedSource,
                        stack: set<Name>, g: Gathered)
    requires ReadManifest(w, Local(dir)) == Some(m) && m.name !in stack
    requires ResolveDependencies(w, project, dir, stack + {m.name}, 0, Gathered(map[], [], [])) == Ok(g)
    ensures Resolve(w, project, dir, source, stack) == FinishResolution(w, dir, m, source, g)
  {
  }

  lemma FinishResolves(w: World, dir: Directory, m: Manifest, lock: Lock, g: Gathered)
    requires ManifestValid(m) && GatheredSoundly(g, m, |m.dependencies|)
    requires Sorted(lock.packages) && Within(g.packages, lock.packages)
    requires Find(lock.packages, m.name).Some? && Find(lock.packages, m.name).value.version == m.version
    requires FinishLocked(w, Local(dir), lock, Find(lock.packages, m.name).value, Verified(g.supplied, g.direct)).Ok?
    ensures var locked := Find(lock.packages, m.name).value;
            var r := FinishResolution(w, dir, m, locked.source, g);
            && r.Ok? && Within(r.value.packages, lock.packages)
            && Ok(r.value.graph) == FinishLocked(w, Local(dir), lock, locked, Verified(g.supplied, g.direct))
  {
    var locked := Find(lock.packages, m.name).value;
    DirectNamesAreDistinct(m, g);
    SortDependenciesSorts(g.direct);
    WorklistIsMergedClosure(g.packages, lock.packages, locked, g);
    LockedEntryResolves(w, dir, m, lock, locked, g);
  }

  lemma LockedEntryResolves(w: World, dir: Directory, m: Manifest, lock: Lock, locked: LockedPackage, g: Gathered)
    requires Within(g.packages, lock.packages) && locked in lock.packages
    requires locked.name == m.name && locked.version == m.version
    requires ClosureFromLock(lock.packages, locked) == Some(g.packages)
    requires FinishLocked(w, Local(dir), lock, locked, Verified(g.supplied, g.direct)).Ok?
    ensures var r := FinishResolution(w, dir, m, locked.source, g);
            && r.Ok? && Within(r.value.packages, lock.packages)
            && Ok(r.value.graph) == FinishLocked(w, Local(dir), lock, locked, Verified(g.supplied, g.direct))
  {
    InsertStaysWithin(g.packages, locked, lock.packages);
    var graph := w.compile(Local(dir), g.supplied).value;
    var archived := w.archive(Local(dir), RootDigest(graph), SortDependencies(g.direct), g.packages);
    assert archived == Some(locked.distributionDigest);
    assert locked == LockedPackage(m.name, m.version, RootDigest(graph), archived.value, SortDependencies(g.direct),
                                   locked.source);
  }

  lemma InsertStaysWithin(packages: seq<LockedPackage>, p: LockedPackage, whole: seq<LockedPackage>)
    requires Within(packages, whole) && p in whole
    ensures Within(Insert(packages, p), whole)
  {
    InsertContains(packages, p);
  }

  lemma VerifiedLockIsResolved(w: World, project: Directory, lock: Lock, graph: PackageGraph)
    requires Lawful(w) && project in w.tree.directories && ReadManifest(w, Local(project)).Some?
    requires CompileProject(w, project, lock) == Ok(graph) && Current(w, project, lock)
    ensures ResolveLock(w, project) == Ok((lock, graph))
  {
    var m := ReadManifest(w, Local(project)).value;
    var source := PathSource(["."]);
    var own :| own in lock.packages && own.name == m.name && own.source == source;
    SortedFind(lock.packages, own);
    ReachesSelf(DirectoryGraph(w), project);
    VerifiedResolves(w, project, project, source, lock, {});
    ResolveIsSound(w, project, project, source, {});
    WholeLock(Resolve(w, project, project, source, {}).value, m.version, lock);
  }

  /** A closed part that contains the root is the whole lock. */
  lemma WholeLock(r: Resolution, version: Version, lock: Lock)
    requires ValidLock(lock) && Sound(r, lock.root, version) && Within(r.packages, lock.packages)
    ensures r.packages == lock.packages
  {
    WithinGraph(r.packages, lock.packages);
    forall p | p in lock.packages
      ensures p in r.packages
    {
      assert p.name in Names(lock.packages);
      ReachesStaysInside(DependencyGraph(lock.packages), Names(r.packages), lock.root, p.name);
      WithinFinds(r.packages, lock.packages, p.name);
      SortedFind(lock.packages, p);
    }
    SortedIsUnique(r.packages, lock.packages);
  }

  // ----- A resolved lock is current -----

  lemma ResolvedPathsAreCanonical(w: World, project: Directory, lock: Lock, graph: PackageGraph)
    requires Lawful(w) && ReadManifest(w, Local(project)).Some? && ResolveLock(w, project) == Ok((lock, graph))
    requires AllLeadBack(w, project, project)
    ensures PathsCanonical(w, project, lock)
  {
    LocalPackagesAreReached(w, project);
    forall p | p in lock.packages && p.name != lock.root && p.source.PathSource?
      ensures PathCanonical(w, project, p.source.path)
    {
      var b :| DependsOn(w, project, b) && w.manifests[b].name == p.name && p.source == SourceOf(b, project);
      assert LeadsBack(w, project, b);
    }
  }

  lemma ResolvedReleasesAreCurrent(w: World, project: Directory, lock: Lock, graph: PackageGraph)
    requires Lawful(w) && ReadManifest(w, Local(project)).Some? && ResolveLock(w, project) == Ok((lock, graph))
    ensures ReleasesCurrent(w, project, lock)
  {
    var r := Resolve(w, project, project, PathSource(["."]), {}).value;
    forall dir, k | Reaches(DirectoryGraph(w), project, dir) && dir in w.manifests
    && 0 <= k < |w.manifests[dir].dependencies|
      ensures ReleaseCurrent(w, w.manifests[dir], w.manifests[dir].dependencies[k], lock)
    {
      var source, stack, last := ReachedResolves(w, project, dir, r);
      DependencyWithin(w, project, dir, source, stack, last, k);
    }
  }

  lemma ReachedResolves(w: World, project: Directory, dir: Directory, r: Resolution)
    returns (source: LockedSource, stack: set<Name>, last: Resolution)
    requires Lawful(w) && Reaches(DirectoryGraph(w), project, dir)
    requires Resolves(w, project, project, PathSource(["."]), {}, r)
    ensures Resolves(w, project, dir, source, stack, last) && Within(last.packages, r.packages)
  {
    var path :| Connects(DirectoryGraph(w), path, project, dir);
    if |path| == 1 {
      source, stack, last := PathSource(["."]), {}, r;
    } else {
      stack, last := WalkWithin(w, project, path, PathSource(["."]), {}, r);
      source := SourceOf(dir, project);
    }
  }

  lemma DependencyWithin(w: World, project: Directory, dir: Directory, source: LockedSource, stack: set<Name>,
                         r: Resolution, k: nat)
    requires Lawful(w) && Resolves(w, project, dir, source, stack, r)
    requires k < |ReadManifest(w, Local(dir)).value.dependencies|
    ensures var m := ReadManifest(w, Local(dir)).value;
            var child := ResolveChild(w, project, dir, stack + {m.name}, m.dependencies[k]);
            child.Ok? && Within(child.value.1.packages, r.packages)
  {
    var m := ReadManifest(w, Local(dir)).value;
    var start := Gathered(map[], [], []);
    EmptyIsSound(m);
    var g := ResolveDependencies(w, project, dir, stack + {m.name}, 0, start).value;
    ChildWithin(w, project, dir, stack + {m.name}, m, 0, start, g, k);
    ResolveDependenciesAreSound(w, project, dir, stack + {m.name}, 0, start);
    FinishIsSound(w, dir, source, g);
  }

  /**
   A lock compiles to a graph, and is what resolution would choose again, exactly when
   resolution produces that lock and graph and its recorded paths lead back.
   */
  lemma VerifiesOnlyTheResolvedLock(w: World, project: Directory, lock: Lock, graph: PackageGraph)
    requires Lawful(w) && project in w.tree.directories && ReadManifest(w, Local(project)).Some?
    ensures CompileProject(w, project, lock) == Ok(graph) && Current(w, project, lock)
       <==> ResolveLock(w, project) == Ok((lock, graph)) && AllLeadBack(w, project, project)
  {
    if ResolveLock(w, project) == Ok((lock, graph)) && AllLeadBack(w, project, project) {
      ResolvedLockVerifies(w, project);
      ResolvedPathsAreCanonical(w, project, lock, graph);
      ResolvedReleasesAreCurrent(w, project, lock, graph);
    }
    if CompileProject(w, project, lock) == Ok(graph) && Current(w, project, lock) {
      VerifiedLockIsResolved(w, project, lock, graph);
      VerifiedLockLeadsBack(w, project);
    }
  }
}
