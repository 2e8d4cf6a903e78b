/**
 The two algorithms agree: whatever resolution produces, verification from the flat
 lock re-derives, over unchanged files.
 */
module ResolverAgreement {
  import opened Wrappers
  import opened Graphs
  import opened LockModel
  import opened ProjectPaths
  import opened Resolver
  import opened ResolverSoundness
  import opened DirectoryWalks

  // ----- The worklist closure -----

  lemma {:induction false} KeepFilters(packages: seq<LockedPackage>, names: set<Name>)
    requires Sorted(packages)
    ensures Sorted(Keep(packages, names))
    ensures forall p :: p in Keep(packages, names) <==> p in packages && p.name in names
  {
    if packages != [] {
      SortedTail(packages);
      KeepFilters(packages[1..], names);
      assert packages == [packages[0]] + packages[1..];
    }
  }

  /** Filtering the whole lock by the names of a part gives that part back. */
  lemma KeepRestores(part: seq<LockedPackage>, whole: seq<LockedPackage>)
    requires Sorted(part) && Sorted(whole) && Within(part, whole)
    ensures Keep(whole, Names(part)) == part
  {
    KeepFilters(whole, Names(part));
    forall p | p in whole && p.name in Names(part)
      ensures p in part
    {
      WithinFinds(part, whole, p.name);
      SortedFind(whole, p);
    }
    SortedIsUnique(Keep(whole, Names(part)), part);
  }

  /** Edges of the collected names lead to names already collected or still pending. */
  ghost predicate Frontier(graph: Graph<Name>, names: set<Name>, pending: seq<Name>) {
    forall a, b :: a in names && Edge(graph, a, b) ==> b in names || b in pending
  }

  lemma {:induction false} WorklistCollects(part: seq<LockedPackage>, whole: seq<LockedPackage>, pending: seq<Name>,
                                            names: set<Name>)
    requires Sorted(whole) && Within(part, whole) && EdgesAgree(part)
    requires names <= Names(part) && forall n :: n in pending ==> n in Names(part)
    requires Frontier(DependencyGraph(part), names, pending)
    ensures var s := Worklist(whole, pending, names);
            && s.Some? && names <= s.value <= Names(part)
            && (forall n :: n in pending ==> n in s.value)
            && Closed(DependencyGraph(part), s.value)
    decreases Names(whole) - names, |pending|
  {
    if pending == [] {
      forall a | a in names
        ensures DependencyGraph(part)[a] <= names
      {
        assert forall b :: b in DependencyGraph(part)[a] ==> Edge(DependencyGraph(part), a, b);
      }
    } else {
      var name := pending[|pending| - 1];
      var rest := pending[..|pending| - 1];
      assert pending == rest + [name];
      if name in names {
        WorklistCollects(part, whole, rest, names);
      } else {
        WithinFinds(part, whole, name);
        var p := Find(whole, name).value;
        ExpandKeepsFrontier(part, p, rest, names);
        assert name in Names(whole);
        WorklistCollects(part, whole, rest + EdgeNames(p.dependencies), names + {name});
      }
    }
  }

  lemma ExpandKeepsFrontier(part: seq<LockedPackage>, p: LockedPackage, rest: seq<Name>, names: set<Name>)
    requires EdgesAgree(part) && Find(part, p.name) == Some(p)
    requires forall n :: n in rest ==> n in Names(part)
    requires Frontier(DependencyGraph(part), names, rest + [p.name])
    ensures Frontier(DependencyGraph(part), names + {p.name}, rest + EdgeNames(p.dependencies))
    ensures forall n :: n in rest + EdgeNames(p.dependencies) ==> n in Names(part)
  {
    var edges := EdgeNames(p.dependencies);
    forall n | n in edges
      ensures n in Names(part)
    {
      var i :| 0 <= i < |edges| && edges[i] == n;
      assert Satisfied(part, p.dependencies[i]);
    }
    forall a, b | a in names + {p.name} && Edge(DependencyGraph(part), a, b)
      ensures b in names + {p.name} || b in rest + edges
    {
      if a == p.name {
        var d :| d in p.dependencies && d.name == b;
        var i :| 0 <= i < |p.dependencies| && p.dependencies[i] == d;
        assert edges[i] == b;
      } else {
        assert b in names || b in rest + [p.name];
      }
    }
  }

  /**
   The worklist closure over the flat lock is the recursively merged closure: taken for
   a package whose direct edges reach everything in `part`, it is `part` itself.
   */
  lemma WorklistIsMergedClosure(part: seq<LockedPackage>, whole: seq<LockedPackage>, own: LockedPackage, g: Gathered)
    requires Sorted(part) && Sorted(whole) && Within(part, whole) && EdgesAgree(part)
    requires g.packages == part && forall d :: d in own.dependencies <==> d in g.direct
    requires forall d :: d in g.direct ==> Satisfied(part, d)
    requires forall n :: n in Names(part) ==> ReachedFromDirect(g, n)
    ensures ClosureFromLock(whole, own) == Some(part)
  {
    var edges := EdgeNames(own.dependencies);
    DirectEdgesInside(part, own.dependencies, g.direct);
    WorklistCollects(part, whole, edges, {});
    var s := Worklist(whole, edges, {}).value;
    ReachedAreCollected(part, own.dependencies, g, s);
    assert s == Names(part);
    KeepRestores(part, whole);
  }

  lemma DirectEdgesInside(part: seq<LockedPackage>, dependencies: seq<LockedDependency>, direct: seq<LockedDependency>)
    requires forall d :: d in dependencies <==> d in direct
    requires forall d :: d in direct ==> Satisfied(part, d)
    ensures forall n :: n in EdgeNames(dependencies) ==> n in Names(part)
  {
    var edges := EdgeNames(dependencies);
    forall n | n in edges
      ensures n in Names(part)
    {
      var i :| 0 <= i < |edges| && edges[i] == n;
      assert dependencies[i] in direct;
      assert Satisfied(part, dependencies[i]);
    }
  }

  lemma ReachedAreCollected(part: seq<LockedPackage>, dependencies: seq<LockedDependency>, g: Gathered,
                            collected: set<Name>)
    requires g.packages == part && forall d :: d in dependencies <==> d in g.direct
    requires forall n :: n in Names(part) ==> ReachedFromDirect(g, n)
    requires Closed(DependencyGraph(part), collected) && forall n :: n in EdgeNames(dependencies) ==> n in collected
    ensures Names(part) <= collected
  {
    var edges := EdgeNames(dependencies);
    forall n | n in Names(part)
      ensures n in collected
    {
      assert ReachedFromDirect(g, n);
      var i :| 0 <= i < |g.direct| && Reaches(DependencyGraph(part), g.direct[i].name, n);
      assert g.direct[i] in dependencies;
      var j :| 0 <= j < |dependencies| && dependencies[j] == g.direct[i];
      assert edges[j] == g.direct[i].name;
      ReachesStaysInside(DependencyGraph(part), collected, g.direct[i].name, n);
    }
  }

  // ----- A larger lock verifies the same releases -----

  lemma {:induction false} WorklistMonotone(small: seq<LockedPackage>, big: seq<LockedPackage>, pending: seq<Name>,
                                            names: set<Name>)
    requires Sorted(big) && Within(small, big)
    requires Worklist(small, pending, names).Some?
    ensures Worklist(big, pending, names) == Worklist(small, pending, names)
    ensures Worklist(small, pending, names).value <= names + Names(small)
    decreases Names(small) - names, |pending|
  {
    if pending != [] {
      var name := pending[|pending| - 1];
      var rest := pending[..|pending| - 1];
      if name in names {
        WorklistMonotone(small, big, rest, names);
      } else {
        var p := Find(small, name).value;
        WithinFinds(small, big, name);
        assert name in Names(small);
        WorklistMonotone(small, big, rest + EdgeNames(p.dependencies), names + {name});
      }
    }
  }

  lemma ClosureMonotone(small: seq<LockedPackage>, big: seq<LockedPackage>, own: LockedPackage)
    requires Sorted(small) && Sorted(big) && Within(small, big)
    requires ClosureFromLock(small, own).Some?
    ensures ClosureFromLock(big, own) == ClosureFromLock(small, own)
  {
    WorklistMonotone(small, big, EdgeNames(own.dependencies), {});
    var names := Worklist(small, EdgeNames(own.dependencies), {}).value;
    KeepFilters(small, names);
    KeepFilters(big, names);
    forall p | p in big && p.name in names
      ensures p in small
    {
      WithinFinds(small, big, p.name);
      SortedFind(big, p);
    }
    SortedIsUnique(Keep(small, names), Keep(big, names));
  }

  predicate RegistryOnly(packages: seq<LockedPackage>) {
    forall p :: p in packages ==> p.source.RegistrySource?
  }

  lemma UnfoldLocked(w: World, project: Directory, root: PackageRoot, lock: Lock, stack: set<Name>, v: Verified)
    requires ReadManifest(w, root).Some?
    requires var m := ReadManifest(w, root).value;
             && m.name !in stack
             && Find(lock.packages, m.name).Some? && Find(lock.packages, m.name).value.version == m.version
             && CompileDependencies(w, project, root, lock, stack + {m.name}, 0, Verified(map[], [])) == Ok(v)
    ensures CompileLocked(w, project, root, lock, stack)
         == FinishLocked(w, root, lock, Find(lock.packages, ReadManifest(w, root).value.name).value, v)
  {
  }

  /** The verification of a release under its own lock carries over to any lock that contains it. */
  lemma {:induction false} CompileLockedMonotone(w: World, here: Directory, there: Directory, root: PackageRoot,
                                                 small: Lock, big: Lock, stack: set<Name>, outer: set<Name>)
    requires ReadManifest(w, root).Some? && root.Unpacked? && RegistryOnly(small.packages)
    requires Sorted(small.packages) && Sorted(big.packages) && Within(small.packages, big.packages)
    requires outer * Names(small.packages) <= stack
    requires CompileLocked(w, here, root, small, stack).Ok?
    ensures CompileLocked(w, there, root, big, outer) == CompileLocked(w, here, root, small, stack)
    decreases Names(small.packages) - stack, 1, 0
  {
    var m := ReadManifest(w, root).value;
    WithinFinds(small.packages, big.packages, m.name);
    var start := Verified(map[], []);
    CompileDependenciesMonotone(w, here, there, root, small, big, stack + {m.name}, outer + {m.name}, 0, start);
    var v := CompileDependencies(w, here, root, small, stack + {m.name}, 0, start).value;
    assert m.name !in outer;
    UnfoldLocked(w, here, root, small, stack, v);
    UnfoldLocked(w, there, root, big, outer, v);
    FinishLockedMonotone(w, root, small, big, Find(small.packages, m.name).value, v);
  }

  lemma FinishLockedMonotone(w: World, root: PackageRoot, small: Lock, big: Lock, locked: LockedPackage, v: Verified)
    requires Sorted(small.packages) && Sorted(big.packages) && Within(small.packages, big.packages)
    requires FinishLocked(w, root, small, locked, v).Ok?
    ensures FinishLocked(w, root, big, locked, v) == FinishLocked(w, root, small, locked, v)
  {
    ClosureMonotone(small.packages, big.packages, locked);
  }

  lemma {:induction false} CompileDependenciesMonotone(w: World, here: Directory, there: Directory, root: PackageRoot,
                                                       small: Lock, big: Lock, stack: set<Name>, outer: set<Name>,
                                                       k: nat, v: Verified)
    requires ReadManifest(w, root).Some? && root.Unpacked? && RegistryOnly(small.packages)
    requires k <= |ReadManifest(w, root).value.dependencies|
    requires Sorted(small.packages) && Sorted(big.packages) && Within(small.packages, big.packages)
    requires outer * Names(small.packages) <= stack
    requires CompileDependencies(w, here, root, small, stack, k, v).Ok?
    ensures CompileDependencies(w, there, root, big, outer, k, v) ==
              CompileDependencies(w, here, root, small, stack, k, v)
    decreases Names(small.packages) - stack, 2, |ReadManifest(w, root).value.dependencies| - k
  {
    var m := ReadManifest(w, root).value;
    if k < |m.dependencies| {
      var d := m.dependencies[k];
      var found := Find(small.packages, d.package).value;
      WithinFinds(small.packages, big.packages, d.package);
      var child := LockedRoot(w, here, root, m, d, found).value;
      assert LockedRoot(w, there, root, m, d, found) == LockedRoot(w, here, root, m, d, found);
      CompileLockedMonotone(w, here, there, child, small, big, stack, outer);
      var graph := CompileLocked(w, here, child, small, stack).value;
      CompileDependenciesMonotone(w, here, there, root, small, big, stack, outer, k + 1,
                                  Verified(v.supplied[d.alias := graph], v.exact + [EdgeTo(found)]));
    }
  }

  // ----- Resolution and verification agree -----

  /** The lock contains the resolution, and none of its packages is being verified already. */
  predicate Ready(packages: seq<LockedPackage>, lock: Lock, stack: set<Name>) {
    Sorted(lock.packages) && Within(packages, lock.packages) && stack !! Names(packages)
  }

  lemma ReadyPart(part: seq<LockedPackage>, whole: seq<LockedPackage>, lock: Lock, stack: set<Name>)
    requires Within(part, whole) && Ready(whole, lock, stack)
    ensures Ready(part, lock, stack)
  {
    forall n | n in Names(part)
      ensures n in Names(whole)
    {
      assert Find(part, n).value in whole;
    }
  }

  /** What verifying one dependency under the lock yields, as the loop uses it. */
  ghost predicate ChildVerifies(w: World, project: Directory, root: PackageRoot, m: Manifest, d: Dependency, lock: Lock,
                                stack: set<Name>, version: Version, child: Resolution)
  {
    var found := Find(lock.packages, d.package);
    && found.Some?
    && EdgeTo(found.value) == LockedDependency(d.package, version, RootDigest(child.graph))
    && var at := LockedRoot(w, project, root, m, d, found.value);
       && at.Ok?
       && ReadManifest(w, at.value).Some?
       && ReadManifest(w, at.value).value.name == d.package
       && ReadManifest(w, at.value).value.version == version
       && CompileLocked(w, project, at.value, lock, stack) == Ok(child.graph)
  }

  lemma SoundEntry(r: Resolution, name: Name, version: Version, lock: Lock)
    requires Sound(r, name, version) && Sorted(lock.packages) && Within(r.packages, lock.packages)
    ensures Find(lock.packages, name) == Find(r.packages, name) && Find(lock.packages, name).Some?
    ensures EdgeTo(Find(lock.packages, name).value) == LockedDependency(name, version, RootDigest(r.graph))
  {
    WithinFinds(r.packages, lock.packages, name);
  }

  /** The facts a resolved release rests on. */
  ghost predicate Released(w: World, m: Manifest, d: Dependency, prefix: string, p: SourcePackage, r: Resolution)
    requires d.acquisition.ByVersion?
  {
    var source := RegistrySource(prefix, p.manifestDigest);
    && RegistryPrefix(m, d.acquisition.registry) == Some(prefix)
    && w.matches(d.acquisition.requirement, p.version)
    && PackageIdentity(p, d.package, p.version)
    && w.cached(p.manifestDigest) == Some(p)
    && ReadManifest(w, Unpacked(p)) == Some(p.manifest)
    && PulledLockValid(p, source)
    && r.packages == PulledLock(p, source).packages
    && CompileLocked(w, [], Unpacked(p), PulledLock(p, source), {}) == Ok(r.graph)
  }

  lemma ReleaseFacts(w: World, m: Manifest, d: Dependency) returns (prefix: string, p: SourcePackage)
    requires Lawful(w) && d.acquisition.ByVersion?
    requires ResolveRelease(w, m, d.package, d.acquisition.requirement, d.acquisition.registry).Ok?
    ensures var (version, r) := ResolveRelease(w, m, d.package, d.acquisition.requirement,
                                               d.acquisition.registry).value;
            Released(w, m, d, prefix, p, r) && version == p.version
  {
    prefix := RegistryPrefix(m, d.acquisition.registry).value;
    var version := SelectVersion(w, w.versions(prefix, d.package), d.acquisition.requirement).value;
    p := PullTag(w, prefix, d.package, version).value;
  }

  lemma ReleasedVerifies(w: World, project: Directory, root: PackageRoot, m: Manifest, d: Dependency, lock: Lock,
                         stack: set<Name>, prefix: string, p: SourcePackage, r: Resolution)
    requires d.acquisition.ByVersion? && Released(w, m, d, prefix, p, r)
    requires Sound(r, d.package, p.version) && Ready(r.packages, lock, stack)
    ensures ChildVerifies(w, project, root, m, d, lock, stack, p.version, r)
  {
    var source := RegistrySource(prefix, p.manifestDigest);
    SoundEntry(r, d.package, p.version, lock);
    PulledOwnEntry(p, source);
    var found := Find(lock.packages, d.package).value;
    assert ReadLocked(w, found) == Some(p);
    assert LockedRoot(w, project, root, m, d, found) == Ok(Unpacked(p));
    PulledIsRegistryOnly(p, source);
    CompileLockedMonotone(w, [], project, Unpacked(p), PulledLock(p, source), lock, {}, stack);
  }

  lemma ReleaseAgrees(w: World, project: Directory, root: PackageRoot, m: Manifest, d: Dependency, lock: Lock,
                      stack: set<Name>)
    requires Lawful(w) && d.acquisition.ByVersion?
    requires ResolveRelease(w, m, d.package, d.acquisition.requirement, d.acquisition.registry).Ok?
    requires var (_, r) := ResolveRelease(w, m, d.package, d.acquisition.requirement, d.acquisition.registry).value;
             Ready(r.packages, lock, stack)
    ensures var (version, r) := ResolveRelease(w, m, d.package, d.acquisition.requirement,
                                               d.acquisition.registry).value;
            ChildVerifies(w, project, root, m, d, lock, stack, version, r)
  {
    var prefix, p := ReleaseFacts(w, m, d);
    ReleaseIsSound(w, m, d.package, d.acquisition.requirement, d.acquisition.registry);
    var (version, r) := ResolveRelease(w, m, d.package, d.acquisition.requirement, d.acquisition.registry).value;
    ReleasedVerifies(w, project, root, m, d, lock, stack, prefix, p, r);
  }

  lemma PulledIsRegistryOnly(p: SourcePackage, source: LockedSource)
    requires PulledLockValid(p, source) && source.RegistrySource?
    ensures RegistryOnly(PulledLock(p, source).packages)
  {
    InsertContains(p.frozenPackages,
                   LockedPackage(p.name, p.version, p.packageDigest, p.distributionDigest, p.frozenDependencies,
                                 source));
  }

  /** Following the recorded path of a directory leads back to it. */
  predicate LeadsBack(w: World, project: Directory, dir: Directory) {
    Canonicalize(w.tree, project, Recorded(dir, project)) == Some(dir)
  }

  /** So it does for every directory that is a dependency of one reached from `dir`. */
  ghost predicate AllLeadBack(w: World, project: Directory, dir: Directory) {
    forall a, b :: Reaches(DirectoryGraph(w), dir, a) && Edge(DirectoryGraph(w), a, b) ==> LeadsBack(w, project, b)
  }

  lemma AllLeadBackBelow(w: World, project: Directory, dir: Directory, child: Directory)
    requires AllLeadBack(w, project, dir) && Edge(DirectoryGraph(w), dir, child)
    ensures LeadsBack(w, project, child) && AllLeadBack(w, project, child)
  {
    var g := DirectoryGraph(w);
    ReachesSelf(g, dir);
    forall a, b | Reaches(g, child, a) && Edge(g, a, b)
      ensures LeadsBack(w, project, b)
    {
      ReachesStep(g, dir, child, a);
    }
  }

  lemma {:induction false} ChildAgrees(w: World, project: Directory, dir: Directory, stack: set<Name>, m: Manifest,
                                       k: nat, lock: Lock, outer: set<Name>)
    requires Lawful(w) && dir in w.tree.directories && AllLeadBack(w, project, dir)
    requires ReadManifest(w, Local(dir)) == Some(m) && k < |m.dependencies|
    requires ResolveChild(w, project, dir, stack, m.dependencies[k]).Ok?
    requires Ready(ResolveChild(w, project, dir, stack, m.dependencies[k]).value.1.packages, lock, outer)
    ensures var (version, child) := ResolveChild(w, project, dir, stack, m.dependencies[k]).value;
            ChildVerifies(w, project, Local(dir), m, m.dependencies[k], lock, outer, version, child)
    decreases LocalNames(w) - stack, 2, 0
  {
    var d := m.dependencies[k];
    match d.acquisition
    case ByPath(path) =>
      var child := Canonicalize(w.tree, dir, path).value;
      CanonicalizeIsCanonical(w.tree, dir, path);
      assert DependsAt(w, dir, k, child);
      AllLeadBackBelow(w, project, dir, child);
      PathChildAgrees(w, project, dir, stack, m, d, child, lock, outer);
    case ByVersion(requirement, registry) =>
      ReleaseAgrees(w, project, Local(dir), m, d, lock, outer);
  }

  lemma {:induction false} PathChildAgrees(w: World, project: Directory, dir: Directory, stack: set<Name>, m: Manifest,
                                           d: Dependency, child: Directory, lock: Lock, outer: set<Name>)
    requires Lawful(w) && dir in w.tree.directories && child in w.tree.directories
    requires ReadManifest(w, Local(dir)) == Some(m) && ChildOf(w, dir, d) == Some(child)
    requires LeadsBack(w, project, child) && AllLeadBack(w, project, child)
    requires ResolveChild(w, project, dir, stack, d).Ok?
    requires Ready(ResolveChild(w, project, dir, stack, d).value.1.packages, lock, outer)
    ensures var (version, r) := ResolveChild(w, project, dir, stack, d).value;
            ChildVerifies(w, project, Local(dir), m, d, lock, outer, version, r)
    decreases LocalNames(w) - stack, 1, 1
  {
    var source := SourceOf(child, project);
    var r := Resolve(w, project, child, source, stack).value;
    ResolveIsSound(w, project, child, source, stack);
    ResolveAgrees(w, project, child, source, stack, lock, outer);
    LocalChildVerifies(w, project, dir, m, d, child, Recorded(child, project), ReadManifest(w, Local(child)).value, r,
                       lock, outer);
  }

  lemma LocalChildVerifies(w: World, project: Directory, dir: Directory, m: Manifest, d: Dependency, child: Directory,
                           path: RelativePath, cm: Manifest, r: Resolution, lock: Lock, outer: set<Name>)
    requires ChildOf(w, dir, d) == Some(child) == Canonicalize(w.tree, project, path)
    requires ReadManifest(w, Local(child)) == Some(cm) && cm.name == d.package
    requires Sound(r, cm.name, cm.version) && Sorted(lock.packages) && Within(r.packages, lock.packages)
    requires Find(r.packages, cm.name).value.source == PathSource(path)
    requires CompileLocked(w, project, Local(child), lock, outer) == Ok(r.graph)
    ensures ChildVerifies(w, project, Local(dir), m, d, lock, outer, cm.version, r)
  {
    SoundEntry(r, d.package, cm.version, lock);
    LocatesLocal(w, project, dir, m, d, Find(lock.packages, d.package).value, path, child);
  }

  lemma LocatesLocal(w: World, project: Directory, dir: Directory, m: Manifest, d: Dependency, found: LockedPackage,
                     path: RelativePath, child: Directory)
    requires ChildOf(w, dir, d) == Some(child) && found.source == PathSource(path)
    ensures LockedRoot(w, project, Local(dir), m, d, found) == Ok(Local(child)) <==>
              Canonicalize(w.tree, project, path) == Some(child)
    ensures LockedRoot(w, project, Local(dir), m, d, found).Ok? ==>
              LockedRoot(w, project, Local(dir), m, d, found) == Ok(Local(child))
  {
  }

  lemma {:induction false} DependenciesAgree(w: World, project: Directory, dir: Directory, stack: set<Name>,
                                             m: Manifest, k: nat, g: Gathered, final: Gathered, lock: Lock,
                                             outer: set<Name>)
    requires Lawful(w) && dir in w.tree.directories && AllLeadBack(w, project, dir)
    requires ReadManifest(w, Local(dir)) == Some(m) && k <= |m.dependencies|
    requires GatheredSoundly(g, m, k) && LaterAliasesUnused(g, m, k)
    requires ResolveDependencies(w, project, dir, stack, k, g) == Ok(final)
    requires Ready(final.packages, lock, outer)
    ensures CompileDependencies(w, project, Local(dir), lock, outer, k, Verified(g.supplied, g.direct))
         == Ok(Verified(final.supplied, final.direct))
    decreases LocalNames(w) - stack, 3, |m.dependencies| - k
  {
    if k < |m.dependencies| {
      var d := m.dependencies[k];
      var child := ResolveChild(w, project, dir, stack, d).value;
      var next := Gather(m, d, g, child.0, child.1).value;
      assert ResolveDependencies(w, project, dir, stack, k + 1, next) == Ok(final);
      StepIsReady(w, project, dir, stack, m, k, g, next, final, lock, outer);
      ChildAgrees(w, project, dir, stack, m, k, lock, outer);
      CompileStep(w, project, Local(dir), lock, outer, k, Verified(g.supplied, g.direct), child.0, child.1);
      DependenciesAgree(w, project, dir, stack, m, k + 1, next, final, lock, outer);
    }
  }

  /** After one dependency the collections are sound, and what was gathered stays ready in the lock. */
  lemma StepIsReady(w: World, project: Directory, dir: Directory, stack: set<Name>, m: Manifest, k: nat, g: Gathered,
                    next: Gathered, final: Gathered, lock: Lock, outer: set<Name>)
    requires Lawful(w) && ReadManifest(w, Local(dir)) == Some(m) && k < |m.dependencies|
    requires GatheredSoundly(g, m, k) && LaterAliasesUnused(g, m, k)
    requires ResolveChild(w, project, dir, stack, m.dependencies[k]).Ok?
    requires var child := ResolveChild(w, project, dir, stack, m.dependencies[k]).value;
             Gather(m, m.dependencies[k], g, child.0, child.1) == Ok(next)
    requires ResolveDependencies(w, project, dir, stack, k + 1, next) == Ok(final) && Ready(final.packages, lock, outer)
    ensures GatheredSoundly(next, m, k + 1) && LaterAliasesUnused(next, m, k + 1)
    ensures Ready(ResolveChild(w, project, dir, stack, m.dependencies[k]).value.1.packages, lock, outer)
  {
    ResolveChildIsSound(w, project, dir, stack, m.dependencies[k]);
    var child := ResolveChild(w, project, dir, stack, m.dependencies[k]).value;
    GatherIsSound(m, k, g, child.0, child.1);
    NextIsReady(w, project, dir, stack, k + 1, next, final, lock, outer);
    ReadyPart(child.1.packages, next.packages, lock, outer);
  }

  lemma NextIsReady(w: World, project: Directory, dir: Directory, stack: set<Name>, k: nat, g: Gathered,
                    final: Gathered, lock: Lock, outer: set<Name>)
    requires Lawful(w) && ReadManifest(w, Local(dir)).Some? && k <= |ReadManifest(w, Local(dir)).value.dependencies|
    requires GatheredSoundly(g, ReadManifest(w, Local(dir)).value, k)
    requires LaterAliasesUnused(g, ReadManifest(w, Local(dir)).value, k)
    requires ResolveDependencies(w, project, dir, stack, k, g) == Ok(final)
    requires Ready(final.packages, lock, outer)
    ensures Ready(g.packages, lock, outer)
  {
    ResolveDependenciesAreSound(w, project, dir, stack, k, g);
    ReadyPart(g.packages, final.packages, lock, outer);
  }

  /** One verified dependency, as the loop records it. */
  lemma CompileStep(w: World, project: Directory, root: PackageRoot, lock: Lock, stack: set<Name>, k: nat, v: Verified,
                    version: Version, child: Resolution)
    requires ReadManifest(w, root).Some? && k < |ReadManifest(w, root).value.dependencies|
    requires var m := ReadManifest(w, root).value;
             ChildVerifies(w, project, root, m, m.dependencies[k], lock, stack, version, child)
    ensures var d := ReadManifest(w, root).value.dependencies[k];
            CompileDependencies(w, project, root, lock, stack, k, v) ==
            CompileDependencies(w, project, root, lock, stack, k + 1,
                                Verified(v.supplied[d.alias := child.graph],
                                         v.exact + [LockedDependency(d.package, version, RootDigest(child.graph))]))
  {
  }

  lemma {:induction false} ResolveAgrees(w: World, project: Directory, dir: Directory, source: LockedSource,
                                         stack: set<Name>, lock: Lock, outer: set<Name>)
    requires Lawful(w) && dir in w.tree.directories && AllLeadBack(w, project, dir)
    requires ReadManifest(w, Local(dir)).Some?
    requires Resolve(w, project, dir, source, stack).Ok?
    requires Ready(Resolve(w, project, dir, source, stack).value.packages, lock, outer)
    ensures CompileLocked(w, project, Local(dir), lock, outer) ==
              Ok(Resolve(w, project, dir, source, stack).value.graph)
    decreases LocalNames(w) - stack, 1, 0
  {
    var m := ReadManifest(w, Local(dir)).value;
    var start := Gathered(map[], [], []);
    var r := Resolve(w, project, dir, source, stack).value;
    EmptyIsSound(m);
    ResolveDependenciesAreSound(w, project, dir, stack + {m.name}, 0, start);
    var g := ResolveDependencies(w, project, dir, stack + {m.name}, 0, start).value;
    FinishIsSound(w, dir, source, g);
    ResolveIsSound(w, project, dir, source, stack);
    ReadyPart(g.packages, r.packages, lock, outer);
    assert m.name !in Names(g.packages);
    DependenciesAgree(w, project, dir, stack + {m.name}, m, 0, start, g, lock, outer + {m.name});
    GatheredAgrees(w, project, dir, source, g, r, lock, outer);
  }

  /** Once the dependencies are verified, so is the package itself. */
  lemma GatheredAgrees(w: World, project: Directory, dir: Directory, source: LockedSource, g: Gathered, r: Resolution,
                       lock: Lock, outer: set<Name>)
    requires ReadManifest(w, Local(dir)).Some?
    requires var m := ReadManifest(w, Local(dir)).value;
             && GatheredSoundly(g, m, |m.dependencies|)
             && FinishResolution(w, dir, m, source, g) == Ok(r)
             && Sound(r, m.name, m.version)
             && CompileDependencies(w, project, Local(dir), lock, outer + {m.name}, 0, Verified(map[], []))
                == Ok(Verified(g.supplied, g.direct))
    requires Ready(r.packages, lock, outer)
    ensures CompileLocked(w, project, Local(dir), lock, outer) == Ok(r.graph)
  {
    var m := ReadManifest(w, Local(dir)).value;
    SoundEntry(r, m.name, m.version, lock);
    assert m.name in Names(r.packages);
    UnfoldLocked(w, project, Local(dir), lock, outer, Verified(g.supplied, g.direct));
    FinishAgrees(w, dir, m, source, g, lock);
  }

  lemma FinishAgrees(w: World, dir: Directory, m: Manifest, source: LockedSource, g: Gathered, lock: Lock)
    requires ManifestValid(m) && GatheredSoundly(g, m, |m.dependencies|)
    requires FinishResolution(w, dir, m, source, g).Ok?
    requires Sorted(lock.packages) && Within(FinishResolution(w, dir, m, source, g).value.packages, lock.packages)
    requires Find(lock.packages, m.name).Some?
    ensures FinishLocked(w, Local(dir), lock, Find(lock.packages, m.name).value, Verified(g.supplied, g.direct))
         == Ok(FinishResolution(w, dir, m, source, g).value.graph)
  {
    var r := FinishResolution(w, dir, m, source, g).value;
    var own := LockedPackage(m.name, m.version, RootDigest(r.graph),
                             w.archive(Local(dir), RootDigest(r.graph), SortDependencies(g.direct), g.packages).value,
                             SortDependencies(g.direct), source);
    assert r.packages == Insert(g.packages, own);
    InsertContains(g.packages, own);
    SortedFind(lock.packages, own);
    DirectNamesAreDistinct(m, g);
    SortDependenciesSorts(g.direct);
    OwnEntryIsAdded(g.packages, own);
    WorklistIsMergedClosure(g.packages, lock.packages, own, g);
  }

  /**
   When resolution succeeds and the recorded paths lead back, the lock it writes is valid, and
   compiling the project from that lock over the same files succeeds with the very graph
   resolution compiled.
   */
  lemma ResolvedLockVerifies(w: World, project: Directory)
    requires Lawful(w) && project in w.tree.directories && ReadManifest(w, Local(project)).Some?
    requires ResolveLock(w, project).Ok? && AllLeadBack(w, project, project)
    ensures var (lock, graph) := ResolveLock(w, project).value;
            ValidLock(lock) && CompileProject(w, project, lock) == Ok(graph)
  {
    var source := PathSource(["."]);
    var r := Resolve(w, project, project, source, {}).value;
    var lock := ResolveLock(w, project).value.0;
    ResolveIsSound(w, project, project, source, {});
    ResolveAgrees(w, project, project, source, {}, lock, {});
    SoundLockMatches(r, ReadManifest(w, Local(project)).value);
  }

  lemma SoundLockMatches(r: Resolution, m: Manifest)
    requires Sound(r, m.name, m.version)
    ensures LockMatchesGraph(Lock(m.name, r.packages), m, r.graph)
    ensures exists p :: p in r.packages && p.name == m.name && p.source == Find(r.packages, m.name).value.source
  {
    SortedCount(r.packages);
    assert |r.graph.digests.Keys| == |r.graph.digests|;
    var own := Find(r.packages, m.name).value;
    assert own in r.packages;
  }
}
