/**
 The order in which a manifest's dependencies are visited does not matter: gathering is
 merging the closures of the children, and any order leaves the same lock.
 */
module ResolverOrder {
  import opened Wrappers
  import opened LockModel
  import opened ProjectPaths
  import opened Resolver
  import opened ResolverSoundness

  type ChildOfDependency = Dependency -> Result<(Version, Resolution), Error>

  /** The loop over dependencies, given what each of them resolves to. */
  function GatherEach(m: Manifest, deps: seq<Dependency>, g: Gathered, child: ChildOfDependency)
    : Result<Gathered, Error>
    decreases |deps|
  {
    if deps == [] then Ok(g)
    else
      var c := child(deps[0]);
      if c.Err? then Err(c.error)
      else
        var next := Gather(m, deps[0], g, c.value.0, c.value.1);
        if next.Err? then Err(next.error) else GatherEach(m, deps[1..], next.value, child)
  }

  ghost function Children(w: World, project: Directory, dir: Directory, stack: set<Name>): ChildOfDependency
    requires ReadManifest(w, Local(dir)).Some?
  {
    d => ResolveChild(w, project, dir, stack, d)
  }

  lemma {:induction false} ResolvingGathersEach(w: World, project: Directory, dir: Directory, stack: set<Name>,
                                                m: Manifest, k: nat, g: Gathered)
    requires ReadManifest(w, Local(dir)) == Some(m) && k <= |m.dependencies|
    ensures ResolveDependencies(w, project, dir, stack, k, g) ==
            GatherEach(m, m.dependencies[k..], g, Children(w, project, dir, stack))
    decreases |m.dependencies| - k
  {
    if k < |m.dependencies| {
      var child := ResolveChild(w, project, dir, stack, m.dependencies[k]);
      assert m.dependencies[k..][1..] == m.dependencies[k + 1..];
      if child.Ok? {
        var next := Gather(m, m.dependencies[k], g, child.value.0, child.value.1);
        if next.Ok? {
          ResolvingGathersEach(w, project, dir, stack, m, k + 1, next.value);
        }
      }
    }
  }

  // ----- Gathering is merging -----

  /** Every child resolves, to a sorted closure without the package itself. */
  predicate ChildrenFine(m: Manifest, deps: seq<Dependency>, child: ChildOfDependency) {
    forall d :: d in deps ==> child(d).Ok? && m.name !in Names(child(d).value.1.packages)
  }

  predicate ChildrenSorted(deps: seq<Dependency>, child: ChildOfDependency) {
    forall d :: d in deps && child(d).Ok? ==> Sorted(child(d).value.1.packages)
  }

  function Closures(m: Manifest, deps: seq<Dependency>, child: ChildOfDependency): (r: seq<seq<LockedPackage>>)
    requires ChildrenFine(m, deps, child)
    ensures forall c :: c in r <==> exists d :: d in deps && c == child(d).value.1.packages
  {
    if deps == [] then []
    else
      assert deps == [deps[0]] + deps[1..];
      [child(deps[0]).value.1.packages] + Closures(m, deps[1..], child)
  }

  /**
   The loop succeeds exactly when every child is fine and their closures can be merged, and it
   gathers the merged closures.
   */
  lemma {:induction false} GatheringIsMerging(m: Manifest, deps: seq<Dependency>, g: Gathered, child: ChildOfDependency)
    ensures var r := GatherEach(m, deps, g, child);
            && (r.Ok? <==> ChildrenFine(m, deps, child) && MergeAll(g.packages, Closures(m, deps, child)).Ok?)
            && (r.Ok? ==> MergeAll(g.packages, Closures(m, deps, child)) == Ok(r.value.packages))
    decreases |deps|
  {
    if deps != [] {
      assert deps == [deps[0]] + deps[1..];
      assert ChildrenFine(m, deps, child) ==> ChildrenFine(m, deps[1..], child);
      var c := child(deps[0]);
      if c.Ok? {
        var next := Gather(m, deps[0], g, c.value.0, c.value.1);
        if next.Ok? {
          GatheringIsMerging(m, deps[1..], next.value, child);
        }
      }
    }
  }

  // ----- The other two collections -----

  function DirectOf(d: Dependency, c: (Version, Resolution)): LockedDependency {
    LockedDependency(d.package, c.0, RootDigest(c.1.graph))
  }

  predicate OneAliasEach(deps: seq<Dependency>) {
    forall i, j :: 0 <= i < j < |deps| ==> deps[i].package != deps[j].package && deps[i].alias != deps[j].alias
  }

  lemma {:induction false} GatheredDirect(m: Manifest, deps: seq<Dependency>, g: Gathered, child: ChildOfDependency,
                                          final: Gathered)
    requires GatherEach(m, deps, g, child) == Ok(final)
    ensures ChildrenFine(m, deps, child) && |final.direct| == |g.direct| + |deps| && g.direct <= final.direct
    ensures forall i :: 0 <= i < |deps| ==> final.direct[|g.direct| + i] == DirectOf(deps[i], child(deps[i]).value)
    decreases |deps|
  {
    if deps != [] {
      var c := child(deps[0]).value;
      var next := Gather(m, deps[0], g, c.0, c.1).value;
      assert next.direct == g.direct + [DirectOf(deps[0], c)];
      GatheredDirect(m, deps[1..], next, child, final);
      assert deps == [deps[0]] + deps[1..];
      forall i | 0 <= i < |deps|
        ensures final.direct[|g.direct| + i] == DirectOf(deps[i], child(deps[i]).value)
      {
        if i == 0 {
          assert final.direct[|g.direct|] == next.direct[|g.direct|];
        } else {
          assert final.direct[|next.direct| + (i - 1)] == DirectOf(deps[1..][i - 1], child(deps[1..][i - 1]).value);
        }
      }
    }
  }

  /** The dependency that declares alias `a`. */
  predicate DeclaresAlias(deps: seq<Dependency>, a: string) {
    exists d :: d in deps && d.alias == a
  }

  lemma OneAliasEachTail(deps: seq<Dependency>)
    requires OneAliasEach(deps) && deps != []
    ensures OneAliasEach(deps[1..]) && !DeclaresAlias(deps[1..], deps[0].alias) && deps == [deps[0]] + deps[1..]
  {
    assert forall i :: 0 <= i < |deps[1..]| ==> deps[1..][i] == deps[i + 1];
  }

  lemma {:induction false} GatheredSupplied(m: Manifest, deps: seq<Dependency>, g: Gathered, child: ChildOfDependency,
                                            final: Gathered, a: string)
    requires GatherEach(m, deps, g, child) == Ok(final) && OneAliasEach(deps)
    ensures a in final.supplied <==> a in g.supplied || DeclaresAlias(deps, a)
    ensures forall d :: d in deps && d.alias == a ==> child(d).Ok? && final.supplied[a] == child(d).value.1.graph
    ensures a in g.supplied && !DeclaresAlias(deps, a) ==> final.supplied[a] == g.supplied[a]
    decreases |deps|
  {
    if deps != [] {
      var c := child(deps[0]).value;
      var next := Gather(m, deps[0], g, c.0, c.1).value;
      OneAliasEachTail(deps);
      GatheredSupplied(m, deps[1..], next, child, final, a);
      assert DeclaresAlias(deps, a) <==> deps[0].alias == a || DeclaresAlias(deps[1..], a);
    }
  }

  // ----- Another order -----

  ghost predicate SameDependencies(a: seq<Dependency>, b: seq<Dependency>) {
    OneAliasEach(a) && OneAliasEach(b) && forall d :: d in a <==> d in b
  }

  lemma SameSupplied(m: Manifest, a: seq<Dependency>, b: seq<Dependency>, child: ChildOfDependency, p: Gathered,
                     q: Gathered)
    requires SameDependencies(a, b)
    requires GatherEach(m, a, Gathered(map[], [], []), child) == Ok(p)
    requires GatherEach(m, b, Gathered(map[], [], []), child) == Ok(q)
    ensures p.supplied == q.supplied
  {
    forall alias: string
      ensures alias in p.supplied <==> alias in q.supplied
      ensures alias in p.supplied ==> p.supplied[alias] == q.supplied[alias]
    {
      GatheredSupplied(m, a, Gathered(map[], [], []), child, p, alias);
      GatheredSupplied(m, b, Gathered(map[], [], []), child, q, alias);
      assert DeclaresAlias(a, alias) <==> DeclaresAlias(b, alias);
    }
    assert p.supplied.Keys == q.supplied.Keys;
  }

  lemma DirectNamesDiffer(m: Manifest, deps: seq<Dependency>, child: ChildOfDependency, final: Gathered)
    requires OneAliasEach(deps) && GatherEach(m, deps, Gathered(map[], [], []), child) == Ok(final)
    ensures ChildrenFine(m, deps, child)
    ensures forall i, j :: 0 <= i < j < |final.direct| ==> final.direct[i].name != final.direct[j].name
    ensures forall e :: e in final.direct <==> exists d :: d in deps && e == DirectOf(d, child(d).value)
  {
    var start := Gathered(map[], [], []);
    GatheredDirect(m, deps, start, child, final);
    forall i | 0 <= i < |deps|
      ensures final.direct[i] == DirectOf(deps[i], child(deps[i]).value)
    {
      assert final.direct[|start.direct| + i] == DirectOf(deps[i], child(deps[i]).value);
    }
    forall e | e in final.direct
      ensures exists d :: d in deps && e == DirectOf(d, child(d).value)
    {
      var i :| 0 <= i < |final.direct| && final.direct[i] == e;
      assert deps[i] in deps;
    }
    forall d | d in deps
      ensures DirectOf(d, child(d).value) in final.direct
    {
      var i :| 0 <= i < |deps| && deps[i] == d;
      assert final.direct[i] == DirectOf(d, child(d).value);
    }
  }

  lemma SameDirect(m: Manifest, a: seq<Dependency>, b: seq<Dependency>, child: ChildOfDependency, p: Gathered,
                   q: Gathered)
    requires SameDependencies(a, b)
    requires GatherEach(m, a, Gathered(map[], [], []), child) == Ok(p)
    requires GatherEach(m, b, Gathered(map[], [], []), child) == Ok(q)
    ensures SortDependencies(p.direct) == SortDependencies(q.direct)
  {
    DirectNamesDiffer(m, a, child, p);
    DirectNamesDiffer(m, b, child, q);
    SortDependenciesSorts(p.direct);
    SortDependenciesSorts(q.direct);
    SortedDependenciesAreUnique(SortDependencies(p.direct), SortDependencies(q.direct));
  }

  /** What is gathered in one order is gathered in any other. */
  lemma SameGathered(m: Manifest, a: seq<Dependency>, b: seq<Dependency>, child: ChildOfDependency)
    requires SameDependencies(a, b) && ChildrenSorted(a, child)
    ensures var p, q := GatherEach(m, a, Gathered(map[], [], []), child),
        GatherEach(m, b, Gathered(map[], [], []), child);
            && (p.Ok? <==> q.Ok?)
            && (p.Ok? ==> p.value.packages == q.value.packages && p.value.supplied == q.value.supplied
                          && SortDependencies(p.value.direct) == SortDependencies(q.value.direct))
  {
    var start := Gathered(map[], [], []);
    GatheringIsMerging(m, a, start, child);
    GatheringIsMerging(m, b, start, child);
    if ChildrenFine(m, a, child) {
      assert ChildrenFine(m, b, child);
      MergeOrderIsIrrelevant(Closures(m, a, child), Closures(m, b, child));
    }
    var p, q := GatherEach(m, a, start, child), GatherEach(m, b, start, child);
    if p.Ok? && q.Ok? {
      SameSupplied(m, a, b, child, p.value, q.value);
      SameDirect(m, a, b, child, p.value, q.value);
    }
  }

  // ----- Worlds whose manifests list the same dependencies in another order -----

  ghost predicate Shuffled(a: Manifest, b: Manifest) {
    || a == b
    || (&& ManifestValid(a) && ManifestValid(b) && b == a.(dependencies := b.dependencies)
        && SameDependencies(a.dependencies, b.dependencies))
  }

  ghost predicate Rearranged(w: World, v: World) {
    && v == w.(manifests := v.manifests) && v.manifests.Keys == w.manifests.Keys
    && forall d :: d in w.manifests ==> Shuffled(w.manifests[d], v.manifests[d])
  }

  /** Both succeed with the same value, or both fail. */
  predicate SameSuccess<T(==), E>(a: Result<T, E>, b: Result<T, E>) {
    (a.Ok? <==> b.Ok?) && (a.Ok? ==> a.value == b.value)
  }

  lemma ManifestsShuffled(w: World, v: World, dir: Directory)
    requires Rearranged(w, v)
    ensures ReadManifest(w, Local(dir)).Some? <==> ReadManifest(v, Local(dir)).Some?
    ensures ReadManifest(w, Local(dir)).Some? ==>
              var m, n := ReadManifest(w, Local(dir)).value, ReadManifest(v, Local(dir)).value;
              n == m.(dependencies := n.dependencies) && SameDependencies(m.dependencies, n.dependencies)
  {
  }

  // Verifying a release reads no local manifest.

  lemma {:induction false} ReleaseIgnoresManifests(w: World, v: World, package: SourcePackage, lock: Lock,
                                                   stack: set<Name>)
    requires v == w.(manifests := v.manifests) && ReadManifest(w, Unpacked(package)).Some?
    ensures CompileLocked(w, [], Unpacked(package), lock, stack) == CompileLocked(v, [], Unpacked(package), lock, stack)
    decreases Names(lock.packages) - stack, 1, 0
  {
    var m := ReadManifest(w, Unpacked(package)).value;
    if m.name !in stack && Find(lock.packages, m.name).Some? {
      EachIgnoresManifests(w, v, package, lock, stack + {m.name}, m, 0, Verified(map[], []));
    }
    LockedIgnoresManifests(w, v, package, lock, stack, m);
  }

  lemma LockedIgnoresManifests(w: World, v: World, package: SourcePackage, lock: Lock, stack: set<Name>, m: Manifest)
    requires v == w.(manifests := v.manifests) && ReadManifest(w, Unpacked(package)) == Some(m)
    requires m.name !in stack && Find(lock.packages, m.name).Some? ==>
               CompileDependencies(w, [], Unpacked(package), lock, stack + {m.name}, 0, Verified(map[], [])) ==
               CompileDependencies(v, [], Unpacked(package), lock, stack + {m.name}, 0, Verified(map[], []))
    ensures CompileLocked(w, [], Unpacked(package), lock, stack) == CompileLocked(v, [], Unpacked(package), lock, stack)
  {
    forall locked, verified
      ensures FinishLocked(w, Unpacked(package), lock, locked, verified) ==
                FinishLocked(v, Unpacked(package), lock, locked, verified)
    {
    }
  }

  lemma {:induction false} EachIgnoresManifests(w: World, v: World, package: SourcePackage, lock: Lock,
                                                stack: set<Name>, m: Manifest, k: nat, done: Verified)
    requires v == w.(manifests := v.manifests) && ReadManifest(w, Unpacked(package)) == Some(m) && k <= |m.dependencies|
    ensures CompileDependencies(w, [], Unpacked(package), lock, stack, k, done) ==
            CompileDependencies(v, [], Unpacked(package), lock, stack, k, done)
    decreases Names(lock.packages) - stack, 2, |m.dependencies| - k
  {
    if k < |m.dependencies| {
      var d := m.dependencies[k];
      LocateIgnoresManifests(w, v, package, m, lock, d);
      var at := Locate(w, [], Unpacked(package), m, lock, d);
      if at.Ok? {
        ReleaseIgnoresManifests(w, v, at.value.1.package, lock, stack);
        var graph := CompileLocked(w, [], at.value.1, lock, stack);
        if graph.Ok? {
          EachIgnoresManifests(w, v, package, lock, stack, m, k + 1,
                               Verified(done.supplied[d.alias := graph.value], done.exact + [EdgeTo(at.value.0)]));
        }
      }
    }
  }

  lemma LocateIgnoresManifests(w: World, v: World, package: SourcePackage, m: Manifest, lock: Lock, d: Dependency)
    requires v == w.(manifests := v.manifests)
    ensures var at := Locate(w, [], Unpacked(package), m, lock, d);
            at == Locate(v, [], Unpacked(package), m, lock, d) && (at.Ok? ==> at.value.1.Unpacked?)
  {
  }

  lemma ReleaseResolvesAlike(w: World, v: World, m: Manifest, n: Manifest, package: Name, requirement: string,
                             registry: Option<string>)
    requires v == w.(manifests := v.manifests) && n == m.(dependencies := n.dependencies)
    ensures ResolveRelease(w, m, package, requirement, registry) == ResolveRelease(v, n, package, requirement, registry)
  {
    var prefix := RegistryPrefix(m, registry);
    assert prefix == RegistryPrefix(n, registry);
    if prefix.Some? {
      VersionAlike(w, v, w.versions(prefix.value, package), requirement);
      var version := SelectVersion(w, w.versions(prefix.value, package), requirement);
      if version.Some? {
        var pulled := PullTag(w, prefix.value, package, version.value);
        if pulled.Some? {
          VerifyAlike(w, v, pulled.value, RegistrySource(prefix.value, pulled.value.manifestDigest));
        }
      }
    }
  }

  lemma {:induction false} VersionAlike(w: World, v: World, versions: seq<Version>, requirement: string)
    requires v == w.(manifests := v.manifests)
    ensures SelectVersion(w, versions, requirement) == SelectVersion(v, versions, requirement)
    decreases |versions|
  {
    if versions != [] {
      VersionAlike(w, v, versions[..|versions| - 1], requirement);
    }
  }

  lemma VerifyAlike(w: World, v: World, p: SourcePackage, source: LockedSource)
    requires v == w.(manifests := v.manifests)
    ensures VerifyRelease(w, p, source) == VerifyRelease(v, p, source)
  {
    var lock := PulledLock(p, source);
    assert ReadManifest(w, Unpacked(p)) == ReadManifest(v, Unpacked(p));
    InstalledAlike(w, v, lock.packages);
    if ReadManifest(w, Unpacked(p)).Some? {
      ReleaseIgnoresManifests(w, v, p, lock, {});
    }
  }

  lemma InstalledAlike(w: World, v: World, packages: seq<LockedPackage>)
    requires v == w.(manifests := v.manifests)
    ensures Installed(w, packages) <==> Installed(v, packages)
  {
    assert forall p :: ReadLocked(w, p) == ReadLocked(v, p);
  }

  // Resolution reads them only through the order of their dependencies.

  lemma {:induction false} ResolvesAlike(w: World, v: World, project: Directory, dir: Directory, source: LockedSource,
                                         stack: set<Name>)
    requires Lawful(w) && Rearranged(w, v) && ReadManifest(w, Local(dir)).Some? && ReadManifest(v, Local(dir)).Some?
    ensures SameSuccess(Resolve(w, project, dir, source, stack), Resolve(v, project, dir, source, stack))
    decreases LocalNames(w) - stack, 1, 0
  {
    var m, n := ReadManifest(w, Local(dir)).value, ReadManifest(v, Local(dir)).value;
    ManifestsShuffled(w, v, dir);
    if m.name !in stack {
      var inner := stack + {m.name};
      forall d | d in m.dependencies
        ensures SameSuccess(ResolveChild(w, project, dir, inner, d), ResolveChild(v, project, dir, inner, d))
      {
        ChildResolvesAlike(w, v, project, dir, inner, d);
      }
      ClosuresAreSorted(w, project, dir, inner, m.dependencies);
      GathersAlike(w, v, project, dir, inner, m, n);
      FinishesAlike(w, v, project, dir, source, inner, m, n);
    }
  }

  lemma ClosuresAreSorted(w: World, project: Directory, dir: Directory, stack: set<Name>, deps: seq<Dependency>)
    requires Lawful(w) && ReadManifest(w, Local(dir)).Some?
    ensures ChildrenSorted(deps, Children(w, project, dir, stack))
  {
    forall d | d in deps && ResolveChild(w, project, dir, stack, d).Ok?
      ensures Sorted(ResolveChild(w, project, dir, stack, d).value.1.packages)
    {
      ResolveChildIsSound(w, project, dir, stack, d);
    }
  }

  lemma {:induction false} ChildResolvesAlike(w: World, v: World, project: Directory, dir: Directory, stack: set<Name>,
                                              d: Dependency)
    requires Lawful(w) && Rearranged(w, v) && ReadManifest(w, Local(dir)).Some? && ReadManifest(v, Local(dir)).Some?
    ensures SameSuccess(ResolveChild(w, project, dir, stack, d), ResolveChild(v, project, dir, stack, d))
    decreases LocalNames(w) - stack, 2, 0
  {
    match d.acquisition
    case ByPath(path) =>
      var child := Canonicalize(w.tree, dir, path);
      if child.Some? {
        ManifestsShuffled(w, v, child.value);
        if ReadManifest(w, Local(child.value)).Some? {
          ResolvesAlike(w, v, project, child.value, SourceOf(child.value, project), stack);
        }
      }
    case ByVersion(requirement, registry) =>
      ManifestsShuffled(w, v, dir);
      ReleaseResolvesAlike(w, v, ReadManifest(w, Local(dir)).value, ReadManifest(v, Local(dir)).value, d.package,
                           requirement, registry);
  }

  lemma {:induction false} SameChildrenGather(m: Manifest, n: Manifest, deps: seq<Dependency>, g: Gathered,
                                              a: ChildOfDependency, b: ChildOfDependency)
    requires m.name == n.name && forall d :: d in deps ==> SameSuccess(a(d), b(d))
    ensures SameSuccess(GatherEach(m, deps, g, a), GatherEach(n, deps, g, b))
    decreases |deps|
  {
    if deps != [] {
      assert SameSuccess(a(deps[0]), b(deps[0]));
      if a(deps[0]).Ok? {
        var c := a(deps[0]).value;
        var next := Gather(m, deps[0], g, c.0, c.1);
        assert next == Gather(n, deps[0], g, c.0, c.1);
        if next.Ok? {
          SameChildrenGather(m, n, deps[1..], next.value, a, b);
        }
      }
    }
  }

  /** Everything the finished resolution uses of what was gathered. */
  predicate GatheredAlike(a: Result<Gathered, Error>, b: Result<Gathered, Error>) {
    && (a.Ok? <==> b.Ok?)
    && (a.Ok? ==> a.value.packages == b.value.packages && a.value.supplied == b.value.supplied
                  && SortDependencies(a.value.direct) == SortDependencies(b.value.direct))
  }

  lemma GathersAlike(w: World, v: World, project: Directory, dir: Directory, stack: set<Name>, m: Manifest, n: Manifest)
    requires ReadManifest(w, Local(dir)) == Some(m) && ReadManifest(v, Local(dir)) == Some(n) && m.name == n.name
    requires SameDependencies(m.dependencies, n.dependencies)
    requires ChildrenSorted(m.dependencies, Children(w, project, dir, stack))
    requires forall d :: d in m.dependencies ==>
               SameSuccess(ResolveChild(w, project, dir, stack, d), ResolveChild(v, project, dir, stack, d))
    ensures GatheredAlike(ResolveDependencies(w, project, dir, stack, 0, Gathered(map[], [], [])),
                          ResolveDependencies(v, project, dir, stack, 0, Gathered(map[], [], [])))
  {
    var start := Gathered(map[], [], []);
    ResolvingGathersEach(w, project, dir, stack, m, 0, start);
    ResolvingGathersEach(v, project, dir, stack, n, 0, start);
    assert m.dependencies[0..] == m.dependencies && n.dependencies[0..] == n.dependencies;
    var a, b := Children(w, project, dir, stack), Children(v, project, dir, stack);
    SameGathered(m, m.dependencies, n.dependencies, a);
    forall d | d in n.dependencies
      ensures SameSuccess(a(d), b(d))
    {
      assert d in m.dependencies;
    }
    SameChildrenGather(m, n, n.dependencies, start, a, b);
  }

  lemma FinishesAlike(w: World, v: World, project: Directory, dir: Directory, source: LockedSource, stack: set<Name>,
                      m: Manifest, n: Manifest)
    requires v == w.(manifests := v.manifests) && n == m.(dependencies := n.dependencies)
    requires ReadManifest(w, Local(dir)) == Some(m) && ReadManifest(v, Local(dir)) == Some(n)
    requires GatheredAlike(ResolveDependencies(w, project, dir, stack, 0, Gathered(map[], [], [])),
                           ResolveDependencies(v, project, dir, stack, 0, Gathered(map[], [], [])))
    ensures var a, b := ResolveDependencies(w, project, dir, stack, 0, Gathered(map[], [], [])),
                        ResolveDependencies(v, project, dir, stack, 0, Gathered(map[], [], []));
            a.Ok? ==> FinishResolution(w, dir, m, source, a.value) == FinishResolution(v, dir, n, source, b.value)
  {
  }

  /**
   Whatever order its manifests list their dependencies in, a project resolves to the same lock and
   graph, or to none.
   */
  lemma ManifestOrderIsIrrelevant(w: World, v: World, project: Directory)
    requires Lawful(w) && Rearranged(w, v) && ReadManifest(w, Local(project)).Some?
    requires ReadManifest(v, Local(project)).Some?
    ensures SameSuccess(ResolveLock(w, project), ResolveLock(v, project))
  {
    ManifestsShuffled(w, v, project);
    ResolvesAlike(w, v, project, project, PathSource(["."]), {});
  }
}
