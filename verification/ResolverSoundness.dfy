/**
 What every successful resolution produces: exactly the closure of the package, with
 agreeing edges, no cycle, and the digests of the compiled graph.
 */
module ResolverSoundness {
  import opened Wrappers
  import opened StringOrder
  import opened Graphs
  import opened LockModel
  import opened ProjectPaths
  import opened Resolver

  /**
   What is taken for granted of the compiler: the graph is rooted at the package, and
   its members are the package and the members supplied for its dependencies, whose
   digests it keeps.
   */
  ghost predicate CompilesSoundly(m: Manifest, supplied: map<string, PackageGraph>, g: PackageGraph) {
    && g.root == m.name
    && g.root in g.digests
    && (forall n :: n in g.digests ==> n == m.name || exists a :: a in supplied && n in supplied[a].digests)
    && (forall a, n :: a in supplied && n in supplied[a].digests ==>
          n in g.digests && (n != m.name ==> g.digests[n] == supplied[a].digests[n]))
  }

  /**
   The world outside the resolver: a canonical file tree, a sound compiler, and a cache that holds
   what was pulled.
   */
  ghost predicate Lawful(w: World) {
    && WellFormed(w.tree)
    && (forall root, supplied :: ReadManifest(w, root).Some? && w.compile(root, supplied).Some? ==>
          CompilesSoundly(ReadManifest(w, root).value, supplied, w.compile(root, supplied).value))
    && (forall prefix, name, version :: PullTag(w, prefix, name, version).Some? ==>
          w.cached(PullTag(w, prefix, name, version).value.manifestDigest) == PullTag(w, prefix, name, version))
  }

  predicate GraphCovers(digests: map<Name, Digest>, packages: seq<LockedPackage>) {
    && digests.Keys == Names(packages)
    && forall p :: p in packages ==> p.name in digests && digests[p.name] == p.digest
  }

  /** A finished resolution of the package `name` at `version`. */
  ghost predicate Sound(r: Resolution, name: Name, version: Version) {
    && ValidLock(Lock(name, r.packages))
    && r.graph.root == name
    && GraphCovers(r.graph.digests, r.packages)
    && Find(r.packages, name).value.version == version
  }

  /** What the loop over dependencies has established after `k` of them. */
  ghost predicate GatheredSoundly(g: Gathered, m: Manifest, k: nat)
    requires k <= |m.dependencies|
  {
    && Sorted(g.packages)
    && m.name !in Names(g.packages)
    && (forall p :: p in g.packages ==> DependenciesSorted(p.dependencies))
    && EdgesAgree(g.packages)
    && Acyclic(DependencyGraph(g.packages))
    && |g.direct| == k
    && (forall i :: 0 <= i < k ==> g.direct[i].name == m.dependencies[i].package && Satisfied(g.packages, g.direct[i]))
    && (forall n :: n in Names(g.packages) ==> ReachedFromDirect(g, n))
    && SuppliedCovers(g)
  }

  ghost predicate ReachedFromDirect(g: Gathered, n: Name) {
    exists i :: 0 <= i < |g.direct| && Reaches(DependencyGraph(g.packages), g.direct[i].name, n)
  }

  /** The supplied graphs have exactly the gathered packages as members. */
  ghost predicate SuppliedCovers(g: Gathered) {
    && (forall a, n :: a in g.supplied && n in g.supplied[a].digests ==>
          Find(g.packages, n).Some? && Find(g.packages, n).value.digest == g.supplied[a].digests[n])
    && (forall n :: n in Names(g.packages) ==> exists a :: a in g.supplied && n in g.supplied[a].digests)
  }

  // ----- Closed collections inside larger ones -----

  predicate Within(part: seq<LockedPackage>, whole: seq<LockedPackage>) {
    forall p :: p in part ==> p in whole
  }

  lemma WithinFinds(part: seq<LockedPackage>, whole: seq<LockedPackage>, n: Name)
    requires Sorted(whole) && Within(part, whole) && n in Names(part)
    ensures Find(whole, n) == Find(part, n)
  {
    SortedFind(whole, Find(part, n).value);
  }

  /** A closed part keeps its edges inside the whole, and the whole adds none to it. */
  lemma WithinGraph(part: seq<LockedPackage>, whole: seq<LockedPackage>)
    requires Sorted(whole) && Within(part, whole)
    ensures Names(part) <= Names(whole)
    ensures SubGraph(DependencyGraph(part), DependencyGraph(whole))
    ensures forall n :: n in Names(part) ==> DependencyGraph(whole)[n] == DependencyGraph(part)[n]
    ensures EdgesAgree(part) ==> Closed(DependencyGraph(whole), Names(part))
  {
    forall n | n in Names(part)
      ensures n in Names(whole) && DependencyGraph(whole)[n] == DependencyGraph(part)[n]
    {
      WithinFinds(part, whole, n);
    }
    if EdgesAgree(part) {
      forall n | n in Names(part)
        ensures DependencyGraph(whole)[n] <= Names(part)
      {
        var p := Find(part, n).value;
        forall d | d in p.dependencies
          ensures d.name in Names(part)
        {
          assert Satisfied(part, d);
        }
      }
    }
  }

  lemma WithinSatisfied(part: seq<LockedPackage>, whole: seq<LockedPackage>, d: LockedDependency)
    requires Sorted(whole) && Within(part, whole) && Satisfied(part, d)
    ensures Satisfied(whole, d)
  {
    WithinFinds(part, whole, d.name);
  }

  /** A walk in the whole that starts in a closed part is a walk in the part. */
  lemma WithinPath(part: seq<LockedPackage>, whole: seq<LockedPackage>, path: seq<Name>)
    requires Sorted(whole) && Within(part, whole) && EdgesAgree(part)
    requires IsPath(DependencyGraph(whole), path) && path[0] in Names(part)
    ensures IsPath(DependencyGraph(part), path) && path[|path| - 1] in Names(part)
  {
    WithinGraph(part, whole);
    PathStaysInside(DependencyGraph(whole), Names(part), path);
    forall i | 0 <= i < |path| - 1
      ensures Edge(DependencyGraph(part), path[i], path[i + 1])
    {
      assert Edge(DependencyGraph(whole), path[i], path[i + 1]);
    }
  }

  /** The union of two closed, agreeing, acyclic collections is one too. */
  lemma UnionIsSound(a: seq<LockedPackage>, b: seq<LockedPackage>, u: seq<LockedPackage>)
    requires Sorted(u) && forall p :: p in u <==> p in a || p in b
    requires EdgesAgree(a) && EdgesAgree(b)
    requires Acyclic(DependencyGraph(a)) && Acyclic(DependencyGraph(b))
    ensures EdgesAgree(u) && Acyclic(DependencyGraph(u))
    ensures Names(u) == Names(a) + Names(b)
  {
    forall p, d | p in u && d in p.dependencies
      ensures Satisfied(u, d)
    {
      if p in a {
        WithinSatisfied(a, u, d);
      } else {
        WithinSatisfied(b, u, d);
      }
    }
    WithinGraph(a, u);
    WithinGraph(b, u);
    forall path | IsPath(DependencyGraph(u), path) && |path| >= 2
      ensures path[0] != path[|path| - 1]
    {
      assert Edge(DependencyGraph(u), path[0], path[1]);
      if path[0] in Names(a) {
        WithinPath(a, u, path);
      } else {
        WithinPath(b, u, path);
      }
    }
  }

  // ----- One more dependency -----

  /** What was reached from a direct edge stays reached in a larger collection. */
  lemma ReachStays(g: Gathered, next: Gathered, n: Name)
    requires Sorted(next.packages) && Within(g.packages, next.packages) && ReachedFromDirect(g, n)
    requires |g.direct| <= |next.direct| && next.direct[..|g.direct|] == g.direct
    ensures ReachedFromDirect(next, n)
  {
    WithinGraph(g.packages, next.packages);
    var i :| 0 <= i < |g.direct| && Reaches(DependencyGraph(g.packages), g.direct[i].name, n);
    ReachesMonotone(DependencyGraph(g.packages), DependencyGraph(next.packages), g.direct[i].name, n);
    assert next.direct[i] == next.direct[..|g.direct|][i];
  }

  /** What the new child reaches is reached from its direct edge. */
  lemma ReachStarts(next: Gathered, k: nat, child: seq<LockedPackage>, n: Name)
    requires Sorted(next.packages) && Within(child, next.packages) && k < |next.direct|
    requires Reaches(DependencyGraph(child), next.direct[k].name, n)
    ensures ReachedFromDirect(next, n)
  {
    WithinGraph(child, next.packages);
    ReachesMonotone(DependencyGraph(child), DependencyGraph(next.packages), next.direct[k].name, n);
  }

  lemma GatherKeepsReach(g: Gathered, next: Gathered, child: seq<LockedPackage>, root: Name)
    requires forall n :: n in Names(g.packages) ==> ReachedFromDirect(g, n)
    requires Sorted(next.packages) && Within(g.packages, next.packages) && Within(child, next.packages)
    requires Names(next.packages) == Names(g.packages) + Names(child)
    requires |next.direct| == |g.direct| + 1 && next.direct[..|g.direct|] == g.direct
    requires next.direct[|g.direct|].name == root
    requires forall n :: n in Names(child) ==> Reaches(DependencyGraph(child), root, n)
    ensures forall n :: n in Names(next.packages) ==> ReachedFromDirect(next, n)
  {
    forall n | n in Names(next.packages)
      ensures ReachedFromDirect(next, n)
    {
      if n in Names(child) {
        ReachStarts(next, |g.direct|, child, n);
      } else {
        ReachStays(g, next, n);
      }
    }
  }

  lemma GatherKeepsCover(g: Gathered, alias: string, child: Resolution, next: Gathered)
    requires SuppliedCovers(g) && GraphCovers(child.graph.digests, child.packages)
    requires alias !in g.supplied && next.supplied == g.supplied[alias := child.graph]
    requires Sorted(next.packages) && Within(g.packages, next.packages) && Within(child.packages, next.packages)
    requires Names(next.packages) == Names(g.packages) + Names(child.packages)
    ensures SuppliedCovers(next)
  {
    forall a, n | a in next.supplied && n in next.supplied[a].digests
      ensures Find(next.packages, n).Some? && Find(next.packages, n).value.digest == next.supplied[a].digests[n]
    {
      if a == alias {
        WithinFinds(child.packages, next.packages, n);
      } else {
        assert a in g.supplied && n in g.supplied[a].digests;
        assert Find(g.packages, n).Some?;
        WithinFinds(g.packages, next.packages, n);
      }
    }
    forall n | n in Names(next.packages)
      ensures exists a :: a in next.supplied && n in next.supplied[a].digests
    {
      if n in Names(child.packages) {
        assert alias in next.supplied && n in next.supplied[alias].digests;
      } else {
        var a :| a in g.supplied && n in g.supplied[a].digests;
        assert a in next.supplied && n in next.supplied[a].digests;
      }
    }
  }

  predicate LaterAliasesUnused(g: Gathered, m: Manifest, k: nat) {
    forall i :: k <= i < |m.dependencies| ==> m.dependencies[i].alias !in g.supplied
  }

  lemma GatherIsSound(m: Manifest, k: nat, g: Gathered, version: Version, child: Resolution)
    requires ManifestValid(m) && k < |m.dependencies|
    requires GatheredSoundly(g, m, k)
    requires LaterAliasesUnused(g, m, k)
    requires Sound(child, m.dependencies[k].package, version)
    requires Gather(m, m.dependencies[k], g, version, child).Ok?
    ensures var next := Gather(m, m.dependencies[k], g, version, child).value;
            && GatheredSoundly(next, m, k + 1) && LaterAliasesUnused(next, m, k + 1)
            && Within(g.packages, next.packages) && Within(child.packages, next.packages)
  {
    MergeIsUnion(g.packages, child.packages);
    NextIsSound(m, k, g, version, child, Gather(m, m.dependencies[k], g, version, child).value);
  }

  lemma NextIsSound(m: Manifest, k: nat, g: Gathered, version: Version, child: Resolution, next: Gathered)
    requires ManifestValid(m) && k < |m.dependencies| && GatheredSoundly(g, m, k) && LaterAliasesUnused(g, m, k)
    requires Sound(child, m.dependencies[k].package, version) && m.name !in Names(child.packages)
    requires Sorted(next.packages) && forall p :: p in next.packages <==> p in g.packages || p in child.packages
    requires next.supplied == g.supplied[m.dependencies[k].alias := child.graph]
    requires next.direct == g.direct + [LockedDependency(m.dependencies[k].package, version, RootDigest(child.graph))]
    ensures GatheredSoundly(next, m, k + 1) && LaterAliasesUnused(next, m, k + 1)
    ensures Within(g.packages, next.packages) && Within(child.packages, next.packages)
  {
    var d := m.dependencies[k];
    UnionIsSound(g.packages, child.packages, next.packages);
    GatherKeepsEdges(m, k, g, child.packages, next);
    GatherKeepsReach(g, next, child.packages, d.package);
    GatherKeepsCover(g, d.alias, child, next);
  }

  lemma GatherKeepsEdges(m: Manifest, k: nat, g: Gathered, child: seq<LockedPackage>, next: Gathered)
    requires k < |m.dependencies| && |g.direct| == k
    requires forall i :: 0 <= i < k ==>
               g.direct[i].name == m.dependencies[i].package && Satisfied(g.packages, g.direct[i])
    requires Sorted(next.packages) && Within(g.packages, next.packages) && Within(child, next.packages)
    requires |next.direct| == k + 1 && next.direct[..k] == g.direct
    requires next.direct[k].name == m.dependencies[k].package && Satisfied(child, next.direct[k])
    ensures forall i :: 0 <= i < k + 1 ==>
              next.direct[i].name == m.dependencies[i].package && Satisfied(next.packages, next.direct[i])
  {
    forall i | 0 <= i < k + 1
      ensures next.direct[i].name == m.dependencies[i].package && Satisfied(next.packages, next.direct[i])
    {
      if i < k {
        assert next.direct[i] == next.direct[..k][i];
        WithinSatisfied(g.packages, next.packages, g.direct[i]);
      } else {
        WithinSatisfied(child, next.packages, next.direct[k]);
      }
    }
  }

  // ----- The package's own entry -----

  lemma OwnEntryIsSound(m: Manifest, g: Gathered, own: LockedPackage, packages: seq<LockedPackage>)
    requires ManifestValid(m) && GatheredSoundly(g, m, |m.dependencies|)
    requires own.name == m.name && own.dependencies == SortDependencies(g.direct)
    requires packages == Insert(g.packages, own)
    ensures ValidLock(Lock(m.name, packages)) && Within(g.packages, packages) && Find(packages, m.name) == Some(own)
    ensures Names(packages) == Names(g.packages) + {m.name}
  {
    DirectNamesAreDistinct(m, g);
    SortDependenciesSorts(g.direct);
    OwnEntryIsAdded(g.packages, own);
    assert forall d :: d in own.dependencies ==> Satisfied(g.packages, d);
    OwnEntryAgrees(g.packages, own, packages);
    OwnEntryReaches(g, own, packages);
    OwnEntryIsAcyclic(g.packages, own, packages);
  }

  lemma DirectNamesAreDistinct(m: Manifest, g: Gathered)
    requires ManifestValid(m) && |g.direct| == |m.dependencies|
    requires forall i :: 0 <= i < |g.direct| ==> g.direct[i].name == m.dependencies[i].package
    ensures forall i, j :: 0 <= i < j < |g.direct| ==> g.direct[i].name != g.direct[j].name
  {
  }

  lemma OwnEntryIsAdded(packages: seq<LockedPackage>, own: LockedPackage)
    requires Sorted(packages) && own.name !in Names(packages)
    ensures var grown := Insert(packages, own);
            && Sorted(grown) && Find(grown, own.name) == Some(own)
            && Names(grown) == Names(packages) + {own.name}
            && forall q :: q in grown <==> q == own || q in packages
  {
    var grown := Insert(packages, own);
    InsertKeepsOrder(packages, own);
    SortedFind(grown, own);
    forall q | q in packages
      ensures q in grown
    {
      assert q.name in Names(packages);
    }
  }

  lemma OwnEntryAgrees(packages: seq<LockedPackage>, own: LockedPackage, grown: seq<LockedPackage>)
    requires Sorted(grown) && forall q :: q in grown <==> q == own || q in packages
    requires EdgesAgree(packages) && forall d :: d in own.dependencies ==> Satisfied(packages, d)
    ensures EdgesAgree(grown)
  {
    forall p, d | p in grown && d in p.dependencies
      ensures Satisfied(grown, d)
    {
      assert Satisfied(packages, d);
      WithinSatisfied(packages, grown, d);
    }
  }

  lemma OwnEntryReaches(g: Gathered, own: LockedPackage, packages: seq<LockedPackage>)
    requires forall n :: n in Names(g.packages) ==> ReachedFromDirect(g, n)
    requires Sorted(packages) && Within(g.packages, packages) && Find(packages, own.name) == Some(own)
    requires Names(packages) == Names(g.packages) + {own.name}
    requires forall d :: d in own.dependencies <==> d in g.direct
    ensures forall n :: n in Names(packages) ==> Reaches(DependencyGraph(packages), own.name, n)
  {
    ReachesSelf(DependencyGraph(packages), own.name);
    forall n | n in Names(g.packages)
      ensures Reaches(DependencyGraph(packages), own.name, n)
    {
      OwnEntryReachesOne(g, own, packages, n);
    }
  }

  lemma OwnEntryReachesOne(g: Gathered, own: LockedPackage, packages: seq<LockedPackage>, n: Name)
    requires ReachedFromDirect(g, n)
    requires Sorted(packages) && Within(g.packages, packages) && Find(packages, own.name) == Some(own)
    requires forall d :: d in own.dependencies <==> d in g.direct
    ensures Reaches(DependencyGraph(packages), own.name, n)
  {
    var graph := DependencyGraph(packages);
    var i :| 0 <= i < |g.direct| && Reaches(DependencyGraph(g.packages), g.direct[i].name, n);
    WithinGraph(g.packages, packages);
    ReachesMonotone(DependencyGraph(g.packages), graph, g.direct[i].name, n);
    assert g.direct[i] in own.dependencies;
    assert Edge(graph, own.name, g.direct[i].name);
    ReachesStep(graph, own.name, g.direct[i].name, n);
  }

  lemma OwnEntryIsAcyclic(packages: seq<LockedPackage>, own: LockedPackage, grown: seq<LockedPackage>)
    requires EdgesAgree(packages) && Acyclic(DependencyGraph(packages)) && own.name !in Names(packages)
    requires Sorted(grown) && Within(packages, grown) && Find(grown, own.name) == Some(own)
    requires Names(grown) == Names(packages) + {own.name}
    requires forall d :: d in own.dependencies ==> Satisfied(packages, d)
    ensures Acyclic(DependencyGraph(grown))
  {
    forall path | IsPath(DependencyGraph(grown), path) && |path| >= 2
      ensures path[0] != path[|path| - 1]
    {
      if path[0] in Names(packages) {
        WithinPath(packages, grown, path);
      } else {
        OwnEntryStartsNoCycle(packages, own, grown, path);
      }
    }
  }

  lemma OwnEntryStartsNoCycle(packages: seq<LockedPackage>, own: LockedPackage, grown: seq<LockedPackage>,
                              path: seq<Name>)
    requires EdgesAgree(packages) && own.name !in Names(packages)
    requires Sorted(grown) && Within(packages, grown) && Find(grown, own.name) == Some(own)
    requires Names(grown) == Names(packages) + {own.name}
    requires forall d :: d in own.dependencies ==> Satisfied(packages, d)
    requires IsPath(DependencyGraph(grown), path) && |path| >= 2 && path[0] !in Names(packages)
    ensures path[0] != path[|path| - 1]
  {
    var graph := DependencyGraph(grown);
    assert Edge(graph, path[0], path[1]);
    assert graph[own.name] == DependencyNames(own);
    var d :| d in own.dependencies && d.name == path[1];
    assert Satisfied(packages, d);
    PathTail(graph, path);
    WithinPath(packages, grown, path[1..]);
  }

  lemma FinishIsSound(w: World, dir: Directory, source: LockedSource, g: Gathered)
    requires Lawful(w) && ReadManifest(w, Local(dir)).Some?
    requires var m := ReadManifest(w, Local(dir)).value; GatheredSoundly(g, m, |m.dependencies|)
    requires FinishResolution(w, dir, ReadManifest(w, Local(dir)).value, source, g).Ok?
    ensures var m := ReadManifest(w, Local(dir)).value;
            var r := FinishResolution(w, dir, m, source, g).value;
            && Sound(r, m.name, m.version) && Within(g.packages, r.packages)
            && Find(r.packages, m.name).value.source == source
  {
    var m := ReadManifest(w, Local(dir)).value;
    var r := FinishResolution(w, dir, m, source, g).value;
    assert CompilesSoundly(m, g.supplied, r.graph);
    var own := LockedPackage(m.name, m.version, RootDigest(r.graph),
                             w.archive(Local(dir), RootDigest(r.graph), SortDependencies(g.direct), g.packages).value,
                             SortDependencies(g.direct), source);
    assert r.packages == Insert(g.packages, own);
    OwnEntryIsSound(m, g, own, r.packages);
    FinishCovers(m, g, own, r);
  }

  lemma FinishCovers(m: Manifest, g: Gathered, own: LockedPackage, r: Resolution)
    requires SuppliedCovers(g) && CompilesSoundly(m, g.supplied, r.graph)
    requires own.name == m.name && own.digest == RootDigest(r.graph)
    requires Sorted(r.packages) && Within(g.packages, r.packages) && Find(r.packages, m.name) == Some(own)
    requires Names(r.packages) == Names(g.packages) + {m.name} && m.name !in Names(g.packages)
    ensures GraphCovers(r.graph.digests, r.packages)
  {
    forall p | p in r.packages
      ensures p.name in r.graph.digests && r.graph.digests[p.name] == p.digest
    {
      SortedFind(r.packages, p);
      assert p.name in Names(r.packages);
      if p.name != m.name {
        WithinFinds(g.packages, r.packages, p.name);
        SuppliedDigest(m, g, r.graph, p.name);
      }
    }
    forall n | n in r.graph.digests
      ensures n in Names(r.packages)
    {
      if n != m.name {
        var a :| a in g.supplied && n in g.supplied[a].digests;
        assert Find(g.packages, n).Some?;
      }
    }
    assert r.graph.digests.Keys == Names(r.packages);
  }

  lemma SuppliedDigest(m: Manifest, g: Gathered, graph: PackageGraph, n: Name)
    requires SuppliedCovers(g) && CompilesSoundly(m, g.supplied, graph) && n in Names(g.packages) && n != m.name
    ensures n in graph.digests && graph.digests[n] == Find(g.packages, n).value.digest
  {
    var a :| a in g.supplied && n in g.supplied[a].digests;
  }

  // ----- Counting a sorted collection -----

  lemma {:induction false} SortedCount(packages: seq<LockedPackage>)
    requires Sorted(packages)
    ensures |Names(packages)| == |packages|
  {
    if packages != [] {
      SortedTail(packages);
      SortedCount(packages[1..]);
      assert packages == [packages[0]] + packages[1..];
      assert Names(packages) == {packages[0].name} + Names(packages[1..]);
      LessIsIrreflexive(packages[0].name);
      assert packages[0].name !in Names(packages[1..]);
    }
  }

  lemma MatchedGraphCovers(lock: Lock, m: Manifest, graph: PackageGraph)
    requires LockMatchesGraph(lock, m, graph)
    ensures GraphCovers(graph.digests, lock.packages)
  {
    SortedCount(lock.packages);
    assert |graph.digests.Keys| == |graph.digests|;
    SubsetOfSameSize(Names(lock.packages), graph.digests.Keys);
  }

  // ----- Whole resolutions -----

  lemma ReleaseIsSound(w: World, m: Manifest, package: Name, requirement: string, registry: Option<string>)
    requires ResolveRelease(w, m, package, requirement, registry).Ok?
    ensures var (version, r) := ResolveRelease(w, m, package, requirement, registry).value;
            Sound(r, package, version)
  {
    var prefix := RegistryPrefix(m, registry).value;
    var version := SelectVersion(w, w.versions(prefix, package), requirement).value;
    var p := PullTag(w, prefix, package, version).value;
    var source := RegistrySource(prefix, p.manifestDigest);
    var lock := PulledLock(p, source);
    var graph := CompileLocked(w, [], Unpacked(p), lock, {}).value;
    MatchedGraphCovers(lock, p.manifest, graph);
    PulledOwnEntry(p, source);
  }

  lemma PulledOwnEntry(p: SourcePackage, source: LockedSource)
    requires PulledLockValid(p, source)
    ensures Find(PulledLock(p, source).packages, p.name)
         == Some(LockedPackage(p.name, p.version, p.packageDigest, p.distributionDigest, p.frozenDependencies, source))
  {
    var own := LockedPackage(p.name, p.version, p.packageDigest, p.distributionDigest, p.frozenDependencies, source);
    InsertContains(p.frozenPackages, own);
    SortedFind(PulledLock(p, source).packages, own);
  }

  lemma {:induction false} InsertContains(packages: seq<LockedPackage>, p: LockedPackage)
    ensures p in Insert(packages, p)
    ensures forall q :: q in Insert(packages, p) ==> q == p || q in packages
  {
    if packages != [] && !Less(p.name, packages[0].name) && packages[0].name != p.name {
      InsertContains(packages[1..], p);
    }
  }

  lemma {:induction false} ResolveIsSound(w: World, project: Directory, dir: Directory, source: LockedSource,
                                          stack: set<Name>)
    requires Lawful(w) && ReadManifest(w, Local(dir)).Some?
    requires Resolve(w, project, dir, source, stack).Ok?
    ensures var m := ReadManifest(w, Local(dir)).value;
            var r := Resolve(w, project, dir, source, stack).value;
            Sound(r, m.name, m.version) && Find(r.packages, m.name).value.source == source
    decreases LocalNames(w) - stack, 1, 0
  {
    var m := ReadManifest(w, Local(dir)).value;
    var start := Gathered(map[], [], []);
    EmptyIsSound(m);
    ResolveDependenciesAreSound(w, project, dir, stack + {m.name}, 0, start);
    FinishIsSound(w, dir, source, ResolveDependencies(w, project, dir, stack + {m.name}, 0, start).value);
  }

  lemma EmptyIsSound(m: Manifest)
    ensures GatheredSoundly(Gathered(map[], [], []), m, 0)
  {
    assert forall path :: IsPath(DependencyGraph([]), path) && |path| >= 2 ==>
             Edge(DependencyGraph([]), path[0], path[1]);
  }

  lemma {:induction false} ResolveDependenciesAreSound(w: World, project: Directory, dir: Directory, stack: set<Name>,
                                                       k: nat, g: Gathered)
    requires Lawful(w) && ReadManifest(w, Local(dir)).Some? && k <= |ReadManifest(w, Local(dir)).value.dependencies|
    requires GatheredSoundly(g, ReadManifest(w, Local(dir)).value, k)
    requires LaterAliasesUnused(g, ReadManifest(w, Local(dir)).value, k)
    requires ResolveDependencies(w, project, dir, stack, k, g).Ok?
    ensures var m := ReadManifest(w, Local(dir)).value;
            var final := ResolveDependencies(w, project, dir, stack, k, g).value;
            GatheredSoundly(final, m, |m.dependencies|) && Within(g.packages, final.packages)
    decreases LocalNames(w) - stack, 3, |ReadManifest(w, Local(dir)).value.dependencies| - k
  {
    var m := ReadManifest(w, Local(dir)).value;
    if k < |m.dependencies| {
      ResolveChildIsSound(w, project, dir, stack, m.dependencies[k]);
      var child := ResolveChild(w, project, dir, stack, m.dependencies[k]).value;
      GatherIsSound(m, k, g, child.0, child.1);
      var next := Gather(m, m.dependencies[k], g, child.0, child.1).value;
      ResolveDependenciesAreSound(w, project, dir, stack, k + 1, next);
      var final := ResolveDependencies(w, project, dir, stack, k, g).value;
      assert final == ResolveDependencies(w, project, dir, stack, k + 1, next).value;
    }
  }

  lemma {:induction false} ResolveChildIsSound(w: World, project: Directory, dir: Directory, stack: set<Name>,
                                               d: Dependency)
    requires Lawful(w) && ReadManifest(w, Local(dir)).Some?
    requires ResolveChild(w, project, dir, stack, d).Ok?
    ensures var (version, r) := ResolveChild(w, project, dir, stack, d).value;
            Sound(r, d.package, version)
    decreases LocalNames(w) - stack, 2, 0
  {
    match d.acquisition
    case ByPath(path) =>
      var child := Canonicalize(w.tree, dir, path).value;
      ResolveIsSound(w, project, child, SourceOf(child, project), stack);
    case ByVersion(requirement, registry) =>
      ReleaseIsSound(w, ReadManifest(w, Local(dir)).value, d.package, requirement, registry);
  }
}
