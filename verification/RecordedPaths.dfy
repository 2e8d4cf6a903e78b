/**
 When the lock that resolution writes can be verified: exactly when every recorded path
 leads back to its directory, which is when the names on it are text.
 */
module RecordedPaths {
  import opened Wrappers
  import opened Graphs
  import opened LockModel
  import opened ProjectPaths
  import opened Resolver
  import opened VerifierSteps
  import opened ResolverSoundness
  import opened DirectoryWalks
  import opened ResolverAgreement

  // ----- A child's closure is part of its parent's -----

  lemma {:induction false} ChildWithin(w: World, project: Directory, dir: Directory, stack: set<Name>, m: Manifest,
                                       k: nat, g: Gathered, final: Gathered, i: nat)
    requires Lawful(w) && ReadManifest(w, Local(dir)) == Some(m) && k <= i < |m.dependencies|
    requires GatheredSoundly(g, m, k) && LaterAliasesUnused(g, m, k)
    requires ResolveDependencies(w, project, dir, stack, k, g) == Ok(final)
    ensures ResolveChild(w, project, dir, stack, m.dependencies[i]).Ok?
    ensures Within(ResolveChild(w, project, dir, stack, m.dependencies[i]).value.1.packages, final.packages)
    decreases i - k
  {
    var child := ResolveChild(w, project, dir, stack, m.dependencies[k]).value;
    var next := Gather(m, m.dependencies[k], g, child.0, child.1).value;
    assert ResolveDependencies(w, project, dir, stack, k + 1, next) == Ok(final);
    ResolveChildIsSound(w, project, dir, stack, m.dependencies[k]);
    GatherIsSound(m, k, g, child.0, child.1);
    if k < i {
      ChildWithin(w, project, dir, stack, m, k + 1, next, final, i);
    } else {
      ResolveDependenciesAreSound(w, project, dir, stack, k + 1, next);
    }
  }

  lemma EdgeWithin(w: World, project: Directory, a: Directory, b: Directory, source: LockedSource, stack: set<Name>,
                   r: Resolution, child: Resolution)
    requires Lawful(w) && Edge(DirectoryGraph(w), a, b) && Resolves(w, project, a, source, stack, r)
    requires Resolves(w, project, b, SourceOf(b, project), stack + {w.manifests[a].name}, child)
    ensures Within(child.packages, r.packages)
  {
    var k := EdgeDependsAt(w, a, b);
    var m := w.manifests[a];
    var start := Gathered(map[], [], []);
    EmptyIsSound(m);
    var g := ResolveDependencies(w, project, a, stack + {m.name}, 0, start).value;
    ChildWithin(w, project, a, stack + {m.name}, m, 0, start, g, k);
    ResolveDependenciesAreSound(w, project, a, stack + {m.name}, 0, start);
    FinishIsSound(w, a, source, g);
  }

  // ----- A verified package had each dependency located and verified -----

  lemma {:induction false} DependencyVerified(w: World, project: Directory, root: PackageRoot, m: Manifest, lock: Lock,
                                              stack: set<Name>, k: nat, v: Verified, final: Verified, i: nat)
    returns (at: (LockedPackage, PackageRoot), child: Manifest, graph: PackageGraph)
    requires ReadManifest(w, root) == Some(m) && k <= i < |m.dependencies|
    requires CompileDependencies(w, project, root, lock, stack, k, v) == Ok(final)
    ensures NextVerified(w, project, root, m, lock, stack, i, at, child, graph)
    decreases i - k
  {
    at, child, graph := VerifiedOneMore(w, project, root, m, lock, stack, k, v);
    if k < i {
      var next := Verified(v.supplied[m.dependencies[k].alias := graph], v.exact + [EdgeTo(at.0)]);
      at, child, graph := DependencyVerified(w, project, root, m, lock, stack, k + 1, next, final, i);
    }
  }

  ghost predicate Verifies(w: World, project: Directory, dir: Directory, lock: Lock, stack: set<Name>) {
    ReadManifest(w, Local(dir)).Some? && CompileLocked(w, project, Local(dir), lock, stack).Ok?
  }

  /** Dependency `k` of directory `a` names the package in directory `b` and leads there. */
  predicate Declares(w: World, a: Directory, b: Directory, k: nat) {
    && a in w.manifests && b in w.manifests && ReadManifest(w, Local(a)) == Some(w.manifests[a])
    && DependsAt(w, a, k, b)
    && w.manifests[a].dependencies[k].package == w.manifests[b].name
  }

  lemma ResolvedEdgeDeclares(w: World, project: Directory, a: Directory, b: Directory, source: LockedSource,
                             stack: set<Name>, r: Resolution)
    returns (k: nat)
    requires Edge(DirectoryGraph(w), a, b) && Resolves(w, project, a, source, stack, r)
    ensures Declares(w, a, b, k)
  {
    k := EdgeDependsAt(w, a, b);
    DependencyOk(w, project, a, stack + {w.manifests[a].name}, w.manifests[a], 0, Gathered(map[], [], []), k);
  }

  /** Verifying a package that resolved proves that the path recorded for its dependency leads back. */
  lemma EdgeLeadsBack(w: World, project: Directory, a: Directory, b: Directory, k: nat, child: Resolution,
                      stack: set<Name>, lock: Lock, outer: set<Name>)
    requires Lawful(w) && Declares(w, a, b, k) && Verifies(w, project, a, lock, outer)
    requires Resolves(w, project, b, SourceOf(b, project), stack, child)
    requires Sorted(lock.packages) && Within(child.packages, lock.packages)
    ensures LeadsBack(w, project, b) && Verifies(w, project, b, lock, outer + {w.manifests[a].name})
  {
    var m := w.manifests[a];
    var v := LockedSteps(w, project, Local(a), m, lock, outer);
    var at, found, graph :=
      DependencyVerified(w, project, Local(a), m, lock, outer + {m.name}, 0, Verified(map[], []), v, k);
    LocatedIsLocal(w, project, a, b, m.dependencies[k], child, stack, lock, Recorded(b, project));
  }

  lemma LocatedIsLocal(w: World, project: Directory, a: Directory, b: Directory, d: Dependency, child: Resolution,
                       stack: set<Name>, lock: Lock, path: RelativePath)
    requires Lawful(w) && a in w.manifests && b in w.manifests && ChildOf(w, a, d) == Some(b)
    requires d.package == w.manifests[b].name
    requires SourceOf(b, project) == PathSource(path) && Resolves(w, project, b, PathSource(path), stack, child)
    requires Sorted(lock.packages) && Within(child.packages, lock.packages)
    requires Locate(w, project, Local(a), w.manifests[a], lock, d).Ok?
    ensures Locate(w, project, Local(a), w.manifests[a], lock, d).value.1 == Local(b)
    ensures Canonicalize(w.tree, project, path) == Some(b)
  {
    ResolveIsSound(w, project, b, PathSource(path), stack);
    SoundEntry(child, d.package, w.manifests[b].version, lock);
    LocatesLocal(w, project, a, w.manifests[a], d, Find(lock.packages, d.package).value, path, b);
  }

  lemma {:induction false} WalkLeadsBack(w: World, project: Directory, path: seq<Directory>, source: LockedSource,
                                         stack: set<Name>, r: Resolution, lock: Lock, outer: set<Name>)
    requires Lawful(w) && IsPath(DirectoryGraph(w), path) && |path| >= 2
    requires Resolves(w, project, path[0], source, stack, r) && Verifies(w, project, path[0], lock, outer)
    requires Sorted(lock.packages) && Within(r.packages, lock.packages)
    ensures LeadsBack(w, project, path[|path| - 1])
    decreases |path|
  {
    var a, b := path[0], path[1];
    assert Edge(DirectoryGraph(w), a, b);
    var child := EdgeOk(w, project, a, b, source, stack, r);
    EdgeWithin(w, project, a, b, source, stack, r, child);
    var k := ResolvedEdgeDeclares(w, project, a, b, source, stack, r);
    EdgeLeadsBack(w, project, a, b, k, child, stack + {w.manifests[a].name}, lock, outer);
    if |path| > 2 {
      PathTail(DirectoryGraph(w), path);
      WalkLeadsBack(w, project, path[1..], SourceOf(b, project), stack + {w.manifests[a].name}, child, lock,
                    outer + {w.manifests[a].name});
    }
  }

  lemma VerifiedLockLeadsBack(w: World, project: Directory)
    requires Lawful(w) && ReadManifest(w, Local(project)).Some? && ResolveLock(w, project).Ok?
    requires CompileProject(w, project, ResolveLock(w, project).value.0).Ok?
    ensures AllLeadBack(w, project, project)
  {
    var g := DirectoryGraph(w);
    var lock := ResolveLock(w, project).value.0;
    var r := Resolve(w, project, project, PathSource(["."]), {}).value;
    ResolveIsSound(w, project, project, PathSource(["."]), {});
    forall a, b | Reaches(g, project, a) && Edge(g, a, b)
      ensures LeadsBack(w, project, b)
    {
      var path := WalkTo(g, project, a, b);
      WalkLeadsBack(w, project, path, PathSource(["."]), {}, r, lock, {});
    }
  }

  lemma WalkTo(g: Graph<Directory>, from: Directory, a: Directory, b: Directory) returns (path: seq<Directory>)
    requires Reaches(g, from, a) && Edge(g, a, b)
    ensures IsPath(g, path) && |path| >= 2 && path[0] == from && path[|path| - 1] == b
  {
    var front :| Connects(g, front, from, a);
    path := front + [b];
    forall i | 0 <= i < |path| - 1
      ensures Edge(g, path[i], path[i + 1])
    {
      if i < |front| - 1 {
        assert Edge(g, front[i], front[i + 1]);
      }
    }
  }

  /**
   The lock that resolution writes is always valid. Compiling from it succeeds exactly when
   every recorded path leads back, and then with the very graph that resolution compiled.
   */
  lemma ResolvedLockVerifiesExactly(w: World, project: Directory)
    requires Lawful(w) && project in w.tree.directories && ReadManifest(w, Local(project)).Some?
    requires ResolveLock(w, project).Ok?
    ensures var (lock, graph) := ResolveLock(w, project).value;
            && ValidLock(lock)
            && (CompileProject(w, project, lock).Ok? <==> AllLeadBack(w, project, project))
            && (CompileProject(w, project, lock).Ok? ==> CompileProject(w, project, lock) == Ok(graph))
  {
    ResolveIsSound(w, project, project, PathSource(["."]), {});
    if AllLeadBack(w, project, project) {
      ResolvedLockVerifies(w, project);
    }
    if CompileProject(w, project, ResolveLock(w, project).value.0).Ok? {
      VerifiedLockLeadsBack(w, project);
    }
  }

  // ----- Text -----

  /** Every directory that is a dependency of one reached from the project has a textual path from it. */
  ghost predicate AllAreText(w: World, project: Directory) {
    forall a, b :: Reaches(DirectoryGraph(w), project, a) && Edge(DirectoryGraph(w), a, b) ==>
      AllText(Below(b, project))
  }

  lemma ReachedIsDirectory(w: World, project: Directory, a: Directory, b: Directory)
    requires WellFormed(w.tree) && project in w.tree.directories
    requires Reaches(DirectoryGraph(w), project, a) && Edge(DirectoryGraph(w), a, b)
    ensures b in w.tree.directories
  {
    var g := DirectoryGraph(w);
    forall c, d | c in w.tree.directories && Edge(g, c, d)
      ensures d in w.tree.directories
    {
      var k := EdgeDependsAt(w, c, d);
      CanonicalizeIsCanonical(w.tree, c, w.manifests[c].dependencies[k].acquisition.path);
    }
    assert Closed(g, w.tree.directories) by {
      forall c, d | c in w.tree.directories && c in g && d in g[c]
        ensures d in w.tree.directories
      {
        assert Edge(g, c, d);
      }
    }
    ReachesExtend(g, project, a, b);
    ReachesStaysInside(g, w.tree.directories, project, b);
  }

  /** Textual paths lead back; where no link hides under a replaced name, no others do. */
  lemma TextPathsLeadBack(w: World, project: Directory)
    requires WellFormed(w.tree) && project in w.tree.directories
    ensures AllAreText(w, project) ==> AllLeadBack(w, project, project)
    ensures PlainLinks(w.tree) && AllLeadBack(w, project, project) ==> AllAreText(w, project)
  {
    var g := DirectoryGraph(w);
    forall a, b | Reaches(g, project, a) && Edge(g, a, b)
      ensures AllText(Below(b, project)) ==> LeadsBack(w, project, b)
      ensures PlainLinks(w.tree) && LeadsBack(w, project, b) ==> AllText(Below(b, project))
    {
      ReachedIsDirectory(w, project, a, b);
      if AllText(Below(b, project)) {
        RelativePathRoundTrip(w.tree, b, project);
      } else if PlainLinks(w.tree) {
        RecordedExactlyWhenText(w.tree, b, project);
      }
    }
  }

  // ----- The local packages of a lock are those of the directories reached -----

  lemma {:induction false} WalkWithin(w: World, project: Directory, path: seq<Directory>, source: LockedSource,
                                      stack: set<Name>, r: Resolution)
    returns (deeper: set<Name>, last: Resolution)
    requires Lawful(w) && IsPath(DirectoryGraph(w), path) && |path| >= 2
    requires Resolves(w, project, path[0], source, stack, r)
    ensures var b := path[|path| - 1];
            b in w.manifests && Resolves(w, project, b, SourceOf(b, project), deeper, last)
            && Within(last.packages, r.packages)
    decreases |path|
  {
    var a, b := path[0], path[1];
    assert Edge(DirectoryGraph(w), a, b);
    last := EdgeOk(w, project, a, b, source, stack, r);
    deeper := stack + {w.manifests[a].name};
    EdgeWithin(w, project, a, b, source, stack, r, last);
    if |path| > 2 {
      PathTail(DirectoryGraph(w), path);
      deeper, last := WalkWithin(w, project, path[1..], SourceOf(b, project), deeper, last);
    }
  }

  /** The lock holds the package of directory `b` under the path recorded for it. */
  predicate LockedAt(w: World, project: Directory, b: Directory, packages: seq<LockedPackage>) {
    && b in w.manifests && Find(packages, w.manifests[b].name).Some?
    && Find(packages, w.manifests[b].name).value.source == SourceOf(b, project)
  }

  lemma ReachedIsLocked(w: World, project: Directory, a: Directory, b: Directory)
    requires Lawful(w) && ReadManifest(w, Local(project)).Some? && ResolveLock(w, project).Ok?
    requires Reaches(DirectoryGraph(w), project, a) && Edge(DirectoryGraph(w), a, b)
    ensures LockedAt(w, project, b, ResolveLock(w, project).value.0.packages)
  {
    var r := Resolve(w, project, project, PathSource(["."]), {}).value;
    var path := WalkTo(DirectoryGraph(w), project, a, b);
    var deeper, last := WalkWithin(w, project, path, PathSource(["."]), {}, r);
    ResolveIsSound(w, project, project, PathSource(["."]), {});
    ResolveIsSound(w, project, b, SourceOf(b, project), deeper);
    WithinFinds(last.packages, r.packages, w.manifests[b].name);
  }

  /** A local package comes from a directory that some directory reached from `dir` depends on. */
  ghost predicate FromBelow(w: World, project: Directory, dir: Directory, p: LockedPackage) {
    p.source.PathSource? ==> exists a, b :: ComesFrom(w, project, dir, p, a, b)
  }

  ghost predicate ComesFrom(w: World, project: Directory, dir: Directory, p: LockedPackage, a: Directory, b: Directory)
  {
    && Reaches(DirectoryGraph(w), dir, a) && Edge(DirectoryGraph(w), a, b)
    && b in w.manifests && w.manifests[b].name == p.name && p.source == SourceOf(b, project)
  }

  lemma FromFurtherBelow(w: World, project: Directory, dir: Directory, child: Directory, p: LockedPackage)
    requires Edge(DirectoryGraph(w), dir, child) && FromBelow(w, project, child, p)
    ensures FromBelow(w, project, dir, p)
  {
    if p.source.PathSource? {
      var a, b :| ComesFrom(w, project, child, p, a, b);
      ReachesStep(DirectoryGraph(w), dir, child, a);
      assert ComesFrom(w, project, dir, p, a, b);
    }
  }

  lemma {:induction false} ResolvedFromBelow(w: World, project: Directory, dir: Directory, source: LockedSource,
                                             stack: set<Name>, r: Resolution, p: LockedPackage)
    requires Lawful(w) && Resolves(w, project, dir, source, stack, r)
    requires p in r.packages && p.name != ReadManifest(w, Local(dir)).value.name
    ensures FromBelow(w, project, dir, p)
    decreases LocalNames(w) - stack, 1, 0
  {
    var m := ReadManifest(w, Local(dir)).value;
    var start := Gathered(map[], [], []);
    EmptyIsSound(m);
    var g := ResolveDependencies(w, project, dir, stack + {m.name}, 0, start).value;
    ResolveDependenciesAreSound(w, project, dir, stack + {m.name}, 0, start);
    FinishAdds(w, dir, m, source, g, r, p);
    GatheredFromBelow(w, project, dir, stack + {m.name}, m, 0, start, g, p);
  }

  lemma FinishAdds(w: World, dir: Directory, m: Manifest, source: LockedSource, g: Gathered, r: Resolution,
                   p: LockedPackage)
    requires Sorted(g.packages) && FinishResolution(w, dir, m, source, g) == Ok(r) && p in r.packages
    requires p.name != m.name
    ensures p in g.packages
  {
    var direct := SortDependencies(g.direct);
    var own := LockedPackage(m.name, m.version, RootDigest(r.graph),
                             w.archive(Local(dir), RootDigest(r.graph), direct, g.packages).value,
                             direct, source);
    InsertKeepsOrder(g.packages, own);
  }

  lemma {:induction false} GatheredFromBelow(w: World, project: Directory, dir: Directory, stack: set<Name>,
                                             m: Manifest, k: nat, g: Gathered, final: Gathered, p: LockedPackage)
    requires Lawful(w) && ReadManifest(w, Local(dir)) == Some(m) && k <= |m.dependencies|
    requires GatheredSoundly(g, m, k) && LaterAliasesUnused(g, m, k)
    requires ResolveDependencies(w, project, dir, stack, k, g) == Ok(final) && p in final.packages
    ensures p in g.packages || FromBelow(w, project, dir, p)
    decreases LocalNames(w) - stack, 3, |m.dependencies| - k
  {
    if k < |m.dependencies| {
      var child := ResolveChild(w, project, dir, stack, m.dependencies[k]).value;
      var next := Gather(m, m.dependencies[k], g, child.0, child.1).value;
      assert ResolveDependencies(w, project, dir, stack, k + 1, next) == Ok(final);
      ResolveChildIsSound(w, project, dir, stack, m.dependencies[k]);
      GatherIsSound(m, k, g, child.0, child.1);
      GatheredFromBelow(w, project, dir, stack, m, k + 1, next, final, p);
      MergeIsUnion(g.packages, child.1.packages);
      if p in child.1.packages {
        ChildFromBelow(w, project, dir, stack, m, k, child.1, p);
      }
    }
  }

  lemma {:induction false} ChildFromBelow(w: World, project: Directory, dir: Directory, stack: set<Name>, m: Manifest,
                                          k: nat, r: Resolution, p: LockedPackage)
    requires Lawful(w) && ReadManifest(w, Local(dir)) == Some(m) && k < |m.dependencies|
    requires ResolveChild(w, project, dir, stack, m.dependencies[k]).Ok?
    requires ResolveChild(w, project, dir, stack, m.dependencies[k]).value.1 == r && p in r.packages
    ensures FromBelow(w, project, dir, p)
    decreases LocalNames(w) - stack, 2, 0
  {
    var d := m.dependencies[k];
    var g := DirectoryGraph(w);
    match d.acquisition
    case ByPath(path) =>
      var child := Canonicalize(w.tree, dir, path).value;
      ReachesSelf(g, dir);
      DependencyReached(w, dir, dir, k, child);
      if p.name == d.package {
        ResolveIsSound(w, project, child, SourceOf(child, project), stack);
        SortedFind(r.packages, p);
        assert ComesFrom(w, project, dir, p, dir, child);
      } else {
        ResolvedFromBelow(w, project, child, SourceOf(child, project), stack, r, p);
        FromFurtherBelow(w, project, dir, child, p);
      }
    case ByVersion(requirement, registry) =>
      var prefix, release := ReleaseFacts(w, m, d);
      PulledIsRegistryOnly(release, RegistrySource(prefix, release.manifestDigest));
  }

  /** Every directory other than the project that can be reached from it. */
  ghost predicate DependsOn(w: World, project: Directory, b: Directory) {
    b in w.manifests && exists a :: Reaches(DirectoryGraph(w), project, a) && Edge(DirectoryGraph(w), a, b)
  }

  /**
   Besides the project itself, the local packages of a resolved lock are exactly those of the
   directories the project depends on, directly or not, each under its recorded path.
   */
  lemma LocalPackagesAreReached(w: World, project: Directory)
    requires Lawful(w) && ReadManifest(w, Local(project)).Some? && ResolveLock(w, project).Ok?
    ensures var lock := ResolveLock(w, project).value.0;
            && (forall b :: DependsOn(w, project, b) ==> LockedAt(w, project, b, lock.packages))
            && (forall p :: p in lock.packages && p.source.PathSource? && p.name != lock.root ==>
                  exists b :: DependsOn(w, project, b) && w.manifests[b].name == p.name
                              && p.source == SourceOf(b, project))
  {
    var lock := ResolveLock(w, project).value.0;
    var r := Resolve(w, project, project, PathSource(["."]), {}).value;
    forall b | DependsOn(w, project, b)
      ensures LockedAt(w, project, b, lock.packages)
    {
      var a :| Reaches(DirectoryGraph(w), project, a) && Edge(DirectoryGraph(w), a, b);
      ReachedIsLocked(w, project, a, b);
    }
    forall p | p in lock.packages && p.source.PathSource? && p.name != lock.root
      ensures exists b :: DependsOn(w, project, b) && w.manifests[b].name == p.name && p.source == SourceOf(b, project)
    {
      ResolvedFromBelow(w, project, project, PathSource(["."]), {}, r, p);
      var a, b :| ComesFrom(w, project, project, p, a, b);
      assert DependsOn(w, project, b);
    }
  }
}
