/**
 Exactly when a project resolves, and with which error it fails otherwise: a cycle means a
 name met again below the directory that carries it, a conflict two origins of one name.
 */
module ResolverOutcomes {
  import opened Wrappers
  import opened Graphs
  import opened LockModel
  import opened ProjectPaths
  import opened Resolver
  import opened ResolverSoundness
  import opened DirectoryWalks
  import opened ResolverAgreement
  import opened RecordedPaths
  import opened ResolverConverse
  import opened ResolverCycles

  // ----- A release below a directory that holds a package of the directory's name -----

  /** What a directory brings is in its resolution. */
  lemma FrozenWithin(w: World, project: Directory, dir: Directory, source: LockedSource, stack: set<Name>,
                     r: Resolution, p: LockedPackage)
    requires Lawful(w) && Resolves(w, project, dir, source, stack, r) && Brings(w, dir, Frozen(p))
    ensures p in r.packages
  {
    var g := DirectoryGraph(w);
    var c, k: nat :| Reaches(g, dir, c) && FrozenAt(w, c, k, p);
    var path :| Connects(g, path, dir, c);
    if |path| == 1 {
      DependencyWithin(w, project, dir, source, stack, r, k);
    } else {
      var deeper, last := WalkWithin(w, project, path, source, stack, r);
      DependencyWithin(w, project, c, SourceOf(c, project), deeper, last, k);
    }
  }

  /** No dependency of a resolved directory resolves to a closure with the directory's own name. */
  lemma ChildExcludesParent(w: World, project: Directory, dir: Directory, source: LockedSource, stack: set<Name>,
                            r: Resolution, k: nat)
    requires Lawful(w) && Resolves(w, project, dir, source, stack, r)
    requires k < |ReadManifest(w, Local(dir)).value.dependencies|
    ensures var m := ReadManifest(w, Local(dir)).value;
            var child := ResolveChild(w, project, dir, stack + {m.name}, m.dependencies[k]);
            child.Ok? && m.name !in Names(child.value.1.packages)
  {
    var m := ReadManifest(w, Local(dir)).value;
    var start := Gathered(map[], [], []);
    EmptyIsSound(m);
    var g := ResolveDependencies(w, project, dir, stack + {m.name}, 0, start).value;
    ChildWithin(w, project, dir, stack + {m.name}, m, 0, start, g, k);
    ResolveDependenciesAreSound(w, project, dir, stack + {m.name}, 0, start);
  }

  lemma FrozenExcludesOwn(w: World, project: Directory, dir: Directory, source: LockedSource, stack: set<Name>,
                          r: Resolution, p: LockedPackage)
    requires Lawful(w) && Resolves(w, project, dir, source, stack, r) && dir in w.manifests
    requires Brings(w, dir, Frozen(p))
    ensures p.name != w.manifests[dir].name
  {
    var g := DirectoryGraph(w);
    var c, k: nat :| Reaches(g, dir, c) && FrozenAt(w, c, k, p);
    if c == dir {
      ChildExcludesParent(w, project, dir, source, stack, r, k);
    } else {
      var b := ReachesByFirstEdge(g, dir, c);
      assert Brings(w, b, Frozen(p));
      EdgeExcludesParent(w, project, dir, b, source, stack, r, p);
    }
  }

  lemma EdgeExcludesParent(w: World, project: Directory, a: Directory, b: Directory, source: LockedSource,
                           stack: set<Name>, r: Resolution, p: LockedPackage)
    requires Lawful(w) && Edge(DirectoryGraph(w), a, b) && Resolves(w, project, a, source, stack, r)
    requires Brings(w, b, Frozen(p))
    ensures p.name != w.manifests[a].name
  {
    var i := EdgeDependsAt(w, a, b);
    var child := EdgeOk(w, project, a, b, source, stack, r);
    FrozenWithin(w, project, b, SourceOf(b, project), stack + {w.manifests[a].name}, child, p);
    ChildExcludesParent(w, project, a, source, stack, r, i);
  }

  /** A project that meets a directory above a release holding a package of its name does not resolve. */
  lemma FrozenNameNeverResolves(w: World, project: Directory)
    requires Lawful(w) && ReadManifest(w, Local(project)).Some? && FrozenRepeats(w, project)
    ensures ResolveLock(w, project).Err?
  {
    var a, p :| FrozenRepeatsAt(w, project, a, p);
    if ResolveLock(w, project).Ok? {
      var r := Resolve(w, project, project, PathSource(["."]), {}).value;
      var source, stack, last := ReachedResolves(w, project, a, r);
      FrozenExcludesOwn(w, project, a, source, stack, last, p);
    }
  }

  lemma NameRepeatsNeverResolves(w: World, project: Directory)
    requires Lawful(w) && ReadManifest(w, Local(project)).Some? && NameRepeats(w, project)
    ensures ResolveLock(w, project).Err?
  {
    if Repeats(w, project) {
      RepeatedNameNeverResolves(w, project);
    } else {
      FrozenNameNeverResolves(w, project);
    }
  }

  // ----- Two origins of one name -----

  /** The lock records the origin: a directory under its path, a frozen entry as it is. */
  ghost predicate OnRecord(w: World, project: Directory, o: Origin, packages: seq<LockedPackage>) {
    match o
    case At(d) => LockedAt(w, project, d, packages) && LeadsBack(w, project, d)
    case Frozen(p) => p in packages && p.source.RegistrySource?
  }

  lemma BroughtIsRecorded(w: World, project: Directory, o: Origin)
    requires Lawful(w) && ReadManifest(w, Local(project)).Some? && ResolveLock(w, project).Ok?
    requires AllLeadBack(w, project, project) && Brings(w, project, o) && o != At(project)
    ensures OnRecord(w, project, o, ResolveLock(w, project).value.0.packages)
  {
    match o
    case At(d) =>
      var a := ReachesByLastEdge(DirectoryGraph(w), project, d);
      ReachedIsLocked(w, project, a, d);
    case Frozen(p) =>
      FrozenWithin(w, project, project, PathSource(["."]), {},
                   Resolve(w, project, project, PathSource(["."]), {}).value,
                   p);
      FrozenIsRegistry(w, project, p);
  }

  lemma FrozenIsRegistry(w: World, project: Directory, p: LockedPackage)
    requires Lawful(w) && Brings(w, project, Frozen(p))
    ensures p.source.RegistrySource?
  {
    var c, k: nat :| Reaches(DirectoryGraph(w), project, c) && FrozenAt(w, c, k, p);
    ReleaseIsRegistryOnly(w, w.manifests[c], w.manifests[c].dependencies[k]);
  }

  lemma RecordedOnce(w: World, project: Directory, a: Origin, b: Origin, packages: seq<LockedPackage>)
    requires Sorted(packages) && OnRecord(w, project, a, packages) && OnRecord(w, project, b, packages)
    requires NameOf(w, a) == NameOf(w, b)
    ensures a == b
  {
    if a.Frozen? {
      SortedFind(packages, a.package);
    }
    if b.Frozen? {
      SortedFind(packages, b.package);
    }
  }

  lemma ProjectShareRepeats(w: World, project: Directory, o: Origin)
    requires SharesAt(w, project, At(project), o)
    ensures NameRepeats(w, project)
  {
    ReachesSelf(DirectoryGraph(w), project);
    match o
    case At(d) =>
      var b := ReachesByFirstEdge(DirectoryGraph(w), project, d);
      assert RepeatsAt(w, project, project, b, d);
    case Frozen(p) => assert FrozenRepeatsAt(w, project, project, p);
  }

  /** Where recorded paths lead back, a project that meets two origins of one package name does not resolve. */
  lemma SharedNameNeverResolves(w: World, project: Directory)
    requires Lawful(w) && ReadManifest(w, Local(project)).Some? && AllLeadBack(w, project, project)
    requires Shares(w, project)
    ensures ResolveLock(w, project).Err?
  {
    var a, b :| SharesAt(w, project, a, b);
    if ResolveLock(w, project).Ok? {
      if a == At(project) {
        ProjectShareRepeats(w, project, b);
        NameRepeatsNeverResolves(w, project);
      } else if b == At(project) {
        ProjectShareRepeats(w, project, a);
        NameRepeatsNeverResolves(w, project);
      } else {
        ResolveIsSound(w, project, project, PathSource(["."]), {});
        BroughtIsRecorded(w, project, a);
        BroughtIsRecorded(w, project, b);
        RecordedOnce(w, project, a, b, ResolveLock(w, project).value.0.packages);
      }
    }
  }

  // ----- The outcome -----

  /** The resolver ends as the walk over directories and names does, and locks the names the walk found. */
  ghost predicate EndsAs(r: Result<(Lock, PackageGraph), Error>, o: Outcome) {
    match o
    case Fine(origins) => r.Ok? && Names(r.value.0.packages) == origins.Keys
    case CycleAt(name) => r == Err(Cycle(name))
    case ConflictFound => r.Err? && r.error.Conflict?
    case Unwalkable => false
  }

  lemma ResolutionFollowsWalk(w: World, project: Directory)
    requires Lawful(w) && Orderly(w, project) && ReadManifest(w, Local(project)).Some?
    ensures EndsAs(ResolveLock(w, project), Walk(w, project, {}))
  {
    var m := w.manifests[project];
    var start := Gathered(map[], [], []);
    ReachesSelf(DirectoryGraph(w), project);
    EmptyInStep(w, project, project);
    EachDecided(w, project, project, {} + {m.name}, 0, start, map[]);
    var gathered := ResolveDependencies(w, project, project, {} + {m.name}, 0, start);
    if gathered.Ok? {
      ResolveDependenciesAreSound(w, project, project, {} + {m.name}, 0, start);
    }
    ProjectFollowsDependencies(w, project, m, {} + {m.name}, gathered,
                               WalkEach(w, project, {} + {m.name}, 0, map[]));
  }

  lemma ProjectFollowsDependencies(w: World, project: Directory, m: Manifest, stack: set<Name>,
                                   gathered: Result<Gathered, Error>, below: Outcome)
    requires project in w.manifests && ReadManifest(w, Local(project)) == Some(m)
    requires w.manifests[project] == m && stack == {} + {m.name} && Builds(w, project, project)
    requires ResolveDependencies(w, project, project, stack, 0, Gathered(map[], [], [])) == gathered
    requires WalkEach(w, project, stack, 0, map[]) == below
    requires Decided(Entries(w, project), GatheredOf(gathered), below)
    requires gathered.Ok? ==> GatheredSoundly(gathered.value, m, |m.dependencies|)
    ensures EndsAs(ResolveLock(w, project), Walk(w, project, {}))
  {
    ProjectUnfolds(w, project, m, stack, gathered, below);
    if gathered.Ok? {
      FinishSucceeds(w, project, project, m, stack, PathSource(["."]), gathered.value);
      var r := FinishResolution(w, project, m, PathSource(["."]), gathered.value).value;
      FinishNames(w, project, m, PathSource(["."]), gathered.value, r);
      EndsFine(Entries(w, project), gathered.value, below, m.name, project, r);
    }
  }

  lemma EndsFine(entry: EntryOf, g: Gathered, below: Outcome, name: Name, dir: Directory, r: Resolution)
    requires Decided(entry, Ok(g.packages), below) && Names(r.packages) == Names(g.packages) + {name}
    ensures below.Fine? && EndsAs(Ok((Lock(name, r.packages), r.graph)), Fine(below.origins[name := At(dir)]))
  {
  }

  lemma ProjectUnfolds(w: World, project: Directory, m: Manifest, stack: set<Name>, gathered: Result<Gathered, Error>,
                       below: Outcome)
    requires project in w.manifests && ReadManifest(w, Local(project)) == Some(m) && w.manifests[project] == m
    requires stack == {} + {m.name}
    requires ResolveDependencies(w, project, project, stack, 0, Gathered(map[], [], [])) == gathered
    requires WalkEach(w, project, stack, 0, map[]) == below
    ensures gathered.Err? ==> ResolveLock(w, project) == Err(gathered.error)
    ensures gathered.Ok? ==>
              var r := FinishResolution(w, project, m, PathSource(["."]), gathered.value);
              ResolveLock(w, project) == if r.Err? then Err(r.error)
                                         else Ok((Lock(m.name, r.value.packages), r.value.graph))
    ensures Walk(w, project, {}) == if below.Fine? then Fine(below.origins[m.name := At(project)]) else below
  {
  }

  lemma FinishNames(w: World, dir: Directory, m: Manifest, source: LockedSource, g: Gathered, r: Resolution)
    requires Sorted(g.packages) && m.name !in Names(g.packages) && FinishResolution(w, dir, m, source, g) == Ok(r)
    ensures Names(r.packages) == Names(g.packages) + {m.name}
  {
    var direct := SortDependencies(g.direct);
    var own := LockedPackage(m.name, m.version, RootDigest(r.graph),
                             w.archive(Local(dir), RootDigest(r.graph), direct, g.packages).value,
                             direct, source);
    InsertKeepsOrder(g.packages, own);
    OwnEntryNames(g.packages, own, r.packages);
  }

  /**
   A project resolves exactly when no name is met again below the directory that carries it
   and no two origins share a name. Otherwise it fails with a cycle, only where a name is met
   again, or with a conflict, only where two origins share one.
   */
  lemma OutcomeExactly(w: World, project: Directory)
    requires Lawful(w) && Orderly(w, project) && ReadManifest(w, Local(project)).Some?
    ensures var r := ResolveLock(w, project);
            && (r.Ok? <==> !NameRepeats(w, project) && !Shares(w, project))
            && (r.Err? ==> r.error.Cycle? || r.error.Conflict?)
            && (r.Err? && r.error.Cycle? ==> NameRepeats(w, project))
            && (r.Err? && r.error.Conflict? ==> Shares(w, project))
  {
    ResolutionFollowsWalk(w, project);
    ReachesSelf(DirectoryGraph(w), project);
    WalkExplains(w, project, project, {});
    if NameRepeats(w, project) {
      NameRepeatsNeverResolves(w, project);
    }
    if Shares(w, project) {
      SharedNameNeverResolves(w, project);
    }
  }

  /** With one origin per name, the cycle error is exactly a cycle among the directories. */
  lemma CycleErrorExactly(w: World, project: Directory)
    requires Lawful(w) && Orderly(w, project) && ReadManifest(w, Local(project)).Some? && !Shares(w, project)
    ensures ResolveLock(w, project).Ok? <==> !DirectoryCycle(w, project)
    ensures ResolveLock(w, project).Err? ==> ResolveLock(w, project).error.Cycle?
  {
    OutcomeExactly(w, project);
    if DirectoryCycle(w, project) {
      var a, b :| CycleThrough(w, project, a, b);
      assert RepeatsAt(w, project, a, b, a);
    }
    if NameRepeats(w, project) {
      RepetitionIsCycleOrShared(w, project);
    }
  }

  lemma RepetitionIsCycleOrShared(w: World, project: Directory)
    requires NameRepeats(w, project)
    ensures DirectoryCycle(w, project) || Shares(w, project)
  {
    if Repeats(w, project) {
      var a, b, c :| RepeatsAt(w, project, a, b, c);
      ReachesExtend(DirectoryGraph(w), project, a, b);
      ReachesJoin(DirectoryGraph(w), project, b, c);
      if a == c {
        assert CycleThrough(w, project, a, b);
      } else {
        assert SharesAt(w, project, At(a), At(c));
      }
    } else {
      var a, p :| FrozenRepeatsAt(w, project, a, p);
      BringsFromAbove(w, project, a, Frozen(p));
      assert SharesAt(w, project, At(a), Frozen(p));
    }
  }

  ghost predicate DirectoryCycle(w: World, project: Directory) {
    exists a, b :: CycleThrough(w, project, a, b)
  }

  ghost predicate CycleThrough(w: World, project: Directory, a: Directory, b: Directory) {
    Reaches(DirectoryGraph(w), project, a) && Edge(DirectoryGraph(w), a, b) && Reaches(DirectoryGraph(w), b, a)
  }

  // ----- A cycle error without a cycle -----

  const X: Directory := [Spelled("x")]
  const Y: Directory := [Spelled("y")]
  const Z: Directory := [Spelled("z")]

  /** Package a in x depends on package b in y, which depends on another package a in z. */
  predicate TwoPackagesA(w: World) {
    && w.tree == Tree({[], X, Y, Z}, map[])
    && w.manifests == map[
         X := Manifest("a", "1", [Dependency("b", "b", ByPath(["..", "y"]))], None, map[]),
         Y := Manifest("b", "1", [Dependency("a", "a", ByPath(["..", "z"]))], None, map[]),
         Z := Manifest("a", "2", [], None, map[])]
  }

  lemma SiblingFound(t: Tree, from: Directory, name: string)
    requires |from| == 1 && name != "." && name != ".." && [Spelled(name)] in t.directories && t.links == map[]
    ensures Canonicalize(t, from, ["..", name]) == Some([Spelled(name)])
  {
    assert ["..", name][1..] == [name] && [name][1..] == [] && from[..|from| - 1] == [];
    assert [] + [Spelled(name)] == [Spelled(name)];
    assert Canonicalize(t, [Spelled(name)], []) == Some([Spelled(name)]);
    assert Canonicalize(t, [], [name]) == Some([Spelled(name)]);
  }

  lemma DifferentDirectories()
    ensures X != Y && Y != Z && X != Z
  {
    assert Spelled("x")[0] == Char('x') && Spelled("y")[0] == Char('y') && Spelled("z")[0] == Char('z');
    assert X[0] == Spelled("x") && Y[0] == Spelled("y") && Z[0] == Spelled("z");
  }

  lemma LeadsToZ(w: World)
    requires TwoPackagesA(w)
    ensures ReadManifest(w, Local(X)) == Some(w.manifests[X]) && ReadManifest(w, Local(Y)) == Some(w.manifests[Y])
    ensures ReadManifest(w, Local(Z)) == Some(w.manifests[Z]) && w.manifests[X].name == w.manifests[Z].name == "a"
    ensures |w.manifests[X].dependencies| == |w.manifests[Y].dependencies| == 1 && w.manifests[Z].dependencies == []
    ensures ChildOf(w, X, w.manifests[X].dependencies[0]) == Some(Y)
    ensures w.manifests[X].dependencies[0].package == w.manifests[Y].name
    ensures ChildOf(w, Y, w.manifests[Y].dependencies[0]) == Some(Z)
    ensures w.manifests[Y].dependencies[0].package == w.manifests[Z].name
    ensures w.manifests[Y].name == "b" && w.manifests.Keys == {X, Y, Z}
  {
    DifferentDirectories();
    SiblingFound(w.tree, X, "y");
    SiblingFound(w.tree, Y, "z");
  }

  /** A directory whose first dependency fails with an error fails with it too. */
  lemma FirstDependencyFails(w: World, project: Directory, dir: Directory, source: LockedSource, stack: set<Name>,
                             child: Directory, error: Error)
    requires dir in w.manifests && child in w.manifests && w.manifests[dir].name !in stack
    requires w.manifests[dir].dependencies != []
    requires ReadManifest(w, Local(dir)).Some? && ReadManifest(w, Local(child)).Some?
    requires ChildOf(w, dir, w.manifests[dir].dependencies[0]) == Some(child)
    requires w.manifests[dir].dependencies[0].package == w.manifests[child].name
    requires Resolve(w, project, child, SourceOf(child, project), stack + {w.manifests[dir].name}) == Err(error)
    ensures Resolve(w, project, dir, source, stack) == Err(error)
  {
    var m := w.manifests[dir];
    assert ResolveChild(w, project, dir, stack + {m.name}, m.dependencies[0]) == Err(error);
    assert ResolveDependencies(w, project, dir, stack + {m.name}, 0, Gathered(map[], [], [])) == Err(error);
  }

  /** No directory depends on itself, directly or not; yet resolving x reports a cycle, for the stack holds names. */
  lemma CycleErrorWithoutCycle(w: World)
    requires TwoPackagesA(w)
    ensures ReadManifest(w, Local(X)).Some? && ResolveLock(w, X) == Err(Cycle("a"))
    ensures Acyclic(DirectoryGraph(w))
  {
    LeadsToZ(w);
    FirstDependencyFails(w, X, Y, SourceOf(Y, X), {} + {"a"}, Z, Cycle("a"));
    FirstDependencyFails(w, X, X, PathSource(["."]), {}, Y, Cycle("a"));
    NoDirectoryCycle(w);
  }

  lemma NoDirectoryCycle(w: World)
    requires TwoPackagesA(w)
    ensures Acyclic(DirectoryGraph(w))
  {
    LeadsToZ(w);
    DifferentDirectories();
    var rank := d => if d == X then 0 else if d == Y then 1 else 2;
    forall a, b | Edge(DirectoryGraph(w), a, b)
      ensures rank(a) < rank(b)
    {
      var k := EdgeDependsAt(w, a, b);
    }
    RankedIsAcyclic(DirectoryGraph(w), rank);
  }
}
