/**
 Worlds that meet every assumption of the outcome theorem, with a compiler that looks into the
 graphs it is given: it accepts a dependency only with the types that package really has. In
 one of them resolution reports a cycle between two packages of one name.
 */
module OrderlyExample {
  import opened Wrappers
  import opened Graphs
  import opened LockModel
  import opened ProjectPaths
  import opened Resolver
  import opened ResolverSoundness
  import opened DirectoryWalks
  import opened RecordedPaths
  import opened ResolverCycles
  import opened ResolverOutcomes

  ghost function Members(supplied: map<string, PackageGraph>): set<Name> {
    set a, n | a in supplied && n in supplied[a].digests :: n
  }

  ghost function DigestIn(supplied: map<string, PackageGraph>, n: Name): Digest
    requires n in Members(supplied)
  {
    var a :| a in supplied && n in supplied[a].digests;
    supplied[a].digests[n]
  }

  /** What a package named `n` exports. */
  function TypesOf(n: Name): string {
    "types of " + n
  }

  /** No two supplied graphs disagree about a member. */
  predicate Agreeing(supplied: map<string, PackageGraph>) {
    forall a, b, n :: a in supplied && b in supplied && n in supplied[a].digests && n in supplied[b].digests ==>
      supplied[a].digests[n] == supplied[b].digests[n]
  }

  /** Every graph has the types of its root. */
  predicate Exporting(supplied: map<string, PackageGraph>) {
    forall a :: a in supplied ==> supplied[a].meaning == TypesOf(supplied[a].root)
  }

  /** What the compiler accepts: agreeing graphs that export what is imported, none holding the package itself. */
  predicate Fits(m: Manifest, supplied: map<string, PackageGraph>) {
    Agreeing(supplied) && Exporting(supplied) && forall a :: a in supplied ==> m.name !in supplied[a].digests
  }

  /** The supplied members and the package itself. */
  ghost function Joined(m: Manifest, supplied: map<string, PackageGraph>): PackageGraph {
    PackageGraph(m.name, (map n | n in Members(supplied) :: DigestIn(supplied, n))[m.name := ""], TypesOf(m.name))
  }

  lemma JoinedIsSound(m: Manifest, supplied: map<string, PackageGraph>)
    requires Fits(m, supplied)
    ensures CompilesSoundly(m, supplied, Joined(m, supplied))
  {
    forall a, n | a in supplied && n in supplied[a].digests
      ensures n in Members(supplied) && DigestIn(supplied, n) == supplied[a].digests[n]
    {
    }
  }

  ghost function CompileJoined(w: World, root: PackageRoot, supplied: map<string, PackageGraph>): Option<PackageGraph> {
    var m := ReadManifest(w, root);
    if m.Some? && Fits(m.value, supplied) then Some(Joined(m.value, supplied)) else None
  }

  /** The same files, with this compiler, an archiver that always succeeds and no registry. */
  ghost function Plain(w: World): World {
    World(w.tree, w.manifests, (root, supplied) => CompileJoined(w, root, supplied),
          (root, digest, direct, packages) => Some(""),
          w.matches, w.versions, (prefix, name, version) => None, digest => None)
  }

  lemma PlainIsLawful(w: World)
    requires WellFormed(w.tree)
    ensures Lawful(Plain(w))
  {
    var p := Plain(w);
    forall root, supplied | ReadManifest(p, root).Some? && p.compile(root, supplied).Some?
      ensures CompilesSoundly(ReadManifest(p, root).value, supplied, p.compile(root, supplied).value)
    {
      assert ReadManifest(p, root) == ReadManifest(w, root);
      JoinedIsSound(ReadManifest(w, root).value, supplied);
    }
  }

  /** What a dependency resolves to exports the types of the package. */
  lemma ChildExports(w: World, project: Directory, dir: Directory, stack: set<Name>, d: Dependency)
    requires ReadManifest(Plain(w), Local(dir)).Some? && ResolveChild(Plain(w), project, dir, stack, d).Ok?
    ensures var graph := ResolveChild(Plain(w), project, dir, stack, d).value.1.graph;
            graph.meaning == TypesOf(graph.root)
  {
    var p := Plain(w);
    if d.acquisition.ByPath? {
      var child := Canonicalize(p.tree, dir, d.acquisition.path).value;
      LocalExports(w, project, child, SourceOf(child, project), stack);
    } else {
      assert forall prefix, name, version :: PullTag(p, prefix, name, version).None?;
    }
  }

  lemma LocalExports(w: World, project: Directory, dir: Directory, source: LockedSource, stack: set<Name>)
    requires ReadManifest(Plain(w), Local(dir)).Some? && Resolve(Plain(w), project, dir, source, stack).Ok?
    ensures var graph := Resolve(Plain(w), project, dir, source, stack).value.graph;
            graph.meaning == TypesOf(graph.root)
  {
    var m := ReadManifest(Plain(w), Local(dir)).value;
    var g := ResolveDependencies(Plain(w), project, dir, stack + {m.name}, 0, Gathered(map[], [], [])).value;
    assert Plain(w).compile(Local(dir), g.supplied) == CompileJoined(w, Local(dir), g.supplied);
  }

  lemma {:induction false} GatheredExport(w: World, project: Directory, dir: Directory, stack: set<Name>, m: Manifest,
                                          k: nat, g: Gathered, final: Gathered)
    requires ReadManifest(Plain(w), Local(dir)) == Some(m) && k <= |m.dependencies| && Exporting(g.supplied)
    requires ResolveDependencies(Plain(w), project, dir, stack, k, g) == Ok(final)
    ensures Exporting(final.supplied)
    decreases |m.dependencies| - k
  {
    if k < |m.dependencies| {
      var child := ResolveChild(Plain(w), project, dir, stack, m.dependencies[k]);
      ChildExports(w, project, dir, stack, m.dependencies[k]);
      var next := Gather(m, m.dependencies[k], g, child.value.0, child.value.1).value;
      GatheredExport(w, project, dir, stack, m, k + 1, next, final);
    }
  }

  /** What is gathered for a package agrees, and does not hold the package. */
  lemma GatheredFits(m: Manifest, g: Gathered)
    requires SuppliedCovers(g) && m.name !in Names(g.packages) && Exporting(g.supplied)
    ensures Fits(m, g.supplied)
  {
    forall a, b, n | a in g.supplied && b in g.supplied && n in g.supplied[a].digests && n in g.supplied[b].digests
      ensures g.supplied[a].digests[n] == g.supplied[b].digests[n]
    {
      assert Find(g.packages, n).value.digest == g.supplied[a].digests[n];
    }
    assert Find(g.packages, m.name).None?;
  }

  lemma PlainBuilds(w: World, project: Directory, dir: Directory)
    requires WellFormed(w.tree) && ReadManifest(Plain(w), Local(dir)).Some?
    ensures Builds(Plain(w), project, dir)
  {
    var p := Plain(w);
    var m := ReadManifest(p, Local(dir)).value;
    var start := Gathered(map[], [], []);
    forall stack, g | ResolveDependencies(p, project, dir, stack, 0, start) == Ok(g)
      ensures p.compile(Local(dir), g.supplied).Some?
    {
      PlainCompiles(w, project, dir, m, stack, g);
    }
  }

  lemma PlainCompiles(w: World, project: Directory, dir: Directory, m: Manifest, stack: set<Name>, g: Gathered)
    requires WellFormed(w.tree) && ReadManifest(Plain(w), Local(dir)) == Some(m)
    requires ResolveDependencies(Plain(w), project, dir, stack, 0, Gathered(map[], [], [])) == Ok(g)
    ensures Plain(w).compile(Local(dir), g.supplied).Some?
  {
    var start := Gathered(map[], [], []);
    PlainIsLawful(w);
    EmptyIsSound(m);
    ResolveDependenciesAreSound(Plain(w), project, dir, stack, 0, start);
    GatheredExport(w, project, dir, stack, m, 0, start, g);
    GatheredFits(m, g);
    assert ReadManifest(w, Local(dir)) == Some(m);
  }

  /**
   With those helpers a project is orderly as soon as its directories are text, found and hold the
   packages they should.
   */
  lemma PlainIsOrderly(w: World, project: Directory)
    requires WellFormed(w.tree) && project in w.tree.directories
    requires AllConnected(Plain(w), project) && AllAreText(Plain(w), project)
    ensures Lawful(Plain(w)) && Orderly(Plain(w), project)
  {
    var p := Plain(w);
    PlainIsLawful(w);
    TextPathsLeadBack(p, project);
    forall d | Reaches(DirectoryGraph(p), project, d)
      ensures ReadManifest(p, Local(d)).Some? && Builds(p, project, d)
    {
      assert Connected(p, d);
      assert ReadManifest(p, Local(d)).Some?;
      PlainBuilds(w, project, d);
    }
  }

  lemma ReachedAreXYZ(w: World, d: Directory)
    requires TwoPackagesA(w) && Reaches(DirectoryGraph(w), X, d)
    ensures d in {X, Y, Z}
  {
    LeadsToZ(w);
    ReachesStaysInside(DirectoryGraph(w), {X, Y, Z}, X, d);
  }

  lemma XYZAreConnected(w: World, d: Directory)
    requires TwoPackagesA(w) && d in {X, Y, Z}
    ensures Connected(w, d)
  {
    LeadsToZ(w);
    forall k | 0 <= k < |w.manifests[d].dependencies|
      ensures DependencyFound(w, d, w.manifests[d], w.manifests[d].dependencies[k])
    {
    }
  }

  lemma XYZAreText(d: Directory)
    requires d in {X, Y, Z}
    ensures AllText(Below(d, X))
  {
    LossyOfSpelled("x");
    LossyOfSpelled("y");
    LossyOfSpelled("z");
  }

  lemma XYZTreeIsWellFormed(w: World)
    requires TwoPackagesA(w)
    ensures WellFormed(w.tree) && X in w.tree.directories
  {
    LossyOfSpelled("x");
    LossyOfSpelled("y");
    LossyOfSpelled("z");
    forall d, k | d in w.tree.directories && 0 <= k <= |d|
      ensures d[..k] in w.tree.directories
    {
      assert d[..k] == [] || d[..k] == d;
    }
  }

  /** Every assumption holds of the two packages named a, so the theorem speaks about that project. */
  lemma TwoPackagesAreOrderly(w: World)
    requires TwoPackagesA(w)
    ensures var p := Plain(w);
            && TwoPackagesA(p) && Lawful(p) && Orderly(p, X) && ReadManifest(p, Local(X)).Some?
            && ResolveLock(p, X) == Err(Cycle("a")) && Acyclic(DirectoryGraph(p))
  {
    var p := Plain(w);
    forall d | Reaches(DirectoryGraph(p), X, d)
      ensures Connected(p, d)
    {
      ReachedAreXYZ(p, d);
      XYZAreConnected(p, d);
    }
    forall a, b | Reaches(DirectoryGraph(p), X, a) && Edge(DirectoryGraph(p), a, b)
      ensures AllText(Below(b, X))
    {
      ReachesExtend(DirectoryGraph(p), X, a, b);
      ReachedAreXYZ(p, b);
      XYZAreText(b);
    }
    XYZTreeIsWellFormed(w);
    PlainIsOrderly(w, X);
    CycleErrorWithoutCycle(p);
  }
}
