/**
 How resolving a project ends, where nothing but names can go wrong. The outcome is decided by
 a walk over directories, package names and the entries frozen into releases: success, the
 cycle error or the conflict error.
 */
module ResolverCycles {
  import opened Wrappers
  import opened Graphs
  import opened LockModel
  import opened ProjectPaths
  import opened Resolver
  import opened ResolverSoundness
  import opened DirectoryWalks
  import opened ResolverAgreement

  // ----- The walk -----

  /** Where a package comes from: a directory, or a release into which its entry is frozen. */
  datatype Origin = At(dir: Directory) | Frozen(package: LockedPackage)

  type Origins = map<Name, Origin>

  datatype Outcome = Fine(origins: Origins) | CycleAt(name: Name) | ConflictFound | Unwalkable

  predicate Agree(a: Origins, b: Origins) {
    forall n :: n in a && n in b ==> a[n] == b[n]
  }

  function FrozenOrigins(packages: seq<LockedPackage>): Origins {
    map n | n in Names(packages) :: Frozen(Find(packages, n).value)
  }

  /** What a dependency on a release resolves to; the release is pulled and verified as a whole. */
  ghost function ReleaseOf(w: World, m: Manifest, d: Dependency): Result<(Version, Resolution), Error>
    requires d.acquisition.ByVersion?
  {
    ResolveRelease(w, m, d.package, d.acquisition.requirement, d.acquisition.registry)
  }

  /**
   Visits the directories depth first: a name met again on the way down is a cycle, two
   origins of one name conflict.
   */
  ghost function Walk(w: World, dir: Directory, stack: set<Name>): Outcome
    decreases LocalNames(w) - stack, 1, 0
  {
    if dir !in w.manifests then Unwalkable
    else
      var name := w.manifests[dir].name;
      if name in stack then CycleAt(name)
      else
        var below := WalkEach(w, dir, stack + {name}, 0, map[]);
        if below.Fine? then Fine(below.origins[name := At(dir)]) else below
  }

  ghost function WalkEach(w: World, dir: Directory, stack: set<Name>, k: nat, origins: Origins): Outcome
    requires dir in w.manifests && k <= |w.manifests[dir].dependencies|
    decreases LocalNames(w) - stack, 3, |w.manifests[dir].dependencies| - k
  {
    if k == |w.manifests[dir].dependencies| then Fine(origins)
    else
      var c := WalkChild(w, dir, stack, w.manifests[dir].dependencies[k]);
      if !c.Fine? then c
      else if w.manifests[dir].name in c.origins then CycleAt(w.manifests[dir].name)
      else if !Agree(origins, c.origins) then ConflictFound
      else WalkEach(w, dir, stack, k + 1, origins + c.origins)
  }

  /** A release is a leaf of the walk: it brings the entries frozen into it. */
  ghost function WalkChild(w: World, dir: Directory, stack: set<Name>, d: Dependency): Outcome
    requires dir in w.manifests
    decreases LocalNames(w) - stack, 2, 0
  {
    if d.acquisition.ByVersion? then
      var r := ReleaseOf(w, w.manifests[dir], d);
      if r.Err? then Unwalkable else Fine(FrozenOrigins(r.value.1.packages))
    else
      var child := ChildOf(w, dir, d);
      if child.None? then Unwalkable else Walk(w, child.value, stack)
  }

  // ----- What an outcome says about the project -----

  /** Dependency `k` of directory `c` is a release whose closure holds `p`. */
  ghost predicate FrozenAt(w: World, c: Directory, k: nat, p: LockedPackage) {
    && c in w.manifests && ReadManifest(w, Local(c)).Some? && k < |w.manifests[c].dependencies|
    && w.manifests[c].dependencies[k].acquisition.ByVersion?
    && var r := ReleaseOf(w, w.manifests[c], w.manifests[c].dependencies[k]);
       r.Ok? && p in r.value.1.packages
  }

  /** The origin is met on the way down from a directory. */
  ghost predicate Brings(w: World, from: Directory, o: Origin) {
    match o
    case At(d) => d in w.manifests && Reaches(DirectoryGraph(w), from, d)
    case Frozen(p) => exists c, k: nat :: Reaches(DirectoryGraph(w), from, c) && FrozenAt(w, c, k, p)
  }

  function NameOf(w: World, o: Origin): Name {
    match o
    case At(d) => if d in w.manifests then w.manifests[d].name else ""
    case Frozen(p) => p.name
  }

  ghost predicate Brought(w: World, from: Directory, origins: Origins) {
    forall n :: n in origins ==> Brings(w, from, origins[n]) && NameOf(w, origins[n]) == n
  }

  /** Two different origins of one name are met. */
  ghost predicate Shares(w: World, project: Directory) {
    exists a, b :: SharesAt(w, project, a, b)
  }

  ghost predicate SharesAt(w: World, project: Directory, a: Origin, b: Origin) {
    Brings(w, project, a) && Brings(w, project, b) && a != b && NameOf(w, a) == NameOf(w, b)
  }

  /** A directory is met below which a release holds a package of the directory's own name. */
  ghost predicate FrozenRepeats(w: World, project: Directory) {
    exists a, p :: FrozenRepeatsAt(w, project, a, p)
  }

  ghost predicate FrozenRepeatsAt(w: World, project: Directory, a: Directory, p: LockedPackage) {
    && Reaches(DirectoryGraph(w), project, a) && a in w.manifests && w.manifests[a].name == p.name
    && Brings(w, a, Frozen(p))
  }

  /** A name is met again below the directory that carries it. */
  ghost predicate NameRepeats(w: World, project: Directory) {
    Repeats(w, project) || FrozenRepeats(w, project)
  }

  lemma BringsFromAbove(w: World, a: Directory, b: Directory, o: Origin)
    requires Reaches(DirectoryGraph(w), a, b) && Brings(w, b, o)
    ensures Brings(w, a, o)
  {
    var g := DirectoryGraph(w);
    match o
    case At(d) => ReachesJoin(g, a, b, d);
    case Frozen(p) =>
      var c, k: nat :| Reaches(g, b, c) && FrozenAt(w, c, k, p);
      ReachesJoin(g, a, b, c);
  }

  /** Each name on the stack belongs to a directory from which a dependency leads to `dir`. */
  ghost predicate Above(w: World, project: Directory, stack: set<Name>, dir: Directory) {
    && Reaches(DirectoryGraph(w), project, dir)
    && forall n :: n in stack ==> NamesAncestor(w, project, n, dir)
  }

  ghost predicate NamesAncestor(w: World, project: Directory, n: Name, dir: Directory) {
    exists a, b :: a in w.manifests && w.manifests[a].name == n && Leads(w, project, a, b, dir)
  }

  ghost predicate Leads(w: World, project: Directory, a: Directory, b: Directory, dir: Directory) {
    Edge(DirectoryGraph(w), a, b) && Reaches(DirectoryGraph(w), project, a) && Reaches(DirectoryGraph(w), b, dir)
  }

  /** Inside `dir` its own name is on the stack too. */
  ghost predicate Inside(w: World, project: Directory, stack: set<Name>, dir: Directory) {
    dir in w.manifests && Above(w, project, stack - {w.manifests[dir].name}, dir)
  }

  lemma AboveChild(w: World, project: Directory, stack: set<Name>, dir: Directory, child: Directory)
    requires Inside(w, project, stack, dir) && Edge(DirectoryGraph(w), dir, child)
    ensures Above(w, project, stack, child)
  {
    var g := DirectoryGraph(w);
    ReachesExtend(g, project, dir, child);
    forall n | n in stack
      ensures NamesAncestor(w, project, n, child)
    {
      if n == w.manifests[dir].name {
        ReachesSelf(g, child);
        assert Leads(w, project, dir, child, child);
      } else {
        assert NamesAncestor(w, project, n, dir);
        var a, b :| a in w.manifests && w.manifests[a].name == n && Leads(w, project, a, b, dir);
        ReachesExtend(g, b, dir, child);
        assert Leads(w, project, a, b, child);
      }
    }
  }

  /** A dependency leads to a directory that holds the package it names, or to a release that verifies. */
  ghost predicate DependencyFound(w: World, dir: Directory, m: Manifest, d: Dependency) {
    if d.acquisition.ByVersion? then ReleaseOf(w, m, d).Ok?
    else
      var child := ChildOf(w, dir, d);
      child.Some? && child.value in w.manifests && w.manifests[child.value].name == d.package
  }

  ghost predicate Connected(w: World, dir: Directory) {
    && dir in w.manifests && ManifestValid(w.manifests[dir])
    && forall k :: 0 <= k < |w.manifests[dir].dependencies| ==>
         DependencyFound(w, dir, w.manifests[dir], w.manifests[dir].dependencies[k])
  }

  ghost predicate AllConnected(w: World, project: Directory) {
    forall d :: Reaches(DirectoryGraph(w), project, d) ==> Connected(w, d)
  }

  lemma ConnectedChild(w: World, project: Directory, dir: Directory, k: nat) returns (child: Directory)
    requires AllConnected(w, project) && Reaches(DirectoryGraph(w), project, dir) && dir in w.manifests
    requires k < |w.manifests[dir].dependencies| && w.manifests[dir].dependencies[k].acquisition.ByPath?
    ensures ChildOf(w, dir, w.manifests[dir].dependencies[k]) == Some(child) && Edge(DirectoryGraph(w), dir, child)
    ensures Reaches(DirectoryGraph(w), project, child) && Connected(w, child)
    ensures w.manifests[child].name == w.manifests[dir].dependencies[k].package
  {
    assert DependencyFound(w, dir, w.manifests[dir], w.manifests[dir].dependencies[k]);
    child := ChildOf(w, dir, w.manifests[dir].dependencies[k]).value;
    assert DependsAt(w, dir, k, child);
    DependencyReached(w, project, dir, k, child);
  }

  lemma ConnectedRelease(w: World, project: Directory, dir: Directory, k: nat) returns (r: Resolution)
    requires AllConnected(w, project) && Reaches(DirectoryGraph(w), project, dir) && dir in w.manifests
    requires k < |w.manifests[dir].dependencies| && w.manifests[dir].dependencies[k].acquisition.ByVersion?
    ensures var release := ReleaseOf(w, w.manifests[dir], w.manifests[dir].dependencies[k]);
            release.Ok? && release.value.1 == r
    ensures forall p :: p in r.packages ==> FrozenAt(w, dir, k, p)
  {
    assert DependencyFound(w, dir, w.manifests[dir], w.manifests[dir].dependencies[k]);
    r := ReleaseOf(w, w.manifests[dir], w.manifests[dir].dependencies[k]).value.1;
  }

  /** What the three outcomes mean. */
  ghost predicate Explains(w: World, project: Directory, dir: Directory, o: Outcome) {
    match o
    case Fine(origins) => Brought(w, dir, origins)
    case CycleAt(_) => NameRepeats(w, project)
    case ConflictFound => Shares(w, project)
    case Unwalkable => false
  }

  lemma {:induction false} WalkExplains(w: World, project: Directory, dir: Directory, stack: set<Name>)
    requires AllConnected(w, project) && Above(w, project, stack, dir) && dir in w.manifests
    ensures Explains(w, project, dir, Walk(w, dir, stack))
    decreases LocalNames(w) - stack, 1, 0
  {
    var name := w.manifests[dir].name;
    if name in stack {
      assert NamesAncestor(w, project, name, dir);
      var a, b :| a in w.manifests && w.manifests[a].name == name && Leads(w, project, a, b, dir);
      assert RepeatsAt(w, project, a, b, dir);
    } else {
      assert stack + {name} - {name} == stack;
      WalkEachExplains(w, project, dir, stack + {name}, 0, map[]);
      ReachesSelf(DirectoryGraph(w), dir);
    }
  }

  lemma {:induction false} WalkEachExplains(w: World, project: Directory, dir: Directory, stack: set<Name>, k: nat,
                                            origins: Origins)
    requires AllConnected(w, project) && Inside(w, project, stack, dir) && k <= |w.manifests[dir].dependencies|
    requires Brought(w, dir, origins)
    ensures Explains(w, project, dir, WalkEach(w, dir, stack, k, origins))
    decreases LocalNames(w) - stack, 3, |w.manifests[dir].dependencies| - k
  {
    if k < |w.manifests[dir].dependencies| {
      WalkChildExplains(w, project, dir, stack, k);
      var c := WalkChild(w, dir, stack, w.manifests[dir].dependencies[k]);
      WalkOneMore(w, dir, stack, k, origins, c);
      if c.Fine? {
        WalkOnExplains(w, project, dir, stack, k, origins, c.origins);
      }
    }
  }

  lemma {:induction false} WalkOnExplains(w: World, project: Directory, dir: Directory, stack: set<Name>, k: nat,
                                          origins: Origins, c: Origins)
    requires AllConnected(w, project) && Inside(w, project, stack, dir) && k < |w.manifests[dir].dependencies|
    requires Brought(w, dir, origins) && Brought(w, dir, c)
    requires w.manifests[dir].name in c ==> NameRepeats(w, project)
    ensures Explains(w, project, dir, WalkOn(w, dir, stack, k, origins, c))
    decreases LocalNames(w) - stack, 3, |w.manifests[dir].dependencies| - k, 0
  {
    if w.manifests[dir].name !in c {
      if Agree(origins, c) {
        WalkEachExplains(w, project, dir, stack, k + 1, origins + c);
      } else {
        DisagreementShares(w, project, dir, origins, c);
      }
    }
  }

  /** What a child brings; its parent's name among it is a repetition. */
  lemma {:induction false} WalkChildExplains(w: World, project: Directory, dir: Directory, stack: set<Name>, k: nat)
    requires AllConnected(w, project) && Inside(w, project, stack, dir) && k < |w.manifests[dir].dependencies|
    ensures var c := WalkChild(w, dir, stack, w.manifests[dir].dependencies[k]);
            Explains(w, project, dir, c) && (c.Fine? && w.manifests[dir].name in c.origins ==> NameRepeats(w, project))
    decreases LocalNames(w) - stack, 2, 0
  {
    var d := w.manifests[dir].dependencies[k];
    if d.acquisition.ByVersion? {
      var r := ConnectedRelease(w, project, dir, k);
      FrozenAreBrought(w, project, dir, k, r.packages);
    } else {
      var child := ConnectedChild(w, project, dir, k);
      AboveChild(w, project, stack, dir, child);
      WalkExplains(w, project, child, stack);
      var c := Walk(w, child, stack);
      if c.Fine? {
        BroughtFromParent(w, project, dir, child, c.origins);
      }
    }
  }

  lemma FrozenAreBrought(w: World, project: Directory, dir: Directory, k: nat, packages: seq<LockedPackage>)
    requires Reaches(DirectoryGraph(w), project, dir) && dir in w.manifests
    requires forall p :: p in packages ==> FrozenAt(w, dir, k, p)
    ensures Brought(w, dir, FrozenOrigins(packages))
    ensures w.manifests[dir].name in FrozenOrigins(packages) ==> FrozenRepeats(w, project)
  {
    ReachesSelf(DirectoryGraph(w), dir);
    forall n | n in Names(packages)
      ensures Brings(w, dir, Frozen(Find(packages, n).value))
      ensures n == w.manifests[dir].name ==> FrozenRepeats(w, project)
    {
      var p := Find(packages, n).value;
      assert FrozenAt(w, dir, k, p);
      if n == w.manifests[dir].name {
        assert FrozenRepeatsAt(w, project, dir, p);
      }
    }
  }

  lemma BroughtFromParent(w: World, project: Directory, dir: Directory, child: Directory, origins: Origins)
    requires Reaches(DirectoryGraph(w), project, dir) && dir in w.manifests
    requires Edge(DirectoryGraph(w), dir, child) && Brought(w, child, origins)
    ensures Brought(w, dir, origins)
    ensures w.manifests[dir].name in origins ==> NameRepeats(w, project)
  {
    ReachesSelf(DirectoryGraph(w), child);
    ReachesStep(DirectoryGraph(w), dir, child, child);
    forall n | n in origins
      ensures Brings(w, dir, origins[n])
    {
      BringsFromAbove(w, dir, child, origins[n]);
    }
    if w.manifests[dir].name in origins {
      OwnNameRepeats(w, project, dir, child, origins[w.manifests[dir].name]);
    }
  }

  lemma OwnNameRepeats(w: World, project: Directory, dir: Directory, child: Directory, o: Origin)
    requires Reaches(DirectoryGraph(w), project, dir) && dir in w.manifests && Edge(DirectoryGraph(w), dir, child)
    requires Brings(w, child, o) && Brings(w, dir, o) && NameOf(w, o) == w.manifests[dir].name
    ensures NameRepeats(w, project)
  {
    match o
    case At(d) => assert RepeatsAt(w, project, dir, child, d);
    case Frozen(p) => assert FrozenRepeatsAt(w, project, dir, p);
  }

  lemma DisagreementShares(w: World, project: Directory, dir: Directory, a: Origins, b: Origins)
    requires Reaches(DirectoryGraph(w), project, dir) && Brought(w, dir, a) && Brought(w, dir, b) && !Agree(a, b)
    ensures Shares(w, project)
  {
    var n :| n in a && n in b && a[n] != b[n];
    BringsFromAbove(w, project, dir, a[n]);
    BringsFromAbove(w, project, dir, b[n]);
    assert SharesAt(w, project, a[n], b[n]);
  }

  // ----- The stack only decides whether a directory resolves, not to what -----

  lemma {:induction false} ResolveIgnoresStack(w: World, project: Directory, dir: Directory, source: LockedSource,
                                               s: set<Name>, t: set<Name>)
    requires ReadManifest(w, Local(dir)).Some?
    requires Resolve(w, project, dir, source, s).Ok? && Resolve(w, project, dir, source, t).Ok?
    ensures Resolve(w, project, dir, source, s) == Resolve(w, project, dir, source, t)
    decreases LocalNames(w) - s, 1, 0
  {
    var m := ReadManifest(w, Local(dir)).value;
    DependenciesIgnoreStack(w, project, dir, m, s + {m.name}, t + {m.name}, 0, Gathered(map[], [], []));
  }

  lemma {:induction false} DependenciesIgnoreStack(w: World, project: Directory, dir: Directory, m: Manifest,
                                                   s: set<Name>, t: set<Name>, k: nat, g: Gathered)
    requires ReadManifest(w, Local(dir)) == Some(m) && k <= |m.dependencies|
    requires ResolveDependencies(w, project, dir, s, k, g).Ok? && ResolveDependencies(w, project, dir, t, k, g).Ok?
    ensures ResolveDependencies(w, project, dir, s, k, g) == ResolveDependencies(w, project, dir, t, k, g)
    decreases LocalNames(w) - s, 3, |m.dependencies| - k
  {
    if k < |m.dependencies| {
      ChildIgnoresStack(w, project, dir, s, t, m.dependencies[k]);
      var child := ResolveChild(w, project, dir, s, m.dependencies[k]).value;
      DependenciesIgnoreStack(w, project, dir, m, s, t, k + 1, Gather(m, m.dependencies[k], g, child.0, child.1).value);
    }
  }

  lemma {:induction false} ChildIgnoresStack(w: World, project: Directory, dir: Directory, s: set<Name>, t: set<Name>,
                                             d: Dependency)
    requires ReadManifest(w, Local(dir)).Some?
    requires ResolveChild(w, project, dir, s, d).Ok? && ResolveChild(w, project, dir, t, d).Ok?
    ensures ResolveChild(w, project, dir, s, d) == ResolveChild(w, project, dir, t, d)
    decreases LocalNames(w) - s, 2, 0
  {
    if d.acquisition.ByPath? {
      var child := Canonicalize(w.tree, dir, d.acquisition.path).value;
      ResolveIgnoresStack(w, project, child, SourceOf(child, project), s, t);
    }
  }

  // ----- Entries and directories -----

  /** `p` is the entry that resolving directory `d` gives its own package, for some stack; and its path leads back. */
  ghost predicate EntryAt(w: World, project: Directory, d: Directory, p: LockedPackage, stack: set<Name>, r: Resolution)
  {
    && d in w.manifests && p.name == w.manifests[d].name && p.source == SourceOf(d, project) && LeadsBack(w, project, d)
    && Resolves(w, project, d, SourceOf(d, project), stack, r) && Find(r.packages, p.name) == Some(p)
  }

  ghost predicate Entry(w: World, project: Directory, d: Directory, p: LockedPackage) {
    exists stack, r :: EntryAt(w, project, d, p, stack, r)
  }

  type EntryOf = (Origin, LockedPackage) -> bool

  /** The entry of a directory is the one it resolves to; the entry frozen into a release stays as it is. */
  ghost predicate HasEntry(w: World, project: Directory, o: Origin, p: LockedPackage) {
    match o
    case At(d) => Entry(w, project, d, p)
    case Frozen(q) => p == q && p.source.RegistrySource?
  }

  ghost function Entries(w: World, project: Directory): EntryOf {
    (o, p) => HasEntry(w, project, o, p)
  }

  /** One origin has one entry, and one entry has one origin. */
  ghost predicate Unique(entry: EntryOf) {
    forall c, d, p, q :: entry(c, p) && entry(d, q) && p.name == q.name ==> (c == d <==> p == q)
  }

  lemma EntriesAreUnique(w: World, project: Directory)
    ensures Unique(Entries(w, project))
  {
    forall c, d, p, q | Entries(w, project)(c, p) && Entries(w, project)(d, q) && p.name == q.name
      ensures c == d <==> p == q
    {
      if c.At? && d.At? {
        DirectoriesAreUnique(w, project, c.dir, d.dir, p, q);
      }
    }
  }

  lemma DirectoriesAreUnique(w: World, project: Directory, c: Directory, d: Directory, p: LockedPackage,
                             q: LockedPackage)
    requires Entry(w, project, c, p) && Entry(w, project, d, q) && p.name == q.name
    ensures c == d <==> p == q
  {
    var s, r :| EntryAt(w, project, c, p, s, r);
    var t, u :| EntryAt(w, project, d, q, t, u);
    if c == d {
      ResolveIgnoresStack(w, project, d, SourceOf(d, project), s, t);
    }
  }

  /** The packages are the entries of the origins in the map. */
  predicate Matches(entry: EntryOf, packages: seq<LockedPackage>, origins: Origins) {
    Names(packages) == origins.Keys && forall p :: p in packages ==> p.name in origins && entry(origins[p.name], p)
  }

  /**
   Closures can be merged exactly when they name the same origins, and the merged closure
   matches the merged map.
   */
  lemma MatchesMerge(entry: EntryOf, a: seq<LockedPackage>, b: seq<LockedPackage>, da: Origins,
                     db: Origins)
    requires Unique(entry) && Sorted(a) && Sorted(b) && Matches(entry, a, da) && Matches(entry, b, db)
    ensures Merge(a, b).Ok? <==> Agree(da, db)
    ensures Merge(a, b).Ok? ==> Matches(entry, Merge(a, b).value, da + db)
  {
    MergeIsUnion(a, b);
    forall p, q | p in a && q in b && p.name == q.name
      ensures p == q <==> da[p.name] == db[p.name]
    {
      assert entry(da[p.name], p) && entry(db[q.name], q);
    }
    AgreeExactlyCompatible(a, b, da, db);
    if Merge(a, b).Ok? {
      MatchesUnion(entry, a, b, Merge(a, b).value, da, db);
    }
  }

  lemma MatchesUnion(entry: EntryOf, a: seq<LockedPackage>, b: seq<LockedPackage>, u: seq<LockedPackage>,
                     da: Origins, db: Origins)
    requires Matches(entry, a, da) && Matches(entry, b, db) && Agree(da, db)
    requires forall p :: p in u <==> p in a || p in b
    ensures Matches(entry, u, da + db)
  {
    UnionNames(a, b, u);
    forall p | p in u
      ensures entry((da + db)[p.name], p)
    {
      if p in b {
        assert p.name in db;
      } else {
        assert p.name in da;
      }
    }
  }

  lemma AgreeExactlyCompatible(a: seq<LockedPackage>, b: seq<LockedPackage>, da: Origins,
                               db: Origins)
    requires Names(a) == da.Keys && Names(b) == db.Keys
    requires forall p, q :: p in a && q in b && p.name == q.name ==> (p == q <==> da[p.name] == db[p.name])
    ensures Compatible(a, b) <==> Agree(da, db)
  {
    if Compatible(a, b) {
      forall n | n in da && n in db
        ensures da[n] == db[n]
      {
        assert n in Names(a) && n in Names(b);
        var p :| p in a && p.name == n;
        var q :| q in b && q.name == n;
      }
    }
  }

  lemma UnionNames(a: seq<LockedPackage>, b: seq<LockedPackage>, u: seq<LockedPackage>)
    requires forall p :: p in u <==> p in a || p in b
    ensures Names(u) == Names(a) + Names(b)
  {
  }

  lemma {:induction false} MergeErrorIsConflict(target: seq<LockedPackage>, incoming: seq<LockedPackage>)
    ensures Merge(target, incoming).Err? ==> Merge(target, incoming).error.Conflict?
    decreases |incoming|
  {
    if incoming != [] {
      MergeErrorIsConflict(Insert(target, incoming[0]), incoming[1..]);
    }
  }

  // ----- Worlds where nothing but names can go wrong -----

  /**
   With whatever resolution gathers for it, the package in `dir` compiles, and it can be
   archived under the digest of its graph.
   */
  ghost predicate Builds(w: World, project: Directory, dir: Directory)
    requires ReadManifest(w, Local(dir)).Some?
  {
    forall stack, g :: ResolveDependencies(w, project, dir, stack, 0, Gathered(map[], [], [])) == Ok(g) ==>
      var graph := w.compile(Local(dir), g.supplied);
      graph.Some? && w.archive(Local(dir), RootDigest(graph.value), SortDependencies(g.direct), g.packages).Some?
  }

  /**
   Every directory the project reaches holds a valid manifest whose dependencies are found or
   verify, and builds; and every recorded path leads back.
   */
  ghost predicate Orderly(w: World, project: Directory) {
    && AllConnected(w, project) && AllLeadBack(w, project, project)
    && forall d :: Reaches(DirectoryGraph(w), project, d) ==>
         ReadManifest(w, Local(d)).Some? && Builds(w, project, d)
  }

  // ----- The walk decides the outcome -----

  /** The resolver ends as the walk does. */
  predicate Decided(entry: EntryOf, r: Result<seq<LockedPackage>, Error>, o: Outcome) {
    match o
    case Fine(origins) => r.Ok? && Matches(entry, r.value, origins)
    case CycleAt(name) => r == Err(Cycle(name))
    case ConflictFound => r.Err? && r.error.Conflict?
    case Unwalkable => false
  }

  function PackagesOf(r: Result<Resolution, Error>): Result<seq<LockedPackage>, Error> {
    if r.Ok? then Ok(r.value.packages) else Err(r.error)
  }

  function ChildPackages(r: Result<(Version, Resolution), Error>): Result<seq<LockedPackage>, Error> {
    if r.Ok? then Ok(r.value.1.packages) else Err(r.error)
  }

  function GatheredOf(r: Result<Gathered, Error>): Result<seq<LockedPackage>, Error> {
    if r.Ok? then Ok(r.value.packages) else Err(r.error)
  }

  /** What the loop over dependencies has gathered, and the map the walk has, after `k` of them. */
  ghost predicate InStep(w: World, project: Directory, dir: Directory, k: nat, g: Gathered, origins: Origins) {
    && dir in w.manifests && Reaches(DirectoryGraph(w), project, dir)
    && ReadManifest(w, Local(dir)) == Some(w.manifests[dir]) && k <= |w.manifests[dir].dependencies|
    && GatheredSoundly(g, w.manifests[dir], k) && LaterAliasesUnused(g, w.manifests[dir], k)
    && Matches(Entries(w, project), g.packages, origins)
  }

  /** Resolving a dependency is resolving the directory it leads to. */
  lemma ChildIsDirectory(w: World, project: Directory, dir: Directory, stack: set<Name>, d: Dependency,
                         child: Directory)
    requires ReadManifest(w, Local(dir)).Some? && ChildOf(w, dir, d) == Some(child) && Connected(w, child)
    requires w.manifests[child].name == d.package
    ensures var r := Resolve(w, project, child, SourceOf(child, project), stack);
            ResolveChild(w, project, dir, stack, d) == if r.Err? then Err(r.error)
                                                       else Ok((w.manifests[child].version, r.value))
  {
  }

  lemma ResolveOneMore(w: World, project: Directory, dir: Directory, stack: set<Name>, m: Manifest, k: nat, g: Gathered,
                       child: Result<(Version, Resolution), Error>)
    requires ReadManifest(w, Local(dir)) == Some(m) && k < |m.dependencies|
    requires ResolveChild(w, project, dir, stack, m.dependencies[k]) == child
    ensures var r := ResolveDependencies(w, project, dir, stack, k, g);
            if child.Err? then r == Err(child.error)
            else
              var next := Gather(m, m.dependencies[k], g, child.value.0, child.value.1);
              r == if next.Err? then Err(next.error) else ResolveDependencies(w, project, dir, stack, k + 1, next.value)
  {
  }

  /**
   Gathering one more child fails on the parent's own name, or on an origin that disagrees with one
   gathered before.
   */
  lemma GatherDecided(w: World, project: Directory, dir: Directory, k: nat, g: Gathered, origins: Origins,
                      version: Version, child: Resolution, more: Origins)
    requires InStep(w, project, dir, k, g, origins) && k < |w.manifests[dir].dependencies|
    requires Sound(child, w.manifests[dir].dependencies[k].package, version)
    requires Matches(Entries(w, project), child.packages, more)
    ensures var m := w.manifests[dir];
            var next := Gather(m, m.dependencies[k], g, version, child);
            && (m.name in more ==> next == Err(Cycle(m.name)))
            && (m.name !in more ==> (next.Ok? <==> Agree(origins, more)) && (next.Err? ==> next.error.Conflict?))
            && (next.Ok? ==> InStep(w, project, dir, k + 1, next.value, origins + more))
  {
    var m := w.manifests[dir];
    EntriesAreUnique(w, project);
    MatchesMerge(Entries(w, project), g.packages, child.packages, origins, more);
    MergeErrorIsConflict(g.packages, child.packages);
    var next := Gather(m, m.dependencies[k], g, version, child);
    if next.Ok? {
      GatherIsSound(m, k, g, version, child);
    }
  }

  /** The walk over the dependencies that remain, after child `c`. */
  ghost function WalkOn(w: World, dir: Directory, stack: set<Name>, k: nat, origins: Origins, c: Origins): Outcome
    requires dir in w.manifests && k < |w.manifests[dir].dependencies|
  {
    if w.manifests[dir].name in c then CycleAt(w.manifests[dir].name)
    else if !Agree(origins, c) then ConflictFound
    else WalkEach(w, dir, stack, k + 1, origins + c)
  }

  lemma WalkOneMore(w: World, dir: Directory, stack: set<Name>, k: nat, origins: Origins, c: Outcome)
    requires dir in w.manifests && k < |w.manifests[dir].dependencies|
    requires WalkChild(w, dir, stack, w.manifests[dir].dependencies[k]) == c
    ensures WalkEach(w, dir, stack, k, origins) ==
            if !c.Fine? then c else WalkOn(w, dir, stack, k, origins, c.origins)
  {
  }

  lemma {:induction false} EachDecided(w: World, project: Directory, dir: Directory, stack: set<Name>, k: nat,
                                       g: Gathered, origins: Origins)
    requires Lawful(w) && Orderly(w, project) && InStep(w, project, dir, k, g, origins)
    ensures Decided(Entries(w, project), GatheredOf(ResolveDependencies(w, project, dir, stack, k, g)),
                    WalkEach(w, dir, stack, k, origins))
    decreases LocalNames(w) - stack, 3, |w.manifests[dir].dependencies| - k
  {
    var m := w.manifests[dir];
    if k < |m.dependencies| {
      ChildDecided(w, project, dir, stack, k);
      var c := WalkChild(w, dir, stack, m.dependencies[k]);
      var r := ResolveChild(w, project, dir, stack, m.dependencies[k]);
      WalkOneMore(w, dir, stack, k, origins, c);
      ResolveOneMore(w, project, dir, stack, m, k, g, r);
      if c.Fine? {
        OneMoreDecided(w, project, dir, stack, k, g, origins, r.value.0, r.value.1, c.origins);
      }
    } else {
      assert WalkEach(w, dir, stack, k, origins) == Fine(origins);
    }
  }

  lemma {:induction false} OneMoreDecided(w: World, project: Directory, dir: Directory, stack: set<Name>, k: nat,
                                          g: Gathered, origins: Origins, version: Version, child: Resolution,
                                          more: Origins)
    requires Lawful(w) && Orderly(w, project) && InStep(w, project, dir, k, g, origins)
    requires k < |w.manifests[dir].dependencies|
    requires ResolveChild(w, project, dir, stack, w.manifests[dir].dependencies[k]) == Ok((version, child))
    requires Matches(Entries(w, project), child.packages, more)
    ensures var m := w.manifests[dir];
            var next := Gather(m, m.dependencies[k], g, version, child);
            Decided(Entries(w, project),
                    if next.Err? then Err(next.error)
                    else GatheredOf(ResolveDependencies(w, project, dir, stack, k + 1, next.value)),
                    WalkOn(w, dir, stack, k, origins, more))
    decreases LocalNames(w) - stack, 3, |w.manifests[dir].dependencies| - k, 0
  {
    var m := w.manifests[dir];
    ResolveChildIsSound(w, project, dir, stack, m.dependencies[k]);
    GatherDecided(w, project, dir, k, g, origins, version, child, more);
    var next := Gather(m, m.dependencies[k], g, version, child);
    if next.Ok? {
      EachDecided(w, project, dir, stack, k + 1, next.value, origins + more);
    }
  }

  lemma {:induction false} ChildDecided(w: World, project: Directory, dir: Directory, stack: set<Name>, k: nat)
    requires Lawful(w) && Orderly(w, project) && dir in w.manifests && Reaches(DirectoryGraph(w), project, dir)
    requires ReadManifest(w, Local(dir)) == Some(w.manifests[dir]) && k < |w.manifests[dir].dependencies|
    ensures var d := w.manifests[dir].dependencies[k];
            Decided(Entries(w, project), ChildPackages(ResolveChild(w, project, dir, stack, d)),
                    WalkChild(w, dir, stack, d))
    decreases LocalNames(w) - stack, 2, 0
  {
    var d := w.manifests[dir].dependencies[k];
    if d.acquisition.ByVersion? {
      var r := ConnectedRelease(w, project, dir, k);
      ReleaseMatches(w, project, w.manifests[dir], d);
    } else {
      var child := ConnectedChild(w, project, dir, k);
      ChildIsDirectory(w, project, dir, stack, d, child);
      WalkDecides(w, project, dir, child, stack);
    }
  }

  /** The closure of a release is what its frozen entries say. */
  lemma ReleaseMatches(w: World, project: Directory, m: Manifest, d: Dependency)
    requires Lawful(w) && d.acquisition.ByVersion? && ReleaseOf(w, m, d).Ok?
    ensures var packages := ReleaseOf(w, m, d).value.1.packages;
            Matches(Entries(w, project), packages, FrozenOrigins(packages))
  {
    var packages := ReleaseOf(w, m, d).value.1.packages;
    ReleaseIsSound(w, m, d.package, d.acquisition.requirement, d.acquisition.registry);
    ReleaseIsRegistryOnly(w, m, d);
    FrozenMatches(w, project, packages);
  }

  lemma ReleaseIsRegistryOnly(w: World, m: Manifest, d: Dependency)
    requires Lawful(w) && d.acquisition.ByVersion? && ReleaseOf(w, m, d).Ok?
    ensures RegistryOnly(ReleaseOf(w, m, d).value.1.packages)
  {
    var prefix, release := ReleaseFacts(w, m, d);
    PulledIsRegistryOnly(release, RegistrySource(prefix, release.manifestDigest));
  }

  lemma FrozenMatches(w: World, project: Directory, packages: seq<LockedPackage>)
    requires Sorted(packages) && RegistryOnly(packages)
    ensures Matches(Entries(w, project), packages, FrozenOrigins(packages))
  {
    forall p | p in packages
      ensures Entries(w, project)(FrozenOrigins(packages)[p.name], p)
    {
      SortedFind(packages, p);
    }
  }

  lemma EmptyInStep(w: World, project: Directory, dir: Directory)
    requires dir in w.manifests && ManifestValid(w.manifests[dir]) && Reaches(DirectoryGraph(w), project, dir)
    ensures InStep(w, project, dir, 0, Gathered(map[], [], []), map[])
  {
    EmptyIsSound(w.manifests[dir]);
  }

  /** Compiling and archiving what was gathered succeeds. */
  lemma FinishSucceeds(w: World, project: Directory, dir: Directory, m: Manifest, stack: set<Name>,
                       source: LockedSource, g: Gathered)
    requires ReadManifest(w, Local(dir)) == Some(m) && Builds(w, project, dir)
    requires ResolveDependencies(w, project, dir, stack, 0, Gathered(map[], [], [])) == Ok(g)
    ensures FinishResolution(w, dir, m, source, g).Ok?
  {
    FinishOk(w, dir, m, source, g, w.compile(Local(dir), g.supplied).value);
  }

  lemma FinishOk(w: World, dir: Directory, m: Manifest, source: LockedSource, g: Gathered, graph: PackageGraph)
    requires w.compile(Local(dir), g.supplied) == Some(graph)
    requires w.archive(Local(dir), RootDigest(graph), SortDependencies(g.direct), g.packages).Some?
    ensures FinishResolution(w, dir, m, source, g).Ok?
  {
  }

  lemma OwnEntryMatches(w: World, project: Directory, dir: Directory, stack: set<Name>, g: Gathered, r: Resolution,
                        origins: Origins)
    requires dir in w.manifests && Sorted(g.packages) && Matches(Entries(w, project), g.packages, origins)
    requires LeadsBack(w, project, dir)
    requires w.manifests[dir].name !in Names(g.packages)
    requires FinishResolution(w, dir, w.manifests[dir], SourceOf(dir, project), g) == Ok(r)
    requires Resolves(w, project, dir, SourceOf(dir, project), stack, r)
    ensures Matches(Entries(w, project), r.packages, origins[w.manifests[dir].name := At(dir)])
  {
    var m := w.manifests[dir];
    var direct := SortDependencies(g.direct);
    var own := LockedPackage(m.name, m.version, RootDigest(r.graph),
                             w.archive(Local(dir), RootDigest(r.graph), direct, g.packages).value, direct,
                             SourceOf(dir, project));
    InsertKeepsOrder(g.packages, own);
    SortedFind(r.packages, own);
    OwnEntryAt(w, project, dir, own, stack, r);
    MatchesOneMore(Entries(w, project), g.packages, origins, own, At(dir), r.packages);
  }

  lemma OwnEntryAt(w: World, project: Directory, dir: Directory, own: LockedPackage, stack: set<Name>, r: Resolution)
    requires EntryAt(w, project, dir, own, stack, r)
    ensures Entries(w, project)(At(dir), own)
  {
  }

  lemma MatchesOneMore(entry: EntryOf, packages: seq<LockedPackage>, origins: Origins, own: LockedPackage,
                       o: Origin, grown: seq<LockedPackage>)
    requires Matches(entry, packages, origins) && entry(o, own) && own.name !in Names(packages)
    requires forall p :: p in grown <==> p == own || (p in packages && p.name != own.name)
    ensures Matches(entry, grown, origins[own.name := o])
  {
    OwnEntryNames(packages, own, grown);
  }

  lemma OwnEntryNames(packages: seq<LockedPackage>, own: LockedPackage, grown: seq<LockedPackage>)
    requires forall p :: p in grown <==> p == own || (p in packages && p.name != own.name)
    requires own.name !in Names(packages)
    ensures Names(grown) == Names(packages) + {own.name}
  {
  }

  /** Below the project, resolving a directory ends exactly as walking it does. */
  lemma {:induction false} WalkDecides(w: World, project: Directory, parent: Directory, dir: Directory,
                                       stack: set<Name>)
    requires Lawful(w) && Orderly(w, project) && Connected(w, dir)
    requires Reaches(DirectoryGraph(w), project, parent) && Edge(DirectoryGraph(w), parent, dir)
    ensures Decided(Entries(w, project), PackagesOf(Resolve(w, project, dir, SourceOf(dir, project), stack)),
                    Walk(w, dir, stack))
    decreases LocalNames(w) - stack, 1, 0
  {
    var m := w.manifests[dir];
    if m.name !in stack {
      var start := Gathered(map[], [], []);
      ReachesExtend(DirectoryGraph(w), project, parent, dir);
      EmptyInStep(w, project, dir);
      EachDecided(w, project, dir, stack + {m.name}, 0, start, map[]);
      var gathered := ResolveDependencies(w, project, dir, stack + {m.name}, 0, start);
      if gathered.Ok? {
        ResolveDependenciesAreSound(w, project, dir, stack + {m.name}, 0, start);
        assert Builds(w, project, dir) && LeadsBack(w, project, dir);
        FinishSucceeds(w, project, dir, m, stack + {m.name}, SourceOf(dir, project), gathered.value);
        var r := Resolve(w, project, dir, SourceOf(dir, project), stack).value;
        OwnEntryMatches(w, project, dir, stack, gathered.value, r,
                        WalkEach(w, dir, stack + {m.name}, 0, map[]).origins);
      }
    }
  }
}
