/**
 Re-recording the project's own entry after its sources changed: the lock that is written
 verifies, and nothing but that entry differs.
 */
module Relocking {
  import opened Wrappers
  import opened Graphs
  import opened LockModel
  import opened LockValidation
  import opened ProjectPaths
  import opened Resolver
  import opened VerifierSteps
  import opened ResolverSoundness
  import opened ResolverAgreement
  import opened ResolverConverse

  /** The project's dependencies verified against the lock, and the graph its own sources compile to. */
  function Refresh(w: World, project: Directory, lock: Lock, own: LockedPackage)
    : Result<(Verified, PackageGraph), Error>
    requires ReadManifest(w, Local(project)).Some?
  {
    var m := ReadManifest(w, Local(project)).value;
    if own.version != m.version then Err(Differs("version"))
    else
      var verified := CompileDependencies(w, project, Local(project), lock, {m.name}, 0, Verified(map[], []));
      if verified.Err? then Err(verified.error)
      else if SortDependencies(verified.value.exact) != own.dependencies then Err(Differs("dependencies"))
      else
        var graph := w.compile(Local(project), verified.value.supplied);
        if graph.None? then Err(Rejected("compile")) else Ok((verified.value, graph.value))
  }

  function Reentered(lock: Lock, own: LockedPackage, digest: Digest, distribution: Digest): Lock {
    Lock(lock.root, Insert(lock.packages, own.(digest := digest, distributionDigest := distribution)))
  }

  /** Whether the lock is written, and the lock there is afterwards. */
  ghost function Relock(w: World, project: Directory, lock: Lock): Result<(bool, Lock), Error>
    requires ReadManifest(w, Local(project)).Some?
  {
    var m := ReadManifest(w, Local(project)).value;
    var own := Find(lock.packages, m.name);
    if own.None? then Err(Absent(m.name))
    else
      var current := Refresh(w, project, lock, own.value);
      if current.Err? then Err(current.error)
      else
        var digest := RootDigest(current.value.1);
        var closure := ClosureFromLock(lock.packages, own.value);
        if closure.None? then Err(Absent(m.name))
        else
          var archived := w.archive(Local(project), digest, own.value.dependencies, closure.value);
          if archived.None? then Err(Rejected("archive"))
          else if own.value.digest == digest && own.value.distributionDigest == archived.value then Ok((false, lock))
          else
            var next := Reentered(lock, own.value, digest, archived.value);
            if !ValidLock(next) then Err(Rejected("lock")) else Ok((true, next))
  }

  // ----- What a verified package covers -----

  /** The digests are those recorded for everything reached from `name` in the graph `g` of the packages. */
  ghost predicate Covers(g: Graph<Name>, packages: seq<LockedPackage>, name: Name, digests: map<Name, Digest>) {
    && (forall n :: n in digests <==> Reaches(g, name, n))
    && forall n :: n in digests ==> Records(packages, n, digests[n])
  }

  predicate Records(packages: seq<LockedPackage>, n: Name, digest: Digest) {
    Find(packages, n).Some? && Find(packages, n).value.digest == digest
  }

  ghost predicate SuppliesCovers(g: Graph<Name>, packages: seq<LockedPackage>, m: Manifest, k: nat,
                                 supplied: map<string, PackageGraph>)
    requires k <= |m.dependencies|
  {
    && (forall i :: 0 <= i < k ==> SupplyCovers(g, packages, m.dependencies[i], supplied))
    && forall a :: a in supplied ==> exists i :: 0 <= i < k && m.dependencies[i].alias == a
  }

  ghost predicate SupplyCovers(g: Graph<Name>, packages: seq<LockedPackage>, d: Dependency,
                               supplied: map<string, PackageGraph>)
  {
    d.alias in supplied && Covers(g, packages, d.package, supplied[d.alias].digests)
  }

  /** The edges out of the package are the manifest's dependencies. */
  ghost predicate EdgesDeclared(g: Graph<Name>, m: Manifest) {
    forall n :: Edge(g, m.name, n) <==> DependsOnPackage(m, n)
  }

  predicate DependsOnPackage(m: Manifest, n: Name) {
    exists i :: 0 <= i < |m.dependencies| && m.dependencies[i].package == n
  }

  lemma RootCovers(g: Graph<Name>, packages: seq<LockedPackage>, m: Manifest, supplied: map<string, PackageGraph>,
                   graph: PackageGraph)
    requires CompilesSoundly(m, supplied, graph) && SuppliesCovers(g, packages, m, |m.dependencies|, supplied)
    requires EdgesDeclared(g, m) && Records(packages, m.name, RootDigest(graph))
    ensures Covers(g, packages, m.name, graph.digests)
  {
    forall n
      ensures n in graph.digests <==> Reaches(g, m.name, n)
      ensures n in graph.digests ==> Records(packages, n, graph.digests[n])
    {
      if n == m.name {
        ReachesSelf(g, n);
      } else {
        if n in graph.digests {
          MemberCovered(g, packages, m, supplied, graph, n);
        }
        if Reaches(g, m.name, n) {
          ReachedIsMember(g, packages, m, supplied, graph, n);
        }
      }
    }
  }

  lemma MemberCovered(g: Graph<Name>, packages: seq<LockedPackage>, m: Manifest, supplied: map<string, PackageGraph>,
                      graph: PackageGraph, n: Name)
    requires CompilesSoundly(m, supplied, graph) && SuppliesCovers(g, packages, m, |m.dependencies|, supplied)
    requires EdgesDeclared(g, m) && n != m.name && n in graph.digests
    ensures Reaches(g, m.name, n) && Records(packages, n, graph.digests[n])
  {
    var a :| a in supplied && n in supplied[a].digests;
    var i :| 0 <= i < |m.dependencies| && m.dependencies[i].alias == a;
    assert SupplyCovers(g, packages, m.dependencies[i], supplied);
    assert DependsOnPackage(m, m.dependencies[i].package);
    ReachesStep(g, m.name, m.dependencies[i].package, n);
  }

  lemma ReachedIsMember(g: Graph<Name>, packages: seq<LockedPackage>, m: Manifest, supplied: map<string, PackageGraph>,
                        graph: PackageGraph, n: Name)
    requires CompilesSoundly(m, supplied, graph) && SuppliesCovers(g, packages, m, |m.dependencies|, supplied)
    requires EdgesDeclared(g, m) && n != m.name && Reaches(g, m.name, n)
    ensures n in graph.digests
  {
    var a := ReachedIsSupplied(g, packages, m, supplied, n);
  }

  lemma ReachedIsSupplied(g: Graph<Name>, packages: seq<LockedPackage>, m: Manifest,
                          supplied: map<string, PackageGraph>, n: Name)
    returns (a: string)
    requires SuppliesCovers(g, packages, m, |m.dependencies|, supplied) && EdgesDeclared(g, m)
    requires n != m.name && Reaches(g, m.name, n)
    ensures a in supplied && n in supplied[a].digests
  {
    var b := ReachesByFirstEdge(g, m.name, n);
    assert DependsOnPackage(m, b);
    var i :| 0 <= i < |m.dependencies| && m.dependencies[i].package == b;
    assert SupplyCovers(g, packages, m.dependencies[i], supplied);
    a := m.dependencies[i].alias;
  }

  lemma DeclaredEdges(w: World, project: Directory, root: PackageRoot, m: Manifest, lock: Lock, stack: set<Name>,
                      v: Verified)
    requires ReadManifest(w, root) == Some(m) && Find(lock.packages, m.name).Some?
    requires CompileDependencies(w, project, root, lock, stack, 0, Verified(map[], [])) == Ok(v)
    requires SortDependencies(v.exact) == Find(lock.packages, m.name).value.dependencies
    ensures EdgesDeclared(DependencyGraph(lock.packages), m)
  {
    ExactNamesDependencies(w, project, root, m, lock, stack, 0, Verified(map[], []), v);
    ExactNamesDiffer(v.exact, m);
    SortDependenciesSorts(v.exact);
    var own := Find(lock.packages, m.name).value;
    forall n
      ensures Edge(DependencyGraph(lock.packages), m.name, n) <==> DependsOnPackage(m, n)
    {
      NamesDeclared(own.dependencies, v.exact, m, n);
      assert Edge(DependencyGraph(lock.packages), m.name, n) <==> n in DependencyNames(own);
    }
  }

  lemma ExactNamesDiffer(exact: seq<LockedDependency>, m: Manifest)
    requires InDeclaredOrder(exact, m, |m.dependencies|) && ManifestValid(m)
    ensures forall i, j :: 0 <= i < j < |exact| ==> exact[i].name != exact[j].name
  {
  }

  lemma NamesDeclared(dependencies: seq<LockedDependency>, exact: seq<LockedDependency>, m: Manifest, n: Name)
    requires InDeclaredOrder(exact, m, |m.dependencies|) && forall d :: d in dependencies <==> d in exact
    ensures (exists d :: d in dependencies && d.name == n) <==> DependsOnPackage(m, n)
  {
    if d :| d in dependencies && d.name == n {
      var i :| 0 <= i < |exact| && exact[i] == d;
      assert m.dependencies[i].package == n;
    }
    if DependsOnPackage(m, n) {
      var i :| 0 <= i < |m.dependencies| && m.dependencies[i].package == n;
      assert exact[i] in dependencies && exact[i].name == n;
    }
  }

  /** A package verified against the lock compiles to exactly what the lock records from it on down. */
  lemma {:induction false} VerifiedCovers(w: World, project: Directory, root: PackageRoot, m: Manifest, lock: Lock,
                                          stack: set<Name>, graph: PackageGraph)
    requires Lawful(w) && ReadManifest(w, root) == Some(m) && CompileLocked(w, project, root, lock, stack) == Ok(graph)
    ensures Covers(DependencyGraph(lock.packages), lock.packages, m.name, graph.digests)
    decreases Names(lock.packages) - stack, 1, 0
  {
    var start := Verified(map[], []);
    var v := CompileDependencies(w, project, root, lock, stack + {m.name}, 0, start).value;
    UnfoldLocked(w, project, root, lock, stack, v);
    FinishedFacts(w, root, lock, Find(lock.packages, m.name).value, v, graph);
    VerifiedSupplies(w, project, root, m, lock, stack + {m.name}, 0, start, v);
    DeclaredEdges(w, project, root, m, lock, stack + {m.name}, v);
    CompilerIsSound(w, root, m, v.supplied, graph);
    RootCovers(DependencyGraph(lock.packages), lock.packages, m, v.supplied, graph);
  }

  lemma CompilerIsSound(w: World, root: PackageRoot, m: Manifest, supplied: map<string, PackageGraph>,
                        graph: PackageGraph)
    requires Lawful(w) && ReadManifest(w, root) == Some(m) && w.compile(root, supplied) == Some(graph)
    ensures CompilesSoundly(m, supplied, graph)
  {
  }

  lemma {:induction false} VerifiedSupplies(w: World, project: Directory, root: PackageRoot, m: Manifest, lock: Lock,
                                            stack: set<Name>, k: nat, v: Verified, final: Verified)
    requires Lawful(w) && ReadManifest(w, root) == Some(m) && k <= |m.dependencies|
    requires SuppliesCovers(DependencyGraph(lock.packages), lock.packages, m, k, v.supplied)
    requires CompileDependencies(w, project, root, lock, stack, k, v) == Ok(final)
    ensures SuppliesCovers(DependencyGraph(lock.packages), lock.packages, m, |m.dependencies|, final.supplied)
    decreases Names(lock.packages) - stack, 2, |m.dependencies| - k
  {
    if k < |m.dependencies| {
      var at, child, graph := VerifiedOneMore(w, project, root, m, lock, stack, k, v);
      VerifiedCovers(w, project, at.1, child, lock, stack, graph);
      SuppliesOneMore(DependencyGraph(lock.packages), lock.packages, m, k, v.supplied, graph);
      VerifiedSupplies(w, project, root, m, lock, stack, k + 1,
                       Verified(v.supplied[m.dependencies[k].alias := graph], v.exact + [EdgeTo(at.0)]), final);
    }
  }

  lemma SuppliesOneMore(g: Graph<Name>, packages: seq<LockedPackage>, m: Manifest, k: nat,
                        supplied: map<string, PackageGraph>, graph: PackageGraph)
    requires ManifestValid(m) && k < |m.dependencies| && SuppliesCovers(g, packages, m, k, supplied)
    requires Covers(g, packages, m.dependencies[k].package, graph.digests)
    ensures SuppliesCovers(g, packages, m, k + 1, supplied[m.dependencies[k].alias := graph])
  {
    var next := supplied[m.dependencies[k].alias := graph];
    forall i | 0 <= i < k + 1
      ensures SupplyCovers(g, packages, m.dependencies[i], next)
    {
      if i < k {
        assert SupplyCovers(g, packages, m.dependencies[i], supplied);
      }
    }
    forall a | a in next
      ensures exists i :: 0 <= i < k + 1 && m.dependencies[i].alias == a
    {
      if a != m.dependencies[k].alias {
        assert a in supplied;
      }
    }
  }

  // ----- Locks that differ in one entry's digests -----

  /** The two locks differ at most in the digests recorded for `name`. */
  ghost predicate Patched(before: Lock, after: Lock, name: Name) {
    && Sorted(before.packages) && Sorted(after.packages) && after.root == before.root
    && Names(after.packages) == Names(before.packages)
    && (forall p: LockedPackage :: p.name != name ==> (p in after.packages <==> p in before.packages))
    && forall n :: n in Names(before.packages) ==>
         Find(after.packages, n) == Some(Find(before.packages, n).value.(
           digest := Find(after.packages, n).value.digest,
               distributionDigest := Find(after.packages, n).value.distributionDigest))
  }

  lemma PatchedFinds(before: Lock, after: Lock, name: Name, n: Name)
    requires Patched(before, after, name) && n != name
    ensures Find(after.packages, n) == Find(before.packages, n)
  {
    if n in Names(before.packages) {
      SortedFind(after.packages, Find(before.packages, n).value);
    }
  }

  lemma PatchedGraph(before: Lock, after: Lock, name: Name)
    requires Patched(before, after, name)
    ensures DependencyGraph(after.packages) == DependencyGraph(before.packages)
  {
    forall n | n in Names(before.packages)
      ensures DependencyNames(Find(after.packages, n).value) == DependencyNames(Find(before.packages, n).value)
    {
    }
  }

  lemma {:induction false} WorklistPatched(before: Lock, after: Lock, name: Name, pending: seq<Name>, names: set<Name>)
    requires Patched(before, after, name)
    ensures Worklist(after.packages, pending, names) == Worklist(before.packages, pending, names)
    decreases Names(before.packages) - names, |pending|
  {
    if pending != [] {
      var n := pending[|pending| - 1];
      var rest := pending[..|pending| - 1];
      if n in names {
        WorklistPatched(before, after, name, rest, names);
      } else if n in Names(before.packages) {
        var found := Find(before.packages, n).value;
        WorklistPatched(before, after, name, rest + EdgeNames(found.dependencies), names + {n});
      }
    }
  }

  /** What the worklist collects is reached from what was pending. */
  ghost predicate FromPending(g: Graph<Name>, pending: seq<Name>, n: Name) {
    exists i :: 0 <= i < |pending| && Reaches(g, pending[i], n)
  }

  lemma {:induction false} WorklistReaches(packages: seq<LockedPackage>, pending: seq<Name>, names: set<Name>, n: Name)
    requires Worklist(packages, pending, names).Some? && n in Worklist(packages, pending, names).value && n !in names
    ensures FromPending(DependencyGraph(packages), pending, n)
    decreases Names(packages) - names, |pending|
  {
    var g := DependencyGraph(packages);
    var last := pending[|pending| - 1];
    var rest := pending[..|pending| - 1];
    if last in names {
      WorklistReaches(packages, rest, names, n);
      FromFewer(g, rest, pending, n);
    } else if n == last {
      ReachesSelf(g, n);
    } else {
      var found := Find(packages, last).value;
      assert last in Names(packages);
      WorklistReaches(packages, rest + EdgeNames(found.dependencies), names + {last}, n);
      FromExpanded(packages, rest, found, pending, n);
    }
  }

  lemma FromFewer(g: Graph<Name>, rest: seq<Name>, pending: seq<Name>, n: Name)
    requires FromPending(g, rest, n) && pending != [] && rest == pending[..|pending| - 1]
    ensures FromPending(g, pending, n)
  {
    var i :| 0 <= i < |rest| && Reaches(g, rest[i], n);
    assert pending[i] == rest[i];
  }

  lemma FromExpanded(packages: seq<LockedPackage>, rest: seq<Name>, found: LockedPackage, pending: seq<Name>, n: Name)
    requires Find(packages, found.name) == Some(found) && pending == rest + [found.name]
    requires FromPending(DependencyGraph(packages), rest + EdgeNames(found.dependencies), n)
    ensures FromPending(DependencyGraph(packages), pending, n)
  {
    var g := DependencyGraph(packages);
    var wider := rest + EdgeNames(found.dependencies);
    var i :| 0 <= i < |wider| && Reaches(g, wider[i], n);
    if i < |rest| {
      assert pending[i] == wider[i];
    } else {
      assert found.dependencies[i - |rest|].name == wider[i];
      assert Edge(g, found.name, wider[i]);
      ReachesStep(g, found.name, wider[i], n);
      assert pending[|rest|] == found.name;
    }
  }

  lemma KeepPatched(before: Lock, after: Lock, name: Name, names: set<Name>)
    requires Patched(before, after, name) && name !in names
    ensures Keep(after.packages, names) == Keep(before.packages, names)
  {
    KeepFilters(before.packages, names);
    KeepFilters(after.packages, names);
    SortedIsUnique(Keep(after.packages, names), Keep(before.packages, names));
  }

  /** Below `name` or at it, the closure in the lock is untouched. */
  lemma ClosurePatched(before: Lock, after: Lock, name: Name, p: LockedPackage)
    requires Patched(before, after, name) && Acyclic(DependencyGraph(before.packages))
    requires Find(before.packages, p.name) == Some(p)
    requires p.name == name || LeadsTo(DependencyGraph(before.packages), name, p.name)
    ensures ClosureFromLock(after.packages, p) == ClosureFromLock(before.packages, p)
  {
    var pending := EdgeNames(p.dependencies);
    WorklistPatched(before, after, name, pending, {});
    var names := Worklist(before.packages, pending, {});
    if names.Some? {
      if name in names.value {
        WorklistReaches(before.packages, pending, {}, name);
        WayBackIsCycle(before, name, p);
      }
      KeepPatched(before, after, name, names.value);
    }
  }

  lemma WayBackIsCycle(lock: Lock, name: Name, p: LockedPackage)
    requires Find(lock.packages, p.name) == Some(p)
    requires p.name == name || LeadsTo(DependencyGraph(lock.packages), name, p.name)
    requires FromPending(DependencyGraph(lock.packages), EdgeNames(p.dependencies), name)
    ensures !Acyclic(DependencyGraph(lock.packages))
  {
    var g := DependencyGraph(lock.packages);
    var i :| 0 <= i < |p.dependencies| && Reaches(g, EdgeNames(p.dependencies)[i], name);
    var next := p.dependencies[i].name;
    assert Edge(g, p.name, next);
    if p.name == name {
      LeadsToNext(g, name, next);
    } else {
      LeadsToStep(g, name, p.name, next);
    }
    LeadsToFurther(g, name, next, name);
    var path :| Connects(g, path, name, name) && |path| >= 2;
  }

  lemma LeadsToFurther(g: Graph<Name>, a: Name, b: Name, c: Name)
    requires LeadsTo(g, a, b) && Reaches(g, b, c)
    ensures LeadsTo(g, a, c)
  {
    var front :| Connects(g, front, a, b) && |front| >= 2;
    var first := front[1];
    PathTail(g, front);
    assert Connects(g, front[1..], first, b);
    ReachesJoin(g, first, b, c);
    assert Edge(g, front[0], front[0 + 1]);
    var back :| Connects(g, back, first, c);
    assert Connects(g, [a] + back, a, c);
  }

  // ----- Everything below the project verifies as before -----

  lemma {:induction false} LockedPatched(w: World, project: Directory, root: PackageRoot, m: Manifest, before: Lock,
                                         after: Lock, name: Name, stack: set<Name>)
    requires ReadManifest(w, root) == Some(m) && Patched(before, after, name)
    requires Acyclic(DependencyGraph(before.packages))
    requires name in stack && LeadsTo(DependencyGraph(before.packages), name, m.name)
    requires CompileLocked(w, project, root, before, stack).Ok?
    ensures CompileLocked(w, project, root, after, stack) == CompileLocked(w, project, root, before, stack)
    decreases Names(before.packages) - stack, 1, 0
  {
    var start := Verified(map[], []);
    LockHasEdges(w, project, root, before, stack);
    forall i | 0 <= i < |m.dependencies|
      ensures LeadsTo(DependencyGraph(before.packages), name, m.dependencies[i].package)
    {
      LeadsToStep(DependencyGraph(before.packages), name, m.name, m.dependencies[i].package);
    }
    EachPatched(w, project, root, m, before, after, name, stack + {m.name}, 0, start);
    PatchedFinds(before, after, name, m.name);
    var found := Find(before.packages, m.name).value;
    ClosurePatched(before, after, name, found);
    var v := CompileDependencies(w, project, root, before, stack + {m.name}, 0, start).value;
    UnfoldLocked(w, project, root, before, stack, v);
    UnfoldLocked(w, project, root, after, stack, v);
    FinishPatched(w, root, before, after, found, v);
  }

  lemma FinishPatched(w: World, root: PackageRoot, before: Lock, after: Lock, locked: LockedPackage, v: Verified)
    requires ClosureFromLock(after.packages, locked) == ClosureFromLock(before.packages, locked)
    ensures FinishLocked(w, root, after, locked, v) == FinishLocked(w, root, before, locked, v)
  {
  }

  lemma {:induction false} EachPatched(w: World, project: Directory, root: PackageRoot, m: Manifest, before: Lock,
                                       after: Lock, name: Name, stack: set<Name>, k: nat, v: Verified)
    requires ReadManifest(w, root) == Some(m) && Patched(before, after, name)
    requires Acyclic(DependencyGraph(before.packages))
    requires name in stack && k <= |m.dependencies|
    requires forall i :: 0 <= i < |m.dependencies| ==>
               LeadsTo(DependencyGraph(before.packages), name, m.dependencies[i].package)
    requires CompileDependencies(w, project, root, before, stack, k, v).Ok?
    ensures CompileDependencies(w, project, root, after, stack, k, v) ==
              CompileDependencies(w, project, root, before, stack, k, v)
    decreases Names(before.packages) - stack, 2, |m.dependencies| - k
  {
    if k < |m.dependencies| {
      var d := m.dependencies[k];
      var at, child, graph := VerifiedOneMore(w, project, root, m, before, stack, k, v);
      PatchedFinds(before, after, name, d.package);
      LocatePatched(w, project, root, m, before, after, d);
      LockedPatched(w, project, at.1, child, before, after, name, stack);
      NextVerifies(w, project, root, m, after, stack, k, v, at, child, graph);
      EachPatched(w, project, root, m, before, after, name, stack, k + 1,
                  Verified(v.supplied[d.alias := graph], v.exact + [EdgeTo(at.0)]));
    }
  }

  lemma LocatePatched(w: World, project: Directory, root: PackageRoot, m: Manifest, before: Lock, after: Lock,
                      d: Dependency)
    requires Find(after.packages, d.package) == Find(before.packages, d.package)
    ensures Locate(w, project, root, m, after, d) == Locate(w, project, root, m, before, d)
  {
  }

  // ----- The re-recorded lock -----

  lemma ReenteredIsPatched(lock: Lock, own: LockedPackage, digest: Digest, distribution: Digest)
    requires Sorted(lock.packages) && Find(lock.packages, own.name) == Some(own)
    ensures var next := Reentered(lock, own, digest, distribution);
            && Patched(lock, next, own.name)
            && Find(next.packages, own.name) == Some(own.(digest := digest, distributionDigest := distribution))
  {
    var next := Reentered(lock, own, digest, distribution);
    var renewed := own.(digest := digest, distributionDigest := distribution);
    InsertKeepsOrder(lock.packages, renewed);
    SortedFind(next.packages, renewed);
    assert Names(next.packages) == Names(lock.packages) by {
      SameNames(lock.packages, next.packages, own, renewed);
    }
    forall n | n in Names(lock.packages) && n != own.name
      ensures Find(next.packages, n) == Find(lock.packages, n)
    {
      SortedFind(next.packages, Find(lock.packages, n).value);
    }
  }

  lemma SameNames(before: seq<LockedPackage>, after: seq<LockedPackage>, own: LockedPackage, renewed: LockedPackage)
    requires own in before && renewed.name == own.name
    requires forall p :: p in after <==> p == renewed || (p in before && p.name != renewed.name)
    ensures Names(after) == Names(before)
  {
    assert renewed in after;
  }

  /** Nothing in a valid lock depends on its root, so renewing the root's digests keeps it valid. */
  lemma PatchedRootIsValid(before: Lock, after: Lock)
    requires ValidLock(before) && Patched(before, after, before.root)
    ensures ValidLock(after)
  {
    PatchedGraph(before, after, before.root);
    forall p | p in after.packages
      ensures DependenciesSorted(p.dependencies) && forall d :: d in p.dependencies ==> Satisfied(after.packages, d)
    {
      SortedFind(after.packages, p);
      var was := Find(before.packages, p.name).value;
      assert was.dependencies == p.dependencies;
      forall d | d in p.dependencies
        ensures Satisfied(after.packages, d)
      {
        assert Satisfied(before.packages, d);
        assert Edge(DependencyGraph(before.packages), p.name, d.name);
        RootHasNoDependents(before, p.name, d.name);
        PatchedFinds(before, after, before.root, d.name);
      }
    }
  }

  lemma RootHasNoDependents(lock: Lock, a: Name, b: Name)
    requires ValidLock(lock) && Edge(DependencyGraph(lock.packages), a, b)
    ensures b != lock.root
  {
    var g := DependencyGraph(lock.packages);
    assert a in Names(lock.packages);
    WalkRoundTripFromRoot(g, lock.root, a, b);
  }

  lemma WalkRoundTripFromRoot(g: Graph<Name>, root: Name, a: Name, b: Name)
    requires Acyclic(g) && Reaches(g, root, a) && Edge(g, a, b)
    ensures b != root
  {
    if b == root {
      WalkEndsElsewhere(g, a, b, a);
    }
  }

  /** Re-recording verified the dependencies, compiled the project and archived it with its closure in the lock. */
  ghost predicate Rerecorded(w: World, project: Directory, lock: Lock, m: Manifest, own: LockedPackage, v: Verified,
                             graph: PackageGraph, archived: Digest)
  {
    && ReadManifest(w, Local(project)) == Some(m) && Find(lock.packages, m.name) == Some(own)
    && Refresh(w, project, lock, own) == Ok((v, graph)) && ClosureFromLock(lock.packages, own).Some?
    && w.archive(Local(project), RootDigest(graph), own.dependencies, ClosureFromLock(lock.packages, own).value) ==
         Some(archived)
  }

  predicate Unchanged(own: LockedPackage, graph: PackageGraph, archived: Digest) {
    own.digest == RootDigest(graph) && own.distributionDigest == archived
  }

  lemma RelockRerecords(w: World, project: Directory, lock: Lock, m: Manifest)
    returns (own: LockedPackage, v: Verified, graph: PackageGraph, archived: Digest)
    requires ReadManifest(w, Local(project)) == Some(m) && Relock(w, project, lock).Ok?
    ensures Rerecorded(w, project, lock, m, own, v, graph, archived)
    ensures Relock(w, project, lock).value.1 ==
            if Unchanged(own, graph, archived) then lock else Reentered(lock, own, RootDigest(graph), archived)
  {
    own := Find(lock.packages, m.name).value;
    var current := Refresh(w, project, lock, own).value;
    v, graph := current.0, current.1;
    archived := w.archive(Local(project), RootDigest(graph), own.dependencies,
                          ClosureFromLock(lock.packages, own).value).value;
  }

  /** What re-recording establishes about the lock it leaves. */
  ghost predicate Renewed(w: World, project: Directory, lock: Lock, next: Lock, m: Manifest, v: Verified,
                          graph: PackageGraph)
  {
    && ReadManifest(w, Local(project)) == Some(m)
    && Find(lock.packages, m.name).Some? && Find(lock.packages, m.name).value.version == m.version
    && Patched(lock, next, m.name) && Find(next.packages, m.name).Some?
    && CompileDependencies(w, project, Local(project), lock, {m.name}, 0, Verified(map[], [])) == Ok(v)
    && FinishLocked(w, Local(project), lock, Find(next.packages, m.name).value, v) == Ok(graph)
  }

  lemma RelockRenews(w: World, project: Directory, lock: Lock, m: Manifest) returns (v: Verified, graph: PackageGraph)
    requires ReadManifest(w, Local(project)) == Some(m) && Sorted(lock.packages) && Relock(w, project, lock).Ok?
    ensures Renewed(w, project, lock, Relock(w, project, lock).value.1, m, v, graph)
  {
    var own, archived;
    own, v, graph, archived := RelockRerecords(w, project, lock, m);
    RefreshFacts(w, project, lock, m, own, v, graph);
    ReenteredIsPatched(lock, own, RootDigest(graph), archived);
    RenewedFinishes(w, project, lock, own, v, graph, archived);
    SameEntry(own, graph, archived);
  }

  lemma RefreshFacts(w: World, project: Directory, lock: Lock, m: Manifest, own: LockedPackage, v: Verified,
                     graph: PackageGraph)
    requires ReadManifest(w, Local(project)) == Some(m) && Refresh(w, project, lock, own) == Ok((v, graph))
    ensures own.version == m.version && SortDependencies(v.exact) == own.dependencies
    ensures CompileDependencies(w, project, Local(project), lock, {m.name}, 0, Verified(map[], [])) == Ok(v)
    ensures w.compile(Local(project), v.supplied) == Some(graph)
  {
  }

  lemma RenewedFinishes(w: World, project: Directory, lock: Lock, own: LockedPackage, v: Verified, graph: PackageGraph,
                        archived: Digest)
    requires SortDependencies(v.exact) == own.dependencies && w.compile(Local(project), v.supplied) == Some(graph)
    requires ClosureFromLock(lock.packages, own).Some?
    requires w.archive(Local(project), RootDigest(graph), own.dependencies,
                       ClosureFromLock(lock.packages, own).value) == Some(archived)
    ensures FinishLocked(w, Local(project), lock, own.(digest := RootDigest(graph), distributionDigest := archived),
                         v) == Ok(graph)
  {
    SameClosure(lock.packages, own, own.(digest := RootDigest(graph), distributionDigest := archived));
  }

  lemma SameEntry(own: LockedPackage, graph: PackageGraph, archived: Digest)
    ensures Unchanged(own, graph, archived) ==> own.(digest := RootDigest(graph), distributionDigest := archived) == own
  {
  }

  lemma RenewedCompiles(w: World, project: Directory, lock: Lock, next: Lock, m: Manifest, v: Verified,
                        graph: PackageGraph)
    requires ReadManifest(w, Local(project)) == Some(m) && Renewed(w, project, lock, next, m, v, graph)
    requires Acyclic(DependencyGraph(lock.packages))
    ensures CompileDependencies(w, project, Local(project), next, {m.name}, 0, Verified(map[], [])) == Ok(v)
    ensures FinishLocked(w, Local(project), next, Find(next.packages, m.name).value, v) == Ok(graph)
    ensures CompileLocked(w, project, Local(project), next, {}) == Ok(graph)
  {
    var renewed := Find(next.packages, m.name).value;
    var own := Find(lock.packages, m.name).value;
    FinishedFacts(w, Local(project), lock, renewed, v, graph);
    DeclaredEdges(w, project, Local(project), m, lock, {m.name}, v);
    forall i | 0 <= i < |m.dependencies|
      ensures LeadsTo(DependencyGraph(lock.packages), m.name, m.dependencies[i].package)
    {
      assert DependsOnPackage(m, m.dependencies[i].package);
      LeadsToNext(DependencyGraph(lock.packages), m.name, m.dependencies[i].package);
    }
    EachPatched(w, project, Local(project), m, lock, next, m.name, {m.name}, 0, Verified(map[], []));
    ClosurePatched(lock, next, m.name, own);
    SameClosure(next.packages, own, renewed);
    SameClosure(lock.packages, own, renewed);
    FinishPatched(w, Local(project), lock, next, renewed, v);
    assert {} + {m.name} == {m.name};
    UnfoldLocked(w, project, Local(project), next, {}, v);
  }

  lemma SameClosure(packages: seq<LockedPackage>, a: LockedPackage, b: LockedPackage)
    requires a.dependencies == b.dependencies
    ensures ClosureFromLock(packages, a) == ClosureFromLock(packages, b)
  {
  }

  /**
   The lock there is after re-recording differs from the lock before at most in the digests of
   the project's own entry. It verifies exactly when that entry is the root of the lock and
   names the project directory, as the entry of every project lock does.
   */
  lemma RelockedLockVerifies(w: World, project: Directory, lock: Lock)
    requires Lawful(w) && ReadManifest(w, Local(project)).Some? && ValidLock(lock) && Relock(w, project, lock).Ok?
    ensures var m := ReadManifest(w, Local(project)).value;
            var next := Relock(w, project, lock).value.1;
            && Patched(lock, next, m.name)
            && (CompileProject(w, project, next).Ok? <==>
                  lock.root == m.name && Find(lock.packages, m.name).value.source == PathSource(["."]))
  {
    var m := ReadManifest(w, Local(project)).value;
    var next := Relock(w, project, lock).value.1;
    var v, graph := RelockRenews(w, project, lock, m);
    RenewedCompiles(w, project, lock, next, m, v, graph);
    ProjectCompiles(w, project, next, m, graph);
    if lock.root == m.name {
      PatchedRootIsValid(lock, next);
      VerifiedCovers(w, project, Local(project), m, next, {}, graph);
      FinishedFacts(w, Local(project), next, Find(next.packages, m.name).value, v, graph);
      CompilerIsSound(w, Local(project), m, v.supplied, graph);
      CoveredLockMatches(next, m, graph);
    }
  }

  lemma ProjectCompiles(w: World, project: Directory, lock: Lock, m: Manifest, graph: PackageGraph)
    requires ReadManifest(w, Local(project)) == Some(m) && Sorted(lock.packages) && Find(lock.packages, m.name).Some?
    requires CompileLocked(w, project, Local(project), lock, {}) == Ok(graph)
    ensures CompileProject(w, project, lock).Ok? <==>
            Find(lock.packages, m.name).value.source == PathSource(["."]) && LockMatchesGraph(lock, m, graph)
  {
    var own := Find(lock.packages, m.name).value;
    forall p | p in lock.packages && p.name == m.name
      ensures p == own
    {
      SortedFind(lock.packages, p);
    }
  }

  lemma CoveredLockMatches(lock: Lock, m: Manifest, graph: PackageGraph)
    requires ValidLock(lock) && lock.root == m.name == graph.root
    requires Covers(DependencyGraph(lock.packages), lock.packages, m.name, graph.digests)
    ensures LockMatchesGraph(lock, m, graph)
  {
    assert graph.digests.Keys == Names(lock.packages) by {
      forall n
        ensures n in graph.digests <==> n in Names(lock.packages)
      {
        if n in graph.digests {
          assert Records(lock.packages, n, graph.digests[n]);
        }
      }
    }
    forall p | p in lock.packages
      ensures p.name in graph.digests && graph.digests[p.name] == p.digest
    {
      SortedFind(lock.packages, p);
      assert p.name in Names(lock.packages);
      assert Records(lock.packages, p.name, graph.digests[p.name]);
    }
    SortedCount(lock.packages);
    assert |graph.digests.Keys| == |graph.digests|;
  }

  /** A lock that verifies is left as it is. */
  lemma VerifiedLockIsKept(w: World, project: Directory, lock: Lock)
    requires ReadManifest(w, Local(project)).Some? && CompileProject(w, project, lock).Ok?
    ensures Relock(w, project, lock) == Ok((false, lock))
  {
    var m := ReadManifest(w, Local(project)).value;
    var graph := CompileLocked(w, project, Local(project), lock, {}).value;
    var own := Find(lock.packages, m.name).value;
    var v := LockedRefreshes(w, project, lock, m, own, graph);
    FinishedArchives(w, project, lock, own, v, graph);
  }

  lemma LockedRefreshes(w: World, project: Directory, lock: Lock, m: Manifest, own: LockedPackage, graph: PackageGraph)
    returns (v: Verified)
    requires ReadManifest(w, Local(project)) == Some(m) && Find(lock.packages, m.name) == Some(own)
    requires CompileLocked(w, project, Local(project), lock, {}) == Ok(graph)
    ensures FinishLocked(w, Local(project), lock, own, v) == Ok(graph)
    ensures Refresh(w, project, lock, own) == Ok((v, graph))
  {
    assert {} + {m.name} == {m.name};
    v := CompileDependencies(w, project, Local(project), lock, {m.name}, 0, Verified(map[], [])).value;
    UnfoldLocked(w, project, Local(project), lock, {}, v);
    FinishedFacts(w, Local(project), lock, own, v, graph);
  }

  lemma FinishedArchives(w: World, project: Directory, lock: Lock, own: LockedPackage, v: Verified, graph: PackageGraph)
    requires FinishLocked(w, Local(project), lock, own, v) == Ok(graph)
    ensures RootDigest(graph) == own.digest && ClosureFromLock(lock.packages, own).Some?
    ensures w.archive(Local(project), own.digest, own.dependencies, ClosureFromLock(lock.packages, own).value) ==
            Some(own.distributionDigest)
  {
  }
}
