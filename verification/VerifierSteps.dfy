/** One step of verification at a time: what a verified dependency and a finished package establish. */
module VerifierSteps {
  import opened Wrappers
  import opened LockModel
  import opened ProjectPaths
  import opened Resolver

  /** What verifying the next dependency found. */
  ghost predicate NextVerified(w: World, project: Directory, root: PackageRoot, m: Manifest, lock: Lock,
                               stack: set<Name>, k: nat, at: (LockedPackage, PackageRoot), child: Manifest,
                               graph: PackageGraph)
    requires k < |m.dependencies|
  {
    && Locate(w, project, root, m, lock, m.dependencies[k]) == Ok(at) && ReadManifest(w, at.1) == Some(child)
    && child.name == m.dependencies[k].package && CompileLocked(w, project, at.1, lock, stack) == Ok(graph)
  }

  lemma VerifiedOneMore(w: World, project: Directory, root: PackageRoot, m: Manifest, lock: Lock, stack: set<Name>,
                        k: nat, v: Verified)
    returns (at: (LockedPackage, PackageRoot), child: Manifest, graph: PackageGraph)
    requires ReadManifest(w, root) == Some(m) && k < |m.dependencies|
    requires CompileDependencies(w, project, root, lock, stack, k, v).Ok?
    ensures NextVerified(w, project, root, m, lock, stack, k, at, child, graph) && child.name !in stack
    ensures CompileDependencies(w, project, root, lock, stack, k, v) ==
            CompileDependencies(w, project, root, lock, stack, k + 1,
                                Verified(v.supplied[m.dependencies[k].alias := graph], v.exact + [EdgeTo(at.0)]))
  {
    at := Locate(w, project, root, m, lock, m.dependencies[k]).value;
    child := ReadManifest(w, at.1).value;
    graph := CompileLocked(w, project, at.1, lock, stack).value;
  }

  lemma NextVerifies(w: World, project: Directory, root: PackageRoot, m: Manifest, lock: Lock, stack: set<Name>, k: nat,
                     v: Verified, at: (LockedPackage, PackageRoot), child: Manifest, graph: PackageGraph)
    requires ReadManifest(w, root) == Some(m) && k < |m.dependencies|
    requires NextVerified(w, project, root, m, lock, stack, k, at, child, graph)
    ensures CompileDependencies(w, project, root, lock, stack, k, v) ==
            CompileDependencies(w, project, root, lock, stack, k + 1,
                                Verified(v.supplied[m.dependencies[k].alias := graph], v.exact + [EdgeTo(at.0)]))
  {
  }

  lemma FinishedFacts(w: World, root: PackageRoot, lock: Lock, locked: LockedPackage, v: Verified, graph: PackageGraph)
    requires FinishLocked(w, root, lock, locked, v) == Ok(graph)
    ensures SortDependencies(v.exact) == locked.dependencies && w.compile(root, v.supplied) == Some(graph)
    ensures RootDigest(graph) == locked.digest
  {
  }

  /** A verified package is new on the stack, locked at its version, and so are its dependencies. */
  lemma LockedSteps(w: World, project: Directory, root: PackageRoot, m: Manifest, lock: Lock, stack: set<Name>)
    returns (v: Verified)
    requires ReadManifest(w, root) == Some(m) && CompileLocked(w, project, root, lock, stack).Ok?
    ensures m.name !in stack && Find(lock.packages, m.name).Some?
    ensures Find(lock.packages, m.name).value.version == m.version
    ensures CompileDependencies(w, project, root, lock, stack + {m.name}, 0, Verified(map[], [])) == Ok(v)
    ensures CompileLocked(w, project, root, lock, stack) ==
            FinishLocked(w, root, lock, Find(lock.packages, m.name).value, v)
  {
    v := CompileDependencies(w, project, root, lock, stack + {m.name}, 0, Verified(map[], [])).value;
  }

  lemma NoneLeft(w: World, project: Directory, root: PackageRoot, m: Manifest, lock: Lock, stack: set<Name>,
                 v: Verified)
    requires ReadManifest(w, root) == Some(m)
    ensures CompileDependencies(w, project, root, lock, stack, |m.dependencies|, v) == Ok(v)
  {
  }
}
