/**
 The resolver and the verifier as they run: loops over the declared dependencies that
 thread one shared stack of package names and fill their collections in place.
 */
module ResolverMethods {
  import opened Wrappers
  import opened LockModel
  import opened ProjectPaths
  import opened Resolver
  import LockValidation
  import opened VerifierSteps

  /** Compare the package's own edges, digest and archive with its locked entry. */
  method FinishVerification(w: World, root: PackageRoot, lock: Lock, locked: LockedPackage, v: Verified)
    returns (r: Result<PackageGraph, Error>)
    ensures r == FinishLocked(w, root, lock, locked, v)
  {
    if SortDependencies(v.exact) != locked.dependencies {
      return Err(Differs("dependencies"));
    }
    var graph := w.compile(root, v.supplied);
    if graph.None? {
      return Err(Rejected("compile"));
    }
    if RootDigest(graph.value) != locked.digest {
      return Err(Differs("digest"));
    }
    var closure := CollectClosure(lock.packages, locked);
    if closure.None? {
      return Err(Absent(locked.name));
    }
    var distribution := w.archive(root, RootDigest(graph.value), locked.dependencies, closure.value);
    if distribution.None? {
      return Err(Rejected("archive"));
    }
    if distribution.value != locked.distributionDigest {
      return Err(Differs("distribution digest"));
    }
    return Ok(graph.value);
  }

  /** Verify a package and, recursively, its dependencies against the lock. */
  method CompileFromLock(w: World, project: Directory, root: PackageRoot, lock: Lock, stack: set<Name>)
    returns (r: Result<PackageGraph, Error>, left: set<Name>)
    requires ReadManifest(w, root).Some?
    ensures r == CompileLocked(w, project, root, lock, stack)
    ensures r.Ok? ==> left == stack
    decreases Names(lock.packages) - stack, 0
  {
    left := stack;
    var m := ReadManifest(w, root).value;
    if m.name in left {
      return Err(Cycle(m.name)), left;
    }
    left := left + {m.name};
    var locked := Find(lock.packages, m.name);
    if locked.None? {
      return Err(Absent(m.name)), left;
    }
    if locked.value.version != m.version {
      return Err(Differs("version")), left;
    }
    var v;
    v, left := CompileEach(w, project, root, m, lock, left);
    if v.Err? {
      return Err(v.error), left;
    }
    r := FinishVerification(w, root, lock, locked.value, v.value);
    left := left - {m.name};
  }

  /** The loop over the declared dependencies. */
  method CompileEach(w: World, project: Directory, root: PackageRoot, m: Manifest, lock: Lock, stack: set<Name>)
    returns (r: Result<Verified, Error>, left: set<Name>)
    requires ReadManifest(w, root) == Some(m)
    ensures r == CompileDependencies(w, project, root, lock, stack, 0, Verified(map[], []))
    ensures r.Ok? ==> left == stack
    decreases Names(lock.packages) - stack, 2
  {
    left := stack;
    var v := Verified(map[], []);
    var k := 0;
    while k < |m.dependencies|
      invariant 0 <= k <= |m.dependencies| && left == stack
      invariant CompileDependencies(w, project, root, lock, stack, k, v)
             == CompileDependencies(w, project, root, lock, stack, 0, Verified(map[], []))
    {
      r, left := CompileOne(w, project, root, m, lock, stack, k, v);
      if r.Err? {
        return r, left;
      }
      v, k := r.value, k + 1;
    }
    NoneLeft(w, project, root, m, lock, stack, v);
    r := Ok(v);
  }

  /** One turn of that loop. */
  method CompileOne(w: World, project: Directory, root: PackageRoot, m: Manifest, lock: Lock, stack: set<Name>, k: nat,
                    v: Verified)
    returns (r: Result<Verified, Error>, left: set<Name>)
    requires ReadManifest(w, root) == Some(m) && k < |m.dependencies|
    ensures r.Err? ==> CompileDependencies(w, project, root, lock, stack, k, v) == r
    ensures r.Ok? ==> CompileDependencies(w, project, root, lock, stack, k, v) ==
                        CompileDependencies(w, project, root, lock, stack, k + 1, r.value)
    ensures r.Ok? ==> left == stack
    decreases Names(lock.packages) - stack, 1
  {
    left := stack;
    var d := m.dependencies[k];
    var at := LocateDependency(w, project, root, m, lock, d);
    if at.Err? {
      return Err(at.error), left;
    }
    var graph;
    graph, left := CompileFromLock(w, project, at.value.1, lock, left);
    if graph.Err? {
      return Err(graph.error), left;
    }
    r := Ok(Verified(v.supplied[d.alias := graph.value], v.exact + [EdgeTo(at.value.0)]));
  }

  method LocateDependency(w: World, project: Directory, root: PackageRoot, m: Manifest, lock: Lock, d: Dependency)
    returns (r: Result<(LockedPackage, PackageRoot), Error>)
    ensures r == Locate(w, project, root, m, lock, d)
  {
    var found := Find(lock.packages, d.package);
    if found.None? {
      return Err(Absent(d.package));
    }
    var child := LockedRoot(w, project, root, m, d, found.value);
    if child.Err? {
      return Err(child.error);
    }
    var cm := ReadManifest(w, child.value);
    if cm.None? {
      return Err(Missing("manifest"));
    }
    if cm.value.name != found.value.name || cm.value.version != found.value.version {
      return Err(Differs("locked identity"));
    }
    return Ok((found.value, child.value));
  }

  /** Every registry package of the lock is available from the cache. */
  method InstallAll(w: World, packages: seq<LockedPackage>) returns (ok: bool)
    ensures ok <==> Installed(w, packages)
  {
    var i := 0;
    while i < |packages|
      invariant 0 <= i <= |packages|
      invariant forall j :: 0 <= j < i && packages[j].source.RegistrySource? ==> ReadLocked(w, packages[j]).Some?
    {
      if packages[i].source.RegistrySource? && ReadLocked(w, packages[i]).None? {
        return false;
      }
      i := i + 1;
    }
    return true;
  }

  /** Validate a pulled release's frozen lock and compile the release from it. */
  method ResolveFromRelease(w: World, p: SourcePackage, source: LockedSource)
    returns (r: Result<(Version, Resolution), Error>)
    ensures r == VerifyRelease(w, p, source)
  {
    if ReadManifest(w, Unpacked(p)).None? {
      return Err(Missing("manifest"));
    }
    var lock := PulledLock(p, source);
    var valid := LockValidation.Validate(lock);
    var installed := InstallAll(w, lock.packages);
    var published := forall q :: q in p.frozenPackages ==> q.source.RegistrySource? && q.name != p.name;
    assert valid && published <==> PulledLockValid(p, source);
    if !valid || !installed || !published {
      return Err(Rejected("frozen resolution"));
    }
    var graph, _ := CompileFromLock(w, [], Unpacked(p), lock, {});
    if graph.Err? {
      return Err(graph.error);
    }
    var matched := MatchLock(lock, p.manifest, graph.value);
    if !matched || p.packageDigest != RootDigest(graph.value) {
      return Err(Differs("semantic digest"));
    }
    return Ok((p.manifest.version, Resolution(graph.value, lock.packages)));
  }

  /** Compare a compiled graph with the whole of a validated lock. */
  method MatchLock(lock: Lock, m: Manifest, graph: PackageGraph) returns (ok: bool)
    ensures ok <==> LockMatchesGraph(lock, m, graph)
  {
    var valid := LockValidation.Validate(lock);
    var agree := MatchDigests(lock.packages, graph.digests);
    ok := valid && lock.root == m.name && graph.root == lock.root && |lock.packages| == |graph.digests| && agree;
  }

  method MatchDigests(packages: seq<LockedPackage>, digests: map<Name, Digest>) returns (ok: bool)
    ensures ok <==> forall p :: p in packages ==> p.name in digests && digests[p.name] == p.digest
  {
    var i := 0;
    while i < |packages|
      invariant 0 <= i <= |packages|
      invariant forall j :: 0 <= j < i ==>
                  packages[j].name in digests && digests[packages[j].name] == packages[j].digest
    {
      if packages[i].name !in digests || digests[packages[i].name] != packages[i].digest {
        return false;
      }
      i := i + 1;
    }
    return true;
  }

  /** Pull, validate and verify one registry dependency. */
  method ResolveFromRegistry(w: World, m: Manifest, package: Name, requirement: string, registry: Option<string>)
    returns (r: Result<(Version, Resolution), Error>)
    ensures r == ResolveRelease(w, m, package, requirement, registry)
  {
    var prefix := RegistryPrefix(m, registry);
    if prefix.None? {
      return Err(Missing("registry"));
    }
    var version := SelectVersion(w, w.versions(prefix.value, package), requirement);
    if version.None? {
      return Err(Missing("release"));
    }
    var pulled := PullTag(w, prefix.value, package, version.value);
    if pulled.None? {
      return Err(Missing("package"));
    }
    r := ResolveFromRelease(w, pulled.value, RegistrySource(prefix.value, pulled.value.manifestDigest));
  }

  /** Resolve one declared dependency, from its directory or from the registry. */
  method ResolveDependency(w: World, project: Directory, dir: Directory, d: Dependency, stack: set<Name>)
    returns (r: Result<(Version, Resolution), Error>, left: set<Name>)
    requires ReadManifest(w, Local(dir)).Some?
    ensures r == ResolveChild(w, project, dir, stack, d)
    ensures r.Ok? ==> left == stack
    decreases LocalNames(w) - stack, 1
  {
    left := stack;
    match d.acquisition {
      case ByPath(path) =>
        var at := Canonicalize(w.tree, dir, path);
        if at.None? {
          return Err(Missing("directory")), left;
        }
        var cm := ReadManifest(w, Local(at.value));
        if cm.None? {
          return Err(Missing("manifest")), left;
        }
        if cm.value.name != d.package {
          return Err(Differs("package name")), left;
        }
        var resolved;
        resolved, left := ResolvePackage(w, project, at.value, SourceOf(at.value, project), left);
        r := if resolved.Err? then Err(resolved.error) else Ok((cm.value.version, resolved.value));
      case ByVersion(requirement, registry) =>
        r := ResolveFromRegistry(w, ReadManifest(w, Local(dir)).value, d.package, requirement, registry);
    }
  }

  /** Resolve a local package and, recursively, its dependencies. */
  method ResolvePackage(w: World, project: Directory, dir: Directory, source: LockedSource, stack: set<Name>)
    returns (r: Result<Resolution, Error>, left: set<Name>)
    requires ReadManifest(w, Local(dir)).Some?
    ensures r == Resolve(w, project, dir, source, stack)
    ensures r.Ok? ==> left == stack
    decreases LocalNames(w) - stack, 0
  {
    left := stack;
    var m := ReadManifest(w, Local(dir)).value;
    if m.name in left {
      return Err(Cycle(m.name)), left;
    }
    left := left + {m.name};
    var g := Gathered(map[], [], []);
    var k := 0;
    while k < |m.dependencies|
      invariant 0 <= k <= |m.dependencies|
      invariant left == stack + {m.name}
      invariant ResolveDependencies(w, project, dir, left, k, g)
             == ResolveDependencies(w, project, dir, stack + {m.name}, 0, Gathered(map[], [], []))
    {
      var d := m.dependencies[k];
      var resolved;
      resolved, left := ResolveDependency(w, project, dir, d, left);
      if resolved.Err? {
        return Err(resolved.error), left;
      }
      var (version, child) := resolved.value;
      if m.name in Names(child.packages) {
        return Err(Cycle(m.name)), left;
      }
      var merged := MergePackages(g.packages, child.packages);
      if merged.Err? {
        return Err(merged.error), left;
      }
      g := Gathered(g.supplied[d.alias := child.graph], merged.value,
                    g.direct + [LockedDependency(d.package, version, RootDigest(child.graph))]);
      k := k + 1;
    }
    r := FinishResolution(w, dir, m, source, g);
    left := left - {m.name};
  }
}
