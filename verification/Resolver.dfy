/**
 Dependency resolution of a project, and verification of the project against a lock.

 Resolution walks the dependency tree recursively and freezes, for every package, the
 merged closure of its children. Verification re-derives everything from the flat lock.
 The compiler, the archive digest and the registry are functions of the `World`.
 */
module Resolver {
  import opened Wrappers
  import opened LockModel
  import opened ProjectPaths

  datatype Acquisition =
    | ByPath(path: RelativePath)
    | ByVersion(requirement: string, registry: Option<string>)

  datatype Dependency = Dependency(alias: string, package: Name, acquisition: Acquisition)

  /** `dependencies` is in the alias order of the manifest's ordered map. */
  datatype Manifest = Manifest(
    name: Name,
    version: Version,
    dependencies: seq<Dependency>,
    defaultRegistry: Option<string>,
    registries: map<string, string>)

  /** A compiled package graph: its root, the digest of each member, and its meaning. */
  datatype PackageGraph = PackageGraph(root: Name, digests: map<Name, Digest>, meaning: string)

  /** A released source package together with the resolution frozen into it. */
  datatype SourcePackage = SourcePackage(
    name: Name,
    version: Version,
    packageDigest: Digest,
    distributionDigest: Digest,
    manifestDigest: Digest,
    manifest: Manifest,
    frozenDependencies: seq<LockedDependency>,
    frozenPackages: seq<LockedPackage>,
    sources: string)

  /** Where a package's files are: a project directory, or an unpacked release. */
  datatype PackageRoot = Local(dir: Directory) | Unpacked(package: SourcePackage)

  datatype Resolution = Resolution(graph: PackageGraph, packages: seq<LockedPackage>)

  /**
   The files, compiler, archiver, registry and content-addressed cache of one command.
   `versions` lists a repository's releases in increasing order.
   */
  datatype World = World(
    tree: Tree,
    manifests: map<Directory, Manifest>,
    compile: (PackageRoot, map<string, PackageGraph>) -> Option<PackageGraph>,
    archive: (PackageRoot, Digest, seq<LockedDependency>, seq<LockedPackage>) -> Option<Digest>,
    matches: (string, Version) -> bool,
    versions: (string, Name) -> seq<Version>,
    remote: (string, Name, Version) -> Option<SourcePackage>,
    cached: Digest -> Option<SourcePackage>)

  function RootDigest(g: PackageGraph): Digest {
    if g.root in g.digests then g.digests[g.root] else ""
  }

  // ----- Manifests -----

  /** The manifest checks that resolution relies on. */
  predicate ManifestValid(m: Manifest) {
    && (forall i :: 0 <= i < |m.dependencies| ==> m.dependencies[i].package != m.name)
    && (forall i, j :: 0 <= i < j < |m.dependencies| ==>
          m.dependencies[i].package != m.dependencies[j].package && m.dependencies[i].alias != m.dependencies[j].alias)
  }

  function ReadManifest(w: World, root: PackageRoot): (r: Option<Manifest>)
    ensures r.Some? ==> ManifestValid(r.value)
  {
    match root
    case Local(dir) => if dir in w.manifests && ManifestValid(w.manifests[dir]) then Some(w.manifests[dir]) else None
    case Unpacked(package) => if ManifestValid(package.manifest) then Some(package.manifest) else None
  }

  /** Join a declared path to the package's own directory and canonicalise it. */
  function DeclaredPath(w: World, root: PackageRoot, path: RelativePath): Option<Directory> {
    if root.Local? then Canonicalize(w.tree, root.dir, path) else None
  }

  /** The source the lock records for a local package. */
  function SourceOf(dir: Directory, project: Directory): LockedSource {
    PathSource(Recorded(dir, project))
  }

  function RegistryPrefix(m: Manifest, registry: Option<string>): Option<string> {
    var chosen := if registry.Some? then registry else m.defaultRegistry;
    if chosen.Some? && chosen.value in m.registries then Some(m.registries[chosen.value]) else None
  }

  // ----- Registry and cache -----

  /** The newest release that satisfies the requirement. */
  function SelectVersion(w: World, versions: seq<Version>, requirement: string): (r: Option<Version>)
    ensures r.Some? ==> r.value in versions && w.matches(requirement, r.value)
  {
    if versions == [] then None
    else
      var last := versions[|versions| - 1];
      if w.matches(requirement, last) then Some(last)
      else SelectVersion(w, versions[..|versions| - 1], requirement)
  }

  predicate PackageIdentity(p: SourcePackage, name: Name, version: Version) {
    p.name == name && p.version == version && p.manifest.name == name && p.manifest.version == version
  }

  function PullTag(w: World, prefix: string, name: Name, version: Version): Option<SourcePackage> {
    var pulled := w.remote(prefix, name, version);
    if pulled.Some? && PackageIdentity(pulled.value, name, version) then pulled else None
  }

  /** An exact cached release, without network access. */
  function ReadLocked(w: World, p: LockedPackage): Option<SourcePackage> {
    if p.source.PathSource? then None
    else
      var found := w.cached(p.source.ociDigest);
      if found.Some? && PackageIdentity(found.value, p.name, p.version)
         && found.value.packageDigest == p.digest
         && found.value.distributionDigest == p.distributionDigest
      then found else None
  }

  predicate Installed(w: World, packages: seq<LockedPackage>) {
    forall p :: p in packages && p.source.RegistrySource? ==> ReadLocked(w, p).Some?
  }

  /** The lock a release carries for its own closure. */
  function PulledLock(p: SourcePackage, source: LockedSource): Lock {
    Lock(p.name, Insert(p.frozenPackages,
                        LockedPackage(p.name, p.version, p.packageDigest, p.distributionDigest, p.frozenDependencies,
                                      source)))
  }

  ghost predicate PulledLockValid(p: SourcePackage, source: LockedSource) {
    && (forall q :: q in p.frozenPackages ==> q.source.RegistrySource? && q.name != p.name)
    && ValidLock(PulledLock(p, source))
  }

  // ----- Closure over the flat lock -----

  /** The worklist of `package_from_lock`: the last pending name is taken next. */
  function Worklist(packages: seq<LockedPackage>, pending: seq<Name>, names: set<Name>): Option<set<Name>>
    decreases Names(packages) - names, |pending|
  {
    if pending == [] then Some(names)
    else
      var name := pending[|pending| - 1];
      var rest := pending[..|pending| - 1];
      if name in names then Worklist(packages, rest, names)
      else
        var found := Find(packages, name);
        if found.None? then None
        else Worklist(packages, rest + EdgeNames(found.value.dependencies), names + {name})
  }

  function Keep(packages: seq<LockedPackage>, names: set<Name>): seq<LockedPackage> {
    if packages == [] then []
    else (if packages[0].name in names then [packages[0]] else []) + Keep(packages[1..], names)
  }

  /** The closure frozen into a package, taken from the lock. */
  function ClosureFromLock(packages: seq<LockedPackage>, locked: LockedPackage): Option<seq<LockedPackage>> {
    var names := Worklist(packages, EdgeNames(locked.dependencies), {});
    if names.None? then None else Some(Keep(packages, names.value))
  }

  method CollectClosure(packages: seq<LockedPackage>, locked: LockedPackage)
    returns (r: Option<seq<LockedPackage>>)
    ensures r == ClosureFromLock(packages, locked)
  {
    var names: set<Name> := {};
    var pending := EdgeNames(locked.dependencies);
    while pending != []
      invariant Worklist(packages, pending, names) == Worklist(packages, EdgeNames(locked.dependencies), {})
      decreases Names(packages) - names, |pending|
    {
      var name := pending[|pending| - 1];
      pending := pending[..|pending| - 1];
      if name in names {
        continue;
      }
      var found := Find(packages, name);
      if found.None? {
        return None;
      }
      names := names + {name};
      pending := pending + EdgeNames(found.value.dependencies);
    }
    return Some(Keep(packages, names));
  }

  // ----- Verifying against a lock -----

  /** The location the lock gives for a declared dependency, when the two agree. */
  function LockedRoot(w: World, project: Directory, root: PackageRoot, m: Manifest, d: Dependency,
                      locked: LockedPackage)
    : Result<PackageRoot, Error>
  {
    match (d.acquisition, locked.source)
    case (ByPath(path), PathSource(lockedPath)) =>
      var declared := DeclaredPath(w, root, path);
      var acquired := Canonicalize(w.tree, project, lockedPath);
      if declared.None? || acquired.None? then Err(Missing("directory"))
      else if declared != acquired then Err(Differs("locked path"))
      else Ok(Local(acquired.value))
    case (ByVersion(requirement, registry), RegistrySource(prefix, _)) =>
      if !w.matches(requirement, locked.version) || RegistryPrefix(m, registry) != Some(prefix)
      then Err(Differs("locked registry release"))
      else
        var package := ReadLocked(w, locked);
        if package.None? then Err(Missing("cached package")) else Ok(Unpacked(package.value))
    case _ => Err(Differs("locked acquisition source"))
  }

  datatype Verified = Verified(supplied: map<string, PackageGraph>, exact: seq<LockedDependency>)

  function CompileLocked(w: World, project: Directory, root: PackageRoot, lock: Lock, stack: set<Name>)
    : Result<PackageGraph, Error>
    requires ReadManifest(w, root).Some?
    decreases Names(lock.packages) - stack, 1, 0
  {
    var m := ReadManifest(w, root).value;
    if m.name in stack then Err(Cycle(m.name))
    else
      var found := Find(lock.packages, m.name);
      if found.None? then Err(Absent(m.name))
      else if found.value.version != m.version then Err(Differs("version"))
      else
        var verified := CompileDependencies(w, project, root, lock, stack + {m.name}, 0, Verified(map[], []));
        if verified.Err? then Err(verified.error)
        else FinishLocked(w, root, lock, found.value, verified.value)
  }

  /** The checks after every dependency has been verified. */
  function FinishLocked(w: World, root: PackageRoot, lock: Lock, locked: LockedPackage, v: Verified)
    : Result<PackageGraph, Error>
  {
    if SortDependencies(v.exact) != locked.dependencies then Err(Differs("dependencies"))
    else
      var graph := w.compile(root, v.supplied);
      if graph.None? then Err(Rejected("compile"))
      else if RootDigest(graph.value) != locked.digest then Err(Differs("digest"))
      else
        var closure := ClosureFromLock(lock.packages, locked);
        if closure.None? then Err(Absent(locked.name))
        else
          var distribution := w.archive(root, RootDigest(graph.value), locked.dependencies, closure.value);
          if distribution.None? then Err(Rejected("archive"))
          else if distribution.value != locked.distributionDigest then Err(Differs("distribution digest"))
          else Ok(graph.value)
  }

  function CompileDependencies(w: World, project: Directory, root: PackageRoot, lock: Lock, stack: set<Name>,
                               k: nat, v: Verified): Result<Verified, Error>
    requires ReadManifest(w, root).Some? && k <= |ReadManifest(w, root).value.dependencies|
    decreases Names(lock.packages) - stack, 2, |ReadManifest(w, root).value.dependencies| - k
  {
    var m := ReadManifest(w, root).value;
    if k == |m.dependencies| then Ok(v)
    else
      var d := m.dependencies[k];
      var at := Locate(w, project, root, m, lock, d);
      if at.Err? then Err(at.error)
      else
        var graph := CompileLocked(w, project, at.value.1, lock, stack);
        if graph.Err? then Err(graph.error)
        else CompileDependencies(w, project, root, lock, stack, k + 1,
                                 Verified(v.supplied[d.alias := graph.value], v.exact + [EdgeTo(at.value.0)]))
  }

  /** The lock's entry for a declared dependency and where its files are, when manifest, lock and files agree. */
  function Locate(w: World, project: Directory, root: PackageRoot, m: Manifest, lock: Lock, d: Dependency)
    : (r: Result<(LockedPackage, PackageRoot), Error>)
    ensures r.Ok? ==> ReadManifest(w, r.value.1).Some?
  {
    var found := Find(lock.packages, d.package);
    if found.None? then Err(Absent(d.package))
    else
      var child := LockedRoot(w, project, root, m, d, found.value);
      if child.Err? then Err(child.error)
      else
        var cm := ReadManifest(w, child.value);
        if cm.None? then Err(Missing("manifest"))
        else if cm.value.name != found.value.name || cm.value.version != found.value.version
        then Err(Differs("locked identity"))
        else Ok((found.value, child.value))
  }

  function EdgeTo(p: LockedPackage): LockedDependency {
    LockedDependency(p.name, p.version, p.digest)
  }

  /** The final comparison of a compiled graph with the whole lock. */
  ghost predicate LockMatchesGraph(lock: Lock, m: Manifest, graph: PackageGraph) {
    && ValidLock(lock)
    && lock.root == m.name == graph.root
    && |lock.packages| == |graph.digests|
    && forall p :: p in lock.packages ==> p.name in graph.digests && graph.digests[p.name] == p.digest
  }

  /** Compile the project at `project` from its lock. */
  ghost function CompileProject(w: World, project: Directory, lock: Lock): Result<PackageGraph, Error>
    requires ReadManifest(w, Local(project)).Some?
  {
    var m := ReadManifest(w, Local(project)).value;
    if !exists p :: p in lock.packages && p.name == m.name
                    && p.source == PathSource(["."]) then Err(Differs("project path"))
    else
      var graph := CompileLocked(w, project, Local(project), lock, {});
      if graph.Ok? && !LockMatchesGraph(lock, m, graph.value) then Err(Differs("lock")) else graph
  }

  // ----- Resolving -----

  datatype Gathered = Gathered(
    supplied: map<string, PackageGraph>,
    packages: seq<LockedPackage>,
    direct: seq<LockedDependency>)

  function LocalNames(w: World): set<Name> {
    set d | d in w.manifests :: w.manifests[d].name
  }

  ghost function Resolve(w: World, project: Directory, dir: Directory, source: LockedSource, stack: set<Name>)
    : Result<Resolution, Error>
    requires ReadManifest(w, Local(dir)).Some?
    decreases LocalNames(w) - stack, 1, 0
  {
    var m := ReadManifest(w, Local(dir)).value;
    if m.name in stack then Err(Cycle(m.name))
    else
      var gathered := ResolveDependencies(w, project, dir, stack + {m.name}, 0, Gathered(map[], [], []));
      if gathered.Err? then Err(gathered.error)
      else FinishResolution(w, dir, m, source, gathered.value)
  }

  /** Compile the package, archive it with its frozen closure, and add its own entry. */
  function FinishResolution(w: World, dir: Directory, m: Manifest, source: LockedSource, g: Gathered)
    : Result<Resolution, Error>
  {
    var direct := SortDependencies(g.direct);
    var graph := w.compile(Local(dir), g.supplied);
    if graph.None? then Err(Rejected("compile"))
    else
      var distribution := w.archive(Local(dir), RootDigest(graph.value), direct, g.packages);
      if distribution.None? then Err(Rejected("archive"))
      else
        var own := LockedPackage(m.name, m.version, RootDigest(graph.value), distribution.value, direct, source);
        Ok(Resolution(graph.value, Insert(g.packages, own)))
  }

  ghost function ResolveDependencies(w: World, project: Directory, dir: Directory, stack: set<Name>, k: nat,
                                     g: Gathered)
    : Result<Gathered, Error>
    requires ReadManifest(w, Local(dir)).Some? && k <= |ReadManifest(w, Local(dir)).value.dependencies|
    decreases LocalNames(w) - stack, 3, |ReadManifest(w, Local(dir)).value.dependencies| - k
  {
    var m := ReadManifest(w, Local(dir)).value;
    if k == |m.dependencies| then Ok(g)
    else
      var child := ResolveChild(w, project, dir, stack, m.dependencies[k]);
      if child.Err? then Err(child.error)
      else
        var next := Gather(m, m.dependencies[k], g, child.value.0, child.value.1);
        if next.Err? then Err(next.error)
        else ResolveDependencies(w, project, dir, stack, k + 1, next.value)
  }

  /** Record one resolved child in the parent's collections. */
  function Gather(m: Manifest, d: Dependency, g: Gathered, version: Version, child: Resolution): Result<Gathered, Error>
  {
    if m.name in Names(child.packages) then Err(Cycle(m.name))
    else
      var merged := Merge(g.packages, child.packages);
      if merged.Err? then Err(merged.error)
      else Ok(Gathered(g.supplied[d.alias := child.graph], merged.value,
                       g.direct + [LockedDependency(d.package, version, RootDigest(child.graph))]))
  }

  ghost function ResolveChild(w: World, project: Directory, dir: Directory, stack: set<Name>, d: Dependency)
    : Result<(Version, Resolution), Error>
    requires ReadManifest(w, Local(dir)).Some?
    decreases LocalNames(w) - stack, 2, 0
  {
    match d.acquisition
    case ByPath(path) =>
      var child := Canonicalize(w.tree, dir, path);
      if child.None? then Err(Missing("directory"))
      else
        var cm := ReadManifest(w, Local(child.value));
        if cm.None? then Err(Missing("manifest"))
        else if cm.value.name != d.package then Err(Differs("package name"))
        else
          var r := Resolve(w, project, child.value, SourceOf(child.value, project), stack);
          if r.Err? then Err(r.error) else Ok((cm.value.version, r.value))
    case ByVersion(requirement, registry) =>
      var m := ReadManifest(w, Local(dir)).value;
      ResolveRelease(w, m, d.package, requirement, registry)
  }

  /** A registry dependency: pull the newest matching release and verify its frozen lock. */
  ghost function ResolveRelease(w: World, m: Manifest, package: Name, requirement: string, registry: Option<string>)
    : Result<(Version, Resolution), Error>
  {
    var prefix := RegistryPrefix(m, registry);
    if prefix.None? then Err(Missing("registry"))
    else
      var version := SelectVersion(w, w.versions(prefix.value, package), requirement);
      if version.None? then Err(Missing("release"))
      else
        var pulled := PullTag(w, prefix.value, package, version.value);
        if pulled.None? then Err(Missing("package"))
        else
          VerifyRelease(w, pulled.value, RegistrySource(prefix.value, pulled.value.manifestDigest))
  }

  /** Validate the lock frozen into a release, and compile the release from it. */
  ghost function VerifyRelease(w: World, p: SourcePackage, source: LockedSource): Result<(Version, Resolution), Error> {
    var lock := PulledLock(p, source);
    if ReadManifest(w, Unpacked(p)).None? then Err(Missing("manifest"))
    else if !PulledLockValid(p, source) || !Installed(w, lock.packages) then Err(Rejected("frozen resolution"))
    else
      var graph := CompileLocked(w, [], Unpacked(p), lock, {});
      if graph.Err? then Err(graph.error)
      else if !LockMatchesGraph(lock, p.manifest, graph.value) || p.packageDigest != RootDigest(graph.value)
      then Err(Differs("semantic digest"))
      else Ok((p.manifest.version, Resolution(graph.value, lock.packages)))
  }

  /** The lock written for a resolved project. */
  ghost function ResolveLock(w: World, project: Directory): Result<(Lock, PackageGraph), Error>
    requires ReadManifest(w, Local(project)).Some?
  {
    var r := Resolve(w, project, project, PathSource(["."]), {});
    if r.Err? then Err(r.error)
    else Ok((Lock(ReadManifest(w, Local(project)).value.name, r.value.packages), r.value.graph))
  }
}
