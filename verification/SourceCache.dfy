/**
 The content-addressed cache of released source packages, and its agreement with the
 registry. The bytes on disk and the bytes the registry serves are arbitrary.
 */
module SourceCache {
  import opened Wrappers
  import LockModel

  type Files = map<string, bytes>

  datatype Descriptor = Descriptor(mediaType: string, size: int, digest: string)

  datatype ImageManifest = ImageManifest(
    schemaVersion: int,
    mediaType: Option<string>,
    artifactType: Option<string>,
    config: Descriptor,
    layers: seq<Descriptor>)

  datatype PackageConfig = PackageConfig(format: string, name: string, version: string, packageDigest: string)

  datatype Package = Package(
    name: string,
    version: string,
    packageDigest: string,
    distributionDigest: string,
    files: Files,
    manifestDigest: string)

  datatype TarEntry = TarEntry(path: string, isFile: bool, contents: bytes)

  /** Digest, JSON, tar, version and manifest readers: deterministic functions of their arguments. */
  datatype Host = Host(
    sha256: bytes -> string,
    readManifest: bytes -> Option<ImageManifest>,
    writeManifest: ImageManifest -> bytes,
    readConfig: bytes -> Option<PackageConfig>,
    writeConfig: PackageConfig -> bytes,
    untar: bytes -> Option<seq<TarEntry>>,
    tar: Files -> bytes,
    filesValid: Files -> bool,
    pathValid: string -> bool,
    identity: Files -> Option<(string, string)>,
    parseVersion: string -> Option<string>,
    manifestDigestValid: string -> bool,
    packageDigestValid: string -> bool)

  /** No two contents share a digest. */
  ghost predicate CollisionFree(host: Host) {
    forall a, b :: host.sha256(a) == host.sha256(b) ==> a == b
  }

  const SOURCE_MEDIA_TYPE: string := "application/vnd.trellis.package.source.v1+tar"
  const CONFIG_MEDIA_TYPE: string := "application/vnd.trellis.package.source.v1+json"
  const IMAGE_MEDIA_TYPE: string := "application/vnd.oci.image.manifest.v1+json"
  const CONFIG_FORMAT: string := "trellis.package.source.v1"
  const MAX_FILES: nat := 1024
  const MAX_FILE_BYTES: nat := 4 * 1024 * 1024
  const MAX_PACKAGE_BYTES: nat := 16 * 1024 * 1024
  const MAX_ARCHIVE_BYTES: nat := MAX_PACKAGE_BYTES + MAX_FILES * 4 * 512 + 1024
  const MAX_CONFIG_BYTES: nat := 4 * 1024
  const MAX_MANIFEST_BYTES: nat := 64 * 1024

  // ----- Archives -----

  function TotalSize(entries: seq<TarEntry>): nat {
    if entries == [] then 0 else TotalSize(entries[..|entries| - 1]) + |entries[|entries| - 1].contents|
  }

  /** Every entry is an acceptable file, no path repeats, and the limits hold. */
  predicate Acceptable(host: Host, entries: seq<TarEntry>) {
    && |entries| <= MAX_FILES
    && TotalSize(entries) <= MAX_PACKAGE_BYTES
    && (forall i :: 0 <= i < |entries| ==>
          entries[i].isFile && host.pathValid(entries[i].path) && |entries[i].contents| <= MAX_FILE_BYTES)
    && forall i, j :: 0 <= i < j < |entries| ==> entries[i].path != entries[j].path
  }

  function FilesOf(entries: seq<TarEntry>): Files {
    if entries == [] then map[]
    else FilesOf(entries[..|entries| - 1])[entries[|entries| - 1].path := entries[|entries| - 1].contents]
  }

  lemma {:induction false} FilesOfPaths(entries: seq<TarEntry>, path: string)
    ensures path in FilesOf(entries) <==> exists i :: 0 <= i < |entries| && entries[i].path == path
  {
    if entries != [] {
      var n := |entries| - 1;
      FilesOfPaths(entries[..n], path);
      if exists i :: 0 <= i < n && entries[..n][i].path == path {
        var i :| 0 <= i < n && entries[..n][i].path == path;
        assert entries[i].path == path;
      }
    }
  }

  /** The files of a normalised archive: packing them again gives the same bytes. */
  function Extract(host: Host, archive: bytes): (r: Option<Files>)
    ensures r.Some? ==> host.filesValid(r.value) && host.tar(r.value) == archive
  {
    if |archive| > MAX_ARCHIVE_BYTES then None
    else
      var entries := host.untar(archive);
      if entries.None? || !Acceptable(host, entries.value) then None
      else
        var files := FilesOf(entries.value);
        if host.filesValid(files) && host.tar(files) == archive then Some(files) else None
  }

  lemma {:induction false} SizeGrows(entries: seq<TarEntry>, k: nat)
    requires k <= |entries|
    ensures TotalSize(entries[..k]) <= TotalSize(entries)
  {
    if k == |entries| {
      assert entries[..k] == entries;
    } else {
      var n := |entries| - 1;
      SizeGrows(entries[..n], k);
      assert entries[..n][..k] == entries[..k];
    }
  }

  /** The checks made for entry `k` once the entries before it are accepted. */
  predicate EntryAcceptable(host: Host, entries: seq<TarEntry>, k: nat)
    requires k < |entries|
  {
    var entry := entries[k];
    && entry.isFile && host.pathValid(entry.path) && |entry.contents| <= MAX_FILE_BYTES
    && TotalSize(entries[..k]) + |entry.contents| <= MAX_PACKAGE_BYTES
    && entry.path !in FilesOf(entries[..k])
    && k + 1 <= MAX_FILES
  }

  lemma AcceptableStep(host: Host, entries: seq<TarEntry>, k: nat)
    requires k < |entries| && Acceptable(host, entries[..k])
    ensures Acceptable(host, entries[..k + 1]) <==> EntryAcceptable(host, entries, k)
  {
    assert entries[..k + 1][..k] == entries[..k];
    FilesOfPaths(entries[..k], entries[k].path);
    if Acceptable(host, entries[..k + 1]) {
      var longer, shorter := entries[..k + 1], entries[..k];
      assert longer[k] == entries[k];
      assert forall i :: 0 <= i < k ==> shorter[i] == longer[i];
    }
    if EntryAcceptable(host, entries, k) {
      forall i | 0 <= i < k
        ensures entries[i].path != entries[k].path
      {
        assert entries[..k][i].path == entries[i].path;
      }
    }
  }

  lemma AcceptablePrefix(host: Host, entries: seq<TarEntry>, k: nat)
    requires k <= |entries| && Acceptable(host, entries)
    ensures Acceptable(host, entries[..k])
  {
    SizeGrows(entries, k);
  }

  lemma FilesOfStep(entries: seq<TarEntry>, k: nat)
    requires k < |entries|
    ensures FilesOf(entries[..k + 1]) == FilesOf(entries[..k])[entries[k].path := entries[k].contents]
    ensures TotalSize(entries[..k + 1]) == TotalSize(entries[..k]) + |entries[k].contents|
  {
    assert entries[..k + 1][..k] == entries[..k];
  }

  /** Unpacks the entries one by one, giving up at the first that it cannot accept. */
  method CollectFiles(host: Host, entries: seq<TarEntry>) returns (r: Option<Files>)
    ensures r == if Acceptable(host, entries) then Some(FilesOf(entries)) else None
  {
    var files: Files := map[];
    var total := 0;
    for k := 0 to |entries|
      invariant files == FilesOf(entries[..k]) && total == TotalSize(entries[..k]) && |files| == k
      invariant Acceptable(host, entries[..k])
    {
      var entry := entries[k];
      AcceptableStep(host, entries, k);
      FilesOfStep(entries, k);
      total := total + |entry.contents|;
      if !entry.isFile || !host.pathValid(entry.path) || |entry.contents| > MAX_FILE_BYTES || total > MAX_PACKAGE_BYTES
         || entry.path in files || |files| + 1 > MAX_FILES {
        if Acceptable(host, entries) {
          AcceptablePrefix(host, entries, k + 1);
        }
        return None;
      }
      files := files[entry.path := entry.contents];
    }
    assert entries[..|entries|] == entries;
    return Some(files);
  }

  method ExtractArchive(host: Host, archive: bytes) returns (r: Option<Files>)
    ensures r == Extract(host, archive)
  {
    if |archive| > MAX_ARCHIVE_BYTES {
      return None;
    }
    var entries := host.untar(archive);
    if entries.None? {
      return None;
    }
    r := CollectFiles(host, entries.value);
    if r.Some? && (!host.filesValid(r.value) || host.tar(r.value) != archive) {
      r := None;
    }
  }

  // ----- Opening a stored image -----

  predicate ManifestValid(m: ImageManifest) {
    && m.schemaVersion == 2
    && m.mediaType == Some(IMAGE_MEDIA_TYPE)
    && m.artifactType == Some(SOURCE_MEDIA_TYPE)
    && m.config.mediaType == CONFIG_MEDIA_TYPE
    && 0 <= m.config.size <= MAX_CONFIG_BYTES
    && |m.layers| == 1
    && m.layers[0].mediaType == SOURCE_MEDIA_TYPE
    && 0 <= m.layers[0].size <= MAX_ARCHIVE_BYTES
  }

  predicate Describes(host: Host, d: Descriptor, content: bytes) {
    |content| == d.size && host.sha256(content) == d.digest
  }

  /** An image: the three blobs, wherever they come from. */
  datatype Blobs = Blobs(manifest: bytes, config: bytes, source: bytes)

  /** The package an image holds, when its blobs agree with the digest and with each other. */
  function Open(host: Host, digest: string, b: Blobs): (r: Option<Package>)
    ensures r.Some? ==> host.sha256(b.manifest) == digest && r.value.manifestDigest == digest
  {
    var manifest := host.readManifest(b.manifest);
    if host.sha256(b.manifest) != digest || manifest.None? || !ManifestValid(manifest.value) then None
    else if !Describes(host, manifest.value.config, b.config) then None
    else
      var config := host.readConfig(b.config);
      if config.None? || config.value.format != CONFIG_FORMAT || b.config != host.writeConfig(config.value) then None
      else if !Describes(host, manifest.value.layers[0], b.source) then None
      else
        var version := host.parseVersion(config.value.version);
        var files := Extract(host, b.source);
        if version.None? || files.None? then None
        else Some(Package(config.value.name, version.value, config.value.packageDigest, host.sha256(b.source),
                          files.value, digest))
  }

  /** A digest names at most one package, whatever bytes are offered for it. */
  lemma DigestNamesOnePackage(host: Host, digest: string, a: Blobs, b: Blobs)
    requires CollisionFree(host) && Open(host, digest, a).Some? && Open(host, digest, b).Some?
    ensures Open(host, digest, a) == Open(host, digest, b) && a == b
  {
  }

  /** What a lock entry asks of a package. */
  datatype Wanted = Wanted(name: string, version: string, packageDigest: string, distributionDigest: string,
                           manifestDigest: string)

  predicate PackageValid(host: Host, p: Package, w: Wanted) {
    && p.name == w.name && p.version == w.version
    && host.filesValid(p.files) && host.identity(p.files) == Some((p.name, p.version))
    && host.packageDigestValid(p.packageDigest)
    && host.sha256(host.tar(p.files)) == p.distributionDigest
    && p.packageDigest == w.packageDigest
  }

  predicate Satisfies(host: Host, p: Package, w: Wanted) {
    PackageValid(host, p, w) && p.distributionDigest == w.distributionDigest && p.manifestDigest == w.manifestDigest
  }

  /** A cache entry as found on disk: any of its files may be missing or wrong. */
  datatype Entry = Entry(manifest: Option<bytes>, config: Option<bytes>, source: Option<bytes>)

  function ReadEntry(host: Host, digest: string, e: Entry): Option<Package> {
    if e.manifest.None? || e.config.None? || e.source.None? then None
    else Open(host, digest, Blobs(e.manifest.value, e.config.value, e.source.value))
  }

  type Disk = map<string, Entry>

  function ReadCache(host: Host, disk: Disk, digest: string): (r: Option<Package>)
    ensures r.Some? ==> host.manifestDigestValid(digest) && r.value.manifestDigest == digest
  {
    if !host.manifestDigestValid(digest) || digest !in disk then None else ReadEntry(host, digest, disk[digest])
  }

  function ReadLocked(host: Host, disk: Disk, w: Wanted): Option<Package> {
    var found := ReadCache(host, disk, w.manifestDigest);
    if found.Some? && Satisfies(host, found.value, w) then found else None
  }

  /** What the registry serves for a manifest digest, and the digest it claims for it. */
  datatype Served = Served(claimed: string, blobs: Blobs)

  function PullReference(host: Host, s: Served): Option<Package> {
    if |s.blobs.manifest| > MAX_MANIFEST_BYTES then None else Open(host, s.claimed, s.blobs)
  }

  /** Any two disks, and any registry, agree on a locked package wherever they yield one. */
  lemma CacheAndRegistryAgree(host: Host, disk: Disk, other: Disk, s: Served, w: Wanted)
    requires CollisionFree(host) && ReadLocked(host, disk, w).Some?
    ensures ReadLocked(host, other, w).Some? ==> ReadLocked(host, other, w) == ReadLocked(host, disk, w)
    ensures PullReference(host, s).Some? && s.claimed == w.manifestDigest ==>
              PullReference(host, s) == ReadLocked(host, disk, w)
  {
    var e := disk[w.manifestDigest];
    var a := Blobs(e.manifest.value, e.config.value, e.source.value);
    if ReadLocked(host, other, w).Some? {
      var f := other[w.manifestDigest];
      DigestNamesOnePackage(host, w.manifestDigest, a, Blobs(f.manifest.value, f.config.value, f.source.value));
    }
    if PullReference(host, s).Some? && s.claimed == w.manifestDigest {
      DigestNamesOnePackage(host, w.manifestDigest, a, s.blobs);
    }
  }

  // ----- The cache object -----

  /** How a directory operation ends; another process may have put an entry there meanwhile. */
  datatype Effect = Done | Failed | Found(entry: Entry)

  /** The manifest an image of this package has. */
  function ImageOf(host: Host, p: Package): ImageManifest {
    var config := host.writeConfig(PackageConfig(CONFIG_FORMAT, p.name, p.version, p.packageDigest));
    var source := host.tar(p.files);
    ImageManifest(2, Some(IMAGE_MEDIA_TYPE), Some(SOURCE_MEDIA_TYPE),
                  Descriptor(CONFIG_MEDIA_TYPE, |config|, host.sha256(config)),
                  [Descriptor(SOURCE_MEDIA_TYPE, |source|, host.sha256(source))])
  }

  function EntryOf(host: Host, p: Package): Entry {
    Entry(Some(host.writeManifest(ImageOf(host, p))),
          Some(host.writeConfig(PackageConfig(CONFIG_FORMAT, p.name, p.version, p.packageDigest))),
          Some(host.tar(p.files)))
  }

  /** JSON is read back as it was written. */
  ghost predicate JsonRoundTrips(host: Host) {
    && (forall m :: host.readManifest(host.writeManifest(m)) == Some(m))
    && forall c :: host.readConfig(host.writeConfig(c)) == Some(c)
  }

  /** The stored image of a well-formed package opens to that package. */
  lemma StoredImageOpens(host: Host, p: Package)
    requires JsonRoundTrips(host) && Extract(host, host.tar(p.files)) == Some(p.files)
    requires host.parseVersion(p.version) == Some(p.version)
    requires p.distributionDigest == host.sha256(host.tar(p.files))
    requires p.manifestDigest == host.sha256(host.writeManifest(ImageOf(host, p)))
    requires |EntryOf(host, p).config.value| <= MAX_CONFIG_BYTES
    ensures ReadEntry(host, p.manifestDigest, EntryOf(host, p)) == Some(p)
  {
    var config := PackageConfig(CONFIG_FORMAT, p.name, p.version, p.packageDigest);
    assert host.readConfig(host.writeConfig(config)) == Some(config);
    assert host.readManifest(host.writeManifest(ImageOf(host, p))) == Some(ImageOf(host, p));
  }

  class Cache {
    const host: Host
    const effect: nat -> Effect
    const serve: (nat, string) -> Option<Served>
    var disk: Disk
    var calls: nat

    constructor (host: Host, disk: Disk, effect: nat -> Effect, serve: (nat, string) -> Option<Served>)
      ensures this.host == host && this.disk == disk && this.effect == effect && this.serve == serve
    {
      this.host, this.disk, this.effect, this.serve, calls := host, disk, effect, serve, 0;
    }

    ghost predicate OnlyChanges(was: Disk, digest: string)
      reads this
    {
      forall d :: d != digest && d in was.Keys + disk.Keys ==> d in disk && d in was && disk[d] == was[d]
    }

    /** Removes an entry; a removal that fails may leave anything behind. */
    method Remove(digest: string) returns (ok: bool)
      modifies `disk, `calls
      ensures OnlyChanges(old(disk), digest)
      ensures ok ==> digest !in disk
    {
      var e := effect(calls);
      calls := calls + 1;
      if e.Found? {
        disk := disk[digest := e.entry];
        return false;
      }
      ok := e.Done?;
      if ok {
        disk := disk - {digest};
      }
    }

    /** Moves a staged entry into place. It is fine if an entry is there already. */
    method Install(digest: string, entry: Entry) returns (ok: bool)
      modifies `disk, `calls
      ensures OnlyChanges(old(disk), digest)
    {
      var e := effect(calls);
      calls := calls + 1;
      match e {
        case Done => disk := disk[digest := entry];
        case Failed =>
        case Found(other) => disk := disk[digest := other];
      }
      ok := e.Done? || digest in disk;
    }

    /** Writes a package unless a readable entry is there, and reads it back before reporting success. */
    method WriteCache(p: Package) returns (ok: bool)
      modifies `disk, `calls
      ensures OnlyChanges(old(disk), p.manifestDigest)
      ensures ok ==> ReadCache(host, disk, p.manifestDigest).Some?
    {
      var digest := p.manifestDigest;
      if !host.manifestDigestValid(digest) {
        return false;
      }
      if digest in disk {
        if ReadCache(host, disk, digest).Some? {
          return true;
        }
        var removed := Remove(digest);
        if !removed {
          return false;
        }
      }
      if !host.filesValid(p.files) || host.sha256(host.tar(p.files)) != p.distributionDigest {
        return false;
      }
      if host.sha256(host.writeManifest(ImageOf(host, p))) != digest {
        return false;
      }
      var installed := Install(digest, EntryOf(host, p));
      if !installed {
        return false;
      }
      return ReadCache(host, disk, digest).Some?;
    }

    /** Reads a locked package from the cache, or pulls exactly it; afterwards it is a cache hit. */
    method PullLocked(w: Wanted) returns (r: Option<Package>)
      requires CollisionFree(host)
      modifies `disk, `calls
      ensures OnlyChanges(old(disk), w.manifestDigest)
      ensures r.Some? ==> r == ReadLocked(host, disk, w)
      ensures old(ReadLocked(host, disk, w)).Some? ==> r == old(ReadLocked(host, disk, w)) && disk == old(disk)
    {
      r := ReadLocked(host, disk, w);
      if r.Some? {
        return;
      }
      if !host.manifestDigestValid(w.manifestDigest) {
        return None;
      }
      var _ := Remove(w.manifestDigest);
      var served := serve(calls, w.manifestDigest);
      calls := calls + 1;
      if served.None? {
        return None;
      }
      var pulled := PullReference(host, served.value);
      if pulled.None? || !Satisfies(host, pulled.value, w) {
        return None;
      }
      var written := WriteCache(pulled.value);
      if !written {
        return None;
      }
      ReadIsPulled(host, disk, served.value, w);
      return pulled;
    }

    /** Installs every registry package of a lock; on success each is a cache hit. */
    method InstallLocked(packages: seq<LockModel.LockedPackage>) returns (changed: Option<nat>)
      requires CollisionFree(host)
      modifies `disk, `calls
      ensures changed.Some? ==> AllHit(host, disk, packages, |packages|)
      ensures changed == Some(0) <==> old(AllHit(host, disk, packages, |packages|))
      ensures changed == Some(0) ==> disk == old(disk)
    {
      var count := 0;
      for k := 0 to |packages|
        invariant AllHit(host, disk, packages, k)
        invariant count == 0 ==> disk == old(disk)
        invariant count > 0 ==> !old(AllHit(host, disk, packages, |packages|))
      {
        if packages[k].source.RegistrySource? && ReadLocked(host, disk, WantedOf(packages[k])).None? {
          var pulled := PullOne(packages, k);
          if !pulled {
            return None;
          }
          count := count + 1;
        }
      }
      return Some(count);
    }

    /** Pulls the missing package `k` without losing an earlier one. */
    method PullOne(packages: seq<LockModel.LockedPackage>, k: nat) returns (ok: bool)
      requires CollisionFree(host) && k < |packages| && packages[k].source.RegistrySource?
      requires AllHit(host, disk, packages, k)
      modifies `disk, `calls
      ensures ok ==> AllHit(host, disk, packages, k + 1)
    {
      ghost var before := disk;
      var w := WantedOf(packages[k]);
      var pulled := PullLocked(w);
      if pulled.Some? {
        HitsStay(host, before, disk, packages, k, w);
      }
      ok := pulled.Some?;
    }
  }

  function WantedOf(p: LockModel.LockedPackage): Wanted
    requires p.source.RegistrySource?
  {
    Wanted(p.name, p.version, p.digest, p.distributionDigest, p.source.ociDigest)
  }

  predicate AllHit(host: Host, disk: Disk, packages: seq<LockModel.LockedPackage>, k: nat)
    requires k <= |packages|
  {
    forall i :: 0 <= i < k && packages[i].source.RegistrySource? ==> ReadLocked(host, disk, WantedOf(packages[i])).Some?
  }

  /** What is read back after a pull is what was pulled. */
  lemma ReadIsPulled(host: Host, disk: Disk, s: Served, w: Wanted)
    requires CollisionFree(host) && PullReference(host, s).Some? && Satisfies(host, PullReference(host, s).value, w)
    requires ReadCache(host, disk, w.manifestDigest).Some?
    ensures ReadLocked(host, disk, w) == PullReference(host, s)
  {
    var e := disk[w.manifestDigest];
    DigestNamesOnePackage(host, w.manifestDigest, Blobs(e.manifest.value, e.config.value, e.source.value), s.blobs);
  }

  /** Replacing the entry of one digest by a readable one keeps every earlier hit. */
  lemma HitsStay(host: Host, before: Disk, disk: Disk, packages: seq<LockModel.LockedPackage>, k: nat, w: Wanted)
    requires CollisionFree(host) && k <= |packages| && AllHit(host, before, packages, k)
    requires forall d :: d != w.manifestDigest && d in before.Keys + disk.Keys ==>
               d in disk && d in before && disk[d] == before[d]
    requires ReadLocked(host, disk, w).Some?
    ensures AllHit(host, disk, packages, k)
  {
    forall i | 0 <= i < k && packages[i].source.RegistrySource?
      ensures ReadLocked(host, disk, WantedOf(packages[i])).Some?
    {
      var v := WantedOf(packages[i]);
      assert ReadLocked(host, before, v).Some?;
      if v.manifestDigest == w.manifestDigest {
        SameDigestSamePackage(host, before, disk, v.manifestDigest);
      }
    }
  }

  lemma SameDigestSamePackage(host: Host, a: Disk, b: Disk, digest: string)
    requires CollisionFree(host) && ReadCache(host, a, digest).Some? && ReadCache(host, b, digest).Some?
    ensures ReadCache(host, a, digest) == ReadCache(host, b, digest)
  {
    var e, f := a[digest], b[digest];
    DigestNamesOnePackage(host, digest, Blobs(e.manifest.value, e.config.value, e.source.value),
                          Blobs(f.manifest.value, f.config.value, f.source.value));
  }
}
