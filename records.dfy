/**
 * The records the package matchers read: the release version named by a
 * request, the release's stored packages and their compiled packages, and
 * the entries of a compiled-package manifest. The record store is an
 * immutable value here; the matchers never write to it.
 */
module Records {
  import opened Wrappers

  /** A release version and whether its last upload completed. */
  datatype ReleaseVersion = ReleaseVersion(version: string, updateCompleted: bool)

  /**
   * A stored package. `fingerprint` may be nil; `hasBlob` says whether a
   * source blob (a blobstore id) is stored for it.
   */
  datatype Package = Package(name: string, version: string, fingerprint: Option<string>, hasBlob: bool)

  /** The operating system and version a compiled package was built against. */
  datatype Stemcell = Stemcell(os: string, version: string)

  /**
   * A stored compiled package: the position of its source package in
   * `Store.packages`, its stemcell and the dependency key recorded when it
   * was compiled.
   */
  datatype CompiledPackage = CompiledPackage(pkgIndex: nat, stemcell: Stemcell, depKey: string)

  /**
   * What one request sees of the record store: the release version it names
   * (None when the request names no release version the store holds), and
   * the packages and compiled packages its lookups see (for a compiled
   * request, which names no release, whatever the lookup finds).
   */
  datatype Store = Store(releaseVersion: Option<ReleaseVersion>, packages: seq<Package>, compiled: seq<CompiledPackage>)

  /** One entry of a `/matches_compiled` manifest. */
  datatype CompiledEntry = CompiledEntry(name: string, version: string, fingerprint: string, stemcell: Stemcell, deps: seq<string>)
}
