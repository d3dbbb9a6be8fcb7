# Package matching and deployment registration in the BOSH director

This project models two parts of the BOSH director in Dafny and proves
properties about them.

**Package matching.** During a release upload the CLI asks the director
which packages it already holds, so that it can skip uploading them.

- `/matches` answers for source packages. A requested fingerprint is
  reported when a stored package of the release carries it and has a source
  blob. The answer keeps request order, keeps duplicates and skips nil
  fingerprints.
- `/matches_compiled` answers for compiled packages. A manifest entry is
  reported when all of these hold:
  - a stored compiled package exists for the same package (name, version
    and fingerprint);
  - that compiled package is for the same stemcell;
  - it carries a byte-equal *dependency key*.
- The dependency key is the entry's transitive build-time dependency
  closure. Each dependency is resolved by name among the entries of the
  same request, and the closure is rendered as nested JSON arrays: `["name","version"]` for a dependency
  without dependencies, `["name","version",[...]]` otherwise, in declared
  order.
- A fingerprint that the request carries under two different names is never
  reported.
- Both queries answer nothing while the named release version is *dirty*,
  that is, while its last upload did not complete.

**Deployment registration.** `DeploymentRepo#find_or_create_by_name` works
in three steps:

1. It returns the stored deployment with exactly the given name.
2. Otherwise it refuses the name when another stored deployment has the same
   canonical (DNS) name.
3. Otherwise it creates the deployment.

The model is a class holding the stored names. Its method proves the
canonical-name collision scan against a specification function, `Register`.
The lemmas about `Register` show that:

- canonical names stay pairwise distinct;
- a second call is idempotent;
- a created deployment is the one found next time.

The packages controller itself is not part of this model. Its behaviour is
modelled from the controller's test file: the fixtures and expectations of
every matching test are proved as lemmas in `PackageScenarios`.

Files:

- `wrappers.dfy`: `Option` and `Result`.
- `records.dfy`: release versions, packages, compiled packages, stemcells,
  the store and the entries of a compiled-package request.
- `sequences.dfy`: `NoDup`, `IsSubsequence`, `FirstIndex` and `Dedup`, with
  its order lemma.
- `dependency_key.dfy`: the dependency closure, its rendering and a parser
  for the rendering. Parsing inverts rendering, so rendering is injective.
- `package_matcher.dfy`: the release-version gate, `/matches` and
  `/matches_compiled`.
- `package_scenarios.dfy`: the tests of the packages controller, as lemmas.
- `deployment_repo.dfy`: deployment name registration.

## Model

| member | source | states |
|---|---|---|
| PackageMatcher.HasSourceBlob | src/bosh-director/spec/unit/api/controllers/packages_controller_spec.rb:64-67 | true exactly when some stored package carries the fingerprint and has a source blob |
| PackageMatcher.SourceMatches | src/bosh-director/spec/unit/api/controllers/packages_controller_spec.rb:124-142 | a dirty release version answers `/matches` with the empty list |
| PackageMatcher.SourceMatchesMembership | src/bosh-director/spec/unit/api/controllers/packages_controller_spec.rb:81-104 | a fingerprint is reported exactly when the gate is open, it was requested (not as nil) and a stored package with a source blob carries it |
| PackageMatcher.SourceMatchesCount | src/bosh-director/spec/unit/api/controllers/packages_controller_spec.rb:71-104 | a backed fingerprint is reported as many times as it was requested, and an unbacked one never |
| PackageMatcher.SourceMatchesOrder | src/bosh-director/spec/unit/api/controllers/packages_controller_spec.rb:100-104 | the answer is a subsequence of the requested non-nil fingerprints, so request order is kept |
| PackageMatcher.SourceMatchesIgnoresNil | src/bosh-director/spec/unit/api/controllers/packages_controller_spec.rb:145-181 | a nil fingerprint inserted anywhere in the request leaves the answer unchanged |
| PackageMatcher.ClaimedUnderOtherName | src/bosh-director/spec/unit/api/controllers/packages_controller_spec.rb:333-344 | true exactly when some request entry carries the fingerprint under a different name |
| PackageMatcher.FindPackage | src/bosh-director/spec/unit/api/controllers/packages_controller_spec.rb:238-268 | the result is the first stored package with the entry's name, version and fingerprint, or None when no stored package has all three |
| PackageMatcher.HasCompiled | src/bosh-director/spec/unit/api/controllers/packages_controller_spec.rb:270-286 | true exactly when a compiled package of that package, for that stemcell, with that dependency key is stored |
| PackageMatcher.CompiledMatches | src/bosh-director/spec/unit/api/controllers/packages_controller_spec.rb:380-400 | a dirty release version answers `/matches_compiled` with the empty list; the answer never repeats a fingerprint |
| PackageMatcher.MatchedFingerprintsMembership | src/bosh-director/spec/unit/api/controllers/packages_controller_spec.rb:309-319 | a fingerprint is collected exactly when some entry carrying it matches |
| PackageMatcher.CompiledMatchesMembership | src/bosh-director/spec/unit/api/controllers/packages_controller_spec.rb:289-319 | a fingerprint is reported exactly when the gate is open and some entry carrying it matches (unambiguous fingerprint, defined key, stored package, compiled package with that stemcell and key) |
| PackageMatcher.CompiledMatchesOrder | src/bosh-director/spec/unit/api/controllers/packages_controller_spec.rb:309-319 | reported fingerprints are ordered by the first matching entry carrying each |
| PackageMatcher.CompiledMatchSound | src/bosh-director/spec/unit/api/controllers/packages_controller_spec.rb:270-297 | each reported fingerprint has witnesses: an entry carrying it, a stored package identified by that entry, and a compiled package of it with the entry's stemcell and dependency key |
| PackageMatcher.AmbiguousFingerprintSuppressed | src/bosh-director/spec/unit/api/controllers/packages_controller_spec.rb:333-344 | a fingerprint the request carries under two different names is never reported, whatever the store holds |
| PackageMatcher.ForeignStemcellNeverMatches | src/bosh-director/spec/unit/api/controllers/packages_controller_spec.rb:321-331 | an entry whose stemcell no stored compiled package has never matches |
| PackageMatcher.KeyMatchIsExact | src/bosh-director/spec/unit/api/controllers/packages_controller_spec.rb:289-307 | an entry whose declared dependencies differ (even only in order) from those of the entry a compiled package matched cannot match that compiled package |
| DependencyKey.ParseListRoundTrip | src/bosh-director/spec/unit/api/controllers/packages_controller_spec.rb:285 | parsing the rendering of a dependency list (names and versions without quotes) gives the list back and leaves the rest of the text unread |
| DependencyKey.ParseTreeRoundTrip | src/bosh-director/spec/unit/api/controllers/packages_controller_spec.rb:276 | parsing the rendering of one dependency gives it back, with or without nested dependencies |
| DependencyKey.RenderInjective | src/bosh-director/spec/unit/api/controllers/packages_controller_spec.rb:276-285 | two dependency lists render to the same key exactly when they are equal |
| DependencyKey.Index | src/bosh-director/spec/unit/api/controllers/packages_controller_spec.rb:309-315 | every name of the request is in the index, mapped to the last entry that carries it |
| DependencyKey.IndexKeyDeclared | src/bosh-director/spec/unit/api/controllers/packages_controller_spec.rb:309-315 | every name in the index is the name of some entry of the request |
| DependencyKey.Closure | src/bosh-director/spec/unit/api/controllers/packages_controller_spec.rb:285 | the closure has one dependency per declared name, in declared order, with the version of the entry that name resolves to; it is undefined when a name is not in the request |
| DependencyKey.ClosureDefined | src/bosh-director/spec/unit/api/controllers/packages_controller_spec.rb:309-315 | in a request that names every dependency it mentions, every closure is defined, cycles included |
| DependencyKey.ClosureOnlyReadsGraph | src/bosh-director/spec/unit/api/controllers/packages_controller_spec.rb:321-331 | the closure depends only on names, versions and declared dependencies in the request, not on stemcells or fingerprints |
| DependencyKey.ClosureNests | src/bosh-director/spec/unit/api/controllers/packages_controller_spec.rb:285 | every node of a closure holds the closure of its own declared dependencies, with its name added to the path; a name already on the path is a leaf |
| DependencyKey.ClosureIgnoresAvoided | src/bosh-director/spec/unit/api/controllers/packages_controller_spec.rb:276-285 | putting a name on the path changes nothing when expanding the dependencies never reaches that name |
| DependencyKey.KeyNestsDependencyKey | src/bosh-director/spec/unit/api/controllers/packages_controller_spec.rb:276-285 | the key is transitive: within an entry's key, a dependency whose own dependencies do not lead back to the entry carries exactly the tree of that dependency's own key (as package 4's stored key nests package 1's) |
| DependencyKey.KeyEqualIffClosureEqual | src/bosh-director/spec/unit/api/controllers/packages_controller_spec.rb:276-285 | two defined keys are byte-equal exactly when the two closures are equal |
| DependencyKey.KeyDeterminesDeclaredDeps | src/bosh-director/spec/unit/api/controllers/packages_controller_spec.rb:299-307 | two entries with the same defined key declare the same dependencies in the same order |
| PackageScenarios.SourceBlobsMatch | src/bosh-director/spec/unit/api/controllers/packages_controller_spec.rb:36-68 | packages 1 and 3 stored with source blobs, request 1, 2, 3: the answer is fingerprints 1 and 3 (also for the versions at lines 81-104, whose packages are made without an explicit blob id and are taken to get one from the record factory) |
| PackageScenarios.SourceWithoutBlob | src/bosh-director/spec/unit/api/controllers/packages_controller_spec.rb:64-67 | a stored package 2 without a source blob is not reported; packages 1 and 3 are (the fixture stores no package 2; the lemma supplies the blob-less package the scenario title describes) |
| PackageScenarios.SourceNoMatch | src/bosh-director/spec/unit/api/controllers/packages_controller_spec.rb:107-122 | only package 5 stored: the answer is empty |
| PackageScenarios.SourceDirtyVersion | src/bosh-director/spec/unit/api/controllers/packages_controller_spec.rb:124-142 | package 1 stored but the release version dirty: the answer is empty |
| PackageScenarios.SourceNilFingerprints | src/bosh-director/spec/unit/api/controllers/packages_controller_spec.rb:145-181 | request nil, 2, 3 with package 2 stored under a nil fingerprint: the answer is fingerprint 3 |
| PackageScenarios.Pkg1Key | src/bosh-director/spec/unit/api/controllers/packages_controller_spec.rb:270-277 | package 1 declared against packages 2 and 3 has exactly the key stored for its compiled package |
| PackageScenarios.Pkg4Key | src/bosh-director/spec/unit/api/controllers/packages_controller_spec.rb:279-286 | package 4 declared against package 1 has exactly the nested key stored for its compiled package |
| PackageScenarios.CompiledWithDependencies | src/bosh-director/spec/unit/api/controllers/packages_controller_spec.rb:289-297 | packages 1, 2, 3 for stemcell ubuntu-trusty/3000 with package 1 declared against 2 and 3: the answer is fingerprint 1 |
| PackageScenarios.CompiledWithoutDependencies | src/bosh-director/spec/unit/api/controllers/packages_controller_spec.rb:299-306 | the same request with package 1 declared without dependencies: the answer is empty |
| PackageScenarios.CompiledWithRecursiveDependency | src/bosh-director/spec/unit/api/controllers/packages_controller_spec.rb:309-319 | adding package 4 declared against package 1: the answer is fingerprints 1 and 4, in that order |
| PackageScenarios.CompiledOnOtherStemcell | src/bosh-director/spec/unit/api/controllers/packages_controller_spec.rb:321-331 | packages 1, 2, 3 for centos-7/3001 and package 4 for ubuntu-trusty/3000: the answer is fingerprint 4 |
| PackageScenarios.AmbiguousFingerprintTests | src/bosh-director/spec/unit/api/controllers/packages_controller_spec.rb:333-378 | with `renamed-fake-pkg1` also carrying fingerprint 1, with or without its compiled package for stemcell 2999 stored: the answer is fingerprint 4 |
| PackageScenarios.CompiledDirtyVersion | src/bosh-director/spec/unit/api/controllers/packages_controller_spec.rb:380-400 | a dirty release version answers the first test's request with the empty list |
| Deployments.Find | bosh-director/lib/bosh/director/deployment_plan/deployment_repo.rb:6-7 | the result is the first stored deployment with exactly that name, and None exactly when no stored deployment has it |
| Deployments.Register | bosh-director/lib/bosh/director/deployment_plan/deployment_repo.rb:5-19 | an existing name is returned with nothing changed; otherwise a canonical clash yields DeploymentCanonicalNameTaken(name, canonical name) with nothing changed; otherwise exactly the new name is appended and returned |
| Deployments.RegisterKeepsCanonicallyDistinct | bosh-director/lib/bosh/director/deployment_plan/deployment_repo.rb:9-17 | if stored canonical names are pairwise distinct before a call, they are after it |
| Deployments.RegisterIdempotent | bosh-director/lib/bosh/director/deployment_plan/deployment_repo.rb:5-7 | a second call with the same name returns the same answer and changes nothing |
| Deployments.RegisterThenFind | bosh-director/lib/bosh/director/deployment_plan/deployment_repo.rb:17 | after a successful call, looking the name up finds the returned deployment |
| Deployments.DeploymentRepo.FindOrCreateByName | bosh-director/lib/bosh/director/deployment_plan/deployment_repo.rb:5-19 | the new stored names and the answer are those of `Register` on the old names; the class invariant (pairwise distinct canonical names) is kept |

## Left out

- HTTP transport, authentication and YAML decoding of the request are left
  out. The 401 answers and the `BadManifest` errors of the controller's tests
  (lines 185-225) are therefore not modelled: a request reaches the model
  already decoded.
- The persistent store is a value (`Store`): its release version, its
  packages in creation order, and its compiled packages. A compiled package
  refers to its package by position.
- Release-version gate: the gate blocks only when the request names a
  release version that exists and whose last upload did not complete. The
  compiled-package tests (lines 289-378) send no release name or version and
  still get matches. The model follows these tests, not a stricter reading
  in which a missing release version also blocks.
- Stemcells are given as (os, version) pairs. Splitting the `"os/version"`
  request string is left out.
- Names and versions in a dependency key are assumed free of the quote
  character, so JSON escaping is not modelled. The injectivity and exactness
  lemmas (`RenderInjective`, `KeyEqualIffClosureEqual`,
  `KeyDeterminesDeclaredDeps`, `KeyMatchIsExact`) require this.
- A dependency name that is not in the request makes the entry's key
  undefined, and such an entry never matches. There is no stored version to
  render for it.
- A dependency already being expanded (a cycle, the entry itself included)
  is rendered as a pair without nested dependencies.
- A nil fingerprint in a compiled-package request is not modelled:
  compiled entries carry a fingerprint string.
- Source matching keeps request order and duplicates. No test orders a
  stored-package answer differently from the request.
- `DnsManager.canonical` is not part of this model. It is a function
  parameter of the deployment repository, fixed when the repository is
  built.
- The database transaction around the collision scan and the creation
  (deployment_repo.rb:10), and concurrent registrations, are not modelled.
  The method runs alone on the stored names.
- A deployment is identified by its position in the stored names. Its other
  columns are not modelled.
- The blobstore client (`azcli_blobstore_client.rb`) is not part of this
  model. Source matching only reads whether a package has a source blob.
