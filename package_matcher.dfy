/**
 * The two queries the director answers during a release upload, so that the
 * client can skip sending packages the director already holds:
 *
 *  - `/matches` (SourceMatches): which of the requested fingerprints are
 *    backed by a stored package of the release with a source blob;
 *  - `/matches_compiled` (CompiledMatches): which manifest entries already
 *    have a compiled package for the same package, the same stemcell and a
 *    byte-equal dependency key.
 *
 * Both are read-only and both answer nothing for a release version whose
 * last upload did not complete.
 */
module PackageMatcher {
  import opened Wrappers
  import opened Records
  import opened Sequences
  import opened DependencyKey

  /** The release-version gate: the named release version exists and its last upload did not complete. */
  predicate Dirty(store: Store)
  {
    store.releaseVersion.Some? && !store.releaseVersion.value.updateCompleted
  }

  // ---------------------------------------------------------------------
  // Source matching (`/matches`)
  // ---------------------------------------------------------------------

  /** Some stored package carries fingerprint `f` and has a source blob. */
  function HasSourceBlob(packages: seq<Package>, f: string): (b: bool)
    ensures b <==> exists i :: 0 <= i < |packages| && packages[i].fingerprint == Some(f) && packages[i].hasBlob
  {
    if packages == [] then false
    else if packages[0].fingerprint == Some(f) && packages[0].hasBlob then true
    else
      assert forall i | 1 <= i < |packages| :: packages[1..][i - 1] == packages[i];
      HasSourceBlob(packages[1..], f)
  }

  /** The requested fingerprints that are not nil, in request order. */
  function Present(request: seq<Option<string>>): seq<string>
  {
    if request == [] then []
    else if request[0].Some? then [request[0].value] + Present(request[1..])
    else Present(request[1..])
  }

  /** The non-nil requested fingerprints that are backed by a source blob, in request order. */
  function Backed(packages: seq<Package>, request: seq<Option<string>>): seq<string>
  {
    if request == [] then []
    else
      var rest := Backed(packages, request[1..]);
      match request[0]
      case Some(f) => if HasSourceBlob(packages, f) then [f] + rest else rest
      case None => rest
  }

  /** The answer to `/matches`. */
  function SourceMatches(store: Store, request: seq<Option<string>>): (r: seq<string>)
    ensures Dirty(store) ==> r == []
  {
    if Dirty(store) then [] else Backed(store.packages, request)
  }

  lemma {:induction false} BackedMembership(packages: seq<Package>, request: seq<Option<string>>, f: string)
    ensures f in Backed(packages, request) <==> Some(f) in request && HasSourceBlob(packages, f)
  {
    if request != [] {
      BackedMembership(packages, request[1..], f);
      assert request == [request[0]] + request[1..];
    }
  }

  /**
   * A fingerprint is reported exactly when the gate is open, it was
   * requested (not as nil) and a stored package with a source blob carries it.
   */
  lemma SourceMatchesMembership(store: Store, request: seq<Option<string>>, f: string)
    ensures f in SourceMatches(store, request)
            <==> !Dirty(store) && Some(f) in request && HasSourceBlob(store.packages, f)
  {
    BackedMembership(store.packages, request, f);
  }

  lemma {:induction false} BackedCount(packages: seq<Package>, request: seq<Option<string>>, f: string)
    ensures multiset(Backed(packages, request))[f]
            == if HasSourceBlob(packages, f) then multiset(request)[Some(f)] else 0
  {
    if request != [] {
      BackedCount(packages, request[1..], f);
      assert request == [request[0]] + request[1..];
      var rest := Backed(packages, request[1..]);
      var head := if request[0].Some? && HasSourceBlob(packages, request[0].value) then [request[0].value] else [];
      assert Backed(packages, request) == head + rest;
      assert multiset(head + rest)[f] == multiset(head)[f] + multiset(rest)[f];
      assert multiset(request)[Some(f)] == multiset([request[0]])[Some(f)] + multiset(request[1..])[Some(f)];
    }
  }

  /** Each backed fingerprint is reported as many times as it was requested. */
  lemma SourceMatchesCount(store: Store, request: seq<Option<string>>, f: string)
    requires !Dirty(store)
    ensures multiset(SourceMatches(store, request))[f]
            == if HasSourceBlob(store.packages, f) then multiset(request)[Some(f)] else 0
  {
    BackedCount(store.packages, request, f);
  }

  /** Reported fingerprints keep the order of the request. */
  lemma {:induction false} SourceMatchesOrder(store: Store, request: seq<Option<string>>)
    ensures IsSubsequence(SourceMatches(store, request), Present(request))
  {
    if !Dirty(store) && request != [] {
      SourceMatchesOrder(store, request[1..]);
      var rest := Backed(store.packages, request[1..]);
      match request[0]
      case Some(f) =>
        var p := [f] + Present(request[1..]);
        assert p[1..] == Present(request[1..]);
        if HasSourceBlob(store.packages, f) {
          assert ([f] + rest)[1..] == rest;
        } else {
          SubsequenceOfTail(rest, Present(request[1..]), f);
        }
      case None =>
    }
  }

  /** A nil fingerprint anywhere in the request changes nothing in the answer. */
  lemma {:induction false} SourceMatchesIgnoresNil(store: Store, a: seq<Option<string>>, b: seq<Option<string>>)
    ensures SourceMatches(store, a + [None] + b) == SourceMatches(store, a + b)
  {
    if !Dirty(store) {
      if a == [] {
        assert (a + [None] + b)[1..] == b;
        assert a + b == b;
      } else {
        SourceMatchesIgnoresNil(store, a[1..], b);
        assert (a + [None] + b)[0] == a[0];
        assert (a + [None] + b)[1..] == a[1..] + [None] + b;
        assert (a + b)[1..] == a[1..] + b;
      }
    }
  }

  // ---------------------------------------------------------------------
  // Compiled-package matching (`/matches_compiled`)
  // ---------------------------------------------------------------------

  /** Some entry of the request carries fingerprint `f` under a name other than `name`. */
  function ClaimedUnderOtherName(entries: seq<CompiledEntry>, f: string, name: string): (b: bool)
    ensures b <==> exists i :: 0 <= i < |entries| && entries[i].fingerprint == f && entries[i].name != name
  {
    if entries == [] then false
    else if entries[0].fingerprint == f && entries[0].name != name then true
    else
      assert forall i | 1 <= i < |entries| :: entries[1..][i - 1] == entries[i];
      ClaimedUnderOtherName(entries[1..], f, name)
  }

  /** The package record the lookup by (name, version, fingerprint) selects. */
  predicate Identifies(p: Package, name: string, version: string, f: string)
  {
    p.name == name && p.version == version && p.fingerprint == Some(f)
  }

  /** The first stored package with this name, version and fingerprint. */
  function FindPackage(packages: seq<Package>, name: string, version: string, f: string): (r: Option<nat>)
    ensures r.Some? ==> r.value < |packages| && Identifies(packages[r.value], name, version, f)
    ensures r.Some? ==> forall j | 0 <= j < r.value :: !Identifies(packages[j], name, version, f)
    ensures r.None? ==> forall j | 0 <= j < |packages| :: !Identifies(packages[j], name, version, f)
  {
    if packages == [] then None
    else if Identifies(packages[0], name, version, f) then Some(0)
    else
      assert forall j | 1 <= j < |packages| :: packages[1..][j - 1] == packages[j];
      match FindPackage(packages[1..], name, version, f)
      case None => None
      case Some(i) => Some(i + 1)
  }

  /** A compiled package of package `pkgIndex` for `stemcell` with dependency key `key` is stored. */
  function HasCompiled(compiled: seq<CompiledPackage>, pkgIndex: nat, stemcell: Stemcell, key: string): (b: bool)
    ensures b <==> exists i :: 0 <= i < |compiled| && compiled[i] == CompiledPackage(pkgIndex, stemcell, key)
  {
    if compiled == [] then false
    else if compiled[0] == CompiledPackage(pkgIndex, stemcell, key) then true
    else
      assert forall i | 1 <= i < |compiled| :: compiled[1..][i - 1] == compiled[i];
      HasCompiled(compiled[1..], pkgIndex, stemcell, key)
  }

  /**
   * Entry `e` of the request `entries` (indexed by `index`) has a stored
   * compiled package: its fingerprint is claimed under no other name, its
   * dependency key is defined, its package resolves, and a compiled package
   * of that package for the entry's stemcell carries that very key.
   */
  predicate EntryMatches(store: Store, entries: seq<CompiledEntry>, index: map<string, CompiledEntry>, e: CompiledEntry)
  {
    && !ClaimedUnderOtherName(entries, e.fingerprint, e.name)
    && Key(index, e).Some?
    && FindPackage(store.packages, e.name, e.version, e.fingerprint).Some?
    && HasCompiled(store.compiled, FindPackage(store.packages, e.name, e.version, e.fingerprint).value,
                   e.stemcell, Key(index, e).value)
  }

  /** The fingerprints of the matching entries among `es`, in manifest order. */
  function MatchedFingerprints(store: Store, entries: seq<CompiledEntry>, index: map<string, CompiledEntry>, es: seq<CompiledEntry>): seq<string>
  {
    if es == [] then []
    else
      var rest := MatchedFingerprints(store, entries, index, es[1..]);
      if EntryMatches(store, entries, index, es[0]) then [es[0].fingerprint] + rest else rest
  }

  /** The answer to `/matches_compiled`. */
  function CompiledMatches(store: Store, entries: seq<CompiledEntry>): (r: seq<string>)
    ensures Dirty(store) ==> r == []
    ensures NoDup(r)
  {
    if Dirty(store) then [] else Dedup(MatchedFingerprints(store, entries, Index(entries), entries))
  }

  lemma {:induction false} MatchedFingerprintsMembership(store: Store, entries: seq<CompiledEntry>, index: map<string, CompiledEntry>, es: seq<CompiledEntry>, f: string)
    ensures f in MatchedFingerprints(store, entries, index, es)
            <==> exists i :: 0 <= i < |es| && es[i].fingerprint == f && EntryMatches(store, entries, index, es[i])
  {
    if es != [] {
      MatchedFingerprintsMembership(store, entries, index, es[1..], f);
      assert forall i | 1 <= i < |es| :: es[1..][i - 1] == es[i];
    }
  }

  /**
   * A fingerprint is reported exactly when the gate is open and some entry
   * carrying it matches.
   */
  lemma CompiledMatchesMembership(store: Store, entries: seq<CompiledEntry>, f: string)
    ensures f in CompiledMatches(store, entries)
            <==> !Dirty(store) && exists i :: 0 <= i < |entries| && entries[i].fingerprint == f
                                         && EntryMatches(store, entries, Index(entries), entries[i])
  {
    var m := MatchedFingerprints(store, entries, Index(entries), entries);
    MatchedFingerprintsMembership(store, entries, Index(entries), entries, f);
    if !Dirty(store) {
      var r := Dedup(m);
      if f in m {
        var k :| 0 <= k < |m| && m[k] == f;
        assert m[k] in r;
      }
      if f in r {
        var k :| 0 <= k < |r| && r[k] == f;
        assert r[k] in m;
      }
    }
  }

  /**
   * Reported fingerprints come in manifest order: ordered by the first
   * matching entry that carries them.
   */
  lemma CompiledMatchesOrder(store: Store, entries: seq<CompiledEntry>)
    requires !Dirty(store)
    ensures var m := MatchedFingerprints(store, entries, Index(entries), entries);
            var r := CompiledMatches(store, entries);
            forall i, j | 0 <= i < j < |r| :: FirstIndex(m, r[i]) < FirstIndex(m, r[j])
  {
    DedupOrder(MatchedFingerprints(store, entries, Index(entries), entries));
  }

  /**
   * Every reported fingerprint is backed: an entry carrying it resolves to a
   * stored package with its name, version and fingerprint, and a compiled
   * package of that package has the entry's stemcell and its dependency key.
   */
  lemma CompiledMatchSound(store: Store, entries: seq<CompiledEntry>, f: string) returns (i: nat, p: nat, c: nat)
    requires f in CompiledMatches(store, entries)
    ensures i < |entries| && entries[i].fingerprint == f
    ensures p < |store.packages| && Identifies(store.packages[p], entries[i].name, entries[i].version, f)
    ensures c < |store.compiled| && store.compiled[c].pkgIndex == p
    ensures store.compiled[c].stemcell == entries[i].stemcell
    ensures Key(Index(entries), entries[i]) == Some(store.compiled[c].depKey)
  {
    var index := Index(entries);
    var m := MatchedFingerprints(store, entries, index, entries);
    assert f in m by {
      var k :| 0 <= k < |CompiledMatches(store, entries)| && CompiledMatches(store, entries)[k] == f;
    }
    MatchedFingerprintsMembership(store, entries, index, entries, f);
    i :| 0 <= i < |entries| && entries[i].fingerprint == f && EntryMatches(store, entries, index, entries[i]);
    var e := entries[i];
    p := FindPackage(store.packages, e.name, e.version, e.fingerprint).value;
    c :| 0 <= c < |store.compiled| && store.compiled[c] == CompiledPackage(p, e.stemcell, Key(index, e).value);
  }

  /**
   * A fingerprint the request carries under two different names is never
   * reported, whatever the store holds.
   */
  lemma AmbiguousFingerprintSuppressed(store: Store, entries: seq<CompiledEntry>, i: nat, j: nat)
    requires i < |entries| && j < |entries|
    requires entries[i].fingerprint == entries[j].fingerprint && entries[i].name != entries[j].name
    ensures entries[i].fingerprint !in CompiledMatches(store, entries)
  {
    var f := entries[i].fingerprint;
    CompiledMatchesMembership(store, entries, f);
    forall k | 0 <= k < |entries| && entries[k].fingerprint == f
      ensures !EntryMatches(store, entries, Index(entries), entries[k])
    {
      if entries[k].name == entries[i].name {
        assert ClaimedUnderOtherName(entries, f, entries[k].name) by { assert entries[j].fingerprint == f; }
      } else {
        assert ClaimedUnderOtherName(entries, f, entries[k].name) by { assert entries[i].fingerprint == f; }
      }
    }
  }

  /** An entry whose stemcell no stored compiled package has is never matched. */
  lemma ForeignStemcellNeverMatches(store: Store, entries: seq<CompiledEntry>, e: CompiledEntry)
    requires forall c | 0 <= c < |store.compiled| :: store.compiled[c].stemcell != e.stemcell
    ensures !EntryMatches(store, entries, Index(entries), e)
  {
  }

  /**
   * Key equality is exact: an entry whose declared dependencies differ
   * (even only in order) from those of an entry a compiled package was
   * matched for cannot match that compiled package.
   */
  lemma KeyMatchIsExact(store: Store, entries: seq<CompiledEntry>, e: CompiledEntry, e2: CompiledEntry, c: nat)
    requires PlainIndex(Index(entries))
    requires c < |store.compiled| && Key(Index(entries), e) == Some(store.compiled[c].depKey)
    requires e2.deps != e.deps
    ensures Key(Index(entries), e2) != Some(store.compiled[c].depKey)
  {
    if Key(Index(entries), e2) == Some(store.compiled[c].depKey) {
      KeyDeterminesDeclaredDeps(Index(entries), e, Index(entries), e2);
    }
  }
}
