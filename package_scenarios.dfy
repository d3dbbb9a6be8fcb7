/**
 * The fixtures and expectations of the packages controller's tests, as
 * lemmas over the model: each scenario's store and request, and the list
 * of fingerprints the director answers with.
 */
module PackageScenarios {
  import opened Wrappers
  import opened Records
  import opened Sequences
  import opened DependencyKey
  import opened PackageMatcher

  const F1 := "fake-pkg1-fingerprint"
  const F2 := "fake-pkg2-fingerprint"
  const F3 := "fake-pkg3-fingerprint"
  const F4 := "fake-pkg4-fingerprint"
  const F5 := "fake-pkg5-fingerprint"

  const Completed := Some(ReleaseVersion("1", true))
  const Dirty1 := Some(ReleaseVersion("1", false))

  // ---------------------------------------------------------------------
  // `/matches`
  // ---------------------------------------------------------------------

  const Request123: seq<Option<string>> := [Some(F1), Some(F2), Some(F3)]

  /** The test fingerprints are pairwise distinct (they differ in their ninth character). */
  lemma FingerprintsDistinct()
    ensures F1 != F2 && F1 != F3 && F1 != F4 && F1 != F5 && F2 != F3 && F2 != F4 && F2 != F5
    ensures F3 != F4 && F3 != F5 && F4 != F5
  {
    assert F1[8] == '1' && F2[8] == '2' && F3[8] == '3' && F4[8] == '4' && F5[8] == '5';
  }

  /** `/matches` over the test request, one requested fingerprint at a time. */
  lemma BackedRequest123(packages: seq<Package>)
    ensures Backed(packages, Request123)
            == (if HasSourceBlob(packages, F1) then [F1] else [])
             + ((if HasSourceBlob(packages, F2) then [F2] else [])
             + (if HasSourceBlob(packages, F3) then [F3] else []))
  {
    var r: seq<Option<string>> := [Some(F3)];
    assert r[1..] == [];
    assert Backed(packages, r) == (if HasSourceBlob(packages, F3) then [F3] else []);
    assert Request123[1..][1..] == r;
    assert Request123[1..] == [Some(F2), Some(F3)];
  }

  /**
   * Packages 1 and 3 are stored with their source blobs (under any versions);
   * nothing carries fingerprint 2. The packages made without an explicit
   * blob id are taken to have one, as the record factory fills it in.
   */
  lemma SourceBlobsMatch(v1: string, v3: string)
    ensures SourceMatches(Store(Completed, [Package("fake-pkg1", v1, Some(F1), true),
                                            Package("fake-pkg3", v3, Some(F3), true)], []),
                          Request123) == [F1, F3]
  {
    FingerprintsDistinct();
    var packages := [Package("fake-pkg1", v1, Some(F1), true),
                     Package("fake-pkg3", v3, Some(F3), true)];
    assert packages[1..] == [packages[1]];
    assert HasSourceBlob(packages, F1);
    assert !HasSourceBlob(packages, F2);
    assert HasSourceBlob(packages, F3);
    BackedRequest123(packages);
  }

  /** A stored package whose fingerprint was not requested matches nothing. */
  lemma SourceNoMatch()
    ensures SourceMatches(Store(Completed, [Package("fake-pkg5", "fake-pkg5-sha", Some(F5), true)], []),
                          Request123) == []
  {
    FingerprintsDistinct();
    var packages := [Package("fake-pkg5", "fake-pkg5-sha", Some(F5), true)];
    assert !HasSourceBlob(packages, F1) && !HasSourceBlob(packages, F2) && !HasSourceBlob(packages, F3);
    BackedRequest123(packages);
  }

  /** A dirty release version answers nothing, although package 1 is stored. */
  lemma SourceDirtyVersion()
    ensures SourceMatches(Store(Dirty1, [Package("fake-pkg1", "fake-pkg1-sha", Some(F1), true)], []),
                          Request123) == []
  {
  }

  /** A nil requested fingerprint is skipped, and a stored nil fingerprint matches nothing. */
  lemma SourceNilFingerprints()
    ensures SourceMatches(Store(Completed, [Package("fake-pkg1", "fakepkg1sha", Some(F1), true),
                                            Package("fake-pkg2", "fakepkg2sha", None, true),
                                            Package("fake-pkg3", "fakepkg3sha", Some(F3), true)], []),
                          [None, Some(F2), Some(F3)]) == [F3]
  {
    FingerprintsDistinct();
    var packages := [Package("fake-pkg1", "fakepkg1sha", Some(F1), true),
                     Package("fake-pkg2", "fakepkg2sha", None, true),
                     Package("fake-pkg3", "fakepkg3sha", Some(F3), true)];
    assert !HasSourceBlob(packages, F2);
    assert HasSourceBlob(packages, F3);
    var r: seq<Option<string>> := [Some(F3)];
    assert r[1..] == [];
    assert Backed(packages, r) == [F3];
    assert Backed(packages, [Some(F2), Some(F3)]) == [F3] by {
      assert [Some(F2), Some(F3)][1..] == r;
    }
    var request: seq<Option<string>> := [None, Some(F2), Some(F3)];
    assert request[1..][1..] == r;
    assert request[1..] == [Some(F2), Some(F3)];
  }

  /**
   * A package stored without its source blob is not reported. Package 2 is
   * the blob-less package the scenario is named for; the fixture itself
   * stores only packages 1 and 3, so here it is supplied explicitly.
   */
  lemma SourceWithoutBlob()
    ensures SourceMatches(Store(Completed, [Package("fake-pkg1", "fake-pkg1-version", Some(F1), true),
                                            Package("fake-pkg2", "fake-pkg2-version", Some(F2), false),
                                            Package("fake-pkg3", "fake-pkg3-version", Some(F3), true)], []),
                          Request123) == [F1, F3]
  {
    FingerprintsDistinct();
    var packages := [Package("fake-pkg1", "fake-pkg1-version", Some(F1), true),
                     Package("fake-pkg2", "fake-pkg2-version", Some(F2), false),
                     Package("fake-pkg3", "fake-pkg3-version", Some(F3), true)];
    assert HasSourceBlob(packages, F1);
    assert !HasSourceBlob(packages, F2);
    assert HasSourceBlob(packages, F3);
    BackedRequest123(packages);
  }

  // ---------------------------------------------------------------------
  // `/matches_compiled`
  // ---------------------------------------------------------------------

  const Trusty3000 := Stemcell("ubuntu-trusty", "3000")
  const Trusty2999 := Stemcell("ubuntu-trusty", "2999")
  const Centos3001 := Stemcell("centos-7", "3001")

  /** Packages 2 and 3, each without dependencies, as they appear inside a key. */
  const Pair2 := "[\"" + "fake-pkg2" + "\",\"" + "fake-pkg2-version" + "\"]"
  const Pair3 := "[\"" + "fake-pkg3" + "\",\"" + "fake-pkg3-version" + "\"]"

  /**
   * The dependency key of package 1 built against packages 2 and 3:
   * `[["fake-pkg2","fake-pkg2-version"],["fake-pkg3","fake-pkg3-version"]]`.
   */
  const Key1 := "[" + Pair2 + "," + Pair3 + "]"

  /**
   * The dependency key of package 4 built against package 1, itself built
   * against packages 2 and 3: `[["fake-pkg1","fake-pkg1-version",` Key1 `]]`.
   */
  const Key4 := "[" + (Head1 + Key1 + "]") + "]"

  /** Package 1's name and version as they open its triple inside a key. */
  const Head1 := "[\"" + "fake-pkg1" + "\",\"" + "fake-pkg1-version" + "\","

  const Packages1234 := [
    Package("fake-pkg1", "fake-pkg1-version", Some(F1), true),
    Package("fake-pkg2", "fake-pkg2-version", Some(F2), true),
    Package("fake-pkg3", "fake-pkg3-version", Some(F3), true),
    Package("fake-pkg4", "fake-pkg4-version", Some(F4), true)
  ]

  const Compiled14 := [
    CompiledPackage(0, Trusty3000, Key1),
    CompiledPackage(3, Trusty3000, Key4)
  ]

  /** The store of the compiled-package tests; their requests name no release version. */
  const CompiledStore := Store(None, Packages1234, Compiled14)

  /** The same store with `renamed-fake-pkg1` and its compiled package for stemcell 2999 added. */
  const RenamedStore := Store(None,
    Packages1234 + [Package("renamed-fake-pkg1", "fake-pkg1-version", Some(F1), true)],
    Compiled14 + [CompiledPackage(4, Trusty2999, Key1)])

  function Entry1(s: Stemcell, deps: seq<string>): CompiledEntry
  {
    CompiledEntry("fake-pkg1", "fake-pkg1-version", F1, s, deps)
  }

  function Entry2(s: Stemcell): CompiledEntry
  {
    CompiledEntry("fake-pkg2", "fake-pkg2-version", F2, s, [])
  }

  function Entry3(s: Stemcell): CompiledEntry
  {
    CompiledEntry("fake-pkg3", "fake-pkg3-version", F3, s, [])
  }

  const Entry4 := CompiledEntry("fake-pkg4", "fake-pkg4-version", F4, Trusty3000, ["fake-pkg1"])

  const RenamedEntry1 := CompiledEntry("renamed-fake-pkg1", "fake-pkg1-version", F1, Trusty3000, ["fake-pkg2", "fake-pkg3"])

  /** The test package names are pairwise distinct (they differ in their ninth character). */
  lemma NamesDistinct()
    ensures "fake-pkg1" != "fake-pkg2" && "fake-pkg1" != "fake-pkg3" && "fake-pkg1" != "fake-pkg4"
    ensures "fake-pkg2" != "fake-pkg3" && "fake-pkg2" != "fake-pkg4" && "fake-pkg3" != "fake-pkg4"
  {
    assert "fake-pkg1"[8] == '1' && "fake-pkg2"[8] == '2' && "fake-pkg3"[8] == '3' && "fake-pkg4"[8] == '4';
  }

  /** An index in which packages 2 and 3 have no dependencies. */
  predicate LeavesIndexed(index: map<string, CompiledEntry>)
  {
    && "fake-pkg2" in index && index["fake-pkg2"].version == "fake-pkg2-version" && index["fake-pkg2"].deps == []
    && "fake-pkg3" in index && index["fake-pkg3"].version == "fake-pkg3-version" && index["fake-pkg3"].deps == []
  }

  /**
   * One step of the closure: a first dependency `d` without dependencies of
   * its own, off the path, followed by dependencies with closure `rest`.
   */
  lemma LeafStep(index: map<string, CompiledEntry>, path: set<string>, d: string, deps: seq<string>, rest: seq<DepTree>)
    requires d in index && index[d].deps == [] && d !in path
    requires Closure(index, path, deps) == Some(rest)
    ensures Closure(index, path, [d] + deps) == Some([DepTree(d, index[d].version, [])] + rest)
  {
    var ds := [d] + deps;
    assert ds[0] == d && ds[1..] == deps;
    assert Closure(index, path + {d}, []) == Some([]);
  }

  const Leaf2 := DepTree("fake-pkg2", "fake-pkg2-version", [])
  const Leaf3 := DepTree("fake-pkg3", "fake-pkg3-version", [])

  /** The two leaves render as the key stored for package 1. */
  lemma Key1Rendering()
    ensures Render([Leaf2, Leaf3]) == Key1
  {
    PairRendering(Leaf2, Leaf3);
    Leaf2Rendering();
    Leaf3Rendering();
  }

  lemma Leaf2Rendering()
    ensures RenderTree(Leaf2) == Pair2
  {
    LeafRendering(Leaf2);
    PairText("fake-pkg2", "fake-pkg2-version", Pair2);
  }

  lemma Leaf3Rendering()
    ensures RenderTree(Leaf3) == Pair3
  {
    LeafRendering(Leaf3);
    PairText("fake-pkg3", "fake-pkg3-version", Pair3);
  }

  /** A quoted name and version after an opening bracket, as text. */
  lemma QuotedPrefix(n: string, v: string)
    ensures "[" + Quote(n) + "," + Quote(v) == "[\"" + n + "\",\"" + v + "\""
  {
    AppendAssoc("[", "\"", n);
    assert "[" + Quote(n) == "[\"" + n + "\"" by {
      AppendAssoc("[", "\"" + n, "\"");
    }
    AppendAssoc("[\"" + n + "\"", ",", "\"" + v + "\"");
    AppendAssoc("[\"" + n, "\"", ",");
    AppendAssoc("[\"" + n + "\",", "\"" + v, "\"");
    AppendAssoc("[\"" + n + "\",", "\"", v);
    AppendAssoc("[\"" + n, "\",", "\"");
  }

  /** A dependency without dependencies, as text. */
  lemma PairText(n: string, v: string, text: string)
    requires text == "[\"" + n + "\",\"" + v + "\"]"
    ensures "[" + Quote(n) + "," + Quote(v) + "]" == text
  {
    QuotedPrefix(n, v);
    AppendAssoc("[\"" + n + "\",\"" + v, "\"", "]");
  }

  /** The opening of a dependency with dependencies, as text. */
  lemma HeadText(n: string, v: string, text: string)
    requires text == "[\"" + n + "\",\"" + v + "\","
    ensures "[" + Quote(n) + "," + Quote(v) + "," == text
  {
    QuotedPrefix(n, v);
    AppendAssoc("[\"" + n + "\",\"" + v, "\"", ",");
  }

  /** Two dependencies render as their two renderings, comma-separated, in brackets. */
  lemma PairRendering(x: DepTree, y: DepTree)
    ensures Render([x, y]) == "[" + RenderTree(x) + "," + RenderTree(y) + "]"
  {
    assert [x, y][1..] == [y];
    var a, b := RenderTree(x), RenderTree(y);
    assert RenderItems([x, y]) == a + "," + b;
    assert "[" + (a + "," + b) + "]" == "[" + a + "," + b + "]";
  }

  /** A dependency without dependencies renders as its quoted name and version. */
  lemma LeafRendering(t: DepTree)
    requires t.deps == []
    ensures RenderTree(t) == "[" + Quote(t.name) + "," + Quote(t.version) + "]"
  {
  }

  /** Off the path, packages 2 and 3 close to the two leaves. */
  lemma LeavesClosure(index: map<string, CompiledEntry>, path: set<string>)
    requires LeavesIndexed(index)
    requires "fake-pkg2" !in path && "fake-pkg3" !in path
    ensures Closure(index, path, ["fake-pkg2", "fake-pkg3"]) == Some([Leaf2, Leaf3])
  {
    LeafStep(index, path, "fake-pkg3", [], []);
    assert ["fake-pkg3"] + [] == ["fake-pkg3"];
    assert [DepTree("fake-pkg3", index["fake-pkg3"].version, [])] + [] == [Leaf3];
    LeafStep(index, path, "fake-pkg2", ["fake-pkg3"], [Leaf3]);
    assert ["fake-pkg2"] + ["fake-pkg3"] == ["fake-pkg2", "fake-pkg3"];
    assert [Leaf2] + [Leaf3] == [Leaf2, Leaf3];
  }

  /** Package 1 declared against packages 2 and 3 has key `Key1`. */
  lemma Pkg1Key(index: map<string, CompiledEntry>, e: CompiledEntry)
    requires LeavesIndexed(index)
    requires e.name == "fake-pkg1" && e.deps == ["fake-pkg2", "fake-pkg3"]
    ensures Key(index, e) == Some(Key1)
  {
    NamesDistinct();
    LeavesClosure(index, {"fake-pkg1"});
    Key1Rendering();
  }

  /** Package 1 over the two leaves renders as the key stored for package 4. */
  lemma Key4Rendering()
    ensures Render([DepTree("fake-pkg1", "fake-pkg1-version", [Leaf2, Leaf3])]) == Key4
  {
    var t1 := DepTree("fake-pkg1", "fake-pkg1-version", [Leaf2, Leaf3]);
    Key1Rendering();
    NodeRendering(t1);
    SingleRendering(t1);
    Key4Text(Key1);
  }

  /** A dependency with dependencies renders its name, its version and their rendering. */
  lemma NodeRendering(t: DepTree)
    requires t.deps != []
    ensures RenderTree(t) == "[" + Quote(t.name) + "," + Quote(t.version) + "," + Render(t.deps) + "]"
  {
  }

  /** A one-element list renders as that element in brackets. */
  lemma SingleRendering(t: DepTree)
    ensures Render([t]) == "[" + RenderTree(t) + "]"
  {
  }

  lemma Key4Text(k: string)
    ensures "[" + ("[" + Quote("fake-pkg1") + "," + Quote("fake-pkg1-version") + "," + k + "]") + "]"
            == "[" + (Head1 + k + "]") + "]"
  {
    HeadText("fake-pkg1", "fake-pkg1-version", Head1);
  }

  /** Package 4 declared against package 1 has key `Key4`. */
  lemma Pkg4Key(index: map<string, CompiledEntry>, e: CompiledEntry)
    requires LeavesIndexed(index)
    requires "fake-pkg1" in index && index["fake-pkg1"].version == "fake-pkg1-version"
    requires index["fake-pkg1"].deps == ["fake-pkg2", "fake-pkg3"]
    requires e.name == "fake-pkg4" && e.deps == ["fake-pkg1"]
    ensures Key(index, e) == Some(Key4)
  {
    NamesDistinct();
    var t1 := DepTree("fake-pkg1", "fake-pkg1-version", [Leaf2, Leaf3]);
    LeavesClosure(index, {"fake-pkg4"} + {"fake-pkg1"});
    assert Closure(index, {"fake-pkg4"}, []) == Some([]);
    assert Closure(index, {"fake-pkg4"}, e.deps) == Some([t1]) by {
      assert e.deps[0] == "fake-pkg1" && e.deps[1..] == [];
      assert "fake-pkg1" !in {"fake-pkg4"};
      assert Closure(index, {"fake-pkg4"}, e.deps[1..]) == Some([]);
      assert [DepTree("fake-pkg1", index["fake-pkg1"].version, [Leaf2, Leaf3])] + [] == [t1];
    }
    Key4Rendering();
  }

  // ---------------------------------------------------------------------
  // The compiled-package tests
  // ---------------------------------------------------------------------

  /** Packages 1, 2 and 3 for one stemcell, package 1 declared against `deps1`. */
  function Leaves(s: Stemcell, deps1: seq<string>): seq<CompiledEntry>
  {
    [Entry1(s, deps1), Entry2(s), Entry3(s)]
  }

  /** Package 1 (against packages 2 and 3) for stemcell `s1`, its leaves, and package 4 against package 1. */
  function RecursiveRequest(s1: Stemcell): seq<CompiledEntry>
  {
    [Entry1(s1, Deps1), Entry2(s1), Entry3(s1), Entry4]
  }

  const Deps1 := ["fake-pkg2", "fake-pkg3"]

  /** MatchedFingerprints peels one entry off the front. */
  lemma MatchedCons(store: Store, entries: seq<CompiledEntry>, index: map<string, CompiledEntry>, es: seq<CompiledEntry>)
    requires es != []
    ensures MatchedFingerprints(store, entries, index, es)
            == (if EntryMatches(store, entries, index, es[0]) then [es[0].fingerprint] else [])
             + MatchedFingerprints(store, entries, index, es[1..])
  {
    if !EntryMatches(store, entries, index, es[0]) {
      assert [] + MatchedFingerprints(store, entries, index, es[1..]) == MatchedFingerprints(store, entries, index, es[1..]);
    }
  }

  /** MatchedFingerprints over three entries, one entry at a time. */
  lemma Matched3(store: Store, entries: seq<CompiledEntry>, index: map<string, CompiledEntry>, es: seq<CompiledEntry>)
    requires |es| == 3
    ensures MatchedFingerprints(store, entries, index, es)
            == (if EntryMatches(store, entries, index, es[0]) then [es[0].fingerprint] else [])
             + (if EntryMatches(store, entries, index, es[1]) then [es[1].fingerprint] else [])
             + (if EntryMatches(store, entries, index, es[2]) then [es[2].fingerprint] else [])
  {
    MatchedCons(store, entries, index, es);
    MatchedCons(store, entries, index, es[1..]);
    MatchedCons(store, entries, index, es[2..]);
    assert es[1..][1..] == es[2..] && es[2..][1..] == [];
  }

  lemma DedupOne(x: string)
    ensures Dedup([x]) == [x]
  {
    assert [x][..0] == [];
  }

  /** Entry `i` is the last with its name, so the index maps that name to it. */
  lemma IndexedAt(entries: seq<CompiledEntry>, i: nat)
    requires i < |entries| && LastWithName(entries, i)
    ensures entries[i].name in Index(entries) && Index(entries)[entries[i].name] == entries[i]
  {
  }

  /** Packages 2 and 3 find their stored records, at positions 1 and 2, in either test store. */
  lemma StoredLeaves(store: Store)
    requires store == CompiledStore || store == RenamedStore
    ensures FindPackage(store.packages, "fake-pkg2", "fake-pkg2-version", F2) == Some(1)
    ensures FindPackage(store.packages, "fake-pkg3", "fake-pkg3-version", F3) == Some(2)
  {
    NamesDistinct();
    assert Identifies(store.packages[1], "fake-pkg2", "fake-pkg2-version", F2);
    assert Identifies(store.packages[2], "fake-pkg3", "fake-pkg3-version", F3);
  }

  /** Neither test store holds a compiled package of the packages at positions 1 and 2. */
  lemma LeavesNotCompiled(store: Store, p: nat, s: Stemcell, key: string)
    requires store == CompiledStore || store == RenamedStore
    requires p == 1 || p == 2
    ensures !HasCompiled(store.compiled, p, s, key)
  {
    assert forall c | 0 <= c < |store.compiled| :: store.compiled[c].pkgIndex in {0, 3, 4};
  }

  /** Packages 2 and 3 have no compiled package in either test store, so their entries never match. */
  lemma LeafEntriesUnmatched(store: Store, entries: seq<CompiledEntry>, s: Stemcell)
    requires store == CompiledStore || store == RenamedStore
    ensures !EntryMatches(store, entries, Index(entries), Entry2(s))
    ensures !EntryMatches(store, entries, Index(entries), Entry3(s))
  {
    StoredLeaves(store);
    var k2 := Key(Index(entries), Entry2(s));
    if k2.Some? {
      LeavesNotCompiled(store, 1, s, k2.value);
    }
    var k3 := Key(Index(entries), Entry3(s));
    if k3.Some? {
      LeavesNotCompiled(store, 2, s, k3.value);
    }
  }

  /** Packages 1 and 4 find their first stored records, at positions 0 and 3, in either test store. */
  lemma StoredPackages(store: Store)
    requires store == CompiledStore || store == RenamedStore
    ensures FindPackage(store.packages, "fake-pkg1", "fake-pkg1-version", F1) == Some(0)
    ensures FindPackage(store.packages, "fake-pkg4", "fake-pkg4-version", F4) == Some(3)
  {
    NamesDistinct();
    assert Identifies(store.packages[3], "fake-pkg4", "fake-pkg4-version", F4);
  }

  /** In a request whose names are distinct, package 1 declared against packages 2 and 3 matches. */
  lemma Entry1Matches(store: Store, entries: seq<CompiledEntry>, i: nat)
    requires store == CompiledStore || store == RenamedStore
    requires i < |entries| && entries[i] == Entry1(Trusty3000, Deps1)
    requires !ClaimedUnderOtherName(entries, F1, "fake-pkg1")
    requires LeavesIndexed(Index(entries))
    ensures EntryMatches(store, entries, Index(entries), entries[i])
  {
    Pkg1Key(Index(entries), entries[i]);
    StoredPackages(store);
    assert store.compiled[0] == CompiledPackage(0, Trusty3000, Key1);
  }

  /** In the first test's request both leaves are indexed as declared and package 1's fingerprint is claimed once. */
  lemma LeavesRequestFacts()
    ensures LeavesIndexed(Index(Leaves(Trusty3000, Deps1)))
    ensures !ClaimedUnderOtherName(Leaves(Trusty3000, Deps1), F1, "fake-pkg1")
  {
    NamesDistinct();
    FingerprintsDistinct();
    var entries := Leaves(Trusty3000, Deps1);
    IndexedAt(entries, 1);
    IndexedAt(entries, 2);
  }

  /** The first test: package 1 built against packages 2 and 3 is found compiled, its dependencies are not. */
  lemma CompiledWithDependencies(store: Store, entries: seq<CompiledEntry>)
    requires store == CompiledStore && entries == Leaves(Trusty3000, Deps1)
    ensures CompiledMatches(store, entries) == [F1]
  {
    var m := [F1];
    assert MatchedFingerprints(store, entries, Index(entries), entries) == m by {
      LeavesRequestFacts();
      Entry1Matches(store, entries, 0);
      LeafEntriesUnmatched(store, entries, Trusty3000);
      Matched3(store, entries, Index(entries), entries);
    }
    AnswerOf(store, entries, m);
    DedupOne(F1);
  }

  /** Matching is entry by entry: the answer for `a + b` is the answer for `a`, then for `b`. */
  lemma {:induction false} MatchedAppend(store: Store, entries: seq<CompiledEntry>, index: map<string, CompiledEntry>, a: seq<CompiledEntry>, b: seq<CompiledEntry>)
    ensures MatchedFingerprints(store, entries, index, a + b)
            == MatchedFingerprints(store, entries, index, a) + MatchedFingerprints(store, entries, index, b)
  {
    if a == [] {
      assert a + b == b;
    } else {
      MatchedAppend(store, entries, index, a[1..], b);
      assert (a + b)[0] == a[0] && (a + b)[1..] == a[1..] + b;
    }
  }

  /** MatchedFingerprints over one entry. */
  lemma MatchedOne(store: Store, entries: seq<CompiledEntry>, index: map<string, CompiledEntry>, e: CompiledEntry)
    ensures MatchedFingerprints(store, entries, index, [e])
            == if EntryMatches(store, entries, index, e) then [e.fingerprint] else []
  {
    assert [e][1..] == [];
  }

  /** With the gate open, the answer is the matched fingerprints without duplicates. */
  lemma AnswerOf(store: Store, entries: seq<CompiledEntry>, m: seq<string>)
    requires !Dirty(store) && MatchedFingerprints(store, entries, Index(entries), entries) == m
    ensures CompiledMatches(store, entries) == Dedup(m)
  {
  }

  lemma DedupTwo(x: string, y: string)
    requires x != y
    ensures Dedup([x, y]) == [x, y]
  {
    assert [x, y][..1] == [x];
    DedupOne(x);
  }

  /** An entry without declared dependencies has key `[]`. */
  lemma NoDepsKey(index: map<string, CompiledEntry>, e: CompiledEntry)
    requires e.deps == []
    ensures Key(index, e) == Some("[]")
  {
    assert RenderItems([]) == "";
    assert "[" + "" + "]" == "[]";
    assert Closure(index, {e.name}, e.deps) == Some([]);
  }

  /** The key `[]` is stored for no compiled package of the test stores. */
  lemma EmptyKeyNotStored(store: Store, p: nat, s: Stemcell)
    requires store == CompiledStore || store == RenamedStore
    ensures !HasCompiled(store.compiled, p, s, "[]")
  {
    assert Key1[1] == '[' && Key4[1] == '[';
    assert forall c | 0 <= c < |store.compiled| :: store.compiled[c].depKey in {Key1, Key4};
  }

  /** With no declared dependencies package 1 has key `[]`, which no compiled package of it carries. */
  lemma Entry1WithoutDepsUnmatched(store: Store, entries: seq<CompiledEntry>, s: Stemcell)
    requires store == CompiledStore || store == RenamedStore
    ensures !EntryMatches(store, entries, Index(entries), Entry1(s, []))
  {
    NoDepsKey(Index(entries), Entry1(s, []));
    StoredPackages(store);
    EmptyKeyNotStored(store, 0, s);
  }

  /** The second half of the first test: package 1 declared without dependencies is not found. */
  lemma CompiledWithoutDependencies(store: Store, entries: seq<CompiledEntry>)
    requires store == CompiledStore && entries == Leaves(Trusty3000, [])
    ensures CompiledMatches(store, entries) == []
  {
    var m: seq<string> := [];
    assert MatchedFingerprints(store, entries, Index(entries), entries) == m by {
      Entry1WithoutDepsUnmatched(store, entries, Trusty3000);
      LeafEntriesUnmatched(store, entries, Trusty3000);
      Matched3(store, entries, Index(entries), entries);
    }
    AnswerOf(store, entries, m);
  }

  /**
   * In a request that indexes package 1 (declared against packages 2 and 3)
   * and both leaves, package 4 declared against package 1 matches.
   */
  lemma Entry4Matches(store: Store, entries: seq<CompiledEntry>, i: nat)
    requires store == CompiledStore || store == RenamedStore
    requires i < |entries| && entries[i] == Entry4
    requires !ClaimedUnderOtherName(entries, F4, "fake-pkg4")
    requires LeavesIndexed(Index(entries))
    requires "fake-pkg1" in Index(entries) && Index(entries)["fake-pkg1"].version == "fake-pkg1-version"
    requires Index(entries)["fake-pkg1"].deps == Deps1
    ensures EntryMatches(store, entries, Index(entries), entries[i])
  {
    Pkg4Key(Index(entries), entries[i]);
    StoredPackages(store);
    assert store.compiled[1] == CompiledPackage(3, Trusty3000, Key4);
  }

  /** Names in the request are pairwise distinct, so each entry is the one indexed under its name. */
  lemma DistinctIndexed(entries: seq<CompiledEntry>)
    requires forall i, j | 0 <= i < j < |entries| :: entries[i].name != entries[j].name
    ensures forall i | 0 <= i < |entries| :: entries[i].name in Index(entries) && Index(entries)[entries[i].name] == entries[i]
  {
    forall i | 0 <= i < |entries|
      ensures entries[i].name in Index(entries) && Index(entries)[entries[i].name] == entries[i]
    {
      IndexedAt(entries, i);
    }
  }

  /** In the recursive test's request, package 1 and both leaves are indexed as declared. */
  lemma RecursiveRequestIndexed(s1: Stemcell)
    ensures var index := Index(RecursiveRequest(s1));
            && LeavesIndexed(index)
            && "fake-pkg1" in index && index["fake-pkg1"] == Entry1(s1, Deps1)
  {
    NamesDistinct();
    var entries := RecursiveRequest(s1);
    DistinctIndexed(entries);
    assert entries[1].name == "fake-pkg2" && entries[2].name == "fake-pkg3" && entries[0].name == "fake-pkg1";
  }

  /** In the recursive test's request no fingerprint is claimed under two names. */
  lemma RecursiveRequestUnclaimed(s1: Stemcell)
    ensures !ClaimedUnderOtherName(RecursiveRequest(s1), F1, "fake-pkg1")
    ensures !ClaimedUnderOtherName(RecursiveRequest(s1), F4, "fake-pkg4")
  {
    FingerprintsDistinct();
  }

  /** The request of the recursive test, with its entries' verdicts. */
  lemma RecursiveRequestVerdicts(store: Store, s1: Stemcell)
    requires store == CompiledStore || store == RenamedStore
    ensures var entries := RecursiveRequest(s1);
            && (s1 == Trusty3000 ==> EntryMatches(store, entries, Index(entries), Entry1(s1, Deps1)))
            && !EntryMatches(store, entries, Index(entries), Entry2(s1))
            && !EntryMatches(store, entries, Index(entries), Entry3(s1))
            && EntryMatches(store, entries, Index(entries), Entry4)
  {
    var entries := RecursiveRequest(s1);
    RecursiveRequestIndexed(s1);
    RecursiveRequestUnclaimed(s1);
    if s1 == Trusty3000 {
      Entry1Matches(store, entries, 0);
    }
    Entry4Matches(store, entries, 3);
    LeafEntriesUnmatched(store, entries, s1);
  }

  /** MatchedFingerprints over four entries, one entry at a time. */
  lemma Matched4(store: Store, entries: seq<CompiledEntry>, index: map<string, CompiledEntry>, es: seq<CompiledEntry>)
    requires |es| == 4
    ensures MatchedFingerprints(store, entries, index, es)
            == (if EntryMatches(store, entries, index, es[0]) then [es[0].fingerprint] else [])
             + (if EntryMatches(store, entries, index, es[1]) then [es[1].fingerprint] else [])
             + (if EntryMatches(store, entries, index, es[2]) then [es[2].fingerprint] else [])
             + (if EntryMatches(store, entries, index, es[3]) then [es[3].fingerprint] else [])
  {
    assert es == es[..3] + [es[3]];
    Matched3(store, entries, index, es[..3]);
    MatchedOne(store, entries, index, es[3]);
    MatchedAppend(store, entries, index, es[..3], [es[3]]);
  }

  /** The recursive test: package 1 and package 4, whose key nests package 1's, are both found. */
  lemma CompiledWithRecursiveDependency(store: Store, entries: seq<CompiledEntry>)
    requires store == CompiledStore && entries == RecursiveRequest(Trusty3000)
    ensures CompiledMatches(store, entries) == [F1, F4]
  {
    var m := [F1, F4];
    assert MatchedFingerprints(store, entries, Index(entries), entries) == m by {
      RecursiveRequestVerdicts(store, Trusty3000);
      Matched4(store, entries, Index(entries), entries);
    }
    AnswerOf(store, entries, m);
    FingerprintsDistinct();
    DedupTwo(F1, F4);
  }

  /** Package 1 for stemcell 3001 has no compiled package: both test stores only hold Ubuntu builds. */
  lemma CentosEntryUnmatched(store: Store, entries: seq<CompiledEntry>)
    requires store == CompiledStore || store == RenamedStore
    ensures !EntryMatches(store, entries, Index(entries), Entry1(Centos3001, Deps1))
  {
    assert Centos3001.os[0] == 'c' && Trusty3000.os[0] == 'u' && Trusty2999.os[0] == 'u';
    ForeignStemcellNeverMatches(store, entries, Entry1(Centos3001, Deps1));
  }

  /**
   * The stemcell test: package 1 is requested for a stemcell it was never
   * compiled for, package 4 for the one it was; only package 4 is found.
   */
  lemma CompiledOnOtherStemcell(store: Store, entries: seq<CompiledEntry>)
    requires store == CompiledStore && entries == RecursiveRequest(Centos3001)
    ensures CompiledMatches(store, entries) == [F4]
  {
    var m := [F4];
    assert MatchedFingerprints(store, entries, Index(entries), entries) == m by {
      RecursiveRequestVerdicts(store, Centos3001);
      CentosEntryUnmatched(store, entries);
      Matched4(store, entries, Index(entries), entries);
    }
    AnswerOf(store, entries, m);
    DedupOne(F4);
  }

  /** The request of the two ambiguity tests: package 1's fingerprint also under `renamed-fake-pkg1`. */
  function AmbiguousRequest(): seq<CompiledEntry>
  {
    [Entry1(Trusty3000, Deps1), Entry2(Trusty3000), Entry3(Trusty3000), RenamedEntry1, Entry4]
  }

  /** In the ambiguous request both leaves and package 1 are indexed as declared. */
  lemma AmbiguousRequestIndexed()
    ensures var index := Index(AmbiguousRequest());
            && LeavesIndexed(index)
            && "fake-pkg1" in index && index["fake-pkg1"] == Entry1(Trusty3000, Deps1)
  {
    NamesDistinct();
    var entries := AmbiguousRequest();
    assert "renamed-fake-pkg1"[0] == 'r' && "fake-pkg1"[0] == 'f' && "fake-pkg4"[0] == 'f';
    DistinctIndexed(entries);
    assert entries[1].name == "fake-pkg2" && entries[2].name == "fake-pkg3" && entries[0].name == "fake-pkg1";
  }

  /** In the ambiguous request package 1's fingerprint is claimed under both its names, package 4's under one. */
  lemma AmbiguousRequestClaims(entries: seq<CompiledEntry>)
    requires entries == AmbiguousRequest()
    ensures ClaimedUnderOtherName(entries, F1, "fake-pkg1")
    ensures ClaimedUnderOtherName(entries, F1, "renamed-fake-pkg1")
    ensures !ClaimedUnderOtherName(entries, F4, "fake-pkg4")
  {
    FingerprintsDistinct();
    assert "renamed-fake-pkg1"[0] == 'r' && "fake-pkg1"[0] == 'f';
    assert entries[3].fingerprint == F1 && entries[0].fingerprint == F1;
    assert forall i | 0 <= i < 4 :: entries[i].fingerprint in {F1, F2, F3};
  }

  /** In the ambiguous request both claimants of package 1's fingerprint are suppressed; package 4 still matches. */
  lemma AmbiguousRequestVerdicts(store: Store)
    requires store == CompiledStore || store == RenamedStore
    ensures var entries := AmbiguousRequest();
            && !EntryMatches(store, entries, Index(entries), entries[0])
            && !EntryMatches(store, entries, Index(entries), entries[1])
            && !EntryMatches(store, entries, Index(entries), entries[2])
            && !EntryMatches(store, entries, Index(entries), entries[3])
            && EntryMatches(store, entries, Index(entries), entries[4])
  {
    var entries := AmbiguousRequest();
    AmbiguousRequestIndexed();
    AmbiguousRequestClaims(entries);
    Entry4Matches(store, entries, 4);
    LeafEntriesUnmatched(store, entries, Trusty3000);
  }

  /** MatchedFingerprints over five entries, one entry at a time. */
  lemma Matched5(store: Store, entries: seq<CompiledEntry>, index: map<string, CompiledEntry>, es: seq<CompiledEntry>)
    requires |es| == 5
    ensures MatchedFingerprints(store, entries, index, es)
            == (if EntryMatches(store, entries, index, es[0]) then [es[0].fingerprint] else [])
             + (if EntryMatches(store, entries, index, es[1]) then [es[1].fingerprint] else [])
             + (if EntryMatches(store, entries, index, es[2]) then [es[2].fingerprint] else [])
             + (if EntryMatches(store, entries, index, es[3]) then [es[3].fingerprint] else [])
             + (if EntryMatches(store, entries, index, es[4]) then [es[4].fingerprint] else [])
  {
    assert es == es[..4] + [es[4]];
    Matched4(store, entries, index, es[..4]);
    MatchedOne(store, entries, index, es[4]);
    MatchedAppend(store, entries, index, es[..4], [es[4]]);
  }

  /**
   * The two ambiguity tests: a fingerprint claimed under two names is not
   * reported, whether or not the store also holds a compiled package of the
   * renamed package for stemcell 2999; package 4 is.
   */
  lemma AmbiguousFingerprintTests(store: Store, entries: seq<CompiledEntry>)
    requires store == CompiledStore || store == RenamedStore
    requires entries == AmbiguousRequest()
    ensures CompiledMatches(store, entries) == [F4]
  {
    var m := [F4];
    assert MatchedFingerprints(store, entries, Index(entries), entries) == m by {
      AmbiguousRequestVerdicts(store);
      Matched5(store, entries, Index(entries), entries);
    }
    AnswerOf(store, entries, m);
    DedupOne(F4);
  }

  /** A dirty release version answers nothing, although package 1 is compiled as requested. */
  lemma CompiledDirtyVersion(store: Store, entries: seq<CompiledEntry>)
    requires store == Store(Dirty1, Packages1234, Compiled14) && entries == Leaves(Trusty3000, Deps1)
    ensures CompiledMatches(store, entries) == []
  {
  }

}
