/**
 * The dependency key of a compiled-package manifest entry: the transitive
 * closure of its dependencies, in declared order, rendered as a nested JSON
 * array of strings (`[["pkg2","v2"],["pkg1","v1",[["pkg3","v3"]]]]`).
 *
 * The closure is first built as a `DepTree` value from the request's own
 * name index; `Render` then turns it into text. A parser for that text is
 * defined beside the renderer, and the round trip `ParseList(Render(ts))`
 * shows that two keys are byte-equal exactly when the closures are equal.
 */
module DependencyKey {
  import opened Wrappers
  import opened Records

  /** A dependency: its name, its version and the closure of its own dependencies. */
  datatype DepTree = DepTree(name: string, version: string, deps: seq<DepTree>)

  // ---------------------------------------------------------------------
  // Rendering (JSON arrays of strings, RFC 8259 sections 5 and 7, without
  // escapes: names and versions are taken to contain no quote)
  // ---------------------------------------------------------------------

  function Quote(s: string): string
  {
    "\"" + s + "\""
  }

  /** `["name","version"]` for a dependency without dependencies, `["name","version",[...]]` otherwise. */
  function RenderTree(t: DepTree): string
    decreases t
  {
    "[" + Quote(t.name) + "," + Quote(t.version)
    + (if t.deps == [] then "" else "," + Render(t.deps)) + "]"
  }

  /** A list of dependencies as a JSON array, in list order. */
  function Render(ts: seq<DepTree>): string
    decreases ts, 1
  {
    "[" + RenderItems(ts) + "]"
  }

  function RenderItems(ts: seq<DepTree>): string
    decreases ts, 0
  {
    if ts == [] then ""
    else if |ts| == 1 then RenderTree(ts[0])
    else RenderTree(ts[0]) + "," + RenderItems(ts[1..])
  }

  /** Names and versions, at every depth, contain no quote character. */
  predicate PlainTree(t: DepTree)
    decreases t
  {
    '"' !in t.name && '"' !in t.version && Plain(t.deps)
  }

  predicate Plain(ts: seq<DepTree>)
    decreases ts
  {
    forall i | 0 <= i < |ts| :: PlainTree(ts[i])
  }

  // ---------------------------------------------------------------------
  // Parsing the rendered text back; each parser returns what it read and
  // the remaining input
  // ---------------------------------------------------------------------

  /** Reads characters up to the next quote, and drops that quote. */
  function ParseText(s: string): (r: Option<(string, string)>)
    ensures r.Some? ==> |r.value.1| < |s|
  {
    if s == [] then None
    else if s[0] == '"' then Some(([], s[1..]))
    else
      match ParseText(s[1..])
      case None => None
      case Some((w, rest)) => Some(([s[0]] + w, rest))
  }

  function ParseString(s: string): (r: Option<(string, string)>)
    ensures r.Some? ==> |r.value.1| < |s|
  {
    if |s| > 0 && s[0] == '"' then ParseText(s[1..]) else None
  }

  function ParseTree(s: string): (r: Option<(DepTree, string)>)
    ensures r.Some? ==> |r.value.1| < |s|
    decreases |s|, 0
  {
    if |s| == 0 || s[0] != '[' then None
    else
      match ParseString(s[1..])
      case None => None
      case Some((name, s1)) =>
        if |s1| == 0 || s1[0] != ',' then None
        else
          match ParseString(s1[1..])
          case None => None
          case Some((version, s2)) =>
            if |s2| == 0 then None
            else if s2[0] == ']' then Some((DepTree(name, version, []), s2[1..]))
            else if s2[0] != ',' then None
            else
              match ParseList(s2[1..])
              case None => None
              case Some((deps, s3)) =>
                if |s3| > 0 && s3[0] == ']' then Some((DepTree(name, version, deps), s3[1..])) else None
  }

  function ParseList(s: string): (r: Option<(seq<DepTree>, string)>)
    ensures r.Some? ==> |r.value.1| < |s|
    decreases |s|, 2
  {
    if |s| == 0 || s[0] != '[' then None
    else if |s| > 1 && s[1] == ']' then Some(([], s[2..]))
    else ParseItems(s[1..])
  }

  /** Reads `item,item,...,item]`. */
  function ParseItems(s: string): (r: Option<(seq<DepTree>, string)>)
    ensures r.Some? ==> |r.value.1| < |s|
    decreases |s|, 1
  {
    match ParseTree(s)
    case None => None
    case Some((t, s1)) =>
      if |s1| == 0 then None
      else if s1[0] == ']' then Some(([t], s1[1..]))
      else if s1[0] != ',' then None
      else
        match ParseItems(s1[1..])
        case None => None
        case Some((ts, s2)) => Some(([t] + ts, s2))
  }

  // ---------------------------------------------------------------------
  // Round trip
  // ---------------------------------------------------------------------

  lemma {:induction false} ParseTextRoundTrip(w: string, rest: string)
    requires '"' !in w
    ensures ParseText(w + "\"" + rest) == Some((w, rest))
  {
    var s := w + "\"" + rest;
    if w == [] {
      assert s == "\"" + rest;
    } else {
      assert s[0] == w[0];
      assert s[1..] == w[1..] + "\"" + rest;
      ParseTextRoundTrip(w[1..], rest);
      assert [w[0]] + w[1..] == w;
    }
  }

  lemma ParseStringRoundTrip(w: string, rest: string)
    requires '"' !in w
    ensures ParseString(Quote(w) + rest) == Some((w, rest))
  {
    var s := Quote(w) + rest;
    assert s[1..] == w + "\"" + rest;
    ParseTextRoundTrip(w, rest);
  }

  lemma AppendAssoc<T>(a: seq<T>, b: seq<T>, c: seq<T>)
    ensures a + b + c == a + (b + c)
  {
  }

  lemma RenderItemsStartsWithBracket(ts: seq<DepTree>)
    requires ts != []
    ensures |RenderItems(ts)| > 0 && RenderItems(ts)[0] == '['
  {
  }

  lemma {:induction false} ParseTreeRoundTrip(t: DepTree, rest: string)
    requires PlainTree(t)
    ensures ParseTree(RenderTree(t) + rest) == Some((t, rest))
    decreases t
  {
    var tail := if t.deps == [] then "" else "," + Render(t.deps);
    var s2 := tail + "]" + rest;
    var s1 := "," + (Quote(t.version) + s2);
    var s := RenderTree(t) + rest;
    RenderTreeSplit(t, rest);
    assert s[1..] == Quote(t.name) + s1;
    ParseStringRoundTrip(t.name, s1);
    assert s1[1..] == Quote(t.version) + s2;
    ParseStringRoundTrip(t.version, s2);
    if t.deps == [] {
      assert s2 == "]" + rest;
      ParseTreeLeaf(s, t.name, s1, t.version, s2);
    } else {
      AppendAssoc("," + Render(t.deps), "]", rest);
      AppendAssoc(",", Render(t.deps), "]" + rest);
      assert s2[1..] == Render(t.deps) + ("]" + rest);
      ParseListRoundTrip(t.deps, "]" + rest);
      ParseTreeNode(s, t.name, s1, t.version, s2, t.deps, "]" + rest);
    }
  }

  /** The rendering of a dependency, cut where the parser reads it. */
  lemma RenderTreeSplit(t: DepTree, rest: string)
    ensures var tail := if t.deps == [] then "" else "," + Render(t.deps);
            RenderTree(t) + rest == "[" + (Quote(t.name) + ("," + (Quote(t.version) + (tail + "]" + rest))))
  {
    var tail := if t.deps == [] then "" else "," + Render(t.deps);
    var n, v := Quote(t.name), Quote(t.version);
    assert RenderTree(t) == "[" + n + "," + v + tail + "]";
    AppendAssoc("[" + n + "," + v + tail, "]", rest);
    AppendAssoc("[" + n + "," + v, tail, "]" + rest);
    AppendAssoc(tail, "]", rest);
    AppendAssoc("[" + n + ",", v, tail + "]" + rest);
    AppendAssoc("[" + n, ",", v + (tail + "]" + rest));
    AppendAssoc("[", n, "," + (v + (tail + "]" + rest)));
  }

  /** ParseTree on a dependency without dependencies. */
  lemma ParseTreeLeaf(s: string, name: string, s1: string, version: string, s2: string)
    requires |s| > 0 && s[0] == '[' && ParseString(s[1..]) == Some((name, s1))
    requires |s1| > 0 && s1[0] == ',' && ParseString(s1[1..]) == Some((version, s2))
    requires |s2| > 0 && s2[0] == ']'
    ensures ParseTree(s) == Some((DepTree(name, version, []), s2[1..]))
  {
  }

  /** ParseTree on a dependency with dependencies. */
  lemma ParseTreeNode(s: string, name: string, s1: string, version: string, s2: string, deps: seq<DepTree>, s3: string)
    requires |s| > 0 && s[0] == '[' && ParseString(s[1..]) == Some((name, s1))
    requires |s1| > 0 && s1[0] == ',' && ParseString(s1[1..]) == Some((version, s2))
    requires |s2| > 0 && s2[0] == ',' && ParseList(s2[1..]) == Some((deps, s3))
    requires |s3| > 0 && s3[0] == ']'
    ensures ParseTree(s) == Some((DepTree(name, version, deps), s3[1..]))
  {
  }

  lemma {:induction false} ParseListRoundTrip(ts: seq<DepTree>, rest: string)
    requires Plain(ts)
    ensures ParseList(Render(ts) + rest) == Some((ts, rest))
    decreases ts, 1
  {
    var s := Render(ts) + rest;
    if ts == [] {
      assert s == "[]" + rest;
    } else {
      assert s == "[" + (RenderItems(ts) + "]" + rest);
      assert s[1..] == RenderItems(ts) + "]" + rest;
      RenderItemsStartsWithBracket(ts);
      ParseItemsRoundTrip(ts, rest);
    }
  }

  lemma {:induction false} ParseItemsRoundTrip(ts: seq<DepTree>, rest: string)
    requires ts != [] && Plain(ts)
    ensures ParseItems(RenderItems(ts) + "]" + rest) == Some((ts, rest))
    decreases ts, 0
  {
    var s := RenderItems(ts) + "]" + rest;
    if |ts| == 1 {
      assert RenderItems(ts) == RenderTree(ts[0]);
      AppendAssoc(RenderTree(ts[0]), "]", rest);
      ParseTreeRoundTrip(ts[0], "]" + rest);
      ParseItemsLast(s, ts[0], "]" + rest);
      assert [ts[0]] == ts;
    } else {
      var s1 := "," + (RenderItems(ts[1..]) + "]" + rest);
      RenderItemsSplit(ts, rest);
      ParseTreeRoundTrip(ts[0], s1);
      assert s1[1..] == RenderItems(ts[1..]) + "]" + rest;
      PlainTail(ts);
      ParseItemsRoundTrip(ts[1..], rest);
      ParseItemsNext(s, ts[0], s1, ts[1..], rest);
      assert [ts[0]] + ts[1..] == ts;
    }
  }

  /** The rendering of two or more items is the first item, a comma and the rest. */
  lemma RenderItemsSplit(ts: seq<DepTree>, rest: string)
    requires |ts| > 1
    ensures RenderItems(ts) + "]" + rest == RenderTree(ts[0]) + ("," + (RenderItems(ts[1..]) + "]" + rest))
  {
    var head, items := RenderTree(ts[0]), RenderItems(ts[1..]);
    assert RenderItems(ts) == head + "," + items;
    AppendAssoc(head + ",", items, "]");
    AppendAssoc(head + ",", items + "]", rest);
    AppendAssoc(head, ",", items + "]" + rest);
  }

  lemma PlainTail(ts: seq<DepTree>)
    requires ts != [] && Plain(ts)
    ensures Plain(ts[1..])
  {
    forall i | 0 <= i < |ts[1..]| ensures PlainTree(ts[1..][i]) {
      assert ts[1..][i] == ts[i + 1];
    }
  }

  /** One step of ParseItems: the last item, followed by the closing bracket. */
  lemma ParseItemsLast(s: string, t: DepTree, s1: string)
    requires ParseTree(s) == Some((t, s1)) && |s1| > 0 && s1[0] == ']'
    ensures ParseItems(s) == Some(([t], s1[1..]))
  {
  }

  /** One step of ParseItems: an item followed by a comma and further items. */
  lemma ParseItemsNext(s: string, t: DepTree, s1: string, ts: seq<DepTree>, s2: string)
    requires ParseTree(s) == Some((t, s1)) && |s1| > 0 && s1[0] == ','
    requires ParseItems(s1[1..]) == Some((ts, s2))
    ensures ParseItems(s) == Some(([t] + ts, s2))
  {
  }

  /** Rendering loses nothing: byte-equal keys come from equal closures. */
  lemma RenderInjective(a: seq<DepTree>, b: seq<DepTree>)
    requires Plain(a) && Plain(b)
    ensures Render(a) == Render(b) <==> a == b
  {
    if Render(a) == Render(b) {
      ParseListRoundTrip(a, []);
      ParseListRoundTrip(b, []);
      assert Render(a) + [] == Render(a);
      assert Render(b) + [] == Render(b);
    }
  }

  // ---------------------------------------------------------------------
  // The request index and the dependency closure
  // ---------------------------------------------------------------------

  /**
   * The per-request index from a package name to its manifest entry. When
   * two entries share a name, the later one is indexed.
   */
  function Index(entries: seq<CompiledEntry>): (index: map<string, CompiledEntry>)
    ensures forall i | 0 <= i < |entries| :: entries[i].name in index
    ensures forall i | 0 <= i < |entries| && LastWithName(entries, i) :: index[entries[i].name] == entries[i]
  {
    if entries == [] then map[]
    else
      var last := entries[|entries| - 1];
      var index := Index(entries[..|entries| - 1]);
      assert forall i | 0 <= i < |entries| - 1 :: entries[..|entries| - 1][i] == entries[i];
      index[last.name := last]
  }

  /** Every name in the index is declared by some entry of the request. */
  lemma {:induction false} IndexKeyDeclared(entries: seq<CompiledEntry>, name: string)
    requires name in Index(entries)
    ensures exists i :: 0 <= i < |entries| && entries[i].name == name
  {
    var n := |entries| - 1;
    if entries[n].name != name {
      IndexKeyDeclared(entries[..n], name);
      var i :| 0 <= i < n && entries[..n][i].name == name;
      assert entries[i] == entries[..n][i];
    }
  }

  /** No entry after position `i` has the name of entry `i`. */
  predicate LastWithName(entries: seq<CompiledEntry>, i: nat)
    requires i < |entries|
  {
    forall j | i < j < |entries| :: entries[j].name != entries[i].name
  }

  /**
   * The closure of the dependency names `deps`, in declared order. `path`
   * holds the names being expanded: a name already on it is rendered as a
   * leaf, so a cyclic request still has a key. None when a name is not in
   * the request.
   */
  function Closure(index: map<string, CompiledEntry>, path: set<string>, deps: seq<string>): (r: Option<seq<DepTree>>)
    ensures r.Some? ==> |r.value| == |deps|
    ensures r.Some? ==> forall i | 0 <= i < |deps| ::
              deps[i] in index && r.value[i].name == deps[i] && r.value[i].version == index[deps[i]].version
    ensures (exists i :: 0 <= i < |deps| && deps[i] !in index) ==> r.None?
    decreases index.Keys - path, |deps|
  {
    if deps == [] then Some([])
    else if deps[0] !in index then None
    else
      var d := deps[0];
      var sub := if d in path then Some([]) else Closure(index, path + {d}, index[d].deps);
      match sub
      case None => None
      case Some(children) =>
        match Closure(index, path, deps[1..])
        case None => None
        case Some(rest) => Some([DepTree(d, index[d].version, children)] + rest)
  }

  /** The dependency key of `entry`, or None when one of its dependencies is not in the request. */
  function Key(index: map<string, CompiledEntry>, entry: CompiledEntry): Option<string>
  {
    match Closure(index, {entry.name}, entry.deps)
    case None => None
    case Some(ts) => Some(Render(ts))
  }

  /** Every dependency named by an indexed entry is itself indexed. */
  predicate Resolvable(index: map<string, CompiledEntry>)
  {
    forall n | n in index :: forall d | d in index[n].deps :: d in index
  }

  /** Indexed names and versions contain no quote character. */
  predicate PlainIndex(index: map<string, CompiledEntry>)
  {
    forall n | n in index :: '"' !in n && '"' !in index[n].version
  }

  /** Two indexes that agree on every name's version and dependencies. */
  predicate SameGraph(index1: map<string, CompiledEntry>, index2: map<string, CompiledEntry>)
  {
    index1.Keys == index2.Keys
    && forall n | n in index1 :: index1[n].version == index2[n].version && index1[n].deps == index2[n].deps
  }

  /**
   * No walk from `deps` through the index reaches `x` before it stops at a
   * name on `path`: expanding `deps` never meets `x`.
   */
  predicate Avoids(index: map<string, CompiledEntry>, path: set<string>, deps: seq<string>, x: string)
    decreases index.Keys - path, |deps|
  {
    deps == []
    || (deps[0] != x
        && (deps[0] in index && deps[0] !in path ==> Avoids(index, path + {deps[0]}, index[deps[0]].deps, x))
        && Avoids(index, path, deps[1..], x))
  }

  // ---------------------------------------------------------------------
  // Properties of the closure and the key
  // ---------------------------------------------------------------------

  /**
   * Each node of a closure carries the closure of its own declared
   * dependencies, expanded with its name added to the path; a name already
   * on the path is a leaf.
   */
  lemma {:induction false} ClosureNests(index: map<string, CompiledEntry>, path: set<string>, deps: seq<string>, i: nat)
    requires Closure(index, path, deps).Some?
    requires i < |deps|
    ensures deps[i] in path ==> Closure(index, path, deps).value[i].deps == []
    ensures deps[i] !in path ==>
              && Closure(index, path + {deps[i]}, index[deps[i]].deps).Some?
              && Closure(index, path, deps).value[i].deps == Closure(index, path + {deps[i]}, index[deps[i]].deps).value
    decreases i
  {
    if i > 0 {
      ClosureNests(index, path, deps[1..], i - 1);
      assert deps[1..][i - 1] == deps[i];
    }
  }

  /** A name that expanding `deps` never meets may be added to the path without changing the closure. */
  lemma {:induction false} ClosureIgnoresAvoided(index: map<string, CompiledEntry>, path: set<string>, deps: seq<string>, x: string)
    requires Avoids(index, path, deps, x)
    ensures Closure(index, path + {x}, deps) == Closure(index, path, deps)
    decreases index.Keys - path, |deps|
  {
    if deps != [] && deps[0] in index {
      var d := deps[0];
      if d !in path {
        ClosureIgnoresAvoided(index, path + {d}, index[d].deps, x);
        assert path + {x} + {d} == path + {d} + {x};
      }
      ClosureIgnoresAvoided(index, path, deps[1..], x);
    }
  }

  /**
   * The key is transitive: inside the key of `e`, a dependency `d` whose own
   * dependencies do not lead back to `e` carries exactly the tree that makes
   * up `d`'s own key.
   */
  lemma {:induction false} KeyNestsDependencyKey(index: map<string, CompiledEntry>, e: CompiledEntry, i: nat)
    requires Closure(index, {e.name}, e.deps).Some?
    requires i < |e.deps| && e.deps[i] in index && e.deps[i] != e.name
    requires Avoids(index, {e.deps[i]}, index[e.deps[i]].deps, e.name)
    ensures Closure(index, {e.deps[i]}, index[e.deps[i]].deps).Some?
    ensures Closure(index, {e.name}, e.deps).value[i].deps == Closure(index, {e.deps[i]}, index[e.deps[i]].deps).value
    ensures index[e.deps[i]].name == e.deps[i] ==>
              Key(index, index[e.deps[i]]) == Some(Render(Closure(index, {e.name}, e.deps).value[i].deps))
  {
    var d := e.deps[i];
    ClosureNests(index, {e.name}, e.deps, i);
    ClosureIgnoresAvoided(index, {d}, index[d].deps, e.name);
    assert {e.name} + {d} == {d} + {e.name};
  }

  /** A request that names every dependency it mentions has a closure for every entry. */
  lemma {:induction false} ClosureDefined(index: map<string, CompiledEntry>, path: set<string>, deps: seq<string>)
    requires Resolvable(index)
    requires forall d | d in deps :: d in index
    ensures Closure(index, path, deps).Some?
    decreases index.Keys - path, |deps|
  {
    if deps != [] {
      var d := deps[0];
      if d !in path {
        ClosureDefined(index, path + {d}, index[d].deps);
      }
      ClosureDefined(index, path, deps[1..]);
    }
  }

  lemma {:induction false} ClosurePlain(index: map<string, CompiledEntry>, path: set<string>, deps: seq<string>)
    requires PlainIndex(index)
    requires Closure(index, path, deps).Some?
    ensures Plain(Closure(index, path, deps).value)
    decreases index.Keys - path, |deps|
  {
    if deps != [] {
      var d := deps[0];
      if d !in path {
        ClosurePlain(index, path + {d}, index[d].deps);
      }
      ClosurePlain(index, path, deps[1..]);
      var ts := Closure(index, path, deps).value;
      var rest := Closure(index, path, deps[1..]).value;
      assert ts == [ts[0]] + rest;
      forall i | 0 <= i < |ts| ensures PlainTree(ts[i]) {
        if i > 0 {
          assert ts[i] == rest[i - 1];
        }
      }
    }
  }

  /**
   * Only names, versions and dependency lists enter a key: the stemcells and
   * fingerprints of the dependencies do not.
   */
  lemma {:induction false} ClosureOnlyReadsGraph(index1: map<string, CompiledEntry>, index2: map<string, CompiledEntry>, path: set<string>, deps: seq<string>)
    requires SameGraph(index1, index2)
    ensures Closure(index1, path, deps) == Closure(index2, path, deps)
    decreases index1.Keys - path, |deps|
  {
    if deps != [] && deps[0] in index1 {
      var d := deps[0];
      if d !in path {
        ClosureOnlyReadsGraph(index1, index2, path + {d}, index1[d].deps);
      }
      ClosureOnlyReadsGraph(index1, index2, path, deps[1..]);
    }
  }

  /** Byte-equal keys exactly when the nested closures are equal. */
  lemma KeyEqualIffClosureEqual(index1: map<string, CompiledEntry>, e1: CompiledEntry, index2: map<string, CompiledEntry>, e2: CompiledEntry)
    requires PlainIndex(index1) && PlainIndex(index2)
    requires Key(index1, e1).Some? && Key(index2, e2).Some?
    ensures Key(index1, e1) == Key(index2, e2)
            <==> Closure(index1, {e1.name}, e1.deps) == Closure(index2, {e2.name}, e2.deps)
  {
    ClosurePlain(index1, {e1.name}, e1.deps);
    ClosurePlain(index2, {e2.name}, e2.deps);
    RenderInjective(Closure(index1, {e1.name}, e1.deps).value, Closure(index2, {e2.name}, e2.deps).value);
  }

  /**
   * The key is order-sensitive: two entries with the same key declare the
   * same dependencies in the same order.
   */
  lemma KeyDeterminesDeclaredDeps(index1: map<string, CompiledEntry>, e1: CompiledEntry, index2: map<string, CompiledEntry>, e2: CompiledEntry)
    requires PlainIndex(index1) && PlainIndex(index2)
    requires Key(index1, e1).Some? && Key(index1, e1) == Key(index2, e2)
    ensures e1.deps == e2.deps
  {
    KeyEqualIffClosureEqual(index1, e1, index2, e2);
    var ts := Closure(index1, {e1.name}, e1.deps).value;
    assert |e1.deps| == |ts| == |e2.deps|;
    forall i | 0 <= i < |e1.deps| ensures e1.deps[i] == e2.deps[i] {
      assert ts[i].name == e1.deps[i];
    }
  }
}
