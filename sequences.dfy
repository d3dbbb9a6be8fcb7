/** Order-preserving sequence helpers used to state the matchers' output order. */
module Sequences {

  /** No element occurs twice. */
  predicate NoDup<T(==)>(s: seq<T>)
  {
    forall i, j | 0 <= i < j < |s| :: s[i] != s[j]
  }

  /** `a` is `b` with some elements left out, the rest kept in order. */
  predicate IsSubsequence<T(==)>(a: seq<T>, b: seq<T>)
    decreases |b|
  {
    if a == [] then true
    else if b == [] then false
    else if a[0] == b[0] then IsSubsequence(a[1..], b[1..])
    else IsSubsequence(a, b[1..])
  }

  /** The position of the first occurrence of `x` in `s`. */
  function FirstIndex<T(==)>(s: seq<T>, x: T): (k: nat)
    requires x in s
    ensures k < |s| && s[k] == x
    ensures forall j | 0 <= j < k :: s[j] != x
  {
    if s[0] == x then 0 else FirstIndex(s[1..], x) + 1
  }

  /** `s` with every element after its first occurrence removed. */
  function Dedup<T(==)>(s: seq<T>): (r: seq<T>)
    ensures NoDup(r)
    ensures forall i | 0 <= i < |r| :: r[i] in s
    ensures forall i | 0 <= i < |s| :: s[i] in r
  {
    if s == [] then []
    else
      var init := s[..|s| - 1];
      var d := Dedup(init);
      assert forall i | 0 <= i < |init| :: s[i] == init[i];
      if s[|s| - 1] in d then d else d + [s[|s| - 1]]
  }

  /** The first occurrence of `x` in a prefix of `s` is its first occurrence in `s`. */
  lemma FirstIndexOfPrefix<T>(s: seq<T>, n: nat, x: T)
    requires n <= |s| && x in s[..n]
    ensures FirstIndex(s[..n], x) == FirstIndex(s, x)
  {
    var a, b := FirstIndex(s[..n], x), FirstIndex(s, x);
    assert s[..n][a] == s[a];
  }

  /** Dedup keeps elements in the order of their first occurrences. */
  lemma {:induction false} DedupOrder<T>(s: seq<T>)
    ensures forall i, j | 0 <= i < j < |Dedup(s)| :: FirstIndex(s, Dedup(s)[i]) < FirstIndex(s, Dedup(s)[j])
    decreases |s|
  {
    if s != [] {
      var n := |s| - 1;
      var init := s[..n];
      var d := Dedup(init);
      var r := Dedup(s);
      DedupOrder(init);
      forall x | x in init ensures FirstIndex(s, x) == FirstIndex(init, x) < n {
        FirstIndexOfPrefix(s, n, x);
      }
      if s[n] in d {
        assert r == d;
      } else {
        assert r == d + [s[n]];
        assert s[n] !in init;
        assert FirstIndex(s, s[n]) == n by {
          forall j | 0 <= j < n ensures s[j] != s[n] {
            assert s[j] == init[j];
          }
        }
        forall i, j | 0 <= i < j < |r| ensures FirstIndex(s, r[i]) < FirstIndex(s, r[j]) {
          assert r[i] == d[i] && d[i] in init;
          if j < |d| {
            assert r[j] == d[j];
          }
        }
      }
    }
  }

  /** A subsequence of `b` is also a subsequence of `b` with an element put in front. */
  lemma {:induction false} SubsequenceOfTail<T>(a: seq<T>, b: seq<T>, x: T)
    requires IsSubsequence(a, b)
    ensures IsSubsequence(a, [x] + b)
    decreases |b|, 1
  {
    var xb := [x] + b;
    assert xb[1..] == b;
    if a != [] && a[0] == x {
      SubsequenceConsBoth(a, b);
    }
  }

  /** Dropping the head of a subsequence leaves a subsequence. */
  lemma {:induction false} SubsequenceConsBoth<T>(a: seq<T>, b: seq<T>)
    requires a != [] && IsSubsequence(a, b)
    ensures IsSubsequence(a[1..], b)
    decreases |b|, 0
  {
    if b != [] {
      if a[0] == b[0] {
        if a[1..] != [] {
          SubsequenceConsBoth(a[1..], b[1..]);
          SubsequenceOfTail(a[1..], b[1..], b[0]);
          assert [b[0]] + b[1..] == b;
        }
      } else {
        SubsequenceConsBoth(a, b[1..]);
        SubsequenceOfTail(a[1..], b[1..], b[0]);
        assert [b[0]] + b[1..] == b;
      }
    }
  }
}
