/**
 * Facts about order-preserving selections from a sequence, shared by the
 * filter stages: `Keep` is the in-place `Vec::retain` the program applies to
 * records and crossings, seen as a function of the vector's contents.
 */
module Sequences {

  /** `s` is ordered by `key`: no later element has a smaller key. */
  ghost predicate SortedBy<T>(s: seq<T>, key: T -> int) {
    forall i, j :: 0 <= i < j < |s| ==> key(s[i]) <= key(s[j])
  }

  /** `r` is `v` with some elements left out and the rest in their order. */
  predicate IsSubsequence<T(==)>(r: seq<T>, v: seq<T>)
    decreases |v|
  {
    if r == [] then true
    else if v == [] then false
    else (r[0] == v[0] && IsSubsequence(r[1..], v[1..])) || IsSubsequence(r, v[1..])
  }

  /** The elements of `s` that satisfy `p`, in order: `Vec::retain` with the closure `p`. */
  function Keep<T>(s: seq<T>, p: T -> bool): seq<T>
    decreases |s|
  {
    if s == [] then []
    else (if p(s[0]) then [s[0]] else []) + Keep(s[1..], p)
  }

  /**
   * What `Keep` returns: each element that satisfies `p` as often as it
   * occurs in `s`, no other element, in the order of `s`; a first element
   * that satisfies `p` stays first.
   */
  lemma {:induction false} KeepSelects<T(!new)>(s: seq<T>, p: T -> bool)
    ensures var r := Keep(s, p);
      && |r| <= |s|
      && (forall x :: x in r <==> x in s && p(x))
      && (forall x :: multiset(r)[x] == if p(x) then multiset(s)[x] else 0)
      && IsSubsequence(r, s)
      && (|s| > 0 && p(s[0]) ==> |r| > 0 && r[0] == s[0])
  {
    var r := Keep(s, p);
    KeepCounts(s, p);
    KeepIsSubsequence(s, p);
    forall x ensures x in r <==> x in s && p(x) {
      assert x in r <==> multiset(r)[x] > 0;
      assert x in s <==> multiset(s)[x] > 0;
    }
  }

  /** `Keep` keeps each passing element as often as it occurs, and no other. */
  lemma {:induction false} KeepCounts<T(!new)>(s: seq<T>, p: T -> bool)
    ensures |Keep(s, p)| <= |s|
    ensures forall x :: multiset(Keep(s, p))[x] == if p(x) then multiset(s)[x] else 0
    decreases |s|
  {
    if s != [] {
      KeepCounts(s[1..], p);
      var head := if p(s[0]) then [s[0]] else [];
      var rest := Keep(s[1..], p);
      assert Keep(s, p) == head + rest;
      assert s == [s[0]] + s[1..];
      assert multiset(s) == multiset{s[0]} + multiset(s[1..]);
      assert multiset(head + rest) == multiset(head) + multiset(rest);
    }
  }

  /** `Keep` keeps the order of `s`, and a passing first element stays first. */
  lemma {:induction false} KeepIsSubsequence<T>(s: seq<T>, p: T -> bool)
    ensures IsSubsequence(Keep(s, p), s)
    ensures |s| > 0 && p(s[0]) ==> |Keep(s, p)| > 0 && Keep(s, p)[0] == s[0]
    decreases |s|
  {
    if s != [] {
      KeepIsSubsequence(s[1..], p);
      var rest := Keep(s[1..], p);
      if p(s[0]) {
        var r := [s[0]] + rest;
        assert Keep(s, p) == r;
        assert r[0] == s[0] && r[1..] == rest;
      } else {
        assert Keep(s, p) == rest;
      }
    }
  }

  /** Keeping the elements that satisfy `p` changes nothing when all of them do. */
  lemma {:induction false} KeepAll<T>(s: seq<T>, p: T -> bool)
    requires forall i :: 0 <= i < |s| ==> p(s[i])
    ensures Keep(s, p) == s
    decreases |s|
  {
    if s != [] {
      KeepAll(s[1..], p);
    }
  }

  /** Every element of a subsequence is an element of the whole. */
  lemma {:induction false} SubsequenceMembers<T>(r: seq<T>, v: seq<T>)
    requires IsSubsequence(r, v)
    ensures forall x :: x in r ==> x in v
    decreases |v|
  {
    if r != [] {
      assert v != [];
      if r[0] == v[0] && IsSubsequence(r[1..], v[1..]) {
        SubsequenceMembers(r[1..], v[1..]);
        assert forall x :: x in r ==> x == r[0] || x in r[1..];
      } else {
        SubsequenceMembers(r, v[1..]);
      }
      assert forall x :: x in v[1..] ==> x in v;
    }
  }

  /** A subsequence of a subsequence is a subsequence. */
  lemma {:induction false} SubsequenceTransitive<T>(a: seq<T>, b: seq<T>, c: seq<T>)
    requires IsSubsequence(a, b) && IsSubsequence(b, c)
    ensures IsSubsequence(a, c)
    decreases |c|
  {
    if a != [] {
      assert b != [] && c != [];
      if IsSubsequence(b, c[1..]) {
        SubsequenceTransitive(a, b, c[1..]);
      } else {
        assert b[0] == c[0] && IsSubsequence(b[1..], c[1..]);
        if a[0] == b[0] && IsSubsequence(a[1..], b[1..]) {
          SubsequenceTransitive(a[1..], b[1..], c[1..]);
        } else {
          SubsequenceTransitive(a, b[1..], c[1..]);
        }
      }
    }
  }

  /** Leaving elements out of an ordered sequence keeps it ordered. */
  lemma {:induction false} SubsequenceSorted<T>(r: seq<T>, v: seq<T>, key: T -> int)
    requires IsSubsequence(r, v) && SortedBy(v, key)
    ensures SortedBy(r, key)
    decreases |v|
  {
    if r != [] {
      assert v != [];
      assert SortedBy(v[1..], key) by {
        forall i, j | 0 <= i < j < |v[1..]| ensures key(v[1..][i]) <= key(v[1..][j]) {
          assert v[1..][i] == v[i + 1] && v[1..][j] == v[j + 1];
        }
      }
      if r[0] == v[0] && IsSubsequence(r[1..], v[1..]) {
        SubsequenceSorted(r[1..], v[1..], key);
        SubsequenceMembers(r[1..], v[1..]);
        forall i, j | 0 <= i < j < |r| ensures key(r[i]) <= key(r[j]) {
          assert r[j] == r[1..][j - 1];
          if i == 0 {
            assert r[j] in r[1..] && r[j] in v[1..];
            var k :| 0 <= k < |v[1..]| && v[1..][k] == r[j];
            assert v[k + 1] == r[j];
          } else {
            assert r[i] == r[1..][i - 1];
          }
        }
      } else {
        SubsequenceSorted(r, v[1..], key);
      }
    }
  }

  /** A sequence is a subsequence of itself. */
  lemma {:induction false} SubsequenceReflexive<T>(v: seq<T>)
    ensures IsSubsequence(v, v)
    decreases |v|
  {
    if v != [] {
      SubsequenceReflexive(v[1..]);
    }
  }
}
