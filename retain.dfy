/**
 * The generic pairwise filter of src/main.rs (`compare_and_retain`): walk
 * the vector left to right and keep each element for which the predicate,
 * applied to the element and the element just before it IN THE INPUT, holds.
 * The first element has no predecessor and is always kept.
 */
module Retain {
  import opened Wrappers
  import opened Sequences

  /** One more than the largest `usize`; vector lengths and indices lie below it. */
  const USIZE_LIMIT: int := 0x1_0000_0000_0000_0000

  /** `i - 1` on a `usize` in a release build, where it wraps around. */
  function WrappingPredecessor(i: nat): (p: nat)
    requires i < USIZE_LIMIT
    ensures i > 0 ==> p == i - 1
    ensures i == 0 ==> p == USIZE_LIMIT - 1
  {
    (i - 1) % USIZE_LIMIT
  }

  /** `i - 1` on a `usize` in a debug build, which panics (None) at zero. */
  function CheckedPredecessor(i: nat): (p: Option<nat>)
    ensures p.None? <==> i == 0
    ensures p.Some? ==> p.value == i - 1
  {
    if i == 0 then None else Some(i - 1)
  }

  /** Whether the filter keeps the element at index `i` of `v`. */
  predicate KeptAt<T>(v: seq<T>, keep: (T, T) -> bool, i: nat)
    requires i < |v|
  {
    i == 0 || keep(v[i], v[i - 1])
  }

  /** The elements the filter keeps from index `i` on, in order. */
  function RetainedFrom<T>(v: seq<T>, keep: (T, T) -> bool, i: nat): (r: seq<T>)
    requires i <= |v|
    ensures |r| <= |v| - i
    decreases |v| - i
  {
    if i == |v| then []
    else (if KeptAt(v, keep, i) then [v[i]] else []) + RetainedFrom(v, keep, i + 1)
  }

  /** The elements the filter keeps among the first `n`, in order. */
  function RetainedUpTo<T>(v: seq<T>, keep: (T, T) -> bool, n: nat): seq<T>
    requires n <= |v|
  {
    if n == 0 then []
    else RetainedUpTo(v, keep, n - 1) + (if KeptAt(v, keep, n - 1) then [v[n - 1]] else [])
  }

  /** The indices the filter keeps from index `i` on, in increasing order. */
  function KeptIndicesFrom<T>(v: seq<T>, keep: (T, T) -> bool, i: nat): seq<nat>
    requires i <= |v|
    decreases |v| - i
  {
    if i == |v| then []
    else (if KeptAt(v, keep, i) then [i] else []) + KeptIndicesFrom(v, keep, i + 1)
  }

  /** What the filter returns for the whole of `v`. */
  function Retained<T>(v: seq<T>, keep: (T, T) -> bool): seq<T> {
    RetainedFrom(v, keep, 0)
  }

  /** The indices of `v` whose elements the filter returns. */
  function KeptIndices<T>(v: seq<T>, keep: (T, T) -> bool): seq<nat> {
    KeptIndicesFrom(v, keep, 0)
  }

  /**
   * The kept indices from `i` on lie in `[i, |v|)`, increase, and are exactly
   * the indices at which the filter keeps.
   */
  lemma {:induction false} KeptIndicesFromFacts<T>(v: seq<T>, keep: (T, T) -> bool, i: nat)
    requires i <= |v|
    ensures var ix := KeptIndicesFrom(v, keep, i);
      && (forall k :: 0 <= k < |ix| ==> i <= ix[k] < |v|)
      && (forall k, l :: 0 <= k < l < |ix| ==> ix[k] < ix[l])
      && (forall j :: i <= j < |v| ==> (j in ix <==> KeptAt(v, keep, j)))
    decreases |v| - i
  {
    if i < |v| {
      KeptIndicesFromFacts(v, keep, i + 1);
      var restIx := KeptIndicesFrom(v, keep, i + 1);
      if KeptAt(v, keep, i) {
        var ix := [i] + restIx;
        assert KeptIndicesFrom(v, keep, i) == ix;
        assert forall k :: 1 <= k < |ix| ==> ix[k] == restIx[k - 1];
        assert forall j :: j in ix <==> j == i || j in restIx;
      } else {
        assert i !in restIx;
      }
    }
  }

  /** The filter's result from index `i` on is `v` read at the kept indices. */
  lemma {:induction false} RetainedFromAtIndices<T>(v: seq<T>, keep: (T, T) -> bool, i: nat)
    requires i <= |v|
    ensures var r, ix := RetainedFrom(v, keep, i), KeptIndicesFrom(v, keep, i);
      |ix| == |r| && forall k :: 0 <= k < |ix| ==> ix[k] < |v| && r[k] == v[ix[k]]
    decreases |v| - i
  {
    if i < |v| {
      RetainedFromAtIndices(v, keep, i + 1);
      KeptIndicesFromFacts(v, keep, i + 1);
      var rest, restIx := RetainedFrom(v, keep, i + 1), KeptIndicesFrom(v, keep, i + 1);
      if KeptAt(v, keep, i) {
        var r, ix := [v[i]] + rest, [i] + restIx;
        assert RetainedFrom(v, keep, i) == r && KeptIndicesFrom(v, keep, i) == ix;
        assert forall k :: 1 <= k < |ix| ==> r[k] == rest[k - 1] && ix[k] == restIx[k - 1];
      }
    }
  }

  /** The filter's result from index `i` on is a subsequence of `v[i..]`. */
  lemma {:induction false} RetainedFromIsSubsequence<T>(v: seq<T>, keep: (T, T) -> bool, i: nat)
    requires i <= |v|
    ensures IsSubsequence(RetainedFrom(v, keep, i), v[i..])
    decreases |v| - i
  {
    if i < |v| {
      RetainedFromIsSubsequence(v, keep, i + 1);
      assert v[i..][0] == v[i] && v[i..][1..] == v[i + 1..];
      var rest := RetainedFrom(v, keep, i + 1);
      if KeptAt(v, keep, i) {
        assert ([v[i]] + rest)[1..] == rest;
      } else {
        assert RetainedFrom(v, keep, i) == rest;
        assert rest != [] ==> IsSubsequence(rest, v[i..][1..]);
      }
    }
  }

  /**
   * The filter returns an order-preserving selection from `v`: the first
   * element, and each later `v[j]` exactly when the predicate holds of `v[j]`
   * and its original predecessor `v[j - 1]`.
   */
  lemma {:induction false} RetainedSelects<T>(v: seq<T>, keep: (T, T) -> bool)
    ensures var r, ix := Retained(v, keep), KeptIndices(v, keep);
      && |ix| == |r| <= |v|
      && (forall k :: 0 <= k < |ix| ==> ix[k] < |v| && r[k] == v[ix[k]])
      && (forall k, l :: 0 <= k < l < |ix| ==> ix[k] < ix[l])
      && (forall j :: 0 <= j < |v| ==> (j in ix <==> j == 0 || keep(v[j], v[j - 1])))
      && IsSubsequence(r, v)
      && (|v| > 0 ==> |r| > 0 && r[0] == v[0])
  {
    KeptIndicesFromFacts(v, keep, 0);
    RetainedFromAtIndices(v, keep, 0);
    RetainedFromIsSubsequence(v, keep, 0);
    assert v[0..] == v;
    if |v| > 0 {
      var ix := KeptIndices(v, keep);
      assert 0 in ix;
      assert ix[0] == 0;
    }
  }

  /** The filter's result is a subsequence of its input. */
  lemma {:induction false} RetainedIsSubsequence<T>(v: seq<T>, keep: (T, T) -> bool)
    ensures IsSubsequence(Retained(v, keep), v)
  {
    RetainedFromIsSubsequence(v, keep, 0);
    assert v[0..] == v;
  }

  /** The filter on two elements: the first, and the second if it passes against the first. */
  lemma {:induction false} RetainedOfTwo<T>(a: T, b: T, keep: (T, T) -> bool)
    ensures Retained([a, b], keep) == [a] + (if keep(b, a) then [b] else [])
  {
    assert RetainedFrom([a, b], keep, 2) == [];
    assert RetainedFrom([a, b], keep, 1) == (if keep(b, a) then [b] else []);
  }

  /** The filter on three elements, each later one tested against its original predecessor. */
  lemma {:induction false} RetainedOfThree<T>(a: T, b: T, c: T, keep: (T, T) -> bool)
    ensures Retained([a, b, c], keep) ==
      [a] + (if keep(b, a) then [b] else []) + (if keep(c, b) then [c] else [])
  {
    assert RetainedFrom([a, b, c], keep, 3) == [];
    assert RetainedFrom([a, b, c], keep, 2) == (if keep(c, b) then [c] else []);
    assert RetainedFrom([a, b, c], keep, 1) ==
      (if keep(b, a) then [b] else []) + (if keep(c, b) then [c] else []);
  }

  /** What the filter keeps before index `i` and from `i` on make up its whole result. */
  lemma {:induction false} RetainedSplit<T>(v: seq<T>, keep: (T, T) -> bool, i: nat)
    requires i <= |v|
    ensures RetainedUpTo(v, keep, i) + RetainedFrom(v, keep, i) == Retained(v, keep)
    decreases i
  {
    if i > 0 {
      RetainedSplit(v, keep, i - 1);
      var before := RetainedUpTo(v, keep, i - 1);
      var x := if KeptAt(v, keep, i - 1) then [v[i - 1]] else [];
      var after := RetainedFrom(v, keep, i);
      assert RetainedFrom(v, keep, i - 1) == x + after;
      assert (before + x) + after == before + (x + after);
    }
  }

  /**
   * compare_and_retain as a release build runs it: `i - 1` wraps at `i = 0`,
   * the lookup of that index finds nothing, and the first element is kept.
   */
  method CompareAndRetain<T>(v: seq<T>, keep: (T, T) -> bool) returns (newVec: seq<T>)
    requires |v| < USIZE_LIMIT
    ensures newVec == Retained(v, keep)
  {
    newVec := [];
    for i := 0 to |v|
      invariant newVec == RetainedUpTo(v, keep, i)
    {
      var element := v[i];
      var previousIndex := WrappingPredecessor(i);
      if previousIndex < |v| {
        if keep(element, v[previousIndex]) {
          newVec := newVec + [element];
        }
      } else {
        newVec := newVec + [element];
      }
    }
    RetainedSplit(v, keep, |v|);
  }

  /** The elements a debug build keeps from index `i` on, or None once it panics. */
  function DebugRetainedFrom<T>(v: seq<T>, keep: (T, T) -> bool, i: nat): Option<seq<T>>
    requires i <= |v|
    decreases |v| - i
  {
    if i == |v| then Some([])
    else
      match CheckedPredecessor(i)
      case None => None
      case Some(previousIndex) =>
        var rest := DebugRetainedFrom(v, keep, i + 1);
        if rest.None? then None
        else if keep(v[i], v[previousIndex]) then Some([v[i]] + rest.value)
        else rest
  }

  /**
   * compare_and_retain as a debug build runs it: the subtraction `i - 1` at
   * `i = 0` overflows and panics, so every non-empty input aborts.
   */
  function CompareAndRetainDebug<T>(v: seq<T>, keep: (T, T) -> bool): (r: Option<seq<T>>)
    ensures r.None? <==> |v| > 0
    ensures r.Some? ==> r.value == Retained(v, keep) == []
  {
    DebugRetainedFrom(v, keep, 0)
  }

  /**
   * The elements of `v` a filter keeps when it compares each element with
   * the last element it KEPT, here `last` for the first of them.
   */
  function KeptAfter<T>(v: seq<T>, keep: (T, T) -> bool, last: T): (r: seq<T>)
    ensures IsSubsequence(r, v)
    ensures |r| > 0 ==> keep(r[0], last)
    ensures forall i :: 0 < i < |r| ==> keep(r[i], r[i - 1])
    ensures r == [] ==> forall i :: 0 <= i < |v| ==> !keep(v[i], last)
    decreases |v|
  {
    if v == [] then []
    else if keep(v[0], last) then
      var rest := KeptAfter(v[1..], keep, v[0]);
      assert ([v[0]] + rest)[1..] == rest;
      [v[0]] + rest
    else
      var rest := KeptAfter(v[1..], keep, last);
      assert forall i :: 0 < i < |v| ==> v[i] == v[1..][i - 1];
      rest
  }

  /** The last element of `r`, or `d` when `r` is empty. */
  function LastOr<T>(r: seq<T>, d: T): T {
    if r == [] then d else r[|r| - 1]
  }

  /**
   * `KeptAfter` works left to right: on `v + [x]` it keeps what it keeps
   * of `v`, then keeps `x` exactly when `x` passes against the element it
   * kept last (`last` when it has kept none).
   */
  lemma {:induction false} KeptAfterStep<T>(v: seq<T>, x: T, keep: (T, T) -> bool, last: T)
    ensures var r := KeptAfter(v, keep, last);
      KeptAfter(v + [x], keep, last) == r + (if keep(x, LastOr(r, last)) then [x] else [])
    decreases |v|
  {
    if v == [] {
      assert [] + [x] == [x];
      assert KeptAfter([x][1..], keep, x) == [] && KeptAfter([x][1..], keep, last) == [];
    } else {
      assert (v + [x])[0] == v[0] && (v + [x])[1..] == v[1..] + [x];
      var next := if keep(v[0], last) then v[0] else last;
      KeptAfterStep(v[1..], x, keep, next);
      var rest := KeptAfter(v[1..], keep, next);
      if keep(v[0], last) {
        assert LastOr([v[0]] + rest, last) == LastOr(rest, v[0]);
        assert [v[0]] + (rest + (if keep(x, LastOr(rest, next)) then [x] else [])) ==
          ([v[0]] + rest) + (if keep(x, LastOr(rest, next)) then [x] else []);
      }
    }
  }

  /**
   * The pairwise filter that the comment at src/main.rs:79-82 asks for: the
   * first element, then each element that passes against the last element
   * kept. Every kept element passes against the kept element before it, so
   * the result has no neighbouring pair that fails the predicate.
   */
  function RetainedAgainstKept<T>(v: seq<T>, keep: (T, T) -> bool): (r: seq<T>)
    ensures IsSubsequence(r, v)
    ensures |v| > 0 ==> |r| > 0 && r[0] == v[0]
    ensures forall i :: 0 < i < |r| ==> keep(r[i], r[i - 1])
  {
    if v == [] then []
    else
      var rest := KeptAfter(v[1..], keep, v[0]);
      assert ([v[0]] + rest)[1..] == rest;
      [v[0]] + rest
  }

  /**
   * The corrected filter works left to right: it keeps the first element,
   * and on `v + [x]` it keeps what it keeps of `v`, then keeps `x` exactly
   * when `x` passes against the element it kept last.
   */
  lemma {:induction false} RetainedAgainstKeptStep<T>(v: seq<T>, x: T, keep: (T, T) -> bool)
    ensures RetainedAgainstKept([x], keep) == [x]
    ensures var r := RetainedAgainstKept(v, keep);
      v != [] ==> |r| > 0 && RetainedAgainstKept(v + [x], keep) == r + (if keep(x, r[|r| - 1]) then [x] else [])
  {
    assert [x][1..] == [];
    if v != [] {
      assert (v + [x])[0] == v[0] && (v + [x])[1..] == v[1..] + [x];
      KeptAfterStep(v[1..], x, keep, v[0]);
      var rest := KeptAfter(v[1..], keep, v[0]);
      var r := [v[0]] + rest;
      assert LastOr(rest, v[0]) == r[|r| - 1];
      assert [v[0]] + (rest + (if keep(x, r[|r| - 1]) then [x] else [])) ==
        r + (if keep(x, r[|r| - 1]) then [x] else []);
    }
  }

  /**
   * Whether the filter `f`, on `u + [x]`, keeps what it keeps of a non-empty
   * `u` and then keeps `x` exactly when `x` passes against the element it
   * kept last.
   */
  predicate ExtendsAgainstKept<T(==)>(f: seq<T> -> seq<T>, keep: (T, T) -> bool, u: seq<T>, x: T) {
    u != [] ==> |f(u)| > 0 && f(u + [x]) == f(u) + (if keep(x, f(u)[|f(u)| - 1]) then [x] else [])
  }

  /**
   * The laws of `RetainedAgainstKeptStep` determine the corrected filter:
   * any filter that returns nothing for nothing, keeps a lone element, and
   * works left to right in the same way returns what it returns.
   */
  lemma {:induction false} RetainedAgainstKeptUnique<T>(f: seq<T> -> seq<T>, keep: (T, T) -> bool, v: seq<T>)
    requires f([]) == []
    requires forall x :: f([x]) == [x]
    requires forall u, x :: ExtendsAgainstKept(f, keep, u, x)
    ensures f(v) == RetainedAgainstKept(v, keep)
    decreases |v|
  {
    if |v| > 1 {
      var u, x := v[..|v| - 1], v[|v| - 1];
      assert v == u + [x];
      RetainedAgainstKeptUnique(f, keep, u);
      RetainedAgainstKeptStep(u, x, keep);
      assert ExtendsAgainstKept(f, keep, u, x);
    } else if |v| == 1 {
      assert v == [v[0]];
      RetainedAgainstKeptStep([], v[0], keep);
    }
  }
}
