/**
 * Selecting elements of a sequence by a predicate while remembering where they came from:
 * what a boolean-mask selection on a table (`df[mask]`) keeps, as the positions it keeps.
 */
module Sequences {
  import opened Wrappers

  /** The positions `i` with `from <= i < |s|` whose element satisfies `p`, in ascending order. */
  function FilterIndicesFrom<T>(s: seq<T>, p: T -> bool, from: nat): (ix: seq<nat>)
    requires from <= |s|
    ensures forall k :: 0 <= k < |ix| ==> from <= ix[k] < |s|
    decreases |s| - from
  {
    if from == |s| then []
    else (if p(s[from]) then [from] else []) + FilterIndicesFrom(s, p, from + 1)
  }

  /** The positions of `s` whose element satisfies `p`, in ascending order. */
  function FilterIndices<T>(s: seq<T>, p: T -> bool): (ix: seq<nat>)
    ensures forall k :: 0 <= k < |ix| ==> ix[k] < |s|
  {
    FilterIndicesFrom(s, p, 0)
  }

  /** The ascending positions form a strictly increasing sequence. */
  predicate StrictlyIncreasing(ix: seq<nat>) {
    forall k, m :: 0 <= k < m < |ix| ==> ix[k] < ix[m]
  }

  lemma {:induction false} FilterIndicesFromIncreasing<T>(s: seq<T>, p: T -> bool, from: nat)
    requires from <= |s|
    ensures StrictlyIncreasing(FilterIndicesFrom(s, p, from))
    decreases |s| - from
  {
    if from < |s| {
      FilterIndicesFromIncreasing(s, p, from + 1);
    }
  }

  /** A position at or after `from` is selected exactly when its element satisfies `p`. */
  lemma {:induction false} FilterIndicesFromExact<T>(s: seq<T>, p: T -> bool, from: nat)
    requires from <= |s|
    ensures forall i :: from <= i < |s| ==> (i in FilterIndicesFrom(s, p, from) <==> p(s[i]))
    decreases |s| - from
  {
    if from < |s| {
      FilterIndicesFromExact(s, p, from + 1);
    }
  }

  /** `FilterIndices(s, p)` lists exactly the positions whose element satisfies `p`, in order. */
  lemma FilterIndicesSpec<T>(s: seq<T>, p: T -> bool)
    ensures StrictlyIncreasing(FilterIndices(s, p))
    ensures forall i :: 0 <= i < |s| ==> (i in FilterIndices(s, p) <==> p(s[i]))
  {
    FilterIndicesFromIncreasing(s, p, 0);
    FilterIndicesFromExact(s, p, 0);
  }

  /** When every element satisfies `p`, every position is selected. */
  lemma {:induction false} FilterIndicesFromAll<T>(s: seq<T>, p: T -> bool, from: nat)
    requires from <= |s|
    requires forall i :: from <= i < |s| ==> p(s[i])
    ensures FilterIndicesFrom(s, p, from) == seq(|s| - from, k => from + k)
    decreases |s| - from
  {
    if from < |s| {
      FilterIndicesFromAll(s, p, from + 1);
    }
  }

  lemma FilterIndicesAll<T>(s: seq<T>, p: T -> bool)
    requires forall i :: 0 <= i < |s| ==> p(s[i])
    ensures FilterIndices(s, p) == seq(|s|, k => k)
  {
    FilterIndicesFromAll(s, p, 0);
  }

  /** `f` applied to each listed position of `s` and the element there, in the listed order. */
  function MapAt<T, U>(s: seq<T>, ix: seq<nat>, f: (T, nat) -> U): (r: seq<U>)
    requires forall k :: 0 <= k < |ix| ==> ix[k] < |s|
    ensures |r| == |ix|
  {
    seq(|ix|, k requires 0 <= k < |ix| => f(s[ix[k]], ix[k]))
  }

  /** The k-th result is `f` applied to the element at the k-th listed position and that position. */
  lemma MapAtIndex<T, U>(s: seq<T>, ix: seq<nat>, f: (T, nat) -> U, k: nat)
    requires k < |ix| && forall j :: 0 <= j < |ix| ==> ix[j] < |s|
    ensures MapAt(s, ix, f)[k] == f(s[ix[k]], ix[k])
  {
  }

  /** Extending the list of positions by one extends the result by one, at the end. */
  lemma MapAtSnoc<T, U>(s: seq<T>, ix: seq<nat>, f: (T, nat) -> U, k: nat)
    requires k < |ix| && forall j :: 0 <= j < |ix| ==> ix[j] < |s|
    ensures MapAt(s, ix[..k + 1], f) == MapAt(s, ix[..k], f) + [f(s[ix[k]], ix[k])]
  {
  }

  /** The concatenated results of `f` on each element, in order; the first element on which `f`
    * fails makes the whole fail with its error. */
  function ConcatResults<T, U>(xs: seq<T>, f: T -> Result<seq<U>>): Result<seq<U>>
    decreases |xs|
  {
    if xs == [] then Ok([])
    else
      match ConcatResults(xs[..|xs| - 1], f)
      case Err(m) => Err(m)
      case Ok(earlier) =>
        match f(xs[|xs| - 1])
        case Err(m) => Err(m)
        case Ok(last) => Ok(earlier + last)
  }

  /** Two results one after the other: the first error wins, otherwise the values are concatenated. */
  function Combine<U>(a: Result<seq<U>>, b: Result<seq<U>>): Result<seq<U>> {
    match a
    case Err(m) => Err(m)
    case Ok(x) => (match b case Err(m) => Err(m) case Ok(y) => Ok(x + y))
  }

  lemma CombineAssoc<U>(a: Result<seq<U>>, b: Result<seq<U>>, c: Result<seq<U>>)
    ensures Combine(Combine(a, b), c) == Combine(a, Combine(b, c))
  {
    if a.Ok? && b.Ok? && c.Ok? {
      assert a.value + b.value + c.value == a.value + (b.value + c.value);
    }
  }

  /** The results for `xs + ys` are those for `xs` followed by those for `ys`. */
  lemma {:induction false} ConcatResultsAppend<T, U>(xs: seq<T>, ys: seq<T>, f: T -> Result<seq<U>>)
    ensures ConcatResults(xs + ys, f) == Combine(ConcatResults(xs, f), ConcatResults(ys, f))
    decreases |ys|
  {
    if ys == [] {
      assert xs + ys == xs;
      var a := ConcatResults(xs, f);
      assert a.Ok? ==> a.value + [] == a.value;
    } else {
      var ys' := ys[..|ys| - 1];
      var last := ys[|ys| - 1];
      ConcatResultsAppend(xs, ys', f);
      assert (xs + ys)[..|xs + ys| - 1] == xs + ys';
      assert (xs + ys)[|xs + ys| - 1] == last;
      assert ConcatResults(ys, f) == Combine(ConcatResults(ys', f), f(last));
      assert ConcatResults(xs + ys, f) == Combine(ConcatResults(xs + ys', f), f(last));
      CombineAssoc(ConcatResults(xs, f), ConcatResults(ys', f), f(last));
    }
  }

  /** Once some prefix fails, the whole fails with the same error. */
  lemma ConcatResultsErrorPersists<T, U>(xs: seq<T>, f: T -> Result<seq<U>>, j: nat)
    requires j <= |xs| && ConcatResults(xs[..j], f).Err?
    ensures ConcatResults(xs, f) == ConcatResults(xs[..j], f)
  {
    ConcatResultsAppend(xs[..j], xs[j..], f);
    assert xs[..j] + xs[j..] == xs;
  }
}
