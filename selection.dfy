/**
 * Order-preserving selection: a sequence that holds, in order, an image of
 * exactly those elements of another sequence that pass a filter. Both the
 * spine walk (dangling idrefs skipped) and the image loop (images that do
 * not open skipped) produce one.
 */
module Selections {
  /**
   * ys holds, in order, f(xs[i], i) for each position i whose element passes
   * keep, picked out by the strictly increasing positions idx: every such
   * position is picked, and only those.
   */
  ghost predicate Selected<T, U>(xs: seq<T>, keep: T -> bool, f: (T, nat) -> U, ys: seq<U>, idx: seq<nat>)
  {
    && |idx| == |ys|
    && (forall j | 0 <= j < |idx| :: idx[j] < |xs| && keep(xs[idx[j]]) && ys[j] == f(xs[idx[j]], idx[j]))
    && (forall j, l | 0 <= j < l < |idx| :: idx[j] < idx[l])
    && (forall k | 0 <= k < |xs| && keep(xs[k]) :: k in idx)
  }

  /** Nothing is selected from nothing. */
  lemma SelectedNone<T, U>(keep: T -> bool, f: (T, nat) -> U)
    ensures Selected([], keep, f, [], [])
  {
  }

  /** When the last element passes, a selection for the elements before it extends by that element's image. */
  lemma ExtendKept<T, U>(xs: seq<T>, keep: T -> bool, f: (T, nat) -> U, ys: seq<U>, idx: seq<nat>)
    requires xs != [] && keep(xs[|xs| - 1])
    requires Selected(xs[..|xs| - 1], keep, f, ys, idx)
    ensures Selected(xs, keep, f, ys + [f(xs[|xs| - 1], |xs| - 1)], idx + [|xs| - 1])
  {
    var n := |xs| - 1;
    var init := xs[..n];
    var idx' := idx + [n];
    var ys' := ys + [f(xs[n], n)];
    forall j | 0 <= j < |idx'|
      ensures idx'[j] < |xs| && keep(xs[idx'[j]]) && ys'[j] == f(xs[idx'[j]], idx'[j])
    {
      if j < |idx| {
        assert idx'[j] == idx[j] && ys'[j] == ys[j];
        assert init[idx[j]] == xs[idx[j]];
      }
    }
    forall k | 0 <= k < |xs| && keep(xs[k])
      ensures k in idx'
    {
      if k < n {
        assert init[k] == xs[k];
        assert k in idx;
      }
    }
  }

  /** When the last element fails, a selection for the elements before it is one for all of them. */
  lemma ExtendDropped<T, U>(xs: seq<T>, keep: T -> bool, f: (T, nat) -> U, ys: seq<U>, idx: seq<nat>)
    requires xs != [] && !keep(xs[|xs| - 1])
    requires Selected(xs[..|xs| - 1], keep, f, ys, idx)
    ensures Selected(xs, keep, f, ys, idx)
  {
    var n := |xs| - 1;
    var init := xs[..n];
    forall j | 0 <= j < |idx|
      ensures idx[j] < |xs| && keep(xs[idx[j]]) && ys[j] == f(xs[idx[j]], idx[j])
    {
      assert init[idx[j]] == xs[idx[j]];
    }
    forall k | 0 <= k < |xs| && keep(xs[k])
      ensures k in idx
    {
      assert k < n && init[k] == xs[k];
    }
  }

  /** A selection is empty exactly when no element passes. */
  lemma SelectedEmptyIffNoneKept<T, U>(xs: seq<T>, keep: T -> bool, f: (T, nat) -> U, ys: seq<U>, idx: seq<nat>)
    requires Selected(xs, keep, f, ys, idx)
    ensures ys == [] <==> forall k | 0 <= k < |xs| :: !keep(xs[k])
  {
    if ys != [] {
      assert keep(xs[idx[0]]);
    }
    if exists k | 0 <= k < |xs| :: keep(xs[k]) {
      var k :| 0 <= k < |xs| && keep(xs[k]);
      assert k in idx;
    }
  }
}
