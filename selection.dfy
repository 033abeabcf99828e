/** Order-preserving filter-and-map over a sequence, the shape shared by the
    extractor's two "keep what passes a test, in order" loops: the detection
    filter of the OCR post-processing and the entry collection of the frame
    loop.  The definition peels the LAST element, matching a loop that appends. */
module Selection {

  /** The images under `f` of the elements of `xs` that satisfy `keep`, in order. */
  function Select<T, U>(xs: seq<T>, keep: T -> bool, f: T -> U): (r: seq<U>)
    ensures |r| <= |xs|
    decreases |xs|
  {
    if xs == [] then []
    else
      var init := Select(xs[..|xs| - 1], keep, f);
      if keep(xs[|xs| - 1]) then init + [f(xs[|xs| - 1])] else init
  }

  /** The positions of `xs` whose element satisfies `keep`, in increasing order. */
  function Picked<T>(xs: seq<T>, keep: T -> bool): (r: seq<nat>)
    ensures forall k :: 0 <= k < |r| ==> r[k] < |xs|
    decreases |xs|
  {
    if xs == [] then []
    else
      var init := Picked(xs[..|xs| - 1], keep);
      if keep(xs[|xs| - 1]) then init + [|xs| - 1] else init
  }

  /** Strictly increasing sequences of positions. */
  predicate Increasing(idx: seq<nat>)
  {
    forall k, l :: 0 <= k < l < |idx| ==> idx[k] < idx[l]
  }

  /** Picked lists each position whose element passes `keep`, and no other. */
  lemma {:induction false} PickedExactly<T>(xs: seq<T>, keep: T -> bool)
    ensures Increasing(Picked(xs, keep))
    ensures forall i :: 0 <= i < |xs| ==> (i in Picked(xs, keep) <==> keep(xs[i]))
    decreases |xs|
  {
    if xs != [] {
      var n := |xs| - 1;
      var init := xs[..n];
      PickedExactly(init, keep);
      assert forall i :: 0 <= i < n ==> init[i] == xs[i];
    }
  }

  /** Element k of the selection is the image of the element at the k-th picked position. */
  lemma {:induction false} SelectAt<T, U>(xs: seq<T>, keep: T -> bool, f: T -> U)
    ensures |Select(xs, keep, f)| == |Picked(xs, keep)|
    ensures forall k :: 0 <= k < |Picked(xs, keep)| ==>
              Select(xs, keep, f)[k] == f(xs[Picked(xs, keep)[k]])
    decreases |xs|
  {
    if xs != [] {
      var n := |xs| - 1;
      var init := xs[..n];
      SelectAt(init, keep, f);
      assert forall i :: 0 <= i < n ==> init[i] == xs[i];
    }
  }

  /** Select keeps exactly the elements that pass `keep`, at positions given by
      Picked, each mapped through `f`, in their original order. */
  lemma SelectByPosition<T, U>(xs: seq<T>, keep: T -> bool, f: T -> U)
    ensures |Select(xs, keep, f)| == |Picked(xs, keep)|
    ensures Increasing(Picked(xs, keep))
    ensures forall k :: 0 <= k < |Picked(xs, keep)| ==>
              Select(xs, keep, f)[k] == f(xs[Picked(xs, keep)[k]])
    ensures forall i :: 0 <= i < |xs| ==> (i in Picked(xs, keep) <==> keep(xs[i]))
  {
    PickedExactly(xs, keep);
    SelectAt(xs, keep, f);
  }

  /** One more element of `xs` adds its image to the selection when it passes `keep`. */
  lemma SelectStep<T, U>(xs: seq<T>, k: nat, keep: T -> bool, f: T -> U)
    requires k < |xs|
    ensures Select(xs[..k + 1], keep, f) ==
      if keep(xs[k]) then Select(xs[..k], keep, f) + [f(xs[k])] else Select(xs[..k], keep, f)
  {
    assert xs[..k + 1][..k] == xs[..k];
  }

  /** Selecting from a concatenation selects from each part. */
  lemma {:induction false} SelectAppend<T, U>(xs: seq<T>, ys: seq<T>, keep: T -> bool, f: T -> U)
    ensures Select(xs + ys, keep, f) == Select(xs, keep, f) + Select(ys, keep, f)
    decreases |ys|
  {
    if ys != [] {
      var ys' := ys[..|ys| - 1];
      assert (xs + ys)[..|xs + ys| - 1] == xs + ys';
      SelectAppend(xs, ys', keep, f);
    } else {
      assert xs + ys == xs;
    }
  }

  /** Removing an element that fails `keep` does not change the selection. */
  lemma DropRejected<T, U>(xs: seq<T>, i: nat, keep: T -> bool, f: T -> U)
    requires i < |xs| && !keep(xs[i])
    ensures Select(xs[..i] + xs[i + 1..], keep, f) == Select(xs, keep, f)
  {
    assert xs == xs[..i] + [xs[i]] + xs[i + 1..];
    DropBetween(xs[..i], xs[i], xs[i + 1..], keep, f);
  }

  lemma DropBetween<T, U>(a: seq<T>, x: T, b: seq<T>, keep: T -> bool, f: T -> U)
    requires !keep(x)
    ensures Select(a + [x] + b, keep, f) == Select(a + b, keep, f)
  {
    assert Select(a + [x], keep, f) == Select(a, keep, f) by {
      assert (a + [x])[..|a|] == a;
    }
    SelectAppend(a + [x], b, keep, f);
    SelectAppend(a, b, keep, f);
  }
}
