/**
  Order-preserving filtering of sequences: the shape shared by every loop of
  the form `for x in xs: if cond(x): results.append(x)` and by list
  comprehensions with an `if`.
*/
module Seqs {

  /** The elements of `xs` satisfying `f`, in their original order.
      Defined from the end, as a loop that appends builds it. */
  function Filter<T>(xs: seq<T>, f: T -> bool): seq<T>
  {
    if xs == [] then []
    else if f(xs[|xs| - 1]) then Filter(xs[..|xs| - 1], f) + [xs[|xs| - 1]]
    else Filter(xs[..|xs| - 1], f)
  }

  /** The positions of `xs` whose element satisfies `f`, in increasing order. */
  ghost function KeptIndices<T>(xs: seq<T>, f: T -> bool): seq<int>
  {
    if xs == [] then []
    else if f(xs[|xs| - 1]) then KeptIndices(xs[..|xs| - 1], f) + [|xs| - 1]
    else KeptIndices(xs[..|xs| - 1], f)
  }

  /** `sub` is the subsequence of `xs` taken at the strictly increasing positions `idx`. */
  ghost predicate IsSubsequenceAt<T>(sub: seq<T>, xs: seq<T>, idx: seq<int>)
  {
    && |idx| == |sub|
    && (forall k :: 0 <= k < |idx| ==> 0 <= idx[k] < |xs| && sub[k] == xs[idx[k]])
    && (forall k, l :: 0 <= k < l < |idx| ==> idx[k] < idx[l])
  }

  /** Appending one element to the input appends it to the filtered output exactly when it passes. */
  lemma FilterSnoc<T>(xs: seq<T>, x: T, f: T -> bool)
    ensures Filter(xs + [x], f) == if f(x) then Filter(xs, f) + [x] else Filter(xs, f)
  {
  }

  /** The filtered output is the subsequence of the input at exactly the positions whose element passes. */
  lemma {:induction false} FilterIsSubsequence<T>(xs: seq<T>, f: T -> bool)
    ensures IsSubsequenceAt(Filter(xs, f), xs, KeptIndices(xs, f))
    ensures forall i :: 0 <= i < |xs| ==> (i in KeptIndices(xs, f) <==> f(xs[i]))
  {
    if xs != [] {
      var init := xs[..|xs| - 1];
      FilterIsSubsequence(init, f);
      assert forall i :: 0 <= i < |init| ==> xs[i] == init[i];
    }
  }

  /** An element occurs in the filtered output iff it occurs in the input and passes. */
  lemma {:induction false} FilterMembership<T>(xs: seq<T>, f: T -> bool)
    ensures forall x :: x in Filter(xs, f) <==> x in xs && f(x)
  {
    if xs != [] {
      var init := xs[..|xs| - 1];
      FilterMembership(init, f);
      assert xs == init + [xs[|xs| - 1]];
    }
  }

  /** Filtering keeps the input unchanged when every element passes. */
  lemma {:induction false} FilterAll<T>(xs: seq<T>, f: T -> bool)
    requires forall i :: 0 <= i < |xs| ==> f(xs[i])
    ensures Filter(xs, f) == xs
  {
    if xs != [] {
      var init := xs[..|xs| - 1];
      assert forall i :: 0 <= i < |init| ==> init[i] == xs[i];
      FilterAll(init, f);
      assert f(xs[|xs| - 1]);
      assert init + [xs[|xs| - 1]] == xs;
    }
  }

  /** Filtering yields nothing when no element passes. */
  lemma {:induction false} FilterNone<T>(xs: seq<T>, f: T -> bool)
    requires forall i :: 0 <= i < |xs| ==> !f(xs[i])
    ensures Filter(xs, f) == []
  {
    if xs != [] {
      var init := xs[..|xs| - 1];
      assert forall i :: 0 <= i < |init| ==> init[i] == xs[i];
      FilterNone(init, f);
      assert !f(xs[|xs| - 1]);
    }
  }
}
