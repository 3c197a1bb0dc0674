/** Order-preserving selection from sequences: the shape shared by every
    "loop over a list and append the ones that pass" in the system. */
module Seqs {

  /** The elements of `s` that satisfy `p`, in their original order.
      Defined from the back so that it matches a left-to-right loop that appends. */
  function Filter<T>(p: T -> bool, s: seq<T>): seq<T>
    decreases |s|
  {
    if s == [] then []
    else Filter(p, s[..|s| - 1]) + (if p(s[|s| - 1]) then [s[|s| - 1]] else [])
  }

  /** `idx` picks, in strictly increasing positions of `ys`, exactly the elements of `xs`. */
  ghost predicate SubsequenceVia<T>(xs: seq<T>, ys: seq<T>, idx: seq<int>)
  {
    && |idx| == |xs|
    && (forall k :: 0 <= k < |idx| ==> 0 <= idx[k] < |ys| && xs[k] == ys[idx[k]])
    && (forall k, l :: 0 <= k < l < |idx| ==> idx[k] < idx[l])
  }

  /** `xs` is obtained from `ys` by deleting elements, keeping the order of the rest. */
  ghost predicate IsSubsequence<T>(xs: seq<T>, ys: seq<T>)
  {
    exists idx :: SubsequenceVia(xs, ys, idx)
  }

  lemma {:induction false} FilterIsSubsequence<T>(p: T -> bool, s: seq<T>)
    ensures IsSubsequence(Filter(p, s), s)
    decreases |s|
  {
    if s == [] {
      assert SubsequenceVia(Filter(p, s), s, []);
    } else {
      var init := s[..|s| - 1];
      FilterIsSubsequence(p, init);
      var idx :| SubsequenceVia(Filter(p, init), init, idx);
      if p(s[|s| - 1]) {
        assert SubsequenceVia(Filter(p, s), s, idx + [|s| - 1]);
      } else {
        assert SubsequenceVia(Filter(p, s), s, idx);
      }
    }
  }

  /** An element is selected exactly when it occurs in the input and passes `p`. */
  lemma {:induction false} FilterMembership<T>(p: T -> bool, s: seq<T>, x: T)
    ensures x in Filter(p, s) <==> x in s && p(x)
    decreases |s|
  {
    if s != [] {
      FilterMembership(p, s[..|s| - 1], x);
      assert s == s[..|s| - 1] + [s[|s| - 1]];
    }
  }

  lemma {:induction false} FilterLength<T>(p: T -> bool, s: seq<T>)
    ensures |Filter(p, s)| <= |s|
    decreases |s|
  {
    if s != [] {
      FilterLength(p, s[..|s| - 1]);
    }
  }

  /** Selecting from a concatenation selects from each part independently:
      what happens to one element never affects the others. */
  lemma {:induction false} FilterAppend<T>(p: T -> bool, a: seq<T>, b: seq<T>)
    ensures Filter(p, a + b) == Filter(p, a) + Filter(p, b)
    decreases |b|
  {
    if b == [] {
      assert a + b == a;
    } else {
      var b' := b[..|b| - 1];
      assert (a + b)[..|a + b| - 1] == a + b';
      FilterAppend(p, a, b');
    }
  }

  /** When every element passes, nothing is removed. */
  lemma {:induction false} FilterKeepsAll<T>(p: T -> bool, s: seq<T>)
    requires forall k :: 0 <= k < |s| ==> p(s[k])
    ensures Filter(p, s) == s
    decreases |s|
  {
    if s != [] {
      FilterKeepsAll(p, s[..|s| - 1]);
    }
  }

  lemma SplitAt<T>(s: seq<T>, n: int)
    requires 0 <= n <= |s|
    ensures s[..n] + s[n..] == s
  {
  }
}
