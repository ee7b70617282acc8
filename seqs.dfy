/** Order-preserving filtering of sequences, the shape of JavaScript's `Array.prototype.filter`. */
module Seqs {

  /** The elements of `s` that satisfy `p`, in their original order. */
  function Filter<T>(s: seq<T>, p: T -> bool): (r: seq<T>)
    ensures |r| <= |s|
  {
    if s == [] then []
    else Filter(s[..|s| - 1], p) + (if p(s[|s| - 1]) then [s[|s| - 1]] else [])
  }

  /** Filtering one element more of `s`. */
  lemma FilterSnoc<T>(s: seq<T>, p: T -> bool, i: nat)
    requires i < |s|
    ensures Filter(s[..i + 1], p) == Filter(s[..i], p) + (if p(s[i]) then [s[i]] else [])
  {
    assert s[..i + 1][..i] == s[..i];
  }

  /** Every element kept satisfies the predicate. */
  lemma {:induction false} FilterSatisfies<T>(s: seq<T>, p: T -> bool)
    ensures forall k :: 0 <= k < |Filter(s, p)| ==> p(Filter(s, p)[k])
  {
    if s != [] {
      FilterSatisfies(s[..|s| - 1], p);
    }
  }

  /** An element is kept exactly when it occurs in the input and satisfies the predicate. */
  lemma {:induction false} FilterMembership<T>(s: seq<T>, p: T -> bool, x: T)
    ensures x in Filter(s, p) <==> x in s && p(x)
  {
    if s != [] {
      var init := s[..|s| - 1];
      FilterMembership(init, p, x);
      assert s == init + [s[|s| - 1]];
    }
  }

  /** Filtering distributes over concatenation: relative order is kept. */
  lemma {:induction false} FilterAppend<T>(a: seq<T>, b: seq<T>, p: T -> bool)
    ensures Filter(a + b, p) == Filter(a, p) + Filter(b, p)
  {
    if b != [] {
      var init := b[..|b| - 1];
      assert (a + b)[..|a + b| - 1] == a + init;
      assert (a + b)[|a + b| - 1] == b[|b| - 1];
      FilterAppend(a, init, p);
    } else {
      assert a + b == a;
    }
  }

  /** Filtering with a predicate that holds everywhere on the input is the identity. */
  lemma {:induction false} FilterKeepsAll<T>(s: seq<T>, p: T -> bool)
    requires forall k :: 0 <= k < |s| ==> p(s[k])
    ensures Filter(s, p) == s
  {
    if s != [] {
      FilterKeepsAll(s[..|s| - 1], p);
    }
  }

  /** Filtering with a predicate that fails everywhere on the input leaves nothing. */
  lemma {:induction false} FilterKeepsNone<T>(s: seq<T>, p: T -> bool)
    requires forall k :: 0 <= k < |s| ==> !p(s[k])
    ensures Filter(s, p) == []
  {
    if s != [] {
      FilterKeepsNone(s[..|s| - 1], p);
    }
  }

  /** Filtering by `p` and then by `q` is filtering once by their conjunction. */
  lemma {:induction false} FilterThenFilter<T>(s: seq<T>, p: T -> bool, q: T -> bool, both: T -> bool)
    requires forall x :: both(x) == (p(x) && q(x))
    ensures Filter(Filter(s, p), q) == Filter(s, both)
  {
    if s != [] {
      var init, last := s[..|s| - 1], s[|s| - 1];
      FilterThenFilter(init, p, q, both);
      var tail := if p(last) then [last] else [];
      FilterAppend(Filter(init, p), tail, q);
      if p(last) {
        assert Filter(tail, q) == Filter([], q) + (if q(last) then [last] else []);
      }
    }
  }

  /** Filtering depends only on the values the predicate takes. */
  lemma {:induction false} FilterCongruent<T>(s: seq<T>, p: T -> bool, q: T -> bool)
    requires forall x :: p(x) == q(x)
    ensures Filter(s, p) == Filter(s, q)
  {
    if s != [] {
      FilterCongruent(s[..|s| - 1], p, q);
    }
  }

  /** The elements kept and the elements dropped together are the input. */
  lemma {:induction false} FilterPartition<T>(s: seq<T>, p: T -> bool, notP: T -> bool)
    requires forall x :: notP(x) == !p(x)
    ensures multiset(Filter(s, p)) + multiset(Filter(s, notP)) == multiset(s)
  {
    if s != [] {
      var init := s[..|s| - 1];
      FilterPartition(init, p, notP);
      assert s == init + [s[|s| - 1]];
    }
  }

  /** `a` can be obtained from `b` by deleting elements: `idx` says where each element of `a` sits in `b`. */
  ghost predicate Embeds<T>(idx: seq<int>, a: seq<T>, b: seq<T>) {
    && |idx| == |a|
    && (forall k :: 0 <= k < |idx| ==> 0 <= idx[k] < |b| && a[k] == b[idx[k]])
    && (forall k, l :: 0 <= k < l < |idx| ==> idx[k] < idx[l])
  }

  /** `a` is an order-preserving subsequence of `b`. */
  ghost predicate IsSubsequence<T>(a: seq<T>, b: seq<T>) {
    exists idx :: Embeds(idx, a, b)
  }

  /** The positions of the input that `Filter` keeps. */
  lemma {:induction false} KeptIndices<T>(s: seq<T>, p: T -> bool) returns (idx: seq<int>)
    ensures Embeds(idx, Filter(s, p), s)
  {
    if s == [] {
      idx := [];
    } else {
      var init, x := s[..|s| - 1], s[|s| - 1];
      assert s == init + [x];
      var before := KeptIndices(init, p);
      if p(x) {
        assert Filter(s, p) == Filter(init, p) + [x];
        EmbedsBoth(before, Filter(init, p), init, x);
        idx := before + [|init|];
      } else {
        assert Filter(s, p) == Filter(init, p) + [];
        assert Filter(init, p) + [] == Filter(init, p);
        EmbedsLonger(before, Filter(init, p), init, x);
        idx := before;
      }
    }
  }

  lemma EmbedsLonger<T>(idx: seq<int>, a: seq<T>, b: seq<T>, x: T)
    requires Embeds(idx, a, b)
    ensures Embeds(idx, a, b + [x])
  {
    forall k | 0 <= k < |idx|
      ensures 0 <= idx[k] < |b + [x]| && a[k] == (b + [x])[idx[k]]
    {
    }
  }

  lemma EmbedsBoth<T>(idx: seq<int>, a: seq<T>, b: seq<T>, x: T)
    requires Embeds(idx, a, b)
    ensures Embeds(idx + [|b|], a + [x], b + [x])
  {
    var idx', a', b' := idx + [|b|], a + [x], b + [x];
    forall k | 0 <= k < |idx'|
      ensures 0 <= idx'[k] < |b'| && a'[k] == b'[idx'[k]]
    {
      if k < |idx| {
        assert idx'[k] == idx[k] && a'[k] == a[k];
      }
    }
  }

  /** The result of filtering is an order-preserving subsequence of the input. */
  lemma FilterIsSubsequence<T>(s: seq<T>, p: T -> bool)
    ensures IsSubsequence(Filter(s, p), s)
  {
    var idx := KeptIndices(s, p);
  }

  /** Proof helper, not a property of the engine: appending is associative, stated once so
      that callers need no extensionality step. */
  lemma AppendAssoc<T>(a: seq<T>, b: seq<T>, c: seq<T>)
    ensures a + b + c == a + (b + c)
  {
  }

  /** Proof helper, not a property of the engine: the prefix of full length is the whole
      sequence. */
  lemma WholePrefix<T>(s: seq<T>)
    ensures s[..|s|] == s
  {
  }

  /** Filtering that stops early: the elements of `s` are examined in order until `limit`
      of them have been kept or `s` is exhausted; `i` is how many were examined. */
  method FilterUpTo<T>(s: seq<T>, p: T -> bool, limit: nat) returns (found: seq<T>, i: nat)
    ensures i <= |s| && found == Filter(s[..i], p)
    ensures |found| <= limit && (i == |s| || |found| == limit)
  {
    found := [];
    i := 0;
    assert s[..0] == [];
    while i < |s| && |found| < limit
      invariant 0 <= i <= |s|
      invariant |found| <= limit
      invariant found == Filter(s[..i], p)
    {
      FilterSnoc(s, p, i);
      if p(s[i]) {
        found := found + [s[i]];
      }
      i := i + 1;
    }
  }
}
