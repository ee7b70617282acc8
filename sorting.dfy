/** The comparison sort the engine gets from `Array.prototype.sort`, which is stable: an
    insertion sort that places each element after every earlier one it may follow. Both
    the column sort and the most-frequent-values ranking use it. */
module Sorting {
  import Seqs

  /** `leq` orders every pair one way or the other. */
  ghost predicate Total<T(!new)>(leq: (T, T) -> bool) {
    forall a, b :: leq(a, b) || leq(b, a)
  }

  ghost predicate Transitive<T(!new)>(leq: (T, T) -> bool) {
    forall a, b, c :: leq(a, b) && leq(b, c) ==> leq(a, c)
  }

  /** Every element may precede every later one. */
  ghost predicate Sorted<T>(s: seq<T>, leq: (T, T) -> bool) {
    forall i, j :: 0 <= i < j < |s| ==> leq(s[i], s[j])
  }

  /** `x` placed after the leading elements it may follow. */
  function Insert<T>(x: T, s: seq<T>, leq: (T, T) -> bool): (r: seq<T>)
    ensures multiset(r) == multiset(s) + multiset{x}
  {
    if s == [] then [x]
    else if leq(s[0], x) then
      assert s == [s[0]] + s[1..];
      [s[0]] + Insert(x, s[1..], leq)
    else [x] + s
  }

  /** The elements of `s` inserted one after another, first to last. */
  function SortBy<T>(s: seq<T>, leq: (T, T) -> bool): (r: seq<T>)
    ensures multiset(r) == multiset(s)
  {
    if s == [] then []
    else
      assert s == s[..|s| - 1] + [s[|s| - 1]];
      Insert(s[|s| - 1], SortBy(s[..|s| - 1], leq), leq)
  }

  lemma {:induction false} InsertSorted<T(!new)>(x: T, s: seq<T>, leq: (T, T) -> bool)
    requires Total(leq) && Transitive(leq)
    requires Sorted(s, leq)
    ensures Sorted(Insert(x, s, leq), leq)
  {
    if s != [] {
      var r := Insert(x, s, leq);
      if leq(s[0], x) {
        var tail := Insert(x, s[1..], leq);
        InsertSorted(x, s[1..], leq);
        forall j | 0 <= j < |tail|
          ensures leq(s[0], tail[j])
        {
          assert tail[j] in multiset(tail);
          assert tail[j] in multiset(s[1..]) || tail[j] == x;
          if tail[j] != x {
            var k :| 0 <= k < |s[1..]| && s[1..][k] == tail[j];
            assert s[k + 1] == tail[j];
          }
        }
        assert r == [s[0]] + tail;
      } else {
        assert leq(x, s[0]);
        assert r == [x] + s;
        forall j | 0 <= j < |s|
          ensures leq(x, s[j])
        {
          if j > 0 {
            assert leq(s[0], s[j]);
          }
        }
      }
    }
  }

  /** The result is in order and is a permutation of the input. */
  lemma {:induction false} SortBySorted<T(!new)>(s: seq<T>, leq: (T, T) -> bool)
    requires Total(leq) && Transitive(leq)
    ensures Sorted(SortBy(s, leq), leq)
    ensures multiset(SortBy(s, leq)) == multiset(s)
  {
    if s != [] {
      SortBySorted(s[..|s| - 1], leq);
      InsertSorted(s[|s| - 1], SortBy(s[..|s| - 1], leq), leq);
    }
  }

  /** The elements `leq` cannot tell apart from `e`. */
  function EquivalentTo<T>(leq: (T, T) -> bool, e: T): T -> bool {
    y => leq(y, e) && leq(e, y)
  }

  lemma FilterSingleton<T>(x: T, q: T -> bool)
    ensures Seqs.Filter([x], q) == if q(x) then [x] else []
  {
    assert [x][..0] == [];
  }

  /** When `x` goes before all of sorted `t`, nothing in `t` is equivalent to `x`. */
  lemma NoneEquivalentAfter<T(!new)>(x: T, t: seq<T>, leq: (T, T) -> bool, e: T)
    requires Total(leq) && Transitive(leq)
    requires Sorted(t, leq) && t != [] && !leq(t[0], x) && EquivalentTo(leq, e)(x)
    ensures Seqs.Filter(t, EquivalentTo(leq, e)) == []
  {
    var q := EquivalentTo(leq, e);
    forall k | 0 <= k < |t|
      ensures !q(t[k])
    {
      assert leq(t[0], t[k]);
    }
    Seqs.FilterKeepsNone(t, q);
  }

  lemma FilterConsStep<T>(y: T, tail: seq<T>, inserted: seq<T>, q: T -> bool, single: seq<T>)
    requires Seqs.Filter(inserted, q) == Seqs.Filter(tail, q) + single
    ensures Seqs.Filter([y] + inserted, q) == Seqs.Filter([y] + tail, q) + single
  {
    var head, rest := Seqs.Filter([y], q), Seqs.Filter(tail, q);
    calc {
      Seqs.Filter([y] + inserted, q);
      { Seqs.FilterAppend([y], inserted, q); }
      head + Seqs.Filter(inserted, q);
      head + (rest + single);
      (head + rest) + single;
      { Seqs.FilterAppend([y], tail, q); }
      Seqs.Filter([y] + tail, q) + single;
    }
  }

  lemma FilterFrontStep<T>(x: T, t: seq<T>, q: T -> bool)
    requires !q(x) || Seqs.Filter(t, q) == []
    ensures Seqs.Filter([x] + t, q) == Seqs.Filter(t, q) + Seqs.Filter([x], q)
  {
    Seqs.FilterAppend([x], t, q);
    FilterSingleton(x, q);
  }

  lemma {:induction false} InsertStable<T(!new)>(x: T, t: seq<T>, leq: (T, T) -> bool, e: T)
    requires Total(leq) && Transitive(leq)
    requires Sorted(t, leq)
    ensures var q := EquivalentTo(leq, e);
      Seqs.Filter(Insert(x, t, leq), q) == Seqs.Filter(t, q) + Seqs.Filter([x], q)
  {
    var q := EquivalentTo(leq, e);
    if t == [] {
      assert Insert(x, t, leq) == [x];
      assert Seqs.Filter(t, q) == [];
    } else if leq(t[0], x) {
      var rest := Insert(x, t[1..], leq);
      assert Insert(x, t, leq) == [t[0]] + rest;
      InsertStable(x, t[1..], leq, e);
      FilterConsStep(t[0], t[1..], rest, q, Seqs.Filter([x], q));
      assert [t[0]] + t[1..] == t;
    } else {
      assert Insert(x, t, leq) == [x] + t;
      if q(x) {
        NoneEquivalentAfter(x, t, leq, e);
      }
      FilterFrontStep(x, t, q);
    }
  }

  /** The sort is stable: the elements it cannot tell apart keep their relative order. */
  lemma {:induction false} SortByStable<T(!new)>(s: seq<T>, leq: (T, T) -> bool, e: T)
    requires Total(leq) && Transitive(leq)
    ensures Seqs.Filter(SortBy(s, leq), EquivalentTo(leq, e)) == Seqs.Filter(s, EquivalentTo(leq, e))
  {
    var q := EquivalentTo(leq, e);
    if s == [] {
      assert SortBy(s, leq) == [];
    } else {
      var init, last := s[..|s| - 1], s[|s| - 1];
      var sortedInit := SortBy(init, leq);
      calc {
        Seqs.Filter(SortBy(s, leq), q);
        { assert SortBy(s, leq) == Insert(last, sortedInit, leq); }
        Seqs.Filter(Insert(last, sortedInit, leq), q);
        { SortBySorted(init, leq); InsertStable(last, sortedInit, leq, e); }
        Seqs.Filter(sortedInit, q) + Seqs.Filter([last], q);
        { SortByStable(init, leq, e); }
        Seqs.Filter(init, q) + Seqs.Filter([last], q);
        { Seqs.FilterAppend(init, [last], q); assert init + [last] == s; }
        Seqs.Filter(s, q);
      }
    }
  }
}
