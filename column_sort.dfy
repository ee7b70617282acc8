/** `sortColumn`: the comparator it hands to `Array.prototype.sort`, for text columns (the
    lower-cased cell, compared as JavaScript compares strings) and number columns (the
    cell's `parseFloat(value) || 0`, supplied as a parameter), ascending or descending. */
module ColumnSort {
  import opened Rows
  import opened Filters
  import Sorting
  import Seqs
  import opened Text

  /** Lexicographic order on code-unit sequences: the first differing unit decides, and a
      proper prefix comes first. */
  predicate UnitsLess(a: seq<int>, b: seq<int>)
    decreases |a|
  {
    if b == [] then false
    else if a == [] then true
    else if a[0] != b[0] then a[0] < b[0]
    else UnitsLess(a[1..], b[1..])
  }

  /** JavaScript's `a < b` on strings, which compares UTF-16 code units, not characters:
      a character above U+FFFF sorts by its high surrogate. */
  predicate StrLess(a: string, b: string) {
    UnitsLess(Utf16(a), Utf16(b))
  }

  /** The three facts behind `StrLessIsStrictTotalOrder`, on code-unit sequences. */
  lemma {:induction false} UnitsLessIrreflexive(a: seq<int>)
    ensures !UnitsLess(a, a)
    decreases |a|
  {
    if a != [] {
      UnitsLessIrreflexive(a[1..]);
    }
  }

  lemma {:induction false} UnitsLessTransitive(a: seq<int>, b: seq<int>, c: seq<int>)
    requires UnitsLess(a, b) && UnitsLess(b, c)
    ensures UnitsLess(a, c)
    decreases |a|
  {
    if a != [] && a[0] == b[0] && b[0] == c[0] {
      UnitsLessTransitive(a[1..], b[1..], c[1..]);
    }
  }

  lemma {:induction false} UnitsLessConnected(a: seq<int>, b: seq<int>)
    requires a != b
    ensures UnitsLess(a, b) || UnitsLess(b, a)
    decreases |a|
  {
    if a != [] && b != [] && a[0] == b[0] {
      assert a == [a[0]] + a[1..] && b == [b[0]] + b[1..];
      UnitsLessConnected(a[1..], b[1..]);
    }
  }

  /** `less` is irreflexive, transitive and relates any two different keys one way. */
  ghost predicate StrictTotalOrder<K(!new)>(less: (K, K) -> bool) {
    && (forall a :: !less(a, a))
    && (forall a, b, c :: less(a, b) && less(b, c) ==> less(a, c))
    && (forall a, b :: a != b ==> less(a, b) || less(b, a))
  }

  /** Because different strings have different UTF-16 encodings, comparing code units still
      orders strings totally. */
  lemma StrLessIsStrictTotalOrder()
    ensures StrictTotalOrder(StrLess)
  {
    forall a ensures !StrLess(a, a) {
      UnitsLessIrreflexive(Utf16(a));
    }
    forall a, b, c | StrLess(a, b) && StrLess(b, c) ensures StrLess(a, c) {
      UnitsLessTransitive(Utf16(a), Utf16(b), Utf16(c));
    }
    forall a, b | a != b ensures StrLess(a, b) || StrLess(b, a) {
      if Utf16(a) == Utf16(b) {
        Utf16Injective(a, b);
      }
      UnitsLessConnected(Utf16(a), Utf16(b));
    }
  }

  /** Code-unit order is not character order: U+1F600 (units D83D DE00) sorts before
      U+FF01 (unit FF01) although its code point is larger. */
  lemma SurrogatesSortLow()
    ensures '\U{1F600}' > '\U{FF01}'
    ensures StrLess("\U{1F600}", "\U{FF01}")
  {
    assert Utf16("\U{1F600}") == [0xD83D, 0xDE00] by {
      assert CodeUnits('\U{1F600}') == [0xD83D, 0xDE00];
    }
    assert Utf16("\U{FF01}") == [0xFF01];
  }

  /** JavaScript's `a < b` on the numbers `parseFloat` gives (never NaN after `|| 0`). */
  predicate RealLess(a: real, b: real) {
    a < b
  }

  lemma RealLessIsStrictTotalOrder()
    ensures StrictTotalOrder(RealLess)
  {
  }

  /** The comparator: -1, 1 or 0, with the signs swapped for a descending sort. */
  function Compare<K>(less: (K, K) -> bool, a: K, b: K, ascending: bool): int {
    if less(a, b) then (if ascending then -1 else 1)
    else if less(b, a) then (if ascending then 1 else -1)
    else 0
  }

  /** The stable sort keeps `x` before `y` exactly when the comparator gives at most 0. */
  function RowOrder<K>(key: Row -> K, less: (K, K) -> bool, ascending: bool): (Row, Row) -> bool {
    (x, y) => Compare(less, key(x), key(y), ascending) <= 0
  }

  /** `filteredData.sort(comparator)`. */
  function SortRows<K>(rows: seq<Row>, key: Row -> K, less: (K, K) -> bool, ascending: bool): seq<Row> {
    Sorting.SortBy(rows, RowOrder(key, less, ascending))
  }

  /** The key of a text column: `(row[column] || '').toString().toLowerCase()`. */
  function TextKey(ops: TextOps, headers: seq<string>, column: string): Row -> string {
    row => ops.lower(Lookup(headers, row, column))
  }

  /** The key of a number column: `parseFloat(row[column] || '') || 0`, where `number` is
      `parseFloat(v) || 0`. */
  function NumberKey(number: string -> real, headers: seq<string>, column: string): Row -> real {
    row => number(Lookup(headers, row, column))
  }

  /** Over a strict total order on keys the comparator is consistent: it orders any two rows
      and transitively. */
  lemma RowOrderIsConsistent<K(!new)>(key: Row -> K, less: (K, K) -> bool, ascending: bool)
    requires StrictTotalOrder(less)
    ensures Sorting.Total(RowOrder(key, less, ascending))
    ensures Sorting.Transitive(RowOrder(key, less, ascending))
  {
  }

  /** The rows whose key is `k`. */
  function HasKey<K(==)>(key: Row -> K, k: K): Row -> bool {
    row => key(row) == k
  }

  /** Two rows are ordered both ways exactly when their keys are equal. */
  lemma RowOrderBothWays<K(!new)>(key: Row -> K, less: (K, K) -> bool, ascending: bool, x: Row, y: Row)
    requires StrictTotalOrder(less)
    ensures (RowOrder(key, less, ascending)(x, y) && RowOrder(key, less, ascending)(y, x)) <==> key(x) == key(y)
  {
  }

  /** After the sort the rows are a permutation of the rows before and the keys run upwards
      (ascending) or downwards (descending). */
  lemma SortRowsOrdered<K(!new)>(rows: seq<Row>, key: Row -> K, less: (K, K) -> bool, ascending: bool)
    requires StrictTotalOrder(less)
    ensures var r := SortRows(rows, key, less, ascending);
      && multiset(r) == multiset(rows)
      && (forall i, j :: 0 <= i < j < |r| ==>
            if ascending then !less(key(r[j]), key(r[i])) else !less(key(r[i]), key(r[j])))
  {
    var leq := RowOrder(key, less, ascending);
    RowOrderIsConsistent(key, less, ascending);
    Sorting.SortBySorted(rows, leq);
  }

  /** The sort is stable: the rows with any one key keep their relative order. */
  lemma SortRowsStable<K(!new)>(rows: seq<Row>, key: Row -> K, less: (K, K) -> bool, ascending: bool, k: K)
    requires StrictTotalOrder(less)
    ensures Seqs.Filter(SortRows(rows, key, less, ascending), HasKey(key, k)) == Seqs.Filter(rows, HasKey(key, k))
  {
    var leq := RowOrder(key, less, ascending);
    var r := SortRows(rows, key, less, ascending);
    if exists row :: key(row) == k {
      var model :| key(model) == k;
      RowOrderIsConsistent(key, less, ascending);
      Sorting.SortByStable(rows, leq, model);
      var same := Sorting.EquivalentTo(leq, model);
      forall row
        ensures same(row) == HasKey(key, k)(row)
      {
        RowOrderBothWays(key, less, ascending, row, model);
      }
      Seqs.FilterCongruent(r, same, HasKey(key, k));
      Seqs.FilterCongruent(rows, same, HasKey(key, k));
    } else {
      Seqs.FilterKeepsNone(r, HasKey(key, k));
      Seqs.FilterKeepsNone(rows, HasKey(key, k));
    }
  }
}
