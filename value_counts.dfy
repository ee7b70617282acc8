/** `performAnalysis`: for each chosen column, how often each trimmed non-empty value
    occurs in the data, ranked by count, highest first, and cut to the ten most frequent.
    The count dictionary is a JavaScript object, so `Object.entries` lists its keys that are
    array indices first, in increasing numeric order, and then the other keys in the order
    they were first added; the stable sort by count keeps that order among equal counts. */
module ValueCounts {
  import opened Text
  import opened Rows
  import opened Filters
  import Sorting
  import Seqs

  /** One dictionary entry: a value and how often it occurs. */
  datatype Entry = Entry(value: string, count: nat)

  /** How many values the analysis keeps per column. */
  const TopCount: nat := 10

  /** The trimmed, non-empty values of a column, row by row. */
  function CleanValues(headers: seq<string>, rows: seq<Row>, header: string): seq<string> {
    if rows == [] then []
    else
      var v := Trim(Lookup(headers, rows[|rows| - 1], header));
      CleanValues(headers, rows[..|rows| - 1], header) + (if v != "" then [v] else [])
  }

  /** The position of the entry for `v`, or -1 when there is none. */
  function Find(counts: seq<Entry>, v: string): (k: int)
    ensures -1 <= k < |counts|
    ensures k >= 0 ==> counts[k].value == v
    ensures k == -1 ==> forall j :: 0 <= j < |counts| ==> counts[j].value != v
  {
    if counts == [] then -1
    else if counts[|counts| - 1].value == v then |counts| - 1
    else Find(counts[..|counts| - 1], v)
  }

  /** `valueCounts[v] = (valueCounts[v] || 0) + 1`: a new key is added at the end. */
  function Bump(counts: seq<Entry>, v: string): seq<Entry> {
    var k := Find(counts, v);
    if k >= 0 then counts[k := Entry(v, counts[k].count + 1)] else counts + [Entry(v, 1)]
  }

  /** The count dictionary after counting `values` in order. */
  function Tally(values: seq<string>): seq<Entry> {
    if values == [] then [] else Bump(Tally(values[..|values| - 1]), values[|values| - 1])
  }

  predicate DistinctValues(counts: seq<Entry>) {
    forall i, j :: 0 <= i < j < |counts| ==> counts[i].value != counts[j].value
  }

  /** `t` has one entry per distinct value of `values`, and each entry's count is the
      number of times its value occurs. */
  ghost predicate Counts(t: seq<Entry>, values: seq<string>) {
    && DistinctValues(t)
    && (forall k :: 0 <= k < |t| ==> t[k].count == multiset(values)[t[k].value] >= 1)
    && (forall v :: v in values <==> exists k :: 0 <= k < |t| && t[k].value == v)
  }

  /** The dictionary has one entry per distinct value, and each entry's count is the number
      of times its value occurs. */
  lemma {:induction false} TallyCounts(values: seq<string>)
    ensures var t := Tally(values);
      && DistinctValues(t)
      && (forall k :: 0 <= k < |t| ==> t[k].count == multiset(values)[t[k].value] >= 1)
      && (forall v :: v in values <==> exists k :: 0 <= k < |t| && t[k].value == v)
  {
    if values != [] {
      var init, v := values[..|values| - 1], values[|values| - 1];
      assert values == init + [v];
      TallyCounts(init);
      var before := Tally(init);
      assert Tally(values) == Bump(before, v);
      if Find(before, v) >= 0 {
        BumpExisting(before, init, v);
      } else {
        BumpNew(before, init, v);
      }
    }
  }

  /** Counting a value already in the dictionary raises its count by one. */
  lemma BumpExisting(before: seq<Entry>, init: seq<string>, v: string)
    requires Counts(before, init) && Find(before, v) >= 0
    ensures Counts(Bump(before, v), init + [v])
  {
    var k := Find(before, v);
    var t := before[k := Entry(v, before[k].count + 1)];
    assert Bump(before, v) == t;
    RaisedCounts(before, init, v, k, t);
  }

  lemma RaisedCounts(before: seq<Entry>, init: seq<string>, v: string, k: int, t: seq<Entry>)
    requires Counts(before, init) && 0 <= k < |before| && before[k].value == v
    requires t == before[k := Entry(v, before[k].count + 1)]
    ensures Counts(t, init + [v])
  {
    BumpExistingCounts(before, init, v, k, t);
    BumpExistingMembers(before, init, v, k, t);
  }

  lemma BumpExistingCounts(before: seq<Entry>, init: seq<string>, v: string, k: int, t: seq<Entry>)
    requires Counts(before, init) && 0 <= k < |before| && before[k].value == v
    requires t == before[k := Entry(v, before[k].count + 1)]
    ensures DistinctValues(t)
    ensures forall j :: 0 <= j < |t| ==> t[j].count == multiset(init + [v])[t[j].value] >= 1
  {
    var values := init + [v];
    assert multiset(values) == multiset(init) + multiset{v};
    forall j | 0 <= j < |t|
      ensures t[j].count == multiset(values)[t[j].value] >= 1
    {
      if j != k {
        assert t[j] == before[j];
      }
    }
  }

  lemma BumpExistingMembers(before: seq<Entry>, init: seq<string>, v: string, k: int, t: seq<Entry>)
    requires Counts(before, init) && 0 <= k < |before| && before[k].value == v
    requires t == before[k := Entry(v, before[k].count + 1)]
    ensures forall w :: w in init + [v] <==> exists j :: 0 <= j < |t| && t[j].value == w
  {
    var values := init + [v];
    forall w
      ensures w in values <==> exists j :: 0 <= j < |t| && t[j].value == w
    {
      if w in init {
        var j :| 0 <= j < |before| && before[j].value == w;
        assert t[j].value == w;
      }
      if w == v {
        assert t[k].value == w;
      }
      if exists j :: 0 <= j < |t| && t[j].value == w {
        var j :| 0 <= j < |t| && t[j].value == w;
        if j != k {
          assert before[j].value == w;
        }
      }
    }
  }

  /** Counting a new value adds an entry with count one at the end. */
  lemma BumpNew(before: seq<Entry>, init: seq<string>, v: string)
    requires Counts(before, init) && Find(before, v) < 0
    ensures Counts(Bump(before, v), init + [v])
  {
    var t := Bump(before, v);
    assert v !in init;
    assert t == before + [Entry(v, 1)];
    BumpNewCounts(before, init, v, t);
    BumpNewMembers(before, init, v, t);
  }

  lemma BumpNewCounts(before: seq<Entry>, init: seq<string>, v: string, t: seq<Entry>)
    requires Counts(before, init) && v !in init && t == before + [Entry(v, 1)]
    ensures DistinctValues(t)
    ensures forall j :: 0 <= j < |t| ==> t[j].count == multiset(init + [v])[t[j].value] >= 1
  {
    var values := init + [v];
    assert multiset(values) == multiset(init) + multiset{v};
    forall j | 0 <= j < |t|
      ensures t[j].count == multiset(values)[t[j].value] >= 1
    {
      if j < |before| {
        assert t[j] == before[j];
      }
    }
  }

  lemma BumpNewMembers(before: seq<Entry>, init: seq<string>, v: string, t: seq<Entry>)
    requires Counts(before, init) && t == before + [Entry(v, 1)]
    ensures forall w :: w in init + [v] <==> exists j :: 0 <= j < |t| && t[j].value == w
  {
    var values := init + [v];
    forall w
      ensures w in values <==> exists j :: 0 <= j < |t| && t[j].value == w
    {
      if w in init {
        var j :| 0 <= j < |before| && before[j].value == w;
        assert t[j].value == w;
      }
      if w == v {
        assert t[|before|].value == w;
      }
      if exists j :: 0 <= j < |t| && t[j].value == w {
        var j :| 0 <= j < |t| && t[j].value == w;
        if j < |before| {
          assert before[j].value == w;
        }
      }
    }
  }


  // ---------------------------------------------------------------------------------------
  // The order of `Object.entries`

  predicate IsDigit(c: char) {
    '0' <= c <= '9'
  }

  /** The decimal value of a string of digits (non-digits count as 0). */
  function DigitsValue(s: string): nat {
    if s == [] then 0
    else
      var c := s[|s| - 1];
      DigitsValue(s[..|s| - 1]) * 10 + (if IsDigit(c) then c as int - '0' as int else 0)
  }

  /** A key that JavaScript treats as an array index: a decimal number without leading
      zeros below 2^32 - 1. */
  predicate IsArrayIndex(s: string) {
    && |s| >= 1
    && (forall i :: 0 <= i < |s| ==> IsDigit(s[i]))
    && (s[0] == '0' ==> |s| == 1)
    && DigitsValue(s) < 0xFFFF_FFFF
  }

  predicate IsIndexEntry(e: Entry) {
    IsArrayIndex(e.value)
  }

  predicate IsNamedEntry(e: Entry) {
    !IsArrayIndex(e.value)
  }

  /** Array-index keys in increasing numeric order. */
  function IndexOrder(): (Entry, Entry) -> bool {
    (a: Entry, b: Entry) => DigitsValue(a.value) <= DigitsValue(b.value)
  }

  /** `Object.entries(valueCounts)`. */
  function Entries(counts: seq<Entry>): seq<Entry> {
    Sorting.SortBy(Seqs.Filter(counts, IsIndexEntry), IndexOrder()) + Seqs.Filter(counts, IsNamedEntry)
  }

  /** `Object.entries` lists every entry once. */
  lemma EntriesPermutation(counts: seq<Entry>)
    ensures multiset(Entries(counts)) == multiset(counts)
  {
    Seqs.FilterPartition(counts, IsIndexEntry, IsNamedEntry);
  }

  /** With no key that looks like an array index the entries come in insertion order, that
      is in the order the values first occur. */
  lemma EntriesInsertionOrder(counts: seq<Entry>)
    requires forall k :: 0 <= k < |counts| ==> !IsArrayIndex(counts[k].value)
    ensures Entries(counts) == counts
  {
    Seqs.FilterKeepsNone(counts, IsIndexEntry);
    Seqs.FilterKeepsAll(counts, IsNamedEntry);
  }

  // ---------------------------------------------------------------------------------------
  // Ranking

  /** The comparator `([, a], [, b]) => b - a`: an entry may stay before another when its
      count is not smaller. */
  function ByCountDescending(): (Entry, Entry) -> bool {
    (a: Entry, b: Entry) => b.count - a.count <= 0
  }

  /** The entries sorted by count, highest first. */
  function Rank(counts: seq<Entry>): seq<Entry> {
    Sorting.SortBy(Entries(counts), ByCountDescending())
  }

  /** `.slice(0, 10)` of the ranked entries. */
  function TopOf(counts: seq<Entry>): seq<Entry> {
    var ranked := Rank(counts);
    ranked[..Min(TopCount, |ranked|)]
  }

  /** What `performAnalysis` stores for one column. */
  function TopValues(headers: seq<string>, rows: seq<Row>, header: string): seq<Entry> {
    TopOf(Tally(CleanValues(headers, rows, header)))
  }

  /** Ranking lists the dictionary's entries, each once, by count, highest first. */
  lemma RankSpec(counts: seq<Entry>)
    ensures var r := Rank(counts);
      && multiset(r) == multiset(counts)
      && forall i, j :: 0 <= i < j < |r| ==> r[i].count >= r[j].count
  {
    EntriesPermutation(counts);
    Sorting.SortBySorted(Entries(counts), ByCountDescending());
  }

  /** The ten highest-ranked entries: at most ten, highest count first, each an entry of
      the dictionary, and no entry left out has a higher count than any entry kept. */
  lemma TopOfSpec(counts: seq<Entry>)
    ensures var top := TopOf(counts);
      && |top| == Min(TopCount, |counts|)
      && (forall i, j :: 0 <= i < j < |top| ==> top[i].count >= top[j].count)
      && (forall k :: 0 <= k < |top| ==> top[k] in counts)
      && (forall e :: e in counts && e !in top ==> forall k :: 0 <= k < |top| ==> top[k].count >= e.count)
  {
    RankSpec(counts);
    PrefixOfRanked(Rank(counts), counts, Min(TopCount, |Rank(counts)|));
  }

  /** A prefix of a permutation of `counts` ordered by count holds entries of `counts`, and
      every entry outside it has a count no higher than any entry in it. */
  lemma PrefixOfRanked(r: seq<Entry>, counts: seq<Entry>, n: nat)
    requires multiset(r) == multiset(counts) && n <= |r|
    requires forall i, j :: 0 <= i < j < |r| ==> r[i].count >= r[j].count
    ensures |r| == |counts|
    ensures forall k :: 0 <= k < n ==> r[..n][k] in counts
    ensures forall e :: e in counts && e !in r[..n] ==> forall k :: 0 <= k < n ==> r[k].count >= e.count
  {
    assert |r| == |counts| by {
      assert |multiset(r)| == |multiset(counts)|;
    }
    forall k | 0 <= k < n
      ensures r[..n][k] in counts
    {
      assert r[..n][k] == r[k];
      assert r[k] in multiset(counts);
    }
    forall e | e in counts && e !in r[..n]
      ensures forall k :: 0 <= k < n ==> r[k].count >= e.count
    {
      assert e in multiset(r);
      var j :| 0 <= j < |r| && r[j] == e;
      forall k | 0 <= k < n
        ensures r[k] != e
      {
        assert r[..n][k] == r[k];
      }
    }
  }

  /** The stored values are the most frequent ones of the column: at most ten, highest
      count first, each with the number of times it occurs among the column's trimmed
      non-empty values, and no value left out occurs more often than any value kept. */
  lemma TopValuesSpec(headers: seq<string>, rows: seq<Row>, header: string)
    ensures var vs, top := CleanValues(headers, rows, header), TopValues(headers, rows, header);
      var t := Tally(vs);
      && |top| == Min(TopCount, |t|)
      && (forall i, j :: 0 <= i < j < |top| ==> top[i].count >= top[j].count)
      && (forall k :: 0 <= k < |top| ==> top[k].value in vs && top[k].count == multiset(vs)[top[k].value])
      && (forall e :: e in t && e !in top ==> forall k :: 0 <= k < |top| ==> top[k].count >= e.count)
  {
    var vs := CleanValues(headers, rows, header);
    var t := Tally(vs);
    var top := TopOf(t);
    TopOfSpec(t);
    TallyCounts(vs);
    KeptCounts(t, vs, top);
  }

  /** Entries taken from the dictionary of `vs` carry values of `vs` with their counts. */
  lemma KeptCounts(t: seq<Entry>, vs: seq<string>, top: seq<Entry>)
    requires forall k :: 0 <= k < |t| ==> t[k].count == multiset(vs)[t[k].value] >= 1
    requires forall v :: v in vs <==> exists k :: 0 <= k < |t| && t[k].value == v
    requires forall k :: 0 <= k < |top| ==> top[k] in t
    ensures forall k :: 0 <= k < |top| ==> top[k].value in vs && top[k].count == multiset(vs)[top[k].value]
  {
    forall k | 0 <= k < |top|
      ensures top[k].value in vs && top[k].count == multiset(vs)[top[k].value]
    {
      var m :| 0 <= m < |t| && t[m] == top[k];
    }
  }

  /** Counting one more row. */
  lemma TallyStep(headers: seq<string>, rows: seq<Row>, header: string, i: int)
    requires 0 <= i < |rows|
    ensures var v := Trim(Lookup(headers, rows[i], header));
      var before := Tally(CleanValues(headers, rows[..i], header));
      Tally(CleanValues(headers, rows[..i + 1], header)) == if v != "" then Bump(before, v) else before
  {
    var v := Trim(Lookup(headers, rows[i], header));
    var vs := CleanValues(headers, rows[..i], header);
    CleanValuesStep(headers, rows, header, i);
    if v != "" {
      TallySnoc(vs, v);
    } else {
      assert vs + [] == vs;
    }
  }

  lemma CleanValuesStep(headers: seq<string>, rows: seq<Row>, header: string, i: int)
    requires 0 <= i < |rows|
    ensures var v := Trim(Lookup(headers, rows[i], header));
      CleanValues(headers, rows[..i + 1], header)
        == CleanValues(headers, rows[..i], header) + (if v != "" then [v] else [])
  {
    assert rows[..i + 1][..i] == rows[..i];
  }

  lemma NothingCounted(headers: seq<string>, rows: seq<Row>, header: string)
    ensures Tally(CleanValues(headers, rows[..0], header)) == []
  {
    assert rows[..0] == [];
  }

  lemma TallySnoc(vs: seq<string>, v: string)
    ensures Tally(vs + [v]) == Bump(Tally(vs), v)
  {
    assert (vs + [v])[..|vs|] == vs;
  }

  /** The loop of `performAnalysis` over the rows for one column, filling the count
      dictionary. */
  method CountValues(headers: seq<string>, rows: seq<Row>, header: string) returns (counts: seq<Entry>)
    ensures counts == Tally(CleanValues(headers, rows, header))
  {
    counts := [];
    var i := 0;
    NothingCounted(headers, rows, header);
    while i < |rows|
      invariant 0 <= i <= |rows|
      invariant counts == Tally(CleanValues(headers, rows[..i], header))
    {
      var value := Lookup(headers, rows[i], header);
      var cleanValue := Trim(value);
      TallyStep(headers, rows, header, i);
      if cleanValue != "" {
        counts := Bump(counts, cleanValue);
      }
      i := i + 1;
    }
    assert i == |rows|;
    Seqs.WholePrefix(rows);
  }

  /** The body of the per-column loop of `performAnalysis`: count the column's values, then
      keep the ten most frequent. */
  method AnalyzeColumn(headers: seq<string>, rows: seq<Row>, header: string) returns (top: seq<Entry>)
    ensures top == TopValues(headers, rows, header)
  {
    var valueCounts := CountValues(headers, rows, header);
    top := TopOf(valueCounts);
  }

  /** The analysis of the columns `keys[..i + 1]` is that of `keys[..i]` with column
      `keys[i]` added. */
  lemma AnalysisStep(headers: seq<string>, rows: seq<Row>, keys: seq<string>, i: nat)
    requires i < |keys|
    ensures (map h | h in keys[..i + 1] :: TopValues(headers, rows, h))
      == (map h | h in keys[..i] :: TopValues(headers, rows, h))[keys[i] := TopValues(headers, rows, keys[i])]
  {
    assert keys[..i + 1] == keys[..i] + [keys[i]];
  }

  /** The loop of `performAnalysis` over the chosen columns: each column's top values go
      into the dictionary under the column's name. */
  method AnalyzeColumns(headers: seq<string>, rows: seq<Row>, selected: seq<string>)
    returns (analysis: map<string, seq<Entry>>)
    ensures analysis == map h | h in selected :: TopValues(headers, rows, h)
  {
    analysis := map[];
    var i := 0;
    assert selected[..i] == [];
    while i < |selected|
      invariant 0 <= i <= |selected|
      invariant analysis == map h | h in selected[..i] :: TopValues(headers, rows, h)
    {
      var header := selected[i];
      var sortedValues := AnalyzeColumn(headers, rows, header);
      AnalysisStep(headers, rows, selected, i);
      analysis := analysis[header := sortedValues];
      i := i + 1;
    }
    assert i == |selected|;
    assert selected[..i] == selected;
  }
}
