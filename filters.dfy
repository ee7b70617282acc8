/** The filter evaluator: how the filter list is assembled from the filter editor, the
    per-operator test, the conjunction over all filters, and the capped variant that stops
    after `limit` matches. Lower-casing and regular-expression matching are parameters
    (`TextOps`), since they belong to the JavaScript engine. */
module Filters {
  import opened Text
  import opened Rows
  import Seqs

  /** The engine's text services: `toLowerCase`, and `new RegExp(pattern, 'i').test(text)`
      (false when the pattern does not compile). */
  datatype TextOps = TextOps(lower: string -> string, regexTest: (string, string) -> bool)

  /** The operators of the filter editor. */
  datatype Operator =
    | Contains | Equals | StartsWith | EndsWith | NotContains | NotEquals
    | IsEmpty | IsNotEmpty | Regex | Unrecognised

  /** The editor's name for each recognised operator. */
  function OperatorName(op: Operator): string {
    match op
    case Contains => "contains"
    case Equals => "equals"
    case StartsWith => "starts_with"
    case EndsWith => "ends_with"
    case NotContains => "not_contains"
    case NotEquals => "not_equals"
    case IsEmpty => "is_empty"
    case IsNotEmpty => "is_not_empty"
    case Regex => "regex"
    case Unrecognised => ""
  }

  /** The `switch (filter.operator)`: any other name falls to `default`. */
  function OperatorOf(name: string): Operator {
    if name == "contains" then Contains
    else if name == "equals" then Equals
    else if name == "starts_with" then StartsWith
    else if name == "ends_with" then EndsWith
    else if name == "not_contains" then NotContains
    else if name == "not_equals" then NotEquals
    else if name == "is_empty" then IsEmpty
    else if name == "is_not_empty" then IsNotEmpty
    else if name == "regex" then Regex
    else Unrecognised
  }

  /** Names and operators correspond one to one; every other name is unrecognised. */
  lemma OperatorNames(op: Operator, name: string)
    ensures op != Unrecognised ==> OperatorOf(OperatorName(op)) == op
    ensures OperatorOf(name) != Unrecognised ==> OperatorName(OperatorOf(name)) == name
  {
  }

  /** One filter as the editor holds it: column, operator name and value text. */
  datatype Filter = Filter(column: string, operator: string, value: string)

  /** `column && (value || operator === 'is_empty' || operator === 'is_not_empty')`. */
  predicate IsComplete(f: Filter) {
    f.column != "" && (f.value != "" || f.operator == "is_empty" || f.operator == "is_not_empty")
  }

  /** The filter list built from the editor rows (`getCurrentFilters` and the loop at the
      start of both apply operations). */
  function Assemble(editor: seq<Filter>): (fs: seq<Filter>)
    ensures |fs| <= |editor|
  {
    Seqs.Filter(editor, IsComplete)
  }

  /** Every assembled filter is complete. */
  lemma AssembleComplete(editor: seq<Filter>)
    ensures forall k :: 0 <= k < |Assemble(editor)| ==> IsComplete(Assemble(editor)[k])
  {
    Seqs.FilterSatisfies(editor, IsComplete);
  }

  /** Exactly the complete editor rows are kept, in editor order. */
  lemma AssembleKeeps(editor: seq<Filter>, f: Filter)
    ensures f in Assemble(editor) <==> f in editor && IsComplete(f)
    ensures Seqs.IsSubsequence(Assemble(editor), editor)
  {
    Seqs.FilterMembership(editor, IsComplete, f);
    Seqs.FilterIsSubsequence(editor, IsComplete);
  }

  /** `(row[filter.column] || '').toString().toLowerCase()`. */
  function CellValue(ops: TextOps, headers: seq<string>, row: Row, column: string): string {
    ops.lower(Lookup(headers, row, column))
  }

  /** `filter.value ? filter.value.toLowerCase() : ''`. */
  function FilterValue(ops: TextOps, f: Filter): string {
    if f.value != "" then ops.lower(f.value) else ""
  }

  /** Whether `row` passes filter `f`. */
  predicate Holds(ops: TextOps, headers: seq<string>, f: Filter, row: Row) {
    var cell, value := CellValue(ops, headers, row, f.column), FilterValue(ops, f);
    match OperatorOf(f.operator)
    case Contains => Includes(cell, value)
    case Equals => cell == value
    case StartsWith => Text.StartsWith(cell, value)
    case EndsWith => Text.EndsWith(cell, value)
    case NotContains => !Includes(cell, value)
    case NotEquals => cell != value
    case IsEmpty => cell == ""
    case IsNotEmpty => cell != ""
    case Regex => ops.regexTest(f.value, cell)
    case Unrecognised => true
  }

  /** The negated operators are the exact complements of their positive forms, an unknown
      operator passes every row, and a column that is not among the headers reads as the
      lower-cased empty string. */
  lemma OperatorFacts(ops: TextOps, headers: seq<string>, row: Row, column: string, value: string, name: string)
    ensures Holds(ops, headers, Filter(column, "not_contains", value), row)
      == !Holds(ops, headers, Filter(column, "contains", value), row)
    ensures Holds(ops, headers, Filter(column, "not_equals", value), row)
      == !Holds(ops, headers, Filter(column, "equals", value), row)
    ensures Holds(ops, headers, Filter(column, "is_not_empty", value), row)
      == !Holds(ops, headers, Filter(column, "is_empty", value), row)
    ensures OperatorOf(name) == Unrecognised ==> Holds(ops, headers, Filter(column, name, value), row)
    ensures column !in headers ==> CellValue(ops, headers, row, column) == ops.lower("")
  {
  }

  /** `this.filters.every(...)`. */
  predicate MatchesAll(ops: TextOps, headers: seq<string>, fs: seq<Filter>, row: Row) {
    forall k :: 0 <= k < |fs| ==> Holds(ops, headers, fs[k], row)
  }

  /** `this.csvData.filter(row => this.filters.every(...))`. */
  function ApplyAll(ops: TextOps, headers: seq<string>, rows: seq<Row>, fs: seq<Filter>): (r: seq<Row>)
    ensures |r| <= |rows|
  {
    Seqs.Filter(rows, row => MatchesAll(ops, headers, fs, row))
  }

  /** The result holds exactly the rows that pass every filter, in their original order. */
  lemma ApplyAllKeeps(ops: TextOps, headers: seq<string>, rows: seq<Row>, fs: seq<Filter>, row: Row)
    ensures row in ApplyAll(ops, headers, rows, fs) <==> row in rows && MatchesAll(ops, headers, fs, row)
    ensures Seqs.IsSubsequence(ApplyAll(ops, headers, rows, fs), rows)
  {
    Seqs.FilterMembership(rows, row => MatchesAll(ops, headers, fs, row), row);
    Seqs.FilterIsSubsequence(rows, row => MatchesAll(ops, headers, fs, row));
  }

  /** With no filters every row is kept: the result is a full copy of the data. */
  lemma ApplyNone(ops: TextOps, headers: seq<string>, rows: seq<Row>)
    ensures ApplyAll(ops, headers, rows, []) == rows
  {
    Seqs.FilterKeepsAll(rows, row => MatchesAll(ops, headers, [], row));
  }

  /** Filtering the data in two parts gives the two results one after the other. */
  lemma ApplyAllAppend(ops: TextOps, headers: seq<string>, a: seq<Row>, b: seq<Row>, fs: seq<Filter>)
    ensures ApplyAll(ops, headers, a + b, fs) == ApplyAll(ops, headers, a, fs) + ApplyAll(ops, headers, b, fs)
  {
    Seqs.FilterAppend(a, b, row => MatchesAll(ops, headers, fs, row));
  }

  /** A row passes a concatenation of filter lists exactly when it passes both lists. */
  lemma MatchesAllAppend(ops: TextOps, headers: seq<string>, fs: seq<Filter>, gs: seq<Filter>, row: Row)
    ensures MatchesAll(ops, headers, fs + gs, row)
      <==> MatchesAll(ops, headers, fs, row) && MatchesAll(ops, headers, gs, row)
  {
    if MatchesAll(ops, headers, fs + gs, row) {
      forall k | 0 <= k < |fs|
        ensures Holds(ops, headers, fs[k], row)
      {
        assert (fs + gs)[k] == fs[k];
      }
      forall k | 0 <= k < |gs|
        ensures Holds(ops, headers, gs[k], row)
      {
        assert (fs + gs)[|fs| + k] == gs[k];
      }
    }
  }

  /** Applying one filter list and then another is applying both lists at once. */
  lemma ApplyAllThen(ops: TextOps, headers: seq<string>, rows: seq<Row>, fs: seq<Filter>, gs: seq<Filter>)
    ensures ApplyAll(ops, headers, ApplyAll(ops, headers, rows, fs), gs) == ApplyAll(ops, headers, rows, fs + gs)
  {
    var both := row => MatchesAll(ops, headers, fs + gs, row);
    forall row
      ensures both(row) == (MatchesAll(ops, headers, fs, row) && MatchesAll(ops, headers, gs, row))
    {
      MatchesAllAppend(ops, headers, fs, gs, row);
    }
    Seqs.FilterThenFilter(rows, row => MatchesAll(ops, headers, fs, row),
      row => MatchesAll(ops, headers, gs, row), both);
  }

  /** Re-applying the same filters changes nothing. */
  lemma ApplyAllIdempotent(ops: TextOps, headers: seq<string>, rows: seq<Row>, fs: seq<Filter>)
    ensures ApplyAll(ops, headers, ApplyAll(ops, headers, rows, fs), fs) == ApplyAll(ops, headers, rows, fs)
  {
    var p := row => MatchesAll(ops, headers, fs, row);
    Seqs.FilterThenFilter(rows, p, p, p);
  }

  function Min(a: int, b: int): int {
    if a <= b then a else b
  }

  /** What `applyFiltersWithLimit(limit)` shows and whether it marks the results limited. */
  datatype View = View(rows: seq<Row>, limited: bool)

  /** With no filters: the first `limit` rows, limited when there were more. With filters:
      the first `limit` matches, limited when `limit` were found. */
  function CappedView(ops: TextOps, headers: seq<string>, rows: seq<Row>, fs: seq<Filter>, limit: nat): View {
    if fs == [] then View(rows[..Min(limit, |rows|)], |rows| > limit)
    else
      var all := ApplyAll(ops, headers, rows, fs);
      var shown := all[..Min(limit, |all|)];
      View(shown, |shown| >= limit)
  }

  /** The capped view is the start of the uncapped result: exactly `min(limit, matches)`
      rows of it. When the view is not marked limited it is the whole uncapped result, and
      when it is marked limited it holds exactly `limit` rows. */
  lemma CappedIsPrefix(ops: TextOps, headers: seq<string>, rows: seq<Row>, fs: seq<Filter>, limit: nat)
    ensures var v, all := CappedView(ops, headers, rows, fs, limit), ApplyAll(ops, headers, rows, fs);
      && |v.rows| == Min(limit, |all|)
      && v.rows == all[..|v.rows|]
      && (!v.limited ==> v.rows == all)
      && (v.limited ==> |v.rows| == limit)
  {
    ApplyNone(ops, headers, rows);
  }

  /** One more row of the scan: the result grows by that row exactly when it matches. */
  lemma ApplyAllStep(ops: TextOps, headers: seq<string>, rows: seq<Row>, fs: seq<Filter>, i: nat)
    requires i < |rows|
    ensures ApplyAll(ops, headers, rows[..i + 1], fs)
      == ApplyAll(ops, headers, rows[..i], fs) + (if MatchesAll(ops, headers, fs, rows[i]) then [rows[i]] else [])
  {
    assert rows[..i + 1] == rows[..i] + [rows[i]];
    ApplyAllAppend(ops, headers, rows[..i], [rows[i]], fs);
    assert [rows[i]][..0] == [];
  }

  /** The scan of `applyFiltersWithLimit` may stop once it has `limit` matches or has seen
      every row: the matches so far are then the capped view. */
  lemma ScanGivesCappedView(ops: TextOps, headers: seq<string>, rows: seq<Row>, fs: seq<Filter>, limit: nat, i: nat)
    requires fs != [] && i <= |rows|
    requires var found := ApplyAll(ops, headers, rows[..i], fs);
      |found| <= limit && (i == |rows| || |found| == limit)
    ensures var found := ApplyAll(ops, headers, rows[..i], fs);
      CappedView(ops, headers, rows, fs, limit) == View(found, |found| >= limit)
  {
    var found := ApplyAll(ops, headers, rows[..i], fs);
    var all := ApplyAll(ops, headers, rows, fs);
    assert rows[..i] + rows[i..] == rows;
    ApplyAllAppend(ops, headers, rows[..i], rows[i..], fs);
    assert all == found + ApplyAll(ops, headers, rows[i..], fs);
    if i == |rows| {
      assert rows[..i] == rows;
      assert all[..|all|] == all;
    } else {
      assert all[..limit] == found;
    }
  }

  /** The scan of `applyFiltersWithLimit` when filters are active: rows are examined in
      order until `limit` matches are found; the results are flagged limited when the scan
      reached `limit` matches. */
  method ScanMatches(ops: TextOps, headers: seq<string>, rows: seq<Row>, fs: seq<Filter>, limit: nat)
    returns (found: seq<Row>, limited: bool)
    requires fs != []
    ensures View(found, limited) == CappedView(ops, headers, rows, fs, limit)
  {
    var i;
    found, i := Seqs.FilterUpTo(rows, row => MatchesAll(ops, headers, fs, row), limit);
    ScanGivesCappedView(ops, headers, rows, fs, limit, i);
    limited := |found| >= limit;
  }

  /** The capped flag quirk: with filters, finding exactly `limit` matches marks the results
      limited although nothing was left out; with no filters, exactly `limit` rows are not
      marked limited. */
  lemma CappedAtExactLimit(ops: TextOps, headers: seq<string>, rows: seq<Row>, fs: seq<Filter>, limit: nat)
    requires |ApplyAll(ops, headers, rows, fs)| == limit
    ensures var v := CappedView(ops, headers, rows, fs, limit);
      v.rows == ApplyAll(ops, headers, rows, fs) && (v.limited <==> fs != [])
  {
    ApplyNone(ops, headers, rows);
  }
}
