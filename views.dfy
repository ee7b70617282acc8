/** The views of the filtered rows the tool renders and exports: the visible columns
    (`getVisibleHeaders`), the page slice of `renderTable` and the page arithmetic of
    `renderPagination`, narrowing by a search term (`searchWithinResults`), deleting the
    selected rows (`deleteSelectedRows`) and the CSV text of an export (`downloadData`). */
module Views {
  import opened Text
  import opened Rows
  import opened LineTokenizer
  import opened CellFormat
  import opened Filters
  import Seqs

  // ---------------------------------------------------------------------------------------
  // Visible columns

  /** The columns hidden when "remove internal fields" is checked. */
  const InternalFields: seq<string> := [
    "route_cost", "hlr_lookup_cost", "gateway", "gateway_id", "gateway_error_code",
    "routing_rule_seq", "channel", "srr", "date_submitted"
  ]

  predicate IsShown(header: string) {
    header !in InternalFields
  }

  /** The headers in their order, without the internal ones when `removeInternal` is set. */
  function VisibleHeaders(headers: seq<string>, removeInternal: bool): seq<string> {
    if removeInternal then Seqs.Filter(headers, IsShown) else headers
  }

  /** A header is visible exactly when it is a header and is not hidden; the visible headers
      keep the header order, and nothing is hidden when the box is not checked. */
  lemma VisibleHeadersKeeps(headers: seq<string>, removeInternal: bool, h: string)
    ensures h in VisibleHeaders(headers, removeInternal)
      <==> h in headers && (!removeInternal || h !in InternalFields)
    ensures Seqs.IsSubsequence(VisibleHeaders(headers, removeInternal), headers)
    ensures !removeInternal ==> VisibleHeaders(headers, removeInternal) == headers
  {
    if removeInternal {
      Seqs.FilterMembership(headers, IsShown, h);
      Seqs.FilterIsSubsequence(headers, IsShown);
    } else {
      var idx := seq(|headers|, k => k);
      assert Seqs.Embeds(idx, headers, headers);
    }
  }

  // ---------------------------------------------------------------------------------------
  // Pages

  /** `this.rowsPerPage`. */
  const RowsPerPage: nat := 20

  /** Where `Array.prototype.slice` puts a position: a negative one counts from the end, and
      the result is clamped to the sequence. */
  function SlicePosition(i: int, n: nat): (r: nat)
    ensures r <= n
    ensures 0 <= i <= n ==> r == i
    ensures i > n ==> r == n
    ensures i < 0 ==> r == (if n + i < 0 then 0 else n + i)
  {
    if i < 0 then (if n + i < 0 then 0 else n + i)
    else if i > n then n
    else i
  }

  /** `s.slice(start, end)`. */
  function Slice<T>(s: seq<T>, start: int, end: int): seq<T> {
    var from, to := SlicePosition(start, |s|), SlicePosition(end, |s|);
    if from < to then s[from..to] else []
  }

  /** The rows `renderTable` shows on `page`; the page number is used as it is. */
  function PageRows(data: seq<Row>, page: int): seq<Row> {
    var start := (page - 1) * RowsPerPage;
    Slice(data, start, Min(start + RowsPerPage, |data|))
  }

  /** `Math.ceil(n / rowsPerPage)`. */
  function TotalPages(n: nat): nat {
    (n + RowsPerPage - 1) / RowsPerPage
  }

  /** On a page from 1 on, the rows shown are the next `RowsPerPage` rows from the page's
      start, fewer on the last page, none past the last page. A page holds rows exactly when
      it is one of the `TotalPages` pages. */
  lemma PageRowsOfPage(data: seq<Row>, page: int)
    requires page >= 1
    ensures var start := (page - 1) * RowsPerPage;
      PageRows(data, page) == if start < |data| then data[start..Min(start + RowsPerPage, |data|)] else []
    ensures |PageRows(data, page)| <= RowsPerPage
    ensures PageRows(data, page) != [] <==> page <= TotalPages(|data|)
  {
  }

  /** Since `goToPage` does not clamp: page 0 shows nothing, and page -1 shows the twenty
      rows that end twenty before the last, because `slice` counts negative positions from
      the end. */
  lemma UnclampedPages(data: seq<Row>)
    ensures PageRows(data, 0) == []
    ensures |data| >= 2 * RowsPerPage ==>
      PageRows(data, -1) == data[|data| - 2 * RowsPerPage..|data| - RowsPerPage]
  {
  }

  /** The first `k` pages, one after another. */
  function PagesUpTo(data: seq<Row>, k: nat): seq<Row> {
    if k == 0 then [] else PagesUpTo(data, k - 1) + PageRows(data, k)
  }

  /** The first `k` pages are the first `k * RowsPerPage` rows. */
  lemma {:induction false} PagesUpToPrefix(data: seq<Row>, k: nat)
    ensures PagesUpTo(data, k) == data[..Min(k * RowsPerPage, |data|)]
  {
    if k > 0 {
      PagesUpToPrefix(data, k - 1);
      PageRowsOfPage(data, k);
      var a, b := Min((k - 1) * RowsPerPage, |data|), Min(k * RowsPerPage, |data|);
      assert data[..b] == data[..a] + data[a..b];
    }
  }

  /** The pages 1 to `TotalPages` show every row once, in order. */
  lemma PagesCoverData(data: seq<Row>)
    ensures PagesUpTo(data, TotalPages(|data|)) == data
  {
    PagesUpToPrefix(data, TotalPages(|data|));
  }

  /** The "Showing x to y" numbers of `renderPagination`. */
  function ShowingFrom(page: int): int {
    (page - 1) * RowsPerPage + 1
  }

  function ShowingTo(page: int, n: nat): int {
    Min(page * RowsPerPage, n)
  }

  /** On a page of the table, "Showing x to y" names exactly the rows the table shows. */
  lemma ShowingMatchesPage(data: seq<Row>, page: int)
    requires 1 <= page <= TotalPages(|data|)
    ensures var from, to := ShowingFrom(page), ShowingTo(page, |data|);
      1 <= from <= to <= |data| && PageRows(data, page) == data[from - 1..to]
  {
    PageRowsOfPage(data, page);
  }

  /** The numbered buttons: up to two pages either side of the current one. */
  datatype Window = Window(first: int, last: int)

  function PageWindow(page: int, total: nat): Window {
    Window(if page - 2 > 1 then page - 2 else 1, Min(total, page + 2))
  }

  /** For a page of the table the window lies within the pages, holds the current page and
      at most five buttons, and holds five whenever there are five pages around it. */
  lemma PageWindowBounds(page: int, total: nat)
    requires 1 <= page <= total
    ensures var w := PageWindow(page, total);
      && 1 <= w.first <= page <= w.last <= total
      && w.last - w.first <= 4
      && (3 <= page <= total - 2 ==> w.last - w.first == 4)
  {
  }

  // ---------------------------------------------------------------------------------------
  // Search within results

  /** Some column of the row, lower-cased, contains the (already lower-cased) term. */
  predicate Mentions(ops: TextOps, headers: seq<string>, row: Row, term: string) {
    exists k :: 0 <= k < |headers| && Includes(ops.lower(Lookup(headers, row, headers[k])), term)
  }

  /** `filteredData.filter(row => headers.some(...))`. */
  function Narrow(ops: TextOps, headers: seq<string>, rows: seq<Row>, term: string): seq<Row> {
    Seqs.Filter(rows, row => Mentions(ops, headers, row, term))
  }

  /** Narrowing keeps exactly the rows that mention the term, in their order. */
  lemma NarrowKeeps(ops: TextOps, headers: seq<string>, rows: seq<Row>, term: string, row: Row)
    ensures row in Narrow(ops, headers, rows, term) <==> row in rows && Mentions(ops, headers, row, term)
    ensures Seqs.IsSubsequence(Narrow(ops, headers, rows, term), rows)
  {
    Seqs.FilterMembership(rows, row => Mentions(ops, headers, row, term), row);
    Seqs.FilterIsSubsequence(rows, row => Mentions(ops, headers, row, term));
  }

  /** Typing on: when the new term extends the old one (contains it), narrowing the already
      narrowed rows is the same as narrowing the original rows by the new term alone. */
  lemma NarrowRefines(ops: TextOps, headers: seq<string>, rows: seq<Row>, term: string, longer: string)
    requires Includes(longer, term)
    ensures Narrow(ops, headers, Narrow(ops, headers, rows, term), longer) == Narrow(ops, headers, rows, longer)
  {
    var p := row => Mentions(ops, headers, row, term);
    var q := row => Mentions(ops, headers, row, longer);
    forall row
      ensures q(row) == (p(row) && q(row))
    {
      if q(row) {
        var k :| 0 <= k < |headers| && Includes(ops.lower(Lookup(headers, row, headers[k])), longer);
        IncludesTransitive(ops.lower(Lookup(headers, row, headers[k])), longer, term);
      }
    }
    Seqs.FilterThenFilter(rows, p, q, q);
  }

  // ---------------------------------------------------------------------------------------
  // Deleting selected rows

  /** The rows of `s` whose position, counted from `base`, is not selected. */
  function RemoveFrom<T>(s: seq<T>, selected: set<nat>, base: nat): (r: seq<T>)
    ensures |r| <= |s|
  {
    if s == [] then []
    else RemoveFrom(s[..|s| - 1], selected, base) + (if base + |s| - 1 in selected then [] else [s[|s| - 1]])
  }

  /** The rows left after deleting the selected positions. */
  function RemoveSelected<T>(s: seq<T>, selected: set<nat>): seq<T> {
    RemoveFrom(s, selected, 0)
  }

  /** The unselected positions below `n`, in increasing order. */
  function KeptPositions(n: nat, selected: set<nat>): (r: seq<nat>)
    ensures forall k :: 0 <= k < |r| ==> r[k] < n && r[k] !in selected
    ensures forall k, l :: 0 <= k < l < |r| ==> r[k] < r[l]
    ensures forall i: nat :: i < n && i !in selected ==> i in r
  {
    if n == 0 then [] else KeptPositions(n - 1, selected) + (if n - 1 in selected then [] else [n - 1])
  }

  /** The elements of `s` at the positions `idx`, in that order. */
  function Pick<T>(s: seq<T>, idx: seq<nat>): (r: seq<T>)
    requires forall k :: 0 <= k < |idx| ==> idx[k] < |s|
    ensures |r| == |idx| && forall k :: 0 <= k < |idx| ==> r[k] == s[idx[k]]
  {
    seq(|idx|, k requires 0 <= k < |idx| => s[idx[k]])
  }

  /** Deleting the selected rows leaves exactly the rows at the unselected positions, in
      order. */
  lemma {:induction false} RemoveSelectedKeeps<T>(s: seq<T>, selected: set<nat>)
    ensures RemoveSelected(s, selected) == Pick(s, KeptPositions(|s|, selected))
  {
    if s != [] {
      var init, n := s[..|s| - 1], |s| - 1;
      RemoveSelectedKeeps(init, selected);
      var before := KeptPositions(n, selected);
      var tail: seq<nat> := if n in selected then [] else [n];
      assert KeptPositions(|s|, selected) == before + tail;
      PickSplit(s, init, before, tail);
    }
  }

  lemma PickSplit<T>(s: seq<T>, init: seq<T>, before: seq<nat>, tail: seq<nat>)
    requires |s| >= 1 && init == s[..|s| - 1]
    requires forall k :: 0 <= k < |before| ==> before[k] < |init|
    requires tail == [] || tail == [|s| - 1]
    ensures Pick(s, before + tail) == Pick(init, before) + (if tail == [] then [] else [s[|s| - 1]])
  {
  }

  /** Deleting from two parts deletes from each part at its own positions. */
  lemma {:induction false} RemoveFromAppend<T>(a: seq<T>, b: seq<T>, selected: set<nat>, base: nat)
    ensures RemoveFrom(a + b, selected, base) == RemoveFrom(a, selected, base) + RemoveFrom(b, selected, base + |a|)
  {
    if b == [] {
      assert a + b == a;
    } else {
      var init := b[..|b| - 1];
      assert (a + b)[..|a + b| - 1] == a + init;
      RemoveFromAppend(a, init, selected, base);
    }
  }

  /** Only the selected positions within the rows' range matter. */
  lemma {:induction false} RemoveFromAgree<T>(s: seq<T>, sel1: set<nat>, sel2: set<nat>, base: nat)
    requires forall i: nat :: base <= i < base + |s| ==> (i in sel1 <==> i in sel2)
    ensures RemoveFrom(s, sel1, base) == RemoveFrom(s, sel2, base)
  {
    if s != [] {
      RemoveFromAgree(s[..|s| - 1], sel1, sel2, base);
    }
  }

  /** With nothing selected in range, nothing is deleted. */
  lemma {:induction false} RemoveFromNone<T>(s: seq<T>, selected: set<nat>, base: nat)
    requires forall i: nat :: base <= i < base + |s| ==> i !in selected
    ensures RemoveFrom(s, selected, base) == s
  {
    if s != [] {
      RemoveFromNone(s[..|s| - 1], selected, base);
    }
  }

  /** The step of the descending deletion loop: when every position deleted so far lies
      above `m`, `splice(m, 1)` on the current rows deletes position `m` of the original
      rows, or does nothing when `m` is past their end. */
  lemma SpliceStep<T>(orig: seq<T>, done: set<nat>, m: nat)
    requires m !in done && forall d :: d in done ==> d > m
    ensures var cur := RemoveSelected(orig, done);
      && (m < |orig| <==> m < |cur|)
      && RemoveSelected(orig, done + {m}) == if m < |cur| then cur[..m] + cur[m + 1..] else cur
  {
    if m < |orig| {
      SpliceInside(orig, done, m);
    } else {
      RemoveFromAgree(orig, done, done + {m}, 0);
    }
  }

  /** `SpliceStep` for a position inside the original rows. */
  lemma SpliceInside<T>(orig: seq<T>, done: set<nat>, m: nat)
    requires m < |orig| && m !in done && forall d :: d in done ==> d > m
    ensures var cur := RemoveSelected(orig, done);
      m < |cur| && RemoveSelected(orig, done + {m}) == cur[..m] + cur[m + 1..]
  {
    var cur := RemoveSelected(orig, done);
    var before, tail := orig[..m], orig[m..];
    var rest := RemoveFrom(tail[1..], done, m + 1);
    RemoveBelow(orig, done, m);
    RemoveBelow(orig, done + {m}, m);
    RemoveHead(tail, done, m);
    RemoveHead(tail, done + {m}, m);
    RemoveFromAgree(tail[1..], done, done + {m}, m + 1);
    assert cur == before + [tail[0]] + rest;
    assert cur[..m] == before && cur[m + 1..] == rest;
  }

  /** With nothing selected below `m`, the rows before `m` all stay. */
  lemma RemoveBelow<T>(orig: seq<T>, selected: set<nat>, m: nat)
    requires m <= |orig| && forall d :: d in selected ==> d >= m
    ensures RemoveSelected(orig, selected) == orig[..m] + RemoveFrom(orig[m..], selected, m)
  {
    assert orig[..m] + orig[m..] == orig;
    RemoveFromAppend(orig[..m], orig[m..], selected, 0);
    RemoveFromNone(orig[..m], selected, 0);
  }

  /** The first row stays exactly when its position is not selected. */
  lemma RemoveHead<T>(s: seq<T>, selected: set<nat>, base: nat)
    requires s != []
    ensures RemoveFrom(s, selected, base)
      == (if base in selected then [] else [s[0]]) + RemoveFrom(s[1..], selected, base + 1)
  {
    assert [s[0]] + s[1..] == s;
    RemoveFromAppend([s[0]], s[1..], selected, base);
    assert [s[0]][..0] == [];
  }

  /** A non-empty finite set of positions has a largest element. */
  lemma {:induction false} HasLargest(s: set<nat>)
    requires s != {}
    ensures exists m :: m in s && forall x :: x in s ==> x <= m
  {
    var y :| y in s;
    if exists z :: z in s && z > y {
      var above := Above(s, y);
      HasLargest(above);
      var m :| m in above && forall x :: x in above ==> x <= m;
      AboveBound(s, y, m);
    }
  }

  /** The elements of `s` above `y`: a smaller set, not empty when some element exceeds `y`. */
  function Above(s: set<nat>, y: nat): (r: set<nat>)
    requires y in s
    ensures r < s
    ensures (exists z :: z in s && z > y) ==> r != {}
    ensures forall x :: x in r <==> x in s && x > y
  {
    var r := set x | x in s && x > y;
    assert r <= s;
    assert y in s && y !in r;
    if exists z :: z in s && z > y then
      var z :| z in s && z > y;
      assert z in r;
      r
    else r
  }

  /** A bound of the elements above `y` that itself lies above `y` bounds all of `s`. */
  lemma AboveBound(s: set<nat>, y: nat, m: nat)
    requires y in s && m in Above(s, y) && forall x :: x in Above(s, y) ==> x <= m
    ensures m in s && forall x :: x in s ==> x <= m
  {
    forall x | x in s
      ensures x <= m
    {
      if x > y {
        assert x in Above(s, y);
      }
    }
  }

  // ---------------------------------------------------------------------------------------
  // CSV export

  /** The exported cells of one row: `row[header] || ''` for the visible headers. */
  function ExportCells(headers: seq<string>, visible: seq<string>, row: Row): (cells: seq<string>)
    ensures |cells| == |visible|
  {
    seq(|visible|, k requires 0 <= k < |visible| => Lookup(headers, row, visible[k]))
  }

  /** The lines of the export: the headers joined with commas, unescaped, then one
      formatted line per row. */
  function ExportLines(headers: seq<string>, visible: seq<string>, rows: seq<Row>): (lines: seq<string>)
    ensures |lines| == 1 + |rows|
  {
    [Join(visible, ',')] + seq(|rows|, i requires 0 <= i < |rows| => FormatRow(ExportCells(headers, visible, rows[i])))
  }

  /** The CSV content of an export. */
  function CsvContent(headers: seq<string>, visible: seq<string>, rows: seq<Row>): string {
    Join(ExportLines(headers, visible, rows), '\n')
  }

  /** No line feed in any visible header or exported cell. */
  predicate SingleLineCells(headers: seq<string>, visible: seq<string>, rows: seq<Row>) {
    && (forall k :: 0 <= k < |visible| ==> '\n' !in visible[k])
    && (forall i, k :: 0 <= i < |rows| && 0 <= k < |visible| ==> '\n' !in Lookup(headers, rows[i], visible[k]))
  }

  /** When no cell holds a line feed, the content splits on line feeds into the header line
      and the rows' lines, one per row, in order. */
  lemma ExportSplitsIntoLines(headers: seq<string>, visible: seq<string>, rows: seq<Row>)
    requires SingleLineCells(headers, visible, rows)
    ensures Split(CsvContent(headers, visible, rows), '\n') == ExportLines(headers, visible, rows)
  {
    var lines := ExportLines(headers, visible, rows);
    forall i | 0 <= i < |lines|
      ensures '\n' !in lines[i]
    {
      if i == 0 {
        JoinAvoids(visible, ',', '\n');
      } else {
        var cells := ExportCells(headers, visible, rows[i - 1]);
        assert forall k :: 0 <= k < |cells| ==> '\n' !in cells[k];
        FormatRowAvoids(cells, '\n');
      }
    }
    SplitJoin(lines, '\n');
  }

  /** Each exported row reads back through `parseCSVLine` as its exported cells, provided the
      cells are single-line, have no white space at either end, are not wrapped in double
      quotes, and the row is not a single empty cell. */
  lemma ExportRowReadsBack(headers: seq<string>, visible: seq<string>, rows: seq<Row>, i: int)
    requires 0 <= i < |rows| && SingleLineCells(headers, visible, rows)
    requires var cells := ExportCells(headers, visible, rows[i]);
      cells != [""] && forall k :: 0 <= k < |cells| ==> Stable(cells[k])
    ensures var lines := Split(CsvContent(headers, visible, rows), '\n');
      |lines| == 1 + |rows| && Fields(lines[i + 1]) == ExportCells(headers, visible, rows[i])
  {
    ExportSplitsIntoLines(headers, visible, rows);
    RoundTrip(ExportCells(headers, visible, rows[i]));
  }

  /** The header line is not escaped: a header holding a comma reads back as two columns. */
  lemma HeaderLineUnescaped()
    ensures Fields(Split(CsvContent([], ["a,b"], []), '\n')[0]) == ["a", "b"]
  {
    var line := "a,b";
    assert ExportLines([], [line], []) == [line];
    assert CsvContent([], [line], []) == line;
    SplitNoSeparator(line, '\n');
    CommaPairFields();
  }

  /** `parseCSVLine("a,b")` gives the two fields `a` and `b`. */
  lemma CommaPairFields()
    ensures Fields("a,b") == ["a", "b"]
  {
    TwoFields("a", "b");
    assert "a" + [','] + "b" == "a,b";
  }

  /** Two quote-free, comma-free pieces without white space at their ends, joined by a
      comma, read back as those two fields. */
  lemma TwoFields(x: string, y: string)
    requires ',' !in x && ',' !in y && '"' !in x && '"' !in y
    requires x != [] && !IsWhite(x[0]) && !IsWhite(x[|x| - 1])
    requires y != [] && !IsWhite(y[0]) && !IsWhite(y[|y| - 1])
    ensures Fields(x + [','] + y) == [x, y]
  {
    var line := x + [','] + y;
    assert line[0] == x[0];
    NotBlankAt(line, 0);
    QuoteFreeLine(line);
    SplitAfterPiece(x, y, ',');
    SplitNoSeparator(y, ',');
    TrimmedEnds(x);
    TrimmedEnds(y);
  }
}
