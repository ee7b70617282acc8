/** The `CSVFilterTool` object: the loaded table, the filter editor and the filter list,
    the filtered view and its page, the undo/redo history, the detected column types and
    the value-frequency analysis. Each method updates the fields the engine's method
    updates and is specified by the functions of the other modules. */
module FilterTool {
  import opened Text
  import opened LineTokenizer
  import opened CellFormat
  import opened Rows
  import opened TextParser
  import opened Streaming
  import opened Filters
  import opened History
  import opened Views
  import opened ColumnSort
  import opened TypeDetection
  import opened ValueCounts
  import Seqs

  datatype Option<T> = None | Some(value: T)

  class CsvFilterTool {
    var csvData: seq<Row>
    var headers: seq<string>
    var filteredData: seq<Row>
    var currentPage: int
    var filters: seq<Filter>
    /** The `.filter-row` elements of the filter editor, read as (column, operator, value). */
    var editor: seq<Filter>
    var filterHistory: seq<HistoryEntry>
    var historyIndex: int
    var columnDataTypes: map<string, ColumnType>
    var isResultsLimited: bool
    var analysisData: map<string, seq<Entry>>

    /** The history invariant, established by the constructor and kept by every method. */
    predicate Valid()
      reads this
    {
      WellFormed(filterHistory, historyIndex)
    }

    constructor()
      ensures csvData == [] && headers == [] && filteredData == [] && currentPage == 1
      ensures filters == [] && editor == [] && filterHistory == [] && historyIndex == -1
      ensures columnDataTypes == map[] && !isResultsLimited && analysisData == map[]
      ensures Valid()
    {
      csvData := [];
      headers := [];
      filteredData := [];
      currentPage := 1;
      filters := [];
      editor := [];
      filterHistory := [];
      historyIndex := -1;
      columnDataTypes := map[];
      isResultsLimited := false;
      analysisData := map[];
    }

    // ---------------------------------------------------------------- loading

    /** `parseCSV`: on blank text, or when no line or no header is found, nothing but the
        headers changes; otherwise the headers, the data and the view are the parsed
        table. The returned count is the number of skipped lines the engine logs. */
    method ParseCsv(text: string) returns (skipped: nat)
      modifies this`headers, this`csvData, this`filteredData
      ensures match ParseText(text)
        case BlankText =>
          headers == old(headers) && csvData == old(csvData) && filteredData == old(filteredData)
        case NoLines =>
          headers == old(headers) && csvData == old(csvData) && filteredData == old(filteredData)
        case NoHeaders(h) =>
          headers == h && csvData == old(csvData) && filteredData == old(filteredData)
        case Table(h, p) =>
          headers == h && csvData == p.rows && filteredData == p.rows && skipped == p.skipped
    {
      skipped := 0;
      if IsBlank(text) {
        return;
      }
      var normalizedText := NormalizeLineEndings(text);
      var lines := Seqs.Filter(Split(normalizedText, '\n'), NonBlank);
      assert lines == Lines(text);
      if |lines| == 0 {
        return;
      }
      var parsedHeaders := ParseCsvLine(lines[0]);
      if |parsedHeaders| == 0 {
        parsedHeaders := FallbackSplit(lines[0]);
      }
      assert parsedHeaders == HeaderOf(lines[0]);
      headers := parsedHeaders;
      if |parsedHeaders| == 0 {
        return;
      }
      csvData := [];
      if |lines| > 5000 {
        skipped := ParseCsvInChunks(lines, 1, 0, 1000);
      } else {
        skipped := AppendRows(lines[1..]);
        filteredData := csvData;
      }
      assert [] + ParseRows(parsedHeaders, lines[1..]).rows == ParseRows(parsedHeaders, lines[1..]).rows;
    }

    /** The data-line loop of `parseCSV` and of each batch of `parseCSVInChunks`: the
        lines, in order, each kept as a row, skipped or passed over. */
    method AppendRows(batch: seq<string>) returns (skipped: nat)
      modifies this`csvData
      ensures var p := ParseRows(headers, batch);
        csvData == old(csvData) + p.rows && skipped == p.skipped
    {
      var columns := headers;
      ghost var base := csvData;
      skipped := 0;
      var i := 0;
      ghost var p := ParseRows(columns, batch[..i]);
      while i < |batch|
        invariant 0 <= i <= |batch|
        invariant p == ParseRows(columns, batch[..i])
        invariant csvData == base + p.rows && skipped == p.skipped
      {
        var outcome := ReadDataLine(columns, batch[i]);
        ParseRowsStep(columns, batch, 0, i);
        if outcome.Kept? {
          Seqs.AppendAssoc(base, p.rows, [outcome.row]);
          csvData := csvData + [outcome.row];
        } else if outcome.Skipped? {
          skipped := skipped + 1;
        }
        p := Extend(p, outcome);
        i := i + 1;
      }
      assert batch[..i] == batch;
    }

    /** `parseCSVInChunks`: one batch of `chunkSize` data lines from `startIndex` on is
        appended to the data, then the rest is handled the same way; once the last batch
        is done the view becomes the data. `skippedRows` is the count carried from the
        earlier batches. The engine schedules each further batch with a timer; here the
        call is direct. */
    method ParseCsvInChunks(lines: seq<string>, startIndex: nat, skippedRows: nat, chunkSize: nat)
      returns (skipped: nat)
      requires startIndex <= |lines| && chunkSize > 0
      modifies this`csvData, this`filteredData
      ensures var p := ParseRows(headers, lines[startIndex..]);
        && csvData == old(csvData) + p.rows && filteredData == csvData
        && skipped == skippedRows + p.skipped
      decreases |lines| - startIndex
    {
      ghost var base := csvData;
      ghost var columns := headers;
      var endIndex := Min(startIndex + chunkSize, |lines|);
      ghost var left := ParseRows(columns, lines[startIndex..endIndex]);
      ghost var right := ParseRows(columns, lines[endIndex..]);
      ParseRowsSplit(columns, lines, startIndex, endIndex);
      var batchSkipped := AppendRows(lines[startIndex..endIndex]);
      assert csvData == base + left.rows;
      skipped := skippedRows + batchSkipped;
      if endIndex < |lines| {
        Seqs.AppendAssoc(base, left.rows, right.rows);
        skipped := ParseCsvInChunks(lines, endIndex, skipped, chunkSize);
      } else {
        assert lines[endIndex..] == [];
        assert left.rows + [] == left.rows;
        filteredData := csvData;
      }
    }

    /** `streamingParseCSV` over the chunks the file is read in: the headers, rows and
        skipped count are those of the streaming line loop over all the lines of the
        concatenated text, however the text is cut into chunks. */
    method StreamingParseCsv(chunks: seq<string>) returns (skipped: nat)
      modifies this`headers, this`csvData, this`filteredData
      ensures var st := StreamLines(Start, Split(Concat(chunks), '\n'));
        && headers == st.headers && csvData == st.rows && filteredData == st.rows
        && skipped == st.skipped
    {
      csvData := [];
      headers := [];
      var buffer := "";
      var headersParsed := false;
      skipped := 0;
      ghost var done: seq<string> := [];
      var i := 0;
      while i < |chunks|
        invariant 0 <= i <= |chunks|
        invariant StreamState(headersParsed, headers, csvData, skipped) == StreamLines(Start, done)
        invariant i < |chunks| ==> Split(Concat(chunks[..i]), '\n') == done + [buffer]
        invariant 0 < i == |chunks| ==> Split(Concat(chunks), '\n') == done
        invariant i == 0 ==> done == []
      {
        BufferStep(chunks, i, done, buffer);
        buffer := buffer + chunks[i];
        var lines := Split(buffer, '\n');
        ghost var whole := lines;
        if i < |chunks| - 1 {
          buffer := lines[|lines| - 1];
          lines := lines[..|lines| - 1];
          assert whole == lines + [buffer];
          Seqs.AppendAssoc(done, lines, [buffer]);
        } else {
          buffer := "";
          assert chunks[..i + 1] == chunks;
        }
        headersParsed, skipped := StreamChunkLines(lines, headersParsed, skipped);
        StreamLinesAppend(Start, done, lines);
        done := done + lines;
        i := i + 1;
      }
      if i == 0 {
        NoChunks(chunks);
      }
      // The last chunk always empties the buffer, so the engine's step for a remaining
      // line never has anything to do.
      filteredData := csvData;
    }

    /** The inner `for (const line of lines)` loop of `streamingParseCSV`: the first
        non-blank line gives the headers, each later one is a row or a skipped line. */
    method StreamChunkLines(lines: seq<string>, parsedBefore: bool, skippedBefore: nat)
      returns (headersParsed: bool, skipped: nat)
      modifies this`headers, this`csvData
      ensures StreamState(headersParsed, headers, csvData, skipped)
        == StreamLines(StreamState(parsedBefore, old(headers), old(csvData), skippedBefore), lines)
    {
      ghost var st0 := StreamState(parsedBefore, headers, csvData, skippedBefore);
      headersParsed, skipped := parsedBefore, skippedBefore;
      var j := 0;
      while j < |lines|
        invariant 0 <= j <= |lines|
        invariant StreamState(headersParsed, headers, csvData, skipped) == StreamLines(st0, lines[..j])
      {
        var line := lines[j];
        StreamLinesStep(st0, lines, j);
        if !IsBlank(line) {
          if !headersParsed {
            headers := ParseCsvLine(line);
            headersParsed := true;
          } else {
            var row := ParseCsvLine(line);
            if |row| == |headers| {
              csvData := csvData + [row];
            } else if |row| > 0 {
              skipped := skipped + 1;
            }
          }
        }
        j := j + 1;
      }
      assert lines[..j] == lines;
    }

    // ---------------------------------------------------------------- filters

    /** `getCurrentFilters` (and the loop at the start of both apply operations): the
        complete editor rows, in editor order. */
    method GetCurrentFilters() returns (fs: seq<Filter>)
      ensures fs == Assemble(editor)
    {
      fs := [];
      var i := 0;
      while i < |editor|
        invariant 0 <= i <= |editor|
        invariant fs == Seqs.Filter(editor[..i], IsComplete)
      {
        var f := editor[i];
        assert editor[..i + 1][..i] == editor[..i];
        if f.column != "" && (f.value != "" || f.operator == "is_empty" || f.operator == "is_not_empty") {
          fs := fs + [f];
        }
        i := i + 1;
      }
      assert editor[..i] == editor;
    }

    /** `saveFilterState`: the editor's filters, stamped with `now`, become the newest and
        current history entry. */
    method SaveFilterState(now: int)
      requires Valid()
      modifies this`filterHistory, this`historyIndex
      ensures Valid()
      ensures var s := Save(old(filterHistory), old(historyIndex), HistoryEntry(Assemble(editor), now));
        filterHistory == s.entries && historyIndex == s.index
    {
      var current := GetCurrentFilters();
      var currentState := HistoryEntry(current, now);
      SaveSpec(filterHistory, historyIndex, currentState);
      if historyIndex < |filterHistory| - 1 {
        filterHistory := filterHistory[..historyIndex + 1];
      }
      filterHistory := filterHistory + [currentState];
      historyIndex := |filterHistory| - 1;
      if |filterHistory| > MaxHistory {
        filterHistory := filterHistory[1..];
        historyIndex := historyIndex - 1;
      }
    }

    /** `applyFiltersWithoutLimit`: after saving the history, the filters are the editor's
        and the view is every row passing them all; with no filters the view is the whole
        data and the limited flag stays as it was. The page is not reset. */
    method ApplyFiltersWithoutLimit(ops: TextOps, now: int)
      requires Valid()
      modifies this`filterHistory, this`historyIndex, this`filters, this`filteredData, this`isResultsLimited
      ensures Valid()
      ensures var s := Save(old(filterHistory), old(historyIndex), HistoryEntry(Assemble(editor), now));
        filterHistory == s.entries && historyIndex == s.index
      ensures filters == Assemble(editor)
      ensures filteredData == ApplyAll(ops, headers, csvData, filters)
      ensures isResultsLimited == (if filters == [] then old(isResultsLimited) else false)
    {
      SaveFilterState(now);
      filters := GetCurrentFilters();
      if |filters| == 0 {
        ApplyNone(ops, headers, csvData);
        filteredData := csvData;
      } else {
        filteredData := ApplyAll(ops, headers, csvData, filters);
        isResultsLimited := false;
      }
    }

    /** `applyFiltersWithLimit`: after saving the history, the filters are the editor's and
        the view is the capped view: the scan over the data stops once `limit` matches are
        found. */
    method ApplyFiltersWithLimit(ops: TextOps, limit: nat, now: int)
      requires Valid()
      modifies this`filterHistory, this`historyIndex, this`filters, this`filteredData, this`isResultsLimited
      ensures Valid()
      ensures var s := Save(old(filterHistory), old(historyIndex), HistoryEntry(Assemble(editor), now));
        filterHistory == s.entries && historyIndex == s.index
      ensures filters == Assemble(editor)
      ensures var v := CappedView(ops, headers, csvData, filters, limit);
        filteredData == v.rows && isResultsLimited == v.limited
    {
      SaveFilterState(now);
      filters := GetCurrentFilters();
      if |filters| == 0 {
        filteredData := csvData[..Min(limit, |csvData|)];
        isResultsLimited := |csvData| > limit;
        return;
      }
      ShowCappedMatches(ops, limit);
    }

    /** The scan of `applyFiltersWithLimit` once there are filters: the data is read in
        order until `limit` matching rows are found; the results are marked limited when
        `limit` were found. */
    method ShowCappedMatches(ops: TextOps, limit: nat)
      requires filters != []
      modifies this`filteredData, this`isResultsLimited
      ensures var v := CappedView(ops, headers, csvData, filters, limit);
        filteredData == v.rows && isResultsLimited == v.limited
    {
      var found, limited := ScanMatches(ops, headers, csvData, filters, limit);
      filteredData := found;
      isResultsLimited := limited;
    }

    /** `restoreFilterState`: the editor is rebuilt from the saved filters. */
    method RestoreFilterState(state: HistoryEntry)
      modifies this`editor
      ensures editor == state.filters
    {
      editor := state.filters;
    }

    /** `undoFilter`: step back one history entry, when there is one, and restore it. */
    method UndoFilter()
      requires Valid()
      modifies this`historyIndex, this`editor
      ensures Valid()
      ensures historyIndex == Undo(filterHistory, old(historyIndex))
      ensures editor == if historyIndex == old(historyIndex) then old(editor) else filterHistory[historyIndex].filters
    {
      if historyIndex > 0 {
        historyIndex := historyIndex - 1;
        RestoreFilterState(filterHistory[historyIndex]);
      }
    }

    /** `redoFilter`: step forward one history entry, when there is one, and restore it. */
    method RedoFilter()
      requires Valid()
      modifies this`historyIndex, this`editor
      ensures Valid()
      ensures historyIndex == Redo(filterHistory, old(historyIndex))
      ensures editor == if historyIndex == old(historyIndex) then old(editor) else filterHistory[historyIndex].filters
    {
      if historyIndex < |filterHistory| - 1 {
        historyIndex := historyIndex + 1;
        RestoreFilterState(filterHistory[historyIndex]);
      }
    }

    // ---------------------------------------------------------------- the view

    /** `goToPage`: any page number is accepted as it is. */
    method GoToPage(page: int)
      modifies this`currentPage
      ensures currentPage == page
    {
      currentPage := page;
    }

    /** The rows `renderTable` shows for the current page. */
    function CurrentPageRows(): (rows: seq<Row>)
      reads this
      ensures currentPage >= 1 ==> |rows| <= RowsPerPage
      ensures currentPage >= 1 ==> (rows != [] <==> currentPage <= TotalPages(|filteredData|))
    {
      if currentPage >= 1 then
        PageRowsOfPage(filteredData, currentPage);
        PageRows(filteredData, currentPage)
      else
        PageRows(filteredData, currentPage)
    }

    /** `searchWithinResults`: a non-empty lower-cased term narrows the view to the rows
        that mention it in some column; an empty one re-applies the filters to the whole
        data. Either way the first page is shown. */
    method SearchWithinResults(ops: TextOps, term: string)
      modifies this`filteredData, this`currentPage
      ensures var searchTerm := ops.lower(term);
        filteredData == if searchTerm == "" then ApplyAll(ops, headers, csvData, filters)
                        else Narrow(ops, headers, old(filteredData), searchTerm)
      ensures currentPage == 1
    {
      var searchTerm := ops.lower(term);
      if searchTerm == "" {
        filteredData := ApplyAll(ops, headers, csvData, filters);
      } else {
        filteredData := Narrow(ops, headers, filteredData, searchTerm);
      }
      currentPage := 1;
    }

    /** `deleteSelectedRows`: with a non-empty, confirmed selection of view positions, the
        rows at those positions are removed, from the highest position down, and the first
        page is shown; otherwise nothing changes. */
    method DeleteSelectedRows(selected: set<nat>, confirmed: bool)
      modifies this`filteredData, this`currentPage
      ensures if selected == {} || !confirmed
        then filteredData == old(filteredData) && currentPage == old(currentPage)
        else filteredData == RemoveSelected(old(filteredData), selected) && currentPage == 1
    {
      if selected == {} || !confirmed {
        return;
      }
      ghost var orig := filteredData;
      var remaining := selected;
      ghost var done: set<nat> := {};
      RemoveFromNone(orig, {}, 0);
      while remaining != {}
        invariant remaining <= selected && done == selected - remaining
        invariant forall r, d :: r in remaining && d in done ==> r < d
        invariant filteredData == RemoveSelected(orig, done)
        decreases |remaining|
      {
        HasLargest(remaining);
        var index :| index in remaining && forall x :: x in remaining ==> x <= index;
        SpliceStep(orig, done, index);
        if index < |filteredData| {
          filteredData := filteredData[..index] + filteredData[index + 1..];
        }
        remaining := remaining - {index};
        done := done + {index};
      }
      assert done == selected;
      currentPage := 1;
    }

    /** `sortColumn`: the view is sorted, stably, on the column's cells as numbers when the
        column was detected as numeric and as lower-cased text otherwise, ascending for
        the direction "asc" and descending for any other; the first page is shown. */
    method SortColumn(ops: TextOps, number: string -> real, column: string, direction: string)
      requires column !in columnDataTypes || columnDataTypes[column] != DateType
      modifies this`filteredData, this`currentPage
      ensures var ascending := direction == "asc";
        filteredData ==
          if column in columnDataTypes && columnDataTypes[column] == NumberType
          then SortRows(old(filteredData), NumberKey(number, headers, column), RealLess, ascending)
          else SortRows(old(filteredData), TextKey(ops, headers, column), StrLess, ascending)
      ensures currentPage == 1
    {
      var ascending := direction == "asc";
      var columnType := if column in columnDataTypes then columnDataTypes[column] else TextType;
      if columnType == NumberType {
        filteredData := SortRows(filteredData, NumberKey(number, headers, column), RealLess, ascending);
      } else {
        filteredData := SortRows(filteredData, TextKey(ops, headers, column), StrLess, ascending);
      }
      currentPage := 1;
    }

    /** `downloadData('csv')` (and `'excel'`, which writes the same text): nothing for an
        empty view, otherwise the header line of the visible columns and one formatted line
        per row of the view. */
    function DownloadCsv(removeInternal: bool): (content: Option<string>)
      reads this
      ensures content.None? <==> filteredData == []
      ensures content.Some? ==> content.value == CsvContent(headers, VisibleHeaders(headers, removeInternal), filteredData)
    {
      if filteredData == [] then None
      else Some(CsvContent(headers, VisibleHeaders(headers, removeInternal), filteredData))
    }

    /** `exportSelectedRows`: nothing when no row is selected; otherwise the export of the
        view rows at the selected positions, in selection order. The engine swaps them in
        as the view for `downloadData('csv')` and puts the view back, so the view is
        unchanged. */
    function ExportSelectedCsv(selected: seq<nat>, removeInternal: bool): (content: Option<string>)
      reads this
      requires forall k :: 0 <= k < |selected| ==> selected[k] < |filteredData|
      ensures content.None? <==> selected == []
      ensures content.Some? ==>
        var visible := VisibleHeaders(headers, removeInternal);
        var lines := ExportLines(headers, visible, Pick(filteredData, selected));
        && content.value == Join(lines, '\n')
        && |lines| == 1 + |selected|
        && forall k :: 0 <= k < |selected| ==>
             lines[k + 1] == FormatRow(ExportCells(headers, visible, filteredData[selected[k]]))
    {
      if selected == [] then None
      else Some(CsvContent(headers, VisibleHeaders(headers, removeInternal), Pick(filteredData, selected)))
    }

    // ---------------------------------------------------------------- analysis

    /** `performAnalysis`: for each selected column, its ten most frequent non-blank
        values over the whole data, each with its count. */
    method PerformAnalysis(selected: seq<string>)
      modifies this`analysisData
      ensures analysisData == map h | h in selected :: TopValues(headers, csvData, h)
    {
      analysisData := AnalyzeColumns(headers, csvData, selected);
    }

    /** `detectColumnDataTypes`: nothing when there are no headers or no rows; otherwise
        every header's type as the sample test decides it. */
    method DetectColumnDataTypes(isNumeric: string -> bool, isDate: string -> bool)
      modifies this`columnDataTypes
      ensures columnDataTypes ==
        if headers == [] || csvData == [] then map[]
        else map h | h in headers :: DetectType(headers, csvData, h, isNumeric, isDate)
    {
      columnDataTypes := map[];
      var columns, data := headers, csvData;
      if |columns| == 0 || |data| == 0 {
        return;
      }
      var i := 0;
      while i < |columns|
        invariant 0 <= i <= |columns|
        invariant columnDataTypes == map h | h in columns[..i] :: DetectType(columns, data, h, isNumeric, isDate)
      {
        var header := columns[i];
        var columnType := DetectOne(columns, data, header, isNumeric, isDate);
        DetectionStep(columns, data, columns, i, isNumeric, isDate);
        columnDataTypes := columnDataTypes[header := columnType];
        i := i + 1;
      }
      assert columns[..i] == columns;
    }
  }
}
