# CSV filter engine

A Dafny model of the `CSVFilterTool` engine of the CSV suite
(`public/csv-suite/scripts/filter-tool.js`), with proofs about it. The engine loads a
CSV file into rows keyed by header, filters, searches, sorts and pages the rows, keeps an
undo/redo history of filter states, counts the most frequent values of chosen columns,
guesses column types, and exports the current view as CSV.

The modules follow the parts of the engine:

- `Text`: the JavaScript string services the engine relies on, written out.
  - A Dafny string holds characters; a JavaScript string holds UTF-16 code units, which is what its `length` and `<` see. `Utf16` gives the units and `JsLength` the length.
  - `trim`, with the ECMAScript white-space and line-terminator set.
  - `split` and `join` on one character.
  - `includes`, `startsWith` and `endsWith`.
- `Seqs` and `Sorting`: order-preserving filtering, and the stable sort behind
  `Array.prototype.sort` (stable since ECMAScript 2019).
- `Rows`: a row is the sequence of its values in header order. A column name resolves
  the way the engine's row object does:
  - the last column with that name wins;
  - a missing column reads as `''`.
- `LineTokenizer`: `parseCSVLine`, the quote-aware scan followed by trimming and
  stripping one pair of quotes.
- `CellFormat`: `formatCSVCell`, which applies the quoting rule of section 2 of RFC 4180,
  and how its output reads back through `parseCSVLine`.
- `TextParser`: `parseCSV` on the whole text:
  - line-ending normalisation and dropping blank lines;
  - the header line;
  - per data line, the comma-split fallback;
  - the retained rows and the skipped count.
- `Streaming`: `streamingParseCSV` as a function of the lines it meets.
- `Filters`: filter-list assembly, the per-operator test, and the conjunction of all filters.
  It also holds the capped view of `applyFiltersWithLimit`.
- `History`: the bounded undo/redo history.
- `Views`:
  - the visible headers;
  - page slicing and the pagination numbers;
  - search narrowing;
  - deleting the selected rows;
  - the CSV export text.
- `ColumnSort`: the comparator of `sortColumn`.
- `TypeDetection`: the sampling and 80% thresholds of `detectColumnDataTypes`.
- `ValueCounts`: `performAnalysis`, which covers:
  - the count dictionary;
  - the order in which `Object.entries` lists it;
  - the ranking and the top ten.
- `FilterTool`: the `CsvFilterTool` class, with the engine's fields.
  - Its methods update those fields the way the engine's methods do.
  - Each method is specified by the functions of the modules above.

Parameters stand in for the parts that belong to the JavaScript engine or the browser:
- `TextOps`: lower-casing, and `RegExp` testing that is false on an invalid pattern.
- `number`: `parseFloat(v) || 0`.
- `isNumeric` and `isDate`: the numeric and date tests of type detection.
- The filter editor's rows are the field `editor`.
- The "remove internal fields" checkbox is the flag `removeInternal`.
- `Date.now()` is the argument `now`.
- The selected checkboxes are a set or a sequence of view positions.
- The file is the sequence of already-decoded chunks.

## Model

| member | source | states |
|---|---|---|
| Rows.Lookup | public/csv-suite/scripts/filter-tool.js:612-615 | A column that is not a header reads as the empty string; otherwise the value at the last position with that header name, as the row object's overwriting gives. |
| Text.JsLength | public/csv-suite/scripts/filter-tool.js:1952 | `length` counts UTF-16 code units: one per character below U+10000 and two per character above, so it lies between the number of characters and twice that, and equals it exactly when no character is above U+FFFF. |
| Text.JsLengthIsUnits | public/csv-suite/scripts/filter-tool.js:1952 | That length is the number of units of the encoding. |
| Text.Utf16RoundTrip | public/csv-suite/scripts/filter-tool.js:2793-2794 | Decoding the UTF-16 units, pairing each high surrogate with the unit after it, gives back the characters of the string. |
| Text.Utf16Injective | public/csv-suite/scripts/filter-tool.js:2793-2794 | Different strings have different UTF-16 encodings. |
| LineTokenizer.Scan | public/csv-suite/scripts/filter-tool.js:706-731 | Defines the character loop: a doubled quote inside quotes adds one quote, any other quote toggles the quote state, a comma outside quotes ends the field, everything else is accumulated, and the last field is added at the end. `FieldCount` and `ScanLength` state its properties. |
| LineTokenizer.RawFields | public/csv-suite/scripts/filter-tool.js:701-731 | Defines the fields before clean-up as the scan from outside quotes, with nothing accumulated. |
| LineTokenizer.CleanField | public/csv-suite/scripts/filter-tool.js:733-741 | Defines the clean-up: trim, then drop the first and last character when the trimmed field starts and ends with a quote, so a lone quote becomes empty. `FieldShape` states the outcome. |
| LineTokenizer.Fields | public/csv-suite/scripts/filter-tool.js:696-742 | Defines what `parseCSVLine` returns: nothing for a blank line, otherwise every raw field cleaned. `ParseCsvLine`, `FieldCount` and `FieldShape` state its properties. |
| LineTokenizer.ParseCsvLine | public/csv-suite/scripts/filter-tool.js:696-742 | The loop returns exactly the tokenizer's fields: none for a blank line, otherwise the scanned fields, each cleaned. |
| LineTokenizer.FieldCount | public/csv-suite/scripts/filter-tool.js:696-731 | A blank line gives no fields; any other line gives one more field than it has commas outside quotes, so at least one. |
| LineTokenizer.FieldShape | public/csv-suite/scripts/filter-tool.js:733-741 | Each field is its trimmed raw field, or that with one surrounding quote pair removed, or empty for a lone quote. |
| LineTokenizer.QuoteFreeLine | public/csv-suite/scripts/filter-tool.js:706-741 | On a line without double quotes the tokenizer is a split on commas with each piece trimmed. |
| CellFormat.EscapeQuotes | public/csv-suite/scripts/filter-tool.js:1426 | Doubling the quotes lengthens the text by exactly its number of quotes. |
| CellFormat.FormatCell | public/csv-suite/scripts/filter-tool.js:1423-1429 | A value without comma, quote or line feed is written as it is; any other is wrapped in quotes. |
| CellFormat.FormatRow | public/csv-suite/scripts/filter-tool.js:2753 | Defines one exported line as its formatted cells joined with commas. `ScanRow`, `RoundTrip` and `FormatRowAvoids` state its properties. |
| CellFormat.ScanCell | public/csv-suite/scripts/filter-tool.js:1423-1429 | Scanning a formatted cell up to the next comma accumulates exactly the original cell, quoted or not. |
| CellFormat.ScanRow | public/csv-suite/scripts/filter-tool.js:2752-2754 | Scanning a comma-joined row of formatted cells yields exactly the original cells as raw fields. |
| CellFormat.RoundTrip | public/csv-suite/scripts/filter-tool.js:1423-1429 | `parseCSVLine` of a formatted row gives back the cells. This needs cells without white space at either end and without quotes at both ends, and a row that is not one empty cell. |
| CellFormat.FormattedRowNotBlank | public/csv-suite/scripts/filter-tool.js:697-699 | Such a formatted row is never blank, so the tokenizer's blank-line exit does not swallow it. |
| CellFormat.LeadingSpaceLost | public/csv-suite/scripts/filter-tool.js:735 | The round trip fails without the white-space condition: a cell " a" reads back as "a". |
| CellFormat.QuotesLost | public/csv-suite/scripts/filter-tool.js:737-739 | The round trip fails without the quote condition: a cell `"x"` reads back as `x`. |
| CellFormat.EmptyCellLost | public/csv-suite/scripts/filter-tool.js:697-699 | The round trip fails for a row of one empty cell, which reads back as no fields. |
| CellFormat.FormatRowAvoids | public/csv-suite/scripts/filter-tool.js:1425-1426 | Formatting adds only commas and quotes, so a line feed appears in a formatted row only if some cell holds one. |
| TextParser.NormalizeLineEndings | public/csv-suite/scripts/filter-tool.js:560 | No carriage return remains after the two replacements. |
| TextParser.NormalizeKeeps | public/csv-suite/scripts/filter-tool.js:560 | Every character other than a carriage return survives normalisation. |
| TextParser.NormalizeWithoutCr | public/csv-suite/scripts/filter-tool.js:560 | Text without carriage returns is left unchanged. |
| TextParser.Lines | public/csv-suite/scripts/filter-tool.js:560-561 | Defines the lines as the normalised text split on line feeds, without the blank ones. `LinesNonBlank` and `NonBlankTextHasLine` state its properties. |
| TextParser.StripQuotes | public/csv-suite/scripts/filter-tool.js:605 | Defines `replace(/^"(.*)"$/, '$1')`: the first and last character are dropped when the text starts and ends with a quote, is at least two long, and holds no line terminator in between. `StripQuotesVsCleanField` compares it with the tokenizer. |
| TextParser.HeaderOf | public/csv-suite/scripts/filter-tool.js:573-581 | Defines the header line: the tokenizer's fields, or the comma-split fallback when there are none. `HeaderFallbackUnused` states that the fallback is never needed on a non-blank line. |
| TextParser.LinesNonBlank | public/csv-suite/scripts/filter-tool.js:561 | Every line kept by the blank-line filter is non-blank. |
| TextParser.NonBlankTextHasLine | public/csv-suite/scripts/filter-tool.js:565-568 | Non-blank text always leaves at least one line, so "No valid lines found" cannot happen. |
| TextParser.FallbackSplit | public/csv-suite/scripts/filter-tool.js:605 | The fallback gives one more cell than the line has commas, quoted or not. |
| TextParser.StripQuotesVsCleanField | public/csv-suite/scripts/filter-tool.js:605 | The fallback's regex un-quoting agrees with the tokenizer's clean-up except in two cases. One is a field trimming to a lone quote: the fallback keeps it and the tokenizer empties it. The other is a quoted field holding a line terminator. |
| TextParser.ParseDataLine | public/csv-suite/scripts/filter-tool.js:601-624 | A kept data row has exactly one value per header. |
| TextParser.Extend | public/csv-suite/scripts/filter-tool.js:618-624 | Defines the effect of one data line: a kept row is appended, a skipped line adds one to the count, an ignored one changes nothing. |
| TextParser.ParseRows | public/csv-suite/scripts/filter-tool.js:600-625 | Defines the data-line loop over the lines in order. `ParseRowsShape`, `ParseRowsAccount`, `ParseRowsOrigin` and `ParseRowsAppend` state its properties. |
| TextParser.Combine | public/csv-suite/scripts/filter-tool.js:637-674 | Defines the result of two batches in turn: the rows one after the other and the skipped counts added, as `ParseRowsAppend` relates to one loop. |
| TextParser.NonBlankNotIgnored | public/csv-suite/scripts/filter-tool.js:618-624 | A non-blank data line is always either kept or counted as skipped. |
| TextParser.ReadDataLine | public/csv-suite/scripts/filter-tool.js:601-610 | Tokenizing a data line, with the fallback when the count is wrong, gives the outcome `ParseDataLine` describes. |
| TextParser.ParseRowsShape | public/csv-suite/scripts/filter-tool.js:600-625 | Every retained row has exactly the header width, and retained plus skipped never exceeds the lines read. |
| TextParser.ParseRowsAccount | public/csv-suite/scripts/filter-tool.js:600-625 | Over non-blank lines, retained plus skipped equals the number of lines. |
| TextParser.ParseRowsOrigin | public/csv-suite/scripts/filter-tool.js:601-616 | Every retained row is the tokenizer's fields of some line, or that line's fallback split when the tokenizer's count was wrong. |
| TextParser.ParseRowsAppend | public/csv-suite/scripts/filter-tool.js:640-664 | Parsing two runs of lines one after the other gives the two results concatenated, with the skipped counts added. |
| TextParser.ParseRowsSplit | public/csv-suite/scripts/filter-tool.js:637-674 | Cutting the data lines at any point into a batch and a remainder gives the same rows and skipped count as the single loop. |
| TextParser.HeaderFallbackUnused | public/csv-suite/scripts/filter-tool.js:573-581 | On a non-blank first line the header fallback is never taken: the tokenizer already gives at least one header. |
| TextParser.ParseText | public/csv-suite/scripts/filter-tool.js:550-633 | Defines `parseCSV` on the text: a blank text, no lines, or no headers stop it; otherwise the headers and the loop over the remaining lines form the table. `ParseTextOfNonBlank` states its properties. |
| TextParser.ParseTextOfNonBlank | public/csv-suite/scripts/filter-tool.js:550-633 | Non-blank text always reaches the table. The headers are the fields of the first line, and every row has the header width. Retained plus skipped equals the non-blank lines minus one. |
| FilterTool.CsvFilterTool.ParseCsv | public/csv-suite/scripts/filter-tool.js:550-633 | On each early exit only the headers may change; otherwise headers, data and view are the parsed table, and the skipped count is returned. Both the direct path and the batched path for more than 5000 lines give this result. |
| FilterTool.CsvFilterTool.AppendRows | public/csv-suite/scripts/filter-tool.js:600-625 | The data grows by exactly the retained rows of the batch, in order, and the skipped count is the batch's. |
| FilterTool.CsvFilterTool.ParseCsvInChunks | public/csv-suite/scripts/filter-tool.js:636-694 | Batch after batch, the data grows by the rows of all lines from `startIndex` on. The skipped count adds up across batches. The view becomes the data. |
| Streaming.StreamDataLine | public/csv-suite/scripts/filter-tool.js:491-519 | A streamed row is kept only with exactly the header width. |
| Streaming.StreamDataLineVsParseDataLine | public/csv-suite/scripts/filter-tool.js:491-519 | The streaming path and the whole-text path treat a data line alike, unless the fallback split rescues it. In that case the streaming path skips a line the whole-text path keeps. |
| Streaming.StreamLine | public/csv-suite/scripts/filter-tool.js:481-519 | Defines the inner loop body: a blank line is passed over, the first other line sets the headers, and each later line is kept or skipped by the data-line test. |
| Streaming.StreamLines | public/csv-suite/scripts/filter-tool.js:480-520 | Defines the state after the lines in order. `StreamLinesAppend` and `StreamMatchesReference` state its properties. |
| Streaming.Concat | public/csv-suite/scripts/filter-tool.js:466-467 | Defines the text read so far as the chunks appended in order, which `BufferStep` relates to the lines seen. |
| Streaming.StreamLinesAppend | public/csv-suite/scripts/filter-tool.js:480-520 | Processing two runs of lines in turn equals processing their concatenation, which is why chunk boundaries do not matter. |
| Streaming.BufferStep | public/csv-suite/scripts/filter-tool.js:467-477 | Carrying the last partial line into the next chunk keeps the lines seen so far equal to those of the concatenated text. |
| Streaming.StreamReference | public/csv-suite/scripts/filter-tool.js:480-520 | Defines the expected result independently of the loop: drop the blank lines, take the first as headers, test the rest. |
| Streaming.FromNonBlank | public/csv-suite/scripts/filter-tool.js:480-520 | Defines that expected result on lines already free of blank ones. |
| Streaming.StreamMatchesReference | public/csv-suite/scripts/filter-tool.js:480-520 | The line loop matches an independent description. Drop the blank lines, take the first as headers, and run the data-line test over the rest. |
| Streaming.StreamSummary | public/csv-suite/scripts/filter-tool.js:480-520 | The headers are the first non-blank line's fields, and every row has the header width. Rows plus skipped are the other non-blank lines. With no such line, nothing is found. |
| FilterTool.CsvFilterTool.StreamChunkLines | public/csv-suite/scripts/filter-tool.js:480-520 | The inner loop updates headers, rows, flag and count exactly as the line function describes. |
| FilterTool.CsvFilterTool.StreamingParseCsv | public/csv-suite/scripts/filter-tool.js:444-548 | However the text is cut into chunks, the result is the line loop over the concatenated text split on line feeds. |
| Filters.OperatorNames | public/csv-suite/scripts/filter-tool.js:1010-1037 | Operator names and operators correspond one to one; every other name falls to the default case. |
| Filters.Holds | public/csv-suite/scripts/filter-tool.js:1007-1037 | Defines the test of one filter on the lower-cased cell and value: the string tests, their negations, emptiness, the regular-expression parameter, and a pass for an unknown operator. `OperatorFacts` states its properties. |
| Filters.MatchesAll | public/csv-suite/scripts/filter-tool.js:1006 | Defines `every`: the row passes each filter of the list. `ApplyAllKeeps` and `ApplyAllThen` state its use. |
| Filters.AssembleComplete | public/csv-suite/scripts/filter-tool.js:988-996 | Every assembled filter has a column and either a value or an emptiness operator. |
| Filters.AssembleKeeps | public/csv-suite/scripts/filter-tool.js:988-996 | Exactly the complete editor rows are kept, in editor order. |
| Filters.Assemble | public/csv-suite/scripts/filter-tool.js:988-996 | Defines the filter list as the complete editor rows, in order; the list is never longer than the editor. `AssembleComplete` and `AssembleKeeps` state its properties. |
| Filters.OperatorFacts | public/csv-suite/scripts/filter-tool.js:1007-1037 | Each negated operator is the exact complement of its positive form. An unknown operator passes every row. A column that is not a header reads as the lower-cased empty string. |
| Filters.ApplyAllKeeps | public/csv-suite/scripts/filter-tool.js:1005-1039 | A row is in the result exactly when it is in the data and passes every filter; the result keeps data order. |
| Filters.ApplyAll | public/csv-suite/scripts/filter-tool.js:1005-1039 | Defines the view as the data rows passing every filter, in order; it is never longer than the data. `ApplyAllKeeps`, `ApplyNone` and `ApplyAllThen` state its properties. |
| Filters.ApplyNone | public/csv-suite/scripts/filter-tool.js:998-1000 | With no filters the result is the whole data. |
| Filters.ApplyAllAppend | public/csv-suite/scripts/filter-tool.js:1005-1039 | Filtering distributes over concatenating the data. |
| Filters.ApplyAllThen | public/csv-suite/scripts/filter-tool.js:1006 | Filtering by one list and then another is filtering by both lists together. |
| Filters.ApplyAllIdempotent | public/csv-suite/scripts/filter-tool.js:1005-1039 | Applying the same filters twice changes nothing more. |
| Filters.CappedView | public/csv-suite/scripts/filter-tool.js:1065-1122 | Defines the capped view: without filters the first `limit` rows, limited when there are more; with filters the first `limit` matches, limited when `limit` were found. `CappedIsPrefix` and `CappedAtExactLimit` state its properties. |
| Filters.CappedIsPrefix | public/csv-suite/scripts/filter-tool.js:1065-1122 | The capped view is the first `min(limit, matches)` rows of the uncapped result. An unlimited view is the whole result; a limited one holds exactly `limit` rows. |
| Filters.CappedAtExactLimit | public/csv-suite/scripts/filter-tool.js:1122 | With exactly `limit` matches, the view is every match. The flag says "limited" with filters but not without them. |
| Filters.ScanGivesCappedView | public/csv-suite/scripts/filter-tool.js:1077-1117 | Stopping the scan once `limit` matches are found, or at the end of the data, gives the capped view. |
| Filters.ScanMatches | public/csv-suite/scripts/filter-tool.js:1073-1122 | The early-stopping loop returns the capped view's rows and flag. |
| FilterTool.CsvFilterTool.GetCurrentFilters | public/csv-suite/scripts/filter-tool.js:1783-1798 | The loop returns the complete editor rows, in order. |
| FilterTool.CsvFilterTool.ApplyFiltersWithoutLimit | public/csv-suite/scripts/filter-tool.js:983-1048 | The history is saved, the filters are the editor's, and the view is every row passing them all. With no filters the view is the whole data and the limited flag is kept. |
| FilterTool.CsvFilterTool.ApplyFiltersWithLimit | public/csv-suite/scripts/filter-tool.js:1050-1126 | The history is saved, the filters are the editor's, and the view and flag are the capped view's. |
| FilterTool.CsvFilterTool.ShowCappedMatches | public/csv-suite/scripts/filter-tool.js:1070-1122 | With filters active, the view and flag become the capped view's. |
| History.SaveSpec | public/csv-suite/scripts/filter-tool.js:1844-1865 | After a save, the new state is the last entry and the current one. The entries before it are the latest ones up to the old current entry, so the redo branch is gone. The length is `min(50, old index + 2)`, and the history invariant holds. |
| History.Save | public/csv-suite/scripts/filter-tool.js:1851-1862 | Defines a save: drop the entries after the current one, append the new one, point at it, and drop the oldest entry when there are more than fifty. `SaveSpec` states its outcome. |
| History.Undo | public/csv-suite/scripts/filter-tool.js:1867-1873 | Undo moves the index back by one or not at all and keeps the invariant. |
| History.Redo | public/csv-suite/scripts/filter-tool.js:1875-1881 | Redo moves the index forward by one or not at all and keeps the invariant. |
| History.UndoRedoInverse | public/csv-suite/scripts/filter-tool.js:1867-1881 | A redo undoes an undo that moved, and an undo undoes a redo that moved. |
| History.SaveThenUndoRedo | public/csv-suite/scripts/filter-tool.js:1844-1881 | Right after a save there is nothing to redo, and undo returns to the entry that was current before. |
| FilterTool.CsvFilterTool.constructor | public/csv-suite/scripts/filter-tool.js:2-17 | Empty data, view, filters and history, index -1, page 1, not limited; the history invariant holds. |
| FilterTool.CsvFilterTool.SaveFilterState | public/csv-suite/scripts/filter-tool.js:1844-1865 | The history and index become those of saving the editor's filters with the given time, and the invariant is kept. |
| FilterTool.CsvFilterTool.UndoFilter | public/csv-suite/scripts/filter-tool.js:1867-1873 | The index becomes the undo index. When it moved, the editor is restored from that entry; otherwise the editor is unchanged. |
| FilterTool.CsvFilterTool.RedoFilter | public/csv-suite/scripts/filter-tool.js:1875-1881 | The index becomes the redo index. When it moved, the editor is restored from that entry; otherwise the editor is unchanged. |
| FilterTool.CsvFilterTool.RestoreFilterState | public/csv-suite/scripts/filter-tool.js:1883-1897 | The editor holds exactly the saved filters. |
| Views.VisibleHeaders | public/csv-suite/scripts/filter-tool.js:1252-1273 | Defines the visible headers as all headers, or those not internal when the box is checked. `VisibleHeadersKeeps` states its properties. |
| Views.Slice | public/csv-suite/scripts/filter-tool.js:1302 | Defines `Array.prototype.slice`: both ends are clamped to the sequence, a negative one counting from the end, and an empty range gives nothing. |
| Views.PageRows | public/csv-suite/scripts/filter-tool.js:1300-1302 | Defines the rows of a page as the slice from `(page - 1) * 20` to the smaller of twenty on and the end. `PageRowsOfPage` and `UnclampedPages` state its properties. |
| Views.TotalPages | public/csv-suite/scripts/filter-tool.js:1327 | Defines the page count `Math.ceil(n / 20)` in integers. `PagesCoverData` states its meaning. |
| Views.PagesUpTo | public/csv-suite/scripts/filter-tool.js:1327 | Defines the rows of the first `k` pages, one page after another, which `PagesCoverData` relates to the data. |
| Views.VisibleHeadersKeeps | public/csv-suite/scripts/filter-tool.js:1252-1273 | A header is visible exactly when it is a header and not one of the nine internal names (only when the box is checked). The headers keep their order, and all are shown when the box is off. |
| Views.PageRowsOfPage | public/csv-suite/scripts/filter-tool.js:1300-1302 | A page from 1 on shows the next twenty rows from its start, fewer on the last page. It shows none past the last page, so a page has rows exactly when it is one of the pages. |
| FilterTool.CsvFilterTool.CurrentPageRows | public/csv-suite/scripts/filter-tool.js:1300-1302 | The current page shows at most twenty rows, and shows some exactly when it is within the page count. |
| Views.PagesCoverData | public/csv-suite/scripts/filter-tool.js:1327 | Pages 1 to `ceil(n / 20)` together show every row once, in order. |
| Views.ShowingMatchesPage | public/csv-suite/scripts/filter-tool.js:1335-1336 | The "Showing x to y" numbers name exactly the rows the table shows on that page. |
| Views.PageWindowBounds | public/csv-suite/scripts/filter-tool.js:1357-1358 | The page buttons stay within the pages, include the current page, and number at most five. There are exactly five when the current page has two pages on each side. |
| Views.PageWindow | public/csv-suite/scripts/filter-tool.js:1357-1358 | Defines the button range from `max(1, page - 2)` to `min(total, page + 2)`. `PageWindowBounds` states its properties. |
| FilterTool.CsvFilterTool.GoToPage | public/csv-suite/scripts/filter-tool.js:1413-1417 | Any page number is taken as it is, without clamping. |
| Views.UnclampedPages | public/csv-suite/scripts/filter-tool.js:1413-1417 | An unclamped page 0 shows nothing. Page -1 shows twenty rows from near the end, because `slice` counts negative positions from the end. |
| Views.Mentions | public/csv-suite/scripts/filter-tool.js:2021-2024 | Defines the search test: some header's lower-cased value contains the term. |
| Views.Narrow | public/csv-suite/scripts/filter-tool.js:2019-2025 | Defines search as keeping the rows that mention the term, in order. `NarrowKeeps` and `NarrowRefines` state its properties. |
| Views.NarrowKeeps | public/csv-suite/scripts/filter-tool.js:2019-2025 | Search keeps exactly the rows with some column whose lower-cased value contains the term, in order. |
| Views.NarrowRefines | public/csv-suite/scripts/filter-tool.js:2019-2025 | Searching again with a longer term containing the first gives what searching once with the longer term gives. |
| FilterTool.CsvFilterTool.SearchWithinResults | public/csv-suite/scripts/filter-tool.js:1990-2032 | An empty lower-cased term re-applies the filters to the whole data. Otherwise the view is narrowed. Either way the first page is shown. |
| Views.RemoveSelectedKeeps | public/csv-suite/scripts/filter-tool.js:2090-2106 | Deleting the selected positions leaves exactly the rows at the unselected positions, in order. |
| Views.RemoveSelected | public/csv-suite/scripts/filter-tool.js:2090-2106 | Defines deletion as dropping the selected positions from the start. `RemoveSelectedKeeps` and `SpliceStep` state its properties. |
| Views.SpliceStep | public/csv-suite/scripts/filter-tool.js:2104-2106 | When every position removed so far is higher, `splice(m, 1)` on the current rows removes original position `m`. A position past the end removes nothing. |
| FilterTool.CsvFilterTool.DeleteSelectedRows | public/csv-suite/scripts/filter-tool.js:2090-2115 | With a non-empty, confirmed selection, the descending splices leave the view without the selected positions and show page 1. Otherwise nothing changes. |
| ColumnSort.StrLessIsStrictTotalOrder | public/csv-suite/scripts/filter-tool.js:2793-2794 | JavaScript's string `<`, on UTF-16 code units, is irreflexive, transitive and relates any two different strings one way; the totality rests on `Utf16Injective`. |
| ColumnSort.StrLess | public/csv-suite/scripts/filter-tool.js:2793-2794 | Defines JavaScript's `<` on strings: the UTF-16 units of the two strings compared lexicographically, a proper prefix first. |
| ColumnSort.SurrogatesSortLow | public/csv-suite/scripts/filter-tool.js:2793-2794 | Code-unit order is not character order: U+1F600 sorts before U+FF01 although it is the larger character, because its high surrogate D83D is below FF01. |
| ColumnSort.Compare | public/csv-suite/scripts/filter-tool.js:2793-2795 | Defines the comparator: -1 when the first key is less, 1 when the second is, else 0, with the signs swapped unless the direction is "asc". |
| ColumnSort.SortRows | public/csv-suite/scripts/filter-tool.js:2778-2796 | Defines the sort as the stable sort of the view by the comparator. `SortRowsOrdered` and `SortRowsStable` state its properties. |
| ColumnSort.RealLessIsStrictTotalOrder | public/csv-suite/scripts/filter-tool.js:2782-2784 | `<` on the numbers `parseFloat(v) \|\| 0` gives is a strict total order. |
| ColumnSort.RowOrderIsConsistent | public/csv-suite/scripts/filter-tool.js:2778-2796 | Over a strict total order, the comparator orders any two rows, and does so transitively. |
| ColumnSort.SortRowsOrdered | public/csv-suite/scripts/filter-tool.js:2778-2796 | The sorted view is a permutation of the view, with keys non-decreasing for "asc" and non-increasing otherwise. |
| ColumnSort.SortRowsStable | public/csv-suite/scripts/filter-tool.js:2778-2796 | Rows with equal keys keep their relative order. |
| FilterTool.CsvFilterTool.SortColumn | public/csv-suite/scripts/filter-tool.js:2775-2800 | The view is sorted by the number key for a number column and the lower-cased text key otherwise, ascending only for "asc". The first page is shown. |
| Views.ExportSplitsIntoLines | public/csv-suite/scripts/filter-tool.js:2752-2754 | When no cell holds a line feed, the export splits on line feeds into the header line and one line per row, in order. |
| Views.ExportRowReadsBack | public/csv-suite/scripts/filter-tool.js:2752-2754 | Each exported row's line reads back through `parseCSVLine` as its exported cells. This needs cells that satisfy the round-trip conditions. |
| Views.HeaderLineUnescaped | public/csv-suite/scripts/filter-tool.js:2752 | The header line is not escaped: a header with a comma reads back as two columns. |
| Views.CsvContent | public/csv-suite/scripts/filter-tool.js:2752-2754 | Defines the export text as its lines joined with line feeds. `ExportSplitsIntoLines` and `ExportRowReadsBack` state its properties. |
| FilterTool.CsvFilterTool.DownloadCsv | public/csv-suite/scripts/filter-tool.js:2719-2757 | There is no content exactly when the view is empty. Otherwise the content is the export of the visible columns of the view. |
| FilterTool.CsvFilterTool.ExportSelectedCsv | public/csv-suite/scripts/filter-tool.js:2071-2088 | There is no content exactly when nothing is selected. Otherwise it is the header line followed by, for each selected position in selection order, the formatted line of that view row. |
| ValueCounts.TallyCounts | public/csv-suite/scripts/filter-tool.js:1481-1489 | The count dictionary has one entry per distinct trimmed non-empty value. Each count is the number of times that value occurs. |
| ValueCounts.CleanValues | public/csv-suite/scripts/filter-tool.js:1483-1486 | Defines the counted values: each row's value of the column, trimmed, when not empty, in row order. |
| ValueCounts.Bump | public/csv-suite/scripts/filter-tool.js:1487 | Defines one count step: an existing key's count goes up by one, a new key is added at the end with count 1. |
| ValueCounts.Tally | public/csv-suite/scripts/filter-tool.js:1481-1489 | Defines the count dictionary after counting the values in order. `TallyCounts` states its contents. |
| ValueCounts.Entries | public/csv-suite/scripts/filter-tool.js:1492 | Defines `Object.entries`: keys that are array indices first, in increasing order, then the other keys in insertion order. `EntriesPermutation` and `EntriesInsertionOrder` state its properties. |
| ValueCounts.Rank | public/csv-suite/scripts/filter-tool.js:1492-1493 | Defines the ranking as the stable sort of the entries by count, highest first. `RankSpec` states its properties. |
| ValueCounts.TopOf | public/csv-suite/scripts/filter-tool.js:1494 | Defines the top entries as the first ten ranked ones. `TopOfSpec` states its properties. |
| ValueCounts.TopValues | public/csv-suite/scripts/filter-tool.js:1480-1497 | Defines what one column stores: the top entries of the count dictionary of its clean values. `TopValuesSpec` states its properties. |
| ValueCounts.CountValues | public/csv-suite/scripts/filter-tool.js:1481-1489 | The loop over the rows builds exactly that dictionary. |
| ValueCounts.EntriesPermutation | public/csv-suite/scripts/filter-tool.js:1492 | `Object.entries` lists every dictionary entry exactly once. |
| ValueCounts.EntriesInsertionOrder | public/csv-suite/scripts/filter-tool.js:1492 | With no key that looks like an array index, the entries come in first-occurrence order. |
| ValueCounts.RankSpec | public/csv-suite/scripts/filter-tool.js:1492-1493 | The ranked entries are a permutation of the dictionary, by count, highest first. |
| ValueCounts.TopOfSpec | public/csv-suite/scripts/filter-tool.js:1492-1494 | The top entries are `min(10, distinct values)` dictionary entries, highest count first. No entry left out has a higher count than one kept. |
| ValueCounts.TopValuesSpec | public/csv-suite/scripts/filter-tool.js:1480-1497 | The stored pairs are values of the column, each with its exact number of occurrences. There are at most ten, highest first, and none left out occurs more often than one kept. |
| ValueCounts.AnalyzeColumn | public/csv-suite/scripts/filter-tool.js:1480-1497 | One column's counting and ranking give its top values. |
| ValueCounts.AnalyzeColumns | public/csv-suite/scripts/filter-tool.js:1477-1498 | Each selected column maps to its top values. |
| FilterTool.CsvFilterTool.PerformAnalysis | public/csv-suite/scripts/filter-tool.js:1477-1498 | The analysis maps each selected column to its top values over the whole data. |
| TypeDetection.SamplesSpec | public/csv-suite/scripts/filter-tool.js:1930-1931 | The samples are at most 500, and at most 200 for more than 10000 rows. They are exactly the non-blank values of the column in the sampled rows. |
| TypeDetection.Samples | public/csv-suite/scripts/filter-tool.js:1930-1931 | Defines the samples as the values of the column in the first sampled rows whose trimmed text is not empty. `SamplesSpec` states its properties. |
| TypeDetection.DateSamples | public/csv-suite/scripts/filter-tool.js:1950-1954 | Defines the samples counted as dates: the trimmed value passes the date test and is longer than five UTF-16 code units. |
| TypeDetection.CountSamples | public/csv-suite/scripts/filter-tool.js:1942-1955 | The loop counts exactly the samples that pass the numeric test, and exactly those that pass the date test while longer than five UTF-16 code units. |
| TypeDetection.ClassifyIsShareTest | public/csv-suite/scripts/filter-tool.js:1957-1964 | The integer test equals the source's share test `count / total >= 0.8` on exact ratios: number first, then date, else text, and text with no samples. |
| TypeDetection.Classify | public/csv-suite/scripts/filter-tool.js:1937-1964 | Defines the decision on the counts: text without samples, else number, date or text by the 80% thresholds in turn. `ClassifyIsShareTest` relates it to the ratio test. |
| TypeDetection.DetectType | public/csv-suite/scripts/filter-tool.js:1930-1964 | Defines a column's type as the decision on the counts of its samples, which `DetectOne` computes by a loop. |
| TypeDetection.DetectOne | public/csv-suite/scripts/filter-tool.js:1930-1964 | Sampling, counting and the thresholds give the column's detected type. |
| FilterTool.CsvFilterTool.DetectColumnDataTypes | public/csv-suite/scripts/filter-tool.js:1908-1969 | With no headers or no rows, nothing is detected. Otherwise every header maps to its detected type. |

## Left out

- Reading the file (`FileReader`, `TextDecoder`, the ISO-8859-1 fallback): the chunks are taken as already-decoded strings. The progress and memory logging is also left out.
- The timer that schedules each batch of `parseCSVInChunks` is a direct recursive call.
  - `completeFileProcessing` and its 30-second timeout are not modelled. They are display and scheduling.
- FilterTool.CsvFilterTool.ParseCsvInChunks: requires `startIndex <= |lines|` and a positive batch size. The engine only calls it that way, with 1 and 1000.
- The streaming parser's step for a remaining buffer after the last chunk is not modelled. The last chunk always empties the buffer, so that step never runs.
- Lower-casing, `RegExp` and `parseFloat` belong to the JavaScript engine and are parameters.
  - The lower-casing also stands in for `.toString()` on cell values, which are strings already.
- FilterTool.CsvFilterTool.SortColumn: requires the column not to be detected as a date. Dates sort through `new Date`, and they compare with `<` on objects, whose coercion is not modelled.
- FilterTool.CsvFilterTool.ExportSelectedCsv: requires every selected position to be a position of the view. The checkboxes only carry such positions; any other makes `downloadData` throw.
- The numeric and date tests of `detectColumnDataTypes` are parameters.
  - The per-header `try`/`catch` is not modelled, since the model's steps cannot throw.
- JSON export (`JSON.stringify`) is not modelled. The "excel" format writes the same text as CSV and is `DownloadCsv`.
- `applyFilters` and `downloadFilteredCSV` only delegate, to `ApplyFiltersWithoutLimit` and to `DownloadCsv`.
- DOM rendering, HTML escaping, logging, presets in `localStorage`, dark mode, gestures, virtual scrolling, `formatFileSize`, `estimateCSVSize` and the suggested filters are not modelled. They are display, storage or floating-point estimates.
- Keys that JavaScript objects treat specially are not modelled: the model treats them like any other name.
  - `__proto__` cannot be an own key of the row object or the count dictionary.
  - Names inherited from `Object.prototype`, such as `constructor`, `toString` or `hasOwnProperty`, already have a value. For such a cell value, `(valueCounts[v] || 0) + 1` joins the inherited function's text with "1" instead of giving 1. The `b - a` sort then compares `NaN`.
  - A column lookup of such a name that is not a header reads the inherited function, not `''`.
