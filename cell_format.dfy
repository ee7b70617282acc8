/** The CSV cell serializer `formatCSVCell` and the way the export joins cells into a line.
    The quoting rule is the one of section 2 of RFC 4180: a field holding a comma, a double
    quote or a line feed is enclosed in double quotes, and each double quote inside it is
    written twice. */
module CellFormat {
  import opened Text
  import opened LineTokenizer

  /** `replace(/"/g, '""')`. */
  function EscapeQuotes(s: string): (r: string)
    ensures |r| == |s| + Count(s, '"')
  {
    if s == [] then [] else (if s[0] == '"' then "\"\"" else [s[0]]) + EscapeQuotes(s[1..])
  }

  /** The characters that make a cell need quotes. */
  predicate NeedsQuotes(s: string) {
    ',' in s || '"' in s || '\n' in s
  }

  /** `formatCSVCell`. */
  function FormatCell(value: string): (r: string)
    ensures !NeedsQuotes(value) ==> r == value
    ensures NeedsQuotes(value) ==> |r| >= 2 && r[0] == '"' && r[|r| - 1] == '"'
  {
    if NeedsQuotes(value) then "\"" + EscapeQuotes(value) + "\"" else value
  }

  /** One exported line: the formatted cells joined with commas. */
  function FormatRow(cells: seq<string>): string {
    if |cells| == 0 then ""
    else if |cells| == 1 then FormatCell(cells[0])
    else FormatCell(cells[0]) + [','] + FormatRow(cells[1..])
  }

  /** Inside quotes, an escaped cell followed by the closing quote reads back as the cell. */
  lemma {:induction false} ScanEscaped(c: string, t: string, current: string, fields: seq<string>)
    requires t == [] || t[0] != '"'
    ensures Scan(EscapeQuotes(c) + "\"" + t, true, current, fields) == Scan(t, false, current + c, fields)
    decreases |c|
  {
    if c == [] {
      calc {
        Scan(EscapeQuotes(c) + "\"" + t, true, current, fields);
        == { assert EscapeQuotes(c) + "\"" + t == "\"" + t; }
        Scan("\"" + t, true, current, fields);
        == { CloseQuote(t, current, fields); }
        Scan(t, false, current, fields);
        == { assert current + c == current; }
        Scan(t, false, current + c, fields);
      }
    } else {
      var x := c[0];
      var rest := EscapeQuotes(c[1..]) + "\"" + t;
      calc {
        Scan(EscapeQuotes(c) + "\"" + t, true, current, fields);
        == { EscapedHead(c, t); }
        Scan((if x == '"' then "\"\"" else [x]) + rest, true, current, fields);
        == { QuotedCharStep(x, rest, current, fields); }
        Scan(rest, true, current + [x], fields);
        == { ScanEscaped(c[1..], t, current + [x], fields); }
        Scan(t, false, current + [x] + c[1..], fields);
        == { assert current + [x] + c[1..] == current + c; }
        Scan(t, false, current + c, fields);
      }
    }
  }

  /** Inside quotes, a quote not followed by another one closes the quotes. */
  lemma CloseQuote(t: string, current: string, fields: seq<string>)
    requires t == [] || t[0] != '"'
    ensures Scan("\"" + t, true, current, fields) == Scan(t, false, current, fields)
  {
    assert ("\"" + t)[1..] == t;
  }

  /** The escaped form of a non-empty cell starts with the escaped form of its first
      character. */
  lemma EscapedHead(c: string, t: string)
    requires c != []
    ensures EscapeQuotes(c) + "\"" + t
      == (if c[0] == '"' then "\"\"" else [c[0]]) + (EscapeQuotes(c[1..]) + "\"" + t)
  {
  }

  /** Inside quotes, a doubled quote or any other character is added to the field. */
  lemma QuotedCharStep(x: char, rest: string, current: string, fields: seq<string>)
    ensures Scan((if x == '"' then "\"\"" else [x]) + rest, true, current, fields)
      == Scan(rest, true, current + [x], fields)
  {
    var s := (if x == '"' then "\"\"" else [x]) + rest;
    if x == '"' {
      assert s[2..] == rest;
    } else {
      assert s[1..] == rest;
    }
  }

  /** Outside quotes, a cell with no quote and no comma reads back as itself. */
  lemma {:induction false} ScanPlain(c: string, t: string, current: string, fields: seq<string>)
    requires '"' !in c && ',' !in c
    ensures Scan(c + t, false, current, fields) == Scan(t, false, current + c, fields)
    decreases |c|
  {
    if c == [] {
      assert c + t == t;
      assert current + c == current;
    } else {
      assert (c + t)[1..] == c[1..] + t;
      ScanPlain(c[1..], t, current + [c[0]], fields);
      assert current + [c[0]] + c[1..] == current + c;
    }
  }

  /** A formatted cell, followed by nothing or by a comma, reads back as the cell. */
  lemma ScanCell(c: string, t: string, fields: seq<string>)
    requires t == [] || t[0] == ','
    ensures Scan(FormatCell(c) + t, false, "", fields) == Scan(t, false, c, fields)
  {
    if NeedsQuotes(c) {
      ScanQuotedCell(c, t, fields);
    } else {
      ScanPlain(c, t, "", fields);
      assert "" + c == c;
    }
  }

  /** A quoted cell: the opening quote enters quotes, the escaped cell and the closing
      quote read back as the cell. */
  lemma ScanQuotedCell(c: string, t: string, fields: seq<string>)
    requires NeedsQuotes(c) && (t == [] || t[0] == ',')
    ensures Scan(FormatCell(c) + t, false, "", fields) == Scan(t, false, c, fields)
  {
    var inner := EscapeQuotes(c) + "\"" + t;
    QuotedForm(c, t);
    OpenQuote(inner, fields);
    ScanEscaped(c, t, "", fields);
    assert "" + c == c;
  }

  /** A quoted cell followed by `t` is an opening quote, the escaped cell, a closing quote
      and `t`. */
  lemma QuotedForm(c: string, t: string)
    requires NeedsQuotes(c)
    ensures FormatCell(c) + t == "\"" + (EscapeQuotes(c) + "\"" + t)
  {
  }

  /** Outside quotes an opening quote only enters quotes. */
  lemma OpenQuote(inner: string, fields: seq<string>)
    ensures Scan("\"" + inner, false, "", fields) == Scan(inner, true, "", fields)
  {
    assert ("\"" + inner)[1..] == inner;
  }

  /** The raw fields of an exported line are exactly its cells. */
  lemma {:induction false} ScanRow(cells: seq<string>, fields: seq<string>)
    requires |cells| >= 1
    ensures Scan(FormatRow(cells), false, "", fields) == fields + cells
    decreases |cells|
  {
    if |cells| == 1 {
      assert FormatRow(cells) == FormatCell(cells[0]) + "";
      ScanCell(cells[0], "", fields);
    } else {
      var rest := FormatRow(cells[1..]);
      assert FormatRow(cells) == FormatCell(cells[0]) + ([','] + rest);
      ScanCell(cells[0], [','] + rest, fields);
      assert ([','] + rest)[1..] == rest;
      ScanRow(cells[1..], fields + [cells[0]]);
      assert fields + [cells[0]] + cells[1..] == fields + cells;
    }
  }

  /** A cell the tokenizer's clean-up leaves alone: no white space at either end and not
      wrapped in double quotes. */
  predicate Stable(c: string) {
    Trim(c) == c && !QuoteWrapped(c)
  }

  /** An exported line that is not a single empty cell is never blank. */
  lemma FormattedRowNotBlank(cells: seq<string>)
    requires |cells| >= 1 && cells != [""]
    requires forall k :: 0 <= k < |cells| ==> Stable(cells[k])
    ensures !IsBlank(FormatRow(cells))
  {
    if |cells| == 1 {
      assert Stable(cells[0]) && cells[0] != "";
      FormattedCellNotBlank(cells[0]);
    } else {
      CommaNotBlank(FormatCell(cells[0]), FormatRow(cells[1..]));
    }
  }

  /** Two parts joined by a comma are not blank. */
  lemma CommaNotBlank(a: string, b: string)
    ensures !IsBlank(a + [','] + b)
  {
    var s := a + [','] + b;
    assert s[|a|] == ',';
    NotBlankAt(s, |a|);
  }

  /** A formatted cell that is not empty and has no white space at its ends is not blank. */
  lemma FormattedCellNotBlank(c: string)
    requires c != "" && Stable(c)
    ensures !IsBlank(FormatCell(c))
  {
    var r := FormatCell(c);
    if !NeedsQuotes(c) {
      TrimmedEnds(c);
    }
    NotBlankAt(r, 0);
  }

  /** Round trip of one exported line through `parseCSVLine`: the cells come back exactly,
      including cells holding commas, double quotes and line feeds, provided each cell has
      no white space at either end, no cell both starts and ends with a double quote, and
      the row is not a single empty cell. */
  lemma RoundTrip(cells: seq<string>)
    requires cells != [""]
    requires forall k :: 0 <= k < |cells| ==> Stable(cells[k])
    ensures Fields(FormatRow(cells)) == cells
  {
    if cells != [] {
      var line := FormatRow(cells);
      assert !IsBlank(line) by {
        FormattedRowNotBlank(cells);
      }
      assert RawFields(line) == cells by {
        ScanRow(cells, []);
        assert [] + cells == cells;
      }
      forall k | 0 <= k < |cells|
        ensures CleanField(cells[k]) == cells[k]
      {
        assert Stable(cells[k]);
      }
    }
  }

  /** The side conditions of `RoundTrip` are needed: a leading space is trimmed away, */
  lemma LeadingSpaceLost()
    ensures Fields(FormatRow([" a"])) == ["a"]
  {
    SpaceBeforeCell("a");
    assert [' '] + "a" == " a";
  }

  /** A plain cell after one space comes back without the space. */
  lemma SpaceBeforeCell(x: string)
    requires x != [] && !NeedsQuotes(x) && !IsWhite(x[0]) && !IsWhite(x[|x| - 1])
    ensures Fields(FormatRow([[' '] + x])) == [x]
  {
    var cell := [' '] + x;
    assert cell[1..] == x;
    assert TrimStart(cell) == x;
    TrimmedEnds(x);
    assert Trim(cell) == x;
    assert '"' !in cell && ',' !in cell && '\n' !in cell;
    NotBlankAt(cell, 1);
    PlainCellReadsBack(cell);
  }

  /** A one-cell line whose cell needs no quotes reads back as the cleaned cell. */
  lemma PlainCellReadsBack(c: string)
    requires !NeedsQuotes(c) && !IsBlank(c)
    ensures Fields(FormatRow([c])) == [CleanField(c)]
  {
    assert FormatRow([c]) == c;
    ScanRow([c], []);
    assert RawFields(c) == [c];
  }

  /** a quote-wrapped cell loses its quotes, */
  lemma QuotesLost()
    ensures Fields(FormatRow(["\"x\""])) == ["x"]
  {
    var line := FormatRow(["\"x\""]);
    ScanRow(["\"x\""], []);
    assert line[0] == '"';
    NotBlankAt(line, 0);
    var t := "\"x\"";
    assert Trim(t) == t by {
      TrimmedEnds(t);
    }
    assert t[1..|t| - 1] == "x";
  }

  /** and a row made of one empty cell exports as a blank line, which reads back as no fields. */
  lemma EmptyCellLost()
    ensures Fields(FormatRow([""])) == []
  {
    assert FormatRow([""]) == "";
  }

  /** Formatting adds only double quotes and commas: any other character absent from the
      cells is absent from the line. */
  lemma {:induction false} FormatRowAvoids(cells: seq<string>, c: char)
    requires c != ',' && c != '"'
    requires forall k :: 0 <= k < |cells| ==> c !in cells[k]
    ensures c !in FormatRow(cells)
    decreases |cells|
  {
    if |cells| >= 1 {
      EscapeQuotesAvoids(cells[0], c);
      if |cells| > 1 {
        FormatRowAvoids(cells[1..], c);
      }
    }
  }

  lemma {:induction false} EscapeQuotesAvoids(s: string, c: char)
    requires c != '"' && c !in s
    ensures c !in EscapeQuotes(s)
  {
    if s != [] {
      EscapeQuotesAvoids(s[1..], c);
    }
  }
}
