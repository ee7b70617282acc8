/** The whole-text parser `parseCSV` as functions of the text: line-ending normalisation,
    dropping blank lines, the header line, the comma-split fallback for data lines whose
    field count does not match, and the tally of skipped lines. The methods that run it
    over the tool's state are `FilterTool.CsvFilterTool.ParseCsv` and `ParseCsvInChunks`. */
module TextParser {
  import opened Text
  import opened LineTokenizer
  import opened Rows
  import Seqs

  /** `replace(/\r\n/g, '\n')`. */
  function ReplaceCrLf(s: string): (r: string)
    ensures |r| <= |s|
  {
    if s == [] then []
    else if |s| >= 2 && s[0] == '\r' && s[1] == '\n' then "\n" + ReplaceCrLf(s[2..])
    else [s[0]] + ReplaceCrLf(s[1..])
  }

  /** `replace(/\r/g, '\n')`. */
  function ReplaceCr(s: string): (r: string)
    ensures |r| == |s| && '\r' !in r
  {
    if s == [] then [] else [if s[0] == '\r' then '\n' else s[0]] + ReplaceCr(s[1..])
  }

  /** Windows, Unix and old Mac line endings all become `\n`. */
  function NormalizeLineEndings(text: string): (r: string)
    ensures '\r' !in r
  {
    ReplaceCr(ReplaceCrLf(text))
  }

  lemma {:induction false} CrLfKeeps(s: string, c: char)
    requires c in s && c != '\r'
    ensures c in ReplaceCrLf(s)
    decreases |s|
  {
    if |s| >= 2 && s[0] == '\r' && s[1] == '\n' {
      if c != '\n' {
        assert c in s[2..] by {
          var i :| 0 <= i < |s| && s[i] == c;
          assert s[2..][i - 2] == c;
        }
        CrLfKeeps(s[2..], c);
      }
    } else if s[0] != c {
      assert c in s[1..] by {
        var i :| 0 <= i < |s| && s[i] == c;
        assert s[1..][i - 1] == c;
      }
      CrLfKeeps(s[1..], c);
    }
  }

  lemma {:induction false} CrKeeps(s: string, c: char)
    requires c in s && c != '\r'
    ensures c in ReplaceCr(s)
    decreases |s|
  {
    if s[0] != c {
      assert c in s[1..] by {
        var i :| 0 <= i < |s| && s[i] == c;
        assert s[1..][i - 1] == c;
      }
      CrKeeps(s[1..], c);
    }
  }

  /** Normalisation keeps every character other than a carriage return. */
  lemma NormalizeKeeps(s: string, c: char)
    requires c in s && c != '\r'
    ensures c in NormalizeLineEndings(s)
  {
    CrLfKeeps(s, c);
    CrKeeps(ReplaceCrLf(s), c);
  }

  /** Text that already uses `\n` only is left unchanged. */
  lemma {:induction false} NormalizeWithoutCr(s: string)
    requires '\r' !in s
    ensures NormalizeLineEndings(s) == s
    decreases |s|
  {
    if s != [] {
      NormalizeWithoutCr(s[1..]);
      assert [s[0]] + s[1..] == s;
    }
  }

  predicate NonBlank(line: string) {
    !IsBlank(line)
  }

  /** `normalizedText.split('\n').filter(line => line.trim().length > 0)`. */
  function Lines(text: string): seq<string> {
    Seqs.Filter(Split(NormalizeLineEndings(text), '\n'), NonBlank)
  }

  /** No line left is blank. */
  lemma LinesNonBlank(text: string)
    ensures forall k :: 0 <= k < |Lines(text)| ==> !IsBlank(Lines(text)[k])
  {
    Seqs.FilterSatisfies(Split(NormalizeLineEndings(text), '\n'), NonBlank);
  }

  /** A character of a join that is not the separator lies in one of the parts. */
  lemma {:induction false} InJoinPiece(parts: seq<string>, sep: char, c: char)
    requires c in Join(parts, sep) && c != sep
    ensures exists k :: 0 <= k < |parts| && c in parts[k]
  {
    if |parts| > 1 {
      var j := Join(parts[1..], sep);
      assert Join(parts, sep) == parts[0] + [sep] + j;
      if c !in parts[0] {
        InJoinPiece(parts[1..], sep, c);
        var k :| 0 <= k < |parts[1..]| && c in parts[1..][k];
        assert c in parts[k + 1];
      }
    }
  }

  /** Text that is not blank always leaves at least one line, so the "no valid lines" exit
      of `parseCSV` is never taken. */
  lemma NonBlankTextHasLine(text: string)
    requires !IsBlank(text)
    ensures Lines(text) != []
  {
    var i :| 0 <= i < |text| && !IsWhite(text[i]);
    var c := text[i];
    var n := NormalizeLineEndings(text);
    NormalizeKeeps(text, c);
    var parts := Split(n, '\n');
    JoinSplit(n, '\n');
    InJoinPiece(parts, '\n', c);
    var k :| 0 <= k < |parts| && c in parts[k];
    var j :| 0 <= j < |parts[k]| && parts[k][j] == c;
    NotBlankAt(parts[k], j);
    Seqs.FilterMembership(parts, NonBlank, parts[k]);
  }

  /** The characters `.` does not match in a JavaScript regular expression. */
  predicate IsLineTerminator(c: char) {
    c == '\n' || c == '\r' || c == '\U{2028}' || c == '\U{2029}'
  }

  /** Whether `/^"(.*)"$/` matches: a quote at both ends and no line terminator between. */
  predicate QuoteRegexMatches(s: string) {
    |s| >= 2 && s[0] == '"' && s[|s| - 1] == '"'
    && forall k :: 1 <= k < |s| - 1 ==> !IsLineTerminator(s[k])
  }

  /** `replace(/^"(.*)"$/, '$1')`. */
  function StripQuotes(s: string): string {
    if QuoteRegexMatches(s) then s[1..|s| - 1] else s
  }

  /** The naive fallback `line.split(',').map(cell => cell.trim().replace(/^"(.*)"$/, '$1'))`. */
  function FallbackSplit(line: string): (r: seq<string>)
    ensures |r| == 1 + Count(line, ',')
  {
    var pieces := Split(line, ',');
    seq(|pieces|, k requires 0 <= k < |pieces| => StripQuotes(Trim(pieces[k])))
  }

  /** The fallback's quote stripping agrees with the tokenizer's clean-up except on a field
      that trims to a lone `"` (which the tokenizer empties and the fallback keeps) and a
      quoted field with a line terminator inside (which the tokenizer strips and the
      fallback keeps). */
  lemma StripQuotesVsCleanField(field: string)
    ensures var t := Trim(field);
      (t != "\"" && forall k :: 0 <= k < |t| ==> !IsLineTerminator(t[k]))
      ==> StripQuotes(t) == CleanField(field)
    ensures StripQuotes(Trim("\"")) == "\"" && CleanField("\"") == ""
  {
    StripAgreesWithClean(field);
    LoneQuoteDiffers();
  }

  lemma StripAgreesWithClean(field: string)
    ensures var t := Trim(field);
      (t != "\"" && forall k :: 0 <= k < |t| ==> !IsLineTerminator(t[k]))
      ==> StripQuotes(t) == CleanField(field)
  {
    var t := Trim(field);
    if t != "\"" && forall k :: 0 <= k < |t| ==> !IsLineTerminator(t[k]) {
      assert CleanField(field) == if QuoteWrapped(t) then (if |t| >= 2 then t[1..|t| - 1] else "") else t;
      assert |t| == 1 ==> t == [t[0]];
      if QuoteWrapped(t) && |t| >= 2 {
        assert QuoteRegexMatches(t);
      }
    }
  }

  lemma LoneQuoteDiffers()
    ensures StripQuotes(Trim("\"")) == "\"" && CleanField("\"") == ""
  {
    LoneQuote("\"");
  }

  lemma LoneQuote(q: string)
    requires |q| == 1 && q[0] == '"'
    ensures StripQuotes(Trim(q)) == q && CleanField(q) == ""
  {
    TrimmedEnds(q);
  }


  /** What the loops of `parseCSV` and `parseCSVInChunks` do with one data line. */
  datatype Outcome = Kept(row: Row) | Skipped | Ignored

  /** The row is `parseCSVLine(line)`, replaced by the comma-split fallback when its field
      count is wrong but the fallback's is right; a row of the wrong width with at least one
      field is skipped, and a row with no field is passed over without counting. */
  function ParseDataLine(headers: seq<string>, line: string): (o: Outcome)
    ensures o.Kept? ==> |o.row| == |headers|
  {
    var parsed := Fields(line);
    var row :=
      if |parsed| != |headers| && |parsed| > 0 && |FallbackSplit(line)| == |headers|
      then FallbackSplit(line) else parsed;
    if |row| == |headers| then Kept(row)
    else if |row| > 0 then Skipped
    else Ignored
  }

  /** A line that is not blank is either kept or skipped, never passed over. */
  lemma NonBlankNotIgnored(headers: seq<string>, line: string)
    requires !IsBlank(line)
    ensures !ParseDataLine(headers, line).Ignored?
  {
    FieldCount(line);
  }

  /** The data rows retained from `lines` and the number of lines skipped. */
  datatype Parsed = Parsed(rows: seq<Row>, skipped: nat)

  /** The result after one more line with the given outcome. */
  function Extend(p: Parsed, o: Outcome): Parsed {
    match o
    case Kept(row) => Parsed(p.rows + [row], p.skipped)
    case Skipped => Parsed(p.rows, p.skipped + 1)
    case Ignored => p
  }

  /** The data-line loop over `lines`, in order. */
  function ParseRows(headers: seq<string>, lines: seq<string>): Parsed {
    if lines == [] then Parsed([], 0)
    else Extend(ParseRows(headers, lines[..|lines| - 1]), ParseDataLine(headers, lines[|lines| - 1]))
  }

  /** The loop body of `parseCSV` and `parseCSVInChunks` for one data line. */
  method ReadDataLine(headers: seq<string>, line: string) returns (o: Outcome)
    ensures o == ParseDataLine(headers, line)
  {
    var row := ParseCsvLine(line);
    if |row| != |headers| && |row| > 0 {
      var fallbackRow := FallbackSplit(line);
      if |fallbackRow| == |headers| {
        row := fallbackRow;
      }
    }
    if |row| == |headers| {
      o := Kept(row);
    } else if |row| > 0 {
      o := Skipped;
    } else {
      o := Ignored;
    }
  }

  /** Parsing one more line of a run extends the result by that line's outcome. */
  lemma ParseRowsStep(headers: seq<string>, lines: seq<string>, first: nat, i: nat)
    requires first <= i < |lines|
    ensures ParseRows(headers, lines[first..i + 1])
      == Extend(ParseRows(headers, lines[first..i]), ParseDataLine(headers, lines[i]))
  {
    var run := lines[first..i + 1];
    assert run[..|run| - 1] == lines[first..i];
    assert run[|run| - 1] == lines[i];
  }

  /** Every retained row has one value per header, and no line is both retained and
      skipped. */
  lemma {:induction false} ParseRowsShape(headers: seq<string>, lines: seq<string>)
    ensures var p := ParseRows(headers, lines);
      && (forall k :: 0 <= k < |p.rows| ==> |p.rows[k]| == |headers|)
      && |p.rows| + p.skipped <= |lines|
  {
    if lines != [] {
      var init, last := lines[..|lines| - 1], lines[|lines| - 1];
      ParseRowsShape(headers, init);
      var p, o := ParseRows(headers, init), ParseDataLine(headers, last);
      assert ParseRows(headers, lines) == Extend(p, o);
      if o.Kept? {
        var rows := p.rows + [o.row];
        assert forall k :: 0 <= k < |rows| ==> rows[k] == if k < |p.rows| then p.rows[k] else o.row;
      }
    }
  }

  /** When every line is non-blank, each one is either retained or skipped. */
  lemma {:induction false} ParseRowsAccount(headers: seq<string>, lines: seq<string>)
    requires forall k :: 0 <= k < |lines| ==> !IsBlank(lines[k])
    ensures |ParseRows(headers, lines).rows| + ParseRows(headers, lines).skipped == |lines|
  {
    if lines != [] {
      ParseRowsAccount(headers, lines[..|lines| - 1]);
      NonBlankNotIgnored(headers, lines[|lines| - 1]);
    }
  }

  /** Every retained row is `parseCSVLine` of some line, or that line's fallback split
      when `parseCSVLine` gave the wrong number of fields. */
  lemma {:induction false} ParseRowsOrigin(headers: seq<string>, lines: seq<string>, i: int)
    requires 0 <= i < |ParseRows(headers, lines).rows|
    ensures var r := ParseRows(headers, lines).rows[i];
      exists k :: 0 <= k < |lines|
        && (r == Fields(lines[k]) || (r == FallbackSplit(lines[k]) && |Fields(lines[k])| != |headers|))
  {
    var init, last := lines[..|lines| - 1], lines[|lines| - 1];
    var p := ParseRows(headers, init);
    var r := ParseRows(headers, lines).rows[i];
    if i < |p.rows| {
      assert r == p.rows[i];
      ParseRowsOrigin(headers, init, i);
      var k :| 0 <= k < |init| &&
        (p.rows[i] == Fields(init[k]) || (p.rows[i] == FallbackSplit(init[k]) && |Fields(init[k])| != |headers|));
      assert init[k] == lines[k];
    } else {
      assert lines[|lines| - 1] == last;
    }
  }

  /** The rows of one result followed by those of another, and the two skipped counts
      added. */
  function Combine(p: Parsed, q: Parsed): Parsed {
    Parsed(p.rows + q.rows, p.skipped + q.skipped)
  }

  /** Extending the second part of a combined result extends the combination. */
  lemma ExtendCombine(p: Parsed, q: Parsed, o: Outcome)
    ensures Extend(Combine(p, q), o) == Combine(p, Extend(q, o))
  {
    if o.Kept? {
      Seqs.AppendAssoc(p.rows, q.rows, [o.row]);
    }
  }

  /** Parsing a concatenation of line batches parses each batch in turn: processing the
      lines a thousand at a time gives the same rows, in the same order, and the same
      skipped count as one pass. */
  lemma {:induction false} ParseRowsAppend(headers: seq<string>, a: seq<string>, b: seq<string>)
    ensures ParseRows(headers, a + b) == Combine(ParseRows(headers, a), ParseRows(headers, b))
  {
    if b == [] {
      assert a + b == a;
      assert ParseRows(headers, a).rows + [] == ParseRows(headers, a).rows;
    } else {
      var init, last := b[..|b| - 1], b[|b| - 1];
      assert b == init + [last];
      Seqs.AppendAssoc(a, init, [last]);
      ParseRowsSnoc(headers, a + init, last);
      ParseRowsSnoc(headers, init, last);
      ParseRowsAppend(headers, a, init);
      ExtendCombine(ParseRows(headers, a), ParseRows(headers, init), ParseDataLine(headers, last));
    }
  }

  /** One more line at the end extends the result by that line's outcome. */
  lemma ParseRowsSnoc(headers: seq<string>, init: seq<string>, last: string)
    ensures ParseRows(headers, init + [last]) == Extend(ParseRows(headers, init), ParseDataLine(headers, last))
  {
    var lines := init + [last];
    assert lines[..|lines| - 1] == init;
    assert lines[|lines| - 1] == last;
  }

  /** The lines from `a` on parse as the lines from `a` to `b`, then the lines from `b` on. */
  lemma ParseRowsSplit(headers: seq<string>, lines: seq<string>, a: nat, b: nat)
    requires a <= b <= |lines|
    ensures ParseRows(headers, lines[a..]) == Combine(ParseRows(headers, lines[a..b]), ParseRows(headers, lines[b..]))
  {
    var left, right := lines[a..b], lines[b..];
    assert left + right == lines[a..];
    ParseRowsAppend(headers, left, right);
  }

  /** The header line `parseCSVLine(lines[0])`, with the comma-split fallback when it
      yields no field. */
  function HeaderOf(line: string): seq<string> {
    var h := Fields(line);
    if |h| == 0 then FallbackSplit(line) else h
  }

  /** The fallback for the header line is never used: a non-blank line has at least one
      field. */
  lemma HeaderFallbackUnused(line: string)
    requires !IsBlank(line)
    ensures HeaderOf(line) == Fields(line) && |HeaderOf(line)| >= 1
  {
    FieldCount(line);
  }

  /** The ways `parseCSV` can end. */
  datatype ParseResult =
    | BlankText                                       // "empty or contains only whitespace"
    | NoLines                                         // "No valid lines found"
    | NoHeaders(headers: seq<string>)                 // "No headers found in first line"
    | Table(headers: seq<string>, parsed: Parsed)

  /** What `parseCSV` computes from the text. */
  function ParseText(text: string): ParseResult {
    if IsBlank(text) then BlankText
    else
      var ls := Lines(text);
      if ls == [] then NoLines
      else
        var headers := HeaderOf(ls[0]);
        if headers == [] then NoHeaders(headers)
        else Table(headers, ParseRows(headers, ls[1..]))
  }

  /** On non-blank text `parseCSV` always reaches the table: the headers are the fields of
      the first non-blank line, every retained row has exactly one value per header, and
      retained plus skipped rows are all the non-blank lines but the header line. */
  lemma ParseTextOfNonBlank(text: string)
    requires !IsBlank(text)
    ensures ParseText(text).Table?
    ensures var ls := Lines(text); var t := ParseText(text);
      && |ls| >= 1
      && t.headers == Fields(ls[0]) && |t.headers| >= 1
      && (forall k :: 0 <= k < |t.parsed.rows| ==> |t.parsed.rows[k]| == |t.headers|)
      && |t.parsed.rows| + t.parsed.skipped == |ls| - 1
  {
    var ls := Lines(text);
    NonBlankTextHasLine(text);
    LinesNonBlank(text);
    HeaderFallbackUnused(ls[0]);
    ParseRowsAccount(HeaderOf(ls[0]), ls[1..]);
    ParseRowsShape(HeaderOf(ls[0]), ls[1..]);
  }
}
