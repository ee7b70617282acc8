/** The CSV line tokenizer `parseCSVLine`: one left-to-right scan with an in-quotes flag,
    followed by trimming each field and stripping one pair of surrounding quotes. */
module LineTokenizer {
  import opened Text

  /** The scan over the unread rest `s` of a line, in the state the loop keeps: whether it
      is inside quotes, the field being accumulated and the fields already finished. */
  function Scan(s: string, inQuotes: bool, current: string, fields: seq<string>): seq<string>
    decreases |s|
  {
    if s == [] then fields + [current]
    else if s[0] == '"' then
      if inQuotes && |s| > 1 && s[1] == '"' then Scan(s[2..], inQuotes, current + ['"'], fields)
      else Scan(s[1..], !inQuotes, current, fields)
    else if s[0] == ',' && !inQuotes then Scan(s[1..], inQuotes, "", fields + [current])
    else Scan(s[1..], inQuotes, current + [s[0]], fields)
  }

  /** The fields of a line before clean-up. */
  function RawFields(line: string): seq<string> {
    Scan(line, false, "", [])
  }

  /** A string that both starts and ends with a double quote (a lone `"` counts). */
  predicate QuoteWrapped(s: string) {
    |s| > 0 && s[0] == '"' && s[|s| - 1] == '"'
  }

  /** The clean-up applied to every field: trim, then drop one pair of surrounding quotes,
      as `cleaned.slice(1, -1)` does (a lone `"` becomes empty). */
  function CleanField(field: string): string {
    var t := Trim(field);
    if QuoteWrapped(t) then (if |t| >= 2 then t[1..|t| - 1] else "") else t
  }

  /** What `parseCSVLine` returns. */
  function Fields(line: string): seq<string> {
    if IsBlank(line) then []
    else
      var raw := RawFields(line);
      seq(|raw|, k requires 0 <= k < |raw| => CleanField(raw[k]))
  }

  /** `parseCSVLine`. */
  method ParseCsvLine(line: string) returns (result: seq<string>)
    ensures result == Fields(line)
  {
    if IsBlank(line) {
      return [];
    }
    var fields: seq<string> := [];
    var current := "";
    var inQuotes := false;
    var i := 0;
    while i < |line|
      invariant 0 <= i <= |line|
      invariant Scan(line[i..], inQuotes, current, fields) == RawFields(line)
    {
      var c := line[i];
      if c == '"' {
        if inQuotes && i + 1 < |line| && line[i + 1] == '"' {
          // an escaped quote inside a quoted field
          assert line[i..][2..] == line[i + 2..];
          current := current + ['"'];
          i := i + 2;
        } else {
          assert line[i..][1..] == line[i + 1..];
          inQuotes := !inQuotes;
          i := i + 1;
        }
      } else if c == ',' && !inQuotes {
        assert line[i..][1..] == line[i + 1..];
        fields := fields + [current];
        current := "";
        i := i + 1;
      } else {
        assert line[i..][1..] == line[i + 1..];
        current := current + [c];
        i := i + 1;
      }
    }
    fields := fields + [current];
    result := seq(|fields|, k requires 0 <= k < |fields| => CleanField(fields[k]));
  }

  /** The commas the scan meets while it is outside quotes, with the same quote-state rules. */
  function UnquotedCommas(s: string, inQuotes: bool): nat
    decreases |s|
  {
    if s == [] then 0
    else if s[0] == '"' then
      if inQuotes && |s| > 1 && s[1] == '"' then UnquotedCommas(s[2..], inQuotes)
      else UnquotedCommas(s[1..], !inQuotes)
    else if s[0] == ',' && !inQuotes then 1 + UnquotedCommas(s[1..], inQuotes)
    else UnquotedCommas(s[1..], inQuotes)
  }

  lemma {:induction false} ScanLength(s: string, inQuotes: bool, current: string, fields: seq<string>)
    ensures |Scan(s, inQuotes, current, fields)| == |fields| + 1 + UnquotedCommas(s, inQuotes)
    decreases |s|
  {
    if s != [] {
      if s[0] == '"' {
        if inQuotes && |s| > 1 && s[1] == '"' {
          ScanLength(s[2..], inQuotes, current + ['"'], fields);
        } else {
          ScanLength(s[1..], !inQuotes, current, fields);
        }
      } else if s[0] == ',' && !inQuotes {
        ScanLength(s[1..], inQuotes, "", fields + [current]);
      } else {
        ScanLength(s[1..], inQuotes, current + [s[0]], fields);
      }
    }
  }

  /** A blank line has no fields; any other line has one more field than it has commas
      outside quotes, so never zero fields. */
  lemma FieldCount(line: string)
    ensures IsBlank(line) ==> Fields(line) == []
    ensures !IsBlank(line) ==> |Fields(line)| == 1 + UnquotedCommas(line, false)
    ensures !IsBlank(line) ==> |Fields(line)| >= 1
  {
    ScanLength(line, false, "", []);
  }

  /** Each field is the trimmed raw field, with one pair of surrounding quotes removed when
      it has them. */
  lemma FieldShape(line: string, k: int)
    requires 0 <= k < |Fields(line)|
    ensures var t := Trim(RawFields(line)[k]);
      Fields(line)[k] == t || (QuoteWrapped(t) && |t| >= 2 && Fields(line)[k] == t[1..|t| - 1])
        || (t == "\"" && Fields(line)[k] == "")
  {
    var raw := RawFields(line);
    assert Fields(line)[k] == CleanField(raw[k]) by {
      assert !IsBlank(line);
    }
    CleanFieldShape(raw[k]);
  }

  /** The clean-up of one field keeps the trimmed field or drops its surrounding quotes. */
  lemma CleanFieldShape(field: string)
    ensures var t := Trim(field);
      CleanField(field) == t || (QuoteWrapped(t) && |t| >= 2 && CleanField(field) == t[1..|t| - 1])
        || (t == "\"" && CleanField(field) == "")
  {
    var t := Trim(field);
    if QuoteWrapped(t) && |t| < 2 {
      assert t == "\"" by {
        assert |t| == 1 && t[0] == '"';
      }
    }
  }

  lemma {:induction false} ScanWithoutQuotes(s: string, current: string, fields: seq<string>)
    requires '"' !in s && ',' !in current
    ensures Scan(s, false, current, fields) == fields + Split(current + s, ',')
    decreases |s|
  {
    if s == [] {
      assert current + s == current;
      SplitNoSeparator(current, ',');
    } else if s[0] == ',' {
      ScanWithoutQuotes(s[1..], "", fields + [current]);
      assert current + s == current + [','] + s[1..];
      assert "" + s[1..] == s[1..];
      SplitAfterPiece(current, s[1..], ',');
    } else {
      ScanWithoutQuotes(s[1..], current + [s[0]], fields);
      assert current + [s[0]] + s[1..] == current + s;
    }
  }

  /** On a line without double quotes the tokenizer is a plain split on commas followed by
      trimming each piece. */
  lemma QuoteFreeLine(line: string)
    requires '"' !in line && !IsBlank(line)
    ensures var pieces := Split(line, ',');
      Fields(line) == seq(|pieces|, k requires 0 <= k < |pieces| => Trim(pieces[k]))
  {
    var pieces := Split(line, ',');
    assert RawFields(line) == pieces by {
      ScanWithoutQuotes(line, "", []);
      assert "" + line == line;
    }
    forall k | 0 <= k < |pieces|
      ensures CleanField(pieces[k]) == Trim(pieces[k])
    {
      var t := Trim(pieces[k]);
      if t != [] {
        PieceCharsOccur(line, ',', k, t);
      }
    }
  }

  /** A character of a trimmed piece of a split occurs in the string that was split. */
  lemma PieceCharsOccur(s: string, sep: char, k: int, t: string)
    requires 0 <= k < |Split(s, sep)| && t == Trim(Split(s, sep)[k]) && t != []
    ensures t[0] in s
  {
    var pieces := Split(s, sep);
    PieceInJoin(pieces, sep, k);
    JoinSplit(s, sep);
    var u := TrimStart(pieces[k]);
    assert t[0] == u[0];
    assert u[0] in pieces[k];
  }

  lemma {:induction false} PieceInJoin(parts: seq<string>, sep: char, k: int)
    requires 0 <= k < |parts|
    ensures forall c :: c in parts[k] ==> c in Join(parts, sep)
  {
    if |parts| > 1 {
      if k > 0 {
        PieceInJoin(parts[1..], sep, k - 1);
      }
    }
  }
}
