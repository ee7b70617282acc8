/** The JavaScript string operations the engine relies on: `trim`, `split`, `join`,
    `includes`, `startsWith` and `endsWith`, on strings of characters. */
module Text {

  /** ECMAScript WhiteSpace and LineTerminator characters: what `String.prototype.trim` removes. */
  predicate IsWhite(c: char) {
    || c == '\t' || c == '\n' || c == '\U{000B}' || c == '\U{000C}' || c == '\r' || c == ' '
    || c == '\U{00A0}' || c == '\U{1680}' || ('\U{2000}' <= c <= '\U{200A}')
    || c == '\U{2028}' || c == '\U{2029}' || c == '\U{202F}' || c == '\U{205F}'
    || c == '\U{3000}' || c == '\U{FEFF}'
  }

  /** `s` with its leading white space removed. */
  function TrimStart(s: string): (r: string)
    ensures |r| <= |s| && r == s[|s| - |r|..]
    ensures r == [] || !IsWhite(r[0])
    ensures forall i :: 0 <= i < |s| - |r| ==> IsWhite(s[i])
  {
    if s != [] && IsWhite(s[0]) then TrimStart(s[1..]) else s
  }

  /** `s` with its trailing white space removed. */
  function TrimEnd(s: string): (r: string)
    ensures |r| <= |s| && r == s[..|r|]
    ensures r == [] || !IsWhite(r[|r| - 1])
    ensures forall i :: |r| <= i < |s| ==> IsWhite(s[i])
  {
    if s != [] && IsWhite(s[|s| - 1]) then TrimEnd(s[..|s| - 1]) else s
  }

  /** `String.prototype.trim`. */
  function Trim(s: string): string {
    TrimEnd(TrimStart(s))
  }

  /** The test `s.trim().length === 0`, stated as "every character is white space";
      `BlankIffTrimEmpty` proves the two agree. */
  predicate IsBlank(s: string) {
    forall i :: 0 <= i < |s| ==> IsWhite(s[i])
  }

  /** A string is blank exactly when trimming it leaves nothing. */
  lemma BlankIffTrimEmpty(s: string)
    ensures IsBlank(s) <==> |Trim(s)| == 0
  {
    var t := TrimStart(s);
    if t != [] {
      assert TrimEnd(t)[..1] == t[..1] by {
        assert !IsWhite(t[0]);
      }
      assert !IsWhite(s[|s| - |t|]);
    }
  }

  /** A string with a character that is not white space is not blank. */
  lemma NotBlankAt(s: string, i: int)
    requires 0 <= i < |s| && !IsWhite(s[i])
    ensures !IsBlank(s)
  {
  }

  /** Trimming leaves no white space at either end and keeps a string that has none. */
  lemma TrimmedEnds(s: string)
    ensures var t := Trim(s); t == [] || (!IsWhite(t[0]) && !IsWhite(t[|t| - 1]))
    ensures (s == [] || (!IsWhite(s[0]) && !IsWhite(s[|s| - 1]))) ==> Trim(s) == s
  {
    var u := TrimStart(s);
    var t := TrimEnd(u);
    if t != [] {
      assert t[0] == u[0];
    }
  }

  /** The number of occurrences of `c` in `s`. */
  function Count(s: string, c: char): nat {
    if s == [] then 0 else (if s[0] == c then 1 else 0) + Count(s[1..], c)
  }

  /** `s.split(sep)` for a one-character separator: the pieces between separators. */
  function Split(s: string, sep: char): (r: seq<string>)
    ensures |r| == 1 + Count(s, sep)
    ensures forall k :: 0 <= k < |r| ==> sep !in r[k]
  {
    if s == [] then [""]
    else
      var rest := Split(s[1..], sep);
      if s[0] == sep then [""] + rest
      else [[s[0]] + rest[0]] + rest[1..]
  }

  /** `parts.join(sep)` for a one-character separator. */
  function Join(parts: seq<string>, sep: char): string {
    if |parts| == 0 then ""
    else if |parts| == 1 then parts[0]
    else parts[0] + [sep] + Join(parts[1..], sep)
  }

  /** Joining the pieces of a split gives back the original string. */
  lemma {:induction false} JoinSplit(s: string, sep: char)
    ensures Join(Split(s, sep), sep) == s
  {
    if s != [] {
      var rest := Split(s[1..], sep);
      JoinSplit(s[1..], sep);
      if s[0] == sep {
        assert s == [sep] + s[1..];
      } else {
        var r := Split(s, sep);
        assert r[1..] == rest[1..];
        if |rest| == 1 {
          assert s == [s[0]] + s[1..];
        } else {
          assert Join(rest, sep) == rest[0] + [sep] + Join(rest[1..], sep);
          assert s == [s[0]] + s[1..];
        }
      }
    }
  }

  /** Splitting a join of separator-free pieces gives back the pieces. */
  lemma {:induction false} SplitJoin(parts: seq<string>, sep: char)
    requires |parts| >= 1
    requires forall k :: 0 <= k < |parts| ==> sep !in parts[k]
    ensures Split(Join(parts, sep), sep) == parts
  {
    if |parts| == 1 {
      SplitNoSeparator(parts[0], sep);
    } else {
      SplitJoin(parts[1..], sep);
      SplitAfterPiece(parts[0], Join(parts[1..], sep), sep);
      assert [parts[0]] + parts[1..] == parts;
    }
  }

  lemma {:induction false} SplitNoSeparator(s: string, sep: char)
    requires sep !in s
    ensures Split(s, sep) == [s]
  {
    if s != [] {
      SplitNoSeparator(s[1..], sep);
      assert [s[0]] + s[1..] == s;
    }
  }

  /** A separator-free piece, a separator and a tail split into the piece and the pieces of the tail. */
  lemma {:induction false} SplitAfterPiece(piece: string, tail: string, sep: char)
    requires sep !in piece
    ensures Split(piece + [sep] + tail, sep) == [piece] + Split(tail, sep)
  {
    if piece == [] {
      assert ([sep] + tail)[1..] == tail;
    } else {
      var s := piece + [sep] + tail;
      assert s[1..] == piece[1..] + [sep] + tail;
      SplitAfterPiece(piece[1..], tail, sep);
      assert [piece[0]] + piece[1..] == piece;
    }
  }

  /** How `Split` treats a first character. */
  lemma SplitCons(c: char, s: string, sep: char)
    ensures var rest := Split(s, sep);
      Split([c] + s, sep) == if c == sep then [""] + rest else [[c] + rest[0]] + rest[1..]
  {
    assert ([c] + s)[1..] == s;
  }

  /** Splitting a concatenation: the last piece of `x` continues into `y`, every earlier
      piece of `x` is complete. This is what makes carrying the partial last line of a
      chunk into the next chunk correct. */
  lemma {:induction false} SplitAppend(x: string, y: string, sep: char)
    ensures var px := Split(x, sep);
      Split(x + y, sep) == px[..|px| - 1] + Split(px[|px| - 1] + y, sep)
  {
    if x == [] {
      assert x + y == y;
    } else {
      var c, x' := x[0], x[1..];
      assert x == [c] + x';
      assert x + y == [c] + (x' + y);
      SplitAppend(x', y, sep);
      SplitCons(c, x', sep);
      SplitCons(c, x' + y, sep);
      SplitAppendStep(c, x', y, sep);
    }
  }

  lemma SplitAppendStep(c: char, x': string, y: string, sep: char)
    requires var pr := Split(x', sep);
      Split(x' + y, sep) == pr[..|pr| - 1] + Split(pr[|pr| - 1] + y, sep)
    requires var rest := Split(x', sep);
      Split([c] + x', sep) == if c == sep then [""] + rest else [[c] + rest[0]] + rest[1..]
    requires var rest := Split(x' + y, sep);
      Split([c] + (x' + y), sep) == if c == sep then [""] + rest else [[c] + rest[0]] + rest[1..]
    ensures var px := Split([c] + x', sep);
      Split([c] + (x' + y), sep) == px[..|px| - 1] + Split(px[|px| - 1] + y, sep)
  {
    var pr := Split(x', sep);
    var px := Split([c] + x', sep);
    var same := c == sep || |pr| > 1;
    LastPieceOfCons(c, x', sep);
    ConsLastSplit(c, pr[|pr| - 1], px[|px| - 1], y, sep, same);
    PiecesStep(c, c == sep, pr, Split(pr[|pr| - 1] + y, sep), Split(x' + y, sep), px,
               Split([c] + (x' + y), sep), Split(px[|px| - 1] + y, sep));
  }

  /** The last piece of `[c] + s` is the last piece of `s`, unless `s` has one piece and
      `c` is not the separator, when `c` is put in front of it. */
  lemma LastPieceOfCons(c: char, s: string, sep: char)
    ensures var pr, px := Split(s, sep), Split([c] + s, sep);
      if c == sep || |pr| > 1 then px[|px| - 1] == pr[|pr| - 1] else px[|px| - 1] == [c] + pr[0]
  {
    SplitCons(c, s, sep);
  }

  lemma ConsLastSplit(c: char, last: string, plast: string, y: string, sep: char, same: bool)
    requires if same then plast == last else plast == [c] + last && c != sep
    ensures var tail := Split(last + y, sep);
      Split(plast + y, sep) == if same then tail else [[c] + tail[0]] + tail[1..]
  {
    if !same {
      assert plast + y == [c] + (last + y);
      SplitCons(c, last + y, sep);
    }
  }

  lemma PiecesStep(c: char, isSep: bool, pr: seq<string>, tail: seq<string>, rest: seq<string>,
                   px: seq<string>, whole: seq<string>, consLast: seq<string>)
    requires |pr| >= 1 && |tail| >= 1
    requires rest == pr[..|pr| - 1] + tail
    requires px == if isSep then [""] + pr else [[c] + pr[0]] + pr[1..]
    requires whole == if isSep then [""] + rest else [[c] + rest[0]] + rest[1..]
    requires !isSep && |pr| == 1 ==> consLast == [[c] + tail[0]] + tail[1..]
    requires isSep || |pr| > 1 ==> consLast == tail
    ensures whole == px[..|px| - 1] + consLast
  {
    if isSep {
      assert px[..|px| - 1] == [""] + pr[..|pr| - 1];
    } else if |pr| > 1 {
      assert rest[0] == pr[0];
      assert rest[1..] == pr[1..|pr| - 1] + tail;
      assert px[..|px| - 1] == [[c] + pr[0]] + pr[1..|pr| - 1];
    }
  }

  /** `s.startsWith(p)`. */
  predicate StartsWith(s: string, p: string) {
    |p| <= |s| && s[..|p|] == p
  }

  /** `s.endsWith(p)`. */
  predicate EndsWith(s: string, p: string) {
    |p| <= |s| && s[|s| - |p|..] == p
  }

  /** `s.includes(p)`. */
  predicate Includes(s: string, p: string)
    decreases |s|
  {
    StartsWith(s, p) || (s != [] && Includes(s[1..], p))
  }

  /** `p` occurs in `s` starting at position `i`. */
  predicate OccursAt(s: string, p: string, i: int) {
    0 <= i <= |s| - |p| && s[i..i + |p|] == p
  }

  /** `s.includes(p)` holds exactly when `p` occurs at some position of `s`. */
  lemma {:induction false} IncludesAt(s: string, p: string)
    ensures Includes(s, p) <==> exists i :: OccursAt(s, p, i)
    decreases |s|
  {
    if s == [] {
      if |p| == 0 {
        assert OccursAt(s, p, 0);
      }
    } else {
      IncludesAt(s[1..], p);
      if Includes(s, p) {
        if StartsWith(s, p) {
          assert OccursAt(s, p, 0);
        } else {
          var i :| OccursAt(s[1..], p, i);
          assert s[i + 1..i + 1 + |p|] == s[1..][i..i + |p|];
          assert OccursAt(s, p, i + 1);
        }
      }
      if exists i :: OccursAt(s, p, i) {
        var i :| OccursAt(s, p, i);
        if i == 0 {
          assert StartsWith(s, p);
        } else {
          assert s[1..][i - 1..i - 1 + |p|] == s[i..i + |p|];
          assert OccursAt(s[1..], p, i - 1);
        }
      }
    }
  }

  /** A string that contains `m` contains everything `m` contains. */
  lemma IncludesTransitive(s: string, m: string, p: string)
    requires Includes(s, m) && Includes(m, p)
    ensures Includes(s, p)
  {
    IncludesAt(s, m);
    IncludesAt(m, p);
    IncludesAt(s, p);
    var i :| OccursAt(s, m, i);
    var j :| OccursAt(m, p, j);
    forall k | 0 <= k < |p|
      ensures s[i + j + k] == p[k]
    {
      assert s[i..i + |m|][j + k] == m[j + k];
      assert m[j..j + |p|][k] == p[k];
    }
    assert s[i + j..i + j + |p|] == p;
    assert OccursAt(s, p, i + j);
  }

  /** A character that is neither the separator nor in any part is not in the joined string. */
  lemma {:induction false} JoinAvoids(parts: seq<string>, sep: char, c: char)
    requires c != sep && forall k :: 0 <= k < |parts| ==> c !in parts[k]
    ensures c !in Join(parts, sep)
  {
    if |parts| > 1 {
      JoinAvoids(parts[1..], sep, c);
    }
  }

  // JavaScript strings are sequences of UTF-16 code units. `length` and `<` work on those
  // units, so a character above U+FFFF counts twice and compares by its high surrogate.

  /** The UTF-16 code units of one character: itself below U+10000, otherwise a high
      surrogate (U+D800..U+DBFF) followed by a low surrogate (U+DC00..U+DFFF). */
  function CodeUnits(c: char): (u: seq<int>)
    ensures |u| == (if c as int < 0x1_0000 then 1 else 2)
    ensures c as int < 0x1_0000 ==> u[0] == c as int && !IsSurrogate(u[0])
    ensures c as int >= 0x1_0000 ==>
      && IsHighSurrogate(u[0]) && 0xDC00 <= u[1] < 0xE000
      && c as int == 0x1_0000 + (u[0] - 0xD800) * 0x400 + (u[1] - 0xDC00)
  {
    var n := c as int;
    if n < 0x1_0000 then [n]
    else [0xD800 + (n - 0x1_0000) / 0x400, 0xDC00 + (n - 0x1_0000) % 0x400]
  }

  predicate IsHighSurrogate(u: int) {
    0xD800 <= u < 0xDC00
  }

  predicate IsSurrogate(u: int) {
    0xD800 <= u < 0xE000
  }

  /** The UTF-16 encoding of a string, the sequence JavaScript stores. */
  function Utf16(s: string): (u: seq<int>)
    decreases |s|
  {
    if s == [] then [] else CodeUnits(s[0]) + Utf16(s[1..])
  }

  /** `s.length` in JavaScript: the number of UTF-16 code units. */
  function JsLength(s: string): (n: nat)
    ensures |s| <= n <= 2 * |s|
    ensures n == |s| <==> forall i :: 0 <= i < |s| ==> s[i] as int < 0x1_0000
    decreases |s|
  {
    if s == [] then 0 else |CodeUnits(s[0])| + JsLength(s[1..])
  }

  /** `JsLength` counts exactly the units of the encoding. */
  lemma {:induction false} JsLengthIsUnits(s: string)
    ensures JsLength(s) == |Utf16(s)|
    decreases |s|
  {
    if s != [] {
      JsLengthIsUnits(s[1..]);
    }
  }

  /** The numeric values of the characters of `s`. */
  function CodePoints(s: string): (r: seq<int>)
    ensures |r| == |s| && forall i :: 0 <= i < |s| ==> r[i] == s[i] as int
  {
    seq(|s|, i requires 0 <= i < |s| => s[i] as int)
  }

  /** Reads UTF-16 code units back as code points: a high surrogate followed by a unit
      combines with it, any other unit stands for itself. */
  function DecodeUtf16(u: seq<int>): (r: seq<int>)
    decreases |u|
  {
    if u == [] then []
    else if IsHighSurrogate(u[0]) && |u| >= 2 then
      [0x1_0000 + (u[0] - 0xD800) * 0x400 + (u[1] - 0xDC00)] + DecodeUtf16(u[2..])
    else [u[0]] + DecodeUtf16(u[1..])
  }

  /** Decoding the units of one character in front of any other units yields that
      character first. */
  lemma DecodeCodeUnits(c: char, rest: seq<int>)
    ensures DecodeUtf16(CodeUnits(c) + rest) == [c as int] + DecodeUtf16(rest)
  {
    var u := CodeUnits(c) + rest;
    if c as int < 0x1_0000 {
      assert u[1..] == rest;
    } else {
      assert u[2..] == rest;
    }
  }

  /** Decoding inverts the encoding, so no information is lost in UTF-16. */
  lemma {:induction false} Utf16RoundTrip(s: string)
    ensures DecodeUtf16(Utf16(s)) == CodePoints(s)
    decreases |s|
  {
    if s != [] {
      Utf16RoundTrip(s[1..]);
      DecodeCodeUnits(s[0], Utf16(s[1..]));
      assert CodePoints(s) == [s[0] as int] + CodePoints(s[1..]);
    }
  }

  /** Different strings have different encodings. */
  lemma Utf16Injective(a: string, b: string)
    requires Utf16(a) == Utf16(b)
    ensures a == b
  {
    Utf16RoundTrip(a);
    Utf16RoundTrip(b);
    assert CodePoints(a) == CodePoints(b);
    forall i | 0 <= i < |a|
      ensures a[i] == b[i]
    {
      assert CodePoints(a)[i] == CodePoints(b)[i];
    }
  }
}
