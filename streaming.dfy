/** The streaming parser `streamingParseCSV` as functions of the lines it meets. The method
    that runs it chunk by chunk is `FilterTool.CsvFilterTool.StreamingParseCsv`; its
    contract says that, whatever the chunk boundaries, it processes exactly the lines of
    the concatenated text split on `\n`. */
module Streaming {
  import opened Text
  import opened LineTokenizer
  import opened Rows
  import opened TextParser
  import Seqs

  /** The loop state: whether the header line has been seen, the headers, the rows kept and
      the number of lines skipped. */
  datatype StreamState = StreamState(headersParsed: bool, headers: seq<string>, rows: seq<Row>, skipped: nat)

  /** The state before the first chunk. */
  const Start := StreamState(false, [], [], 0)

  /** A data line of the streaming path: `parseCSVLine` only, with no fallback split. */
  function StreamDataLine(headers: seq<string>, line: string): (o: Outcome)
    ensures o.Kept? ==> |o.row| == |headers|
  {
    var row := Fields(line);
    if |row| == |headers| then Kept(row)
    else if |row| > 0 then Skipped
    else Ignored
  }

  /** The streaming and whole-text paths treat a data line alike unless the whole-text
      path's fallback split rescues it. */
  lemma StreamDataLineVsParseDataLine(headers: seq<string>, line: string)
    ensures (|Fields(line)| == |headers| || |FallbackSplit(line)| != |headers|)
      ==> StreamDataLine(headers, line) == ParseDataLine(headers, line)
    ensures (|Fields(line)| != |headers| && |Fields(line)| > 0 && |FallbackSplit(line)| == |headers|)
      ==> StreamDataLine(headers, line) == Skipped && ParseDataLine(headers, line) == Kept(FallbackSplit(line))
  {
  }

  /** The body of the inner `for (const line of lines)` loop. */
  function StreamLine(st: StreamState, line: string): StreamState {
    if IsBlank(line) then st
    else if !st.headersParsed then st.(headersParsed := true, headers := Fields(line))
    else
      match StreamDataLine(st.headers, line)
      case Kept(row) => st.(rows := st.rows + [row])
      case Skipped => st.(skipped := st.skipped + 1)
      case Ignored => st
  }

  /** The state after processing `lines` in order. */
  function StreamLines(st: StreamState, lines: seq<string>): StreamState {
    if lines == [] then st
    else StreamLine(StreamLines(st, lines[..|lines| - 1]), lines[|lines| - 1])
  }

  /** Processing two runs of lines one after the other is processing their concatenation. */
  lemma {:induction false} StreamLinesAppend(st: StreamState, a: seq<string>, b: seq<string>)
    ensures StreamLines(st, a + b) == StreamLines(StreamLines(st, a), b)
  {
    if b == [] {
      assert a + b == a;
    } else {
      var init := b[..|b| - 1];
      assert (a + b)[..|a + b| - 1] == a + init;
      assert (a + b)[|a + b| - 1] == b[|b| - 1];
      StreamLinesAppend(st, a, init);
    }
  }

  /** The concatenation of the chunks read so far. */
  function Concat(chunks: seq<string>): string {
    if chunks == [] then "" else Concat(chunks[..|chunks| - 1]) + chunks[|chunks| - 1]
  }

  /** One more line advances the loop by one step. */
  lemma StreamLinesStep(st: StreamState, lines: seq<string>, j: nat)
    requires j < |lines|
    ensures StreamLines(st, lines[..j + 1]) == StreamLine(StreamLines(st, lines[..j]), lines[j])
  {
    var run := lines[..j + 1];
    assert run[..|run| - 1] == lines[..j];
    assert run[|run| - 1] == lines[j];
  }

  /** With no chunks the text is one empty line, which leaves the state as it was. */
  lemma NoChunks(chunks: seq<string>)
    requires chunks == []
    ensures StreamLines(Start, Split(Concat(chunks), '\n')) == Start
  {
    var only := Split(Concat(chunks), '\n');
    assert Concat(chunks) == "";
    assert |only| == 1 && only[0] == "";
    assert only[..0] == [];
  }

  /** Appending chunk `i` to the buffer: the lines of the text read so far are the lines
      already complete followed by the lines of the new buffer. */
  lemma BufferStep(chunks: seq<string>, i: nat, done: seq<string>, buffer: string)
    requires i < |chunks|
    requires Split(Concat(chunks[..i]), '\n') == done + [buffer]
    ensures Split(Concat(chunks[..i + 1]), '\n') == done + Split(buffer + chunks[i], '\n')
  {
    var before := Concat(chunks[..i]);
    var upTo := chunks[..i + 1];
    assert upTo[..|upTo| - 1] == chunks[..i];
    assert upTo[|upTo| - 1] == chunks[i];
    assert Concat(upTo) == before + chunks[i];
    SplitAppend(before, chunks[i], '\n');
    var px := done + [buffer];
    assert px[..|px| - 1] == done;
    assert px[|px| - 1] == buffer;
  }

  /** The streaming data-line loop over `lines`, in order. */
  function StreamRows(headers: seq<string>, lines: seq<string>): (p: Parsed)
    ensures forall k :: 0 <= k < |p.rows| ==> |p.rows[k]| == |headers|
  {
    if lines == [] then Parsed([], 0)
    else
      var p := StreamRows(headers, lines[..|lines| - 1]);
      match StreamDataLine(headers, lines[|lines| - 1])
      case Kept(row) => Parsed(p.rows + [row], p.skipped)
      case Skipped => Parsed(p.rows, p.skipped + 1)
      case Ignored => p
  }

  /** An independent description of the result: drop the blank lines, take the first
      remaining line as the header and run the data-line loop over the rest. */
  function StreamReference(lines: seq<string>): StreamState {
    FromNonBlank(Seqs.Filter(lines, NonBlank))
  }

  /** The reference description on lines already known to be non-blank. */
  function FromNonBlank(nb: seq<string>): StreamState {
    if nb == [] then Start
    else
      var headers := Fields(nb[0]);
      var p := StreamRows(headers, nb[1..]);
      StreamState(true, headers, p.rows, p.skipped)
  }

  /** One more non-blank line advances the reference as one step of the loop does. */
  lemma FromNonBlankStep(nb: seq<string>, last: string)
    requires !IsBlank(last)
    ensures FromNonBlank(nb + [last]) == StreamLine(FromNonBlank(nb), last)
  {
    var all := nb + [last];
    if nb != [] {
      assert all[0] == nb[0];
      var rest := all[1..];
      assert rest[..|rest| - 1] == nb[1..] && rest[|rest| - 1] == last;
    } else {
      assert all == [last];
    }
  }

  /** Blank lines leave the loop state alone. */
  lemma {:induction false} StreamSkipsBlank(st: StreamState, lines: seq<string>)
    ensures StreamLines(st, lines) == StreamLines(st, Seqs.Filter(lines, NonBlank))
  {
    if lines == [] {
      assert Seqs.Filter(lines, NonBlank) == [];
    } else {
      var init, last := lines[..|lines| - 1], lines[|lines| - 1];
      var nbInit := Seqs.Filter(init, NonBlank);
      if NonBlank(last) {
        var nb := nbInit + [last];
        assert nb[..|nb| - 1] == nbInit && nb[|nb| - 1] == last;
        assert Seqs.Filter(lines, NonBlank) == nb;
        calc {
          StreamLines(st, lines);
          StreamLine(StreamLines(st, init), last);
          { StreamSkipsBlank(st, init); }
          StreamLine(StreamLines(st, nbInit), last);
          StreamLines(st, nb);
        }
      } else {
        assert Seqs.Filter(lines, NonBlank) == nbInit by {
          assert nbInit + [] == nbInit;
        }
        calc {
          StreamLines(st, lines);
          StreamLine(StreamLines(st, init), last);
          StreamLines(st, init);
          { StreamSkipsBlank(st, init); }
          StreamLines(st, nbInit);
        }
      }
    }
  }

  /** On non-blank lines the loop computes the reference description. */
  lemma {:induction false} StreamNonBlank(nb: seq<string>)
    requires forall k :: 0 <= k < |nb| ==> !IsBlank(nb[k])
    ensures StreamLines(Start, nb) == FromNonBlank(nb)
  {
    if nb != [] {
      var init, last := nb[..|nb| - 1], nb[|nb| - 1];
      assert nb == init + [last];
      calc {
        StreamLines(Start, nb);
        StreamLine(StreamLines(Start, init), last);
        { StreamNonBlank(init); }
        StreamLine(FromNonBlank(init), last);
        { FromNonBlankStep(init, last); }
        FromNonBlank(init + [last]);
      }
    }
  }

  /** The line-by-line loop computes the reference description. */
  lemma StreamMatchesReference(lines: seq<string>)
    ensures StreamLines(Start, lines) == StreamReference(lines)
  {
    StreamSkipsBlank(Start, lines);
    Seqs.FilterSatisfies(lines, NonBlank);
    StreamNonBlank(Seqs.Filter(lines, NonBlank));
  }

  /** When every line is non-blank, each one is either retained or skipped. */
  lemma {:induction false} StreamRowsAccount(headers: seq<string>, lines: seq<string>)
    requires forall k :: 0 <= k < |lines| ==> !IsBlank(lines[k])
    ensures |StreamRows(headers, lines).rows| + StreamRows(headers, lines).skipped == |lines|
  {
    if lines != [] {
      StreamRowsAccount(headers, lines[..|lines| - 1]);
      FieldCount(lines[|lines| - 1]);
    }
  }

  /** After the stream: the headers are `parseCSVLine` of the first non-blank line, every
      row has exactly one value per header, and the rows and skipped lines together are
      all the other non-blank lines. With no non-blank line no header is found. */
  lemma StreamSummary(lines: seq<string>)
    ensures var st, nb := StreamLines(Start, lines), Seqs.Filter(lines, NonBlank);
      && (st.headersParsed <==> nb != [])
      && (nb == [] ==> st == Start)
      && (nb != [] ==> st.headers == Fields(nb[0]) && |st.rows| + st.skipped == |nb| - 1)
      && (forall k :: 0 <= k < |st.rows| ==> |st.rows[k]| == |st.headers|)
  {
    var nb := Seqs.Filter(lines, NonBlank);
    assert StreamLines(Start, lines) == FromNonBlank(nb) by {
      StreamMatchesReference(lines);
    }
    if nb != [] {
      Seqs.FilterSatisfies(lines, NonBlank);
      StreamRowsAccount(Fields(nb[0]), nb[1..]);
    }
  }
}
