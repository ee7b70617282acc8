/** The threshold logic of `detectColumnDataTypes`. The engine's tests for "looks like a
    number" (`!isNaN(v) && !isNaN(parseFloat(v))`) and "looks like a date"
    (`!isNaN(new Date(v).getTime())`) belong to the JavaScript engine and are parameters;
    both are applied to the trimmed value. */
module TypeDetection {
  import opened Text
  import opened Rows
  import opened Filters
  import Seqs

  datatype ColumnType = TextType | NumberType | DateType

  /** `Math.min(n, n > 10000 ? 200 : 500)`. */
  function SampleSize(n: nat): nat {
    Min(n, if n > 10000 then 200 else 500)
  }

  /** `val && val.toString().trim()`: the value has a character that is not white space. */
  predicate HasContent(v: string) {
    !IsBlank(v)
  }

  /** `row[header] || ''` for each row. */
  function ColumnValues(headers: seq<string>, rows: seq<Row>, header: string): (vs: seq<string>)
    ensures |vs| == |rows|
  {
    seq(|rows|, i requires 0 <= i < |rows| => Lookup(headers, rows[i], header))
  }

  /** The sampled values: the column's non-blank values among the first rows. */
  function Samples(headers: seq<string>, rows: seq<Row>, header: string): seq<string> {
    Seqs.Filter(ColumnValues(headers, rows[..SampleSize(|rows|)], header), HasContent)
  }

  /** The samples counted as numbers. */
  function NumericSamples(samples: seq<string>, isNumeric: string -> bool): seq<string> {
    Seqs.Filter(samples, v => isNumeric(Trim(v)))
  }

  /** The samples counted as dates: they parse as a date and, once trimmed, are longer than
      five UTF-16 code units (JavaScript's `length`). */
  function DateSamples(samples: seq<string>, isDate: string -> bool): seq<string> {
    Seqs.Filter(samples, v => isDate(Trim(v)) && JsLength(Trim(v)) > 5)
  }

  /** The decision on the counts; with at most 500 samples the engine's floating-point
      test `count / total >= 0.8` holds exactly when `5 * count >= 4 * total`. */
  function Classify(numeric: nat, date: nat, total: nat): ColumnType {
    if total == 0 then TextType
    else if 5 * numeric >= 4 * total then NumberType
    else if 5 * date >= 4 * total then DateType
    else TextType
  }

  /** The type detected for one column. */
  function DetectType(headers: seq<string>, rows: seq<Row>, header: string,
                      isNumeric: string -> bool, isDate: string -> bool): ColumnType
  {
    var samples := Samples(headers, rows, header);
    Classify(|NumericSamples(samples, isNumeric)|, |DateSamples(samples, isDate)|, |samples|)
  }

  /** The types of the columns `keys[..i + 1]` are those of `keys[..i]` with column
      `keys[i]` added. */
  lemma DetectionStep(headers: seq<string>, rows: seq<Row>, keys: seq<string>, i: nat,
                      isNumeric: string -> bool, isDate: string -> bool)
    requires i < |keys|
    ensures (map h | h in keys[..i + 1] :: DetectType(headers, rows, h, isNumeric, isDate))
      == (map h | h in keys[..i] :: DetectType(headers, rows, h, isNumeric, isDate))
           [keys[i] := DetectType(headers, rows, keys[i], isNumeric, isDate)]
  {
    assert keys[..i + 1] == keys[..i] + [keys[i]];
  }

  lemma ShareAtLeast(count: nat, total: nat)
    requires total > 0
    ensures (count as real / total as real >= 0.8) <==> 5 * count >= 4 * total
  {
    var c, t := count as real, total as real;
    var q := c / t;
    assert q * t == c;
    if q >= 0.8 {
      ScaleAtLeast(q, 0.8, t);
      assert c >= 0.8 * t;
    } else {
      ScaleBelow(q, 0.8, t);
      assert c < 0.8 * t;
    }
  }

  /** Proof helper for `ShareAtLeast`: a ratio at least `b` scales back to a count at
      least `b` times the total. */
  lemma ScaleAtLeast(a: real, b: real, t: real)
    requires t > 0.0 && a >= b
    ensures a * t >= b * t
  {
  }

  /** Proof helper for `ShareAtLeast`: a ratio below `b` scales back to a count below `b`
      times the total. */
  lemma ScaleBelow(a: real, b: real, t: real)
    requires t > 0.0 && a < b
    ensures a * t < b * t
  {
  }

  /** The decision is the share test of the source on exact ratios: a number column when
      at least 80% of the samples are numbers, otherwise a date column when at least 80%
      are dates, and text otherwise or when there are no samples. */
  lemma ClassifyIsShareTest(numeric: nat, date: nat, total: nat)
    ensures Classify(numeric, date, total) ==
      if total == 0 then TextType
      else if numeric as real / total as real >= 0.8 then NumberType
      else if date as real / total as real >= 0.8 then DateType
      else TextType
  {
    if total > 0 {
      ShareAtLeast(numeric, total);
      ShareAtLeast(date, total);
    }
  }

  /** The samples: at most 500, at most 200 for more than 10000 rows, each a non-blank value
      of the column in one of the sampled rows. */
  lemma SamplesSpec(headers: seq<string>, rows: seq<Row>, header: string)
    ensures var samples := Samples(headers, rows, header);
      && |samples| <= SampleSize(|rows|) <= 500
      && (|rows| > 10000 ==> |samples| <= 200)
      && forall v :: v in samples <==>
           HasContent(v) && v in ColumnValues(headers, rows[..SampleSize(|rows|)], header)
  {
    var values := ColumnValues(headers, rows[..SampleSize(|rows|)], header);
    forall v
      ensures v in Samples(headers, rows, header) <==> HasContent(v) && v in values
    {
      Seqs.FilterMembership(values, HasContent, v);
    }
  }

  /** The loop of `detectColumnDataTypes` over the samples, counting numbers and dates. */
  method CountSamples(samples: seq<string>, isNumeric: string -> bool, isDate: string -> bool)
    returns (numericCount: nat, dateCount: nat)
    ensures numericCount == |NumericSamples(samples, isNumeric)|
    ensures dateCount == |DateSamples(samples, isDate)|
  {
    numericCount, dateCount := 0, 0;
    var i := 0;
    while i < |samples|
      invariant 0 <= i <= |samples|
      invariant numericCount == |NumericSamples(samples[..i], isNumeric)|
      invariant dateCount == |DateSamples(samples[..i], isDate)|
    {
      var cleanValue := Trim(samples[i]);
      assert samples[..i + 1][..i] == samples[..i];
      if isNumeric(cleanValue) {
        numericCount := numericCount + 1;
      }
      if isDate(cleanValue) && JsLength(cleanValue) > 5 {
        dateCount := dateCount + 1;
      }
      i := i + 1;
    }
    assert samples[..i] == samples;
  }

  /** The body of the per-header loop of `detectColumnDataTypes`: sample, count, then the
      80% tests, with text for a column without samples. */
  method DetectOne(headers: seq<string>, rows: seq<Row>, header: string,
                   isNumeric: string -> bool, isDate: string -> bool)
    returns (columnType: ColumnType)
    ensures columnType == DetectType(headers, rows, header, isNumeric, isDate)
  {
    var sampleValues := Samples(headers, rows, header);
    var totalSamples := |sampleValues|;
    if totalSamples == 0 {
      columnType := TextType;
    } else {
      var numericCount, dateCount := CountSamples(sampleValues, isNumeric, isDate);
      if 5 * numericCount >= 4 * totalSamples {
        columnType := NumberType;
      } else if 5 * dateCount >= 4 * totalSamples {
        columnType := DateType;
      } else {
        columnType := TextType;
      }
    }
  }
}
