/** Parsed rows. The engine builds each row as an object keyed by header name
    (`rowObject[header] = row[index]`); the model keeps the values in header order and
    resolves a column name the way the object does: a later column with the same name
    overwrites an earlier one, and a name that is not a column reads as the empty string
    (`row[column] || ''`). */
module Rows {

  /** The values of one data row, in header order. */
  type Row = seq<string>

  /** The position of the last header named `col`, or -1 when there is none. */
  function LastIndex(headers: seq<string>, col: string): (j: int)
    ensures -1 <= j < |headers|
    ensures j >= 0 ==> headers[j] == col && forall k :: j < k < |headers| ==> headers[k] != col
    ensures j == -1 <==> col !in headers
  {
    if headers == [] then -1
    else if headers[|headers| - 1] == col then |headers| - 1
    else LastIndex(headers[..|headers| - 1], col)
  }

  /** `row[col] || ''` on the row object built from `headers` and `row`. */
  function Lookup(headers: seq<string>, row: Row, col: string): (r: string)
    ensures col !in headers ==> r == ""
    ensures forall j ::
      (0 <= j < |headers| == |row| && headers[j] == col
       && forall k :: j < k < |headers| ==> headers[k] != col) ==> r == row[j]
  {
    var j := LastIndex(headers, col);
    if 0 <= j < |row| then row[j] else ""
  }
}
