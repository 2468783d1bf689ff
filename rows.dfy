/** The three editable row lists of the request form (parameters, form-data body
    fields, headers) and the credential pair, shaped after the row types of the
    frontend, together with the list operations every table shares: copy and
    replace row `i`, drop row `i` by filtering on the index, append a blank row. */
module Rows {

  /** A selected file, an opaque handle of the browser. */
  datatype File = File(handle: nat)

  /** The value of a body field: typed text, a picked file, or `undefined`
      (what the file picker leaves when it reports an empty file list). */
  datatype BodyValue = Text(text: string) | Upload(file: File) | Absent

  /** A query parameter row. */
  datatype Param = Param(key: string, value: string)

  /** A form-data body row; `kind` is the selector value, `text` or `file`. */
  datatype BodyRow = BodyRow(key: string, kind: string, value: BodyValue)

  /** A custom header row. */
  datatype HeaderRow = HeaderRow(name: string, value: string)

  /** The credential pair of the Auth tab; only `value` is ever sent. */
  datatype Credential = Credential(key: string, value: string)

  const BlankParam := Param("", "")
  const BlankBodyRow := BodyRow("", "text", Text(""))
  const BlankHeader := HeaderRow("", "")
  const BlankCredential := Credential("", "")

  /** A copy of the list with row `i` replaced. */
  function ReplaceAt<T>(rows: seq<T>, i: nat, row: T): (r: seq<T>)
    requires i < |rows|
    ensures |r| == |rows|
    ensures r[i] == row
    ensures forall j :: 0 <= j < |rows| && j != i ==> r[j] == rows[j]
  {
    rows[..i] + [row] + rows[i + 1..]
  }

  /** Filtering the list on the index: keeps every row whose position, counted
      from `idx`, is not `i`. */
  function FilterIndex<T>(rows: seq<T>, i: nat, idx: nat): (r: seq<T>)
    ensures idx <= i < idx + |rows| ==> r == rows[..i - idx] + rows[i - idx + 1..]
    ensures !(idx <= i < idx + |rows|) ==> r == rows
    decreases |rows|
  {
    if rows == [] then []
    else (if idx == i then [] else [rows[0]]) + FilterIndex(rows[1..], i, idx + 1)
  }

  /** Deleting row `i` of a table: the filter on the index, started at index 0. */
  function RemoveAt<T>(rows: seq<T>, i: nat): (r: seq<T>)
    ensures i < |rows| ==> |r| == |rows| - 1
    ensures i < |rows| ==> forall j :: 0 <= j < i ==> r[j] == rows[j]
    ensures i < |rows| ==> forall j :: i <= j < |r| ==> r[j] == rows[j + 1]
    ensures i >= |rows| ==> r == rows
  {
    FilterIndex(rows, i, 0)
  }

  /** Putting the removed row back at its place restores the list: removal
      drops exactly row `i` and nothing else. */
  lemma RemoveAtReinsert<T>(rows: seq<T>, i: nat)
    requires i < |rows|
    ensures RemoveAt(rows, i)[..i] + [rows[i]] + RemoveAt(rows, i)[i..] == rows
  {
  }
}
