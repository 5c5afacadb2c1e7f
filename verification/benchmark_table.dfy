/** The benchmark table's tab-separated clipboard export. Unlike the company
    table, only absent values are replaced (by "No data"); empty strings stay
    empty, and an empty table produces a warning instead of text. */
module BenchmarkTable {
  import opened Wrappers
  import opened Types
  import opened Tsv

  const Headers: seq<string> :=
    ["Role", "Experience Band", "Median CTC (INR LPA)", "Typical Range (25th\U{2013}75th)", "Sources Used"]

  const ColumnCount: nat := 5

  const AbsentPlaceholder: string := "No data"

  const NothingToCopyMessage: string := "No data available to copy."

  /** What a copy request does: warn, or write the text to the clipboard. */
  datatype CopyAction = Warn(message: string) | WriteClipboard(text: string)

  /** `(v === undefined || v === null) ? "No data" : String(v).replace(/\t|\n/g, " ")`:
      an absent value becomes "No data"; a present one keeps its length and
      every character except TAB and LF, which become spaces. */
  function ExportCell(value: Option<string>): (cell: string)
    ensures Clean(cell)
    ensures value.None? ==> cell == AbsentPlaceholder
    ensures value.Some? ==> |cell| == |value.value|
    ensures value.Some? ==> forall i :: 0 <= i < |cell| && !IsSeparator(value.value[i]) ==> cell[i] == value.value[i]
    ensures value.Some? ==> forall i :: 0 <= i < |cell| && IsSeparator(value.value[i]) ==> cell[i] == ' '
  {
    match value
    case None => AbsentPlaceholder
    case Some(v) => ReplaceSeparators(v)
  }

  /** An empty string is exported as the empty cell, not as a placeholder. */
  lemma EmptyValueStaysEmpty()
    ensures ExportCell(Some("")) == ""
  {
  }

  /** The exported values of a row, in header order; `sourceUrl` is not among them. */
  function Values(row: BenchmarkData): (values: seq<Option<string>>)
    ensures |values| == ColumnCount
    ensures values[0] == row.role && values[1] == row.expBand && values[2] == row.medianCtc
    ensures values[3] == row.typicalRange && values[4] == row.sources
  {
    [row.role, row.expBand, row.medianCtc, row.typicalRange, row.sources]
  }

  function ExportRow(row: BenchmarkData): (cells: seq<string>)
    ensures |cells| == ColumnCount && AllClean(cells)
    ensures forall k :: 0 <= k < ColumnCount ==> cells[k] == ExportCell(Values(row)[k])
  {
    var values := Values(row);
    seq(ColumnCount, k requires 0 <= k < ColumnCount => ExportCell(values[k]))
  }

  /** The exported rows of a table, one per data row, in order. */
  function ExportRows(data: seq<BenchmarkData>): (rows: seq<seq<string>>)
    ensures |rows| == |data|
    ensures forall k :: 0 <= k < |data| ==> rows[k] == ExportRow(data[k])
    ensures forall k :: 0 <= k < |rows| ==> |rows[k]| == ColumnCount && AllClean(rows[k])
  {
    seq(|data|, k requires 0 <= k < |data| => ExportRow(data[k]))
  }

  /** Changing a row's `sourceUrl` does not change its exported line. */
  lemma SourceUrlNotExported(row: BenchmarkData, url: Option<string>)
    ensures ExportRow(row.(sourceUrl := url)) == ExportRow(row)
  {
  }

  lemma HeadersClean()
    ensures |Headers| == ColumnCount && AllClean(Headers)
  {
  }

  /** `handleCopy`: an empty table only warns. Otherwise the text reads back as
      the header line followed by one line per row, each with the five
      exported cells. */
  function HandleCopy(data: seq<BenchmarkData>): (action: CopyAction)
    ensures action.Warn? <==> |data| == 0
    ensures action.Warn? ==> action.message == NothingToCopyMessage
    ensures action.WriteClipboard? ==>
              Decode(action.text) == [Headers] + ExportRows(data)
  {
    if |data| == 0 then Warn(NothingToCopyMessage)
    else
      var rows := ExportRows(data);
      HeadersClean();
      EncodeDecode(Headers, rows);
      WriteClipboard(Encode(Headers, rows))
  }

  /** An absent experience band is exported as "No data". */
  lemma AbsentBand(data: seq<BenchmarkData>)
    ensures forall k :: 0 <= k < |data| && data[k].expBand.None? ==> ExportRows(data)[k][1] == AbsentPlaceholder
  {
    forall k | 0 <= k < |data| && data[k].expBand.None?
      ensures ExportRows(data)[k][1] == AbsentPlaceholder
    {
      assert ExportRows(data)[k] == ExportRow(data[k]);
      assert Values(data[k])[1] == data[k].expBand;
    }
  }

  /** The copied text has one line more than the table has rows and five cells
      on every line; an absent expected-experience band reads back as "No data". */
  lemma HandleCopyShape(data: seq<BenchmarkData>)
    requires |data| > 0
    ensures var table := Decode(HandleCopy(data).text);
      && |table| == |data| + 1
      && (forall k :: 0 <= k < |table| ==> |table[k]| == ColumnCount && AllClean(table[k]))
      && (forall k :: 0 <= k < |data| && data[k].expBand.None? ==> table[k + 1][1] == AbsentPlaceholder)
  {
    HeadersClean();
    TableClean(Headers, ExportRows(data), ColumnCount);
    AbsentBand(data);
    assert Decode(HandleCopy(data).text) == [Headers] + ExportRows(data);
  }
}
