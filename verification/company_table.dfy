/** The company table: attribution of a displayed value to one of the row's
    field sources, detection of missing-data sentinels, and the tab-separated
    clipboard export. */
module CompanyTable {
  import opened Wrappers
  import opened Text
  import opened Types
  import opened Tsv

  const IdentityHeaders: seq<string> := [
    "Company", "Status", "Segment", "Business Operations",
    "Revenue (USD Bn)", "Revenue (INR Cr)", "Employees", "Parent Group"
  ]
  const RatingHeaders: seq<string> := ["Glassdoor \U{2605}", "Naukri \U{2605}", "LinkedIn Proxy"]
  const TesterHeaders: seq<string> := ["Tester 0-2 (Median LPA)", "Tester 2-5 (Median LPA)", "Tester 5-10 (Median LPA)"]
  const CyberHeaders: seq<string> := ["Cyber 0-2 (Median LPA)", "Cyber 2-5 (Median LPA)", "Cyber 5-10 (Median LPA)"]
  const DevOpsHeaders: seq<string> := ["DevOps 0-2 (Median LPA)", "DevOps 2-5 (Median LPA)", "DevOps 5-10 (Median LPA)"]
  const SoftwareHeaders: seq<string> :=
    ["Software 0-2 (Median LPA)", "Software 2-5 (Median LPA)", "Software 5-10 (Median LPA)"]

  /** The 24 column titles, in export order. */
  const Headers: seq<string> :=
    IdentityHeaders + RatingHeaders + TesterHeaders + CyberHeaders + DevOpsHeaders + SoftwareHeaders + ["Audit Trail"]

  const ColumnCount: nat := 24

  const ExportPlaceholder: string := "N/A"

  // ---------------------------------------------------------------------------
  // Attribution

  /** A field source supports a display key when its field name contains the
      key, both lowercased. */
  predicate Matches(source: FieldSource, key: string) {
    Contains(Lower(source.field), Lower(key))
  }

  /** `Array.prototype.find` over the sources: the position of the first match. */
  function FirstMatch(sources: seq<FieldSource>, key: string): (r: Option<nat>)
    ensures r.Some? ==> r.value < |sources| && Matches(sources[r.value], key)
    ensures r.Some? ==> forall j :: 0 <= j < r.value ==> !Matches(sources[j], key)
    ensures r.None? ==> forall j :: 0 <= j < |sources| ==> !Matches(sources[j], key)
  {
    if |sources| == 0 then None
    else if Matches(sources[0], key) then Some(0)
    else
      match FirstMatch(sources[1..], key)
      case None => None
      case Some(i) => Some(i + 1)
  }

  /** `getSourceForField`: the first field source whose field name contains the
      key, ignoring case; none when nothing matches or the row has no sources. */
  function SourceForField(row: CompanyData, key: string): (r: Option<FieldSource>)
    ensures row.fieldSources.None? ==> r.None?
    ensures r.Some? ==> row.fieldSources.Some? && Matches(r.value, key)
    ensures r.Some? ==> exists i :: 0 <= i < |row.fieldSources.value| && row.fieldSources.value[i] == r.value
                          && forall j :: 0 <= j < i ==> !Matches(row.fieldSources.value[j], key)
    ensures r.None? && row.fieldSources.Some? ==>
              forall j :: 0 <= j < |row.fieldSources.value| ==> !Matches(row.fieldSources.value[j], key)
  {
    match row.fieldSources
    case None => None
    case Some(sources) =>
      match FirstMatch(sources, key)
      case None => None
      case Some(i) => Some(sources[i])
  }

  /** The first match is determined by which positions match. */
  lemma FirstMatchDetermined(a: seq<FieldSource>, ka: string, b: seq<FieldSource>, kb: string)
    requires |a| == |b|
    requires forall j :: 0 <= j < |a| ==> (Matches(a[j], ka) <==> Matches(b[j], kb))
    ensures FirstMatch(a, ka) == FirstMatch(b, kb)
  {
  }

  /** Attribution ignores the case of the key. */
  lemma AttributionIgnoresKeyCase(row: CompanyData, k1: string, k2: string)
    requires Lower(k1) == Lower(k2)
    ensures SourceForField(row, k1) == SourceForField(row, k2)
  {
    if row.fieldSources.Some? {
      FirstMatchDetermined(row.fieldSources.value, k1, row.fieldSources.value, k2);
    }
  }

  /** Attribution ignores the case of the field names: sources whose fields agree
      up to case are matched at the same position. */
  lemma AttributionIgnoresFieldCase(a: seq<FieldSource>, b: seq<FieldSource>, key: string)
    requires |a| == |b|
    requires forall j :: 0 <= j < |a| ==> Lower(a[j].field) == Lower(b[j].field)
    ensures FirstMatch(a, key) == FirstMatch(b, key)
  {
    FirstMatchDetermined(a, key, b, key);
  }

  // ---------------------------------------------------------------------------
  // Missing values and the source link

  /** `isMissing`: absent or empty, a lowercase form containing "no data" or
      "n/a", or exactly "-". */
  predicate IsMissing(value: Option<string>)
    ensures IsMissing(value) ==> value.None? || value.value in {"", "-"} || |value.value| >= |"n/a"|
    ensures IsMissing(value) <==>
              || value.None? || value.value == "" || value.value == "-"
              || (exists i :: OccursAt(Lower(value.value), "no data", i))
              || (exists i :: OccursAt(Lower(value.value), "n/a", i))
  {
    match value
    case None => true
    case Some(v) =>
      ContainsIff(Lower(v), "no data");
      ContainsIff(Lower(v), "n/a");
      v == "" || Contains(Lower(v), "no data") || Contains(Lower(v), "n/a") || v == "-"
  }

  /** The four ways a present value counts as missing, stated by position: it is
      empty or "-", or its lowercase form has "no data" or "n/a" somewhere. */
  lemma MissingIff(v: string)
    ensures IsMissing(None)
    ensures IsMissing(Some(v)) <==>
              || v == "" || v == "-"
              || (exists i :: OccursAt(Lower(v), "no data", i))
              || (exists i :: OccursAt(Lower(v), "n/a", i))
  {
    ContainsIff(Lower(v), "no data");
    ContainsIff(Lower(v), "n/a");
  }

  lemma LowerDash(v: string)
    ensures Lower(v) == "-" <==> v == "-"
  {
    if Lower(v) == "-" {
      assert |v| == 1 && Lower(v)[0] == LowerChar(v[0]) == '-';
      assert v == [v[0]];
    }
  }

  /** Whether a value is missing does not depend on its case. */
  lemma MissingIgnoresCase(v: string)
    ensures IsMissing(Some(v)) <==> IsMissing(Some(Lower(v)))
  {
    LowerIdempotent(v);
    LowerDash(v);
  }

  /** One rendered value cell: the value, or `None` for the "Pending..."
      placeholder, and the source link shown beside it, if any. */
  datatype Cell = Cell(shown: Option<string>, link: Option<FieldSource>)

  /** `renderValueWithSource`: a missing value shows the placeholder, and a link
      appears only for a value that is present and has a matching source. */
  function RenderValue(row: CompanyData, value: Option<string>, key: string): (c: Cell)
    ensures c.shown.None? <==> IsMissing(value)
    ensures c.shown.Some? ==> c.shown == value
    ensures c.link.Some? <==> !IsMissing(value) && SourceForField(row, key).Some?
    ensures c.link.Some? ==> Matches(c.link.value, key) && c.link == SourceForField(row, key)
  {
    var source := SourceForField(row, key);
    var missing := IsMissing(value);
    Cell(if missing then None else value, if source.Some? && !missing then source else None)
  }

  /** A "No data" value never gets a link, whatever the row's sources say. */
  lemma NoDataNeverLinked(row: CompanyData, key: string)
    ensures RenderValue(row, Some("No data"), key).link.None?
  {
    assert Lower("No data") == "no data";
    assert StartsWith("no data", "no data");
  }

  /** The displayed value columns, each with the keyword used to find its source. */
  function Columns(row: CompanyData): seq<(Option<string>, string)> {
    [ (row.segment, "segment"), (row.ops, "ops"),
      (row.revenueUsdBn, "revenue"), (row.revenueInrCr, "revenue"),
      (row.employeesApprox, "employees"), (row.parentCompany, "parent"),
      (row.glassdoorRating, "glassdoor"), (row.naukriRating, "naukri"), (row.linkedinRating, "linkedin"),
      (row.tester0To2, "tester"), (row.tester2To5, "tester"), (row.tester5To10, "tester"),
      (row.cyber0To2, "cyber"), (row.cyber2To5, "cyber"), (row.cyber5To10, "cyber"),
      (row.devops0To2, "devops"), (row.devops2To5, "devops"), (row.devops5To10, "devops"),
      (row.software0To2, "software"), (row.software2To5, "software"), (row.software5To10, "software") ]
  }

  /** The value cells of one table row. */
  function RenderRow(row: CompanyData): (cells: seq<Cell>)
    ensures |cells| == |Columns(row)| == 21
    ensures forall k :: 0 <= k < |cells| ==> (cells[k].shown.None? <==> IsMissing(Columns(row)[k].0))
    ensures forall k :: 0 <= k < |cells| && cells[k].shown.Some? ==> cells[k].shown == Columns(row)[k].0
    ensures forall k :: 0 <= k < |cells| ==>
              (cells[k].link.Some? <==> !IsMissing(Columns(row)[k].0) && SourceForField(row, Columns(row)[k].1).Some?)
    ensures forall k :: 0 <= k < |cells| ==>
              cells[k].link.Some? ==> !IsMissing(Columns(row)[k].0) && Matches(cells[k].link.value, Columns(row)[k].1)
  {
    var columns := Columns(row);
    seq(|columns|, k requires 0 <= k < |columns| => RenderValue(row, columns[k].0, columns[k].1))
  }

  /** Both revenue columns look up the keyword "revenue", so when both show a
      link it is the same source. */
  lemma RevenueColumnsShareSource(row: CompanyData)
    ensures var cells := RenderRow(row);
      cells[2].link.Some? && cells[3].link.Some? ==> cells[2].link == cells[3].link
  {
  }

  // ---------------------------------------------------------------------------
  // Clipboard export

  function AuditEntry(source: FieldSource): string {
    "[" + source.field + ": " + source.url + "]"
  }

  function Entries(sources: seq<FieldSource>): (entries: seq<string>)
    ensures |entries| == |sources|
    ensures forall i :: 0 <= i < |sources| ==> entries[i] == AuditEntry(sources[i])
  {
    seq(|sources|, i requires 0 <= i < |sources| => AuditEntry(sources[i]))
  }

  /** Every source as "[field: url]", in order, joined by " | ": empty exactly
      when there are no sources, and a lone source's entry alone. */
  function Trail(sources: seq<FieldSource>): (trail: string)
    ensures trail == "" <==> sources == []
    ensures |sources| == 1 ==> trail == AuditEntry(sources[0])
    ensures |sources| > 0 ==> trail[0] == '['
  {
    Join(Entries(sources), " | ")
  }

  /** The trail of two non-empty source lists one after the other is their two
      trails with " | " between them. */
  lemma TrailConcat(a: seq<FieldSource>, b: seq<FieldSource>)
    requires |a| > 0 && |b| > 0
    ensures Trail(a + b) == Trail(a) + " | " + Trail(b)
  {
    assert Entries(a + b) == Entries(a) + Entries(b);
    JoinConcat(Entries(a), Entries(b), " | ");
  }

  /** The audit column of a row: the trail of its field sources, an absent list
      counting as empty. */
  function AuditTrail(row: CompanyData): (trail: string)
    ensures trail == "" <==> row.fieldSources.GetOr([]) == []
    ensures |row.fieldSources.GetOr([])| == 1 ==> trail == AuditEntry(row.fieldSources.GetOr([])[0])
    ensures |row.fieldSources.GetOr([])| > 0 ==> trail[0] == '['
    ensures trail == Trail(row.fieldSources.GetOr([]))
  {
    Trail(row.fieldSources.GetOr([]))
  }

  /** The exported values of a row, in header order: the company and its status,
      then the displayed value columns in the order the table shows them, the
      audit trail last. */
  function Values(row: CompanyData): (values: seq<Option<string>>)
    ensures |values| == ColumnCount
    ensures values[0] == row.company && values[1] == row.verificationStatus
    ensures forall k :: 0 <= k < |Columns(row)| ==> values[k + 2] == Columns(row)[k].0
    ensures values[ColumnCount - 1] == Some(AuditTrail(row))
  {
    [ row.company, row.verificationStatus, row.segment, row.ops, row.revenueUsdBn, row.revenueInrCr,
      row.employeesApprox, row.parentCompany,
      row.glassdoorRating, row.naukriRating, row.linkedinRating,
      row.tester0To2, row.tester2To5, row.tester5To10,
      row.cyber0To2, row.cyber2To5, row.cyber5To10,
      row.devops0To2, row.devops2To5, row.devops5To10,
      row.software0To2, row.software2To5, row.software5To10,
      Some(AuditTrail(row)) ]
  }

  /** `String(v || "N/A").replace(/\t|\n/g, " ")`: absent and empty values
      become "N/A"; the cell never holds a TAB or LF. */
  function ExportCell(value: Option<string>): (cell: string)
    ensures Clean(cell)
    ensures value.None? || value == Some("") ==> cell == ExportPlaceholder
    ensures value.Some? && value.value != "" ==> |cell| == |value.value|
    ensures value.Some? && value.value != "" ==>
              forall i :: 0 <= i < |cell| && !IsSeparator(value.value[i]) ==> cell[i] == value.value[i]
    ensures value.Some? && value.value != "" ==>
              forall i :: 0 <= i < |cell| && IsSeparator(value.value[i]) ==> cell[i] == ' '
  {
    match value
    case Some(v) => if v == "" then ExportPlaceholder else ReplaceSeparators(v)
    case None => ExportPlaceholder
  }

  function ExportRow(row: CompanyData): (cells: seq<string>)
    ensures |cells| == ColumnCount && AllClean(cells)
    ensures forall k :: 0 <= k < ColumnCount ==> cells[k] == ExportCell(Values(row)[k])
  {
    var values := Values(row);
    seq(ColumnCount, k requires 0 <= k < ColumnCount => ExportCell(values[k]))
  }

  /** The exported rows of a table, one per data row, in order. */
  function ExportRows(data: seq<CompanyData>): (rows: seq<seq<string>>)
    ensures |rows| == |data|
    ensures forall k :: 0 <= k < |data| ==> rows[k] == ExportRow(data[k])
    ensures forall k :: 0 <= k < |rows| ==> |rows[k]| == ColumnCount && AllClean(rows[k])
  {
    seq(|data|, k requires 0 <= k < |data| => ExportRow(data[k]))
  }

  lemma IdentityHeadersClean()
    ensures AllClean(IdentityHeaders)
  {
  }

  lemma RatingHeadersClean()
    ensures AllClean(RatingHeaders)
  {
  }

  lemma TesterHeadersClean()
    ensures AllClean(TesterHeaders)
  {
  }

  lemma CyberHeadersClean()
    ensures AllClean(CyberHeaders)
  {
  }

  lemma DevOpsHeadersClean()
    ensures AllClean(DevOpsHeaders)
  {
  }

  lemma SoftwareHeadersClean()
    ensures AllClean(SoftwareHeaders)
  {
  }

  lemma HeadersClean()
    ensures |Headers| == ColumnCount && AllClean(Headers)
  {
    IdentityHeadersClean();
    RatingHeadersClean();
    TesterHeadersClean();
    CyberHeadersClean();
    DevOpsHeadersClean();
    SoftwareHeadersClean();
    AllCleanConcat(IdentityHeaders, RatingHeaders);
    AllCleanConcat(IdentityHeaders + RatingHeaders, TesterHeaders);
    AllCleanConcat(IdentityHeaders + RatingHeaders + TesterHeaders, CyberHeaders);
    AllCleanConcat(IdentityHeaders + RatingHeaders + TesterHeaders + CyberHeaders, DevOpsHeaders);
    AllCleanConcat(IdentityHeaders + RatingHeaders + TesterHeaders + CyberHeaders + DevOpsHeaders, SoftwareHeaders);
    AllCleanConcat(IdentityHeaders + RatingHeaders + TesterHeaders + CyberHeaders + DevOpsHeaders + SoftwareHeaders,
                   ["Audit Trail"]);
  }

  /** `handleCopy`: nothing is copied for an empty table. Otherwise the text
      reads back as the header line followed by one line per row, each with
      exactly the 24 exported cells. */
  function CopyText(data: seq<CompanyData>): (text: Option<string>)
    ensures text.None? <==> |data| == 0
    ensures text.Some? ==>
              Decode(text.value) == [Headers] + ExportRows(data)
  {
    if |data| == 0 then None
    else
      var rows := ExportRows(data);
      HeadersClean();
      EncodeDecode(Headers, rows);
      Some(Encode(Headers, rows))
  }

  /** The last exported cell of every row is its audit trail, or "N/A" when the
      row has no sources. */
  lemma AuditColumn(data: seq<CompanyData>)
    ensures forall k :: 0 <= k < |data| ==>
              ExportRows(data)[k][ColumnCount - 1] == ExportCell(Some(AuditTrail(data[k])))
    ensures forall k :: 0 <= k < |data| && data[k].fieldSources.GetOr([]) == [] ==>
              ExportRows(data)[k][ColumnCount - 1] == ExportPlaceholder
  {
    forall k | 0 <= k < |data|
      ensures ExportRows(data)[k][ColumnCount - 1] == ExportCell(Some(AuditTrail(data[k])))
    {
      assert ExportRows(data)[k] == ExportRow(data[k]);
      assert Values(data[k])[ColumnCount - 1] == Some(AuditTrail(data[k]));
    }
  }

  /** The copied text has one line more than the table has rows; every line has
      exactly 24 cells, none holding a TAB or LF; and the last cell of a row line
      is its audit trail, or "N/A" when the row has no sources. */
  lemma CopyTextShape(data: seq<CompanyData>)
    requires |data| > 0
    ensures var table := Decode(CopyText(data).value);
      && |table| == |data| + 1
      && (forall k :: 0 <= k < |table| ==> |table[k]| == ColumnCount && AllClean(table[k]))
      && (forall k :: 0 <= k < |data| ==> table[k + 1][ColumnCount - 1] == ExportCell(Some(AuditTrail(data[k]))))
      && (forall k :: 0 <= k < |data| && data[k].fieldSources.GetOr([]) == [] ==>
            table[k + 1][ColumnCount - 1] == ExportPlaceholder)
  {
    HeadersClean();
    TableClean(Headers, ExportRows(data), ColumnCount);
    AuditColumn(data);
    assert Decode(CopyText(data).value) == [Headers] + ExportRows(data);
  }
}
