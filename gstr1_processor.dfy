/**
 * The GSTR-1 orchestration (services/gstr1Processor.ts): the per-sheet column mappings of
 * the standard and Tally exports, the dispatch of a CSV file to a template sheet by the
 * keywords in its name, the preprocessing of documents-issued and HSN files, and the file
 * loop that fills the template's sheets and reports progress.
 */
module Gstr1Processor {
  import opened Text
  import opened Numbers
  import opened Values
  import opened CsvParser
  import opened ExcelGenerator

  // ---------------------------------------------------------------------------------------
  // Column mappings: CSV column to the template header(s) it may fill, in declared order.

  const B2bMapping: Mapping := [
    ("GSTIN/UIN of Recipient", ["GSTIN/UIN"]),
    ("Invoice Number", ["Invoice No"]),
    ("Invoice date", ["Date of Invoice"]),
    ("Invoice Value", ["Invoice Value"]),
    ("Rate", ["GST%"]),
    ("Taxable Value", ["Taxable Value"]),
    ("Cess Amount", ["CESS"]),
    ("Place Of Supply", ["Place Of Supply"]),
    ("Reverse Charge", ["RCM Applicable"]),
    ("Invoice Type", ["Invoice Type"]),
    ("E-Commerce GSTIN", ["E-Commerce GSTIN"])
  ]

  const B2clMapping: Mapping := [
    ("Invoice Number", ["Invoice No"]),
    ("Invoice date", ["Date of Invoice"]),
    ("Invoice Value", ["Invoice Value"]),
    ("Place Of Supply", ["Place Of Supply"]),
    ("Rate", ["GST%"]),
    ("Taxable Value", ["Taxable Value"]),
    ("Cess Amount", ["CESS"]),
    ("E-Commerce GSTIN", ["E-Commerce GSTIN"])
  ]

  const B2csMapping: Mapping := [
    ("Type", ["Type"]),
    ("Place Of Supply", ["Place Of Supply"]),
    ("Rate", ["GST%"]),
    ("Taxable Value", ["Taxable Value"]),
    ("Cess Amount", ["CESS"]),
    ("E-Commerce GSTIN", ["E-Commerce GSTIN"])
  ]

  const ExportMapping: Mapping := [
    ("Export Type", ["Export Type"]),
    ("Invoice Number", ["Invoice No"]),
    ("Invoice date", ["Date of Invoice"]),
    ("Invoice Value", ["Invoice Value"]),
    ("Port Code", ["Port Code"]),
    ("Shipping Bill Number", ["Shipping Bill No"]),
    ("Shipping Bill Date", ["Shipping Bill Date"]),
    ("Rate", ["GST%"]),
    ("Taxable Value", ["Taxable Value"])
  ]

  const ExemptMapping: Mapping := [
    ("Description", ["Description"]),
    ("Nil Rated Supplies", ["Nil Rated Supplies"]),
    ("Exempted (other than nil rated/non GST supply)", ["Exempted(other than nil rated/non GST supply)"]),
    ("Non-GST supplies", ["Non-GST Supplies"])
  ]

  const CdnrMapping: Mapping := [
    ("GSTIN/UIN of Recipient", ["GSTIN/UIN"]),
    ("Note Number", ["Dr./ Cr. No."]),
    ("Note Date", ["Dr./Cr. Date"]),
    ("Note Type", ["Type of note                (Dr/ Cr)"]),
    ("Place Of Supply", ["Place of supply"]),
    ("Reverse Charge", ["RCM"]),
    ("Note Supply Type", ["Invoice Type"]),
    ("Note Value", ["Dr./Cr. Value"]),
    ("Rate", ["GST%"]),
    ("Taxable Value", ["Taxable Value"]),
    ("Cess Amount", ["CESS"])
  ]

  const CdnurMapping: Mapping := [
    ("UR Type", ["Supply Type"]),
    ("Note/Refund Voucher Number", ["Dr./ Cr. Note No."]),
    ("Note/Refund Voucher date", ["Dr./ Cr. Note Date"]),
    ("Document Type", ["Type of note (Dr./ Cr.)"]),
    ("Place Of Supply", ["Place of supply"]),
    ("Note/Refund Voucher Value", ["Dr./Cr. Note Value"]),
    ("Rate", ["GST%"]),
    ("Taxable Value", ["Taxable Value"]),
    ("Cess Amount", ["CESS"])
  ]

  const AdvanceMapping: Mapping := [
    ("Place Of Supply", ["Place Of Supply"]),
    ("Rate", ["GST%"]),
    ("Gross Advance Received", ["Gross Advance Received"]),
    ("Cess Amount", ["CESS"])
  ]

  const AdvanceAdjustedMapping: Mapping := [
    ("Place Of Supply", ["Place Of Supply"]),
    ("Rate", ["GST%"]),
    ("Gross Advance Adjusted", ["Gross Advance Adjusted"]),
    ("Cess Amount", ["CESS"])
  ]

  const StandardDocsMapping: Mapping := [
    ("Nature of Document", ["Nature of Document", "Type of Document"]),
    ("Sr.No.From", ["Sr.No.From", "Series From"]),
    ("Sr.No.To", ["Sr.No.To", "Series To"]),
    ("Total Number", ["Total Number"]),
    ("Cancelled", ["Cancelled"]),
    ("Net Issued", ["Net Issued"])
  ]

  const HsnMapping: Mapping := [
    ("Type", ["Type"]),
    ("HSN", ["HSN"]),
    ("Description", ["Description"]),
    ("UQC", ["UQC"]),
    ("Total Quantity", ["Total Quantity"]),
    ("Total Value", ["Total Value"]),
    ("Rate", ["Rate"]),
    ("Taxable Value", ["Total Taxable Value"]),
    ("Integrated Tax Amount", ["IGST"]),
    ("Central Tax Amount", ["CGST"]),
    ("State/UT Tax Amount", ["SGST"]),
    ("Cess Amount", ["CESS"])
  ]

  /** The mappings of the standard export, one per template sheet. */
  const StandardMappings: map<string, Mapping> := map[
    "b2b" := B2bMapping,
    "b2cl" := B2clMapping,
    "b2cs" := B2csMapping,
    "export" := ExportMapping,
    "Nil_exempt_NonGST" := ExemptMapping,
    "cdnr" := CdnrMapping,
    "cdnur" := CdnurMapping,
    "adv_tax" := AdvanceMapping,
    "adv_tax_adjusted" := AdvanceAdjustedMapping,
    "Docs_issued" := StandardDocsMapping,
    "hsn" := HsnMapping
  ]

  /** Tally names the document series with spaced variants as well. */
  const TallyDocsMapping: Mapping := [
    ("Nature of Document", ["Nature of Document", "Type of Document"]),
    ("Sr.No.From", ["Sr.No.From", "Sr. No. From", "Series From"]),
    ("Sr.No.To", ["Sr.No.To", "Sr. No. To", "Series To"]),
    ("Total Number", ["Total Number"]),
    ("Cancelled", ["Cancelled"]),
    ("Net Issued", ["Net Issued"])
  ]

  /** The Tally mappings: the standard ones with the documents-issued entry replaced. */
  const TallyMappings: map<string, Mapping> := StandardMappings["Docs_issued" := TallyDocsMapping]

  /** The eleven sheets of the template that the pipeline fills. */
  const SheetNames: set<string> := {"b2b", "b2cl", "b2cs", "export", "Nil_exempt_NonGST", "cdnr", "cdnur",
                                    "adv_tax", "adv_tax_adjusted", "Docs_issued", "hsn"}

  /** The export format the CSV files come from; only Tally is told apart. */
  datatype Format = StandardFormat | TallyFormat

  function MappingsFor(format: Format): map<string, Mapping> {
    if format == TallyFormat then TallyMappings else StandardMappings
  }

  /** Whatever the format, the mappings cover exactly the template's sheets, and the
      formats differ only on the documents-issued sheet. */
  lemma MappingsForSheets(format: Format)
    ensures MappingsFor(format).Keys == SheetNames
    ensures forall sheet | sheet in SheetNames && sheet != "Docs_issued" ::
      MappingsFor(format)[sheet] == StandardMappings[sheet]
  {
    TallyMappingsSpec();
  }

  /** `columnMappings[sheetName] || {}`. */
  function MappingIn(mappings: map<string, Mapping>, sheet: string): Mapping {
    if sheet in mappings then mappings[sheet] else []
  }

  /** Both formats map every template sheet, and no other; Tally differs from the standard
      mappings only on the documents-issued sheet, where it keeps every column and every
      alias in order and adds the spaced `Sr. No. From` and `Sr. No. To` aliases. */
  lemma TallyMappingsSpec()
    ensures StandardMappings.Keys == SheetNames && TallyMappings.Keys == SheetNames
    ensures forall sheet | sheet in SheetNames && sheet != "Docs_issued" :: TallyMappings[sheet] == StandardMappings[sheet]
    ensures var std := StandardMappings["Docs_issued"];
      var tally := TallyMappings["Docs_issued"];
      |tally| == |std|
      && (forall j | 0 <= j < |std| :: tally[j].0 == std[j].0 && (j != 1 && j != 2 ==> tally[j] == std[j]))
      && tally[1].1 == [std[1].1[0], "Sr. No. From", std[1].1[1]]
      && tally[2].1 == [std[2].1[0], "Sr. No. To", std[2].1[1]]
  {
  }

  // ---------------------------------------------------------------------------------------
  // Dispatch of a file to a sheet.

  /** `getSheetNameFromFile`: the sheet a CSV file fills, chosen by the first keyword found in
      the upper-cased file name, or `None` (`null`) when no keyword occurs. */
  function GetSheetNameFromFile(fileName: string): (sheet: Option<string>)
    ensures sheet.Some? ==> sheet.value in SheetNames
  {
    var upper := ToUpper(fileName);
    if Contains(upper, "HSN") then Some("hsn")
    else if Contains(upper, "B2B") then Some("b2b")
    else if Contains(upper, "B2CL") then Some("b2cl")
    else if Contains(upper, "B2CS") then Some("b2cs")
    else if Contains(upper, "EXP") then Some("export")
    else if Contains(upper, "EXEMP") then Some("Nil_exempt_NonGST")
    else if Contains(upper, "CDNR") && !Contains(upper, "CDNUR") then Some("cdnr")
    else if Contains(upper, "CDNUR") then Some("cdnur")
    else if Contains(upper, "ATADJ") then Some("adv_tax_adjusted")
    else if Contains(upper, "AT") && !Contains(upper, "ATADJ") then Some("adv_tax")
    else if Contains(upper, "DOC") then Some("Docs_issued")
    else None
  }

  /** Upper-casing ASCII text twice is upper-casing it once. */
  lemma UpperOfLower(s: string)
    ensures ToUpper(ToLower(s)) == ToUpper(s)
    ensures ToUpper(ToUpper(s)) == ToUpper(s)
  {
    forall i | 0 <= i < |s|
      ensures ToUpper(ToLower(s))[i] == ToUpper(s)[i] && ToUpper(ToUpper(s))[i] == ToUpper(s)[i]
    {
      assert ToLower(s)[i] == LowerChar(s[i]);
      assert ToUpper(s)[i] == UpperChar(s[i]);
    }
  }

  /** The sheet depends only on the upper-cased name: the case of the file name is irrelevant. */
  lemma SheetNameIgnoresCase(fileName: string)
    ensures GetSheetNameFromFile(ToLower(fileName)) == GetSheetNameFromFile(fileName)
    ensures GetSheetNameFromFile(ToUpper(fileName)) == GetSheetNameFromFile(fileName)
  {
    UpperOfLower(fileName);
  }

  /** No sheet is chosen exactly when none of the ten keywords occurs in the upper-cased
      name (`ATADJ` needs no check of its own, as it contains `AT`). */
  lemma SheetNameNone(fileName: string)
    ensures var upper := ToUpper(fileName);
      GetSheetNameFromFile(fileName).None?
      <==> !Contains(upper, "HSN") && !Contains(upper, "B2B") && !Contains(upper, "B2CL")
           && !Contains(upper, "B2CS") && !Contains(upper, "EXP") && !Contains(upper, "EXEMP")
           && !Contains(upper, "CDNR") && !Contains(upper, "CDNUR") && !Contains(upper, "AT")
           && !Contains(upper, "DOC")
  {
    var upper := ToUpper(fileName);
    if Contains(upper, "ATADJ") {
      ContainsInfix(upper, "ATADJ", 0, "AT");
    }
  }

  /** Keyword priority: `HSN` wins over everything; `B2B` wins over every later keyword;
      a name with `ATADJ` never goes to `adv_tax`, and goes to `adv_tax_adjusted` unless an
      earlier keyword occurs; a name with `CDNUR` never goes to `cdnr`. */
  lemma SheetNamePriority(fileName: string)
    ensures var upper := ToUpper(fileName);
      var sheet := GetSheetNameFromFile(fileName);
      (Contains(upper, "HSN") ==> sheet == Some("hsn"))
      && (Contains(upper, "B2B") && !Contains(upper, "HSN") ==> sheet == Some("b2b"))
      && (Contains(upper, "ATADJ") ==> sheet != Some("adv_tax"))
      && (Contains(upper, "CDNUR") ==> sheet != Some("cdnr"))
      && (Contains(upper, "ATADJ") && sheet != Some("adv_tax_adjusted") ==>
            Contains(upper, "HSN") || Contains(upper, "B2B") || Contains(upper, "B2CL") || Contains(upper, "B2CS")
            || Contains(upper, "EXP") || Contains(upper, "EXEMP") || Contains(upper, "CDNR") || Contains(upper, "CDNUR"))
  {
  }

  // ---------------------------------------------------------------------------------------
  // Preprocessing.

  /** `parseFloat(cleaned[key]) || 0`: a missing, empty or unparseable count (NaN) and a zero
      all read as 0. On trimmed text this is `NumberOrZero`. */
  function CountField(cleaned: Row, key: string): real {
    NumberOrZero(Get(cleaned, key))
  }

  /** `cleaned[a0] || cleaned[a1] || ... || ''`: the first truthy alias, else `''`. */
  function OrChain(cleaned: Row, aliases: seq<string>): Value {
    if aliases == [] then Str("") else Or(Get(cleaned, aliases[0]), OrChain(cleaned, aliases[1..]))
  }

  /** One record of `processDocsIssued`: the trimmed record reduced to the six columns of the
      documents-issued sheet, each series column taken from the first truthy alias. */
  function DocsIssuedRow(row: TextRow): Row {
    DocsRecord(TrimAllFields(FromText(row)))
  }

  /** The documents-issued record built from a trimmed record. */
  function DocsRecord(cleaned: Row): Row {
    var total := CountField(cleaned, "Total Number");
    var cancelled := CountField(cleaned, "Cancelled");
    map[
      "Nature of Document" := OrChain(cleaned, ["Nature of Document", "Type of Document"]),
      "Sr.No.From" := OrChain(cleaned, ["Sr.No.From", "Sr. No. From", "Series From"]),
      "Sr.No.To" := OrChain(cleaned, ["Sr.No.To", "Sr. No. To", "Series To"]),
      "Total Number" := Num(total),
      "Cancelled" := Num(cancelled),
      "Net Issued" := Num(total - cancelled)
    ]
  }

  /** `processDocsIssued`. */
  function ProcessDocsIssued(data: seq<TextRow>): (rows: seq<Row>)
    ensures |rows| == |data|
    ensures forall i :: 0 <= i < |data| ==> rows[i] == DocsIssuedRow(data[i])
  {
    seq(|data|, i requires 0 <= i < |data| => DocsIssuedRow(data[i]))
  }

  /** The count read from a raw CSV field: its trimmed text parsed, or 0 when the field is
      missing or does not parse. */
  function RawCount(row: TextRow, key: string): real {
    if key in row then match ParseFloat(Trim(row[key])) case Some(n) => n case None => 0.0 else 0.0
  }

  /** The first alias whose trimmed text is non-empty, or `''`. */
  function FirstFilled(row: TextRow, aliases: seq<string>): string {
    if aliases == [] then ""
    else if aliases[0] in row && Trim(row[aliases[0]]) != "" then Trim(row[aliases[0]])
    else FirstFilled(row, aliases[1..])
  }

  /** A documents-issued record has exactly the six sheet columns; the counts are numbers
      and Net Issued is Total Number minus Cancelled. */
  lemma DocsRecordSpec(cleaned: Row)
    ensures var r := DocsRecord(cleaned);
      r.Keys == {"Nature of Document", "Sr.No.From", "Sr.No.To", "Total Number", "Cancelled", "Net Issued"}
      && r["Total Number"] == Num(CountField(cleaned, "Total Number"))
      && r["Cancelled"] == Num(CountField(cleaned, "Cancelled"))
      && r["Net Issued"] == Num(r["Total Number"].n - r["Cancelled"].n)
  {
  }

  /** The counts of a documents-issued record are the parsed fields of the CSV record, 0
      when missing or unparseable, and Net Issued is Total Number minus Cancelled. */
  lemma DocsIssuedCounts(row: TextRow)
    ensures var r := DocsIssuedRow(row);
      r.Keys == {"Nature of Document", "Sr.No.From", "Sr.No.To", "Total Number", "Cancelled", "Net Issued"}
      && r["Total Number"] == Num(RawCount(row, "Total Number"))
      && r["Cancelled"] == Num(RawCount(row, "Cancelled"))
      && r["Net Issued"] == Num(RawCount(row, "Total Number") - RawCount(row, "Cancelled"))
  {
    var cleaned := TrimAllFields(FromText(row));
    assert DocsIssuedRow(row) == DocsRecord(cleaned);
    DocsRecordSpec(cleaned);
    CountFieldRaw(row, "Total Number");
    CountFieldRaw(row, "Cancelled");
  }

  /** The text columns of a documents-issued record are the first non-empty alias, in
      declared order, or `''`. */
  lemma DocsIssuedAliases(row: TextRow)
    ensures var r := DocsIssuedRow(row);
      r["Nature of Document"] == Str(FirstFilled(row, ["Nature of Document", "Type of Document"]))
      && r["Sr.No.From"] == Str(FirstFilled(row, ["Sr.No.From", "Sr. No. From", "Series From"]))
      && r["Sr.No.To"] == Str(FirstFilled(row, ["Sr.No.To", "Sr. No. To", "Series To"]))
  {
    var cleaned := TrimAllFields(FromText(row));
    assert DocsIssuedRow(row) == DocsRecord(cleaned);
    FirstFilledOr(row, ["Nature of Document", "Type of Document"]);
    FirstFilledOr(row, ["Sr.No.From", "Sr. No. From", "Series From"]);
    FirstFilledOr(row, ["Sr.No.To", "Sr. No. To", "Series To"]);
  }

  /** An empty text does not parse as a number. */
  lemma ParseFloatEmpty()
    ensures ParseFloat("").None?
  {
    assert TrimStart("") == "";
  }

  lemma CountFieldRaw(row: TextRow, key: string)
    ensures CountField(TrimAllFields(FromText(row)), key) == RawCount(row, key)
  {
    if key in row && Trim(row[key]) == "" {
      ParseFloatEmpty();
    }
  }

  lemma {:induction false} FirstFilledOr(row: TextRow, aliases: seq<string>)
    ensures OrChain(TrimAllFields(FromText(row)), aliases) == Str(FirstFilled(row, aliases))
  {
    if aliases != [] {
      FirstFilledOr(row, aliases[1..]);
    }
  }

  /** One record of `processHSNData`: trimmed; the Type is overwritten by the file's kind
      when its name says B2B or B2C; a missing or empty Rate becomes the number 0. */
  function HsnRow(isB2B: bool, isB2C: bool, row: TextRow): Row {
    HsnRecord(isB2B, isB2C, TrimAllFields(FromText(row)))
  }

  /** The HSN record built from a trimmed record. */
  function HsnRecord(isB2B: bool, isB2C: bool, cleaned: Row): Row {
    var typed :=
      if isB2B then cleaned["Type" := Str("B2B")]
      else if isB2C then cleaned["Type" := Str("B2C")]
      else cleaned;
    if "Rate" !in typed || !Truthy(typed["Rate"]) then typed["Rate" := Num(0.0)] else typed
  }

  /** `processHSNData`. */
  function ProcessHsnData(data: seq<TextRow>, fileName: string): (rows: seq<Row>)
    ensures |rows| == |data|
    ensures forall i :: 0 <= i < |data| ==>
      rows[i] == HsnRow(Contains(ToUpper(fileName), "B2B"), Contains(ToUpper(fileName), "B2C"), data[i])
  {
    var upper := ToUpper(fileName);
    var isB2B := Contains(upper, "B2B");
    var isB2C := Contains(upper, "B2C");
    seq(|data|, i requires 0 <= i < |data| => HsnRow(isB2B, isB2C, data[i]))
  }

  /** An HSN record keeps the record's columns, trimmed, and always has a Rate; Type is B2B
      for a B2B file, else B2C for a B2C file, else the record's own; the Rate is 0 exactly
      when it is missing or empty after trimming, else its trimmed text. */
  lemma HsnRowSpec(isB2B: bool, isB2C: bool, row: TextRow)
    ensures var r := HsnRow(isB2B, isB2C, row);
      r.Keys == row.Keys + {"Rate"} + (if isB2B || isB2C then {"Type"} else {})
      && (forall k | k in row && k != "Type" && k != "Rate" :: r[k] == Str(Trim(row[k])))
      && (isB2B ==> r["Type"] == Str("B2B"))
      && (!isB2B && isB2C ==> r["Type"] == Str("B2C"))
      && (!isB2B && !isB2C && "Type" in row ==> r["Type"] == Str(Trim(row["Type"])))
      && r["Rate"] == (if "Rate" !in row || Trim(row["Rate"]) == "" then Num(0.0) else Str(Trim(row["Rate"])))
  {
    var cleaned := TrimAllFields(FromText(row));
    assert HsnRow(isB2B, isB2C, row) == HsnRecord(isB2B, isB2C, cleaned);
    HsnRecordSpec(isB2B, isB2C, cleaned);
  }

  lemma HsnRecordSpec(isB2B: bool, isB2C: bool, cleaned: Row)
    ensures var r := HsnRecord(isB2B, isB2C, cleaned);
      r.Keys == cleaned.Keys + {"Rate"} + (if isB2B || isB2C then {"Type"} else {})
      && (forall k | k in cleaned && k != "Type" && k != "Rate" :: r[k] == cleaned[k])
      && (isB2B ==> r["Type"] == Str("B2B"))
      && (!isB2B && isB2C ==> r["Type"] == Str("B2C"))
      && (!isB2B && !isB2C && "Type" in cleaned ==> r["Type"] == cleaned["Type"])
      && r["Rate"] == (if "Rate" !in cleaned || !Truthy(cleaned["Rate"]) then Num(0.0) else cleaned["Rate"])
  {
  }

  /** The preprocessing of a non-empty CSV: a name with `DOC` is read as documents issued,
      else one with `HSN` as HSN data, else every record is only trimmed. */
  function Preprocess(fileName: string, data: seq<TextRow>): (rows: seq<Row>)
    ensures |rows| == |data|
    ensures Contains(ToUpper(fileName), "DOC") ==> rows == ProcessDocsIssued(data)
    ensures !Contains(ToUpper(fileName), "DOC") && Contains(ToUpper(fileName), "HSN") ==> rows == ProcessHsnData(data, fileName)
    ensures !Contains(ToUpper(fileName), "DOC") && !Contains(ToUpper(fileName), "HSN") ==>
      forall i :: 0 <= i < |data| ==> rows[i] == TrimAllFields(FromText(data[i]))
  {
    var upper := ToUpper(fileName);
    if Contains(upper, "DOC") then ProcessDocsIssued(data)
    else if Contains(upper, "HSN") then ProcessHsnData(data, fileName)
    else seq(|data|, i requires 0 <= i < |data| => TrimAllFields(FromText(data[i])))
  }

  // ---------------------------------------------------------------------------------------
  // The file loop.

  /** A CSV file: its name and its text as read. */
  datatype CsvFile = CsvFile(name: string, text: string)

  /** What the loop does with a file: skip it without counting it (its sheet is missing from
      the template), count it without writing (no sheet, or no records), or write records to
      a sheet and count it. */
  datatype Work = Skip | CountOnly | Write(sheet: string, rows: seq<Row>)

  /** The decision the loop body takes for `file`, given the template's sheet names: a file
      is counted without writing exactly when its name selects no sheet or its CSV has no
      records, and it is written only to a sheet the template has. */
  function Classify(file: CsvFile, sheets: set<string>): (w: Work)
    ensures w.CountOnly? <==> GetSheetNameFromFile(file.name).None? || CsvRows(file.text) == []
    ensures w.Write? ==> w.sheet in sheets && |w.rows| == |CsvRows(file.text)|
  {
    match GetSheetNameFromFile(file.name)
    case None => CountOnly
    case Some(sheet) =>
      var data := CsvRows(file.text);
      if data == [] then CountOnly
      else if sheet !in sheets then Skip
      else Write(sheet, Preprocess(file.name, data))
  }

  /** The decision for each file in turn. */
  function Plan(files: seq<CsvFile>, sheets: set<string>): (works: seq<Work>)
    ensures |works| == |files|
  {
    seq(|files|, i requires 0 <= i < |files| => Classify(files[i], sheets))
  }

  /** A written file goes to the sheet its name selects, which the template has, and it
      carries every record of its CSV; a file is skipped uncounted exactly when its name
      selects a sheet the template lacks and its CSV has records. */
  lemma ClassifySpec(file: CsvFile, sheets: set<string>)
    ensures var w := Classify(file, sheets);
      (w.Write? ==> Some(w.sheet) == GetSheetNameFromFile(file.name) && w.sheet in sheets
                    && |w.rows| == |CsvRows(file.text)| > 0)
      && (w.Skip? <==> GetSheetNameFromFile(file.name).Some? && GetSheetNameFromFile(file.name).value !in sheets
                       && CsvRows(file.text) != [])
  {
  }

  /** `20 + Math.round(processed / total * 60)`, rounding halves up: `r - 20` is the
      integer nearest to `60 * processed / total`, the larger one at a tie. */
  function Percent(processed: nat, total: nat): (r: nat)
    requires total > 0
    ensures r >= 20
    ensures 2 * total * (r - 20) <= 120 * processed + total < 2 * total * (r - 20) + 2 * total
  {
    20 + (120 * processed + total) / (2 * total)
  }

  /** Multiplication by a natural number is monotone. */
  lemma {:induction false} MulMono(x: nat, y: nat, d: nat)
    ensures x <= y ==> x * d <= y * d
  {
    if d > 0 {
      MulMono(x, y, d - 1);
      assert x * d == x * (d - 1) + x;
      assert y * d == y * (d - 1) + y;
    }
  }

  lemma DivBelow(a: nat, d: nat, b: nat)
    requires d > 0 && a < b * d
    ensures a / d < b
  {
    assert (a / d) * d <= a;
    MulMono(b, a / d, d);
  }

  lemma DivAtLeast(a: nat, d: nat, b: nat)
    requires d > 0 && b * d <= a
    ensures b <= a / d
  {
    var q := a / d;
    assert a == q * d + a % d;
    assert (q + 1) * d == q * d + d;
    MulMono(q + 1, b, d);
  }

  lemma DivMonotone(a: nat, b: nat, d: nat)
    requires d > 0 && a <= b
    ensures a / d <= b / d
  {
    assert (a / d) * d <= a;
    DivAtLeast(b, d, a / d);
  }

  /** The progress after a processed file lies between 20 (none processed) and 80 (all
      processed). */
  lemma PercentBounds(processed: nat, total: nat)
    requires 0 < total && processed <= total
    ensures 20 <= Percent(processed, total) <= 80
    ensures processed == total ==> Percent(processed, total) == 80
    ensures processed == 0 ==> Percent(processed, total) == 20
  {
    DivBelow(120 * processed + total, 2 * total, 61);
    if processed == total {
      DivAtLeast(120 * processed + total, 2 * total, 60);
    }
    if processed == 0 {
      DivBelow(total, 2 * total, 1);
    }
  }

  /** The progress grows with the number of files processed. */
  lemma PercentMonotone(p: nat, q: nat, total: nat)
    requires 0 < total && p <= q
    ensures Percent(p, total) <= Percent(q, total)
  {
    DivMonotone(120 * p + total, 120 * q + total, 2 * total);
  }

  /** The loop's `processed` counter and the percentages reported so far. */
  datatype Counter = Counter(processed: nat, events: seq<nat>)

  /** The counter after the decisions `works`, with `total` files in all: every file but a
      skipped one is counted, and every written file reports the new percentage. */
  function Progress(works: seq<Work>, total: nat): Counter
    requires |works| <= total
  {
    if works == [] then Counter(0, [])
    else Advance(Progress(works[..|works| - 1], total), works[|works| - 1], total)
  }

  /** The counter after one more file. */
  function Advance(c: Counter, w: Work, total: nat): Counter
    requires total > 0
  {
    match w
    case Skip => c
    case CountOnly => Counter(c.processed + 1, c.events)
    case Write(_, _) => Counter(c.processed + 1, c.events + [Percent(c.processed + 1, total)])
  }

  ghost predicate Sorted(xs: seq<nat>) {
    forall j, k :: 0 <= j <= k < |xs| ==> xs[j] <= xs[k]
  }

  /** No more files are counted or reported than were seen; the reports never go down, and
      each lies between 20 and the percentage for the files counted so far. */
  lemma {:induction false} ProgressInvariant(works: seq<Work>, total: nat)
    requires |works| <= total
    ensures var c := Progress(works, total);
      c.processed <= |works| && |c.events| <= |works| && Sorted(c.events)
      && forall k :: 0 <= k < |c.events| ==> 20 <= c.events[k] <= Percent(c.processed, total)
  {
    if works != [] {
      var init := works[..|works| - 1];
      ProgressInvariant(init, total);
      var c := Progress(init, total);
      PercentMonotone(c.processed, c.processed + 1, total);
      PercentBounds(c.processed + 1, total);
    }
  }

  /** Every percentage the whole loop reports lies in [20, 80], and they never go down. */
  lemma ProgressInRange(works: seq<Work>)
    ensures var c := Progress(works, |works|);
      Sorted(c.events) && forall k :: 0 <= k < |c.events| ==> 20 <= c.events[k] <= 80
  {
    ProgressInvariant(works, |works|);
    if |works| > 0 {
      PercentBounds(Progress(works, |works|).processed, |works|);
    }
  }

  /** When every file is written, every file is counted and reported, in order. */
  lemma {:induction false} AllWritten(works: seq<Work>, total: nat)
    requires |works| <= total
    requires forall k :: 0 <= k < |works| ==> works[k].Write?
    ensures var c := Progress(works, total);
      c.processed == |works| && |c.events| == |works|
      && forall k :: 0 <= k < |works| ==> c.events[k] == Percent(k + 1, total)
  {
    if works != [] {
      AllWritten(works[..|works| - 1], total);
    }
  }

  /** When every file is written, the last report is 80. */
  lemma CompleteRunReaches80(works: seq<Work>)
    requires works != []
    requires forall k :: 0 <= k < |works| ==> works[k].Write?
    ensures var c := Progress(works, |works|);
      |c.events| == |works| && c.events[|works| - 1] == 80
  {
    AllWritten(works, |works|);
    PercentBounds(|works|, |works|);
  }

  /** The template sheet after a file's records are written to it: the exempt sheet is
      updated by description, every other sheet appended to. */
  function WriteSheet(st: SheetState, sheet: string, rows: seq<Row>, mapping: Mapping): (r: SheetState)
    ensures AddsRows(st.cells, r.cells, 1, RangeOf(r.ref).er)
    ensures sheet == "Nil_exempt_NonGST" ==> r.ref == st.ref
  {
    if sheet == "Nil_exempt_NonGST" then AfterExempt(st, rows, mapping) else AfterAppend(st, rows, mapping)
  }

  /** The sheets after the writes among `works`, in order, with the column mappings `mappings`. */
  function WriteAll(states: map<string, SheetState>, works: seq<Work>, mappings: map<string, Mapping>): map<string, SheetState> {
    if works == [] then states
    else WriteOne(WriteAll(states, works[..|works| - 1], mappings), works[|works| - 1], mappings)
  }

  /** The sheets after one more file. */
  function WriteOne(states: map<string, SheetState>, w: Work, mappings: map<string, Mapping>): map<string, SheetState> {
    match w
    case Write(sheet, rows) =>
      if sheet in states then states[sheet := WriteSheet(states[sheet], sheet, rows, MappingIn(mappings, sheet))]
      else states
    case _ => states
  }

  /** The writes keep the set of sheets, and a sheet no file is written to keeps its contents. */
  lemma {:induction false} WriteAllUntouched(states: map<string, SheetState>, works: seq<Work>,
                                             mappings: map<string, Mapping>, n: string)
    requires n in states
    requires forall k :: 0 <= k < |works| && works[k].Write? ==> works[k].sheet != n
    ensures var after := WriteAll(states, works, mappings);
      after.Keys == states.Keys && after[n] == states[n]
  {
    if works != [] {
      WriteAllUntouched(states, works[..|works| - 1], mappings, n);
      WriteAllKeys(states, works[..|works| - 1], mappings);
    }
  }

  lemma {:induction false} WriteAllKeys(states: map<string, SheetState>, works: seq<Work>, mappings: map<string, Mapping>)
    ensures WriteAll(states, works, mappings).Keys == states.Keys
  {
    if works != [] {
      WriteAllKeys(states, works[..|works| - 1], mappings);
    }
  }

  /** No two sheet names denote the same sheet object. */
  ghost predicate Distinct(workbook: map<string, Sheet>) {
    forall a, b | a in workbook && b in workbook && workbook[a] == workbook[b] :: a == b
  }

  /** The contents of every sheet of the workbook. */
  function States(workbook: map<string, Sheet>): (states: map<string, SheetState>)
    reads workbook.Values
    ensures states.Keys == workbook.Keys
  {
    map n | n in workbook :: workbook[n].State()
  }

  /** `processFiles`, over files already read: reports 10, picks the format's mappings,
      reports 20, one percentage per file written, then 90 and 100 around the workbook's
      export; the sheets end as the writes decided for the files, in order, leave them. */
  method ProcessFiles(files: seq<CsvFile>, format: Format, workbook: map<string, Sheet>) returns (progress: seq<nat>)
    requires Distinct(workbook)
    modifies workbook.Values
    ensures var works := Plan(files, workbook.Keys);
      States(workbook) == WriteAll(old(States(workbook)), works, MappingsFor(format))
      && progress == [10, 20] + Progress(works, |files|).events + [90, 100]
  {
    progress := [10];
    var mappings := MappingsFor(format);
    progress := progress + [20];
    var events := WriteFiles(files, mappings, workbook);
    progress := progress + events;
    progress := progress + [90];
    progress := progress + [100];
  }

  /** The loop of `processFiles`: each file in turn is decided on and written, and every
      written file reports the new percentage. */
  method WriteFiles(files: seq<CsvFile>, mappings: map<string, Mapping>, workbook: map<string, Sheet>)
    returns (events: seq<nat>)
    requires Distinct(workbook)
    modifies workbook.Values
    ensures var works := Plan(files, workbook.Keys);
      States(workbook) == WriteAll(old(States(workbook)), works, mappings)
      && events == Progress(works, |files|).events
  {
    ghost var start := States(workbook);
    ghost var works: seq<Work> := [];
    events := [];
    var processed := 0;
    var total := |files|;
    var i := 0;
    while i < |files|
      invariant i <= |files| && |works| == i
      invariant Decided(files, workbook.Keys, works)
      invariant States(workbook) == WriteAll(start, works, mappings)
      invariant processed == Progress(works, total).processed
      invariant events == Progress(works, total).events
    {
      ghost var decided := works;
      var work;
      work, works := DecideFile(files, i, workbook, works);
      assert works[..i] == decided && works[i] == work;
      ApplyWork(workbook, work, mappings);
      if !work.Skip? {
        processed := processed + 1;
      }
      if work.Write? {
        events := events + [Percent(processed, total)];
      }
      i := i + 1;
    }
    PlanOfDecided(files, workbook.Keys, works);
  }

  /** `works` holds the decisions for the first `|works|` files. */
  ghost predicate Decided(files: seq<CsvFile>, sheets: set<string>, works: seq<Work>) {
    |works| <= |files|
    && forall k {:trigger Classify(files[k], sheets)} :: 0 <= k < |works| ==> works[k] == Classify(files[k], sheets)
  }

  lemma PlanOfDecided(files: seq<CsvFile>, sheets: set<string>, works: seq<Work>)
    requires Decided(files, sheets, works) && |works| == |files|
    ensures works == Plan(files, sheets)
  {
    forall k | 0 <= k < |files|
      ensures works[k] == Plan(files, sheets)[k]
    {
      assert works[k] == Classify(files[k], sheets);
    }
  }

  /** Decides what to do with file `i` and records the decision. */
  method DecideFile(files: seq<CsvFile>, i: nat, workbook: map<string, Sheet>, ghost works: seq<Work>)
    returns (work: Work, ghost works': seq<Work>)
    requires i < |files| && |works| == i && Decided(files, workbook.Keys, works)
    ensures works' == works + [work] && Decided(files, workbook.Keys, works')
    ensures work.Write? ==> work.sheet in workbook
  {
    work := ClassifyFile(files[i], workbook);
    works' := works + [work];
    assert works'[i] == Classify(files[i], workbook.Keys);
  }

  /** The loop body up to the write: the sheet for the file's name, its records, their
      preprocessing, and whether the template has the sheet. */
  method ClassifyFile(file: CsvFile, workbook: map<string, Sheet>) returns (work: Work)
    ensures work == Classify(file, workbook.Keys)
    ensures work.Write? ==> work.sheet in workbook
  {
    var sheetName := GetSheetNameFromFile(file.name);
    if sheetName.None? {
      return CountOnly;
    }
    var csvData := ParseCsv(file.text);
    if |csvData| == 0 {
      return CountOnly;
    }
    var rows := Preprocess(file.name, csvData);
    if sheetName.value !in workbook {
      return Skip;
    }
    work := Write(sheetName.value, rows);
  }

  /** Carries out the write a decision calls for, with the mappings selected for the format. */
  method ApplyWork(workbook: map<string, Sheet>, work: Work, mappings: map<string, Mapping>)
    requires Distinct(workbook)
    requires work.Write? ==> work.sheet in workbook
    modifies workbook.Values
    ensures States(workbook) == WriteOne(old(States(workbook)), work, mappings)
  {
    if work.Write? {
      var mapping := if work.sheet in mappings then mappings[work.sheet] else [];
      WriteFile(workbook, work.sheet, work.rows, mapping);
    }
  }

  /** Writes a file's records into the named sheet, leaving every other sheet as it was. */
  method WriteFile(workbook: map<string, Sheet>, sheet: string, rows: seq<Row>, mapping: Mapping)
    requires Distinct(workbook) && sheet in workbook
    modifies workbook[sheet]
    ensures States(workbook) == old(States(workbook))[sheet := WriteSheet(old(workbook[sheet].State()), sheet, rows, mapping)]
  {
    ghost var before := States(workbook);
    var target := workbook[sheet];
    if sheet == "Nil_exempt_NonGST" {
      target.UpdateExempt(rows, mapping);
    } else {
      target.AppendData(rows, mapping);
    }
    ghost var after := before[sheet := WriteSheet(before[sheet], sheet, rows, mapping)];
    assert target.State() == after[sheet];
    forall n | n in workbook
      ensures States(workbook)[n] == after[n]
    {
      if n != sheet {
        assert workbook[n] != target;
      }
    }
  }
}
