/**
 * The compliance run of the party workspace page (pages/PartyWorkspace.tsx), which inlines
 * its own copy of the engine: a plain comma splitter instead of the quoted reader, a
 * verifier that fails on multiples of 7, the partition of B2B rows into kept rows, an
 * error ledger and B2C-small rows, and the search for the HSN record of highest taxable
 * value. The partition rules are those of the service (module Compliance) with this
 * page's verifier, invoice fallback and party state code.
 */
module PartyWorkspace {
  import opened Text
  import opened Values
  import opened CsvParser
  import opened Compliance

  /** Column names of the page's reader: split at every comma, trimmed, lower-cased. */
  function Headers(line: string): (hs: seq<string>)
    ensures |hs| == |SplitOn(line, ',')|
    ensures forall k :: 0 <= k < |hs| ==> hs[k] == ToLower(Trim(SplitOn(line, ',')[k]))
    ensures forall k, i :: 0 <= k < |hs| && 0 <= i < |hs[k]| ==> !('A' <= hs[k][i] <= 'Z')
  {
    var parts := SplitOn(line, ',');
    seq(|parts|, k requires 0 <= k < |parts| => ToLower(Trim(parts[k])))
  }

  /** Values of one line: split at every comma (quotes are ordinary characters), trimmed. */
  function LineValues(line: string): seq<string> {
    TrimEach(SplitOn(line, ','))
  }

  /** The page's `parseCSV`: every line after the first is a record, blank or not;
      a column without a value gets `''`. */
  function SimpleParseCsv(text: string): (rs: seq<TextRow>)
    ensures |SplitLines(Trim(text))| <= 1 ==> rs == []
    ensures |SplitLines(Trim(text))| > 1 ==> |rs| == |SplitLines(Trim(text))| - 1
  {
    var lines := SplitLines(Trim(text));
    if |lines| <= 1 then [] else LineRecords(lines)
  }

  /** One record per line after the header line. */
  function LineRecords(lines: seq<string>): (rs: seq<TextRow>)
    requires |lines| >= 1
    ensures |rs| == |lines| - 1
  {
    var headers := Headers(lines[0]);
    seq(|lines| - 1, k requires 0 <= k < |lines| - 1 => RowOf(headers, LineValues(lines[k + 1])))
  }

  /** There is one record per line feed of the trimmed text, that is, one per line after
      the header. */
  lemma SimpleParseCsvCount(text: string)
    ensures |SimpleParseCsv(text)| == Count(Trim(text), '\n')
  {
    LineCount(Trim(text));
  }

  /** A value of the page's reader: trimmed and free of commas. */
  predicate CleanValue(v: string) {
    ',' !in v && Trim(v) == v
  }

  /** Record `k` is read from line `k + 1`; its keys are the lower-cased header names; every
      value is trimmed and holds no comma, and a column without a value gets `''`. */
  lemma SimpleParseCsvRecords(text: string)
    ensures var lines := SplitLines(Trim(text));
      forall k | 0 <= k < |SimpleParseCsv(text)| ::
        SimpleParseCsv(text)[k].Keys == (set h | h in Headers(lines[0])) &&
        forall h | h in SimpleParseCsv(text)[k] :: CleanValue(SimpleParseCsv(text)[k][h])
  {
    var lines := SplitLines(Trim(text));
    var rows := SimpleParseCsv(text);
    forall k | 0 <= k < |rows|
      ensures rows[k].Keys == (set h | h in Headers(lines[0]))
      ensures forall h | h in rows[k] :: CleanValue(rows[k][h])
    {
      SimpleParseCsvAt(text, k);
      LineRecordClean(Headers(lines[0]), lines[k + 1]);
    }
  }

  lemma SimpleParseCsvAt(text: string, k: nat)
    requires k < |SimpleParseCsv(text)|
    ensures var lines := SplitLines(Trim(text));
      |lines| > k + 1 && SimpleParseCsv(text)[k] == RowOf(Headers(lines[0]), LineValues(lines[k + 1]))
  {
    LineRecordAt(SplitLines(Trim(text)), k);
  }

  lemma LineRecordAt(lines: seq<string>, k: nat)
    requires k + 1 < |lines|
    ensures LineRecords(lines)[k] == RowOf(Headers(lines[0]), LineValues(lines[k + 1]))
  {
  }

  lemma LineRecordClean(headers: seq<string>, line: string)
    ensures forall h | h in RowOf(headers, LineValues(line)) :: CleanValue(RowOf(headers, LineValues(line))[h])
  {
    var values := LineValues(line);
    LineValuesClean(line);
    var row := RowOf(headers, values);
    RowOfValues(headers, values);
    forall h | h in row
      ensures CleanValue(row[h])
    {
      if row[h] == "" {
        EmptyClean();
      } else {
        var j :| 0 <= j < |values| && values[j] == row[h];
      }
    }
  }

  lemma EmptyClean()
    ensures CleanValue("")
  {
  }

  /** The values of a line hold no comma and are trimmed. */
  lemma LineValuesClean(line: string)
    ensures forall j :: 0 <= j < |LineValues(line)| ==> CleanValue(LineValues(line)[j])
  {
    var parts := SplitOn(line, ',');
    SplitOnJoin(line, ',');
    forall j | 0 <= j < |parts|
      ensures CleanValue(Trim(parts[j]))
    {
      TrimSubsequence(parts[j], ',');
      TrimIdempotent(parts[j]);
    }
  }

  /** The page's mock errors, in its order (not the service's). */
  const OnlineErrors: seq<Reason> := [Cancelled, Inactive, NotFound, Suspended]

  /** `verifyGSTINOnline`: a malformed identifier is `NOT_FOUND`; otherwise the seed
      decides, failing when it is a multiple of 7. */
  function VerifyGstinOnline(g: Value): (r: Verdict)
    ensures r.valid <==> r.reason == Active
    ensures r.valid <==> WellFormed(g) && Seed(g.s) % 7 != 0
    ensures !WellFormed(g) ==> r.reason == NotFound
    ensures WellFormed(g) && !r.valid ==> r.reason == OnlineErrors[Seed(g.s) % 4]
  {
    if !WellFormed(g) then Verdict(false, NotFound)
    else
      var seed := Seed(g.s);
      if seed % 7 == 0 then Verdict(false, OnlineErrors[seed % 4]) else Verdict(true, Active)
  }

  /** The page's invoice fallback: `inum`, else `N/A`. */
  function WorkspaceInvoice(row: Row): (v: Value)
    ensures Truthy(v)
    ensures "inum" in row && Truthy(row["inum"]) ==> v == row["inum"]
    ensures !("inum" in row && Truthy(row["inum"])) ==> v == Str("N/A")
  {
    Or(Get(row, "inum"), Str("N/A"))
  }

  /** `party?.gstin?.substring(0, 2)`: no state code when the party has no GSTIN. */
  function WorkspaceRules(partyGstin: Option<string>): Rules {
    Rules(VerifyGstinOnline, WorkspaceInvoice,
          if partyGstin.Some? then Some(StateCode(partyGstin.value)) else None)
  }

  datatype FileStatus = Pending | Processing | Completed | Error

  datatype UploadedFile = UploadedFile(fileName: string, status: FileStatus, content: Option<string>)

  /** The files waiting to be processed, in order (`files.filter(f => f.status === 'Pending')`). */
  function PendingFiles(files: seq<UploadedFile>): (r: seq<UploadedFile>)
    ensures forall f :: f in r <==> f in files && f.status == Pending
  {
    if files == [] then []
    else
      var last := files[|files| - 1];
      var init := PendingFiles(files[..|files| - 1]);
      assert forall f :: f in files <==> f in files[..|files| - 1] || f == last;
      init + (if last.status == Pending then [last] else [])
  }

  /** The filter keeps the order of the files: filtering a concatenation is concatenating
      the filtered parts. */
  lemma {:induction false} PendingFilesAppend(a: seq<UploadedFile>, b: seq<UploadedFile>)
    ensures PendingFiles(a + b) == PendingFiles(a) + PendingFiles(b)
    decreases |b|
  {
    if b == [] {
      assert a + b == a;
    } else {
      var init, last := b[..|b| - 1], b[|b| - 1];
      assert a + b == (a + init) + [last];
      assert b == init + [last];
      PendingFilesSnoc(a + init, last);
      PendingFilesSnoc(init, last);
      PendingFilesAppend(a, init);
    }
  }

  lemma PendingFilesSnoc(xs: seq<UploadedFile>, x: UploadedFile)
    ensures PendingFiles(xs + [x]) == PendingFiles(xs) + (if x.status == Pending then [x] else [])
  {
    assert (xs + [x])[..|xs|] == xs;
  }

  /** A single file is kept exactly when it is pending. */
  lemma PendingFilesSingle(f: UploadedFile)
    ensures PendingFiles([f]) == if f.status == Pending then [f] else []
  {
    assert [f][..0] == [];
  }

  /** `file.content || ""`. */
  function ContentOf(file: UploadedFile): string {
    if file.content.Some? then file.content.value else ""
  }

  /** A file whose lower-cased name contains `hsn` holds HSN summary records. */
  predicate IsHsnFile(name: string) {
    Contains(ToLower(name), "hsn")
  }

  /** The test does not depend on the case of the name. */
  lemma HsnFileCaseInsensitive(name: string)
    ensures IsHsnFile(ToUpper(name)) == IsHsnFile(name)
  {
    LowerOfUpper(name);
  }

  function AsRows(data: seq<TextRow>): (r: seq<Row>)
    ensures |r| == |data|
    ensures forall k :: 0 <= k < |r| ==> r[k] == FromText(data[k])
  {
    seq(|data|, k requires 0 <= k < |data| => FromText(data[k]))
  }

  /** The records of one file. */
  function FileRows(file: UploadedFile): seq<Row> {
    AsRows(SimpleParseCsv(ContentOf(file)))
  }

  /** Records of the files that are not HSN files, in file order. */
  function B2bRows(files: seq<UploadedFile>): seq<Row> {
    if files == [] then []
    else
      var last := files[|files| - 1];
      B2bRows(files[..|files| - 1]) + (if IsHsnFile(last.fileName) then [] else FileRows(last))
  }

  /** Records of the HSN files, in file order. */
  function HsnRows(files: seq<UploadedFile>): seq<Row> {
    if files == [] then []
    else
      var last := files[|files| - 1];
      HsnRows(files[..|files| - 1]) + (if IsHsnFile(last.fileName) then FileRows(last) else [])
  }

  /** Records of all files, in file order. */
  function AllRows(files: seq<UploadedFile>): seq<Row> {
    if files == [] then [] else AllRows(files[..|files| - 1]) + FileRows(files[|files| - 1])
  }

  /** Every record goes to exactly one of the two collections. */
  lemma {:induction false} RowsSplit(files: seq<UploadedFile>)
    ensures multiset(B2bRows(files)) + multiset(HsnRows(files)) == multiset(AllRows(files))
    ensures |B2bRows(files)| + |HsnRows(files)| == |AllRows(files)|
  {
    if files != [] {
      var init := files[..|files| - 1];
      var last := files[|files| - 1];
      RowsSplit(init);
      if IsHsnFile(last.fileName) {
        assert B2bRows(files) == B2bRows(init) + [];
      } else {
        assert HsnRows(files) == HsnRows(init) + [];
      }
    }
  }

  /** `{...h, txval: parseFloat(h.txval || 0), iamt: …, camt: …, samt: …}`. */
  function ConvertHsnRow(h: Row): (r: Row)
    ensures r.Keys == h.Keys + {"txval", "iamt", "camt", "samt"}
    ensures forall key | key in h && key !in {"txval", "iamt", "camt", "samt"} :: r[key] == h[key]
    ensures forall key | key in {"txval", "iamt", "camt", "samt"} :: r[key] == Num(Amount(h, key))
  {
    h["txval" := Num(Amount(h, "txval"))]["iamt" := Num(Amount(h, "iamt"))]
     ["camt" := Num(Amount(h, "camt"))]["samt" := Num(Amount(h, "samt"))]
  }

  function ConvertHsn(rows: seq<Row>): (r: seq<Row>)
    ensures |r| == |rows|
    ensures forall k :: 0 <= k < |r| ==> r[k] == ConvertHsnRow(rows[k])
  {
    seq(|rows|, k requires 0 <= k < |rows| => ConvertHsnRow(rows[k]))
  }

  /** After conversion the scanned value of a record is its numeric `txval`. */
  lemma ConvertedValues(rows: seq<Row>)
    ensures forall k :: 0 <= k < |rows| ==>
      HsnValues(ConvertHsn(rows))[k] == Amount(rows[k], "txval") &&
      ConvertHsn(rows)[k]["txval"] == Num(Amount(rows[k], "txval"))
  {
  }

  datatype RunOutcome =
    | NoPendingFiles
    | Reconciled(
        validB2B: seq<Row>,
        errorList: seq<Row>,
        b2csAdditions: seq<Row>,
        hsnRows: seq<Row>,
        adjustTarget: Option<nat>,    // the HSN record the adjustment is logged against
        migratedAmount: real)         // the amount written to the processing log

  /** What the run computes, given the pending files. */
  predicate ReconciledAs(outcome: RunOutcome, pending: seq<UploadedFile>, partyGstin: Option<string>) {
    var rules := WorkspaceRules(partyGstin);
    var b2b := B2bRows(pending);
    var hsn := HsnRows(pending);
    var adjust := |Ledger(rules, b2b)| > 0 && |hsn| > 0;
    outcome.Reconciled? &&
    outcome.validB2B == Passed(rules, b2b) &&
    outcome.errorList == Ledger(rules, b2b) &&
    outcome.b2csAdditions == Migrated(rules, b2b) &&
    outcome.migratedAmount == Shifted(rules, b2b) &&
    outcome.hsnRows == (if adjust then ConvertHsn(hsn) else hsn) &&
    (outcome.adjustTarget.Some? <==> adjust) &&
    (adjust ==>
      var values := HsnValues(outcome.hsnRows);
      var t := outcome.adjustTarget.value;
      t < |hsn| &&
      (AllAtMost(values, -1.0) ==> t == 0) &&
      (!AllAtMost(values, -1.0) ==> IsFirstMax(values, t)))
  }

  /** The gathering loop of `handleRunComplianceProcess`: each pending file's CSV records
      go to the HSN list when its name marks it as an HSN file, else to the B2B list. */
  method GatherRows(pending: seq<UploadedFile>) returns (b2bRows: seq<Row>, hsnRows: seq<Row>)
    ensures b2bRows == B2bRows(pending) && hsnRows == HsnRows(pending)
  {
    b2bRows, hsnRows := [], [];
    var i := 0;
    while i < |pending|
      invariant 0 <= i <= |pending|
      invariant b2bRows == B2bRows(pending[..i])
      invariant hsnRows == HsnRows(pending[..i])
    {
      var file := pending[i];
      assert pending[..i + 1][..i] == pending[..i];
      var data := AsRows(SimpleParseCsv(ContentOf(file)));
      if IsHsnFile(file.fileName) {
        hsnRows := hsnRows + data;
      } else {
        b2bRows := b2bRows + data;
      }
      i := i + 1;
    }
    assert pending[..i] == pending;
  }

  /** The partition loop of `handleRunComplianceProcess`: a row whose GSTIN fails the check
      goes to the error ledger and, converted, to the B2CS additions; the others stay B2B. */
  method PartitionB2b(rules: Rules, rows: seq<Row>)
    returns (validB2B: seq<Row>, errorList: seq<Row>, b2csAdditions: seq<Row>)
    ensures validB2B == Passed(rules, rows)
    ensures errorList == Ledger(rules, rows)
    ensures b2csAdditions == Migrated(rules, rows)
  {
    validB2B, errorList, b2csAdditions := [], [], [];
    var j := 0;
    while j < |rows|
      invariant 0 <= j <= |rows|
      invariant validB2B == Passed(rules, rows[..j])
      invariant errorList == Ledger(rules, rows[..j])
      invariant b2csAdditions == Migrated(rules, rows[..j])
    {
      var row := rows[j];
      Step(rules, rows, j);
      var status := rules.verify(RowGstin(row));
      if !status.valid {
        errorList := errorList + [ErrorEntry(rules, row)];
        b2csAdditions := b2csAdditions + [MigratedRow(rules, row)];
      } else {
        validB2B := validB2B + [row];
      }
      j := j + 1;
    }
    assert rows[..j] == rows;
  }

  /** `handleRunComplianceProcess` without its side effects: nothing to do without pending
      files; otherwise the records are gathered, B2B records partitioned, HSN records
      converted and scanned, and the migrated amount (the sum of the ledger's taxable values)
      computed. */
  method RunComplianceProcess(files: seq<UploadedFile>, partyGstin: Option<string>)
    returns (outcome: RunOutcome)
    ensures PendingFiles(files) == [] <==> outcome == NoPendingFiles
    ensures PendingFiles(files) != [] ==> ReconciledAs(outcome, PendingFiles(files), partyGstin)
  {
    var pending := PendingFiles(files);
    if |pending| == 0 {
      return NoPendingFiles;
    }
    var b2bRows, hsnRows := GatherRows(pending);
    var rules := WorkspaceRules(partyGstin);
    var validB2B, errorList, b2csAdditions := PartitionB2b(rules, b2bRows);
    var adjustTarget: Option<nat> := None;
    if |errorList| > 0 && |hsnRows| > 0 {
      hsnRows := ConvertHsn(hsnRows);
      var highestValueIdx := HighestValueIndex(HsnValues(hsnRows));
      adjustTarget := Some(highestValueIdx);
    }
    Conservation(rules, b2bRows);
    var migratedAmount := SumField(errorList, "Taxable Value");
    outcome := Reconciled(validB2B, errorList, b2csAdditions, hsnRows, adjustTarget, migratedAmount);
  }
}
