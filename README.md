# GSTR-1 pipeline: a verified Dafny model

This project models the data pipeline of a GST-return (GSTR-1) preparation portal. Its pieces:

- **CSV reader** (`CsvParser`). It reads exported CSV files into records. A `"` toggles quoted mode, and only commas outside quotes separate fields. Blank lines are skipped, and every field is trimmed.
- **Compliance engine** (`Compliance`). A mock GSTIN verifier, then one pass over the B2B invoices that splits them into three outputs: the valid invoices, an error ledger, and B2C-small ("OE") rows made from the failing invoices. The pass also accumulates the taxable value that moved.
- **Template sheet writer** (`ExcelGenerator`). A worksheet is a class holding a grid of cells and a used range.
  - *Append* writes records below the last row that holds data and then moves the range end.
  - *Exempt update* fills the fixed template rows whose description matches the record.
  - Column values are resolved through the per-sheet alias tables and normalised before they are written (`CellFormat`).
- **GSTR-1 orchestration** (`Gstr1Processor`):
  - the standard and Tally column mappings;
  - the choice of template sheet from the keywords in a file name;
  - the documents-issued and HSN preprocessing;
  - the file loop, which fills the template sheets and reports progress percentages.
- **Party workspace** (`PartyWorkspace`). The copy of the engine inlined in the party page. It has its own comma-only CSV splitter, a different mock verifier, the same partition pass, and the scan for the HSN record with the highest taxable value.

Three helper modules hold the JavaScript runtime behaviour the pipeline relies on:

- `Text`: `trim`, `includes`, `split`, `replace`, ASCII case mapping, and UTF-16 code units.
- `Numbers`: the prefix reading of `parseFloat` and the plain-decimal test.
- `Values`: text-or-number values, truthiness, `a || b`, and `parseFloat(x || 0)`.

Imperative code is modelled imperatively, and each method is proved against a specification function:

- `parseLine` and the line loop of `parseCSV`;
- the partition loop and the highest-value scan;
- both sheet writers, as methods of the `Sheet` class;
- the file loop of `processFiles`, over a map of `Sheet` objects.

Pure code becomes functions with lemmas.

Some behaviour of the source is modelled as written:

- A file whose name selects a sheet that the template lacks is skipped without being counted, so the last progress report can stay below 80.
- Any name containing `AT` (such as `RATED` or `DATA`) selects `adv_tax` when no earlier keyword occurs.
- The documents-issued preprocessing is chosen by `DOC` in the file name, independently of the sheet the name selects.

## Model

| member | source | states |
|---|---|---|
| Text.TrimIdempotent | services/csvParser.ts:20 | Trimming a trimmed text changes nothing. |
| Text.TrimStartFacts | services/csvParser.ts:20 | Trimming the front removes exactly a leading run of white space: what is left is a suffix of the input and does not start with white space. |
| Text.TrimEndFacts | services/csvParser.ts:20 | Trimming the end removes exactly a trailing run of white space: what is left is a prefix of the input and does not end with white space. |
| Text.SplitOnJoin | services/csvParser.ts:7 | Splitting at a separator and re-joining gives the text back, and no piece contains the separator. |
| Text.LineCount | services/csvParser.ts:7 | `split(/\r?\n/)` gives one line more than the text has line feeds. |
| Text.LowerOfUpper | pages/PartyWorkspace.tsx:76 | Lower-casing ignores an earlier upper-casing, so the case of the input does not matter. |
| Text.ContainsInfix | services/gstr1Processor.ts:146-147 | A text that contains a word also contains every part of that word (so `ATADJ` implies `AT`). |
| Text.IndexOfSpec | services/excelGenerator.ts:130 | The string `replace` acts at the first place the pattern starts, and leaves the text alone only when the pattern occurs nowhere. |
| Numbers.PlainDecimalReads | services/excelGenerator.ts:157-158 | A text matching `^-?\d+\.?\d*$` always parses as a number. |
| Numbers.PlainDecimalClean | services/excelGenerator.ts:157-161 | A plain decimal has no comma and no surrounding space, so the comma removal and trimming before the parse leave it unchanged. |
| Numbers.ParseFloat | services/excelGenerator.ts:157 | An empty or all-blank text does not parse (NaN); a text whose first non-blank character is a digit always parses, to a non-negative number. |
| Numbers.WholeNumber | services/excelGenerator.ts:157 | A text of digits alone parses as the natural number it denotes. |
| Numbers.NumberText | services/excelGenerator.ts:161 | `toString()` of a number starts with `-` exactly when the number is negative. |
| Numbers.NatTextValue | services/excelGenerator.ts:151-152 | The decimal text of a natural number is all digits and denotes that number. |
| Numbers.NumberTextOfInt | services/excelGenerator.ts:161 | An integer is written as its decimal digits, after a `-` when negative. |
| Numbers.NumberTextWhole | services/excelGenerator.ts:157-161 | `parseFloat(String(k))` is `k` for every integer `k`: writing and reading back an integer is the identity. |
| Values.Or | services/compliance.ts:59 | `a \|\| b` gives `a` when it is present and truthy, otherwise `b`; a truthy default always gives a truthy result. |
| Values.NumberOrZero | services/compliance.ts:63 | `parseFloat(x \|\| 0)` gives 0 for a missing value, a number as itself, the parsed number for text that parses, and 0 for text that does not parse (NaN read as 0). |
| CsvParser.ParseLine | services/csvParser.ts:10-28 | The character loop returns exactly the fields of the reference split: the pieces between unquoted commas, quotes dropped, each trimmed. |
| CsvParser.QuotedSplitCount | services/csvParser.ts:17-26 | There is one piece per comma outside quotes, plus one. |
| CsvParser.QuotedSplitNoQuotes | services/csvParser.ts:17-18 | A quote only flips quoted mode and never ends up in a piece. |
| CsvParser.QuotedSplitJoin | services/csvParser.ts:15-26 | Joining the pieces with commas gives the line without its quotes: nothing but quotes is lost, and nothing is reordered. |
| CsvParser.FieldCount | services/csvParser.ts:19-26 | A line has as many fields as it has unquoted commas, plus one. |
| CsvParser.FieldsClean | services/csvParser.ts:17-26 | No field contains a quote and every field is trimmed. |
| CsvParser.RowOfValue | services/csvParser.ts:39-41 | A column gets the value at its header's last position, or `''` when the line has no value there. |
| CsvParser.RowOfValues | services/csvParser.ts:39-41 | Every value of a record is `''` or one of the line's values. |
| CsvParser.ParseCsv | services/csvParser.ts:6-47 | A text of at most one line (after trimming) gives no records; otherwise the result is the records of the lines after the header. |
| CsvParser.ReadRecords | services/csvParser.ts:33-44 | The line loop returns the records of the lines in order, skipping blank lines. |
| CsvParser.RecordsOfNonBlank | services/csvParser.ts:33-44 | Record `k` is read from the `k`-th non-blank line after the header, and every record's keys are exactly the header names. |
| CsvParser.TrimAllFields | services/csvParser.ts:49-55 | The keys are kept, text values are trimmed, and numbers are unchanged. |
| CsvParser.TrimAllFieldsIdempotent | services/csvParser.ts:49-55 | Trimming all fields twice is the same as trimming them once. |
| Compliance.VerifyGstin | services/compliance.ts:36-45 | A verdict is valid exactly when its reason is ACTIVE, and the reason is INVALID_FORMAT exactly for an empty or non-15-unit identifier. |
| Compliance.VerifyGstinOutcomes | services/compliance.ts:38-44 | A well-formed identifier fails exactly when its character-code sum is a multiple of 8, and then always as CANCELLED; NOT_FOUND, INACTIVE and SUSPENDED never occur. |
| Compliance.VerdictBySeed | services/compliance.ts:39-45 | Two well-formed identifiers with the same character-code sum get the same verdict. |
| Compliance.RowGstin | services/compliance.ts:59 | An invoice is verified under `ctin`, else `gstin`, else `''`. |
| Compliance.ErrorEntry | services/compliance.ts:66-75 | A ledger entry has exactly the eight ledger columns: the invoice number of the fallback chain, the verified identifier, the verdict's reason, the parsed `txval`, `camt`, `samt` and `iamt` (0 when missing or unparseable), and `rt` when truthy, else 0. |
| Compliance.MigratedRow | services/compliance.ts:77-85 | A migrated row has exactly the seven B2C-small columns; MigratedRowFields states the value of each. |
| Compliance.MigratedRowFields | services/compliance.ts:77-85 | The type is always `OE`. The place of supply is the invoice's `pos`, else the party's state code, else `01`, and is never empty. The taxable value, the rate and the IGST, CGST and SGST amounts equal those in the ledger entry for the same row. |
| Compliance.Passed | services/compliance.ts:86-88 | Every kept invoice passes verification. |
| Compliance.Failed | services/compliance.ts:62-85 | Every failing invoice fails verification. |
| Compliance.Partition | services/compliance.ts:58-89 | The kept and the failing invoices together are the input, as a multiset and by count. |
| Compliance.Ledger | services/compliance.ts:62-75 | The error ledger has one entry per failing invoice, and entry `k` is the ledger entry of the `k`-th failing invoice. |
| Compliance.Migrated | services/compliance.ts:62-85 | There is one B2C-small row per failing invoice, and row `k` is made from the `k`-th failing invoice. |
| Compliance.Shifted | services/compliance.ts:55-64 | Nothing is shifted when every invoice passes, and the shifted total is never negative when no invoice has a negative taxable value. |
| Compliance.Step | services/compliance.ts:58-89 | One more invoice extends exactly one of the kept list or the ledger and migrated lists, and adds its taxable value to the total only when it fails. |
| Compliance.Conservation | services/compliance.ts:63-84 | The shifted total equals the sum of the ledger's taxable values and the sum of the migrated rows' `txval`. |
| Compliance.HighestValueIndex | services/compliance.ts:95-104 | With `maxVal` starting at -1, the scan returns the first index of a maximal value, or 0 when every value is at most -1. |
| Compliance.StateCode | services/compliance.ts:78 | The state code is the prefix of at most two code points of the party GSTIN; `substring(0, 2)` counts UTF-16 code units, so the two differ only for a non-BMP character among the first two. |
| Compliance.ServiceInvoice | services/compliance.ts:67 | The ledger's invoice number is `inum` when truthy, else `invoice_no` when truthy, else `N/A`; it is never empty. |
| Compliance.HsnValues | services/compliance.ts:98-99 | The scanned value of each HSN record is `parseFloat(txval \|\| 0)`. |
| Compliance.ProcessGstr1 | services/compliance.ts:51-118 | The engine returns the kept invoices, the ledger, the migrated rows and the shifted total of the reference fold, and the HSN records unchanged. |
| CellFormat.StripStateCodeOf | services/excelGenerator.ts:125 | `digits-` followed by spaces is removed from the front of a place of supply. |
| CellFormat.StripStateCode | services/excelGenerator.ts:125 | The replace only removes a prefix: the result is a suffix of the input, and a text that does not start with a digit is unchanged. |
| CellFormat.MonthIndex | services/excelGenerator.ts:147-149 | A month name is found exactly when it is one of the twelve capitalised names, and its index is its position. |
| CellFormat.FindDate | services/excelGenerator.ts:145 | `match` returns the leftmost match of `(\d{1,2})-([A-Za-z]{3})-(\d{2})`, with a day of one or two digits, a month of three letters and a year of two digits, and no match only when the pattern matches nowhere. |
| CellFormat.FinalCellKind | services/excelGenerator.ts:157-162 | A value becomes a number cell exactly when its text is a plain decimal, holding the parsed number; otherwise it becomes its trimmed text. |
| CellFormat.FinalCell | services/excelGenerator.ts:157-162 | A number cell holds the parse of the comma-free text and is written only for a plain decimal; a text cell holds the trimmed text. |
| CellFormat.AppendCell | services/excelGenerator.ts:115-162 | An empty value is written as an empty text cell; any other value becomes a number cell exactly when its cleaned text is a plain decimal. |
| CellFormat.ExemptCell | services/excelGenerator.ts:47-58 | An empty value is written as 0; a number cell holds the parse of the comma-free text; a text cell is written only when that text does not parse, and holds the trimmed text. |
| CellFormat.ExemptCellKind | services/excelGenerator.ts:47-58 | The exempt writer reads every plain decimal as the number it denotes, agrees with the append writer on every value the append writer stores as a number, and writes text only where the append writer does too. |
| CellFormat.Normalize | services/excelGenerator.ts:121-155 | A column whose header holds neither `place of supply` nor `date` in any case, and is none of the exactly compared headers, keeps its value. |
| CellFormat.InvoiceTypeStep | services/excelGenerator.ts:128-131 | Only the `Invoice Type` column is changed, and there the value becomes trimmed text. |
| CellFormat.InvoiceType | services/excelGenerator.ts:128-131 | In the invoice-type column, for a text holding neither ` B2B` nor ` B2C` elsewhere, a trailing ` B2B` or ` B2C` is removed and the text trimmed; a text without either is only trimmed. (The source removes the first occurrence, so an earlier marker would be the one dropped.) |
| CellFormat.ThousandsSeparator | services/excelGenerator.ts:53-57 | Example only, for the one literal `1,000`: it stays text on append but becomes the number 1000 in the exempt sheet. |
| CellFormat.ReverseCharge | services/excelGenerator.ts:134-136 | In RCM columns `Y` is written `Yes` and `N` is written `No`. |
| CellFormat.WordCell | services/excelGenerator.ts:157-162 | A trimmed text that starts with a letter is written as text. |
| CellFormat.PlaceOfSupply | services/excelGenerator.ts:123-126 | In any column whose lower-cased header contains `place of supply` (and not `date`), `digits-rest` is written `rest`, so `27-Maharashtra` becomes `Maharashtra`. |
| CellFormat.FindWholeDate | services/excelGenerator.ts:145 | A whole `d-Mon-yy` text is matched with its own three groups. |
| CellFormat.YearText | services/excelGenerator.ts:150 | A two-digit year `ab` becomes `20ab`. |
| CellFormat.DayText | services/excelGenerator.ts:148-151 | A one- or two-digit day is printed as two digits. |
| CellFormat.DateColumn | services/excelGenerator.ts:143-155 | In any column whose lower-cased header contains `date` (and not `place of supply`), `dd-Mon-yy` becomes `dd-mm-20yy`: a one-digit day gains a leading 0, and the month name at position `k` of the twelve becomes `k + 1`, padded to two digits. |
| ExcelGenerator.TemplateHeaders | services/excelGenerator.ts:18-22 | One header per column of the range, header `k` being the text of row 0 at column `sc + k`. |
| ExcelGenerator.LastDataRow | services/excelGenerator.ts:81-92 | The result holds data (or is 0), and no later row up to the bound holds data. |
| ExcelGenerator.StartRowIsFree | services/excelGenerator.ts:78-94 | Appending starts at row 1 or later. No row from the start to the range end holds data, and the row before the start (when there is one) does. |
| ExcelGenerator.Resolve | services/excelGenerator.ts:102-113 | The record's own column of the header's name wins when present; otherwise the value is `''` or the value of a mapped column that targets the header and that the record has. |
| ExcelGenerator.ResolveFirst | services/excelGenerator.ts:102-113 | Without a column of the header's name, the first mapping entry in declared order that targets the header and whose column the record has supplies the value. |
| ExcelGenerator.ResolveNone | services/excelGenerator.ts:102-113 | Without a column of the header's name and without a supplying entry, the value is `''`. |
| ExcelGenerator.ResolveValue | services/excelGenerator.ts:102-113 | The lookup loop returns the resolved value. |
| ExcelGenerator.WriteRowAt | services/excelGenerator.ts:99-163 | Writing a record changes only the cells of its row under non-empty headers, at column `colIndex`, each with that column's cell. |
| ExcelGenerator.AppendedAt | services/excelGenerator.ts:96-164 | After an append, record `i` is in row `start + i` under every non-empty header. Every other cell is unchanged. |
| ExcelGenerator.Appended | services/excelGenerator.ts:96-164 | An append keeps every existing cell position and adds cells only in the rows `start` to `start + \|data\| - 1`. |
| ExcelGenerator.FirstIndexSpec | services/excelGenerator.ts:26-30 | The description search finds the first equal entry, and finds none only when there is none. |
| ExcelGenerator.DescRowFound | services/excelGenerator.ts:26-30 | A row among 1 to the range end whose description is the record's, with no earlier row reading so, is the row matched. |
| ExcelGenerator.DescRowNone | services/excelGenerator.ts:26-30 | When no row among 1 to the range end has the record's description, no row is matched. |
| ExcelGenerator.LastFor | services/excelGenerator.ts:24-62 | The last record matched to a row is found, and no later record is matched to it. |
| ExcelGenerator.ExemptedKeepsDescriptions | services/excelGenerator.ts:32 | The exempt update never writes column 0, so every record is matched against the template's own descriptions. |
| ExcelGenerator.ExemptedStep | services/excelGenerator.ts:24-30 | The last record is matched against the template's descriptions, not against updated ones. |
| ExcelGenerator.ExemptedAt | services/excelGenerator.ts:24-62 | A cell of a template row holds the value of the last record matched to that row, in a written column. Every other cell is unchanged, so an unmatched record adds no row. |
| ExcelGenerator.Exempted | services/excelGenerator.ts:24-62 | The exempt update keeps every existing cell position and adds cells only in the template rows 1 to the range end. |
| ExcelGenerator.AfterAppend | services/excelGenerator.ts:66-168 | No records leave the sheet as it was. Every new cell lies between row 1 and the new range end, and the range keeps its first row and its columns. |
| ExcelGenerator.AfterExempt | services/excelGenerator.ts:13-64 | The range is kept, and every new cell lies in a template row between 1 and the range end. |
| ExcelGenerator.ExemptedAtHit | services/excelGenerator.ts:30-59 | When the last record matches row `r`, its values are in that row. |
| ExcelGenerator.ExemptedAtMiss | services/excelGenerator.ts:26-61 | When the last record does not match row `r`, the row is as the earlier records left it. |
| ExcelGenerator.Sheet.ReadHeaders | services/excelGenerator.ts:18-22 | The header loop reads the template headers. |
| ExcelGenerator.Sheet.RowHasValue | services/excelGenerator.ts:82-90 | The column loop finds data exactly when the row holds a value in the range's columns. |
| ExcelGenerator.Sheet.FindLastDataRow | services/excelGenerator.ts:78-92 | The row loop finds the last row holding data. |
| ExcelGenerator.Sheet.AppendData | services/excelGenerator.ts:66-168 | No records leave the sheet and its range as they were. Otherwise the records are written from the start row on, and the range end becomes start + \|data\| - 1 with the other bounds kept. |
| ExcelGenerator.Sheet.AppendRecords | services/excelGenerator.ts:96-164 | The record loop writes record `i` into row `start + i`, in order, and keeps the range. |
| ExcelGenerator.Sheet.AppendRecord | services/excelGenerator.ts:99-163 | The header loop writes the record's cleaned value under every non-empty header of its row and changes nothing else. |
| ExcelGenerator.Sheet.UpdateExempt | services/excelGenerator.ts:13-64 | The sheet becomes the exempt update of its cells and its range is kept. No records change nothing. |
| ExcelGenerator.Sheet.FillRecords | services/excelGenerator.ts:24-62 | The record loop leaves the cells as the exempt update of all records, in order, matching each against the descriptions, and keeps the range. |
| ExcelGenerator.Sheet.FindDescRow | services/excelGenerator.ts:26-30 | The row loop finds the first template row with the record's description. |
| ExcelGenerator.Sheet.FillRecord | services/excelGenerator.ts:31-59 | The column loop writes a record into its matched row, and writes nothing when it has none. |
| Gstr1Processor.TallyMappingsSpec | services/gstr1Processor.ts:124-134 | Both formats map exactly the eleven template sheets. Tally equals standard everywhere except documents issued, whose From and To alias lists gain the spaced variants. |
| Gstr1Processor.MappingsForSheets | services/gstr1Processor.ts:189 | Whichever format is chosen, the mappings cover exactly the eleven template sheets and equal the standard mappings on every sheet but documents issued. |
| Gstr1Processor.GetSheetNameFromFile | services/gstr1Processor.ts:136-150 | A chosen sheet is always one of the eleven template sheets. |
| Gstr1Processor.SheetNameIgnoresCase | services/gstr1Processor.ts:137 | The sheet depends only on the upper-cased name. |
| Gstr1Processor.SheetNameNone | services/gstr1Processor.ts:136-150 | No sheet is chosen exactly when none of the keywords occurs. |
| Gstr1Processor.SheetNamePriority | services/gstr1Processor.ts:138-147 | `HSN` always gives `hsn`. `B2B` gives `b2b` unless `HSN` occurs. `ATADJ` never gives `adv_tax`, and gives `adv_tax_adjusted` unless an earlier keyword occurs. `CDNUR` never gives `cdnr`. |
| Gstr1Processor.DocsRecordSpec | services/gstr1Processor.ts:155-163 | A documents-issued record has exactly six columns, and Net Issued is Total Number minus Cancelled. |
| Gstr1Processor.DocsIssuedCounts | services/gstr1Processor.ts:152-166 | The counts are the parsed CSV fields (0 when missing or unparseable), and the net is their difference. |
| Gstr1Processor.DocsIssuedAliases | services/gstr1Processor.ts:158-160 | Each text column is the first non-empty alias in declared order, or `''`. |
| Gstr1Processor.ProcessDocsIssued | services/gstr1Processor.ts:152-166 | Record `i` out is the documents-issued record of record `i` in, whose columns `DocsIssuedCounts` and `DocsIssuedAliases` give. |
| Gstr1Processor.HsnRowSpec | services/gstr1Processor.ts:168-178 | The columns are kept and trimmed. Type is `B2B` for a B2B file, else `B2C` for a B2C file, else the record's own. Rate is 0 exactly when it is missing or empty. |
| Gstr1Processor.ProcessHsnData | services/gstr1Processor.ts:168-178 | Record `i` out is the HSN record of record `i` in, with B2B and B2C read from the upper-cased file name; `HsnRowSpec` gives its columns. |
| Gstr1Processor.Preprocess | services/gstr1Processor.ts:212-218 | A name containing `DOC` (in any case) gets the documents-issued preprocessing, else one containing `HSN` the HSN preprocessing, else every record is only trimmed; the number of records is kept. |
| Gstr1Processor.ClassifySpec | services/gstr1Processor.ts:195-229 | A written file goes to the sheet its name selects, that sheet is in the template, and the file carries all its CSV records. A file is skipped without counting exactly when the sheet is missing and the CSV has records. |
| Gstr1Processor.Classify | services/gstr1Processor.ts:195-221 | A file is counted without writing exactly when its name selects no sheet or its CSV has no records; a written file goes to a sheet of the template and carries one record per CSV record. |
| Gstr1Processor.Percent | services/gstr1Processor.ts:232 | The percentage is 20 plus the integer nearest to `60·processed/total`, the larger one at a tie (`Math.round`). |
| Gstr1Processor.PercentBounds | services/gstr1Processor.ts:232 | The percentage lies in [20, 80]. It is 20 with nothing processed and 80 with everything processed. |
| Gstr1Processor.PercentMonotone | services/gstr1Processor.ts:232 | The percentage grows with the number of files processed. |
| Gstr1Processor.ProgressInvariant | services/gstr1Processor.ts:195-233 | No more files are counted or reported than seen. The reports never go down, and each lies between 20 and the current percentage. |
| Gstr1Processor.ProgressInRange | services/gstr1Processor.ts:195-233 | Every percentage the loop reports lies in [20, 80], in non-decreasing order. |
| Gstr1Processor.AllWritten | services/gstr1Processor.ts:195-233 | When every file is written, each is counted and reported, and report `k` is the percentage for `k + 1` files. |
| Gstr1Processor.CompleteRunReaches80 | services/gstr1Processor.ts:231-233 | When every file is written, the last report is 80. |
| Gstr1Processor.WriteAllUntouched | services/gstr1Processor.ts:220-229 | The writes keep the set of sheets, and a sheet that no file is written to keeps its contents. |
| Gstr1Processor.WriteSheet | services/gstr1Processor.ts:225-229 | Writing a file keeps every cell position of its sheet and adds cells only between row 1 and the sheet's range end afterwards; the exempt sheet keeps its range. |
| Gstr1Processor.ProcessFiles | services/gstr1Processor.ts:180-239 | The sheets become the writes of the files' decisions, in order: the exempt sheet by the exempt update, the others by append, with the mappings of the chosen format. The reports are 10, 20, the loop's percentages, 90, 100. |
| Gstr1Processor.WriteFiles | services/gstr1Processor.ts:195-233 | The file loop leaves the sheets as the writes of the files' decisions, in order, and reports exactly the percentages the counter gives. |
| Gstr1Processor.ApplyWork | services/gstr1Processor.ts:220-229 | A write decision changes only its sheet, with the mapping selected for that sheet (none when it has none); any other decision changes nothing. |
| Gstr1Processor.ClassifyFile | services/gstr1Processor.ts:196-221 | The loop body up to the write takes the decision that `Classify` describes. |
| Gstr1Processor.WriteFile | services/gstr1Processor.ts:223-229 | A file's records go to its sheet through the exempt update or the append, and every other sheet is unchanged. |
| PartyWorkspace.Headers | pages/PartyWorkspace.tsx:41 | There is one column name per comma-separated piece of the header line, and name `k` is piece `k` trimmed and lower-cased. |
| PartyWorkspace.SimpleParseCsv | pages/PartyWorkspace.tsx:38-47 | A text of at most one line after trimming gives no records; otherwise there is one record per line after the header. |
| PartyWorkspace.SimpleParseCsvCount | pages/PartyWorkspace.tsx:38-47 | At most one line gives no records. Otherwise there is one record per line after the header, blank or not. |
| PartyWorkspace.SimpleParseCsvRecords | pages/PartyWorkspace.tsx:41-46 | Every record's keys are the lower-cased header names, and its values are trimmed and hold no comma. |
| PartyWorkspace.SimpleParseCsvAt | pages/PartyWorkspace.tsx:42-46 | Record `k` is read from line `k + 1`, against the header line's names. |
| PartyWorkspace.LineValuesClean | pages/PartyWorkspace.tsx:43 | Every comma-separated value of a line is trimmed and holds no comma. |
| PartyWorkspace.VerifyGstinOnline | pages/PartyWorkspace.tsx:51-58 | A malformed identifier is NOT_FOUND. Failure happens exactly when the character-code sum is a multiple of 7, with the reason at `sum % 4` of the page's list. Otherwise the verdict is ACTIVE. |
| PartyWorkspace.WorkspaceInvoice | pages/PartyWorkspace.tsx:98 | The invoice number is `inum` when truthy, else `N/A`. |
| PartyWorkspace.PendingFiles | pages/PartyWorkspace.tsx:61 | A file is in the result exactly when it is in the input with status Pending; order and multiplicity follow from PendingFilesSingle and PendingFilesAppend, which together fix the result as the in-order filter. |
| PartyWorkspace.PendingFilesSingle | pages/PartyWorkspace.tsx:61 | A single file is selected exactly when it is Pending. |
| PartyWorkspace.PendingFilesAppend | pages/PartyWorkspace.tsx:61 | The filter distributes over concatenation, so the pending files keep their order. |
| PartyWorkspace.HsnFileCaseInsensitive | pages/PartyWorkspace.tsx:76 | The HSN-file test ignores case. |
| PartyWorkspace.RowsSplit | pages/PartyWorkspace.tsx:74-78 | Every record goes to exactly one of the B2B and HSN collections. |
| PartyWorkspace.GatherRows | pages/PartyWorkspace.tsx:74-78 | The gathering loop puts the records of each pending file, in order, into the HSN collection when its name contains `hsn` and into the B2B collection otherwise. |
| PartyWorkspace.PartitionB2b | pages/PartyWorkspace.tsx:87-121 | The partition loop returns the kept invoices, the ledger and the B2C-small additions of the reference fold. |
| PartyWorkspace.ConvertHsnRow | pages/PartyWorkspace.tsx:129-135 | An HSN record changes only by the numeric conversion of `txval`, `iamt`, `camt` and `samt`. |
| PartyWorkspace.ConvertHsn | pages/PartyWorkspace.tsx:129-135 | Conversion keeps the number of HSN records and converts record `k` by itself. |
| PartyWorkspace.ConvertedValues | pages/PartyWorkspace.tsx:138-145 | After conversion the scanned value of a record is its numeric `txval`. |
| PartyWorkspace.RunComplianceProcess | pages/PartyWorkspace.tsx:60-188 | No pending files gives nothing to do. Otherwise the run returns the partition of the B2B records and the migrated amount (the sum of the ledger's taxable values). With errors and HSN records it also returns the converted HSN records and the index the highest-value scan selects; otherwise the HSN records come back as parsed. |

## Left out

- Reading files (`readFileAsText`), loading the template and writing the workbook (`loadTemplate`, `generateExcel`, `json_to_sheet`, `saveAs`) are not modelled. Files arrive as name and text, and the workbook is a map from sheet name to `Sheet` object.
- The `fetch` branch of `verifyGSTIN` is not modelled. It is switched off by a constant in the source.
- `await` is not modelled; verifier calls are plain sequential calls.
- The catch path of `processFiles` (services/gstr1Processor.ts:241-244) is not modelled, because none of the modelled steps throws.
- The party page's log messages, database writes, file-status updates, random ids and timestamps are not modelled. Neither are the progress messages and status strings of `processFiles`; only the percentages are kept.
- Numbers are exact reals, not IEEE doubles, so rounding is not modelled.
- `ParseFloat` reads sign, digits and a fraction. Exponents and `Infinity` are not read.
- Text that does not parse (NaN in the source) reads as 0 wherever the source goes on to use the number. In the ledgers of the compliance engine, a non-numeric `txval` would be NaN in the source and is 0 here.
- PartyWorkspace.RunComplianceProcess: an HSN record whose `txval` does not parse holds NaN in the source, which `NaN > maxVal` never selects; here it holds 0 and can be selected (HSN values `abc`, `0` give index 0 here and 1 in the source). The same holds for Compliance.HighestValueIndex as used by the compliance engine.
- Numbers.NumberText: never writes exponent form, while JavaScript writes `1e-7` and `1e+21`; for such numbers the text, and so the number-or-text choice of the append writer, differs from the source.
- Gstr1Processor.Percent: computed with exact integer half-up rounding of `60·processed/total`, not the floating-point `Math.round`.
- Compliance.StateCode: takes the first two code points where `substring(0, 2)` takes the first two UTF-16 code units. The result differs only for a party GSTIN with a character above U+FFFF among its first two: for `😀7…` the source gives `😀` alone, and for `A😀…` it gives `A` plus a lone high surrogate, which a Dafny string cannot hold. A valid GSTIN starts with two ASCII digits, for which both agree.
- Text.ToUpper: upper- and lower-casing cover the ASCII letters only.
- Gstr1Processor.ProcessFiles: requires that no two sheet names denote the same `Sheet` object, which holds for a workbook read from a template.
- ExcelGenerator.Sheet.AppendData: addresses are (row, column) pairs, so XLSX address encoding is not modelled. A value is written at its header's position `colIndex`, as in the source, not at `sc + colIndex`.
- The page's HSN adjustment only logs its target and amount. The model returns the target index and the amount instead of the log line.
- The types file and the template constant are not part of this model; the model defines its own datatypes for formats, mappings and progress.
