/**
 * The template sheet writer (services/excelGenerator.ts). A sheet is a grid of cells keyed
 * by (row, column), both counted from 0, plus its used range (`!ref`). Row 0 of the
 * template holds the column headers. Appending writes one sheet row per record below the
 * last row that holds data; the exempt-supplies sheet instead has a fixed row per
 * description, and a record fills the first row whose description matches its own.
 */
module ExcelGenerator {
  import opened Text
  import opened Values
  import opened CellFormat

  /** A decoded `!ref`: first and last row, first and last column, all inclusive. */
  datatype Range = Range(sr: nat, sc: nat, er: nat, ec: nat)

  /** `decode_range(sheet['!ref'] || 'A1')`: a sheet without a range is the single cell A1. */
  function RangeOf(ref: Option<Range>): Range {
    if ref.Some? then ref.value else Range(0, 0, 0, 0)
  }

  type Grid = map<(nat, nat), Cell>

  /** The cell at (r, c), if there is one. */
  function At(g: Grid, r: nat, c: nat): Option<Cell> {
    if (r, c) in g then Some(g[(r, c)]) else None
  }

  /** How a header or a description is read: the trimmed text of a truthy cell, else `''`. */
  function TextAt(g: Grid, r: nat, c: nat): string {
    if (r, c) in g then CellText(g[(r, c)]) else ""
  }

  /** The header names of the template: row 0, columns `sc` to `ec`, header `k` read from
      column `sc + k`. */
  function TemplateHeaders(g: Grid, rng: Range): (hs: seq<string>)
    ensures |hs| == if rng.sc <= rng.ec then rng.ec - rng.sc + 1 else 0
    ensures forall k :: 0 <= k < |hs| ==> hs[k] == TextAt(g, 0, rng.sc + k)
  {
    if rng.sc <= rng.ec then HeaderRow(g, rng.sc, rng.ec - rng.sc + 1) else []
  }

  /** The texts of the first `n` cells of row 0 from column `sc` on. */
  function HeaderRow(g: Grid, sc: nat, n: nat): (hs: seq<string>)
    ensures |hs| == n
  {
    seq(n, k requires 0 <= k < n => TextAt(g, 0, sc + k))
  }

  lemma HeaderRowSnoc(g: Grid, sc: nat, n: nat)
    ensures HeaderRow(g, sc, n + 1) == HeaderRow(g, sc, n) + [TextAt(g, 0, sc + n)]
  {
    assert forall k :: 0 <= k < n ==> HeaderRow(g, sc, n + 1)[k] == HeaderRow(g, sc, n)[k];
  }

  /** `cell && cell.v !== undefined && cell.v !== null && cell.v !== ''`: a zero counts. */
  predicate HasValue(g: Grid, r: nat, c: nat) {
    (r, c) in g && g[(r, c)] != TextCell("")
  }

  predicate RowHasData(g: Grid, rng: Range, r: nat) {
    exists c :: rng.sc <= c <= rng.ec && HasValue(g, r, c)
  }

  /** The last row among 1..`upTo` holding data in the range's columns, or 0 if none does. */
  function LastDataRow(g: Grid, rng: Range, upTo: nat): (last: nat)
    ensures last <= upTo
    ensures last > 0 ==> RowHasData(g, rng, last)
    ensures forall r :: last < r <= upTo ==> !RowHasData(g, rng, r)
  {
    if upTo == 0 then 0
    else if RowHasData(g, rng, upTo) then upTo
    else LastDataRow(g, rng, upTo - 1)
  }

  /** The first row written on append: the one after the last row holding data, or row 1. */
  function StartRow(g: Grid, rng: Range): nat {
    var last := LastDataRow(g, rng, rng.er);
    if last > 0 then last + 1 else 1
  }

  /** Appending never overwrites a row that holds data: every row from the start row to the
      end of the range is empty, and the start row is below the header row. */
  lemma StartRowIsFree(g: Grid, rng: Range)
    ensures StartRow(g, rng) >= 1
    ensures forall r :: StartRow(g, rng) <= r <= rng.er ==> !RowHasData(g, rng, r)
    ensures StartRow(g, rng) > 1 ==> RowHasData(g, rng, StartRow(g, rng) - 1)
  {
  }

  /** A column mapping: each CSV column with the template headers it may fill, in
      declaration order. A single header is a one-element list. */
  type Mapping = seq<(string, seq<string>)>

  /** The first mapping entry that targets `header` and whose CSV column the record has. */
  function Lookup(row: Row, mapping: Mapping, header: string): (v: Value)
    ensures v == Str("") || exists j :: 0 <= j < |mapping| && Supplies(row, mapping, header, j) && v == row[mapping[j].0]
  {
    if mapping == [] then Str("")
    else if header in mapping[0].1 && mapping[0].0 in row then
      assert Supplies(row, mapping, header, 0);
      row[mapping[0].0]
    else
      var v := Lookup(row, mapping[1..], header);
      assert v == Str("") || exists j :: 0 <= j < |mapping| && Supplies(row, mapping, header, j) && v == row[mapping[j].0] by {
        if v != Str("") {
          var j :| 0 <= j < |mapping| - 1 && Supplies(row, mapping[1..], header, j) && v == row[mapping[1..][j].0];
          assert Supplies(row, mapping, header, j + 1);
        }
      }
      v
  }

  /** Whether entry `k` of the mapping supplies `header` for this record. */
  predicate Supplies(row: Row, mapping: Mapping, header: string, k: nat)
    requires k < |mapping|
  {
    header in mapping[k].1 && mapping[k].0 in row
  }

  /** The value a record gives to a template column: the record's own column of that name
      when present (even if empty), else the first mapped column present, else `''`. The
      value always comes from the record itself, or is `''`. */
  function Resolve(row: Row, mapping: Mapping, header: string): (v: Value)
    ensures header in row ==> v == row[header]
    ensures header !in row ==>
      v == Str("") || exists j :: 0 <= j < |mapping| && Supplies(row, mapping, header, j) && v == row[mapping[j].0]
  {
    if header in row then row[header] else Lookup(row, mapping, header)
  }

  /** With no column of the header's name, the first supplying entry wins. */
  lemma {:induction false} ResolveFirst(row: Row, mapping: Mapping, header: string, k: nat)
    requires header !in row && k < |mapping| && Supplies(row, mapping, header, k)
    requires forall j :: 0 <= j < k ==> !Supplies(row, mapping, header, j)
    ensures Resolve(row, mapping, header) == row[mapping[k].0]
  {
    LookupFirst(row, mapping, header, k);
  }

  lemma {:induction false} LookupFirst(row: Row, mapping: Mapping, header: string, k: nat)
    requires k < |mapping| && Supplies(row, mapping, header, k)
    requires forall j :: 0 <= j < k ==> !Supplies(row, mapping, header, j)
    ensures Lookup(row, mapping, header) == row[mapping[k].0]
  {
    if k > 0 {
      assert !Supplies(row, mapping, header, 0);
      forall j | 0 <= j < k - 1
        ensures !Supplies(row, mapping[1..], header, j)
      {
        assert !Supplies(row, mapping, header, j + 1);
      }
      LookupFirst(row, mapping[1..], header, k - 1);
    }
  }

  /** With no column of the header's name and no supplying entry, the value is `''`. */
  lemma {:induction false} ResolveNone(row: Row, mapping: Mapping, header: string)
    requires header !in row
    requires forall j :: 0 <= j < |mapping| ==> !Supplies(row, mapping, header, j)
    ensures Resolve(row, mapping, header) == Str("")
  {
    LookupNone(row, mapping, header);
  }

  lemma {:induction false} LookupNone(row: Row, mapping: Mapping, header: string)
    requires forall j :: 0 <= j < |mapping| ==> !Supplies(row, mapping, header, j)
    ensures Lookup(row, mapping, header) == Str("")
  {
    if mapping != [] {
      assert !Supplies(row, mapping, header, 0);
      forall j | 0 <= j < |mapping| - 1
        ensures !Supplies(row, mapping[1..], header, j)
      {
        assert !Supplies(row, mapping, header, j + 1);
      }
      LookupNone(row, mapping[1..], header);
    }
  }

  datatype WriteMode = AppendMode | ExemptMode

  /** Column `c` is written when its header is non-empty; the exempt sheet also keeps its
      description column 0. */
  predicate Writes(mode: WriteMode, headers: seq<string>, c: nat)
    requires c < |headers|
  {
    headers[c] != "" && (mode == AppendMode || c != 0)
  }

  function CellFor(mode: WriteMode, header: string, v: Value): Cell {
    match mode
    case AppendMode => AppendCell(header, v)
    case ExemptMode => ExemptCell(v)
  }

  /** The cell a record puts in column `c`. */
  function NewCell(mode: WriteMode, headers: seq<string>, c: nat, row: Row, mapping: Mapping): Cell
    requires c < |headers|
  {
    CellFor(mode, headers[c], Resolve(row, mapping, headers[c]))
  }

  /** `h` keeps every cell position of `g`, and the cells it adds lie in rows `lo` to `hi`. */
  predicate AddsRows(g: Grid, h: Grid, lo: nat, hi: int) {
    g.Keys <= h.Keys && forall p | p in h && p !in g :: lo <= p.0 <= hi
  }

  /** The grid after a record is written into sheet row `r`, columns 0 to `n - 1`. Header `k`
      is written to column `k`, whatever the range's first column. */
  function WriteRow(g: Grid, r: nat, headers: seq<string>, n: nat, row: Row, mapping: Mapping, mode: WriteMode): (w: Grid)
    requires n <= |headers|
    ensures AddsRows(g, w, r, r)
  {
    if n == 0 then g
    else
      var h := WriteRow(g, r, headers, n - 1, row, mapping, mode);
      if Writes(mode, headers, n - 1) then h[(r, n - 1) := NewCell(mode, headers, n - 1, row, mapping)] else h
  }

  /** Writing a record changes exactly the written columns of its row. */
  lemma {:induction false} WriteRowAt(g: Grid, r: nat, headers: seq<string>, n: nat, row: Row, mapping: Mapping,
                                      mode: WriteMode, r': nat, c': nat)
    requires n <= |headers|
    ensures At(WriteRow(g, r, headers, n, row, mapping, mode), r', c')
      == if r' == r && c' < n && Writes(mode, headers, c') then Some(NewCell(mode, headers, c', row, mapping))
         else At(g, r', c')
  {
    if n > 0 {
      WriteRowAt(g, r, headers, n - 1, row, mapping, mode, r', c');
    }
  }

  /** The grid after `data` is appended from row `start` on, one sheet row per record. */
  function Appended(g: Grid, start: nat, headers: seq<string>, data: seq<Row>, mapping: Mapping): (w: Grid)
    ensures AddsRows(g, w, start, start + |data| - 1)
  {
    if data == [] then g
    else
      var h := Appended(g, start, headers, data[..|data| - 1], mapping);
      WriteRow(h, start + |data| - 1, headers, |headers|, data[|data| - 1], mapping, AppendMode)
  }

  /** Record `i` lands in row `start + i`; column `c` gets the cleaned value the record gives
      to header `c` when that header is non-empty; every other cell is unchanged. */
  lemma {:induction false} AppendedAt(g: Grid, start: nat, headers: seq<string>, data: seq<Row>, mapping: Mapping,
                                      r: nat, c: nat)
    ensures At(Appended(g, start, headers, data, mapping), r, c)
      == if start <= r < start + |data| && c < |headers| && headers[c] != ""
         then Some(AppendCell(headers[c], Resolve(data[r - start], mapping, headers[c])))
         else At(g, r, c)
  {
    if data != [] {
      var init := data[..|data| - 1];
      AppendedAt(g, start, headers, init, mapping, r, c);
      var h := Appended(g, start, headers, init, mapping);
      WriteRowAt(h, start + |data| - 1, headers, |headers|, data[|data| - 1], mapping, AppendMode, r, c);
      if start <= r < start + |data| - 1 {
        assert data[r - start] == init[r - start];
      }
    }
  }

  /** `(csvRow['Description'] || '').toString().trim()`. */
  function Description(row: Row): string {
    Trim(ValueText(Or(Get(row, "Description"), Str(""))))
  }

  /** The description column of the template: entry `k` is the text of row `k + 1`. */
  function Descriptions(g: Grid, er: nat): (ds: seq<string>)
    ensures |ds| == er
  {
    seq(er, k requires 0 <= k => TextAt(g, k + 1, 0))
  }

  /** The first position of `desc` in `ds`. */
  function FirstIndex(ds: seq<string>, desc: string): (i: Option<nat>)
    ensures i.Some? ==> i.value < |ds|
  {
    if ds == [] then None
    else if ds[0] == desc then Some(0)
    else match FirstIndex(ds[1..], desc)
      case None => None
      case Some(j) => Some(j + 1)
  }

  /** `FirstIndex` finds the first occurrence, and finds none only when there is none. */
  lemma {:induction false} FirstIndexSpec(ds: seq<string>, desc: string)
    ensures var i := FirstIndex(ds, desc);
      (i.Some? ==> i.value < |ds| && ds[i.value] == desc && forall k :: 0 <= k < i.value ==> ds[k] != desc)
      && (i.None? ==> desc !in ds)
  {
    if ds != [] && ds[0] != desc {
      FirstIndexSpec(ds[1..], desc);
      assert ds == [ds[0]] + ds[1..];
    }
  }

  /** The first row among 1..`er` whose column-0 text is `desc`. */
  function DescRow(g: Grid, desc: string, er: nat): (r: Option<nat>)
    ensures r.Some? ==> 1 <= r.value <= er
  {
    match FirstIndex(Descriptions(g, er), desc)
    case None => None
    case Some(k) => Some(k + 1)
  }

  /** A row whose description is `desc`, with none above it reading so, is the one found. */
  lemma DescRowFound(g: Grid, desc: string, er: nat, row: nat)
    requires 1 <= row <= er && TextAt(g, row, 0) == desc
    requires forall k :: 1 <= k < row ==> TextAt(g, k, 0) != desc
    ensures DescRow(g, desc, er) == Some(row)
  {
    var ds := Descriptions(g, er);
    DescriptionAt(g, er, row - 1);
    forall k | 0 <= k < row - 1
      ensures ds[k] != desc
    {
      DescriptionAt(g, er, k);
    }
    FirstIndexAt(ds, desc, row - 1);
  }

  /** No row among 1..`er` reads `desc`: nothing is found. */
  lemma DescRowNone(g: Grid, desc: string, er: nat)
    requires forall k :: 1 <= k <= er ==> TextAt(g, k, 0) != desc
    ensures DescRow(g, desc, er) == None
  {
    var ds := Descriptions(g, er);
    forall k | 0 <= k < er
      ensures ds[k] != desc
    {
      DescriptionAt(g, er, k);
    }
    FirstIndexSpec(ds, desc);
  }

  /** The first occurrence is the one `FirstIndex` finds. */
  lemma FirstIndexAt(ds: seq<string>, desc: string, j: nat)
    requires j < |ds| && ds[j] == desc
    requires forall k :: 0 <= k < j ==> ds[k] != desc
    ensures FirstIndex(ds, desc) == Some(j)
  {
    FirstIndexSpec(ds, desc);
  }

  /** The grid after a record fills template row `target`, if it was matched. */
  function FillRow(h: Grid, target: Option<nat>, headers: seq<string>, row: Row, mapping: Mapping): (w: Grid)
    ensures target.None? ==> w == h
    ensures target.Some? ==> AddsRows(h, w, target.value, target.value)
  {
    match target
    case None => h
    case Some(r) => WriteRow(h, r, headers, |headers|, row, mapping, ExemptMode)
  }

  /** The description of each record, in order. */
  function RecordDescriptions(data: seq<Row>): (ds: seq<string>)
    ensures |ds| == |data|
  {
    seq(|data|, j requires 0 <= j < |data| => Description(data[j]))
  }

  /** The grid after each record in turn fills the first template row, among rows 1 to
      `er`, whose description is the record's own (`descs[j]` for record `j`). */
  function Exempted(g: Grid, er: nat, headers: seq<string>, data: seq<Row>, descs: seq<string>, mapping: Mapping): (w: Grid)
    requires |descs| == |data|
    ensures AddsRows(g, w, 1, er)
  {
    if data == [] then g
    else
      var n := |data|;
      var h := Exempted(g, er, headers, data[..n - 1], descs[..n - 1], mapping);
      FillRow(h, DescRow(h, descs[n - 1], er), headers, data[n - 1], mapping)
  }

  /** Updating the exempt sheet never touches column 0, so the descriptions a record is
      matched against are always the template's own. */
  lemma {:induction false} ExemptedKeepsDescriptions(g: Grid, er: nat, headers: seq<string>, data: seq<Row>,
                                                     descs: seq<string>, mapping: Mapping, r: nat)
    requires |descs| == |data|
    ensures At(Exempted(g, er, headers, data, descs, mapping), r, 0) == At(g, r, 0)
  {
    if data != [] {
      var n := |data|;
      var h := Exempted(g, er, headers, data[..n - 1], descs[..n - 1], mapping);
      ExemptedKeepsDescriptions(g, er, headers, data[..n - 1], descs[..n - 1], mapping, r);
      match DescRow(h, descs[n - 1], er)
      case None =>
      case Some(k) =>
        WriteRowAt(h, k, headers, |headers|, data[n - 1], mapping, ExemptMode, r, 0);
    }
  }

  lemma SameDescriptions(g: Grid, h: Grid, er: nat)
    requires forall r :: At(h, r, 0) == At(g, r, 0)
    ensures Descriptions(h, er) == Descriptions(g, er)
  {
    forall k | 0 <= k < er
      ensures Descriptions(h, er)[k] == Descriptions(g, er)[k]
    {
      TextAtSame(g, h, k + 1, 0);
      DescriptionAt(g, er, k);
      DescriptionAt(h, er, k);
    }
  }

  lemma DescriptionAt(g: Grid, er: nat, k: nat)
    requires k < er
    ensures Descriptions(g, er)[k] == TextAt(g, k + 1, 0)
  {
  }

  lemma TextAtSame(g: Grid, h: Grid, r: nat, c: nat)
    requires At(h, r, c) == At(g, r, c)
    ensures TextAt(h, r, c) == TextAt(g, r, c)
  {
    if (r, c) in g {
      assert At(g, r, c) == Some(g[(r, c)]);
    }
  }

  lemma DescRowSame(g: Grid, h: Grid, d: string, er: nat)
    requires Descriptions(h, er) == Descriptions(g, er)
    ensures DescRow(h, d, er) == DescRow(g, d, er)
  {
  }

  /** The template row each record of the exempt sheet fills, matched on the template. */
  function Targets(g: Grid, er: nat, descs: seq<string>): (ts: seq<Option<nat>>)
    ensures |ts| == |descs|
  {
    seq(|descs|, j requires 0 <= j < |descs| => DescRow(g, descs[j], er))
  }

  /** The last position holding `Some(r)`, if any. */
  function LastFor(ts: seq<Option<nat>>, r: nat): (k: Option<nat>)
    ensures k.Some? ==> k.value < |ts| && ts[k.value] == Some(r)
    ensures k.Some? ==> forall j :: k.value < j < |ts| ==> ts[j] != Some(r)
    ensures k.None? ==> Some(r) !in ts
  {
    if ts == [] then None
    else if ts[|ts| - 1] == Some(r) then Some(|ts| - 1)
    else
      var k := LastFor(ts[..|ts| - 1], r);
      assert ts == ts[..|ts| - 1] + [ts[|ts| - 1]];
      k
  }

  lemma ExemptedSnoc(g: Grid, er: nat, headers: seq<string>, data: seq<Row>, descs: seq<string>, mapping: Mapping, i: nat)
    requires |descs| == |data| && i < |data|
    ensures var h := Exempted(g, er, headers, data[..i], descs[..i], mapping);
      Exempted(g, er, headers, data[..i + 1], descs[..i + 1], mapping)
      == FillRow(h, DescRow(h, descs[i], er), headers, data[i], mapping)
  {
    assert data[..i + 1][..i] == data[..i] && descs[..i + 1][..i] == descs[..i];
  }

  /** The last record is matched against the template's descriptions, not the updated ones. */
  lemma ExemptedStep(g: Grid, er: nat, headers: seq<string>, data: seq<Row>, descs: seq<string>, mapping: Mapping)
    requires |descs| == |data| && data != []
    ensures var n := |data|;
      Exempted(g, er, headers, data, descs, mapping)
      == FillRow(Exempted(g, er, headers, data[..n - 1], descs[..n - 1], mapping), DescRow(g, descs[n - 1], er),
                 headers, data[n - 1], mapping)
  {
    var n := |data|;
    var h := Exempted(g, er, headers, data[..n - 1], descs[..n - 1], mapping);
    forall r0 ensures At(h, r0, 0) == At(g, r0, 0) {
      ExemptedKeepsDescriptions(g, er, headers, data[..n - 1], descs[..n - 1], mapping, r0);
    }
    SameDescriptions(g, h, er);
    DescRowSame(g, h, descs[n - 1], er);
    assert Exempted(g, er, headers, data, descs, mapping) == FillRow(h, DescRow(h, descs[n - 1], er), headers, data[n - 1], mapping);
  }

  /** The content of cell (r, c) after the exempt update, as stated by `ExemptedAt`. */
  function ExemptedCell(g: Grid, er: nat, headers: seq<string>, data: seq<Row>, descs: seq<string>,
                        mapping: Mapping, r: nat, c: nat): Option<Cell>
    requires |descs| == |data|
  {
    var k := LastFor(Targets(g, er, descs), r);
    if c < |headers| && Writes(ExemptMode, headers, c) && k.Some?
    then Some(ExemptCell(Resolve(data[k.value], mapping, headers[c])))
    else At(g, r, c)
  }

  /** A cell of the exempt sheet holds the value of the last record matched to its row when
      its column has a header and is not the description column; every other cell keeps
      its template content. */
  lemma {:induction false} ExemptedAt(g: Grid, er: nat, headers: seq<string>, data: seq<Row>, descs: seq<string>,
                                      mapping: Mapping, r: nat, c: nat)
    requires |descs| == |data|
    ensures var k := LastFor(Targets(g, er, descs), r);
      At(Exempted(g, er, headers, data, descs, mapping), r, c)
      == if c < |headers| && Writes(ExemptMode, headers, c) && k.Some?
         then Some(ExemptCell(Resolve(data[k.value], mapping, headers[c])))
         else At(g, r, c)
  {
    if data != [] {
      var n := |data|;
      ExemptedAt(g, er, headers, data[..n - 1], descs[..n - 1], mapping, r, c);
      ExemptedStep(g, er, headers, data, descs, mapping);
      var ts := Targets(g, er, descs);
      assert ts[..n - 1] == Targets(g, er, descs[..n - 1]);
      var h := Exempted(g, er, headers, data[..n - 1], descs[..n - 1], mapping);
      var full := Exempted(g, er, headers, data, descs, mapping);
      if ts[n - 1] == Some(r) {
        ExemptedAtHit(g, er, headers, data, descs, mapping, r, c, h, full);
      } else {
        ExemptedAtMiss(g, er, headers, data, descs, mapping, r, c, h, full);
      }
    }
  }

  /** The last record is matched to row `r`: its values are in the row. */
  lemma ExemptedAtHit(g: Grid, er: nat, headers: seq<string>, data: seq<Row>, descs: seq<string>,
                      mapping: Mapping, r: nat, c: nat, h: Grid, full: Grid)
    requires |descs| == |data| && data != []
    requires var n := |data|;
      At(h, r, c) == ExemptedCell(g, er, headers, data[..n - 1], descs[..n - 1], mapping, r, c)
    requires full == WriteRow(h, r, headers, |headers|, data[|data| - 1], mapping, ExemptMode)
    requires Targets(g, er, descs)[|data| - 1] == Some(r)
    ensures At(full, r, c) == ExemptedCell(g, er, headers, data, descs, mapping, r, c)
  {
    var n := |data|;
    var ts := Targets(g, er, descs);
    assert LastFor(ts, r) == Some(n - 1);
    WriteRowAt(h, r, headers, |headers|, data[n - 1], mapping, ExemptMode, r, c);
    if !(c < |headers| && Writes(ExemptMode, headers, c)) {
      assert At(h, r, c) == At(g, r, c);
    }
  }

  /** The last record is not matched to row `r`: the row is as the earlier records left it. */
  lemma ExemptedAtMiss(g: Grid, er: nat, headers: seq<string>, data: seq<Row>, descs: seq<string>,
                       mapping: Mapping, r: nat, c: nat, h: Grid, full: Grid)
    requires |descs| == |data| && data != []
    requires var n := |data|;
      At(h, r, c) == ExemptedCell(g, er, headers, data[..n - 1], descs[..n - 1], mapping, r, c)
    requires full == FillRow(h, DescRow(g, descs[|data| - 1], er), headers, data[|data| - 1], mapping)
    requires Targets(g, er, descs)[|data| - 1] != Some(r)
    requires Targets(g, er, descs)[..|data| - 1] == Targets(g, er, descs[..|data| - 1])
    ensures At(full, r, c) == ExemptedCell(g, er, headers, data, descs, mapping, r, c)
  {
    var n := |data|;
    var ts := Targets(g, er, descs);
    assert LastFor(ts, r) == LastFor(ts[..n - 1], r);
    match DescRow(g, descs[n - 1], er)
    case None =>
    case Some(t) =>
      WriteRowAt(h, t, headers, |headers|, data[n - 1], mapping, ExemptMode, r, c);
  }

  /** The contents of a worksheet as a value: its cells and its used range. */
  datatype SheetState = SheetState(cells: Grid, ref: Option<Range>)

  /** The sheet after `appendDataToSheet`: no records leave it as it was; otherwise the
      records are written from the start row on and the range ends at the last of them. */
  function AfterAppend(st: SheetState, data: seq<Row>, mapping: Mapping): (r: SheetState)
    ensures data == [] ==> r == st
    ensures AddsRows(st.cells, r.cells, 1, RangeOf(r.ref).er)
    ensures data != [] ==> (r.ref.Some? && r.ref.value.sr == RangeOf(st.ref).sr
                            && r.ref.value.sc == RangeOf(st.ref).sc && r.ref.value.ec == RangeOf(st.ref).ec)
  {
    StartRowIsFree(st.cells, RangeOf(st.ref));
    if data == [] then st
    else
      var rng := RangeOf(st.ref);
      var start := StartRow(st.cells, rng);
      SheetState(Appended(st.cells, start, TemplateHeaders(st.cells, rng), data, mapping),
                 Some(Range(rng.sr, rng.sc, start + |data| - 1, rng.ec)))
  }

  /** The sheet after `updateExemptSheet`: matched template rows are filled, the range is kept. */
  function AfterExempt(st: SheetState, data: seq<Row>, mapping: Mapping): (r: SheetState)
    ensures r.ref == st.ref
    ensures AddsRows(st.cells, r.cells, 1, RangeOf(st.ref).er)
  {
    var rng := RangeOf(st.ref);
    SheetState(Exempted(st.cells, rng.er, TemplateHeaders(st.cells, rng), data, RecordDescriptions(data), mapping),
               st.ref)
  }

  /** A worksheet: its cells and its used range. */
  class Sheet {
    var cells: Grid
    var ref: Option<Range>

    constructor (cells: Grid, ref: Option<Range>)
      ensures this.cells == cells && this.ref == ref
    {
      this.cells := cells;
      this.ref := ref;
    }

    function State(): SheetState
      reads this
    {
      SheetState(cells, ref)
    }

    /** Reads the header row of the range. */
    method ReadHeaders(rng: Range) returns (headers: seq<string>)
      ensures headers == TemplateHeaders(cells, rng)
    {
      var g := cells;
      headers := [];
      var col := rng.sc;
      while col <= rng.ec
        invariant rng.sc <= col <= if rng.sc <= rng.ec then rng.ec + 1 else rng.sc
        invariant headers == HeaderRow(g, rng.sc, col - rng.sc)
      {
        HeaderRowSnoc(g, rng.sc, col - rng.sc);
        headers := headers + [TextAt(g, 0, col)];
        col := col + 1;
      }
    }

    /** Whether any cell of row `r` in the range's columns holds a value. */
    method RowHasValue(rng: Range, r: nat) returns (hasData: bool)
      ensures hasData <==> RowHasData(cells, rng, r)
    {
      hasData := false;
      var col := rng.sc;
      while col <= rng.ec
        invariant rng.sc <= col && !hasData
        invariant forall c :: rng.sc <= c < col ==> !HasValue(cells, r, c)
      {
        if (r, col) in cells && cells[(r, col)] != TextCell("") {
          assert HasValue(cells, r, col);
          hasData := true;
          break;
        }
        col := col + 1;
      }
    }

    /** The last row among 1..`rng.er` that holds data, or 0. */
    method FindLastDataRow(rng: Range) returns (last: nat)
      ensures last == LastDataRow(cells, rng, rng.er)
    {
      last := 0;
      var row := 1;
      while row <= rng.er
        invariant 1 <= row <= rng.er + 1 || (row == 1 && rng.er == 0)
        invariant last == LastDataRow(cells, rng, row - 1)
      {
        var hasData := RowHasValue(rng, row);
        if hasData {
          last := row;
        }
        row := row + 1;
      }
    }

    /** `appendDataToSheet`: each record is written to the next free row below the data
        already in the sheet, and the range is extended down to the last written row. */
    method AppendData(data: seq<Row>, mapping: Mapping)
      modifies this
      ensures State() == AfterAppend(old(State()), data, mapping)
    {
      if |data| == 0 {
        return;
      }
      var rng := RangeOf(ref);
      var headers := ReadHeaders(rng);
      var startRow := 1;
      var last := FindLastDataRow(rng);
      if last > 0 {
        startRow := last + 1;
      }
      AppendRecords(startRow, headers, data, mapping);
      ref := Some(Range(rng.sr, rng.sc, startRow + |data| - 1, rng.ec));
    }

    /** Record `i` is written to row `startRow + i`. */
    method AppendRecords(startRow: nat, headers: seq<string>, data: seq<Row>, mapping: Mapping)
      modifies this
      ensures cells == Appended(old(cells), startRow, headers, data, mapping)
      ensures ref == old(ref)
    {
      var i := 0;
      while i < |data|
        invariant i <= |data|
        invariant cells == Appended(old(cells), startRow, headers, data[..i], mapping)
        invariant ref == old(ref)
      {
        assert data[..i + 1][..i] == data[..i];
        AppendRecord(startRow + i, headers, data[i], mapping);
        i := i + 1;
      }
      assert data[..i] == data;
    }

    /** The cells of row `r` under non-empty headers get the record's cleaned values. */
    method AppendRecord(r: nat, headers: seq<string>, row: Row, mapping: Mapping)
      modifies this
      ensures cells == WriteRow(old(cells), r, headers, |headers|, row, mapping, AppendMode)
      ensures ref == old(ref)
    {
      var j := 0;
      while j < |headers|
        invariant j <= |headers|
        invariant cells == WriteRow(old(cells), r, headers, j, row, mapping, AppendMode)
        invariant ref == old(ref)
      {
        if headers[j] != "" {
          var v := ResolveValue(row, mapping, headers[j]);
          cells := cells[(r, j) := AppendCell(headers[j], v)];
        }
        j := j + 1;
      }
    }

    /** `updateExemptSheet`: each record fills the first template row, among rows 1 to the
        range's last row, whose description matches its own; the range is unchanged. */
    method UpdateExempt(data: seq<Row>, mapping: Mapping)
      modifies this
      ensures State() == AfterExempt(old(State()), data, mapping)
    {
      if |data| == 0 {
        return;
      }
      var rng := RangeOf(ref);
      var headers := ReadHeaders(rng);
      FillRecords(data, headers, rng.er, mapping);
    }

    /** Each record in turn fills its matched template row. */
    method FillRecords(data: seq<Row>, headers: seq<string>, er: nat, mapping: Mapping)
      modifies this
      ensures cells == Exempted(old(cells), er, headers, data, RecordDescriptions(data), mapping)
      ensures ref == old(ref)
    {
      var i := 0;
      while i < |data|
        invariant i <= |data|
        invariant cells == Exempted(old(cells), er, headers, data[..i], RecordDescriptions(data)[..i], mapping)
        invariant ref == old(ref)
      {
        ExemptedSnoc(old(cells), er, headers, data, RecordDescriptions(data), mapping, i);
        var target := MatchDescription(data, i, er);
        FillRecord(data[i], target, headers, mapping);
        i := i + 1;
      }
      assert data[..i] == data && RecordDescriptions(data)[..i] == RecordDescriptions(data);
    }

    /** The template row record `i` is matched to, by its description. */
    method MatchDescription(data: seq<Row>, i: nat, er: nat) returns (target: Option<nat>)
      requires i < |data|
      ensures target == DescRow(cells, RecordDescriptions(data)[i], er)
    {
      var desc := Description(data[i]);
      target := FindDescRow(desc, er);
    }

    /** Writes a record into its matched template row, column by column. */
    method FillRecord(row: Row, target: Option<nat>, headers: seq<string>, mapping: Mapping)
      modifies this
      ensures cells == FillRow(old(cells), target, headers, row, mapping)
      ensures ref == old(ref)
    {
      if target.Some? {
        var j := 0;
        while j < |headers|
          invariant j <= |headers|
          invariant cells == WriteRow(old(cells), target.value, headers, j, row, mapping, ExemptMode)
          invariant ref == old(ref)
        {
          if headers[j] != "" && j != 0 {
            var v := ResolveValue(row, mapping, headers[j]);
            cells := cells[(target.value, j) := ExemptCell(v)];
          }
          j := j + 1;
        }
      }
    }

    /** The first row among 1..`er` whose description cell reads `desc`. */
    method FindDescRow(desc: string, er: nat) returns (target: Option<nat>)
      ensures target == DescRow(cells, desc, er)
    {
      var row := 1;
      while row <= er
        invariant 1 <= row <= er + 1
        invariant forall k :: 1 <= k < row ==> TextAt(cells, k, 0) != desc
      {
        var text := TextAt(cells, row, 0);
        if text == desc {
          DescRowFound(cells, desc, er, row);
          return Some(row);
        }
        row := row + 1;
      }
      DescRowNone(cells, desc, er);
      return None;
    }
  }

  /** The value a record gives to a template column, looked up as the source does. */
  method ResolveValue(row: Row, mapping: Mapping, header: string) returns (v: Value)
    ensures v == Resolve(row, mapping, header)
  {
    v := Str("");
    if header in row {
      v := row[header];
    } else {
      var i := 0;
      while i < |mapping|
        invariant i <= |mapping| && v == Str("")
        invariant Lookup(row, mapping[i..], header) == Lookup(row, mapping, header)
      {
        assert mapping[i..][0] == mapping[i];
        if header in mapping[i].1 && mapping[i].0 in row {
          v := row[mapping[i].0];
          break;
        }
        assert mapping[i..][1..] == mapping[i + 1..];
        i := i + 1;
      }
    }
  }
}
