/**
 * The GSTR-1 reclassification engine (services/compliance.ts).
 *
 * Every B2B row is checked with a GSTIN verifier. A row whose GSTIN fails goes to an error
 * ledger, and a B2C-small row of type "OE" is made from it; the taxable value moved is
 * accumulated. Rows that pass are kept unchanged. The rules are shared with the copy of
 * the engine inlined in the party workspace page, which differs only in its verifier, its
 * invoice-number fallback and where the party's state code comes from; `Rules` carries
 * those three choices.
 */
module Compliance {
  import opened Text
  import opened Values

  datatype Reason = Active | Cancelled | NotFound | Inactive | Suspended | InvalidFormat

  /** The reason strings reported to the user. */
  function ReasonText(r: Reason): string {
    match r
    case Active => "ACTIVE"
    case Cancelled => "CANCELLED"
    case NotFound => "NOT_FOUND"
    case Inactive => "INACTIVE"
    case Suspended => "SUSPENDED"
    case InvalidFormat => "INVALID_FORMAT"
  }

  datatype Verdict = Verdict(valid: bool, reason: Reason)

  /** The reasons the simulated service draws a failure from, in its order. */
  const MockErrors: seq<Reason> := [Cancelled, NotFound, Inactive, Suspended]

  /** The seed of the simulated verifiers: the sum of the UTF-16 code units. */
  function Seed(s: string): nat {
    Sum(Utf16Units(s))
  }

  /** A GSTIN the simulated verifiers accept for a lookup: a non-empty text of exactly
      fifteen UTF-16 code units. A number has no `length` and never qualifies. */
  predicate WellFormed(g: Value) {
    g.Str? && g.s != "" && |Utf16Units(g.s)| == 15
  }

  /** `verifyGSTIN` with the backend switched off: a malformed identifier is
      `INVALID_FORMAT`; otherwise the seed decides, failing when it is a multiple of 8. */
  function VerifyGstin(g: Value): (r: Verdict)
    ensures r.valid <==> r.reason == Active
    ensures r.reason == InvalidFormat <==> !WellFormed(g)
  {
    if !WellFormed(g) then Verdict(false, InvalidFormat)
    else
      var seed := Seed(g.s);
      if seed % 8 == 0 then Verdict(false, MockErrors[seed % 4]) else Verdict(true, Active)
  }

  lemma EightDividesFour(n: nat)
    requires n % 8 == 0
    ensures n % 4 == 0
  {
    assert n == 8 * (n / 8);
  }

  /** A well-formed GSTIN fails exactly when its seed is a multiple of 8, and then always
      with `CANCELLED`: a multiple of 8 is a multiple of 4, so the other mock reasons are
      never drawn. */
  lemma VerifyGstinOutcomes(g: Value)
    requires WellFormed(g)
    ensures !VerifyGstin(g).valid <==> Seed(g.s) % 8 == 0
    ensures !VerifyGstin(g).valid ==> VerifyGstin(g).reason == Cancelled
    ensures VerifyGstin(g).reason !in {NotFound, Inactive, Suspended}
  {
    var seed := Seed(g.s);
    if seed % 8 == 0 {
      EightDividesFour(seed);
    }
  }

  /** The verdict depends on the identifier only through its seed. */
  lemma VerdictBySeed(g: Value, h: Value)
    requires WellFormed(g) && WellFormed(h) && Seed(g.s) == Seed(h.s)
    ensures VerifyGstin(h) == VerifyGstin(g)
  {
  }

  /** The identifier a row is verified under: `ctin`, else `gstin`, else `''`. */
  function RowGstin(row: Row): (g: Value)
    ensures "ctin" in row && Truthy(row["ctin"]) ==> g == row["ctin"]
    ensures !("ctin" in row && Truthy(row["ctin"])) && "gstin" in row && Truthy(row["gstin"]) ==> g == row["gstin"]
    ensures !("ctin" in row && Truthy(row["ctin"])) && !("gstin" in row && Truthy(row["gstin"])) ==> g == Str("")
  {
    Or(Get(row, "ctin"), Or(Get(row, "gstin"), Str("")))
  }

  /** The choices in which the two copies of the engine differ. */
  datatype Rules = Rules(
    verify: Value -> Verdict,      // the GSTIN verifier
    invoice: Row -> Value,         // the invoice number written to the error ledger
    partyPrefix: Option<string>)   // the first two characters of the party's GSTIN, if known

  function Check(rules: Rules, row: Row): Verdict {
    rules.verify(RowGstin(row))
  }

  predicate Passes(rules: Rules, row: Row) {
    Check(rules, row).valid
  }

  /** `parseFloat(row[key] || 0)`. */
  function Amount(row: Row, key: string): real {
    NumberOrZero(Get(row, key))
  }

  /** The error-ledger entry of a failing row. */
  function ErrorEntry(rules: Rules, row: Row): (e: Row)
    ensures e.Keys == {"Invoice Number", "GSTIN", "Error Reason", "Taxable Value", "CGST", "SGST", "IGST", "GST Rate"}
    ensures e["Invoice Number"] == rules.invoice(row)
    ensures e["GSTIN"] == RowGstin(row)
    ensures e["Error Reason"] == Str(ReasonText(Check(rules, row).reason))
    ensures e["Taxable Value"] == Num(NumberOrZero(Get(row, "txval")))
    ensures e["CGST"] == Num(NumberOrZero(Get(row, "camt")))
    ensures e["SGST"] == Num(NumberOrZero(Get(row, "samt")))
    ensures e["IGST"] == Num(NumberOrZero(Get(row, "iamt")))
    ensures "rt" in row && Truthy(row["rt"]) ==> e["GST Rate"] == row["rt"]
    ensures !("rt" in row && Truthy(row["rt"])) ==> e["GST Rate"] == Num(0.0)
  {
    map[
      "Invoice Number" := rules.invoice(row),
      "GSTIN" := RowGstin(row),
      "Error Reason" := Str(ReasonText(Check(rules, row).reason)),
      "Taxable Value" := Num(Amount(row, "txval")),
      "CGST" := Num(Amount(row, "camt")),
      "SGST" := Num(Amount(row, "samt")),
      "IGST" := Num(Amount(row, "iamt")),
      "GST Rate" := Or(Get(row, "rt"), Num(0.0))]
  }

  /** The B2C-small row made from a failing row. */
  function MigratedRow(rules: Rules, row: Row): (m: Row)
    ensures m.Keys == {"pos", "rt", "txval", "iamt", "camt", "samt", "type"}
  {
    map[
      "pos" := Or(Get(row, "pos"),
                  Or(if rules.partyPrefix.Some? then Some(Str(rules.partyPrefix.value)) else None, Str("01"))),
      "rt" := Or(Get(row, "rt"), Num(0.0)),
      "txval" := Num(Amount(row, "txval")),
      "iamt" := Num(Amount(row, "iamt")),
      "camt" := Num(Amount(row, "camt")),
      "samt" := Num(Amount(row, "samt")),
      "type" := Str("OE")]
  }

  /** A migrated row always has type `OE` and a non-empty place of supply: the row's own
      `pos` when truthy, else the party's state code when non-empty, else `01`. Its taxable
      value and its three tax amounts are the ledger entry's, and the rate is `rt` or 0. */
  lemma MigratedRowFields(rules: Rules, row: Row)
    ensures MigratedRow(rules, row)["type"] == Str("OE")
    ensures Truthy(MigratedRow(rules, row)["pos"])
    ensures "pos" in row && Truthy(row["pos"]) ==> MigratedRow(rules, row)["pos"] == row["pos"]
    ensures !("pos" in row && Truthy(row["pos"])) && rules.partyPrefix.Some? && rules.partyPrefix.value != ""
      ==> MigratedRow(rules, row)["pos"] == Str(rules.partyPrefix.value)
    ensures !("pos" in row && Truthy(row["pos"])) && !(rules.partyPrefix.Some? && rules.partyPrefix.value != "")
      ==> MigratedRow(rules, row)["pos"] == Str("01")
    ensures MigratedRow(rules, row)["txval"] == ErrorEntry(rules, row)["Taxable Value"]
    ensures MigratedRow(rules, row)["rt"] == ErrorEntry(rules, row)["GST Rate"]
    ensures MigratedRow(rules, row)["iamt"] == ErrorEntry(rules, row)["IGST"]
    ensures MigratedRow(rules, row)["camt"] == ErrorEntry(rules, row)["CGST"]
    ensures MigratedRow(rules, row)["samt"] == ErrorEntry(rules, row)["SGST"]
  {
  }

  /** The rows that pass verification, unchanged and in order. */
  function Passed(rules: Rules, rows: seq<Row>): (r: seq<Row>)
    ensures |r| <= |rows|
    ensures forall k :: 0 <= k < |r| ==> Passes(rules, r[k])
  {
    if rows == [] then []
    else
      var last := rows[|rows| - 1];
      Passed(rules, rows[..|rows| - 1]) + (if Passes(rules, last) then [last] else [])
  }

  /** The rows that fail verification, in order. */
  function Failed(rules: Rules, rows: seq<Row>): (r: seq<Row>)
    ensures |r| <= |rows|
    ensures forall k :: 0 <= k < |r| ==> !Passes(rules, r[k])
  {
    if rows == [] then []
    else
      var last := rows[|rows| - 1];
      Failed(rules, rows[..|rows| - 1]) + (if Passes(rules, last) then [] else [last])
  }

  /** The error ledger: entry `k` is made from the `k`-th failing row. */
  function Ledger(rules: Rules, rows: seq<Row>): (l: seq<Row>)
    ensures |l| == |Failed(rules, rows)|
    ensures forall k :: 0 <= k < |l| ==> l[k] == ErrorEntry(rules, Failed(rules, rows)[k])
  {
    if rows == [] then []
    else
      var last := rows[|rows| - 1];
      var init := Ledger(rules, rows[..|rows| - 1]);
      var l := init + (if Passes(rules, last) then [] else [ErrorEntry(rules, last)]);
      assert forall k :: 0 <= k < |init| ==> l[k] == init[k];
      l
  }

  /** The B2C-small rows: row `k` is made from the `k`-th failing row. */
  function Migrated(rules: Rules, rows: seq<Row>): (m: seq<Row>)
    ensures |m| == |Failed(rules, rows)|
    ensures forall k :: 0 <= k < |m| ==> m[k] == MigratedRow(rules, Failed(rules, rows)[k])
  {
    if rows == [] then []
    else
      var last := rows[|rows| - 1];
      var init := Migrated(rules, rows[..|rows| - 1]);
      var m := init + (if Passes(rules, last) then [] else [MigratedRow(rules, last)]);
      assert forall k :: 0 <= k < |init| ==> m[k] == init[k];
      m
  }

  /** The taxable value moved from B2B to B2C small: nothing when every row passes, and
      never negative when no row has a negative taxable value. */
  function Shifted(rules: Rules, rows: seq<Row>): (v: real)
    ensures (forall k :: 0 <= k < |rows| ==> Passes(rules, rows[k])) ==> v == 0.0
    ensures (forall k :: 0 <= k < |rows| ==> Amount(rows[k], "txval") >= 0.0) ==> v >= 0.0
  {
    if rows == [] then 0.0
    else
      var last := rows[|rows| - 1];
      Shifted(rules, rows[..|rows| - 1]) + (if Passes(rules, last) then 0.0 else Amount(last, "txval"))
  }

  /** Every input row is either kept or failed, never both and never lost: the two parts
      together are a rearrangement of the input. */
  lemma {:induction false} Partition(rules: Rules, rows: seq<Row>)
    ensures |Passed(rules, rows)| + |Failed(rules, rows)| == |rows|
    ensures multiset(Passed(rules, rows)) + multiset(Failed(rules, rows)) == multiset(rows)
  {
    if rows != [] {
      var init := rows[..|rows| - 1];
      var last := rows[|rows| - 1];
      Partition(rules, init);
      assert rows == init + [last];
      SplitSnoc(Passed(rules, init), Failed(rules, init), init, last, Passes(rules, last));
    }
  }

  /** Adding one element to one side of a split of `xs` splits `xs + [x]`. */
  lemma SplitSnoc<T>(p: seq<T>, f: seq<T>, xs: seq<T>, x: T, keep: bool)
    requires |p| + |f| == |xs| && multiset(p) + multiset(f) == multiset(xs)
    ensures var p', f' := p + (if keep then [x] else []), f + (if keep then [] else [x]);
      |p'| + |f'| == |xs + [x]| && multiset(p') + multiset(f') == multiset(xs + [x])
  {
  }

  /** How the pass extends its four outputs by one row. */
  lemma Step(rules: Rules, rows: seq<Row>, i: nat)
    requires i < |rows|
    ensures Passed(rules, rows[..i + 1]) == Passed(rules, rows[..i]) + (if Passes(rules, rows[i]) then [rows[i]] else [])
    ensures Ledger(rules, rows[..i + 1]) == Ledger(rules, rows[..i]) + (if Passes(rules, rows[i]) then [] else [ErrorEntry(rules, rows[i])])
    ensures Migrated(rules, rows[..i + 1]) == Migrated(rules, rows[..i]) + (if Passes(rules, rows[i]) then [] else [MigratedRow(rules, rows[i])])
    ensures Shifted(rules, rows[..i + 1]) == Shifted(rules, rows[..i]) + (if Passes(rules, rows[i]) then 0.0 else Amount(rows[i], "txval"))
  {
    assert rows[..i + 1][..i] == rows[..i];
  }

  /** The outputs for `rows` are those for all but its last row, extended by that row. */
  lemma LastRow(rules: Rules, rows: seq<Row>)
    requires rows != []
    ensures var init, last := rows[..|rows| - 1], rows[|rows| - 1];
      Ledger(rules, rows) == Ledger(rules, init) + (if Passes(rules, last) then [] else [ErrorEntry(rules, last)])
      && Migrated(rules, rows) == Migrated(rules, init) + (if Passes(rules, last) then [] else [MigratedRow(rules, last)])
      && Shifted(rules, rows) == Shifted(rules, init) + (if Passes(rules, last) then 0.0 else Amount(last, "txval"))
  {
  }

  lemma MigratedTxval(rules: Rules, row: Row)
    ensures NumField(MigratedRow(rules, row), "txval") == Amount(row, "txval")
  {
  }

  lemma EntryTaxable(rules: Rules, row: Row)
    ensures NumField(ErrorEntry(rules, row), "Taxable Value") == Amount(row, "txval")
  {
  }

  lemma SumFieldSnoc(rows: seq<Row>, x: Row, key: string)
    ensures SumField(rows + [x], key) == SumField(rows, key) + NumField(x, key)
  {
    assert (rows + [x])[..|rows|] == rows;
  }

  /** Conservation: the accumulated shifted value equals the sum of the ledger's taxable
      values and the sum of the migrated rows' `txval`. */
  lemma Conservation(rules: Rules, rows: seq<Row>)
    ensures Shifted(rules, rows) == SumField(Ledger(rules, rows), "Taxable Value")
    ensures Shifted(rules, rows) == SumField(Migrated(rules, rows), "txval")
  {
    LedgerSum(rules, rows);
    MigratedSum(rules, rows);
  }

  lemma {:induction false} LedgerSum(rules: Rules, rows: seq<Row>)
    ensures Shifted(rules, rows) == SumField(Ledger(rules, rows), "Taxable Value")
  {
    if rows != [] {
      var init := rows[..|rows| - 1];
      var last := rows[|rows| - 1];
      LedgerSum(rules, init);
      LastRow(rules, rows);
      var l := Ledger(rules, init);
      if Passes(rules, last) {
        assert l + [] == l;
      } else {
        SumFieldSnoc(l, ErrorEntry(rules, last), "Taxable Value");
        EntryTaxable(rules, last);
      }
    }
  }

  lemma {:induction false} MigratedSum(rules: Rules, rows: seq<Row>)
    ensures Shifted(rules, rows) == SumField(Migrated(rules, rows), "txval")
  {
    if rows != [] {
      var init := rows[..|rows| - 1];
      var last := rows[|rows| - 1];
      MigratedSum(rules, init);
      LastRow(rules, rows);
      var m := Migrated(rules, init);
      if Passes(rules, last) {
        assert m + [] == m;
      } else {
        SumFieldSnoc(m, MigratedRow(rules, last), "txval");
        MigratedTxval(rules, last);
      }
    }
  }

  predicate AllAtMost(values: seq<real>, bound: real) {
    forall j :: 0 <= j < |values| ==> values[j] <= bound
  }

  /** `values[t]` is a maximum of `values` and no earlier value reaches it. */
  predicate IsFirstMax(values: seq<real>, t: nat) {
    t < |values| &&
    (forall j :: 0 <= j < |values| ==> values[j] <= values[t]) &&
    (forall j :: 0 <= j < t ==> values[j] < values[t])
  }

  /** The highest-value scan: `maxVal` starts at -1 and a value replaces it only when
      strictly greater. With some value above -1 the result is the first index of a
      maximum; when every value is at most -1 it stays 0. */
  method HighestValueIndex(values: seq<real>) returns (target: nat)
    ensures |values| > 0 ==> target < |values|
    ensures AllAtMost(values, -1.0) ==> target == 0
    ensures !AllAtMost(values, -1.0) ==> IsFirstMax(values, target)
  {
    var maxVal := -1.0;
    target := 0;
    var i := 0;
    while i < |values|
      invariant 0 <= i <= |values|
      invariant target == 0 || target < i
      invariant maxVal >= -1.0
      invariant forall j :: 0 <= j < i ==> values[j] <= maxVal
      invariant maxVal == -1.0 ==> target == 0
      invariant maxVal != -1.0 ==>
        target < i && maxVal == values[target] && forall j :: 0 <= j < target ==> values[j] < maxVal
    {
      if values[i] > maxVal {
        maxVal := values[i];
        target := i;
      }
      i := i + 1;
    }
  }

  datatype ComplianceResult = ComplianceResult(
    validB2B: seq<Row>,
    errorList: seq<Row>,
    b2csMigrated: seq<Row>,
    hsnAdjusted: seq<Row>,
    totalTaxableShifted: real)

  /** The service's invoice-number fallback: `inum`, else `invoice_no`, else `N/A`. */
  function ServiceInvoice(row: Row): (v: Value)
    ensures Truthy(v)
    ensures "inum" in row && Truthy(row["inum"]) ==> v == row["inum"]
    ensures !("inum" in row && Truthy(row["inum"])) && "invoice_no" in row && Truthy(row["invoice_no"])
      ==> v == row["invoice_no"]
    ensures !("inum" in row && Truthy(row["inum"])) && !("invoice_no" in row && Truthy(row["invoice_no"]))
      ==> v == Str("N/A")
  {
    Or(Get(row, "inum"), Or(Get(row, "invoice_no"), Str("N/A")))
  }

  /** The party's state code: the first two code points of its GSTIN, standing for
      `partyGstin.substring(0, 2)`, which counts UTF-16 code units. */
  function StateCode(gstin: string): (r: string)
    ensures |r| == if |gstin| < 2 then |gstin| else 2
    ensures r <= gstin
  {
    if |gstin| < 2 then gstin else gstin[..2]
  }

  function ServiceRules(partyGstin: string): Rules {
    Rules(VerifyGstin, ServiceInvoice, Some(StateCode(partyGstin)))
  }

  /** The values the HSN scan compares: `parseFloat(h.txval || 0)` per record. */
  function HsnValues(hsnData: seq<Row>): (v: seq<real>)
    ensures |v| == |hsnData|
    ensures forall k :: 0 <= k < |v| ==> v[k] == Amount(hsnData[k], "txval")
  {
    seq(|hsnData|, k requires 0 <= k < |hsnData| => Amount(hsnData[k], "txval"))
  }

  /** `processGSTR1`: one pass over the B2B rows, then the HSN scan, whose result is not
      used, so the HSN records come back as they were given. */
  method ProcessGstr1(b2bData: seq<Row>, hsnData: seq<Row>, partyGstin: string)
    returns (res: ComplianceResult)
    ensures res.validB2B == Passed(ServiceRules(partyGstin), b2bData)
    ensures res.errorList == Ledger(ServiceRules(partyGstin), b2bData)
    ensures res.b2csMigrated == Migrated(ServiceRules(partyGstin), b2bData)
    ensures res.totalTaxableShifted == Shifted(ServiceRules(partyGstin), b2bData)
    ensures res.hsnAdjusted == hsnData
  {
    var rules := ServiceRules(partyGstin);
    var validB2B: seq<Row> := [];
    var errorList: seq<Row> := [];
    var b2csMigrated: seq<Row> := [];
    var totalTaxableShifted := 0.0;
    var i := 0;
    while i < |b2bData|
      invariant 0 <= i <= |b2bData|
      invariant validB2B == Passed(rules, b2bData[..i])
      invariant errorList == Ledger(rules, b2bData[..i])
      invariant b2csMigrated == Migrated(rules, b2bData[..i])
      invariant totalTaxableShifted == Shifted(rules, b2bData[..i])
    {
      var row := b2bData[i];
      Step(rules, b2bData, i);
      var gstin := RowGstin(row);
      var status := rules.verify(gstin);
      if !status.valid {
        var txval := Amount(row, "txval");
        totalTaxableShifted := totalTaxableShifted + txval;
        errorList := errorList + [ErrorEntry(rules, row)];
        b2csMigrated := b2csMigrated + [MigratedRow(rules, row)];
      } else {
        validB2B := validB2B + [row];
      }
      i := i + 1;
    }
    assert b2bData[..i] == b2bData;
    var hsnAdjusted := hsnData;
    if |errorList| > 0 && |hsnAdjusted| > 0 {
      var _ := HighestValueIndex(HsnValues(hsnAdjusted));
    }
    res := ComplianceResult(validB2B, errorList, b2csMigrated, hsnAdjusted, totalTaxableShifted);
  }
}
