/**
 * What the template sheet writer (services/excelGenerator.ts) puts into one cell: the
 * per-column clean-up of a value on append (place of supply, invoice type, reverse charge,
 * rate and date columns), the test that decides between a number and a text cell, and
 * the more lenient number reading of the exempt-supplies sheet.
 */
module CellFormat {
  import opened Text
  import opened Numbers
  import opened Values

  /** A sheet cell: `{t: 'n', v}` or `{t: 's', v}`. */
  datatype Cell = NumCell(n: real) | TextCell(s: string)

  /** `cell && cell.v ? cell.v.toString().trim() : ''` for a present cell. */
  function CellText(c: Cell): string {
    match c
    case TextCell(s) => Trim(s)
    case NumCell(n) => if n == 0.0 then "" else Trim(NumberText(n))
  }

  /** `t.replace(/^\d+-\s*\/, '')`: a leading run of digits followed by `-` is removed,
      together with the white space after the dash. */
  function StripStateCode(t: string): (r: string)
    ensures |r| <= |t| && r == t[|t| - |r|..]
    ensures LeadingDigits(t) == 0 ==> r == t
  {
    var n := LeadingDigits(t);
    if 1 <= n < |t| && t[n] == '-' then
      var rest := t[n + 1..];
      TrimStartFacts(rest);
      TrimStart(rest)
    else t
  }

  lemma StripStateCodeOf(d: string, rest: string)
    requires |d| >= 1 && AllDigits(d)
    ensures StripStateCode(d + "-" + rest) == TrimStart(rest)
  {
    var t := d + "-" + rest;
    assert t[..|d|] == d;
    LeadingDigitsOf(t, |d|);
    assert t[|d| + 1..] == rest;
  }

  /** A run of `n` digits ended by a non-digit is the leading run. */
  lemma {:induction false} LeadingDigitsOf(t: string, n: nat)
    requires n < |t| && AllDigits(t[..n]) && !IsDigit(t[n])
    ensures LeadingDigits(t) == n
  {
    if n > 0 {
      assert t[1..][..n - 1] == t[..n][1..];
      assert IsDigit(t[..n][0]);
      LeadingDigitsOf(t[1..], n - 1);
    }
  }

  predicate IsLetter(c: char) {
    'A' <= c <= 'Z' || 'a' <= c <= 'z'
  }

  predicate AllLetters(s: string) {
    forall i :: 0 <= i < |s| ==> IsLetter(s[i])
  }

  /** The three groups of a match of `(\d{1,2})-([A-Za-z]{3})-(\d{2})`. */
  datatype DateMatch = DateMatch(day: string, month: string, year: string)

  predicate ValidMatch(m: DateMatch) {
    1 <= |m.day| <= 2 && AllDigits(m.day) && |m.month| == 3 && AllLetters(m.month)
    && |m.year| == 2 && AllDigits(m.year)
  }

  /** The pattern with a day of `d` digits matches at position `i`. */
  predicate MatchesWith(s: string, i: nat, d: nat) {
    i + d + 7 <= |s| && AllDigits(s[i..i + d]) && s[i + d] == '-' && AllLetters(s[i + d + 1..i + d + 4])
    && s[i + d + 4] == '-' && AllDigits(s[i + d + 5..i + d + 7])
  }

  /** The match at position `i`, if any: `\d{1,2}` tries two digits before one. */
  function MatchDateAt(s: string, i: nat): (r: Option<DateMatch>)
    ensures r.Some? ==> ValidMatch(r.value)
  {
    if MatchesWith(s, i, 2) then Some(DateMatch(s[i..i + 2], s[i + 3..i + 6], s[i + 7..i + 9]))
    else if MatchesWith(s, i, 1) then Some(DateMatch(s[i..i + 1], s[i + 2..i + 5], s[i + 6..i + 8]))
    else None
  }

  /** The leftmost match at or after position `i`. */
  function FindDateFrom(s: string, i: nat): (r: Option<DateMatch>)
    ensures r.Some? ==> ValidMatch(r.value)
    decreases |s| - i
  {
    if i >= |s| then None
    else if MatchDateAt(s, i).Some? then MatchDateAt(s, i)
    else FindDateFrom(s, i + 1)
  }

  /** `s.match(/(\d{1,2})-([A-Za-z]{3})-(\d{2})/)`: the match at the leftmost position where
      the pattern matches, or `None` when it matches nowhere. */
  function FindDate(s: string): (r: Option<DateMatch>)
    ensures r.Some? ==> ValidMatch(r.value)
    ensures r.Some? ==>
      exists p: nat :: (p < |s| && MatchDateAt(s, p) == r && forall k: nat :: k < p ==> MatchDateAt(s, k).None?)
    ensures r.None? ==> forall p: nat :: MatchDateAt(s, p).None?
  {
    FindDateSpec(s);
    FindDateFrom(s, 0)
  }

  /** The pattern cannot match where fewer than eight characters are left. */
  lemma MatchDateNearEnd(s: string, p: nat)
    requires p + 8 > |s|
    ensures MatchDateAt(s, p).None?
  {
  }

  lemma FindDateSpec(s: string)
    ensures var r := FindDateFrom(s, 0);
      && (r.Some? ==>
            exists p: nat :: (p < |s| && MatchDateAt(s, p) == r && forall k: nat :: k < p ==> MatchDateAt(s, k).None?))
      && (r.None? ==> forall p: nat :: MatchDateAt(s, p).None?)
  {
    var p := FindDateFromSpec(s, 0);
  }

  /** The leftmost match from `i` on is at `p`, and none exists when the search fails. */
  lemma {:induction false} FindDateFromSpec(s: string, i: nat) returns (p: nat)
    ensures var r := FindDateFrom(s, i);
      && (r.Some? ==> i <= p < |s| && MatchDateAt(s, p) == r && forall k: nat :: i <= k < p ==> MatchDateAt(s, k).None?)
      && (r.None? ==> forall q: nat :: i <= q ==> MatchDateAt(s, q).None?)
    decreases |s| - i
  {
    if i >= |s| {
      p := i;
      forall q: nat | i <= q
        ensures MatchDateAt(s, q).None?
      {
        MatchDateNearEnd(s, q);
      }
    } else if MatchDateAt(s, i).Some? {
      p := i;
    } else {
      assert FindDateFrom(s, i) == FindDateFrom(s, i + 1);
      p := FindDateFromSpec(s, i + 1);
    }
  }

  const MonthNames: seq<string> := ["Jan", "Feb", "Mar", "Apr", "May", "Jun", "Jul", "Aug", "Sep", "Oct", "Nov", "Dec"]

  /** `months[name]`: the names are matched exactly, so `JAN` has no month. */
  function MonthIndex(name: string): (r: Option<nat>)
    ensures r.Some? ==> r.value < 12 && MonthNames[r.value] == name
    ensures r.None? ==> name !in MonthNames
  {
    if name == "Jan" then Some(0) else if name == "Feb" then Some(1) else if name == "Mar" then Some(2)
    else if name == "Apr" then Some(3) else if name == "May" then Some(4) else if name == "Jun" then Some(5)
    else if name == "Jul" then Some(6) else if name == "Aug" then Some(7) else if name == "Sep" then Some(8)
    else if name == "Oct" then Some(9) else if name == "Nov" then Some(10) else if name == "Dec" then Some(11)
    else None
  }

  /** `${dayStr}-${monthStr}-${year}`; an unknown month name makes `month + 1` NaN, which
      prints as `NaN`. */
  function FormatDate(m: DateMatch): string
    requires ValidMatch(m)
  {
    var dayStr := PadStart2(NatText(DigitsValue(m.day)));
    var monthStr := match MonthIndex(m.month)
      case Some(k) => PadStart2(NatText(k + 1))
      case None => "NaN";
    dayStr + "-" + monthStr + "-" + NatText(2000 + DigitsValue(m.year))
  }

  /** Place-of-supply columns: the trimmed text without its state-code prefix. */
  function PlaceStep(header: string, v: Value): Value {
    if Contains(ToLower(header), "place of supply") then Str(Trim(StripStateCode(Trim(ValueText(v))))) else v
  }

  /** The invoice-type column: the first ` B2B`, then the first ` B2C`, is removed, and the
      text is trimmed. */
  function InvoiceTypeStep(header: string, v: Value): (r: Value)
    ensures header != "Invoice Type" ==> r == v
    ensures header == "Invoice Type" ==> r.Str? && IsTrimmed(r.s)
  {
    if header == "Invoice Type" then Str(Trim(ReplaceFirst(ReplaceFirst(ValueText(v), " B2B", ""), " B2C", "")))
    else v
  }

  /** Reverse-charge columns: `Y` is written `Yes` and `N` is written `No`. */
  function ReverseChargeStep(header: string, v: Value): Value {
    if header == "RCM Applicable" || header == "RCM" then
      (if v == Str("Y") then Str("Yes") else if v == Str("N") then Str("No") else v)
    else v
  }

  /** Rate columns: a falsy value is 0. */
  function RateStep(header: string, v: Value): Value {
    if (header == "Rate" || header == "GST%") && !Truthy(v) then Num(0.0) else v
  }

  /** Date columns: the first `d-Mon-yy` in the text is rewritten as `dd-mm-20yy`. */
  function DateStep(header: string, v: Value): Value {
    if Contains(ToLower(header), "date") then
      match FindDate(ValueText(v))
      case Some(m) => Str(FormatDate(m))
      case None => v
    else v
  }

  /** The headers the clean-up compares exactly. */
  predicate ExactHeader(h: string) {
    h == "Invoice Type" || h == "RCM Applicable" || h == "RCM" || h == "Rate" || h == "GST%"
  }

  /** Clean-up of a non-empty value before it is written on append, in the order of the
      source: place of supply, invoice type, reverse charge, rate, date. A column with none
      of these headers keeps its value. */
  function Normalize(header: string, v: Value): (r: Value)
    ensures (!Contains(ToLower(header), "place of supply") && !Contains(ToLower(header), "date")
             && !ExactHeader(header)) ==> r == v
  {
    DateStep(header, RateStep(header, ReverseChargeStep(header, InvoiceTypeStep(header, PlaceStep(header, v)))))
  }

  /** The cell a cleaned value becomes on append: a number only when its text is a plain
      decimal, otherwise the trimmed text. */
  function FinalCell(v: Value): (r: Cell)
    ensures r.TextCell? ==> r.s == Trim(ValueText(v))
    ensures r.NumCell? ==> IsPlainDecimal(ValueText(v)) && ParseFloat(RemoveAll(ValueText(v), ',')) == Some(r.n)
  {
    var s := ValueText(v);
    match ParseFloat(RemoveAll(s, ','))
    case Some(n) => if IsPlainDecimal(s) then NumCell(n) else TextCell(Trim(s))
    case None => TextCell(Trim(s))
  }

  /** The cell written on append for value `v` under `header`; an empty text stays an empty
      text cell. */
  function AppendCell(header: string, v: Value): (r: Cell)
    ensures v == Str("") ==> r == TextCell("")
    ensures v != Str("") ==> (r.NumCell? <==> IsPlainDecimal(ValueText(Normalize(header, v))))
  {
    if v == Str("") then TextCell("")
    else
      FinalCellKind(Normalize(header, v));
      FinalCell(Normalize(header, v))
  }

  /** The cell written into the exempt-supplies sheet: an empty value is 0, and any text
      that starts like a number once commas are removed is that number. */
  function ExemptCell(v: Value): (r: Cell)
    ensures v == Str("") ==> r == NumCell(0.0)
    ensures v != Str("") && r.NumCell? ==> ParseFloat(RemoveAll(ValueText(v), ',')) == Some(r.n)
    ensures r.TextCell? ==> ParseFloat(RemoveAll(ValueText(v), ',')).None? && r.s == Trim(ValueText(v))
  {
    if v == Str("") then NumCell(0.0)
    else
      var s := ValueText(v);
      match ParseFloat(RemoveAll(s, ','))
      case Some(n) => NumCell(n)
      case None => TextCell(Trim(s))
  }

  /** A value becomes a number cell exactly when its text is a plain decimal
      (`^-?\d+\.?\d*$`), and then it is the number that text denotes; otherwise the cell
      holds the trimmed text. */
  lemma FinalCellKind(v: Value)
    ensures FinalCell(v).NumCell? <==> IsPlainDecimal(ValueText(v))
    ensures FinalCell(v).NumCell? ==> ParseFloat(ValueText(v)) == Some(FinalCell(v).n)
    ensures FinalCell(v).TextCell? ==> FinalCell(v).s == Trim(ValueText(v))
  {
    var s := ValueText(v);
    if IsPlainDecimal(s) {
      PlainDecimalClean(s);
      PlainDecimalReads(s);
    }
  }

  /** The exempt sheet reads every text that starts like a number once its commas are
      removed, and so it agrees with the append writer on every value the writer stores as
      a number. */
  lemma ExemptCellKind(v: Value)
    ensures v != Str("") && IsPlainDecimal(ValueText(v)) ==>
      ParseFloat(ValueText(v)).Some? && ExemptCell(v) == NumCell(ParseFloat(ValueText(v)).value)
    ensures v != Str("") && FinalCell(v).NumCell? ==> ExemptCell(v) == FinalCell(v)
    ensures ExemptCell(v).TextCell? ==> FinalCell(v) == ExemptCell(v)
  {
    var s := ValueText(v);
    if IsPlainDecimal(s) {
      PlainDecimalClean(s);
      PlainDecimalReads(s);
    }
  }

  /** Example (the general statements are FinalCellKind and ExemptCellKind): a thousands
      separator keeps a value text on append, while the exempt sheet reads it as a number.
      The lemmas after it are the steps of this one literal. */
  lemma ThousandsSeparator()
    ensures FinalCell(Str("1,000")) == TextCell("1,000")
    ensures ExemptCell(Str("1,000")) == NumCell(1000.0)
  {
    ThousandsCells("1,000");
  }

  lemma ThousandsCells(s: string)
    requires s == "1,000"
    ensures FinalCell(Str(s)) == TextCell(s) && ExemptCell(Str(s)) == NumCell(1000.0)
  {
    CommaNotPlain(s);
    TrimOfTrimmed(s);
    var t := RemoveAll(s, ',');
    CommaRemoved(s, t);
    ThousandValue(t);
  }

  lemma CommaNotPlain(s: string)
    requires s == "1,000"
    ensures !IsPlainDecimal(s) && IsTrimmed(s)
  {
    assert LeadingDigits(s[1..]) == 0;
    assert LeadingDigits(s) == 1;
  }

  lemma CommaRemoved(s: string, t: string)
    requires s == "1,000" && t == RemoveAll(s, ',')
    ensures t == "1000"
  {
    var zeros := s[2..];
    assert zeros == "000";
    NoCommaRemoveAll(zeros);
    assert s[1..][1..] == zeros;
    assert RemoveAll(s[1..], ',') == zeros;
  }

  lemma ThousandValue(t: string)
    requires t == "1000"
    ensures ParseFloat(t) == Some(1000.0)
  {
    ThousandDigits(t);
    assert t[..4] == t;
    WholeNumber(t);
  }

  lemma ThousandDigits(t: string)
    requires t == "1000"
    ensures LeadingDigits(t) == 4 && DigitsValue(t) == 1000
  {
    assert LeadingDigits(t[4..]) == 0;
    assert LeadingDigits(t[3..]) == 1 by {
      assert t[3..][1..] == t[4..];
    }
    assert LeadingDigits(t[2..]) == 2 by {
      assert t[2..][1..] == t[3..];
    }
    assert LeadingDigits(t[1..]) == 3 by {
      assert t[1..][1..] == t[2..];
    }
    assert t[..3] == "100" && "100"[..2] == "10" && "10"[..1] == "1" && "1"[..0] == "";
  }

  /** The invoice-type column removes a trailing ` B2B` or ` B2C` from a text that holds
      neither elsewhere, and trims it; such a text without a suffix is only trimmed. */
  lemma InvoiceType(t: string)
    requires !Contains(t, " B2B") && !Contains(t, " B2C")
    ensures Normalize("Invoice Type", Str(t + " B2B")) == Str(Trim(t))
    ensures Normalize("Invoice Type", Str(t + " B2C")) == Str(Trim(t))
    ensures Normalize("Invoice Type", Str(t)) == Str(Trim(t))
  {
    InvoiceTypeOf(t, " B2B");
    InvoiceTypeOf(t, " B2C");
    InvoiceTypeOf(t, "");
    assert t + "" == t;
  }

  lemma InvoiceTypeOf(t: string, w: string)
    requires !Contains(t, " B2B") && !Contains(t, " B2C")
    requires w == " B2B" || w == " B2C" || w == ""
    ensures Normalize("Invoice Type", Str(t + w)) == Str(Trim(t))
  {
    var h := "Invoice Type";
    ExactHeaderWords(h);
    RemoveSuffixes(t, w);
    assert InvoiceTypeStep(h, PlaceStep(h, Str(t + w))) == Str(Trim(t));
  }

  /** Removing the first ` B2B` and then the first ` B2C` from `t + w` leaves `t`. */
  lemma RemoveSuffixes(t: string, w: string)
    requires !Contains(t, " B2B") && !Contains(t, " B2C")
    requires w == " B2B" || w == " B2C" || w == ""
    ensures ReplaceFirst(ReplaceFirst(t + w, " B2B", ""), " B2C", "") == t
  {
    if w == "" {
      assert t + w == t;
      IndexOfAbsent(t, " B2B");
      IndexOfAbsent(t, " B2C");
    } else {
      var s := t + w;
      assert s[..|t|] == t && s[|t| + 4..] == [];
      IndexOfSuffix(t, w, " B2B");
      IndexOfSuffix(t, w, " B2C");
      IndexOfAbsent(t, " B2C");
      IndexOfAbsent(t, " B2B");
      if w == " B2B" {
        assert ReplaceFirst(s, " B2B", "") == t;
      } else {
        assert ReplaceFirst(s, " B2B", "") == s;
      }
    }
  }

  /** `IndexOf` finds something only in a text that contains the pattern. */
  lemma IndexOfAbsent(t: string, pat: string)
    ensures !Contains(t, pat) ==> IndexOf(t, pat).None?
  {
    IndexOfSpec(t, pat);
    if IndexOf(t, pat).Some? {
      ContainsAt(t, pat, IndexOf(t, pat).value);
    }
  }

  /** A text that does not contain `pat` has no occurrence of it at `j`. */
  lemma NotAt(t: string, pat: string, j: nat)
    ensures !Contains(t, pat) && j + |pat| <= |t| ==> t[j..j + |pat|] != pat
  {
    if j + |pat| <= |t| && t[j..j + |pat|] == pat {
      ContainsAt(t, pat, j);
    }
  }

  /** In `t + w`, where `t` lacks `pat`, `w` starts with a space and `pat` has its only
      space at the front, `pat` can start only where `w` does. */
  lemma IndexOfSuffix(t: string, w: string, pat: string)
    requires |w| == 4 && |pat| == 4 && w[0] == ' ' && pat[0] == ' ' && ' ' !in pat[1..]
    requires !Contains(t, pat)
    ensures IndexOf(t + w, pat) == if w == pat then Some(|t|) else None
  {
    var s := t + w;
    IndexOfSpec(s, pat);
    OnlyAtSuffix(t, w, pat);
    assert s[|t|..] == w;
    var r := IndexOf(s, pat);
    if r.Some? {
      PrefixAt(s, r.value, pat);
    }
    if w == pat {
      assert pat <= s[|t|..];
    } else {
      assert forall j :: 0 <= j <= |s| ==> !(pat <= s[j..]);
    }
  }

  lemma OnlyAtSuffix(t: string, w: string, pat: string)
    requires |w| == 4 && |pat| == 4 && w[0] == ' ' && pat[0] == ' ' && ' ' !in pat[1..]
    requires !Contains(t, pat)
    ensures forall j :: 0 <= j <= |t + w| && j != |t| ==> !(pat <= (t + w)[j..])
  {
    var s := t + w;
    forall j | 0 <= j <= |s| && j != |t|
      ensures !(pat <= s[j..])
    {
      if j + 4 <= |t| {
        NotAt(t, pat, j);
        assert s[j..j + 4] == t[j..j + 4];
      } else if j < |t| {
        var k := |t| - j;
        assert pat[k] == pat[1..][k - 1];
        assert s[j..][k] == ' ';
      }
    }
  }

  /** `pat` occurs at `p` exactly when it is a prefix of the text from `p` on. */
  lemma PrefixAt(s: string, p: nat, pat: string)
    requires p + |pat| <= |s|
    ensures s[p..p + |pat|] == pat <==> pat <= s[p..]
  {
  }

  /** Reverse-charge columns write `Y` as `Yes` and `N` as `No`. */
  lemma ReverseCharge(header: string)
    requires header == "RCM Applicable" || header == "RCM"
    ensures AppendCell(header, Str("Y")) == TextCell("Yes")
    ensures AppendCell(header, Str("N")) == TextCell("No")
  {
    ReverseChargeWord(header, "Y", "Yes");
    ReverseChargeWord(header, "N", "No");
  }

  lemma ReverseChargeWord(header: string, w: string, out: string)
    requires header == "RCM Applicable" || header == "RCM"
    requires (w == "Y" && out == "Yes") || (w == "N" && out == "No")
    ensures AppendCell(header, Str(w)) == TextCell(out)
  {
    ReverseChargeNormalize(header, w, out);
    assert out != [] && IsLetter(out[0]) && IsTrimmed(out) by {
      YesNoWord(out);
    }
    WordCell(out);
  }

  lemma YesNoWord(out: string)
    requires out == "Yes" || out == "No"
    ensures out != [] && IsLetter(out[0]) && IsTrimmed(out)
  {
  }

  lemma ReverseChargeNormalize(header: string, w: string, out: string)
    requires header == "RCM Applicable" || header == "RCM"
    requires (w == "Y" && out == "Yes") || (w == "N" && out == "No")
    ensures Normalize(header, Str(w)) == Str(out)
  {
    ExactHeaderWords(header);
    var v := Str(w);
    assert InvoiceTypeStep(header, PlaceStep(header, v)) == v;
    assert RateStep(header, ReverseChargeStep(header, v)) == Str(out);
    assert DateStep(header, Str(out)) == Str(out);
  }

  /** A trimmed text that starts with a letter is written as text. */
  lemma WordCell(w: string)
    requires w != [] && IsLetter(w[0]) && IsTrimmed(w)
    ensures FinalCell(Str(w)) == TextCell(w)
  {
    var t := RemoveAll(w, ',');
    assert t[0] == w[0];
    assert TrimStart(t) == t;
    assert LeadingDigits(t) == 0;
    assert ParseFloat(t).None?;
    TrimOfTrimmed(w);
  }

  /** None of the exactly compared headers contains `date` or `place of supply` in any
      case, so the two word-triggered steps never apply under them. */
  lemma ExactHeaderWords(h: string)
    ensures ExactHeader(h) ==> !Contains(ToLower(h), "date") && !Contains(ToLower(h), "place of supply")
  {
    if ExactHeader(h) {
      var l := ToLower(h);
      ExactHeaderLetters(h);
      LowerLacks(h, 'd');
      LowerLacks(h, 'f');
      Lacks(l, "date", 0);
      Lacks(l, "place of supply", 7);
    }
  }

  lemma ExactHeaderLetters(h: string)
    requires ExactHeader(h)
    ensures 'd' !in h && 'D' !in h && 'f' !in h && 'F' !in h
  {
    if h == "Invoice Type" {
    } else if h == "RCM Applicable" {
    } else if h == "RCM" {
    } else if h == "Rate" {
    } else {
    }
  }

  /** A lower-case letter occurs in the lower-cased text only where the letter or its
      capital occurs in the text. */
  lemma LowerLacks(h: string, c: char)
    requires 'a' <= c <= 'z' && c !in h && UpperChar(c) !in h
    ensures c !in ToLower(h)
  {
    forall i | 0 <= i < |h|
      ensures ToLower(h)[i] != c
    {
      assert h[i] != c && h[i] != UpperChar(c);
    }
  }

  /** A text lacking one character of `sub` does not contain `sub`. */
  lemma Lacks(l: string, sub: string, k: nat)
    requires k < |sub| && sub[k] !in l
    ensures !Contains(l, sub)
  {
    ContainsChar(l, sub, k);
  }

  /** A header that contains `place of supply`, in any case, and not `date`. */
  predicate PlaceHeader(h: string) {
    Contains(ToLower(h), "place of supply") && !Contains(ToLower(h), "date")
  }

  /** A header that contains `date`, in any case, and not `place of supply`. */
  predicate DateHeader(h: string) {
    Contains(ToLower(h), "date") && !Contains(ToLower(h), "place of supply")
  }

  /** In every column whose header contains `place of supply`, in any case (and not
      `date`), a leading state code such as `27-` is dropped. */
  lemma PlaceOfSupply(header: string, d: string, rest: string)
    requires PlaceHeader(header)
    requires |d| >= 1 && AllDigits(d) && IsTrimmed(rest)
    ensures Normalize(header, Str(d + "-" + rest)) == Str(rest)
  {
    ExactHeaderWords(header);
    StripToRest(d, rest);
    assert PlaceStep(header, Str(d + "-" + rest)) == Str(rest);
  }

  lemma StripToRest(d: string, rest: string)
    requires |d| >= 1 && AllDigits(d) && IsTrimmed(rest)
    ensures Trim(StripStateCode(Trim(d + "-" + rest))) == rest
  {
    var t := d + "-" + rest;
    assert t[0] == d[0] && IsDigit(d[0]);
    assert t[|t| - 1] == if rest == [] then '-' else rest[|rest| - 1];
    TrimOfTrimmed(t);
    StripStateCodeOf(d, rest);
    assert TrimStart(rest) == rest;
    TrimOfTrimmed(rest);
  }

  /** A `d-Mon-yy` or `dd-Mon-yy` text is matched as a whole. */
  lemma FindWholeDate(day: string, month: string, year: string)
    requires ValidMatch(DateMatch(day, month, year))
    ensures FindDate(day + "-" + month + "-" + year) == Some(DateMatch(day, month, year))
  {
    var s := day + "-" + month + "-" + year;
    var d := |day|;
    assert s[0..d] == day && s[d + 1..d + 4] == month && s[d + 5..d + 7] == year;
    if d == 1 {
      assert !IsDigit(s[1]);
      assert !AllDigits(s[0..2]);
    }
    assert MatchDateAt(s, 0) == Some(DateMatch(day, month, year));
  }

  /** Two digits `a b` print as `20ab` when added to 2000. */
  lemma YearText(year: string)
    requires |year| == 2 && AllDigits(year)
    ensures NatText(2000 + DigitsValue(year)) == "20" + year
  {
    var a, b := DigitValue(year[0]), DigitValue(year[1]);
    TwoDigitsValue(year);
    DigitRoundTrip(year[0]);
    DigitRoundTrip(year[1]);
    YearDigits(a, b);
    assert year == [year[0], year[1]];
  }

  lemma YearDigits(a: nat, b: nat)
    requires a < 10 && b < 10
    ensures NatText(2000 + 10 * a + b) == "20" + [DigitChar(a), DigitChar(b)]
  {
    TwentyText();
    AppendTwoDigits(20, a, b, "20", 2000 + 10 * a + b);
  }

  lemma TwentyText()
    ensures NatText(20) == "20"
  {
    NatTextSnoc(2, 0);
  }

  /** Appending two digits to a number appends their characters to its text. */
  lemma AppendTwoDigits(q: nat, a: nat, b: nat, t: string, n: nat)
    requires 1 <= q && a < 10 && b < 10 && NatText(q) == t && n == 10 * (10 * q + a) + b
    ensures NatText(n) == t + [DigitChar(a), DigitChar(b)]
  {
    var m := 10 * q + a;
    NatTextAppend(q, a, t, m);
    NatTextAppend(m, b, t + [DigitChar(a)], n);
    assert (t + [DigitChar(a)]) + [DigitChar(b)] == t + [DigitChar(a), DigitChar(b)];
  }

  /** One or two day digits print as two. */
  lemma DayText(day: string)
    requires 1 <= |day| <= 2 && AllDigits(day)
    ensures PadStart2(NatText(DigitsValue(day))) == if |day| == 2 then day else "0" + day
  {
    if |day| == 1 {
      OneDayText(day);
    } else if day[0] == '0' {
      ZeroDayText(day);
      assert day == "0" + day[1..];
    } else {
      TwoDayText(day);
    }
  }

  lemma OneDayText(day: string)
    requires |day| == 1 && AllDigits(day)
    ensures NatText(DigitsValue(day)) == day
  {
    OneDigitValue(day);
    DigitRoundTrip(day[0]);
    SingleDigitText(DigitValue(day[0]), DigitsValue(day));
    assert day == [day[0]];
  }

  lemma ZeroDayText(day: string)
    requires |day| == 2 && AllDigits(day) && day[0] == '0'
    ensures NatText(DigitsValue(day)) == day[1..]
  {
    TwoDigitsValue(day);
    DigitRoundTrip(day[1]);
    SingleDigitText(DigitValue(day[1]), DigitsValue(day));
    assert day[1..] == [day[1]];
  }

  lemma TwoDayText(day: string)
    requires |day| == 2 && AllDigits(day) && day[0] != '0'
    ensures NatText(DigitsValue(day)) == day
  {
    var a := DigitValue(day[0]);
    TwoDigitsValue(day);
    DigitRoundTrip(day[0]);
    DigitRoundTrip(day[1]);
    SingleDigitText(a, a);
    NatTextAppend(a, DigitValue(day[1]), [day[0]], DigitsValue(day));
    assert day == [day[0], day[1]];
  }

  lemma SingleDigitText(d: nat, n: nat)
    requires d < 10 && n == d
    ensures NatText(n) == [DigitChar(d)]
  {
  }

  /** In every column whose header contains `date`, in any case (and not `place of supply`),
      `dd-Mon-yy`, with `Mon` the month numbered `k + 1`, becomes `dd-mm-20yy`, with day and
      month zero-padded. */
  lemma DateColumn(header: string, day: string, month: string, year: string, k: nat)
    requires DateHeader(header)
    requires ValidMatch(DateMatch(day, month, year)) && k < 12 && month == MonthNames[k]
    ensures Normalize(header, Str(day + "-" + month + "-" + year))
      == Str((if |day| == 2 then day else "0" + day) + "-" + PadStart2(NatText(k + 1)) + "-20" + year)
  {
    var v := Str(day + "-" + month + "-" + year);
    ExactHeaderWords(header);
    assert RateStep(header, ReverseChargeStep(header, InvoiceTypeStep(header, PlaceStep(header, v)))) == v;
    MonthIndexOf(k);
    FindWholeDate(day, month, year);
    assert DateStep(header, v) == Str(FormatDate(DateMatch(day, month, year)));
    FormatWholeDate(day, month, year, k);
  }

  /** Month names are distinct: the `k`-th name has index `k`. */
  lemma MonthIndexOf(k: nat)
    requires k < 12
    ensures MonthIndex(MonthNames[k]) == Some(k)
  {
  }

  lemma FormatWholeDate(day: string, month: string, year: string, k: nat)
    requires ValidMatch(DateMatch(day, month, year)) && MonthIndex(month) == Some(k)
    ensures FormatDate(DateMatch(day, month, year))
      == (if |day| == 2 then day else "0" + day) + "-" + PadStart2(NatText(k + 1)) + "-20" + year
  {
    FormatDateKnownMonth(DateMatch(day, month, year), k);
    YearText(year);
    DayText(day);
    DashTwenty(FormatDate(DateMatch(day, month, year)), PadStart2(NatText(DigitsValue(day))),
      if |day| == 2 then day else "0" + day, PadStart2(NatText(k + 1)), NatText(2000 + DigitsValue(year)), year);
  }

  /** `FormatDate` for a month name that has a number. */
  lemma FormatDateKnownMonth(m: DateMatch, k: nat)
    requires ValidMatch(m) && MonthIndex(m.month) == Some(k)
    ensures FormatDate(m)
      == PadStart2(NatText(DigitsValue(m.day))) + "-" + PadStart2(NatText(k + 1)) + "-" + NatText(2000 + DigitsValue(m.year))
  {
  }

  lemma DashTwenty(f: string, d: string, dayStr: string, monthStr: string, y: string, year: string)
    requires f == d + "-" + monthStr + "-" + y && d == dayStr && y == "20" + year
    ensures f == dayStr + "-" + monthStr + "-20" + year
  {
  }
}
