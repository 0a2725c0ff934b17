/**
 * Decimal numbers as the pipeline reads and writes them: `parseFloat` (a leading-prefix
 * reader), the "plain decimal" test `^-?\d+\.?\d*$`, and `Number.prototype.toString`.
 * Numbers are exact reals; binary floating point is not modelled.
 */
module Numbers {
  import opened Text

  predicate IsDigit(c: char) {
    '0' <= c <= '9'
  }

  predicate AllDigits(s: string) {
    forall i :: 0 <= i < |s| ==> IsDigit(s[i])
  }

  function DigitValue(c: char): nat
    requires IsDigit(c)
  {
    c as int - '0' as int
  }

  /** Length of the run of digits at the front of `s`. */
  function LeadingDigits(s: string): (n: nat)
    ensures n <= |s| && AllDigits(s[..n])
    ensures n < |s| ==> !IsDigit(s[n])
  {
    if s != [] && IsDigit(s[0]) then
      var n := 1 + LeadingDigits(s[1..]);
      assert s[..n] == [s[0]] + s[1..][..n - 1];
      n
    else 0
  }

  /** Value of a digit string read as a natural number (`parseInt`). */
  function DigitsValue(d: string): nat
    requires AllDigits(d)
  {
    if d == [] then 0 else 10 * DigitsValue(d[..|d| - 1]) + DigitValue(d[|d| - 1])
  }

  lemma DigitRoundTrip(c: char)
    requires IsDigit(c)
    ensures DigitValue(c) < 10 && DigitChar(DigitValue(c)) == c
  {
  }

  lemma OneDigitValue(s: string)
    requires |s| == 1 && AllDigits(s)
    ensures DigitsValue(s) == DigitValue(s[0])
  {
    assert s[..0] == [];
  }

  lemma TwoDigitsValue(s: string)
    requires |s| == 2 && AllDigits(s)
    ensures DigitsValue(s) == 10 * DigitValue(s[0]) + DigitValue(s[1])
  {
    var first := s[..1];
    assert first[..0] == [] && first[0] == s[0];
    assert DigitsValue(first) == DigitValue(s[0]);
    assert s[..|s| - 1] == first;
  }

  /** The text of `10 q + d` is the text of `q` followed by the digit `d`. */
  lemma NatTextSnoc(q: nat, d: nat)
    requires 1 <= q && d < 10
    ensures NatText(10 * q + d) == NatText(q) + [DigitChar(d)]
  {
    var n := 10 * q + d;
    assert n / 10 == q && n % 10 == d;
  }

  /** `NatTextSnoc` for a number and a text known only through their relation. */
  lemma NatTextAppend(q: nat, d: nat, t: string, n: nat)
    requires 1 <= q && d < 10 && NatText(q) == t && n == 10 * q + d
    ensures NatText(n) == t + [DigitChar(d)]
  {
    NatTextSnoc(q, d);
  }

  /** Value of the digits after a decimal point: "25" is 0.25. */
  function FractionValue(d: string): (r: real)
    requires AllDigits(d)
    ensures 0.0 <= r <= 1.0
  {
    if d == [] then 0.0 else (DigitValue(d[0]) as real + FractionValue(d[1..])) / 10.0
  }

  /** `parseFloat(s)`: skips leading white space, reads an optional sign and the longest
      prefix of the form digits[.digits] (at least one digit) and ignores the rest; `None`
      stands for NaN. Exponents and `Infinity` are not read. */
  function ParseFloat(s: string): (r: Option<real>)
    ensures TrimStart(s) == "" ==> r.None?
    ensures TrimStart(s) != "" && IsDigit(TrimStart(s)[0]) ==> r.Some? && r.value >= 0.0
  {
    var t := TrimStart(s);
    var negative := t != [] && t[0] == '-';
    var body := if t != [] && (t[0] == '-' || t[0] == '+') then t[1..] else t;
    match Magnitude(body)
    case None => None
    case Some(m) => Some(if negative then -m else m)
  }

  /** The unsigned number at the front of `body`: digits[.digits], with at least one digit. */
  function Magnitude(body: string): (r: Option<real>)
    ensures body != [] && IsDigit(body[0]) ==> r.Some? && r.value >= 0.0
  {
    var n := LeadingDigits(body);
    var fraction := FractionPart(body[n..]);
    if n == 0 && fraction == [] then None
    else Some(DigitsValue(body[..n]) as real + FractionValue(fraction))
  }

  /** The digits after a point at the front of `rest`, or none. */
  function FractionPart(rest: string): (f: string)
    ensures AllDigits(f)
  {
    if rest != [] && rest[0] == '.' then rest[1..][..LeadingDigits(rest[1..])] else ""
  }

  /** A text of digits alone is read as the number it denotes. */
  lemma WholeNumber(t: string)
    requires t != [] && AllDigits(t)
    ensures ParseFloat(t) == Some(DigitsValue(t) as real)
  {
    assert !IsSpace(t[0]) && t[0] != '-' && t[0] != '+';
    assert TrimStart(t) == t;
    AllDigitsMagnitude(t);
  }

  lemma AllDigitsMagnitude(t: string)
    requires AllDigits(t)
    ensures t != [] ==> Magnitude(t) == Some(DigitsValue(t) as real)
  {
    if t != [] {
      AllDigitsLeading(t);
      MagnitudeWhole(t);
    }
  }

  lemma MagnitudeWhole(t: string)
    requires t != [] && AllDigits(t) && LeadingDigits(t) == |t|
    ensures Magnitude(t) == Some(DigitsValue(t) as real)
  {
    var n := LeadingDigits(t);
    WholePrefix(t, n);
    MagnitudeNoFraction(t, n);
  }

  lemma MagnitudeNoFraction(body: string, n: nat)
    requires 0 < n == LeadingDigits(body) && FractionPart(body[n..]) == []
    ensures Magnitude(body) == Some(DigitsValue(body[..n]) as real)
  {
    assert FractionValue([]) == 0.0;
  }

  /** Cutting a digit string at its end keeps its value and leaves no fraction. */
  lemma WholePrefix(t: string, n: nat)
    requires n == |t| && AllDigits(t)
    ensures AllDigits(t[..n]) && DigitsValue(t[..n]) == DigitsValue(t) && FractionPart(t[n..]) == []
  {
    assert t[..n] == t && t[n..] == [];
  }

  lemma {:induction false} AllDigitsLeading(t: string)
    requires AllDigits(t)
    ensures LeadingDigits(t) == |t|
  {
    if t != [] {
      AllDigitsLeading(t[1..]);
    }
  }

  /** The regular expression `^-?\d+\.?\d*$`: an optional minus, at least one digit, an
      optional point and more digits, and nothing else. */
  predicate IsPlainDecimal(s: string) {
    var body := if s != [] && s[0] == '-' then s[1..] else s;
    var n := LeadingDigits(body);
    n >= 1 &&
    (AllDigits(body[n..]) || (body[n] == '.' && AllDigits(body[n + 1..])))
  }

  /** Characters a plain decimal is made of. */
  predicate NumericChars(s: string) {
    forall i :: 0 <= i < |s| ==> IsDigit(s[i]) || s[i] == '-' || s[i] == '.'
  }

  lemma PlainBodyChars(b: string)
    requires LeadingDigits(b) >= 1
    requires AllDigits(b[LeadingDigits(b)..])
          || (b[LeadingDigits(b)] == '.' && AllDigits(b[LeadingDigits(b) + 1..]))
    ensures NumericChars(b)
  {
    var n := LeadingDigits(b);
    forall i | 0 <= i < |b|
      ensures IsDigit(b[i]) || b[i] == '.'
    {
      if i < n {
        assert b[i] == b[..n][i];
      } else {
        assert b[n..][0] == b[n];
        if i > n {
          assert b[i] == b[n + 1..][i - n - 1];
        }
      }
    }
  }

  /** A plain decimal always reads as a number. */
  lemma PlainDecimalReads(s: string)
    requires IsPlainDecimal(s)
    ensures ParseFloat(s).Some?
  {
    PlainDecimalChars(s);
    var c := s[0];
    assert IsDigit(c) || c == '-' || c == '.';
    assert TrimStart(s) == s;
    var body := if c == '-' then s[1..] else s;
    assert LeadingDigits(body) >= 1;
  }

  /** A plain decimal has no comma and no white space, so removing commas and trimming
      leave it unchanged. */
  lemma PlainDecimalClean(s: string)
    requires IsPlainDecimal(s)
    ensures RemoveAll(s, ',') == s && Trim(s) == s
  {
    PlainDecimalChars(s);
    NoCommaRemoveAll(s);
    NumericTrimmed(s);
    TrimOfTrimmed(s);
  }

  lemma PlainDecimalChars(s: string)
    requires IsPlainDecimal(s)
    ensures NumericChars(s)
  {
    var body := if s != [] && s[0] == '-' then s[1..] else s;
    PlainBodyChars(body);
    if s != [] && s[0] == '-' {
      forall i | 1 <= i < |s|
        ensures IsDigit(s[i]) || s[i] == '-' || s[i] == '.'
      {
        assert s[i] == body[i - 1];
      }
    }
  }

  lemma NumericTrimmed(s: string)
    requires NumericChars(s)
    ensures IsTrimmed(s)
  {
    if s != [] {
      var a, z := s[0], s[|s| - 1];
      assert IsDigit(a) || a == '-' || a == '.';
      assert IsDigit(z) || z == '-' || z == '.';
    }
  }

  lemma {:induction false} NoCommaRemoveAll(s: string)
    requires NumericChars(s)
    ensures RemoveAll(s, ',') == s
  {
    if s != [] {
      NoCommaRemoveAll(s[1..]);
    }
  }

  /** Digits after the point of `f` (0 <= f < 1), at most `k` of them. */
  function FractionDigits(f: real, k: nat): string
    requires 0.0 <= f < 1.0
    decreases k
  {
    if f == 0.0 || k == 0 then ""
    else
      var d := (f * 10.0).Floor;
      assert 0 <= d < 10;
      [DigitChar(d)] + FractionDigits(f * 10.0 - d as real, k - 1)
  }

  const MaxFractionDigits: nat := 20

  /** `n.toString()`: exact for integers; other values are written with at most
      twenty digits after the point. */
  function NumberText(n: real): (r: string)
    ensures |r| >= 1 && (r[0] == '-' <==> n < 0.0)
  {
    var m := if n < 0.0 then -n else n;
    var whole := m.Floor;
    var digits := NatText(whole) + (if m == whole as real then "" else "." + FractionDigits(m - whole as real, MaxFractionDigits));
    if n < 0.0 then "-" + digits else digits
  }

  /** The decimal text of a natural number reads back as that number. */
  lemma {:induction false} NatTextValue(n: nat)
    ensures AllDigits(NatText(n)) && DigitsValue(NatText(n)) == n
  {
    var t := NatText(n);
    if n < 10 {
      assert t[..0] == [];
    } else {
      var q := NatText(n / 10);
      NatTextValue(n / 10);
      assert t == q + [DigitChar(n % 10)];
      assert t[..|t| - 1] == q;
    }
  }

  /** An integer's text reads back as the integer: `parseFloat(String(k)) === k`. */
  lemma NumberTextWhole(k: int)
    ensures ParseFloat(NumberText(k as real)) == Some(k as real)
  {
    NumberTextOfInt(k);
    var m: nat := if k < 0 then -k else k;
    NatTextReads(m);
    if k < 0 {
      ParseNegated(NatText(m), m as real);
    }
  }

  /** An integer is written as its digits, after a minus sign when negative. */
  lemma NumberTextOfInt(k: int)
    ensures k >= 0 ==> NumberText(k as real) == NatText(k)
    ensures k < 0 ==> NumberText(k as real) == "-" + NatText(-k)
  {
    var m: nat := if k < 0 then -k else k;
    assert (if k as real < 0.0 then -(k as real) else k as real) == m as real;
    assert (m as real).Floor == m;
  }

  /** The text of a natural number reads back as that number, with or without a sign. */
  lemma NatTextReads(m: nat)
    ensures Magnitude(NatText(m)) == Some(m as real)
    ensures ParseFloat(NatText(m)) == Some(m as real)
  {
    NatTextValue(m);
    AllDigitsMagnitude(NatText(m));
    WholeNumber(NatText(m));
  }

  /** A minus sign before an unsigned number negates it. */
  lemma ParseNegated(d: string, m: real)
    requires Magnitude(d) == Some(m)
    ensures ParseFloat("-" + d) == Some(-m)
  {
    var t := "-" + d;
    assert t[0] == '-' && t[1..] == d;
    assert TrimStart(t) == t;
  }

}
