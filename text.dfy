/**
 * String operations of the JavaScript runtime that the GSTR-1 pipeline relies on:
 * `trim`, `includes`, `split`, `replace` (first occurrence), ASCII case mapping,
 * integer formatting and the UTF-16 view used by `length` and `charCodeAt`.
 * Strings are sequences of Unicode scalar values.
 */
module Text {

  /** The characters `String.prototype.trim` removes and the regular-expression class `\s`
      matches: ECMAScript WhiteSpace (including every Zs space) and LineTerminator. */
  predicate IsSpace(c: char) {
    || c == ' ' || c == '\t' || c == '\n' || c == '\r' || c == '\U{000B}' || c == '\U{000C}'
    || c == '\U{00A0}' || c == '\U{1680}' || ('\U{2000}' <= c <= '\U{200A}')
    || c == '\U{2028}' || c == '\U{2029}' || c == '\U{202F}' || c == '\U{205F}'
    || c == '\U{3000}' || c == '\U{FEFF}'
  }

  predicate IsTrimmed(s: string) {
    s == [] || (!IsSpace(s[0]) && !IsSpace(s[|s| - 1]))
  }

  /** Drops leading white space. */
  function TrimStart(s: string): (r: string)
    ensures |r| <= |s|
  {
    if s != [] && IsSpace(s[0]) then TrimStart(s[1..]) else s
  }

  /** `TrimStart` keeps a suffix of `s` that does not start with white space, and what it
      drops is white space. */
  lemma {:induction false} TrimStartFacts(s: string)
    ensures var r := TrimStart(s);
      && r == s[|s| - |r|..]
      && (r == [] || !IsSpace(r[0]))
      && forall i :: 0 <= i < |s| - |r| ==> IsSpace(s[i])
  {
    if s != [] && IsSpace(s[0]) {
      TrimStartFacts(s[1..]);
      assert forall i :: 1 <= i < |s| ==> s[i] == s[1..][i - 1];
    }
  }

  /** Drops trailing white space. */
  function TrimEnd(s: string): (r: string)
    ensures |r| <= |s|
  {
    if s != [] && IsSpace(s[|s| - 1]) then TrimEnd(s[..|s| - 1]) else s
  }

  /** `TrimEnd` keeps a prefix of `s` that does not end with white space, and what it drops
      is white space. */
  lemma {:induction false} TrimEndFacts(s: string)
    ensures var r := TrimEnd(s);
      && r == s[..|r|]
      && (r == [] || !IsSpace(r[|r| - 1]))
      && forall i :: |r| <= i < |s| ==> IsSpace(s[i])
  {
    if s != [] && IsSpace(s[|s| - 1]) {
      TrimEndFacts(s[..|s| - 1]);
    }
  }

  /** `s.trim()`: the longest infix of `s` that neither starts nor ends with white space. */
  function Trim(s: string): (r: string)
    ensures IsTrimmed(r) && |r| <= |s|
  {
    var t := TrimStart(s);
    var r := TrimEnd(t);
    TrimStartFacts(s);
    TrimEndFacts(t);
    assert r == [] || r[0] == t[0];
    r
  }

  lemma TrimOfTrimmed(s: string)
    requires IsTrimmed(s)
    ensures Trim(s) == s
  {
  }

  /** Trimming twice is trimming once. */
  lemma TrimIdempotent(s: string)
    ensures Trim(Trim(s)) == Trim(s)
  {
    TrimOfTrimmed(Trim(s));
  }

  /** `s.includes(sub)`. */
  predicate Contains(s: string, sub: string) {
    sub <= s || (s != [] && Contains(s[1..], sub))
  }

  lemma {:induction false} ContainsAt(s: string, sub: string, i: nat)
    requires i + |sub| <= |s| && s[i..i + |sub|] == sub
    ensures Contains(s, sub)
  {
    if i > 0 {
      assert s[1..][i - 1..i - 1 + |sub|] == sub;
      ContainsAt(s[1..], sub, i - 1);
    }
  }

  lemma {:induction false} ContainsWitness(s: string, sub: string) returns (i: nat)
    requires Contains(s, sub)
    ensures i + |sub| <= |s| && s[i..i + |sub|] == sub
  {
    if sub <= s {
      i := 0;
    } else {
      var j := ContainsWitness(s[1..], sub);
      i := j + 1;
    }
  }

  /** A string containing `big` contains every infix of `big`. */
  lemma ContainsInfix(s: string, big: string, k: nat, sub: string)
    requires Contains(s, big)
    requires k + |sub| <= |big| && big[k..k + |sub|] == sub
    ensures Contains(s, sub)
  {
    var i := ContainsWitness(s, big);
    forall t | 0 <= t < |sub|
      ensures s[i + k + t] == sub[t]
    {
      assert s[i + k + t] == s[i..i + |big|][k + t];
      assert big[k + t] == big[k..k + |sub|][t];
    }
    assert s[i + k..i + k + |sub|] == sub;
    ContainsAt(s, sub, i + k);
  }

  /** Every character of a contained text occurs in the containing text. */
  lemma ContainsChar(s: string, sub: string, k: nat)
    ensures Contains(s, sub) && k < |sub| ==> sub[k] in s
  {
    if Contains(s, sub) && k < |sub| {
      var i := ContainsWitness(s, sub);
      assert s[i..i + |sub|][k] == s[i + k];
    }
  }

  function UpperChar(c: char): char {
    if 'a' <= c <= 'z' then (c as int - 32) as char else c
  }

  function LowerChar(c: char): char {
    if 'A' <= c <= 'Z' then (c as int + 32) as char else c
  }

  /** `s.toUpperCase()` on the ASCII letters. */
  function ToUpper(s: string): (r: string)
    ensures |r| == |s|
  {
    seq(|s|, i requires 0 <= i < |s| => UpperChar(s[i]))
  }

  /** `s.toLowerCase()` on the ASCII letters: no capital letter is left. */
  function ToLower(s: string): (r: string)
    ensures |r| == |s|
    ensures forall i :: 0 <= i < |r| ==> !('A' <= r[i] <= 'Z')
  {
    seq(|s|, i requires 0 <= i < |s| => LowerChar(s[i]))
  }

  /** Upper-casing first makes no difference to the lower-cased text. */
  lemma LowerOfUpper(s: string)
    ensures ToLower(ToUpper(s)) == ToLower(s)
  {
    forall i | 0 <= i < |s|
      ensures ToLower(ToUpper(s))[i] == ToLower(s)[i]
    {
      assert ToUpper(s)[i] == UpperChar(s[i]);
    }
  }

  /** Number of occurrences of `c` in `s`. */
  function Count(s: string, c: char): nat {
    if s == [] then 0 else Count(s[..|s| - 1], c) + (if s[|s| - 1] == c then 1 else 0)
  }

  /** Joins `parts` with `sep` between consecutive parts (`parts.join(sep)`). */
  function Join(parts: seq<string>, sep: char): string
    requires |parts| >= 1
  {
    if |parts| == 1 then parts[0] else parts[0] + [sep] + Join(parts[1..], sep)
  }

  /** An empty first part contributes only its separator. */
  lemma JoinEmptyFirst(parts: seq<string>, sep: char)
    requires |parts| >= 1
    ensures Join([""] + parts, sep) == [sep] + Join(parts, sep)
  {
    assert ([""] + parts)[1..] == parts;
  }

  /** A character put in front of the first part comes first in the joined text. */
  lemma JoinExtendFirst(parts: seq<string>, c: char, sep: char)
    requires |parts| >= 1
    ensures Join([[c] + parts[0]] + parts[1..], sep) == [c] + Join(parts, sep)
  {
    var q := [[c] + parts[0]] + parts[1..];
    assert q[0] == [c] + parts[0] && q[1..] == parts[1..];
  }

  /** `s.split(sep)` for a one-character separator. */
  function SplitOn(s: string, sep: char): (r: seq<string>)
    ensures |r| >= 1
  {
    if s == [] then [""]
    else
      var rest := SplitOn(s[1..], sep);
      if s[0] == sep then [""] + rest else [[s[0]] + rest[0]] + rest[1..]
  }

  /** Splitting and re-joining with the same separator gives the input back,
      and no piece contains the separator. */
  lemma {:induction false} SplitOnJoin(s: string, sep: char)
    ensures Join(SplitOn(s, sep), sep) == s
    ensures forall k :: 0 <= k < |SplitOn(s, sep)| ==> sep !in SplitOn(s, sep)[k]
  {
    if s != [] {
      var rest := SplitOn(s[1..], sep);
      SplitOnJoin(s[1..], sep);
      assert s == [s[0]] + s[1..];
      if s[0] != sep {
        JoinExtendFirst(rest, s[0], sep);
        var r := SplitOn(s, sep);
        forall k | 0 <= k < |r|
          ensures sep !in r[k]
        {
          if k > 0 {
            assert r[k] == rest[k];
          }
        }
      } else {
        JoinEmptyFirst(rest, sep);
      }
    }
  }

  /** A string with `n` separators splits into `n + 1` pieces. */
  lemma {:induction false} SplitOnCount(s: string, sep: char)
    ensures |SplitOn(s, sep)| == CountFront(s, sep) + 1
  {
    if s != [] {
      SplitOnCount(s[1..], sep);
    }
  }

  /** Occurrences of `c`, counted from the front (equal to `Count`). */
  function CountFront(s: string, c: char): nat {
    if s == [] then 0 else (if s[0] == c then 1 else 0) + CountFront(s[1..], c)
  }

  lemma {:induction false} CountFrontIsCount(s: string, c: char)
    ensures CountFront(s, c) == Count(s, c)
  {
    if s != [] {
      CountFrontIsCount(s[1..], c);
      if |s| > 1 {
        CountFrontIsCount(s[..|s| - 1], c);
        CountFrontIsCount(s[1..][..|s| - 2], c);
        assert s[1..][..|s| - 2] == s[..|s| - 1][1..];
      } else {
        assert s[..|s| - 1] == [];
      }
    }
  }

  /** Drops one trailing carriage return. */
  function DropCarriageReturn(line: string): string {
    if line != [] && line[|line| - 1] == '\r' then line[..|line| - 1] else line
  }

  /** `s.split(/\r?\n/)`: split at every line feed; a carriage return directly before a
      line feed belongs to the separator. */
  function SplitLines(s: string): (r: seq<string>)
    ensures |r| == |SplitOn(s, '\n')| >= 1
  {
    var pieces := SplitOn(s, '\n');
    seq(|pieces|, i requires 0 <= i < |pieces| =>
      if i < |pieces| - 1 then DropCarriageReturn(pieces[i]) else pieces[i])
  }

  /** A text has one line more than it has line feeds. */
  lemma LineCount(s: string)
    ensures |SplitLines(s)| == Count(s, '\n') + 1
  {
    SplitOnCount(s, '\n');
    CountFrontIsCount(s, '\n');
  }

  /** Index of the first occurrence of `pat` in `s`, if any. */
  function IndexOf(s: string, pat: string): (r: Option<nat>)
    ensures r.Some? ==> r.value + |pat| <= |s|
  {
    if pat <= s then Some(0)
    else if s == [] then None
    else match IndexOf(s[1..], pat)
      case None => None
      case Some(i) => Some(i + 1)
  }

  /** `IndexOf` finds where `pat` starts in `s`, and no earlier start; it finds nothing only
      when `pat` starts nowhere in `s`. */
  lemma {:induction false} IndexOfSpec(s: string, pat: string)
    ensures var r := IndexOf(s, pat);
      && (r.Some? ==> s[r.value..r.value + |pat|] == pat)
      && (r.Some? ==> forall j :: 0 <= j < r.value ==> !(pat <= s[j..]))
      && (r.None? ==> forall j :: 0 <= j <= |s| ==> !(pat <= s[j..]))
  {
    if !(pat <= s) && s != [] {
      IndexOfSpec(s[1..], pat);
      assert forall j :: 1 <= j <= |s| ==> s[j..] == s[1..][j - 1..];
      match IndexOf(s[1..], pat)
      case None =>
      case Some(i) =>
        TailSlice(s, i, |pat|);
    }
  }

  /** A slice of the tail is the slice of `s` one position further on. */
  lemma TailSlice<T>(s: seq<T>, i: nat, n: nat)
    requires s != [] && i + n <= |s| - 1
    ensures s[1..][i..i + n] == s[i + 1..i + 1 + n]
  {
  }

  /** `s.replace(pat, rep)` with a string pattern: only the first occurrence is replaced. */
  function ReplaceFirst(s: string, pat: string, rep: string): string {
    match IndexOf(s, pat)
    case None => s
    case Some(i) => s[..i] + rep + s[i + |pat|..]
  }

  /** `s.replace(/c/g, '')`. */
  function RemoveAll(s: string, c: char): (r: string)
    ensures c !in r
  {
    if s == [] then [] else (if s[0] == c then [] else [s[0]]) + RemoveAll(s[1..], c)
  }

  datatype Option<T> = None | Some(value: T)

  function DigitChar(d: nat): char
    requires d < 10
  {
    ('0' as int + d) as char
  }

  /** Decimal text of a natural number, without leading zeros (`n.toString()`). */
  function NatText(n: nat): (r: string)
    ensures |r| >= 1
    ensures forall i :: 0 <= i < |r| ==> '0' <= r[i] <= '9'
  {
    if n < 10 then [DigitChar(n)] else NatText(n / 10) + [DigitChar(n % 10)]
  }

  /** `t.padStart(2, '0')`. */
  function PadStart2(t: string): (r: string)
    ensures |r| == if |t| < 2 then 2 else |t|
  {
    if |t| == 0 then "00" else if |t| == 1 then "0" + t else t
  }

  /** The UTF-16 code units of `s`: what `length`, `split('')` and `charCodeAt` see. */
  function Utf16Units(s: string): (r: seq<nat>)
    ensures |r| >= |s|
    ensures forall k :: 0 <= k < |r| ==> r[k] < 0x1_0000
  {
    if s == [] then []
    else
      var c := s[0] as int;
      (if c < 0x1_0000 then [c as nat]
       else [0xD800 + (c - 0x1_0000) / 0x400, 0xDC00 + (c - 0x1_0000) % 0x400]) + Utf16Units(s[1..])
  }

  function Sum(xs: seq<nat>): nat {
    if xs == [] then 0 else Sum(xs[..|xs| - 1]) + xs[|xs| - 1]
  }
}
