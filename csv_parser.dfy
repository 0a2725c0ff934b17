/**
 * The quoted CSV reader of the service layer (services/csvParser.ts).
 *
 * Input text is trimmed and cut into lines first, so a quoted field can never span lines.
 * Inside a line a double quote only switches "inside quotes" on or off and is dropped; a
 * doubled `""` is two switches, not an escaped quote. Commas outside quotes separate
 * fields and every field is trimmed. The first line names the columns; each later line
 * that is not blank becomes one record.
 */
module CsvParser {
  import opened Text
  import opened Values

  /** Reference reading of a line: the raw pieces between the commas that lie outside
      quotes, with every quote character removed; `inQuotes` is the state at the start. */
  function QuotedSplit(s: string, inQuotes: bool): (r: seq<string>)
    ensures |r| >= 1
  {
    if s == [] then [""]
    else
      var rest := QuotedSplit(s[1..], if s[0] == '"' then !inQuotes else inQuotes);
      if s[0] == '"' then rest
      else if s[0] == ',' && !inQuotes then [""] + rest
      else [[s[0]] + rest[0]] + rest[1..]
  }

  function TrimEach(parts: seq<string>): (r: seq<string>)
    ensures |r| == |parts|
    ensures forall k :: 0 <= k < |r| ==> r[k] == Trim(parts[k])
  {
    seq(|parts|, k requires 0 <= k < |parts| => Trim(parts[k]))
  }

  /** The fields of one line. */
  function Fields(line: string): seq<string> {
    TrimEach(QuotedSplit(line, false))
  }

  /** Commas of `s` outside quotes, given the quote state at the start. */
  function UnquotedCommas(s: string, inQuotes: bool): nat {
    if s == [] then 0
    else if s[0] == '"' then UnquotedCommas(s[1..], !inQuotes)
    else (if s[0] == ',' && !inQuotes then 1 else 0) + UnquotedCommas(s[1..], inQuotes)
  }

  /** `s` without its quote characters. */
  function Unquoted(s: string): string {
    if s == [] then [] else (if s[0] == '"' then [] else [s[0]]) + Unquoted(s[1..])
  }

  /** One field per unquoted comma, plus one. */
  lemma {:induction false} QuotedSplitCount(s: string, inQuotes: bool)
    ensures |QuotedSplit(s, inQuotes)| == UnquotedCommas(s, inQuotes) + 1
  {
    if s != [] {
      QuotedSplitCount(s[1..], if s[0] == '"' then !inQuotes else inQuotes);
    }
  }

  /** No piece contains a quote. */
  lemma {:induction false} QuotedSplitNoQuotes(s: string, inQuotes: bool)
    ensures forall k :: 0 <= k < |QuotedSplit(s, inQuotes)| ==> '"' !in QuotedSplit(s, inQuotes)[k]
  {
    if s != [] {
      QuotedSplitNoQuotes(s[1..], if s[0] == '"' then !inQuotes else inQuotes);
    }
  }

  /** Joining the pieces with commas gives back the line without its quotes: the commas
      outside quotes are exactly the separators. */
  lemma {:induction false} QuotedSplitJoin(s: string, inQuotes: bool)
    ensures Join(QuotedSplit(s, inQuotes), ',') == Unquoted(s)
  {
    if s != [] {
      var q' := if s[0] == '"' then !inQuotes else inQuotes;
      var rest := QuotedSplit(s[1..], q');
      QuotedSplitJoin(s[1..], q');
      if s[0] == ',' && !inQuotes {
        JoinEmptyFirst(rest, ',');
      } else if s[0] != '"' {
        JoinExtendFirst(rest, s[0], ',');
      }
    }
  }

  /** Field count: the number of commas outside quotes plus one. */
  lemma FieldCount(line: string)
    ensures |Fields(line)| == UnquotedCommas(line, false) + 1
  {
    QuotedSplitCount(line, false);
  }

  /** No field contains a quote and every field is trimmed. */
  lemma FieldsClean(line: string)
    ensures forall k :: 0 <= k < |Fields(line)| ==> '"' !in Fields(line)[k]
    ensures forall k :: 0 <= k < |Fields(line)| ==> Trim(Fields(line)[k]) == Fields(line)[k]
  {
    var pieces := QuotedSplit(line, false);
    QuotedSplitNoQuotes(line, false);
    forall k | 0 <= k < |pieces|
      ensures '"' !in Trim(pieces[k]) && Trim(Trim(pieces[k])) == Trim(pieces[k])
    {
      TrimIdempotent(pieces[k]);
      TrimSubsequence(pieces[k], '"');
    }
  }

  /** Trimming adds no characters. */
  lemma TrimSubsequence(s: string, c: char)
    requires c !in s
    ensures c !in Trim(s)
  {
    var t := TrimStart(s);
    TrimStartFacts(s);
    assert forall i :: 0 <= i < |t| ==> t[i] == s[|s| - |t| + i];
    var r := TrimEnd(t);
    TrimEndFacts(t);
    assert forall i :: 0 <= i < |r| ==> r[i] == t[i];
  }

  /** What is left of the fields at position `i`, when `current` holds the characters of
      the open field read so far and `inQuotes` is the quote state there. */
  ghost predicate SplitAt(line: string, i: nat, inQuotes: bool, raw: seq<string>, current: string)
    requires i <= |line|
  {
    var tail := QuotedSplit(line[i..], inQuotes);
    raw + [current + tail[0]] + tail[1..] == QuotedSplit(line, false)
  }

  /** One step of `parseLine` keeps `SplitAt`. */
  lemma SplitStep(line: string, i: nat, inQuotes: bool, raw: seq<string>, current: string)
    requires i < |line| && SplitAt(line, i, inQuotes, raw, current)
    ensures line[i] == '"' ==> SplitAt(line, i + 1, !inQuotes, raw, current)
    ensures line[i] == ',' && !inQuotes ==> SplitAt(line, i + 1, inQuotes, raw + [current], "")
    ensures line[i] != '"' && !(line[i] == ',' && !inQuotes) ==>
      SplitAt(line, i + 1, inQuotes, raw, current + [line[i]])
  {
    var c := line[i];
    assert line[i..][1..] == line[i + 1..];
    var q' := if c == '"' then !inQuotes else inQuotes;
    var tail := QuotedSplit(line[i + 1..], q');
    var here := QuotedSplit(line[i..], inQuotes);
    if c == '"' {
      assert here == tail;
    } else if c == ',' && !inQuotes {
      assert here == [""] + tail;
      assert [tail[0]] + tail[1..] == tail;
      assert here[0] == "" && here[1..] == tail;
      assert current + here[0] == current && "" + tail[0] == tail[0];
      assert raw + [current] + tail == raw + [current] + [tail[0]] + tail[1..];
    } else {
      assert here == [[c] + tail[0]] + tail[1..];
      assert current + ([c] + tail[0]) == (current + [c]) + tail[0];
    }
  }

  /** `parseLine`: one pass over the characters, toggling the quote state on `"`, closing
      a trimmed field on an unquoted comma and otherwise extending the current field. */
  method ParseLine(line: string) returns (result: seq<string>)
    ensures result == Fields(line)
  {
    result := [];
    ghost var raw: seq<string> := [];
    var current := "";
    var inQuotes := false;
    var i := 0;
    assert line[0..] == line;
    ghost var whole := QuotedSplit(line, false);
    assert "" + whole[0] == whole[0] && [whole[0]] + whole[1..] == whole;
    while i < |line|
      invariant 0 <= i <= |line|
      invariant result == TrimEach(raw)
      invariant SplitAt(line, i, inQuotes, raw, current)
    {
      var c := line[i];
      SplitStep(line, i, inQuotes, raw, current);
      if c == '"' {
        inQuotes := !inQuotes;
      } else if c == ',' && !inQuotes {
        result := result + [Trim(current)];
        raw := raw + [current];
        current := "";
      } else {
        current := current + [c];
      }
      i := i + 1;
    }
    assert line[i..] == [];
    assert current + "" == current;
    result := result + [Trim(current)];
    raw := raw + [current];
  }

  /** `row[header] = values[index] || ''` for the headers in order: a later duplicate
      header overwrites an earlier one. */
  function RowOf(headers: seq<string>, values: seq<string>): (row: TextRow)
    ensures row.Keys == set h | h in headers
  {
    if headers == [] then map[]
    else
      var j := |headers| - 1;
      RowOf(headers[..j], values)[headers[j] := if j < |values| then values[j] else ""]
  }

  /** Each column gets the value at the position of its last occurrence among the headers,
      and `''` when the line has no value there. */
  lemma {:induction false} RowOfValue(headers: seq<string>, values: seq<string>, j: nat)
    requires j < |headers|
    requires forall k :: j < k < |headers| ==> headers[k] != headers[j]
    ensures RowOf(headers, values)[headers[j]] == if j < |values| then values[j] else ""
  {
    var last := |headers| - 1;
    if j < last {
      assert headers[..last][j] == headers[j];
      RowOfValue(headers[..last], values, j);
    }
  }

  /** Every value of a record is `''` or one of the line's values. */
  lemma {:induction false} RowOfValues(headers: seq<string>, values: seq<string>)
    ensures forall h | h in RowOf(headers, values) :: RowOf(headers, values)[h] == "" || RowOf(headers, values)[h] in values
  {
    if headers != [] {
      RowOfValues(headers[..|headers| - 1], values);
    }
  }

  predicate IsBlank(line: string) {
    Trim(line) == ""
  }

  /** The records of the lines after the header, in order; blank lines give none. */
  function Records(headers: seq<string>, lines: seq<string>): seq<TextRow> {
    if lines == [] then []
    else
      var last := lines[|lines| - 1];
      Records(headers, lines[..|lines| - 1])
        + (if IsBlank(last) then [] else [RowOf(headers, Fields(last))])
  }

  lemma RecordsSnoc(headers: seq<string>, lines: seq<string>)
    requires lines != []
    ensures Records(headers, lines) == Records(headers, lines[..|lines| - 1])
      + (if IsBlank(lines[|lines| - 1]) then [] else [RowOf(headers, Fields(lines[|lines| - 1]))])
  {
  }

  /** `parseCSV` as a value. */
  function CsvRows(text: string): seq<TextRow> {
    var lines := SplitLines(Trim(text));
    if |lines| <= 1 then [] else Records(Fields(lines[0]), lines[1..])
  }

  /** `parseCSV`: a text of fewer than two lines gives no records; otherwise the first
      line gives the headers and every later non-blank line one record. */
  method ParseCsv(text: string) returns (data: seq<TextRow>)
    ensures |SplitLines(Trim(text))| <= 1 ==> data == []
    ensures data == CsvRows(text)
  {
    var lines := SplitLines(Trim(text));
    if |lines| <= 1 {
      return [];
    }
    var headers := ParseLine(lines[0]);
    data := ReadRecords(headers, lines[1..]);
  }

  /** The line loop of `parseCSV`: skips blank lines and turns each other line into one
      record keyed by `headers`. */
  method ReadRecords(headers: seq<string>, lines: seq<string>) returns (data: seq<TextRow>)
    ensures data == Records(headers, lines)
  {
    data := [];
    var i := 0;
    while i < |lines|
      invariant 0 <= i <= |lines|
      invariant data == Records(headers, lines[..i])
    {
      assert lines[..i + 1][..i] == lines[..i];
      if Trim(lines[i]) != "" {
        var values := ParseLine(lines[i]);
        data := data + [RowOf(headers, values)];
      }
      i := i + 1;
    }
    assert lines[..i] == lines;
  }

  /** The non-blank lines of `lines`, in order. */
  function NonBlank(lines: seq<string>): seq<string> {
    if lines == [] then []
    else NonBlank(lines[..|lines| - 1]) + (if IsBlank(lines[|lines| - 1]) then [] else [lines[|lines| - 1]])
  }

  /** Record `k` is read from the `k`-th non-blank line, and every record has exactly the
      header names as keys. */
  lemma {:induction false} RecordsOfNonBlank(headers: seq<string>, lines: seq<string>)
    ensures |Records(headers, lines)| == |NonBlank(lines)|
    ensures forall k :: 0 <= k < |NonBlank(lines)| ==>
      Records(headers, lines)[k] == RowOf(headers, Fields(NonBlank(lines)[k]))
    ensures forall k :: 0 <= k < |NonBlank(lines)| ==>
      Records(headers, lines)[k].Keys == set h | h in headers
  {
    if lines != [] {
      RecordsOfNonBlank(headers, lines[..|lines| - 1]);
    }
  }

  /** `trimAllFields`: the same keys, text values trimmed, numbers as they are. */
  function TrimAllFields(row: Row): (r: Row)
    ensures r.Keys == row.Keys
    ensures forall k | k in row && row[k].Num? :: r[k] == row[k]
    ensures forall k | k in row && row[k].Str? :: r[k] == Str(Trim(row[k].s))
  {
    map k | k in row :: match row[k] case Str(s) => Str(Trim(s)) case Num(n) => Num(n)
  }

  /** Trimming all fields twice is trimming them once. */
  lemma TrimAllFieldsIdempotent(row: Row)
    ensures TrimAllFields(TrimAllFields(row)) == TrimAllFields(row)
  {
    var once := TrimAllFields(row);
    forall k | k in once && once[k].Str?
      ensures Trim(once[k].s) == once[k].s
    {
      TrimIdempotent(row[k].s);
    }
  }
}
