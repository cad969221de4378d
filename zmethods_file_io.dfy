/**
  The text parsing of Runtime/ZMethodsFileIO.cs, on the text of a TextAsset: splitting
  into non-empty lines, parsing every line into a value, and reading a comma-separated
  sheet into dictionaries keyed by the first column and by the header row.
*/
module ZMethodsFileIO {
  import opened Wrappers

  /** The line separator, Environment.NewLine on Unix-like platforms. */
  const NewLine: char := '\n'

  /** What the parsing can throw: textAsset.text on null, a parse failure wrapped as a
      FormatException naming the line, and headers[j] indexed past the header count. */
  datatype FileError = NullReference | FormatError(line: string) | IndexOutOfRange

  // ---------------------------------------------------------------- String.Split(char)

  /** String.Split(separator): the pieces between separators, empty ones included. */
  function SplitOn(s: string, separator: char): (parts: seq<string>)
    ensures 1 <= |parts|
    ensures forall i :: 0 <= i < |parts| ==> separator !in parts[i]
  {
    if s == [] then [""]
    else
      var rest := SplitOn(s[1..], separator);
      if s[0] == separator then [""] + rest
      else [[s[0]] + rest[0]] + rest[1..]
  }

  /** The pieces joined back with the separator between them. */
  function Join(parts: seq<string>, separator: char): string
    requires 1 <= |parts|
  {
    if |parts| == 1 then parts[0] else parts[0] + [separator] + Join(parts[1..], separator)
  }

  /** Splitting loses nothing: joining the pieces with the separator gives the string back. */
  lemma {:induction false} SplitJoin(s: string, separator: char)
    ensures Join(SplitOn(s, separator), separator) == s
  {
    if s != [] {
      var rest := SplitOn(s[1..], separator);
      SplitJoin(s[1..], separator);
      if s[0] == separator {
        assert ([""] + rest)[1..] == rest;
      } else {
        var parts := [[s[0]] + rest[0]] + rest[1..];
        if |rest| == 1 {
          assert Join(parts, separator) == [s[0]] + rest[0];
        } else {
          assert parts[1..] == rest[1..];
          assert Join(parts, separator) == [s[0]] + rest[0] + [separator] + Join(rest[1..], separator);
        }
      }
    }
  }

  // ---------------------------------------------------------------- GetLines

  /** The pieces that are not empty (StringSplitOptions.RemoveEmptyEntries). */
  function NonEmpty(parts: seq<string>): (r: seq<string>)
    ensures forall i :: 0 <= i < |r| ==> r[i] != "" && r[i] in parts
  {
    if parts == [] then []
    else if parts[0] == "" then NonEmpty(parts[1..])
    else [parts[0]] + NonEmpty(parts[1..])
  }

  /** GetLines: the text split at line breaks, empty lines removed. */
  function GetLines(content: string): (lines: seq<string>)
    ensures forall i :: 0 <= i < |lines| ==> lines[i] != "" && NewLine !in lines[i]
  {
    NonEmpty(SplitOn(content, NewLine))
  }

  function Concat(parts: seq<string>): string {
    if parts == [] then "" else parts[0] + Concat(parts[1..])
  }

  /** s without the character c. */
  function Without(s: string, c: char): string {
    if s == [] then "" else (if s[0] == c then "" else [s[0]]) + Without(s[1..], c)
  }

  lemma {:induction false} ConcatSplit(s: string, separator: char)
    ensures Concat(SplitOn(s, separator)) == Without(s, separator)
  {
    if s != [] {
      var rest := SplitOn(s[1..], separator);
      ConcatSplit(s[1..], separator);
      if s[0] == separator {
        assert ([""] + rest)[1..] == rest;
      } else {
        var parts := [[s[0]] + rest[0]] + rest[1..];
        assert parts[1..] == rest[1..];
        assert Concat(rest) == rest[0] + Concat(rest[1..]);
      }
    }
  }

  lemma {:induction false} ConcatNonEmpty(parts: seq<string>)
    ensures Concat(NonEmpty(parts)) == Concat(parts)
  {
    if parts != [] {
      var rest := NonEmpty(parts[1..]);
      ConcatNonEmpty(parts[1..]);
      assert Concat(parts) == parts[0] + Concat(parts[1..]);
      if parts[0] != "" {
        var r := [parts[0]] + rest;
        assert NonEmpty(parts) == r;
        assert r[0] == parts[0] && r[1..] == rest;
        assert Concat(r) == parts[0] + Concat(rest);
      } else {
        assert NonEmpty(parts) == rest;
        assert parts[0] + Concat(parts[1..]) == Concat(parts[1..]);
      }
    }
  }

  /** The lines hold exactly the characters of the text other than line breaks, in order. */
  lemma GetLinesKeepsText(content: string)
    ensures Concat(GetLines(content)) == Without(content, NewLine)
  {
    ConcatNonEmpty(SplitOn(content, NewLine));
    ConcatSplit(content, NewLine);
  }

  /** Splitting at one separator splits the two sides independently. */
  lemma {:induction false} SplitAtSeparator(a: string, separator: char, b: string)
    ensures SplitOn(a + [separator] + b, separator) == SplitOn(a, separator) + SplitOn(b, separator)
    decreases |a|
  {
    if a == [] {
      assert [separator] + b == a + [separator] + b;
      assert ([separator] + b)[1..] == b;
    } else {
      var s := a + [separator] + b;
      assert s[0] == a[0] && s[1..] == a[1..] + [separator] + b;
      SplitAtSeparator(a[1..], separator, b);
      var tail, rest := SplitOn(a[1..], separator), SplitOn(b, separator);
      assert SplitOn(s[1..], separator) == tail + rest;
      if a[0] != separator {
        assert (tail + rest)[0] == tail[0] && (tail + rest)[1..] == tail[1..] + rest;
      }
    }
  }

  lemma {:induction false} NonEmptyAppend(x: seq<string>, y: seq<string>)
    ensures NonEmpty(x + y) == NonEmpty(x) + NonEmpty(y)
    decreases |x|
  {
    if x == [] {
      assert x + y == y;
    } else {
      NonEmptyAppend(x[1..], y);
      assert (x + y)[0] == x[0] && (x + y)[1..] == x[1..] + y;
      if x[0] != "" {
        assert NonEmpty(x + y) == [x[0]] + NonEmpty(x[1..] + y);
      }
    }
  }

  /** A text without a line break is one line, or none when it is empty. */
  lemma GetLinesOfOneLine(content: string)
    requires NewLine !in content
    ensures GetLines(content) == if content == "" then [] else [content]
  {
    SplitWithoutSeparator(content, NewLine);
    assert [content][0] == content && [content][1..] == [];
    assert NonEmpty([content]) == (if content == "" then [] else [content]) + NonEmpty([]);
  }

  lemma {:induction false} SplitWithoutSeparator(s: string, separator: char)
    requires separator !in s
    ensures SplitOn(s, separator) == [s]
    decreases |s|
  {
    if s != [] {
      SplitWithoutSeparator(s[1..], separator);
      assert [s[0]] + s[1..] == s;
    }
  }

  /** Every line break separates lines: the text before it and the text after it are split
      on their own, and their lines are listed one after the other. */
  lemma GetLinesAtBreak(a: string, b: string)
    ensures GetLines(a + [NewLine] + b) == GetLines(a) + GetLines(b)
  {
    SplitAtSeparator(a, NewLine, b);
    NonEmptyAppend(SplitOn(a, NewLine), SplitOn(b, NewLine));
  }

  /** Two lines and an empty one between them: the empty line is dropped. */
  lemma GetLinesExample()
    ensures GetLines("ab\n\ncd") == ["ab", "cd"]
  {
    var tail := [NewLine] + "cd";
    assert GetLines(tail) == ["cd"] by {
      assert tail == "" + [NewLine] + "cd";
      GetLinesAtBreak("", "cd");
      GetLinesOfOneLine("");
      GetLinesOfOneLine("cd");
    }
    assert GetLines("ab" + [NewLine] + tail) == ["ab", "cd"] by {
      GetLinesAtBreak("ab", tail);
      GetLinesOfOneLine("ab");
    }
    assert "ab\n\ncd" == "ab" + [NewLine] + tail;
  }

  // ---------------------------------------------------------------- GetArrayFromTextAsset

  /** Select(parseFunc) then ToArray: every line parsed in order; parseFunc returning None
      stands for it throwing, which stops at that line with a FormatException. */
  function ParseLines<V>(lines: seq<string>, parseFunc: string -> Option<V>): (r: Result<seq<V>, FileError>)
    ensures r.Success? ==> |r.value| == |lines|
  {
    if lines == [] then Success([])
    else
      match parseFunc(lines[0])
      case None => Failure(FormatError(lines[0]))
      case Some(v) =>
        match ParseLines(lines[1..], parseFunc)
        case Failure(e) => Failure(e)
        case Success(vs) => Success([v] + vs)
  }

  /** On success the i-th value is the parse of the i-th line; on failure the error names the
      first line that does not parse. */
  lemma {:induction false} ParseLinesMeaning<V>(lines: seq<string>, parseFunc: string -> Option<V>)
    ensures ParseLines(lines, parseFunc).Success? ==>
      forall i :: 0 <= i < |lines| ==> parseFunc(lines[i]) == Some(ParseLines(lines, parseFunc).value[i])
    ensures ParseLines(lines, parseFunc).Failure? ==>
      exists i :: (0 <= i < |lines| && parseFunc(lines[i]).None? &&
                   ParseLines(lines, parseFunc).error == FormatError(lines[i]) &&
                   forall k :: 0 <= k < i ==> parseFunc(lines[k]).Some?)
    ensures (forall i :: 0 <= i < |lines| ==> parseFunc(lines[i]).Some?) <==> ParseLines(lines, parseFunc).Success?
  {
    if lines != [] {
      ParseLinesMeaning(lines[1..], parseFunc);
      var r := ParseLines(lines, parseFunc);
      if parseFunc(lines[0]).None? {
        assert parseFunc(lines[0]).None? && r.error == FormatError(lines[0]);
      } else if r.Success? {
        forall i | 0 <= i < |lines| ensures parseFunc(lines[i]) == Some(r.value[i]) {
          if i > 0 {
            assert lines[i] == lines[1..][i - 1];
          }
        }
      } else {
        var i :| 0 <= i < |lines[1..]| &&
          (parseFunc(lines[1..][i]).None? && ParseLines(lines[1..], parseFunc).error == FormatError(lines[1..][i]) &&
           forall k :: 0 <= k < i ==> parseFunc(lines[1..][k]).Some?);
        assert lines[i + 1] == lines[1..][i];
        forall k | 0 <= k < i + 1 ensures parseFunc(lines[k]).Some? {
          if k > 0 {
            assert lines[k] == lines[1..][k - 1];
          }
        }
      }
      if forall i :: 0 <= i < |lines| ==> parseFunc(lines[i]).Some? {
        forall i | 0 <= i < |lines[1..]| ensures parseFunc(lines[1..][i]).Some? {
          assert lines[1..][i] == lines[i + 1];
        }
      }
    }
  }

  /** GetArrayFromTextAsset on the asset's text (None standing for a null asset). */
  function GetArrayFromTextAsset<V>(textAsset: Option<string>, parseFunc: string -> Option<V>, doAllowNull: bool)
    : (r: Result<Option<seq<V>>, FileError>)
    ensures doAllowNull && textAsset.None? ==> r == Success(None)
    ensures !doAllowNull && textAsset.None? ==> r == Failure(NullReference)
    ensures textAsset.Some? && r.Success? ==> r.value.Some? && |r.value.value| == |GetLines(textAsset.value)|
  {
    if doAllowNull && textAsset.None? then Success(None)
    else if textAsset.None? then Failure(NullReference)
    else
      match ParseLines(GetLines(textAsset.value), parseFunc)
      case Failure(e) => Failure(e)
      case Success(vs) => Success(Some(vs))
  }

  // ---------------------------------------------------------------- GetNestedDictsFromCSVSpreadSheet

  function FieldOrDefault(field: string, defaultString: string): string {
    if field == "" then defaultString else field
  }

  /** The inner dictionary after fields 1..k-1 of a row: headers[j] maps to field j (or the
      default for an empty field), a later equal header overwriting an earlier one. */
  function InnerDict(headers: seq<string>, entries: seq<string>, defaultString: string, k: nat): (m: map<string, string>)
    requires k <= |entries| && k <= |headers|
    ensures forall key :: key in m <==> exists j :: 1 <= j < k && headers[j] == key
  {
    if k <= 1 then map[]
    else InnerDict(headers, entries, defaultString, k - 1)[headers[k - 1] := FieldOrDefault(entries[k - 1], defaultString)]
  }

  /** The value under headers[j] is field j when no later column has the same header. */
  lemma {:induction false} InnerDictValue(headers: seq<string>, entries: seq<string>, defaultString: string, k: nat, j: nat)
    requires k <= |entries| && k <= |headers| && 1 <= j < k
    requires forall j' :: j < j' < k ==> headers[j'] != headers[j]
    ensures InnerDict(headers, entries, defaultString, k)[headers[j]] == FieldOrDefault(entries[j], defaultString)
  {
    if j < k - 1 {
      InnerDictValue(headers, entries, defaultString, k - 1, j);
    }
  }

  /** The comma-separated fields of line i. */
  function Fields(lines: seq<string>, i: nat): seq<string>
    requires i < |lines|
  {
    SplitOn(lines[i], ',')
  }

  /** The dictionary after data rows 1..i-1 of the sheet: a row with fewer fields than headers
      is skipped, a row with more makes headers[j] go out of range, a row with exactly as many
      is stored under its first field, replacing an earlier row with the same first field. */
  function SheetUpTo(lines: seq<string>, headers: seq<string>, defaultString: string, i: nat)
    : Result<map<string, map<string, string>>, FileError>
    requires 1 <= i <= |lines|
  {
    if i == 1 then Success(map[])
    else
      match SheetUpTo(lines, headers, defaultString, i - 1)
      case Failure(e) => Failure(e)
      case Success(m) =>
        var entries := Fields(lines, i - 1);
        if |entries| < |headers| then Success(m)
        else if |entries| > |headers| then Failure(IndexOutOfRange)
        else Success(m[entries[0] := InnerDict(headers, entries, defaultString, |entries|)])
  }

  /** What GetNestedDictsFromCSVSpreadSheet returns for a text: an empty dictionary without
      lines; otherwise the first line gives the headers and the other lines the rows. */
  function NestedDicts(text: string, defaultString: string): (r: Result<map<string, map<string, string>>, FileError>)
    ensures GetLines(text) == [] ==> r == Success(map[])
    ensures r.Failure? ==> r.error == IndexOutOfRange
  {
    var lines := GetLines(text);
    if |lines| == 0 then Success(map[])
    else
      SheetErrorIsIndex(lines, Fields(lines, 0), defaultString, |lines|);
      SheetUpTo(lines, Fields(lines, 0), defaultString, |lines|)
  }

  /** The only error a sheet read reports is an index out of range. */
  lemma {:induction false} SheetErrorIsIndex(lines: seq<string>, headers: seq<string>, defaultString: string, n: nat)
    requires 1 <= n <= |lines|
    ensures SheetUpTo(lines, headers, defaultString, n).Failure? ==>
      SheetUpTo(lines, headers, defaultString, n).error == IndexOutOfRange
  {
    if n > 1 {
      SheetErrorIsIndex(lines, headers, defaultString, n - 1);
    }
  }

  /** A text with lines fails to read exactly when some data row has more fields than the
      header row. */
  lemma NestedDictsFailsOnLongRow(text: string, defaultString: string)
    requires GetLines(text) != []
    ensures NestedDicts(text, defaultString).Failure? <==>
      exists i :: 1 <= i < |GetLines(text)| && |Fields(GetLines(text), i)| > |Fields(GetLines(text), 0)|
  {
    SheetFailsOnLongRow(GetLines(text), Fields(GetLines(text), 0), defaultString, |GetLines(text)|);
  }

  /** GetNestedDictsFromCSVSpreadSheet, on the text of the asset. */
  method GetNestedDictsFromCSVSpreadSheet(text: string, defaultString: string)
    returns (r: Result<map<string, map<string, string>>, FileError>)
    ensures r == NestedDicts(text, defaultString)
  {
    var lines := GetLines(text);
    var result: map<string, map<string, string>> := map[];
    if |lines| == 0 {
      return Success(result);
    }
    var headers := Fields(lines, 0);
    for i := 1 to |lines|
      invariant SheetUpTo(lines, headers, defaultString, i) == Success(result)
    {
      var lineEntries := Fields(lines, i);
      if |lineEntries| < |headers| {
        continue;
      }
      var innerDict := ReadRow(headers, lineEntries, defaultString);
      if innerDict.None? {
        FailureSticks(lines, headers, defaultString, i + 1, |lines|);
        return Failure(IndexOutOfRange);
      }
      result := result[lineEntries[0] := innerDict.value];
    }
    r := Success(result);
  }

  /** The inner loop over the fields of a row with at least as many fields as headers: None
      where headers[j] would go out of range, otherwise the row's inner dictionary. */
  method ReadRow(headers: seq<string>, lineEntries: seq<string>, defaultString: string)
    returns (innerDict: Option<map<string, string>>)
    requires 1 <= |headers| <= |lineEntries|
    ensures |lineEntries| == |headers| ==> innerDict == Some(InnerDict(headers, lineEntries, defaultString, |lineEntries|))
    ensures |lineEntries| > |headers| ==> innerDict.None?
  {
    var inner: map<string, string> := map[];
    for j := 1 to |lineEntries|
      invariant j <= |headers| && inner == InnerDict(headers, lineEntries, defaultString, j)
    {
      if j >= |headers| {
        return None;
      }
      inner := inner[headers[j] := if lineEntries[j] == "" then defaultString else lineEntries[j]];
    }
    innerDict := Some(inner);
  }

  /** Once a row has thrown, the whole read has. */
  lemma {:induction false} FailureSticks(lines: seq<string>, headers: seq<string>, defaultString: string, i: nat, n: nat)
    requires 1 <= i <= n <= |lines| && SheetUpTo(lines, headers, defaultString, i).Failure?
    ensures SheetUpTo(lines, headers, defaultString, n) == SheetUpTo(lines, headers, defaultString, i)
    decreases n - i
  {
    if i < n {
      FailureSticks(lines, headers, defaultString, i + 1, n);
    }
  }

  /** The read throws exactly when some data row has more fields than there are headers. */
  lemma {:induction false} SheetFailsOnLongRow(lines: seq<string>, headers: seq<string>, defaultString: string, n: nat)
    requires 1 <= n <= |lines|
    ensures SheetUpTo(lines, headers, defaultString, n).Failure? <==> exists i :: 1 <= i < n && |Fields(lines, i)| > |headers|
  {
    if n > 1 {
      SheetFailsOnLongRow(lines, headers, defaultString, n - 1);
    }
  }

  /** The outer keys are exactly the first fields of the data rows with as many fields as
      headers; the header row itself is never stored as a row. */
  lemma {:induction false} SheetKeys(lines: seq<string>, headers: seq<string>, defaultString: string, n: nat)
    requires 1 <= n <= |lines| && SheetUpTo(lines, headers, defaultString, n).Success?
    ensures forall key :: key in SheetUpTo(lines, headers, defaultString, n).value <==>
      exists i :: 1 <= i < n && |Fields(lines, i)| == |headers| && Fields(lines, i)[0] == key
  {
    if n > 1 {
      SheetFailsOnLongRow(lines, headers, defaultString, n);
      SheetFailsOnLongRow(lines, headers, defaultString, n - 1);
      SheetKeys(lines, headers, defaultString, n - 1);
    }
  }

  /** A kept row that no later kept row shares its first field with is stored whole: its
      inner dictionary maps the headers of columns 1.. to its fields. */
  lemma {:induction false} SheetLastRowWins(lines: seq<string>, headers: seq<string>, defaultString: string, n: nat, i: nat)
    requires 1 <= i < n <= |lines| && SheetUpTo(lines, headers, defaultString, n).Success?
    requires |Fields(lines, i)| == |headers|
    requires forall i' :: i < i' < n && |Fields(lines, i')| == |headers| ==> Fields(lines, i')[0] != Fields(lines, i)[0]
    ensures Fields(lines, i)[0] in SheetUpTo(lines, headers, defaultString, n).value
    ensures SheetUpTo(lines, headers, defaultString, n).value[Fields(lines, i)[0]] ==
      InnerDict(headers, Fields(lines, i), defaultString, |headers|)
  {
    SheetFailsOnLongRow(lines, headers, defaultString, n);
    SheetFailsOnLongRow(lines, headers, defaultString, n - 1);
    if i < n - 1 {
      SheetLastRowWins(lines, headers, defaultString, n - 1, i);
    }
  }
}
