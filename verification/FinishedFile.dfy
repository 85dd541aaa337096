/** The finished `metadata.yaml`: the file is read without comments, the lines of the data archive are added.
    What it holds, line by line. */
module FinishedFile {
  import opened Text
  import opened Fields
  import opened MetadataPrinter
  import opened MetadataRoundTrip
  import opened Comments

  function DataFileText(text: string, d: DataInfo): string {
    Trim(WithoutComments(text) + FieldsText(DataFields(d)))
  }

  method WriteField(text: string, key: string, value: string) returns (r: string)
    ensures r == text + FieldText(Scalar(key, value))
  {
    r := text + ("    " + key + ": " + value + "\n");
  }

  /** `create_data_file`: the file is read without comments, three lines are added. */
  method CreateDataFile(text: string, d: DataInfo) returns (r: string)
    ensures r == DataFileText(text, d)
  {
    var data := ReadFile(text);
    ThreeTexts(data, Scalar("archive-hash", d.hash), Scalar("arch", d.arch), Scalar("archive-size", d.size));
    var more := WriteField(data, "archive-hash", d.hash);
    more := WriteField(more, "arch", d.arch);
    more := WriteField(more, "archive-size", d.size);
    r := TrimText(more);
  }

  /** The number of fields of the first step. */
  const INFO_COUNT := 9

  predicate FieldHasComment(f: Field) {
    match f
    case Scalar(_, value) => '#' in value
    case List(_, items) => exists k :: 0 <= k < |items| && '#' in items[k]
    case Mark(_, _) => false
  }

  lemma FieldWithoutComment(f: Field)
    requires '#' !in f.key
    ensures NoComments(FieldLines(f)) <==> !FieldHasComment(f)
  {
    match f
    case Scalar(key, value) =>
      assert FieldLines(f)[0] == key + ": " + value;
    case Mark(key, on) =>
    case List(key, items) =>
      var lines := FieldLines(f);
      forall k | 0 <= k < |items| ensures '#' in lines[k + 1] <==> '#' in items[k] {
        assert lines[k + 1] == Spaces(1) + ("- " + items[k]);
      }
  }

  lemma CommentsInSum(a: seq<string>, b: seq<string>)
    ensures NoComments(a + b) <==> NoComments(a) && NoComments(b)
  {
    assert forall k :: 0 <= k < |a| ==> a[k] == (a + b)[k];
    assert forall k :: 0 <= k < |b| ==> b[k] == (a + b)[|a| + k];
  }

  ghost predicate CommentFree(fs: seq<Field>) {
    forall i :: 0 <= i < |fs| ==> !FieldHasComment(fs[i])
  }

  lemma {:induction false} PrintedWithoutComments(fs: seq<Field>)
    requires forall i :: 0 <= i < |fs| ==> '#' !in fs[i].key
    ensures NoComments(Printed(fs)) <==> CommentFree(fs)
  {
    if fs != [] {
      FieldWithoutComment(fs[0]);
      PrintedWithoutComments(fs[1..]);
      CommentsInSum(FieldLines(fs[0]), Printed(fs[1..]));
      assert CommentFree(fs) <==> !FieldHasComment(fs[0]) && CommentFree(fs[1..]) by {
        assert forall i :: 0 < i < |fs| ==> fs[i] == fs[1..][i - 1];
      }
    }
  }

  lemma ShiftedComments(lines: seq<string>, n: nat)
    ensures NoComments(Shifted(lines, n)) <==> NoComments(lines)
  {
  }

  lemma NestedComments(lines: seq<string>)
    ensures NoComments(Nested("package", lines)) <==> NoComments(lines)
  {
    var inner := ["package" + ":"] + Shifted(lines, 2);
    ShiftedComments(lines, 2);
    CommentsInSum(["package" + ":"], Shifted(lines, 2));
    ShiftedComments(inner, 2);
    CommentsInSum(["ymp:"], Shifted(inner, 2));
  }

  lemma NestedLines(fs: seq<Field>)
    requires GoodFields(fs)
    ensures AreLines(Nested("package", Printed(fs)))
  {
    PrintedIsLines(fs);
    HeaderLines("package", Printed(fs), 2);
    var inner := ["package" + ":"] + Shifted(Printed(fs), 2);
    assert "ymp" + ":" == "ymp:";
    HeaderLines("ymp", inner, 2);
  }

  lemma InfoKeysPlain(x: Info)
    ensures forall i :: 0 <= i < |InfoFields(x)| ==> '#' !in InfoFields(x)[i].key
  {
  }

  /** Reading the printed text keeps it exactly when no value holds a comment sign. */
  lemma InfoTextKeptIff(x: Info)
    requires GoodInfo(x)
    ensures WithoutComments(InfoText(InfoFields(x))) == InfoText(InfoFields(x)) <==> CommentFree(InfoFields(x))
  {
    var fs := InfoFields(x);
    InfoFieldsGood(x);
    InfoTextIs(fs);
    NestedLines(fs);
    ReadFileKeepsIff(Nested("package", Printed(fs)));
    NestedComments(Printed(fs));
    InfoKeysPlain(x);
    PrintedWithoutComments(fs);
  }

  /** The header line survives in any case. */
  lemma HeaderSurvives(lines: seq<string>)
    requires AreLines(lines) && lines != [] && '#' !in lines[0] && lines[0][0] != ' '
    ensures WithoutComments(Joined(lines)) != "" && WithoutComments(Joined(lines))[0] != ' '
  {
    LinesOfText(lines);
    var rest := Uncommented(lines[1..]);
    assert Uncommented(lines) == [lines[0]] + rest;
    assert Joined([lines[0]] + rest) == lines[0] + [NL] + Joined(([lines[0]] + rest)[1..]);
  }

  lemma CancelRight(a: string, b: string, c: string)
    ensures a + c == b + c ==> a == b
  {
    if a + c == b + c {
      assert |a| == |b|;
      assert (a + c)[..|a|] == a && (b + c)[..|b|] == b;
    }
  }

  /** The header starts the file, so trimming changes nothing. */
  lemma TrimKeeps(x: Info, more: string)
    requires GoodInfo(x)
    ensures var kept := WithoutComments(InfoText(InfoFields(x))); Trim(kept + more) == kept + more
  {
    var fs := InfoFields(x);
    InfoFieldsGood(x);
    InfoTextIs(fs);
    NestedLines(fs);
    HeaderSurvives(Nested("package", Printed(fs)));
    TrimUnindented(WithoutComments(InfoText(fs)) + more);
  }

  lemma InfoTextAppend(a: seq<Field>, b: seq<Field>)
    ensures InfoText(a + b) == InfoText(a) + FieldsText(b)
  {
    FieldsTextAppend(a, b);
    Assoc(HEAD, FieldsText(a), FieldsText(b));
  }

  /** The finished file holds the fields of both steps, exactly when no value holds a comment sign. */
  lemma DataFileIff(x: Info, d: DataInfo)
    requires GoodInfo(x)
    ensures DataFileText(InfoText(InfoFields(x)), d) == InfoText(InfoFields(x) + DataFields(d))
            <==> CommentFree(InfoFields(x))
  {
    var text, more := InfoText(InfoFields(x)), FieldsText(DataFields(d));
    InfoTextKeptIff(x);
    TrimKeeps(x, more);
    InfoTextAppend(InfoFields(x), DataFields(d));
    CancelRight(WithoutComments(text), text, more);
  }

  lemma BothFieldsGood(x: Info, d: DataInfo)
    requires GoodInfo(x) && GoodData(d)
    ensures GoodFields(InfoFields(x) + DataFields(d))
  {
    var f := FileInfo("", "", "", "");
    AllFieldsGood(x, d, f);
    GoodPrefix(AllFields(x, d, f), 12);
    assert AllFields(x, d, f)[..12] == InfoFields(x) + DataFields(d);
  }

  // ----- the finished file by lines

  lemma {:induction false} UncommentedSum(a: seq<string>, b: seq<string>)
    ensures Uncommented(a + b) == Uncommented(a) + Uncommented(b)
  {
    if a == [] {
      assert a + b == b;
    } else {
      assert (a + b)[1..] == a[1..] + b;
      UncommentedSum(a[1..], b);
    }
  }

  /** A line that does not start with a comment sign is cut at the first one. */
  lemma FirstPieceIs(line: string)
    requires line != "" && line[0] != '#'
    ensures Pieces(line, '#') != [] && Pieces(line, '#')[0] == line[..Cut(line, '#')]
  {
    var j := Cut(line, '#');
    assert Split(line, '#')[0] == line[..j];
    assert j > 0;
  }

  lemma {:induction false} CutShift(n: nat, line: string)
    ensures Cut(Spaces(n) + line, '#') == n + Cut(line, '#')
  {
    if n == 0 {
      assert Spaces(n) + line == line;
    } else {
      assert (Spaces(n) + line)[1..] == Spaces(n - 1) + line;
      CutShift(n - 1, line);
    }
  }

  lemma SignFirst(line: string)
    requires line != "" && line[0] == '#'
    ensures StartsWith(Strip(line), "#")
  {
    assert StripLeft(line) == line;
    SignStays(line);
  }

  lemma {:induction false} SignStays(s: string)
    requires s != "" && s[0] == '#'
    ensures StripRight(s) != "" && StripRight(s)[0] == '#'
  {
    if IsSpace(s[|s| - 1]) {
      SignStays(s[..|s| - 1]);
    }
  }

  /** Indentation does not matter. */
  lemma UncommentShifted(line: string, n: nat)
    ensures Uncomment(Spaces(n) + line) == Shifted(Uncomment(line), n)
  {
    var t := Spaces(n) + line;
    StripSpaces(n, line);
    if '#' !in line {
      assert '#' !in t;
    } else if !StartsWith(Strip(line), "#") {
      if line[0] == '#' {
        SignFirst(line);
      }
      FirstPieceIs(line);
      FirstPieceIs(t);
      CutShift(n, line);
      var head := line[..Cut(line, '#')];
      assert t[..Cut(t, '#')] == Spaces(n) + head;
      StripSpaces(n, head);
    }
  }

  lemma {:induction false} UncommentedShifted(lines: seq<string>, n: nat)
    ensures Uncommented(Shifted(lines, n)) == Shifted(Uncommented(lines), n)
  {
    if lines != [] {
      assert Shifted(lines, n)[1..] == Shifted(lines[1..], n);
      UncommentShifted(lines[0], n);
      UncommentedShifted(lines[1..], n);
      ShiftedAppend(Uncomment(lines[0]), Uncommented(lines[1..]), n);
    }
  }

  lemma UncommentedHeader(header: string, lines: seq<string>)
    requires '#' !in header
    ensures Uncommented([header] + Shifted(lines, 2)) == [header] + Shifted(Uncommented(lines), 2)
  {
    UncommentedSum([header], Shifted(lines, 2));
    assert Uncommented([header]) == [header] + Uncommented([header][1..]);
    UncommentedShifted(lines, 2);
  }

  lemma UncommentedNested(lines: seq<string>)
    ensures Uncommented(Nested("package", lines)) == Nested("package", Uncommented(lines))
  {
    UncommentedHeader("package" + ":", lines);
    UncommentedHeader("ymp:", ["package" + ":"] + Shifted(lines, 2));
  }

  lemma NestedMore(lines: seq<string>, more: seq<string>)
    ensures Nested("package", lines) + Shifted(more, 4) == Nested("package", lines + more)
  {
    var head := ["package" + ":"];
    ShiftedTwice(more, 2, 2);
    ShiftedAppend(head + Shifted(lines, 2), Shifted(more, 2), 2);
    ShiftedAppend(lines, more, 2);
    assert head + Shifted(lines, 2) + Shifted(more, 2) == head + Shifted(lines + more, 2);
  }

  /** The lines of the package area of a finished file: those of the first step without their comments, and
      those of the second. */
  function FinishedLines(x: Info, rest: seq<Field>): seq<string> {
    Uncommented(Printed(InfoFields(x))) + Printed(rest)
  }

  lemma StartsWithYmp(lines: seq<string>)
    ensures var s := Joined(Nested("package", lines)); s != "" && s[0] == 'y'
  {
    assert Nested("package", lines)[0] == "ymp:";
  }

  /** What is in the file, comment signs or not. */
  lemma DataFileTextIs(x: Info, d: DataInfo)
    requires GoodInfo(x)
    ensures DataFileText(InfoText(InfoFields(x)), d) == Joined(Nested("package", FinishedLines(x, DataFields(d))))
  {
    var fs := InfoFields(x);
    var first, more := Uncommented(Printed(fs)), Printed(DataFields(d));
    InfoFieldsGood(x);
    InfoTextIs(fs);
    NestedLines(fs);
    LinesOfText(Nested("package", Printed(fs)));
    UncommentedNested(Printed(fs));
    FieldsTextIs(DataFields(d));
    JoinedAppend(Nested("package", first), Shifted(more, 4));
    NestedMore(first, more);
    StartsWithYmp(first + more);
    TrimUnindented(Joined(Nested("package", first + more)));
  }

  // ----- its lines are those of an area

  /** Some character that is not a space stands in front of any comment sign. */
  predicate Keyed(line: string) {
    exists k :: 0 <= k < |line| && !IsSpace(line[k]) && '#' !in line[..k + 1]
  }

  lemma {:induction false} CutBehind(s: string, f: char, k: nat)
    requires k < |s| && f !in s[..k + 1]
    ensures Cut(s, f) > k
  {
    assert s[0] == s[..k + 1][0];
    if k > 0 {
      assert s[1..][..k] == s[..k + 1][1..];
      CutBehind(s[1..], f, k - 1);
    }
  }

  lemma {:induction false} StripStart(s: string, k: nat)
    requires k < |s| && !IsSpace(s[k]) && '#' !in s[..k + 1]
    ensures !StartsWith(Strip(s), "#")
  {
    assert s[0] == s[..k + 1][0];
    if IsSpace(s[0]) {
      assert s[1..][..k] == s[..k + 1][1..];
      StripStart(s[1..], k - 1);
    } else {
      StripRightStart(s);
    }
  }

  lemma {:induction false} StripRightStart(s: string)
    requires s != "" && s[0] != '#'
    ensures StripRight(s) == "" || StripRight(s)[0] == s[0]
  {
    if IsSpace(s[|s| - 1]) && |s| > 1 {
      StripRightStart(s[..|s| - 1]);
    }
  }

  /** Such a line keeps its start, and is not blank. */
  lemma UncommentKeyed(line: string)
    requires Keyed(line) && NL !in line
    ensures var r := Uncomment(line); |r| == 1 && IsLine(r[0]) && r[0][0] == line[0] && Strip(r[0]) != ""
  {
    var k :| 0 <= k < |line| && !IsSpace(line[k]) && '#' !in line[..k + 1];
    if '#' !in line {
      assert Solid(line);
      SolidIsNotBlank(line);
    } else {
      StripStart(line, k);
      assert line[0] == line[..k + 1][0];
      FirstPieceIs(line);
      CutBehind(line, '#', k);
      var head := line[..Cut(line, '#')];
      assert head[k] == line[k] && Solid(head);
      SolidIsNotBlank(head);
    }
  }

  ghost predicate AllKeyed(lines: seq<string>) {
    forall k :: 0 <= k < |lines| ==> Keyed(lines[k])
  }

  lemma {:induction false} UncommentedKeyed(lines: seq<string>)
    requires AllKeyed(lines) && AreLines(lines)
    ensures var r := Uncommented(lines);
            && AreLines(r) && NoneBlank(r) && |r| == |lines|
            && (lines != [] ==> r[0][0] == lines[0][0])
  {
    if lines != [] {
      assert Keyed(lines[0]) && IsLine(lines[0]);
      UncommentKeyed(lines[0]);
      assert AllKeyed(lines[1..]) && AreLines(lines[1..]);
      UncommentedKeyed(lines[1..]);
      var r := Uncommented(lines);
      assert forall k :: 0 < k < |r| ==> r[k] == Uncommented(lines[1..])[k - 1];
    }
  }

  lemma FieldIsKeyed(f: Field)
    requires GoodField(f) && '#' !in f.key
    ensures AllKeyed(FieldLines(f))
  {
    var lines := FieldLines(f);
    forall k | 0 <= k < |lines| ensures Keyed(lines[k]) {
      if k == 0 {
        assert lines[0][..|f.key| + 1] == f.key + ":" && lines[0][|f.key|] == ':';
      } else {
        assert lines[k][1] == '-' && lines[k][..2] == " -";
      }
    }
  }

  lemma {:induction false} PrintedIsKeyed(fs: seq<Field>)
    requires GoodFields(fs) && forall i :: 0 <= i < |fs| ==> '#' !in fs[i].key
    ensures AllKeyed(Printed(fs))
  {
    if fs != [] {
      RestIsGood(fs);
      FieldIsKeyed(fs[0]);
      PrintedIsKeyed(fs[1..]);
    }
  }

  lemma RestPrinted(x: Info, rest: seq<Field>)
    requires GoodFields(InfoFields(x) + rest)
    ensures GoodFields(InfoFields(x)) && GoodFields(rest)
  {
    var fs := InfoFields(x) + rest;
    assert fs[..9] == InfoFields(x);
    GoodPrefix(fs, 9);
    assert forall i :: 0 <= i < |rest| ==> rest[i] == fs[9 + i];
  }

  /** The lines make up the body of an area. */
  lemma FinishedBody(x: Info, rest: seq<Field>)
    requires GoodFields(InfoFields(x) + rest)
    ensures var lines := FinishedLines(x, rest);
            AreLines(lines) && NoneBlank(lines) && lines != [] && lines[0][0] != ' '
  {
    var fs := InfoFields(x);
    RestPrinted(x, rest);
    InfoKeysPlain(x);
    PrintedIsLines(fs);
    PrintedIsKeyed(fs);
    UncommentedKeyed(Printed(fs));
    PrintedBody(fs);
    PrintedIsLines(rest);
    PrintedNotBlank(rest);
  }
}
