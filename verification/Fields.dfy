/** Lists of named fields, as they are printed line by line, and what the parser reads back from them. */
module Fields {
  import opened Text
  import opened YamlParser

  /** A value, a list (printed only when it has items), a mark (printed only when it is set). */
  datatype Field =
    | Scalar(key: string, value: string)
    | List(key: string, items: seq<string>)
    | Mark(key: string, on: bool)

  function Dashes(items: seq<string>): (r: seq<string>)
    ensures |r| == |items| && forall k :: 0 <= k < |r| ==> r[k] == "- " + items[k]
  {
    seq(|items|, k requires 0 <= k < |items| => "- " + items[k])
  }

  function FieldLines(f: Field): seq<string> {
    match f
    case Scalar(key, value) => [key + ": " + value]
    case List(key, items) => if items == [] then [] else [key + ":"] + Shifted(Dashes(items), 1)
    case Mark(key, on) => if on then [key + ": true"] else []
  }

  function Printed(fs: seq<Field>): seq<string> {
    if fs == [] then [] else FieldLines(fs[0]) + Printed(fs[1..])
  }

  lemma {:induction false} PrintedSum(a: seq<Field>, b: seq<Field>)
    ensures Printed(a + b) == Printed(a) + Printed(b)
  {
    if a == [] {
      assert a + b == b;
    } else {
      assert (a + b)[1..] == a[1..] + b;
      PrintedSum(a[1..], b);
    }
  }

  // ----- fields that can be read back

  predicate PlainKey(key: string) {
    key != "" && ' ' !in key && ':' !in key && '.' !in key && NL !in key
  }

  /** A single line without spaces at its ends. */
  predicate GoodItem(x: string) {
    NL !in x && Stripped(x)
  }

  predicate GoodValue(f: Field) {
    && (f.Scalar? ==> GoodItem(f.value))
    && (f.List? ==> forall k :: 0 <= k < |f.items| ==> GoodItem(f.items[k]))
  }

  predicate GoodField(f: Field) {
    PlainKey(f.key) && GoodValue(f)
  }

  ghost predicate GoodValues(fs: seq<Field>) {
    forall i :: 0 <= i < |fs| ==> GoodValue(fs[i])
  }

  ghost predicate GoodFields(fs: seq<Field>) {
    && (forall i :: 0 <= i < |fs| ==> GoodField(fs[i]))
    && forall i, j :: 0 <= i < j < |fs| ==> fs[i].key != fs[j].key
  }

  lemma RestIsGood(fs: seq<Field>)
    requires fs != [] && GoodFields(fs)
    ensures GoodFields(fs[1..]) && forall j :: 0 <= j < |fs| - 1 ==> fs[1..][j].key != fs[0].key
  {
  }

  lemma FieldIsLines(f: Field)
    requires GoodField(f)
    ensures AreLines(FieldLines(f))
  {
  }

  lemma {:induction false} PrintedIsLines(fs: seq<Field>)
    requires GoodFields(fs)
    ensures AreLines(Printed(fs))
  {
    if fs != [] {
      RestIsGood(fs);
      FieldIsLines(fs[0]);
      PrintedIsLines(fs[1..]);
    }
  }

  lemma NoLeadingSpace(key: string, rest: string)
    requires PlainKey(key)
    ensures !StartsWith(key + rest, " ")
  {
    assert (key + rest)[0] == key[0];
    assert key[0] in key;
  }

  lemma FieldNotBlank(f: Field)
    requires GoodField(f)
    ensures NoneBlank(FieldLines(f))
  {
    var lines := FieldLines(f);
    forall k | 0 <= k < |lines| ensures Strip(lines[k]) != "" {
      if k == 0 {
        assert lines[0][|f.key|] == ':';
      } else {
        assert lines[k][1] == '-';
      }
      assert Solid(lines[k]);
      SolidIsNotBlank(lines[k]);
    }
  }

  lemma {:induction false} PrintedNotBlank(fs: seq<Field>)
    requires GoodFields(fs)
    ensures NoneBlank(Printed(fs))
  {
    if fs != [] {
      RestIsGood(fs);
      FieldNotBlank(fs[0]);
      PrintedNotBlank(fs[1..]);
    }
  }

  /** Unless nothing is printed, the first line is not indented. */
  lemma {:induction false} PrintedStarts(fs: seq<Field>)
    requires GoodFields(fs)
    ensures Printed(fs) == [] || (Printed(fs)[0] != "" && !StartsWith(Printed(fs)[0], " "))
  {
    if fs != [] {
      RestIsGood(fs);
      PrintedStarts(fs[1..]);
      assert GoodField(fs[0]);
      if FieldLines(fs[0]) == [] {
        assert Printed(fs) == Printed(fs[1..]);
      } else {
        var f := fs[0];
        var rest := if f.Scalar? then ": " + f.value else if f.List? then ":" else ": true";
        assert f.Scalar? ==> f.key + ": " + f.value == f.key + rest;
        NoLeadingSpace(f.key, rest);
      }
    }
  }

  /** A line that starts with one key does not start with another. */
  lemma OneKey(key: string, other: string, rest: string)
    requires PlainKey(key) && PlainKey(other) && StartsWith(key + ":" + rest, other + ":")
    ensures key == other
  {
    var s := key + ":" + rest;
    var tail := s[|other| + 1..];
    assert s == other + ":" + tail;
    CutAt(key, ':', rest);
    CutAt(other, ':', tail);
    assert s[..|key|] == key && s[..|other|] == other;
  }

  ghost predicate NoneStartsWith(lines: seq<string>, key: string) {
    forall k :: 0 <= k < |lines| ==> !StartsWith(lines[k], key)
  }

  lemma OtherField(f: Field, key: string)
    requires GoodField(f) && PlainKey(key) && f.key != key
    ensures NoneStartsWith(FieldLines(f), key + ":")
  {
    var lines := FieldLines(f);
    forall k | 0 <= k < |lines| ensures !StartsWith(lines[k], key + ":") {
      if k == 0 {
        var rest := if f.Scalar? then " " + f.value else if f.List? then "" else " true";
        assert lines[0] == f.key + ":" + rest;
        if StartsWith(lines[0], key + ":") {
          OneKey(f.key, key, rest);
        }
      } else {
        assert lines[k][0] == ' ' && (key + ":")[0] == key[0] && key[0] in key;
      }
    }
  }

  ghost predicate NoneHasKey(fs: seq<Field>, key: string) {
    forall j :: 0 <= j < |fs| ==> fs[j].key != key
  }

  lemma {:induction false} OtherFields(fs: seq<Field>, key: string)
    requires GoodFields(fs) && PlainKey(key) && NoneHasKey(fs, key)
    ensures NoneStartsWith(Printed(fs), key + ":")
  {
    if fs != [] {
      RestIsGood(fs);
      OtherField(fs[0], key);
      OtherFields(fs[1..], key);
    }
  }

  /** Lines in front of those of a field and behind them: none carries its key, the first behind is not
      indented. */
  ghost predicate Around(before: seq<string>, key: string, after: seq<string>) {
    && AreLines(before) && NoneStartsWith(before, key + ":")
    && AreLines(after) && NoneStartsWith(after, key + ":")
    && (after == [] || !StartsWith(after[0], " "))
  }

  lemma OthersAreGood(fs: seq<Field>, i: nat)
    requires GoodFields(fs) && i < |fs|
    ensures GoodFields(fs[..i]) && NoneHasKey(fs[..i], fs[i].key)
    ensures GoodFields(fs[i + 1..]) && NoneHasKey(fs[i + 1..], fs[i].key)
  {
  }

  lemma PrintedFrom(fs: seq<Field>, i: nat)
    requires i < |fs|
    ensures Printed(fs[i..]) == FieldLines(fs[i]) + Printed(fs[i + 1..])
  {
    assert fs[i..][0] == fs[i] && fs[i..][1..] == fs[i + 1..];
  }

  lemma PrintedSplit(fs: seq<Field>, i: nat)
    requires i < |fs|
    ensures Printed(fs) == Printed(fs[..i]) + FieldLines(fs[i]) + Printed(fs[i + 1..])
  {
    PrintedFrom(fs, i);
    assert fs == fs[..i] + fs[i..];
    PrintedSum(fs[..i], fs[i..]);
    Assoc(Printed(fs[..i]), FieldLines(fs[i]), Printed(fs[i + 1..]));
  }

  /** So the other fields stand around each field. */
  lemma PrintedAround(fs: seq<Field>, i: nat)
    requires GoodFields(fs) && i < |fs|
    ensures Around(Printed(fs[..i]), fs[i].key, Printed(fs[i + 1..]))
  {
    OthersAreGood(fs, i);
    assert GoodField(fs[i]);
    OtherFields(fs[..i], fs[i].key);
    OtherFields(fs[i + 1..], fs[i].key);
    PrintedIsLines(fs[..i]);
    PrintedIsLines(fs[i + 1..]);
    PrintedStarts(fs[i + 1..]);
  }

  // ----- reading values

  lemma {:induction false} SkipValue(a: seq<string>, b: seq<string>, key: string)
    requires NoneStartsWith(a, key + ":")
    ensures ValueIn(a + b, key) == ValueIn(b, key)
  {
    if a == [] {
      assert a + b == b;
    } else {
      assert (a + b)[1..] == a[1..] + b;
      SkipValue(a[1..], b, key);
    }
  }

  /** A value comes back exactly when it does not end in a bar, which announces a block. */
  lemma ValueOfLine(key: string, value: string, rest: seq<string>)
    requires PlainKey(key) && GoodItem(value) && AreLines(rest)
    ensures ValueIn([key + ": " + value] + rest, key) == value <==> !EndsWith(value, "|")
  {
    var line := key + ": " + value;
    var lines := [line] + rest;
    assert lines[0] == line && lines[1..] == rest;
    assert line[..|key| + 1] == key + ":";
    assert line[|key| + 1..] == [' '] + value;
    StripOfStripped(value);
    if value == "" {
      assert line[|line| - 1] == ' ';
    } else {
      assert line[|line| - 1] == value[|value| - 1];
    }
    if EndsWith(value, "|") {
      BlockEndsLine(Folded(rest, key));
    }
  }

  /** What is read as a block is empty or ends in a line end, unlike any value on one line. */
  lemma {:induction false} DedentEnds(s: string, n: nat)
    requires s != "" && s[|s| - 1] == NL
    ensures var r := Dedent(s, n); r != "" && NL in r
    decreases |s|
  {
    if s[0] != NL {
      DedentEnds(s[1..], n);
    }
  }

  lemma BlockEndsLine(lines: seq<string>)
    ensures var r := Trim(Joined(lines)); r == "" || NL in r
  {
    var s := Joined(lines);
    JoinedEnds(lines);
    var t := Drop(s, CountTab(s));
    if t != "" {
      DedentEnds(t, CountTab(s));
    }
  }

  lemma {:induction false} JoinedEnds(lines: seq<string>)
    ensures Joined(lines) == "" || Joined(lines)[|Joined(lines)| - 1] == NL
  {
    if lines != [] {
      JoinedEnds(lines[1..]);
    }
  }

  /** A value among the lines of other fields. */
  lemma ValueOfField(before: seq<string>, f: Field, after: seq<string>)
    requires GoodField(f) && f.Scalar? && Around(before, f.key, after)
    ensures ValueIn(before + FieldLines(f) + after, f.key) == f.value <==> !EndsWith(f.value, "|")
  {
    Assoc(before, FieldLines(f), after);
    SkipValue(before, FieldLines(f) + after, f.key);
    ValueOfLine(f.key, f.value, after);
  }

  // ----- reading lists

  lemma {:induction false} SkipArea(a: seq<string>, b: seq<string>, key: string)
    requires NoneStartsWith(a, key + ":")
    ensures AreaLines(a + b, key) == AreaLines(b, key)
  {
    if a == [] {
      assert a + b == b;
    } else {
      assert (a + b)[1..] == a[1..] + b;
      assert !OpensArea(a[0], key);
      SkipArea(a[1..], b, key);
    }
  }

  lemma {:induction false} BlockOfShifted(lines: seq<string>, n: nat, rest: seq<string>)
    requires n > 0 && (rest == [] || !StartsWith(rest[0], " "))
    ensures Block(Shifted(lines, n) + rest) == Shifted(lines, n)
  {
    if lines == [] {
      assert Shifted(lines, n) + rest == rest;
    } else {
      var all := Shifted(lines, n) + rest;
      assert all[0] == Spaces(n) + lines[0] && all[0][0] == ' ';
      assert Shifted(lines, n)[1..] == Shifted(lines[1..], n);
      assert all[1..] == Shifted(lines[1..], n) + rest;
      BlockOfShifted(lines[1..], n, rest);
    }
  }

  /** An area is what was indented under its header. */
  lemma AreaOfHeader(key: string, lines: seq<string>, n: nat, rest: seq<string>)
    requires PlainKey(key) && n > 0 && (rest == [] || !StartsWith(rest[0], " "))
    ensures AreaLines([key + ":"] + Shifted(lines, n) + rest, key) == Shifted(lines, n)
  {
    var all := [key + ":"] + Shifted(lines, n) + rest;
    NoLeadingSpace(key, ":");
    assert all[0] == key + ":" && all[1..] == Shifted(lines, n) + rest;
    BlockOfShifted(lines, n, rest);
  }

  lemma {:induction false} ItemsOfDashes(items: seq<string>)
    requires forall k :: 0 <= k < |items| ==> GoodItem(items[k])
    ensures Items(Dashes(items)) == items
  {
    if items != [] {
      var lines := Dashes(items);
      assert lines[0][..2] == "- " && lines[0][1..] == [' '] + items[0];
      StripOfStripped(items[0]);
      assert lines[1..] == Dashes(items[1..]);
      ItemsOfDashes(items[1..]);
      assert items == [items[0]] + items[1..];
    }
  }

  lemma AreaOfPlainKey(data: string, key: string)
    requires PlainKey(key) && data != ""
    ensures Area(data, key) == AreaSingle(data, key)
  {
    PiecesOfOne(key, '.');
    assert AreaAt(data, [key]) == AreaAt(AreaSingle(data, key), [key][1..]);
  }

  lemma AreaOfField(before: seq<string>, f: Field, after: seq<string>)
    requires GoodField(f) && f.List? && f.items != [] && Around(before, f.key, after)
    ensures AreaLines(before + FieldLines(f) + after, f.key) == Shifted(Dashes(f.items), 1)
  {
    Assoc(before, FieldLines(f), after);
    SkipArea(before, FieldLines(f) + after, f.key);
    AreaOfHeader(f.key, Dashes(f.items), 1, after);
  }

  /** A list comes back. */
  lemma ArrayOfField(before: seq<string>, f: Field, after: seq<string>)
    requires GoodField(f) && f.List? && f.items != [] && Around(before, f.key, after)
    ensures Array(Joined(before + FieldLines(f) + after), f.key) == f.items
  {
    var lines := before + FieldLines(f) + after;
    FieldIsLines(f);
    LinesOfText(lines);
    AreaOfField(before, f, after);
    assert FieldLines(f) != [] && lines != [];
    AreaOfPlainKey(Joined(lines), f.key);
    TrimUndoesShift(Dashes(f.items), 1);
    LinesOfText(Dashes(f.items));
    ItemsOfDashes(f.items);
  }

  // ----- which keys are there

  lemma AnyInSum(a: seq<string>, b: seq<string>, key: string)
    ensures AnyStartsWith(a + b, key) <==> AnyStartsWith(a, key) || AnyStartsWith(b, key)
  {
    if AnyStartsWith(a, key) {
      var k :| 0 <= k < |a| && StartsWith(a[k], key);
      assert (a + b)[k] == a[k];
    }
    if AnyStartsWith(b, key) {
      var k :| 0 <= k < |b| && StartsWith(b[k], key);
      assert (a + b)[|a| + k] == b[k];
    }
  }

  lemma OwnField(f: Field)
    requires GoodField(f) && FieldLines(f) != []
    ensures AnyStartsWith(FieldLines(f), f.key + ":")
  {
    var line := FieldLines(f)[0];
    assert line[..|f.key| + 1] == f.key + ":";
  }

  /** A key is found exactly when its field was printed. */
  lemma FieldPresent(before: seq<string>, f: Field, after: seq<string>)
    requires GoodField(f) && Around(before, f.key, after)
    ensures HasArea(Joined(before + FieldLines(f) + after), f.key) <==> FieldLines(f) != []
  {
    FieldIsLines(f);
    LinesOfText(before + FieldLines(f) + after);
    AnyInSum(before + FieldLines(f), after, f.key + ":");
    AnyInSum(before, FieldLines(f), f.key + ":");
    if FieldLines(f) != [] {
      OwnField(f);
    }
  }
}
