/** Which fields are read back from the lines of a finished file: exactly those that survive. */
module FinishedFields {
  import opened Text
  import opened YamlParser
  import opened Fields
  import opened MetadataPrinter
  import opened MetadataRoundTrip
  import opened Comments
  import opened FinishedFile

  // ----- reading never brings in a comment sign

  lemma {:induction false} StripLacks(s: string)
    requires '#' !in s
    ensures '#' !in StripLeft(s) && '#' !in StripRight(s)
  {
    if s != "" {
      StripLacks(s[1..]);
      StripLacks(s[..|s| - 1]);
    }
  }

  lemma {:induction false} DedentLacks(s: string, n: nat)
    requires '#' !in s
    ensures '#' !in Dedent(s, n)
    decreases |s|
  {
    if s != "" {
      DedentLacks(if s[0] == NL then Drop(s[1..], n) else s[1..], n);
    }
  }

  /** A block without comment signs, read as a text. */
  lemma BlockLacks(lines: seq<string>)
    requires NoComments(lines)
    ensures '#' !in Trim(Joined(lines))
  {
    JoinedLacks(lines, '#');
    DedentLacks(Drop(Joined(lines), CountTab(Joined(lines))), CountTab(Joined(lines)));
  }

  /** Lines with a comment sign are not indented, and are not those of `key`. */
  ghost predicate SignsElsewhere(lines: seq<string>, key: string) {
    forall k :: 0 <= k < |lines| && '#' in lines[k] ==> !StartsWith(lines[k], " ") && !StartsWith(lines[k], key + ":")
  }

  lemma {:induction false} FoldedLacks(lines: seq<string>, key: string)
    requires SignsElsewhere(lines, key)
    ensures NoComments(Folded(lines, key)) && NoComments(Block(lines)) && NoComments(AreaLines(lines, key))
  {
    if lines != [] {
      assert SignsElsewhere(lines[1..], key);
      FoldedLacks(lines[1..], key);
    }
  }

  lemma {:induction false} ValueLacks(lines: seq<string>, key: string)
    requires SignsElsewhere(lines, key)
    ensures '#' !in ValueIn(lines, key)
  {
    if lines != [] {
      assert SignsElsewhere(lines[1..], key);
      if StartsWith(lines[0], key + ":") {
        FoldedLacks(lines[1..], key);
        BlockLacks(Folded(lines[1..], key));
        StripLacks(lines[0][|key| + 1..]);
        StripLacks(StripLeft(lines[0][|key| + 1..]));
      } else {
        ValueLacks(lines[1..], key);
      }
    }
  }

  lemma {:induction false} SplitOfClean(s: string)
    requires '#' !in s
    ensures NoComments(Split(s, NL))
    decreases |s|
  {
    var j := Cut(s, NL);
    if j < |s| {
      SplitOfClean(s[j + 1..]);
    }
  }

  lemma {:induction false} NonEmptyOfClean(pieces: seq<string>)
    requires NoComments(pieces)
    ensures NoComments(NonEmpty(pieces))
  {
    if pieces != [] {
      assert NoComments(pieces[1..]);
      NonEmptyOfClean(pieces[1..]);
    }
  }

  lemma {:induction false} ItemsLack(lines: seq<string>)
    requires NoComments(lines)
    ensures NoComments(Items(lines))
  {
    if lines != [] {
      assert NoComments(lines[1..]) && '#' !in lines[0];
      ItemsLack(lines[1..]);
      if StartsWith(lines[0], "- ") {
        StripLacks(lines[0][1..]);
        StripLacks(StripLeft(lines[0][1..]));
      }
    }
  }

  lemma ArrayLacks(lines: seq<string>, key: string)
    requires AreLines(lines) && lines != [] && PlainKey(key) && SignsElsewhere(lines, key)
    ensures NoComments(Array(Joined(lines), key))
  {
    var text := Joined(lines);
    LinesOfText(lines);
    AreaOfPlainKey(text, key);
    FoldedLacks(lines, key);
    var area := AreaSingle(text, key);
    BlockLacks(AreaLines(lines, key));
    SplitOfClean(area);
    NonEmptyOfClean(Split(area, NL));
    ItemsLack(Lines(area));
  }

  // ----- what comes back

  /** The added lines are not indented, and have other keys. */
  lemma {:induction false} ScalarsElsewhere(rest: seq<Field>, key: string)
    requires GoodFields(rest) && PlainKey(key)
    requires NoneHasKey(rest, key) && forall i :: 0 <= i < |rest| ==> rest[i].Scalar?
    ensures SignsElsewhere(Printed(rest), key)
  {
    if rest != [] {
      RestIsGood(rest);
      ScalarsElsewhere(rest[1..], key);
      OtherField(rest[0], key);
      NoLeadingSpace(rest[0].key, ": " + rest[0].value);
      assert rest[0].key + ": " + rest[0].value == rest[0].key + (": " + rest[0].value);
    }
  }

  lemma RestHasNoKey(x: Info, rest: seq<Field>, i: nat)
    requires GoodFields(InfoFields(x) + rest) && i < INFO_COUNT
    ensures NoneHasKey(rest, InfoFields(x)[i].key)
  {
    var fs := InfoFields(x) + rest;
    forall k | 0 <= k < |rest| ensures rest[k].key != fs[i].key {
      assert fs[INFO_COUNT + k] == rest[k] && fs[i].key != fs[INFO_COUNT + k].key;
    }
  }

  /** A field with a comment sign does not come back. */
  lemma CommentedFieldIsLost(x: Info, rest: seq<Field>, i: nat)
    requires GoodFields(InfoFields(x) + rest) && i < INFO_COUNT && FieldHasComment(InfoFields(x)[i])
    requires forall k :: 0 <= k < |rest| ==> rest[k].Scalar?
    ensures !FieldBack(Joined(FinishedLines(x, rest)), InfoFields(x)[i])
  {
    var f, lines := InfoFields(x)[i], FinishedLines(x, rest);
    var fs := InfoFields(x) + rest;
    assert fs[i] == f && GoodField(fs[i]);
    RestPrinted(x, rest);
    RestHasNoKey(x, rest, i);
    ScalarsElsewhere(rest, f.key);
    UncommentedLacks(Printed(InfoFields(x)));
    FinishedBody(x, rest);
    LinesOfText(lines);
    if f.Scalar? {
      ValueLacks(lines, f.key);
    } else {
      ArrayLacks(lines, f.key);
    }
  }

  // ----- the fields around one without comment signs

  lemma UncommentStart(line: string, key: string)
    requires line != "" && NoneStartsWith([line], key)
    ensures NoneStartsWith(Uncomment(line), key)
  {
    assert !StartsWith([line][0], key);
    if line[0] == '#' {
      SignFirst(line);
    } else {
      FirstPieceIs(line);
    }
  }

  /** Cutting lines short brings in no key. */
  lemma {:induction false} UncommentedStarts(lines: seq<string>, key: string)
    requires AreLines(lines) && NoneStartsWith(lines, key)
    ensures NoneStartsWith(Uncommented(lines), key)
  {
    if lines != [] {
      assert IsLine(lines[0]) && AreLines(lines[1..]);
      UncommentStart(lines[0], key);
      UncommentedStarts(lines[1..], key);
    }
  }

  lemma UncommentedAround(before: seq<string>, key: string, after: seq<string>)
    requires Around(before, key, after) && AllKeyed(before) && AllKeyed(after)
    ensures Around(Uncommented(before), key, Uncommented(after))
  {
    UncommentedKeyed(before);
    UncommentedKeyed(after);
    UncommentedStarts(before, key + ":");
    UncommentedStarts(after, key + ":");
  }

  lemma UncommentedSplit(before: seq<string>, lines: seq<string>, after: seq<string>)
    requires NoComments(lines)
    ensures Uncommented(before + lines + after) == Uncommented(before) + lines + Uncommented(after)
  {
    UncommentedSum(before + lines, after);
    UncommentedSum(before, lines);
    UncommentedLacks(lines);
  }

  /** Nor do more fields, in front or behind. */
  lemma MoreAround(before: seq<string>, key: string, after: seq<string>, more: seq<Field>)
    requires Around(before, key, after) && PlainKey(key) && GoodFields(more) && NoneHasKey(more, key)
    ensures Around(before, key, after + Printed(more))
  {
    OtherFields(more, key);
    PrintedIsLines(more);
    PrintedStarts(more);
  }

  /** A field of the first step without comment signs, whatever the others hold. */
  lemma FirstFieldIff(x: Info, rest: seq<Field>, i: nat)
    requires GoodFields(InfoFields(x) + rest) && i < INFO_COUNT && !FieldHasComment(InfoFields(x)[i])
    ensures FieldBack(Joined(FinishedLines(x, rest)), InfoFields(x)[i]) <==> !HasBar(InfoFields(x)[i])
  {
    var fs := InfoFields(x);
    var (f, a, b) := (fs[i], fs[..i], fs[i + 1..]);
    RestPrinted(x, rest);
    InfoKeysPlain(x);
    OthersAreGood(fs, i);
    PrintedSplit(fs, i);
    PrintedAround(fs, i);
    PrintedIsKeyed(a);
    PrintedIsKeyed(b);
    FieldWithoutComment(f);
    UncommentedSplit(Printed(a), FieldLines(f), Printed(b));
    UncommentedAround(Printed(a), f.key, Printed(b));
    RestHasNoKey(x, rest, i);
    MoreAround(Uncommented(Printed(a)), f.key, Uncommented(Printed(b)), rest);
    Assoc(Uncommented(Printed(a)) + FieldLines(f), Uncommented(Printed(b)), Printed(rest));
    FieldBackAmong(Uncommented(Printed(a)), f, Uncommented(Printed(b)) + Printed(rest));
  }

  lemma FirstHasNoKey(x: Info, rest: seq<Field>, i: nat)
    requires GoodFields(InfoFields(x) + rest) && i < |rest|
    ensures GoodField(rest[i]) && NoneHasKey(InfoFields(x), rest[i].key)
  {
    var fs := InfoFields(x) + rest;
    assert fs[INFO_COUNT + i] == rest[i];
    forall k | 0 <= k < INFO_COUNT ensures InfoFields(x)[k].key != rest[i].key {
      assert fs[k] == InfoFields(x)[k] && fs[k].key != fs[INFO_COUNT + i].key;
    }
  }

  /** A field of the second step, likewise. */
  lemma SecondFieldIff(x: Info, rest: seq<Field>, i: nat)
    requires GoodFields(InfoFields(x) + rest) && i < |rest|
    ensures FieldBack(Joined(FinishedLines(x, rest)), rest[i]) <==> !HasBar(rest[i])
  {
    var (first, f) := (Uncommented(Printed(InfoFields(x))), rest[i]);
    RestPrinted(x, rest);
    FirstHasNoKey(x, rest, i);
    PrintedSplit(rest, i);
    PrintedAround(rest, i);
    FinishedBody(x, []);
    assert FinishedLines(x, []) == first;
    PrintedIsLines(InfoFields(x));
    OtherFields(InfoFields(x), f.key);
    UncommentedStarts(Printed(InfoFields(x)), f.key + ":");
    Assoc(first, Printed(rest[..i]) + FieldLines(f), Printed(rest[i + 1..]));
    Assoc(first, Printed(rest[..i]), FieldLines(f));
    FieldBackAmong(first + Printed(rest[..i]), f, Printed(rest[i + 1..]));
  }

  /** A field survives when its value does not end in a bar and, in the first step, holds no comment sign. */
  predicate Survives(fs: seq<Field>, i: nat)
    requires i < |fs|
  {
    !HasBar(fs[i]) && (i < INFO_COUNT ==> !FieldHasComment(fs[i]))
  }

  ghost predicate AllSurvive(fs: seq<Field>) {
    forall i :: 0 <= i < |fs| ==> Survives(fs, i)
  }

  /** Exactly the fields that survive are read back. */
  ghost predicate SurvivorsComeBack(area: string, fs: seq<Field>) {
    forall i :: 0 <= i < |fs| ==> (FieldBack(area, fs[i]) <==> Survives(fs, i))
  }

  lemma AllBackIff(area: string, fs: seq<Field>)
    requires SurvivorsComeBack(area, fs)
    ensures ReadsBack(area, fs) <==> AllSurvive(fs)
  {
  }

  /** From an area with these lines. */
  lemma FinishedFieldsIff(x: Info, rest: seq<Field>)
    requires GoodFields(InfoFields(x) + rest) && forall k :: 0 <= k < |rest| ==> rest[k].Scalar?
    ensures SurvivorsComeBack(Joined(FinishedLines(x, rest)), InfoFields(x) + rest)
  {
    var fs := InfoFields(x) + rest;
    forall i | 0 <= i < |fs| ensures FieldBack(Joined(FinishedLines(x, rest)), fs[i]) <==> Survives(fs, i) {
      if i >= INFO_COUNT {
        SecondFieldIff(x, rest, i - INFO_COUNT);
      } else if FieldHasComment(InfoFields(x)[i]) {
        CommentedFieldIsLost(x, rest, i);
      } else {
        FirstFieldIff(x, rest, i);
      }
    }
  }
}
