/** What the builder prints into `metadata.yaml`, the consumer reads back. */
module MetadataRoundTrip {
  import opened Wrappers
  import opened Text
  import opened YamlParser
  import opened Fields
  import opened PackageData
  import opened MetadataPrinter

  // ----- what the text looks like by lines

  /** The lines of a metadata text with an area of the given kind. */
  function Nested(kind: string, lines: seq<string>): seq<string> {
    ["ymp:"] + Shifted([kind + ":"] + Shifted(lines, 2), 2)
  }

  lemma ShiftedAppend(a: seq<string>, b: seq<string>, n: nat)
    ensures Shifted(a + b, n) == Shifted(a, n) + Shifted(b, n)
  {
  }

  lemma ShiftedTwice(lines: seq<string>, m: nat, n: nat)
    ensures Shifted(Shifted(lines, m), n) == Shifted(lines, n + m)
  {
    assert Spaces(n) + Spaces(m) == Spaces(n + m);
    forall k | 0 <= k < |lines| ensures Spaces(n) + (Spaces(m) + lines[k]) == Spaces(n + m) + lines[k] {
      Assoc(Spaces(n), Spaces(m), lines[k]);
    }
  }

  lemma JoinedOfOne(line: string)
    ensures Joined([line]) == line + [NL]
  {
  }

  lemma {:induction false} ItemsTextIs(items: seq<string>, n: nat)
    requires n <= |items|
    ensures ItemsText(items, n) == Joined(Shifted(Dashes(items), 5)[..n])
  {
    var lines := Shifted(Dashes(items), 5);
    if n == 0 {
      assert lines[..0] == [];
    } else {
      ItemsTextIs(items, n - 1);
      assert lines[..n] == lines[..n - 1] + [lines[n - 1]];
      JoinedOneMore(lines[..n - 1], lines[n - 1]);
      assert Spaces(5) == "     ";
      assert lines[n - 1] + [NL] == "     - " + items[n - 1] + "\n";
    }
  }

  /** The first line of a field. */
  lemma FirstLineText(f: Field)
    requires FieldLines(f) != []
    ensures Spaces(4) + FieldLines(f)[0] + [NL]
            == match f
               case Scalar(key, value) => "    " + key + ": " + value + "\n"
               case List(key, _) => "    " + key + ":\n"
               case Mark(key, _) => "    " + key + ": true\n"
  {
    assert Spaces(4) == "    ";
  }

  lemma FirstThenRest(f: Field)
    requires FieldLines(f) != []
    ensures Joined(Shifted(FieldLines(f), 4))
            == Spaces(4) + FieldLines(f)[0] + [NL] + Joined(Shifted(FieldLines(f)[1..], 4))
  {
    var lines := FieldLines(f);
    var first, rest := Spaces(4) + lines[0], Shifted(lines[1..], 4);
    assert Shifted(lines, 4) == [first] + rest;
    JoinedAppend([first], rest);
    JoinedOfOne(first);
  }

  lemma WholeSlice(lines: seq<string>, n: nat)
    requires n == |lines|
    ensures lines[..n] == lines
  {
  }

  lemma ListRest(items: seq<string>)
    ensures Joined(Shifted(Shifted(Dashes(items), 1), 4)) == ItemsText(items, |items|)
  {
    assert Shifted(Shifted(Dashes(items), 1), 4) == Shifted(Dashes(items), 5) by {
      ShiftedTwice(Dashes(items), 1, 4);
    }
    assert ItemsText(items, |items|) == Joined(Shifted(Dashes(items), 5)) by {
      ItemsTextIs(items, |items|);
      WholeSlice(Shifted(Dashes(items), 5), |items|);
    }
  }

  lemma FieldTextIs(f: Field)
    ensures FieldText(f) == Joined(Shifted(FieldLines(f), 4))
  {
    var lines := FieldLines(f);
    if lines != [] {
      FirstLineText(f);
      FirstThenRest(f);
      if f.List? {
        assert lines[1..] == Shifted(Dashes(f.items), 1);
        ListRest(f.items);
      } else {
        assert Shifted(lines[1..], 4) == [];
      }
    }
  }

  lemma {:induction false} FieldsTextIs(fs: seq<Field>)
    ensures FieldsText(fs) == Joined(Shifted(Printed(fs), 4))
  {
    if fs != [] {
      FieldTextIs(fs[0]);
      FieldsTextIs(fs[1..]);
      ShiftedAppend(FieldLines(fs[0]), Printed(fs[1..]), 4);
      JoinedAppend(Shifted(FieldLines(fs[0]), 4), Shifted(Printed(fs[1..]), 4));
    } else {
      assert Shifted(Printed(fs), 4) == [];
    }
  }

  lemma HeadIs()
    ensures Joined(["ymp:"] + ["  package:"]) == HEAD
  {
    JoinedAppend(["ymp:"], ["  package:"]);
    JoinedOfOne("ymp:");
    JoinedOfOne("  package:");
    assert "ymp:" + [NL] + ("  package:" + [NL]) == HEAD;
  }

  lemma PackageHead()
    ensures Shifted(["package" + ":"], 2) == ["  package:"]
  {
    assert Spaces(2) == "  ";
    assert "  " + ("package" + ":") == "  package:";
    assert Shifted(["package" + ":"], 2)[0] == Spaces(2) + ("package" + ":");
  }

  /** The printed text, seen as lines. */
  lemma InfoTextIs(fs: seq<Field>)
    ensures InfoText(fs) == Joined(Nested("package", Printed(fs)))
  {
    var lines := Printed(fs);
    FieldsTextIs(fs);
    ShiftedTwice(lines, 2, 2);
    ShiftedAppend(["package" + ":"], Shifted(lines, 2), 2);
    PackageHead();
    var head := ["ymp:"] + ["  package:"];
    assert Nested("package", lines) == head + Shifted(lines, 4);
    JoinedAppend(head, Shifted(lines, 4));
    HeadIs();
  }

  // ----- nested areas

  lemma HeaderLines(key: string, body: seq<string>, n: nat)
    requires PlainKey(key) && AreLines(body)
    ensures AreLines([key + ":"] + Shifted(body, n))
  {
  }

  /** The area under a header that starts the text. */
  lemma FirstArea(key: string, body: seq<string>, n: nat)
    requires PlainKey(key) && n > 0 && AreLines(body) && body != [] && body[0][0] != ' '
    ensures var text := Joined([key + ":"] + Shifted(body, n));
            HasArea(text, key) && Area(text, key) == Joined(body)
  {
    var lines := [key + ":"] + Shifted(body, n);
    assert lines == lines + [];
    HeaderLines(key, body, n);
    LinesOfText(lines);
    assert StartsWith(lines[0], key + ":");
    AreaOfHeader(key, body, n, []);
    AreaOfPlainKey(Joined(lines), key);
    TrimUndoesShift(body, n);
  }

  lemma NoOtherArea(key: string, other: string, body: seq<string>, n: nat)
    requires PlainKey(key) && PlainKey(other) && key != other && n > 0 && AreLines(body)
    ensures !HasArea(Joined([key + ":"] + Shifted(body, n)), other)
  {
    var lines := [key + ":"] + Shifted(body, n);
    HeaderLines(key, body, n);
    LinesOfText(lines);
    forall k | 0 <= k < |lines| ensures !StartsWith(lines[k], other + ":") {
      if k == 0 {
        assert key + ":" == key + ":" + "";
        if StartsWith(lines[0], other + ":") {
          OneKey(key, other, "");
        }
      } else {
        assert lines[k][0] == ' ' && (other + ":")[0] == other[0] && other[0] in other;
      }
    }
  }

  lemma YmpOfNested(kind: string, body: seq<string>)
    requires PlainKey(kind) && AreLines(body)
    ensures YmpData(Joined(Nested(kind, body))) == Joined([kind + ":"] + Shifted(body, 2))
  {
    var inner := [kind + ":"] + Shifted(body, 2);
    HeaderLines(kind, body, 2);
    assert inner[0][0] == kind[0] && kind[0] in kind;
    assert "ymp" + ":" == "ymp:";
    FirstArea("ymp", inner, 2);
  }

  lemma KindsDiffer()
    ensures PlainKey("package") && PlainKey("source") && "package" != "source"
  {
  }

  lemma PackageArea(body: seq<string>)
    requires AreLines(body) && body != [] && body[0][0] != ' '
    ensures LoadArea(Joined(["package" + ":"] + Shifted(body, 2))) == Some(Loaded(false, Joined(body)))
  {
    KindsDiffer();
    FirstArea("package", body, 2);
  }

  lemma SourceArea(body: seq<string>)
    requires AreLines(body) && body != [] && body[0][0] != ' '
    ensures LoadArea(Joined(["source" + ":"] + Shifted(body, 2))) == Some(Loaded(true, Joined(body)))
  {
    KindsDiffer();
    FirstArea("source", body, 2);
    NoOtherArea("source", "package", body, 2);
  }

  function Kind(isSource: bool): (kind: string)
    ensures PlainKey(kind)
  {
    if isSource then "source" else "package"
  }

  /** Reading takes the two headers off again. */
  lemma LoadUndoesNested(isSource: bool, body: seq<string>)
    requires AreLines(body) && body != [] && body[0][0] != ' '
    ensures Load(Joined(Nested(Kind(isSource), body))) == Some(Loaded(isSource, Joined(body)))
  {
    YmpOfNested(Kind(isSource), body);
    if isSource {
      SourceArea(body);
    } else {
      PackageArea(body);
    }
  }

  // ----- the fields of a package

  const KEYS := ["name", "version", "release", "description", "provides", "replaces", "group", "unsafe", "depends",
                 "archive-hash", "arch", "archive-size", "md5sum", "sha256sum", "size", "uri"]

  lemma KeysArePlain()
    ensures forall i :: 0 <= i < |KEYS| ==> PlainKey(KEYS[i])
  {
  }

  lemma KeysDiffer()
    ensures forall i, j :: 0 <= i < j < |KEYS| ==> KEYS[i] != KEYS[j]
  {
  }

  datatype FileInfo = FileInfo(md5sum: string, sha256sum: string, size: string, uri: string)

  function FileFields(f: FileInfo): seq<Field> {
    [Scalar("md5sum", f.md5sum), Scalar("sha256sum", f.sha256sum), Scalar("size", f.size), Scalar("uri", f.uri)]
  }

  /** The fields of an area in a repository index; metadata files hold the first 9 or 12 of them. */
  function AllFields(x: Info, d: DataInfo, f: FileInfo): seq<Field> {
    InfoFields(x) + DataFields(d) + FileFields(f)
  }

  ghost predicate GoodItems(items: seq<string>) {
    forall k :: 0 <= k < |items| ==> GoodItem(items[k])
  }

  /** All values are single lines without spaces at their ends. */
  ghost predicate GoodInfo(x: Info) {
    && GoodItem(x.name) && GoodItem(x.version) && GoodItem(x.release) && GoodItem(x.description)
    && GoodItems(x.provided) && GoodItems(x.replacing) && GoodItems(x.group) && GoodItems(x.depends)
  }

  predicate GoodData(d: DataInfo) {
    GoodItem(d.hash) && GoodItem(d.arch) && GoodItem(d.size)
  }

  predicate GoodFile(f: FileInfo) {
    GoodItem(f.md5sum) && GoodItem(f.sha256sum) && GoodItem(f.size) && GoodItem(f.uri)
  }

  lemma AllKeys(x: Info, d: DataInfo, f: FileInfo)
    ensures var fs := AllFields(x, d, f);
            |fs| == 16 == |KEYS| && forall i :: 0 <= i < 16 ==> fs[i].key == KEYS[i]
  {
  }

  lemma InfoValuesGood(x: Info)
    requires GoodInfo(x)
    ensures GoodValues(InfoFields(x))
  {
  }

  lemma DataValuesGood(d: DataInfo)
    requires GoodData(d)
    ensures GoodValues(DataFields(d))
  {
  }

  lemma FileValuesGood(f: FileInfo)
    requires GoodFile(f)
    ensures GoodValues(FileFields(f))
  {
  }

  lemma KeysMakeGood(fs: seq<Field>)
    requires |fs| == |KEYS| && GoodValues(fs) && forall i :: 0 <= i < |fs| ==> fs[i].key == KEYS[i]
    ensures GoodFields(fs)
  {
    KeysArePlain();
    KeysDiffer();
  }

  lemma AllFieldsGood(x: Info, d: DataInfo, f: FileInfo)
    requires GoodInfo(x) && GoodData(d) && GoodFile(f)
    ensures GoodFields(AllFields(x, d, f))
  {
    InfoValuesGood(x);
    DataValuesGood(d);
    FileValuesGood(f);
    AllKeys(x, d, f);
    KeysMakeGood(AllFields(x, d, f));
  }

  lemma GoodPrefix(fs: seq<Field>, n: nat)
    requires GoodFields(fs) && n <= |fs|
    ensures GoodFields(fs[..n])
  {
  }

  /** The area holds the field: a value, a list (an empty one is not there), a mark. */
  predicate FieldBack(area: string, f: Field) {
    match f
    case Scalar(key, value) => HasArea(area, key) && GetIn(area, key) == value
    case List(key, items) => GetsIn(area, key) == items
    case Mark(key, on) => HasArea(area, key) == on
  }

  ghost predicate ReadsBack(area: string, fs: seq<Field>) {
    forall i :: 0 <= i < |fs| ==> FieldBack(area, fs[i])
  }

  /** A bar at the end of a value would announce a block. */
  predicate HasBar(f: Field) {
    f.Scalar? && EndsWith(f.value, "|")
  }

  /** A field is read back from among the lines of others exactly when its value does not end in a bar. */
  lemma FieldBackAmong(before: seq<string>, f: Field, after: seq<string>)
    requires GoodField(f) && Around(before, f.key, after)
    ensures FieldBack(Joined(before + FieldLines(f) + after), f) <==> !HasBar(f)
  {
    FieldPresent(before, f, after);
    if f.Scalar? {
      FieldIsLines(f);
      LinesOfText(before + FieldLines(f) + after);
      ValueOfField(before, f, after);
    } else if f.List? && f.items != [] {
      ArrayOfField(before, f, after);
    }
  }

  lemma FieldBackIff(fs: seq<Field>, i: nat)
    requires GoodFields(fs) && i < |fs|
    ensures FieldBack(Joined(Printed(fs)), fs[i]) <==> !HasBar(fs[i])
  {
    PrintedSplit(fs, i);
    PrintedAround(fs, i);
    FieldBackAmong(Printed(fs[..i]), fs[i], Printed(fs[i + 1..]));
  }

  /** Printed fields are read back exactly when no value ends in a bar. */
  lemma FieldsComeBackIff(fs: seq<Field>)
    requires GoodFields(fs)
    ensures ReadsBack(Joined(Printed(fs)), fs) <==> forall i :: 0 <= i < |fs| ==> !HasBar(fs[i])
  {
    forall i | 0 <= i < |fs| ensures FieldBack(Joined(Printed(fs)), fs[i]) <==> !HasBar(fs[i]) {
      FieldBackIff(fs, i);
    }
  }

  lemma PrintedBody(fs: seq<Field>)
    requires GoodFields(fs) && fs != [] && fs[0].Scalar?
    ensures AreLines(Printed(fs)) && Printed(fs) != [] && Printed(fs)[0][0] != ' '
  {
    PrintedIsLines(fs);
    PrintedStarts(fs);
    assert StartsWith(Printed(fs)[0], " ") <==> Printed(fs)[0][0] == ' ';
  }

  /** Reading what was printed finds the package area. */
  lemma TextComesBack(fs: seq<Field>)
    requires GoodFields(fs) && fs != [] && fs[0].Scalar?
    ensures Load(InfoText(fs)) == Some(Loaded(false, Joined(Printed(fs))))
  {
    InfoTextIs(fs);
    PrintedBody(fs);
    LoadUndoesNested(false, Printed(fs));
  }

  lemma InfoFieldsGood(x: Info)
    requires GoodInfo(x)
    ensures GoodFields(InfoFields(x))
  {
    var (d, f) := (DataInfo("", "", ""), FileInfo("", "", "", ""));
    AllFieldsGood(x, d, f);
    GoodPrefix(AllFields(x, d, f), 9);
    assert AllFields(x, d, f)[..9] == InfoFields(x);
  }

  predicate NoBars(x: Info) {
    !EndsWith(x.name, "|") && !EndsWith(x.version, "|") && !EndsWith(x.release, "|") && !EndsWith(x.description, "|")
  }

  lemma InfoComesBackIff(x: Info)
    requires GoodInfo(x)
    ensures ReadsBack(Joined(Printed(InfoFields(x))), InfoFields(x)) <==> NoBars(x)
  {
    var fs := InfoFields(x);
    InfoFieldsGood(x);
    FieldsComeBackIff(fs);
    assert NoBars(x) <==> !HasBar(fs[0]) && !HasBar(fs[1]) && !HasBar(fs[2]) && !HasBar(fs[3]);
  }

  /** Metadata round trip: what `create_metadata_info` prints is loaded as a binary package whose area gives
      back every field, exactly when no value ends in a bar. */
  lemma MetadataComesBackIff(x: Info)
    requires GoodInfo(x)
    ensures Load(InfoText(InfoFields(x))) == Some(Loaded(false, Joined(Printed(InfoFields(x)))))
    ensures ReadsBack(Joined(Printed(InfoFields(x))), InfoFields(x)) <==> NoBars(x)
  {
    InfoFieldsGood(x);
    TextComesBack(InfoFields(x));
    InfoComesBackIff(x);
  }
}
