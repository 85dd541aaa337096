/** Loading a repository index gives back what was indexed: its name and address, and one area a package. */
module IndexRoundTrip {
  import opened Wrappers
  import opened Text
  import opened YamlParser
  import opened Fields
  import opened MetadataPrinter
  import opened MetadataRoundTrip
  import opened FinishedFile
  import opened FinishedFields
  import opened RepositoryIndex
  import opened IndexAddress

  /** An indexed file: the lines of its package or source area, and what is known of the file. */
  datatype Entry = Entry(isSource: bool, body: seq<string>, info: FileInfo)

  ghost predicate GoodBody(body: seq<string>) {
    IsAreaBody(body) && body != [] && NoneBlank(body)
  }

  ghost predicate GoodEntry(e: Entry) {
    GoodBody(e.body) && GoodFile(e.info)
  }

  ghost predicate GoodEntries(entries: seq<Entry>) {
    forall k :: 0 <= k < |entries| ==> GoodEntry(entries[k])
  }

  function FileOf(e: Entry): PackageFile {
    PackageFile(Joined(Nested(Kind(e.isSource), e.body)), e.info)
  }

  function FilesOf(entries: seq<Entry>): (r: seq<PackageFile>)
    ensures |r| == |entries| && forall k :: 0 <= k < |r| ==> r[k] == FileOf(entries[k])
  {
    seq(|entries|, k requires 0 <= k < |entries| => FileOf(entries[k]))
  }

  /** The lines of the area an entry becomes. */
  function AreaBody(e: Entry): seq<string> {
    e.body + Printed(FileFields(e.info))
  }

  function EntryLines(e: Entry): seq<string> {
    [Kind(e.isSource) + ":"] + Shifted(AreaBody(e), 2)
  }

  function AllLines(entries: seq<Entry>): seq<string> {
    if entries == [] then [] else EntryLines(entries[0]) + AllLines(entries[1..])
  }

  /** The areas of the given kind, in order. */
  function AreasFor(entries: seq<Entry>, isSource: bool): seq<string> {
    if entries == [] then []
    else
      (if entries[0].isSource == isSource then [Joined(AreaBody(entries[0]))] else [])
      + AreasFor(entries[1..], isSource)
  }

  // ----- the printed text by lines

  lemma FileFieldsGood(f: FileInfo)
    requires GoodFile(f)
    ensures GoodFields(FileFields(f))
  {
    var fs := FileFields(f);
    KeysArePlain();
    KeysDiffer();
    assert forall i :: 0 <= i < 4 ==> fs[i].key == KEYS[12 + i];
  }

  lemma AreaBodyLines(e: Entry)
    requires GoodEntry(e)
    ensures AreLines(AreaBody(e)) && AreaBody(e) != [] && AreaBody(e)[0][0] != ' '
  {
    FileFieldsGood(e.info);
    PrintedIsLines(FileFields(e.info));
  }

  lemma YmpLines(e: Entry)
    requires GoodEntry(e)
    ensures Lines(Area(FileOf(e).metadata, "ymp")) == [Kind(e.isSource) + ":"] + Shifted(e.body, 2)
  {
    var kind := Kind(e.isSource);
    var inner := [kind + ":"] + Shifted(e.body, 2);
    HeaderLines(kind, e.body, 2);
    assert inner[0][0] == kind[0] && kind[0] in kind;
    assert "ymp" + ":" == "ymp:";
    FirstArea("ymp", inner, 2);
    LinesOfText(inner);
  }

  lemma OneMoreArea(inner: seq<string>, fields: seq<string>)
    ensures Joined(Shifted(inner, 2)) + Joined(Shifted(fields, 4)) == Joined(Shifted(inner + Shifted(fields, 2), 2))
  {
    ShiftedTwice(fields, 2, 2);
    ShiftedAppend(inner, Shifted(fields, 2), 2);
    JoinedAppend(Shifted(inner, 2), Shifted(Shifted(fields, 2), 2));
  }

  lemma OneList(first: string, a: seq<string>, b: seq<string>)
    ensures [first] + Shifted(a, 2) + Shifted(b, 2) == [first] + Shifted(a + b, 2)
  {
  }

  lemma SingleLines(e: Entry)
    requires GoodEntry(e)
    ensures SingleText(FileOf(e)) == Joined(Shifted(EntryLines(e), 2)) + [NL]
  {
    var fields := Printed(FileFields(e.info));
    var first := Kind(e.isSource) + ":";
    YmpLines(e);
    FieldsTextIs(FileFields(e.info));
    OneMoreArea([first] + Shifted(e.body, 2), fields);
    OneList(first, e.body, fields);
  }

  lemma EntryIsLines(e: Entry, n: nat)
    requires GoodEntry(e)
    ensures AreLines(EntryLines(e)) && AreLines(Shifted(EntryLines(e), n))
  {
    AreaBodyLines(e);
    HeaderLines(Kind(e.isSource), AreaBody(e), 2);
  }

  lemma LinesThenBlank(lines: seq<string>, more: string)
    requires AreLines(lines)
    ensures Lines(Joined(lines) + [NL] + more) == lines + Lines(more)
  {
    Assoc(Joined(lines), [NL], more);
    LinesOfJoined(lines, [NL] + more);
  }

  lemma FirstLines(a: seq<string>, b: seq<string>, rest: seq<string>)
    ensures Shifted(a, 2) + (Shifted(b, 2) + rest) == Shifted(a + b, 2) + rest
  {
  }

  lemma {:induction false} SinglesLines(entries: seq<Entry>, rest: string)
    requires GoodEntries(entries)
    ensures Lines(SinglesText(FilesOf(entries)) + rest) == Shifted(AllLines(entries), 2) + Lines(rest)
  {
    if entries == [] {
      assert "" + rest == rest;
      assert Shifted(AllLines(entries), 2) + Lines(rest) == Lines(rest);
    } else {
      var e, others := entries[0], SinglesText(FilesOf(entries[1..]));
      assert FilesOf(entries)[1..] == FilesOf(entries[1..]);
      assert GoodEntry(e) && GoodEntries(entries[1..]);
      SingleLines(e);
      Assoc(SingleText(FileOf(e)), others, rest);
      EntryIsLines(e, 2);
      LinesThenBlank(Shifted(EntryLines(e), 2), others + rest);
      SinglesLines(entries[1..], rest);
      FirstLines(EntryLines(e), AllLines(entries[1..]), Lines(rest));
    }
  }

  lemma HeadLines(name: string, rest: string)
    requires NL !in name
    ensures Lines("index:\n" + ("  name: " + name + "\n") + rest) == ["index:", "  name: " + name] + Lines(rest)
  {
    var head := ["index:", "  name: " + name];
    assert Joined(head) == "index:\n" + ("  name: " + name + "\n") by {
      assert head == ["index:"] + ["  name: " + name];
      JoinedAppend(["index:"], ["  name: " + name]);
      JoinedOfOne("index:");
      JoinedOfOne("  name: " + name);
      assert "index:" + [NL] == "index:\n";
    }
    LinesOfJoined(head, rest);
  }

  lemma NameShifted(name: string, all: seq<string>)
    ensures ["index:", "  name: " + name] + Shifted(all, 2) == ["index:"] + Shifted(["name: " + name] + all, 2)
  {
    IndentedLine("name: " + name);
    assert "  " + ("name: " + name) == "  name: " + name;
    ShiftedAppend(["name: " + name], all, 2);
  }

  /** The lines of the index area. */
  function IndexLines(name: string, entries: seq<Entry>): seq<string> {
    ["name: " + name] + AllLines(entries)
  }

  lemma TextLines(name: string, entries: seq<Entry>)
    requires NL !in name && GoodEntries(entries)
    ensures Lines(IndexText(name, FilesOf(entries))) == ["index:"] + Shifted(IndexLines(name, entries), 2)
  {
    var singles := SinglesText(FilesOf(entries));
    HeadLines(name, singles);
    SinglesLines(entries, "");
    PiecesOfNone(NL);
    assert singles + "" == singles;
    NameShifted(name, AllLines(entries));
  }

  lemma IndentedLine(line: string)
    ensures Shifted([line], 2) == ["  " + line]
  {
    assert Spaces(2) == "  ";
    assert Shifted([line], 2)[0] == Spaces(2) + line;
  }

  // ----- the index area

  lemma {:induction false} AllLinesAreLines(entries: seq<Entry>)
    requires GoodEntries(entries)
    ensures AreLines(AllLines(entries))
  {
    if entries != [] {
      assert GoodEntry(entries[0]) && GoodEntries(entries[1..]);
      EntryIsLines(entries[0], 0);
      AllLinesAreLines(entries[1..]);
    }
  }

  lemma IndexLinesAreLines(name: string, entries: seq<Entry>)
    requires NL !in name && GoodEntries(entries)
    ensures IsAreaBody(IndexLines(name, entries)) && IndexLines(name, entries) != []
  {
    AllLinesAreLines(entries);
    assert IndexLines(name, entries)[0] == "name: " + name;
  }

  // ----- the lists of areas

  /** Indented lines are no headers: they belong to the area above them, and open none. */
  lemma {:induction false} BodyOfShifted(lines: seq<string>, n: nat, rest: seq<string>, path: string)
    requires n > 0 && NoneBlank(lines) && (rest == [] || IsHeader(rest[0]))
    ensures Body(Shifted(lines, n) + rest) == Shifted(lines, n)
    ensures Bodies(Shifted(lines, n) + rest, path) == Bodies(rest, path)
  {
    if lines == [] {
      assert Shifted(lines, n) + rest == rest;
    } else {
      var all := Shifted(lines, n) + rest;
      assert all[0] == Spaces(n) + lines[0] && StartsWith(all[0], " ");
      assert Shifted(lines, n)[1..] == Shifted(lines[1..], n);
      assert all[1..] == Shifted(lines[1..], n) + rest;
      StripSpaces(n, lines[0]);
      assert NoneBlank(lines[1..]);
      BodyOfShifted(lines[1..], n, rest, path);
    }
  }

  lemma HeaderOf(key: string, rest: string)
    requires PlainKey(key)
    ensures IsHeader(key + ":" + rest) && HeaderName(key + ":" + rest) == Some(key)
  {
    NoLeadingSpace(key, ":" + rest);
    assert key + ":" + rest == key + (":" + rest);
    assert (key + ":" + rest)[|key|] == ':';
    PiecesStep(key, ':', rest);
  }

  lemma FileFieldsNotBlank(f: FileInfo)
    requires GoodFile(f)
    ensures NoneBlank(Printed(FileFields(f)))
  {
    FileFieldsGood(f);
    PrintedNotBlank(FileFields(f));
  }

  lemma AreaBodyNotBlank(e: Entry)
    requires GoodEntry(e)
    ensures NoneBlank(AreaBody(e))
  {
    FileFieldsNotBlank(e.info);
  }

  /** The bodies of the entries of one kind. */
  function BodiesFor(entries: seq<Entry>, isSource: bool): seq<seq<string>> {
    if entries == [] then []
    else
      (if entries[0].isSource == isSource then [Shifted(AreaBody(entries[0]), 2)] else [])
      + BodiesFor(entries[1..], isSource)
  }

  /** One area: its header, its lines, and what follows. */
  lemma BodiesOfArea(key: string, lines: seq<string>, rest: seq<string>, path: string)
    requires PlainKey(key) && NoneBlank(lines) && lines != [] && (rest == [] || IsHeader(rest[0]))
    ensures Bodies([key + ":"] + Shifted(lines, 2) + rest, path)
            == (if key == path then [Shifted(lines, 2)] else []) + Bodies(rest, path)
  {
    var all := [key + ":"] + Shifted(lines, 2) + rest;
    HeaderOf(key, "");
    assert key + ":" + "" == key + ":";
    assert all[0] == key + ":" && all[1..] == Shifted(lines, 2) + rest;
    BodyOfShifted(lines, 2, rest, path);
  }

  lemma BodiesOfEntry(e: Entry, rest: seq<string>, isSource: bool)
    requires GoodEntry(e) && (rest == [] || IsHeader(rest[0]))
    ensures IsHeader(EntryLines(e)[0])
    ensures Bodies(EntryLines(e) + rest, Kind(isSource))
            == (if e.isSource == isSource then [Shifted(AreaBody(e), 2)] else []) + Bodies(rest, Kind(isSource))
  {
    HeaderOf(Kind(e.isSource), "");
    assert Kind(e.isSource) + ":" + "" == Kind(e.isSource) + ":";
    AreaBodyNotBlank(e);
    AreaBodyLines(e);
    BodiesOfArea(Kind(e.isSource), AreaBody(e), rest, Kind(isSource));
  }

  lemma {:induction false} BodiesOfEntries(entries: seq<Entry>, isSource: bool)
    requires GoodEntries(entries)
    ensures AllLines(entries) == [] || IsHeader(AllLines(entries)[0])
    ensures Bodies(AllLines(entries), Kind(isSource)) == BodiesFor(entries, isSource)
  {
    if entries != [] {
      assert GoodEntry(entries[0]) && GoodEntries(entries[1..]);
      BodiesOfEntries(entries[1..], isSource);
      BodiesOfEntry(entries[0], AllLines(entries[1..]), isSource);
    }
  }

  lemma AreaOfOne(e: Entry)
    requires GoodEntry(e)
    ensures Areas([Shifted(AreaBody(e), 2)]) == [Joined(AreaBody(e))]
  {
    AreaBodyLines(e);
    TrimUndoesShift(AreaBody(e), 2);
  }

  lemma {:induction false} AreasOfBodies(entries: seq<Entry>, isSource: bool)
    requires GoodEntries(entries)
    ensures Areas(BodiesFor(entries, isSource)) == AreasFor(entries, isSource)
  {
    if entries != [] {
      var e, rest := entries[0], BodiesFor(entries[1..], isSource);
      assert GoodEntry(e) && GoodEntries(entries[1..]);
      AreasOfBodies(entries[1..], isSource);
      AreaOfOne(e);
    }
  }

  lemma BodiesBehindName(name: string, rest: seq<string>, path: string)
    requires path != "name"
    ensures Bodies(["name: " + name] + rest, path) == Bodies(rest, path)
  {
    var all := ["name: " + name] + rest;
    HeaderOf("name", " " + name);
    assert "name" + ":" + (" " + name) == "name: " + name;
    assert all[0] == "name: " + name && all[1..] == rest;
  }

  lemma AreasOfIndex(name: string, entries: seq<Entry>, isSource: bool)
    requires GoodEntries(entries)
    ensures Areas(Bodies(IndexLines(name, entries), Kind(isSource))) == AreasFor(entries, isSource)
  {
    BodiesOfEntries(entries, isSource);
    AreasOfBodies(entries, isSource);
    BodiesBehindName(name, AllLines(entries), Kind(isSource));
  }

  // ----- the whole index

  /** No block follows a name that ends in a bar. */
  lemma NothingFolded(entries: seq<Entry>)
    ensures Folded(AllLines(entries), "name") == []
  {
    if entries != [] {
      var first := AllLines(entries)[0];
      assert first == Kind(entries[0].isSource) + ":" && |first| >= 7;
      assert first[0] == 's' || first[0] == 'p';
    }
  }

  lemma NameValue(name: string, entries: seq<Entry>)
    requires GoodItem(name) && GoodEntries(entries)
    ensures ValueIn(IndexLines(name, entries), "name") == if EndsWith(name, "|") then "" else name
  {
    var line := "name" + ": " + name;
    IndexLinesAreLines(name, entries);
    AllLinesAreLines(entries);
    assert line == "name: " + name;
    ValueOfLine("name", name, AllLines(entries));
    if EndsWith(name, "|") {
      NothingFolded(entries);
      assert EndsWith(line, "|") && StartsWith(line, "name" + ":");
      assert IndexLines(name, entries)[0] == line && IndexLines(name, entries)[1..] == AllLines(entries);
    }
  }

  lemma EntryHasNoAddress(e: Entry)
    ensures NoneStartsWith(EntryLines(e), "address" + ":")
  {
    var lines := EntryLines(e);
    forall k | 0 <= k < |lines| ensures !StartsWith(lines[k], "address" + ":") {
      if k == 0 {
        assert lines[0][0] == 's' || lines[0][0] == 'p';
      } else {
        assert lines[k][0] == ' ';
      }
      assert ("address" + ":")[0] == 'a';
    }
  }

  lemma {:induction false} NoAddress(entries: seq<Entry>)
    ensures NoneStartsWith(AllLines(entries), "address" + ":")
  {
    if entries != [] {
      EntryHasNoAddress(entries[0]);
      NoAddress(entries[1..]);
    }
  }

  lemma IndexHasNoAddress(name: string, entries: seq<Entry>)
    ensures NoneStartsWith(IndexLines(name, entries), "address" + ":")
  {
    NoAddress(entries);
    assert IndexLines(name, entries)[0][0] == 'n' && ("address" + ":")[0] == 'a';
  }

  lemma TextIsIndex(name: string, entries: seq<Entry>)
    requires NL !in name && GoodEntries(entries)
    ensures IsIndex(IndexText(name, FilesOf(entries)), IndexLines(name, entries), 2)
  {
    TextLines(name, entries);
    IndexLinesAreLines(name, entries);
  }

  /** `text` is the index of these files, as it is kept with the address of its repository. */
  ghost predicate IsKeptIndex(text: string, name: string, files: seq<PackageFile>, address: string) {
    Lines(text) == Lines(IndexText(name, files)) + [AddressLine(address)]
  }

  lemma AddressComesBack(name: string, entries: seq<Entry>, address: string, text: string)
    requires NL !in name && GoodItem(address) && GoodEntries(entries)
    requires IsKeptIndex(text, name, FilesOf(entries), address)
    ensures Value(Area(text, "index"), "address") == address <==> !EndsWith(address, "|")
  {
    var fetched, lines := IndexText(name, FilesOf(entries)), IndexLines(name, entries);
    TextIsIndex(name, entries);
    AddressInArea(fetched, lines, 2, address, text);
    IndexHasNoAddress(name, entries);
    AddressIsAdded(fetched, lines, 2, address, text);
  }

  lemma IndexKey(name: string, entries: seq<Entry>, address: string, text: string, key: string)
    requires NL !in name && NL !in address && GoodEntries(entries) && PlainKey(key) && key != "address"
    requires IsKeptIndex(text, name, FilesOf(entries), address)
    ensures Value(Area(text, "index"), key) == ValueIn(IndexLines(name, entries), key)
    ensures AreaList(Area(text, "index"), key) == Areas(Bodies(IndexLines(name, entries), key))
  {
    var fetched, lines := IndexText(name, FilesOf(entries)), IndexLines(name, entries);
    TextIsIndex(name, entries);
    AddressInArea(fetched, lines, 2, address, text);
    TwoSpaces(address);
    OtherKeysStay(fetched, lines, 2, address, text, key);
  }

  lemma NameIsPlain()
    ensures PlainKey("name") && "name" != "address"
  {
  }

  lemma NameComesBack(name: string, entries: seq<Entry>, address: string, text: string)
    requires GoodItem(name) && NL !in address && GoodEntries(entries)
    requires IsKeptIndex(text, name, FilesOf(entries), address)
    ensures Value(Area(text, "index"), "name") == if EndsWith(name, "|") then "" else name
  {
    NameIsPlain();
    IndexKey(name, entries, address, text, "name");
    NameValue(name, entries);
  }

  lemma AreasComeBack(name: string, entries: seq<Entry>, address: string, text: string, isSource: bool)
    requires NL !in name && NL !in address && GoodEntries(entries)
    requires IsKeptIndex(text, name, FilesOf(entries), address)
    ensures AreaList(Area(text, "index"), Kind(isSource)) == AreasFor(entries, isSource)
  {
    IndexKey(name, entries, address, text, Kind(isSource));
    AreasOfIndex(name, entries, isSource);
  }

  /** Loading an index with its address line finds one area for each package and each source, in order, and
      the name and the address, each exactly when it does not end in a bar. */
  lemma IndexComesBack(name: string, entries: seq<Entry>, address: string, text: string)
    requires GoodItem(name) && GoodItem(address) && GoodEntries(entries)
    requires IsKeptIndex(text, name, FilesOf(entries), address)
    ensures var area := Area(text, "index");
            && (Value(area, "name") == name <==> !EndsWith(name, "|"))
            && (Value(area, "address") == address <==> !EndsWith(address, "|"))
            && AreaList(area, "package") == AreasFor(entries, false)
            && AreaList(area, "source") == AreasFor(entries, true)
  {
    NameComesBack(name, entries, address, text);
    AddressComesBack(name, entries, address, text);
    AreasComeBack(name, entries, address, text, false);
    AreasComeBack(name, entries, address, text, true);
  }

  lemma IndexIsAccepted(name: string, files: seq<PackageFile>)
    ensures StartsWith(IndexText(name, files), "index:")
  {
    assert IndexText(name, files)[..6] == "index:";
  }

  // ----- binary packages

  /** What there is about a package file: its metadata, its data archive, the file itself. */
  datatype Published = Published(x: Info, d: DataInfo, f: FileInfo)

  ghost predicate GoodPublished(p: Published) {
    GoodInfo(p.x) && GoodData(p.d) && GoodFile(p.f)
  }

  /** The package file, with the metadata the builder finishes. */
  function PublishedFile(p: Published): PackageFile {
    PackageFile(DataFileText(InfoText(InfoFields(p.x)), p.d), p.f)
  }

  function PublishedFiles(ps: seq<Published>): (r: seq<PackageFile>)
    ensures |r| == |ps| && forall k :: 0 <= k < |r| ==> r[k] == PublishedFile(ps[k])
  {
    seq(|ps|, k requires 0 <= k < |ps| => PublishedFile(ps[k]))
  }

  function FieldsOf(p: Published): seq<Field> {
    AllFields(p.x, p.d, p.f)
  }

  /** The entry of a package. */
  function PackageEntry(p: Published): Entry {
    Entry(false, FinishedLines(p.x, DataFields(p.d)), p.f)
  }

  function PackageEntries(ps: seq<Published>): (r: seq<Entry>)
    ensures |r| == |ps| && forall k :: 0 <= k < |r| ==> r[k] == PackageEntry(ps[k])
  {
    seq(|ps|, k requires 0 <= k < |ps| => PackageEntry(ps[k]))
  }

  /** Every package file the builder finishes is one of the entries the index round trip is about. */
  lemma PackageEntryIsGood(p: Published)
    requires GoodPublished(p)
    ensures GoodEntry(PackageEntry(p)) && FileOf(PackageEntry(p)) == PublishedFile(p)
  {
    BothFieldsGood(p.x, p.d);
    FinishedBody(p.x, DataFields(p.d));
    DataFileTextIs(p.x, p.d);
  }

  /** From its area in the index exactly the fields come back, of its metadata and of the file, that survive. */
  lemma PackageComesBackIff(p: Published)
    requires GoodPublished(p)
    ensures SurvivorsComeBack(Joined(AreaBody(PackageEntry(p))), FieldsOf(p))
  {
    var rest := DataFields(p.d) + FileFields(p.f);
    AllFieldsGood(p.x, p.d, p.f);
    assert FieldsOf(p) == InfoFields(p.x) + rest;
    PrintedSum(DataFields(p.d), FileFields(p.f));
    assert AreaBody(PackageEntry(p)) == FinishedLines(p.x, rest);
    FinishedFieldsIff(p.x, rest);
  }

  lemma {:induction false} OnlyPackages(entries: seq<Entry>)
    requires forall k :: 0 <= k < |entries| ==> !entries[k].isSource
    ensures AreasFor(entries, true) == []
    ensures |AreasFor(entries, false)| == |entries|
    ensures forall k :: 0 <= k < |entries| ==> AreasFor(entries, false)[k] == Joined(AreaBody(entries[k]))
  {
    if entries != [] {
      OnlyPackages(entries[1..]);
    }
  }

  /** The areas of the packages, in order. */
  lemma PackageAreas(ps: seq<Published>)
    requires forall k :: 0 <= k < |ps| ==> GoodPublished(ps[k])
    ensures GoodEntries(PackageEntries(ps)) && FilesOf(PackageEntries(ps)) == PublishedFiles(ps)
    ensures var areas := AreasFor(PackageEntries(ps), false);
            AreasFor(PackageEntries(ps), true) == [] && |areas| == |ps|
            && forall k :: 0 <= k < |ps| ==> SurvivorsComeBack(areas[k], FieldsOf(ps[k]))
  {
    var entries := PackageEntries(ps);
    forall k | 0 <= k < |ps| ensures GoodEntry(entries[k]) && FileOf(entries[k]) == PublishedFile(ps[k]) {
      PackageEntryIsGood(ps[k]);
    }
    OnlyPackages(entries);
    forall k | 0 <= k < |ps| ensures SurvivorsComeBack(Joined(AreaBody(entries[k])), FieldsOf(ps[k])) {
      PackageComesBackIff(ps[k]);
    }
  }

  /** Index round trip: the text of `create_index_data` for any list of finished package files is accepted, and
      from the text kept with its address loading finds the name, the address, and one area a package, in order;
      from each area exactly the fields of its package that survive, so all of them when all do. */
  lemma PackagesComeBack(name: string, ps: seq<Published>, address: string, text: string)
    requires GoodItem(name) && GoodItem(address) && forall k :: 0 <= k < |ps| ==> GoodPublished(ps[k])
    ensures StartsWith(IndexText(name, PublishedFiles(ps)), "index:")
    ensures IsKeptIndex(text, name, PublishedFiles(ps), address) ==>
              var area := Area(text, "index");
              var areas := AreaList(area, "package");
              && (Value(area, "name") == name <==> !EndsWith(name, "|"))
              && (Value(area, "address") == address <==> !EndsWith(address, "|"))
              && AreaList(area, "source") == [] && |areas| == |ps|
              && forall k :: 0 <= k < |ps| ==>
                   && SurvivorsComeBack(areas[k], FieldsOf(ps[k]))
                   && (ReadsBack(areas[k], FieldsOf(ps[k])) <==> AllSurvive(FieldsOf(ps[k])))
  {
    IndexIsAccepted(name, PublishedFiles(ps));
    if IsKeptIndex(text, name, PublishedFiles(ps), address) {
      PackageAreas(ps);
      IndexComesBack(name, PackageEntries(ps), address, text);
      var areas := AreaList(Area(text, "index"), "package");
      forall k | 0 <= k < |ps| ensures ReadsBack(areas[k], FieldsOf(ps[k])) <==> AllSurvive(FieldsOf(ps[k])) {
        AllBackIff(areas[k], FieldsOf(ps[k]));
      }
    }
  }
}
