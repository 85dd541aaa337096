/** What the consumer finds in a finished `metadata.yaml`: the fields, and the values of a package object. */
module FinishedRoundTrip {
  import opened Wrappers
  import opened Text
  import opened YamlParser
  import opened Fields
  import opened PackageData
  import opened MetadataPrinter
  import opened MetadataRoundTrip
  import opened Comments
  import opened FinishedFile
  import opened FinishedFields

  // ----- the file

  lemma DataGood(x: Info, d: DataInfo)
    requires GoodInfo(x) && GoodData(d)
    ensures GoodFields(InfoFields(x) + DataFields(d)) && forall k :: 0 <= k < 3 ==> DataFields(d)[k].Scalar?
  {
    BothFieldsGood(x, d);
  }

  lemma FinishedAreaIff(x: Info, d: DataInfo)
    requires GoodInfo(x) && GoodData(d)
    ensures var (area, fs) := (Joined(FinishedLines(x, DataFields(d))), InfoFields(x) + DataFields(d));
            SurvivorsComeBack(area, fs) && (ReadsBack(area, fs) <==> AllSurvive(fs))
  {
    DataGood(x, d);
    FinishedFieldsIff(x, DataFields(d));
    AllBackIff(Joined(FinishedLines(x, DataFields(d))), InfoFields(x) + DataFields(d));
  }

  lemma FinishedFileLoads(x: Info, d: DataInfo)
    requires GoodInfo(x) && GoodData(d)
    ensures Load(DataFileText(InfoText(InfoFields(x)), d))
            == Some(Loaded(false, Joined(FinishedLines(x, DataFields(d)))))
  {
    BothFieldsGood(x, d);
    DataFileTextIs(x, d);
    FinishedBody(x, DataFields(d));
    LoadUndoesNested(false, FinishedLines(x, DataFields(d)));
  }

  /** Metadata round trip of the finished file: it is loaded as a binary package in any case, and exactly the
      fields are read back whose value does not end in a bar and, for those of the first step, holds no comment
      sign; so all of them when none does. */
  lemma FinishedFileComesBackIff(x: Info, d: DataInfo)
    requires GoodInfo(x) && GoodData(d)
    ensures var fs := InfoFields(x) + DataFields(d);
            var loaded := Load(DataFileText(InfoText(InfoFields(x)), d));
            && loaded.Some? && !loaded.value.isSource
            && SurvivorsComeBack(loaded.value.area, fs)
            && (ReadsBack(loaded.value.area, fs) <==> AllSurvive(fs))
  {
    FinishedFileLoads(x, d);
    FinishedAreaIff(x, d);
  }

  // ----- the package object

  predicate KeptValue(s: string) {
    '#' !in s && !EndsWith(s, "|")
  }

  /** Every field by its name, for areas that hold all fields of both steps and of the file. */
  lemma FieldsByName(area: string, x: Info, d: DataInfo, f: FileInfo)
    requires SurvivorsComeBack(area, AllFields(x, d, f))
    ensures GetIn(area, "description") == x.description <==> KeptValue(x.description)
    ensures GetsIn(area, "provides") == x.provided <==> NoComments(x.provided)
    ensures GetsIn(area, "replaces") == x.replacing <==> NoComments(x.replacing)
    ensures GetsIn(area, "group") == x.group <==> NoComments(x.group)
    ensures HasArea(area, "unsafe") <==> x.unsafe
  {
    var fs := AllFields(x, d, f);
    assert fs[3] == Scalar("description", x.description) && fs[7] == Mark("unsafe", x.unsafe);
    assert fs[4] == List("provides", x.provided) && fs[5] == List("replaces", x.replacing);
    assert fs[6] == List("group", x.group);
    ValueBackIff(area, fs, 3);
    assert forall k :: 4 <= k < 8 ==> (FieldBack(area, fs[k]) <==> Survives(fs, k));
  }

  lemma FileFieldsByName(area: string, x: Info, d: DataInfo, f: FileInfo)
    requires SurvivorsComeBack(area, AllFields(x, d, f))
    ensures !EndsWith(d.hash, "|") ==> GetIn(area, "archive-hash") == d.hash
    ensures !EndsWith(d.arch, "|") ==> GetIn(area, "arch") == d.arch
    ensures !EndsWith(d.size, "|") ==> GetIn(area, "archive-size") == d.size
    ensures !EndsWith(f.md5sum, "|") ==> GetIn(area, "md5sum") == f.md5sum
    ensures !EndsWith(f.sha256sum, "|") ==> GetIn(area, "sha256sum") == f.sha256sum
    ensures !EndsWith(f.size, "|") ==> GetIn(area, "size") == f.size
    ensures !EndsWith(f.uri, "|") ==> GetIn(area, "uri") == f.uri
  {
    var fs := AllFields(x, d, f);
    assert fs[9] == Scalar("archive-hash", d.hash) && fs[10] == Scalar("arch", d.arch);
    assert fs[11] == Scalar("archive-size", d.size) && fs[12] == Scalar("md5sum", f.md5sum);
    assert fs[13] == Scalar("sha256sum", f.sha256sum) && fs[14] == Scalar("size", f.size);
    assert fs[15] == Scalar("uri", f.uri);
    assert forall k :: 9 <= k < 16 ==> (FieldBack(area, fs[k]) <==> Survives(fs, k));
  }

  /** From an area of either kind of file: a value is the printed one exactly when the field survives. */
  lemma ValueBackIff(area: string, fs: seq<Field>, i: nat)
    requires SurvivorsComeBack(area, fs) && i < INFO_COUNT && i < |fs| && fs[i].Scalar?
    ensures GetIn(area, fs[i].key) == fs[i].value <==> KeptValue(fs[i].value)
  {
    assert Survives(fs, i) <==> KeptValue(fs[i].value);
  }

  lemma DependsBackIff(area: string, x: Info, rest: seq<Field>)
    requires SurvivorsComeBack(area, InfoFields(x) + rest)
    ensures GetsIn(area, "depends") == x.depends <==> NoComments(x.depends)
  {
    var fs := InfoFields(x) + rest;
    assert fs[8] == List("depends", x.depends);
    assert Survives(fs, 8) <==> NoComments(x.depends);
  }

  lemma AreaValues(area: string, x: Info, rest: seq<Field>)
    requires SurvivorsComeBack(area, InfoFields(x) + rest)
    ensures GetIn(area, "name") == x.name <==> KeptValue(x.name)
    ensures GetIn(area, "version") == x.version <==> KeptValue(x.version)
    ensures GetIn(area, "release") == x.release <==> KeptValue(x.release)
  {
    var fs := InfoFields(x) + rest;
    assert fs[0] == Scalar("name", x.name) && fs[1] == Scalar("version", x.version);
    assert fs[2] == Scalar("release", x.release);
    ValueBackIff(area, fs, 0);
    ValueBackIff(area, fs, 1);
    ValueBackIff(area, fs, 2);
  }

  lemma ObjectValues(p: PackageObject, area: string, x: Info, rest: seq<Field>)
    requires SurvivorsComeBack(area, InfoFields(x) + rest) && p.ReadFrom(Loaded(false, area))
    ensures !p.isSource && (p.dependencies == x.depends <==> NoComments(x.depends))
    ensures p.name == x.name <==> KeptValue(x.name)
    ensures p.version == x.version <==> KeptValue(x.version)
    ensures KeptValue(x.release) ==> p.release == p.parse(x.release)
  {
    BinaryDependencies(Loaded(false, area), p.use, p.packageUse);
    DependsBackIff(area, x, rest);
    AreaValues(area, x, rest);
  }

  /** What the package object holds after it is loaded from a finished file: the dependencies exactly when none
      holds a comment sign, name and version exactly when they hold none and do not end in a bar, the release
      if so. */
  lemma ObjectComesBack(p: PackageObject, x: Info, d: DataInfo)
    requires GoodInfo(x) && GoodData(d)
    requires var loaded := Load(DataFileText(InfoText(InfoFields(x)), d));
             loaded.Some? && p.ReadFrom(loaded.value)
    ensures !p.isSource && (p.dependencies == x.depends <==> NoComments(x.depends))
    ensures p.name == x.name <==> KeptValue(x.name)
    ensures p.version == x.version <==> KeptValue(x.version)
    ensures KeptValue(x.release) ==> p.release == p.parse(x.release)
  {
    FinishedFileLoads(x, d);
    FinishedAreaIff(x, d);
    ObjectValues(p, Joined(FinishedLines(x, DataFields(d))), x, DataFields(d));
  }
}
