/** The builder's side: the text of `metadata.yaml`, built from the metadata of the source, and the lines
    added once the data archive exists. */
module MetadataPrinter {
  import opened Wrappers
  import opened Text
  import opened YamlParser
  import opened Fields
  import opened PackageData
  import T = TombstoneArray

  datatype Info = Info(
    name: string,
    version: string,
    release: string,
    description: string,
    provided: seq<string>,
    replacing: seq<string>,
    group: seq<string>,
    unsafe: bool,
    depends: seq<string>)

  datatype DataInfo = DataInfo(hash: string, arch: string, size: string)

  function InfoFields(x: Info): seq<Field> {
    [Scalar("name", x.name), Scalar("version", x.version), Scalar("release", x.release),
     Scalar("description", x.description),
     List("provides", x.provided), List("replaces", x.replacing), List("group", x.group),
     Mark("unsafe", x.unsafe), List("depends", x.depends)]
  }

  function DataFields(d: DataInfo): seq<Field> {
    [Scalar("archive-hash", d.hash), Scalar("arch", d.arch), Scalar("archive-size", d.size)]
  }

  // ----- the text of a field, indented by four spaces

  function ItemsText(items: seq<string>, n: nat): string
    requires n <= |items|
  {
    if n == 0 then "" else ItemsText(items, n - 1) + ("     - " + items[n - 1] + "\n")
  }

  function FieldText(f: Field): string {
    match f
    case Scalar(key, value) => "    " + key + ": " + value + "\n"
    case List(key, items) => if items == [] then "" else "    " + key + ":\n" + ItemsText(items, |items|)
    case Mark(key, on) => if on then "    " + key + ": true\n" else ""
  }

  function FieldsText(fs: seq<Field>): string {
    if fs == [] then "" else FieldText(fs[0]) + FieldsText(fs[1..])
  }

  lemma {:induction false} FieldsTextAppend(a: seq<Field>, b: seq<Field>)
    ensures FieldsText(a + b) == FieldsText(a) + FieldsText(b)
  {
    if a == [] {
      assert a + b == b;
    } else {
      assert (a + b)[1..] == a[1..] + b;
      FieldsTextAppend(a[1..], b);
    }
  }

  lemma FieldsTextOfOne(f: Field)
    ensures FieldsText([f]) == FieldText(f)
  {
  }

  const HEAD := "ymp:\n  package:\n"

  function InfoText(fs: seq<Field>): string {
    HEAD + FieldsText(fs)
  }

  /** The lines of a value, of a list and of a mark. */
  lemma FieldsArePrinted(key: string, value: string, a: string, b: string)
    ensures FieldText(Scalar(key, value)) == "    " + key + ": " + value + "\n"
    ensures FieldText(List(key, [a, b])) == "    " + key + ":\n" + (("     - " + a + "\n") + ("     - " + b + "\n"))
    ensures FieldText(List(key, [])) == "" == FieldText(Mark(key, false))
    ensures FieldText(Mark(key, true)) == "    " + key + ": true\n"
  {
    var (first, second) := ("     - " + a + "\n", "     - " + b + "\n");
    assert ItemsText([a, b], 1) == ItemsText([a, b], 0) + first == first;
    assert ItemsText([a, b], 2) == first + second;
  }

  // ----- from the source metadata

  /** What the builder is told besides the source metadata. */
  datatype Options = Options(unsafe: bool, use: string, packageUse: string, arch: string)

  function SourceFlags(src: string, o: Options): seq<string> {
    var flags := if |o.packageUse| > 0 then Pieces(o.packageUse, ' ') else Pieces(o.use, ' ');
    if "all" in flags then Array(src, "use-flags") else flags
  }

  function SourceFlagLists(src: string, flags: seq<string>): (r: seq<seq<string>>)
    ensures |r| == |flags| && forall k :: 0 <= k < |r| ==> r[k] == Array(src, flags[k] + "-depends")
  {
    seq(|flags|, k requires 0 <= k < |flags| => Array(src, flags[k] + "-depends"))
  }

  /** The base dependencies and those the use flags bring in. */
  function SourceLists(src: string, o: Options): seq<seq<string>> {
    [GetsIn(src, "depends")]
    + if HasArea(src, "use-flags") then SourceFlagLists(src, SourceFlags(src, o)) else []
  }

  function SourceDepends(src: string, o: Options): seq<string> {
    T.Together(SourceLists(src, o), |SourceLists(src, o)|)
  }

  /** The setting for the package replaces the general one; `all` stands for every flag the source knows. */
  predicate IsInUse(src: string, o: Options, flag: string) {
    var setting := if o.packageUse != "" then o.packageUse else o.use;
    if "all" in Pieces(setting, ' ') then flag in Array(src, "use-flags") else flag in Pieces(setting, ' ')
  }

  ghost predicate FlagBrings(src: string, o: Options, x: string) {
    exists flag :: IsInUse(src, o, flag) && x in Array(src, flag + "-depends")
  }

  lemma SourceFlagsAre(src: string, o: Options, flag: string)
    ensures flag in SourceFlags(src, o) <==> IsInUse(src, o, flag)
  {
  }

  lemma FlagListsAre(src: string, flags: seq<string>, x: string)
    ensures (exists k :: 0 <= k < |flags| && x in SourceFlagLists(src, flags)[k])
            <==> exists flag :: flag in flags && x in Array(src, flag + "-depends")
  {
    if flag :| flag in flags && x in Array(src, flag + "-depends") {
      var k :| 0 <= k < |flags| && flags[k] == flag;
      assert x in SourceFlagLists(src, flags)[k];
    }
  }

  lemma FlagsBring(src: string, o: Options, x: string)
    ensures (exists flag :: flag in SourceFlags(src, o) && x in Array(src, flag + "-depends"))
            <==> FlagBrings(src, o, x)
  {
    forall flag ensures flag in SourceFlags(src, o) <==> IsInUse(src, o, flag) {
      SourceFlagsAre(src, o, flag);
    }
  }

  lemma FirstOrLater(a: seq<string>, more: seq<seq<string>>, x: string)
    ensures var lists := [a] + more;
            (exists k :: 0 <= k < |lists| && x in lists[k]) <==> x in a || exists k :: 0 <= k < |more| && x in more[k]
  {
    var lists := [a] + more;
    assert lists[0] == a && forall k :: 0 <= k < |more| ==> lists[k + 1] == more[k];
    if k :| 0 < k < |lists| && x in lists[k] {
      assert x in more[k - 1];
    }
  }

  /** What is printed as a dependency: the base dependencies, and those of every flag in use, if the source knows
      any flags. */
  lemma PrintedDependencies(src: string, o: Options, x: string)
    ensures x in SourceDepends(src, o)
            <==> (HasArea(src, "depends") && x in Array(src, "depends"))
                 || (HasArea(src, "use-flags") && FlagBrings(src, o, x))
  {
    var lists, flags := SourceLists(src, o), SourceFlags(src, o);
    T.TogetherMembers(lists, |lists|, x);
    FirstOrLater(GetsIn(src, "depends"),
                 if HasArea(src, "use-flags") then SourceFlagLists(src, flags) else [], x);
    FlagListsAre(src, flags, x);
    FlagsBring(src, o, x);
  }

  /** The base dependencies come first. */
  lemma BaseComesFirst(src: string, o: Options)
    requires HasArea(src, "depends")
    ensures Array(src, "depends") <= SourceDepends(src, o)
  {
    var lists := SourceLists(src, o);
    T.TogetherStarts(lists, 1, |lists|);
    T.TogetherFirst(lists);
  }

  function InfoOf(src: string, o: Options): Info {
    Info(Value(src, "name"), Value(src, "version"), Value(src, "release"), Value(src, "description"),
         GetsIn(src, "provides"), GetsIn(src, "replaces"), GetsIn(src, "group"),
         o.unsafe || Value(src, "unsafe") == "true", SourceDepends(src, o))
  }

  predicate Printable(src: string, o: Options) {
    && Value(src, "release") != "" && Value(src, "version") != "" && Value(src, "name") != ""
    && o.arch in Array(src, "arch")
  }

  const ATTRS := ["name", "version", "release", "description"]
  const ARRAYS := ["provides", "replaces", "group"]

  function ScalarFields(src: string, keys: seq<string>): (r: seq<Field>)
    ensures |r| == |keys| && forall k :: 0 <= k < |r| ==> r[k] == Scalar(keys[k], Value(src, keys[k]))
  {
    seq(|keys|, k requires 0 <= k < |keys| => Scalar(keys[k], Value(src, keys[k])))
  }

  function ListFields(src: string, keys: seq<string>): (r: seq<Field>)
    ensures |r| == |keys| && forall k :: 0 <= k < |r| ==> r[k] == List(keys[k], GetsIn(src, keys[k]))
  {
    seq(|keys|, k requires 0 <= k < |keys| => List(keys[k], GetsIn(src, keys[k])))
  }

  method WriteScalars(yaml: YamlFile, src: string, keys: seq<string>, text: string) returns (r: string)
    ensures r == text + FieldsText(ScalarFields(src, keys))
  {
    r := text;
    ghost var fs := ScalarFields(src, keys);
    assert fs[..0] == [] && text + "" == text;
    for i := 0 to |keys|
      invariant r == text + FieldsText(fs[..i])
    {
      var value := yaml.GetValue(src, keys[i]);
      WriteOne(text, fs, i);
      r := r + ("    " + keys[i] + ": " + value + "\n");
    }
    assert fs[..|keys|] == fs;
  }

  lemma WriteOne(text: string, fs: seq<Field>, i: nat)
    requires i < |fs|
    ensures text + FieldsText(fs[..i + 1]) == (text + FieldsText(fs[..i])) + FieldText(fs[i])
  {
    assert fs[..i + 1] == fs[..i] + [fs[i]];
    FieldsTextAppend(fs[..i], [fs[i]]);
    FieldsTextOfOne(fs[i]);
  }

  method WriteList(key: string, items: seq<string>, text: string) returns (r: string)
    ensures r == text + FieldText(List(key, items))
  {
    if |items| == 0 {
      assert text + "" == text;
      return text;
    }
    var head := text + ("    " + key + ":\n");
    r := head;
    assert head + "" == head;
    for i := 0 to |items|
      invariant r == head + ItemsText(items, i)
    {
      Assoc(head, ItemsText(items, i), "     - " + items[i] + "\n");
      r := r + ("     - " + items[i] + "\n");
    }
    Assoc(text, "    " + key + ":\n", ItemsText(items, |items|));
  }

  method ListOrNone(yaml: YamlFile, src: string, key: string) returns (r: seq<string>)
    modifies yaml`areaBuilder
    ensures r == GetsIn(src, key)
  {
    var found := yaml.HasAreaIn(src, key);
    if !found {
      return [];
    }
    r := yaml.GetArray(src, key);
  }

  method WriteLists(yaml: YamlFile, src: string, keys: seq<string>, text: string) returns (r: string)
    modifies yaml`areaBuilder
    ensures r == text + FieldsText(ListFields(src, keys))
  {
    r := text;
    ghost var fs := ListFields(src, keys);
    assert fs[..0] == [] && text + "" == text;
    for i := 0 to |keys|
      invariant r == text + FieldsText(fs[..i])
    {
      var items := ListOrNone(yaml, src, keys[i]);
      WriteOne(text, fs, i);
      r := WriteList(keys[i], items, r);
    }
    assert fs[..|keys|] == fs;
  }

  lemma NextList(lists: seq<seq<string>>, i: nat)
    requires i < |lists|
    ensures lists[..i + 1] == lists[..i] + [lists[i]]
  {
  }

  method CollectFlagLists(yaml: YamlFile, src: string, flags: seq<string>) returns (lists: seq<seq<string>>)
    modifies yaml`areaBuilder
    ensures lists == SourceFlagLists(src, flags)
  {
    lists := [];
    for i := 0 to |flags|
      invariant lists == SourceFlagLists(src, flags)[..i]
    {
      NextList(SourceFlagLists(src, flags), i);
      var fdeps := yaml.GetArray(src, flags[i] + "-depends");
      lists := lists + [fdeps];
    }
  }

  method CollectFlags(yaml: YamlFile, src: string, o: Options) returns (flags: seq<string>)
    modifies yaml`areaBuilder
    ensures flags == SourceFlags(src, o)
  {
    flags := if |o.packageUse| > 0 then Pieces(o.packageUse, ' ') else Pieces(o.use, ' ');
    if "all" in flags {
      flags := yaml.GetArray(src, "use-flags");
    }
  }

  method CollectLists(yaml: YamlFile, src: string, o: Options) returns (lists: seq<seq<string>>)
    modifies yaml`areaBuilder
    ensures lists == SourceLists(src, o)
  {
    var base := ListOrNone(yaml, src, "depends");
    var flags := CollectFlags(yaml, src, o);
    var hasFlags := yaml.HasAreaIn(src, "use-flags");
    if !hasFlags {
      return [base];
    }
    var more := CollectFlagLists(yaml, src, flags);
    lists := [base] + more;
  }

  method CollectDepends(yaml: YamlFile, src: string, o: Options) returns (deps: seq<string>)
    modifies yaml`areaBuilder
    ensures deps == SourceDepends(src, o)
  {
    var lists := CollectLists(yaml, src, o);
    deps := T.PutTogether(lists);
  }

  method WriteUnsafe(unsafe: bool, text: string) returns (r: string)
    ensures r == text + FieldText(Mark("unsafe", unsafe))
  {
    if !unsafe {
      assert text + "" == text;
      return text;
    }
    assert "    " + "unsafe" + ": true\n" == "    unsafe: true\n";
    r := text + "    unsafe: true\n";
  }

  lemma TwoTexts(text: string, f: Field, g: Field)
    ensures text + FieldText(f) + FieldText(g) == text + FieldsText([f, g])
  {
    FieldsTextAppend([f], [g]);
    FieldsTextOfOne(f);
    FieldsTextOfOne(g);
    assert [f] + [g] == [f, g];
    Assoc(text, FieldText(f), FieldText(g));
  }

  lemma ThreeTexts(text: string, f: Field, g: Field, h: Field)
    ensures text + FieldText(f) + FieldText(g) + FieldText(h) == text + FieldsText([f, g, h])
  {
    TwoTexts(text, f, g);
    FieldsTextAppend([f, g], [h]);
    FieldsTextOfOne(h);
    assert [f, g] + [h] == [f, g, h];
    Assoc(text, FieldsText([f, g]), FieldText(h));
  }

  method WriteRest(yaml: YamlFile, src: string, o: Options, text: string) returns (r: string)
    modifies yaml`areaBuilder
    ensures r == text + FieldsText([Mark("unsafe", InfoOf(src, o).unsafe), List("depends", InfoOf(src, o).depends)])
  {
    var deps := CollectDepends(yaml, src, o);
    var value := yaml.GetValue(src, "unsafe");
    var unsafe := o.unsafe || value == "true";
    r := WriteUnsafe(unsafe, text);
    r := WriteList("depends", deps, r);
    TwoTexts(text, Mark("unsafe", unsafe), List("depends", deps));
  }

  function SourceFields(src: string, o: Options): seq<Field> {
    ScalarFields(src, ATTRS) + ListFields(src, ARRAYS)
    + [Mark("unsafe", InfoOf(src, o).unsafe), List("depends", InfoOf(src, o).depends)]
  }

  lemma SourceFieldsAre(src: string, o: Options)
    ensures SourceFields(src, o) == InfoFields(InfoOf(src, o))
  {
  }

  lemma {:induction false} DedentByNone(s: string)
    ensures Dedent(s, 0) == s
  {
    if s != "" {
      DedentByNone(s[1..]);
      assert Drop(s[1..], 0) == s[1..];
    }
  }

  lemma TrimUnindented(s: string)
    requires s != "" && s[0] != ' '
    ensures Trim(s) == s
  {
    assert CountTab(s) == 0 && Drop(s, 0) == s;
    DedentByNone(s);
  }

  /** `create_metadata_info`: the text it writes, or nothing when something is missing. */
  method CreateMetadataInfo(src: string, o: Options) returns (r: Option<string>)
    ensures r == if Printable(src, o) then Some(InfoText(InfoFields(InfoOf(src, o)))) else None
    ensures r.Some? <==> Value(src, "release") != "" && Value(src, "version") != "" && Value(src, "name") != ""
                         && o.arch in Array(src, "arch")
    ensures var x := InfoOf(src, o);
            && x.name == Value(src, "name") && x.version == Value(src, "version")
            && x.release == Value(src, "release") && x.description == Value(src, "description")
            && x.provided == (if HasArea(src, "provides") then Array(src, "provides") else [])
            && x.replacing == (if HasArea(src, "replaces") then Array(src, "replaces") else [])
            && x.group == (if HasArea(src, "group") then Array(src, "group") else [])
            && (x.unsafe <==> o.unsafe || Value(src, "unsafe") == "true")
  {
    var text := PrintInfo(src, o);
    var ok := CheckInfo(src, o);
    if !ok {
      return None;
    }
    assert text[0] == 'y';
    TrimUnindented(text);
    text := TrimText(text);
    r := Some(text);
  }

  method PrintInfo(src: string, o: Options) returns (text: string)
    ensures text == InfoText(InfoFields(InfoOf(src, o)))
  {
    var yaml := new YamlFile();
    text := "ymp:\n";
    text := text + "  package:\n";
    assert text == HEAD;
    text := WriteScalars(yaml, src, ATTRS, text);
    text := WriteLists(yaml, src, ARRAYS, text);
    text := WriteRest(yaml, src, o, text);
    ThreeParts(HEAD, ScalarFields(src, ATTRS), ListFields(src, ARRAYS),
               [Mark("unsafe", InfoOf(src, o).unsafe), List("depends", InfoOf(src, o).depends)]);
    SourceFieldsAre(src, o);
  }

  lemma ThreeParts(head: string, a: seq<Field>, b: seq<Field>, c: seq<Field>)
    ensures head + FieldsText(a) + FieldsText(b) + FieldsText(c) == head + FieldsText(a + b + c)
  {
    FieldsTextAppend(a + b, c);
    FieldsTextAppend(a, b);
    Assoc(head, FieldsText(a), FieldsText(b));
    Assoc(head, FieldsText(a) + FieldsText(b), FieldsText(c));
  }

  method CheckInfo(src: string, o: Options) returns (ok: bool)
    ensures ok == Printable(src, o)
  {
    var yaml := new YamlFile();
    var release := yaml.GetValue(src, "release");
    var version := yaml.GetValue(src, "version");
    var name := yaml.GetValue(src, "name");
    var archs := yaml.GetArray(src, "arch");
    ok := release != "" && version != "" && name != "" && o.arch in archs;
  }
}
