/** The consumer of package metadata: from the text of `metadata.yaml`, or an area of a repository index, to
    the values of a package object. */
module PackageData {
  import opened Wrappers
  import opened Text
  import opened YamlParser
  import T = TombstoneArray

  function GetIn(area: string, key: string): string {
    if HasArea(area, key) then Value(area, key) else ""
  }

  function GetsIn(area: string, key: string): seq<string> {
    if HasArea(area, key) then Array(area, key) else []
  }

  function YmpData(metadata: string): string {
    if HasArea(metadata, "ymp") then Area(metadata, "ymp")
    else if HasArea(metadata, "package") || HasArea(metadata, "source") then metadata
    else ""
  }

  datatype Loaded = Loaded(isSource: bool, area: string)

  function LoadArea(ympdata: string): Option<Loaded> {
    if HasArea(ympdata, "package") then Some(Loaded(false, Area(ympdata, "package")))
    else if HasArea(ympdata, "source") then Some(Loaded(true, Area(ympdata, "source")))
    else None
  }

  function Load(metadata: string): Option<Loaded> {
    LoadArea(YmpData(metadata))
  }

  /** Of the area `ymp`, or of the whole text when there is none, the area `package`, or else `source`, is read;
      a text with neither is broken. */
  lemma LoadIs(metadata: string)
    ensures var y := if HasArea(metadata, "ymp") then Area(metadata, "ymp") else metadata;
            Load(metadata) == if HasArea(y, "package") then Some(Loaded(false, Area(y, "package")))
                              else if HasArea(y, "source") then Some(Loaded(true, Area(y, "source")))
                              else None
  {
    PiecesOfNone(NL);
  }

  /** The use flags: those of the package replace the general ones, `all` stands for those it knows. */
  function UseFlags(area: string, use: seq<string>, packageUse: seq<string>): seq<string> {
    var flags := if packageUse != [] then packageUse else use;
    if "all" in flags then GetsIn(area, "use-flags") else flags
  }

  function FlagLists(area: string, flags: seq<string>): (r: seq<seq<string>>)
    ensures |r| == |flags| && forall k :: 0 <= k < |r| ==> r[k] == GetsIn(area, flags[k] + "-depends")
  {
    seq(|flags|, k requires 0 <= k < |flags| => GetsIn(area, flags[k] + "-depends"))
  }

  /** A source package also needs what it is built with. */
  function DependencyLists(l: Loaded, use: seq<string>, packageUse: seq<string>): seq<seq<string>> {
    [GetsIn(l.area, "depends")]
    + if l.isSource then
        [GetsIn(l.area, "makedepends")] + FlagLists(l.area, UseFlags(l.area, use, packageUse))
      else []
  }

  function DependenciesOf(l: Loaded, use: seq<string>, packageUse: seq<string>): seq<string> {
    var lists := DependencyLists(l, use, packageUse);
    T.Together(lists, |lists|)
  }

  lemma BinaryDependencies(l: Loaded, use: seq<string>, packageUse: seq<string>)
    requires !l.isSource
    ensures DependenciesOf(l, use, packageUse) == GetsIn(l.area, "depends")
  {
    var one := GetsIn(l.area, "depends");
    assert DependencyLists(l, use, packageUse) == [one];
    assert T.Together([one], 1) == T.Together([one], 0) + one;
  }

  /** The setting for the package replaces the general one; `all` stands for every flag the source knows. */
  predicate IsInUse(area: string, use: seq<string>, packageUse: seq<string>, flag: string) {
    var setting := if |packageUse| > 0 then packageUse else use;
    if "all" in setting then HasArea(area, "use-flags") && flag in Array(area, "use-flags") else flag in setting
  }

  ghost predicate FlagBrings(area: string, use: seq<string>, packageUse: seq<string>, x: string) {
    exists flag :: IsInUse(area, use, packageUse, flag)
                   && HasArea(area, flag + "-depends") && x in Array(area, flag + "-depends")
  }

  lemma UseFlagsAre(area: string, use: seq<string>, packageUse: seq<string>, flag: string)
    ensures flag in UseFlags(area, use, packageUse) <==> IsInUse(area, use, packageUse, flag)
  {
  }

  lemma FlagListsAre(area: string, flags: seq<string>, x: string)
    ensures (exists k :: 0 <= k < |flags| && x in FlagLists(area, flags)[k])
            <==> exists flag :: flag in flags && x in GetsIn(area, flag + "-depends")
  {
    if flag :| flag in flags && x in GetsIn(area, flag + "-depends") {
      var k :| 0 <= k < |flags| && flags[k] == flag;
      assert x in FlagLists(area, flags)[k];
    }
  }

  lemma FlagsBring(area: string, use: seq<string>, packageUse: seq<string>, x: string)
    ensures (exists flag :: flag in UseFlags(area, use, packageUse) && x in GetsIn(area, flag + "-depends"))
            <==> FlagBrings(area, use, packageUse, x)
  {
    forall flag ensures flag in UseFlags(area, use, packageUse) <==> IsInUse(area, use, packageUse, flag) {
      UseFlagsAre(area, use, packageUse, flag);
    }
  }

  lemma InOneOf(a: seq<string>, b: seq<string>, more: seq<seq<string>>, x: string)
    ensures var lists := [a] + ([b] + more);
            (exists k :: 0 <= k < |lists| && x in lists[k])
            <==> x in a || x in b || exists k :: 0 <= k < |more| && x in more[k]
  {
    var lists := [a] + ([b] + more);
    assert lists[0] == a && lists[1] == b && forall k :: 0 <= k < |more| ==> lists[k + 2] == more[k];
    if k :| 1 < k < |lists| && x in lists[k] {
      assert x in more[k - 2];
    }
  }

  /** A source depends on its base dependencies, on what it is built with, and on what its flags in use bring. */
  lemma SourceDependencies(l: Loaded, use: seq<string>, packageUse: seq<string>, x: string)
    requires l.isSource
    ensures x in DependenciesOf(l, use, packageUse)
            <==> (HasArea(l.area, "depends") && x in Array(l.area, "depends"))
                 || (HasArea(l.area, "makedepends") && x in Array(l.area, "makedepends"))
                 || FlagBrings(l.area, use, packageUse, x)
  {
    var lists, flags := DependencyLists(l, use, packageUse), UseFlags(l.area, use, packageUse);
    T.TogetherMembers(lists, |lists|, x);
    InOneOf(GetsIn(l.area, "depends"), GetsIn(l.area, "makedepends"), FlagLists(l.area, flags), x);
    FlagListsAre(l.area, flags, x);
    FlagsBring(l.area, use, packageUse, x);
  }

  lemma FirstTwo(l: Loaded, use: seq<string>, packageUse: seq<string>)
    requires l.isSource
    ensures var lists := DependencyLists(l, use, packageUse);
            |lists| >= 2 && lists[0] == GetsIn(l.area, "depends") && lists[1] == GetsIn(l.area, "makedepends")
  {
  }

  /** First the base dependencies, then what it is built with. */
  lemma SourceBaseFirst(l: Loaded, use: seq<string>, packageUse: seq<string>)
    requires l.isSource && HasArea(l.area, "depends") && HasArea(l.area, "makedepends")
    ensures Array(l.area, "depends") + Array(l.area, "makedepends") <= DependenciesOf(l, use, packageUse)
  {
    var lists := DependencyLists(l, use, packageUse);
    T.TogetherStarts(lists, 2, |lists|);
    T.TogetherFirst(lists);
    FirstTwo(l, use, packageUse);
  }

  /** A package object. `parse` is the conversion of strings to numbers. */
  class PackageObject {
    const parse: string -> int
    const use: seq<string>
    const packageUse: seq<string>
    var pkgarea: string
    var isSource: bool
    var name: string
    var version: string
    var dependencies: seq<string>
    var release: int

    ghost predicate ReadFrom(l: Loaded)
      reads this
    {
      && pkgarea == l.area && isSource == l.isSource
      && name == GetIn(l.area, "name") && version == GetIn(l.area, "version")
      && dependencies == DependenciesOf(l, use, packageUse)
      && release == parse(GetIn(l.area, "release"))
    }

    constructor (parse: string -> int, use: seq<string>, packageUse: seq<string>)
      ensures this.parse == parse && this.use == use && this.packageUse == packageUse
    {
      this.parse, this.use, this.packageUse := parse, use, packageUse;
      pkgarea, isSource, name, version, dependencies, release := "", false, "", "", [], 0;
    }

    method Get(key: string) returns (r: string)
      ensures r == GetIn(pkgarea, key)
    {
      var yaml := new YamlFile();
      var found := yaml.HasAreaIn(pkgarea, key);
      if !found {
        return "";
      }
      r := yaml.GetValue(pkgarea, key);
    }

    method Gets(key: string) returns (r: seq<string>)
      ensures r == GetsIn(pkgarea, key)
    {
      var yaml := new YamlFile();
      var found := yaml.HasAreaIn(pkgarea, key);
      if !found {
        return [];
      }
      r := yaml.GetArray(pkgarea, key);
    }

    method GetUseFlags() returns (flags: seq<string>)
      ensures flags == UseFlags(pkgarea, use, packageUse)
    {
      flags := if packageUse != [] then packageUse else use;
      if "all" in flags {
        flags := Gets("use-flags");
      }
    }

    method GetFlagLists(flags: seq<string>) returns (lists: seq<seq<string>>)
      ensures lists == FlagLists(pkgarea, flags)
    {
      lists := [];
      for i := 0 to |flags|
        invariant lists == FlagLists(pkgarea, flags)[..i]
      {
        var deps := Gets(flags[i] + "-depends");
        lists := lists + [deps];
      }
    }

    method GetDependencyLists() returns (lists: seq<seq<string>>)
      ensures lists == DependencyLists(Loaded(isSource, pkgarea), use, packageUse)
    {
      var depends := Gets("depends");
      if !isSource {
        return [depends];
      }
      var make := Gets("makedepends");
      var flags := GetUseFlags();
      var flagLists := GetFlagLists(flags);
      lists := [depends] + ([make] + flagLists);
    }

    method GetDependencies() returns (r: seq<string>)
      ensures r == DependenciesOf(Loaded(isSource, pkgarea), use, packageUse)
    {
      var lists := GetDependencyLists();
      r := T.PutTogether(lists);
    }

    method GetRelease() returns (r: int)
      ensures r == parse(GetIn(pkgarea, "release"))
    {
      var number := Get("release");
      r := parse(number);
    }

    /** `read_values`. */
    method ReadValues()
      modifies this
      ensures ReadFrom(Loaded(old(isSource), old(pkgarea)))
    {
      var n := Get("name");
      var v := Get("version");
      var d := GetDependencies();
      var r := GetRelease();
      name, version, dependencies, release := n, v, d, r;
    }

    method SetPkgarea(area: string, isSrc: bool)
      modifies this
      ensures ReadFrom(Loaded(isSrc, area))
    {
      pkgarea, isSource := area, isSrc;
      ReadValues();
    }

    /** `load_from_data`; broken metadata ends the program. */
    method LoadFromData(metadata: string) returns (ok: bool)
      modifies this
      ensures ok == Load(metadata).Some?
      ensures ok ==> ReadFrom(Load(metadata).value)
    {
      var ympdata := FindYmpData(metadata);
      var l := FindArea(ympdata);
      if l.None? {
        return false;
      }
      SetPkgarea(l.value.area, l.value.isSource);
      return true;
    }
  }

  method FindYmpData(metadata: string) returns (ympdata: string)
    ensures ympdata == YmpData(metadata)
  {
    var yaml := new YamlFile();
    var ymp := yaml.HasAreaIn(metadata, "ymp");
    if ymp {
      ympdata := yaml.GetArea(metadata, "ymp");
      return;
    }
    var package := yaml.HasAreaIn(metadata, "package");
    var source := yaml.HasAreaIn(metadata, "source");
    ympdata := if package || source then metadata else "";
  }

  method FindArea(ympdata: string) returns (l: Option<Loaded>)
    ensures l == LoadArea(ympdata)
  {
    var yaml := new YamlFile();
    var package := yaml.HasAreaIn(ympdata, "package");
    if package {
      var area := yaml.GetArea(ympdata, "package");
      return Some(Loaded(false, area));
    }
    var source := yaml.HasAreaIn(ympdata, "source");
    if source {
      var area := yaml.GetArea(ympdata, "source");
      return Some(Loaded(true, area));
    }
    return None;
  }
}
