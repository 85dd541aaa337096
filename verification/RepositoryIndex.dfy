/** The repository index: printed by jobs, one for each package file, and loaded by the package manager. */
module RepositoryIndex {
  import opened Wrappers
  import opened Text
  import opened YamlParser
  import opened Fields
  import opened MetadataPrinter
  import opened MetadataRoundTrip
  import Comments
  import T = TombstoneArray

  /** A package file: the text of its `metadata.yaml`, its checksums, size and path. */
  datatype PackageFile = PackageFile(metadata: string, info: FileInfo)

  // ----- printing

  function SingleText(p: PackageFile): string {
    Joined(Shifted(Lines(Area(p.metadata, "ymp")), 2)) + FieldsText(FileFields(p.info)) + "\n"
  }

  /** The texts of all files, in the order of their numbers. */
  function SinglesText(files: seq<PackageFile>): string {
    if files == [] then "" else SingleText(files[0]) + SinglesText(files[1..])
  }

  function IndexText(name: string, files: seq<PackageFile>): string {
    "index:\n" + ("  name: " + name + "\n") + SinglesText(files)
  }

  method AddField(a: T.CArray<string>, key: string, value: string, ghost text: string)
    requires T.Spells(a.Slots(), text)
    modifies a, a.data
    ensures T.Spells(a.Slots(), text + FieldText(Scalar(key, value)))
    ensures a.data == old(a.data) || fresh(a.data)
  {
    T.AppendText(a, "    " + key + ": " + value + "\n", text);
  }

  lemma FourTexts(text: string, f: Field, g: Field, h: Field, k: Field)
    ensures text + FieldText(f) + FieldText(g) + FieldText(h) + FieldText(k) == text + FieldsText([f, g, h, k])
  {
    ThreeTexts(text, f, g, h);
    FieldsTextAppend([f, g, h], [k]);
    FieldsTextOfOne(k);
    assert [f, g, h] + [k] == [f, g, h, k];
    Assoc(text, FieldsText([f, g, h]), FieldText(k));
  }

  method AddFileFields(a: T.CArray<string>, f: FileInfo, ghost text: string)
    requires T.Spells(a.Slots(), text)
    modifies a, a.data
    ensures T.Spells(a.Slots(), text + FieldsText(FileFields(f)))
    ensures a.data == old(a.data) || fresh(a.data)
  {
    ghost var (m, s) := (Scalar("md5sum", f.md5sum), Scalar("sha256sum", f.sha256sum));
    ghost var (z, u) := (Scalar("size", f.size), Scalar("uri", f.uri));
    AddField(a, "md5sum", f.md5sum, text);
    AddField(a, "sha256sum", f.sha256sum, text + FieldText(m));
    AddField(a, "size", f.size, text + FieldText(m) + FieldText(s));
    AddField(a, "uri", f.uri, text + FieldText(m) + FieldText(s) + FieldText(z));
    FourTexts(text, m, s, z, u);
  }

  /** `create_index_single`: every line of the `ymp` area, two spaces further in, and what is known of the file. */
  method CreateIndexSingle(p: PackageFile) returns (r: string)
    ensures r == SingleText(p)
  {
    var yaml := new YamlFile();
    var ymparea := yaml.GetArea(p.metadata, "ymp");
    var lines := Ssplit(ymparea, NL);
    var a := T.NewText();
    var shifted := Shifted(lines, 2);
    assert "" + Joined(shifted) == Joined(shifted);
    Comments.AddLines(a, shifted, "");
    AddFileFields(a, p.info, Joined(shifted));
    T.AppendText(a, "\n", Joined(shifted) + FieldsText(FileFields(p.info)));
    r := T.GetString(a);
  }

  lemma SinglesStep(files: seq<PackageFile>, i: nat)
    requires i < |files|
    ensures SinglesText(files[..i + 1]) == SinglesText(files[..i]) + SingleText(files[i])
  {
    assert files[..i + 1] == files[..i] + [files[i]];
    SinglesAppend(files[..i], files[i]);
  }

  lemma {:induction false} SinglesAppend(files: seq<PackageFile>, p: PackageFile)
    ensures SinglesText(files + [p]) == SinglesText(files) + SingleText(p)
  {
    if files == [] {
      assert files + [p] == [p];
      assert SinglesText([p]) == SingleText(p) + SinglesText([p][1..]);
    } else {
      assert (files + [p])[1..] == files[1..] + [p];
      SinglesAppend(files[1..], p);
    }
  }

  /** Every number of a file occurs, and no other. */
  ghost predicate CoversFiles(order: seq<nat>, count: nat) {
    (forall k :: 0 <= k < |order| ==> order[k] < count) && forall n: nat :: n < count ==> n in order
  }

  ghost predicate Filled(slots: seq<string>, files: seq<PackageFile>, done: seq<nat>) {
    |slots| == |files| && forall n: nat :: n < |files| && n in done ==> slots[n] == SingleText(files[n])
  }

  lemma FilledStep(slots: seq<string>, files: seq<PackageFile>, order: seq<nat>, i: nat)
    requires i < |order| && order[i] < |files| && Filled(slots, files, order[..i])
    ensures Filled(slots[order[i] := SingleText(files[order[i]])], files, order[..i + 1])
  {
    assert order[..i + 1] == order[..i] + [order[i]];
  }

  /** The jobs write their slots in whatever order they finish. */
  method RunIndexJobs(files: seq<PackageFile>, order: seq<nat>) returns (slots: array<string>)
    requires CoversFiles(order, |files|)
    ensures fresh(slots) && Filled(slots[..], files, order)
  {
    slots := new string[|files|](_ => "");
    for i := 0 to |order|
      invariant fresh(slots) && slots.Length == |files|
      invariant Filled(slots[..], files, order[..i])
    {
      var text := CreateIndexSingle(files[order[i]]);
      FilledStep(slots[..], files, order, i);
      slots[order[i]] := text;
    }
    assert order[..|order|] == order;
  }

  /** `create_index_data`: the text does not depend on the order. */
  method CreateIndexData(name: string, files: seq<PackageFile>, order: seq<nat>) returns (r: Option<string>)
    requires CoversFiles(order, |files|)
    ensures r == if name == "" then None else Some(IndexText(name, files))
  {
    if name == "" {
      return None;
    }
    var slots := RunIndexJobs(files, order);
    var text := "index:\n" + ("  name: " + name + "\n");
    ghost var head := text;
    assert head + "" == head && files[..0] == [];
    for i := 0 to |files|
      invariant Filled(slots[..], files, order)
      invariant text == head + SinglesText(files[..i])
    {
      SinglesStep(files, i);
      Assoc(head, SinglesText(files[..i]), SingleText(files[i]));
      text := text + slots[i];
    }
    assert files[..|files|] == files;
    r := Some(text);
  }

  /** The line `update_repo` adds to what it fetched. */
  function AddressLine(address: string): string {
    "  address: " + address
  }

  lemma AddressIsOneLine(fetched: string, address: string)
    requires NL !in address
    ensures Lines(fetched + ("\n  address: " + address)) == Lines(fetched) + [AddressLine(address)]
  {
    LinesAppend(fetched, AddressLine(address));
    LinesOfOne(AddressLine(address));
    assert "\n  address: " + address == [NL] + AddressLine(address);
    Assoc(fetched, [NL], AddressLine(address));
  }

  /** Only an index is kept, and it gains one line, whether or not it ends in a line end. The address is a line
      of the list of repositories. */
  method UpdateRepo(fetched: string, address: string) returns (r: Option<string>)
    requires NL !in address
    ensures r.Some? <==> StartsWith(fetched, "index:")
    ensures r.Some? ==> r.value == fetched + ("\n  address: " + address)
    ensures r.Some? ==> Lines(r.value) == Lines(fetched) + [AddressLine(address)]
  {
    if !StartsWith(fetched, "index:") {
      return None;
    }
    AddressIsOneLine(fetched, address);
    return Some(fetched + ("\n  address: " + address));
  }

  // ----- loading

  /** The names in a list of areas. */
  function NamesOf(areas: seq<string>): (r: seq<string>)
    ensures |r| == |areas| && forall k :: 0 <= k < |r| ==> r[k] == Value(areas[k], "name")
  {
    seq(|areas|, k requires 0 <= k < |areas| => Value(areas[k], "name"))
  }

  /** `idx` lists, in order, where `f` stands in `list`. */
  ghost predicate Indexes(idx: seq<nat>, f: string, list: seq<string>, end: nat)
    requires end <= |list|
  {
    && (forall k :: 0 <= k < |idx| ==> idx[k] < end && list[idx[k]] == f)
    && (forall n: nat :: n < end && list[n] == f ==> n in idx)
    && forall i, j :: 0 <= i < j < |idx| ==> idx[i] < idx[j]
  }

  /** `sindex`. */
  method Sindex(f: string, list: seq<string>) returns (ret: seq<nat>)
    ensures Indexes(ret, f, list, |list|)
  {
    ret := [];
    for i := 0 to |list|
      invariant Indexes(ret, f, list, i)
    {
      if list[i] == f {
        ret := ret + [i];
      }
    }
  }

  function ReleasesOf(areas: seq<string>, parse: string -> int): (r: seq<int>)
    ensures |r| == |areas| && forall k :: 0 <= k < |r| ==> r[k] == parse(Value(areas[k], "release"))
  {
    seq(|areas|, k requires 0 <= k < |areas| => parse(Value(areas[k], "release")))
  }

  /** No version has a higher release than `bound`. */
  ghost predicate NoneAbove(names: seq<string>, rels: seq<int>, wanted: string, bound: int)
    requires |names| == |rels|
  {
    forall m :: 0 <= m < |names| && names[m] == wanted ==> rels[m] <= bound
  }

  /** Version `n` has a positive release, and is the first with that release or a higher one. */
  ghost predicate FirstOfItsRelease(names: seq<string>, rels: seq<int>, wanted: string, n: nat)
    requires |names| == |rels|
  {
    && n < |names| && names[n] == wanted && rels[n] > 0
    && forall m :: 0 <= m < n && names[m] == wanted ==> rels[m] < rels[n]
  }

  /** The version to take: the first of the highest release, if there is one above zero. */
  ghost predicate Chosen(names: seq<string>, rels: seq<int>, wanted: string, best: Option<nat>)
    requires |names| == |rels|
  {
    match best
    case None => NoneAbove(names, rels, wanted, 0)
    case Some(n) => FirstOfItsRelease(names, rels, wanted, n) && NoneAbove(names, rels, wanted, rels[n])
  }

  /** What the search has in hand: nothing yet, or the first version of its release. */
  ghost predicate InHand(names: seq<string>, rels: seq<int>, wanted: string, best: Option<nat>, currel: int)
    requires |names| == |rels|
  {
    match best
    case None => currel == 0
    case Some(n) => FirstOfItsRelease(names, rels, wanted, n) && currel == rels[n]
  }

  method ReadRelease(area: string, parse: string -> int) returns (release: int)
    ensures release == parse(Value(area, "release"))
  {
    var yaml := new YamlFile();
    var number := yaml.GetValue(area, "release");
    release := parse(number);
  }

  /** Among the first `j` of the versions none is above the bound. */
  ghost predicate SeenBelow(rels: seq<int>, idx: seq<nat>, j: nat, bound: int)
    requires j <= |idx|
  {
    forall k :: 0 <= k < j ==> idx[k] < |rels| && rels[idx[k]] <= bound
  }

  /** A version with a higher release than all before it is the first of its release. */
  lemma HigherIsFirst(names: seq<string>, rels: seq<int>, wanted: string, idx: seq<nat>, j: nat, currel: int)
    requires |names| == |rels| && Indexes(idx, wanted, names, |names|) && j < |idx|
    requires SeenBelow(rels, idx, j, currel) && 0 <= currel < rels[idx[j]]
    ensures FirstOfItsRelease(names, rels, wanted, idx[j])
    ensures SeenBelow(rels, idx, j + 1, rels[idx[j]])
  {
    forall m | 0 <= m < idx[j] && names[m] == wanted ensures rels[m] < rels[idx[j]] {
      assert m in idx;
      var k :| 0 <= k < |idx| && idx[k] == m;
      assert k < j;
    }
  }

  lemma SeenAll(names: seq<string>, rels: seq<int>, wanted: string, idx: seq<nat>, bound: int)
    requires |names| == |rels| && Indexes(idx, wanted, names, |names|) && SeenBelow(rels, idx, |idx|, bound)
    ensures NoneAbove(names, rels, wanted, bound)
  {
    forall m | 0 <= m < |names| && names[m] == wanted ensures rels[m] <= bound {
      assert m in idx;
    }
  }

  /** The inner loop of `get_package`, over the versions of the name. */
  method SearchVersions(areas: seq<string>, names: seq<string>, parse: string -> int, wanted: string,
                        start: Option<nat>, rel: int)
    returns (best: Option<nat>, currel: int)
    requires |names| == |areas| && InHand(names, ReleasesOf(areas, parse), wanted, start, rel)
    ensures InHand(names, ReleasesOf(areas, parse), wanted, best, currel)
    ensures NoneAbove(names, ReleasesOf(areas, parse), wanted, currel)
  {
    ghost var rels := ReleasesOf(areas, parse);
    best, currel := start, rel;
    var idx := Sindex(wanted, names);
    for j := 0 to |idx|
      invariant InHand(names, rels, wanted, best, currel) && currel >= 0
      invariant SeenBelow(rels, idx, j, currel)
    {
      var index := idx[j];
      var release := ReadRelease(areas[index], parse);
      assert release == rels[index];
      if release <= currel {
        continue;
      }
      HigherIsFirst(names, rels, wanted, idx, j, currel);
      currel, best := release, Some(index);
    }
    SeenAll(names, rels, wanted, idx, currel);
  }

  /** `get_package`: the same search for every listed name that is the wanted one. */
  method FindBest(areas: seq<string>, names: seq<string>, parse: string -> int, wanted: string)
    returns (best: Option<nat>)
    requires |names| == |areas|
    ensures Chosen(names, ReleasesOf(areas, parse), wanted, best)
  {
    ghost var rels := ReleasesOf(areas, parse);
    best := None;
    var currel := 0;
    for i := 0 to |names|
      invariant InHand(names, rels, wanted, best, currel)
      invariant (best == None && forall k :: 0 <= k < i ==> names[k] != wanted)
                || NoneAbove(names, rels, wanted, currel)
    {
      if names[i] == wanted {
        best, currel := SearchVersions(areas, names, parse, wanted, best, currel);
      }
    }
  }

  class Repository {
    const parse: string -> int
    var name: string
    var address: string
    var packages: seq<string>
    var sources: seq<string>
    var packageNames: seq<string>
    var sourceNames: seq<string>

    ghost predicate Valid()
      reads this
    {
      packageNames == NamesOf(packages) && sourceNames == NamesOf(sources)
    }

    constructor (parse: string -> int)
      ensures this.parse == parse && Valid()
    {
      this.parse := parse;
      name, address, packages, sources, packageNames, sourceNames := "", "", [], [], [], [];
    }

    /** `load`. */
    method Load(text: string)
      modifies this
      ensures Valid()
      ensures var area := Area(text, "index");
              && name == Value(area, "name") && address == Value(area, "address")
              && packages == AreaList(area, "package") && sources == AreaList(area, "source")
    {
      var yaml := new YamlFile();
      var area := yaml.GetArea(text, "index");
      var n := yaml.GetValue(area, "name");
      var ad := yaml.GetValue(area, "address");
      var p := yaml.GetAreaList(area, "package");
      var s := yaml.GetAreaList(area, "source");
      name, address, packages, sources := n, ad, p, s;
      packageNames := ListNames(p);
      sourceNames := ListNames(s);
    }

    /** `get_package`. */
    method GetPackage(wanted: string) returns (best: Option<nat>)
      requires Valid()
      ensures Chosen(packageNames, ReleasesOf(packages, parse), wanted, best)
    {
      best := FindBest(packages, packageNames, parse, wanted);
    }
  }

  method ListNames(areas: seq<string>) returns (names: seq<string>)
    ensures names == NamesOf(areas)
  {
    var yaml := new YamlFile();
    names := [];
    for i := 0 to |areas|
      invariant names == NamesOf(areas)[..i]
    {
      var value := yaml.GetValue(areas[i], "name");
      names := names + [value];
    }
  }

  /** The repository was loaded from the text. */
  ghost predicate LoadedFrom(repo: Repository, text: string, parse: string -> int)
    reads repo
  {
    && repo.Valid() && repo.parse == parse
    && var area := Area(text, "index");
    && repo.name == Value(area, "name") && repo.address == Value(area, "address")
    && repo.packages == AreaList(area, "package") && repo.sources == AreaList(area, "source")
  }

  /** Repositories without a name are left out, and all others when one is asked for by name. */
  predicate IsUsed(name: string, only: string) {
    name != "" && (only == "" || only == name)
  }

  /** The kept indexes whose repositories are used. */
  function UsedTexts(texts: seq<string>, only: string): seq<string> {
    if texts == [] then [] else (if TextIsUsed(texts[0], only) then [texts[0]] else []) + UsedTexts(texts[1..], only)
  }

  predicate TextIsUsed(text: string, only: string) {
    IsUsed(Value(Area(text, "index"), "name"), only)
  }

  ghost predicate AllLoaded(repos: seq<Repository>, texts: seq<string>, parse: string -> int)
    reads repos
  {
    |repos| == |texts| && forall q :: 0 <= q < |repos| ==> LoadedFrom(repos[q], texts[q], parse)
  }

  lemma {:induction false} UsedSum(a: seq<string>, b: seq<string>, only: string)
    ensures UsedTexts(a + b, only) == UsedTexts(a, only) + UsedTexts(b, only)
  {
    if a == [] {
      assert a + b == b;
    } else {
      assert (a + b)[1..] == a[1..] + b;
      UsedSum(a[1..], b, only);
      Assoc(if TextIsUsed(a[0], only) then [a[0]] else [], UsedTexts(a[1..], only), UsedTexts(b, only));
    }
  }

  method LoadRepo(text: string, parse: string -> int) returns (repo: Repository)
    ensures fresh(repo) && LoadedFrom(repo, text, parse)
  {
    repo := new Repository(parse);
    repo.Load(text);
  }

  /** One round of its loop. */
  method AddRepo(repos: seq<Repository>, text: string, only: string, parse: string -> int, ghost done: seq<string>)
    returns (r: seq<Repository>)
    requires AllLoaded(repos, done, parse)
    ensures AllLoaded(r, done + UsedTexts([text], only), parse)
  {
    var repo := LoadRepo(text, parse);
    assert UsedTexts([text], only) == UsedTexts([text], only) + UsedTexts([text][1..], only);
    r := if IsUsed(repo.name, only) then repos + [repo] else repos;
  }

  /** `get_repos`, the first time; `only` is the repository asked for. */
  method GetRepos(texts: seq<string>, only: string, parse: string -> int) returns (repos: seq<Repository>)
    ensures AllLoaded(repos, UsedTexts(texts, only), parse)
  {
    repos := [];
    for i := 0 to |texts|
      invariant AllLoaded(repos, UsedTexts(texts[..i], only), parse)
    {
      assert texts[..i + 1] == texts[..i] + [texts[i]];
      UsedSum(texts[..i], [texts[i]], only);
      repos := AddRepo(repos, texts[i], only, parse, UsedTexts(texts[..i], only));
    }
    assert texts[..|texts|] == texts;
  }

  /** Nothing in the first `k` repositories has a higher release than `bound`. */
  ghost predicate NoneAboveIn(repos: seq<Repository>, k: nat, wanted: string, bound: int)
    requires k <= |repos|
    reads repos
  {
    forall q :: 0 <= q < k ==>
      repos[q].Valid() && NoneAbove(repos[q].packageNames, ReleasesOf(repos[q].packages, repos[q].parse), wanted, bound)
  }

  /** Where a package was found: repository and version. */
  datatype Found = Found(repo: nat, version: nat)

  /** The release of what was found so far; it is the first of its release, and no repository before it has one
      as high. */
  ghost predicate FoundIn(repos: seq<Repository>, k: nat, wanted: string, best: Option<Found>, release: int)
    requires k <= |repos|
    requires forall q :: 0 <= q < |repos| ==> repos[q].Valid()
    reads repos
  {
    && NoneAboveIn(repos, k, wanted, release)
    && match best
       case None => release == 0
       case Some(f) =>
         && f.repo < k && f.version < |repos[f.repo].packages|
         && var rels := ReleasesOf(repos[f.repo].packages, repos[f.repo].parse);
         && FirstOfItsRelease(repos[f.repo].packageNames, rels, wanted, f.version) && release == rels[f.version]
         && NoneAboveIn(repos, f.repo, wanted, release - 1)
  }

  /** What one round of its loop finds: a version with a higher release, if there is one. */
  ghost predicate Better(repo: Repository, wanted: string, release: int, better: Option<nat>, rel: int)
    requires repo.Valid()
    reads repo
  {
    var rels := ReleasesOf(repo.packages, repo.parse);
    && rel >= release && NoneAbove(repo.packageNames, rels, wanted, rel)
    && match better
       case None => rel == release
       case Some(n) => FirstOfItsRelease(repo.packageNames, rels, wanted, n) && rel == rels[n] > release
  }

  method BetterIn(repo: Repository, wanted: string, release: int) returns (better: Option<nat>, rel: int)
    requires repo.Valid() && release >= 0
    ensures Better(repo, wanted, release, better, rel)
  {
    better, rel := None, release;
    var pkg := repo.GetPackage(wanted);
    if pkg.Some? {
      var found := ReadRelease(repo.packages[pkg.value], repo.parse);
      if found > release {
        better, rel := pkg, found;
      }
    }
  }

  lemma BetterStep(repos: seq<Repository>, k: nat, wanted: string, best: Option<Found>, release: int,
                   better: Option<nat>, rel: int)
    requires k < |repos| && (forall q :: 0 <= q < |repos| ==> repos[q].Valid())
    requires FoundIn(repos, k, wanted, best, release) && Better(repos[k], wanted, release, better, rel)
    ensures FoundIn(repos, k + 1, wanted, if better.Some? then Some(Found(k, better.value)) else best, rel)
  {
    assert NoneAboveIn(repos, k + 1, wanted, rel);
    assert better.Some? ==> NoneAboveIn(repos, k, wanted, rel - 1);
  }

  /** `get_package_from_repository`: over all repositories, the first of the highest release. */
  method GetPackageFromRepository(repos: seq<Repository>, wanted: string) returns (best: Option<Found>, release: int)
    requires forall q :: 0 <= q < |repos| ==> repos[q].Valid()
    ensures FoundIn(repos, |repos|, wanted, best, release)
  {
    best, release := None, 0;
    for k := 0 to |repos|
      invariant release >= 0 && FoundIn(repos, k, wanted, best, release)
    {
      var better, rel := BetterIn(repos[k], wanted, release);
      BetterStep(repos, k, wanted, best, release, better, rel);
      if better.Some? {
        best, release := Some(Found(k, better.value)), rel;
      }
    }
  }
}
