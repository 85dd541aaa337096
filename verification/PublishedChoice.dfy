/** From the index to the choice of a version: what is found in loaded repositories, in terms of the packages
    that were published in them. */
module PublishedChoice {
  import opened Wrappers
  import opened Text
  import opened YamlParser
  import opened Fields
  import opened PackageData
  import opened MetadataPrinter
  import opened MetadataRoundTrip
  import opened Comments
  import opened FinishedFields
  import opened FinishedRoundTrip
  import opened RepositoryIndex
  import opened IndexRoundTrip

  /** The repository lists these packages: one area each, in order, with the fields that survive. */
  ghost predicate Offers(repo: Repository, ps: seq<Published>)
    reads repo
  {
    && repo.Valid() && |repo.packages| == |ps|
    && forall k :: 0 <= k < |ps| ==> SurvivorsComeBack(repo.packages[k], FieldsOf(ps[k]))
  }

  /** A repository does so after its index is loaded. */
  lemma LoadedOffers(repo: Repository, name: string, ps: seq<Published>, address: string, text: string)
    requires GoodItem(name) && GoodItem(address) && forall k :: 0 <= k < |ps| ==> GoodPublished(ps[k])
    requires LoadedFrom(repo, text, repo.parse)
    ensures IsKeptIndex(text, name, PublishedFiles(ps), address) ==> Offers(repo, ps)
  {
    PackagesComeBack(name, ps, address, text);
  }

  /** Name and release survive. */
  ghost predicate AllFindable(ps: seq<Published>) {
    forall k :: 0 <= k < |ps| ==> KeptValue(ps[k].x.name) && KeptValue(ps[k].x.release)
  }

  lemma FieldsAre(p: Published)
    ensures FieldsOf(p) == InfoFields(p.x) + (DataFields(p.d) + FileFields(p.f))
  {
  }

  lemma ValueIsThere(area: string, p: Published, i: nat)
    requires SurvivorsComeBack(area, FieldsOf(p)) && i < 4 && KeptValue(InfoFields(p.x)[i].value)
    ensures Value(area, InfoFields(p.x)[i].key) == InfoFields(p.x)[i].value
  {
    FieldsAre(p);
    assert FieldsOf(p)[i] == InfoFields(p.x)[i];
    assert Survives(FieldsOf(p), i);
  }

  /** So names and releases are those that were published. */
  lemma OffersNamesAndReleases(repo: Repository, ps: seq<Published>, k: nat)
    requires Offers(repo, ps) && AllFindable(ps) && k < |ps|
    ensures repo.packageNames[k] == ps[k].x.name
    ensures ReleasesOf(repo.packages, repo.parse)[k] == repo.parse(ps[k].x.release)
  {
    assert InfoFields(ps[k].x)[0] == Scalar("name", ps[k].x.name);
    assert InfoFields(ps[k].x)[2] == Scalar("release", ps[k].x.release);
    ValueIsThere(repo.packages[k], ps[k], 0);
    ValueIsThere(repo.packages[k], ps[k], 2);
  }

  function ReleaseOf(p: Published, parse: string -> int): int {
    parse(p.x.release)
  }

  /** No published package with the name has a higher release than `bound`. */
  ghost predicate NonePublishedAbove(ps: seq<Published>, parse: string -> int, wanted: string, bound: int) {
    forall k :: 0 <= k < |ps| && ps[k].x.name == wanted ==> ReleaseOf(ps[k], parse) <= bound
  }

  /** Package `f` has the name and a positive release, higher than all in front of it and not lower than any
      other, over all repositories. */
  ghost predicate FirstOfHighest(pubs: seq<seq<Published>>, parse: string -> int, wanted: string, f: Found) {
    && f.repo < |pubs| && f.version < |pubs[f.repo]|
    && pubs[f.repo][f.version].x.name == wanted
    && var release := ReleaseOf(pubs[f.repo][f.version], parse);
    && release > 0
    && (forall q :: 0 <= q < |pubs| ==> NonePublishedAbove(pubs[q], parse, wanted, release))
    && (forall q :: 0 <= q < f.repo ==> NonePublishedAbove(pubs[q], parse, wanted, release - 1))
    && NonePublishedAbove(pubs[f.repo][..f.version], parse, wanted, release - 1)
  }

  ghost predicate AllOffer(repos: seq<Repository>, pubs: seq<seq<Published>>, parse: string -> int)
    reads repos
  {
    && |repos| == |pubs|
    && forall q :: 0 <= q < |repos| ==> Offers(repos[q], pubs[q]) && AllFindable(pubs[q]) && repos[q].parse == parse
  }

  lemma NoneAboveMeans(repo: Repository, ps: seq<Published>, wanted: string, bound: int)
    requires Offers(repo, ps) && AllFindable(ps)
    requires NoneAbove(repo.packageNames, ReleasesOf(repo.packages, repo.parse), wanted, bound)
    ensures NonePublishedAbove(ps, repo.parse, wanted, bound)
  {
    forall k | 0 <= k < |ps| && ps[k].x.name == wanted ensures ReleaseOf(ps[k], repo.parse) <= bound {
      OffersNamesAndReleases(repo, ps, k);
    }
  }

  lemma FirstMeans(repo: Repository, ps: seq<Published>, wanted: string, n: nat)
    requires Offers(repo, ps) && AllFindable(ps)
    requires FirstOfItsRelease(repo.packageNames, ReleasesOf(repo.packages, repo.parse), wanted, n)
    ensures n < |ps| && ps[n].x.name == wanted
    ensures ReleaseOf(ps[n], repo.parse) == ReleasesOf(repo.packages, repo.parse)[n] > 0
    ensures NonePublishedAbove(ps[..n], repo.parse, wanted, ReleaseOf(ps[n], repo.parse) - 1)
  {
    OffersNamesAndReleases(repo, ps, n);
    forall k | 0 <= k < n && ps[k].x.name == wanted
      ensures ReleaseOf(ps[k], repo.parse) < ReleaseOf(ps[n], repo.parse)
    {
      OffersNamesAndReleases(repo, ps, k);
    }
  }

  lemma NoneAboveInMeans(repos: seq<Repository>, pubs: seq<seq<Published>>, parse: string -> int, k: nat,
                         wanted: string, bound: int)
    requires AllOffer(repos, pubs, parse) && k <= |repos| && NoneAboveIn(repos, k, wanted, bound)
    ensures forall q :: 0 <= q < k ==> NonePublishedAbove(pubs[q], parse, wanted, bound)
  {
    forall q | 0 <= q < k ensures NonePublishedAbove(pubs[q], parse, wanted, bound) {
      NoneAboveMeans(repos[q], pubs[q], wanted, bound);
    }
  }

  /** The search over loaded repositories finds the first published package of the highest release above zero,
      and none exactly when no published package of the name has one. */
  lemma ChoiceIsPublished(repos: seq<Repository>, pubs: seq<seq<Published>>, parse: string -> int, wanted: string,
                          best: Option<Found>, release: int)
    requires AllOffer(repos, pubs, parse) && FoundIn(repos, |repos|, wanted, best, release)
    ensures match best
            case None => forall q :: 0 <= q < |pubs| ==> NonePublishedAbove(pubs[q], parse, wanted, 0)
            case Some(f) => FirstOfHighest(pubs, parse, wanted, f)
  {
    NoneAboveInMeans(repos, pubs, parse, |repos|, wanted, release);
    if best.Some? {
      var f := best.value;
      FirstMeans(repos[f.repo], pubs[f.repo], wanted, f.version);
      NoneAboveInMeans(repos, pubs, parse, f.repo, wanted, release - 1);
    }
  }

  /** And the object made from its area has the printed dependencies, if none holds a comment sign. */
  lemma ChosenObject(p: PackageObject, repo: Repository, ps: seq<Published>, k: nat)
    requires Offers(repo, ps) && k < |ps| && p.ReadFrom(Loaded(false, repo.packages[k]))
    ensures p.dependencies == ps[k].x.depends <==> NoComments(ps[k].x.depends)
    ensures p.name == ps[k].x.name <==> KeptValue(ps[k].x.name)
    ensures p.version == ps[k].x.version <==> KeptValue(ps[k].x.version)
    ensures KeptValue(ps[k].x.release) ==> p.release == p.parse(ps[k].x.release)
  {
    FieldsAre(ps[k]);
    ObjectValues(p, repo.packages[k], ps[k].x, DataFields(ps[k].d) + FileFields(ps[k].f));
  }

  /** An index as it is kept, with what was published in it and where. */
  datatype Index = Index(text: string, name: string, address: string, published: seq<Published>)

  ghost predicate GoodIndex(x: Index) {
    && GoodItem(x.name) && x.name != "" && GoodItem(x.address) && AllFindable(x.published)
    && (forall k :: 0 <= k < |x.published| ==> GoodPublished(x.published[k]))
    && IsKeptIndex(x.text, x.name, PublishedFiles(x.published), x.address)
  }

  ghost predicate GoodIndexes(xs: seq<Index>) {
    forall q :: 0 <= q < |xs| ==> GoodIndex(xs[q])
  }

  function Texts(xs: seq<Index>): (r: seq<string>)
    ensures |r| == |xs| && forall q :: 0 <= q < |r| ==> r[q] == xs[q].text
  {
    seq(|xs|, q requires 0 <= q < |xs| => xs[q].text)
  }

  function PublishedIn(xs: seq<Index>): (r: seq<seq<Published>>)
    ensures |r| == |xs| && forall q :: 0 <= q < |r| ==> r[q] == xs[q].published
  {
    seq(|xs|, q requires 0 <= q < |xs| => xs[q].published)
  }

  /** An index with the name asked for; a name that ends in a bar is read back as empty. */
  predicate NameIsUsed(x: Index, only: string) {
    !EndsWith(x.name, "|") && (only == "" || only == x.name)
  }

  function Used(xs: seq<Index>, only: string): seq<Index> {
    if xs == [] then [] else (if NameIsUsed(xs[0], only) then [xs[0]] else []) + Used(xs[1..], only)
  }

  lemma IndexName(x: Index)
    requires GoodIndex(x)
    ensures Value(Area(x.text, "index"), "name") == if EndsWith(x.name, "|") then "" else x.name
  {
    PackageAreas(x.published);
    NameComesBack(x.name, PackageEntries(x.published), x.address, x.text);
  }

  lemma IndexIsUsed(x: Index, only: string)
    requires GoodIndex(x)
    ensures TextIsUsed(x.text, only) <==> NameIsUsed(x, only)
  {
    IndexName(x);
  }

  lemma TextsSum(a: seq<Index>, b: seq<Index>)
    ensures Texts(a + b) == Texts(a) + Texts(b)
  {
  }

  lemma {:induction false} UsedIs(xs: seq<Index>, only: string)
    requires GoodIndexes(xs)
    ensures UsedTexts(Texts(xs), only) == Texts(Used(xs, only)) && GoodIndexes(Used(xs, only))
  {
    if xs != [] {
      var first := if NameIsUsed(xs[0], only) then [xs[0]] else [];
      assert Texts(xs)[1..] == Texts(xs[1..]);
      assert GoodIndex(xs[0]) && GoodIndexes(xs[1..]);
      IndexIsUsed(xs[0], only);
      UsedIs(xs[1..], only);
      TextsSum(first, Used(xs[1..], only));
      assert Texts(first) == if NameIsUsed(xs[0], only) then [xs[0].text] else [];
    }
  }

  lemma LoadedAllOffer(repos: seq<Repository>, xs: seq<Index>, parse: string -> int)
    requires GoodIndexes(xs) && AllLoaded(repos, Texts(xs), parse)
    ensures AllOffer(repos, PublishedIn(xs), parse)
  {
    forall q | 0 <= q < |repos| ensures Offers(repos[q], xs[q].published) {
      assert GoodIndex(xs[q]);
      LoadedOffers(repos[q], xs[q].name, xs[q].published, xs[q].address, xs[q].text);
    }
  }

  /** From the kept indexes to a package object: all repositories are loaded, the version is chosen, and its
      object is made. */
  method FindPackage(texts: seq<string>, only: string, wanted: string, parse: string -> int, use: seq<string>,
                     packageUse: seq<string>, ghost xs: seq<Index>)
    returns (best: Option<Found>, pkg: PackageObject?)
    requires texts == Texts(xs) && GoodIndexes(xs)
    ensures pkg == null <==> best.None?
    ensures var pubs := PublishedIn(Used(xs, only));
            match best
            case None => forall q :: 0 <= q < |pubs| ==> NonePublishedAbove(pubs[q], parse, wanted, 0)
            case Some(f) =>
              && FirstOfHighest(pubs, parse, wanted, f)
              && var x := pubs[f.repo][f.version].x;
              && pkg.name == wanted && pkg.release == parse(x.release)
              && (pkg.dependencies == x.depends <==> NoComments(x.depends))
  {
    ghost var used := Used(xs, only);
    UsedIs(xs, only);
    var repos := GetRepos(texts, only, parse);
    LoadedAllOffer(repos, used, parse);
    var release;
    best, release := GetPackageFromRepository(repos, wanted);
    ChoiceIsPublished(repos, PublishedIn(used), parse, wanted, best, release);
    pkg := null;
    if best.Some? {
      var f := best.value;
      pkg := NewPackage(repos[f.repo].packages[f.version], parse, use, packageUse);
      ChosenObject(pkg, repos[f.repo], used[f.repo].published, f.version);
    }
  }

  method NewPackage(area: string, parse: string -> int, use: seq<string>, packageUse: seq<string>)
    returns (pkg: PackageObject)
    ensures fresh(pkg) && pkg.parse == parse && pkg.ReadFrom(Loaded(false, area))
  {
    pkg := new PackageObject(parse, use, packageUse);
    pkg.SetPkgarea(area, false);
  }
}
