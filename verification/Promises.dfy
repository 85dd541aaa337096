/** What the searches and a run of install or remove promise, said without the search and the commit: in terms of
    what the repositories, the database and the command line hold. */
module Promises {
  import opened Wrappers
  import opened Catalogue
  import opened Resolver
  import opened Reachability
  import opened Transaction
  import opened Leftovers
  import opened Safety
  import opened Agreement
  import Q = Quarantine
  import V = Validation

  // ----- walks

  type Edges = (Name, Name) -> bool

  function SetOf(names: seq<Name>): set<Name> {
    set y | y in names
  }

  ghost predicate Walk(edges: Edges, p: seq<Name>) {
    p != [] && forall i :: 0 <= i < |p| - 1 ==> edges(p[i], p[i + 1])
  }

  /** `x` is a root, or some walk leads to it from one. */
  ghost predicate Reaches(edges: Edges, roots: set<Name>, x: Name) {
    exists p :: Walk(edges, p) && p[0] in roots && p[|p| - 1] == x
  }

  lemma ReachesIsReached(c: Catalog, dir: Direction, edges: Edges, roots: seq<Name>, x: Name)
    requires forall a, b :: edges(a, b) <==> b in Succ(c, dir, a)
    ensures Reaches(edges, SetOf(roots), x) <==> Reached(c, dir, roots, x)
  {
    if p :| Walk(edges, p) && p[0] in roots && p[|p| - 1] == x {
      if |p| > 1 {
        forall i | 0 <= i < |p| - 1 ensures Edge(c, dir, p, i) {
          assert edges(p[i], p[i + 1]);
        }
        assert Joins(c, dir, p, p[0], x);
      }
    }
    if x in roots {
      assert Walk(edges, [x]);
    } else if y :| y in roots && Leads(c, dir, y, x) {
      var p :| Joins(c, dir, p, y, x);
      forall i | 0 <= i < |p| - 1 ensures edges(p[i], p[i + 1]) {
        assert Edge(c, dir, p, i);
      }
      assert Walk(edges, p);
    }
  }

  // ----- what is to be installed

  /** A package with a plain name is to be installed when a release is on offer and it is not installed, or only
      in a lower release; with `--reinstall` in any case. What is not on offer is only reinstalled. */
  predicate HasToBeInstalled(c: Catalog, x: Name) {
    && x.Plain?
    && ((x in c.repo && (c.reinstall || x !in c.installed || c.installed[x].release < c.repo[x].release))
        || (x !in c.repo && x in c.installed && c.reinstall))
  }

  /** A group or rule asks for its members; a package to be installed asks for the dependencies of the version on
      offer, or of the installed one when none is. */
  predicate Asks(c: Catalog, x: Name, y: Name) {
    if !x.Plain? then x in c.groups && y in c.groups[x]
    else if !HasToBeInstalled(c, x) then false
    else if x in c.repo then y in c.repo[x].depends
    else y in c.installed[x].depends
  }

  predicate IsUnknown(c: Catalog, x: Name) {
    if x.Plain? then x !in c.repo && x !in c.installed else x !in c.groups
  }

  function Asking(c: Catalog): Edges {
    (x, y) => Asks(c, x, y)
  }

  lemma AsksIsEdge(c: Catalog, x: Name, y: Name)
    ensures Asking(c)(x, y) <==> y in Succ(c, Forward, x)
  {
  }

  /** The result of the forward search: a name is to be installed exactly when it is reached and the version on
      offer is missing or newer (or a reinstall was asked for); the search fails exactly when a name is reached
      that is neither on offer nor installed, or a group nobody knows. */
  lemma DependenciesAre(c: Catalog, roots: seq<Name>, x: Name)
    requires Uncut(c, Universe(c, roots))
    ensures x in Dependencies(c, roots).need
            <==> Reaches(Asking(c), SetOf(roots), x) && HasToBeInstalled(c, x)
    ensures x in Dependencies(c, roots).errors <==> Reaches(Asking(c), SetOf(roots), x) && IsUnknown(c, x)
  {
    forall a, b ensures Asking(c)(a, b) <==> b in Succ(c, Forward, a) {
      AsksIsEdge(c, a, b);
    }
    ReachesIsReached(c, Forward, Asking(c), roots, x);
    DependenciesExact(c, roots, x);
  }

  // ----- what is to be removed

  /** A group or rule names its members; an installed package is needed by the installed packages that depend on
      it. */
  predicate PullsOut(c: Catalog, x: Name, y: Name) {
    if !x.Plain? then x in c.groups && y in c.groups[x]
    else x in c.installed && y in c.installed && x in c.installed[y].depends
  }

  function PullingOut(c: Catalog): Edges {
    (x, y) => PullsOut(c, x, y)
  }

  lemma PullsOutIsEdge(c: Catalog, x: Name, y: Name)
    requires forall z :: z in c.listing <==> z in c.installed
    ensures PullingOut(c)(x, y) <==> y in Succ(c, Reverse, x)
  {
    if y in c.listing {
      var k :| 0 <= k < |c.listing| && c.listing[k] == y;
    }
  }

  /** The result of the reverse search: the installed packages that are named or depend, directly or not, on one
      that is; the search fails exactly when it reaches a group nobody knows. */
  lemma RemovalIs(c: Catalog, roots: seq<Name>, x: Name)
    requires Uncut(c, Universe(c, roots)) && forall z :: z in c.listing <==> z in c.installed
    ensures x in ReverseDependencies(c, roots).need
            <==> Reaches(PullingOut(c), SetOf(roots), x) && x.Plain? && x in c.installed
    ensures x in ReverseDependencies(c, roots).errors
            <==> Reaches(PullingOut(c), SetOf(roots), x) && !x.Plain? && x !in c.groups
  {
    forall a, b ensures PullingOut(c)(a, b) <==> b in Succ(c, Reverse, a) {
      PullsOutIsEdge(c, a, b);
    }
    ReachesIsReached(c, Reverse, PullingOut(c), roots, x);
    ReverseDependenciesExact(c, roots, x);
  }

  lemma StopsReverse(c: Catalog, x: Name)
    requires c.maxDepth == 0 && x.Plain?
    ensures ReverseDependencies(c, [x]).need == if x in c.installed then [x] else []
  {
    var u := Universe(c, [x]);
    OneRoot(c, x);
    VisitFits(u, START.cache, x);
    MembersIn(c, Reverse, u, x);
    if x in c.installed {
      TooDeepReverse(c, u, Needing(Visiting(START, x), x), Dependants(c, c.listing, 0, x), 0, 1);
    }
  }

  /** With a depth limit of zero both searches stop at the name they are given. */
  lemma StopsAtTheLimit(c: Catalog, x: Name)
    requires c.maxDepth == 0 && x.Plain?
    ensures Dependencies(c, [x]).need == if HasToBeInstalled(c, x) then [x] else []
    ensures ReverseDependencies(c, [x]).need == if x in c.installed then [x] else []
  {
    OneRoot(c, x);
    LastVisit(c, Universe(c, [x]), x);
    StopsReverse(c, x);
  }

  // ----- an install run

  /** What the resolver reads in an install run. */
  function Offers(d: Disk, r: Request): Catalog
    requires r.Install?
  {
    Catalog(r.env.repo, d.db, r.env.listing, r.env.groups, r.reinstall, r.env.maxDepth)
  }

  /** The listed packages of which a newer release is on offer. */
  ghost function Outdated(d: Disk, e: Env): set<Name> {
    set x | x in e.listing && x in d.db && x in e.repo && d.db[x].release < e.repo[x].release
  }

  /** Named on the command line, or, with `--upgrade`, outdated; or asked for by such a name. */
  ghost predicate IsAskedFor(d: Disk, r: Request, x: Name)
    requires r.Install?
  {
    || Reaches(Asking(Offers(d, r)), SetOf(r.args), x)
    || (r.upgrade && Reaches(Asking(Offers(d, r)), Outdated(d, r.env), x))
  }

  ghost predicate InRun(d: Disk, r: Request, x: Name)
    requires r.Install?
  {
    IsAskedFor(d, r, x) && HasToBeInstalled(Offers(d, r), x)
  }

  ghost predicate NoneUnknown(d: Disk, r: Request)
    requires r.Install?
  {
    forall x :: IsAskedFor(d, r, x) ==> !IsUnknown(Offers(d, r), x)
  }

  /** Nothing unknown is asked for, nothing stands in the way, everything is on offer, the extraction jobs are
      those of the packages, and validation passes. */
  ghost predicate GoesThrough(w: Site, d: Disk, r: Request)
    requires r.Install?
  {
    && NoneUnknown(d, r) && !r.obstacle
    && (forall x :: InRun(d, r, x) ==> x in r.env.repo)
    && (forall x :: x in r.order <==> InRun(d, r, x))
    && (forall i, j :: 0 <= i < j < |r.order| ==> r.order[i] != r.order[j])
    && Validated(w, r.env.repo, r.order, r.schedule)
  }

  /** The package lists the path, as a file or as a link. */
  ghost predicate Lists(p: Package, path: Path) {
    || (|path.text| > 0 && exists k :: 0 <= k < |p.files| && p.files[k].path == path)
    || exists k :: 0 <= k < |p.links| && p.links[k].path == path
  }

  /** A package of the run used to list the path and no longer does. */
  ghost predicate IsLeftOver(d: Disk, r: Request, path: Path)
    requires r.Install?
  {
    exists y :: y in r.order && y in d.db && y in r.env.repo
                && Lists(d.db[y], path) && !Lists(r.env.repo[y], path)
  }

  /** Of the first `n` packages of the order, number `k` is the last whose archive carries the path. */
  ghost predicate LastCarrier(repo: map<Name, Package>, order: seq<Name>, n: nat, k: nat, path: Path) {
    && k < n <= |order| && order[k] in repo && path in repo[order[k]].payload
    && forall j :: k < j < n && order[j] in repo ==> path !in repo[order[j]].payload
  }

  ghost predicate IsCarried(repo: map<Name, Package>, order: seq<Name>, n: nat, path: Path) {
    exists k: nat :: LastCarrier(repo, order, n, k, path)
  }

  /** The entry of a package of the run is the one on offer; all others are as before. */
  ghost predicate EntryIsDone(d: Disk, r: Request, e: Disk, x: Name)
    requires r.Install?
  {
    if InRun(d, r, x) then x in r.env.repo && x in e.db && e.db[x] == r.env.repo[x]
    else (x in e.db <==> x in d.db) && (x in d.db ==> e.db[x] == d.db[x])
  }

  /** A path is there when it was there or is carried by an archive, and is not left over; it holds what the
      last archive that carries it says, or else what it held. */
  ghost predicate PathIsDone(d: Disk, r: Request, e: Disk, path: Path)
    requires r.Install?
  {
    && (path in e.fs <==>
        (path in d.fs || IsCarried(r.env.repo, r.order, |r.order|, path)) && !IsLeftOver(d, r, path))
    && (path in e.fs ==>
          && (forall k: nat :: LastCarrier(r.env.repo, r.order, |r.order|, k, path) ==>
                                 e.fs[path] == r.env.repo[r.order[k]].payload[path])
          && (!IsCarried(r.env.repo, r.order, |r.order|, path) ==> path in d.fs && e.fs[path] == d.fs[path]))
  }

  /** What an install run does: all of that when it goes through, and else nothing. */
  ghost predicate InstallIsDone(w: Site, d: Disk, r: Request, e: Disk)
    requires r.Install?
  {
    if GoesThrough(w, d, r) then (forall x :: EntryIsDone(d, r, e, x)) && forall path :: PathIsDone(d, r, e, path)
    else e == d
  }

  lemma UpgradableIs(d: Disk, e: Env)
    ensures SetOf(Upgradable(d.db, e, |e.listing|)) == Outdated(d, e)
  {
    forall x ensures x in Upgradable(d.db, e, |e.listing|) <==> x in Outdated(d, e) {
      UpgradableMembers(d.db, e, |e.listing|, x);
      assert e.listing[..|e.listing|] == e.listing;
    }
  }

  /** Every plain listed package with a newer release on offer is in the result for the upgradable ones. */
  lemma UpgradesAreTaken(d: Disk, r: Request, x: Name)
    requires r.Install? && Uncut(Offers(d, r), Universe(Offers(d, r), r.args))
    requires x.Plain? && x in r.env.listing && x in d.db && x in r.env.repo
    requires d.db[x].release < r.env.repo[x].release
    ensures x in Dependencies(Offers(d, r), Upgradable(d.db, r.env, |r.env.listing|)).need
  {
    UpgradableIs(d, r.env);
    NeedIs(d, r, Upgradable(d.db, r.env, |r.env.listing|), x);
    assert Walk(Asking(Offers(d, r)), [x]);
  }

  /** Both resolver runs of an install. */
  lemma NeedIs(d: Disk, r: Request, roots: seq<Name>, x: Name)
    requires r.Install? && Uncut(Offers(d, r), Universe(Offers(d, r), r.args))
    requires roots == r.args || roots == Upgradable(d.db, r.env, |r.env.listing|)
    ensures var found := Reaches(Asking(Offers(d, r)), SetOf(roots), x);
            && (x in Dependencies(Offers(d, r), roots).need <==> found && HasToBeInstalled(Offers(d, r), x))
            && (x in Dependencies(Offers(d, r), roots).errors <==> found && IsUnknown(Offers(d, r), x))
  {
    if roots != r.args {
      UpgradableIsListed(d.db, r.env, |r.env.listing|);
      UpgradableUncut(Offers(d, r), r.args, roots);
    }
    DependenciesAre(Offers(d, r), roots, x);
  }

  lemma ErrorsAre(d: Disk, r: Request, x: Name)
    requires r.Install? && Uncut(Offers(d, r), Universe(Offers(d, r), r.args))
    ensures var (c, up) := (Offers(d, r), Upgradable(d.db, r.env, |r.env.listing|));
            x in Dependencies(c, r.args).errors || (r.upgrade && x in Dependencies(c, up).errors)
            <==> IsAskedFor(d, r, x) && IsUnknown(c, x)
  {
    UpgradableIs(d, r.env);
    NeedIs(d, r, r.args, x);
    NeedIs(d, r, Upgradable(d.db, r.env, |r.env.listing|), x);
  }

  /** The two results put together. */
  lemma ToInstallIs(d: Disk, r: Request)
    requires r.Install?
    ensures var (c, up) := (Offers(d, r), Upgradable(d.db, r.env, |r.env.listing|));
            var (first, second) := (Dependencies(c, r.args), Dependencies(c, up));
            ToInstall(d, r) == if first.errors != {} || (r.upgrade && second.errors != {}) then None
                               else Some(if r.upgrade then first.need + second.need else first.need)
  {
  }

  lemma ErrorsMean(d: Disk, r: Request)
    requires r.Install? && Uncut(Offers(d, r), Universe(Offers(d, r), r.args))
    ensures ToInstall(d, r).Some? <==> NoneUnknown(d, r)
  {
    ToInstallIs(d, r);
    var (c, up) := (Offers(d, r), Upgradable(d.db, r.env, |r.env.listing|));
    var (first, second) := (Dependencies(c, r.args).errors, Dependencies(c, up).errors);
    if x :| x in first {
      ErrorsAre(d, r, x);
    }
    if x :| r.upgrade && x in second {
      ErrorsAre(d, r, x);
    }
    if x :| IsAskedFor(d, r, x) && IsUnknown(c, x) {
      ErrorsAre(d, r, x);
    }
  }

  lemma MembersMean(d: Disk, r: Request, x: Name)
    requires r.Install? && Uncut(Offers(d, r), Universe(Offers(d, r), r.args)) && ToInstall(d, r).Some?
    ensures x in ToInstall(d, r).value <==> InRun(d, r, x)
  {
    ToInstallIs(d, r);
    UpgradableIs(d, r.env);
    NeedIs(d, r, r.args, x);
    NeedIs(d, r, Upgradable(d.db, r.env, |r.env.listing|), x);
  }

  lemma CommitsIs(w: Site, d: Disk, r: Request, pkgs: seq<Name>)
    requires r.Install? && NoneUnknown(d, r) && forall x :: x in pkgs <==> InRun(d, r, x)
    ensures GoesThrough(w, d, r) <==> Commits(w, r, pkgs)
  {
    if Commits(w, r, pkgs) {
      assert forall x :: InRun(d, r, x) ==> x in pkgs;
    }
  }

  lemma CommitMeans(w: Site, d: Disk, r: Request)
    requires r.Install? && Uncut(Offers(d, r), Universe(Offers(d, r), r.args))
    ensures GoesThrough(w, d, r) <==> ToInstall(d, r).Some? && Commits(w, r, ToInstall(d, r).value)
  {
    ErrorsMean(d, r);
    if NoneUnknown(d, r) {
      forall x ensures x in ToInstall(d, r).value <==> InRun(d, r, x) {
        MembersMean(d, r, x);
      }
      CommitsIs(w, d, r, ToInstall(d, r).value);
    }
  }

  // ----- its files

  lemma OneMoreCarrier(repo: map<Name, Package>, order: seq<Name>, n: nat, k: nat, path: Path)
    requires 0 < n <= |order| && Offered(repo, order)
    ensures LastCarrier(repo, order, n, k, path)
            <==> if path in repo[order[n - 1]].payload then k == n - 1 else LastCarrier(repo, order, n - 1, k, path)
  {
  }

  lemma {:induction false} RootfsIs(repo: map<Name, Package>, order: seq<Name>, n: nat, path: Path)
    requires n <= |order| && Offered(repo, order)
    ensures path in Rootfs(repo, order, n) <==> IsCarried(repo, order, n, path)
    ensures forall k: nat :: LastCarrier(repo, order, n, k, path) ==>
              path in Rootfs(repo, order, n) && Rootfs(repo, order, n)[path] == repo[order[k]].payload[path]
  {
    if n > 0 {
      RootfsIs(repo, order, n - 1, path);
      forall k: nat
        ensures LastCarrier(repo, order, n, k, path)
                <==> if path in repo[order[n - 1]].payload then k == n - 1 else LastCarrier(repo, order, n - 1, k, path)
      {
        OneMoreCarrier(repo, order, n, k, path);
      }
      if path in repo[order[n - 1]].payload {
        assert LastCarrier(repo, order, n, n - 1, path);
      } else if IsCarried(repo, order, n - 1, path) {
        var m := n - 1;
        var k: nat :| LastCarrier(repo, order, m, k, path);
        assert LastCarrier(repo, order, n, k, path);
      }
    }
  }

  lemma ListsIs(p: Package, path: Path)
    ensures Lists(p, path) <==> path in Paths(p)
  {
    PathsMembers(p, path);
  }

  lemma LeftOverIs(d: Disk, r: Request, pkgs: seq<Name>, path: Path)
    requires r.Install? && Offered(r.env.repo, pkgs) && IsOrderOf(r.order, pkgs)
    ensures IsLeftOver(d, r, path) <==> path in AllLeftovers(d.db, r.env.repo, pkgs)
  {
    AllLeftoversMembers(d.db, r.env.repo, pkgs, path);
    forall y | y in d.db && y in r.env.repo
      ensures Dropped(d.db, r.env.repo, y, path) <==> Lists(d.db[y], path) && !Lists(r.env.repo[y], path)
    {
      ListsIs(d.db[y], path);
      ListsIs(r.env.repo[y], path);
    }
    if y :| y in pkgs && Dropped(d.db, r.env.repo, y, path) {
      assert y in r.order;
    }
  }

  lemma PathDone(d: Disk, r: Request, pkgs: seq<Name>, path: Path)
    requires r.Install? && Offered(r.env.repo, pkgs) && IsOrderOf(r.order, pkgs)
    ensures PathIsDone(d, r, Committed(d, r.env.repo, pkgs, r.order), path)
  {
    RootfsIs(r.env.repo, r.order, |r.order|, path);
    LeftOverIs(d, r, pkgs, path);
    AllLeftoversMembers(d.db, r.env.repo, pkgs, path);
    MovedFilesAreLost(d, r.env.repo, pkgs, r.order, path);
  }

  /** An install run, as long as the depth limit is out of reach. */
  lemma InstallDoes(w: Site, d: Disk, r: Request)
    requires r.Install? && Uncut(Offers(d, r), Universe(Offers(d, r), r.args))
    ensures InstallIsDone(w, d, r, Apply(w, d, r))
  {
    CommitMeans(w, d, r);
    if GoesThrough(w, d, r) {
      var pkgs := ToInstall(d, r).value;
      forall x ensures EntryIsDone(d, r, Apply(w, d, r), x) {
        MembersMean(d, r, x);
        UpdatedIs(d, r.env.repo, pkgs, r.order, x);
      }
      forall path ensures PathIsDone(d, r, Apply(w, d, r), path) {
        PathDone(d, r, pkgs, path);
      }
    }
  }

  lemma InstallPromise(w: Site, d: Disk, r: Request)
    requires r.Install?
    ensures Uncut(Offers(d, r), Universe(Offers(d, r), r.args)) ==> InstallIsDone(w, d, r, Apply(w, d, r))
  {
    if Uncut(Offers(d, r), Universe(Offers(d, r), r.args)) {
      InstallDoes(w, d, r);
    }
  }

  /** No rule that is not empty matches the path. */
  predicate IsAllowed(w: Site, path: Path) {
    forall k :: 0 <= k < |w.rules| ==> w.rules[k] == "" || !w.matches(w.rules[k], path)
  }

  /** What validation asks of a line of a file list: the path was unpacked, has the recorded checksum, is allowed. */
  predicate FileIsValid(w: Site, fs: map<Path, Node>, f: FileEntry) {
    && f.path in fs && IsAllowed(w, f.path)
    && f.hash == if fs[f.path].File? then w.sha1(fs[f.path].content) else w.through(f.path)
  }

  predicate LinkIsValid(w: Site, fs: map<Path, Node>, l: LinkEntry) {
    l.path in fs && IsAllowed(w, l.path) && fs[l.path] == Link(l.target)
  }

  ghost predicate ListsAreValid(w: Site, fs: map<Path, Node>, p: Package) {
    && (forall k :: 0 <= k < |p.files| && |p.files[k].path.text| > 0 ==> FileIsValid(w, fs, p.files[k]))
    && (forall k :: 0 <= k < |p.links| ==> LinkIsValid(w, fs, p.links[k]))
  }

  lemma GoodFile(w: Site, fs: map<Path, Node>, f: FileEntry)
    ensures V.Good(SceneOf(w, fs), Q.FileItem(f)) <==> FileIsValid(w, fs, f)
  {
  }

  lemma GoodLink(w: Site, fs: map<Path, Node>, l: LinkEntry)
    ensures V.Good(SceneOf(w, fs), Q.LinkItem(l)) <==> LinkIsValid(w, fs, l)
  {
  }

  lemma {:induction false} ItemIsFile(files: seq<FileEntry>, n: nat, item: Q.Item)
    requires n <= |files| && item in FileItems(files, n)
    ensures exists k :: 0 <= k < n && |files[k].path.text| > 0 && item == Q.FileItem(files[k])
  {
    if n > 0 && item !in FileItems(files, n - 1) {
      assert item == Q.FileItem(files[n - 1]);
    } else if n > 0 {
      ItemIsFile(files, n - 1, item);
    }
  }

  lemma ListsAreGood(w: Site, fs: map<Path, Node>, repo: map<Name, Package>, x: Name, item: Q.Item)
    requires x in repo && ListsAreValid(w, fs, repo[x]) && (item in FilesOf(repo, x) || item in LinksOf(repo, x))
    ensures V.Good(SceneOf(w, fs), item)
  {
    var p := repo[x];
    if item in FilesOf(repo, x) {
      ItemIsFile(p.files, |p.files|, item);
      var k :| 0 <= k < |p.files| && |p.files[k].path.text| > 0 && item == Q.FileItem(p.files[k]);
      GoodFile(w, fs, p.files[k]);
    } else {
      var k :| 0 <= k < |p.links| && LinkItems(p.links)[k] == item;
      GoodLink(w, fs, p.links[k]);
    }
  }

  lemma GoodLists(w: Site, repo: map<Name, Package>, order: seq<Name>, x: Name)
    requires Offered(repo, order) && x in order
    requires V.AllGood(SceneOf(w, Rootfs(repo, order, |order|)), Jobs(repo, order))
    ensures ListsAreValid(w, Rootfs(repo, order, |order|), repo[x])
  {
    var (fs, p) := (Rootfs(repo, order, |order|), repo[x]);
    forall k | 0 <= k < |p.files| && |p.files[k].path.text| > 0 ensures FileIsValid(w, fs, p.files[k]) {
      FileIsItem(p.files, |p.files|, k);
      ItemIsGood(SceneOf(w, fs), repo, order, x, Q.FileItem(p.files[k]));
      GoodFile(w, fs, p.files[k]);
    }
    forall k | 0 <= k < |p.links| ensures LinkIsValid(w, fs, p.links[k]) {
      assert LinkItems(p.links)[k] == Q.LinkItem(p.links[k]);
      ItemIsGood(SceneOf(w, fs), repo, order, x, Q.LinkItem(p.links[k]));
      GoodLink(w, fs, p.links[k]);
    }
  }

  lemma AllListsAreGood(w: Site, repo: map<Name, Package>, order: seq<Name>)
    requires Offered(repo, order)
    requires forall x :: x in order ==> ListsAreValid(w, Rootfs(repo, order, |order|), repo[x])
    ensures V.AllGood(SceneOf(w, Rootfs(repo, order, |order|)), Jobs(repo, order))
  {
    var lists := Jobs(repo, order);
    forall n: nat, i: nat | V.InLists(lists, n, i)
      ensures V.Good(SceneOf(w, Rootfs(repo, order, |order|)), lists[n][i])
    {
      var k := if n < |order| then n else n - |order|;
      assert lists[n] == if n < |order| then FilesOf(repo, order[k]) else LinksOf(repo, order[k]);
      ListsAreGood(w, Rootfs(repo, order, |order|), repo, order[k], lists[n][i]);
    }
  }

  /** Validation passes only if every line of every list of the run is valid; run to its end, and with no path
      listed twice, it passes exactly then. */
  lemma ValidatedIff(w: Site, repo: map<Name, Package>, order: seq<Name>, schedule: seq<nat>)
    requires Offered(repo, order)
    ensures var (scene, lists) := (SceneOf(w, Rootfs(repo, order, |order|)), Jobs(repo, order));
            var valid := forall x :: x in order ==> ListsAreValid(w, Rootfs(repo, order, |order|), repo[x]);
            && (Validated(w, repo, order, schedule) ==> valid)
            && (valid && V.DistinctPaths(lists) && Q.Finished(Q.Run(scene, Q.Start(lists), schedule, |schedule|)) ==>
                  Validated(w, repo, order, schedule))
  {
    var (scene, lists) := (SceneOf(w, Rootfs(repo, order, |order|)), Jobs(repo, order));
    if Validated(w, repo, order, schedule) {
      V.PassedIsGood(scene, lists, schedule);
      forall x | x in order ensures ListsAreValid(w, Rootfs(repo, order, |order|), repo[x]) {
        GoodLists(w, repo, order, x);
      }
    }
    if forall x :: x in order ==> ListsAreValid(w, Rootfs(repo, order, |order|), repo[x]) {
      AllListsAreGood(w, repo, order);
      if V.DistinctPaths(lists) && Q.Finished(Q.Run(scene, Q.Start(lists), schedule, |schedule|)) {
        V.PassedIffGood(scene, lists, schedule);
      }
    }
  }

  lemma ListsOfRun(w: Site, d: Disk, r: Request, x: Name)
    requires r.Install? && GoesThrough(w, d, r) && InRun(d, r, x)
    ensures x in r.order && ListsAreValid(w, Rootfs(r.env.repo, r.order, |r.order|), r.env.repo[x])
  {
    ValidatedIff(w, r.env.repo, r.order, r.schedule);
  }

  /** What was unpacked is there after the commit. */
  lemma UnpackedStays(w: Site, d: Disk, r: Request, path: Path)
    requires r.Install? && Uncut(Offers(d, r), Universe(Offers(d, r), r.args)) && GoesThrough(w, d, r)
    requires path in Rootfs(r.env.repo, r.order, |r.order|) && !IsLeftOver(d, r, path)
    ensures path in Apply(w, d, r).fs && Apply(w, d, r).fs[path] == Rootfs(r.env.repo, r.order, |r.order|)[path]
  {
    InstallDoes(w, d, r);
    RootfsIs(r.env.repo, r.order, |r.order|, path);
    assert PathIsDone(d, r, Apply(w, d, r), path);
  }

  /** So after an install run the listed files of its packages are in place, allowed and with their checksums,
      unless another package of the run gave up the path; */
  lemma FileIsInPlace(w: Site, d: Disk, r: Request, x: Name, k: nat)
    requires r.Install? && Uncut(Offers(d, r), Universe(Offers(d, r), r.args))
    requires GoesThrough(w, d, r) && InRun(d, r, x) && k < |r.env.repo[x].files|
    requires |r.env.repo[x].files[k].path.text| > 0 && !IsLeftOver(d, r, r.env.repo[x].files[k].path)
    ensures FileIsValid(w, Apply(w, d, r).fs, r.env.repo[x].files[k])
  {
    ListsOfRun(w, d, r, x);
    assert FileIsValid(w, Rootfs(r.env.repo, r.order, |r.order|), r.env.repo[x].files[k]);
    UnpackedStays(w, d, r, r.env.repo[x].files[k].path);
  }

  /** and their links, with their targets. */
  lemma LinkIsInPlace(w: Site, d: Disk, r: Request, x: Name, k: nat)
    requires r.Install? && Uncut(Offers(d, r), Universe(Offers(d, r), r.args))
    requires GoesThrough(w, d, r) && InRun(d, r, x) && k < |r.env.repo[x].links|
    requires !IsLeftOver(d, r, r.env.repo[x].links[k].path)
    ensures LinkIsValid(w, Apply(w, d, r).fs, r.env.repo[x].links[k])
  {
    ListsOfRun(w, d, r, x);
    assert LinkIsValid(w, Rootfs(r.env.repo, r.order, |r.order|), r.env.repo[x].links[k]);
    UnpackedStays(w, d, r, r.env.repo[x].links[k].path);
  }

  // ----- a remove run

  function Holds(d: Disk, r: Request): Catalog
    requires r.Remove?
  {
    Catalog(r.env.repo, d.db, r.env.listing, r.env.groups, false, r.env.maxDepth)
  }

  ghost predicate IsNamed(d: Disk, r: Request, x: Name)
    requires r.Remove?
  {
    Reaches(PullingOut(Holds(d, r)), SetOf(r.args), x)
  }

  ghost predicate IsRemoved(d: Disk, r: Request, x: Name)
    requires r.Remove?
  {
    IsNamed(d, r, x) && x.Plain? && x in d.db
  }

  /** The package lists the path as a file, or as a link with a line of more than 3 characters. */
  ghost predicate Erases(p: Package, path: Path) {
    || (|path.text| > 0 && exists k :: 0 <= k < |p.files| && p.files[k].path == path)
    || exists k :: 0 <= k < |p.links| && p.links[k].path == path && |path.text| + 1 + |p.links[k].target| > 3
  }

  ghost predicate PathIsRemoved(d: Disk, r: Request, path: Path)
    requires r.Remove?
  {
    exists y :: y in d.db && IsRemoved(d, r, y) && Erases(d.db[y], path)
  }

  /** An unknown group is met, or the package manager would go. */
  ghost predicate RemoveStops(d: Disk, r: Request)
    requires r.Remove?
  {
    (exists x :: IsNamed(d, r, x) && !x.Plain? && x !in r.env.groups) || IsRemoved(d, r, Plain("ymp"))
  }

  /** What a remove run does: nothing when it meets an unknown group or would remove the package manager; else
      exactly the packages to be removed and their paths are gone. */
  ghost predicate RemoveIsDone(d: Disk, r: Request, e: Disk)
    requires r.Remove?
  {
    if RemoveStops(d, r) then e == d
    else
      && (forall x :: (x in e.db <==> x in d.db && !IsRemoved(d, r, x)) && (x in e.db ==> e.db[x] == d.db[x]))
      && forall path :: (path in e.fs <==> path in d.fs && !PathIsRemoved(d, r, path))
                        && (path in e.fs ==> e.fs[path] == d.fs[path])
  }

  lemma ErasesIs(p: Package, path: Path)
    ensures Erases(p, path) <==> Erased(p, path)
  {
    FilePathsMembers(p.files, |p.files|, path);
  }

  lemma RemoveDoes(w: Site, d: Disk, r: Request)
    requires r.Remove? && Uncut(Holds(d, r), Universe(Holds(d, r), r.args))
    requires forall z :: z in r.env.listing <==> z in d.db
    ensures RemoveIsDone(d, r, Apply(w, d, r))
  {
    RemoveErrors(d, r);
    if ToRemove(d, r).Some? {
      forall x ensures x in ToRemove(d, r).value <==> IsRemoved(d, r, x) {
        RemovalIs(Holds(d, r), r.args, x);
      }
      RemovedAreGone(d, r, ToRemove(d, r).value);
    }
  }

  lemma UnknownGroups(d: Disk, r: Request)
    requires r.Remove? && Uncut(Holds(d, r), Universe(Holds(d, r), r.args))
    requires forall z :: z in r.env.listing <==> z in d.db
    ensures ReverseDependencies(Holds(d, r), r.args).errors != {}
            <==> exists x :: IsNamed(d, r, x) && !x.Plain? && x !in r.env.groups
  {
    var errors := ReverseDependencies(Holds(d, r), r.args).errors;
    if x :| x in errors {
      RemovalIs(Holds(d, r), r.args, x);
    }
    if x :| IsNamed(d, r, x) && !x.Plain? && x !in r.env.groups {
      RemovalIs(Holds(d, r), r.args, x);
    }
  }

  lemma RemoveErrors(d: Disk, r: Request)
    requires r.Remove? && Uncut(Holds(d, r), Universe(Holds(d, r), r.args))
    requires forall z :: z in r.env.listing <==> z in d.db
    ensures ToRemove(d, r).None? <==> RemoveStops(d, r)
    ensures ToRemove(d, r).Some? ==> ToRemove(d, r).value == ReverseDependencies(Holds(d, r), r.args).need
  {
    UnknownGroups(d, r);
    RemovalIs(Holds(d, r), r.args, Plain("ymp"));
  }

  lemma RemovedAreGone(d: Disk, r: Request, pkgs: seq<Name>)
    requires r.Remove? && forall x :: x in pkgs <==> IsRemoved(d, r, x)
    ensures var e := GoneAll(d, pkgs, |pkgs|);
            && (forall x :: (x in e.db <==> x in d.db && !IsRemoved(d, r, x)) && (x in e.db ==> e.db[x] == d.db[x]))
            && forall path :: (path in e.fs <==> path in d.fs && !PathIsRemoved(d, r, path))
                              && (path in e.fs ==> e.fs[path] == d.fs[path])
  {
    var e := GoneAll(d, pkgs, |pkgs|);
    forall x ensures (x in e.db <==> x in d.db && !IsRemoved(d, r, x)) && (x in e.db ==> e.db[x] == d.db[x]) {
      GoneIs(d, pkgs, x);
    }
    forall path
      ensures path in e.fs <==> path in d.fs && !PathIsRemoved(d, r, path)
      ensures path in e.fs ==> e.fs[path] == d.fs[path]
    {
      RemainingFiles(d, pkgs, path);
      forall y | y in d.db ensures Erases(d.db[y], path) <==> Erased(d.db[y], path) {
        ErasesIs(d.db[y], path);
      }
    }
  }

  lemma RemovePromise(w: Site, d: Disk, r: Request)
    requires r.Remove?
    ensures Uncut(Holds(d, r), Universe(Holds(d, r), r.args)) && ListsInstalled(Holds(d, r)) ==>
              RemoveIsDone(d, r, Apply(w, d, r))
  {
    if Uncut(Holds(d, r), Universe(Holds(d, r), r.args)) && ListsInstalled(Holds(d, r)) {
      RemoveDoes(w, d, r);
    }
  }

  /** In particular a link goes whose line has more than 3 characters. */
  lemma LongLinksGo(d: Disk, pkgs: seq<Name>, x: Name, k: nat)
    requires x in pkgs && x in d.db && k < |d.db[x].links|
    requires |d.db[x].links[k].path.text| + 1 + |d.db[x].links[k].target| > 3
    ensures d.db[x].links[k].path !in GoneAll(d, pkgs, |pkgs|).fs
  {
    var path := d.db[x].links[k].path;
    RemainingFiles(d, pkgs, path);
    ErasesIs(d.db[x], path);
  }
}
