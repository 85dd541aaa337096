/** `install` and `remove` as transactions over the package database and the file system. The database holds,
    for each installed package, its metadata and its file and link lists. */
module Transaction {
  import opened Wrappers
  import opened Catalogue
  import opened Resolver
  import Leftovers
  import Q = Quarantine

  datatype Disk = Disk(db: map<Name, Package>, fs: map<Path, Node>)

  /** What holds for all runs: the checksum of a content, what is read through a link, the restricted paths. */
  datatype Site = Site(
    sha1: string -> string,
    through: Path -> string,
    rules: seq<string>,
    matches: (string, Path) -> bool)

  /** What a run finds: the repositories, the groups, the listing of the database, the depth limit. */
  datatype Env = Env(repo: map<Name, Package>, groups: map<Name, seq<Name>>, listing: seq<Name>, maxDepth: nat)

  /** A run. `order` is the order in which the extraction jobs finish, `schedule` the interleaving of the
      validation jobs, and `obstacle` stands for a download, archive or architecture error or a user's "no". */
  datatype Request =
    | Install(env: Env, args: seq<Name>, reinstall: bool, upgrade: bool, obstacle: bool, order: seq<Name>,
              schedule: seq<nat>)
    | Remove(env: Env, args: seq<Name>)

  const YMP := Plain("ymp")

  function CatalogOf(d: Disk, e: Env, reinstall: bool): Catalog {
    Catalog(e.repo, d.db, e.listing, e.groups, reinstall, e.maxDepth)
  }

  // ----- what to install

  /** The first `n` installed packages of the listing with a newer release on offer. */
  function Upgradable(db: map<Name, Package>, e: Env, n: nat): seq<Name>
    requires n <= |e.listing|
  {
    if n == 0 then []
    else
      var x := e.listing[n - 1];
      Upgradable(db, e, n - 1)
      + if x in e.repo && x in db && db[x].release < e.repo[x].release then [x] else []
  }

  ghost predicate HasUpgrade(db: map<Name, Package>, e: Env, x: Name) {
    x in db && x in e.repo && db[x].release < e.repo[x].release
  }

  /** A listed name is upgraded exactly when it is installed and a newer release of it is on offer. */
  lemma {:induction false} UpgradableMembers(db: map<Name, Package>, e: Env, n: nat, x: Name)
    requires n <= |e.listing|
    ensures x in Upgradable(db, e, n) <==> x in e.listing[..n] && HasUpgrade(db, e, x)
  {
    if n > 0 {
      UpgradableMembers(db, e, n - 1, x);
      assert e.listing[..n] == e.listing[..n - 1] + [e.listing[n - 1]];
    }
  }

  /** They stand in the order of the listing. */
  lemma {:induction false} UpgradableGrows(db: map<Name, Package>, e: Env, m: nat, n: nat)
    requires m <= n <= |e.listing|
    ensures Upgradable(db, e, m) <= Upgradable(db, e, n)
  {
    if m < n {
      UpgradableGrows(db, e, m, n - 1);
    }
  }

  /** The names of a run's result, unless there were errors. */
  function Result(s: Search): Option<seq<Name>> {
    if s.errors == {} then Some(s.need) else None
  }

  ghost function ToInstall(d: Disk, r: Request): Option<seq<Name>>
    requires r.Install?
  {
    var c := CatalogOf(d, r.env, r.reinstall);
    match Result(Dependencies(c, r.args))
    case None => None
    case Some(need) =>
      if !r.upgrade then Some(need)
      else match Result(Dependencies(c, Upgradable(d.db, r.env, |r.env.listing|)))
        case None => None
        case Some(more) => Some(need + more)
  }

  // ----- the quarantine

  /** `order` names each of `pkgs` once. */
  predicate IsOrderOf(order: seq<Name>, pkgs: seq<Name>) {
    && (forall x :: x in order ==> x in pkgs) && (forall x :: x in pkgs ==> x in order)
    && forall i, j :: 0 <= i < j < |order| ==> order[i] != order[j]
  }

  predicate Offered(repo: map<Name, Package>, pkgs: seq<Name>) {
    forall x :: x in pkgs ==> x in repo
  }

  /** The archives of the first `n` packages, unpacked one over the other. */
  function Rootfs(repo: map<Name, Package>, order: seq<Name>, n: nat): map<Path, Node>
    requires n <= |order| && Offered(repo, order)
  {
    if n == 0 then map[] else Rootfs(repo, order, n - 1) + repo[order[n - 1]].payload
  }

  function FileItems(files: seq<FileEntry>, n: nat): seq<Q.Item>
    requires n <= |files|
  {
    if n == 0 then []
    else FileItems(files, n - 1) + if |files[n - 1].path.text| == 0 then [] else [Q.FileItem(files[n - 1])]
  }

  function LinkItems(links: seq<LinkEntry>): (r: seq<Q.Item>)
    ensures |r| == |links| && forall k :: 0 <= k < |r| ==> r[k] == Q.LinkItem(links[k])
  {
    seq(|links|, k requires 0 <= k < |links| => Q.LinkItem(links[k]))
  }

  function FilesOf(repo: map<Name, Package>, x: Name): seq<Q.Item> {
    if x in repo then FileItems(repo[x].files, |repo[x].files|) else []
  }

  function LinksOf(repo: map<Name, Package>, x: Name): seq<Q.Item> {
    if x in repo then LinkItems(repo[x].links) else []
  }

  /** The validation jobs: a file list and a link list for each package. */
  function Jobs(repo: map<Name, Package>, order: seq<Name>): (r: seq<seq<Q.Item>>)
    ensures |r| == 2 * |order|
    ensures forall k :: 0 <= k < |order| ==>
              r[k] == FilesOf(repo, order[k]) && r[|order| + k] == LinksOf(repo, order[k])
  {
    seq(|order|, k requires 0 <= k < |order| => FilesOf(repo, order[k]))
    + seq(|order|, k requires 0 <= k < |order| => LinksOf(repo, order[k]))
  }

  /** The checksum of a quarantined file. */
  function Checksum(w: Site, rootfs: map<Path, Node>, p: Path): string {
    if p in rootfs && rootfs[p].File? then w.sha1(rootfs[p].content) else w.through(p)
  }

  function SceneOf(w: Site, rootfs: map<Path, Node>): Q.Scene {
    Q.Scene(rootfs, p => Checksum(w, rootfs, p), w.rules, w.matches)
  }

  predicate Validated(w: Site, repo: map<Name, Package>, order: seq<Name>, schedule: seq<nat>)
    requires Offered(repo, order)
  {
    Q.Passed(Q.Run(SceneOf(w, Rootfs(repo, order, |order|)), Q.Start(Jobs(repo, order)), schedule, |schedule|))
  }

  // ----- install

  /** The database with the entries of the first `n` packages replaced. */
  function Updated(db: map<Name, Package>, repo: map<Name, Package>, order: seq<Name>, n: nat): map<Name, Package>
    requires n <= |order| && Offered(repo, order)
  {
    if n == 0 then db else Updated(db, repo, order, n - 1)[order[n - 1] := repo[order[n - 1]]]
  }

  function Without(fs: map<Path, Node>, gone: seq<Path>): map<Path, Node> {
    map p | p in fs && p !in gone :: fs[p]
  }

  /** Files are moved over, lists and metadata replaced, and then the leftovers are deleted. */
  function Committed(d: Disk, repo: map<Name, Package>, pkgs: seq<Name>, order: seq<Name>): Disk
    requires Offered(repo, order)
  {
    Disk(Updated(d.db, repo, order, |order|),
         Without(d.fs + Rootfs(repo, order, |order|), Leftovers.AllLeftovers(d.db, repo, pkgs)))
  }

  /** The run gets to its commit. */
  predicate Commits(w: Site, r: Request, pkgs: seq<Name>)
    requires r.Install?
  {
    && !r.obstacle && Offered(r.env.repo, pkgs) && IsOrderOf(r.order, pkgs)
    && Validated(w, r.env.repo, r.order, r.schedule)
  }

  // ----- remove

  /** The paths `remove_single` deletes: links whose line is longer than 3 characters, and files. */
  function LinkLine(l: LinkEntry): nat {
    |l.path.text| + 1 + |l.target|
  }

  predicate ErasedLink(p: Package, path: Path) {
    exists k :: 0 <= k < |p.links| && p.links[k].path == path && LinkLine(p.links[k]) > 3
  }

  predicate Erased(p: Package, path: Path) {
    ErasedLink(p, path) || path in Leftovers.FilePaths(p.files, |p.files|)
  }

  function Gone(d: Disk, x: Name): Disk
    requires x in d.db
  {
    Disk(d.db - {x}, map p | p in d.fs && !Erased(d.db[x], p) :: d.fs[p])
  }

  /** The first `n` packages removed, those that are still installed. */
  function GoneAll(d: Disk, pkgs: seq<Name>, n: nat): Disk
    requires n <= |pkgs|
  {
    if n == 0 then d
    else
      var e := GoneAll(d, pkgs, n - 1);
      if pkgs[n - 1] in e.db then Gone(e, pkgs[n - 1]) else e
  }

  ghost function ToRemove(d: Disk, r: Request): Option<seq<Name>>
    requires r.Remove?
  {
    match Result(ReverseDependencies(CatalogOf(d, r.env, false), r.args))
    case None => None
    case Some(need) => if YMP in need then None else Some(need)
  }

  // ----- runs

  ghost function Apply(w: Site, d: Disk, r: Request): Disk {
    if r.Install? then
      match ToInstall(d, r)
      case None => d
      case Some(pkgs) => if Commits(w, r, pkgs) then Committed(d, r.env.repo, pkgs, r.order) else d
    else
      match ToRemove(d, r)
      case None => d
      case Some(pkgs) => GoneAll(d, pkgs, |pkgs|)
  }

  /** A sequence of runs, latest outermost. */
  datatype History = Fresh | Ran(earlier: History, run: Request)

  ghost function After(w: Site, d: Disk, h: History): Disk {
    match h
    case Fresh => d
    case Ran(earlier, r) => Apply(w, After(w, d, earlier), r)
  }
}
