/** The managed part of the file system is what the installed packages list. */
module Agreement {
  import opened Wrappers
  import opened Catalogue
  import opened Transaction
  import opened Leftovers
  import opened Safety
  import Q = Quarantine
  import V = Validation

  /** The package a path belongs to, over all versions; paths without an owner are not managed. */
  type Owners = Path -> Option<Name>

  ghost predicate Belongs(owner: Owners, m: map<Name, Package>) {
    forall x, path {:trigger path in Paths(m[x])} :: x in m && path in Paths(m[x]) ==> owner(path) == Some(x)
  }

  /** The archive carries exactly what the lists name, a file for each line of the file list. */
  ghost predicate WellMade(p: Package) {
    && (forall path {:trigger path in p.payload} :: path in p.payload <==> path in Paths(p))
    && (forall k :: 0 <= k < |p.files| && p.files[k].path in p.payload ==> p.payload[p.files[k].path].File?)
  }

  ghost predicate AllWellMade(m: map<Name, Package>) {
    forall x {:trigger x in m} :: x in m ==> WellMade(m[x])
  }

  /** `node` is what the lists of `p` say about `path`: its content has the recorded checksum, its target is
      the recorded one. */
  ghost predicate FilesMatch(w: Site, p: Package, path: Path, node: Node) {
    forall k :: 0 <= k < |p.files| && p.files[k].path == path && |path.text| > 0
                ==> node.File? && w.sha1(node.content) == p.files[k].hash
  }

  ghost predicate LinksMatch(p: Package, path: Path, node: Node) {
    forall k :: 0 <= k < |p.links| && p.links[k].path == path ==> node == Link(p.links[k].target)
  }

  ghost predicate Listed(db: map<Name, Package>, x: Name, path: Path) {
    x in db && path in Paths(db[x])
  }

  /** A managed path is in the file system exactly when its owner is installed and lists it, and then it is
      what the lists say. */
  ghost predicate AgreesAt(w: Site, owner: Owners, d: Disk, path: Path) {
    owner(path).Some? ==>
      var x := owner(path).value;
      && (path in d.fs <==> Listed(d.db, x, path))
      && (path in d.fs ==> FilesMatch(w, d.db[x], path, d.fs[path]) && LinksMatch(d.db[x], path, d.fs[path]))
  }

  ghost predicate Agrees(w: Site, owner: Owners, d: Disk) {
    forall path {:trigger owner(path)} :: AgreesAt(w, owner, d, path)
  }

  /** Nothing without an owner was touched. */
  ghost predicate RestUntouched(owner: Owners, d: Disk, e: Disk) {
    forall path {:trigger owner(path)} :: owner(path).None? ==>
      (path in e.fs <==> path in d.fs) && (path in d.fs ==> e.fs[path] == d.fs[path])
  }

  // ----- install

  /** A path that only one package carries comes from that package, in whatever order they were unpacked. */
  lemma {:induction false} RootfsAt(repo: map<Name, Package>, order: seq<Name>, n: nat, path: Path, x: Name)
    requires n <= |order| && Offered(repo, order)
    requires forall k :: 0 <= k < n && path in repo[order[k]].payload ==> order[k] == x
    ensures path in Rootfs(repo, order, n) <==> x in order[..n] && path in repo[x].payload
    ensures path in Rootfs(repo, order, n) ==> x in repo && Rootfs(repo, order, n)[path] == repo[x].payload[path]
  {
    if n > 0 {
      assert order[..n] == order[..n - 1] + [order[n - 1]];
      RootfsAt(repo, order, n - 1, path, x);
    }
  }

  lemma RootfsOfOwner(owner: Owners, repo: map<Name, Package>, order: seq<Name>, path: Path, x: Name)
    requires Offered(repo, order) && AllWellMade(repo) && Belongs(owner, repo)
    requires owner(path) == Some(x) || owner(path) == None
    ensures path in Rootfs(repo, order, |order|) <==> owner(path) == Some(x) && x in order && path in Paths(repo[x])
    ensures path in Rootfs(repo, order, |order|) ==> Rootfs(repo, order, |order|)[path] == repo[x].payload[path]
  {
    forall k | 0 <= k < |order| && path in repo[order[k]].payload ensures owner(path) == Some(order[k]) {
      assert order[k] in repo && path in Paths(repo[order[k]]);
    }
    RootfsAt(repo, order, |order|, path, x);
    assert order[..|order|] == order;
  }

  lemma LeftoversOfOwner(owner: Owners, db: map<Name, Package>, repo: map<Name, Package>, pkgs: seq<Name>, path: Path,
                         x: Name)
    requires Offered(repo, pkgs) && Belongs(owner, db)
    requires owner(path) == Some(x) || owner(path) == None
    ensures path in AllLeftovers(db, repo, pkgs)
            <==> owner(path) == Some(x) && x in pkgs && Listed(db, x, path) && path !in Paths(repo[x])
  {
    AllLeftoversMembers(db, repo, pkgs, path);
    assert forall y :: Dropped(db, repo, y, path) ==> owner(path) == Some(y);
  }

  lemma {:induction false} FileIsItem(files: seq<FileEntry>, n: nat, k: nat)
    requires k < n <= |files| && |files[k].path.text| > 0
    ensures Q.FileItem(files[k]) in FileItems(files, n)
  {
    if k < n - 1 {
      FileIsItem(files, n - 1, k);
    }
  }

  /** Validation looked at every line. */
  lemma ItemIsGood(w: Q.Scene, repo: map<Name, Package>, order: seq<Name>, x: Name, item: Q.Item)
    requires V.AllGood(w, Jobs(repo, order)) && x in order && (item in FilesOf(repo, x) || item in LinksOf(repo, x))
    ensures V.Good(w, item)
  {
    var j :| 0 <= j < |order| && order[j] == x;
    var n := if item in FilesOf(repo, x) then j else |order| + j;
    var i :| 0 <= i < |Jobs(repo, order)[n]| && Jobs(repo, order)[n][i] == item;
    assert V.InLists(Jobs(repo, order), n, i);
  }

  /** So what was validated matches its lists. */
  lemma ValidatedMatches(w: Site, repo: map<Name, Package>, order: seq<Name>, schedule: seq<nat>, x: Name, path: Path)
    requires Offered(repo, order) && Validated(w, repo, order, schedule) && x in order && WellMade(repo[x])
    requires var fs := Rootfs(repo, order, |order|);
             path in fs && path in repo[x].payload && fs[path] == repo[x].payload[path]
    ensures FilesMatch(w, repo[x], path, repo[x].payload[path]) && LinksMatch(repo[x], path, repo[x].payload[path])
  {
    var p, scene := repo[x], SceneOf(w, Rootfs(repo, order, |order|));
    V.PassedIsGood(scene, Jobs(repo, order), schedule);
    forall k | 0 <= k < |p.files| && p.files[k].path == path && |path.text| > 0
      ensures p.payload[path].File? && w.sha1(p.payload[path].content) == p.files[k].hash
    {
      FileIsItem(p.files, |p.files|, k);
      ItemIsGood(scene, repo, order, x, Q.FileItem(p.files[k]));
    }
    forall k | 0 <= k < |p.links| && p.links[k].path == path ensures p.payload[path] == Link(p.links[k].target) {
      assert LinkItems(p.links)[k] == Q.LinkItem(p.links[k]);
      ItemIsGood(scene, repo, order, x, Q.LinkItem(p.links[k]));
    }
  }

  lemma CommitAgreesAt(w: Site, owner: Owners, d: Disk, r: Request, pkgs: seq<Name>, path: Path)
    requires r.Install? && Commits(w, r, pkgs) && AllWellMade(r.env.repo)
    requires Belongs(owner, d.db) && Belongs(owner, r.env.repo) && AgreesAt(w, owner, d, path) && owner(path).Some?
    ensures AgreesAt(w, owner, Committed(d, r.env.repo, pkgs, r.order), path)
  {
    var x, repo := owner(path).value, r.env.repo;
    RootfsOfOwner(owner, repo, r.order, path, x);
    LeftoversOfOwner(owner, d.db, repo, pkgs, path, x);
    UpdatedIs(d, repo, pkgs, r.order, x);
    if x in r.order && path in Paths(repo[x]) {
      assert path in repo[x].payload;
      ValidatedMatches(w, repo, r.order, r.schedule, x, path);
    }
  }

  lemma CommitLeavesRest(owner: Owners, d: Disk, repo: map<Name, Package>, pkgs: seq<Name>, order: seq<Name>)
    requires Offered(repo, pkgs) && IsOrderOf(order, pkgs) && AllWellMade(repo)
    requires Belongs(owner, d.db) && Belongs(owner, repo)
    ensures RestUntouched(owner, d, Committed(d, repo, pkgs, order))
  {
    forall path | owner(path).None?
      ensures path !in Rootfs(repo, order, |order|) && path !in AllLeftovers(d.db, repo, pkgs)
    {
      RootfsOfOwner(owner, repo, order, path, YMP);
      LeftoversOfOwner(owner, d.db, repo, pkgs, path, YMP);
    }
  }

  lemma CommitBelongs(owner: Owners, d: Disk, repo: map<Name, Package>, pkgs: seq<Name>, order: seq<Name>)
    requires Offered(repo, pkgs) && IsOrderOf(order, pkgs) && Belongs(owner, d.db) && Belongs(owner, repo)
    ensures Belongs(owner, Committed(d, repo, pkgs, order).db)
  {
    var db := Committed(d, repo, pkgs, order).db;
    forall x, path | x in db && path in Paths(db[x]) ensures owner(path) == Some(x) {
      UpdatedIs(d, repo, pkgs, order, x);
    }
  }

  /** Install and upgrade: whatever the interleaving and the order of extraction, a run keeps the agreement. */
  lemma InstallAgrees(w: Site, owner: Owners, d: Disk, r: Request)
    requires r.Install? && AllWellMade(r.env.repo) && Belongs(owner, r.env.repo)
    requires Belongs(owner, d.db) && Agrees(w, owner, d)
    ensures Agrees(w, owner, Apply(w, d, r)) && Belongs(owner, Apply(w, d, r).db)
    ensures RestUntouched(owner, d, Apply(w, d, r))
  {
    if ToInstall(d, r).Some? && Commits(w, r, ToInstall(d, r).value) {
      var pkgs := ToInstall(d, r).value;
      CommitBelongs(owner, d, r.env.repo, pkgs, r.order);
      CommitLeavesRest(owner, d, r.env.repo, pkgs, r.order);
      forall path ensures AgreesAt(w, owner, Apply(w, d, r), path) {
        if owner(path).Some? {
          CommitAgreesAt(w, owner, d, r, pkgs, path);
        }
      }
    }
  }

  /** Which files there are after a commit, whoever owns them: those there were and those of the quarantine,
      without the paths an installed package of the run used to list and no longer does. So a file that moves
      from one package to another is lost, which is why paths need one owner for all versions. */
  lemma MovedFilesAreLost(d: Disk, repo: map<Name, Package>, pkgs: seq<Name>, order: seq<Name>, path: Path)
    requires Offered(repo, pkgs) && IsOrderOf(order, pkgs)
    ensures var fs := Committed(d, repo, pkgs, order).fs;
            && (path in fs <==>
                (path in d.fs || path in Rootfs(repo, order, |order|))
                && !exists y :: y in pkgs && Dropped(d.db, repo, y, path))
            && (path in fs ==> fs[path] == (d.fs + Rootfs(repo, order, |order|))[path])
  {
    AllLeftoversMembers(d.db, repo, pkgs, path);
  }

  const BARE := Package(2, [], [], [], map[])
  const OWNING := Package(2, [], [], [LinkEntry(Path("lib/a"), "b")], map[Path("lib/a") := Link("b")])

  /** A system in which the link belongs to `x`, and repositories in which it belongs to `y`. */
  function MovingDisk(x: Name): Disk {
    Disk(map[x := OWNING], OWNING.payload)
  }

  function MovingRepo(x: Name, y: Name): map<Name, Package> {
    map[x := BARE, y := OWNING]
  }

  lemma MovingIsWellMade(path: Path)
    ensures path in Paths(OWNING) <==> path == Path("lib/a")
    ensures path !in Paths(BARE)
  {
    assert OWNING.links[0].path == Path("lib/a");
    PathsMembers(OWNING, path);
    PathsMembers(BARE, path);
  }

  lemma MovingRootfs(x: Name, y: Name)
    requires x != y
    ensures Offered(MovingRepo(x, y), [x, y]) && Rootfs(MovingRepo(x, y), [x, y], 2) == OWNING.payload
  {
    var repo, order := MovingRepo(x, y), [x, y];
    assert repo[order[0]] == BARE && repo[order[1]] == OWNING;
    assert Rootfs(repo, order, 1) == Rootfs(repo, order, 0) + BARE.payload == map[];
    assert Rootfs(repo, order, 2) == Rootfs(repo, order, 1) + OWNING.payload;
  }

  /** What is unpacked for the two packages passes validation, where no path is restricted. */
  lemma MovingIsValid(w: Site, x: Name, y: Name) returns (schedule: seq<nat>)
    requires x != y && w.rules == []
    ensures Offered(MovingRepo(x, y), [x, y]) && Validated(w, MovingRepo(x, y), [x, y], schedule)
  {
    var repo, order := MovingRepo(x, y), [x, y];
    MovingRootfs(x, y);
    var scene, lists := SceneOf(w, Rootfs(repo, order, 2)), Jobs(repo, order);
    assert lists[0] == [] && lists[1] == [] && lists[2] == [] && lists[3] == [Q.LinkItem(OWNING.links[0])];
    assert V.Good(scene, lists[3][0]);
    schedule := V.ValidationFinishes(scene, lists, []);
    V.PassedIffGood(scene, lists, schedule);
  }

  /** Such a run exists: an upgrade of `x` that no longer lists the link and an install of `y` that now does.
      After it `y` is installed and lists the link, which is gone. */
  lemma FileMovesAway(w: Site, x: Name, y: Name) returns (schedule: seq<nat>)
    requires x != y && w.rules == []
    ensures var (d, repo, pkgs) := (MovingDisk(x), MovingRepo(x, y), [x, y]);
            && WellMade(OWNING) && WellMade(BARE)
            && Offered(repo, pkgs) && IsOrderOf(pkgs, pkgs) && Validated(w, repo, pkgs, schedule)
            && Path("lib/a") in d.fs && Path("lib/a") in Rootfs(repo, pkgs, 2)
            && Listed(Committed(d, repo, pkgs, pkgs).db, y, Path("lib/a"))
            && Path("lib/a") !in Committed(d, repo, pkgs, pkgs).fs
  {
    var (d, repo, pkgs) := (MovingDisk(x), MovingRepo(x, y), [x, y]);
    schedule := MovingIsValid(w, x, y);
    forall path ensures (path in Paths(OWNING) <==> path == Path("lib/a")) && path !in Paths(BARE) {
      MovingIsWellMade(path);
    }
    MovingRootfs(x, y);
    assert Updated(d.db, repo, pkgs, 2)[y] == OWNING;
    assert x in pkgs && Dropped(d.db, repo, x, Path("lib/a"));
    MovedFilesAreLost(d, repo, pkgs, pkgs, Path("lib/a"));
  }

  // ----- remove

  lemma {:induction false} GoneAllFs(d: Disk, pkgs: seq<Name>, n: nat, path: Path)
    requires n <= |pkgs|
    ensures var r := GoneAll(d, pkgs, n).fs;
            && (path in r <==> path in d.fs && forall x :: x in pkgs[..n] && x in d.db ==> !Erased(d.db[x], path))
            && (path in r ==> r[path] == d.fs[path])
  {
    if n > 0 {
      GoneAllFs(d, pkgs, n - 1, path);
      GoneAllDb(d, pkgs, n - 1, pkgs[n - 1]);
      assert pkgs[..n] == pkgs[..n - 1] + [pkgs[n - 1]];
    }
  }

  /** The files that remain are those no removed package erases; the order of the removals does not matter. */
  lemma RemainingFiles(d: Disk, pkgs: seq<Name>, path: Path)
    ensures var r := GoneAll(d, pkgs, |pkgs|).fs;
            && (path in r <==> path in d.fs && forall x :: x in pkgs && x in d.db ==> !Erased(d.db[x], path))
            && (path in r ==> r[path] == d.fs[path])
  {
    GoneAllFs(d, pkgs, |pkgs|, path);
    assert pkgs[..|pkgs|] == pkgs;
  }

  /** A link line, path, space and target, of at most 3 characters. */
  ghost predicate HasShortLink(p: Package) {
    exists k :: 0 <= k < |p.links| && |p.links[k].path.text| + 1 + |p.links[k].target| <= 3
  }

  lemma ErasedIsListed(p: Package, path: Path)
    ensures Erased(p, path) ==> path in Paths(p)
    ensures !HasShortLink(p) ==> (Erased(p, path) <==> path in Paths(p))
  {
    PathsMembers(p, path);
    FilePathsMembers(p.files, |p.files|, path);
  }

  /** A link with a short line is not erased through any other line: they all say the same about the path. */
  lemma ShortLinkStays(w: Site, p: Package, k: nat, node: Node)
    requires k < |p.links| && |p.links[k].path.text| + 1 + |p.links[k].target| <= 3
    requires FilesMatch(w, p, p.links[k].path, node) && LinksMatch(p, p.links[k].path, node)
    ensures p.links[k].path in Paths(p) && !Erased(p, p.links[k].path)
  {
    PathsMembers(p, p.links[k].path);
    FilePathsMembers(p.files, |p.files|, p.links[k].path);
  }

  lemma RemoveAgreesAt(w: Site, owner: Owners, d: Disk, pkgs: seq<Name>, path: Path)
    requires Belongs(owner, d.db) && AgreesAt(w, owner, d, path) && owner(path).Some?
    requires owner(path).value in pkgs && owner(path).value in d.db ==> !HasShortLink(d.db[owner(path).value])
    ensures AgreesAt(w, owner, GoneAll(d, pkgs, |pkgs|), path)
  {
    var x := owner(path).value;
    RemainingFiles(d, pkgs, path);
    GoneIs(d, pkgs, x);
    forall y | y in pkgs && y in d.db ensures Erased(d.db[y], path) ==> y == x {
      ErasedIsListed(d.db[y], path);
    }
    if x in d.db {
      ErasedIsListed(d.db[x], path);
    }
  }

  lemma ShortLinkDisagrees(w: Site, owner: Owners, d: Disk, pkgs: seq<Name>, x: Name)
    requires Belongs(owner, d.db) && Agrees(w, owner, d) && x in pkgs && x in d.db && HasShortLink(d.db[x])
    ensures !Agrees(w, owner, GoneAll(d, pkgs, |pkgs|))
  {
    var k :| 0 <= k < |d.db[x].links| && |d.db[x].links[k].path.text| + 1 + |d.db[x].links[k].target| <= 3;
    var path := d.db[x].links[k].path;
    PathsMembers(d.db[x], path);
    assert owner(path) == Some(x) && AgreesAt(w, owner, d, path);
    ShortLinkStays(w, d.db[x], k, d.fs[path]);
    forall y | y in pkgs && y in d.db ensures !Erased(d.db[y], path) {
      ErasedIsListed(d.db[y], path);
    }
    RemainingFiles(d, pkgs, path);
    GoneIs(d, pkgs, x);
    assert !AgreesAt(w, owner, GoneAll(d, pkgs, |pkgs|), path);
  }

  /** Remove skips link lines of at most 3 characters, so it keeps the agreement exactly when no removed
      package has one. */
  lemma RemoveAgreesIff(w: Site, owner: Owners, d: Disk, pkgs: seq<Name>)
    requires Belongs(owner, d.db) && Agrees(w, owner, d)
    ensures Agrees(w, owner, GoneAll(d, pkgs, |pkgs|))
            <==> forall x :: x in pkgs && x in d.db ==> !HasShortLink(d.db[x])
  {
    if x :| x in pkgs && x in d.db && HasShortLink(d.db[x]) {
      ShortLinkDisagrees(w, owner, d, pkgs, x);
    } else {
      forall path ensures AgreesAt(w, owner, GoneAll(d, pkgs, |pkgs|), path) {
        if owner(path).Some? {
          RemoveAgreesAt(w, owner, d, pkgs, path);
        }
      }
    }
  }

  const SHORT := Package(1, [], [], [LinkEntry(Path("a"), "b")], map[Path("a") := Link("b")])

  /** A system with one package, whose link line `a b` has 3 characters. */
  function ShortLinkDisk(x: Name): Disk {
    Disk(map[x := SHORT], SHORT.payload)
  }

  function ShortLinkOwner(x: Name): Owners {
    path => if path == Path("a") then Some(x) else None
  }

  /** Such a package exists: everything is in order, and removing it leaves its link behind. */
  lemma ShortLinkLeftBehind(w: Site, x: Name)
    ensures var (owner, d) := (ShortLinkOwner(x), ShortLinkDisk(x));
            && WellMade(SHORT) && Belongs(owner, d.db) && Agrees(w, owner, d)
            && Path("a") in GoneAll(d, [x], 1).fs && GoneAll(d, [x], 1).db == map[]
            && !Agrees(w, owner, GoneAll(d, [x], 1))
  {
    var owner, d := ShortLinkOwner(x), ShortLinkDisk(x);
    assert SHORT.links[0].path == Path("a");
    forall path ensures path in Paths(SHORT) <==> path == Path("a") {
      PathsMembers(SHORT, path);
    }
    forall path ensures AgreesAt(w, owner, d, path) {
      assert owner(path).Some? ==> owner(path).value == x && path == Path("a");
    }
    assert |SHORT.links[0].path.text| + 1 + |SHORT.links[0].target| == 3;
    RemoveAgreesIff(w, owner, d, [x]);
    assert x in [x] && HasShortLink(d.db[x]);
    GoneAllFs(d, [x], 1, Path("a"));
  }

  lemma RemoveLeavesRest(owner: Owners, d: Disk, pkgs: seq<Name>)
    requires Belongs(owner, d.db)
    ensures Belongs(owner, GoneAll(d, pkgs, |pkgs|).db) && RestUntouched(owner, d, GoneAll(d, pkgs, |pkgs|))
  {
    var e := GoneAll(d, pkgs, |pkgs|);
    forall x, path | x in e.db && path in Paths(e.db[x]) ensures owner(path) == Some(x) {
      GoneIs(d, pkgs, x);
    }
    forall path | owner(path).None? ensures forall x :: x in pkgs && x in d.db ==> !Erased(d.db[x], path) {
      forall x | x in pkgs && x in d.db ensures !Erased(d.db[x], path) {
        ErasedIsListed(d.db[x], path);
      }
    }
    forall path ensures path in e.fs ==> path in d.fs && e.fs[path] == d.fs[path] {
      RemainingFiles(d, pkgs, path);
    }
    forall path | owner(path).None? ensures path in d.fs ==> path in e.fs {
      RemainingFiles(d, pkgs, path);
    }
  }

  // ----- whole runs

  ghost predicate NoShortLinks(m: map<Name, Package>) {
    forall x {:trigger x in m} :: x in m ==> !HasShortLink(m[x])
  }

  /** What is assumed of the packages on offer. */
  ghost predicate Tidy(owner: Owners, m: map<Name, Package>) {
    AllWellMade(m) && Belongs(owner, m) && NoShortLinks(m)
  }

  ghost predicate TidyRuns(owner: Owners, h: History) {
    h.Fresh? || (TidyRuns(owner, h.earlier) && Tidy(owner, h.run.env.repo))
  }

  /** The database and the file system are in order. */
  ghost predicate InOrder(w: Site, owner: Owners, d: Disk) {
    Agrees(w, owner, d) && Belongs(owner, d.db) && NoShortLinks(d.db)
  }

  /** A system without packages is where every history may start. */
  lemma FreshDiskInOrder(w: Site, owner: Owners, fs: map<Path, Node>)
    requires forall path {:trigger owner(path)} :: owner(path).Some? ==> path !in fs
    ensures InOrder(w, owner, Disk(map[], fs)) && Sound(map[])
  {
    forall path ensures AgreesAt(w, owner, Disk(map[], fs), path) {
      assert owner(path).Some? ==> path !in fs;
    }
  }

  lemma ShortLinksKeptOut(w: Site, d: Disk, r: Request)
    requires NoShortLinks(d.db) && NoShortLinks(r.env.repo)
    ensures NoShortLinks(Apply(w, d, r).db)
  {
    forall x | x in Apply(w, d, r).db ensures !HasShortLink(Apply(w, d, r).db[x]) {
      if r.Install? {
        if ToInstall(d, r).Some? && Commits(w, r, ToInstall(d, r).value) {
          UpdatedIs(d, r.env.repo, ToInstall(d, r).value, r.order, x);
        }
      } else if ToRemove(d, r).Some? {
        GoneIs(d, ToRemove(d, r).value, x);
      }
    }
  }

  lemma RunAgrees(w: Site, owner: Owners, d: Disk, r: Request)
    requires Tidy(owner, r.env.repo) && InOrder(w, owner, d)
    ensures InOrder(w, owner, Apply(w, d, r)) && RestUntouched(owner, d, Apply(w, d, r))
  {
    ShortLinksKeptOut(w, d, r);
    if r.Install? {
      InstallAgrees(w, owner, d, r);
    } else if ToRemove(d, r).Some? {
      RemoveAgreesIff(w, owner, d, ToRemove(d, r).value);
      RemoveLeavesRest(owner, d, ToRemove(d, r).value);
    }
  }

  /** Database and file system agree after every history of installs, upgrades and removes, and what no
      package owns is never touched. */
  lemma {:induction false} AgreementIsKept(w: Site, owner: Owners, d: Disk, h: History)
    requires TidyRuns(owner, h) && InOrder(w, owner, d)
    ensures InOrder(w, owner, After(w, d, h)) && RestUntouched(owner, d, After(w, d, h))
  {
    if h.Ran? {
      AgreementIsKept(w, owner, d, h.earlier);
      RunAgrees(w, owner, After(w, d, h.earlier), h.run);
    }
  }
}
