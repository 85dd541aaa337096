/** What an upgrade leaves behind: the paths a package used to list and its new version does not. */
module Leftovers {
  import opened Catalogue
  import opened TombstoneArray
  import opened ArrayRefinement

  /** A line without a path is no entry. */
  function FilePath(e: FileEntry): seq<Path> {
    if |e.path.text| == 0 then [] else [e.path]
  }

  /** The paths of the first `n` lines of a file list. */
  function FilePaths(files: seq<FileEntry>, n: nat): seq<Path>
    requires n <= |files|
  {
    if n == 0 then [] else FilePaths(files, n - 1) + FilePath(files[n - 1])
  }

  function LinkPaths(links: seq<LinkEntry>, n: nat): seq<Path>
    requires n <= |links|
  {
    if n == 0 then [] else LinkPaths(links, n - 1) + [links[n - 1].path]
  }

  /** All paths a package lists. */
  function Paths(p: Package): seq<Path> {
    FilePaths(p.files, |p.files|) + LinkPaths(p.links, |p.links|)
  }

  ghost predicate IsFile(files: seq<FileEntry>, n: nat, path: Path)
    requires n <= |files|
  {
    |path.text| > 0 && exists k :: 0 <= k < n && files[k].path == path
  }

  ghost predicate IsLink(links: seq<LinkEntry>, n: nat, path: Path)
    requires n <= |links|
  {
    exists k :: 0 <= k < n && links[k].path == path
  }

  lemma {:induction false} FilePathsMembers(files: seq<FileEntry>, n: nat, path: Path)
    requires n <= |files|
    ensures path in FilePaths(files, n) <==> IsFile(files, n, path)
  {
    if n > 0 {
      FilePathsMembers(files, n - 1, path);
    }
  }

  lemma {:induction false} LinkPathsMembers(links: seq<LinkEntry>, n: nat, path: Path)
    requires n <= |links|
    ensures path in LinkPaths(links, n) <==> IsLink(links, n, path)
  {
    if n > 0 {
      LinkPathsMembers(links, n - 1, path);
    }
  }

  lemma PathsMembers(p: Package, path: Path)
    ensures path in Paths(p) <==> IsFile(p.files, |p.files|, path) || IsLink(p.links, |p.links|, path)
  {
    FilePathsMembers(p.files, |p.files|, path);
    LinkPathsMembers(p.links, |p.links|, path);
  }

  function Leftover(was: Package, now: Package): seq<Path> {
    WithoutAll(Paths(was), Paths(now), |Paths(now)|)
  }

  /** A leftover is a path of the old version that is not one of the new version. */
  lemma LeftoverMembers(was: Package, now: Package, path: Path)
    ensures path in Leftover(was, now) <==> path in Paths(was) && path !in Paths(now)
  {
    WithoutAllMembers(Paths(was), Paths(now), |Paths(now)|, path);
  }

  /** For a package that is being installed. */
  function LeftoverOf(db: map<Name, Package>, repo: map<Name, Package>, name: Name): seq<Path> {
    if name in db && name in repo then Leftover(db[name], repo[name]) else []
  }

  /** One list of leftovers a package, in the order of the packages. */
  function LeftoverLists(db: map<Name, Package>, repo: map<Name, Package>, pkgs: seq<Name>): (r: seq<seq<Path>>)
    ensures |r| == |pkgs| && forall k :: 0 <= k < |r| ==> r[k] == LeftoverOf(db, repo, pkgs[k])
  {
    seq(|pkgs|, k requires 0 <= k < |pkgs| => LeftoverOf(db, repo, pkgs[k]))
  }

  function AllLeftovers(db: map<Name, Package>, repo: map<Name, Package>, pkgs: seq<Name>): seq<Path> {
    Together(LeftoverLists(db, repo, pkgs), |pkgs|)
  }

  /** `y` used to list the path and no longer does. */
  ghost predicate Dropped(db: map<Name, Package>, repo: map<Name, Package>, y: Name, path: Path) {
    y in db && y in repo && path in Paths(db[y]) && path !in Paths(repo[y])
  }

  lemma LeftoverOfMembers(db: map<Name, Package>, repo: map<Name, Package>, y: Name, path: Path)
    ensures path in LeftoverOf(db, repo, y) <==> Dropped(db, repo, y, path)
  {
    if y in db && y in repo {
      LeftoverMembers(db[y], repo[y], path);
    }
  }

  lemma AllLeftoversMembers(db: map<Name, Package>, repo: map<Name, Package>, pkgs: seq<Name>, path: Path)
    ensures path in AllLeftovers(db, repo, pkgs) <==> exists y :: y in pkgs && Dropped(db, repo, y, path)
  {
    var lists := LeftoverLists(db, repo, pkgs);
    TogetherMembers(lists, |pkgs|, path);
    if k :| 0 <= k < |pkgs| && path in lists[k] {
      LeftoverOfMembers(db, repo, pkgs[k], path);
    }
    if y :| y in pkgs && Dropped(db, repo, y, path) {
      var k :| 0 <= k < |pkgs| && pkgs[k] == y;
      LeftoverOfMembers(db, repo, y, path);
      assert path in lists[k];
    }
  }

  // ----- the loops over the lists

  lemma {:induction false} WithoutAllPrefix<T>(list: seq<T>, a: seq<T>, b: seq<T>, n: nat)
    requires n <= |a| && n <= |b| && a[..n] == b[..n]
    ensures WithoutAll(list, a, n) == WithoutAll(list, b, n)
  {
    if n > 0 {
      assert a[..n][n - 1] == b[..n][n - 1];
      assert a[..n - 1] == a[..n][..n - 1] == b[..n - 1];
      WithoutAllPrefix(list, a, b, n - 1);
    }
  }

  lemma WithoutOneMore<T>(list: seq<T>, items: seq<T>, v: T)
    ensures WithoutAll(list, items + [v], |items| + 1) == Without(WithoutAll(list, items, |items|), v)
  {
    assert (items + [v])[..|items|] == items == items[..|items|];
    WithoutAllPrefix(list, items + [v], items, |items|);
  }

  /** Holding what remained of a list when some items were removed. */
  ghost predicate Lacks(s: State<Path>, was: seq<Path>, items: seq<Path>) {
    Holds(s, WithoutAll(was, items, |items|))
  }

  method AddPath(a: CArray<Path>, path: Path)
    requires WellFormed(a.Slots()) && a.removed == 0
    modifies a, a.data
    ensures Holds(a.Slots(), old(List(a.Slots())) + [path]) && a.removed == 0
    ensures a.data == old(a.data) || fresh(a.data)
  {
    AddAppends(a.Slots(), path);
    a.Add(path);
  }

  method RemovePath(a: CArray<Path>, path: Path, ghost was: seq<Path>, ghost items: seq<Path>)
    requires Lacks(a.Slots(), was, items)
    modifies a, a.data
    ensures Lacks(a.Slots(), was, items + [path])
    ensures a.data == old(a.data)
  {
    RemoveKeepsWellFormed(a.Slots(), path);
    WithoutOneMore(was, items, path);
    a.Remove(path);
  }

  /** Holding the paths of the first `i` files. */
  ghost predicate HoldsFiles(s: State<Path>, files: seq<FileEntry>, i: nat) {
    i <= |files| && Holds(s, FilePaths(files, i)) && s.removed == 0
  }

  method AddFile(a: CArray<Path>, files: seq<FileEntry>, i: nat)
    requires i < |files| && HoldsFiles(a.Slots(), files, i)
    modifies a, a.data
    ensures HoldsFiles(a.Slots(), files, i + 1)
    ensures a.data == old(a.data) || fresh(a.data)
  {
    if |files[i].path.text| > 0 {
      AddPath(a, files[i].path);
    } else {
      assert FilePaths(files, i + 1) == FilePaths(files, i);
    }
  }

  method AddFiles(a: CArray<Path>, files: seq<FileEntry>)
    requires HoldsFiles(a.Slots(), files, 0)
    modifies a, a.data
    ensures HoldsFiles(a.Slots(), files, |files|)
    ensures a.data == old(a.data) || fresh(a.data)
  {
    var i := 0;
    while i < |files|
      invariant a.data == old(a.data) || fresh(a.data)
      invariant HoldsFiles(a.Slots(), files, i)
    {
      AddFile(a, files, i);
      i := i + 1;
    }
  }

  method AddLinks(a: CArray<Path>, links: seq<LinkEntry>, ghost files: seq<Path>)
    requires Holds(a.Slots(), files) && a.removed == 0
    modifies a, a.data
    ensures Holds(a.Slots(), files + LinkPaths(links, |links|)) && a.removed == 0
    ensures a.data == old(a.data) || fresh(a.data)
  {
    assert files + LinkPaths(links, 0) == files;
    var i := 0;
    while i < |links|
      invariant 0 <= i <= |links| && (a.data == old(a.data) || fresh(a.data))
      invariant Holds(a.Slots(), files + LinkPaths(links, i)) && a.removed == 0
    {
      ghost var items := files + LinkPaths(links, i);
      assert files + LinkPaths(links, i + 1) == items + [links[i].path];
      AddPath(a, links[i].path);
      i := i + 1;
    }
  }

  method AddOldPaths(p: Package) returns (a: CArray<Path>)
    ensures fresh(a) && fresh(a.data) && Holds(a.Slots(), Paths(p))
  {
    a := new CArray();
    AddFiles(a, p.files);
    AddLinks(a, p.links, FilePaths(p.files, |p.files|));
  }

  method RemoveFile(a: CArray<Path>, files: seq<FileEntry>, i: nat, ghost was: seq<Path>)
    requires i < |files| && Lacks(a.Slots(), was, FilePaths(files, i))
    modifies a, a.data
    ensures Lacks(a.Slots(), was, FilePaths(files, i + 1))
    ensures a.data == old(a.data)
  {
    if |files[i].path.text| > 0 {
      RemovePath(a, files[i].path, was, FilePaths(files, i));
    } else {
      assert FilePaths(files, i + 1) == FilePaths(files, i);
    }
  }

  method RemoveNewFiles(a: CArray<Path>, files: seq<FileEntry>)
    requires WellFormed(a.Slots())
    modifies a, a.data
    ensures Lacks(a.Slots(), old(List(a.Slots())), FilePaths(files, |files|))
    ensures a.data == old(a.data)
  {
    ghost var was := List(a.Slots());
    var i := 0;
    while i < |files|
      invariant 0 <= i <= |files| && a.data == old(a.data)
      invariant Lacks(a.Slots(), was, FilePaths(files, i))
    {
      RemoveFile(a, files, i, was);
      i := i + 1;
    }
  }

  method RemoveNewLinks(a: CArray<Path>, links: seq<LinkEntry>, ghost was: seq<Path>, ghost files: seq<Path>)
    requires Lacks(a.Slots(), was, files)
    modifies a, a.data
    ensures Lacks(a.Slots(), was, files + LinkPaths(links, |links|))
    ensures a.data == old(a.data)
  {
    assert files + LinkPaths(links, 0) == files;
    var i := 0;
    while i < |links|
      invariant 0 <= i <= |links| && a.data == old(a.data)
      invariant Lacks(a.Slots(), was, files + LinkPaths(links, i))
    {
      ghost var items := files + LinkPaths(links, i);
      assert files + LinkPaths(links, i + 1) == items + [links[i].path];
      RemovePath(a, links[i].path, was, items);
      i := i + 1;
    }
  }

  /** `calculate_leftover_single`. */
  method CalculateLeftoverSingle(db: map<Name, Package>, repo: map<Name, Package>, name: Name)
    returns (files: seq<Path>)
    ensures files == LeftoverOf(db, repo, name)
  {
    if name in db && name in repo {
      var a := AddOldPaths(db[name]);
      RemoveNewFiles(a, repo[name].files);
      RemoveNewLinks(a, repo[name].links, Paths(db[name]), FilePaths(repo[name].files, |repo[name].files|));
      files := a.Get();
    } else {
      files := [];
    }
  }

  function Numbers(n: nat): (r: set<nat>)
    ensures forall i: nat :: i in r <==> i < n
  {
    if n == 0 then {} else Numbers(n - 1) + {n - 1}
  }

  /** The jobs, one for each package, write their results in whatever order they finish. */
  method RunLeftoverJobs(db: map<Name, Package>, repo: map<Name, Package>, pkgs: seq<Name>)
    returns (lists: array<seq<Path>>)
    ensures fresh(lists) && lists[..] == LeftoverLists(db, repo, pkgs)
  {
    lists := new seq<Path>[|pkgs|](_ => []);
    var running := Numbers(|pkgs|);
    while running != {}
      invariant lists.Length == |pkgs| && forall i :: i in running ==> i < |pkgs|
      invariant forall i :: 0 <= i < |pkgs| && i !in running ==> lists[i] == LeftoverOf(db, repo, pkgs[i])
      decreases running
    {
      var i :| i in running;
      var files := CalculateLeftoverSingle(db, repo, pkgs[i]);
      lists[i] := files;
      running := running - {i};
    }
  }

  /** `calculate_leftover`: the results of all jobs put together, in the order of the packages. */
  method CalculateLeftover(db: map<Name, Package>, repo: map<Name, Package>, pkgs: seq<Name>) returns (files: seq<Path>)
    ensures files == AllLeftovers(db, repo, pkgs)
  {
    var lists := RunLeftoverJobs(db, repo, pkgs);
    files := PutTogether(lists[..]);
  }
}
