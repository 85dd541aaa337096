/** The program: `install` and `remove` step by step, over the package database and the file system. */
module PackageManager {
  import opened Wrappers
  import opened Catalogue
  import opened Resolver
  import opened Transaction
  import opened Promises
  import DependencyEngine
  import Leftovers
  import Q = Quarantine

  class System {
    const w: Site
    var db: map<Name, Package>
    var fs: map<Path, Node>

    function Now(): Disk
      reads this
    {
      Disk(db, fs)
    }

    constructor (w: Site, d: Disk)
      ensures this.w == w && Now() == d
    {
      this.w := w;
      db, fs := d.db, d.fs;
    }

    method GetUpgradable(e: Env) returns (r: seq<Name>)
      ensures r == Upgradable(db, e, |e.listing|)
    {
      r := [];
      for i := 0 to |e.listing|
        invariant r == Upgradable(db, e, i)
      {
        var x := e.listing[i];
        if x in e.repo && x in db && db[x].release < e.repo[x].release {
          r := r + [x];
        }
      }
    }

    /** The first part of `install_main`. */
    method PackagesToInstall(r: Request) returns (pkgs: Option<seq<Name>>)
      requires r.Install?
      ensures pkgs == ToInstall(Now(), r)
    {
      var c := CatalogOf(Now(), r.env, r.reinstall);
      var need := DependencyEngine.ResolveDependencies(c, r.args);
      if need.None? || !r.upgrade {
        return need;
      }
      var up := GetUpgradable(r.env);
      var more := DependencyEngine.ResolveDependencies(c, up);
      if more.None? {
        return None;
      }
      return Some(need.value + more.value);
    }

    /** The archives are unpacked into the quarantine. */
    method Extract(repo: map<Name, Package>, order: seq<Name>) returns (rootfs: map<Path, Node>)
      requires Offered(repo, order)
      ensures rootfs == Rootfs(repo, order, |order|)
    {
      rootfs := map[];
      for i := 0 to |order|
        invariant rootfs == Rootfs(repo, order, i)
      {
        rootfs := rootfs + repo[order[i]].payload;
      }
    }

    method MoveFiles(rootfs: map<Path, Node>)
      modifies this
      ensures db == old(db) && fs == old(fs) + rootfs
    {
      var found := rootfs.Keys;
      while found != {}
        invariant found <= rootfs.Keys && db == old(db) && fs.Keys == old(fs).Keys + (rootfs.Keys - found)
        invariant forall p :: p in fs ==> fs[p] == if p in rootfs && p !in found then rootfs[p] else old(fs)[p]
        decreases |found|
      {
        var p :| p in found;
        fs := fs[p := rootfs[p]];
        found := found - {p};
      }
    }

    method ReplaceEntries(repo: map<Name, Package>, order: seq<Name>)
      requires Offered(repo, order)
      modifies this
      ensures db == Updated(old(db), repo, order, |order|) && fs == old(fs)
    {
      for i := 0 to |order|
        invariant db == Updated(old(db), repo, order, i) && fs == old(fs)
      {
        db := db[order[i] := repo[order[i]]];
      }
    }

    /** `quarantine_install`. */
    method QuarantineInstall(repo: map<Name, Package>, order: seq<Name>, rootfs: map<Path, Node>)
      requires Offered(repo, order)
      modifies this
      ensures db == Updated(old(db), repo, order, |order|) && fs == old(fs) + rootfs
    {
      MoveFiles(rootfs);
      ReplaceEntries(repo, order);
    }

    method RemoveFile(path: Path)
      modifies this
      ensures db == old(db) && fs == map p | p in old(fs) && p != path :: old(fs)[p]
    {
      fs := map p | p in fs && p != path :: fs[p];
    }

    method ClearLeftovers(gone: seq<Path>)
      modifies this
      ensures db == old(db) && fs == Without(old(fs), gone)
    {
      for i := 0 to |gone|
        invariant db == old(db) && fs == Without(old(fs), gone[..i])
      {
        RemoveFile(gone[i]);
        assert gone[..i + 1] == gone[..i] + [gone[i]];
      }
      assert gone[..|gone|] == gone;
    }

    /** The rest of `install_main`: unpacking, validation, and the commit. */
    method Commit(r: Request, pkgs: seq<Name>)
      requires r.Install? && Offered(r.env.repo, pkgs) && IsOrderOf(r.order, pkgs)
      modifies this
      ensures Now() == if Validated(w, r.env.repo, r.order, r.schedule)
                       then Committed(old(Now()), r.env.repo, pkgs, r.order) else old(Now())
    {
      var rootfs := Extract(r.env.repo, r.order);
      var leftovers := Leftovers.CalculateLeftover(db, r.env.repo, pkgs);
      var jobs := Q.Run(SceneOf(w, rootfs), Q.Start(Jobs(r.env.repo, r.order)), r.schedule, |r.schedule|);
      if Q.Passed(jobs) {
        QuarantineInstall(r.env.repo, r.order, rootfs);
        ClearLeftovers(leftovers);
      }
    }

    /** `install_main`. */
    method InstallMain(r: Request)
      requires r.Install?
      modifies this
      ensures Now() == Apply(w, old(Now()), r)
      ensures var c := Offers(old(Now()), r);
              Uncut(c, Universe(c, r.args)) ==> InstallIsDone(w, old(Now()), r, Now())
    {
      InstallPromise(w, Now(), r);
      var pkgs := PackagesToInstall(r);
      if pkgs.None? || r.obstacle || !Offered(r.env.repo, pkgs.value) || !IsOrderOf(r.order, pkgs.value) {
        return;
      }
      Commit(r, pkgs.value);
    }

    method RemoveLinks(p: Package)
      modifies this
      ensures db == old(db) && fs == map x | x in old(fs) && !ErasedLink(p, x) :: old(fs)[x]
    {
      for i := 0 to |p.links|
        invariant db == old(db)
        invariant fs == map x | x in old(fs) && !ErasedLink(p.(links := p.links[..i]), x) :: old(fs)[x]
      {
        if LinkLine(p.links[i]) > 3 {
          RemoveFile(p.links[i].path);
        }
      }
      assert p.links[..|p.links|] == p.links;
    }

    method RemoveFiles(p: Package)
      modifies this
      ensures db == old(db) && fs == Without(old(fs), Leftovers.FilePaths(p.files, |p.files|))
    {
      for i := 0 to |p.files|
        invariant db == old(db) && fs == Without(old(fs), Leftovers.FilePaths(p.files, i))
      {
        if |p.files[i].path.text| > 0 {
          RemoveFile(p.files[i].path);
        }
      }
    }

    /** `remove_single`. */
    method RemoveSingle(x: Name)
      requires x in db
      modifies this
      ensures Now() == Gone(old(Now()), x)
      ensures db == old(db) - {x}
      ensures forall path :: path in fs <==> path in old(fs) && !Erases(old(db)[x], path)
    {
      forall path ensures Erases(db[x], path) <==> Erased(db[x], path) {
        ErasesIs(db[x], path);
      }
      RemoveLinks(db[x]);
      RemoveFiles(db[x]);
      db := db - {x};
    }

    method RemoveAll(pkgs: seq<Name>)
      modifies this
      ensures Now() == GoneAll(old(Now()), pkgs, |pkgs|)
    {
      for i := 0 to |pkgs|
        invariant Now() == GoneAll(old(Now()), pkgs, i)
      {
        if pkgs[i] in db {
          RemoveSingle(pkgs[i]);
        }
      }
    }

    /** The first part of `remove_main`. */
    method PackagesToRemove(r: Request) returns (pkgs: Option<seq<Name>>)
      requires r.Remove?
      ensures pkgs == ToRemove(Now(), r)
    {
      pkgs := DependencyEngine.ResolveReverseDependencies(CatalogOf(Now(), r.env, false), r.args);
      if pkgs.Some? && YMP in pkgs.value {
        return None;
      }
    }

    /** `remove_main`. */
    method RemoveMain(r: Request)
      requires r.Remove?
      modifies this
      ensures Now() == Apply(w, old(Now()), r)
      ensures var c := Holds(old(Now()), r);
              Uncut(c, Universe(c, r.args)) && ListsInstalled(c) ==> RemoveIsDone(old(Now()), r, Now())
    {
      RemovePromise(w, Now(), r);
      var pkgs := PackagesToRemove(r);
      if pkgs.Some? {
        RemoveAll(pkgs.value);
      }
    }
  }
}
