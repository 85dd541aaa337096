/** What every sequence of installs and removes keeps: dependencies are met, and the file system agrees with
    the package database. */
module Safety {
  import opened Wrappers
  import opened Catalogue
  import opened Resolver
  import opened Reachability
  import opened Transaction

  // ----- dependencies

  /** Every dependency of every installed package is installed. */
  ghost predicate DependenciesMet(db: map<Name, Package>) {
    forall x, y {:trigger y in db[x].depends} :: x in db && y in db[x].depends ==> y in db
  }

  /** Packages have plain names and depend on plain names. */
  ghost predicate PlainNames(m: map<Name, Package>) {
    && (forall x {:trigger x in m} :: x in m ==> x.Plain?)
    && (forall x, y {:trigger y in m[x].depends} :: x in m && y in m[x].depends ==> y.Plain?)
  }

  /** What is assumed of a run: the listing is that of the database, dependency lists hold plain names, and
      the depth limit is not below twice the number of names. The roots may be groups. */
  ghost predicate Fair(d: Disk, r: Request) {
    var c := CatalogOf(d, r.env, r.Install? && r.reinstall);
    ListsInstalled(c) && PlainNames(r.env.repo) && Uncut(c, Universe(c, r.args))
  }

  ghost predicate FairRuns(w: Site, d: Disk, h: History) {
    h.Fresh? || (FairRuns(w, d, h.earlier) && Fair(After(w, d, h.earlier), h.run))
  }

  lemma {:induction false} UpdatedAt(db: map<Name, Package>, repo: map<Name, Package>, order: seq<Name>, n: nat,
                                     x: Name)
    requires n <= |order| && Offered(repo, order)
    ensures var r := Updated(db, repo, order, n);
            if x in order[..n] then x in repo && x in r && r[x] == repo[x]
            else (x in r <==> x in db) && (x in db ==> r[x] == db[x])
  {
    if n > 0 {
      UpdatedAt(db, repo, order, n - 1, x);
      assert order[..n] == order[..n - 1] + [order[n - 1]];
    }
  }

  /** The entries of an updated database. */
  lemma UpdatedIs(d: Disk, repo: map<Name, Package>, pkgs: seq<Name>, order: seq<Name>, x: Name)
    requires Offered(repo, pkgs) && IsOrderOf(order, pkgs)
    ensures var r := Committed(d, repo, pkgs, order).db;
            if x in pkgs then x in repo && x in r && r[x] == repo[x]
            else (x in r <==> x in d.db) && (x in d.db ==> r[x] == d.db[x])
  {
    UpdatedAt(d.db, repo, order, |order|, x);
    assert order[..|order|] == order;
  }

  /** A run that resolves without errors gives a set closed under missing dependencies. */
  lemma NeedIsClosed(c: Catalog, roots: seq<Name>, x: Name, y: Name)
    requires Uncut(c, Universe(c, roots)) && Dependencies(c, roots).errors == {}
    requires x in Dependencies(c, roots).need && x in c.repo && y in c.repo[x].depends && y.Plain?
    ensures y in Dependencies(c, roots).need || y in c.installed
  {
    DependenciesExact(c, roots, x);
    DependenciesExact(c, roots, y);
    assert y in Next(c, Forward, x);
    ReachedIsClosed(c, Forward, roots, x, y);
  }

  lemma UpgradableIsListed(db: map<Name, Package>, e: Env, n: nat)
    requires n <= |e.listing|
    ensures forall x :: x in Upgradable(db, e, n) ==> x in db
  {
  }

  lemma UpgradableUncut(c: Catalog, roots: seq<Name>, up: seq<Name>)
    requires Uncut(c, Universe(c, roots)) && forall x :: x in up ==> x in c.installed
    ensures Uncut(c, Universe(c, up))
  {
    SubsetSize(Universe(c, up), Universe(c, roots));
  }

  /** So what an install adds brings its dependencies along. */
  lemma ToInstallIsClosed(d: Disk, r: Request, pkgs: seq<Name>, x: Name, y: Name)
    requires r.Install? && Fair(d, r) && ToInstall(d, r) == Some(pkgs)
    requires x in pkgs && x in r.env.repo && y in r.env.repo[x].depends
    ensures y in pkgs || y in d.db
  {
    var c := CatalogOf(d, r.env, r.reinstall);
    var need := Dependencies(c, r.args).need;
    var up := Upgradable(d.db, r.env, |r.env.listing|);
    assert y.Plain?;
    if x in need {
      NeedIsClosed(c, r.args, x, y);
    } else {
      UpgradableIsListed(d.db, r.env, |r.env.listing|);
      UpgradableUncut(c, r.args, up);
      NeedIsClosed(c, up, x, y);
    }
  }

  ghost predicate Sound(db: map<Name, Package>) {
    DependenciesMet(db) && PlainNames(db)
  }

  /** `pkgs` brings along what is not installed. */
  ghost predicate BringsAlong(db: map<Name, Package>, repo: map<Name, Package>, pkgs: seq<Name>) {
    forall x, y {:trigger y in repo[x].depends} ::
      x in pkgs && x in repo && y in repo[x].depends ==> y in pkgs || y in db
  }

  lemma CommitMeets(d: Disk, repo: map<Name, Package>, pkgs: seq<Name>, order: seq<Name>)
    requires Sound(d.db) && PlainNames(repo) && Offered(repo, pkgs) && IsOrderOf(order, pkgs)
    requires BringsAlong(d.db, repo, pkgs)
    ensures Sound(Committed(d, repo, pkgs, order).db)
  {
    var db := Committed(d, repo, pkgs, order).db;
    forall x | x in db ensures x.Plain? {
      UpdatedIs(d, repo, pkgs, order, x);
    }
    forall x, y | x in db && y in db[x].depends ensures y in db && y.Plain? {
      UpdatedIs(d, repo, pkgs, order, x);
      UpdatedIs(d, repo, pkgs, order, y);
    }
  }

  lemma InstallMeets(w: Site, d: Disk, r: Request)
    requires r.Install? && Fair(d, r) && Sound(d.db)
    ensures Sound(Apply(w, d, r).db)
  {
    if ToInstall(d, r).Some? && Commits(w, r, ToInstall(d, r).value) {
      var pkgs := ToInstall(d, r).value;
      forall x, y | x in pkgs && x in r.env.repo && y in r.env.repo[x].depends ensures y in pkgs || y in d.db {
        ToInstallIsClosed(d, r, pkgs, x, y);
      }
      CommitMeets(d, r.env.repo, pkgs, r.order);
    }
  }

  lemma {:induction false} GoneAllDb(d: Disk, pkgs: seq<Name>, n: nat, x: Name)
    requires n <= |pkgs|
    ensures var r := GoneAll(d, pkgs, n).db;
            (x in r <==> x in d.db && x !in pkgs[..n]) && (x in r ==> r[x] == d.db[x])
  {
    if n > 0 {
      GoneAllDb(d, pkgs, n - 1, x);
      assert pkgs[..n] == pkgs[..n - 1] + [pkgs[n - 1]];
    }
  }

  lemma GoneIs(d: Disk, pkgs: seq<Name>, x: Name)
    ensures var r := GoneAll(d, pkgs, |pkgs|).db;
            (x in r <==> x in d.db && x !in pkgs) && (x in r ==> r[x] == d.db[x])
  {
    GoneAllDb(d, pkgs, |pkgs|, x);
    assert pkgs[..|pkgs|] == pkgs;
  }

  /** `pkgs` takes along what depends on it. */
  ghost predicate TakesAlong(db: map<Name, Package>, pkgs: seq<Name>) {
    forall x, y {:trigger y in db[x].depends} :: x in db && y in db[x].depends && y in pkgs ==> x in pkgs
  }

  lemma GoneMeets(d: Disk, pkgs: seq<Name>)
    requires Sound(d.db) && TakesAlong(d.db, pkgs)
    ensures Sound(GoneAll(d, pkgs, |pkgs|).db)
  {
    var db := GoneAll(d, pkgs, |pkgs|).db;
    forall x | x in db ensures x.Plain? {
      GoneIs(d, pkgs, x);
    }
    forall x, y | x in db && y in db[x].depends ensures y in db && y.Plain? {
      GoneIs(d, pkgs, x);
      GoneIs(d, pkgs, y);
    }
  }

  lemma ToRemoveTakesAlong(d: Disk, r: Request, x: Name, y: Name)
    requires r.Remove? && Fair(d, r) && PlainNames(d.db) && ToRemove(d, r).Some?
    requires DependsOn(CatalogOf(d, r.env, false), x, y) && y in ToRemove(d, r).value
    ensures x in ToRemove(d, r).value
  {
    RemovalSetIsClosed(CatalogOf(d, r.env, false), r.args, y, x);
  }

  lemma RemoveMeets(w: Site, d: Disk, r: Request)
    requires r.Remove? && Fair(d, r) && Sound(d.db)
    ensures Sound(Apply(w, d, r).db)
  {
    if ToRemove(d, r).Some? {
      var pkgs := ToRemove(d, r).value;
      forall x, y | x in d.db && y in d.db[x].depends && y in pkgs ensures x in pkgs {
        assert DependsOn(CatalogOf(d, r.env, false), x, y);
        ToRemoveTakesAlong(d, r, x, y);
      }
      GoneMeets(d, pkgs);
    }
  }

  lemma RunMeets(w: Site, d: Disk, r: Request)
    requires Fair(d, r) && Sound(d.db)
    ensures Sound(Apply(w, d, r).db)
  {
    if r.Install? {
      InstallMeets(w, d, r);
    } else {
      RemoveMeets(w, d, r);
    }
  }

  /** Whole-run safety: whatever is installed and removed in whatever order, cycles included, every
      dependency of every installed package is installed. */
  lemma {:induction false} DependenciesStayMet(w: Site, d: Disk, h: History)
    requires FairRuns(w, d, h) && Sound(d.db)
    ensures Sound(After(w, d, h).db)
  {
    if h.Ran? {
      DependenciesStayMet(w, d, h.earlier);
      RunMeets(w, After(w, d, h.earlier), h.run);
    }
  }
}
