/** Packages, what is available and what is installed, and the two dependency graphs over their names. */
module Catalogue {

  /** A name as written in a dependency list or on the command line. The first character tells group names
      (`@`) and regex rules (`!`) from package names. */
  datatype Name = Plain(text: string) | Group(text: string) | Match(text: string)

  datatype Path = Path(text: string)
  datatype Node = File(content: string) | Link(target: string)

  /** A line of a file list (`sha1 path`) and of a link list (`path target`). */
  datatype FileEntry = FileEntry(hash: string, path: Path)
  datatype LinkEntry = LinkEntry(path: Path, target: string)

  /** A package version: its index data, its file and link lists, and the files the archive carries. */
  datatype Package = Package(
    release: int,
    depends: seq<Name>,
    files: seq<FileEntry>,
    links: seq<LinkEntry>,
    payload: map<Path, Node>)

  /** What a resolver run reads: the best version of every available name, the package database with its
      listing order, the expansion of group and regex names, and two settings. */
  datatype Catalog = Catalog(
    repo: map<Name, Package>,
    installed: map<Name, Package>,
    listing: seq<Name>,
    groups: map<Name, seq<Name>>,
    reinstall: bool,
    maxDepth: nat)

  /** The listing of the database directory names every installed package. */
  ghost predicate ListsInstalled(c: Catalog) {
    forall x :: x in c.listing <==> x in c.installed
  }

  predicate IsGroup(name: Name) {
    !name.Plain?
  }

  /** What the forward resolver decides about a plain name. */
  datatype Choice = Satisfied | Missing | Take(pkg: Package)

  function Choose(c: Catalog, name: Name): Choice {
    if name in c.repo then
      if !c.reinstall && name in c.installed && c.repo[name].release <= c.installed[name].release then Satisfied
      else Take(c.repo[name])
    else if name in c.installed then
      if !c.reinstall then Satisfied else Take(c.installed[name])
    else Missing
  }

  /** Forward: from a package to its dependencies. Reverse: from a package to its installed dependants. */
  datatype Direction = Forward | Reverse

  function Expansion(c: Catalog, name: Name): seq<Name> {
    if name in c.groups then c.groups[name] else []
  }

  predicate DependsOn(c: Catalog, x: Name, name: Name) {
    x in c.installed && name in c.installed[x].depends
  }

  /** The members of `list`, from index `i` on, that depend on `name`. */
  function Dependants(c: Catalog, list: seq<Name>, i: nat, name: Name): (r: seq<Name>)
    requires i <= |list|
    ensures forall x :: x in r <==> DependsOn(c, x, name) && exists k :: i <= k < |list| && list[k] == x
    decreases |list| - i
  {
    if i == |list| then []
    else if DependsOn(c, list[i], name) then [list[i]] + Dependants(c, list, i + 1, name)
    else Dependants(c, list, i + 1, name)
  }

  function Next(c: Catalog, dir: Direction, name: Name): seq<Name> {
    if IsGroup(name) then Expansion(c, name)
    else match dir
      case Forward => if Choose(c, name).Take? then Choose(c, name).pkg.depends else []
      case Reverse => if name in c.installed then Dependants(c, c.listing, 0, name) else []
  }

  /** The names a result should hold: those to install, or those to remove. */
  predicate Wanted(c: Catalog, dir: Direction, name: Name) {
    !IsGroup(name) && if dir == Forward then Choose(c, name).Take? else name in c.installed
  }

  /** The names a run gives up on: unknown groups, and when installing, packages nobody offers. */
  predicate Unresolved(c: Catalog, dir: Direction, name: Name) {
    if IsGroup(name) then name !in c.groups else dir == Forward && Choose(c, name).Missing?
  }

  function Succ(c: Catalog, dir: Direction, name: Name): set<Name> {
    set y | y in Next(c, dir, name)
  }

  predicate Edge(c: Catalog, dir: Direction, p: seq<Name>, i: nat)
    requires i + 1 < |p|
  {
    p[i + 1] in Succ(c, dir, p[i])
  }

  /** `p` walks along the edges of the graph. */
  predicate IsPath(c: Catalog, dir: Direction, p: seq<Name>) {
    p != [] && forall i :: 0 <= i < |p| - 1 ==> Edge(c, dir, p, i)
  }

  /** `p` is a path of at least one edge from `x` to `y`. */
  predicate Joins(c: Catalog, dir: Direction, p: seq<Name>, x: Name, y: Name) {
    |p| >= 2 && p[0] == x && p[|p| - 1] == y && IsPath(c, dir, p)
  }

  ghost predicate Leads(c: Catalog, dir: Direction, x: Name, y: Name) {
    exists p :: Joins(c, dir, p, x, y)
  }

  ghost predicate Reached(c: Catalog, dir: Direction, roots: seq<Name>, y: Name) {
    y in roots || exists x :: x in roots && Leads(c, dir, x, y)
  }

  ghost predicate Acyclic(c: Catalog) {
    forall x :: !Leads(c, Forward, x, x)
  }

  /** A set of names no edge leaves. */
  predicate Closed(c: Catalog, dir: Direction, u: set<Name>) {
    forall x, y {:trigger y in Succ(c, dir, x)} :: x in u && y in Succ(c, dir, x) ==> y in u
  }

  /** Every name written anywhere in the catalogue. */
  function AllNames(c: Catalog): set<Name> {
    (set x, y | x in c.repo && y in c.repo[x].depends :: y)
    + (set x, y | x in c.installed && y in c.installed[x].depends :: y)
    + (set x, y | x in c.groups && y in c.groups[x] :: y)
    + c.installed.Keys
  }

  /** So a resolver run only ever meets finitely many names. */
  lemma NamesAreClosed(c: Catalog, dir: Direction, roots: seq<Name>)
    ensures Closed(c, dir, AllNames(c) + set x | x in roots)
  {
    forall x, y | y in Succ(c, dir, x) ensures y in AllNames(c) {
    }
  }

  lemma EdgeLeads(c: Catalog, dir: Direction, x: Name, y: Name)
    requires y in Succ(c, dir, x)
    ensures Leads(c, dir, x, y)
  {
    assert Edge(c, dir, [x, y], 0);
    assert Joins(c, dir, [x, y], x, y);
  }

  lemma LeadsOn(c: Catalog, dir: Direction, x: Name, y: Name, z: Name)
    requires Leads(c, dir, x, y) && Leads(c, dir, y, z)
    ensures Leads(c, dir, x, z)
  {
    var p :| Joins(c, dir, p, x, y);
    var q :| Joins(c, dir, q, y, z);
    var r := p + q[1..];
    forall i | 0 <= i < |r| - 1 ensures Edge(c, dir, r, i) {
      if i < |p| - 1 {
        assert Edge(c, dir, p, i);
      } else {
        assert Edge(c, dir, q, i - |p| + 1);
      }
    }
    assert Joins(c, dir, r, x, z);
  }

  /** Closed sets are closed under whole paths. */
  lemma {:induction false} PathStaysIn(c: Catalog, dir: Direction, u: set<Name>, p: seq<Name>)
    requires Closed(c, dir, u) && IsPath(c, dir, p) && p[0] in u
    ensures p[|p| - 1] in u
    decreases |p|
  {
    if |p| > 1 {
      assert Edge(c, dir, p, 0);
      var tail := p[1..];
      forall i | 0 <= i < |tail| - 1 ensures Edge(c, dir, tail, i) {
        assert Edge(c, dir, p, i + 1);
      }
      PathStaysIn(c, dir, u, tail);
    }
  }

  lemma ReachedStaysIn(c: Catalog, dir: Direction, u: set<Name>, roots: seq<Name>, y: Name)
    requires Closed(c, dir, u) && (forall x :: x in roots ==> x in u) && Reached(c, dir, roots, y)
    ensures y in u
  {
    if y !in roots {
      var x :| x in roots && Leads(c, dir, x, y);
      var p :| Joins(c, dir, p, x, y);
      PathStaysIn(c, dir, u, p);
    }
  }

  /** What is reached is closed. */
  lemma ReachedIsClosed(c: Catalog, dir: Direction, roots: seq<Name>, x: Name, y: Name)
    requires Reached(c, dir, roots, x) && y in Succ(c, dir, x)
    ensures Reached(c, dir, roots, y)
  {
    EdgeLeads(c, dir, x, y);
    if x !in roots {
      var r :| r in roots && Leads(c, dir, r, x);
      LeadsOn(c, dir, r, x, y);
    }
  }
}
