/** The resolver as the program runs it: global arrays that recursive loops update in place, proved to
    compute the searches of module Resolver. */
module DependencyEngine {
  import opened Wrappers
  import opened Catalogue
  import opened Resolver
  import opened TombstoneArray
  import opened ArrayRefinement

  /** The log an add-only array stands for. */
  function LogOf(list: seq<Name>): Log {
    if list == [] then Nothing else Then(LogOf(list[..|list| - 1]), list[|list| - 1])
  }

  lemma {:induction false} LogValues(list: seq<Name>, name: Name)
    ensures name in Values(LogOf(list)) <==> name in list
  {
    if list != [] {
      LogValues(list[..|list| - 1], name);
      assert list == list[..|list| - 1] + [list[|list| - 1]];
    }
  }

  /** `array_has` on an add-only array is what the searches take it for. */
  lemma HasIsSeen(s: State<Name>, name: Name)
    requires WellFormed(s) && Dense(s)
    ensures Sees(s, name) <==> name in SeenIn(LogOf(List(s)))
    ensures Sees(s, name) <==> Seen(List(s), name)
  {
    var list := List(s);
    HasMissesLast(s, name);
    if list != [] {
      var front := list[..|list| - 1];
      LogValues(front, name);
      assert Seen(list, name) <==> name in front;
    }
  }

  class Engine {
    const c: Catalog
    var needInstall: CArray<Name>
    var cacheList: CArray<Name>
    var errors: set<Name>
    var depth: nat

    ghost predicate Valid()
      reads this, needInstall, needInstall.data, cacheList, cacheList.data
    {
      && needInstall != cacheList && needInstall.data != cacheList.data
      && WellFormed(needInstall.Slots()) && Dense(needInstall.Slots())
      && WellFormed(cacheList.Slots()) && Dense(cacheList.Slots())
    }

    ghost function Globals(): Search
      reads this, needInstall, needInstall.data, cacheList, cacheList.data
    {
      Search(LogOf(List(cacheList.Slots())), List(needInstall.Slots()), errors)
    }

    constructor (c: Catalog)
      ensures Valid() && this.c == c && depth == 0
      ensures Globals() == START
      ensures fresh(needInstall) && fresh(needInstall.data) && fresh(cacheList) && fresh(cacheList.data)
    {
      this.c := c;
      errors, depth := {}, 0;
      needInstall := new CArray();
      cacheList := new CArray();
    }

    twostate predicate Kept()
      reads this, needInstall, cacheList
    {
      && needInstall == old(needInstall) && cacheList == old(cacheList) && depth == old(depth)
      && (needInstall.data == old(needInstall.data) || fresh(needInstall.data))
      && (cacheList.data == old(cacheList.data) || fresh(cacheList.data))
    }

    method AddVisited(name: Name)
      requires Valid()
      modifies cacheList, cacheList.data
      ensures Valid() && Kept() && errors == old(errors)
      ensures Globals() == Visiting(old(Globals()), name)
    {
      AddAppends(cacheList.Slots(), name);
      cacheList.Add(name);
    }

    method AddNeeded(name: Name)
      requires Valid()
      modifies needInstall, needInstall.data
      ensures Valid() && Kept() && errors == old(errors)
      ensures Globals() == Needing(old(Globals()), name)
    {
      AddAppends(needInstall.Slots(), name);
      needInstall.Add(name);
    }

    method WasVisited(name: Name) returns (r: bool)
      requires Valid()
      ensures r == (name in SeenIn(Globals().cache))
    {
      HasIsSeen(cacheList.Slots(), name);
      r := cacheList.Has(name);
    }

    method IsNeeded(name: Name) returns (r: bool)
      requires Valid()
      ensures r == Seen(Globals().need, name)
    {
      HasIsSeen(needInstall.Slots(), name);
      r := needInstall.Has(name);
    }

    /** `resolve_process`. */
    method ResolveProcess(names: seq<Name>, ghost u: set<Name>)
      requires Valid() && Ready(c, Forward, u, Globals()) && AllIn(names, u)
      modifies this, needInstall, needInstall.data, cacheList, cacheList.data
      ensures Valid() && Kept()
      ensures Globals() == Resolve(c, u, old(Globals()), names, 0, depth)
      decreases Room(u, Globals()), 1
    {
      ghost var goal := Resolve(c, u, Globals(), names, 0, depth);
      VisitsBounded(u, Globals().cache);
      var i := 0;
      while i < |names|
        invariant 0 <= i <= |names| && Valid() && Kept()
        invariant Ready(c, Forward, u, Globals()) && Room(u, Globals()) <= old(Room(u, Globals()))
        invariant goal == Resolve(c, u, Globals(), names, i, depth)
      {
        VisitsBounded(u, Globals().cache);
        ProcessName(names[i], u);
        i := i + 1;
      }
    }

    /** The body of its loop. */
    method ProcessName(name: Name, ghost u: set<Name>)
      requires Valid() && Ready(c, Forward, u, Globals()) && name in u
      modifies this, needInstall, needInstall.data, cacheList, cacheList.data
      ensures Valid() && Kept()
      ensures Globals() == Visit(c, u, old(Globals()), name, depth)
      decreases Room(u, Globals()), 0
    {
      var cached := WasVisited(name);
      if !cached {
        ghost var s := Globals();
        VisitFits(u, s.cache, name);
        AddVisited(name);
        ProcessNew(name, u, s);
      }
    }

    /** After the name was entered in the cache. */
    method ProcessNew(name: Name, ghost u: set<Name>, ghost s: Search)
      requires Valid() && Ready(c, Forward, u, s) && name in u && name !in SeenIn(s.cache)
      requires Globals() == Visiting(s, name) && Ready(c, Forward, u, Globals())
      modifies this, needInstall, needInstall.data, cacheList, cacheList.data
      ensures Valid() && Kept()
      ensures Globals() == Visit(c, u, s, name, depth)
      decreases Room(u, Globals()), 3
    {
      if IsGroup(name) {
        ProcessGroup(name, u);
      } else if c.maxDepth >= depth {
        var needed := IsNeeded(name);
        if !needed {
          ProcessPackage(name, u);
        }
      }
    }

    method Fail(name: Name)
      requires Valid()
      modifies this
      ensures Valid() && Kept() && Globals() == Failing(old(Globals()), name)
    {
      errors := errors + {name};
    }

    method ProcessGroup(name: Name, ghost u: set<Name>)
      requires Valid() && Ready(c, Forward, u, Globals()) && name in u && IsGroup(name)
      modifies this, needInstall, needInstall.data, cacheList, cacheList.data
      ensures Valid() && Kept()
      ensures AllIn(Next(c, Forward, name), u)
      ensures Globals() == if name in c.groups then Resolve(c, u, old(Globals()), c.groups[name], 0, depth)
                           else Failing(old(Globals()), name)
      decreases Room(u, Globals()), 2
    {
      MembersIn(c, Forward, u, name);
      if name in c.groups {
        ResolveProcess(c.groups[name], u);
      } else {
        Fail(name);
      }
    }

    method ProcessPackage(name: Name, ghost u: set<Name>)
      requires Valid() && Ready(c, Forward, u, Globals()) && name in u && !IsGroup(name)
      modifies this, needInstall, needInstall.data, cacheList, cacheList.data
      ensures Valid() && Kept()
      ensures AllIn(Next(c, Forward, name), u)
      ensures Globals() == match Choose(c, name)
                           case Satisfied => old(Globals())
                           case Missing => Failing(old(Globals()), name)
                           case Take(pkg) => Needing(Resolve(c, u, old(Globals()), pkg.depends, 0, depth + 1), name)
      decreases Room(u, Globals()), 2
    {
      MembersIn(c, Forward, u, name);
      match Choose(c, name)
      case Satisfied =>
      case Missing =>
        Fail(name);
      case Take(pkg) =>
        depth := depth + 1;
        ResolveProcess(pkg.depends, u);
        depth := depth - 1;
        AddNeeded(name);
    }

    /** `resolve_reverse_process`. */
    method ResolveReverseProcess(names: seq<Name>, ghost u: set<Name>)
      requires Valid() && Ready(c, Reverse, u, Globals()) && AllIn(names, u)
      modifies this, needInstall, needInstall.data, cacheList, cacheList.data
      ensures Valid() && Kept()
      ensures Globals() == ResolveReverse(c, u, old(Globals()), names, 0, depth)
      decreases Room(u, Globals()), 1
    {
      ghost var goal := ResolveReverse(c, u, Globals(), names, 0, depth);
      VisitsBounded(u, Globals().cache);
      var i := 0;
      while i < |names|
        invariant 0 <= i <= |names| && Valid() && Kept()
        invariant Ready(c, Reverse, u, Globals()) && Room(u, Globals()) <= old(Room(u, Globals()))
        invariant goal == ResolveReverse(c, u, Globals(), names, i, depth)
      {
        VisitsBounded(u, Globals().cache);
        ProcessNameReverse(names[i], u);
        i := i + 1;
      }
    }

    /** The body of its loop. */
    method ProcessNameReverse(name: Name, ghost u: set<Name>)
      requires Valid() && Ready(c, Reverse, u, Globals()) && name in u
      modifies this, needInstall, needInstall.data, cacheList, cacheList.data
      ensures Valid() && Kept()
      ensures Globals() == VisitReverse(c, u, old(Globals()), name, depth)
      decreases Room(u, Globals()), 0
    {
      var cached := WasVisited(name);
      if !cached {
        ghost var s := Globals();
        VisitFits(u, s.cache, name);
        AddVisited(name);
        ProcessNewReverse(name, u, s);
      }
    }

    method ProcessNewReverse(name: Name, ghost u: set<Name>, ghost s: Search)
      requires Valid() && Ready(c, Reverse, u, s) && name in u && name !in SeenIn(s.cache)
      requires Globals() == Visiting(s, name) && Ready(c, Reverse, u, Globals())
      modifies this, needInstall, needInstall.data, cacheList, cacheList.data
      ensures Valid() && Kept()
      ensures Globals() == VisitReverse(c, u, s, name, depth)
      decreases Room(u, Globals()), 6
    {
      MembersIn(c, Reverse, u, name);
      if IsGroup(name) {
        ProcessGroupReverse(name, u);
      } else if c.maxDepth >= depth && name in c.installed {
        AddNeeded(name);
        ProcessDependants(name, u);
      }
    }

    method ProcessGroupReverse(name: Name, ghost u: set<Name>)
      requires Valid() && Ready(c, Reverse, u, Globals()) && AllIn(Next(c, Reverse, name), u) && IsGroup(name)
      modifies this, needInstall, needInstall.data, cacheList, cacheList.data
      ensures Valid() && Kept()
      ensures Globals() == if name in c.groups then ResolveReverse(c, u, old(Globals()), c.groups[name], 0, depth)
                           else Failing(old(Globals()), name)
      decreases Room(u, Globals()), 2
    {
      if name in c.groups {
        ResolveReverseProcess(c.groups[name], u);
      } else {
        Fail(name);
      }
    }

    method ResolveOne(pkgname: Name, ghost u: set<Name>)
      requires Valid() && Ready(c, Reverse, u, Globals()) && AllIn([pkgname], u)
      modifies this, needInstall, needInstall.data, cacheList, cacheList.data
      ensures Valid() && Kept()
      ensures Globals() == ResolveReverse(c, u, old(Globals()), [pkgname], 0, depth + 1)
      decreases Room(u, Globals()), 2
    {
      var tmp := [pkgname];
      depth := depth + 1;
      ResolveReverseProcess(tmp, u);
      depth := depth - 1;
    }

    /** One round of the loop over the installed packages. */
    method ProcessDependant(name: Name, j: nat, ghost u: set<Name>, ghost goal: Search, ghost visits: nat)
      requires Valid() && j < |c.listing| && Pending(c, u, Globals(), name, j, depth + 1, goal, visits)
      modifies this, needInstall, needInstall.data, cacheList, cacheList.data
      ensures Valid() && Kept() && Pending(c, u, Globals(), name, j + 1, depth + 1, goal, visits)
      decreases 2 * |u| - visits, 3
    {
      ghost var s := Globals();
      if DependsOn(c, c.listing[j], name) {
        PendingStep(c, u, s, name, j, depth + 1, goal, visits);
        ResolveOne(c.listing[j], u);
        assert Globals() == ResolveReverse(c, u, s, [c.listing[j]], 0, depth + 1);
      } else {
        PendingSkips(c, u, s, name, j, depth + 1, goal, visits);
      }
    }

    /** Its loop. */
    method ProcessPending(name: Name, ghost u: set<Name>, ghost goal: Search, ghost visits: nat)
      requires Valid() && Pending(c, u, Globals(), name, 0, depth + 1, goal, visits)
      modifies this, needInstall, needInstall.data, cacheList, cacheList.data
      ensures Valid() && Kept() && Pending(c, u, Globals(), name, |c.listing|, depth + 1, goal, visits)
      decreases 2 * |u| - visits, 4
    {
      var j := 0;
      while j < |c.listing|
        invariant 0 <= j <= |c.listing| && Valid() && Kept()
        invariant Pending(c, u, Globals(), name, j, depth + 1, goal, visits)
      {
        ProcessDependant(name, j, u, goal, visits);
        j := j + 1;
      }
    }

    /** Dependants are resolved one at a time. */
    method ProcessDependants(name: Name, ghost u: set<Name>)
      requires Valid() && Ready(c, Reverse, u, Globals()) && AllIn(Dependants(c, c.listing, 0, name), u)
      modifies this, needInstall, needInstall.data, cacheList, cacheList.data
      ensures Valid() && Kept()
      ensures Globals() == ResolveReverse(c, u, old(Globals()), Dependants(c, c.listing, 0, name), 0, depth + 1)
      decreases Room(u, Globals()), 5
    {
      ghost var goal := ResolveReverse(c, u, Globals(), Dependants(c, c.listing, 0, name), 0, depth + 1);
      ghost var visits := Count(Globals().cache);
      PendingStarts(c, u, Globals(), name, depth + 1);
      ProcessPending(name, u, goal, visits);
      PendingEnds(c, u, Globals(), name, depth + 1, goal, visits);
    }
  }

  /** What is left to do for `goal` is the dependants of `name` from index `j` of the listing on. */
  ghost predicate Pending(c: Catalog, u: set<Name>, s: Search, name: Name, j: nat, depth: nat, goal: Search,
                          visits: nat)
  {
    && j <= |c.listing|
    && Ready(c, Reverse, u, s) && visits <= Count(s.cache) <= 2 * |u|
    && AllIn(Dependants(c, c.listing, j, name), u)
    && goal == ResolveReverse(c, u, s, Dependants(c, c.listing, j, name), 0, depth)
  }

  lemma PendingStarts(c: Catalog, u: set<Name>, s: Search, name: Name, depth: nat)
    requires Ready(c, Reverse, u, s) && AllIn(Dependants(c, c.listing, 0, name), u)
    ensures Pending(c, u, s, name, 0, depth, ResolveReverse(c, u, s, Dependants(c, c.listing, 0, name), 0, depth),
                    Count(s.cache))
  {
    VisitsBounded(u, s.cache);
  }

  lemma PendingEnds(c: Catalog, u: set<Name>, s: Search, name: Name, depth: nat, goal: Search, visits: nat)
    requires Pending(c, u, s, name, |c.listing|, depth, goal, visits)
    ensures s == goal
  {
  }

  lemma PendingSkips(c: Catalog, u: set<Name>, s: Search, name: Name, j: nat, depth: nat, goal: Search, visits: nat)
    requires j < |c.listing| && !DependsOn(c, c.listing[j], name) && Pending(c, u, s, name, j, depth, goal, visits)
    ensures Pending(c, u, s, name, j + 1, depth, goal, visits)
  {
    assert Dependants(c, c.listing, j, name) == Dependants(c, c.listing, j + 1, name);
  }

  lemma PendingStep(c: Catalog, u: set<Name>, s: Search, name: Name, j: nat, depth: nat, goal: Search, visits: nat)
    requires j < |c.listing| && DependsOn(c, c.listing[j], name) && Pending(c, u, s, name, j, depth, goal, visits)
    ensures AllIn([c.listing[j]], u) && Room(u, s) <= 2 * |u| - visits
    ensures Pending(c, u, ResolveReverse(c, u, s, [c.listing[j]], 0, depth), name, j + 1, depth, goal, visits)
  {
    DependantsStep(c, u, s, name, j, depth);
  }

  /** Resolving a list is resolving its first name and then the rest. */
  lemma OneThenRest(c: Catalog, u: set<Name>, s: Search, first: Name, rest: seq<Name>, depth: nat)
    requires Ready(c, Reverse, u, s) && AllIn([first] + rest, u)
    ensures first in u && AllIn([first], u) && AllIn(rest, u)
    ensures ResolveReverse(c, u, s, [first] + rest, 0, depth)
            == ResolveReverse(c, u, ResolveReverse(c, u, s, [first], 0, depth), rest, 0, depth)
  {
    var all := [first] + rest;
    assert all[0] == first;
    forall k | 0 <= k < |rest| ensures rest[k] in u {
      assert all[k + 1] == rest[k];
    }
    var s1 := VisitReverse(c, u, s, first, depth);
    VisitsBounded(u, s1.cache);
    assert ResolveReverse(c, u, s, [first], 0, depth) == ResolveReverse(c, u, s1, [first], 1, depth) == s1;
    Shift(c, u, s1, first, rest, 0, depth);
  }

  lemma DependantsStep(c: Catalog, u: set<Name>, s: Search, name: Name, j: nat, depth: nat)
    requires Ready(c, Reverse, u, s) && j < |c.listing| && DependsOn(c, c.listing[j], name)
    requires AllIn(Dependants(c, c.listing, j, name), u)
    ensures AllIn([c.listing[j]], u) && AllIn(Dependants(c, c.listing, j + 1, name), u)
    ensures ResolveReverse(c, u, s, Dependants(c, c.listing, j, name), 0, depth)
            == ResolveReverse(c, u, ResolveReverse(c, u, s, [c.listing[j]], 0, depth),
                              Dependants(c, c.listing, j + 1, name), 0, depth)
    ensures Count(ResolveReverse(c, u, s, [c.listing[j]], 0, depth).cache) <= 2 * |u|
  {
    var rest := Dependants(c, c.listing, j + 1, name);
    assert Dependants(c, c.listing, j, name) == [c.listing[j]] + rest;
    OneThenRest(c, u, s, c.listing[j], rest, depth);
    VisitsBounded(u, ResolveReverse(c, u, s, [c.listing[j]], 0, depth).cache);
  }

  lemma {:induction false} Shift(c: Catalog, u: set<Name>, s: Search, first: Name, rest: seq<Name>, i: nat, depth: nat)
    requires Ready(c, Reverse, u, s) && AllIn([first] + rest, u) && AllIn(rest, u) && i <= |rest|
    ensures ResolveReverse(c, u, s, [first] + rest, i + 1, depth) == ResolveReverse(c, u, s, rest, i, depth)
    decreases |rest| - i
  {
    if i < |rest| {
      assert ([first] + rest)[i + 1] == rest[i];
      var s' := VisitReverse(c, u, s, rest[i], depth);
      VisitsBounded(u, s'.cache);
      Shift(c, u, s', first, rest, i + 1, depth);
    }
  }

  /** `resolve_dependencies`: no result when there were errors, which end the program. */
  method ResolveDependencies(c: Catalog, roots: seq<Name>) returns (r: Option<seq<Name>>)
    ensures r == if Dependencies(c, roots).errors == {} then Some(Dependencies(c, roots).need) else None
  {
    StartIsReady(c, Forward, roots);
    var e := new Engine(c);
    e.ResolveProcess(roots, Universe(c, roots));
    if e.errors != {} {
      return None;
    }
    var need := e.needInstall.Get();
    return Some(need);
  }

  /** `resolve_reverse_dependencies`. */
  method ResolveReverseDependencies(c: Catalog, roots: seq<Name>) returns (r: Option<seq<Name>>)
    ensures r == if ReverseDependencies(c, roots).errors == {} then Some(ReverseDependencies(c, roots).need) else None
  {
    StartIsReady(c, Reverse, roots);
    var e := new Engine(c);
    e.ResolveReverseProcess(roots, Universe(c, roots));
    if e.errors != {} {
      return None;
    }
    var need := e.needInstall.Get();
    return Some(need);
  }
}
