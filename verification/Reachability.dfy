/** What the two searches find: exactly what can be reached from the roots, on any graph. */
module Reachability {
  import opened Catalogue
  import opened Resolver

  // ----- what is visited: soundness

  /** Whatever the search adds lies in every closed set around its roots, and is wanted (or unresolved). */
  ghost predicate Inside(c: Catalog, dir: Direction, v: set<Name>, s: Search) {
    && (forall x :: x in s.need ==> x in v && Wanted(c, dir, x))
    && (forall x :: x in s.errors ==> x in v && Unresolved(c, dir, x))
  }

  lemma InsideNeeded(c: Catalog, dir: Direction, v: set<Name>, s: Search, name: Name)
    requires Inside(c, dir, v, s) && name in v && Wanted(c, dir, name)
    ensures Inside(c, dir, v, Needing(s, name))
  {
  }

  lemma {:induction false} ResolveInside(c: Catalog, u: set<Name>, s: Search, names: seq<Name>, i: nat, depth: nat,
                                         v: set<Name>)
    requires Ready(c, Forward, u, s) && i <= |names| && AllIn(names, u)
    requires Closed(c, Forward, v) && Inside(c, Forward, v, s) && AllIn(names, v)
    ensures Inside(c, Forward, v, Resolve(c, u, s, names, i, depth))
    decreases Room(u, s), |names| - i
  {
    if i < |names| {
      VisitsBounded(u, Visit(c, u, s, names[i], depth).cache);
      VisitInside(c, u, s, names[i], depth, v);
      ResolveInside(c, u, Visit(c, u, s, names[i], depth), names, i + 1, depth, v);
    }
  }

  lemma {:induction false} VisitInside(c: Catalog, u: set<Name>, s: Search, name: Name, depth: nat, v: set<Name>)
    requires Ready(c, Forward, u, s) && name in u
    requires Closed(c, Forward, v) && Inside(c, Forward, v, s) && name in v
    ensures Inside(c, Forward, v, Visit(c, u, s, name, depth))
    decreases Room(u, s), 0
  {
    if name !in SeenIn(s.cache) {
      VisitFits(u, s.cache, name);
      MembersIn(c, Forward, u, name);
      MembersIn(c, Forward, v, name);
      var s1, next := Visiting(s, name), Next(c, Forward, name);
      if IsGroup(name) {
        if name in c.groups {
          ResolveInside(c, u, s1, next, 0, depth, v);
        }
      } else if Choose(c, name).Take? {
        ResolveInside(c, u, s1, next, 0, depth + 1, v);
        InsideNeeded(c, Forward, v, Resolve(c, u, s1, next, 0, depth + 1), name);
      }
    }
  }

  lemma {:induction false} ReverseInside(c: Catalog, u: set<Name>, s: Search, names: seq<Name>, i: nat, depth: nat,
                                         v: set<Name>)
    requires Ready(c, Reverse, u, s) && i <= |names| && AllIn(names, u)
    requires Closed(c, Reverse, v) && Inside(c, Reverse, v, s) && AllIn(names, v)
    ensures Inside(c, Reverse, v, ResolveReverse(c, u, s, names, i, depth))
    decreases Room(u, s), |names| - i
  {
    if i < |names| {
      VisitsBounded(u, VisitReverse(c, u, s, names[i], depth).cache);
      VisitReverseInside(c, u, s, names[i], depth, v);
      ReverseInside(c, u, VisitReverse(c, u, s, names[i], depth), names, i + 1, depth, v);
    }
  }

  lemma {:induction false} VisitReverseInside(c: Catalog, u: set<Name>, s: Search, name: Name, depth: nat, v: set<Name>)
    requires Ready(c, Reverse, u, s) && name in u
    requires Closed(c, Reverse, v) && Inside(c, Reverse, v, s) && name in v
    ensures Inside(c, Reverse, v, VisitReverse(c, u, s, name, depth))
    decreases Room(u, s), 0
  {
    if name !in SeenIn(s.cache) {
      VisitFits(u, s.cache, name);
      MembersIn(c, Reverse, u, name);
      MembersIn(c, Reverse, v, name);
      var s1, next := Visiting(s, name), Next(c, Reverse, name);
      if IsGroup(name) {
        if name in c.groups {
          ReverseInside(c, u, s1, next, 0, depth, v);
        }
      } else if name in c.installed {
        InsideNeeded(c, Reverse, v, s1, name);
        ReverseInside(c, u, Needing(s1, name), next, 0, depth + 1, v);
      }
    }
  }

  // ----- what is visited: completeness

  ghost predicate SuccIn(c: Catalog, dir: Direction, x: Name, v: set<Name>) {
    forall y {:trigger y in Succ(c, dir, x)} :: y in Succ(c, dir, x) ==> y in v
  }

  /** `x` is dealt with: its successors are visited, and it is in the result if it is wanted and among
      the errors if it cannot be resolved. */
  ghost predicate Black(c: Catalog, dir: Direction, s: Search, x: Name) {
    && SuccIn(c, dir, x, Values(s.cache))
    && (Wanted(c, dir, x) ==> x in s.need)
    && (Unresolved(c, dir, x) ==> x in s.errors)
  }

  /** Depth-first invariant: every visited name is on the current path (`grey`) or dealt with. */
  ghost predicate GreyOrBlack(c: Catalog, dir: Direction, s: Search, grey: set<Name>) {
    forall x {:trigger x in Values(s.cache)} :: x in Values(s.cache) ==> x in grey || Black(c, dir, s, x)
  }

  /** The forward search also skips names it finds in the result, so these must have been dealt with, too. */
  ghost predicate Explored(c: Catalog, s: Search, grey: set<Name>) {
    && GreyOrBlack(c, Forward, s, grey)
    && forall x {:trigger x in s.need} :: x in s.need ==> Wanted(c, Forward, x) && Black(c, Forward, s, x)
  }

  lemma BlackLater(c: Catalog, dir: Direction, s: Search, r: Search, grey: set<Name>)
    requires GreyOrBlack(c, dir, s, grey) && Later(s, r) && Values(r.cache) <= Values(s.cache) + grey
    ensures GreyOrBlack(c, dir, r, grey)
  {
  }

  lemma MarkGrey(c: Catalog, dir: Direction, s: Search, grey: set<Name>, name: Name)
    requires GreyOrBlack(c, dir, s, grey)
    ensures GreyOrBlack(c, dir, Visiting(s, name), grey + {name})
  {
  }

  lemma MarkBlack(c: Catalog, dir: Direction, s: Search, grey: set<Name>, name: Name)
    requires GreyOrBlack(c, dir, s, grey + {name}) && Black(c, dir, s, name)
    ensures GreyOrBlack(c, dir, s, grey)
  {
  }

  lemma AddNeed(c: Catalog, dir: Direction, s: Search, grey: set<Name>, name: Name)
    requires GreyOrBlack(c, dir, s, grey)
    ensures GreyOrBlack(c, dir, Needing(s, name), grey) && name in Needing(s, name).need
  {
    assert name == Needing(s, name).need[|s.need|];
    BlackLater(c, dir, s, Needing(s, name), grey);
  }

  lemma AllVisitedMeansSucc(c: Catalog, dir: Direction, name: Name, v: set<Name>)
    requires AllIn(Next(c, dir, name), v)
    ensures SuccIn(c, dir, name, v)
  {
    forall y | y in Succ(c, dir, name) ensures y in v {
      var k :| 0 <= k < |Next(c, dir, name)| && Next(c, dir, name)[k] == y;
    }
  }

  ghost predicate Visited(names: seq<Name>, i: nat, s: Search) {
    forall k :: i <= k < |names| ==> names[k] in Values(s.cache)
  }

  lemma {:induction false} ResolveExplores(c: Catalog, u: set<Name>, s: Search, names: seq<Name>, i: nat, depth: nat,
                                           grey: set<Name>)
    requires Ready(c, Forward, u, s) && i <= |names| && AllIn(names, u)
    requires Uncut(c, u) && depth <= Count(s.cache) && Explored(c, s, grey)
    ensures Explored(c, Resolve(c, u, s, names, i, depth), grey)
    ensures Visited(names, i, Resolve(c, u, s, names, i, depth))
    decreases Room(u, s), |names| - i
  {
    if i < |names| {
      VisitsBounded(u, Visit(c, u, s, names[i], depth).cache);
      VisitExplores(c, u, s, names[i], depth, grey);
      ResolveExplores(c, u, Visit(c, u, s, names[i], depth), names, i + 1, depth, grey);
    }
  }

  lemma ExploredVisit(c: Catalog, s: Search, grey: set<Name>, name: Name)
    requires Explored(c, s, grey)
    ensures Explored(c, Visiting(s, name), grey + {name})
  {
    MarkGrey(c, Forward, s, grey, name);
  }

  /** The end of a forward visit: the dependencies are visited, the name joins the result. */
  lemma ExploredTake(c: Catalog, s: Search, grey: set<Name>, name: Name)
    requires Explored(c, s, grey + {name}) && Visited(Next(c, Forward, name), 0, s) && Wanted(c, Forward, name)
    ensures Explored(c, Needing(s, name), grey)
  {
    AddNeed(c, Forward, s, grey + {name}, name);
    AllVisitedMeansSucc(c, Forward, name, Values(s.cache));
    MarkBlack(c, Forward, Needing(s, name), grey, name);
  }

  lemma ExploredGroup(c: Catalog, s: Search, grey: set<Name>, name: Name)
    requires Explored(c, s, grey + {name}) && Visited(Next(c, Forward, name), 0, s) && IsGroup(name) && name in c.groups
    ensures Explored(c, s, grey)
  {
    AllVisitedMeansSucc(c, Forward, name, Values(s.cache));
  }

  lemma ExploredSkip(c: Catalog, s: Search, grey: set<Name>, name: Name)
    requires Explored(c, s, grey + {name}) && (name in s.need || Choose(c, name).Satisfied?) && !IsGroup(name)
    ensures Explored(c, s, grey)
  {
    assert name !in s.need ==> Next(c, Forward, name) == [];
    MarkBlack(c, Forward, s, grey, name);
  }

  lemma ExploredFail(c: Catalog, s: Search, grey: set<Name>, name: Name)
    requires Explored(c, s, grey + {name}) && Unresolved(c, Forward, name)
    ensures Explored(c, Failing(s, name), grey)
  {
    BlackLater(c, Forward, s, Failing(s, name), grey + {name});
    MarkBlack(c, Forward, Failing(s, name), grey, name);
  }

  lemma {:induction false} VisitExplores(c: Catalog, u: set<Name>, s: Search, name: Name, depth: nat, grey: set<Name>)
    requires Ready(c, Forward, u, s) && name in u
    requires Uncut(c, u) && depth <= Count(s.cache) && Explored(c, s, grey)
    ensures Explored(c, Visit(c, u, s, name, depth), grey)
    ensures name in Values(Visit(c, u, s, name, depth).cache)
    decreases Room(u, s), 0
  {
    if name !in SeenIn(s.cache) {
      VisitFits(u, s.cache, name);
      MembersIn(c, Forward, u, name);
      ExploredVisit(c, s, grey, name);
      var s1, next := Visiting(s, name), Next(c, Forward, name);
      if !IsGroup(name) && Seen(s1.need, name) {
        ExploredSkip(c, s1, grey, name);
      } else if Unresolved(c, Forward, name) {
        ExploredFail(c, s1, grey, name);
      } else if IsGroup(name) {
        ResolveExplores(c, u, s1, next, 0, depth, grey + {name});
        ExploredGroup(c, Resolve(c, u, s1, next, 0, depth), grey, name);
      } else if Choose(c, name).Take? {
        ResolveExplores(c, u, s1, next, 0, depth + 1, grey + {name});
        ExploredTake(c, Resolve(c, u, s1, next, 0, depth + 1), grey, name);
      } else {
        ExploredSkip(c, s1, grey, name);
      }
    }
  }

  lemma {:induction false} ReverseExplores(c: Catalog, u: set<Name>, s: Search, names: seq<Name>, i: nat, depth: nat,
                                           grey: set<Name>)
    requires Ready(c, Reverse, u, s) && i <= |names| && AllIn(names, u)
    requires Uncut(c, u) && depth <= Count(s.cache) && GreyOrBlack(c, Reverse, s, grey)
    ensures GreyOrBlack(c, Reverse, ResolveReverse(c, u, s, names, i, depth), grey)
    ensures Visited(names, i, ResolveReverse(c, u, s, names, i, depth))
    decreases Room(u, s), |names| - i
  {
    if i < |names| {
      VisitsBounded(u, VisitReverse(c, u, s, names[i], depth).cache);
      VisitReverseExplores(c, u, s, names[i], depth, grey);
      ReverseExplores(c, u, VisitReverse(c, u, s, names[i], depth), names, i + 1, depth, grey);
    }
  }

  lemma {:induction false} VisitReverseExplores(c: Catalog, u: set<Name>, s: Search, name: Name, depth: nat,
                                                grey: set<Name>)
    requires Ready(c, Reverse, u, s) && name in u
    requires Uncut(c, u) && depth <= Count(s.cache) && GreyOrBlack(c, Reverse, s, grey)
    ensures GreyOrBlack(c, Reverse, VisitReverse(c, u, s, name, depth), grey)
    ensures name in Values(VisitReverse(c, u, s, name, depth).cache)
    decreases Room(u, s), 0
  {
    if name !in SeenIn(s.cache) {
      VisitFits(u, s.cache, name);
      MembersIn(c, Reverse, u, name);
      MarkGrey(c, Reverse, s, grey, name);
      var s1, next, r := Visiting(s, name), Next(c, Reverse, name), VisitReverse(c, u, s, name, depth);
      if Unresolved(c, Reverse, name) {
        BlackLater(c, Reverse, s1, r, grey + {name});
      } else if IsGroup(name) {
        ReverseExplores(c, u, s1, next, 0, depth, grey + {name});
        AllVisitedMeansSucc(c, Reverse, name, Values(r.cache));
      } else if name in c.installed {
        AddNeed(c, Reverse, s1, grey + {name}, name);
        ReverseExplores(c, u, Needing(s1, name), next, 0, depth + 1, grey + {name});
        AllVisitedMeansSucc(c, Reverse, name, Values(r.cache));
      }
      MarkBlack(c, Reverse, r, grey, name);
    }
  }

  // ----- the two results

  /** The result of `resolve_dependencies`, on any graph, cycles and groups included: exactly the names that
      are reachable from the roots and have to be installed; the run fails exactly when a reachable name
      cannot be resolved. */
  lemma DependenciesExact(c: Catalog, roots: seq<Name>, x: Name)
    requires Uncut(c, Universe(c, roots))
    ensures x in Dependencies(c, roots).need <==> Reached(c, Forward, roots, x) && Wanted(c, Forward, x)
    ensures x in Dependencies(c, roots).errors <==> Reached(c, Forward, roots, x) && Unresolved(c, Forward, x)
  {
    var u, r := Universe(c, roots), Dependencies(c, roots);
    StartIsReady(c, Forward, roots);
    ResolveExplores(c, u, START, roots, 0, 0, {});
    if Reached(c, Forward, roots, x) {
      ReachedIsBlack(c, Forward, roots, r, x);
    }
    var v := ReachedSet(c, Forward, u, roots);
    ReachedSetIsClosed(c, Forward, u, roots);
    ResolveInside(c, u, START, roots, 0, 0, v);
  }

  /** The same for `resolve_reverse_dependencies`: exactly the installed names from which a root is
      reachable along dependencies. */
  lemma ReverseDependenciesExact(c: Catalog, roots: seq<Name>, x: Name)
    requires Uncut(c, Universe(c, roots))
    ensures x in ReverseDependencies(c, roots).need <==> Reached(c, Reverse, roots, x) && Wanted(c, Reverse, x)
    ensures x in ReverseDependencies(c, roots).errors <==> Reached(c, Reverse, roots, x) && Unresolved(c, Reverse, x)
  {
    var u, r := Universe(c, roots), ReverseDependencies(c, roots);
    StartIsReady(c, Reverse, roots);
    ReverseExplores(c, u, START, roots, 0, 0, {});
    if Reached(c, Reverse, roots, x) {
      ReachedIsBlack(c, Reverse, roots, r, x);
    }
    var v := ReachedSet(c, Reverse, u, roots);
    ReachedSetIsClosed(c, Reverse, u, roots);
    ReverseInside(c, u, START, roots, 0, 0, v);
  }

  ghost function ReachedSet(c: Catalog, dir: Direction, u: set<Name>, roots: seq<Name>): set<Name> {
    set x | x in u && Reached(c, dir, roots, x)
  }

  lemma ReachedSetIsClosed(c: Catalog, dir: Direction, u: set<Name>, roots: seq<Name>)
    requires Closed(c, dir, u) && AllIn(roots, u)
    ensures Closed(c, dir, ReachedSet(c, dir, u, roots)) && AllIn(roots, ReachedSet(c, dir, u, roots))
  {
    forall x, y | x in ReachedSet(c, dir, u, roots) && y in Succ(c, dir, x)
      ensures y in ReachedSet(c, dir, u, roots)
    {
      ReachedIsClosed(c, dir, roots, x, y);
    }
  }

  /** When the search is over, no name is grey, so everything reachable has been dealt with. */
  lemma ReachedIsBlack(c: Catalog, dir: Direction, roots: seq<Name>, r: Search, x: Name)
    requires GreyOrBlack(c, dir, r, {}) && Visited(roots, 0, r) && Reached(c, dir, roots, x)
    ensures Black(c, dir, r, x)
  {
    var v := Values(r.cache);
    forall x, y | x in v && y in Succ(c, dir, x) ensures y in v {
      assert Black(c, dir, r, x);
    }
    ReachedStaysIn(c, dir, v, roots, x);
  }

  /** `h` holds the roots and the members of every group or rule it holds. */
  ghost predicate HoldsMentioned(c: Catalog, roots: seq<Name>, h: set<Name>) {
    && (forall k :: 0 <= k < |roots| ==> roots[k] in h)
    && forall x, y {:trigger y in Expansion(c, x)} :: x in h && IsGroup(x) && y in Expansion(c, x) ==> y in h
  }

  /** `v` holds what is installed of `h`, and every installed package that depends on a member. */
  ghost predicate ClosedUnderDependants(c: Catalog, h: set<Name>, v: set<Name>) {
    && (forall x {:trigger x in h} :: x in h && x in c.installed ==> x in v)
    && forall x, y {:trigger DependsOn(c, y, x)} :: x in v && x in c.installed && DependsOn(c, y, x) ==> y in v
  }

  ghost predicate InstalledArePlain(c: Catalog) {
    forall x {:trigger x in c.installed} :: x in c.installed ==> !IsGroup(x)
  }

  lemma ClosureInGraph(c: Catalog, roots: seq<Name>, h: set<Name>, v: set<Name>) returns (w: set<Name>)
    requires InstalledArePlain(c) && HoldsMentioned(c, roots, h) && ClosedUnderDependants(c, h, v)
    ensures Closed(c, Reverse, w) && AllIn(roots, w)
    ensures forall x :: x in w && x in c.installed ==> x in v
  {
    w := h + (v * c.installed.Keys);
    forall x, y | x in w && y in Succ(c, Reverse, x) ensures y in w {
      if !IsGroup(x) {
        assert x in c.installed && DependsOn(c, y, x);
      } else {
        assert x in h && y in Expansion(c, x);
      }
    }
  }

  /** Removal set: the least set that holds what is installed of the roots, the members of groups and rules
      included, and every installed package depending on a member. */
  lemma RemovalSetIsLeast(c: Catalog, roots: seq<Name>, h: set<Name>, v: set<Name>, x: Name)
    requires InstalledArePlain(c) && HoldsMentioned(c, roots, h) && ClosedUnderDependants(c, h, v)
    ensures x in ReverseDependencies(c, roots).need ==> x in v
  {
    var w := ClosureInGraph(c, roots, h, v);
    StartIsReady(c, Reverse, roots);
    ReverseInside(c, Universe(c, roots), START, roots, 0, 0, w);
  }

  /** And it is such a set itself, for all that can be reached from the roots. */
  lemma RemovalSetIsSuch(c: Catalog, roots: seq<Name>) returns (h: set<Name>)
    requires Uncut(c, Universe(c, roots)) && ListsInstalled(c) && InstalledArePlain(c)
    ensures HoldsMentioned(c, roots, h)
    ensures ClosedUnderDependants(c, h, set x | x in ReverseDependencies(c, roots).need)
  {
    var need := ReverseDependencies(c, roots).need;
    StartIsReady(c, Reverse, roots);
    h := ReachedSet(c, Reverse, Universe(c, roots), roots);
    ReachedSetIsClosed(c, Reverse, Universe(c, roots), roots);
    forall x, y | x in h && IsGroup(x) && y in Expansion(c, x) ensures y in h {
      assert y in Succ(c, Reverse, x);
    }
    forall x | x in h && x in c.installed ensures x in need {
      ReverseDependenciesExact(c, roots, x);
    }
    forall x, y | x in need && DependsOn(c, y, x) ensures y in need {
      RemovalSetIsClosed(c, roots, x, y);
    }
  }

  /** The removal set holds the installed roots and is closed under dependants. */
  lemma RemovalSetIsClosed(c: Catalog, roots: seq<Name>, x: Name, y: Name)
    requires Uncut(c, Universe(c, roots)) && ListsInstalled(c) && InstalledArePlain(c)
    ensures x in roots && x in c.installed ==> x in ReverseDependencies(c, roots).need
    ensures x in ReverseDependencies(c, roots).need && DependsOn(c, y, x) ==> y in ReverseDependencies(c, roots).need
  {
    ReverseDependenciesExact(c, roots, x);
    ReverseDependenciesExact(c, roots, y);
    if x in ReverseDependencies(c, roots).need && DependsOn(c, y, x) {
      assert y in Next(c, Reverse, x);
      ReachedIsClosed(c, Reverse, roots, x, y);
    }
  }
}
