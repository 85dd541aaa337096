/** On an acyclic graph the forward search puts dependencies first. */
module InstallOrder {
  import opened Catalogue
  import opened Resolver
  import opened Reachability

  ghost predicate Occurs(list: seq<Name>, k: nat, y: Name)
    requires k <= |list|
  {
    exists j :: 0 <= j < k && list[j] == y
  }

  /** Everything the `k`-th name needs, directly or not, and that has to be installed stands before it. */
  ghost predicate DepsBefore(c: Catalog, need: seq<Name>, k: nat)
    requires k < |need|
  {
    forall y {:trigger Wanted(c, Forward, y)} ::
      Leads(c, Forward, need[k], y) && Wanted(c, Forward, y) ==> Occurs(need, k, y)
  }

  ghost predicate Ordered(c: Catalog, need: seq<Name>) {
    forall k :: 0 <= k < |need| ==> DepsBefore(c, need, k)
  }

  /** Everything `name` needs that has to be installed is in the list. */
  ghost predicate NeedsIn(c: Catalog, name: Name, need: seq<Name>) {
    forall y {:trigger Wanted(c, Forward, y)} ::
      Leads(c, Forward, name, y) && Wanted(c, Forward, y) ==> y in need
  }

  lemma OrderedAppend(c: Catalog, need: seq<Name>, name: Name)
    requires Ordered(c, need) && NeedsIn(c, name, need)
    ensures Ordered(c, need + [name])
  {
    var r := need + [name];
    forall k | 0 <= k < |r| ensures DepsBefore(c, r, k) {
      forall y | Leads(c, Forward, r[k], y) && Wanted(c, Forward, y) ensures Occurs(r, k, y) {
        if k < |need| {
          assert DepsBefore(c, need, k);
          var j :| 0 <= j < k && need[j] == y;
          assert r[j] == y;
        } else {
          var j :| 0 <= j < |need| && need[j] == y;
          assert r[j] == y;
        }
      }
    }
  }

  /** Every name on the current path leads to `name`. */
  ghost predicate Above(c: Catalog, grey: set<Name>, name: Name) {
    forall g {:trigger g in grey} :: g in grey ==> Leads(c, Forward, g, name)
  }

  ghost predicate AboveAll(c: Catalog, grey: set<Name>, names: seq<Name>) {
    forall k :: 0 <= k < |names| ==> Above(c, grey, names[k])
  }

  /** On an acyclic graph the descendants of `name` are all dealt with once its dependencies are visited. */
  lemma {:induction false} DescendantDone(c: Catalog, s: Search, grey: set<Name>, name: Name, y: Name, p: seq<Name>)
    requires Acyclic(c) && GreyOrBlack(c, Forward, s, grey + {name}) && Above(c, grey, name)
    requires SuccIn(c, Forward, name, Values(s.cache)) && Joins(c, Forward, p, name, y)
    ensures y in Values(s.cache) && y !in grey + {name}
    decreases |p|
  {
    var n := |p| - 1;
    assert Edge(c, Forward, p, n - 1);
    if n > 1 {
      var q := p[..n];
      forall i | 0 <= i < |q| - 1 ensures Edge(c, Forward, q, i) {
        assert Edge(c, Forward, p, i);
      }
      DescendantDone(c, s, grey, name, p[n - 1], q);
      assert Black(c, Forward, s, p[n - 1]);
    }
    assert Leads(c, Forward, name, y);
    if y in grey {
      LeadsOn(c, Forward, name, y, name);
    }
  }

  lemma DescendantsNeeded(c: Catalog, s: Search, grey: set<Name>, name: Name)
    requires Acyclic(c) && GreyOrBlack(c, Forward, s, grey + {name}) && Above(c, grey, name)
    requires SuccIn(c, Forward, name, Values(s.cache))
    ensures NeedsIn(c, name, s.need)
  {
    forall y | Leads(c, Forward, name, y) && Wanted(c, Forward, y) ensures y in s.need {
      var p :| Joins(c, Forward, p, name, y);
      DescendantDone(c, s, grey, name, y, p);
      assert Black(c, Forward, s, y);
    }
  }

  lemma PathGrows(c: Catalog, grey: set<Name>, name: Name)
    requires Above(c, grey, name)
    ensures AboveAll(c, grey + {name}, Next(c, Forward, name))
  {
    var names := Next(c, Forward, name);
    forall k, g | 0 <= k < |names| && g in grey + {name} ensures Leads(c, Forward, g, names[k]) {
      assert names[k] in Succ(c, Forward, name);
      EdgeLeads(c, Forward, name, names[k]);
      if g in grey {
        LeadsOn(c, Forward, g, name, names[k]);
      }
    }
  }

  lemma {:induction false} ResolveOrders(c: Catalog, u: set<Name>, s: Search, names: seq<Name>, i: nat, depth: nat,
                                         grey: set<Name>)
    requires Ready(c, Forward, u, s) && i <= |names| && AllIn(names, u)
    requires Uncut(c, u) && depth <= Count(s.cache) && Explored(c, s, grey)
    requires Acyclic(c) && AboveAll(c, grey, names) && Ordered(c, s.need)
    ensures Ordered(c, Resolve(c, u, s, names, i, depth).need)
    decreases Room(u, s), |names| - i
  {
    if i < |names| {
      VisitsBounded(u, Visit(c, u, s, names[i], depth).cache);
      VisitExplores(c, u, s, names[i], depth, grey);
      VisitOrders(c, u, s, names[i], depth, grey);
      ResolveOrders(c, u, Visit(c, u, s, names[i], depth), names, i + 1, depth, grey);
    }
  }

  lemma {:induction false} VisitOrders(c: Catalog, u: set<Name>, s: Search, name: Name, depth: nat, grey: set<Name>)
    requires Ready(c, Forward, u, s) && name in u
    requires Uncut(c, u) && depth <= Count(s.cache) && Explored(c, s, grey)
    requires Acyclic(c) && Above(c, grey, name) && Ordered(c, s.need)
    ensures Ordered(c, Visit(c, u, s, name, depth).need)
    decreases Room(u, s), 0, 1
  {
    if name !in SeenIn(s.cache) {
      VisitFits(u, s.cache, name);
      MembersIn(c, Forward, u, name);
      ExploredVisit(c, s, grey, name);
      PathGrows(c, grey, name);
      if IsGroup(name) {
        if name in c.groups {
          ResolveOrders(c, u, Visiting(s, name), Next(c, Forward, name), 0, depth, grey + {name});
        }
      } else if Choose(c, name).Take? && !Seen(s.need, name) {
        TakeOrders(c, u, s, name, depth, grey);
      }
    }
  }

  lemma {:induction false} TakeOrders(c: Catalog, u: set<Name>, s: Search, name: Name, depth: nat, grey: set<Name>)
    requires Ready(c, Forward, u, s) && name in u && name !in SeenIn(s.cache)
    requires Uncut(c, u) && depth <= Count(s.cache) && Explored(c, Visiting(s, name), grey + {name})
    requires Acyclic(c) && Above(c, grey, name) && AboveAll(c, grey + {name}, Next(c, Forward, name))
    requires Ordered(c, s.need) && !IsGroup(name) && Choose(c, name).Take? && !Seen(s.need, name)
    ensures Ordered(c, Visit(c, u, s, name, depth).need)
    decreases Room(u, s), 0, 0
  {
    var s1, next := Visiting(s, name), Next(c, Forward, name);
    VisitFits(u, s.cache, name);
    MembersIn(c, Forward, u, name);
    var s2 := Resolve(c, u, s1, next, 0, depth + 1);
    assert Visit(c, u, s, name, depth) == Needing(s2, name);
    ResolveOrders(c, u, s1, next, 0, depth + 1, grey + {name});
    ResolveExplores(c, u, s1, next, 0, depth + 1, grey + {name});
    LastOrdered(c, s2, grey, name);
  }

  /** The name is added when everything it needs is there. */
  lemma LastOrdered(c: Catalog, s: Search, grey: set<Name>, name: Name)
    requires Acyclic(c) && Explored(c, s, grey + {name}) && Above(c, grey, name)
    requires Visited(Next(c, Forward, name), 0, s) && Ordered(c, s.need)
    ensures Ordered(c, Needing(s, name).need)
  {
    AllVisitedMeansSucc(c, Forward, name, Values(s.cache));
    DescendantsNeeded(c, s, grey, name);
    OrderedAppend(c, s.need, name);
  }

  /** Install order: on an acyclic dependency graph, in front of every occurrence of a package in the result
      stands every package it needs, directly or through others or groups, that has to be installed. */
  lemma DependenciesFirst(c: Catalog, roots: seq<Name>)
    requires Uncut(c, Universe(c, roots)) && Acyclic(c)
    ensures Ordered(c, Dependencies(c, roots).need)
  {
    StartIsReady(c, Forward, roots);
    ResolveOrders(c, Universe(c, roots), START, roots, 0, 0, {});
  }

  // ----- names that stand in the result twice

  /** The same name stands twice only side by side, so no name stands there three times. */
  ghost predicate Compact(need: seq<Name>) {
    forall i, j :: 0 <= i < j < |need| && need[i] == need[j] ==> j == i + 1
  }

  /** No name on the current path has joined the result. */
  ghost predicate PathKeptOut(grey: set<Name>, s: Search, r: Search) {
    forall g {:trigger g in r.need} :: g in grey && g in r.need ==> g in s.need
  }

  lemma CompactAppend(need: seq<Name>, name: Name)
    requires Compact(need) && (name in need ==> !Seen(need, name))
    ensures Compact(need + [name])
  {
    var r := need + [name];
    forall i, j | 0 <= i < j < |r| && r[i] == r[j] ensures j == i + 1 {
      assert j == |need| ==> need[i] == name;
    }
  }

  /** A name the path leads to is not on the path. */
  lemma OffThePath(c: Catalog, grey: set<Name>, name: Name)
    requires Acyclic(c) && Above(c, grey, name)
    ensures name !in grey
  {
  }

  lemma {:induction false} AllSeen(c: Catalog, u: set<Name>, s: Search, names: seq<Name>, i: nat, depth: nat)
    requires Ready(c, Forward, u, s) && i <= |names| && AllIn(names, u) && AllIn(names, SeenIn(s.cache))
    ensures Resolve(c, u, s, names, i, depth) == s
    decreases |names| - i
  {
    if i < |names| {
      VisitsBounded(u, s.cache);
      AllSeen(c, u, s, names, i + 1, depth);
    }
  }

  lemma {:induction false} ResolveCompact(c: Catalog, u: set<Name>, s: Search, names: seq<Name>, i: nat, depth: nat,
                                          grey: set<Name>)
    requires Ready(c, Forward, u, s) && i <= |names| && AllIn(names, u)
    requires Uncut(c, u) && depth <= Count(s.cache) && Explored(c, s, grey)
    requires Acyclic(c) && AboveAll(c, grey, names) && Compact(s.need)
    ensures var r := Resolve(c, u, s, names, i, depth); Compact(r.need) && PathKeptOut(grey, s, r)
    decreases Room(u, s), |names| - i
  {
    if i < |names| {
      VisitsBounded(u, Visit(c, u, s, names[i], depth).cache);
      VisitExplores(c, u, s, names[i], depth, grey);
      VisitCompact(c, u, s, names[i], depth, grey);
      ResolveCompact(c, u, Visit(c, u, s, names[i], depth), names, i + 1, depth, grey);
    }
  }

  lemma {:induction false} VisitCompact(c: Catalog, u: set<Name>, s: Search, name: Name, depth: nat, grey: set<Name>)
    requires Ready(c, Forward, u, s) && name in u
    requires Uncut(c, u) && depth <= Count(s.cache) && Explored(c, s, grey)
    requires Acyclic(c) && Above(c, grey, name) && Compact(s.need)
    ensures var r := Visit(c, u, s, name, depth); Compact(r.need) && PathKeptOut(grey, s, r)
    decreases Room(u, s), 0, 1
  {
    if name !in SeenIn(s.cache) {
      VisitFits(u, s.cache, name);
      MembersIn(c, Forward, u, name);
      ExploredVisit(c, s, grey, name);
      PathGrows(c, grey, name);
      if IsGroup(name) {
        if name in c.groups {
          ResolveCompact(c, u, Visiting(s, name), Next(c, Forward, name), 0, depth, grey + {name});
        }
      } else if Choose(c, name).Take? && !Seen(s.need, name) {
        TakeCompact(c, u, s, name, depth, grey);
      }
    }
  }

  /** A name that is taken twice was taken last: its dependencies are all visited, and nothing comes between. */
  lemma {:induction false} TakeCompact(c: Catalog, u: set<Name>, s: Search, name: Name, depth: nat, grey: set<Name>)
    requires Ready(c, Forward, u, s) && name in u && name !in SeenIn(s.cache)
    requires Uncut(c, u) && depth <= Count(s.cache)
    requires Explored(c, s, grey) && Explored(c, Visiting(s, name), grey + {name})
    requires Acyclic(c) && Above(c, grey, name) && AboveAll(c, grey + {name}, Next(c, Forward, name))
    requires Compact(s.need) && !IsGroup(name) && Choose(c, name).Take? && !Seen(s.need, name)
    ensures var r := Visit(c, u, s, name, depth); Compact(r.need) && PathKeptOut(grey, s, r)
    decreases Room(u, s), 0, 0
  {
    var s1, next := Visiting(s, name), Next(c, Forward, name);
    VisitFits(u, s.cache, name);
    MembersIn(c, Forward, u, name);
    var s2 := Resolve(c, u, s1, next, 0, depth + 1);
    assert Visit(c, u, s, name, depth) == Needing(s2, name);
    OffThePath(c, grey, name);
    if name in s.need {
      assert Black(c, Forward, s, name);
      MembersSeen(c, s, name);
      AllSeen(c, u, s1, next, 0, depth + 1);
    } else {
      ResolveCompact(c, u, s1, next, 0, depth + 1, grey + {name});
      assert name in grey + {name};
    }
    CompactAppend(s2.need, name);
  }

  lemma MembersSeen(c: Catalog, s: Search, name: Name)
    requires SuccIn(c, Forward, name, Values(s.cache))
    ensures AllIn(Next(c, Forward, name), SeenIn(Visiting(s, name).cache))
  {
    forall k | 0 <= k < |Next(c, Forward, name)| ensures Next(c, Forward, name)[k] in Values(s.cache) {
      assert Next(c, Forward, name)[k] in Succ(c, Forward, name);
    }
  }

  /** On an acyclic dependency graph no package stands in the result twice, except right behind itself. */
  lemma RepeatsAreAdjacent(c: Catalog, roots: seq<Name>, i: nat, j: nat)
    requires Uncut(c, Universe(c, roots)) && Acyclic(c)
    requires i < j < |Dependencies(c, roots).need|
    requires Dependencies(c, roots).need[i] == Dependencies(c, roots).need[j]
    ensures j == i + 1
  {
    StartIsReady(c, Forward, roots);
    ResolveCompact(c, Universe(c, roots), START, roots, 0, 0, {});
  }
}
