/** The two depth-first searches over package names: `resolve_dependencies` gives what to install, in order,
    `resolve_reverse_dependencies` what to remove. Both keep the visited names in an `array`, whose `has`
    does not see the value added last. */
module Resolver {
  import opened Catalogue

  /** An `array` that is only added to and asked with `has`: the adds, latest outermost. */
  datatype Log = Nothing | Then(earlier: Log, name: Name)

  function Values(log: Log): set<Name> {
    match log
    case Nothing => {}
    case Then(earlier, name) => Values(earlier) + {name}
  }

  /** What `has` finds: all values but the one added last (see TombstoneArray.HasMissesLast). */
  function SeenIn(log: Log): set<Name> {
    if log.Nothing? then {} else Values(log.earlier)
  }

  function Count(log: Log): nat {
    if log.Nothing? then 0 else 1 + Count(log.earlier)
  }

  /** The globals of a run: visited names, result, names that could not be resolved. */
  datatype Search = Search(cache: Log, need: seq<Name>, errors: set<Name>)

  const START := Search(Nothing, [], {})

  /** `has` on the result list. */
  predicate Seen(list: seq<Name>, x: Name) {
    exists k :: 0 <= k < |list| - 1 && list[k] == x
  }

  function Visiting(s: Search, name: Name): Search {
    s.(cache := Then(s.cache, name))
  }

  function Failing(s: Search, name: Name): Search {
    s.(errors := s.errors + {name})
  }

  function Needing(s: Search, name: Name): Search {
    s.(need := s.need + [name])
  }

  // ----- termination: a name is visited at most twice

  ghost predicate AllIn(names: seq<Name>, u: set<Name>) {
    forall k :: 0 <= k < |names| ==> names[k] in u
  }

  /** Every name comes from `u` and was not seen when it was added. */
  ghost predicate Fits(u: set<Name>, log: Log) {
    log.Nothing? || (Fits(u, log.earlier) && log.name in u && log.name !in SeenIn(log.earlier))
  }

  /** Every name `has` sees was added at most twice, the last one once more if `has` does not see it. */
  lemma {:induction false} AtMostTwice(u: set<Name>, log: Log)
    requires Fits(u, log)
    ensures Values(log) <= u
    ensures Count(log) <= 2 * |SeenIn(log)| + if log.Then? && log.name !in SeenIn(log) then 1 else 0
  {
    if log.Then? {
      AtMostTwice(u, log.earlier);
      if log.earlier.Then? {
        if log.earlier.name !in SeenIn(log.earlier) {
          assert SeenIn(log) == SeenIn(log.earlier) + {log.earlier.name};
        } else {
          assert SeenIn(log) == SeenIn(log.earlier);
        }
      }
    }
  }

  /** So there are no more visits than twice the number of names. */
  lemma VisitsBounded(u: set<Name>, log: Log)
    requires Fits(u, log)
    ensures Count(log) <= 2 * |u|
  {
    AtMostTwice(u, log);
    if log.Then? {
      SubsetSize(SeenIn(log), u);
      if log.name !in SeenIn(log) {
        SubsetSize(SeenIn(log) + {log.name}, u);
      }
    }
  }

  lemma VisitFits(u: set<Name>, log: Log, name: Name)
    requires Fits(u, log) && name in u && name !in SeenIn(log)
    ensures Fits(u, Then(log, name))
    ensures Count(log) < 2 * |u|
  {
    VisitsBounded(u, Then(log, name));
  }

  lemma SubsetSize(a: set<Name>, b: set<Name>)
    requires a <= b
    ensures |a| <= |b|
  {
    assert b == a + (b - a);
  }

  /** Visits still possible. */
  ghost function Room(u: set<Name>, s: Search): int {
    2 * |u| - Count(s.cache)
  }

  /** What the searches need to terminate. */
  ghost predicate Ready(c: Catalog, dir: Direction, u: set<Name>, s: Search) {
    Closed(c, dir, u) && Fits(u, s.cache)
  }

  ghost predicate Later(s: Search, r: Search) {
    Count(s.cache) <= Count(r.cache) && Values(s.cache) <= Values(r.cache) && s.need <= r.need && s.errors <= r.errors
  }

  // ----- the searches

  /** `resolve_process`, from name `i` on. */
  ghost function Resolve(c: Catalog, u: set<Name>, s: Search, names: seq<Name>, i: nat, depth: nat): (r: Search)
    requires Ready(c, Forward, u, s) && i <= |names| && AllIn(names, u)
    ensures Fits(u, r.cache) && Later(s, r)
    decreases Room(u, s), |names| - i
  {
    if i == |names| then s
    else
      VisitsBounded(u, Visit(c, u, s, names[i], depth).cache);
      Resolve(c, u, Visit(c, u, s, names[i], depth), names, i + 1, depth)
  }

  ghost function Visit(c: Catalog, u: set<Name>, s: Search, name: Name, depth: nat): (r: Search)
    requires Ready(c, Forward, u, s) && name in u
    ensures Fits(u, r.cache) && Later(s, r)
    decreases Room(u, s), 0
  {
    if name in SeenIn(s.cache) then s
    else
      VisitFits(u, s.cache, name);
      var s1 := Visiting(s, name);
      if IsGroup(name) then
        if name in c.groups then MembersIn(c, Forward, u, name); Resolve(c, u, s1, c.groups[name], 0, depth)
        else Failing(s1, name)
      else if c.maxDepth < depth then s1
      else if Seen(s1.need, name) then s1
      else match Choose(c, name)
        case Satisfied => s1
        case Missing => Failing(s1, name)
        case Take(pkg) =>
          MembersIn(c, Forward, u, name);
          Needing(Resolve(c, u, s1, pkg.depends, 0, depth + 1), name)
  }

  /** `resolve_reverse_process`. */
  ghost function ResolveReverse(c: Catalog, u: set<Name>, s: Search, names: seq<Name>, i: nat, depth: nat): (r: Search)
    requires Ready(c, Reverse, u, s) && i <= |names| && AllIn(names, u)
    ensures Fits(u, r.cache) && Later(s, r)
    decreases Room(u, s), |names| - i
  {
    if i == |names| then s
    else
      VisitsBounded(u, VisitReverse(c, u, s, names[i], depth).cache);
      ResolveReverse(c, u, VisitReverse(c, u, s, names[i], depth), names, i + 1, depth)
  }

  ghost function VisitReverse(c: Catalog, u: set<Name>, s: Search, name: Name, depth: nat): (r: Search)
    requires Ready(c, Reverse, u, s) && name in u
    ensures Fits(u, r.cache) && Later(s, r)
    decreases Room(u, s), 0
  {
    if name in SeenIn(s.cache) then s
    else
      VisitFits(u, s.cache, name);
      var s1 := Visiting(s, name);
      if IsGroup(name) then
        if name in c.groups then MembersIn(c, Reverse, u, name); ResolveReverse(c, u, s1, c.groups[name], 0, depth)
        else Failing(s1, name)
      else if c.maxDepth < depth then s1
      else if name !in c.installed then s1
      else
        MembersIn(c, Reverse, u, name);
        ResolveReverse(c, u, Needing(s1, name), Dependants(c, c.listing, 0, name), 0, depth + 1)
  }

  lemma MembersIn(c: Catalog, dir: Direction, u: set<Name>, name: Name)
    requires Closed(c, dir, u) && name in u
    ensures AllIn(Next(c, dir, name), u)
  {
    forall k | 0 <= k < |Next(c, dir, name)| ensures Next(c, dir, name)[k] in u {
      assert Next(c, dir, name)[k] in Succ(c, dir, name);
    }
  }

  ghost function Universe(c: Catalog, roots: seq<Name>): set<Name> {
    AllNames(c) + set x | x in roots
  }

  lemma StartIsReady(c: Catalog, dir: Direction, roots: seq<Name>)
    ensures Ready(c, dir, Universe(c, roots), START) && AllIn(roots, Universe(c, roots))
  {
    NamesAreClosed(c, dir, roots);
  }

  /** `resolve_dependencies`; the run is aborted when there are errors. */
  ghost function Dependencies(c: Catalog, roots: seq<Name>): Search {
    StartIsReady(c, Forward, roots);
    Resolve(c, Universe(c, roots), START, roots, 0, 0)
  }

  /** `resolve_reverse_dependencies`. */
  ghost function ReverseDependencies(c: Catalog, roots: seq<Name>): Search {
    StartIsReady(c, Reverse, roots);
    ResolveReverse(c, Universe(c, roots), START, roots, 0, 0)
  }

  /** The depth limit is out of reach: no run nests deeper than it has visited names. The default limit of
      1000000 suits 500000 names. */
  ghost predicate Uncut(c: Catalog, u: set<Name>) {
    2 * |u| <= c.maxDepth
  }

  // ----- the depth limit

  /** Beyond the limit nothing is added to the result. */
  lemma {:induction false} TooDeep(c: Catalog, u: set<Name>, s: Search, names: seq<Name>, i: nat, depth: nat)
    requires Ready(c, Forward, u, s) && i <= |names| && AllIn(names, u) && c.maxDepth < depth
    ensures Resolve(c, u, s, names, i, depth).need == s.need
    decreases Room(u, s), |names| - i
  {
    if i < |names| {
      var name := names[i];
      VisitsBounded(u, Visit(c, u, s, name, depth).cache);
      if name !in SeenIn(s.cache) && IsGroup(name) && name in c.groups {
        VisitFits(u, s.cache, name);
        MembersIn(c, Forward, u, name);
        TooDeep(c, u, Visiting(s, name), c.groups[name], 0, depth);
      }
      TooDeep(c, u, Visit(c, u, s, name, depth), names, i + 1, depth);
    }
  }

  lemma {:induction false} TooDeepReverse(c: Catalog, u: set<Name>, s: Search, names: seq<Name>, i: nat, depth: nat)
    requires Ready(c, Reverse, u, s) && i <= |names| && AllIn(names, u) && c.maxDepth < depth
    ensures ResolveReverse(c, u, s, names, i, depth).need == s.need
    decreases Room(u, s), |names| - i
  {
    if i < |names| {
      var name := names[i];
      VisitsBounded(u, VisitReverse(c, u, s, name, depth).cache);
      if name !in SeenIn(s.cache) && IsGroup(name) && name in c.groups {
        VisitFits(u, s.cache, name);
        MembersIn(c, Reverse, u, name);
        TooDeepReverse(c, u, Visiting(s, name), c.groups[name], 0, depth);
      }
      TooDeepReverse(c, u, VisitReverse(c, u, s, name, depth), names, i + 1, depth);
    }
  }

  lemma OneRoot(c: Catalog, name: Name)
    ensures var u := Universe(c, [name]);
            name in u && Ready(c, Forward, u, START) && Ready(c, Reverse, u, START)
            && Dependencies(c, [name]) == Visit(c, u, START, name, 0)
            && ReverseDependencies(c, [name]) == VisitReverse(c, u, START, name, 0)
  {
    var u := Universe(c, [name]);
    StartIsReady(c, Forward, [name]);
    StartIsReady(c, Reverse, [name]);
    assert [name][0] in u;
    assert Resolve(c, u, START, [name], 0, 0) == Resolve(c, u, Visit(c, u, START, name, 0), [name], 1, 0);
    assert ResolveReverse(c, u, START, [name], 0, 0)
           == ResolveReverse(c, u, VisitReverse(c, u, START, name, 0), [name], 1, 0);
  }

  lemma LastVisit(c: Catalog, u: set<Name>, name: Name)
    requires Ready(c, Forward, u, START) && name in u && c.maxDepth == 0 && name.Plain?
    ensures Visit(c, u, START, name, 0).need == if Choose(c, name).Take? then [name] else []
  {
    VisitFits(u, START.cache, name);
    if Choose(c, name).Take? {
      MembersIn(c, Forward, u, name);
      TooDeep(c, u, Visiting(START, name), Choose(c, name).pkg.depends, 0, 1);
    }
  }

  // ----- how long the searches are

  /** From one search to a later one, the result grew by no more names than were visited. */
  ghost predicate Paced(s: Search, r: Search) {
    |r.need| + Count(s.cache) <= |s.need| + Count(r.cache)
  }

  lemma {:induction false} ResolvePaced(c: Catalog, u: set<Name>, s: Search, names: seq<Name>, i: nat, depth: nat)
    requires Ready(c, Forward, u, s) && i <= |names| && AllIn(names, u)
    ensures Paced(s, Resolve(c, u, s, names, i, depth))
    decreases Room(u, s), |names| - i
  {
    if i < |names| {
      VisitsBounded(u, Visit(c, u, s, names[i], depth).cache);
      VisitPaced(c, u, s, names[i], depth);
      ResolvePaced(c, u, Visit(c, u, s, names[i], depth), names, i + 1, depth);
    }
  }

  lemma {:induction false} VisitPaced(c: Catalog, u: set<Name>, s: Search, name: Name, depth: nat)
    requires Ready(c, Forward, u, s) && name in u
    ensures Paced(s, Visit(c, u, s, name, depth))
    decreases Room(u, s), 0
  {
    if name !in SeenIn(s.cache) {
      VisitFits(u, s.cache, name);
      MembersIn(c, Forward, u, name);
      var s1 := Visiting(s, name);
      if IsGroup(name) && name in c.groups {
        ResolvePaced(c, u, s1, c.groups[name], 0, depth);
      } else if !IsGroup(name) && Choose(c, name).Take? {
        ResolvePaced(c, u, s1, Choose(c, name).pkg.depends, 0, depth + 1);
      }
    }
  }

  lemma {:induction false} ReversePaced(c: Catalog, u: set<Name>, s: Search, names: seq<Name>, i: nat, depth: nat)
    requires Ready(c, Reverse, u, s) && i <= |names| && AllIn(names, u)
    ensures Paced(s, ResolveReverse(c, u, s, names, i, depth))
    decreases Room(u, s), |names| - i
  {
    if i < |names| {
      VisitsBounded(u, VisitReverse(c, u, s, names[i], depth).cache);
      VisitReversePaced(c, u, s, names[i], depth);
      ReversePaced(c, u, VisitReverse(c, u, s, names[i], depth), names, i + 1, depth);
    }
  }

  lemma {:induction false} VisitReversePaced(c: Catalog, u: set<Name>, s: Search, name: Name, depth: nat)
    requires Ready(c, Reverse, u, s) && name in u
    ensures Paced(s, VisitReverse(c, u, s, name, depth))
    decreases Room(u, s), 0
  {
    if name !in SeenIn(s.cache) {
      VisitFits(u, s.cache, name);
      MembersIn(c, Reverse, u, name);
      var s1 := Visiting(s, name);
      if IsGroup(name) && name in c.groups {
        ReversePaced(c, u, s1, c.groups[name], 0, depth);
      } else if !IsGroup(name) && name in c.installed {
        ReversePaced(c, u, Needing(s1, name), Dependants(c, c.listing, 0, name), 0, depth + 1);
      }
    }
  }

  /** Each search ends after at most two visits a name, and names no more packages than it makes visits. */
  lemma SearchesAreShort(c: Catalog, roots: seq<Name>)
    ensures var s := Dependencies(c, roots); |s.need| <= Count(s.cache) <= 2 * |Universe(c, roots)|
    ensures var s := ReverseDependencies(c, roots); |s.need| <= Count(s.cache) <= 2 * |Universe(c, roots)|
  {
    ResolvePaced(c, Universe(c, roots), START, roots, 0, 0) by {
      StartIsReady(c, Forward, roots);
    }
    ReversePaced(c, Universe(c, roots), START, roots, 0, 0) by {
      StartIsReady(c, Reverse, roots);
    }
    StartIsReady(c, Forward, roots);
    StartIsReady(c, Reverse, roots);
    VisitsBounded(Universe(c, roots), Dependencies(c, roots).cache);
    VisitsBounded(Universe(c, roots), ReverseDependencies(c, roots).cache);
  }
}
