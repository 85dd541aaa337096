/** What a passed validation of the quarantine means, under every interleaving of its jobs. */
module Validation {
  import opened Catalogue
  import opened Quarantine
  import ArrayRefinement
  import T = TombstoneArray

  // ----- soundness

  /** What validation promises about a line. */
  predicate Good(w: Scene, x: Item) {
    var p := PathOf(x);
    && (if x.FileItem? then p in w.rootfs && w.digest(p) == x.file.hash
        else p in w.rootfs && w.rootfs[p] == Link(x.link.target))
    && Unrestricted(w, p, |w.rules|)
  }

  /** None of the first `n` rules forbids the path; empty rules forbid nothing. */
  predicate Unrestricted(w: Scene, p: Path, n: nat)
    requires n <= |w.rules|
  {
    forall k :: 0 <= k < n ==> w.rules[k] == "" || !w.matches(w.rules[k], p)
  }

  /** What a job at place `pc` in a line has found out about it. */
  predicate SoFar(w: Scene, x: Item, pc: Pc) {
    var p := PathOf(x);
    && (pc.Rules? ==> pc.k <= |w.rules| && Unrestricted(w, p, pc.k))
    && (pc.Digest? ==> Unrestricted(w, p, |w.rules|))
    && (if x.FileItem? then pc != Kind && (pc.Rules? || pc.Digest? ==> p in w.rootfs)
        else
          && !pc.Digest?
          && (pc != Check ==> ReadLink(w, p) == x.link.target)
          && (pc.Rules? || pc.CacheAdd? ==> IsLink(w, p))
          && (pc.CacheAdd? ==> Unrestricted(w, p, |w.rules|)))
  }

  ghost predicate JobOk(w: Scene, j: Job) {
    && j.at <= |j.items|
    && (forall i :: 0 <= i < j.at ==> Good(w, j.items[i]))
    && (j.at < |j.items| ==> SoFar(w, j.items[j.at], j.pc))
  }

  /** As long as nothing is reported, everything looked at is good. */
  ghost predicate Inv(w: Scene, s: State) {
    s.conflict == [] && s.broken == [] ==> forall n :: 0 <= n < |s.jobs| ==> JobOk(w, s.jobs[n])
  }

  lemma StepInv(w: Scene, s: State, n: nat)
    requires Inv(w, s) && n < |s.jobs|
    ensures Inv(w, Step(w, s, n))
  {
    var r := Step(w, s, n);
    if r.conflict == [] && r.broken == [] {
      assert s.conflict == [] && s.broken == [];
      assert JobOk(w, s.jobs[n]);
      forall m | 0 <= m < |r.jobs| ensures JobOk(w, r.jobs[m]) {
        assert JobOk(w, s.jobs[m]);
      }
    }
  }

  lemma {:induction false} RunInv(w: Scene, s: State, schedule: seq<nat>, n: nat)
    requires Inv(w, s) && n <= |schedule|
    ensures Inv(w, Run(w, s, schedule, n))
  {
    if n > 0 {
      RunInv(w, s, schedule, n - 1);
      if schedule[n - 1] < |s.jobs| {
        StepInv(w, Run(w, s, schedule, n - 1), schedule[n - 1]);
      }
    }
  }

  lemma {:induction false} ItemsStay(w: Scene, s: State, schedule: seq<nat>, n: nat, j: nat)
    requires n <= |schedule| && j < |s.jobs|
    ensures Run(w, s, schedule, n).jobs[j].items == s.jobs[j].items
  {
    if n > 0 {
      ItemsStay(w, s, schedule, n - 1, j);
    }
  }

  ghost predicate InLists(lists: seq<seq<Item>>, n: nat, i: nat) {
    n < |lists| && i < |lists[n]|
  }

  ghost predicate AllGood(w: Scene, lists: seq<seq<Item>>) {
    forall n: nat, i: nat :: InLists(lists, n, i) ==> Good(w, lists[n][i])
  }

  /** Validation soundness: whatever the interleaving, if validation passes, every listed file exists and has
      its recorded digest, every listed link is a link to its recorded target, and no listed path is restricted. */
  lemma PassedIsGood(w: Scene, lists: seq<seq<Item>>, schedule: seq<nat>)
    requires Passed(Run(w, Start(lists), schedule, |schedule|))
    ensures AllGood(w, lists)
  {
    var s := Run(w, Start(lists), schedule, |schedule|);
    RunInv(w, Start(lists), schedule, |schedule|);
    forall n: nat, i: nat | InLists(lists, n, i) ensures Good(w, lists[n][i]) {
      ItemsStay(w, Start(lists), schedule, |schedule|, n);
      assert JobOk(w, s.jobs[n]);
    }
  }

  // ----- completeness

  /** No path is listed twice, in the same list or in two. */
  ghost predicate DistinctPaths(lists: seq<seq<Item>>) {
    forall n: nat, i: nat, m: nat, k: nat {:trigger InLists(lists, n, i), InLists(lists, m, k)} ::
      InLists(lists, n, i) && InLists(lists, m, k) && PathOf(lists[n][i]) == PathOf(lists[m][k])
      ==> n == m && i == k
  }

  /** The cache holds the path of line `i`. */
  predicate Entered(j: Job, i: nat) {
    && i < |j.items|
    && (i < j.at || (i == j.at && j.items[i].FileItem? && (j.pc.Check? || j.pc.Rules? || j.pc.Digest?)))
  }

  predicate CameFromLine(s: State, p: Path, n: nat, i: nat) {
    n < |s.jobs| && Entered(s.jobs[n], i) && PathOf(s.jobs[n].items[i]) == p
  }

  ghost predicate CameFrom(s: State, p: Path) {
    exists n: nat, i: nat :: CameFromLine(s, p, n, i)
  }

  ghost predicate CacheCameFrom(s: State) {
    forall k :: 0 <= k < |s.cache| ==> CameFrom(s, s.cache[k])
  }

  ghost predicate Clean(lists: seq<seq<Item>>, s: State) {
    && s.conflict == [] && s.broken == [] && |s.jobs| == |lists|
    && (forall n :: 0 <= n < |lists| ==> s.jobs[n].items == lists[n] && s.jobs[n].pc != ConflictAdd)
  }

  /** A step moves one job, and never backwards. */
  lemma StepMovesOne(w: Scene, s: State, n: nat, i: nat)
    requires n < |s.jobs|
    ensures forall m :: 0 <= m < |s.jobs| && m != n ==> Step(w, s, n).jobs[m] == s.jobs[m]
    ensures Step(w, s, n).jobs[n].items == s.jobs[n].items
    ensures Entered(s.jobs[n], i) ==> Entered(Step(w, s, n).jobs[n], i)
  {
  }

  lemma LineStaysEntered(w: Scene, s: State, n: nat, p: Path, m: nat, i: nat)
    requires n < |s.jobs| && CameFromLine(s, p, m, i)
    ensures CameFromLine(Step(w, s, n), p, m, i)
  {
    StepMovesOne(w, s, n, i);
  }

  /** A path that is added to the cache is that of the line being entered. */
  lemma AddedCameFrom(w: Scene, s: State, n: nat, k: nat)
    requires n < |s.jobs| && k < |Step(w, s, n).cache|
    ensures k < |s.cache| ==> Step(w, s, n).cache[k] == s.cache[k]
    ensures k >= |s.cache| ==> CameFromLine(Step(w, s, n), Step(w, s, n).cache[k], n, s.jobs[n].at)
  {
  }

  lemma CacheCameFromLater(w: Scene, s: State, n: nat)
    requires n < |s.jobs| && CacheCameFrom(s)
    ensures CacheCameFrom(Step(w, s, n))
  {
    var r := Step(w, s, n);
    forall k | 0 <= k < |r.cache| ensures CameFrom(r, r.cache[k]) {
      AddedCameFrom(w, s, n, k);
      if k < |s.cache| {
        var m: nat, i: nat :| CameFromLine(s, s.cache[k], m, i);
        LineStaysEntered(w, s, n, s.cache[k], m, i);
      }
    }
  }

  lemma NoConflictSeen(lists: seq<seq<Item>>, s: State, n: nat)
    requires Clean(lists, s) && CacheCameFrom(s) && DistinctPaths(lists)
    requires n < |s.jobs| && s.jobs[n].at < |s.jobs[n].items| && s.jobs[n].pc == CacheHas
    ensures !Has(s.cache, PathOf(s.jobs[n].items[s.jobs[n].at]))
  {
    var j := s.jobs[n];
    var p := PathOf(j.items[j.at]);
    if Has(s.cache, p) {
      var k :| 0 <= k < |s.cache| - 1 && s.cache[k] == p;
      var m: nat, i: nat :| CameFromLine(s, s.cache[k], m, i);
      assert InLists(lists, n, j.at) && InLists(lists, m, i);
      assert false;
    }
  }

  lemma StepClean(w: Scene, lists: seq<seq<Item>>, s: State, n: nat)
    requires Clean(lists, s) && n < |s.jobs|
    requires s.jobs[n].at < |s.jobs[n].items| ==>
               var x := s.jobs[n].items[s.jobs[n].at];
               && Good(w, x) && SoFar(w, x, s.jobs[n].pc)
               && (s.jobs[n].pc == CacheHas ==> !Has(s.cache, PathOf(x)))
    ensures Clean(lists, Step(w, s, n))
  {
  }

  lemma {:induction false} RunClean(w: Scene, lists: seq<seq<Item>>, schedule: seq<nat>, n: nat)
    requires AllGood(w, lists) && DistinctPaths(lists) && n <= |schedule|
    ensures Clean(lists, Run(w, Start(lists), schedule, n)) && CacheCameFrom(Run(w, Start(lists), schedule, n))
  {
    if n > 0 {
      RunClean(w, lists, schedule, n - 1);
      RunInv(w, Start(lists), schedule, n - 1);
      if schedule[n - 1] < |lists| {
        var s, m := Run(w, Start(lists), schedule, n - 1), schedule[n - 1];
        CleanGoesOn(w, lists, s, m);
        CacheCameFromLater(w, s, m);
      }
    }
  }

  lemma CleanGoesOn(w: Scene, lists: seq<seq<Item>>, s: State, n: nat)
    requires AllGood(w, lists) && DistinctPaths(lists) && Inv(w, s)
    requires Clean(lists, s) && CacheCameFrom(s) && n < |s.jobs|
    ensures Clean(lists, Step(w, s, n))
  {
    var j := s.jobs[n];
    if j.at < |j.items| {
      assert JobOk(w, j);
      assert InLists(lists, n, j.at);
      if j.pc == CacheHas {
        NoConflictSeen(lists, s, n);
      }
    }
    StepClean(w, lists, s, n);
  }

  /** Hence, when no path is listed twice, a validation that runs to its end passes exactly when every line
      is good, and the interleaving does not matter. */
  lemma PassedIffGood(w: Scene, lists: seq<seq<Item>>, schedule: seq<nat>)
    requires DistinctPaths(lists) && Finished(Run(w, Start(lists), schedule, |schedule|))
    ensures Passed(Run(w, Start(lists), schedule, |schedule|)) <==> AllGood(w, lists)
  {
    if Passed(Run(w, Start(lists), schedule, |schedule|)) {
      PassedIsGood(w, lists, schedule);
    }
    if AllGood(w, lists) {
      RunClean(w, lists, schedule, |schedule|);
    }
  }

  // ----- conflicts

  /** Job `n` is about to look up a path that the cache holds in front of its last entry. */
  ghost predicate Repeats(s: State, n: nat) {
    && n < |s.jobs| && s.jobs[n].at < |s.jobs[n].items|
    && (s.jobs[n].pc == ConflictAdd
        || (s.jobs[n].pc in {ConflictHas, CacheHas}
            && exists k :: 0 <= k < |s.cache| - 1 && s.cache[k] == PathOf(s.jobs[n].items[s.jobs[n].at])))
  }

  ghost predicate Doomed(s: State) {
    s.conflict != [] || s.broken != [] || exists n: nat :: Repeats(s, n)
  }

  lemma RepeatsOn(w: Scene, s: State, n: nat, m: nat)
    requires Repeats(s, n) && m < |s.jobs|
    ensures var r := Step(w, s, m); r.conflict != [] || r.broken != [] || Repeats(r, n)
  {
    var j, r := s.jobs[n], Step(w, s, m);
    assert |s.cache| <= |r.cache| && forall k :: 0 <= k < |s.cache| ==> r.cache[k] == s.cache[k];
    if j.pc != ConflictAdd {
      var k :| 0 <= k < |s.cache| - 1 && s.cache[k] == PathOf(j.items[j.at]);
      assert r.cache[k] == s.cache[k];
      assert Has(s.cache, PathOf(j.items[j.at]));
    }
  }

  lemma StaysDoomed(w: Scene, s: State, m: nat)
    requires Doomed(s) && m < |s.jobs|
    ensures Doomed(Step(w, s, m))
  {
    if n: nat :| Repeats(s, n) {
      RepeatsOn(w, s, n, m);
    }
  }

  lemma {:induction false} DoomedNeverPasses(w: Scene, s: State, schedule: seq<nat>, t: nat, n: nat)
    requires t <= n <= |schedule| && Doomed(Run(w, s, schedule, t))
    ensures Doomed(Run(w, s, schedule, n)) && !Passed(Run(w, s, schedule, n))
  {
    if t < n {
      DoomedNeverPasses(w, s, schedule, t, n - 1);
      if schedule[n - 1] < |s.jobs| {
        StaysDoomed(w, Run(w, s, schedule, n - 1), schedule[n - 1]);
      }
    }
  }

  ghost predicate Quiet(s: State) {
    s.conflict == [] && s.broken == []
  }

  /** A file is never asked for its kind, a link never for its checksum. */
  predicate Placed(j: Job) {
    j.at < |j.items| ==> if j.items[j.at].FileItem? then j.pc != Kind else j.pc != Digest
  }

  /** As long as nothing is reported, the paths of all lines that were entered are in the cache. */
  ghost predicate EnteredIsCached(s: State) {
    && (forall n :: 0 <= n < |s.jobs| ==> Placed(s.jobs[n]))
    && (Quiet(s) ==>
          forall n: nat, i: nat :: n < |s.jobs| && Entered(s.jobs[n], i) ==> PathOf(s.jobs[n].items[i]) in s.cache)
  }

  lemma StepPlaced(w: Scene, s: State, n: nat)
    requires n < |s.jobs| && Placed(s.jobs[n])
    ensures Placed(Step(w, s, n).jobs[n])
  {
  }

  /** A line that a step enters is put into the cache. */
  lemma NewlyEntered(w: Scene, s: State, n: nat, i: nat)
    requires n < |s.jobs| && Placed(s.jobs[n]) && Quiet(Step(w, s, n))
    requires Entered(Step(w, s, n).jobs[n], i) && !Entered(s.jobs[n], i)
    ensures Step(w, s, n).cache == s.cache + [PathOf(s.jobs[n].items[i])]
  {
  }

  lemma CacheKeeps(w: Scene, s: State, n: nat, p: Path)
    requires n < |s.jobs| && p in s.cache
    ensures p in Step(w, s, n).cache
  {
    var k :| 0 <= k < |s.cache| && s.cache[k] == p;
    assert Step(w, s, n).cache[k] == p;
  }

  lemma StepCaches(w: Scene, s: State, n: nat, m: nat, i: nat)
    requires EnteredIsCached(s) && n < |s.jobs| && m < |s.jobs| && Quiet(Step(w, s, n))
    requires Entered(Step(w, s, n).jobs[m], i)
    ensures PathOf(s.jobs[m].items[i]) in Step(w, s, n).cache
  {
    StepMovesOne(w, s, n, i);
    if Entered(s.jobs[m], i) {
      assert Quiet(s);
      CacheKeeps(w, s, n, PathOf(s.jobs[m].items[i]));
    } else {
      NewlyEntered(w, s, n, i);
      assert PathOf(s.jobs[m].items[i]) == Step(w, s, n).cache[|s.cache|];
    }
  }

  lemma StepCachesAll(w: Scene, s: State, n: nat)
    requires EnteredIsCached(s) && n < |s.jobs|
    ensures EnteredIsCached(Step(w, s, n))
  {
    var r := Step(w, s, n);
    StepMovesOne(w, s, n, 0);
    StepPlaced(w, s, n);
    if Quiet(r) {
      forall k: nat, i: nat | k < |s.jobs| && Entered(r.jobs[k], i) ensures PathOf(r.jobs[k].items[i]) in r.cache {
        StepMovesOne(w, s, n, i);
        StepCaches(w, s, n, k, i);
      }
    }
  }

  lemma {:induction false} RunCaches(w: Scene, lists: seq<seq<Item>>, schedule: seq<nat>, n: nat)
    requires n <= |schedule|
    ensures EnteredIsCached(Run(w, Start(lists), schedule, n))
  {
    if n > 0 {
      RunCaches(w, lists, schedule, n - 1);
      if schedule[n - 1] < |lists| {
        StepCachesAll(w, Run(w, Start(lists), schedule, n - 1), schedule[n - 1]);
      }
    }
  }

  lemma RepeatIs(s: State, n: nat, m: nat, i: nat)
    requires Quiet(s) && EnteredIsCached(s) && n < |s.jobs| && m < |s.jobs|
    requires i < s.jobs[m].at && i < |s.jobs[m].items| && s.jobs[n].at < |s.jobs[n].items|
    requires s.jobs[n].pc == ConflictHas && PathOf(s.jobs[n].items[s.jobs[n].at]) == PathOf(s.jobs[m].items[i])
    requires s.cache != [] ==> s.cache[|s.cache| - 1] != PathOf(s.jobs[m].items[i])
    ensures Repeats(s, n)
  {
    assert Entered(s.jobs[m], i);
  }

  /** Conflicts are caught, under every interleaving: when a job comes to look up a path that some line before it
      has entered, and that is not the last path to have been entered, validation fails, whatever the jobs do from
      then on. */
  lemma ConflictIsCaught(w: Scene, lists: seq<seq<Item>>, schedule: seq<nat>, t: nat, n: nat, m: nat, i: nat)
    requires t <= |schedule| && n < |lists| && m < |lists|
    requires var s := Run(w, Start(lists), schedule, t);
             && i < s.jobs[m].at && i < |s.jobs[m].items| && s.jobs[n].at < |s.jobs[n].items|
             && s.jobs[n].pc == ConflictHas
             && PathOf(s.jobs[n].items[s.jobs[n].at]) == PathOf(s.jobs[m].items[i])
             && (s.cache != [] ==> s.cache[|s.cache| - 1] != PathOf(s.jobs[m].items[i]))
    ensures !Passed(Run(w, Start(lists), schedule, |schedule|))
  {
    var s := Run(w, Start(lists), schedule, t);
    RunCaches(w, lists, schedule, t);
    if Quiet(s) {
      RepeatIs(s, n, m, i);
    }
    DoomedNeverPasses(w, Start(lists), schedule, t, |schedule|);
  }

  // ----- progress

  /** How far a job is from the end of its current line. */
  function Rank(x: Item, pc: Pc, rules: nat): nat {
    match pc
    case Rules(k) => 1 + if k < rules then rules - k else 0
    case Kind => rules + 2
    case Check => if x.FileItem? then rules + 2 else rules + 6
    case CacheAdd => if x.FileItem? then rules + 3 else 0
    case ConflictAdd => rules + 3
    case CacheHas => rules + 4
    case ConflictHas => rules + 5
    case Digest => 0
  }

  /** `lines` whole lines, each with more than the highest rank. */
  function WholeLines(lines: nat, rules: nat): nat {
    if lines == 0 then 0 else WholeLines(lines - 1, rules) + rules + 7
  }

  function Distance(j: Job, rules: nat): nat {
    if j.at >= |j.items| then 0
    else WholeLines(|j.items| - j.at - 1, rules) + Rank(j.items[j.at], j.pc, rules) + 1
  }

  function Remaining(jobs: seq<Job>, n: nat, rules: nat): nat
    requires n <= |jobs|
  {
    if n == 0 then 0 else Remaining(jobs, n - 1, rules) + Distance(jobs[n - 1], rules)
  }

  /** A file is never asked for its kind. */
  predicate RightPlace(j: Job) {
    j.at < |j.items| && j.items[j.at].FileItem? ==> j.pc != Kind
  }

  ghost predicate RightPlaces(s: State) {
    forall n :: 0 <= n < |s.jobs| ==> RightPlace(s.jobs[n])
  }

  lemma NextLineIsNearer(j: Job, rules: nat)
    requires j.at < |j.items|
    ensures Distance(NextLine(j), rules) < Distance(j, rules)
  {
  }

  lemma StepIsNearer(w: Scene, s: State, n: nat)
    requires n < |s.jobs| && s.jobs[n].at < |s.jobs[n].items| && RightPlace(s.jobs[n])
    ensures |Step(w, s, n).jobs| == |s.jobs|
    ensures forall m :: 0 <= m < |s.jobs| && m != n ==> Step(w, s, n).jobs[m] == s.jobs[m]
    ensures RightPlace(Step(w, s, n).jobs[n])
    ensures Distance(Step(w, s, n).jobs[n], |w.rules|) < Distance(s.jobs[n], |w.rules|)
  {
    NextLineIsNearer(s.jobs[n], |w.rules|);
  }

  lemma {:induction false} RemainingFalls(a: seq<Job>, b: seq<Job>, k: nat, n: nat, rules: nat)
    requires k <= |a| == |b| && n < |a| && forall m :: 0 <= m < |a| && m != n ==> a[m] == b[m]
    requires Distance(b[n], rules) < Distance(a[n], rules)
    ensures Remaining(b, k, rules) <= Remaining(a, k, rules)
    ensures n < k ==> Remaining(b, k, rules) < Remaining(a, k, rules)
  {
    if k > 0 {
      RemainingFalls(a, b, k - 1, n, rules);
    }
  }

  /** No job ever waits: every step of one that is not at its end brings the validation closer to the end. */
  lemma StepsMakeProgress(w: Scene, s: State, n: nat)
    requires RightPlaces(s) && n < |s.jobs| && s.jobs[n].at < |s.jobs[n].items|
    ensures var r := Step(w, s, n);
            RightPlaces(r) && Remaining(r.jobs, |r.jobs|, |w.rules|) < Remaining(s.jobs, |s.jobs|, |w.rules|)
  {
    StepIsNearer(w, s, n);
    RemainingFalls(s.jobs, Step(w, s, n).jobs, |s.jobs|, n, |w.rules|);
  }

  lemma {:induction false} RunPrefix(w: Scene, s: State, a: seq<nat>, b: seq<nat>, n: nat)
    requires n <= |a| && n <= |b| && a[..n] == b[..n]
    ensures Run(w, s, a, n) == Run(w, s, b, n)
  {
    if n > 0 {
      assert a[..n][n - 1] == b[..n][n - 1];
      assert a[..n - 1] == a[..n][..n - 1] == b[..n - 1];
      RunPrefix(w, s, a, b, n - 1);
    }
  }

  lemma {:induction false} RunInPlace(w: Scene, lists: seq<seq<Item>>, schedule: seq<nat>, n: nat)
    requires n <= |schedule|
    ensures RightPlaces(Run(w, Start(lists), schedule, n))
  {
    if n > 0 {
      RunInPlace(w, lists, schedule, n - 1);
      var before, m := Run(w, Start(lists), schedule, n - 1), schedule[n - 1];
      if m < |lists| && before.jobs[m].at < |before.jobs[m].items| {
        StepsMakeProgress(w, before, m);
      }
    }
  }

  /** So whatever has happened, the jobs can be carried on until all are at their end: `quarantine_validate`
      returns. */
  lemma {:induction false} ValidationFinishes(w: Scene, lists: seq<seq<Item>>, schedule: seq<nat>)
    returns (longer: seq<nat>)
    ensures schedule <= longer && Finished(Run(w, Start(lists), longer, |longer|))
    decreases var r := Run(w, Start(lists), schedule, |schedule|); Remaining(r.jobs, |r.jobs|, |w.rules|)
  {
    var r := Run(w, Start(lists), schedule, |schedule|);
    if Finished(r) {
      longer := schedule;
    } else {
      var n: nat :| n < |r.jobs| && r.jobs[n].at < |r.jobs[n].items|;
      var more := schedule + [n];
      RunInPlace(w, lists, schedule, |schedule|);
      RunPrefix(w, Start(lists), schedule, more, |schedule|);
      StepsMakeProgress(w, r, n);
      assert Run(w, Start(lists), more, |more|) == Step(w, r, n);
      longer := ValidationFinishes(w, lists, more);
    }
  }

  // ----- the shared arrays

  /** The lookup in slots of an array that was only added to is what the jobs take it for. */
  lemma HasIsSeen(s: T.State<Path>, p: Path)
    requires T.WellFormed(s) && T.Dense(s)
    ensures T.Sees(s, p) <==> Has(T.List(s), p)
  {
    ArrayRefinement.HasMissesLast(s, p);
  }
}
