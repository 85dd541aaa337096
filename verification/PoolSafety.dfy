/** What the job pool guarantees under every interleaving of its workers. */
module PoolSafety {
  import opened JobPool

  // ----- the invariant

  /** The worker that strides over index `k`. */
  function Owner(k: nat, parallel: nat): (w: nat)
    requires parallel > 0
    ensures w < parallel
  {
    if k < parallel then k else Owner(k - parallel, parallel)
  }

  lemma {:induction false} StrideSkips(i: nat, k: nat, parallel: nat)
    requires parallel > 0 && i < k < i + parallel
    ensures Owner(i, parallel) != Owner(k, parallel)
  {
    if i >= parallel {
      StrideSkips(i - parallel, k - parallel, parallel);
    }
  }

  /** Worker `w` stands on one of its own indices, on a job while it is busy, past the end when it is out. */
  predicate OnStride(s: Pool, w: nat)
    requires w < |s.workers|
  {
    var me := s.workers[w];
    && Owner(me.i, |s.workers|) == w
    && (if me.pc == Out then me.i >= |s.runs| else me.pc == Test || me.i < |s.runs|)
    && (me.pc.Loaded? ==> me.pc.value <= s.written)
  }

  /** Has the worker responsible for job `k` called it already? */
  predicate Called(s: Pool, k: nat)
    requires |s.workers| > 0
  {
    var me := s.workers[Owner(k, |s.workers|)];
    k < me.i || (k == me.i && me.pc != Test)
  }

  function Sum(a: seq<nat>, n: nat): nat
    requires n <= |a|
  {
    if n == 0 then 0 else Sum(a, n - 1) + a[n - 1]
  }

  function Weight(pc: Pc, calling: bool): nat {
    if (if calling then pc.Calling? else pc.Returned? || pc.Loaded?) then 1 else 0
  }

  /** How many of the first `n` workers are inside a callback, or between its return and the increment. */
  function Busy(workers: seq<Worker>, n: nat, calling: bool): nat
    requires n <= |workers|
  {
    if n == 0 then 0 else Busy(workers, n - 1, calling) + Weight(workers[n - 1].pc, calling)
  }

  ghost predicate Inv(s: Pool) {
    && |s.workers| > 0
    && (forall w :: 0 <= w < |s.workers| ==> OnStride(s, w))
    && (forall k :: 0 <= k < |s.runs| ==> s.runs[k] == if Called(s, k) then 1 else 0)
    && s.finished <= s.written
    && s.written + Busy(s.workers, |s.workers|, false) == s.returned
    && s.returned + Busy(s.workers, |s.workers|, true) == Sum(s.runs, |s.runs|)
  }

  lemma {:induction false} SumUpdate(a: seq<nat>, n: nat, k: nat, v: nat)
    requires n <= |a| && k < |a|
    ensures Sum(a[k := v], n) == if k < n then Sum(a, n) - a[k] + v else Sum(a, n)
  {
    if n > 0 {
      SumUpdate(a, n - 1, k, v);
    }
  }

  lemma {:induction false} BusyUpdate(a: seq<Worker>, n: nat, w: nat, v: Worker, calling: bool)
    requires n <= |a| && w < |a|
    ensures Busy(a[w := v], n, calling) + (if w < n then Weight(a[w].pc, calling) else 0)
            == Busy(a, n, calling) + if w < n then Weight(v.pc, calling) else 0
  {
    if n > 0 {
      BusyUpdate(a, n - 1, w, v, calling);
    }
  }

  lemma StartInv(total: nat, parallel: nat)
    requires parallel > 0
    ensures Inv(Start(total, parallel))
  {
    var s := Start(total, parallel);
    NoneBusy(s.workers, parallel, false);
    NoneBusy(s.workers, parallel, true);
    ZeroSum(s.runs, total);
    forall k | 0 <= k < total ensures !Called(s, k) {
    }
  }

  lemma {:induction false} NoneBusy(workers: seq<Worker>, n: nat, calling: bool)
    requires n <= |workers| && forall w :: 0 <= w < n ==> workers[w].pc == Test || workers[w].pc == Out
    ensures Busy(workers, n, calling) == 0
  {
    if n > 0 {
      NoneBusy(workers, n - 1, calling);
    }
  }

  lemma {:induction false} ZeroSum(a: seq<nat>, n: nat)
    requires n <= |a| && forall k :: 0 <= k < |a| ==> a[k] == 0
    ensures Sum(a, n) == 0
  {
    if n > 0 {
      ZeroSum(a, n - 1);
    }
  }

  lemma {:induction false} FullSum(a: seq<nat>, n: nat)
    requires n <= |a| && forall k :: 0 <= k < |a| ==> a[k] == 1
    ensures Sum(a, n) == n
  {
    if n > 0 {
      FullSum(a, n - 1);
    }
  }

  /** A step changes what has been called in no other way than by the call it makes. */
  lemma CalledAfterStep(s: Pool, w: nat, k: nat)
    requires Inv(s) && w < |s.workers| && k < |s.runs|
    ensures Called(Step(s, w), k) <==> Called(s, k) || (s.workers[w].pc == Test && k == s.workers[w].i)
  {
    var me, parallel := s.workers[w], |s.workers|;
    assert OnStride(s, w);
    if me.pc.Loaded? && me.i < k < me.i + parallel {
      StrideSkips(me.i, k, parallel);
    }
  }

  /** Calls, returns and increments stay in balance. */
  lemma StepCounts(s: Pool, w: nat)
    requires Inv(s) && w < |s.workers|
    ensures var r := Step(s, w);
            && r.written + Busy(r.workers, |r.workers|, false) == r.returned
            && r.returned + Busy(r.workers, |r.workers|, true) == Sum(r.runs, |r.runs|)
  {
    var me, r := s.workers[w], Step(s, w);
    if me.pc == Test && me.i < |s.runs| {
      SumUpdate(s.runs, |s.runs|, me.i, s.runs[me.i] + 1);
    }
    BusyUpdate(s.workers, |s.workers|, w, r.workers[w], false);
    BusyUpdate(s.workers, |s.workers|, w, r.workers[w], true);
  }

  lemma StepInv(s: Pool, w: nat)
    requires Inv(s) && w < |s.workers|
    ensures Inv(Step(s, w))
  {
    var r := Step(s, w);
    StepCounts(s, w);
    assert OnStride(s, w);
    forall v | 0 <= v < |r.workers| ensures OnStride(r, v) {
      assert OnStride(s, v);
    }
    forall k | 0 <= k < |r.runs| ensures r.runs[k] == if Called(r, k) then 1 else 0 {
      CalledAfterStep(s, w, k);
    }
  }

  lemma {:induction false} RunInv(s: Pool, schedule: seq<nat>, n: nat)
    requires Inv(s) && n <= |schedule| && Schedule(schedule, |s.workers|)
    ensures Inv(Run(s, schedule, n))
  {
    if n > 0 {
      RunInv(s, schedule, n - 1);
      StepInv(Run(s, schedule, n - 1), schedule[n - 1]);
    }
  }

  // ----- what the pool guarantees

  /** At every point of every interleaving no job has been called twice, and `finished` does not exceed the
      number of callbacks that have returned, however its reads and writes are mixed up. */
  lemma NeverTwice(total: nat, parallel: nat, schedule: seq<nat>, n: nat)
    requires parallel > 0 && n <= |schedule| && Schedule(schedule, parallel)
    ensures var s := Run(Start(total, parallel), schedule, n);
            && (forall k :: 0 <= k < total ==> s.runs[k] <= 1)
            && s.finished <= s.returned <= Sum(s.runs, total)
  {
    StartInv(total, parallel);
    RunInv(Start(total, parallel), schedule, n);
  }

  /** When all workers are out, each job has been called exactly once and has returned. */
  lemma ExactlyOnce(total: nat, parallel: nat, schedule: seq<nat>)
    requires parallel > 0 && Schedule(schedule, parallel)
    requires AllOut(Run(Start(total, parallel), schedule, |schedule|))
    ensures var s := Run(Start(total, parallel), schedule, |schedule|);
            && (forall k :: 0 <= k < total ==> s.runs[k] == 1)
            && s.finished <= s.returned == total
  {
    var s := Run(Start(total, parallel), schedule, |schedule|);
    StartInv(total, parallel);
    RunInv(Start(total, parallel), schedule, |schedule|);
    forall k | 0 <= k < total ensures s.runs[k] == 1 {
      assert OnStride(s, Owner(k, parallel));
    }
    FullSum(s.runs, total);
    NoneBusy(s.workers, parallel, false);
    NoneBusy(s.workers, parallel, true);
  }

  /** A worker's distance from being out. */
  function Distance(me: Worker, total: nat): nat {
    5 * (if me.i < total then total - me.i else 0)
    + match me.pc { case Test => 5 case Calling => 4 case Returned => 3 case Loaded(_) => 2 case Out => 0 }
  }

  function Remaining(workers: seq<Worker>, n: nat, total: nat): nat
    requires n <= |workers|
  {
    if n == 0 then 0 else Remaining(workers, n - 1, total) + Distance(workers[n - 1], total)
  }

  lemma {:induction false} RemainingUpdate(a: seq<Worker>, n: nat, w: nat, v: Worker, total: nat)
    requires n <= |a| && w < |a|
    ensures Remaining(a[w := v], n, total) + (if w < n then Distance(a[w], total) else 0)
            == Remaining(a, n, total) + if w < n then Distance(v, total) else 0
  {
    if n > 0 {
      RemainingUpdate(a, n - 1, w, v, total);
    }
  }

  /** No worker ever waits: every step of one that is not out brings the pool closer to the end, so after
      finitely many such steps all workers are out. */
  lemma StepsMakeProgress(s: Pool, w: nat)
    requires Inv(s) && w < |s.workers| && s.workers[w].pc != Out
    ensures var r := Step(s, w);
            Remaining(r.workers, |r.workers|, |r.runs|) < Remaining(s.workers, |s.workers|, |s.runs|)
  {
    assert OnStride(s, w);
    RemainingUpdate(s.workers, |s.workers|, w, Step(s, w).workers[w], |s.runs|);
  }

  /** Two workers, one job each, both read the counter before either writes it. */
  const RACE: seq<nat> := [0, 1, 0, 1, 0, 1, 0, 1, 0, 1]

  lemma RaceCalls()
    ensures Schedule(RACE, 2)
    ensures Run(Start(2, 2), RACE, 3) == Pool([Worker(0, Returned), Worker(1, Calling)], [1, 1], 1, 0, 0)
  {
    var s := Start(2, 2);
    assert Run(s, RACE, 1) == Pool([Worker(0, Calling), Worker(1, Test)], [1, 0], 0, 0, 0);
    assert Run(s, RACE, 2) == Pool([Worker(0, Calling), Worker(1, Calling)], [1, 1], 0, 0, 0);
  }

  lemma RaceReads()
    ensures Schedule(RACE, 2)
    ensures Run(Start(2, 2), RACE, 6) == Pool([Worker(0, Loaded(0)), Worker(1, Loaded(0))], [1, 1], 2, 0, 0)
  {
    var s := Start(2, 2);
    RaceCalls();
    assert Run(s, RACE, 4) == Pool([Worker(0, Returned), Worker(1, Returned)], [1, 1], 2, 0, 0);
    assert Run(s, RACE, 5) == Pool([Worker(0, Loaded(0)), Worker(1, Returned)], [1, 1], 2, 0, 0);
  }

  /** The counter itself may lose increments. */
  lemma FinishedMayLoseCounts()
    ensures Schedule(RACE, 2) && AllOut(Run(Start(2, 2), RACE, |RACE|))
    ensures Run(Start(2, 2), RACE, |RACE|).returned == 2 && Run(Start(2, 2), RACE, |RACE|).finished == 1
  {
    var s := Start(2, 2);
    RaceReads();
    assert Run(s, RACE, 7) == Pool([Worker(2, Test), Worker(1, Loaded(0))], [1, 1], 2, 1, 1);
    assert Run(s, RACE, 8) == Pool([Worker(2, Test), Worker(3, Test)], [1, 1], 2, 1, 2);
    assert Run(s, RACE, 9) == Pool([Worker(2, Out), Worker(3, Test)], [1, 1], 2, 1, 2);
    assert Run(s, RACE, 10) == Pool([Worker(2, Out), Worker(3, Out)], [1, 1], 2, 1, 2);
  }
}
