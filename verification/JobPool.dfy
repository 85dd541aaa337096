/** The job pool: jobs are added one by one, then `parallel` workers run them, each striding over its own
    indices. The workers are interleaved step by step; the counter `finished` is read and written in two
    separate steps. */
module JobPool {

  const MAX_JOB := 1024 * 1024

  // ----- adding jobs

  /** The pool before it runs. `ctx` stands for a callback with its arguments. */
  class Jobs<Ctx> {
    var jobs: seq<Ctx>
    var total: nat
    var current: nat
    const max: nat
    const parallel: nat

    predicate Valid()
      reads this
    {
      total == |jobs| && total <= max && current == total && parallel > 0
    }

    /** `setting` is the configured number of workers, `processors` the number used when it is below one. */
    constructor (setting: int, processors: nat)
      requires processors > 0
      ensures Valid() && jobs == [] && max == 1048576 && parallel == if setting < 1 then processors else setting
    {
      jobs, total, current := [], 0, 0;
      max := MAX_JOB;
      parallel := if setting < 1 then processors else setting;
    }

    /** A full pool drops further jobs. */
    method Add(ctx: Ctx)
      requires Valid()
      modifies this
      ensures Valid() && total <= max
      ensures jobs == if old(total) < max then old(jobs) + [ctx] else old(jobs)
    {
      if total < max {
        jobs := jobs + [ctx];
        total := total + 1;
        current := current + 1;
      }
    }
  }

  // ----- running them

  /** Where a worker is: at the loop test, inside its callback, behind it, behind the read of `finished`, or out. */
  datatype Pc = Test | Calling | Returned | Loaded(value: nat) | Out

  datatype Worker = Worker(i: nat, pc: Pc)

  /** `runs` counts the calls of every job, `returned` the callbacks that have returned, and `written` the
      increments of `finished` that are complete. */
  datatype Pool = Pool(workers: seq<Worker>, runs: seq<nat>, returned: nat, finished: nat, written: nat)

  function Start(total: nat, parallel: nat): Pool {
    Pool(seq(parallel, w requires 0 <= w => Worker(w, Test)), seq(total, k => 0), 0, 0, 0)
  }

  /** The next step of worker `w`; a worker that is out stays as it is. */
  function Step(s: Pool, w: nat): Pool
    requires w < |s.workers|
  {
    var me := s.workers[w];
    match me.pc
    case Test =>
      if me.i < |s.runs| then
        s.(workers := s.workers[w := me.(pc := Calling)], runs := s.runs[me.i := s.runs[me.i] + 1])
      else s.(workers := s.workers[w := me.(pc := Out)])
    case Calling => s.(workers := s.workers[w := me.(pc := Returned)], returned := s.returned + 1)
    case Returned => s.(workers := s.workers[w := me.(pc := Loaded(s.finished))])
    case Loaded(value) =>
      s.(workers := s.workers[w := Worker(me.i + |s.workers|, Test)], finished := value + 1, written := s.written + 1)
    case Out => s
  }

  /** A schedule names the worker that moves at every step. */
  ghost predicate Schedule(s: seq<nat>, parallel: nat) {
    forall k :: 0 <= k < |s| ==> s[k] < parallel
  }

  /** The first `n` steps of a schedule. */
  function Run(s: Pool, schedule: seq<nat>, n: nat): (r: Pool)
    requires n <= |schedule| && Schedule(schedule, |s.workers|)
    ensures |r.workers| == |s.workers| && |r.runs| == |s.runs|
  {
    if n == 0 then s else Step(Run(s, schedule, n - 1), schedule[n - 1])
  }

  /** `jobs_run` returns when every worker is out. */
  ghost predicate AllOut(s: Pool) {
    forall w :: 0 <= w < |s.workers| ==> s.workers[w].pc == Out
  }
}
