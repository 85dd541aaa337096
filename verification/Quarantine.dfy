/** Validation of the quarantine: one job per file list and per link list, all running at the same time over
    three shared arrays. A step makes at most one access to a shared array; the file system stands still. */
module Quarantine {
  import opened Catalogue

  /** What validation reads: the files in the quarantine, the digest reported for a path, and the rules for
      restricted paths (`matches` is the regular expression test). */
  datatype Scene = Scene(
    rootfs: map<Path, Node>,
    digest: Path -> string,
    rules: seq<string>,
    matches: (string, Path) -> bool)

  datatype Item = FileItem(file: FileEntry) | LinkItem(link: LinkEntry)

  function PathOf(x: Item): Path {
    match x
    case FileItem(f) => f.path
    case LinkItem(l) => l.path
  }

  /** Where a job is in its current line. Files go ConflictHas, CacheHas, CacheAdd, Check, Rules, Digest;
      links go Check, ConflictHas, CacheHas, Kind, Rules, CacheAdd. */
  datatype Pc = ConflictHas | CacheHas | ConflictAdd | CacheAdd | Check | Kind | Rules(k: nat) | Digest

  /** A job: its list, the index of the current line, and its place in that line. */
  datatype Job = Job(items: seq<Item>, at: nat, pc: Pc)

  datatype State = State(jobs: seq<Job>, conflict: seq<Path>, cache: seq<Path>, broken: seq<Path>)

  /** `array_has`: all but the value added last. */
  predicate Has(list: seq<Path>, p: Path) {
    exists k :: 0 <= k < |list| - 1 && list[k] == p
  }

  function FirstPc(x: Item): Pc {
    if x.FileItem? then ConflictHas else Check
  }

  function NextLine(j: Job): Job
    requires j.at < |j.items|
  {
    Job(j.items, j.at + 1, if j.at + 1 < |j.items| then FirstPc(j.items[j.at + 1]) else ConflictHas)
  }

  /** `sreadlink` and `issymlink`. */
  function ReadLink(w: Scene, p: Path): string {
    if p in w.rootfs && w.rootfs[p].Link? then w.rootfs[p].target else ""
  }

  predicate IsLink(w: Scene, p: Path) {
    p in w.rootfs && w.rootfs[p].Link?
  }

  predicate RuleHits(w: Scene, k: nat, p: Path)
    requires k < |w.rules|
  {
    w.rules[k] != "" && w.matches(w.rules[k], p)
  }

  /** One step of job `n`; a job at the end of its list stays as it is. */
  function Step(w: Scene, s: State, n: nat): State
    requires n < |s.jobs|
  {
    var j := s.jobs[n];
    if j.at >= |j.items| then s
    else
      var x := j.items[j.at];
      var p := PathOf(x);
      match j.pc
      case ConflictHas => Go(s, n, if Has(s.conflict, p) then Checked(x) else CacheHas)
      case CacheHas => Go(s, n, if Has(s.cache, p) then ConflictAdd else Checked(x))
      case ConflictAdd => s.(jobs := s.jobs[n := NextLine(j)], conflict := s.conflict + [p])
      case CacheAdd =>
        var s' := s.(cache := s.cache + [p]);
        if x.FileItem? then Go(s', n, Check) else s'.(jobs := s.jobs[n := NextLine(j)])
      case Check =>
        if x.FileItem? then (if p in w.rootfs then Go(s, n, Rules(0)) else Break(s, n, p))
        else if x.link.target == ReadLink(w, p) then Go(s, n, ConflictHas)
        else Break(s, n, p)
      case Kind => if IsLink(w, p) then Go(s, n, Rules(0)) else Break(s, n, p)
      case Rules(k) =>
        if k < |w.rules| then
          var s' := if RuleHits(w, k, p) then s.(broken := s.broken + [p]) else s;
          Go(s', n, Rules(k + 1))
        else Go(s, n, if x.FileItem? then Digest else CacheAdd)
      case Digest =>
        if x.LinkItem? || x.file.hash == w.digest(p) then s.(jobs := s.jobs[n := NextLine(j)])
        else Break(s, n, p)
  }

  /** Where a line goes on when no conflict was found. */
  function Checked(x: Item): Pc {
    if x.FileItem? then CacheAdd else Kind
  }

  function Go(s: State, n: nat, pc: Pc): State
    requires n < |s.jobs|
  {
    s.(jobs := s.jobs[n := s.jobs[n].(pc := pc)])
  }

  /** The path is reported as broken and the job goes on with its next line. */
  function Break(s: State, n: nat, p: Path): State
    requires n < |s.jobs| && s.jobs[n].at < |s.jobs[n].items|
  {
    s.(jobs := s.jobs[n := NextLine(s.jobs[n])], broken := s.broken + [p])
  }

  function Start(lists: seq<seq<Item>>): State {
    State(seq(|lists|, n requires 0 <= n < |lists| =>
                Job(lists[n], 0, if lists[n] == [] then ConflictHas else FirstPc(lists[n][0]))), [], [], [])
  }

  /** The first `n` steps of a schedule, which names the job that moves; other numbers are skipped. */
  function Run(w: Scene, s: State, schedule: seq<nat>, n: nat): (r: State)
    requires n <= |schedule|
    ensures |r.jobs| == |s.jobs|
  {
    if n == 0 then s
    else
      var before := Run(w, s, schedule, n - 1);
      if schedule[n - 1] < |s.jobs| then Step(w, before, schedule[n - 1]) else before
  }

  predicate Finished(s: State) {
    forall n :: 0 <= n < |s.jobs| ==> s.jobs[n].at >= |s.jobs[n].items|
  }

  /** The verdict of `quarantine_validate` after all jobs: nothing is ever put on the list of replaced files. */
  predicate Passed(s: State) {
    Finished(s) && s.conflict == [] && s.broken == []
  }
}
