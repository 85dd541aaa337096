/** The jumping interpreter and the compiled `while` program do the same thing. */
module BfEquivalence {
  import opened Wrappers
  import opened Brackets
  import opened BfInterpreter
  import BfCompiler

  /** An `int` and an `unsigned char` pass the test for zero alike. */
  predicate ZeroAlike(x: int) {
    x % 256 == 0 ==> x == 0
  }

  /** The pointer is on the tape, and at a bracket the cell is not a multiple of 256 other than zero. */
  predicate Tame(code: string, s: Conf) {
    && s.ptr < |s.cells|
    && (s.i < |code| && (code[s.i] == '[' || code[s.i] == ']') ==> ZeroAlike(s.cells[s.ptr]))
  }

  /** Every configuration the interpreter visits from `s` on is tame. */
  ghost predicate StaysTame(code: string, s: Conf)
    requires Indexable(code)
  {
    forall n: nat :: Tame(code, Run(code, s, n).1)
  }

  /** Same pointer, streams and, as `unsigned char`, tape; the C program has further cells, all of them zero. */
  predicate Agree(s: Conf, m: BfCompiler.Machine) {
    && s.ptr == m.ptr && s.input == m.input && s.output == m.output && m.element == BfCompiler.UnsignedChar
    && |s.cells| <= |m.cell| == 1048576
    && (forall k :: 0 <= k < |s.cells| ==> s.cells[k] % 256 == m.cell[k])
    && (forall k :: |s.cells| <= k < |m.cell| ==> m.cell[k] == 0)
  }

  lemma StaysAfterStep(code: string, s: Conf)
    requires Indexable(code) && StaysTame(code, s)
    ensures Tame(code, s)
    ensures Step(code, s).Next? ==> StaysTame(code, Step(code, s).conf)
  {
    assert Tame(code, Run(code, s, 0).1);
    if Step(code, s).Next? {
      forall n: nat ensures Tame(code, Run(code, Step(code, s).conf, n).1) {
        assert Tame(code, Run(code, s, n + 1).1);
      }
    }
  }

  lemma CarryOver(x: int)
    ensures (x + 1) % 256 == (x % 256 + 1) % 256 && (x - 1) % 256 == (x % 256 - 1) % 256
  {
  }

  /** One simple instruction does the same on both sides. */
  lemma OpAgrees(code: string, s: Conf, m: BfCompiler.Machine)
    requires Indexable(code) && StaysTame(code, s) && Agree(s, m)
    requires s.i < |code| && BfCompiler.IsOp(code[s.i]) && code[s.i] != '[' && code[s.i] != ']'
    ensures Step(code, s).Next?
    ensures var next := Step(code, s).conf;
            && next.i == s.i + 1 && next.tmp == s.tmp
            && BfCompiler.RunOp(code[s.i], m).Some? && Agree(next, BfCompiler.RunOp(code[s.i], m).value)
  {
    StaysAfterStep(code, s);
    StaysAfterStep(code, Step(code, s).conf);
    CarryOver(s.cells[s.ptr]);
  }

  /** At an opening bracket: into the body, or past the partner. */
  lemma OpenAgrees(code: string, s: Conf, m: BfCompiler.Machine, body: Block, close: nat)
    requires Indexable(code) && Tame(code, s) && Agree(s, m) && s.tmp == 0
    requires s.i < close < |code| && code[s.i] == '[' && code[close] == ']' && At(code, s.i + 1, body, close)
    ensures Step(code, s) == Next(s.(i := if m.cell[m.ptr] == 0 then close + 1 else s.i + 1))
  {
    ForwardOverBlock(code, s.i + 1, body, close, 0);
  }

  /** At a closing bracket: back to the partner, which tests the cell again, or onwards. */
  lemma CloseAgrees(code: string, s: Conf, m: BfCompiler.Machine, open: nat, body: Block)
    requires Indexable(code) && Tame(code, s) && Agree(s, m) && s.tmp == 0
    requires open < s.i < |code| && code[open] == '[' && code[s.i] == ']' && At(code, open + 1, body, s.i)
    ensures Step(code, s) == Next(s.(i := if m.cell[m.ptr] == 0 then s.i + 1 else open))
  {
    BackOverBlock(code, open + 1, body, s.i, 0);
  }

  /** `s` reaches `end` in `k` rounds. */
  predicate Reaches(code: string, s: Conf, k: nat, end: Conf)
    requires Indexable(code)
  {
    Steps(code, s, k) == Some(end)
  }

  lemma ReachesOn(code: string, s: Conf, k: nat, mid: Conf, n: nat, end: Conf)
    requires Indexable(code) && Reaches(code, s, k, mid) && Reaches(code, mid, n, end)
    ensures Reaches(code, s, k + n, end)
  {
    StepsCompose(code, s, k, n);
  }

  /** Where the interpreter stands when block `p` is finished in machine state `m`. */
  ghost predicate DoneWith(code: string, hi: nat, end: Conf, m: BfCompiler.Machine)
    requires Indexable(code)
  {
    end.i == hi && end.tmp == 0 && StaysTame(code, end) && Agree(end, m)
  }

  /** The interpreter gets in `k` rounds to where the structured program is after `fuel` rounds of its loops: to
      the end of the block if it finishes there, else to the loop test at which the fuel runs out. */
  ghost predicate Follows(code: string, s: Conf, k: nat, end: Conf, hi: nat, r: BfCompiler.Result, fuel: nat)
    requires Indexable(code)
  {
    && !r.Undefined? && Reaches(code, s, k, end)
    && if r.Finished? then DoneWith(code, hi, end, r.m) else Agree(end, r.m) && k >= fuel
  }

  /** Whatever the structured program does on block `p`, it never leaves its memory, and the interpreter follows
      from the start of the block. */
  lemma {:induction false} ProgramReaches(code: string, lo: nat, p: Block, hi: nat, s: Conf, m: BfCompiler.Machine,
                                          fuel: nat)
    returns (k: nat, end: Conf)
    requires Indexable(code) && At(code, lo, p, hi) && DoneWith(code, lo, s, m)
    ensures Follows(code, s, k, end, hi, BfCompiler.Exec(BfCompiler.StmtOf(p), m, fuel), fuel)
    decreases fuel, p, 0
  {
    StaysAfterStep(code, s);
    k, end := 0, s;
    match p
    case End =>
    case Op(c, rest) =>
      var next := Step(code, s).conf;
      var m' := m;
      if BfCompiler.IsOp(c) {
        OpAgrees(code, s, m);
        m' := BfCompiler.RunOp(c, m).value;
      }
      k, end := ProgramReaches(code, lo + 1, rest, hi, next, m', fuel);
      k := k + 1;
    case Loop(body, close, rest) =>
      OpenAgrees(code, s, m, body, close);
      if m.cell[m.ptr] == 0 {
        k, end := ProgramReaches(code, close + 1, rest, hi, Step(code, s).conf, m, fuel);
        k := k + 1;
      } else if fuel > 0 {
        k, end := ProgramEnters(code, lo, p, hi, s, m, fuel);
      }
  }

  /** The same for a loop whose body is entered. */
  lemma {:induction false} ProgramEnters(code: string, lo: nat, p: Block, hi: nat, s: Conf, m: BfCompiler.Machine,
                                         fuel: nat)
    returns (k: nat, end: Conf)
    requires Indexable(code) && At(code, lo, p, hi) && p.Loop? && DoneWith(code, lo, s, m) && fuel > 0
    requires BfCompiler.InMemory(m) && m.cell[m.ptr] != 0
    ensures Follows(code, s, k, end, hi, BfCompiler.Exec(BfCompiler.StmtOf(p), m, fuel), fuel)
    decreases fuel - 1, p, 2
  {
    StaysAfterStep(code, s);
    OpenAgrees(code, s, m, p.body, p.close);
    var next := Step(code, s).conf;
    var kb, mid := ProgramReaches(code, lo + 1, p.body, p.close, next, m, fuel - 1);
    k, end := kb + 1, mid;
    var r := BfCompiler.Exec(BfCompiler.StmtOf(p.body), m, fuel - 1);
    if r.Finished? {
      var kr;
      kr, end := ProgramAgain(code, lo, p, hi, mid, r.m, fuel - 1);
      ReachesOn(code, next, kb, mid, kr, end);
      k := kb + kr + 1;
    }
  }

  /** The same from the closing bracket of a loop: the body has just been finished. */
  lemma {:induction false} ProgramAgain(code: string, lo: nat, p: Block, hi: nat, s: Conf, m: BfCompiler.Machine,
                                        fuel: nat)
    returns (k: nat, end: Conf)
    requires Indexable(code) && At(code, lo, p, hi) && p.Loop? && DoneWith(code, p.close, s, m)
    ensures Follows(code, s, k, end, hi, BfCompiler.Exec(BfCompiler.StmtOf(p), m, fuel), fuel)
    decreases fuel, p, 1
  {
    StaysAfterStep(code, s);
    CloseAgrees(code, s, m, lo, p.body);
    var next := Step(code, s).conf;
    if m.cell[m.ptr] == 0 {
      k, end := ProgramReaches(code, p.close + 1, p.rest, hi, next, m, fuel);
    } else {
      k, end := ProgramReaches(code, lo, p, hi, next, m, fuel);
    }
    k := k + 1;
  }

  ghost predicate Finishes(code: string, s: Conf, k: nat, end: Conf, hi: nat, r: BfCompiler.Result)
    requires Indexable(code)
  {
    r.Finished? && Reaches(code, s, k, end) && DoneWith(code, hi, end, r.m)
  }

  /** One round earlier, and with more fuel. */
  lemma FinishesOn(code: string, s: Conf, k: nat, end: Conf, hi: nat, p: BfCompiler.Stmt, m: BfCompiler.Machine, n: nat)
    requires Indexable(code) && Step(code, s).Next? && n > 0
    requires Finishes(code, Step(code, s).conf, k, end, hi, BfCompiler.Exec(p, m, n - 1))
    ensures Finishes(code, s, k + 1, end, hi, BfCompiler.Exec(p, m, n))
  {
    BfCompiler.MoreFuel(p, m, n - 1, n);
  }

  lemma FinishesBehind(code: string, s: Conf, k: nat, mid: Conf, n: nat, end: Conf, hi: nat, p: BfCompiler.Stmt,
                       m: BfCompiler.Machine, fuel: nat, more: nat)
    requires Indexable(code) && Reaches(code, s, k, mid) && fuel <= more
    requires Finishes(code, mid, n, end, hi, BfCompiler.Exec(p, m, fuel))
    ensures Finishes(code, s, k + n, end, hi, BfCompiler.Exec(p, m, more))
  {
    ReachesOn(code, s, k, mid, n, end);
    BfCompiler.MoreFuel(p, m, fuel, more);
  }

  /** If the interpreter halts within `n` rounds of the start of block `p`, it passes the end of the block
      on the way, and the structured program finishes on the block with the same tape. */
  lemma {:induction false} HaltedFinishes(code: string, lo: nat, p: Block, hi: nat, s: Conf, m: BfCompiler.Machine,
                                          n: nat)
    returns (k: nat, end: Conf)
    requires Indexable(code) && At(code, lo, p, hi) && DoneWith(code, lo, s, m)
    requires Run(code, s, n).0 == Halted
    ensures k <= n && Finishes(code, s, k, end, hi, BfCompiler.Exec(BfCompiler.StmtOf(p), m, n))
    decreases n, p, 1
  {
    StaysAfterStep(code, s);
    match p
    case End =>
      k, end := 0, s;
    case Op(c, rest) =>
      var next := Step(code, s).conf;
      var m' := m;
      if BfCompiler.IsOp(c) {
        OpAgrees(code, s, m);
        m' := BfCompiler.RunOp(c, m).value;
      }
      k, end := HaltedFinishes(code, lo + 1, rest, hi, next, m', n - 1);
      FinishesOn(code, s, k, end, hi, BfCompiler.StmtOf(rest), m', n);
      k := k + 1;
    case Loop(body, close, rest) =>
      if m.cell[m.ptr] == 0 {
        OpenAgrees(code, s, m, body, close);
        k, end := HaltedFinishes(code, close + 1, rest, hi, Step(code, s).conf, m, n - 1);
        FinishesOn(code, s, k, end, hi, BfCompiler.StmtOf(rest), m, n);
        k := k + 1;
      } else {
        k, end := HaltedEnters(code, lo, p, hi, s, m, n);
      }
  }

  /** The same for a loop whose body is entered. */
  lemma {:induction false} HaltedEnters(code: string, lo: nat, p: Block, hi: nat, s: Conf, m: BfCompiler.Machine,
                                        n: nat)
    returns (k: nat, end: Conf)
    requires Indexable(code) && At(code, lo, p, hi) && p.Loop? && DoneWith(code, lo, s, m)
    requires BfCompiler.InMemory(m) && m.cell[m.ptr] != 0
    requires Run(code, s, n).0 == Halted
    ensures k <= n && Finishes(code, s, k, end, hi, BfCompiler.Exec(BfCompiler.StmtOf(p), m, n))
    decreases n, p, 0
  {
    StaysAfterStep(code, s);
    OpenAgrees(code, s, m, p.body, p.close);
    var next := Step(code, s).conf;
    var kb, mid := HaltedFinishes(code, lo + 1, p.body, p.close, next, m, n - 1);
    RunAfterSteps(code, next, kb, n - 1 - kb);
    var m1 := BfCompiler.Exec(BfCompiler.StmtOf(p.body), m, n - 1).m;
    var kr;
    kr, end := HaltedAgain(code, lo, p, hi, mid, m1, n - 1 - kb);
    k := kb + kr + 1;
    FinishesBehind(code, next, kb, mid, kr, end, hi, BfCompiler.StmtOf(p), m1, n - 1 - kb, n - 1);
  }

  /** The same from the closing bracket of a loop: the body has just been finished. */
  lemma {:induction false} HaltedAgain(code: string, lo: nat, p: Block, hi: nat, s: Conf, m: BfCompiler.Machine, n: nat)
    returns (k: nat, end: Conf)
    requires Indexable(code) && At(code, lo, p, hi) && p.Loop? && DoneWith(code, p.close, s, m)
    requires Run(code, s, n).0 == Halted
    ensures k <= n && Finishes(code, s, k, end, hi, BfCompiler.Exec(BfCompiler.StmtOf(p), m, n))
    decreases n, p, 0
  {
    StaysAfterStep(code, s);
    CloseAgrees(code, s, m, lo, p.body);
    var next := Step(code, s).conf;
    if m.cell[m.ptr] == 0 {
      k, end := HaltedFinishes(code, p.close + 1, p.rest, hi, next, m, n - 1);
      FinishesOn(code, s, k, end, hi, BfCompiler.StmtOf(p.rest), m, n);
    } else {
      k, end := HaltedFinishes(code, lo, p, hi, next, m, n - 1);
      FinishesOn(code, s, k, end, hi, BfCompiler.StmtOf(p), m, n);
    }
    k := k + 1;
  }

  ghost predicate InterpreterHalts(code: string, size: nat, input: seq<byte>)
    requires Indexable(code)
  {
    exists n: nat :: Run(code, Start(size, input), n).0 == Halted
  }

  ghost predicate ProgramFinishes(p: BfCompiler.Program, input: seq<byte>)
    requires BfCompiler.WellFormed(p)
  {
    exists fuel: nat :: BfCompiler.RunC(p, input, fuel).Finished?
  }

  /** However long the C program runs, it stays inside its memory. */
  ghost predicate StaysDefined(p: BfCompiler.Program, input: seq<byte>)
    requires BfCompiler.WellFormed(p)
  {
    forall fuel: nat :: !BfCompiler.RunC(p, input, fuel).Undefined?
  }

  /** Whenever both sides are done, they agree on pointer, tape, remaining input and output. */
  ghost predicate SameEnd(code: string, size: nat, input: seq<byte>, p: BfCompiler.Program)
    requires Indexable(code) && BfCompiler.WellFormed(p)
  {
    forall n: nat, fuel: nat ::
      Run(code, Start(size, input), n).0 == Halted && BfCompiler.RunC(p, input, fuel).Finished?
      ==> Agree(Run(code, Start(size, input), n).1, BfCompiler.RunC(p, input, fuel).m)
  }

  /** Both sides at a time: the interpreter after `n` rounds, the program after `fuel` rounds of its loops. */
  predicate SameState(code: string, size: nat, input: seq<byte>, p: BfCompiler.Program, n: nat, fuel: nat)
    requires Indexable(code) && BfCompiler.WellFormed(p)
  {
    var r := BfCompiler.RunC(p, input, fuel);
    !r.Undefined? && Agree(Run(code, Start(size, input), n).1, r.m)
  }

  /** What the interpreter has written by then, the program has written too. */
  predicate OutputCovered(code: string, size: nat, input: seq<byte>, p: BfCompiler.Program, n: nat, fuel: nat)
    requires Indexable(code) && BfCompiler.WellFormed(p)
  {
    var r := BfCompiler.RunC(p, input, fuel);
    !r.Undefined? && Run(code, Start(size, input), n).1.output <= r.m.output
  }

  ghost predicate IsPassed(code: string, size: nat, input: seq<byte>, p: BfCompiler.Program, fuel: nat)
    requires Indexable(code) && BfCompiler.WellFormed(p)
  {
    exists n: nat :: SameState(code, size, input, p, n, fuel)
  }

  ghost predicate IsWritten(code: string, size: nat, input: seq<byte>, p: BfCompiler.Program, n: nat)
    requires Indexable(code) && BfCompiler.WellFormed(p)
  {
    exists fuel: nat :: OutputCovered(code, size, input, p, n, fuel)
  }

  /** Runs that never end as well: the interpreter passes through every state in which the program tests a loop,
      and whatever it writes the program writes sooner or later. */
  ghost predicate SameProgress(code: string, size: nat, input: seq<byte>, p: BfCompiler.Program)
    requires Indexable(code) && BfCompiler.WellFormed(p)
  {
    (forall fuel: nat :: IsPassed(code, size, input, p, fuel)) && forall n: nat :: IsWritten(code, size, input, p, n)
  }

  /** Compiler correctness. For a balanced text whose interpreter run stays tame, whatever the values of cells
      that are not tested, wrapped around or read at the end of the input, the C program the compiler writes is
      well-formed, never leaves its memory, terminates exactly when the interpreter does, and then leaves the
      same pointer, tape, remaining input and output. Runs that do not end write the same. */
  lemma CompilerCorrect(code: string, size: nat, input: seq<byte>)
    requires Indexable(code) && Balanced(code) && size <= 1048576
    requires StaysTame(code, Start(size, input))
    ensures BfCompiler.ReadC(BfCompiler.Emit(code)).Some?
    ensures var p := BfCompiler.ReadC(BfCompiler.Emit(code)).value;
            && StaysDefined(p, input)
            && (InterpreterHalts(code, size, input) <==> ProgramFinishes(p, input))
            && SameEnd(code, size, input, p)
            && SameProgress(code, size, input, p)
  {
    TreeIsThere(code, 0, 0);
    var tree := Tree(code, 0, 0).0;
    assert Spells(tree, code);
    BfCompiler.CompilesIffBalanced(code);
    ProgramToInterpreter(code, tree, size, input);
    InterpreterToProgram(code, tree, size, input);
    EndsAlike(code, tree, size, input);
    ProgressAlike(code, tree, size, input);
  }

  /** The program the compiler writes for a tree. */
  function Compiled(tree: Block): (p: BfCompiler.Program)
    ensures BfCompiler.WellFormed(p)
  {
    BfCompiler.Compiled(BfCompiler.StmtOf(tree))
  }

  /** Both sides start alike. */
  lemma BootAgrees(code: string, tree: Block, size: nat, input: seq<byte>)
    requires Indexable(code) && size <= 1048576 && StaysTame(code, Start(size, input))
    ensures DoneWith(code, 0, Start(size, input), BfCompiler.Boot(Compiled(tree), input))
  {
    BfCompiler.CompiledBoot(BfCompiler.StmtOf(tree), input);
  }

  lemma ProgramToInterpreter(code: string, tree: Block, size: nat, input: seq<byte>)
    requires Indexable(code) && Spells(tree, code) && size <= 1048576
    requires StaysTame(code, Start(size, input))
    ensures StaysDefined(Compiled(tree), input)
    ensures ProgramFinishes(Compiled(tree), input) ==> InterpreterHalts(code, size, input)
  {
    var s, p := Start(size, input), Compiled(tree);
    BootAgrees(code, tree, size, input);
    forall fuel: nat
      ensures !BfCompiler.RunC(p, input, fuel).Undefined?
      ensures BfCompiler.RunC(p, input, fuel).Finished? ==> InterpreterHalts(code, size, input)
    {
      var k, end := ProgramReaches(code, 0, tree, |code|, s, BfCompiler.Boot(p, input), fuel);
      if BfCompiler.RunC(p, input, fuel).Finished? {
        RunAfterSteps(code, s, k, 0);
        assert Run(code, s, k + 0).0 == Halted;
      }
    }
  }

  lemma HaltsThenFinishes(code: string, tree: Block, size: nat, input: seq<byte>, n: nat)
    requires Indexable(code) && Spells(tree, code) && size <= 1048576
    requires StaysTame(code, Start(size, input))
    requires Run(code, Start(size, input), n).0 == Halted
    ensures BfCompiler.RunC(Compiled(tree), input, n).Finished?
    ensures Agree(Run(code, Start(size, input), n).1,
                  BfCompiler.RunC(Compiled(tree), input, n).m)
  {
    var s := Start(size, input);
    BootAgrees(code, tree, size, input);
    var k, end := HaltedFinishes(code, 0, tree, |code|, s, BfCompiler.Boot(Compiled(tree), input), n);
    RunAfterSteps(code, s, k, n - k);
  }

  lemma InterpreterToProgram(code: string, tree: Block, size: nat, input: seq<byte>)
    requires Indexable(code) && Spells(tree, code) && size <= 1048576
    requires StaysTame(code, Start(size, input))
    ensures InterpreterHalts(code, size, input) ==> ProgramFinishes(Compiled(tree), input)
  {
    if n: nat :| Run(code, Start(size, input), n).0 == Halted {
      HaltsThenFinishes(code, tree, size, input, n);
    }
  }

  lemma EndsAlike(code: string, tree: Block, size: nat, input: seq<byte>)
    requires Indexable(code) && Spells(tree, code) && size <= 1048576
    requires StaysTame(code, Start(size, input))
    ensures SameEnd(code, size, input, Compiled(tree))
  {
    var p := Compiled(tree);
    forall n: nat, fuel: nat
      | Run(code, Start(size, input), n).0 == Halted && BfCompiler.RunC(p, input, fuel).Finished?
      ensures Agree(Run(code, Start(size, input), n).1, BfCompiler.RunC(p, input, fuel).m)
    {
      HaltsThenFinishes(code, tree, size, input, n);
      BfCompiler.MoreFuel(p.body, BfCompiler.Boot(p, input), n, n + fuel);
      BfCompiler.MoreFuel(p.body, BfCompiler.Boot(p, input), fuel, n + fuel);
    }
  }

  // ----- runs that may not end

  lemma StepWrites(code: string, s: Conf)
    requires Indexable(code) && Step(code, s).Next?
    ensures s.output <= Step(code, s).conf.output
  {
  }

  /** What was written stays written. */
  lemma {:induction false} OutputGrows(code: string, s: Conf, n: nat, k: nat)
    requires Indexable(code) && Steps(code, s, k).Some? && n <= k
    ensures Run(code, s, n).1.output <= Steps(code, s, k).value.output
    decreases k
  {
    if k > 0 {
      StepWrites(code, s);
      OutputGrows(code, Step(code, s).conf, if n > 0 then n - 1 else 0, k - 1);
      assert Run(code, Step(code, s).conf, 0).1 == Step(code, s).conf;
    }
  }

  lemma RunThrough(code: string, s: Conf, k: nat, end: Conf)
    requires Indexable(code) && Reaches(code, s, k, end)
    ensures Run(code, s, k).1 == end
  {
    RunAfterSteps(code, s, k, 0);
    assert Run(code, end, 0).1 == end;
  }

  /** With fuel `n` the program has written what the interpreter writes in `n` rounds. */
  lemma FuelCovers(code: string, tree: Block, size: nat, input: seq<byte>, n: nat)
    requires Indexable(code) && Spells(tree, code) && size <= 1048576
    requires StaysTame(code, Start(size, input))
    ensures OutputCovered(code, size, input, Compiled(tree), n, n)
    ensures IsPassed(code, size, input, Compiled(tree), n)
  {
    var s := Start(size, input);
    BootAgrees(code, tree, size, input);
    var k, end := ProgramReaches(code, 0, tree, |code|, s, BfCompiler.Boot(Compiled(tree), input), n);
    RunThrough(code, s, k, end);
    assert SameState(code, size, input, Compiled(tree), k, n);
    if n <= k {
      OutputGrows(code, s, n, k);
    } else {
      RunAfterSteps(code, s, k, n - k);
      assert Run(code, end, n - k).1 == end;
    }
  }

  lemma ProgressAlike(code: string, tree: Block, size: nat, input: seq<byte>)
    requires Indexable(code) && Spells(tree, code) && size <= 1048576
    requires StaysTame(code, Start(size, input))
    ensures SameProgress(code, size, input, Compiled(tree))
  {
    var p := Compiled(tree);
    forall n: nat ensures IsPassed(code, size, input, p, n) && IsWritten(code, size, input, p, n) {
      FuelCovers(code, tree, size, input, n);
    }
  }

  // ----- cells in 0..255

  predicate CellsFit(s: Conf) {
    forall k :: 0 <= k < |s.cells| ==> 0 <= s.cells[k] < 256
  }

  predicate InRange(s: Conf) {
    s.ptr < |s.cells| && CellsFit(s)
  }

  ghost predicate StaysInRange(code: string, s: Conf)
    requires Indexable(code)
  {
    forall n: nat :: InRange(Run(code, s, n).1)
  }

  predicate SameTape(s: Conf, m: BfCompiler.Machine) {
    && s.ptr == m.ptr && s.input == m.input && s.output == m.output && |s.cells| <= |m.cell|
    && forall k :: 0 <= k < |s.cells| ==> s.cells[k] == m.cell[k]
  }

  ghost predicate SameTapes(code: string, size: nat, input: seq<byte>, p: BfCompiler.Program)
    requires Indexable(code) && BfCompiler.WellFormed(p)
  {
    forall n: nat, fuel: nat ::
      Run(code, Start(size, input), n).0 == Halted && BfCompiler.RunC(p, input, fuel).Finished?
      ==> SameTape(Run(code, Start(size, input), n).1, BfCompiler.RunC(p, input, fuel).m)
  }

  lemma AgreeingTapes(code: string, size: nat, input: seq<byte>, p: BfCompiler.Program)
    requires Indexable(code) && BfCompiler.WellFormed(p)
    requires StaysInRange(code, Start(size, input)) && SameEnd(code, size, input, p)
    ensures SameTapes(code, size, input, p)
  {
  }

  /** In particular: when the pointer stays on the tape and all cells in 0..255, both sides end together, and
      with equal tapes. */
  lemma CorrectInRange(code: string, size: nat, input: seq<byte>)
    requires Indexable(code) && Balanced(code) && size <= 1048576
    requires StaysInRange(code, Start(size, input))
    ensures BfCompiler.ReadC(BfCompiler.Emit(code)).Some?
    ensures var p := BfCompiler.ReadC(BfCompiler.Emit(code)).value;
            && StaysDefined(p, input)
            && (InterpreterHalts(code, size, input) <==> ProgramFinishes(p, input))
            && SameTapes(code, size, input, p) && SameProgress(code, size, input, p)
  {
    CompilerCorrect(code, size, input);
    AgreeingTapes(code, size, input, BfCompiler.ReadC(BfCompiler.Emit(code)).value);
  }
}
