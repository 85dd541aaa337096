/** The flat interpreter: brackets are found again on every jump by scanning the text.
    `int` cells are unbounded here; `unsigned int` variables wrap. */
module BfInterpreter {
  import opened Wrappers
  import opened Brackets

  const WORD := 0x1_0000_0000

  /** The value of an `unsigned int` after it was stepped up or down by one. */
  function U32(x: int): nat
    requires x >= -1
  {
    if x == -1 then WORD - 1 else if x == WORD then 0 else x
  }

  /** Texts an `unsigned int` index can walk over. */
  predicate Indexable(code: string) {
    |code| < WORD
  }

  /** All variables of a run: text index, tape pointer, scan counter, tape and the two streams. */
  datatype Conf = Conf(i: nat, ptr: nat, tmp: int, cells: seq<int>, input: seq<byte>, output: seq<byte>)

  datatype Status = Running | Halted | OutOfMemory | OffText

  datatype Outcome = Next(conf: Conf) | Stop(status: Status)

  /** Where a bracket scan stops and the counter it leaves there; Lost when it runs off the text. */
  datatype Scan = Lost | Found(at: nat, tmp: int)

  /** The forward scan from index `i`. */
  function ScanForward(code: string, i: nat, tmp: int): Scan
    requires Indexable(code)
    decreases |code| - i
  {
    if i >= |code| then Lost
    else if code[i] == ']' && tmp == 0 then Found(i, tmp)
    else ScanForward(code, U32(i + 1), tmp + Delta(code[i]))
  }

  /** The backward scan; stepping back from index 0 wraps and leaves the text. */
  function ScanBack(code: string, i: nat, tmp: int): Scan
    requires Indexable(code)
    decreases if i < |code| then i + 1 else 0
  {
    if i >= |code| then Lost
    else if code[i] == '[' && tmp <= 0 then Found(i, tmp)
    else ScanBack(code, U32(i - 1), tmp - Delta(code[i]))
  }

  /** One character that is not a bracket. */
  function Basic(c: char, s: Conf): Conf
    requires s.ptr < |s.cells|
  {
    if c == '>' then s.(ptr := U32(s.ptr + 1))
    else if c == '<' then s.(ptr := U32(s.ptr - 1))
    else if c == '+' then s.(cells := s.cells[s.ptr := s.cells[s.ptr] + 1])
    else if c == '-' then s.(cells := s.cells[s.ptr := s.cells[s.ptr] - 1])
    else if c == '.' then s.(output := s.output + [s.cells[s.ptr] % 256])
    else if c == ',' then
      if s.input == [] then s.(cells := s.cells[s.ptr := -1])
      else s.(cells := s.cells[s.ptr := s.input[0]], input := s.input[1..])
    else s
  }

  /** One round of the main loop. */
  function Step(code: string, s: Conf): Outcome
    requires Indexable(code)
  {
    if s.i >= |code| then Stop(Halted)
    else if s.ptr >= |s.cells| then Stop(OutOfMemory)
    else
      var c := code[s.i];
      if c == '[' && s.cells[s.ptr] == 0 then
        match ScanForward(code, U32(s.i + 1), s.tmp)
        case Lost => Stop(OffText)
        case Found(j, tmp) => Next(s.(i := U32(j + 1), tmp := tmp))
      else if c == ']' && s.cells[s.ptr] != 0 then
        match ScanBack(code, U32(s.i - 1), s.tmp)
        case Lost => Stop(OffText)
        case Found(j, tmp) => Next(s.(i := U32(U32(j - 1) + 1), tmp := tmp))
      else Next(Basic(c, s).(i := U32(s.i + 1)))
  }

  /** At most `n` rounds, then a look at whether the run has stopped. */
  function Run(code: string, s: Conf, n: nat): (Status, Conf)
    requires Indexable(code)
    decreases n
  {
    match Step(code, s)
    case Stop(status) => (status, s)
    case Next(s') => if n == 0 then (Running, s) else Run(code, s', n - 1)
  }

  function Start(size: nat, input: seq<byte>): Conf {
    Conf(0, 0, 0, seq(size, k => 0), input, [])
  }

  /** The inner loop after a `[` on a zero cell. */
  method SkipLoop(code: string, from: nat, count: int) returns (r: Scan)
    requires Indexable(code)
    ensures r == ScanForward(code, from, count)
  {
    var i: nat, tmp := from, count;
    while i < |code| && (code[i] != ']' || tmp != 0)
      invariant ScanForward(code, i, tmp) == ScanForward(code, from, count)
      decreases |code| - i
    {
      if code[i] == '[' {
        tmp := tmp + 1;
      } else if code[i] == ']' {
        tmp := tmp - 1;
      }
      i := U32(i + 1);
    }
    return if i < |code| then Found(i, tmp) else Lost;
  }

  /** The inner loop after a `]` on a non-zero cell. */
  method RewindLoop(code: string, from: nat, count: int) returns (r: Scan)
    requires Indexable(code)
    ensures r == ScanBack(code, from, count)
  {
    var i: nat, tmp := from, count;
    while i < |code| && (code[i] != '[' || tmp > 0)
      invariant 0 <= i && ScanBack(code, i, tmp) == ScanBack(code, from, count)
      decreases if i < |code| then i + 1 else 0
    {
      if code[i] == ']' {
        tmp := tmp + 1;
      } else if code[i] == '[' {
        tmp := tmp - 1;
      }
      i := U32(i - 1);
    }
    return if i < |code| then Found(i, tmp) else Lost;
  }

  /** The branches of the main loop for characters other than brackets. */
  method Execute(c: char, values: array<int>, at: nat, input: seq<byte>, output: seq<byte>)
    returns (ptr: nat, stdin: seq<byte>, stdout: seq<byte>)
    requires at < values.Length
    modifies values
    ensures forall i, tmp :: Conf(i, ptr, tmp, values[..], stdin, stdout)
                             == Basic(c, Conf(i, at, tmp, old(values[..]), input, output))
  {
    ptr, stdin, stdout := at, input, output;
    if c == '>' {
      ptr := U32(ptr + 1);
    } else if c == '<' {
      ptr := U32(ptr - 1);
    } else if c == '+' {
      values[ptr] := values[ptr] + 1;
    } else if c == '-' {
      values[ptr] := values[ptr] - 1;
    } else if c == '.' {
      stdout := stdout + [values[ptr] % 256];
    } else if c == ',' {
      if stdin == [] {
        values[ptr] := -1;
      } else {
        values[ptr], stdin := stdin[0], stdin[1..];
      }
    }
  }

  /** The body of the main loop; the status is Running as long as the loop goes on. */
  method Round(code: string, values: array<int>, at: nat, head: nat, count: int, input: seq<byte>, output: seq<byte>)
    returns (status: Status, i: nat, ptr: nat, tmp: int, stdin: seq<byte>, stdout: seq<byte>)
    requires Indexable(code)
    modifies values
    ensures Step(code, Conf(at, head, count, old(values[..]), input, output))
            == if status == Running then Next(Conf(i, ptr, tmp, values[..], stdin, stdout)) else Stop(status)
  {
    status, i, ptr, tmp, stdin, stdout := Running, at, head, count, input, output;
    if i >= |code| {
      status := Halted;
      return;
    }
    if ptr >= values.Length {
      status := OutOfMemory;
      return;
    }
    if code[i] == '[' {
      if values[ptr] == 0 {
        var r := SkipLoop(code, U32(i + 1), tmp);
        if r == Lost {
          status := OffText;
          return;
        }
        i, tmp := r.at, r.tmp;
      }
    } else if code[i] == ']' {
      if values[ptr] != 0 {
        var r := RewindLoop(code, U32(i - 1), tmp);
        if r == Lost {
          status := OffText;
          return;
        }
        i, tmp := U32(r.at - 1), r.tmp;
      }
    } else {
      ptr, stdin, stdout := Execute(code[i], values, ptr, stdin, stdout);
    }
    i := U32(i + 1);
  }

  method NewTape(size: nat) returns (values: array<int>)
    ensures fresh(values) && values[..] == seq(size, k => 0)
  {
    values := new int[size];
    var i := 0;
    while i < size
      invariant i <= size
      invariant forall k :: 0 <= k < i ==> values[k] == 0
    {
      values[i] := 0;
      i := i + 1;
    }
  }

  /** The interpreter itself, cut off after `fuel` rounds because a program may loop for ever. */
  method Brainfuck(code: string, size: nat, input: seq<byte>, fuel: nat) returns (status: Status, end: Conf)
    requires Indexable(code) && size < WORD
    ensures (status, end) == Run(code, Start(size, input), fuel)
  {
    var ptr: nat, i: nat, tmp := 0, 0, 0;
    var values := NewTape(size);
    var stdin: seq<byte>, stdout: seq<byte> := input, [];
    var n := fuel;
    ghost var result := Run(code, Start(size, input), fuel);
    while true
      invariant result == Run(code, Conf(i, ptr, tmp, values[..], stdin, stdout), n)
      invariant fresh(values)
      decreases n
    {
      end := Conf(i, ptr, tmp, values[..], stdin, stdout);
      status, i, ptr, tmp, stdin, stdout := Round(code, values, i, ptr, tmp, stdin, stdout);
      if status != Running || n == 0 {
        return;
      }
      n := n - 1;
    }
  }

  // ----- the instructions

  /** What each instruction does to a pointer, cells and streams; other characters do nothing. At the end of the
      input a cell becomes -1; a step left of the tape gives the largest `unsigned int`. */
  lemma InstructionsDo(code: string, s: Conf)
    requires Indexable(code) && s.i < |code| && s.ptr < |s.cells| < WORD
    ensures var (c, on) := (code[s.i], s.(i := s.i + 1));
            var cell := s.cells[s.ptr];
            && (c == '>' ==> Step(code, s) == Next(on.(ptr := s.ptr + 1)))
            && (c == '<' ==> Step(code, s) == Next(on.(ptr := if s.ptr == 0 then 4294967295 else s.ptr - 1)))
            && (c == '+' ==> Step(code, s) == Next(on.(cells := s.cells[s.ptr := cell + 1])))
            && (c == '-' ==> Step(code, s) == Next(on.(cells := s.cells[s.ptr := cell - 1])))
            && (c == '.' ==> Step(code, s) == Next(on.(output := s.output + [cell % 256])))
            && (c == ',' && s.input == [] ==> Step(code, s) == Next(on.(cells := s.cells[s.ptr := -1])))
            && (c == ',' && s.input != [] ==>
                  Step(code, s) == Next(on.(cells := s.cells[s.ptr := s.input[0]], input := s.input[1..])))
            && ((c == '[' && cell != 0) || (c == ']' && cell == 0) ==> Step(code, s) == Next(on))
            && (c !in "><+-.,[]" ==> Step(code, s) == Next(on))
  {
  }

  /** A run stops behind the last character, and when the pointer has left the tape before one. */
  lemma StopsAre(code: string, s: Conf)
    requires Indexable(code)
    ensures Step(code, s) == Stop(Halted) <==> s.i >= |code|
    ensures Step(code, s) == Stop(OutOfMemory) <==> s.i < |code| && s.ptr >= |s.cells|
  {
  }

  // ----- the scans

  lemma {:induction false} ForwardOverBlock(code: string, lo: nat, p: Block, hi: nat, tmp: nat)
    requires Indexable(code) && At(code, lo, p, hi)
    ensures ScanForward(code, lo, tmp) == ScanForward(code, hi, tmp)
    decreases p
  {
    match p
    case End =>
    case Op(_, rest) =>
      ForwardOverBlock(code, lo + 1, rest, hi, tmp);
    case Loop(body, close, rest) =>
      ForwardOverBlock(code, lo + 1, body, close, tmp + 1);
      ForwardOverBlock(code, close + 1, rest, hi, tmp);
  }

  lemma {:induction false} BackOverBlock(code: string, lo: nat, p: Block, hi: nat, tmp: nat)
    requires Indexable(code) && At(code, lo, p, hi) && 0 < lo && 0 < hi
    ensures ScanBack(code, hi - 1, tmp) == ScanBack(code, lo - 1, tmp)
    decreases p
  {
    match p
    case End =>
    case Op(_, rest) =>
      BackOverBlock(code, lo + 1, rest, hi, tmp);
    case Loop(body, close, rest) =>
      BackOverBlock(code, close + 1, rest, hi, tmp);
      BackOverBlock(code, lo + 1, body, close, tmp + 1);
  }

  /** Matching brackets: in a balanced text both scans stop inside the text, exactly at the one partner
      of the bracket they start from, with the counter back at zero. */
  lemma ScansFindPartner(code: string, at: nat) returns (partner: nat)
    requires Indexable(code) && Balanced(code) && at < |code| && (code[at] == '[' || code[at] == ']')
    ensures code[at] == '[' ==> ScanForward(code, U32(at + 1), 0) == Found(partner, 0) && Matched(code, at, partner)
    ensures code[at] == ']' ==> ScanBack(code, U32(at - 1), 0) == Found(partner, 0) && Matched(code, partner, at)
  {
    TreeIsThere(code, 0, 0);
    var open, body, close := BracketInTree(code, 0, Tree(code, 0, 0).0, |code|, at);
    LoopIsMatched(code, open, body, close);
    if code[at] == '[' {
      partner := close;
      ForwardOverBlock(code, open + 1, body, close, 0);
    } else {
      partner := open;
      BackOverBlock(code, open + 1, body, close, 0);
    }
  }

  // ----- runs

  /** Exactly `k` rounds; None when the run stops earlier. */
  function Steps(code: string, s: Conf, k: nat): Option<Conf>
    requires Indexable(code)
    decreases k
  {
    if k == 0 then Some(s)
    else match Step(code, s)
      case Stop(_) => None
      case Next(s') => Steps(code, s', k - 1)
  }

  lemma {:induction false} RunAfterSteps(code: string, s: Conf, k: nat, n: nat)
    requires Indexable(code) && Steps(code, s, k).Some?
    ensures Run(code, s, k + n) == Run(code, Steps(code, s, k).value, n)
    decreases k
  {
    if k > 0 {
      RunAfterSteps(code, Step(code, s).conf, k - 1, n);
    }
  }

  lemma {:induction false} StepsCompose(code: string, s: Conf, k: nat, m: nat)
    requires Indexable(code) && Steps(code, s, k).Some?
    ensures Steps(code, s, k + m) == Steps(code, Steps(code, s, k).value, m)
    decreases k
  {
    if k > 0 {
      StepsCompose(code, Step(code, s).conf, k - 1, m);
    }
  }

  /** What a run started by the interpreter keeps: the index stays in the text, the counter is zero. */
  predicate Sound(code: string, s: Conf) {
    s.i <= |code| && s.tmp == 0
  }

  /** On balanced texts no scan ever leaves the text: a run of any length either still goes on, or has
      reached the end of the text, or has stopped because the pointer left the tape; every tape access
      on the way was within bounds. */
  lemma {:induction false} BalancedRunsStayInText(code: string, s: Conf, n: nat)
    requires Indexable(code) && Balanced(code) && Sound(code, s)
    ensures var (status, end) := Run(code, s, n);
            && status != OffText
            && Sound(code, end)
            && |end.cells| == |s.cells|
            && (status == Halted <==> end.i == |code|)
            && (status == OutOfMemory <==> end.i < |code| && end.ptr >= |end.cells|)
    decreases n
  {
    if s.i < |code| && s.ptr < |s.cells| && (code[s.i] == '[' || code[s.i] == ']') {
      var partner := ScansFindPartner(code, s.i);
    }
    match Step(code, s)
    case Stop(_) =>
    case Next(s') =>
      if n > 0 {
        BalancedRunsStayInText(code, s', n - 1);
      }
  }
}
