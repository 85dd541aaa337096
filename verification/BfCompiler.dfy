/** The compiler: it turns a Brainfuck text into the text of a C program, character by character.
    The C side is read back by a lexer and a recursive-descent parser and run by a big-step semantics. */
module BfCompiler {
  import Text
  import opened Wrappers
  import opened Brackets

  /** The lines and declarations in front of the statements. */
  const STDIO := "#include <stdio.h>\n"
  const STDLIB := "#include <stdlib.h>\n"
  const PTR := "int ptr = 0;"
  const TAPE := "unsigned char cell[1024*1024];"
  const OPENING := "void main(){"

  // ----- the emitted text

  predicate IsOp(c: char) {
    c == '<' || c == '>' || c == '+' || c == '-' || c == '.' || c == ',' || c == '[' || c == ']'
  }

  /** The C text written for one character; other characters write nothing. */
  function EmitChar(c: char): string {
    if c == '<' then "ptr--;"
    else if c == '>' then "ptr++;"
    else if c == '+' then "cell[ptr]++;"
    else if c == '-' then "cell[ptr]--;"
    else if c == '[' then "while(cell[ptr]){"
    else if c == ']' then "}"
    else if c == '.' then "putc(cell[ptr],stdout);"
    else if c == ',' then "cell[ptr] = getchar();"
    else ""
  }

  function EmitFrom(code: string, lo: nat): string
    requires lo <= |code|
    decreases |code| - lo
  {
    if lo == |code| then "" else EmitChar(code[lo]) + EmitFrom(code, lo + 1)
  }

  function Emit(code: string): string {
    STDIO + (STDLIB + (PTR + (TAPE + (OPENING + (EmitFrom(code, 0) + "}")))))
  }

  lemma SixParts(a: string, b: string, c: string, d: string, e: string, rest: string)
    ensures a + b + c + d + e + rest == a + (b + (c + (d + (e + rest))))
  {
  }

  method BfCompile(code: string) returns (output: string)
    ensures output == Emit(code)
  {
    output := "#include <stdio.h>\n";
    output := output + "#include <stdlib.h>\n";
    output := output + "int ptr = 0;";
    output := output + "unsigned char cell[1024*1024];";
    output := output + "void main(){";
    SixParts(STDIO, STDLIB, PTR, TAPE, OPENING, EmitFrom(code, 0) + "}");
    Text.Assoc(output, EmitFrom(code, 0), "}");
    ghost var body := output + EmitFrom(code, 0);
    var i := 0;
    while i < |code|
      invariant i <= |code|
      invariant output + EmitFrom(code, i) == body
    {
      var chunk := "";
      if code[i] == '<' {
        chunk := "ptr--;";
      } else if code[i] == '>' {
        chunk := "ptr++;";
      } else if code[i] == '+' {
        chunk := "cell[ptr]++;";
      } else if code[i] == '-' {
        chunk := "cell[ptr]--;";
      } else if code[i] == '[' {
        chunk := "while(cell[ptr]){";
      } else if code[i] == ']' {
        chunk := "}";
      } else if code[i] == '.' {
        chunk := "putc(cell[ptr],stdout);";
      } else if code[i] == ',' {
        chunk := "cell[ptr] = getchar();";
      }
      Text.Assoc(output, chunk, EmitFrom(code, i + 1));
      output := output + chunk;
      i := i + 1;
    }
    output := output + "}";
  }

  // ----- reading C

  /** The statement (or brace) a C text starts with, named by the character that stands for it. */
  function FirstToken(text: string): Option<char> {
    if "ptr--;" <= text then Some('<')
    else if "ptr++;" <= text then Some('>')
    else if "cell[ptr]++;" <= text then Some('+')
    else if "cell[ptr]--;" <= text then Some('-')
    else if "while(cell[ptr]){" <= text then Some('[')
    else if "}" <= text then Some(']')
    else if "putc(cell[ptr],stdout);" <= text then Some('.')
    else if "cell[ptr] = getchar();" <= text then Some(',')
    else None
  }

  function Lex(text: string): Option<string>
    decreases |text|
  {
    if text == "" then Some("")
    else match FirstToken(text)
      case None => None
      case Some(c) =>
        if |EmitChar(c)| == 0 || |EmitChar(c)| > |text| then None
        else match Lex(text[|EmitChar(c)|..])
          case None => None
          case Some(tokens) => Some([c] + tokens)
  }

  datatype Stmt = Done | Do(c: char, rest: Stmt) | While(body: Stmt, rest: Stmt)

  datatype Parsed = Bad | Good(s: Stmt, rest: string)

  /** Statements up to the brace that closes the enclosing block. */
  function ParseBlock(t: string): (r: Parsed)
    ensures r.Good? ==> |r.rest| < |t|
    decreases |t|
  {
    if t == "" then Bad
    else if t[0] == ']' then Good(Done, t[1..])
    else if t[0] == '[' then
      match ParseBlock(t[1..])
      case Bad => Bad
      case Good(body, after) =>
        match ParseBlock(after)
        case Bad => Bad
        case Good(rest, end) => Good(While(body, rest), end)
    else
      match ParseBlock(t[1..])
      case Bad => Bad
      case Good(rest, end) => Good(Do(t[0], rest), end)
  }

  // ----- reading declarations

  datatype CType = UnsignedChar | SignedChar

  datatype Decl = IntVar(name: string, value: nat) | CharArray(element: CType, name: string, size: nat)

  /** The headers that are included, the declarations, the body of `main`. */
  datatype Program = Program(headers: seq<string>, decls: seq<Decl>, body: Stmt)

  function Behind(prefix: string, text: string): Option<string> {
    if prefix <= text then Some(text[|prefix|..]) else None
  }

  function ReadHeaders(text: string): (seq<string>, string)
    decreases |text|
  {
    match Behind("#include <", text)
    case None => ([], text)
    case Some(t) =>
      var j := Text.Cut(t, '>');
      match Behind(">\n", t[j..])
      case None => ([], text)
      case Some(rest) => ([t[..j]] + ReadHeaders(rest).0, ReadHeaders(rest).1)
  }

  function Digits(t: string): (n: nat)
    ensures n <= |t| && forall k :: 0 <= k < n ==> '0' <= t[k] <= '9'
  {
    if t != "" && '0' <= t[0] <= '9' then 1 + Digits(t[1..]) else 0
  }

  function Decimal(s: string): nat
    requires forall k :: 0 <= k < |s| ==> '0' <= s[k] <= '9'
  {
    if s == "" then 0 else Decimal(s[..|s| - 1]) * 10 + (s[|s| - 1] as int - '0' as int)
  }

  /** A product of numbers, and what follows it. */
  function ReadNumber(t: string): Option<(nat, string)>
    decreases |t|
  {
    var n := Digits(t);
    if n == 0 then None
    else match Behind("*", t[n..])
      case None => Some((Decimal(t[..n]), t[n..]))
      case Some(more) =>
        match ReadNumber(more)
        case None => None
        case Some(r) => Some((Decimal(t[..n]) * r.0, r.1))
  }

  /** `int name = value;`. */
  function ReadIntVar(text: string): Option<(Decl, string)> {
    match Behind("int ", text)
    case None => None
    case Some(t) =>
      var j := Text.Cut(t, ' ');
      match Behind(" = ", t[j..])
      case None => None
      case Some(more) =>
        match ReadNumber(more)
        case None => None
        case Some(r) =>
          match Behind(";", r.1)
          case None => None
          case Some(rest) => Some((IntVar(t[..j], r.0), rest))
  }

  /** `unsigned char name[size];` or the same without `unsigned`. */
  function ReadArray(text: string): Option<(Decl, string)> {
    match Behind("unsigned char ", text)
    case Some(t) => ReadArrayOf(UnsignedChar, t)
    case None =>
      match Behind("char ", text)
      case Some(t) => ReadArrayOf(SignedChar, t)
      case None => None
  }

  function ReadArrayOf(element: CType, t: string): Option<(Decl, string)> {
    var j := Text.Cut(t, '[');
    match Behind("[", t[j..])
    case None => None
    case Some(more) =>
      match ReadNumber(more)
      case None => None
      case Some(r) =>
        match Behind("];", r.1)
        case None => None
        case Some(rest) => Some((CharArray(element, t[..j], r.0), rest))
  }

  function ReadDecl(text: string): Option<(Decl, string)> {
    if ReadIntVar(text).Some? then ReadIntVar(text) else ReadArray(text)
  }

  function ReadDecls(text: string): (seq<Decl>, string)
    decreases |text|
  {
    match ReadDecl(text)
    case None => ([], text)
    case Some(d) =>
      if |d.1| >= |text| then ([], text) else ([d.0] + ReadDecls(d.1).0, ReadDecls(d.1).1)
  }

  /** What the statements use is there: `stdio.h`, an integer `ptr` and an array `cell`, each declared once. */
  predicate Declares(headers: seq<string>, decls: seq<Decl>) {
    && "stdio.h" in headers
    && (exists k :: 0 <= k < |decls| && decls[k].IntVar? && decls[k].name == "ptr")
    && (exists k :: 0 <= k < |decls| && decls[k].CharArray? && decls[k].name == "cell")
    && forall i, j :: 0 <= i < j < |decls| ==> decls[i].name != decls[j].name
  }

  predicate WellFormed(p: Program) {
    Declares(p.headers, p.decls)
  }

  /** What the C compiler makes of a text, with nothing behind the closing brace of `main`. */
  function ReadC(text: string): (r: Option<Program>)
    ensures r.Some? ==> WellFormed(r.value)
  {
    var (headers, t) := ReadHeaders(text);
    var (decls, u) := ReadDecls(t);
    if !Declares(headers, decls) then None
    else match Behind("void main(){", u)
      case None => None
      case Some(v) =>
        match ReadBody(v)
        case None => None
        case Some(body) => Some(Program(headers, decls, body))
  }

  function ReadBody(text: string): Option<Stmt> {
    match Lex(text)
    case None => None
    case Some(tokens) =>
      match ParseBlock(tokens)
      case Bad => None
      case Good(s, rest) => if rest == "" then Some(s) else None
  }

  // ----- running C

  datatype Machine = Machine(ptr: int, cell: seq<int>, element: CType, input: seq<byte>, output: seq<byte>)

  predicate InMemory(s: Machine) {
    0 <= s.ptr < |s.cell|
  }

  /** What an element of the type holds when `x` is stored in it. */
  function Stored(element: CType, x: int): int {
    match element
    case UnsignedChar => x % 256
    case SignedChar => (x + 128) % 256 - 128
  }

  function Store(s: Machine, x: int): Machine
    requires InMemory(s)
  {
    s.(cell := s.cell[s.ptr := Stored(s.element, x)])
  }

  /** One simple statement; None when it touches memory outside `cell`. At its end the input gives -1. */
  function RunOp(c: char, s: Machine): Option<Machine> {
    if c == '>' then Some(s.(ptr := s.ptr + 1))
    else if c == '<' then Some(s.(ptr := s.ptr - 1))
    else if !InMemory(s) then None
    else if c == '+' then Some(Store(s, s.cell[s.ptr] + 1))
    else if c == '-' then Some(Store(s, s.cell[s.ptr] - 1))
    else if c == '.' then Some(s.(output := s.output + [s.cell[s.ptr] % 256]))
    else if s.input == [] then Some(Store(s, -1))
    else Some(Store(s, s.input[0]).(input := s.input[1..]))
  }

  /** `Unfinished` holds the machine as it is when the fuel runs out. */
  datatype Result = Finished(m: Machine) | Undefined | Unfinished(m: Machine)

  /** Structured execution; `fuel` bounds the rounds of `while` loops. */
  function Exec(p: Stmt, s: Machine, fuel: nat): Result
    decreases fuel, p
  {
    match p
    case Done => Finished(s)
    case Do(c, rest) =>
      (match RunOp(c, s)
       case None => Undefined
       case Some(s') => Exec(rest, s', fuel))
    case While(body, rest) =>
      if !InMemory(s) then Undefined
      else if s.cell[s.ptr] == 0 then Exec(rest, s, fuel)
      else if fuel == 0 then Unfinished(s)
      else match Exec(body, s, fuel - 1)
        case Finished(s') => Exec(p, s', fuel - 1)
        case other => other
  }

  /** The globals as they are declared, the tape all zero. */
  function Boot(p: Program, input: seq<byte>): Machine
    requires WellFormed(p)
  {
    var i :| 0 <= i < |p.decls| && p.decls[i].IntVar? && p.decls[i].name == "ptr";
    var a :| 0 <= a < |p.decls| && p.decls[a].CharArray? && p.decls[a].name == "cell";
    Machine(p.decls[i].value, seq(p.decls[a].size, k => 0), p.decls[a].element, input, [])
  }

  function RunC(p: Program, input: seq<byte>, fuel: nat): Result
    requires WellFormed(p)
  {
    Exec(p.body, Boot(p, input), fuel)
  }

  lemma {:induction false} MoreFuel(p: Stmt, s: Machine, fuel: nat, more: nat)
    requires Exec(p, s, fuel).Finished? && fuel <= more
    ensures Exec(p, s, more) == Exec(p, s, fuel)
    decreases fuel, p
  {
    match p
    case Done =>
    case Do(c, rest) => MoreFuel(rest, RunOp(c, s).value, fuel, more);
    case While(body, rest) =>
      if s.cell[s.ptr] == 0 {
        MoreFuel(rest, s, fuel, more);
      } else {
        MoreFuel(body, s, fuel - 1, more - 1);
        MoreFuel(p, Exec(body, s, fuel - 1).m, fuel - 1, more - 1);
      }
  }

  // ----- the emitted text is read back as intended

  /** The characters of a text that are instructions. */
  function OpsFrom(code: string, lo: nat): string
    requires lo <= |code|
    decreases |code| - lo
  {
    if lo == |code| then ""
    else if IsOp(code[lo]) then [code[lo]] + OpsFrom(code, lo + 1)
    else OpsFrom(code, lo + 1)
  }

  lemma TokensAreTold(c: char, rest: string)
    requires IsOp(c)
    ensures FirstToken(EmitChar(c) + rest) == Some(c)
  {
    var text := EmitChar(c) + rest;
    assert forall k :: 0 <= k < |EmitChar(c)| ==> text[k] == EmitChar(c)[k];
    assert EmitChar(c) <= text;
    assert text[0] == EmitChar(c)[0];
    if c == '>' || c == '<' {
      assert text[3] == EmitChar(c)[3];
    } else if c == '+' || c == '-' || c == ',' {
      assert text[9] == EmitChar(c)[9];
      assert "cell[ptr]++;"[9] == '+' && "cell[ptr]--;"[9] == '-';
    } else if c == '.' {
      assert text[1] == EmitChar(c)[1];
    }
  }

  /** One more token in front. */
  lemma LexStep(c: char, rest: string, tokens: string)
    requires IsOp(c) && Lex(rest) == Some(tokens)
    ensures Lex(EmitChar(c) + rest) == Some([c] + tokens)
  {
    TokensAreTold(c, rest);
    assert (EmitChar(c) + rest)[|EmitChar(c)|..] == rest;
  }

  lemma OpLexes(code: string, lo: nat, rest: string, tokens: string)
    requires lo < |code| && IsOp(code[lo]) && Lex(EmitFrom(code, lo + 1) + rest) == Some(OpsFrom(code, lo + 1) + tokens)
    ensures Lex(EmitFrom(code, lo) + rest) == Some(OpsFrom(code, lo) + tokens)
  {
    var (c, text, ops) := (code[lo], EmitFrom(code, lo + 1), OpsFrom(code, lo + 1));
    LexStep(c, text + rest, ops + tokens);
    Text.Assoc(EmitChar(c), text, rest);
    Text.Assoc([c], ops, tokens);
  }

  lemma CommentEmitsNothing(code: string, lo: nat)
    requires lo < |code| && !IsOp(code[lo])
    ensures EmitFrom(code, lo) == EmitFrom(code, lo + 1) && OpsFrom(code, lo) == OpsFrom(code, lo + 1)
  {
    assert EmitChar(code[lo]) == "";
  }

  lemma NothingMore(code: string, rest: string)
    ensures EmitFrom(code, |code|) + rest == rest && OpsFrom(code, |code|) + rest == rest
  {
  }

  lemma {:induction false} EmitLexes(code: string, lo: nat, rest: string, tokens: string)
    requires lo <= |code| && Lex(rest) == Some(tokens)
    ensures Lex(EmitFrom(code, lo) + rest) == Some(OpsFrom(code, lo) + tokens)
    decreases |code| - lo
  {
    if lo == |code| {
      NothingMore(code, rest);
      NothingMore(code, tokens);
    } else {
      EmitLexes(code, lo + 1, rest, tokens);
      if IsOp(code[lo]) {
        OpLexes(code, lo, rest, tokens);
      } else {
        CommentEmitsNothing(code, lo);
      }
    }
  }

  lemma LastLexes()
    ensures Lex("}") == Some("]")
  {
    LexStep(']', "", "");
    assert EmitChar(']') + "" == "}" && [']'] + "" == "]";
  }

  /** The statements a bracket tree is compiled to: comments disappear. */
  function StmtOf(p: Block): Stmt {
    match p
    case End => Done
    case Op(c, rest) => if IsOp(c) then Do(c, StmtOf(rest)) else StmtOf(rest)
    case Loop(body, _, rest) => While(StmtOf(body), StmtOf(rest))
  }

  function Tokens(s: Stmt): string {
    match s
    case Done => ""
    case Do(c, rest) => [c] + Tokens(rest)
    case While(body, rest) => "[" + Tokens(body) + "]" + Tokens(rest)
  }

  /** Statements whose simple statements are not braces. */
  predicate Plain(s: Stmt) {
    match s
    case Done => true
    case Do(c, rest) => c != '[' && c != ']' && Plain(rest)
    case While(body, rest) => Plain(body) && Plain(rest)
  }

  lemma WhileTokens(b: string, r: string, rest: string)
    ensures "[" + (b + ("]" + (r + rest))) == ("[" + b + "]" + r) + rest
  {
  }

  lemma {:induction false} ParseUndoesTokens(s: Stmt, rest: string)
    requires Plain(s)
    ensures ParseBlock(Tokens(s) + ("]" + rest)) == Good(s, rest)
    decreases s
  {
    var t := Tokens(s) + ("]" + rest);
    match s
    case Done =>
      assert t[1..] == rest;
    case Do(c, r) =>
      ParseUndoesTokens(r, rest);
      assert t[1..] == Tokens(r) + ("]" + rest);
    case While(b, r) =>
      var after := Tokens(r) + ("]" + rest);
      ParseUndoesTokens(b, after);
      ParseUndoesTokens(r, rest);
      WhileTokens(Tokens(b), Tokens(r), "]" + rest);
      assert t[1..] == Tokens(b) + ("]" + after);
  }

  lemma {:induction false} ParseKeepsTokens(t: string)
    requires ParseBlock(t).Good?
    ensures t == Tokens(ParseBlock(t).s) + ("]" + ParseBlock(t).rest)
    ensures Plain(ParseBlock(t).s)
    decreases |t|
  {
    var tail := t[1..];
    assert t == [t[0]] + tail;
    if t[0] == '[' {
      var body := ParseBlock(tail);
      var rest := ParseBlock(body.rest);
      assert ParseBlock(t) == Good(While(body.s, rest.s), rest.rest);
      ParseKeepsTokens(tail);
      ParseKeepsTokens(body.rest);
      WhileTokens(Tokens(body.s), Tokens(rest.s), "]" + rest.rest);
    } else if t[0] != ']' {
      ParseKeepsTokens(tail);
      Text.Assoc([t[0]], Tokens(ParseBlock(tail).s), "]" + ParseBlock(tail).rest);
    }
  }

  lemma {:induction false} OpsOfBlock(code: string, lo: nat, p: Block, hi: nat)
    requires At(code, lo, p, hi) && hi <= |code|
    ensures OpsFrom(code, lo) == Tokens(StmtOf(p)) + OpsFrom(code, hi)
    ensures Plain(StmtOf(p))
    decreases p
  {
    match p
    case End =>
    case Op(c, rest) =>
      OpsOfBlock(code, lo + 1, rest, hi);
      Text.Assoc([c], Tokens(StmtOf(rest)), OpsFrom(code, hi));
    case Loop(body, close, rest) =>
      var (b, r) := (Tokens(StmtOf(body)), Tokens(StmtOf(rest)));
      OpsOfBlock(code, lo + 1, body, close);
      OpsOfBlock(code, close + 1, rest, hi);
      WhileTokens(b, r, OpsFrom(code, hi));
  }

  /** Depth counting over a token string. */
  predicate NestedFrom(t: string, d: nat) {
    if t == "" then d == 0
    else d + Delta(t[0]) >= 0 && NestedFrom(t[1..], d + Delta(t[0]))
  }

  lemma {:induction false} OpsKeepNesting(code: string, lo: nat, d: nat)
    requires lo <= |code|
    ensures NestedFrom(OpsFrom(code, lo), d) == BalancedWithin(code, lo, |code|, d)
    decreases |code| - lo
  {
    if lo < |code| {
      if IsOp(code[lo]) {
        assert OpsFrom(code, lo)[1..] == OpsFrom(code, lo + 1);
        if d + Delta(code[lo]) >= 0 {
          OpsKeepNesting(code, lo + 1, d + Delta(code[lo]));
        }
      } else {
        OpsKeepNesting(code, lo + 1, d);
      }
    }
  }

  lemma {:induction false} TokensNest(s: Stmt, t: string, d: nat)
    requires Plain(s)
    ensures NestedFrom(Tokens(s) + t, d) == NestedFrom(t, d)
    decreases s
  {
    var u := Tokens(s) + t;
    match s
    case Done =>
      assert u == t;
    case Do(c, r) =>
      assert u[1..] == Tokens(r) + t;
      TokensNest(r, t, d);
    case While(b, r) =>
      var after := "]" + (Tokens(r) + t);
      assert u[1..] == Tokens(b) + after;
      TokensNest(b, after, d + 1);
      assert after[1..] == Tokens(r) + t;
      TokensNest(r, t, d);
  }

  // ----- the declarations are read back as intended

  lemma BehindPrefix(prefix: string, rest: string)
    ensures Behind(prefix, prefix + rest) == Some(rest)
  {
    assert (prefix + rest)[|prefix|..] == rest;
  }

  lemma IncludeIsRead(name: string, rest: string)
    requires '>' !in name
    ensures ReadHeaders("#include <" + (name + (">\n" + rest)))
            == ([name] + ReadHeaders(rest).0, ReadHeaders(rest).1)
  {
    var t := name + (">\n" + rest);
    BehindPrefix("#include <", t);
    assert t == name + ['>'] + ("\n" + rest);
    Text.CutAt(name, '>', "\n" + rest);
    assert t[..|name|] == name && t[|name|..] == ">\n" + rest;
    BehindPrefix(">\n", rest);
  }

  predicate AllDigits(d: string) {
    forall k :: 0 <= k < |d| ==> '0' <= d[k] <= '9'
  }

  lemma {:induction false} DigitsOf(d: string, rest: string)
    requires AllDigits(d) && (rest == "" || !('0' <= rest[0] <= '9'))
    ensures Digits(d + rest) == |d|
  {
    if d == "" {
      assert d + rest == rest;
    } else {
      assert (d + rest)[1..] == d[1..] + rest;
      DigitsOf(d[1..], rest);
    }
  }

  lemma NumberIsRead(d: string, rest: string)
    requires d != "" && AllDigits(d) && rest != "" && !('0' <= rest[0] <= '9') && rest[0] != '*'
    ensures ReadNumber(d + rest) == Some((Decimal(d), rest))
  {
    DigitsOf(d, rest);
    assert (d + rest)[..|d|] == d && (d + rest)[|d|..] == rest;
    assert !("*" <= rest);
  }

  lemma ProductIsRead(d: string, e: string, rest: string)
    requires d != "" && AllDigits(d)
    requires e != "" && AllDigits(e) && rest != "" && !('0' <= rest[0] <= '9') && rest[0] != '*'
    ensures ReadNumber(d + ("*" + (e + rest))) == Some((Decimal(d) * Decimal(e), rest))
  {
    var more := "*" + (e + rest);
    DigitsOf(d, more);
    assert (d + more)[..|d|] == d && (d + more)[|d|..] == more;
    BehindPrefix("*", e + rest);
    NumberIsRead(e, rest);
  }

  lemma {:induction false} DecimalStep(d: string, c: char)
    requires AllDigits(d) && '0' <= c <= '9'
    ensures Decimal(d + [c]) == Decimal(d) * 10 + (c as int - '0' as int)
  {
    assert (d + [c])[..|d|] == d;
  }

  lemma Zero()
    ensures Decimal("0") == 0
  {
    DecimalStep("", '0');
    assert "" + ['0'] == "0";
  }

  lemma Ten()
    ensures Decimal("10") == 10
  {
    DecimalStep("", '1');
    DecimalStep("1", '0');
    assert "" + ['1'] == "1" && "1" + ['0'] == "10";
  }

  lemma Thousand()
    ensures Decimal("1024") == 1024
  {
    Ten();
    DecimalStep("10", '2');
    DecimalStep("102", '4');
    assert "10" + ['2'] == "102" && "102" + ['4'] == "1024";
  }

  lemma CutFront(name: string, c: char, more: string)
    requires c !in name
    ensures var t := name + ([c] + more);
            Text.Cut(t, c) == |name| && t[..|name|] == name && t[|name|..] == [c] + more
  {
    Text.Assoc(name, [c], more);
    Text.CutAt(name, c, more);
  }

  /** A name, and what the separator behind it is followed by. */
  lemma NameIsRead(name: string, c: char, sep: string, more: string)
    requires c !in name && sep != "" && sep[0] == c
    ensures var t := name + (sep + more);
            Text.Cut(t, c) == |name| && t[..|name|] == name && Behind(sep, t[|name|..]) == Some(more)
  {
    Text.Assoc([c], sep[1..], more);
    assert [c] + sep[1..] == sep;
    CutFront(name, c, sep[1..] + more);
    BehindPrefix(sep, more);
  }

  lemma IntVarIsRead(name: string, d: string, rest: string)
    requires ' ' !in name && d != "" && AllDigits(d)
    ensures ReadIntVar("int " + (name + (" = " + (d + (";" + rest))))) == Some((IntVar(name, Decimal(d)), rest))
  {
    var more := d + (";" + rest);
    BehindPrefix("int ", name + (" = " + more));
    NameIsRead(name, ' ', " = ", more);
    assert ReadNumber(more) == Some((Decimal(d), ";" + rest)) by {
      NumberIsRead(d, ";" + rest);
    }
    BehindPrefix(";", rest);
  }

  lemma ArrayIsRead(name: string, d: string, e: string, rest: string)
    requires '[' !in name && d != "" && AllDigits(d) && e != "" && AllDigits(e)
    ensures ReadArray("unsigned char " + (name + ("[" + (d + ("*" + (e + ("];" + rest)))))))
            == Some((CharArray(UnsignedChar, name, Decimal(d) * Decimal(e)), rest))
  {
    var more := d + ("*" + (e + ("];" + rest)));
    BehindPrefix("unsigned char ", name + ("[" + more));
    NameIsRead(name, '[', "[", more);
    assert ReadNumber(more) == Some((Decimal(d) * Decimal(e), "];" + rest)) by {
      ProductIsRead(d, e, "];" + rest);
    }
    BehindPrefix("];", rest);
  }

  lemma StdioIsRead(rest: string)
    ensures ReadHeaders(STDIO + rest) == (["stdio.h"] + ReadHeaders(rest).0, ReadHeaders(rest).1)
  {
    assert STDIO + rest == "#include <" + ("stdio.h" + (">\n" + rest));
    IncludeIsRead("stdio.h", rest);
  }

  lemma StdlibIsRead(rest: string)
    ensures ReadHeaders(STDLIB + rest) == (["stdlib.h"] + ReadHeaders(rest).0, ReadHeaders(rest).1)
  {
    assert STDLIB + rest == "#include <" + ("stdlib.h" + (">\n" + rest));
    IncludeIsRead("stdlib.h", rest);
  }

  lemma HeadersAreRead(rest: string)
    requires !("#include <" <= rest)
    ensures ReadHeaders(STDIO + (STDLIB + rest)) == (["stdio.h", "stdlib.h"], rest)
  {
    var (last, all) := (["stdlib.h"], ["stdio.h", "stdlib.h"]);
    StdioIsRead(STDLIB + rest);
    StdlibIsRead(rest);
    NoHeader(rest);
    assert last + [] == last && ["stdio.h"] + last == all;
  }

  lemma NoHeader(rest: string)
    requires !("#include <" <= rest)
    ensures ReadHeaders(rest) == ([], rest)
  {
  }

  lemma PointerIsRead(rest: string)
    ensures ReadDecl(PTR + rest) == Some((IntVar("ptr", 0), rest))
  {
    Zero();
    assert PTR + rest == "int " + ("ptr" + (" = " + ("0" + (";" + rest))));
    IntVarIsRead("ptr", "0", rest);
  }

  lemma NoIntVar(text: string)
    requires text != "" && text[0] != 'i'
    ensures ReadIntVar(text) == None
  {
    assert "int "[0] == 'i';
  }

  lemma TapeIsRead(rest: string)
    ensures ReadDecl(TAPE + rest) == Some((CharArray(UnsignedChar, "cell", 1048576), rest))
  {
    Thousand();
    assert TAPE + rest == "unsigned char " + ("cell" + ("[" + ("1024" + ("*" + ("1024" + ("];" + rest))))));
    ArrayIsRead("cell", "1024", "1024", rest);
    assert (TAPE + rest)[0] == 'u';
    NoIntVar(TAPE + rest);
  }

  lemma NoDecl(rest: string)
    ensures ReadDecl(OPENING + rest) == None
  {
    assert (OPENING + rest)[0] == 'v' && "int "[0] == 'i' && "unsigned char "[0] == 'u' && "char "[0] == 'c';
  }

  const DECLS := [IntVar("ptr", 0), CharArray(UnsignedChar, "cell", 1048576)]

  lemma DeclStep(text: string, d: Decl, rest: string)
    requires ReadDecl(text) == Some((d, rest)) && |rest| < |text|
    ensures ReadDecls(text) == ([d] + ReadDecls(rest).0, ReadDecls(rest).1)
  {
  }

  lemma DeclsEnd(text: string)
    requires ReadDecl(text) == None
    ensures ReadDecls(text) == ([], text)
  {
  }

  lemma DeclsAreRead(rest: string)
    ensures ReadDecls(PTR + (TAPE + (OPENING + rest))) == (DECLS, OPENING + rest)
  {
    var more := TAPE + (OPENING + rest);
    PointerIsRead(more);
    DeclStep(PTR + more, DECLS[0], more);
    TapeIsRead(OPENING + rest);
    DeclStep(more, DECLS[1], OPENING + rest);
    NoDecl(rest);
    DeclsEnd(OPENING + rest);
    assert [DECLS[0]] + ([DECLS[1]] + []) == DECLS;
  }

  lemma AllDeclared()
    ensures Declares(["stdio.h", "stdlib.h"], DECLS)
  {
    assert DECLS[0].name == "ptr" && DECLS[1].name == "cell";
    assert ["stdio.h", "stdlib.h"][0] == "stdio.h";
  }

  /** The program the compiler writes for these statements. */
  function Compiled(body: Stmt): (p: Program)
    ensures WellFormed(p)
  {
    AllDeclared();
    Program(["stdio.h", "stdlib.h"], DECLS, body)
  }

  /** It starts with the pointer at 0 and 1048576 unsigned cells, all zero. */
  lemma CompiledBoot(body: Stmt, input: seq<byte>)
    ensures Boot(Compiled(body), input) == Machine(0, seq(1048576, k => 0), UnsignedChar, input, [])
  {
  }

  lemma EmittedIsRead(code: string)
    ensures var body := ReadBody(EmitFrom(code, 0) + "}");
            ReadC(Emit(code)) == if body.None? then None else Some(Compiled(body.value))
  {
    var text := EmitFrom(code, 0) + "}";
    var decls := PTR + (TAPE + (OPENING + text));
    assert decls[0] == 'i';
    HeadersAreRead(decls);
    DeclsAreRead(text);
    AllDeclared();
    BehindPrefix(OPENING, text);
  }

  lemma BodyIffBalanced(code: string)
    ensures ReadBody(EmitFrom(code, 0) + "}").Some? <==> Balanced(code)
    ensures forall p :: Spells(p, code) ==> ReadBody(EmitFrom(code, 0) + "}") == Some(StmtOf(p))
  {
    var text := EmitFrom(code, 0) + "}";
    LastLexes();
    EmitLexes(code, 0, "}", "]");
    var tokens := OpsFrom(code, 0) + "]";
    forall p | Spells(p, code) ensures ReadBody(text) == Some(StmtOf(p)) {
      OpsOfBlock(code, 0, p, |code|);
      ParseUndoesTokens(StmtOf(p), "");
      assert tokens == Tokens(StmtOf(p)) + ("]" + "");
    }
    if Balanced(code) {
      BalancedIffTree(code);
    }
    if ReadBody(text).Some? {
      ParseKeepsTokens(tokens);
      var s := ParseBlock(tokens).s;
      assert tokens == Tokens(s) + ("]" + "");
      assert OpsFrom(code, 0) == tokens[..|tokens| - 1] == Tokens(s) == Tokens(s) + "";
      TokensNest(s, "", 0);
      OpsKeepNesting(code, 0, 0);
    }
  }

  /** The compiler's output is a C program exactly for balanced texts: it includes what it calls and declares what
      it uses, `ptr` with the value 0 and `cell` with 1048576 unsigned characters, and its `while` loops are the
      matched bracket pairs. */
  lemma CompilesIffBalanced(code: string)
    ensures ReadC(Emit(code)).Some? <==> Balanced(code)
    ensures forall p :: Spells(p, code) ==>
              ReadC(Emit(code)) == Some(Program(["stdio.h", "stdlib.h"],
                                                [IntVar("ptr", 0), CharArray(UnsignedChar, "cell", 1048576)],
                                                StmtOf(p)))
  {
    EmittedIsRead(code);
    BodyIffBalanced(code);
  }
}
