/** Bracket structure of a Brainfuck text, shared by the interpreter and the compiler.
    A text is the character sequence in front of the terminating NUL. */
module Brackets {

  /** How one character changes the bracket depth. */
  function Delta(c: char): int {
    if c == '[' then 1 else if c == ']' then -1 else 0
  }

  /** Between `lo` and `hi`, entered at depth `d`, the depth never drops below zero and ends at zero. */
  predicate BalancedWithin(code: string, lo: nat, hi: nat, d: nat)
    requires lo <= hi <= |code|
    decreases hi - lo
  {
    if lo == hi then d == 0
    else d + Delta(code[lo]) >= 0 && BalancedWithin(code, lo + 1, hi, d + Delta(code[lo]))
  }

  predicate Balanced(code: string) {
    BalancedWithin(code, 0, |code|, 0)
  }

  /** `[` at `i` and `]` at `j` belong together: the text between them is balanced. */
  predicate Matched(code: string, i: nat, j: nat) {
    i < j < |code| && code[i] == '[' && code[j] == ']' && BalancedWithin(code, i + 1, j, 0)
  }

  /** The bracket structure of a piece of text, as a tree; `close` is the index of the closing bracket. */
  datatype Block =
    | End
    | Op(c: char, rest: Block)
    | Loop(body: Block, close: nat, rest: Block)

  /** Block `p` is what the text spells between `lo` and `hi`. */
  predicate At(code: string, lo: nat, p: Block, hi: nat)
    decreases p
  {
    match p
    case End => lo == hi <= |code|
    case Op(c, rest) => lo < |code| && code[lo] == c && c != '[' && c != ']' && At(code, lo + 1, rest, hi)
    case Loop(body, close, rest) =>
      lo < close < |code| && code[lo] == '[' && code[close] == ']'
      && At(code, lo + 1, body, close) && At(code, close + 1, rest, hi)
  }

  /** Recursive descent over a balanced suffix: the block up to the first unmatched `]` or the end. */
  function Tree(code: string, lo: nat, d: nat): (r: (Block, nat))
    requires lo <= |code| && BalancedWithin(code, lo, |code|, d)
    ensures lo <= r.1 <= |code| && BalancedWithin(code, r.1, |code|, d)
    ensures if d == 0 then r.1 == |code| else r.1 < |code| && code[r.1] == ']'
    decreases |code| - lo
  {
    if lo == |code| || code[lo] == ']' then (End, lo)
    else if code[lo] == '[' then
      var inner := Tree(code, lo + 1, d + 1);
      var after := Tree(code, inner.1 + 1, d);
      (Loop(inner.0, inner.1, after.0), after.1)
    else
      var after := Tree(code, lo + 1, d);
      (Op(code[lo], after.0), after.1)
  }

  lemma {:induction false} TreeIsThere(code: string, lo: nat, d: nat)
    requires lo <= |code| && BalancedWithin(code, lo, |code|, d)
    ensures At(code, lo, Tree(code, lo, d).0, Tree(code, lo, d).1)
    decreases |code| - lo
  {
    if lo == |code| || code[lo] == ']' {
    } else if code[lo] == '[' {
      var inner := Tree(code, lo + 1, d + 1);
      TreeIsThere(code, lo + 1, d + 1);
      TreeIsThere(code, inner.1 + 1, d);
    } else {
      TreeIsThere(code, lo + 1, d);
    }
  }

  lemma {:induction false} AtInside(code: string, lo: nat, p: Block, hi: nat)
    requires At(code, lo, p, hi)
    ensures lo <= hi <= |code|
    decreases p
  {
    match p
    case End =>
    case Op(_, rest) => AtInside(code, lo + 1, rest, hi);
    case Loop(_, close, rest) => AtInside(code, close + 1, rest, hi);
  }

  /** Walking over a block leaves the depth where it was. */
  lemma {:induction false} BlockKeepsDepth(code: string, lo: nat, p: Block, hi: nat, end: nat, d: nat)
    requires At(code, lo, p, hi) && lo <= hi <= end <= |code|
    ensures BalancedWithin(code, lo, end, d) == BalancedWithin(code, hi, end, d)
    decreases p
  {
    match p
    case End =>
    case Op(_, rest) =>
      AtInside(code, lo + 1, rest, hi);
      BlockKeepsDepth(code, lo + 1, rest, hi, end, d);
    case Loop(body, close, rest) =>
      AtInside(code, close + 1, rest, hi);
      BlockKeepsDepth(code, lo + 1, body, close, end, d + 1);
      BlockKeepsDepth(code, close + 1, rest, hi, end, d);
  }

  /** Block `p` is the whole text. */
  predicate Spells(p: Block, code: string) {
    At(code, 0, p, |code|)
  }

  /** A text is balanced exactly when it is spelled by a tree. */
  lemma BalancedIffTree(code: string)
    ensures Balanced(code) <==> exists p :: Spells(p, code)
  {
    if Balanced(code) {
      TreeIsThere(code, 0, 0);
      assert Spells(Tree(code, 0, 0).0, code);
    }
    forall p | Spells(p, code) ensures Balanced(code) {
      BlockKeepsDepth(code, 0, p, |code|, |code|, 0);
    }
  }

  /** A loop block in a text is a matched pair of brackets. */
  lemma LoopIsMatched(code: string, open: nat, body: Block, close: nat)
    requires open < close < |code| && code[open] == '[' && code[close] == ']'
    requires At(code, open + 1, body, close)
    ensures Matched(code, open, close)
  {
    BlockKeepsDepth(code, open + 1, body, close, close, 0);
  }

  /** Every bracket of a balanced text opens or closes a loop block. */
  lemma {:induction false} BracketInTree(code: string, lo: nat, p: Block, hi: nat, at: nat)
    returns (open: nat, body: Block, close: nat)
    requires At(code, lo, p, hi) && lo <= at < hi <= |code|
    requires code[at] == '[' || code[at] == ']'
    ensures open < close < |code| && code[open] == '[' && code[close] == ']' && At(code, open + 1, body, close)
    ensures at == if code[at] == '[' then open else close
    decreases p
  {
    match p
    case End => assert false;
    case Op(_, rest) =>
      open, body, close := BracketInTree(code, lo + 1, rest, hi, at);
    case Loop(b, c, rest) =>
      if at == lo || at == c {
        open, body, close := lo, b, c;
      } else if at < c {
        open, body, close := BracketInTree(code, lo + 1, b, c, at);
      } else {
        open, body, close := BracketInTree(code, c + 1, rest, hi, at);
      }
  }

  /** A bracket has at most one partner. */
  lemma MatchUnique(code: string, i: nat, j: nat, k: nat)
    requires Matched(code, i, j) && Matched(code, i, k)
    ensures j == k
  {
    if j < k {
      ClosesEarly(code, i + 1, j, k, 0);
    } else if k < j {
      ClosesEarly(code, i + 1, k, j, 0);
    }
  }

  lemma {:induction false} ClosesEarly(code: string, lo: nat, j: nat, k: nat, d: nat)
    requires lo <= j < k <= |code| && code[j] == ']' && BalancedWithin(code, lo, j, d)
    ensures !BalancedWithin(code, lo, k, d)
    decreases j - lo
  {
    if lo < j {
      ClosesEarly(code, lo + 1, j, k, d + Delta(code[lo]));
    }
  }
}
