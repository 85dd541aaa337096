/** `safedir`: a path is cleaned in place in a buffer of C characters. */
module SafeDir {
  import opened Wrappers

  const DOT: byte := 46
  const SLASH: byte := 47

  const DOTS: seq<byte> := [DOT, DOT]
  const SLASHES: seq<byte> := [SLASH, SLASH]
  const HERE: seq<byte> := [SLASH, DOT, SLASH]

  predicate IsPrint(c: byte) {
    0x20 <= c <= 0x7e
  }

  // ----- what the steps do to the string

  function Printables(s: seq<byte>): (r: seq<byte>)
    ensures |r| == |s| && forall k :: 0 <= k < |s| ==> r[k] == if IsPrint(s[k]) then s[k] else DOT
  {
    seq(|s|, k requires 0 <= k < |s| => if IsPrint(s[k]) then s[k] else DOT)
  }

  predicate At(s: seq<byte>, p: seq<byte>, i: nat) {
    i + |p| <= |s| && s[i..i + |p|] == p
  }

  /** The first place of `p` from `i` on, or the length. */
  function Find(s: seq<byte>, p: seq<byte>, i: nat): (r: nat)
    requires i <= |s|
    ensures i <= r <= |s| && (r < |s| ==> At(s, p, r))
    ensures forall k :: i <= k < r ==> !At(s, p, k)
    decreases |s| - i
  {
    if i == |s| || At(s, p, i) then i else Find(s, p, i + 1)
  }

  /** A pattern that starts and ends with the same character. */
  predicate Bracketed(p: seq<byte>) {
    |p| >= 2 && p[0] == p[|p| - 1]
  }

  /** The first character of the pattern stays, the others go. */
  function CutAt(s: seq<byte>, p: seq<byte>, i: nat): (r: seq<byte>)
    requires Bracketed(p) && At(s, p, i)
    ensures |r| == |s| - |p| + 1
  {
    s[..i + 1] + s[i + |p|..]
  }

  /** As long as the pattern occurs, its first occurrence is cut. */
  function Squeezed(s: seq<byte>, p: seq<byte>): (r: seq<byte>)
    requires Bracketed(p)
    ensures |r| <= |s|
    decreases |s|
  {
    var i := Find(s, p, 0);
    if i == |s| then s else Squeezed(CutAt(s, p, i), p)
  }

  function Unslashed(s: seq<byte>): seq<byte> {
    if s != [] && s[0] == SLASH then Unslashed(s[1..]) else s
  }

  function Cleaned(s: seq<byte>): seq<byte> {
    Squeezed(Squeezed(Squeezed(Printables(s), DOTS), SLASHES), HERE)
  }

  function Safedir(s: seq<byte>): seq<byte> {
    [SLASH] + Unslashed(Cleaned(s))
  }

  // ----- the buffer

  /** The buffer holds the string, with the final NUL. */
  ghost predicate Holds(b: seq<byte>, s: seq<byte>) {
    |s| < |b| && b[..|s|] == s && b[|s|] == 0 && 0 !in s
  }

  method StrLen(b: array<byte>, from: nat, ghost s: seq<byte>) returns (n: nat)
    requires Holds(b[..], s) && from <= |s|
    ensures n == |s| - from
  {
    n := 0;
    assert b[..][..|s| + 1] == s + [0];
    while b[from + n] != 0
      invariant from + n <= |s|
      decreases |s| - n
    {
      n := n + 1;
    }
    assert b[from + n] == (s + [0])[from + n];
  }

  /** `strstr`, with the length for a pattern that does not occur. */
  method StrStr(b: array<byte>, p: seq<byte>, ghost s: seq<byte>) returns (i: nat)
    requires Holds(b[..], s)
    ensures i == Find(s, p, 0)
  {
    var n := StrLen(b, 0, s);
    i := 0;
    while i < n
      invariant i <= n == |s| && Find(s, p, i) == Find(s, p, 0)
    {
      if i + |p| <= n {
        assert forall k :: 0 <= k < |s| ==> b[k] == b[..][..|s|][k];
        assert b[i..i + |p|] == s[i..i + |p|];
        if b[i..i + |p|] == p {
          return;
        }
      }
      i := i + 1;
    }
  }

  method MemMove(b: array<byte>, to: nat, from: nat, n: nat)
    requires to + n <= b.Length && from + n <= b.Length
    modifies b
    ensures b[..] == old(b[..to]) + old(b[from..from + n]) + old(b[to + n..])
  {
    ghost var was := b[..];
    forall k | 0 <= k < n {
      b[to + k] := b[from + k];
    }
    assert forall k :: 0 <= k < b.Length ==> b[k] == if to <= k < to + n then was[from + k - to] else was[k];
  }

  /** One cut: what follows the pattern, with the final NUL, is moved behind its first character. */
  method Cut(b: array<byte>, p: seq<byte>, i: nat, ghost s: seq<byte>)
    requires Bracketed(p) && Holds(b[..], s) && At(s, p, i)
    modifies b
    ensures Holds(b[..], CutAt(s, p, i))
  {
    var rest := StrLen(b, i + |p|, s);
    MemMove(b, i + 1, i + |p|, rest + 1);
  }

  /** The loop over all occurrences. */
  method Squeeze(b: array<byte>, p: seq<byte>, ghost s: seq<byte>)
    requires Bracketed(p) && Holds(b[..], s)
    modifies b
    ensures Holds(b[..], Squeezed(s, p))
  {
    ghost var t := s;
    var i := StrStr(b, p, t);
    var n := StrLen(b, 0, t);
    while i < n
      invariant Holds(b[..], t) && n == |t| && i == Find(t, p, 0) && Squeezed(t, p) == Squeezed(s, p)
      decreases |t|
    {
      Cut(b, p, i, t);
      t := CutAt(t, p, i);
      i := StrStr(b, p, t);
      n := StrLen(b, 0, t);
    }
  }

  /** `safedir`. */
  method SafeDirectory(dir: seq<byte>) returns (r: seq<byte>)
    requires 0 !in dir
    ensures r == Safedir(dir)
  {
    var len := |dir|;
    var ret := new byte[len + 2](k => 0);
    CopyPrintables(ret, dir);
    ghost var s := Printables(dir);
    Squeeze(ret, DOTS, s);
    s := Squeezed(s, DOTS);
    Squeeze(ret, SLASHES, s);
    s := Squeezed(s, SLASHES);
    Squeeze(ret, HERE, s);
    s := Squeezed(s, HERE);
    assert s == Cleaned(dir);
    len := DropSlashes(ret, len, s);
    r := WithSlash(ret, Unslashed(s));
  }

  /** The copy, with what is not printable replaced. */
  method CopyPrintables(ret: array<byte>, dir: seq<byte>)
    requires ret.Length == |dir| + 2 && 0 !in dir && forall k :: 0 <= k < ret.Length ==> ret[k] == 0
    modifies ret
    ensures Holds(ret[..], Printables(dir))
  {
    forall k | 0 <= k < |dir| {
      ret[k] := dir[k];
    }
    for i := 0 to |dir|
      invariant forall k :: i <= k < |dir| ==> ret[k] == dir[k]
      invariant forall k :: 0 <= k < i ==> ret[k] == Printables(dir)[k]
      invariant ret[|dir|] == 0
    {
      if !IsPrint(ret[i]) {
        ret[i] := DOT;
      }
    }
    assert ret[..|dir|] == Printables(dir);
  }

  /** The leading slashes are moved out; `len` is the length there was at first. */
  method DropSlashes(ret: array<byte>, n: nat, ghost s: seq<byte>) returns (len: nat)
    requires Holds(ret[..], s) && |s| <= n && ret.Length >= n + 2
    modifies ret
    ensures Holds(ret[..], Unslashed(s)) && |Unslashed(s)| <= len
  {
    len := n;
    ghost var t := s;
    while len > 0 && ret[0] == SLASH
      invariant Holds(ret[..], t) && |t| <= len <= n && Unslashed(t) == Unslashed(s)
      decreases len
    {
      assert ret[0] == ret[..][0] && t != [];
      MemMove(ret, 0, 1, len);
      t := t[1..];
      len := len - 1;
    }
    if t != [] {
      assert ret[..][0] == t[0];
    }
  }

  method WithSlash(ret: array<byte>, ghost s: seq<byte>) returns (r: seq<byte>)
    requires Holds(ret[..], s)
    ensures r == [SLASH] + s
  {
    var n := StrLen(ret, 0, s);
    r := [SLASH] + ret[..n];
  }

  // ----- what the result looks like

  ghost predicate Lacks(s: seq<byte>, p: seq<byte>) {
    forall i :: 0 <= i < |s| ==> !At(s, p, i)
  }

  ghost predicate AllPrint(s: seq<byte>) {
    forall k :: 0 <= k < |s| ==> IsPrint(s[k])
  }

  lemma PairAt(s: seq<byte>, c: byte, i: nat)
    ensures At(s, [c, c], i) <==> i + 1 < |s| && s[i] == c && s[i + 1] == c
  {
  }

  lemma HereAt(s: seq<byte>, i: nat)
    ensures At(s, HERE, i) <==> i + 2 < |s| && s[i] == SLASH && s[i + 1] == DOT && s[i + 2] == SLASH
  {
  }

  /** A cut puts no two characters side by side that were not so before. */
  lemma CutKeepsPairs(s: seq<byte>, p: seq<byte>, i: nat, c: byte)
    requires Bracketed(p) && At(s, p, i) && Lacks(s, [c, c])
    ensures Lacks(CutAt(s, p, i), [c, c])
  {
    var t := CutAt(s, p, i);
    assert s[i] == s[i..i + |p|][0] && s[i + |p| - 1] == s[i..i + |p|][|p| - 1];
    forall k | 0 <= k < |t| ensures !At(t, [c, c], k) {
      PairAt(t, c, k);
      PairAt(s, c, if k < i then k else k + |p| - 1);
    }
  }

  /** Squeezing removes the pattern and keeps the rest in order. */
  lemma {:induction false} SqueezedLacks(s: seq<byte>, p: seq<byte>)
    requires Bracketed(p)
    ensures Lacks(Squeezed(s, p), p)
    ensures AllPrint(s) ==> AllPrint(Squeezed(s, p))
    decreases |s|
  {
    var i := Find(s, p, 0);
    if i < |s| {
      SqueezedLacks(CutAt(s, p, i), p);
    }
  }

  lemma {:induction false} SqueezedKeepsPairs(s: seq<byte>, p: seq<byte>, c: byte)
    requires Bracketed(p) && Lacks(s, [c, c])
    ensures Lacks(Squeezed(s, p), [c, c])
    decreases |s|
  {
    var i := Find(s, p, 0);
    if i < |s| {
      CutKeepsPairs(s, p, i, c);
      SqueezedKeepsPairs(CutAt(s, p, i), p, c);
    }
  }

  lemma CleanedLacks(s: seq<byte>)
    ensures var t := Cleaned(s); AllPrint(t) && Lacks(t, DOTS) && Lacks(t, SLASHES) && Lacks(t, HERE)
  {
    var a := Printables(s);
    var b := Squeezed(a, DOTS);
    var c := Squeezed(b, SLASHES);
    SqueezedLacks(a, DOTS);
    SqueezedLacks(b, SLASHES);
    SqueezedLacks(c, HERE);
    SqueezedKeepsPairs(b, SLASHES, DOT);
    SqueezedKeepsPairs(c, HERE, DOT);
    SqueezedKeepsPairs(c, HERE, SLASH);
  }

  lemma TailAt(s: seq<byte>, p: seq<byte>, i: nat)
    requires s != []
    ensures At(s[1..], p, i) <==> At(s, p, i + 1)
  {
  }

  lemma TailLacks(s: seq<byte>, p: seq<byte>)
    requires s != [] && p != [] && Lacks(s, p)
    ensures Lacks(s[1..], p)
  {
    forall i | 0 <= i < |s| - 1 ensures !At(s[1..], p, i) {
      TailAt(s, p, i);
    }
  }

  /** Without `//` there is at most one leading slash. */
  lemma UnslashedIs(s: seq<byte>)
    requires Lacks(s, SLASHES)
    ensures Unslashed(s) == if s != [] && s[0] == SLASH then s[1..] else s
    ensures Unslashed(s) == [] || Unslashed(s)[0] != SLASH
  {
    PairAt(s, SLASH, 0);
    if s != [] && s[0] == SLASH {
      assert s[1..] == [] || s[1..][0] == s[1];
    }
  }

  lemma SlashInFront(t: seq<byte>, c: byte)
    requires Lacks(t, [c, c]) && (c == SLASH ==> t == [] || t[0] != SLASH)
    ensures Lacks([SLASH] + t, [c, c])
  {
    var s := [SLASH] + t;
    assert s[1..] == t;
    forall i | 0 <= i < |s| ensures !At(s, [c, c], i) {
      if i == 0 {
        PairAt(s, c, 0);
      } else {
        TailAt(s, [c, c], i - 1);
      }
    }
  }

  /** Characters 0x20 to 0x7e only. */
  ghost predicate IsText(s: seq<byte>) {
    forall k :: 0 <= k < |s| ==> 0x20 <= s[k] <= 0x7e
  }

  /** No two of the character in a row. */
  ghost predicate NoneTwice(s: seq<byte>, c: byte) {
    forall k :: 0 <= k < |s| - 1 ==> !(s[k] == c && s[k + 1] == c)
  }

  lemma NoneTwiceIs(s: seq<byte>, c: byte)
    ensures Lacks(s, [c, c]) <==> NoneTwice(s, c)
  {
    if Lacks(s, [c, c]) {
      forall k | 0 <= k < |s| - 1 ensures !(s[k] == c && s[k + 1] == c) {
        PairAt(s, c, k);
        assert !At(s, [c, c], k);
      }
    } else {
      var k :| 0 <= k < |s| && At(s, [c, c], k);
      PairAt(s, c, k);
    }
  }

  /** The result starts with a slash, is all printable, and has neither two dots (46) nor two slashes (47) in a
      row. */
  lemma SafedirIsSafe(s: seq<byte>)
    ensures var r := Safedir(s); r[0] == 47 && IsText(r) && NoneTwice(r, 46) && NoneTwice(r, 47)
  {
    SafedirLacks(s);
    NoneTwiceIs(Safedir(s), DOT);
    NoneTwiceIs(Safedir(s), SLASH);
  }

  lemma SafedirLacks(s: seq<byte>)
    ensures var r := Safedir(s);
            r[0] == SLASH && AllPrint(r) && Lacks(r, DOTS) && Lacks(r, SLASHES)
  {
    var t := Cleaned(s);
    CleanedLacks(s);
    UnslashedIs(t);
    if t != [] && t[0] == SLASH {
      TailLacks(t, DOTS);
      TailLacks(t, SLASHES);
    }
    SlashInFront(Unslashed(t), DOT);
    SlashInFront(Unslashed(t), SLASH);
  }

  // ----- fixed points

  /** A slash, printable characters, nowhere `..`, `//` or `/./`. */
  ghost predicate Clean(s: seq<byte>) {
    && s != [] && s[0] == 47 && IsText(s) && NoneTwice(s, 46) && NoneTwice(s, 47)
    && forall k :: 0 <= k < |s| - 2 ==> !(s[k] == 47 && s[k + 1] == 46 && s[k + 2] == 47)
  }

  lemma NoHereIs(s: seq<byte>)
    ensures Lacks(s, HERE) <==> forall k :: 0 <= k < |s| - 2 ==> !(s[k] == 47 && s[k + 1] == 46 && s[k + 2] == 47)
  {
    if Lacks(s, HERE) {
      forall k | 0 <= k < |s| - 2 ensures !(s[k] == 47 && s[k + 1] == 46 && s[k + 2] == 47) {
        HereAt(s, k);
        assert !At(s, HERE, k);
      }
    } else {
      var k :| 0 <= k < |s| && At(s, HERE, k);
      HereAt(s, k);
    }
  }

  lemma CleanIs(s: seq<byte>)
    ensures Clean(s) <==> s != [] && s[0] == SLASH && AllPrint(s) && Lacks(s, DOTS) && Lacks(s, SLASHES)
                          && Lacks(s, HERE)
  {
    NoneTwiceIs(s, DOT);
    NoneTwiceIs(s, SLASH);
    NoHereIs(s);
  }

  lemma CleanIsFixed(s: seq<byte>)
    requires Clean(s)
    ensures Safedir(s) == s
  {
    CleanIs(s);
    assert Printables(s) == s;
    UnslashedIs(s);
  }

  /** Characters that are not printable become dots, the others stay. */
  lemma ReplacedByDots(s: seq<byte>, t: seq<byte>)
    requires |t| == |s| && forall k :: 0 <= k < |s| ==> t[k] == if 0x20 <= s[k] <= 0x7e then s[k] else 46
    requires Clean(t)
    ensures Safedir(s) == t
  {
    CleanIsFixed(t);
    assert Printables(s) == t == Printables(t);
  }

  lemma {:induction false} UnslashedShorter(s: seq<byte>)
    ensures |Unslashed(s)| <= |s| - if s != [] && s[0] == SLASH then 1 else 0
  {
    if s != [] && s[0] == SLASH {
      UnslashedShorter(s[1..]);
    }
  }

  lemma {:induction false} SqueezedStarts(s: seq<byte>, p: seq<byte>)
    requires Bracketed(p) && s != []
    ensures Squeezed(s, p) != [] && Squeezed(s, p)[0] == s[0]
    decreases |s|
  {
    var i := Find(s, p, 0);
    if i < |s| {
      SqueezedStarts(CutAt(s, p, i), p);
    }
  }

  /** The strings `safedir` leaves alone are the clean ones. */
  lemma FixedIffClean(s: seq<byte>)
    ensures Safedir(s) == s <==> Clean(s)
  {
    if Clean(s) {
      CleanIsFixed(s);
    }
    if Safedir(s) == s {
      CleanIs(s);
      SafedirLacks(s);
      assert Printables(s) == s;
      SqueezedStarts(s, HERE);
      UnslashedShorter(Squeezed(s, HERE));
    }
  }

  // ----- twice

  /** One or more dots, and then a slash. */
  predicate DotsThenSlash(s: seq<byte>) {
    |s| >= 2 && s[0] == DOT && (s[1] == SLASH || DotsThenSlash(s[1..]))
  }

  /** Cutting slashes leaves a string that starts with a dot alone in its first two characters. */
  lemma {:induction false} SlashCutsKeepStart(s: seq<byte>, p: seq<byte>)
    requires Bracketed(p) && p[0] == SLASH && |s| >= 2 && s[0] == DOT
    ensures var t := Squeezed(s, p); |t| >= 2 && t[0] == s[0] && t[1] == s[1]
    decreases |s|
  {
    var i := Find(s, p, 0);
    if i < |s| {
      assert s[i] == s[i..i + |p|][0];
      SlashCutsKeepStart(CutAt(s, p, i), p);
    }
  }

  lemma {:induction false} DotCutsKeepDots(s: seq<byte>)
    ensures DotsThenSlash(Squeezed(s, DOTS)) <==> DotsThenSlash(s)
    decreases |s|
  {
    var i := Find(s, DOTS, 0);
    if i < |s| {
      DotCutsKeepDots(CutAt(s, DOTS, i));
    }
  }

  predicate DotSlash(s: seq<byte>) {
    |s| >= 2 && s[0] == DOT && s[1] == SLASH
  }

  /** A cleaned string starts with a dot and a slash when there were dots, or characters replaced by dots, in
      front of the first slash. */
  lemma CleanedDotSlash(s: seq<byte>)
    ensures DotSlash(Cleaned(s)) <==> DotsThenSlash(Printables(s))
  {
    var a := Printables(s);
    var b := Squeezed(a, DOTS);
    var c := Squeezed(b, SLASHES);
    DotCutsKeepDots(a);
    SqueezedLacks(a, DOTS);
    PairAt(b, DOT, 0);
    SlashKeepsDotSlash(b, SLASHES);
    SlashKeepsDotSlash(c, HERE);
  }

  lemma SlashKeepsDotSlash(s: seq<byte>, p: seq<byte>)
    requires Bracketed(p) && p[0] == SLASH
    ensures DotSlash(Squeezed(s, p)) <==> DotSlash(s)
  {
  }

  lemma HereInFront(t: seq<byte>)
    requires Lacks(t, HERE)
    ensures Lacks([SLASH] + t, HERE) <==> !DotSlash(t)
  {
    var s := [SLASH] + t;
    assert s[1..] == t;
    HereAt(s, 0);
    forall i | 0 < i < |s| ensures !At(s, HERE, i) {
      TailAt(s, HERE, i - 1);
    }
  }

  /** `safedir` is idempotent on a string exactly when the string does not start with dots (or characters that
      are not printable) and then a slash; a string that starts with a slash never does. */
  lemma IdempotentIff(s: seq<byte>)
    ensures Safedir(Safedir(s)) == Safedir(s) <==> !DotsThenSlash(Printables(s))
  {
    var t := Cleaned(s);
    var u := Unslashed(t);
    CleanedLacks(s);
    UnslashedIs(t);
    SafedirLacks(s);
    CleanIs(Safedir(s));
    FixedIffClean(Safedir(s));
    CleanedDotSlash(s);
    if t != [] && t[0] == SLASH {
      TailLacks(t, HERE);
      HereAt(t, 0);
    }
    HereInFront(u);
  }

  /** So the second application always gives a fixed point. */
  lemma TwiceIsEnough(s: seq<byte>)
    ensures Safedir(Safedir(Safedir(s))) == Safedir(Safedir(s))
  {
    SafedirLacks(s);
    IdempotentIff(Safedir(s));
  }

  // ----- which cut is made first does not matter

  lemma AtInFront(a: seq<byte>, b: seq<byte>, p: seq<byte>, k: nat)
    requires k + |p| <= |a|
    ensures At(a + b, p, k) <==> At(a, p, k)
  {
    assert (a + b)[k..k + |p|] == a[k..k + |p|];
  }

  lemma {:induction false} FindIs(s: seq<byte>, p: seq<byte>, from: nat, i: nat)
    requires from <= i < |s| && At(s, p, i) && forall k :: from <= k < i ==> !At(s, p, k)
    ensures Find(s, p, from) == i
    decreases i - from
  {
    if from < i {
      FindIs(s, p, from + 1, i);
    }
  }

  /** The first occurrence in the front of a string is the first in the whole. */
  lemma CutInFront(a: seq<byte>, b: seq<byte>, p: seq<byte>, i: nat)
    requires Bracketed(p) && At(a, p, i) && i == Find(a, p, 0)
    ensures At(a + b, p, i) && Find(a + b, p, 0) == i && CutAt(a + b, p, i) == CutAt(a, p, i) + b
  {
    AtInFront(a, b, p, i);
    forall k | 0 <= k < i ensures !At(a + b, p, k) {
      AtInFront(a, b, p, k);
    }
    FindIs(a + b, p, 0, i);
    assert (a + b)[..i + 1] == a[..i + 1];
    assert (a + b)[i + |p|..] == a[i + |p|..] + b;
  }

  lemma Occurs(a: seq<byte>, p: seq<byte>, b: seq<byte>)
    requires Bracketed(p)
    ensures var s := a + (p + b); At(s, p, |a|) && CutAt(s, p, |a|) == a + ([p[0]] + b)
  {
    var s := a + (p + b);
    assert s[|a|..|a| + |p|] == p;
    assert s[..|a| + 1] == a + [p[0]] && s[|a| + |p|..] == b;
  }

  lemma InFrontIsSooner(a: seq<byte>, p: seq<byte>, b: seq<byte>)
    requires Bracketed(p) && Find(a, p, 0) == |a|
    ensures Find(a + (p + b), p, 0) <= |a| < Find(a + (p + b), p, 0) + |p|
  {
    var s := a + (p + b);
    var i := Find(s, p, 0);
    Occurs(a, p, b);
    if i + |p| <= |a| {
      AtInFront(a, p + b, p, i);
    }
  }

  /** Two equal characters behind one more: whichever pair is cut, one goes. */
  lemma PairOverlap(a: seq<byte>, c: byte, b: seq<byte>)
    requires a != [] && At(a + ([c, c] + b), [c, c], |a| - 1)
    ensures CutAt(a + ([c, c] + b), [c, c], |a| - 1) == a + ([c] + b)
  {
    var s := a + ([c, c] + b);
    assert s[..|a|] == a && s[|a| + 1..] == [c] + b;
  }

  lemma HereOverlap(a: seq<byte>, b: seq<byte>, i: nat)
    requires i < |a| < i + 3 && At(a + (HERE + b), HERE, i)
    ensures i == |a| - 2 && a == a[..i] + [SLASH, DOT]
    ensures CutAt(a + (HERE + b), HERE, i) == a[..i] + (HERE + b)
    ensures a + ([SLASH] + b) == a[..i] + (HERE + b)
  {
    var s := a + (HERE + b);
    HereAt(s, i);
    assert s[|a|] == SLASH && s[i + 1] == DOT;
    assert a == a[..i] + [SLASH, DOT];
    assert s[i + 3..] == [DOT, SLASH] + b && s[..i + 1] == a[..i] + [SLASH];
  }

  lemma SqueezedFrom(s: seq<byte>, p: seq<byte>, i: nat)
    requires Bracketed(p) && i < |s| && At(s, p, i) && i == Find(s, p, 0)
    ensures Squeezed(s, p) == Squeezed(CutAt(s, p, i), p)
  {
  }

  /** Every occurrence may be cut first: the result is what is left when nothing more can be cut. */
  lemma {:induction false} CutAnywhere(a: seq<byte>, p: seq<byte>, b: seq<byte>)
    requires p == [DOT, DOT] || p == [SLASH, SLASH] || p == [SLASH, DOT, SLASH]
    ensures Squeezed(a + (p + b), p) == Squeezed(a + ([p[0]] + b), p)
    decreases |a|
  {
    var s, i, k := a + (p + b), Find(a + (p + b), p, 0), Find(a, p, 0);
    if k < |a| {
      CutInFront(a, p + b, p, k);
      CutInFront(a, [p[0]] + b, p, k);
      SqueezedFrom(s, p, k);
      SqueezedFrom(a + ([p[0]] + b), p, k);
      CutAnywhere(CutAt(a, p, k), p, b);
    } else {
      InFrontIsSooner(a, p, b);
      SqueezedFrom(s, p, i);
      if i == |a| {
        Occurs(a, p, b);
      } else if p == HERE {
        HereOverlap(a, b, i);
      } else {
        PairOverlap(a, p[0], b);
      }
    }
  }

  lemma NothingToCut(s: seq<byte>, p: seq<byte>)
    requires Bracketed(p) && Lacks(s, p)
    ensures Squeezed(s, p) == s
  {
  }

  lemma PrintKept(s: seq<byte>)
    requires AllPrint(s)
    ensures Printables(s) == s
  {
  }

  lemma CutLacks(a: seq<byte>, p: seq<byte>, b: seq<byte>, c: byte)
    requires Bracketed(p) && Lacks(a + (p + b), [c, c])
    ensures Lacks(a + ([p[0]] + b), [c, c])
  {
    Occurs(a, p, b);
    CutKeepsPairs(a + (p + b), p, |a|, c);
  }

  /** So `safedir` reads two dots as one, then two slashes as one, and then passes over `./` behind a slash. */
  lemma SafedirCuts(a: seq<byte>, p: seq<byte>, b: seq<byte>)
    requires p == [DOT, DOT] || p == [SLASH, SLASH] || p == [SLASH, DOT, SLASH]
    requires AllPrint(a + (p + b)) && (p[0] == SLASH ==> Lacks(a + (p + b), [DOT, DOT]))
    requires p == [SLASH, DOT, SLASH] ==> Lacks(a + (p + b), [SLASH, SLASH])
    ensures Safedir(a + (p + b)) == Safedir(a + ([p[0]] + b))
  {
    var (s, t) := (a + (p + b), a + ([p[0]] + b));
    forall k | 0 <= k < |t| ensures IsPrint(t[k]) {
      assert t[k] == s[if k <= |a| then k else k + |p| - 1];
    }
    PrintKept(s);
    PrintKept(t);
    CutAnywhere(a, p, b);
    if p[0] == SLASH {
      CutLacks(a, p, b, DOT);
      NothingToCut(s, DOTS);
      NothingToCut(t, DOTS);
      if p == HERE {
        CutLacks(a, p, b, SLASH);
        NothingToCut(s, SLASHES);
        NothingToCut(t, SLASHES);
      }
    }
  }
}
