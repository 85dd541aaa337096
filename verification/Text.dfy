/** Strings as the program cuts and joins them: splitting that drops empty pieces, stripping, and `trim`,
    which takes the indentation of the first line off every line. */
module Text {

  const NL := '\n'

  // ----- splitting

  /** The index of the first `f`, or the length. */
  function Cut(s: string, f: char): (j: nat)
    ensures j <= |s| && f !in s[..j] && (j < |s| ==> s[j] == f)
  {
    if s == "" || s[0] == f then 0
    else
      assert s[..Cut(s[1..], f) + 1] == [s[0]] + s[1..][..Cut(s[1..], f)];
      1 + Cut(s[1..], f)
  }

  /** All pieces between separators, empty ones included. */
  function Split(s: string, f: char): (r: seq<string>)
    decreases |s|
  {
    var j := Cut(s, f);
    [s[..j]] + if j < |s| then Split(s[j + 1..], f) else []
  }

  function NonEmpty(pieces: seq<string>): seq<string> {
    if pieces == [] then []
    else (if pieces[0] == "" then [] else [pieces[0]]) + NonEmpty(pieces[1..])
  }

  /** `ssplit` with a separator of one character. */
  function Pieces(s: string, f: char): seq<string> {
    NonEmpty(Split(s, f))
  }

  method DropEmpty(pieces: seq<string>) returns (ret: seq<string>)
    ensures ret == NonEmpty(pieces)
  {
    ret := [];
    assert pieces[0..] == pieces;
    for i := 0 to |pieces|
      invariant ret + NonEmpty(pieces[i..]) == NonEmpty(pieces)
    {
      assert pieces[i..][1..] == pieces[i + 1..];
      if |pieces[i]| > 0 {
        ret := ret + [pieces[i]];
      }
    }
  }

  method Ssplit(data: string, f: char) returns (ret: seq<string>)
    ensures ret == Pieces(data, f)
  {
    if |data| == 0 {
      PiecesOfNone(f);
      return [];
    }
    if f !in data {
      PiecesOfOne(data, f);
      return [data];
    }
    ret := DropEmpty(Split(data, f));
  }

  function Lines(s: string): seq<string> {
    Pieces(s, NL)
  }

  /** Every line with its line end. */
  function Joined(lines: seq<string>): string {
    if lines == [] then "" else lines[0] + [NL] + Joined(lines[1..])
  }

  ghost predicate IsLine(line: string) {
    line != "" && NL !in line
  }

  ghost predicate AreLines(lines: seq<string>) {
    forall k :: 0 <= k < |lines| ==> IsLine(lines[k])
  }

  lemma {:induction false} CutAt(a: string, f: char, rest: string)
    requires f !in a
    ensures Cut(a + [f] + rest, f) == |a|
  {
    if a != "" {
      assert (a + [f] + rest)[1..] == a[1..] + [f] + rest;
      CutAt(a[1..], f, rest);
    }
  }

  /** A piece, a separator and the rest. */
  lemma PiecesStep(a: string, f: char, rest: string)
    requires f !in a
    ensures Pieces(a + [f] + rest, f) == (if a == "" then [] else [a]) + Pieces(rest, f)
  {
    var s := a + [f] + rest;
    CutAt(a, f, rest);
    assert s[..|a|] == a && s[|a| + 1..] == rest;
    assert Split(s, f) == [a] + Split(rest, f);
    assert Split(s, f)[1..] == Split(rest, f);
  }

  lemma PiecesOfOne(a: string, f: char)
    requires f !in a && a != ""
    ensures Pieces(a, f) == [a]
  {
    var j := Cut(a, f);
    assert j == |a| && a[..j] == a;
    assert Split(a, f) == [a];
    assert NonEmpty([a]) == [a] + NonEmpty([a][1..]);
  }

  lemma PiecesOfNone(f: char)
    ensures Pieces("", f) == []
  {
    assert Split("", f) == [""];
    assert NonEmpty([""]) == [] + NonEmpty([""][1..]);
  }

  lemma FirstAndRest<T>(a: seq<T>, b: seq<T>)
    requires a != []
    ensures [a[0]] + (a[1..] + b) == a + b
  {
  }

  /** Splitting undoes joining. */
  lemma {:induction false} LinesOfJoined(lines: seq<string>, rest: string)
    requires AreLines(lines)
    ensures Lines(Joined(lines) + rest) == lines + Lines(rest)
  {
    if lines == [] {
      assert Joined(lines) + rest == rest;
    } else {
      var tail := Joined(lines[1..]) + rest;
      assert AreLines(lines[1..]);
      assert Joined(lines) + rest == lines[0] + [NL] + tail;
      assert Lines(lines[0] + [NL] + tail) == [lines[0]] + Lines(tail) by {
        PiecesStep(lines[0], NL, tail);
      }
      LinesOfJoined(lines[1..], rest);
      FirstAndRest(lines, Lines(rest));
    }
  }

  lemma LinesOfOne(a: string)
    requires NL !in a
    ensures Lines(a) == if a == "" then [] else [a]
  {
    if a == "" {
      PiecesOfNone(NL);
    } else {
      PiecesOfOne(a, NL);
    }
  }

  lemma TwoBreaks(a: string, rest: string, t: string)
    ensures (a + [NL] + rest) + [NL] + t == a + [NL] + (rest + [NL] + t)
  {
  }

  /** What is appended behind a line end adds its own lines. */
  lemma {:induction false} LinesAppend(s: string, t: string)
    ensures Lines(s + [NL] + t) == Lines(s) + Lines(t)
    decreases |s|
  {
    var j := Cut(s, NL);
    var a := s[..j];
    if j == |s| {
      assert a == s;
      LinesOfOne(s);
      PiecesStep(s, NL, t);
    } else {
      var rest := s[j + 1..];
      assert s == a + [NL] + rest;
      TwoBreaks(a, rest, t);
      PiecesStep(a, NL, rest);
      PiecesStep(a, NL, rest + [NL] + t);
      LinesAppend(rest, t);
      Assoc(if a == "" then [] else [a], Lines(rest), Lines(t));
    }
  }

  lemma LinesOfText(lines: seq<string>)
    requires AreLines(lines)
    ensures Lines(Joined(lines)) == lines
  {
    LinesOfJoined(lines, "");
    PiecesOfNone(NL);
    assert Joined(lines) + "" == Joined(lines);
  }

  lemma {:induction false} JoinedAppend(a: seq<string>, b: seq<string>)
    ensures Joined(a + b) == Joined(a) + Joined(b)
  {
    if a == [] {
      assert a + b == b;
    } else {
      assert (a + b)[1..] == a[1..] + b;
      JoinedAppend(a[1..], b);
    }
  }

  lemma JoinedOneMore(lines: seq<string>, line: string)
    ensures Joined(lines + [line]) == Joined(lines) + line + [NL]
  {
    JoinedAppend(lines, [line]);
    assert Joined([line]) == line + [NL];
  }

  lemma Assoc<T>(a: seq<T>, b: seq<T>, c: seq<T>)
    ensures (a + b) + c == a + (b + c)
  {
  }

  // ----- prefixes, stripping

  predicate StartsWith(s: string, f: string) {
    |f| <= |s| && s[..|f|] == f
  }

  predicate EndsWith(s: string, f: string) {
    |f| <= |s| && s[|s| - |f|..] == f
  }

  predicate IsSpace(c: char) {
    c == ' ' || c == '\t' || c == '\n' || c == '\r' || c == '\U{0c}'
  }

  function StripLeft(s: string): string {
    if s != "" && IsSpace(s[0]) then StripLeft(s[1..]) else s
  }

  function StripRight(s: string): string {
    if s != "" && IsSpace(s[|s| - 1]) then StripRight(s[..|s| - 1]) else s
  }

  function Strip(s: string): string {
    StripRight(StripLeft(s))
  }

  /** Spaces, tabs, line ends, carriage returns and form feeds. */
  ghost predicate OnlySpaces(s: string) {
    forall k :: 0 <= k < |s| ==> s[k] in [' ', '\t', '\n', '\r', '\U{0c}']
  }

  lemma {:induction false} StripLeftIs(s: string) returns (left: string)
    ensures s == left + StripLeft(s) && OnlySpaces(left)
    ensures StripLeft(s) != "" ==> !OnlySpaces([StripLeft(s)[0]])
  {
    left := "";
    if s != "" && IsSpace(s[0]) {
      var rest := StripLeftIs(s[1..]);
      left := [s[0]] + rest;
    } else if s != "" {
      assert [s[0]][0] !in [' ', '\t', '\n', '\r', '\U{0c}'];
    }
  }

  lemma {:induction false} StripRightIs(s: string) returns (right: string)
    ensures s == StripRight(s) + right && OnlySpaces(right)
    ensures StripRight(s) <= s && (StripRight(s) != "" ==> !OnlySpaces([StripRight(s)[|StripRight(s)| - 1]]))
  {
    right := "";
    if s != "" && IsSpace(s[|s| - 1]) {
      var rest := StripRightIs(s[..|s| - 1]);
      right := rest + [s[|s| - 1]];
    } else if s != "" {
      assert [s[|s| - 1]][0] !in [' ', '\t', '\n', '\r', '\U{0c}'];
    }
  }

  /** Stripping takes the spaces off both ends, and nothing else. */
  lemma StripIs(s: string) returns (left: string, right: string)
    ensures s == left + Strip(s) + right && OnlySpaces(left) && OnlySpaces(right)
    ensures var t := Strip(s); t != "" ==> !OnlySpaces([t[0]]) && !OnlySpaces([t[|t| - 1]])
  {
    left := StripLeftIs(s);
    right := StripRightIs(StripLeft(s));
    assert StripLeft(s) == Strip(s) + right;
    Assoc(left, Strip(s), right);
  }

  /** The spaces in front of a text end at its first solid character. */
  lemma StripEnds(s: string, k: nat, left: string)
    requires k < |s| && OnlySpaces(s[..k]) && !OnlySpaces([s[k]]) && left <= s && OnlySpaces(left)
    requires |left| == |s| || !OnlySpaces([s[|left|]])
    ensures |left| == k
  {
    assert forall j :: 0 <= j < |left| ==> OnlySpaces([s[j]]);
    assert forall j :: 0 <= j < k ==> s[..k][j] == s[j];
  }

  lemma FirstSolid(s: string, k: nat)
    requires k < |s| && OnlySpaces(s[..k]) && !OnlySpaces([s[k]])
    ensures Strip(s) != "" && Strip(s)[0] == s[k]
  {
    var left, right := StripIs(s);
    StripEnds(s, k, left);
    assert Strip(s) == "" ==> s == left + right;
  }

  lemma BlankOrSolid(a: string)
    ensures OnlySpaces(a) <==> Strip(a) == ""
    ensures !OnlySpaces(a) ==> exists k :: 0 <= k < |a| && OnlySpaces(a[..k]) && !OnlySpaces([a[k]])
  {
    var left, right := StripIs(a);
    var t := Strip(a);
    if t == "" {
      assert a == left + right;
    } else {
      assert a[|left|] == t[0] && a[..|left|] == left;
    }
  }

  /** Neither end is a space. */
  predicate Stripped(s: string) {
    s == "" || (!IsSpace(s[0]) && !IsSpace(s[|s| - 1]))
  }

  /** What `strip` gives back when spaces were put in front. */
  lemma StripOfStripped(s: string)
    requires Stripped(s)
    ensures Strip(s) == s && Strip([' '] + s) == s
  {
  }

  // ----- trim

  function CountTab(s: string): (n: nat)
    ensures n <= |s|
  {
    if s != "" && s[0] == ' ' then 1 + CountTab(s[1..]) else 0
  }

  function Drop(s: string, n: nat): string {
    if n >= |s| then "" else s[n..]
  }

  /** The text without the `n` characters that follow each line end. */
  function Dedent(s: string, n: nat): string
    decreases |s|
  {
    if s == "" then "" else [s[0]] + Dedent(if s[0] == NL then Drop(s[1..], n) else s[1..], n)
  }

  function Trim(s: string): string {
    Dedent(Drop(s, CountTab(s)), CountTab(s))
  }

  method CountTabs(data: string) returns (cnt: nat)
    ensures cnt == CountTab(data)
  {
    cnt := 0;
    while cnt < |data| && data[cnt] == ' '
      invariant cnt <= |data| && cnt + CountTab(data[cnt..]) == CountTab(data)
    {
      cnt := cnt + 1;
    }
  }

  /** The same with `j` running over the text. */
  function Copied(data: string, j: nat, n: nat): string
    decreases |data| - j
  {
    if j >= |data| then "" else [data[j]] + Copied(data, if data[j] == NL then j + 1 + n else j + 1, n)
  }

  lemma {:induction false} CopiedIsDedent(data: string, j: nat, n: nat)
    ensures Copied(data, j, n) == Dedent(Drop(data, j), n)
    decreases |data| - j
  {
    if j < |data| {
      CopiedIsDedent(data, if data[j] == NL then j + 1 + n else j + 1, n);
      var rest := Drop(data, j);
      assert rest[1..] == Drop(data, j + 1);
      assert Drop(rest[1..], n) == Drop(data, j + 1 + n);
    }
  }

  /** The copy is shortened in place: `i` is where the next character goes, `j` where it comes from. */
  method TrimBy(data: string, cnt: nat) returns (r: string)
    ensures r == Copied(data, cnt, cnt)
  {
    var len := |data|;
    var str := new char[len](k requires 0 <= k < len => data[k]);
    ghost var goal, copied := Copied(data, cnt, cnt), "";
    var j := cnt as int - 1;
    var i := 0;
    while i < len
      invariant 0 <= i <= len && i <= j + 1
      invariant str[..i] == copied && copied + Copied(data, j + 1, cnt) == goal
    {
      j := j + 1;
      if j >= len {
        break;
      }
      str[i] := data[j];
      copied := copied + [data[j]];
      if str[i] == NL {
        j := j + cnt;
      }
      i := i + 1;
    }
    r := str[..i];
  }

  method TrimText(data: string) returns (r: string)
    ensures r == Trim(data)
  {
    var cnt := CountTabs(data);
    r := TrimBy(data, cnt);
    CopiedIsDedent(data, cnt, cnt);
  }

  // ----- trim undoes indentation

  function Spaces(n: nat): (r: string)
    ensures |r| == n && forall k :: 0 <= k < n ==> r[k] == ' '
  {
    seq(n, k => ' ')
  }

  /** `n` spaces in front of every line that follows a line end; of the last one only when `all` or when it
      is not empty. */
  function Indented(s: string, n: nat, all: bool): string {
    if s == "" then ""
    else [s[0]] + (if s[0] == NL && (all || |s| > 1) then Spaces(n) else "") + Indented(s[1..], n, all)
  }

  lemma {:induction false} DedentIndented(s: string, n: nat, all: bool)
    ensures Dedent(Indented(s, n, all), n) == s
  {
    if s != "" {
      DedentIndented(s[1..], n, all);
    }
  }

  lemma {:induction false} CountSpaces(n: nat, s: string)
    requires s == "" || s[0] != ' '
    ensures CountTab(Spaces(n) + s) == n
  {
    if n > 0 {
      assert (Spaces(n) + s)[1..] == Spaces(n - 1) + s;
      CountSpaces(n - 1, s);
    } else {
      assert Spaces(n) + s == s;
    }
  }

  lemma {:induction false} NoSpaceLeft(s: string)
    ensures var t := Drop(s, CountTab(s)); t == "" || t[0] != ' '
  {
    if s != "" && s[0] == ' ' {
      NoSpaceLeft(s[1..]);
      assert Drop(s, CountTab(s)) == Drop(s[1..], CountTab(s[1..]));
    }
  }

  /** Dedent undoes indent, blank lines and a final line end included, whether or not spaces follow the final
      line end, exactly for texts that do not start with a space. */
  lemma TrimUndoesIndent(s: string, n: nat, all: bool)
    ensures Trim(Spaces(n) + Indented(s, n, all)) == s <==> s == "" || s[0] != ' '
  {
    if s == "" || s[0] != ' ' {
      CountSpaces(n, Indented(s, n, all));
      assert Drop(Spaces(n) + Indented(s, n, all), n) == Indented(s, n, all);
      DedentIndented(s, n, all);
    } else {
      NoSpaceLeft(Spaces(n) + Indented(s, n, all));
    }
  }

  // ----- lines that are not blank

  lemma {:induction false} StripSpaces(n: nat, s: string)
    ensures Strip(Spaces(n) + s) == Strip(s)
  {
    if n == 0 {
      assert Spaces(n) + s == s;
    } else {
      assert (Spaces(n) + s)[1..] == Spaces(n - 1) + s;
      StripSpaces(n - 1, s);
    }
  }

  /** No line is empty or all spaces. */
  ghost predicate NoneBlank(lines: seq<string>) {
    forall k :: 0 <= k < |lines| ==> Strip(lines[k]) != ""
  }

  predicate Solid(s: string) {
    exists k :: 0 <= k < |s| && !IsSpace(s[k])
  }

  lemma {:induction false} LeftKeeps(s: string)
    requires Solid(s)
    ensures Solid(StripLeft(s))
  {
    if s != "" && IsSpace(s[0]) {
      var k :| 0 <= k < |s| && !IsSpace(s[k]);
      assert s[1..][k - 1] == s[k];
      LeftKeeps(s[1..]);
    }
  }

  lemma {:induction false} RightKeeps(s: string)
    requires Solid(s)
    ensures StripRight(s) != ""
  {
    if s != "" && IsSpace(s[|s| - 1]) {
      var k :| 0 <= k < |s| && !IsSpace(s[k]);
      assert s[..|s| - 1][k] == s[k];
      RightKeeps(s[..|s| - 1]);
    }
  }

  lemma SolidIsNotBlank(s: string)
    requires Solid(s)
    ensures Strip(s) != ""
  {
    LeftKeeps(s);
    RightKeeps(StripLeft(s));
  }

  // ----- the same for lists of lines

  /** `n` spaces in front of each line. */
  function Shifted(lines: seq<string>, n: nat): (r: seq<string>)
    ensures |r| == |lines| && forall k :: 0 <= k < |r| ==> r[k] == Spaces(n) + lines[k]
  {
    seq(|lines|, k requires 0 <= k < |lines| => Spaces(n) + lines[k])
  }

  lemma {:induction false} DedentOne(line: string, n: nat)
    requires NL !in line
    ensures Dedent(line, n) == line
  {
    if line != "" {
      DedentOne(line[1..], n);
    }
  }

  lemma DedentStep(s: string, n: nat)
    requires s != ""
    ensures s[0] != NL ==> Dedent(s, n) == [s[0]] + Dedent(s[1..], n)
    ensures s[0] == NL ==> Dedent(s, n) == [NL] + Dedent(if |s| - 1 < n then "" else s[1 + n..], n)
  {
    if s[0] == NL {
      assert |s| - 1 >= n ==> s[1..][n..] == s[1 + n..];
      assert |s| - 1 == n ==> s[1 + n..] == "";
    }
  }

  /** Behind a line end `n` characters go, whatever they are. */
  lemma {:induction false} DedentLine(line: string, rest: string, n: nat)
    requires NL !in line
    ensures Dedent(line + [NL] + rest, n) == line + [NL] + Dedent(if |rest| < n then "" else rest[n..], n)
  {
    var s := line + [NL] + rest;
    DedentStep(s, n);
    if line == "" {
      assert s == [NL] + rest;
      assert |rest| >= n ==> s[1 + n..] == rest[n..];
    } else {
      assert s[1..] == line[1..] + [NL] + rest;
      DedentLine(line[1..], rest, n);
      Assoc([line[0]], line[1..] + [NL], Dedent(if |rest| < n then "" else rest[n..], n));
      assert [line[0]] + (line[1..] + [NL]) == line + [NL];
    }
  }

  /** Lines of at least `n` characters, without the first `n` of each. */
  ghost predicate AreLong(lines: seq<string>, n: nat) {
    forall k :: 0 <= k < |lines| ==> |lines[k]| >= n && NL !in lines[k]
  }

  function Shortened(lines: seq<string>, n: nat): (r: seq<string>)
    requires AreLong(lines, n)
    ensures |r| == |lines| && forall k :: 0 <= k < |r| ==> r[k] == lines[k][n..]
  {
    seq(|lines|, k requires 0 <= k < |lines| => lines[k][n..])
  }

  lemma {:induction false} DedentLong(lines: seq<string>, n: nat, more: string)
    requires AreLong(lines, n)
    ensures Dedent(Drop(Joined(lines) + more, n), n) == Joined(Shortened(lines, n)) + Dedent(Drop(more, n), n)
  {
    if lines == [] {
      assert Joined(lines) + more == more;
    } else {
      var (line, rest) := (lines[0][n..], Joined(lines[1..]) + more);
      assert Joined(lines) + more == lines[0][..n] + (line + [NL] + rest);
      assert Drop(Joined(lines) + more, n) == line + [NL] + rest;
      DedentLine(line, rest, n);
      assert AreLong(lines[1..], n) && Shortened(lines, n)[1..] == Shortened(lines[1..], n);
      DedentLong(lines[1..], n, more);
      Assoc(line + [NL], Joined(Shortened(lines[1..], n)), Dedent(Drop(more, n), n));
    }
  }

  /** `trim` takes as many characters off every line as the first has spaces in front, whatever they are. */
  lemma TrimCuts(lines: seq<string>, n: nat)
    requires lines != [] && AreLong(lines, n) && lines[0][..n] == Spaces(n)
    requires |lines[0]| == n || lines[0][n] != ' '
    ensures Trim(Joined(lines)) == Joined(Shortened(lines, n))
  {
    var rest := lines[0][n..] + [NL] + Joined(lines[1..]);
    assert Joined(lines) == Spaces(n) + rest;
    CountSpaces(n, rest);
    DedentLong(lines, n, "");
    assert Joined(lines) + "" == Joined(lines);
  }

  /** A line that is too short takes characters of the next line with it, and the line end between them. */
  lemma ShortLineIsEaten(n: nat, first: string, short: string, next: string)
    requires NL !in first && NL !in short && NL !in next && (first == "" || first[0] != ' ')
    requires |short| < n <= |short| + 1 + |next|
    ensures Trim(Spaces(n) + (first + [NL] + (short + [NL] + next))) == first + [NL] + next[n - |short| - 1..]
  {
    var rest := short + [NL] + next;
    CountSpaces(n, first + [NL] + rest);
    assert Drop(Spaces(n) + (first + [NL] + rest), n) == first + [NL] + rest;
    DedentLine(first, rest, n);
    assert rest[n..] == next[n - |short| - 1..];
    DedentOne(next[n - |short| - 1..], n);
  }

  lemma DedentShifted(lines: seq<string>, n: nat, more: string)
    requires AreLines(lines)
    ensures Dedent(Drop(Joined(Shifted(lines, n)) + more, n), n) == Joined(lines) + Dedent(Drop(more, n), n)
  {
    assert AreLong(Shifted(lines, n), n);
    assert Shortened(Shifted(lines, n), n) == lines;
    DedentLong(Shifted(lines, n), n, more);
  }

  /** So an area gives back the lines that were put into it. */
  lemma TrimUndoesShift(lines: seq<string>, n: nat)
    requires AreLines(lines) && (lines == [] || lines[0][0] != ' ')
    ensures Trim(Joined(Shifted(lines, n))) == Joined(lines)
  {
    if lines == [] {
      assert Joined(Shifted(lines, n)) == "";
    } else {
      assert AreLong(Shifted(lines, n), n) && Shifted(lines, n)[0][..n] == Spaces(n);
      TrimCuts(Shifted(lines, n), n);
      assert Shortened(Shifted(lines, n), n) == lines;
    }
  }
}
