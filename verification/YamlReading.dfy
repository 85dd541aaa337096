/** What the readers of the parser find, said by the lines of the text: which line counts, and what is taken
    from it. */
module YamlReading {
  import opened Wrappers
  import opened Text
  import opened YamlParser

  // ----- values

  /** Line `k` is the first that starts with the text. */
  ghost predicate IsFirst(lines: seq<string>, k: nat, text: string) {
    && k < |lines| && |text| <= |lines[k]| && lines[k][..|text|] == text
    && forall j :: 0 <= j < k && |text| <= |lines[j]| ==> lines[j][..|text|] != text
  }

  ghost predicate NoneStarts(lines: seq<string>, text: string) {
    forall j :: 0 <= j < |lines| && |text| <= |lines[j]| ==> lines[j][..|text|] != text
  }

  lemma {:induction false} ValueFrom(lines: seq<string>, name: string, k: nat)
    requires IsFirst(lines, k, name + ":")
    ensures ValueIn(lines, name) == ValueIn(lines[k..], name)
  {
    if k > 0 {
      assert lines[1..][k - 1] == lines[k];
      assert forall j :: 0 <= j < k - 1 ==> lines[1..][j] == lines[j + 1];
      ValueFrom(lines[1..], name, k - 1);
      assert lines[1..][k - 1..] == lines[k..];
    }
  }

  /** A value is what follows the name and its colon on the first such line, without the spaces around it. */
  lemma ValueIs(data: string, name: string, k: nat) returns (left: string, right: string)
    requires IsFirst(Lines(data), k, name + ":") && Lines(data)[k][|Lines(data)[k]| - 1] != '|'
    ensures Lines(data)[k] == name + ":" + left + Value(data, name) + right && OnlySpaces(left) && OnlySpaces(right)
    ensures var t := Value(data, name); t != "" ==> !OnlySpaces([t[0]]) && !OnlySpaces([t[|t| - 1]])
  {
    var line := Lines(data)[k];
    ValueFrom(Lines(data), name, k);
    assert !EndsWith(line, "|");
    var rest := line[|name| + 1..];
    left, right := StripIs(rest);
    assert line == name + ":" + rest;
    Assoc(name + ":", left + Value(data, name), right);
    Assoc(name + ":", left, Value(data, name));
  }

  /** From line `k` to line `m` everything is indented and at least as long as the name and its colon; line `m`
      is long enough, too, but not indented. */
  ghost predicate IsBlock(lines: seq<string>, name: string, k: nat, m: nat) {
    && k <= m <= |lines|
    && (forall j :: k <= j < m ==> |lines[j]| > |name| && lines[j][0] == ' ')
    && (m < |lines| ==> |lines[m]| > |name| && lines[m][0] != ' ')
  }

  lemma {:induction false} FoldedIs(lines: seq<string>, name: string, k: nat, m: nat)
    requires IsBlock(lines, name, k, m)
    ensures Folded(lines[k..], name) == lines[k..m]
    decreases m - k
  {
    if k < m {
      assert lines[k..][0] == lines[k] && lines[k..][1..] == lines[k + 1..];
      FoldedIs(lines, name, k + 1, m);
      assert lines[k..m] == [lines[k]] + lines[k + 1..m];
    } else if m < |lines| {
      assert lines[k..][0] == lines[m];
    }
  }

  /** When that line ends in a bar, the value is the indented block behind it. */
  lemma BlockIs(data: string, name: string, k: nat, m: nat)
    requires IsFirst(Lines(data), k, name + ":") && Lines(data)[k][|Lines(data)[k]| - 1] == '|'
    requires IsBlock(Lines(data), name, k + 1, m)
    ensures Value(data, name) == Trim(Joined(Lines(data)[k + 1..m]))
  {
    var lines := Lines(data);
    ValueFrom(lines, name, k);
    assert EndsWith(lines[k], "|");
    assert lines[k..][0] == lines[k] && lines[k..][1..] == lines[k + 1..];
    FoldedIs(lines, name, k + 1, m);
  }

  lemma {:induction false} NoValueIn(lines: seq<string>, name: string)
    requires NoneStarts(lines, name + ":")
    ensures ValueIn(lines, name) == ""
  {
    if lines != [] {
      assert forall j :: 0 <= j < |lines| - 1 ==> lines[1..][j] == lines[j + 1];
      NoValueIn(lines[1..], name);
    }
  }

  /** Without such a line there is no value, */
  lemma NoValue(data: string, name: string)
    requires NoneStarts(Lines(data), name + ":")
    ensures Value(data, name) == ""
  {
    NoValueIn(Lines(data), name);
  }

  // ----- areas

  /** Line `k` is the first that is the header, and the lines from there up to line `m` are all that are indented. */
  ghost predicate IsArea(lines: seq<string>, name: string, k: nat, m: nat) {
    && k < m <= |lines| && lines[k] == name + ":" && (forall j :: 0 <= j < k ==> lines[j] != name + ":")
    && (forall j :: k < j < m ==> lines[j] != "" && lines[j][0] == ' ')
    && (m < |lines| ==> lines[m] == "" || lines[m][0] != ' ')
  }

  predicate IsName(name: string) {
    name != "" && name[0] != ' ' && '.' !in name
  }

  lemma {:induction false} BlockOfLines(lines: seq<string>, k: nat, m: nat)
    requires k <= m <= |lines| && (forall j :: k <= j < m ==> lines[j] != "" && lines[j][0] == ' ')
    requires m < |lines| ==> lines[m] == "" || lines[m][0] != ' '
    ensures Block(lines[k..]) == lines[k..m]
    decreases m - k
  {
    if k < m {
      assert lines[k..][0] == lines[k] && lines[k..][1..] == lines[k + 1..];
      BlockOfLines(lines, k + 1, m);
      assert lines[k..m] == [lines[k]] + lines[k + 1..m];
    } else if m < |lines| {
      assert lines[k..][0] == lines[m];
    }
  }

  lemma {:induction false} AreaFrom(lines: seq<string>, name: string, k: nat)
    requires k <= |lines| && forall j :: 0 <= j < k ==> lines[j] != name + ":"
    ensures AreaLines(lines, name) == AreaLines(lines[k..], name)
  {
    if k > 0 {
      assert forall j :: 0 <= j < k - 1 ==> lines[1..][j] == lines[j + 1];
      AreaFrom(lines[1..], name, k - 1);
      assert lines[1..][k - 1..] == lines[k..];
    }
  }

  lemma AreaOfName(data: string, name: string)
    requires IsName(name)
    ensures Area(data, name) == AreaSingle(data, name)
  {
    PiecesOfOne(name, '.');
    assert AreaAt(data, [name]) == AreaAt(AreaSingle(data, name), [name][1..]);
    if data == "" {
      PiecesOfNone(NL);
    }
  }

  /** An area is the indented block behind the first header with its name, without the indentation. */
  lemma AreaIs(data: string, name: string, k: nat, m: nat)
    requires IsName(name) && IsArea(Lines(data), name, k, m)
    ensures Area(data, name) == Trim(Joined(Lines(data)[k + 1..m]))
  {
    var lines := Lines(data);
    AreaOfName(data, name);
    AreaFrom(lines, name, k);
    assert lines[k..][0] == lines[k] && lines[k..][1..] == lines[k + 1..];
    assert (name + ":")[0] == name[0];
    BlockOfLines(lines, k + 1, m);
  }

  /** and without a header no area. */
  lemma NoArea(data: string, name: string)
    requires IsName(name) && name + ":" !in Lines(data)
    ensures Area(data, name) == ""
  {
    AreaOfName(data, name);
    AreaFrom(Lines(data), name, |Lines(data)|);
  }

  lemma {:induction false} NothingInNothing(items: seq<string>)
    ensures AreaAt("", items) == ""
  {
    if items != [] {
      PiecesOfNone(NL);
      NothingInNothing(items[1..]);
    }
  }

  /** A dotted path leads from area to area, outermost first. */
  lemma DottedArea(data: string, name: string, path: string)
    requires IsName(name)
    ensures Area(data, name + "." + path) == Area(Area(data, name), path)
  {
    AreaOfName(data, name);
    PiecesStep(name, '.', path);
    assert name + "." + path == name + ['.'] + path;
    assert ([name] + Pieces(path, '.'))[1..] == Pieces(path, '.');
    NothingInNothing(Pieces(path, '.'));
    NothingInNothing(Pieces(name + "." + path, '.'));
  }

  // ----- lists

  lemma {:induction false} ItemsSum(a: seq<string>, b: seq<string>)
    ensures Items(a + b) == Items(a) + Items(b)
  {
    if a == [] {
      assert a + b == b;
    } else {
      assert (a + b)[1..] == a[1..] + b;
      ItemsSum(a[1..], b);
    }
  }

  /** Line by line, an entry of a list is what follows a dash and a space, without the spaces around it; other
      lines hold none. */
  lemma ItemIs(line: string) returns (left: string, item: string, right: string)
    ensures Items([line]) == if |line| >= 2 && line[0] == '-' && line[1] == ' ' then [item] else []
    ensures |line| >= 2 && line[0] == '-' && line[1] == ' ' ==>
              && line == "-" + left + item + right && OnlySpaces(left) && OnlySpaces(right)
              && (item != "" ==> !OnlySpaces([item[0]]) && !OnlySpaces([item[|item| - 1]]))
  {
    assert [line][1..] == [];
    left, item, right := "", "", "";
    if StartsWith(line, "- ") {
      left, right := StripIs(line[1..]);
      item := Strip(line[1..]);
      assert line == "-" + line[1..];
      Assoc("-", left + item, right);
      Assoc("-", left, item);
    }
  }

  // ----- lists of areas

  /** A line that is not indented and holds a colon. */
  predicate IsHead(line: string) {
    (line == "" || line[0] != ' ') && ':' in line
  }

  ghost predicate NoHeads(lines: seq<string>) {
    forall j :: 0 <= j < |lines| ==> !IsHead(lines[j])
  }

  lemma HeadIsHeader(line: string)
    ensures IsHead(line) <==> IsHeader(line)
  {
    assert StartsWith(line, " ") <==> line != "" && line[0] == ' ';
  }

  /** Behind any leading colons the name stands up to the next colon. */
  ghost predicate IsNamed(head: string, name: string, i: nat) {
    && name != "" && ':' !in name && i + |name| <= |head|
    && (forall j :: 0 <= j < i ==> head[j] == ':') && head[i..i + |name|] == name
    && (i + |name| < |head| ==> head[i + |name|] == ':')
  }

  lemma NameInFront(head: string, name: string)
    requires IsNamed(head, name, 0)
    ensures HeaderName(head) == Some(name)
  {
    if |name| < |head| {
      PiecesStep(name, ':', head[|name| + 1..]);
      assert head == name + [':'] + head[|name| + 1..];
    } else {
      PiecesOfOne(name, ':');
    }
  }

  lemma {:induction false} NameIs(head: string, name: string, i: nat)
    requires IsNamed(head, name, i)
    ensures HeaderName(head) == Some(name)
  {
    if i == 0 {
      NameInFront(head, name);
    } else {
      assert head[1..][i - 1..i - 1 + |name|] == head[i..i + |name|];
      NameIs(head[1..], name, i - 1);
      PiecesStep("", ':', head[1..]);
      assert head == "" + [':'] + head[1..];
    }
  }

  /** The lines that are not blank. */
  ghost function NotBlank(lines: seq<string>): seq<string> {
    if lines == [] then [] else (if OnlySpaces(lines[0]) then [] else [lines[0]]) + NotBlank(lines[1..])
  }

  lemma {:induction false} BodyIs(body: seq<string>, after: seq<string>)
    requires NoHeads(body) && (after == [] || IsHead(after[0]))
    ensures Body(body + after) == NotBlank(body)
  {
    if body == [] {
      assert body + after == after;
      if after != [] {
        HeadIsHeader(after[0]);
      }
    } else {
      HeadIsHeader(body[0]);
      BlankOrSolid(body[0]);
      assert (body + after)[0] == body[0] && (body + after)[1..] == body[1..] + after;
      BodyIs(body[1..], after);
    }
  }

  lemma {:induction false} BodiesBehind(body: seq<string>, after: seq<string>, name: string)
    requires NoHeads(body)
    ensures Bodies(body + after, name) == Bodies(after, name)
  {
    if body == [] {
      assert body + after == after;
    } else {
      HeadIsHeader(body[0]);
      assert (body + after)[1..] == body[1..] + after;
      BodiesBehind(body[1..], after, name);
    }
  }

  lemma {:induction false} BodyEnds(before: seq<string>, after: seq<string>)
    requires after == [] || IsHead(after[0])
    ensures Body(before + after) == Body(before)
  {
    if before == [] {
      assert before + after == after;
      if after != [] {
        HeadIsHeader(after[0]);
      }
    } else {
      assert (before + after)[0] == before[0] && (before + after)[1..] == before[1..] + after;
      BodyEnds(before[1..], after);
    }
  }

  lemma {:induction false} BodiesSplit(before: seq<string>, after: seq<string>, name: string)
    requires after == [] || IsHead(after[0])
    ensures Bodies(before + after, name) == Bodies(before, name) + Bodies(after, name)
  {
    if before == [] {
      assert before + after == after;
    } else {
      assert (before + after)[0] == before[0] && (before + after)[1..] == before[1..] + after;
      BodyEnds(before[1..], after);
      BodiesSplit(before[1..], after, name);
    }
  }

  lemma AreasSum(a: seq<seq<string>>, b: seq<seq<string>>)
    ensures Areas(a + b) == Areas(a) + Areas(b)
  {
  }

  /** The areas of a name, header by header: each takes the lines up to the next header that are not blank, if
      there are any, without their indentation. */
  lemma AreaListIs(before: seq<string>, head: string, body: seq<string>, after: seq<string>, name: string, i: nat)
    requires AreLines(before) && IsLine(head) && AreLines(body) && AreLines(after)
    requires IsHead(head) && IsNamed(head, name, i) && NoHeads(body) && (after == [] || IsHead(after[0]))
    ensures AreaList(Joined(before + ([head] + (body + after))), name)
            == AreaList(Joined(before), name)
               + (if NotBlank(body) == [] then [] else [Trim(Joined(NotBlank(body)))])
               + AreaList(Joined(after), name)
  {
    var rest := [head] + (body + after);
    LinesOfText(before + rest);
    LinesOfText(before);
    LinesOfText(after);
    HeadIsHeader(head);
    NameIs(head, name, i);
    BodiesSplit(before, rest, name);
    assert rest[1..] == body + after;
    BodyIs(body, after);
    BodiesBehind(body, after, name);
    var one := if NotBlank(body) == [] then [] else [NotBlank(body)];
    assert Bodies(rest, name) == one + Bodies(after, name);
    AreasSum(Bodies(before, name), one + Bodies(after, name));
    AreasSum(one, Bodies(after, name));
    assert Areas(one) == if NotBlank(body) == [] then [] else [Trim(Joined(NotBlank(body)))];
    Assoc(Areas(Bodies(before, name)), Areas(one), Areas(Bodies(after, name)));
  }

  /** Other headers are passed over with their lines. */
  lemma OtherAreas(before: seq<string>, head: string, body: seq<string>, after: seq<string>, other: string, i: nat,
                   name: string)
    requires AreLines(before) && IsLine(head) && AreLines(body) && AreLines(after)
    requires IsHead(head) && IsNamed(head, other, i) && other != name
    requires NoHeads(body) && (after == [] || IsHead(after[0]))
    ensures AreaList(Joined(before + ([head] + (body + after))), name)
            == AreaList(Joined(before), name) + AreaList(Joined(after), name)
  {
    var rest := [head] + (body + after);
    LinesOfText(before + rest);
    LinesOfText(before);
    LinesOfText(after);
    NameIs(head, other, i);
    BodiesSplit(before, rest, name);
    assert rest[1..] == body + after;
    BodiesBehind(body, after, name);
    AreasSum(Bodies(before, name), Bodies(after, name));
  }

  /** Lines without a header hold no area. */
  lemma NoAreas(lines: seq<string>, name: string)
    requires AreLines(lines) && NoHeads(lines)
    ensures AreaList(Joined(lines), name) == []
  {
    LinesOfText(lines);
    BodiesBehind(lines, [], name);
    assert lines + [] == lines;
  }
}
