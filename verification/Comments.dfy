/** `readfile`: a text without its comments and blank lines. */
module Comments {
  import opened Text
  import T = TombstoneArray

  /** A line up to its comment; nothing when only spaces are left. */
  function Uncomment(line: string): seq<string> {
    if '#' !in line then [line]
    else if StartsWith(Strip(line), "#") then []
    else
      var pieces := Pieces(line, '#');
      var head := if pieces == [] then "" else pieces[0];
      if Strip(head) == "" then [] else [head]
  }

  lemma {:induction false} HeadOf(a: string, b: string)
    requires '#' !in a && a != ""
    ensures Pieces(a + ['#'] + b, '#') != [] && Pieces(a + ['#'] + b, '#')[0] == a
  {
    PiecesStep(a, '#', b);
  }

  /** A line is cut short before its first comment sign, and goes when only spaces are left. */
  lemma CommentIsCut(a: string, b: string)
    requires '#' !in a
    ensures Uncomment(a + ['#'] + b) == if OnlySpaces(a) then [] else [a]
  {
    var line := a + ['#'] + b;
    assert line[|a|] == '#' && line[..|a|] == a;
    BlankOrSolid(a);
    if OnlySpaces(a) {
      assert !OnlySpaces(['#']) by {
        assert ['#'][0] == '#';
      }
      FirstSolid(line, |a|);
    } else {
      var k :| 0 <= k < |a| && OnlySpaces(a[..k]) && !OnlySpaces([a[k]]);
      assert line[..k] == a[..k] && line[k] == a[k];
      FirstSolid(line, k);
      HeadOf(a, b);
    }
  }

  function Uncommented(lines: seq<string>): seq<string> {
    if lines == [] then [] else Uncomment(lines[0]) + Uncommented(lines[1..])
  }

  function WithoutComments(data: string): string {
    Joined(Uncommented(Lines(data)))
  }

  method AddLine(a: T.CArray<string>, line: string, ghost text: string)
    requires T.Spells(a.Slots(), text)
    modifies a, a.data
    ensures T.Spells(a.Slots(), text + (line + [NL]))
    ensures a.data == old(a.data) || fresh(a.data)
  {
    T.AppendText(a, line, text);
    T.AppendText(a, "\n", text + line);
    Assoc(text, line, "\n");
  }

  lemma OneLineMore(text: string, lines: seq<string>, i: nat)
    requires i < |lines|
    ensures text + Joined(lines[..i + 1]) == text + Joined(lines[..i]) + (lines[i] + [NL])
  {
    assert lines[..i + 1] == lines[..i] + [lines[i]];
    JoinedOneMore(lines[..i], lines[i]);
  }

  method AddLines(a: T.CArray<string>, lines: seq<string>, ghost text: string)
    requires T.Spells(a.Slots(), text)
    modifies a, a.data
    ensures T.Spells(a.Slots(), text + Joined(lines))
    ensures a.data == old(a.data) || fresh(a.data)
  {
    assert text + "" == text && lines[..0] == [];
    for i := 0 to |lines|
      invariant T.Spells(a.Slots(), text + Joined(lines[..i]))
      invariant a.data == old(a.data) || fresh(a.data)
    {
      OneLineMore(text, lines, i);
      AddLine(a, lines[i], text + Joined(lines[..i]));
    }
    assert lines[..|lines|] == lines;
  }

  /** `readfile`. */
  method ReadFile(data: string) returns (r: string)
    ensures r == WithoutComments(data)
  {
    var a := T.NewText();
    var lines := Ssplit(data, NL);
    ghost var text := "";
    assert lines[0..] == lines && "" + WithoutComments(data) == WithoutComments(data);
    for i := 0 to |lines|
      invariant fresh(a) && fresh(a.data) && T.Spells(a.Slots(), text)
      invariant text + Joined(Uncommented(lines[i..])) == WithoutComments(data)
    {
      assert lines[i..][1..] == lines[i + 1..];
      JoinedAppend(Uncomment(lines[i]), Uncommented(lines[i + 1..]));
      Assoc(text, Joined(Uncomment(lines[i])), Joined(Uncommented(lines[i + 1..])));
      AddLines(a, Uncomment(lines[i]), text);
      text := text + Joined(Uncomment(lines[i]));
    }
    assert text + "" == text;
    r := T.GetString(a);
  }

  ghost predicate NoComments(lines: seq<string>) {
    forall k :: 0 <= k < |lines| ==> '#' !in lines[k]
  }

  lemma FirstPieceLacks(line: string, f: char)
    ensures Pieces(line, f) == [] || f !in Pieces(line, f)[0]
  {
    PiecesLack(Split(line, f), f);
    SplitLacks(line, f);
  }

  lemma {:induction false} SplitLacks(s: string, f: char)
    ensures forall k :: 0 <= k < |Split(s, f)| ==> f !in Split(s, f)[k]
    decreases |s|
  {
    var j := Cut(s, f);
    if j < |s| {
      SplitLacks(s[j + 1..], f);
    }
  }

  lemma {:induction false} PiecesLack(pieces: seq<string>, f: char)
    ensures (forall k :: 0 <= k < |pieces| ==> f !in pieces[k]) ==> NonEmpty(pieces) == [] || f !in NonEmpty(pieces)[0]
  {
    if pieces != [] && pieces[0] == "" {
      PiecesLack(pieces[1..], f);
      assert NonEmpty(pieces) == NonEmpty(pieces[1..]);
    }
  }

  lemma {:induction false} UncommentedLacks(lines: seq<string>)
    ensures NoComments(Uncommented(lines))
    ensures NoComments(lines) ==> Uncommented(lines) == lines
  {
    if lines != [] {
      FirstPieceLacks(lines[0], '#');
      UncommentedLacks(lines[1..]);
      assert NoComments(lines) ==> NoComments(lines[1..]);
    }
  }

  /** Reading a text of whole lines gives it back exactly when it has no comment sign. */
  lemma ReadFileKeepsIff(lines: seq<string>)
    requires AreLines(lines)
    ensures WithoutComments(Joined(lines)) == Joined(lines) <==> NoComments(lines)
  {
    LinesOfText(lines);
    UncommentedLacks(lines);
    var r := Uncommented(lines);
    if Joined(r) == Joined(lines) && !NoComments(lines) {
      var k :| 0 <= k < |lines| && '#' in lines[k];
      JoinedHas(lines, k, '#');
      JoinedLacks(r, '#');
    }
  }

  lemma {:induction false} JoinedHas(lines: seq<string>, k: nat, c: char)
    requires k < |lines| && c in lines[k]
    ensures c in Joined(lines)
  {
    if k > 0 {
      JoinedHas(lines[1..], k - 1, c);
    }
  }

  lemma {:induction false} JoinedLacks(lines: seq<string>, c: char)
    requires c != NL && forall k :: 0 <= k < |lines| ==> c !in lines[k]
    ensures c !in Joined(lines)
  {
    if lines != [] {
      JoinedLacks(lines[1..], c);
    }
  }
}
