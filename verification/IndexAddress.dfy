/** The address line that an update adds to a fetched index: it is indented by two spaces, whatever the
    indentation of the index. When it is read back, and when it changes what else is read. */
module IndexAddress {
  import opened Wrappers
  import opened Text
  import opened YamlParser
  import opened Fields
  import opened RepositoryIndex

  /** Lines of which the first is not indented. */
  ghost predicate IsAreaBody(lines: seq<string>) {
    AreLines(lines) && (lines != [] ==> lines[0][0] != ' ')
  }

  /** A text that is one index area, indented by `n` spaces. */
  ghost predicate IsIndex(text: string, lines: seq<string>, n: nat) {
    Lines(text) == ["index:"] + Shifted(lines, n) && IsAreaBody(lines) && lines != [] && n > 0
  }

  /** What is left of the address line when the indentation of the index is taken off it. */
  function Rest(address: string, n: nat): string {
    Drop(AddressLine(address), n)
  }

  // ----- the lines of the index area

  ghost predicate AllIndented(lines: seq<string>) {
    forall k :: 0 <= k < |lines| ==> StartsWith(lines[k], " ")
  }

  lemma {:induction false} BlockOfIndented(lines: seq<string>)
    requires AllIndented(lines)
    ensures Block(lines) == lines
  {
    if lines != [] {
      assert AllIndented(lines[1..]);
      BlockOfIndented(lines[1..]);
    }
  }

  lemma IndexIsPlain()
    ensures PlainKey("index") && "index" + ":" == "index:" && !StartsWith("index:", " ")
  {
    assert "index:"[0] == 'i';
  }

  /** The area of a text that is a header with indented lines. */
  lemma IndexBlock(text: string, block: seq<string>)
    requires Lines(text) == ["index:"] + block && AllIndented(block)
    ensures Area(text, "index") == Trim(Joined(block))
  {
    IndexIsPlain();
    PiecesOfNone(NL);
    AreaOfPlainKey(text, "index");
    BlockOfIndented(block);
    assert (["index:"] + block)[1..] == block;
  }

  lemma ShiftedIndented(lines: seq<string>, n: nat)
    requires n > 0
    ensures AllIndented(Shifted(lines, n))
  {
  }

  /** The indentation is counted on the first line. */
  lemma CountFirst(lines: seq<string>, n: nat, more: string)
    requires IsAreaBody(lines) && lines != []
    ensures CountTab(Joined(Shifted(lines, n)) + more) == n
  {
    var rest := Joined(Shifted(lines, n)[1..]);
    assert Joined(Shifted(lines, n)) + more == Spaces(n) + (lines[0] + [NL] + rest + more);
    CountSpaces(n, lines[0] + [NL] + rest + more);
  }

  lemma DedentLast(line: string, n: nat)
    requires NL !in line
    ensures Dedent(Drop(line + [NL], n), n) == if n <= |line| then Drop(line, n) + [NL] else ""
  {
    if n <= |line| {
      var t := Drop(line, n);
      assert Drop(line + [NL], n) == t + [NL] + "";
      DedentLine(t, "", n);
      assert t + [NL] + "" == t + [NL];
    }
  }

  /** The last line loses as many characters as the others, spaces or not. */
  lemma TrimWithLast(lines: seq<string>, n: nat, last: string)
    requires IsAreaBody(lines) && lines != [] && NL !in last
    ensures Lines(Trim(Joined(Shifted(lines, n) + [last]))) == lines + Lines(Drop(last, n))
  {
    var tail := if n <= |last| then Drop(last, n) + [NL] else "";
    JoinedOneMore(Shifted(lines, n), last);
    Assoc(Joined(Shifted(lines, n)), last, [NL]);
    CountFirst(lines, n, last + [NL]);
    DedentShifted(lines, n, last + [NL]);
    DedentLast(last, n);
    LinesOfJoined(lines, tail);
    PiecesOfNone(NL);
    LinesAppend(Drop(last, n), "");
    assert Drop(last, n) + [NL] + "" == Drop(last, n) + [NL];
  }

  lemma AddressLineIsLine(address: string)
    requires NL !in address
    ensures NL !in AddressLine(address) && StartsWith(AddressLine(address), " ")
  {
    assert AddressLine(address)[0] == ' ';
  }

  /** The lines of the index area without and with the address. */
  lemma AddressInArea(fetched: string, lines: seq<string>, n: nat, address: string, text: string)
    requires IsIndex(fetched, lines, n) && NL !in address
    requires Lines(text) == Lines(fetched) + [AddressLine(address)]
    ensures Lines(Area(fetched, "index")) == lines
    ensures Lines(Area(text, "index")) == lines + Lines(Rest(address, n))
  {
    ShiftedIndented(lines, n);
    IndexBlock(fetched, Shifted(lines, n));
    TrimUndoesShift(lines, n);
    LinesOfText(lines);
    AddressLineIsLine(address);
    Assoc(["index:"], Shifted(lines, n), [AddressLine(address)]);
    IndexBlock(text, Shifted(lines, n) + [AddressLine(address)]);
    TrimWithLast(lines, n, AddressLine(address));
  }

  // ----- a line behind others

  /** The line would be taken for one of a block of `key`. */
  predicate JoinsBlock(line: string, key: string) {
    StartsWith(line, " ") && |line| > |key|
  }

  lemma {:induction false} FoldedKept(lines: seq<string>, last: string, key: string)
    requires !JoinsBlock(last, key)
    ensures Folded(lines + [last], key) == Folded(lines, key)
  {
    if lines != [] {
      assert (lines + [last])[1..] == lines[1..] + [last];
      FoldedKept(lines[1..], last, key);
    } else {
      assert Folded([last], key) == Folded([last][1..], key) || Folded([last], key) == [];
    }
  }

  /** A line behind the others changes no value they hold, and gives no value to other keys. */
  lemma {:induction false} ValueKept(lines: seq<string>, last: string, key: string)
    requires !JoinsBlock(last, key) && (AnyStartsWith(lines, key + ":") || !StartsWith(last, key + ":"))
    ensures ValueIn(lines + [last], key) == ValueIn(lines, key)
  {
    if lines != [] {
      assert (lines + [last])[1..] == lines[1..] + [last];
      if StartsWith(lines[0], key + ":") {
        FoldedKept(lines[1..], last, key);
      } else {
        AnyInSum([lines[0]], lines[1..], key + ":");
        assert lines == [lines[0]] + lines[1..];
        ValueKept(lines[1..], last, key);
      }
    }
  }

  lemma {:induction false} BodyKept(lines: seq<string>, header: string)
    requires IsHeader(header)
    ensures Body(lines + [header]) == Body(lines)
  {
    if lines != [] {
      assert (lines + [header])[1..] == lines[1..] + [header];
      BodyKept(lines[1..], header);
    }
  }

  /** A header with nothing behind it opens no area, and ends the one in front of it. */
  lemma {:induction false} BodiesKept(lines: seq<string>, header: string, path: string)
    requires IsHeader(header)
    ensures Bodies(lines + [header], path) == Bodies(lines, path)
  {
    if lines != [] {
      assert (lines + [header])[1..] == lines[1..] + [header];
      BodyKept(lines[1..], header);
      BodiesKept(lines[1..], header, path);
    } else {
      assert Bodies([header], path) == Bodies([header][1..], path);
    }
  }

  // ----- the address

  lemma {:induction false} StripLeftShrinks(s: string)
    ensures |StripLeft(s)| <= |s|
  {
    if s != "" && IsSpace(s[0]) {
      StripLeftShrinks(s[1..]);
    }
  }

  lemma {:induction false} StripRightShrinks(s: string)
    ensures |StripRight(s)| <= |s|
  {
    if s != "" && IsSpace(s[|s| - 1]) {
      StripRightShrinks(s[..|s| - 1]);
    }
  }

  /** The characters of the line up to the address. */
  lemma AddressChars(address: string)
    ensures var line := AddressLine(address);
            && |line| == |address| + 11
            && (forall k :: 0 <= k < 11 && line[k] == 'a' ==> k == 2)
            && Drop(line, 2) == "address" + ": " + address
            && Drop(line, 1) == " " + ("address" + ": " + address)
  {
    var line := AddressLine(address);
    assert forall k :: 0 <= k < 11 ==> line[k] == "  address: "[k];
  }

  /** With another indentation than two spaces a part of the line may still look like an address, but a shorter
      one. */
  lemma OtherValue(address: string, n: nat)
    requires address != "" && NL !in address && n > 0 && n != 2 && Rest(address, n) != ""
    ensures ValueIn([Rest(address, n)], "address") != address
  {
    var t, key := Rest(address, n), "address" + ":";
    AddressChars(address);
    assert t[0] == AddressLine(address)[n];
    if StartsWith(t, key) {
      assert key[0] == 'a' && |key| == 8;
      assert n >= 11;
      StripLeftShrinks(t[8..]);
      StripRightShrinks(StripLeft(t[8..]));
    }
  }

  lemma RestLines(address: string, n: nat)
    requires NL !in address
    ensures Lines(Rest(address, n)) == if Rest(address, n) == "" then [] else [Rest(address, n)]
  {
    AddressLineIsLine(address);
    LinesOfOne(Rest(address, n));
  }

  lemma AddressValue(address: string)
    requires GoodItem(address)
    ensures Rest(address, 2) != ""
    ensures ValueIn([Rest(address, 2)], "address") == address <==> !EndsWith(address, "|")
  {
    AddressChars(address);
    assert ["address" + ": " + address] + [] == ["address" + ": " + address];
    ValueOfLine("address", address, []);
  }

  lemma AddressValueIff(lines: seq<string>, address: string, n: nat)
    requires GoodItem(address) && (address != "" || n == 2) && n > 0 && NoneStartsWith(lines, "address" + ":")
    ensures ValueIn(lines + Lines(Rest(address, n)), "address") == address <==> n == 2 && !EndsWith(address, "|")
  {
    RestLines(address, n);
    SkipValue(lines, Lines(Rest(address, n)), "address");
    if n == 2 {
      AddressValue(address);
    } else if Rest(address, n) != "" {
      OtherValue(address, n);
    }
  }

  /** An address of the index itself is found as before. */
  predicate OwnStays(address: string, n: nat) {
    !JoinsBlock(Rest(address, n), "address")
  }

  ghost predicate SameAddress(lines: seq<string>, more: seq<string>) {
    ValueIn(lines + more, "address") == ValueIn(lines, "address")
  }

  lemma OwnAddressStays(lines: seq<string>, address: string, n: nat)
    requires NL !in address && OwnStays(address, n) && AnyStartsWith(lines, "address" + ":")
    ensures SameAddress(lines, Lines(Rest(address, n)))
  {
    RestLines(address, n);
    if Rest(address, n) == "" {
      assert lines + [] == lines;
    } else {
      ValueKept(lines, Rest(address, n), "address");
    }
  }

  /** In an index that is one area, whatever its indentation: without an address of its own, the added address
      is found exactly when the indentation is two spaces and the address does not end in a bar; an address of
      its own stays if the rest of the line does not join its block. */
  lemma AddressIsAdded(fetched: string, lines: seq<string>, n: nat, address: string, text: string)
    requires IsIndex(fetched, lines, n) && GoodItem(address) && (address != "" || n == 2)
    requires Lines(text) == Lines(fetched) + [AddressLine(address)]
    ensures var (was, area) := (Area(fetched, "index"), Area(text, "index"));
            && (!HasArea(was, "address") ==>
                  (Value(area, "address") == address <==> n == 2 && !EndsWith(address, "|")))
            && (HasArea(was, "address") && OwnStays(address, n) ==> Value(area, "address") == Value(was, "address"))
  {
    AddressInArea(fetched, lines, n, address, text);
    if !AnyStartsWith(lines, "address" + ":") {
      AddressValueIff(lines, address, n);
    } else if OwnStays(address, n) {
      OwnAddressStays(lines, address, n);
    }
  }

  const OWN_BLOCK := ["address: |"]

  lemma BlockIsLost(last: string)
    requires JoinsBlock(last, "address") && NL !in last
    ensures IsAreaBody(OWN_BLOCK) && AnyStartsWith(OWN_BLOCK, "address" + ":") && !SameAddress(OWN_BLOCK, [last])
  {
    var own := "address: |";
    assert OWN_BLOCK[0] == own && own[..8] == "address" + ":" && OWN_BLOCK[1..] == [];
    var both := OWN_BLOCK + [last];
    assert both[0] == own && both[1..] == [last];
    assert Folded([last], "address") == [last] + Folded([last][1..], "address") == [last];
    assert Joined([last]) == last + [NL] + Joined([last][1..]) == last + [NL];
    BlockNotEmpty(last);
  }

  lemma {:induction false} TabsEnd(line: string)
    ensures CountTab(line + [NL]) <= |line|
  {
    if line == "" {
      assert (line + [NL])[0] == NL;
    } else {
      assert (line + [NL])[1..] == line[1..] + [NL];
      TabsEnd(line[1..]);
    }
  }

  lemma BlockNotEmpty(line: string)
    ensures Trim(line + [NL]) != ""
  {
    TabsEnd(line);
  }

  /** That is the exact condition: it holds if and only if the own address of every index stays. */
  lemma OwnStaysIff(address: string, n: nat)
    requires NL !in address
    ensures OwnStays(address, n) <==>
            forall lines :: IsAreaBody(lines) && AnyStartsWith(lines, "address" + ":") ==>
                              SameAddress(lines, Lines(Rest(address, n)))
  {
    RestLines(address, n);
    AddressLineIsLine(address);
    if OwnStays(address, n) {
      forall lines | AnyStartsWith(lines, "address" + ":") ensures SameAddress(lines, Lines(Rest(address, n))) {
        OwnAddressStays(lines, address, n);
      }
    } else {
      BlockIsLost(Rest(address, n));
    }
  }

  // ----- everything else

  /** A key that is there, its value and its list of areas. */
  ghost predicate SameKey(lines: seq<string>, more: seq<string>, key: string) {
    && (AnyStartsWith(lines + more, key + ":") <==> AnyStartsWith(lines, key + ":"))
    && ValueIn(lines + more, key) == ValueIn(lines, key)
    && Bodies(lines + more, key) == Bodies(lines, key)
  }

  /** What stands in front of the first colon. */
  function KeyOf(line: string): string {
    line[..Cut(line, ':')]
  }

  /** The rest of the line is empty, or a header that gives no other key. */
  predicate LeavesOthers(address: string, n: nat) {
    var t := Rest(address, n);
    t == "" || (IsHeader(t) && (KeyOf(t) == "address" || !PlainKey(KeyOf(t))))
  }

  lemma KeyOfIs(line: string, key: string)
    requires PlainKey(key) && StartsWith(line, key + ":")
    ensures KeyOf(line) == key
  {
    var tail := line[|key| + 1..];
    assert line == key + ":" + tail;
    CutAt(key, ':', tail);
  }

  lemma OthersStay(lines: seq<string>, address: string, n: nat, key: string)
    requires NL !in address && LeavesOthers(address, n) && PlainKey(key) && key != "address"
    ensures SameKey(lines, Lines(Rest(address, n)), key)
  {
    var t := Rest(address, n);
    RestLines(address, n);
    if t == "" {
      assert lines + [] == lines;
    } else {
      if StartsWith(t, key + ":") {
        KeyOfIs(t, key);
      }
      AnyInSum(lines, [t], key + ":");
      ValueKept(lines, t, key);
      BodiesKept(lines, t, key);
    }
  }

  /** Then every other key, value and list of areas is as before. */
  lemma OtherKeysStay(fetched: string, lines: seq<string>, n: nat, address: string, text: string, key: string)
    requires IsIndex(fetched, lines, n) && NL !in address && LeavesOthers(address, n)
    requires Lines(text) == Lines(fetched) + [AddressLine(address)]
    requires PlainKey(key) && key != "address"
    ensures var (was, area) := (Area(fetched, "index"), Area(text, "index"));
            && (HasArea(area, key) <==> HasArea(was, key))
            && Value(area, key) == Value(was, key) && AreaList(area, key) == AreaList(was, key)
  {
    AddressInArea(fetched, lines, n, address, text);
    OthersStay(lines, address, n, key);
  }

  /** The rest of the line ends as the address does. */
  lemma RestIsSolid(address: string, n: nat)
    requires GoodItem(address) && address != "" && Rest(address, n) != ""
    ensures Strip(Rest(address, n)) != ""
  {
    var t := Rest(address, n);
    assert t[|t| - 1] == address[|address| - 1];
    SolidIsNotBlank(t);
  }

  lemma HeaderA()
    ensures IsAreaBody(["a:"]) && PlainKey("a") && "a" != "address"
    ensures IsHeader("a:") && HeaderName("a:") == Some("a")
  {
    PiecesStep("a", ':', "");
    PiecesOfNone(':');
    assert "a" + [':'] + "" == "a:";
  }

  /** A line that is no header joins the area in front of it. */
  lemma AreaIsChanged(last: string)
    requires !IsHeader(last) && Strip(last) != ""
    ensures !SameKey(["a:"], [last], "a")
  {
    HeaderA();
    var both := ["a:"] + [last];
    assert both[0] == "a:" && both[1..] == [last];
    assert Body([last]) == [last] + Body([last][1..]);
    assert Bodies(both, "a") == [Body([last])] + Bodies([last], "a");
    assert Bodies(["a:"], "a") == Bodies(["a:"][1..], "a") == [];
  }

  const OWN_EMPTY := ["address:"]

  /** A header with another key brings in that key. */
  lemma KeyIsAdded(last: string)
    requires IsHeader(last) && PlainKey(KeyOf(last)) && KeyOf(last) != "address"
    ensures IsAreaBody(OWN_EMPTY) && !SameKey(OWN_EMPTY, [last], KeyOf(last))
  {
    var key := KeyOf(last);
    assert last[..|key| + 1] == key + ":";
    assert (OWN_EMPTY + [last])[1] == last && StartsWith(last, key + ":");
    assert OWN_EMPTY[0] == "address" + ":" + "";
    assert PlainKey("address");
    if StartsWith(OWN_EMPTY[0], key + ":") {
      OneKey("address", key, "");
    }
  }

  /** That is the exact condition: it holds if and only if in every index all other keys stay. */
  lemma OthersStayIff(address: string, n: nat)
    requires GoodItem(address) && address != ""
    ensures LeavesOthers(address, n) <==>
            forall lines, key :: IsAreaBody(lines) && PlainKey(key) && key != "address" ==>
                                   SameKey(lines, Lines(Rest(address, n)), key)
  {
    var t := Rest(address, n);
    RestLines(address, n);
    if LeavesOthers(address, n) {
      forall lines, key | PlainKey(key) && key != "address" ensures SameKey(lines, Lines(t), key) {
        OthersStay(lines, address, n, key);
      }
    } else if !IsHeader(t) {
      HeaderA();
      RestIsSolid(address, n);
      AreaIsChanged(t);
    } else {
      KeyIsAdded(t);
    }
  }

  /** With two spaces, as `create_index_data` prints them, both conditions are met. */
  lemma TwoSpaces(address: string)
    ensures Rest(address, 2) == "address: " + address && OwnStays(address, 2) && LeavesOthers(address, 2)
  {
    var t := "address" + ":" + (" " + address);
    AddressChars(address);
    assert t == Rest(address, 2) == "address: " + address;
    CutAt("address", ':', " " + address);
    assert t[0] == 'a' && t[7] == ':';
  }
}
