/** The indentation-based parser: an area is the run of indented lines behind a header line, with the
    indentation taken off. */
module YamlParser {
  import opened Wrappers
  import opened Text

  // ----- areas by lines

  /** The lines up to the first that is not indented. */
  function Block(lines: seq<string>): seq<string> {
    if lines == [] || !StartsWith(lines[0], " ") then [] else [lines[0]] + Block(lines[1..])
  }

  predicate OpensArea(line: string, path: string) {
    !StartsWith(line, " ") && line == path + ":"
  }

  /** The block behind the first header `path:`. */
  function AreaLines(lines: seq<string>, path: string): seq<string> {
    if lines == [] then []
    else if OpensArea(lines[0], path) then Block(lines[1..])
    else AreaLines(lines[1..], path)
  }

  function AreaSingle(data: string, path: string): string {
    Trim(Joined(AreaLines(Lines(data), path)))
  }

  /** Nested areas, outermost first. */
  function AreaAt(data: string, items: seq<string>): string
    decreases |items|
  {
    if items == [] then data else AreaAt(AreaSingle(data, items[0]), items[1..])
  }

  function Area(data: string, path: string): string {
    if data == "" then "" else AreaAt(data, Pieces(path, '.'))
  }

  predicate AnyStartsWith(lines: seq<string>, key: string) {
    exists k :: 0 <= k < |lines| && StartsWith(lines[k], key)
  }

  predicate HasArea(data: string, path: string) {
    AnyStartsWith(Lines(data), path + ":")
  }

  // ----- lists of areas

  predicate IsHeader(line: string) {
    !StartsWith(line, " ") && ':' in line
  }

  /** The name a header line starts with; a line of colons has none. */
  function HeaderName(line: string): Option<string> {
    var pieces := Pieces(line, ':');
    if pieces == [] then None else Some(pieces[0])
  }

  /** The lines up to the next header, blank ones left out. */
  function Body(lines: seq<string>): seq<string> {
    if lines == [] || IsHeader(lines[0]) then []
    else (if Strip(lines[0]) == "" then [] else [lines[0]]) + Body(lines[1..])
  }

  /** The body of every header with the given name, in order, empty ones left out. */
  function Bodies(lines: seq<string>, path: string): seq<seq<string>> {
    if lines == [] then []
    else
      var rest := Bodies(lines[1..], path);
      if IsHeader(lines[0]) && HeaderName(lines[0]) == Some(path) && Body(lines[1..]) != [] then
        [Body(lines[1..])] + rest
      else rest
  }

  function Areas(bodies: seq<seq<string>>): (r: seq<string>)
    ensures |r| == |bodies| && forall k :: 0 <= k < |r| ==> r[k] == Trim(Joined(bodies[k]))
  {
    seq(|bodies|, k requires 0 <= k < |bodies| => Trim(Joined(bodies[k])))
  }

  function AreaList(data: string, path: string): seq<string> {
    Areas(Bodies(Lines(data), path))
  }

  // ----- values

  /** The indented lines of a `|` value; lines shorter than the name are passed over. */
  function Folded(lines: seq<string>, name: string): seq<string> {
    if lines == [] then []
    else if |lines[0]| < |name| + 1 then Folded(lines[1..], name)
    else if StartsWith(lines[0], " ") then [lines[0]] + Folded(lines[1..], name)
    else []
  }

  function ValueIn(lines: seq<string>, name: string): string {
    if lines == [] then ""
    else if StartsWith(lines[0], name + ":") then
      if EndsWith(lines[0], "|") then Trim(Joined(Folded(lines[1..], name)))
      else Strip(lines[0][|name| + 1..])
    else ValueIn(lines[1..], name)
  }

  function Value(data: string, name: string): string {
    ValueIn(Lines(data), name)
  }

  /** The entries of a list: the lines that start with a dash. */
  function Items(lines: seq<string>): seq<string> {
    if lines == [] then []
    else (if StartsWith(lines[0], "- ") then [Strip(lines[0][1..])] else []) + Items(lines[1..])
  }

  function Array(data: string, name: string): seq<string> {
    Items(Lines(Area(data, name)))
  }

  // ----- the program

  class YamlFile {
    var data: string
    var areaBuilder: string

    constructor ()
      ensures data == "" && areaBuilder == ""
    {
      data, areaBuilder := "", "";
    }

    method Load(text: string)
      modifies this`data
      ensures data == text
    {
      data := text;
    }

    method Get(path: string) returns (r: string)
      modifies this`areaBuilder
      ensures r == Area(data, path)
    {
      r := GetArea(data, path);
    }

    method HasAreaIn(fdata: string, path: string) returns (r: bool)
      ensures r == HasArea(fdata, path)
    {
      var lines := Ssplit(fdata, NL);
      for i := 0 to |lines|
        invariant forall k :: 0 <= k < i ==> !StartsWith(lines[k], path + ":")
      {
        if StartsWith(lines[i], path + ":") {
          return true;
        }
      }
      return false;
    }

    /** `get_area_single`. */
    method GetAreaSingle(fdata: string, path: string) returns (r: string)
      modifies this`areaBuilder
      ensures r == AreaSingle(fdata, path)
    {
      var lines := Ssplit(fdata, NL);
      ghost var goal := AreaLines(lines, path);
      var e := false;
      areaBuilder := "";
      ghost var taken: seq<string> := [];
      assert lines[0..] == lines;
      for i := 0 to |lines|
        invariant areaBuilder == Joined(taken)
        invariant goal == if e then taken + Block(lines[i..]) else AreaLines(lines[i..], path)
        invariant !e ==> taken == []
      {
        var line := lines[i];
        assert lines[i..][1..] == lines[i + 1..];
        if !StartsWith(line, " ") {
          if e {
            assert taken + Block(lines[i..]) == taken;
            r := TrimText(areaBuilder);
            return;
          }
          if line == path + ":" {
            e := true;
            continue;
          }
        }
        if e {
          JoinedOneMore(taken, line);
          FirstAndRest([line], Block(lines[i + 1..]));
          areaBuilder := areaBuilder + line + [NL];
          taken := taken + [line];
        }
      }
      assert taken + [] == taken;
      r := TrimText(areaBuilder);
    }

    /** `get_area`. */
    method GetArea(fdata: string, path: string) returns (tmp: string)
      modifies this`areaBuilder
      ensures tmp == Area(fdata, path)
    {
      if fdata == "" {
        return "";
      }
      tmp := fdata;
      var items := Ssplit(path, '.');
      assert items[0..] == items;
      for i := 0 to |items|
        invariant AreaAt(tmp, items[i..]) == AreaAt(fdata, items)
      {
        assert items[i..][1..] == items[i + 1..];
        tmp := GetAreaSingle(tmp, items[i]);
      }
    }

    /** `get_value`. */
    method GetValue(fdata: string, name: string) returns (r: string)
      ensures r == Value(fdata, name)
    {
      var lines := Ssplit(fdata, NL);
      assert lines[0..] == lines;
      for i := 0 to |lines|
        invariant ValueIn(lines[i..], name) == ValueIn(lines, name)
      {
        assert lines[i..][1..] == lines[i + 1..];
        if StartsWith(lines[i], name + ":") {
          if EndsWith(lines[i], "|") {
            r := GetFolded(lines, i + 1, name);
            return;
          }
          return Strip(lines[i][|name| + 1..]);
        }
      }
      return "";
    }

    /** The second half of its loop, once the flag is set. */
    method GetFolded(lines: seq<string>, from: nat, name: string) returns (r: string)
      requires from <= |lines|
      ensures r == Trim(Joined(Folded(lines[from..], name)))
    {
      var ret := "";
      ghost var taken: seq<string> := [];
      for i := from to |lines|
        invariant ret == Joined(taken) && taken + Folded(lines[i..], name) == Folded(lines[from..], name)
      {
        assert lines[i..][1..] == lines[i + 1..];
        if |lines[i]| < |name| + 1 {
          continue;
        }
        if StartsWith(lines[i], " ") {
          JoinedOneMore(taken, lines[i]);
          ret := ret + lines[i] + [NL];
          taken := taken + [lines[i]];
        } else {
          assert taken + Folded(lines[i..], name) == taken;
          r := TrimText(ret);
          return;
        }
      }
      assert taken + [] == taken;
      r := TrimText(ret);
    }

    /** `get_array`. */
    method GetArray(fdata: string, name: string) returns (entries: seq<string>)
      modifies this`areaBuilder
      ensures entries == Array(fdata, name)
    {
      var area := GetArea(fdata, name);
      var lines := Ssplit(area, NL);
      entries := GetItems(lines);
    }

    method GetItems(lines: seq<string>) returns (entries: seq<string>)
      ensures entries == Items(lines)
    {
      entries := [];
      assert lines[0..] == lines;
      for i := 0 to |lines|
        invariant entries + Items(lines[i..]) == Items(lines)
      {
        assert lines[i..][1..] == lines[i + 1..];
        if StartsWith(lines[i], "- ") {
          entries := entries + [Strip(lines[i][1..])];
        }
      }
    }

    /** The collected area is put on the list. */
    method Flush(ret: seq<string>, ghost done: seq<seq<string>>, ghost taken: seq<string>)
      returns (r: seq<string>, ghost now: seq<seq<string>>)
      requires ret == Areas(done) && areaBuilder == Joined(taken)
      ensures r == Areas(now) && now == done + if taken == [] then [] else [taken]
    {
      r, now := ret, done;
      if areaBuilder != "" {
        var area := TrimText(areaBuilder);
        r, now := ret + [area], done + [taken];
      } else {
        assert done + [] == done;
      }
    }

    /** `get_area_list`. */
    method GetAreaList(fdata: string, path: string) returns (ret: seq<string>)
      modifies this`areaBuilder
      ensures ret == AreaList(fdata, path)
    {
      var lines := Ssplit(fdata, NL);
      ret := [];
      var e := false;
      areaBuilder := "";
      ghost var done, taken: seq<string> := [], [];
      assert lines[0..] == lines;
      for i := 0 to |lines|
        invariant ret == Areas(done) && areaBuilder == Joined(taken) && (!e ==> taken == [])
        invariant Bodies(lines, path) == done + Rest(e, taken, lines[i..], path)
      {
        var line := lines[i];
        assert lines[i..][1..] == lines[i + 1..];
        RestStep(e, taken, done, lines[i..], path);
        if IsHeader(line) {
          ret, done := Flush(ret, done, taken);
          areaBuilder, taken := "", [];
          e := HeaderName(line) == Some(path);
        } else if e && Strip(line) != "" {
          JoinedOneMore(taken, line);
          areaBuilder := areaBuilder + line + [NL];
          taken := taken + [line];
        }
      }
      RestEnds(e, taken, done, path);
      if e {
        ret, done := Flush(ret, done, taken);
      }
    }
  }

  /** The areas still to come: the one being collected, once its last line is reached, and those behind it. */
  ghost function Rest(e: bool, taken: seq<string>, rest: seq<string>, path: string): seq<seq<string>> {
    (if e && taken + Body(rest) != [] then [taken + Body(rest)] else []) + Bodies(rest, path)
  }

  lemma RestEnds(e: bool, taken: seq<string>, done: seq<seq<string>>, path: string)
    ensures done + Rest(e, taken, [], path) == done + if e && taken != [] then [taken] else []
  {
    assert taken + [] == taken;
  }

  lemma RestStep(e: bool, taken: seq<string>, done: seq<seq<string>>, rest: seq<string>, path: string)
    requires rest != [] && (!e ==> taken == [])
    ensures done + Rest(e, taken, rest, path)
            == if IsHeader(rest[0]) then
                 (done + if taken == [] then [] else [taken])
                 + Rest(HeaderName(rest[0]) == Some(path), [], rest[1..], path)
               else
                 done + Rest(e, if e && Strip(rest[0]) != "" then taken + [rest[0]] else taken, rest[1..], path)
  {
    var tail := Body(rest[1..]);
    if IsHeader(rest[0]) {
      assert taken + [] == taken && [] + tail == tail;
    } else if Strip(rest[0]) == "" {
      assert Body(rest) == tail;
    } else {
      assert taken + ([rest[0]] + tail) == (taken + [rest[0]]) + tail;
    }
  }
}
