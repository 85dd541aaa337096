/** The growing string array everything else is built on. Values sit in slots of a buffer; a removed value
    leaves a hole. `State` is the whole content of the C struct, `List` the list it stands for. */
module TombstoneArray {
  import opened Wrappers

  const CHUNK := 1024

  type Slot<T> = Option<T>

  datatype State<T> = State(data: seq<Slot<T>>, size: nat, removed: nat)

  function Content<T(==)>(x: Slot<T>): seq<T> {
    if x.Some? then [x.value] else []
  }

  /** The values in slots `lo` to `hi`, holes skipped. */
  function Live<T(==)>(data: seq<Slot<T>>, lo: nat, hi: nat): seq<T>
    requires lo <= hi <= |data|
    decreases hi - lo
  {
    if lo == hi then [] else Live(data, lo, hi - 1) + Content(data[hi - 1])
  }

  function List<T(==)>(s: State<T>): seq<T> {
    Live(s.data, 0, |s.data|)
  }

  /** `size` counts the live slots and no live slot lies beyond `size + removed`: `array_get` sees all. */
  predicate Accounted<T(==)>(s: State<T>) {
    s.size == |List(s)| && forall k :: s.size + s.removed < k < |s.data| ==> s.data[k] == None
  }

  /** What every history of adds followed by removes keeps. */
  predicate WellFormed<T(==)>(s: State<T>) {
    Accounted(s) && s.size + s.removed <= |s.data|
  }

  /** Only ever added to: slot 0 is a hole, slots 1 to `size` are full. */
  predicate Dense<T(==)>(s: State<T>) {
    && s.removed == 0 && s.size < |s.data| && s.data[0] == None
    && forall k :: 1 <= k <= s.size ==> s.data[k].Some?
  }

  // ----- what the operations do to the state

  function Holes<T(==)>(n: nat): (r: seq<Slot<T>>)
    ensures |r| == n && forall k :: 0 <= k < n ==> r[k] == None
  {
    seq(n, k => None)
  }

  function Empty<T(==)>(): (r: State<T>)
    ensures WellFormed(r) && Dense(r) && List(r) == []
  {
    NoLive(Holes<T>(CHUNK), 0, CHUNK);
    State(Holes(CHUNK), 0, 0)
  }

  /** The buffer an add writes into: one chunk longer when the last slot would be reached. */
  function Grown<T(==)>(s: State<T>): (r: seq<Slot<T>>)
    ensures |r| >= |s.data| && (s.size <= |s.data| ==> s.size + 1 < |r|)
    ensures forall k {:trigger r[k]} :: 0 <= k < |r| ==> r[k] == if k < |s.data| then s.data[k] else None
  {
    if s.size + 1 >= |s.data| then s.data + Holes(CHUNK) else s.data
  }

  function Added<T(==)>(s: State<T>, v: T): State<T>
    requires s.size <= |s.data|
  {
    State(Grown(s)[s.size + 1 := Some(v)], s.size + 1, s.removed)
  }

  /** Slots with `item` cleared out. */
  function Cleared<T(==)>(data: seq<Slot<T>>, item: T): (r: seq<Slot<T>>)
    ensures |r| == |data|
    ensures forall k :: 0 <= k < |data| ==> r[k] == if data[k] == Some(item) then None else data[k]
  {
    seq(|data|, k requires 0 <= k < |data| => if data[k] == Some(item) then None else data[k])
  }

  /** How many of the first `n` slots hold `item`. */
  function Hits<T(==)>(data: seq<Slot<T>>, n: nat, item: T): (r: nat)
    requires n <= |data|
    ensures r <= |Live(data, 0, n)|
  {
    if n == 0 then 0 else Hits(data, n - 1, item) + if data[n - 1] == Some(item) then 1 else 0
  }

  function Purged<T(==)>(s: State<T>, item: T): State<T>
    requires s.size == |List(s)|
  {
    var n := Hits(s.data, |s.data|, item);
    State(Cleared(s.data, item), s.size - n, s.removed + n)
  }

  /** The slots `array_has` looks at. */
  predicate Sees<T(==)>(s: State<T>, name: T)
    requires s.size + s.removed <= |s.data|
  {
    exists k :: 0 <= k < s.size + s.removed && s.data[k] == Some(name)
  }

  function FirstHole<T(==)>(data: seq<Slot<T>>, i: nat): (h: nat)
    requires i <= |data|
    ensures i <= h <= |data|
    ensures forall k :: i <= k < h ==> data[k].Some?
    ensures h < |data| ==> data[h] == None
    decreases |data| - i
  {
    if i == |data| || data[i] == None then i else FirstHole(data, i + 1)
  }

  /** `v` in slot `index`, the values from there up to slot `h` one slot further; what was in `h` is gone. */
  function PushedUp<T(==)>(data: seq<Slot<T>>, v: T, index: nat, h: nat): (r: seq<Slot<T>>)
    ensures |r| == |data|
    ensures forall k {:trigger r[k]} :: 0 <= k < |data| ==>
              r[k] == if k == index then Some(v) else if index < k <= h then data[k - 1] else data[k]
  {
    seq(|data|, k requires 0 <= k < |data| =>
          if k == index then Some(v) else if index < k <= h then data[k - 1] else data[k])
  }

  /** The shift ends at the first hole; without a hole the value in the last slot falls off. */
  function Inserted<T(==)>(s: State<T>, v: T, index: nat): State<T>
    requires index < |s.data|
  {
    State(PushedUp(s.data, v, index, FirstHole(s.data, index)), s.size + 1, s.removed)
  }

  /** Whether there is a hole or not, the value is in its slot, and one more is counted. */
  lemma InsertPlaces<T>(s: State<T>, v: T, index: nat)
    requires index < |s.data|
    ensures var r := Inserted(s, v, index);
            |r.data| == |s.data| && r.data[index] == Some(v) && r.size == s.size + 1 && r.removed == s.removed
  {
  }

  function Spelled(list: seq<string>): string {
    if list == [] then "" else Spelled(list[..|list| - 1]) + list[|list| - 1]
  }

  // ----- the C struct

  class CArray<T(==)> {
    var data: array<Slot<T>>
    var size: nat
    var removed: nat

    function Slots(): State<T>
      reads this, data
    {
      State(data[..], size, removed)
    }

    constructor ()
      ensures Slots() == Empty() && fresh(data)
      ensures data.Length == 1024 && size == removed == 0 && forall k :: 0 <= k < 1024 ==> data[k] == None
    {
      data := new Slot<T>[CHUNK];
      size, removed := 0, 0;
      new;
      var start := 0;
      while start < data.Length
        invariant 0 <= start <= data.Length == CHUNK
        invariant forall k :: 0 <= k < start ==> data[k] == None
        modifies data
      {
        data[start] := None;
        start := start + 1;
      }
      assert data[..] == Holes(CHUNK);
    }

    method Add(v: T)
      requires size <= data.Length
      modifies this, data
      ensures Slots() == Added(old(Slots()), v) && size < data.Length
      ensures data.Length == old(data.Length) + if old(size) + 1 >= old(data.Length) then 1024 else 0
      ensures size == old(size) + 1 && data[size] == Some(v)
      ensures data == old(data) || fresh(data)
    {
      if size + 1 >= data.Length {
        var capacity := data.Length + CHUNK;
        var grown := new Slot<T>[capacity];
        var start := 0;
        while start < capacity
          invariant 0 <= start <= capacity
          invariant forall k :: 0 <= k < start ==> grown[k] == if k < data.Length then data[k] else None
          modifies grown
        {
          grown[start] := if start < data.Length then data[start] else None;
          start := start + 1;
        }
        assert grown[..] == Grown(Slots());
        data := grown;
      }
      size := size + 1;
      data[size] := Some(v);
    }

    method Adds(values: seq<T>)
      requires size <= data.Length
      modifies this, data
      ensures Slots() == AddedAll(old(Slots()), values, |values|)
      ensures data == old(data) || fresh(data)
    {
      var i := 0;
      while i < |values|
        invariant 0 <= i <= |values|
        invariant size <= data.Length && Slots() == AddedAll(old(Slots()), values, i)
        invariant data == old(data) || fresh(data)
      {
        Add(values[i]);
        i := i + 1;
      }
    }

    method Set(values: seq<T>)
      requires data.Length > 0
      modifies this, data
      ensures WellFormed(Slots()) && removed == 0 && List(Slots()) == values
      ensures fresh(data)
    {
      data := new Slot<T>[data.Length](_ => None);
      size, removed := 0, 0;
      NoLive(data[..], 0, data.Length);
      AddAllAppends(Slots(), values, |values|);
      Adds(values);
      assert [] + values[..|values|] == values;
    }

    method Remove(item: T)
      requires size == |List(Slots())|
      modifies this, data
      ensures Slots() == Purged(old(Slots()), item)
      ensures data == old(data)
    {
      ghost var before := data[..];
      var start := 0;
      while start < data.Length
        invariant 0 <= start <= data.Length == |before| && data == old(data)
        invariant forall k :: start <= k < data.Length ==> data[k] == before[k]
        invariant forall k :: 0 <= k < start ==> data[k] == if before[k] == Some(item) then None else before[k]
        invariant size == old(size) - Hits(before, start, item)
        invariant removed == old(removed) + Hits(before, start, item)
      {
        HitsGrow(before, item, start + 1);
        if data[start] == Some(item) {
          data[start] := None;
          size, removed := size - 1, removed + 1;
        }
        start := start + 1;
      }
      assert data[..] == Cleared(before, item);
    }

    method Has(name: T) returns (r: bool)
      requires size + removed <= data.Length
      ensures r == Sees(Slots(), name)
      ensures r <==> exists k :: 0 <= k < size + removed && data[k] == Some(name)
    {
      var start := 0;
      while start < size + removed
        invariant 0 <= start <= size + removed
        invariant forall k :: 0 <= k < start ==> data[k] != Some(name)
      {
        if data[start].Some? && data[start].value == name {
          assert Slots().data[start] == Some(name);
          return true;
        }
        start := start + 1;
      }
      return false;
    }

    method Insert(value: T, index: nat)
      requires index < data.Length
      modifies this, data
      ensures Slots() == Inserted(old(Slots()), value, index)
      ensures data == old(data)
    {
      ghost var before := data[..];
      ghost var h := FirstHole(before, index);
      if data[index] == None {
        data[index] := Some(value);
        size := size + 1;
        assert data[..] == PushedUp(before, value, index, h);
        return;
      }
      var tmp := data[index].value;
      data[index] := Some(value);
      var start := index + 1;
      while start < data.Length
        invariant index < start <= data.Length == |before| && start <= h && data == old(data)
        invariant size == old(size) && removed == old(removed)
        invariant Some(tmp) == before[start - 1]
        invariant data[index] == Some(value)
        invariant forall k :: 0 <= k < index || start <= k < data.Length ==> data[k] == before[k]
        invariant forall k :: index < k < start ==> data[k] == before[k - 1]
      {
        if data[start] == None {
          data[start] := Some(tmp);
          size := size + 1;
          assert data[..] == PushedUp(before, value, index, h);
          return;
        }
        var tmp2 := data[start].value;
        data[start] := Some(tmp);
        tmp := tmp2;
        start := start + 1;
      }
      size := size + 1;
      assert data[..] == PushedUp(before, value, index, h);
    }

    method Get() returns (r: seq<T>)
      requires Accounted(Slots())
      ensures r == List(Slots())
    {
      r := [];
      var start := 0;
      while start < size + removed + 1 && start < data.Length
        invariant 0 <= start <= data.Length
        invariant r == Live(data[..], 0, start)
      {
        if data[start].Some? {
          r := r + [data[start].value];
        }
        start := start + 1;
      }
      LiveSplit(data[..], 0, start, data.Length);
      NoLive(data[..], start, data.Length);
    }
  }

  lemma SpelledLiveStep(data: seq<Slot<string>>, i: nat)
    requires i < |data|
    ensures Spelled(Live(data, 0, i + 1)) == Spelled(Live(data, 0, i)) + if data[i].Some? then data[i].value else ""
  {
    var front := Live(data, 0, i);
    if data[i].Some? {
      SpelledAppend(front, data[i].value);
      assert Live(data, 0, i + 1) == front + [data[i].value];
    } else {
      assert Live(data, 0, i + 1) == front;
    }
  }

  /** The readers may stop at slot `size + removed`. */
  lemma ListEndsEarly<T>(s: State<T>, end: nat)
    requires Accounted(s) && s.size + s.removed < end <= |s.data|
    ensures List(s) == Live(s.data, 0, end)
  {
    LiveSplit(s.data, 0, end, |s.data|);
    NoLive(s.data, end, |s.data|);
  }

  /** `array_get_string`. */
  method GetString(a: CArray<string>) returns (r: string)
    requires WellFormed(a.Slots()) && a.size + a.removed < a.data.Length
    ensures r == Spelled(List(a.Slots()))
  {
    r := "";
    ghost var s := a.Slots();
    var start := 0;
    while start < a.size + a.removed + 1
      invariant 0 <= start <= a.size + a.removed + 1 <= |s.data| && s.data == a.data[..]
      invariant r == Spelled(Live(s.data, 0, start))
    {
      SpelledLiveStep(s.data, start);
      assert s.data[start] == a.data[start];
      if a.data[start].Some? {
        r := r + a.data[start].value;
      }
      start := start + 1;
    }
    ListEndsEarly(s, start);
  }

  // ----- the list behind the slots

  lemma {:induction false} HitsGrow<T>(data: seq<Slot<T>>, item: T, n: nat)
    requires n <= |data|
    ensures |Live(data, 0, n)| <= |List(State(data, 0, 0))|
    ensures Hits(data, n, item) <= Hits(data, |data|, item)
    decreases |data| - n
  {
    if n < |data| {
      HitsGrow(data, item, n + 1);
    }
  }

  lemma SpelledAppend(list: seq<string>, v: string)
    ensures Spelled(list + [v]) == Spelled(list) + v
  {
  }

  lemma {:induction false} LiveSplit<T>(data: seq<Slot<T>>, lo: nat, mid: nat, hi: nat)
    requires lo <= mid <= hi <= |data|
    ensures Live(data, lo, hi) == Live(data, lo, mid) + Live(data, mid, hi)
    decreases hi - mid
  {
    if mid < hi {
      LiveSplit(data, lo, mid, hi - 1);
    }
  }

  lemma {:induction false} NoLive<T>(data: seq<Slot<T>>, lo: nat, hi: nat)
    requires lo <= hi <= |data| && forall k :: lo <= k < hi ==> data[k] == None
    ensures Live(data, lo, hi) == []
    decreases hi - lo
  {
    if lo < hi {
      NoLive(data, lo, hi - 1);
    }
  }

  /** Slots `lo` to `hi` of `a` are found `up` slots further in `b`. */
  predicate Moved<T(==)>(a: seq<Slot<T>>, lo: nat, hi: nat, b: seq<Slot<T>>, up: nat)
    requires lo <= hi <= |a| && hi + up <= |b|
  {
    forall k {:trigger a[k]} :: lo <= k < hi ==> a[k] == b[k + up]
  }

  lemma {:induction false} LiveMoved<T>(a: seq<Slot<T>>, lo: nat, hi: nat, b: seq<Slot<T>>, up: nat)
    requires lo <= hi <= |a| && hi + up <= |b| && Moved(a, lo, hi, b, up)
    ensures Live(a, lo, hi) == Live(b, lo + up, hi + up)
    decreases hi - lo
  {
    if lo < hi {
      LiveMoved(a, lo, hi - 1, b, up);
    }
  }

  lemma LiveSame<T>(a: seq<Slot<T>>, b: seq<Slot<T>>, lo: nat, hi: nat)
    requires lo <= hi <= |a| && hi <= |b| && Moved(a, lo, hi, b, 0)
    ensures Live(a, lo, hi) == Live(b, lo, hi)
  {
  }

  lemma LiveAt<T>(data: seq<Slot<T>>, i: nat)
    requires i < |data|
    ensures Live(data, 0, |data|) == Live(data, 0, i) + Content(data[i]) + Live(data, i + 1, |data|)
  {
    LiveSplit(data, 0, i + 1, |data|);
  }

  lemma LiveUpdate<T>(data: seq<Slot<T>>, i: nat, x: Slot<T>)
    requires i < |data|
    ensures var r := data[i := x]; Live(r, 0, |r|) == Live(data, 0, i) + Content(x) + Live(data, i + 1, |data|)
  {
    var r := data[i := x];
    LiveAt(r, i);
    LiveSame(r, data, 0, i);
    LiveMoved(r, i + 1, |r|, data, 0);
  }

  lemma LiveExtended<T>(data: seq<Slot<T>>, longer: seq<Slot<T>>)
    requires |data| <= |longer|
    requires forall k :: 0 <= k < |longer| ==> longer[k] == if k < |data| then data[k] else None
    ensures Live(longer, 0, |longer|) == Live(data, 0, |data|)
  {
    assert Moved(data, 0, |data|, longer, 0);
    LiveSplit(longer, 0, |data|, |longer|);
    NoLive(longer, |data|, |longer|);
    LiveSame(data, longer, 0, |data|);
  }

  lemma AddSplits<T>(s: State<T>, v: T)
    requires s.size <= |s.data|
    ensures var (g, i) := (Grown(s), s.size + 1);
            && List(s) == Live(g, 0, i) + Content(g[i]) + Live(g, i + 1, |g|)
            && List(Added(s, v)) == Live(g, 0, i) + [v] + Live(g, i + 1, |g|)
  {
    LiveExtended(s.data, Grown(s));
    LiveAt(Grown(s), s.size + 1);
    LiveUpdate(Grown(s), s.size + 1, Some(v));
  }

  /** As long as nothing was removed, an add appends, whether the buffer grows or not. */
  lemma AddAppends<T>(s: State<T>, v: T)
    requires WellFormed(s) && s.removed == 0
    ensures List(Added(s, v)) == List(s) + [v]
    ensures WellFormed(Added(s, v)) && Added(s, v).size < |Added(s, v).data|
    ensures Dense(s) ==> Dense(Added(s, v))
  {
    AddSplits(s, v);
    NoLive(Grown(s), s.size + 2, |Grown(s)|);
    assert List(Added(s, v)) == List(s) + [v];
  }

  /** After removals the slot an add picks may hold a live value, which is then lost: an add keeps every
      value exactly when that slot is a hole. */
  lemma AddKeepsAllIff<T>(s: State<T>, v: T)
    requires WellFormed(s)
    ensures |List(Added(s, v))| == |List(s)| + 1 <==> Grown(s)[s.size + 1] == None
  {
    AddSplits(s, v);
  }

  /** The first `n` values without the copies of `item`. */
  function Filter<T(==)>(list: seq<T>, n: nat, item: T): seq<T>
    requires n <= |list|
  {
    if n == 0 then [] else Filter(list, n - 1, item) + if list[n - 1] == item then [] else [list[n - 1]]
  }

  function Without<T(==)>(list: seq<T>, item: T): seq<T> {
    Filter(list, |list|, item)
  }

  lemma {:induction false} FilterPrefix<T>(list: seq<T>, v: T, n: nat, item: T)
    requires n <= |list|
    ensures Filter(list + [v], n, item) == Filter(list, n, item)
  {
    if n > 0 {
      FilterPrefix(list, v, n - 1, item);
    }
  }

  lemma WithoutAppend<T>(list: seq<T>, v: T, item: T)
    ensures Without(list + [v], item) == Without(list, item) + if v == item then [] else [v]
  {
    FilterPrefix(list, v, |list|, item);
  }

  lemma {:induction false} RemoveFilters<T>(data: seq<Slot<T>>, n: nat, item: T)
    requires n <= |data|
    ensures Live(Cleared(data, item), 0, n) == Without(Live(data, 0, n), item)
    ensures |Live(Cleared(data, item), 0, n)| == |Live(data, 0, n)| - Hits(data, n, item)
  {
    if n > 0 {
      RemoveFilters(data, n - 1, item);
      if data[n - 1].Some? {
        WithoutAppend(Live(data, 0, n - 1), data[n - 1].value, item);
      } else {
        assert Live(data, 0, n) == Live(data, 0, n - 1);
      }
    }
  }

  /** A remove clears the slots that hold the value, where they are, and touches no other. */
  lemma RemoveClears<T>(s: State<T>, item: T, k: nat)
    requires s.size == |List(s)| && k < |s.data|
    ensures var r := Purged(s, item);
            && |r.data| == |s.data| && r.size + r.removed == s.size + s.removed
            && r.data[k] == if s.data[k] == Some(item) then None else s.data[k]
  {
  }

  lemma RemoveKeepsWellFormed<T>(s: State<T>, item: T)
    requires WellFormed(s)
    ensures WellFormed(Purged(s, item)) && List(Purged(s, item)) == Without(List(s), item)
    ensures Purged(s, item).size + Purged(s, item).removed == s.size + s.removed
    ensures |Purged(s, item).data| == |s.data|
  {
    RemoveFilters(s.data, |s.data|, item);
  }

  // ----- many adds

  /** The first `n` values added in turn. */
  function AddedAll<T(==)>(s: State<T>, values: seq<T>, n: nat): (r: State<T>)
    requires s.size <= |s.data| && n <= |values|
    ensures r.size <= |r.data|
  {
    if n == 0 then s else Added(AddedAll(s, values, n - 1), values[n - 1])
  }

  lemma {:induction false} AddAllAppends<T>(s: State<T>, values: seq<T>, n: nat)
    requires WellFormed(s) && s.removed == 0 && n <= |values|
    ensures List(AddedAll(s, values, n)) == List(s) + values[..n]
    ensures var r := AddedAll(s, values, n);
            WellFormed(r) && r.removed == 0 && (Dense(s) ==> Dense(r)) && (s.size < |s.data| ==> r.size < |r.data|)
  {
    if n > 0 {
      AddAllAppends(s, values, n - 1);
      AddAppends(AddedAll(s, values, n - 1), values[n - 1]);
      AppendOne(List(s), values, n);
    }
  }

  lemma AppendOne<T>(front: seq<T>, values: seq<T>, n: nat)
    requires 0 < n <= |values|
    ensures front + values[..n] == (front + values[..n - 1]) + [values[n - 1]]
  {
  }

  // ----- arrays as builders

  /** An array holding a list, with no slot out of reach. */
  ghost predicate Holds<T>(s: State<T>, list: seq<T>) {
    WellFormed(s) && List(s) == list
  }

  method AppendAll<T(==)>(a: CArray<T>, values: seq<T>, ghost list: seq<T>)
    requires Holds(a.Slots(), list) && a.removed == 0
    modifies a, a.data
    ensures Holds(a.Slots(), list + values) && a.removed == 0 && a.size == |list + values|
    ensures a.data == old(a.data) || fresh(a.data)
  {
    AddAllAppends(a.Slots(), values, |values|);
    assert values[..|values|] == values;
    a.Adds(values);
  }

  /** The first `n` lists put together. */
  function Together<T>(parts: seq<seq<T>>, n: nat): seq<T>
    requires n <= |parts|
  {
    if n == 0 then [] else Together(parts, n - 1) + parts[n - 1]
  }

  lemma {:induction false} TogetherMembers<T>(parts: seq<seq<T>>, n: nat, v: T)
    requires n <= |parts|
    ensures v in Together(parts, n) <==> exists k :: 0 <= k < n && v in parts[k]
  {
    if n > 0 {
      TogetherMembers(parts, n - 1, v);
    }
  }

  /** The first lists come first. */
  lemma {:induction false} TogetherStarts<T>(parts: seq<seq<T>>, m: nat, n: nat)
    requires m <= n <= |parts|
    ensures Together(parts, m) <= Together(parts, n)
  {
    if m < n {
      TogetherStarts(parts, m, n - 1);
    }
  }

  lemma TogetherFirst<T>(parts: seq<seq<T>>)
    ensures |parts| >= 1 ==> Together(parts, 1) == parts[0]
    ensures |parts| >= 2 ==> Together(parts, 2) == parts[0] + parts[1]
  {
    if |parts| >= 1 {
      assert Together(parts, 1) == Together(parts, 0) + parts[0];
    }
  }

  method PutTogether<T(==)>(lists: seq<seq<T>>) returns (r: seq<T>)
    ensures r == Together(lists, |lists|)
  {
    var ret := new CArray<T>();
    for i := 0 to |lists|
      invariant fresh(ret) && fresh(ret.data)
      invariant Holds(ret.Slots(), Together(lists, i)) && ret.removed == 0
    {
      AppendAll(ret, lists[i], Together(lists, i));
    }
    r := ret.Get();
  }

  /** A string array that was only added to, as a text. */
  ghost predicate Spells(s: State<string>, text: string) {
    WellFormed(s) && s.removed == 0 && s.size < |s.data| && Spelled(List(s)) == text
  }

  method AppendText(a: CArray<string>, v: string, ghost text: string)
    requires Spells(a.Slots(), text)
    modifies a, a.data
    ensures Spells(a.Slots(), text + v)
    ensures a.data == old(a.data) || fresh(a.data)
  {
    AddAppends(a.Slots(), v);
    SpelledAppend(List(a.Slots()), v);
    a.Add(v);
  }

  method NewText() returns (a: CArray<string>)
    ensures fresh(a) && fresh(a.data) && Spells(a.Slots(), "")
  {
    a := new CArray();
  }
}
