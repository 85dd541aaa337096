/** The slots of an array as the list they stand for: histories of adds and removes, lookup, insertion. */
module ArrayRefinement {
  import opened Wrappers
  import opened TombstoneArray

  // ----- histories: adds, then removes

  /** The first `n` items removed in turn. */
  function PurgedAll<T(==)>(s: State<T>, items: seq<T>, n: nat): (r: State<T>)
    requires WellFormed(s) && n <= |items|
    ensures WellFormed(r) && r.size + r.removed == s.size + s.removed && |r.data| == |s.data|
  {
    if n == 0 then s
    else
      RemoveKeepsWellFormed(PurgedAll(s, items, n - 1), items[n - 1]);
      Purged(PurgedAll(s, items, n - 1), items[n - 1])
  }

  function WithoutAll<T(==)>(list: seq<T>, items: seq<T>, n: nat): seq<T>
    requires n <= |items|
  {
    if n == 0 then list else Without(WithoutAll(list, items, n - 1), items[n - 1])
  }

  lemma {:induction false} PurgeFilters<T>(s: State<T>, items: seq<T>, n: nat)
    requires WellFormed(s) && n <= |items|
    ensures List(PurgedAll(s, items, n)) == WithoutAll(List(s), items, n)
  {
    if n > 0 {
      PurgeFilters(s, items, n - 1);
      RemoveKeepsWellFormed(PurgedAll(s, items, n - 1), items[n - 1]);
    }
  }

  /** Array refinement: after any adds (any number of growths) followed by any removes, the live slots are
      the added values in order minus every copy of the removed ones, and every slot the readers look at
      is inside the buffer. */
  lemma HistoryIsList<T>(values: seq<T>, items: seq<T>)
    ensures WellFormed(AddedAll(Empty(), values, |values|))
    ensures var s := PurgedAll(AddedAll(Empty(), values, |values|), items, |items|);
            WellFormed(s) && s.size + s.removed < |s.data| && List(s) == WithoutAll(values, items, |items|)
  {
    AddAllAppends(Empty(), values, |values|);
    assert [] + values[..|values|] == values;
    PurgeFilters(AddedAll(Empty(), values, |values|), items, |items|);
  }

  lemma {:induction false} FilterKeepsRest<T>(list: seq<T>, n: nat, item: T, v: T)
    requires n <= |list|
    ensures v in Filter(list, n, item) <==> v != item && exists k :: 0 <= k < n && list[k] == v
  {
    if n > 0 {
      FilterKeepsRest(list, n - 1, item, v);
    }
  }

  /** Removing drops the removed values and nothing else. */
  lemma {:induction false} WithoutAllMembers<T>(list: seq<T>, items: seq<T>, n: nat, v: T)
    requires n <= |items|
    ensures v in WithoutAll(list, items, n) <==> v in list && forall k :: 0 <= k < n ==> items[k] != v
  {
    if n > 0 {
      WithoutAllMembers(list, items, n - 1, v);
      var before := WithoutAll(list, items, n - 1);
      FilterKeepsRest(before, |before|, items[n - 1], v);
    }
  }

  // ----- has and insert

  lemma {:induction false} FullIsLive<T>(data: seq<Slot<T>>, lo: nat, hi: nat)
    requires lo <= hi <= |data| && forall k :: lo <= k < hi ==> data[k].Some?
    ensures |Live(data, lo, hi)| == hi - lo
    decreases hi - lo
  {
    if lo < hi {
      FullIsLive(data, lo, hi - 1);
    }
  }

  lemma {:induction false} FullAt<T>(data: seq<Slot<T>>, lo: nat, hi: nat, k: nat)
    requires lo <= hi <= |data| && k < hi - lo && forall k :: lo <= k < hi ==> data[k].Some?
    ensures |Live(data, lo, hi)| == hi - lo && Live(data, lo, hi)[k] == data[lo + k].value
    decreases hi - lo
  {
    FullIsLive(data, lo, hi - 1);
    if k < hi - 1 - lo {
      FullAt(data, lo, hi - 1, k);
    }
  }

  lemma DenseRange<T>(s: State<T>)
    requires WellFormed(s) && Dense(s)
    ensures List(s) == Live(s.data, 1, s.size + 1)
  {
    var n := |s.data|;
    assert Live(s.data, 0, n) == Live(s.data, 1, n) by {
      LiveSplit(s.data, 0, 1, n);
      NoLive(s.data, 0, 1);
    }
    LiveSplit(s.data, 1, s.size + 1, n);
    NoLive(s.data, s.size + 1, n);
  }

  /** In an array that was only added to, the values are in slots 1 to `size`, in order. */
  lemma DenseList<T>(s: State<T>, k: nat)
    requires WellFormed(s) && Dense(s) && k < s.size
    ensures List(s)[k] == s.data[k + 1].value
  {
    DenseRange(s);
    FullAt(s.data, 1, s.size + 1, k);
  }

  /** On such an array `array_has` finds every value except the one added last. */
  lemma HasMissesLast<T>(s: State<T>, name: T)
    requires WellFormed(s) && Dense(s)
    ensures Sees(s, name) <==> exists k :: 0 <= k < s.size - 1 && List(s)[k] == name
  {
    if k :| 0 <= k < s.size - 1 && List(s)[k] == name {
      DenseList(s, k);
      assert s.data[k + 1] == Some(name);
    }
    if Sees(s, name) {
      var k :| 0 <= k < s.size && s.data[k] == Some(name);
      DenseList(s, k - 1);
      assert List(s)[k - 1] == name;
    }
  }

  lemma ShiftMoves<T>(data: seq<Slot<T>>, v: T, index: nat, h: nat)
    requires index <= h < |data|
    ensures Moved(PushedUp(data, v, index, h), 0, index, data, 0)
    ensures Moved(PushedUp(data, v, index, h), h + 1, |data|, data, 0)
    ensures Moved(data, index, h, PushedUp(data, v, index, h), 1)
  {
  }

  lemma ShiftParts<T>(data: seq<Slot<T>>, v: T, index: nat, h: nat)
    requires index <= h < |data|
    ensures Live(PushedUp(data, v, index, h), 0, index) == Live(data, 0, index)
    ensures Live(PushedUp(data, v, index, h), index + 1, h + 1) == Live(data, index, h)
    ensures Live(PushedUp(data, v, index, h), h + 1, |data|) == Live(data, h + 1, |data|)
  {
    var r := PushedUp(data, v, index, h);
    ShiftMoves(data, v, index, h);
    LiveSame(r, data, 0, index);
    LiveMoved(data, index, h, r, 1);
    LiveSame(r, data, h + 1, |data|);
  }

  lemma LiveAroundHole<T>(data: seq<Slot<T>>, lo: nat, h: nat)
    requires lo <= h < |data| && data[h] == None
    ensures Live(data, lo, |data|) == Live(data, lo, h) + Live(data, h + 1, |data|)
  {
    LiveSplit(data, lo, h + 1, |data|);
  }

  lemma LiveAroundValue<T>(data: seq<Slot<T>>, index: nat, h: nat)
    requires index <= h < |data|
    ensures Live(data, 0, |data|)
            == Live(data, 0, index) + Content(data[index]) + (Live(data, index + 1, h + 1) + Live(data, h + 1, |data|))
  {
    LiveAt(data, index);
    LiveSplit(data, index + 1, h + 1, |data|);
  }

  /** With a hole at or above `index`, an insert puts the value in front of everything live from there on. */
  lemma InsertIsInsertion<T>(s: State<T>, v: T, index: nat)
    requires index < |s.data| && FirstHole(s.data, index) < |s.data|
    ensures List(Inserted(s, v, index)) == Live(s.data, 0, index) + [v] + Live(s.data, index, |s.data|)
    ensures List(s) == Live(s.data, 0, index) + Live(s.data, index, |s.data|)
  {
    var h := FirstHole(s.data, index);
    ShiftParts(s.data, v, index, h);
    LiveAroundValue(Inserted(s, v, index).data, index, h);
    LiveAroundHole(s.data, index, h);
    LiveSplit(s.data, 0, index, |s.data|);
  }

  /** The inserted value and all others stay visible exactly when the index is at most one past the bound. */
  lemma InsertStaysVisible<T>(s: State<T>, v: T, index: nat)
    requires Accounted(s) && index < |s.data| && FirstHole(s.data, index) < |s.data|
    ensures Accounted(Inserted(s, v, index)) <==> index <= s.size + s.removed + 1
  {
    InsertIsInsertion(s, v, index);
    assert Inserted(s, v, index).data[index] == Some(v);
  }

  /** Without a hole the insert loses the value in the last slot, so the list grows exactly when there is one. */
  lemma InsertNeedsHole<T>(s: State<T>, v: T, index: nat)
    requires WellFormed(s) && index < |s.data|
    ensures |List(Inserted(s, v, index))| == |List(s)| + 1 <==> FirstHole(s.data, index) < |s.data|
  {
    if FirstHole(s.data, index) < |s.data| {
      InsertIsInsertion(s, v, index);
    } else {
      var r := Inserted(s, v, index).data;
      LiveSplit(s.data, 0, index, |s.data|);
      FullIsLive(s.data, index, |s.data|);
      LiveSplit(r, 0, index, |s.data|);
      LiveSame(r, s.data, 0, index);
      FullIsLive(r, index, |s.data|);
    }
  }

  // ----- adding after a remove

  /** Three values were added to a new array, and nothing was removed. */
  ghost predicate HoldsThree<T(!new)>(s: State<T>, a: T, b: T, c: T) {
    WellFormed(s) && Dense(s) && List(s) == [a, b, c] && |s.data| >= CHUNK
  }

  lemma ThreeAdded<T(!new)>(a: T, b: T, c: T)
    ensures HoldsThree(Added(Added(Added(Empty(), a), b), c), a, b, c)
  {
    var s := Added(Empty(), a);
    AddAppends(Empty(), a);
    AddAppends(s, b);
    AddAppends(Added(s, b), c);
  }

  lemma WithoutFirst<T>(a: T, b: T, c: T)
    requires a != b && a != c
    ensures Without([a, b, c], a) == [b, c]
  {
    assert Filter([a, b, c], 1, a) == [] && Filter([a, b, c], 2, a) == [b];
  }

  lemma CancelLast<T>(a: seq<T>, b: seq<T>, c: T)
    requires a + [c] == b + [c]
    ensures a == b
  {
    assert a == (a + [c])[..|a|] && b == (b + [c])[..|b|];
  }

  /** Once the first of them is removed, the slot the next add picks is that of the last. */
  lemma LastIsPicked<T(!new)>(s: State<T>, a: T, b: T, c: T)
    requires a != b && a != c && HoldsThree(s, a, b, c)
    ensures var r := Purged(s, a);
            && WellFormed(r) && List(r) == [b, c] && r.size == 2 && |r.data| >= CHUNK
            && r.data[3] == Some(c) && forall k :: 4 <= k < |r.data| ==> r.data[k] == None
  {
    RemoveKeepsWellFormed(s, a);
    WithoutFirst(a, b, c);
    DenseList(s, 2);
  }

  lemma LastIsOverwritten<T(!new)>(r: State<T>, b: T, c: T, d: T)
    requires WellFormed(r) && List(r) == [b, c] && r.size == 2 && |r.data| >= CHUNK
    requires r.data[3] == Some(c) && forall k :: 4 <= k < |r.data| ==> r.data[k] == None
    ensures List(Added(r, d)) == [b, d]
  {
    AddSplits(r, d);
    assert Grown(r) == r.data;
    NoLive(r.data, 4, |r.data|);
    assert List(r) == Live(r.data, 0, 3) + [c] + [] && [b, c] == [b] + [c];
    CancelLast(Live(r.data, 0, 3), [b], c);
  }

  /** A state that is reached in which a value is lost: three adds, the removal of the first, one more add. */
  lemma AddLosesValue<T(!new)>(s: State<T>, a: T, b: T, c: T, d: T)
    requires a != b && a != c && s == Added(Added(Added(Empty(), a), b), c)
    ensures WellFormed(s) && List(s) == [a, b, c]
    ensures List(Purged(s, a)) == [b, c] && List(Added(Purged(s, a), d)) == [b, d]
  {
    ThreeAdded(a, b, c);
    LastIsPicked(s, a, b, c);
    LastIsOverwritten(Purged(s, a), b, c, d);
  }
}
