/** `firstMap` and `nextMap`: a cursor over the live buckets in index order. */
module Cursor {
  import opened Options
  import opened Tables

  /** The lowest index at or after `i` whose slot is live, or -1 if none. */
  function ScanFrom<V>(slots: seq<Slot<V>>, i: nat): (r: int)
    requires i <= |slots|
    decreases |slots| - i
    ensures r == -1 || (i <= r < |slots| && slots[r].Live?)
    ensures forall j :: i <= j < |slots| && (r == -1 || j < r) ==> !slots[j].Live?
  {
    if i == |slots| then -1
    else if slots[i].Live? then i
    else ScanFrom(slots, i + 1)
  }

  /** The reply for a scan that stopped at `c`: the cursor moves to `c` and
      the pair there is returned, or the cursor becomes -1 and nothing is. */
  function Land<V>(t: Table<V>, c: int): Reply<V>
    requires c == -1 || (0 <= c < |t.slots| && t.slots[c].Live?)
  {
    if c == -1 then Reply(t.(current := -1), None)
    else Reply(t.(current := c), Some(Pair(t.slots[c].key, t.slots[c].value)))
  }

  /** `firstMap(map)`: on an empty map, nothing, and the cursor stays where
      it was; otherwise the pair of the lowest live bucket, with the cursor
      moved there (or -1 and nothing when no bucket is live). */
  function First<V>(t: Table<V>): (r: Reply<V>)
    requires Valid(t)
    ensures Valid(r.table) && r.table == t.(current := r.table.current)
    ensures t.size == 0 ==> r == Reply(t, None)
    ensures t.size != 0 && r.pair.Some? ==>
              && 0 <= r.table.current
              && t.slots[r.table.current] == Live(r.pair.value.key, r.pair.value.value)
              && forall j :: 0 <= j < r.table.current ==> !t.slots[j].Live?
    ensures t.size != 0 && r.pair.None? ==>
              && r.table.current == -1
              && forall j :: 0 <= j < |t.slots| ==> !t.slots[j].Live?
  {
    if t.size == 0 then Reply(t, None) else Land(t, ScanFrom(t.slots, 0))
  }

  /** `nextMap(map)`: on an empty map or with no cursor, nothing, and the
      cursor stays; otherwise the pair of the lowest live bucket after the
      cursor, with the cursor moved there, or -1 and nothing when the scan
      runs off the end. */
  function Next<V>(t: Table<V>): (r: Reply<V>)
    requires Valid(t)
    ensures Valid(r.table) && r.table == t.(current := r.table.current)
    ensures t.size == 0 || t.current == -1 ==> r == Reply(t, None)
    ensures t.size != 0 && t.current != -1 && r.pair.Some? ==>
              && t.current < r.table.current
              && t.slots[r.table.current] == Live(r.pair.value.key, r.pair.value.value)
              && forall j :: t.current < j < r.table.current ==> !t.slots[j].Live?
    ensures t.size != 0 && t.current != -1 && r.pair.None? ==>
              && r.table.current == -1
              && forall j :: t.current < j < |t.slots| ==> !t.slots[j].Live?
  {
    if t.size == 0 || t.current == -1 then Reply(t, None)
    else Land(t, ScanFrom(t.slots, t.current + 1))
  }

  /** The loop of `firstMap` as written: `current` walks up from 0 until a
      live bucket or the capacity. */
  method FirstMap<V>(t: Table<V>) returns (r: Reply<V>)
    requires Valid(t)
    ensures r == First(t)
  {
    if t.size == 0 {
      return Reply(t, None);
    }
    var current := 0;
    while current < t.capacity
      invariant 0 <= current <= t.capacity
      invariant ScanFrom(t.slots, current) == ScanFrom(t.slots, 0)
    {
      if t.slots[current].Live? {
        return Reply(t.(current := current), Some(Pair(t.slots[current].key, t.slots[current].value)));
      }
      current := current + 1;
    }
    return Reply(t.(current := -1), None);
  }

  /** The loop of `nextMap` as written: `current` walks up from the cursor
      plus one until a live bucket or the capacity. */
  method NextMap<V>(t: Table<V>) returns (r: Reply<V>)
    requires Valid(t)
    ensures r == Next(t)
  {
    if t.size == 0 || t.current == -1 {
      return Reply(t, None);
    }
    var current := t.current + 1;
    while current < t.capacity
      invariant t.current < current <= t.capacity
      invariant ScanFrom(t.slots, current) == ScanFrom(t.slots, t.current + 1)
    {
      if t.slots[current].Live? {
        return Reply(t.(current := current), Some(Pair(t.slots[current].key, t.slots[current].value)));
      }
      current := current + 1;
    }
    return Reply(t.(current := -1), None);
  }

  /** Reference definition: the live indices at or after `i`, in increasing
      order. */
  function LiveIndices<V>(s: seq<Slot<V>>, i: nat): seq<nat>
    requires i <= |s|
    decreases |s| - i
  {
    if i == |s| then []
    else (if s[i].Live? then [i] else []) + LiveIndices(s, i + 1)
  }

  /** `LiveIndices` lists every live index at or after `i`, and nothing else. */
  lemma {:induction false} LiveIndicesMembers<V>(s: seq<Slot<V>>, i: nat)
    requires i <= |s|
    decreases |s| - i
    ensures forall x :: x in LiveIndices(s, i) <==> i <= x < |s| && s[x].Live?
  {
    if i < |s| {
      LiveIndicesMembers(s, i + 1);
    }
  }

  /** `LiveIndices` is strictly increasing, so it lists each index once. */
  lemma {:induction false} LiveIndicesIncreasing<V>(s: seq<Slot<V>>, i: nat)
    requires i <= |s|
    decreases |s| - i
    ensures forall a, b :: 0 <= a < b < |LiveIndices(s, i)| ==> LiveIndices(s, i)[a] < LiveIndices(s, i)[b]
  {
    if i < |s| {
      LiveIndicesIncreasing(s, i + 1);
      LiveIndicesMembers(s, i + 1);
      var rest := LiveIndices(s, i + 1);
      assert forall b :: 0 <= b < |rest| ==> rest[b] in rest;
    }
  }

  /** `LiveIndices` has as many entries as there are live slots from `i` on. */
  lemma {:induction false} LiveIndicesCount<V>(s: seq<Slot<V>>, i: nat)
    requires i <= |s|
    decreases |s| - i
    ensures |LiveIndices(s, i)| == CountLive(s) - CountLive(s[..i])
  {
    if i == |s| {
      assert s[..i] == s;
    } else {
      LiveIndicesCount(s, i + 1);
      assert s[..i + 1][..i] == s[..i];
    }
  }

  /** The scan and the reference list agree: the list starts at the scan's
      stop, and is empty when the scan finds nothing. */
  lemma {:induction false} ScanHeadsLiveIndices<V>(s: seq<Slot<V>>, i: nat)
    requires i <= |s|
    decreases |s| - i
    ensures ScanFrom(s, i) == -1 ==> LiveIndices(s, i) == []
    ensures ScanFrom(s, i) != -1 ==>
              LiveIndices(s, i) == [ScanFrom(s, i)] + LiveIndices(s, ScanFrom(s, i) + 1)
  {
    if i == |s| {
    } else if s[i].Live? {
      assert ScanFrom(s, i) == i;
      assert LiveIndices(s, i) == [i] + LiveIndices(s, i + 1);
    } else {
      assert ScanFrom(s, i) == ScanFrom(s, i + 1);
      assert LiveIndices(s, i) == LiveIndices(s, i + 1);
      ScanHeadsLiveIndices(s, i + 1);
    }
  }

  /** The indices visited by calling `nextMap` until it returns nothing. */
  function Drain<V>(t: Table<V>): seq<nat>
    requires Valid(t)
    decreases t.capacity - t.current
  {
    var a := Next(t);
    if a.pair.None? then [] else [a.table.current] + Drain(a.table)
  }

  /** The indices visited by `firstMap` followed by `nextMap` until it returns
      nothing. */
  function Traverse<V>(t: Table<V>): seq<nat>
    requires Valid(t)
  {
    var a := First(t);
    if a.pair.None? then [] else [a.table.current] + Drain(a.table)
  }

  /** From a valid cursor, `nextMap` visits exactly the live buckets after it,
      in index order. */
  lemma {:induction false} DrainVisitsRest<V>(t: Table<V>)
    requires Valid(t) && t.current != -1
    decreases t.capacity - t.current
    ensures Drain(t) == LiveIndices(t.slots, t.current + 1)
  {
    if t.size == 0 {
      ZeroCountNoLive(t.slots);
      ScanHeadsLiveIndices(t.slots, t.current + 1);
    } else {
      var a := Next(t);
      ScanHeadsLiveIndices(t.slots, t.current + 1);
      if a.pair.Some? {
        DrainVisitsRest(a.table);
      }
    }
  }

  /** `firstMap` followed by `nextMap` until it returns nothing visits every
      live bucket exactly once, in index order: as many buckets as `size`. */
  lemma TraverseVisitsAllLive<V>(t: Table<V>)
    requires Valid(t)
    ensures Traverse(t) == LiveIndices(t.slots, 0)
    ensures |Traverse(t)| == t.size
    ensures forall x :: x in Traverse(t) <==> 0 <= x < |t.slots| && t.slots[x].Live?
    ensures forall a, b :: 0 <= a < b < |Traverse(t)| ==> Traverse(t)[a] < Traverse(t)[b]
  {
    LiveIndicesMembers(t.slots, 0);
    LiveIndicesIncreasing(t.slots, 0);
    LiveIndicesCount(t.slots, 0);
    assert t.slots[..0] == [];
    if t.size == 0 {
      ZeroCountNoLive(t.slots);
    } else {
      var a := First(t);
      ScanHeadsLiveIndices(t.slots, 0);
      if a.pair.Some? {
        DrainVisitsRest(a.table);
      }
    }
  }

  /** `firstMap` on a non-empty valid map always returns a pair. */
  lemma FirstFindsPair<V>(t: Table<V>)
    requires Valid(t) && t.size > 0
    ensures First(t).pair.Some?
  {
    if First(t).pair.None? {
      NoLiveCountsZero(t.slots);
    }
  }
}
