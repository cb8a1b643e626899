/** `enlarge`: double the capacity and re-insert the live pairs. */
module Growth {
  import opened Keys
  import opened Options
  import opened Tables
  import opened Probing
  import opened HashMap

  /** The loop of `enlarge` from old bucket `i` on: each live old pair is
      handed to `insertMap` on the new table, in increasing bucket order;
      empty and tombstoned buckets are skipped. The new table always has room
      because it has more buckets than the old one. */
  function Reinsert<V>(acc: Table<V>, src: seq<Slot<V>>, i: nat): (r: Table<V>)
    requires Valid(acc) && i <= |src| < acc.capacity
    requires acc.size <= CountLive(src[..i])
    decreases |src| - i
    ensures Valid(r)
    ensures r.capacity == acc.capacity && r.current == acc.current
    ensures r.size <= CountLive(src)
  {
    if i == |src| then
      assert src[..i] == src;
      acc
    else
      assert src[..i + 1][..i] == src[..i];
      match src[i]
      case Live(k, v) =>
        RoomEndsProbe(acc, k);
        Reinsert(Insert(acc, k, v), src, i + 1)
      case _ =>
        Reinsert(acc, src, i + 1)
  }

  /** `enlarge(map)`: the capacity doubles, the buckets start all empty with
      `size` 0, the old live pairs are re-inserted, and the cursor is left as
      it was. */
  function Enlarge<V>(t: Table<V>): (r: Table<V>)
    requires Valid(t)
    ensures Valid(r)
    ensures r.capacity == 2 * t.capacity && r.current == t.current
    ensures r.size <= t.size
  {
    var blank := Create<V>(2 * t.capacity).(current := t.current);
    Reinsert(blank, t.slots, 0)
  }

  /** Re-insertion writes only live slots, so it creates no tombstone. */
  lemma {:induction false} ReinsertNoTombs<V>(acc: Table<V>, src: seq<Slot<V>>, i: nat)
    requires Valid(acc) && i <= |src| < acc.capacity
    requires acc.size <= CountLive(src[..i])
    requires NoTombs(acc.slots)
    decreases |src| - i
    ensures NoTombs(Reinsert(acc, src, i).slots)
  {
    if i < |src| {
      assert src[..i + 1][..i] == src[..i];
      match src[i]
      case Live(k, v) =>
        RoomEndsProbe(acc, k);
        var next := Insert(acc, k, v);
        assert NoTombs(next.slots) by {
          assert next.slots == acc.slots[Probe(acc, k).pos := next.slots[Probe(acc, k).pos]];
        }
        ReinsertNoTombs(next, src, i + 1);
      case _ =>
        ReinsertNoTombs(acc, src, i + 1);
    }
  }

  /** Re-insertion keeps every pair reachable. */
  lemma {:induction false} ReinsertReachable<V>(acc: Table<V>, src: seq<Slot<V>>, i: nat)
    requires Valid(acc) && i <= |src| < acc.capacity
    requires acc.size <= CountLive(src[..i])
    requires AllReachable(acc)
    decreases |src| - i
    ensures AllReachable(Reinsert(acc, src, i))
  {
    if i < |src| {
      assert src[..i + 1][..i] == src[..i];
      match src[i]
      case Live(k, v) =>
        RoomEndsProbe(acc, k);
        InsertKeepsReachable(acc, k, v);
        ReinsertReachable(Insert(acc, k, v), src, i + 1);
      case _ =>
        ReinsertReachable(acc, src, i + 1);
    }
  }

  /** Re-insertion only stores pairs taken from the old buckets. */
  lemma {:induction false} ReinsertPairsFromOld<V>(acc: Table<V>, src: seq<Slot<V>>, i: nat)
    requires Valid(acc) && i <= |src| < acc.capacity
    requires acc.size <= CountLive(src[..i])
    requires Pairs(acc.slots) <= Pairs(src)
    decreases |src| - i
    ensures Pairs(Reinsert(acc, src, i).slots) <= Pairs(src)
  {
    if i < |src| {
      assert src[..i + 1][..i] == src[..i];
      match src[i]
      case Live(k, v) =>
        RoomEndsProbe(acc, k);
        InsertPairs(acc, k, v);
        assert Pair(k, v) in Pairs(src);
        ReinsertPairsFromOld(Insert(acc, k, v), src, i + 1);
      case _ =>
        ReinsertPairsFromOld(acc, src, i + 1);
    }
  }

  /** With pairwise distinct old keys, every re-insertion adds a new pair:
      after bucket `i` the table holds exactly the live pairs of
      `src[..i]`, one per live bucket. */
  lemma {:induction false} ReinsertPairsExact<V>(acc: Table<V>, src: seq<Slot<V>>, i: nat)
    requires Valid(acc) && i <= |src| < acc.capacity
    requires DistinctKeys(src)
    requires acc.size == CountLive(src[..i])
    requires Pairs(acc.slots) == Pairs(src[..i])
    decreases |src| - i
    ensures Pairs(Reinsert(acc, src, i).slots) == Pairs(src)
    ensures Reinsert(acc, src, i).size == CountLive(src)
  {
    if i == |src| {
      assert src[..i] == src;
    } else {
      assert src[..i + 1][..i] == src[..i];
      PairsExtend(src, i);
      match src[i]
      case Live(k, v) =>
        RoomEndsProbe(acc, k);
        forall j | 0 <= j < |acc.slots| && acc.slots[j].Live?
          ensures acc.slots[j].key != k
        {
          assert Pair(acc.slots[j].key, acc.slots[j].value) in Pairs(acc.slots);
          var m :| 0 <= m < i && src[..i][m].Live? &&
                   Pair(acc.slots[j].key, acc.slots[j].value) == Pair(src[..i][m].key, src[..i][m].value);
          assert src[m] == src[..i][m];
        }
        AbsentKeyStops(acc, k);
        InsertPairs(acc, k, v);
        ReinsertPairsExact(Insert(acc, k, v), src, i + 1);
      case _ =>
        ReinsertPairsExact(acc, src, i + 1);
    }
  }

  /** The enlarged table holds no tombstones, every pair in it is reachable,
      and every pair in it was a pair of the old table. */
  lemma EnlargeShape<V>(t: Table<V>)
    requires Valid(t)
    ensures NoTombs(Enlarge(t).slots)
    ensures AllReachable(Enlarge(t))
    ensures Pairs(Enlarge(t).slots) <= Pairs(t.slots)
  {
    var blank := Create<V>(2 * t.capacity).(current := t.current);
    assert t.slots[..0] == [];
    ReinsertNoTombs(blank, t.slots, 0);
    ReinsertReachable(blank, t.slots, 0);
    ReinsertPairsFromOld(blank, t.slots, 0);
  }

  /** When the old live keys are pairwise distinct, enlarging keeps the set of
      (key, value) pairs and the size. */
  lemma EnlargeKeepsPairs<V>(t: Table<V>)
    requires Valid(t) && DistinctKeys(t.slots)
    ensures Pairs(Enlarge(t).slots) == Pairs(t.slots)
    ensures Enlarge(t).size == t.size
  {
    var blank := Create<V>(2 * t.capacity).(current := t.current);
    assert t.slots[..0] == [];
    assert Pairs(t.slots[..0]) == {};
    ReinsertPairsExact(blank, t.slots, 0);
  }

  /** When the old live keys are pairwise distinct, every old pair is found
      by a search of the enlarged table. */
  lemma EnlargeKeepsLookups<V>(t: Table<V>, key: Key, value: V)
    requires Valid(t) && DistinctKeys(t.slots)
    requires Pair(key, value) in Pairs(t.slots)
    ensures ProbeEnds(Enlarge(t), key)
    ensures Search(Enlarge(t), key).pair == Some(Pair(key, value))
  {
    var r := Enlarge(t);
    EnlargeKeepsPairs(t);
    EnlargeShape(t);
    var i :| 0 <= i < |r.slots| && r.slots[i].Live? && Pair(key, value) == Pair(r.slots[i].key, r.slots[i].value);
    assert ProbeEnds(r, key);
    SearchMatchesPairs(r, key, value);
  }
}
