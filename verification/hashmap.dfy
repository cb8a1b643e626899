/** `insertMap`, `eraseMap` and `searchMap`, and what they promise together. */
module HashMap {
  import opened Keys
  import opened Options
  import opened Tables
  import opened Probing

  /** `searchMap(map, key)`: the pair whose key equals `key` exactly, found on
      the probe path; a hit moves the cursor to its bucket, a miss changes
      nothing. */
  function Search<V>(t: Table<V>, key: Key): (r: Reply<V>)
    requires Valid(t) && ProbeEnds(t, key)
    ensures Valid(r.table)
    ensures r.pair.Some? <==> Probe(t, key).Hit?
    ensures r.pair.Some? ==>
              && r.pair.value.key == key
              && 0 <= r.table.current < |t.slots|
              && t.slots[r.table.current] == Live(key, r.pair.value.value)
              && r.table == t.(current := r.table.current)
    ensures r.pair.Some? ==> r.pair.value in Pairs(t.slots)
    ensures r.pair.Some? ==> !Probe(t, key).Loops? && r.table.current == Probe(t, key).pos
    ensures r.pair.None? ==> r.table == t
  {
    ProbeEndsIff(t, key);
    var o := Probe(t, key);
    if o.Hit? then
      Reply(t.(current := o.pos), Some(Pair(key, t.slots[o.pos].value)))
    else
      Reply(t, None)
  }

  /** `insertMap(map, key, value)`: the probe either meets `key` and only its
      value is replaced, or stops at an empty or tombstoned bucket where the
      new pair is written and `size` grows by one. Capacity and cursor stay. */
  function Insert<V>(t: Table<V>, key: Key, value: V): (r: Table<V>)
    requires Valid(t) && ProbeEnds(t, key)
    ensures Valid(r)
    ensures r.capacity == t.capacity && r.current == t.current
    ensures !Probe(t, key).Loops?
    ensures Probe(t, key).Hit? ==>
              && r.size == t.size
              && r.slots == t.slots[Probe(t, key).pos := Live(t.slots[Probe(t, key).pos].key, value)]
    ensures Probe(t, key).Stop? ==>
              && r.size == t.size + 1
              && r.slots == t.slots[Probe(t, key).pos := Live(key, value)]
  {
    ProbeEndsIff(t, key);
    var o := Probe(t, key);
    CountLiveUpdate(t.slots, o.pos, Live(key, value));
    if o.Hit? then
      t.(slots := t.slots[o.pos := Live(key, value)])
    else
      t.(slots := t.slots[o.pos := Live(key, value)], size := t.size + 1)
  }

  /** `eraseMap(map, key)`: the probe either meets `key` and that bucket
      becomes a tombstone with `size` one less, or it misses and nothing
      changes. */
  function Erase<V>(t: Table<V>, key: Key): (r: Table<V>)
    requires Valid(t) && ProbeEnds(t, key)
    ensures Valid(r)
    ensures r.capacity == t.capacity && r.current == t.current
    ensures Probe(t, key).Hit? ==>
              && r.size == t.size - 1
              && r.slots == t.slots[Probe(t, key).pos := Tomb]
    ensures !Probe(t, key).Hit? ==> r == t
  {
    ProbeEndsIff(t, key);
    var o := Probe(t, key);
    if o.Hit? then
      CountLiveUpdate(t.slots, o.pos, Tomb);
      t.(slots := t.slots[o.pos := Tomb], size := t.size - 1)
    else
      t
  }

  /** The growth branch of `insertMap` (`size == capacity` just before the new
      pair is written) is never taken: the probe stopped at a bucket that is
      not live, so the table is not full. */
  lemma InsertNeverGrows<V>(t: Table<V>, key: Key)
    requires Valid(t) && ProbeEnds(t, key)
    ensures !Probe(t, key).Hit? ==> t.size < t.capacity
  {
    ProbeEndsIff(t, key);
    var o := Probe(t, key);
    if o.Stop? {
      VacancyCountsLess(t.slots, o.pos);
    }
  }

  /** Insert then search: the key is found with the value just written, and
      the cursor moves to its bucket. */
  lemma InsertThenSearch<V>(t: Table<V>, key: Key, value: V)
    requires Valid(t) && ProbeEnds(t, key)
    ensures ProbeEnds(Insert(t, key, value), key)
    ensures Search(Insert(t, key, value), key).pair == Some(Pair(key, value))
    ensures Search(Insert(t, key, value), key).table.current == Probe(t, key).pos
  {
    ProbeEndsIff(t, key);
    var o := Probe(t, key);
    var r := Insert(t, key, value);
    var n, home := |t.slots|, Hash(key, t.capacity);
    assert r.slots[o.pos] == Live(key, value);
    assert ProbeEnds(r, key);
    forall s | 0 <= s < o.steps
      ensures Passes(r.slots, key, home, s)
    {
      assert Passes(t.slots, key, home, s);
    }
    ProbeEndsAt(r.slots, key, home, 0, o.steps);
  }

  /** Erase then search: the key is no longer found, whether or not the erase
      met it. */
  lemma EraseThenSearch<V>(t: Table<V>, key: Key)
    requires Valid(t) && ProbeEnds(t, key)
    ensures ProbeEnds(Erase(t, key), key)
    ensures Search(Erase(t, key), key).pair == None
  {
    ProbeEndsIff(t, key);
    var o := Probe(t, key);
    var r := Erase(t, key);
    if o.Hit? {
      var n, home := |t.slots|, Hash(key, t.capacity);
      assert r.slots[o.pos] == Tomb;
      assert ProbeEnds(r, key);
      forall s | 0 <= s < o.steps
        ensures Passes(r.slots, key, home, s)
      {
        assert Passes(t.slots, key, home, s);
      }
      ProbeEndsAt(r.slots, key, home, 0, o.steps);
    }
  }

  /** Inserting one key never loses another: a key found before the insert is
      found afterwards with the same value. */
  lemma InsertKeepsFound<V>(t: Table<V>, key: Key, value: V, other: Key)
    requires Valid(t) && ProbeEnds(t, key) && ProbeEnds(t, other)
    requires other != key
    requires Probe(t, other).Hit?
    ensures ProbeEnds(Insert(t, key, value), other)
    ensures Search(Insert(t, key, value), other).pair == Search(t, other).pair
  {
    ProbeEndsIff(t, key);
    ProbeEndsIff(t, other);
    var o, q := Probe(t, key), Probe(t, other);
    var r := Insert(t, key, value);
    var n, home := |t.slots|, Hash(other, t.capacity);
    assert r.slots[q.pos] == t.slots[q.pos];
    assert ProbeEnds(r, other);
    forall s | 0 <= s < q.steps
      ensures Passes(r.slots, other, home, s)
    {
      assert Passes(t.slots, other, home, s);
    }
    ProbeEndsAt(r.slots, other, home, 0, q.steps);
  }

  /** Erasing one key never brings another to light: a key not found before
      the erase is not found afterwards either. */
  lemma EraseNeverReveals<V>(t: Table<V>, key: Key, other: Key)
    requires Valid(t) && ProbeEnds(t, key) && ProbeEnds(t, other)
    requires Search(t, other).pair.None?
    ensures ProbeEnds(Erase(t, key), other)
    ensures Search(Erase(t, key), other).pair.None?
  {
    ProbeEndsIff(t, key);
    ProbeEndsIff(t, other);
    var o, q := Probe(t, key), Probe(t, other);
    var r := Erase(t, key);
    if o.Hit? {
      var n, home := |t.slots|, Hash(other, t.capacity);
      assert r.slots[o.pos] == Tomb;
      assert ProbeEnds(r, other);
      forall s | 0 <= s <= q.steps
        ensures !(r.slots[Pos(home, s, n)].Live? && r.slots[Pos(home, s, n)].key == other)
      {
        if s < q.steps {
          assert Passes(t.slots, other, home, s);
        }
      }
      MissUpTo(r.slots, other, home, 0, q.steps);
    }
  }

  /** If no step up to `d` meets a live `key` and the slot of step `d` is not
      live, the probe ends on a miss. */
  lemma {:induction false} MissUpTo<V>(slots: seq<Slot<V>>, key: Key, home: nat, i: nat, d: nat)
    requires home < |slots| && i <= d < |slots|
    requires forall s :: i <= s <= d ==>
               !(slots[Pos(home, s, |slots|)].Live? && slots[Pos(home, s, |slots|)].key == key)
    requires !slots[Pos(home, d, |slots|)].Live?
    decreases d - i
    ensures ProbeFrom(slots, key, home, i).Stop?
  {
    if i < d && slots[Pos(home, i, |slots|)].Live? {
      MissUpTo(slots, key, home, i + 1, d);
    }
  }

  /** Every live pair can be found: the probe for each live key ends on that
      key's own bucket. Erase does not keep this; insert does. */
  ghost predicate AllReachable<V>(t: Table<V>)
    requires Valid(t)
  {
    forall j :: 0 <= j < |t.slots| && t.slots[j].Live? ==>
      Probe(t, t.slots[j].key).Hit? && Probe(t, t.slots[j].key).pos == j
  }

  /** A table whose pairs are all reachable holds each key at most once. */
  lemma ReachableKeysDistinct<V>(t: Table<V>)
    requires Valid(t) && AllReachable(t)
    ensures DistinctKeys(t.slots)
  {
    forall i, j | 0 <= i < j < |t.slots| && t.slots[i].Live? && t.slots[j].Live?
      ensures t.slots[i].key != t.slots[j].key
    {
      assert Probe(t, t.slots[i].key).pos == i;
      assert Probe(t, t.slots[j].key).pos == j;
    }
  }

  /** A fresh table is trivially reachable. */
  lemma CreateReachable<V>(capacity: int)
    requires capacity > 0
    ensures AllReachable(Create<V>(capacity))
  {
  }

  /** Insert keeps every pair reachable. */
  lemma InsertKeepsReachable<V>(t: Table<V>, key: Key, value: V)
    requires Valid(t) && ProbeEnds(t, key) && AllReachable(t)
    ensures AllReachable(Insert(t, key, value))
  {
    ProbeEndsIff(t, key);
    var o := Probe(t, key);
    var r := Insert(t, key, value);
    var n := |t.slots|;
    forall j | 0 <= j < n && r.slots[j].Live?
      ensures Probe(r, r.slots[j].key).Hit? && Probe(r, r.slots[j].key).pos == j
    {
      var k := r.slots[j].key;
      var home := Hash(k, n);
      if j == o.pos {
        forall s | 0 <= s < o.steps
          ensures Passes(r.slots, key, home, s)
        {
          assert Passes(t.slots, key, home, s);
        }
        ProbeEndsAt(r.slots, key, home, 0, o.steps);
      } else {
        assert t.slots[j] == r.slots[j];
        var q := Probe(t, k);
        forall s | 0 <= s < q.steps
          ensures Passes(r.slots, k, home, s)
        {
          assert Passes(t.slots, k, home, s);
        }
        ProbeEndsAt(r.slots, k, home, 0, q.steps);
      }
    }
  }

  /** In a reachable table, search agrees with the table's contents: it
      returns a pair exactly when that pair is stored. */
  lemma SearchMatchesPairs<V>(t: Table<V>, key: Key, value: V)
    requires Valid(t) && AllReachable(t) && ProbeEnds(t, key)
    ensures Search(t, key).pair == Some(Pair(key, value)) <==> Pair(key, value) in Pairs(t.slots)
  {
    if Pair(key, value) in Pairs(t.slots) {
      var i :| 0 <= i < |t.slots| && t.slots[i].Live? && Pair(key, value) == Pair(t.slots[i].key, t.slots[i].value);
      assert Probe(t, t.slots[i].key).pos == i;
    }
  }

  /** Insert changes the contents by the new pair only: a key met on the
      probe loses its old pair, a key not met adds one. */
  lemma InsertPairs<V>(t: Table<V>, key: Key, value: V)
    requires Valid(t) && ProbeEnds(t, key)
    ensures Pair(key, value) in Pairs(Insert(t, key, value).slots)
    ensures Pairs(Insert(t, key, value).slots) <= Pairs(t.slots) + {Pair(key, value)}
    ensures Probe(t, key).Stop? ==> Pairs(Insert(t, key, value).slots) == Pairs(t.slots) + {Pair(key, value)}
  {
    ProbeEndsIff(t, key);
    var o := Probe(t, key);
    var r := Insert(t, key, value);
    assert r.slots == t.slots[o.pos := Live(key, value)];
    assert r.slots[o.pos] == Live(key, value);
    PairsOverwrite(t.slots, o.pos, key, value);
    if o.Stop? {
      PairsFill(t.slots, o.pos, key, value);
    }
  }

  /** A key whose home bucket is not live is written into that bucket. */
  lemma InsertAtFreeHome<V>(t: Table<V>, key: Key, value: V)
    requires Valid(t) && !t.slots[Hash(key, t.capacity)].Live?
    ensures ProbeEnds(t, key)
    ensures Insert(t, key, value).slots == t.slots[Hash(key, t.capacity) := Live(key, value)]
    ensures Insert(t, key, value).size == t.size + 1
  {
    var home := Hash(key, t.capacity);
    assert !Passes(t.slots, key, home, 0);
    ProbeEndsAt(t.slots, key, home, 0, 0);
  }

  /** A key held by no live slot is not met by its probe. */
  lemma AbsentKeyStops<V>(t: Table<V>, key: Key)
    requires Valid(t) && ProbeEnds(t, key)
    requires forall i :: 0 <= i < |t.slots| && t.slots[i].Live? ==> t.slots[i].key != key
    ensures Probe(t, key).Stop?
  {
    ProbeEndsIff(t, key);
  }
}
