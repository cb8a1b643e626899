/** An optional value: the model's stand-in for a pointer that may be NULL. */
module Options {
  datatype Option<+T> = None | Some(value: T)
}

/** The slot array, the table record and the counting facts about them. */
module Tables {
  import opened Keys
  import opened Options

  /** One bucket of the array. `Empty` is a never-written bucket (a NULL
      `Pair*`); `Tomb` is what an erase leaves (the Pair is still there but its
      key is NULL); `Live` holds a key and its value. */
  datatype Slot<V> = Empty | Tomb | Live(key: Key, value: V)

  /** The `HashMap` record: the buckets, their number, the count of stored
      pairs and the cursor (index of the last accessed bucket, -1 when none). */
  datatype Table<V> = Table(slots: seq<Slot<V>>, capacity: int, size: int, current: int)

  /** What a returned `Pair*` lets the caller see. */
  datatype Pair<V> = Pair(key: Key, value: V)

  /** An operation that may move the cursor returns the new table and the
      pair it found, if any. */
  datatype Reply<V> = Reply(table: Table<V>, pair: Option<Pair<V>>)

  /** 1 for a live slot, 0 otherwise. */
  function Weight<V>(x: Slot<V>): nat {
    if x.Live? then 1 else 0
  }

  /** The number of live slots in `s`. */
  function CountLive<V>(s: seq<Slot<V>>): (n: nat)
    ensures n <= |s|
  {
    if |s| == 0 then 0 else CountLive(s[..|s| - 1]) + Weight(s[|s| - 1])
  }

  /** The table invariant: the capacity is positive and is the number of
      slots, `size` counts exactly the live slots, and the cursor is -1 or an
      index of the array. */
  predicate Valid<V>(t: Table<V>) {
    && t.capacity > 0
    && |t.slots| == t.capacity
    && t.size == CountLive(t.slots)
    && -1 <= t.current < t.capacity
  }

  /** The set of (key, value) pairs held in live slots. */
  ghost function Pairs<V>(s: seq<Slot<V>>): set<Pair<V>> {
    set i | 0 <= i < |s| && s[i].Live? :: Pair(s[i].key, s[i].value)
  }

  /** No key is held by two live slots. */
  predicate DistinctKeys<V>(s: seq<Slot<V>>) {
    forall i, j :: 0 <= i < j < |s| && s[i].Live? && s[j].Live? ==> s[i].key != s[j].key
  }

  /** No slot is a tombstone. */
  predicate NoTombs<V>(s: seq<Slot<V>>) {
    forall j :: 0 <= j < |s| ==> s[j] != Tomb
  }

  /** `createMap(capacity)`: a table whose buckets are all empty, with no pairs
      and no cursor. The C array comes from `malloc` and is not cleared; the
      model takes a fresh array to be all `Empty`. */
  function Create<V>(capacity: int): (t: Table<V>)
    requires capacity > 0
    ensures Valid(t)
    ensures t.capacity == capacity && t.size == 0 && t.current == -1
    ensures forall i :: 0 <= i < |t.slots| ==> t.slots[i] == Empty
    ensures Pairs(t.slots) == {}
  {
    var slots := seq(capacity, _ => Empty);
    NoLiveCountsZero(slots);
    Table(slots, capacity, 0, -1)
  }

  /** A sequence without live slots counts zero. */
  lemma {:induction false} NoLiveCountsZero<V>(s: seq<Slot<V>>)
    requires forall i :: 0 <= i < |s| ==> !s[i].Live?
    ensures CountLive(s) == 0
  {
    if |s| > 0 {
      NoLiveCountsZero(s[..|s| - 1]);
    }
  }

  /** Conversely, a zero count means that no slot is live. */
  lemma {:induction false} ZeroCountNoLive<V>(s: seq<Slot<V>>)
    requires CountLive(s) == 0
    ensures forall i :: 0 <= i < |s| ==> !s[i].Live?
  {
    if |s| > 0 {
      ZeroCountNoLive(s[..|s| - 1]);
      assert forall i :: 0 <= i < |s| - 1 ==> s[i] == s[..|s| - 1][i];
    }
  }

  /** A sequence with a non-live slot counts fewer live slots than its length. */
  lemma {:induction false} VacancyCountsLess<V>(s: seq<Slot<V>>, p: int)
    requires 0 <= p < |s| && !s[p].Live?
    ensures CountLive(s) < |s|
  {
    if p < |s| - 1 {
      VacancyCountsLess(s[..|s| - 1], p);
    }
  }

  /** A sequence whose slots are all live counts its length. */
  lemma {:induction false} AllLiveCountsFull<V>(s: seq<Slot<V>>)
    requires forall i :: 0 <= i < |s| ==> s[i].Live?
    ensures CountLive(s) == |s|
  {
    if |s| > 0 {
      AllLiveCountsFull(s[..|s| - 1]);
    }
  }

  /** A sequence counting fewer live slots than its length has a non-live slot. */
  lemma {:induction false} CountLessHasVacancy<V>(s: seq<Slot<V>>) returns (p: nat)
    requires CountLive(s) < |s|
    ensures p < |s| && !s[p].Live?
  {
    if s[|s| - 1].Live? {
      p := CountLessHasVacancy(s[..|s| - 1]);
    } else {
      p := |s| - 1;
    }
  }

  /** Replacing one slot changes the count by the difference of the weights. */
  lemma {:induction false} CountLiveUpdate<V>(s: seq<Slot<V>>, p: int, x: Slot<V>)
    requires 0 <= p < |s|
    ensures CountLive(s[p := x]) == CountLive(s) - Weight(s[p]) + Weight(x)
  {
    var s' := s[p := x];
    if p < |s| - 1 {
      assert s'[..|s'| - 1] == s[..|s| - 1][p := x];
      CountLiveUpdate(s[..|s| - 1], p, x);
    } else {
      assert s'[..|s'| - 1] == s[..|s| - 1];
    }
  }

  /** Replacing a non-live slot by a live one adds exactly that pair. */
  lemma PairsFill<V>(s: seq<Slot<V>>, p: int, k: Key, v: V)
    requires 0 <= p < |s| && !s[p].Live?
    ensures Pairs(s[p := Live(k, v)]) == Pairs(s) + {Pair(k, v)}
  {
    var s' := s[p := Live(k, v)];
    forall q | q in Pairs(s) ensures q in Pairs(s') {
      var i :| 0 <= i < |s| && s[i].Live? && q == Pair(s[i].key, s[i].value);
      assert s'[i] == s[i];
    }
    assert s'[p] == Live(k, v);
  }

  /** Replacing any slot by a live one yields only pairs already there and
      the new one. */
  lemma PairsOverwrite<V>(s: seq<Slot<V>>, p: int, k: Key, v: V)
    requires 0 <= p < |s|
    ensures Pairs(s[p := Live(k, v)]) <= Pairs(s) + {Pair(k, v)}
  {
    var s' := s[p := Live(k, v)];
    forall q | q in Pairs(s') ensures q in Pairs(s) + {Pair(k, v)} {
      var i :| 0 <= i < |s'| && s'[i].Live? && q == Pair(s'[i].key, s'[i].value);
      if i != p {
        assert s[i] == s'[i];
      }
    }
  }

  /** The pairs of a prefix grow by the pair of the next slot, if it is live. */
  lemma PairsExtend<V>(s: seq<Slot<V>>, i: int)
    requires 0 <= i < |s|
    ensures Pairs(s[..i + 1]) ==
            Pairs(s[..i]) + (if s[i].Live? then {Pair(s[i].key, s[i].value)} else {})
  {
    var a, b := s[..i], s[..i + 1];
    forall q | q in Pairs(a) ensures q in Pairs(b) {
      var j :| 0 <= j < |a| && a[j].Live? && q == Pair(a[j].key, a[j].value);
      assert b[j] == a[j];
    }
    forall q | q in Pairs(b) ensures q in Pairs(a) || (s[i].Live? && q == Pair(s[i].key, s[i].value)) {
      var j :| 0 <= j < |b| && b[j].Live? && q == Pair(b[j].key, b[j].value);
      if j < i {
        assert a[j] == b[j];
      }
    }
    if s[i].Live? {
      assert b[i] == s[i];
    }
  }
}
