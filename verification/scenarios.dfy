/** Small concrete tables that show the behaviour of tombstones, exact key
    comparison, the insert growth check and `enlarge` with repeated keys. */
module Scenarios {
  import opened Keys
  import opened Options
  import opened Tables
  import opened Probing
  import opened HashMap
  import opened Growth

  /** A one-character key hashes to its lower-case code. */
  lemma HashOfOneChar(k: Key)
    requires |k| == 1
    ensures HashOf(k) == LowerCode(k[0])
  {
    assert k[..0] == [];
  }

  /** "Foo" and "foo" share a home slot but are different keys: after
      inserting "Foo" into an empty table of two or more buckets, a search for
      "foo" finds nothing. */
  lemma CaseVariantIsAnotherKey<V>(n: int, v: V)
    requires n >= 2
    ensures Hash("Foo", n) == Hash("foo", n)
    ensures var t := Insert(Create<V>(n), "Foo", v);
            ProbeEnds(t, "foo") && Search(t, "foo").pair == None
  {
    assert SameIgnoringCase("Foo", "foo");
    HashIgnoresCase("Foo", "foo", n);
    var e := Create<V>(n);
    var h := Hash("foo", n);
    assert !Passes(e.slots, "Foo", h, 0);
    ProbeEndsAt(e.slots, "Foo", h, 0, 0);
    var t := Insert(e, "Foo", v);
    assert t.slots[h] == Live("Foo", v);
    assert t.slots[Pos(h, 1, n)] == Empty;
    assert ProbeEnds(t, "foo");
    assert Passes(t.slots, "foo", h, 0);
    ProbeEndsAt(t.slots, "foo", h, 0, 1);
  }

  /** Inserting "a" and then "c" into an empty two-bucket table: both keys
      start at bucket 1, so "c" moves on to bucket 0. */
  lemma ChainOfTwo<V>(va: V, vc: V)
    ensures var t1 := Insert(Create<V>(2), "a", va);
            ProbeEnds(t1, "c") &&
            Insert(t1, "c", vc) == Table([Live("c", vc), Live("a", va)], 2, 2, -1)
  {
    HashOfOneChar("a");
    HashOfOneChar("c");
    var e := Create<V>(2);
    assert e.slots == [Empty, Empty];
    assert Hash("a", 2) == 1 && Hash("c", 2) == 1;
    ProbeEndsAt(e.slots, "a", 1, 0, 0);
    var t1 := Insert(e, "a", va);
    assert t1.slots == [Empty, Live("a", va)];
    assert ProbeEnds(t1, "c");
    assert Passes(t1.slots, "c", 1, 0);
    ProbeEndsAt(t1.slots, "c", 1, 0, 1);
  }

  /** Erasing a key leaves a tombstone that stops the probe of a key placed
      after it on the same chain: "a" and "c" both start at bucket 1 of a
      two-bucket table, so "c" sits in bucket 0. After erasing "a", a search
      for "c" misses although "c" is still stored, and inserting "c" again
      stores a second live copy of it. */
  lemma TombstoneHidesChainedKey<V>(va: V, vc: V, vc2: V)
    ensures var t1 := Insert(Create<V>(2), "a", va);
            ProbeEnds(t1, "c") &&
            var t2 := Insert(t1, "c", vc);
            ProbeEnds(t2, "a") &&
            var t3 := Erase(t2, "a");
            && ProbeEnds(t3, "c")
            && Search(t3, "c").pair == None
            && Pair("c", vc) in Pairs(t3.slots)
            && var t4 := Insert(t3, "c", vc2);
               && t4.size == 2
               && t4.slots == [Live("c", vc), Live("c", vc2)]
               && !DistinctKeys(t4.slots)
  {
    ChainOfTwo(va, vc);
    HashOfOneChar("a");
    HashOfOneChar("c");
    assert Hash("a", 2) == 1 && Hash("c", 2) == 1;
    var t2 := Table([Live("c", vc), Live("a", va)], 2, 2, -1);
    assert ProbeEnds(t2, "a");
    ProbeEndsAt(t2.slots, "a", 1, 0, 0);
    var t3 := Erase(t2, "a");
    assert t3.slots == [Live("c", vc), Tomb];
    assert ProbeEnds(t3, "c");
    ProbeEndsAt(t3.slots, "c", 1, 0, 0);
    assert t3.slots[0] == Live("c", vc);
    var t4 := Insert(t3, "c", vc2);
    assert t4.slots == [Live("c", vc), Live("c", vc2)];
    assert t4.slots[0].key == t4.slots[1].key;
  }

  /** Inserting "a", "b", "c" and "d" into a table of capacity 4 fills it
      without growth: their homes are 1, 2, 3 and 0, and the growth branch of
      insert is not taken. */
  lemma FourKeysFillFourBuckets()
    ensures var t1 := Insert(Create<int>(4), "a", 1);
            ProbeEnds(t1, "b") &&
            var t2 := Insert(t1, "b", 2);
            ProbeEnds(t2, "c") &&
            var t3 := Insert(t2, "c", 3);
            ProbeEnds(t3, "d") &&
            Insert(t3, "d", 4) == FullFour()
  {
    HashOfOneChar("a");
    HashOfOneChar("b");
    HashOfOneChar("c");
    HashOfOneChar("d");
    assert Hash("a", 4) == 1 && Hash("b", 4) == 2 && Hash("c", 4) == 3 && Hash("d", 4) == 0;
    var e := Create<int>(4);
    assert e.slots == [Empty, Empty, Empty, Empty];
    InsertAtFreeHome(e, "a", 1);
    var t1 := Insert(e, "a", 1);
    assert t1.slots == [Empty, Live("a", 1), Empty, Empty];
    InsertAtFreeHome(t1, "b", 2);
    var t2 := Insert(t1, "b", 2);
    assert t2.slots == [Empty, Live("a", 1), Live("b", 2), Empty];
    InsertAtFreeHome(t2, "c", 3);
    var t3 := Insert(t2, "c", 3);
    assert t3.slots == [Empty, Live("a", 1), Live("b", 2), Live("c", 3)];
    InsertAtFreeHome(t3, "d", 4);
  }

  /** The table the example ends with: full, four pairs in four buckets. */
  function FullFour(): Table<int> {
    Table([Live("d", 4), Live("a", 1), Live("b", 2), Live("c", 3)], 4, 4, -1)
  }

  /** In the full table a search finds "b"; erasing "a" leaves three pairs and
      "a" is then not found; and the probe for a fifth key never ends, since
      every bucket is live with another key. */
  lemma FullFourBehaves()
    ensures Valid(FullFour())
    ensures ProbeEnds(FullFour(), "b") && Search(FullFour(), "b").pair == Some(Pair("b", 2))
    ensures ProbeEnds(FullFour(), "a") && Erase(FullFour(), "a").size == 3
    ensures ProbeEnds(FullFour(), "a") && ProbeEnds(Erase(FullFour(), "a"), "a")
            && Search(Erase(FullFour(), "a"), "a").pair == None
    ensures !ProbeEnds(FullFour(), "e")
  {
    var t := FullFour();
    AllLiveCountsFull(t.slots);
    HashOfOneChar("a");
    HashOfOneChar("b");
    assert Hash("a", 4) == 1 && Hash("b", 4) == 2;
    assert t.slots[2].key == "b" && t.slots[1].key == "a";
    ProbeEndsAt(t.slots, "b", 2, 0, 0);
    ProbeEndsAt(t.slots, "a", 1, 0, 0);
    var e := Erase(t, "a");
    assert e.slots[1] == Tomb;
    assert !Passes(e.slots, "a", 1, 0);
    ProbeEndsAt(e.slots, "a", 1, 0, 0);
  }

  /** Growth needs the keys to be distinct: enlarging the table with two live
      copies of "c" keeps only one of them, the value stored later. */
  lemma EnlargeMergesDuplicates<V>(vc: V, vc2: V)
    ensures var t := Table([Live("c", vc), Live("c", vc2)], 2, 2, -1);
            Valid(t) && Enlarge(t).size == 1 &&
            Enlarge(t).slots == [Empty, Empty, Empty, Live("c", vc2)]
  {
    HashOfOneChar("c");
    var t := Table([Live("c", vc), Live("c", vc2)], 2, 2, -1);
    assert Valid(t);
    var e := Create<V>(4).(current := -1);
    assert e.slots == [Empty, Empty, Empty, Empty];
    assert Hash("c", 4) == 3;
    assert t.slots[..0] == [] && t.slots[..1] == [Live("c", vc)];
    ProbeEndsAt(e.slots, "c", 3, 0, 0);
    RoomEndsProbe(e, "c");
    var r1 := Insert(e, "c", vc);
    assert r1.slots == [Empty, Empty, Empty, Live("c", vc)];
    ProbeEndsAt(r1.slots, "c", 3, 0, 0);
    RoomEndsProbe(r1, "c");
    var r2 := Insert(r1, "c", vc2);
    assert r2.slots == [Empty, Empty, Empty, Live("c", vc2)];
    assert Reinsert(e, t.slots, 0) == Reinsert(r1, t.slots, 1);
    assert Reinsert(r1, t.slots, 1) == r2;
  }
}
