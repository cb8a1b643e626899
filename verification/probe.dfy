/** The linear probe shared by insert, search and erase. */
module Probing {
  import opened Keys
  import opened Tables

  /** Where a probe ends. `Hit` is a live slot holding exactly the key, `Stop`
      is an empty or tombstoned slot; `steps` counts the slots passed over
      before it. `Loops` means every slot is live with another key: the C loop
      then never ends. */
  datatype Outcome = Hit(pos: nat, steps: nat) | Stop(pos: nat, steps: nat) | Loops

  /** The bucket reached after `s` steps of `pos = (pos + 1) % capacity` from
      `home` in an array of `n` buckets. */
  function Pos(home: nat, s: nat, n: nat): (p: nat)
    requires home < n && s < n
    ensures p < n
    ensures p == if home + s < n then home + s else home + s - n
  {
    WrapOnce(home + s, n);
    (home + s) % n
  }

  /** Reducing a number below 2n modulo n subtracts n at most once. */
  lemma WrapOnce(a: nat, n: nat)
    requires 0 < n && a < 2 * n
    ensures a % n == if a < n then a else a - n
  {
    var q := a / n;
    assert a == q * n + a % n;
    if q == 1 {
      assert a % n == a - n;
    }
  }

  /** One turn of the C loop moves from step `s` to step `s + 1`. */
  lemma PosStep(home: nat, s: nat, n: nat)
    requires home < n && s + 1 < n
    ensures (Pos(home, s, n) + 1) % n == Pos(home, s + 1, n)
  {
    WrapOnce(Pos(home, s, n) + 1, n);
  }

  /** The probe for `key` goes on past step `s`: that slot is live and its key
      differs (exactly, as `strcmp` compares) from `key`. */
  predicate Passes<V>(slots: seq<Slot<V>>, key: Key, home: nat, s: nat)
    requires home < |slots| && s < |slots|
  {
    var p := Pos(home, s, |slots|);
    slots[p].Live? && slots[p].key != key
  }

  /** The probe from `home`, resumed at step `i`: it ends at the first step
      whose slot is not live (a NULL bucket or a NULL key) or holds `key`. */
  function ProbeFrom<V>(slots: seq<Slot<V>>, key: Key, home: nat, i: nat): (r: Outcome)
    requires home < |slots| && i <= |slots|
    decreases |slots| - i
    ensures !r.Loops? ==> i <= r.steps < |slots| && r.pos == Pos(home, r.steps, |slots|)
    ensures !r.Loops? ==> forall s :: i <= s < r.steps ==> Passes(slots, key, home, s)
    ensures r.Hit? ==> slots[r.pos].Live? && slots[r.pos].key == key
    ensures r.Stop? ==> !slots[r.pos].Live?
    ensures r.Loops? ==> forall s :: i <= s < |slots| ==> Passes(slots, key, home, s)
  {
    if i == |slots| then Loops
    else
      var p := Pos(home, i, |slots|);
      match slots[p]
      case Live(k, _) => if k == key then Hit(p, i) else ProbeFrom(slots, key, home, i + 1)
      case _ => Stop(p, i)
  }

  /** The probe for `key` from its home slot. */
  function Probe<V>(t: Table<V>, key: Key): Outcome
    requires Valid(t)
  {
    ProbeFrom(t.slots, key, Hash(key, t.capacity), 0)
  }

  /** Some slot stops the probe for `key`: a slot that is not live, or a live
      slot holding `key`. Without one the C loop runs forever. */
  predicate ProbeEnds<V>(t: Table<V>, key: Key) {
    exists i :: 0 <= i < |t.slots| && (!t.slots[i].Live? || t.slots[i].key == key)
  }

  /** The probe terminates exactly when some slot can stop it. */
  lemma ProbeEndsIff<V>(t: Table<V>, key: Key)
    requires Valid(t)
    ensures ProbeEnds(t, key) <==> !Probe(t, key).Loops?
  {
    if Probe(t, key).Loops? {
      LoopsPassesEverySlot(t, key);
    }
    if !Probe(t, key).Loops? {
      var r := Probe(t, key);
      assert !t.slots[r.pos].Live? || t.slots[r.pos].key == key;
    }
  }

  /** A probe that never ends passes over every slot of the array. */
  lemma LoopsPassesEverySlot<V>(t: Table<V>, key: Key)
    requires Valid(t) && Probe(t, key).Loops?
    ensures forall i :: 0 <= i < |t.slots| ==> t.slots[i].Live? && t.slots[i].key != key
  {
    var n, home := |t.slots|, Hash(key, t.capacity);
    forall i | 0 <= i < n
      ensures t.slots[i].Live? && t.slots[i].key != key
    {
      var s := if i >= home then i - home else i + n - home;
      assert Pos(home, s, n) == i;
      assert Passes(t.slots, key, home, s);
    }
  }

  /** A table with fewer pairs than slots lets every probe terminate. */
  lemma RoomEndsProbe<V>(t: Table<V>, key: Key)
    requires Valid(t) && t.size < t.capacity
    ensures ProbeEnds(t, key)
    ensures !Probe(t, key).Loops?
  {
    var p := CountLessHasVacancy(t.slots);
    assert !t.slots[p].Live?;
    ProbeEndsIff(t, key);
  }

  /** The probe is determined by its path: if the slots of steps `i` to `d - 1`
      let it pass and the slot of step `d` does not, it ends at step `d`. */
  lemma {:induction false} ProbeEndsAt<V>(slots: seq<Slot<V>>, key: Key, home: nat, i: nat, d: nat)
    requires home < |slots| && i <= d < |slots|
    requires forall s :: i <= s < d ==> Passes(slots, key, home, s)
    requires !Passes(slots, key, home, d)
    decreases d - i
    ensures ProbeFrom(slots, key, home, i) ==
            var p := Pos(home, d, |slots|);
            if slots[p].Live? then Hit(p, d) else Stop(p, d)
  {
    if i < d {
      assert Passes(slots, key, home, i);
      ProbeEndsAt(slots, key, home, i + 1, d);
    }
  }

  /** The probe loop of `insertMap`, `eraseMap` and `searchMap` as written:
      start at the home bucket and advance `pos = (pos + 1) % capacity` while
      the bucket is live, leaving on an exactly equal key. It returns where it
      stopped and whether that bucket holds the key. */
  method ProbeLoop<V>(t: Table<V>, key: Key) returns (pos: int, found: bool)
    requires Valid(t) && ProbeEnds(t, key)
    ensures 0 <= pos < t.capacity
    ensures found ==> t.slots[pos].Live? && t.slots[pos].key == key
    ensures !found ==> !t.slots[pos].Live?
    ensures found <==> Probe(t, key).Hit?
    ensures !Probe(t, key).Loops? && pos == Probe(t, key).pos
  {
    ProbeEndsIff(t, key);
    var home := HashLoop(key, t.capacity);
    pos := home;
    ghost var s := 0;
    while t.slots[pos].Live?
      invariant 0 <= s < |t.slots|
      invariant pos == Pos(home, s, |t.slots|)
      invariant ProbeFrom(t.slots, key, home, s) == Probe(t, key)
      decreases |t.slots| - s
    {
      if t.slots[pos].key == key {
        return pos, true;
      }
      PosStep(home, s, |t.slots|);
      pos := (pos + 1) % t.capacity;
      s := s + 1;
    }
    found := false;
  }
}
