# Open-addressing hash map from string keys to opaque values

This project is a Dafny model of `hashmap.c`, a hash map that uses open addressing
and linear probing. Keys are C strings and values are opaque pointers. The model
covers the following parts of the C file:

- the string hash `hash`;
- the exact key comparison `is_equal`;
- the probe loop shared by `insertMap`, `eraseMap` and `searchMap`;
- the growth operation `enlarge`;
- `createMap`;
- the stateful cursor `firstMap` / `nextMap`.

The table is an immutable `Table<V>` with four parts: a sequence of slots, `capacity`,
`size` and the cursor `current`. Each slot is one of:

- `Empty`: a NULL bucket;
- `Tomb`: a Pair whose key `eraseMap` set to NULL;
- `Live(key, value)`.

Every operation is a pure function that returns a new table. The operations that move
the cursor also return the pair they found, in a `Reply`. The value type is a type
parameter `V`, because the table never looks inside a value.

Modules, one per part of the C file:

- `Keys` (keys.dfy): the `Key` type and `hash`. Each loop turn `hash += hash * 32 + tolower(c)` is modelled on a 64-bit unsigned accumulator that wraps modulo 2^64.
- `Tables` (table.dfy): slots, the table record, the invariant `Valid`, the live count, the set of stored pairs, and `createMap`.
- `Probing` (probe.dfy): the linear probe, as a pure function of the step count and as the C loop itself.
- `HashMap` (hashmap.dfy): `insertMap`, `eraseMap` and `searchMap`, and the properties that relate them.
- `Growth` (growth.dfy): `enlarge`.
- `Cursor` (cursor.dfy): `firstMap` and `nextMap`, and a full traversal.
- `Scenarios` (scenarios.dfy): concrete tables that show the behaviour described in the next section.

## Behaviour of the code worth knowing

- **Probing stops at tombstones.** The probe loop continues only while the bucket is
  non-NULL and its key is non-NULL (hashmap.c:47-48). So it stops at a bucket whose key
  `eraseMap` set to NULL, just as it stops at an empty bucket. Two consequences follow:
  - An entry placed after an erased slot on the same chain can no longer be found.
  - Re-inserting that key stores a second live copy of it.

  `Scenarios.TombstoneHidesChainedKey` shows both on a two-bucket table.
  `HashMap.EraseNeverReveals` and `HashMap.InsertKeepsFound` bound the effect: an
  erase can hide other keys, but it never reveals one, and an insert never hides one.
- **Lookup is case-sensitive.** `hash` lower-cases each character (hashmap.c:29), but
  `is_equal` compares with `strcmp` (hashmap.c:37). So `"Foo"` and `"foo"` share a home
  slot but are different keys (`Scenarios.CaseVariantIsAnotherKey`).
- **Insert never grows the table.** `insertMap` checks `size == capacity`
  (hashmap.c:55) only after the probe has stopped at a non-live bucket, so that check
  is never true (`HashMap.InsertNeverGrows`). Inserting `"a"`, `"b"`, `"c"` and `"d"`
  into a table of capacity 4 fills all four buckets without growth
  (`Scenarios.FourKeysFillFourBuckets`). In that full table the probe for `"e"` never
  ends (`Scenarios.FullFourBehaves`); `Probing.ProbeEndsIff` gives the general
  condition. `enlarge` is modelled as an operation of its own.
- **`firstMap` on an empty map leaves the cursor unchanged** (hashmap.c:139-141). It
  does not set the cursor to -1.
- **Keys are not always unique.** This follows from the tombstone behaviour. When
  keys repeat, `enlarge` (hashmap.c:85-89) merges the copies and keeps the value
  re-inserted last (`Scenarios.EnlargeMergesDuplicates`).

## Model

| member | source | states |
|---|---|---|
| `Keys.HashStep` | hashmap.c:29 | One turn of the hash loop, computed with 64-bit wrap-around at every operation, equals `(33 * h + tolower(c)) mod 2^64`. The result stays below 2^64. |
| `Keys.Hash` | hashmap.c:25-32 | For a positive capacity, the home slot lies in `[0, capacity)`. |
| `Keys.HashIgnoresCase` | hashmap.c:28-30 | Keys that differ only in the letter case of their characters have the same accumulator, so they have the same home slot at every capacity. |
| `Keys.HashLoop` | hashmap.c:25-32 | The C loop over the characters, followed by `% capacity`, computes `Hash` and returns an index below `capacity`. |
| `Tables.Create` | hashmap.c:95-104 | `createMap` gives a valid table with the requested capacity, all buckets empty, `size` 0, cursor -1 and no stored pairs. |
| `Probing.ProbeFrom` | hashmap.c:46-54 | The probe ends at the first step whose slot is not live or holds exactly the key. Every slot it passes is live and holds a different key, so it never passes a tombstone or an empty slot. It loops forever exactly when every step passes. |
| `Probing.ProbeEndsIff` | hashmap.c:47-54 | The probe loop terminates exactly when some slot is not live or holds the key. |
| `Probing.LoopsPassesEverySlot` | hashmap.c:47-53 | A probe that never ends sees every bucket live with a key other than the target. |
| `Probing.RoomEndsProbe` | hashmap.c:47-53 | With fewer pairs than buckets, every probe terminates. |
| `Probing.ProbeEndsAt` | hashmap.c:47-53 | The probe is determined by its path: it ends at the first step that does not pass. |
| `Probing.ProbeLoop` | hashmap.c:126-134 | The loop as written, starting at the home bucket and advancing `(pos + 1) % capacity`, stops at the probe's end. It reports a hit exactly when that bucket holds the key. |
| `HashMap.Search` | hashmap.c:122-136 | On a hit, it returns the exact key with the value stored in the bucket where the probe met the key, and it moves only the cursor, to that bucket. On a miss, the table is unchanged. A hit happens exactly when the probe meets the key. |
| `HashMap.Insert` | hashmap.c:42-60 | The table stays valid, and the capacity and cursor are unchanged. If the probe meets the key, only that slot's value is replaced and `size` is unchanged. Otherwise the new pair is written at the slot where the probe stopped and `size` grows by exactly one. No other slot changes. |
| `HashMap.Erase` | hashmap.c:105-120 | If the probe meets the key, exactly that slot becomes a tombstone and `size` drops by one. Otherwise nothing changes. The table stays valid. |
| `HashMap.InsertNeverGrows` | hashmap.c:55-57 | Whenever insert reaches the growth check, `size < capacity`, so the branch is dead. |
| `HashMap.InsertAtFreeHome` | hashmap.c:46-59 | A key whose home bucket is not live is written into that bucket, and `size` grows by one. |
| `HashMap.InsertThenSearch` | hashmap.c:47-59 | A search right after an insert finds the key with the inserted value, at the bucket the insert wrote. |
| `HashMap.EraseThenSearch` | hashmap.c:110-116 | A search right after an erase of the same key misses, whether or not the erase found the key. |
| `HashMap.InsertKeepsFound` | hashmap.c:47-59 | Inserting one key never hides another: every other key found before the insert is found afterwards, with the same value. |
| `HashMap.EraseNeverReveals` | hashmap.c:110-116 | Erasing one key never makes another findable: a key that was missed before is still missed. |
| `HashMap.MissUpTo` | hashmap.c:127-135 | If no step up to a non-live bucket holds the key, the probe ends on a miss. |
| `HashMap.ReachableKeysDistinct` | hashmap.c:47-52 | If every stored pair is reachable by its own probe, no key is stored twice. |
| `HashMap.CreateReachable` | hashmap.c:99-102 | In a fresh table every pair is reachable, because there are none. |
| `HashMap.InsertKeepsReachable` | hashmap.c:46-59 | Insert preserves "every stored pair is found by its own probe". |
| `HashMap.SearchMatchesPairs` | hashmap.c:126-135 | In a table whose pairs are all reachable, search returns a pair exactly when that pair is stored, in both directions. |
| `HashMap.InsertPairs` | hashmap.c:49-59 | After an insert, the stored pairs include the new pair and are otherwise old pairs. When the probe did not meet the key, the new pairs are exactly the old ones plus the new pair. |
| `HashMap.AbsentKeyStops` | hashmap.c:47-54 | The probe for a key that no live slot holds ends on a miss. |
| `Growth.Reinsert` | hashmap.c:85-89 | Re-inserting the live old buckets in index order keeps the new table valid, with the same capacity and cursor. It never stores more pairs than the old table had live slots. |
| `Growth.Enlarge` | hashmap.c:62-93 | The capacity doubles, the cursor is unchanged, the table stays valid, and `size` does not grow. |
| `Growth.ReinsertNoTombs` | hashmap.c:85-89 | Re-insertion writes no tombstone. |
| `Growth.ReinsertReachable` | hashmap.c:85-89 | Re-insertion keeps every stored pair reachable. |
| `Growth.ReinsertPairsFromOld` | hashmap.c:85-89 | Re-insertion stores only pairs taken from the old live buckets. |
| `Growth.ReinsertPairsExact` | hashmap.c:82-89 | When the old keys are distinct, each re-inserted pair adds a new one. The result holds exactly the old live pairs, and `size` equals the old live count. |
| `Growth.EnlargeShape` | hashmap.c:74-89 | After `enlarge`: no tombstones are left, every pair is reachable, and every pair was a pair of the old table. |
| `Growth.EnlargeKeepsPairs` | hashmap.c:62-93 | When the old live keys are pairwise distinct, `enlarge` keeps the set of (key, value) pairs and `size`. |
| `Growth.EnlargeKeepsLookups` | hashmap.c:85-89 | When the old live keys are distinct, a search of the enlarged table finds every old pair. |
| `Cursor.ScanFrom` | hashmap.c:145-151 | The scan returns the lowest live index at or after its start, or -1. Every index it skips is not live. |
| `Cursor.First` | hashmap.c:138-156 | On an empty map, `firstMap` returns nothing and leaves the cursor unchanged. Otherwise it returns the pair of the lowest live bucket and sets the cursor there, or sets the cursor to -1 when no bucket is live. Slots, size and capacity are unchanged. |
| `Cursor.Next` | hashmap.c:158-176 | On an empty map or with cursor -1, `nextMap` returns nothing and leaves the cursor unchanged. Otherwise it returns the pair of the lowest live bucket after the cursor and moves the cursor there, or sets the cursor to -1 when none is left. |
| `Cursor.FirstMap` | hashmap.c:143-155 | The `current++` loop of `firstMap` computes `First`. |
| `Cursor.NextMap` | hashmap.c:163-175 | The `current++` loop of `nextMap` computes `Next`. |
| `Cursor.DrainVisitsRest` | hashmap.c:158-176 | From a valid cursor, repeated `nextMap` visits exactly the live buckets after the cursor, in index order. |
| `Cursor.TraverseVisitsAllLive` | hashmap.c:138-176 | `firstMap` followed by `nextMap` until nothing is returned visits every live bucket exactly once, in strictly increasing index order. The number of buckets visited is `size`. |
| `Cursor.FirstFindsPair` | hashmap.c:139-151 | On a valid non-empty map, `firstMap` returns a pair. |
| `Scenarios.CaseVariantIsAnotherKey` | hashmap.c:34-40 | `"Foo"` and `"foo"` share a home slot. After inserting `"Foo"` into an empty table of two or more buckets, a search for `"foo"` misses. |
| `Scenarios.ChainOfTwo` | hashmap.c:46-59 | Inserting `"a"` and then `"c"` into an empty two-bucket table puts `"a"` in its home bucket 1 and moves `"c"` on to bucket 0. |
| `Scenarios.TombstoneHidesChainedKey` | hashmap.c:110-115 | After erasing the first key of a two-key chain, the second key is still stored but cannot be found. Re-inserting it stores a second live copy, which gives `size` 2 with duplicate keys. |
| `Scenarios.FourKeysFillFourBuckets` | hashmap.c:55-59 | Inserting `"a"`, `"b"`, `"c"` and `"d"` into a table of capacity 4 fills all four buckets without growth. |
| `Scenarios.FullFourBehaves` | hashmap.c:47-54 | In that full table, a search finds `"b"`. Erasing `"a"` leaves `size` 3, and `"a"` is then not found. The probe for `"e"` never ends. |
| `Scenarios.EnlargeMergesDuplicates` | hashmap.c:85-89 | Enlarging a table that holds two copies of a key keeps one pair, the copy re-inserted last, so `size` drops from 2 to 1. |

## Left out

- The NULL checks on the map and the key (hashmap.c:43-45, 106-108, 123-125, 139, 159) are not modelled. A table and a key are always values here, and the NULL branches only return.
- Memory management is not modelled: `malloc`/`free` of the map, the buckets and the Pairs; `createPair`; and `free(old_buckets)`. The source stores the caller's key pointer without copying it, so a caller could later change a stored key. The model treats keys as immutable values instead.
- The allocation-failure paths (hashmap.c:74-79, 96-98) are not modelled. After the first, the C table has a doubled capacity with no buckets.
- Fresh bucket arrays are assumed to be all `Empty`. The C code takes them from `malloc` (hashmap.c:74, 99), which does not clear memory.
- The `enlarge_called` test flag (hashmap.c:9, 63) is not modelled.
- A returned `Pair*` has an identity, and callers can write through it to change a stored value. The model returns a copy of the pair and the cursor position instead.
- Keys are ASCII without NUL, and `tolower` maps only `'A'..'Z'`. Locale-dependent `tolower` and negative `char` values are not modelled.
- `Tables.Create` requires `capacity > 0`. With capacity 0, `hash` divides by zero (hashmap.c:31). With a negative capacity, the `malloc` size at hashmap.c:99 wraps, and `% capacity` at hashmap.c:31 is taken on an unsigned value, so bucket accesses go out of bounds. Neither case is modelled.
- `Growth.Enlarge` does not model the signed overflow of `capacity *= 2` or of the `malloc` size for huge capacities, because capacities are unbounded integers here.
- `HashMap.Insert`, `HashMap.Erase` and `HashMap.Search` require that the probe terminates: some bucket is not live or holds the key. When every bucket is live with another key, the C loops never end (`Probing.ProbeEndsIff` characterises this case).
- `HashMap.Insert` does not contain the growth branch (hashmap.c:55-57), because `HashMap.InsertNeverGrows` proves it is never taken. Its write at an index computed for the old capacity (hashmap.c:58) is therefore not modelled either.
- `Growth.EnlargeKeepsPairs`: pairs and `size` are preserved only when the old keys are distinct. With duplicate keys, the weaker `Growth.EnlargeShape` still holds: no pair appears that was not in the old table.
