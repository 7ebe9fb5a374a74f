# fefu::hash_map in Dafny

This project models `fefu::hash_map<int, V>` from `HashMap/hash_map.h`. It is an
open-addressing hash table that uses double hashing:

- `table` is an array of SIZE slots. Each slot is null or owns a `(key, value)` pair.
- `deleted` is a parallel array of tombstone flags.
- `NOT_NULL_SIZE` counts the live entries.
- Erasing an entry only sets its tombstone flag.
- Slots become null again only when the table is rebuilt by `rehash` or `clear`.

The project has these modules:

- **Hashing** (`hashing.dfy`): the two hash functors and the probe sequence that every
  loop follows. The key is converted to `size_t`, so negative keys wrap modulo 2^64.
  Iteration j examines slot `(FirstKeyHash + (1 + ... + j) * SecondKeyHash) % SIZE`.
  A key whose step equals SIZE never leaves its first slot.
- **Slots** (`slots.dfy`): the slot table as values. Each probe loop is a function:
  - `Lookup` is the loop of find, contains and erase. It stops at a null slot and
    passes tombstones.
  - `InsertFrom` is the loop of the two insertion helpers. It takes the first null
    *or tombstoned* slot.

  The invariant `Reachable` says every live entry lies on its key's probe path, behind
  non-null slots. Under it, the abstract contents `MapOf` agree with `Lookup`. The
  lemmas show how filling a slot, overwriting a value and setting a tombstone change
  these.
- **Iterators** (`iterators.dfy`): `hash_map_iterator`. It holds a table position and
  its own copy of the tombstone flags, taken when it is made. The module proves that
  a traversal from `begin()` to `end()` visits exactly the live slots, in increasing
  index order, so it visits as many entries as `size()` counts.
- **HashMaps** (`hash_map.dfy`): the class. Its fields are the two arrays and the live
  counter. Every probe, scan and rebuild loop of the source is a method with loop
  invariants, proved to compute the Slots functions. The loops that only null the slots
  of a fresh table are array initialisers, and the iterator's copy of the flags is a
  sequence copy. The public operations are proved against the abstract contents
  `Contents()` and the key-uniqueness predicate `Unique()`.
- **Defects** (`defects.dfy`): small concrete tables. They show where the class does not
  behave as a map with unique keys.

The source does not keep keys unique, so `Unique()` is not part of the class invariant.
The insert loop stops at the first tombstone on a key's path. If that key is live
further along the path, insert adds a second live copy:

- `size()` then counts the key twice.
- `erase` then removes only the first copy, so the older value shows again.

This is why most map-level postconditions are stated under `old(Unique())`. It is
also why a table whose keys are unique stays so unless insert fills a tombstone that
precedes a live copy of the key.

Growth:

- The rvalue-pair `insert` (also used by `operator[]`, `merge` and `rehash`) tests
  `(float)NOT_NULL_SIZE / (float)SIZE >= 0.7`.
- The const-pair `insert` and both `insert_or_assign` overloads test
  `NOT_NULL_SIZE / SIZE >= 0.7` with integer division. That test fires only when every
  slot is live.
- A default map of 37 slots grows on the insertion made with 26 entries live. The
  rehash test in `Tests/tests.h` expects a doubled size after 24 insertions, which the
  modelled load test does not produce.

## Model

| member | source | states |
|---|---|---|
| Hashing.AsSize | HashMap/hash_map.h:23 | The key converted to size_t lies in [0, 2^64). Non-negative keys below 2^64 are unchanged. |
| Hashing.FirstKeyHash | HashMap/hash_map.h:21-25 | The first probed slot is inside the table. |
| Hashing.SecondKeyHash | HashMap/hash_map.h:28-32 | The probe step lies between 1 and SIZE inclusive. |
| Hashing.ProbeAt | HashMap/hash_map.h:253-267 | Every slot a probe loop examines is inside the table. |
| Hashing.ProbeIsTriangular | HashMap/hash_map.h:806-816 | Iteration j examines the first slot plus (1 + ... + j) = j(j+1)/2 steps, modulo SIZE. |
| Hashing.StepIsSizeIff | HashMap/hash_map.h:28-32 | For a key in (0, 2^64), the step equals SIZE exactly when SIZE divides the key. |
| Hashing.ProbeStalls | HashMap/hash_map.h:979-987 | When the step equals SIZE, every iteration examines the first slot. |
| Hashing.ZeroKeyStep | HashMap/hash_map.h:28-32 | Key 0 wraps, so its step is SIZE in tables of 32 and 64 slots but not in 37. |
| Slots.FindFrom | HashMap/hash_map.h:287-299 | A slot the lookup loop returns is live and holds the key. |
| Slots.Lookup | HashMap/hash_map.h:976-989 | contains/find report only a live slot holding the key. |
| Slots.InsertFrom | HashMap/hash_map.h:253-267 | The insert loop picks a null or tombstoned slot, or a live slot already holding the key. |
| Slots.FindReachesLive | HashMap/hash_map.h:287-299 | A live entry lying on its key's path behind non-null slots makes the lookup for its key succeed; it may stop at an earlier live copy. |
| Slots.FoundIsReachable | HashMap/hash_map.h:287-299 | Conversely, the slot the lookup loop finds lies on the key's path behind non-null slots. |
| Slots.VacantIsReachable | HashMap/hash_map.h:256-259 | The slot the insert loop fills lies on the key's path behind non-null slots. |
| Slots.ReachableKept | HashMap/hash_map.h:258-261 | Filling slots never breaks a path: a slot stays reachable while no slot becomes null. |
| Slots.InsertThenFind | HashMap/hash_map.h:258-262 | After the insert loop fills a vacant slot, a lookup of that key finds exactly that slot. |
| Slots.FillKeepsFound | HashMap/hash_map.h:258-261 | Filling a vacant slot with another key does not change where the lookup of a found key ends. |
| Slots.FindAgrees | HashMap/hash_map.h:979-987 | Two tables with the same null slots and the same live copies of k give the same lookup result for k. |
| Slots.OccupiedIsFound | HashMap/hash_map.h:263-264 | When the insert loop stops at a live copy of the key, lookup finds that same slot. |
| Slots.UntombedPathIsOccupied | HashMap/hash_map.h:256-266 | With no tombstone on the path before the found slot, insert stops at that slot. |
| Slots.NoTombsUntombed | HashMap/hash_map.h:1095-1097 | In a table without tombstones, every reachable path is free of tombstones. |
| Slots.VacantMeansAbsent | HashMap/hash_map.h:1089-1092 | In a reachable table without tombstones, the insert loop finds a vacant slot only for an absent key. |
| Slots.CountAfterUpdate | HashMap/hash_map.h:258-261 | Changing one slot changes the live count by exactly that slot's change in liveness. |
| Slots.CountBounded | HashMap/hash_map.h:531-533 | The live count never exceeds the number of slots. |
| Slots.CountZeroIff | HashMap/hash_map.h:526-528 | The live count is zero exactly when no slot is live. |
| Slots.UniqueCountIsKeyCount | HashMap/hash_map.h:531-533 | With unique keys, the live count equals the number of distinct live keys. |
| Slots.UniqueSize | HashMap/hash_map.h:531-533 | In a reachable table with unique keys, size() is the number of keys of the map. |
| Slots.MapOfLive | HashMap/hash_map.h:976-989 | In a reachable table, the map's keys are exactly the live keys, and each binding is a live entry. |
| Slots.MapOfIsLookup | HashMap/hash_map.h:947-949 | A key is in the map exactly when the lookup loop finds it, and its value is the one in the found slot. |
| Slots.UniqueMapValue | HashMap/hash_map.h:1022-1027 | With unique keys, every live entry is the map's binding for its key. |
| Slots.SameMap | HashMap/hash_map.h:1081-1105 | A reachable rebuild with the same live keys, whose entries all come from a table with unique keys, holds the same map. |
| Slots.Filled | HashMap/hash_map.h:259 | Storing a new pair in slot p changes slot p alone. |
| Slots.FillVacantShape | HashMap/hash_map.h:258-262 | Filling the slot the insert loop picks keeps every entry reachable and raises the live count by one. |
| Slots.FillVacantKeys | HashMap/hash_map.h:258-262 | The fill adds the key to the live keys and the pair to the live entries. It keeps keys unique when the key was absent. |
| Slots.FillVacantMap | HashMap/hash_map.h:258-262 | After the fill, lookup finds the new slot and the map gains k mapped to v. |
| Slots.WriteKeepsShape | HashMap/hash_map.h:280 | Overwriting a live slot's value keeps reachability, the live count, the live keys and uniqueness. |
| Slots.WriteKeepsLookup | HashMap/hash_map.h:280 | Overwriting a value changes no lookup. |
| Slots.WriteFound | HashMap/hash_map.h:1022-1024 | Writing through the slot lookup finds binds the key to the new value. |
| Slots.OverwriteOccupied | HashMap/hash_map.h:279-281 | insert_or_assign on a present key keeps the table's shape and binds the key to the new value. |
| Slots.TombstoneFound | HashMap/hash_map.h:807-811 | Setting the found slot's tombstone lowers the live count by one and changes no other key's lookup. With unique keys it removes exactly that key. |
| Slots.EmptyTable | HashMap/hash_map.h:245-250 | An all-null table is reachable, has unique keys, counts zero and holds the empty map. |
| Slots.BelowStep | HashMap/hash_map.h:1089-1093 | The live keys and entries of a prefix grow by slot m's entry exactly when it is live. |
| Slots.NonNullKeysBelowHolds | HashMap/hash_map.h:892-896 | The keys merge copies from a prefix are exactly those of its non-null slots. |
| Iterators.Scan | HashMap/hash_map.h:108-121 | The scan stops at the first live slot at or after i in the snapshot, or at the table size. |
| Iterators.TraversalVisitsLive | HashMap/hash_map.h:546-553 | An index is visited by a traversal from begin() (a scan from i) exactly when it is a live slot (at or above i). |
| Iterators.TraversalAscends | HashMap/hash_map.h:108-121 | A traversal visits indices in strictly increasing order, none below its start, so no slot twice. |
| Iterators.TraversalCountsLive | HashMap/hash_map.h:546-553 | A traversal from begin() visits as many entries as there are live slots, the count size() returns. |
| Iterators.Iterator.constructor | HashMap/hash_map.h:73-79 | The iterator points at the given index and copies the tombstone flags. |
| Iterators.Iterator.Copy | HashMap/hash_map.h:90-97 | The copy has the same table, snapshot and index. |
| Iterators.Iterator.Next | HashMap/hash_map.h:108-121 | Prefix ++ moves to the next slot that is live in the snapshot, or to the table size. |
| Iterators.Iterator.Same | HashMap/hash_map.h:126-131 | `==` holds when both iterators point at the same slot of the same table; `!=` is its negation. |
| HashMaps.AtLimit | HashMap/hash_map.h:675 | The load test, under float division (line 684) or integer division (lines 675, 746, 757): a full table always passes it and an empty one never does. |
| HashMaps.IntegerLimitIsFull | HashMap/hash_map.h:672-678 | The integer load test fires exactly when every slot is live, and then the float test fires too. |
| HashMaps.GrownCapacity | HashMap/hash_map.h:681-687 | Growth gives a positive capacity no smaller than before. It leaves a table below its limit as it is and brings a table below the limit. |
| HashMaps.DefaultGrowthPoint | HashMap/hash_map.h:684-685 | A 37-slot map keeps its size while at most 25 entries are live and doubles from 26. |
| HashMaps.EmptyIffNoKeys | HashMap/hash_map.h:526-528 | In a reachable table, a live count of zero means exactly that the map is empty. |
| HashMaps.HashMap.constructor | HashMap/hash_map.h:312-319 | A new map has 37 null slots, no tombstones and no entries. |
| HashMaps.HashMap.WithCapacity | HashMap/hash_map.h:336-341 | hash_map(n) has n null slots and no entries. |
| HashMaps.HashMap.Size | HashMap/hash_map.h:531-533 | size() is the live count. It is at most SIZE, and with unique keys it is the number of keys. |
| HashMaps.HashMap.Empty | HashMap/hash_map.h:526-528 | empty() holds exactly when the map is empty and exactly when no slot is live. |
| HashMaps.HashMap.MaxSize | HashMap/hash_map.h:536-538 | max_size() is SIZE and bounds size(). |
| HashMaps.HashMap.Locate | HashMap/hash_map.h:287-299 | The lookup loop returns the slot lookup specifies. It finds a slot exactly when the key is in the map, and that slot holds the key's value. |
| HashMaps.HashMap.Contains | HashMap/hash_map.h:976-989 | contains(k) holds exactly when k is in the map. |
| HashMaps.HashMap.Count | HashMap/hash_map.h:965-969 | count(k) is 1 when k is in the map and 0 otherwise. |
| HashMaps.HashMap.At | HashMap/hash_map.h:1022-1027 | at(k) gives k's value when k is in the map and otherwise the out_of_range error. |
| HashMaps.HashMap.ProbeInsert | HashMap/hash_map.h:253-267 | The insert loop returns the slot the specification picks. On a live slot, k is already in the map and lookup finds that slot. |
| HashMaps.HashMap.InsertValue | HashMap/hash_map.h:253-267 | The insert helper fills exactly the picked vacant slot, clears its tombstone and adds one to the count, or changes nothing. The map gains k mapped to v when the slot was vacant. Keys stay unique when k was absent. |
| HashMaps.HashMap.InsertOrAssignValue | HashMap/hash_map.h:270-284 | The insert_or_assign helper writes (k, v) into the picked slot, live or vacant. The map becomes old map with k mapped to v. |
| HashMaps.HashMap.Reinsert | HashMap/hash_map.h:1090-1092 | Reinsertion into a tombstone-free table with unique keys keeps both properties. It adds the entry's key when it places it. |
| HashMaps.HashMap.Rehash | HashMap/hash_map.h:1081-1105 | rehash(n) leaves fresh arrays of n slots without tombstones and with unique keys. When every live entry is placed, it keeps the key set, and it keeps the map if keys were unique. |
| HashMaps.HashMap.Grow | HashMap/hash_map.h:673-676 | The growth step sets SIZE to GrownCapacity. It keeps the arrays when no growth is due. When reinsertion succeeds it keeps the key set, and with unique keys it also keeps the map. |
| HashMaps.HashMap.Insert | HashMap/hash_map.h:672-688 | insert grows and then places k. Without growth the result is the insert loop's on the old table. On success lookup finds k, and the keys gain k. With unique keys, a `Vacant` result gives the old map plus k mapped to v, and an `Occupied` result leaves the map unchanged. A present key can still give `Vacant` when a tombstone precedes it (see Defects.InsertDuplicatesKey). |
| HashMaps.HashMap.InsertOrAssign | HashMap/hash_map.h:743-761 | insert_or_assign grows with the integer test and then binds k to v. With unique keys the map becomes old map with k mapped to v. |
| HashMaps.HashMap.Subscript | HashMap/hash_map.h:303-308 | operator[] returns the slot of a present key and changes nothing. For an absent key it inserts k mapped to zero. |
| HashMaps.HashMap.WriteValue | HashMap/hash_map.h:1022-1024 | Writing through a found slot binds its key to the new value and keeps uniqueness. |
| HashMaps.HashMap.Erase | HashMap/hash_map.h:803-820 | erase(k) returns 1 exactly when k was in the map. It sets exactly one tombstone and lowers the count, leaves every other key's lookup unchanged, and with unique keys removes k. |
| HashMaps.HashMap.EraseAt | HashMap/hash_map.h:784-788 | erase(iterator) erases the pointed key and returns a copy of the same position. |
| HashMaps.HashMap.Clear | HashMap/hash_map.h:849-863 | clear() leaves 37 null slots, no tombstones and an empty map. |
| HashMaps.HashMap.Swap | HashMap/hash_map.h:876-882 | swap exchanges the arrays and counters, and with them the two maps. |
| HashMaps.HashMap.MergeEntry | HashMap/hash_map.h:894 | Each insertion merge makes adds the entry's key when it succeeds, and never shrinks the table. |
| HashMaps.HashMap.Merge | HashMap/hash_map.h:888-897 | merge grows to at least the source's SIZE. When every insertion succeeds, the keys become the old keys plus the keys of every non-null source slot. |
| HashMaps.HashMap.Find | HashMap/hash_map.h:947-949 | find(k) points at the slot lookup finds, or at end(). It points before end() exactly when k is in the map, and then `*it` is k with its value in the map. |
| HashMaps.HashMap.Begin | HashMap/hash_map.h:546-553 | begin() points at the first live slot, or at end(). |
| HashMaps.HashMap.End | HashMap/hash_map.h:576-578 | end() points at index SIZE. |
| Defects.BeforeIsValid | HashMap/hash_map.h:287-299 | The example table is reachable with unique keys, and key 1 is found in slot 2 behind the tombstone in slot 1. |
| Defects.InsertDuplicatesKey | HashMap/hash_map.h:256-262 | Inserting a present key can fill an earlier tombstone, leaving two live copies of the key. |
| Defects.SizeCountsDuplicates | HashMap/hash_map.h:531-533 | After that insert, size() is 2 while the map has one key. |
| Defects.EraseLeavesDuplicate | HashMap/hash_map.h:803-812 | erase then tombstones the first copy only, so the key stays in the map with its older value. |
| Defects.StalledInsertFails | HashMap/hash_map.h:253-267 | A key whose step is SIZE and whose first slot holds another live key cannot be inserted. |
| Defects.MultipleOfSizeStalls | HashMap/hash_map.h:28-32 | This happens for every positive key that is a multiple of SIZE. |
| Defects.StallExample | HashMap/hash_map.h:253-267 | Key 5 cannot be inserted into a 5-slot table holding only key 0, although four slots are null. |
| Defects.MergeCopiesErased | HashMap/hash_map.h:892-896 | merge copies an erased entry: in hash_map(2) after inserting and erasing key 7, key 7 is not in the source map but is among the keys merge inserts. |

## Left out

- Allocators, destructors and memory ownership are not modelled: the arrays are Dafny arrays and pairs are values.
- The copy and move constructors, the assignment operators, and the range and initializer-list constructors are left out. They are sequences of `insert` calls and pointer moves. As written they are also broken, which a model of them would only repeat. The copy constructor reinserts from its own freshly nulled `table` instead of the other map's, and never allocates `deleted` (hash_map.h:370-376). The move constructor taking an allocator nulls its own pointers instead of the moved-from map's (hash_map.h:438-439), and so does move assignment (hash_map.h:495-496).
- The range and initializer-list overloads of `insert` are left out. They call the modelled single insert in a loop.
- `emplace` and `try_emplace` are left out. They build a pair and call the modelled rvalue `insert`.
- `erase(first, last)` is left out. Its loop never advances its iterator.
- The const overloads are left out. So are `hash_map_const_iterator`, `cbegin` and `cend`, which mirror the modelled mutable ones. The const `at` calls itself without end.
- `bucket_count`, `bucket`, `load_factor`, the `max_load_factor` getter and setter, `reserve`, and the functor and allocator accessors are left out. `LOAD_FACTOR` is fixed at 0.7, as no modelled operation changes it.
- Keys are `int`, hashed with the default functors. Pluggable hash functors and key-equality predicates are not modelled.
- AtLimit: the float load test is evaluated in exact rational arithmetic as `count * 10 >= 7 * SIZE`, not in single-precision floating point.
- The `int i` loop counter and the `x + i * y` probe arithmetic are unbounded. Overflow for tables beyond 2^31 slots is not modelled.
- The probe loops require a non-empty table. With SIZE 0 the source evaluates `key % 0`, which is undefined.
- InsertValue: when the probe is exhausted the source helper falls off its end without returning, which is undefined. The model returns `Exhausted` and changes nothing.
- Rehash: models the intended behaviour, reinserting into a fresh tombstone-free table. The source reinserts while `deleted` still points at the old, shorter flag array. It also runs each reinsertion through the public insert, with its own growth check. Neither is modelled.
- Rehash: requires n > 0. The public `rehash(0)` would make every later probe compute `key % 0`; every call inside the modelled core passes a positive size.
- Grow: keeps the map only when keys were unique, as Rehash does; it always keeps the key set when reinsertion succeeds.
- Rehash: when a reinsertion is exhausted, the entry is dropped and `ok` is false. The map is stated to be kept only when keys were unique; with duplicate live keys the first copy in slot order wins.
- Merge: requires `source != this`. Self-merge, where the source's arrays change under the loop, is not modelled.
- Merge: states the resulting key set, not the values. A key already present keeps its value, as with insert.
- Subscript: takes the value-initialised `V` as the parameter `zero`, for the source's literal `0`. It returns the slot, not a reference; `WriteValue` models an assignment through the reference.
- At: returns the value rather than a reference, with the `out_of_range` exception as an `Err` result.
- Insert: returns the slot and outcome (`Vacant` means inserted), not an iterator and bool pair; so does InsertOrAssign. That a live key yields `Occupied` is stated by Slots.UntombedPathIsOccupied, only for paths without a tombstone before the key, because otherwise the source inserts a duplicate.
- The iterator's `operator->`, postfix `++` and `!=` are left out. They are `*`, prefix `++` and the negation of `==`.
- Iterators.Iterator.Next: assumes the array is the one the iterator was made on. Moving past a rehash (dangling pointers) is not modelled.
- `Tests/tests.h` and `main.cpp` are a test harness and a runner. They are used only as evidence for the stated properties.
