/** The slot storage of `fefu::hash_map` as values: a table is a sequence of slots
    (null or an owned entry) and a parallel sequence of tombstone flags. The probe
    loops of the source are specified here as functions of that state; the class in
    HashMaps runs the loops and is proved to compute these functions. */
module Slots {
  import opened Hashing

  datatype Option<T> = None | Some(value: T)

  /** An owned (key, value) pair. */
  datatype Entry<V> = Entry(key: int, value: V)

  /** One cell of `table`: null, or the pair it owns. */
  type Slot<V> = Option<Entry<V>>

  /** What the insert loop finds on a key's probe path: a slot it may fill (null or
      tombstoned), the live slot that already holds the key, or nothing within the
      SIZE - 1 examined slots. */
  datatype Probe = Vacant(x: nat) | Occupied(x: nat) | Exhausted

  /** Slot i holds an entry whose tombstone flag is clear. */
  predicate Live<V>(s: seq<Slot<V>>, t: seq<bool>, i: int)
    requires |s| == |t|
  {
    0 <= i < |s| && s[i].Some? && !t[i]
  }

  /** Slot i is live and holds key k. */
  predicate LiveWith<V>(s: seq<Slot<V>>, t: seq<bool>, i: int, k: int)
    requires |s| == |t|
  {
    Live(s, t, i) && s[i].value.key == k
  }

  /** No slot is tombstoned. */
  predicate NoTombs(t: seq<bool>)
  {
    forall i :: 0 <= i < |t| ==> !t[i]
  }

  // ---------------------------------------------------------------------------
  // The probe loops

  /** The loop of find, contains and erase from iteration j on: it stops with the
      first live slot holding k, stops empty-handed at a null slot, probes past
      tombstones and other keys, and gives up after SIZE - 1 examined slots. */
  function FindFrom<V>(s: seq<Slot<V>>, t: seq<bool>, k: int, j: nat): (r: Option<nat>)
    requires 0 < |s| == |t|
    ensures r.Some? ==> LiveWith(s, t, r.value, k)
    decreases |s| - j
  {
    if j + 1 >= |s| then None
    else
      var x := ProbeAt(k, |s|, j);
      if s[x].None? then None
      else if s[x].value.key == k && !t[x] then Some(x)
      else FindFrom(s, t, k, j + 1)
  }

  /** The whole lookup loop: the slot find points at, if any. */
  function Lookup<V>(s: seq<Slot<V>>, t: seq<bool>, k: int): (r: Option<nat>)
    requires 0 < |s| == |t|
    ensures r.Some? ==> LiveWith(s, t, r.value, k)
  {
    FindFrom(s, t, k, 0)
  }

  /** The loop of insert and insert_or_assign from iteration j on: it takes the first
      slot that is null or tombstoned, stops at a live slot holding k, and gives up
      after SIZE - 1 examined slots. It never looks past a tombstone for k. */
  function InsertFrom<V>(s: seq<Slot<V>>, t: seq<bool>, k: int, j: nat): (r: Probe)
    requires 0 < |s| == |t|
    ensures r.Vacant? ==> r.x < |s| && (s[r.x].None? || t[r.x])
    ensures r.Occupied? ==> LiveWith(s, t, r.x, k)
    decreases |s| - j
  {
    if j + 1 >= |s| then Exhausted
    else
      var x := ProbeAt(k, |s|, j);
      if s[x].None? || t[x] then Vacant(x)
      else if s[x].value.key == k then Occupied(x)
      else InsertFrom(s, t, k, j + 1)
  }

  /** Slot i is examined by k's probe from iteration j on, and every slot examined
      before it is non-null, so a lookup for k does not stop before reaching i. */
  predicate ReachableFrom<V>(s: seq<Slot<V>>, k: int, i: nat, j: nat)
    requires 0 < |s|
    decreases |s| - j
  {
    j + 1 < |s| &&
    var x := ProbeAt(k, |s|, j);
    x == i || (s[x].Some? && ReachableFrom(s, k, i, j + 1))
  }

  /** Like ReachableFrom, and in addition no slot examined before i is tombstoned,
      so the insert loop does not stop before reaching i. */
  predicate UntombedFrom<V>(s: seq<Slot<V>>, t: seq<bool>, k: int, i: nat, j: nat)
    requires 0 < |s| == |t|
    decreases |s| - j
  {
    j + 1 < |s| &&
    var x := ProbeAt(k, |s|, j);
    x == i || (s[x].Some? && !t[x] && UntombedFrom(s, t, k, i, j + 1))
  }

  /** Every live entry lies on its own key's probe path behind non-null slots. Insert
      places entries only at such positions and no operation but a rebuild ever makes
      a slot null again, so this holds of every table the class produces. */
  ghost predicate Reachable<V>(s: seq<Slot<V>>, t: seq<bool>)
    requires |s| == |t|
  {
    forall i :: 0 <= i < |s| && Live(s, t, i) ==> ReachableFrom(s, s[i].value.key, i, 0)
  }

  /** At most one live entry per key: what the source promises and does not keep. */
  ghost predicate KeysUnique<V>(s: seq<Slot<V>>, t: seq<bool>)
    requires |s| == |t|
  {
    forall i, j :: 0 <= i < |s| && 0 <= j < |s| && Live(s, t, i) && Live(s, t, j) && s[i].value.key == s[j].value.key ==> i == j
  }

  // ---------------------------------------------------------------------------
  // Counting and the abstract contents

  /** The number of live slots with index i or more. */
  function CountLiveFrom<V>(s: seq<Slot<V>>, t: seq<bool>, i: nat): nat
    requires |s| == |t|
    decreases |s| - i
  {
    if i >= |s| then 0
    else (if Live(s, t, i) then 1 else 0) + CountLiveFrom(s, t, i + 1)
  }

  /** The number of live slots: what NOT_NULL_SIZE must hold. */
  function CountLive<V>(s: seq<Slot<V>>, t: seq<bool>): nat
    requires |s| == |t|
  {
    CountLiveFrom(s, t, 0)
  }

  /** The keys of the live slots with index in [lo, hi). */
  ghost function KeysIn<V>(s: seq<Slot<V>>, t: seq<bool>, lo: nat, hi: nat): set<int>
    requires |s| == |t|
  {
    set i | lo <= i < hi && Live(s, t, i) :: s[i].value.key
  }

  /** The keys of the live slots with index below m. */
  ghost function KeysBelow<V>(s: seq<Slot<V>>, t: seq<bool>, m: nat): set<int>
    requires |s| == |t|
  {
    KeysIn(s, t, 0, m)
  }

  /** The live entries with index below m. */
  ghost function EntriesBelow<V>(s: seq<Slot<V>>, t: seq<bool>, m: nat): set<Entry<V>>
    requires |s| == |t|
  {
    set i | 0 <= i < m && Live(s, t, i) :: s[i].value
  }

  ghost function LiveKeys<V>(s: seq<Slot<V>>, t: seq<bool>): set<int>
    requires |s| == |t|
  {
    KeysBelow(s, t, |s|)
  }

  ghost function LiveEntries<V>(s: seq<Slot<V>>, t: seq<bool>): set<Entry<V>>
    requires |s| == |t|
  {
    EntriesBelow(s, t, |s|)
  }

  /** The keys of every non-null slot below m, tombstoned or not: what merge copies. */
  ghost function NonNullKeysBelow<V>(s: seq<Slot<V>>, m: nat): set<int>
    requires m <= |s|
  {
    if m == 0 then {}
    else NonNullKeysBelow(s, m - 1) + (if s[m - 1].Some? then {s[m - 1].value.key} else {})
  }

  /** The map a table stands for: each key that find locates, with the value of the
      slot find points at. */
  ghost function MapOf<V>(s: seq<Slot<V>>, t: seq<bool>): map<int, V>
    requires |s| == |t|
  {
    if |s| == 0 then map[]
    else map k | k in LiveKeys(s, t) && Lookup(s, t, k).Some? :: s[Lookup(s, t, k).value].value.value
  }

  // ---------------------------------------------------------------------------
  // Lemmas about the probe loops

  /** A live slot that lies on k's path behind non-null slots is found by the lookup:
      find stops with some live slot holding k. */
  lemma {:induction false} FindReachesLive<V>(s: seq<Slot<V>>, t: seq<bool>, k: int, i: nat, j: nat)
    requires 0 < |s| == |t|
    requires ReachableFrom(s, k, i, j) && LiveWith(s, t, i, k)
    ensures FindFrom(s, t, k, j).Some?
    decreases |s| - j
  {
    var x := ProbeAt(k, |s|, j);
    if x != i && !LiveWith(s, t, x, k) {
      FindReachesLive(s, t, k, i, j + 1);
    }
  }

  /** The slot find stops at lies on the path behind non-null slots. */
  lemma {:induction false} FoundIsReachable<V>(s: seq<Slot<V>>, t: seq<bool>, k: int, j: nat)
    requires 0 < |s| == |t|
    requires FindFrom(s, t, k, j).Some?
    ensures ReachableFrom(s, k, FindFrom(s, t, k, j).value, j)
    decreases |s| - j
  {
    var x := ProbeAt(k, |s|, j);
    if FindFrom(s, t, k, j) != Some(x) {
      FoundIsReachable(s, t, k, j + 1);
    }
  }

  /** The slot the insert loop fills lies on the path behind non-null slots. */
  lemma {:induction false} VacantIsReachable<V>(s: seq<Slot<V>>, t: seq<bool>, k: int, j: nat)
    requires 0 < |s| == |t|
    requires InsertFrom(s, t, k, j).Vacant?
    ensures ReachableFrom(s, k, InsertFrom(s, t, k, j).x, j)
    decreases |s| - j
  {
    var x := ProbeAt(k, |s|, j);
    if InsertFrom(s, t, k, j) != Vacant(x) {
      VacantIsReachable(s, t, k, j + 1);
    }
  }

  /** A slot found reachable stays reachable in a table where no non-null slot has
      become null. */
  lemma {:induction false} ReachableKept<V>(s: seq<Slot<V>>, s2: seq<Slot<V>>, k: int, i: nat, j: nat)
    requires 0 < |s| == |s2|
    requires forall x :: 0 <= x < |s| && s[x].Some? ==> s2[x].Some?
    requires ReachableFrom(s, k, i, j)
    ensures ReachableFrom(s2, k, i, j)
    decreases |s| - j
  {
    if ProbeAt(k, |s|, j) != i {
      ReachableKept(s, s2, k, i, j + 1);
    }
  }

  /** Round trip of the insert loop: once the slot it chose holds (k, v) and is
      untombstoned, the lookup for k stops exactly there. Every slot the insert loop
      passed was live with another key, so the lookup passes it too. */
  lemma {:induction false} InsertThenFind<V>(s: seq<Slot<V>>, t: seq<bool>, k: int, v: V, j: nat)
    requires 0 < |s| == |t|
    requires InsertFrom(s, t, k, j).Vacant?
    ensures var p := InsertFrom(s, t, k, j).x;
            FindFrom(s[p := Some(Entry(k, v))], t[p := false], k, j) == Some(p)
    decreases |s| - j
  {
    var p := InsertFrom(s, t, k, j).x;
    if ProbeAt(k, |s|, j) != p {
      InsertThenFind(s, t, k, v, j + 1);
    }
  }

  /** Filling a null or tombstoned slot with another key does not move what the lookup
      for k finds. A null slot on k's path lies beyond the slot found (the lookup would
      have stopped there); a tombstoned one was probed past and still is. */
  lemma {:induction false} FillKeepsFound<V>(s: seq<Slot<V>>, t: seq<bool>, p: nat, e: Entry<V>, k: int, j: nat)
    requires 0 < |s| == |t| && p < |s|
    requires s[p].None? || t[p]
    requires e.key != k
    requires FindFrom(s, t, k, j).Some?
    ensures FindFrom(s[p := Some(e)], t[p := false], k, j) == FindFrom(s, t, k, j)
    decreases |s| - j
  {
    var x := ProbeAt(k, |s|, j);
    if FindFrom(s, t, k, j) != Some(x) {
      FillKeepsFound(s, t, p, e, k, j + 1);
    }
  }

  /** Two tables that agree, slot by slot, on which slots are null and on which are
      live with key k, give the same lookup for k. */
  lemma {:induction false} FindAgrees<V>(s: seq<Slot<V>>, t: seq<bool>, s2: seq<Slot<V>>, t2: seq<bool>, k: int, j: nat)
    requires 0 < |s| == |t| == |s2| == |t2|
    requires forall x :: 0 <= x < |s| ==> s[x].None? == s2[x].None? && LiveWith(s, t, x, k) == LiveWith(s2, t2, x, k)
    ensures FindFrom(s, t, k, j) == FindFrom(s2, t2, k, j)
    decreases |s| - j
  {
    if j + 1 < |s| {
      var x := ProbeAt(k, |s|, j);
      assert LiveWith(s, t, x, k) == LiveWith(s2, t2, x, k);
      FindAgrees(s, t, s2, t2, k, j + 1);
    }
  }

  /** When the insert loop stops at a live slot holding k, the lookup for k stops at
      the same slot: the two loops passed the same slots. */
  lemma {:induction false} OccupiedIsFound<V>(s: seq<Slot<V>>, t: seq<bool>, k: int, j: nat)
    requires 0 < |s| == |t|
    requires InsertFrom(s, t, k, j).Occupied?
    ensures FindFrom(s, t, k, j) == Some(InsertFrom(s, t, k, j).x)
    decreases |s| - j
  {
    var x := ProbeAt(k, |s|, j);
    if InsertFrom(s, t, k, j) != Occupied(x) {
      OccupiedIsFound(s, t, k, j + 1);
    }
  }

  /** Insert of a live key reports it as present only when no tombstone precedes its
      slot on the path: then the insert loop stops at the slot the lookup finds. */
  lemma {:induction false} UntombedPathIsOccupied<V>(s: seq<Slot<V>>, t: seq<bool>, k: int, p: nat, j: nat)
    requires 0 < |s| == |t|
    requires FindFrom(s, t, k, j) == Some(p)
    requires UntombedFrom(s, t, k, p, j)
    ensures InsertFrom(s, t, k, j) == Occupied(p)
    decreases |s| - j
  {
    if ProbeAt(k, |s|, j) != p {
      UntombedPathIsOccupied(s, t, k, p, j + 1);
    }
  }

  /** In a table without tombstones every reachable path is untombed. */
  lemma {:induction false} NoTombsUntombed<V>(s: seq<Slot<V>>, t: seq<bool>, k: int, i: nat, j: nat)
    requires 0 < |s| == |t|
    requires NoTombs(t) && ReachableFrom(s, k, i, j)
    ensures UntombedFrom(s, t, k, i, j)
    decreases |s| - j
  {
    if ProbeAt(k, |s|, j) != i {
      NoTombsUntombed(s, t, k, i, j + 1);
    }
  }

  /** In a table without tombstones the insert loop never fills a slot while the key
      is live elsewhere, so it cannot create a duplicate. */
  lemma VacantMeansAbsent<V>(s: seq<Slot<V>>, t: seq<bool>, k: int)
    requires 0 < |s| == |t|
    requires NoTombs(t) && Reachable(s, t)
    requires InsertFrom(s, t, k, 0).Vacant?
    ensures k !in LiveKeys(s, t)
  {
    if k in LiveKeys(s, t) {
      var i :| 0 <= i < |s| && Live(s, t, i) && s[i].value.key == k;
      FindReachesLive(s, t, k, i, 0);
      var p := FindFrom(s, t, k, 0).value;
      FoundIsReachable(s, t, k, 0);
      NoTombsUntombed(s, t, k, p, 0);
      UntombedPathIsOccupied(s, t, k, p, 0);
    }
  }

  // ---------------------------------------------------------------------------
  // Lemmas about the live count

  /** Changing one slot p changes the count of live slots at or below p by the change
      in p's liveness, and leaves the count above p alone. */
  lemma {:induction false} CountAfterUpdate<V>(s: seq<Slot<V>>, t: seq<bool>, s2: seq<Slot<V>>, t2: seq<bool>, p: nat, i: nat)
    requires |s| == |t| == |s2| == |t2| && p < |s|
    requires forall x :: 0 <= x < |s| && x != p ==> s2[x] == s[x] && t2[x] == t[x]
    ensures CountLiveFrom(s2, t2, i) + (if i <= p && Live(s, t, p) then 1 else 0)
         == CountLiveFrom(s, t, i) + (if i <= p && Live(s2, t2, p) then 1 else 0)
    decreases |s| - i
  {
    if i < |s| {
      CountAfterUpdate(s, t, s2, t2, p, i + 1);
    }
  }

  /** The live count never exceeds the number of slots. */
  lemma {:induction false} CountBounded<V>(s: seq<Slot<V>>, t: seq<bool>, i: nat)
    requires |s| == |t| && i <= |s|
    ensures CountLiveFrom(s, t, i) <= |s| - i
    decreases |s| - i
  {
    if i < |s| {
      CountBounded(s, t, i + 1);
    }
  }

  /** The live count is zero exactly when no slot from i on is live. */
  lemma {:induction false} CountZeroIff<V>(s: seq<Slot<V>>, t: seq<bool>, i: nat)
    requires |s| == |t|
    ensures CountLiveFrom(s, t, i) == 0 <==> forall x :: i <= x < |s| ==> !Live(s, t, x)
    decreases |s| - i
  {
    if i < |s| {
      CountZeroIff(s, t, i + 1);
      if CountLiveFrom(s, t, i) == 0 {
        forall x | i <= x < |s| ensures !Live(s, t, x) {
          if x > i {
            assert i + 1 <= x;
          }
        }
      }
    }
  }

  /** With unique keys the live count equals the number of distinct live keys, so
      size() is the number of keys contains() reports. */
  lemma {:induction false} UniqueCountIsKeyCount<V>(s: seq<Slot<V>>, t: seq<bool>, i: nat)
    requires |s| == |t| && KeysUnique(s, t)
    ensures CountLiveFrom(s, t, i) == |KeysIn(s, t, i, |s|)|
    decreases |s| - i
  {
    if i < |s| {
      UniqueCountIsKeyCount(s, t, i + 1);
      KeysInStep(s, t, i);
      if Live(s, t, i) {
        var k := s[i].value.key;
        forall y | i + 1 <= y < |s| && Live(s, t, y) ensures s[y].value.key != k {
          assert y != i;
        }
        assert k !in KeysIn(s, t, i + 1, |s|);
      }
    }
  }

  /** The live keys from i on are slot i's key, when it is live, and those from i + 1 on. */
  lemma KeysInStep<V>(s: seq<Slot<V>>, t: seq<bool>, i: nat)
    requires |s| == |t| && i < |s|
    ensures KeysIn(s, t, i, |s|) == KeysIn(s, t, i + 1, |s|) + (if Live(s, t, i) then {s[i].value.key} else {})
  {
    var here, rest := KeysIn(s, t, i, |s|), KeysIn(s, t, i + 1, |s|);
    forall x | x in here ensures x in rest || (Live(s, t, i) && x == s[i].value.key) {
      var y :| i <= y < |s| && Live(s, t, y) && s[y].value.key == x;
      if y > i { assert x in rest; }
    }
  }

  /** With unique keys the live count is the number of keys in the map. */
  lemma UniqueSize<V>(s: seq<Slot<V>>, t: seq<bool>)
    requires |s| == |t| && Reachable(s, t)
    ensures KeysUnique(s, t) ==> CountLive(s, t) == |MapOf(s, t).Keys|
  {
    if KeysUnique(s, t) {
      UniqueCountIsKeyCount(s, t, 0);
      MapOfLive(s, t);
      assert KeysIn(s, t, 0, |s|) == LiveKeys(s, t);
    }
  }

  // ---------------------------------------------------------------------------
  // Lemmas about the abstract contents

  /** In a reachable table the keys of the map are exactly the live keys, and each
      comes with the value of a live entry. */
  lemma MapOfLive<V>(s: seq<Slot<V>>, t: seq<bool>)
    requires |s| == |t| && Reachable(s, t)
    ensures MapOf(s, t).Keys == LiveKeys(s, t)
    ensures forall k :: k in MapOf(s, t) ==> Entry(k, MapOf(s, t)[k]) in LiveEntries(s, t)
  {
    if |s| > 0 {
      forall k | k in LiveKeys(s, t) ensures k in MapOf(s, t) {
        var i :| 0 <= i < |s| && Live(s, t, i) && s[i].value.key == k;
        FindReachesLive(s, t, k, i, 0);
      }
      forall k | k in MapOf(s, t) ensures Entry(k, MapOf(s, t)[k]) in LiveEntries(s, t) {
        var p := Lookup(s, t, k).value;
        assert s[p].value == Entry(k, MapOf(s, t)[k]);
      }
    }
  }

  /** A key is in the map exactly when the lookup finds it; the value is that of the
      slot found. */
  lemma MapOfIsLookup<V>(s: seq<Slot<V>>, t: seq<bool>, k: int)
    requires 0 < |s| == |t|
    ensures k in MapOf(s, t) <==> Lookup(s, t, k).Some?
    ensures k in MapOf(s, t) ==> MapOf(s, t)[k] == s[Lookup(s, t, k).value].value.value
  {
    if Lookup(s, t, k).Some? {
      var p := Lookup(s, t, k).value;
      assert Live(s, t, p);
      assert k in LiveKeys(s, t);
    }
  }

  /** With unique keys, the map gives every live entry's own value. */
  lemma UniqueMapValue<V>(s: seq<Slot<V>>, t: seq<bool>, e: Entry<V>)
    requires |s| == |t| && Reachable(s, t) && KeysUnique(s, t)
    requires e in LiveEntries(s, t)
    ensures e.key in MapOf(s, t) && MapOf(s, t)[e.key] == e.value
  {
    var i :| 0 <= i < |s| && Live(s, t, i) && s[i].value == e;
    FindReachesLive(s, t, e.key, i, 0);
    MapOfIsLookup(s, t, e.key);
  }

  /** Two reachable tables with unique keys, the same live keys, and the live entries
      of the second among those of the first stand for the same map. */
  lemma SameMap<V>(s: seq<Slot<V>>, t: seq<bool>, s2: seq<Slot<V>>, t2: seq<bool>)
    requires |s| == |t| && Reachable(s, t) && KeysUnique(s, t)
    requires |s2| == |t2| && Reachable(s2, t2)
    requires LiveKeys(s2, t2) == LiveKeys(s, t)
    requires LiveEntries(s2, t2) <= LiveEntries(s, t)
    ensures MapOf(s2, t2) == MapOf(s, t)
  {
    MapOfLive(s, t);
    MapOfLive(s2, t2);
    forall k | k in MapOf(s2, t2) ensures MapOf(s2, t2)[k] == MapOf(s, t)[k] {
      UniqueMapValue(s, t, Entry(k, MapOf(s2, t2)[k]));
    }
  }

  /** The table after the insert loop filled the slot it chose with (k, v). */
  function Filled<V>(s: seq<Slot<V>>, p: nat, k: int, v: V): (s2: seq<Slot<V>>)
    requires p < |s|
    ensures |s2| == |s| && s2[p] == Some(Entry(k, v))
    ensures forall x :: 0 <= x < |s| && x != p ==> s2[x] == s[x]
  {
    s[p := Some(Entry(k, v))]
  }

  /** Filling the slot the insert loop chose keeps every live entry reachable (the new
      one included) and adds one to the live count. */
  lemma FillVacantShape<V>(s: seq<Slot<V>>, t: seq<bool>, k: int, v: V)
    requires 0 < |s| == |t| && Reachable(s, t)
    requires InsertFrom(s, t, k, 0).Vacant?
    ensures var p := InsertFrom(s, t, k, 0).x;
            && Reachable(Filled(s, p, k, v), t[p := false])
            && CountLive(Filled(s, p, k, v), t[p := false]) == CountLive(s, t) + 1
  {
    var p := InsertFrom(s, t, k, 0).x;
    var s2, t2 := Filled(s, p, k, v), t[p := false];
    assert !Live(s, t, p);
    forall i | 0 <= i < |s2| && Live(s2, t2, i) ensures ReachableFrom(s2, s2[i].value.key, i, 0) {
      if i == p {
        VacantIsReachable(s, t, k, 0);
        ReachableKept(s, s2, k, p, 0);
      } else {
        assert Live(s, t, i);
        ReachableKept(s, s2, s[i].value.key, i, 0);
      }
    }
    CountAfterUpdate(s, t, s2, t2, p, 0);
  }

  /** Filling the slot the insert loop chose adds k to the live keys and (k, v) to
      the live entries, and keeps keys unique when k was not live. */
  lemma FillVacantKeys<V>(s: seq<Slot<V>>, t: seq<bool>, k: int, v: V)
    requires 0 < |s| == |t|
    requires InsertFrom(s, t, k, 0).Vacant?
    ensures var p := InsertFrom(s, t, k, 0).x;
            && LiveKeys(Filled(s, p, k, v), t[p := false]) == LiveKeys(s, t) + {k}
            && LiveEntries(Filled(s, p, k, v), t[p := false]) == LiveEntries(s, t) + {Entry(k, v)}
            && (KeysUnique(s, t) && k !in LiveKeys(s, t) ==> KeysUnique(Filled(s, p, k, v), t[p := false]))
  {
    var p := InsertFrom(s, t, k, 0).x;
    var s2, t2 := Filled(s, p, k, v), t[p := false];
    assert !Live(s, t, p) && Live(s2, t2, p);
    assert LiveKeys(s2, t2) == LiveKeys(s, t) + {k} by {
      assert k == s2[p].value.key;
      forall x | x in LiveKeys(s, t) ensures x in LiveKeys(s2, t2) {
        var i :| 0 <= i < |s| && Live(s, t, i) && s[i].value.key == x;
        assert Live(s2, t2, i);
      }
    }
    assert LiveEntries(s2, t2) == LiveEntries(s, t) + {Entry(k, v)} by {
      assert Entry(k, v) == s2[p].value;
      forall e | e in LiveEntries(s, t) ensures e in LiveEntries(s2, t2) {
        var i :| 0 <= i < |s| && Live(s, t, i) && s[i].value == e;
        assert Live(s2, t2, i);
      }
    }
    if KeysUnique(s, t) && k !in LiveKeys(s, t) {
      forall i, j | 0 <= i < |s2| && 0 <= j < |s2| && Live(s2, t2, i) && Live(s2, t2, j) && s2[i].value.key == s2[j].value.key
        ensures i == j
      {
        if i != p && j != p {
          assert Live(s, t, i) && Live(s, t, j);
        } else if i != p {
          assert Live(s, t, i);
        } else if j != p {
          assert Live(s, t, j);
        }
      }
    }
  }

  /** Filling the slot the insert loop chose makes the map send k to v and leaves the
      other keys alone: the lookup for k now stops at the new slot, and the lookup for
      any other present key stops where it did. */
  lemma FillVacantMap<V>(s: seq<Slot<V>>, t: seq<bool>, k: int, v: V)
    requires 0 < |s| == |t| && Reachable(s, t)
    requires InsertFrom(s, t, k, 0).Vacant?
    ensures var p := InsertFrom(s, t, k, 0).x;
            && Lookup(Filled(s, p, k, v), t[p := false], k) == Some(p)
            && MapOf(Filled(s, p, k, v), t[p := false]) == MapOf(s, t)[k := v]
            && MapOf(Filled(s, p, k, v), t[p := false]).Keys == MapOf(s, t).Keys + {k}
  {
    var p := InsertFrom(s, t, k, 0).x;
    var s2, t2 := Filled(s, p, k, v), t[p := false];
    FillVacantShape(s, t, k, v);
    InsertThenFind(s, t, k, v, 0);
    MapOfIsLookup(s2, t2, k);
    MapOfLive(s, t);
    MapOfLive(s2, t2);
    forall k' | k' != k
      ensures (k' in MapOf(s2, t2) <==> k' in MapOf(s, t)) && (k' in MapOf(s, t) ==> MapOf(s2, t2)[k'] == MapOf(s, t)[k'])
    {
      MapOfIsLookup(s, t, k');
      MapOfIsLookup(s2, t2, k');
      if k' in MapOf(s, t) {
        FillKeepsFound(s, t, p, Entry(k, v), k', 0);
      }
    }
    assert MapOf(s2, t2) == MapOf(s, t)[k := v];
  }

  /** Rewriting the value of a non-null slot keeps its key: the table stays reachable,
      and the live count, live keys and uniqueness are unchanged. */
  lemma WriteKeepsShape<V>(s: seq<Slot<V>>, t: seq<bool>, p: nat, v: V)
    requires 0 < |s| == |t| && p < |s| && s[p].Some? && Reachable(s, t)
    ensures var s2 := Filled(s, p, s[p].value.key, v);
            && Reachable(s2, t)
            && CountLive(s2, t) == CountLive(s, t)
            && LiveKeys(s2, t) == LiveKeys(s, t)
            && (KeysUnique(s, t) ==> KeysUnique(s2, t))
  {
    var s2 := Filled(s, p, s[p].value.key, v);
    forall i | 0 <= i < |s2| && Live(s2, t, i) ensures ReachableFrom(s2, s2[i].value.key, i, 0) {
      assert Live(s, t, i);
      ReachableKept(s, s2, s[i].value.key, i, 0);
    }
    CountAfterUpdate(s, t, s2, t, p, 0);
    assert LiveKeys(s2, t) == LiveKeys(s, t) by {
      forall x | x in LiveKeys(s, t) ensures x in LiveKeys(s2, t) {
        var i :| 0 <= i < |s| && Live(s, t, i) && s[i].value.key == x;
        assert Live(s2, t, i) && s2[i].value.key == x;
      }
      forall x | x in LiveKeys(s2, t) ensures x in LiveKeys(s, t) {
        var i :| 0 <= i < |s2| && Live(s2, t, i) && s2[i].value.key == x;
        assert Live(s, t, i) && s[i].value.key == x;
      }
    }
    if KeysUnique(s, t) {
      forall i, j | 0 <= i < |s2| && 0 <= j < |s2| && Live(s2, t, i) && Live(s2, t, j) && s2[i].value.key == s2[j].value.key
        ensures i == j
      {
        assert Live(s, t, i) && Live(s, t, j);
      }
    }
  }

  /** Rewriting the value of a non-null slot changes no lookup. */
  lemma WriteKeepsLookup<V>(s: seq<Slot<V>>, t: seq<bool>, p: nat, v: V, k: int)
    requires 0 < |s| == |t| && p < |s| && s[p].Some?
    ensures Lookup(Filled(s, p, s[p].value.key, v), t, k) == Lookup(s, t, k)
  {
    FindAgrees(s, t, Filled(s, p, s[p].value.key, v), t, k, 0);
  }

  /** Rewriting the value of the slot the lookup for k finds sends k to the new value
      and leaves the rest of the map alone. */
  lemma WriteFound<V>(s: seq<Slot<V>>, t: seq<bool>, k: int, v: V)
    requires 0 < |s| == |t|
    requires Lookup(s, t, k).Some?
    ensures var p := Lookup(s, t, k).value;
            && Lookup(Filled(s, p, k, v), t, k) == Some(p)
            && MapOf(Filled(s, p, k, v), t) == MapOf(s, t)[k := v]
  {
    var p := Lookup(s, t, k).value;
    var s2 := Filled(s, p, k, v);
    WriteKeepsLookup(s, t, p, v, k);
    MapOfIsLookup(s2, t, k);
    forall k' | k' != k
      ensures (k' in MapOf(s2, t) <==> k' in MapOf(s, t)) && (k' in MapOf(s, t) ==> MapOf(s2, t)[k'] == MapOf(s, t)[k'])
    {
      WriteKeepsLookup(s, t, p, v, k');
      MapOfIsLookup(s, t, k');
      MapOfIsLookup(s2, t, k');
    }
    assert MapOf(s2, t) == MapOf(s, t)[k := v];
  }

  /** insert_or_assign on a live key: overwriting the value in the slot the insert loop
      stopped at leaves everything but the map's value for k unchanged. */
  lemma OverwriteOccupied<V>(s: seq<Slot<V>>, t: seq<bool>, k: int, v: V)
    requires 0 < |s| == |t| && Reachable(s, t)
    requires InsertFrom(s, t, k, 0).Occupied?
    ensures var p := InsertFrom(s, t, k, 0).x;
            && Reachable(Filled(s, p, k, v), t)
            && CountLive(Filled(s, p, k, v), t) == CountLive(s, t)
            && (KeysUnique(s, t) ==> KeysUnique(Filled(s, p, k, v), t))
            && Lookup(Filled(s, p, k, v), t, k) == Some(p)
            && MapOf(Filled(s, p, k, v), t) == MapOf(s, t)[k := v]
            && k in MapOf(s, t)
  {
    var p := InsertFrom(s, t, k, 0).x;
    OccupiedIsFound(s, t, k, 0);
    MapOfIsLookup(s, t, k);
    WriteKeepsShape(s, t, p, v);
    WriteFound(s, t, k, v);
  }

  /** erase on a found key: tombstoning the slot the lookup found keeps the table
      reachable, lowers the live count by one, and changes no other key's lookup. With
      unique keys the key is then gone from the map. */
  lemma TombstoneFound<V>(s: seq<Slot<V>>, t: seq<bool>, k: int)
    requires 0 < |s| == |t| && Reachable(s, t)
    requires Lookup(s, t, k).Some?
    ensures var t2 := t[Lookup(s, t, k).value := true];
            && Reachable(s, t2)
            && CountLive(s, t2) + 1 == CountLive(s, t)
            && (forall k' :: k' != k ==> Lookup(s, t2, k') == Lookup(s, t, k'))
            && MapOf(s, t2) - {k} == MapOf(s, t) - {k}
            && (KeysUnique(s, t) ==> KeysUnique(s, t2) && MapOf(s, t2) == MapOf(s, t) - {k})
  {
    var p := Lookup(s, t, k).value;
    var t2 := t[p := true];
    forall i | 0 <= i < |s| && Live(s, t2, i) ensures ReachableFrom(s, s[i].value.key, i, 0) {
      assert Live(s, t, i);
    }
    CountAfterUpdate(s, t, s, t2, p, 0);
    forall k' | k' != k ensures Lookup(s, t2, k') == Lookup(s, t, k') {
      FindAgrees(s, t, s, t2, k', 0);
    }
    SameLookupsSameMap(s, t, t2, k);
    if KeysUnique(s, t) {
      TombstoneKeepsUnique(s, t, p);
      assert k !in MapOf(s, t2) by {
        MapOfIsLookup(s, t2, k);
      }
    }
  }

  /** Two flag vectors under which every key but k has the same lookup give maps that
      agree away from k. */
  lemma SameLookupsSameMap<V>(s: seq<Slot<V>>, t: seq<bool>, t2: seq<bool>, k: int)
    requires 0 < |s| == |t| == |t2|
    requires forall k' :: k' != k ==> Lookup(s, t2, k') == Lookup(s, t, k')
    ensures MapOf(s, t2) - {k} == MapOf(s, t) - {k}
  {
    forall k' | k' != k ensures (k' in MapOf(s, t2) <==> k' in MapOf(s, t)) && (k' in MapOf(s, t) ==> MapOf(s, t2)[k'] == MapOf(s, t)[k']) {
      MapOfIsLookup(s, t, k');
      MapOfIsLookup(s, t2, k');
    }
  }

  /** Tombstoning a slot keeps keys unique: it only removes a live entry. */
  lemma TombstoneKeepsUnique<V>(s: seq<Slot<V>>, t: seq<bool>, p: nat)
    requires |s| == |t| && p < |s| && KeysUnique(s, t)
    ensures KeysUnique(s, t[p := true])
  {
    var t2 := t[p := true];
    forall i, j | 0 <= i < |s| && 0 <= j < |s| && Live(s, t2, i) && Live(s, t2, j) && s[i].value.key == s[j].value.key
      ensures i == j
    {
      assert Live(s, t, i) && Live(s, t, j);
    }
  }

  // ---------------------------------------------------------------------------
  // Lemmas for the rebuild done by rehash

  /** A table of null slots and clear flags: what rehash and clear start from. */
  lemma EmptyTable<V>(s: seq<Slot<V>>, t: seq<bool>)
    requires |s| == |t|
    requires forall i :: 0 <= i < |s| ==> s[i].None?
    ensures Reachable(s, t) && KeysUnique(s, t) && CountLive(s, t) == 0
    ensures LiveKeys(s, t) == {} && LiveEntries(s, t) == {} && MapOf(s, t) == map[]
  {
    CountZeroIff(s, t, 0);
    MapOfLive(s, t);
  }

  /** Extending the index bound by one adds the key and entry of that slot if it is live. */
  lemma BelowStep<V>(s: seq<Slot<V>>, t: seq<bool>, m: nat)
    requires |s| == |t| && m < |s|
    ensures KeysBelow(s, t, m + 1) == KeysBelow(s, t, m) + (if Live(s, t, m) then {s[m].value.key} else {})
    ensures EntriesBelow(s, t, m + 1) == EntriesBelow(s, t, m) + (if Live(s, t, m) then {s[m].value} else {})
  {
  }

  /** A key is among the non-null keys below m exactly when some non-null slot below
      m holds it. */
  lemma {:induction false} NonNullKeysBelowHolds<V>(s: seq<Slot<V>>, m: nat, k: int)
    requires m <= |s|
    ensures k in NonNullKeysBelow(s, m) <==> exists i :: 0 <= i < m && s[i].Some? && s[i].value.key == k
  {
    if m > 0 {
      NonNullKeysBelowHolds(s, m - 1, k);
      if s[m - 1].Some? && s[m - 1].value.key == k {
        assert 0 <= m - 1 < m && s[m - 1].Some? && s[m - 1].value.key == k;
      }
    }
  }
}
