/** `fefu::hash_map<int, V>`: an open-addressing table of SIZE slots with a parallel
    array of tombstone flags and a counter of live entries (NOT_NULL_SIZE). Every
    loop of the source is a method here, proved to compute the specification
    functions of module Slots; what those functions mean is proved in Slots. */
module HashMaps {
  import opened Hashing
  import opened Slots
  import opened Iterators

  /** The exception `at` throws for a missing key (std::out_of_range). */
  datatype Error = KeyNotFound

  datatype Result<T> = Ok(value: T) | Err(error: Error)

  /** SIZE of a default-constructed or cleared map. */
  const DefaultCapacity: nat := 37

  /** The capacity an insertion first rehashes a zero-capacity map to. */
  const FirstCapacity: nat := 32

  /** The two load tests in front of the insertions. The overload of insert taking an
      rvalue pair (also used by operator[] and merge) divides as floats; the overload
      taking a const pair and both insert_or_assign overloads divide as integers. */
  datatype LoadTest = FloatRatio | IntegerRatio

  /** NOT_NULL_SIZE / SIZE >= 0.7 under the given division; the float quotient is
      compared exactly (see README). Under either division a full table passes the
      test and an empty one does not. */
  function AtLimit(test: LoadTest, count: nat, size: nat): (r: bool)
    requires size > 0
    ensures count >= size ==> r
    ensures r ==> count > 0
  {
    match test
    case FloatRatio => count * 10 >= 7 * size
    case IntegerRatio => count / size >= 1
  }

  /** The integer load test fires only once every slot is live, and then the float
      one has fired too: the const-pair insert and insert_or_assign let the table
      fill completely before growing. */
  lemma IntegerLimitIsFull(count: nat, size: nat)
    requires size > 0
    ensures AtLimit(IntegerRatio, count, size) <==> count >= size
    ensures AtLimit(IntegerRatio, count, size) ==> AtLimit(FloatRatio, count, size)
  {
    var q := count / size;
    assert count == q * size + count % size;
    if q >= 1 {
      MulAtLeast(q, size);
    } else {
      assert q == 0;
    }
  }

  /** SIZE after the growth step in front of every insertion: a zero-capacity map
      first becomes FirstCapacity slots, and a map whose load test fires doubles. */
  function GrownCapacity(size: nat, count: nat, test: LoadTest): (r: nat)
    requires size == 0 ==> count == 0
    ensures r > 0 && r >= size
    ensures count <= size ==> !AtLimit(test, count, r)
    ensures size > 0 && !AtLimit(test, count, size) ==> r == size
  {
    if size == 0 then FirstCapacity
    else if AtLimit(test, count, size) then 2 * size
    else size
  }

  /** A default map of 37 slots keeps its size through the rvalue insert while at most
      25 entries are live (25 / 37 is below 0.7) and doubles once 26 are. */
  lemma DefaultGrowthPoint(count: nat)
    ensures count <= 25 ==> GrownCapacity(DefaultCapacity, count, FloatRatio) == DefaultCapacity
    ensures count >= 26 ==> GrownCapacity(DefaultCapacity, count, FloatRatio) == 2 * DefaultCapacity
  {
  }

  /** In a reachable table the live count is zero exactly when the map has no key,
      so empty() answers for the map. */
  lemma EmptyIffNoKeys<V>(s: seq<Slot<V>>, t: seq<bool>)
    requires |s| == |t| && Reachable(s, t)
    ensures CountLive(s, t) == 0 <==> MapOf(s, t) == map[]
  {
    CountZeroIff(s, t, 0);
    MapOfLive(s, t);
    if CountLive(s, t) != 0 {
      var i :| 0 <= i < |s| && Live(s, t, i);
      assert s[i].value.key in LiveKeys(s, t);
    }
  }

  class HashMap<V> {
    /** `table`: SIZE slots, each null or owning an entry; SIZE is its length. */
    var table: array<Slot<V>>
    /** `deleted`: the tombstone flag of each slot. */
    var deleted: array<bool>
    /** NOT_NULL_SIZE. */
    var liveCount: nat

    /** The invariant every operation keeps: one flag per slot, every live entry
      reachable along its key's probe path, and the counter equal to the number of
      live slots. Unique keys are not part of it: insert can break them. */
    ghost predicate Valid()
      reads this, table, deleted
    {
      table.Length == deleted.Length &&
      Reachable(table[..], deleted[..]) &&
      liveCount == CountLive(table[..], deleted[..])
    }

    /** The map the table stands for: what find reports for each key. */
    ghost function Contents(): map<int, V>
      reads this, table, deleted
      requires table.Length == deleted.Length
    {
      MapOf(table[..], deleted[..])
    }

    /** At most one live slot per key. */
    ghost predicate Unique()
      reads this, table, deleted
      requires table.Length == deleted.Length
    {
      KeysUnique(table[..], deleted[..])
    }

    /** hash_map(): DefaultCapacity null slots, no tombstones. */
    constructor ()
      ensures Valid() && fresh(table) && fresh(deleted)
      ensures table.Length == DefaultCapacity && liveCount == 0
      ensures forall i :: 0 <= i < table.Length ==> table[i].None? && !deleted[i]
      ensures Contents() == map[] && Unique()
    {
      table := new Slot<V>[DefaultCapacity](_ => None);
      deleted := new bool[DefaultCapacity](_ => false);
      liveCount := 0;
      new;
      EmptyTable(table[..], deleted[..]);
    }

    /** hash_map(n): n null slots, no tombstones. */
    constructor WithCapacity(n: nat)
      ensures Valid() && fresh(table) && fresh(deleted)
      ensures table.Length == n && liveCount == 0
      ensures forall i :: 0 <= i < table.Length ==> table[i].None? && !deleted[i]
      ensures Contents() == map[] && Unique()
    {
      table := new Slot<V>[n](_ => None);
      deleted := new bool[n](_ => false);
      liveCount := 0;
      new;
      EmptyTable(table[..], deleted[..]);
    }

    /** size(): the counter, which is the number of live slots. */
    function Size(): (r: nat)
      reads this, table, deleted
      requires Valid()
      ensures r == CountLive(table[..], deleted[..])
      ensures r <= table.Length
      ensures Unique() ==> r == |Contents().Keys|
    {
      CountBounded(table[..], deleted[..], 0);
      MapOfLive(table[..], deleted[..]);
      UniqueSize(table[..], deleted[..]);
      liveCount
    }

    /** empty(): the counter is zero, which happens exactly when no key is present. */
    function Empty(): (r: bool)
      reads this, table, deleted
      requires Valid()
      ensures r <==> Contents() == map[]
      ensures r <==> forall i :: 0 <= i < table.Length ==> !Live(table[..], deleted[..], i)
    {
      EmptyIffNoKeys(table[..], deleted[..]);
      CountZeroIff(table[..], deleted[..], 0);
      liveCount == 0
    }

    /** max_size(): SIZE, which bounds the number of entries. */
    function MaxSize(): (r: nat)
      reads this, table, deleted
      requires Valid()
      ensures r == table.Length && Size() <= r
    {
      table.Length
    }

    // -------------------------------------------------------------------------
    // The probe loops

    /** find_value_helper: the slot of the first live entry with key k on k's probe
      path, stopping at a null slot or after SIZE - 1 slots. */
    method Locate(k: int) returns (r: Option<nat>)
      requires 0 < table.Length == deleted.Length
      ensures r == Lookup(table[..], deleted[..], k)
      ensures r.Some? <==> k in Contents()
      ensures r.Some? ==> r.value < table.Length && table[r.value] == Some(Entry(k, Contents()[k]))
    {
      MapOfIsLookup(table[..], deleted[..], k);
      var n := table.Length;
      var x := FirstKeyHash(k, n);
      var y := SecondKeyHash(k, n);
      var i := 1;
      while i < n
        invariant 1 <= i <= n
        invariant x == ProbeAt(k, n, i - 1)
        invariant FindFrom(table[..], deleted[..], k, i - 1) == Lookup(table[..], deleted[..], k)
      {
        if table[x].Some? {
          if table[x].value.key == k && !deleted[x] {
            return Some(x);
          }
        } else {
          return None;
        }
        x := (x + i * y) % n;
        i := i + 1;
      }
      return None;
    }

    /** contains: the same loop as find, reporting only whether it found the key. */
    method Contains(k: int) returns (b: bool)
      requires 0 < table.Length == deleted.Length
      ensures b == Lookup(table[..], deleted[..], k).Some?
      ensures b <==> k in Contents()
    {
      MapOfIsLookup(table[..], deleted[..], k);
      var n := table.Length;
      var x := FirstKeyHash(k, n);
      var y := SecondKeyHash(k, n);
      var i := 1;
      while i < n
        invariant 1 <= i <= n
        invariant x == ProbeAt(k, n, i - 1)
        invariant FindFrom(table[..], deleted[..], k, i - 1) == Lookup(table[..], deleted[..], k)
      {
        if table[x].Some? {
          if table[x].value.key == k && !deleted[x] {
            return true;
          }
        } else {
          return false;
        }
        x := (x + i * y) % n;
        i := i + 1;
      }
      return false;
    }

    /** count: 1 when contains reports the key, else 0. */
    method Count(k: int) returns (r: nat)
      requires 0 < table.Length == deleted.Length
      ensures r == if k in Contents() then 1 else 0
    {
      var b := Contains(k);
      r := if b then 1 else 0;
    }

    /** at: the value of k, or out_of_range when contains does not report k. */
    method At(k: int) returns (r: Result<V>)
      requires 0 < table.Length == deleted.Length
      ensures r == if k in Contents() then Ok(Contents()[k]) else Err(KeyNotFound)
    {
      var b := Contains(k);
      if b {
        var p := Locate(k);
        r := Ok(table[p.value].value.value);
      } else {
        r := Err(KeyNotFound);
      }
    }

    /** The loop shared by insert_value_helper and insert_or_assign_value_helper: it
      stops at the first null or tombstoned slot on k's path, or at a live slot
      holding k, or gives up after SIZE - 1 slots (where the source falls off the end
      of a non-void function). */
    method ProbeInsert(k: int) returns (r: Probe)
      requires 0 < table.Length == deleted.Length
      ensures r == InsertFrom(table[..], deleted[..], k, 0)
      ensures r.Vacant? ==> r.x < table.Length && (table[r.x].None? || deleted[r.x])
      ensures r.Occupied? ==> r.x < table.Length && Lookup(table[..], deleted[..], k) == Some(r.x)
      ensures r.Occupied? ==> k in Contents()
    {
      var n := table.Length;
      var x := FirstKeyHash(k, n);
      var y := SecondKeyHash(k, n);
      var i := 1;
      while i < n
        invariant 1 <= i <= n
        invariant x == ProbeAt(k, n, i - 1)
        invariant InsertFrom(table[..], deleted[..], k, i - 1) == InsertFrom(table[..], deleted[..], k, 0)
      {
        if table[x].None? || deleted[x] {
          return Vacant(x);
        } else if table[x].value.key == k {
          OccupiedIsFound(table[..], deleted[..], k, 0);
          MapOfIsLookup(table[..], deleted[..], k);
          return Occupied(x);
        }
        x := (x + i * y) % n;
        i := i + 1;
      }
      return Exhausted;
    }

    /** insert_value_helper: run the insert loop and fill the slot it chose with
      (k, v); a live slot holding k is left alone. */
    method InsertValue(k: int, v: V) returns (r: Probe)
      requires Valid() && table.Length > 0
      modifies this`liveCount, table, deleted
      ensures Valid()
      ensures r == InsertFrom(old(table[..]), old(deleted[..]), k, 0)
      ensures r.Vacant? ==>
                table[..] == Filled(old(table[..]), r.x, k, v) &&
                deleted[..] == old(deleted[..])[r.x := false] &&
                liveCount == old(liveCount) + 1
      ensures !r.Vacant? ==>
                table[..] == old(table[..]) && deleted[..] == old(deleted[..]) && liveCount == old(liveCount)
      ensures !r.Exhausted? ==> r.x < table.Length && Lookup(table[..], deleted[..], k) == Some(r.x)
      ensures !r.Exhausted? ==> Contents().Keys == old(Contents().Keys) + {k}
      ensures r.Vacant? ==> Contents() == old(Contents())[k := v]
      ensures r.Vacant? ==> LiveKeys(table[..], deleted[..]) == old(LiveKeys(table[..], deleted[..])) + {k}
      ensures r.Vacant? ==> LiveEntries(table[..], deleted[..]) == old(LiveEntries(table[..], deleted[..])) + {Entry(k, v)}
      ensures r.Occupied? ==> k in old(Contents()) && k in old(LiveKeys(table[..], deleted[..]))
      ensures old(Unique()) && k !in old(Contents()) ==> Unique()
    {
      ghost var s, t := table[..], deleted[..];
      MapOfLive(s, t);
      r := ProbeInsert(k);
      if r.Vacant? {
        FillVacantShape(s, t, k, v);
        FillVacantKeys(s, t, k, v);
        FillVacantMap(s, t, k, v);
        table[r.x] := Some(Entry(k, v));
        deleted[r.x] := false;
        liveCount := liveCount + 1;
        assert table[..] == Filled(s, r.x, k, v) && deleted[..] == t[r.x := false];
      } else if r.Occupied? {
        assert MapOf(s, t).Keys + {k} == MapOf(s, t).Keys;
      }
    }

    /** insert_or_assign_value_helper: run the insert loop and write (k, v) into the
      slot it stopped at, whether that slot was vacant or held k. */
    method InsertOrAssignValue(k: int, v: V) returns (r: Probe)
      requires Valid() && table.Length > 0
      modifies this`liveCount, table, deleted
      ensures Valid()
      ensures r == InsertFrom(old(table[..]), old(deleted[..]), k, 0)
      ensures !r.Exhausted? ==> table[..] == Filled(old(table[..]), r.x, k, v)
      ensures r.Vacant? ==> deleted[..] == old(deleted[..])[r.x := false] && liveCount == old(liveCount) + 1
      ensures !r.Vacant? ==> deleted[..] == old(deleted[..]) && liveCount == old(liveCount)
      ensures r.Exhausted? ==> table[..] == old(table[..])
      ensures !r.Exhausted? ==> r.x < table.Length && Lookup(table[..], deleted[..], k) == Some(r.x)
      ensures !r.Exhausted? ==> Contents() == old(Contents())[k := v]
      ensures !r.Exhausted? ==> Contents().Keys == old(Contents().Keys) + {k}
      ensures r.Occupied? ==> k in old(Contents())
      ensures old(Unique()) && (k !in old(Contents()) || r.Occupied?) ==> Unique()
    {
      ghost var s, t := table[..], deleted[..];
      MapOfLive(s, t);
      r := ProbeInsert(k);
      if r.Vacant? {
        FillVacantShape(s, t, k, v);
        FillVacantKeys(s, t, k, v);
        FillVacantMap(s, t, k, v);
        table[r.x] := Some(Entry(k, v));
        deleted[r.x] := false;
        liveCount := liveCount + 1;
        assert table[..] == Filled(s, r.x, k, v) && deleted[..] == t[r.x := false];
      } else if r.Occupied? {
        OverwriteOccupied(s, t, k, v);
        table[r.x] := Some(Entry(k, v));
        assert table[..] == Filled(s, r.x, k, v);
        assert MapOf(s, t).Keys + {k} == MapOf(s, t).Keys;
      }
    }

    // -------------------------------------------------------------------------
    // Growth

    /** The insert call inside rehash, on the rebuilt table, which has no tombstones:
      the entry is placed unless its key is already live, so keys stay unique. */
    method Reinsert(e: Entry<V>) returns (placed: bool)
      requires Valid() && table.Length > 0 && NoTombs(deleted[..]) && Unique()
      modifies this`liveCount, table, deleted
      ensures Valid() && NoTombs(deleted[..]) && Unique()
      ensures LiveEntries(table[..], deleted[..]) <= old(LiveEntries(table[..], deleted[..])) + {e}
      ensures placed ==> LiveKeys(table[..], deleted[..]) == old(LiveKeys(table[..], deleted[..])) + {e.key}
      ensures !placed ==> table[..] == old(table[..]) && deleted[..] == old(deleted[..])
    {
      ghost var s1, t1 := table[..], deleted[..];
      MapOfLive(s1, t1);
      var r := InsertValue(e.key, e.value);
      if r.Vacant? {
        VacantMeansAbsent(s1, t1, e.key);
      }
      placed := !r.Exhausted?;
    }

    /** rehash(n): a fresh table of n null slots and clear flags, into which every
      live entry of the old table is inserted in slot order. Tombstoned entries are
      dropped, and so are the copies of a key already reinserted. */
    method Rehash(n: nat) returns (ok: bool)
      requires Valid() && n > 0
      modifies this
      ensures Valid() && fresh(table) && fresh(deleted)
      ensures table.Length == n && NoTombs(deleted[..]) && Unique()
      ensures LiveEntries(table[..], deleted[..]) <= old(LiveEntries(table[..], deleted[..]))
      ensures ok ==> LiveKeys(table[..], deleted[..]) == old(LiveKeys(table[..], deleted[..]))
      ensures ok ==> Contents().Keys == old(Contents().Keys)
      ensures ok && old(Unique()) ==> Contents() == old(Contents())
    {
      var s0, t0 := table[..], deleted[..];
      table := new Slot<V>[n](_ => None);
      deleted := new bool[n](_ => false);
      liveCount := 0;
      EmptyTable(table[..], deleted[..]);
      ok := true;
      var i := 0;
      while i < |s0|
        invariant 0 <= i <= |s0| == |t0|
        invariant fresh(table) && fresh(deleted) && table.Length == n
        invariant Valid() && NoTombs(deleted[..]) && Unique()
        invariant LiveEntries(table[..], deleted[..]) <= EntriesBelow(s0, t0, i)
        invariant ok ==> LiveKeys(table[..], deleted[..]) == KeysBelow(s0, t0, i)
      {
        BelowStep(s0, t0, i);
        if s0[i].Some? && !t0[i] {
          var placed := Reinsert(s0[i].value);
          if !placed {
            ok := false;
          }
        }
        i := i + 1;
      }
      MapOfLive(s0, t0);
      MapOfLive(table[..], deleted[..]);
      if ok && KeysUnique(s0, t0) {
        SameMap(s0, t0, table[..], deleted[..]);
      }
    }

    /** The growth step in front of every insertion: rehash(32) when SIZE is 0, then
      rehash(2 * SIZE) when the load test fires. */
    method Grow(test: LoadTest) returns (ok: bool)
      requires Valid()
      modifies this
      ensures Valid()
      ensures table.Length == GrownCapacity(old(table.Length), old(liveCount), test)
      ensures (ok && table == old(table) && deleted == old(deleted) && liveCount == old(liveCount))
           || (fresh(table) && fresh(deleted) && Unique())
      ensures old(table.Length) > 0 && !AtLimit(test, old(liveCount), old(table.Length)) ==>
                ok && table == old(table) && deleted == old(deleted)
      ensures ok ==> Contents().Keys == old(Contents().Keys)
      ensures ok && old(Unique()) ==> Contents() == old(Contents())
      ensures old(Unique()) ==> Unique()
    {
      ok := true;
      if table.Length == 0 {
        ok := Rehash(FirstCapacity);
      } else if AtLimit(test, liveCount, table.Length) {
        ok := Rehash(2 * table.Length);
      }
    }

    // -------------------------------------------------------------------------
    // Insertion

    /** insert: grow, then run the insert loop. The load test depends on the
      overload (see LoadTest). With unique keys the map gains k -> v when k was
      absent and is unchanged when it was present; in any case the key set gains k. */
    method Insert(k: int, v: V, test: LoadTest) returns (r: Probe)
      requires Valid()
      modifies this, table, deleted
      ensures Valid()
      ensures table.Length == GrownCapacity(old(table.Length), old(liveCount), test)
      ensures fresh(table) || table == old(table)
      ensures fresh(deleted) || deleted == old(deleted)
      ensures old(table.Length) > 0 && !AtLimit(test, old(liveCount), old(table.Length)) ==> table == old(table) && r == InsertFrom(old(table[..]), old(deleted[..]), k, 0)
      ensures !r.Exhausted? ==> r.x < table.Length && Lookup(table[..], deleted[..], k) == Some(r.x)
      ensures !r.Exhausted? ==> Contents().Keys == old(Contents().Keys) + {k}
      ensures r.Vacant? ==> Contents()[k] == v
      ensures r.Occupied? ==> k in old(Contents())
      ensures old(Unique()) && r.Vacant? ==> Contents() == old(Contents())[k := v]
      ensures old(Unique()) && r.Occupied? ==> Contents() == old(Contents())
      ensures old(Unique()) && (k !in old(Contents()) || r.Occupied?) ==> Unique()
    {
      var grown := Grow(test);
      if !grown {
        return Exhausted;
      }
      r := InsertValue(k, v);
    }

    /** insert_or_assign: grow under the integer load test, then run the insert loop,
      overwriting the value of a live slot holding k. */
    method InsertOrAssign(k: int, v: V) returns (r: Probe)
      requires Valid()
      modifies this, table, deleted
      ensures Valid()
      ensures table.Length == GrownCapacity(old(table.Length), old(liveCount), IntegerRatio)
      ensures old(table.Length) > 0 && !AtLimit(IntegerRatio, old(liveCount), old(table.Length)) ==>
                table == old(table) && r == InsertFrom(old(table[..]), old(deleted[..]), k, 0)
      ensures !r.Exhausted? ==> r.x < table.Length && Lookup(table[..], deleted[..], k) == Some(r.x)
      ensures !r.Exhausted? ==> Contents().Keys == old(Contents().Keys) + {k} && Contents()[k] == v
      ensures r.Occupied? ==> k in old(Contents())
      ensures old(Unique()) && !r.Exhausted? ==> Contents() == old(Contents())[k := v]
      ensures old(Unique()) && (k !in old(Contents()) || r.Occupied?) ==> Unique()
    {
      ghost var m0, u0 := Contents(), Unique();
      var grown := Grow(IntegerRatio);
      if !grown {
        return Exhausted;
      }
      ghost var m1 := Contents();
      assert m1.Keys == m0.Keys && (u0 ==> m1 == m0 && Unique());
      r := InsertOrAssignValue(k, v);
      ghost var m2 := Contents();
      assert !r.Exhausted? ==> m2.Keys == m0.Keys + {k} && m2[k] == v;
      assert r.Occupied? ==> k in m0;
    }

    /** operator[] through operator_helper: the slot of k when contains reports it,
      otherwise the slot where insert placed (k, zero); `zero` is the mapped value the
      source builds from the literal 0. */
    method Subscript(k: int, zero: V) returns (r: Option<nat>)
      requires Valid() && table.Length > 0
      modifies this, table, deleted
      ensures Valid()
      ensures r.Some? ==> r.value < table.Length && Lookup(table[..], deleted[..], k) == r
      ensures k in old(Contents()) ==> r.Some? && unchanged(this) && unchanged(table) && unchanged(deleted)
      ensures k !in old(Contents()) && r.Some? ==> Contents().Keys == old(Contents().Keys) + {k} && Contents()[k] == zero
      ensures k !in old(Contents()) && r.Some? && old(Unique()) ==> Contents() == old(Contents())[k := zero] && Unique()
    {
      var present := Contains(k);
      if present {
        r := Locate(k);
      } else {
        var p := Insert(k, zero, FloatRatio);
        r := if p.Exhausted? then None else Some(p.x);
      }
    }

    /** Assignment through the reference returned by operator[], at or an iterator:
      the value of slot x is replaced and its key kept. */
    method WriteValue(x: nat, v: V)
      requires Valid() && x < table.Length && table[x].Some?
      modifies table
      ensures Valid()
      ensures table[..] == Filled(old(table[..]), x, old(table[x].value.key), v)
      ensures old(Lookup(table[..], deleted[..], table[x].value.key)) == Some(x) ==>
                Contents() == old(Contents())[table[x].value.key := v]
      ensures old(Unique()) ==> Unique()
    {
      var k := table[x].value.key;
      WriteKeepsShape(table[..], deleted[..], x, v);
      if Lookup(table[..], deleted[..], k) == Some(x) {
        WriteFound(table[..], deleted[..], k, v);
      }
      ghost var s2 := Filled(table[..], x, k, v);
      table[x] := Some(Entry(k, v));
      assert table[..] == s2;
    }

    // -------------------------------------------------------------------------
    // Erasure

    /** erase(key): the lookup loop, tombstoning the slot it finds. */
    method Erase(k: int) returns (r: nat)
      requires Valid() && table.Length > 0
      modifies this`liveCount, deleted
      ensures Valid()
      ensures r == if k in old(Contents()) then 1 else 0
      ensures r == 1 ==>
                deleted[..] == old(deleted[..])[old(Lookup(table[..], deleted[..], k)).value := true] &&
                liveCount + 1 == old(liveCount)
      ensures r == 0 ==> deleted[..] == old(deleted[..]) && liveCount == old(liveCount)
      ensures forall k' :: k' != k ==> Lookup(table[..], deleted[..], k') == old(Lookup(table[..], deleted[..], k'))
      ensures Contents() - {k} == old(Contents()) - {k}
      ensures old(Unique()) ==> Unique() && k !in Contents()
    {
      ghost var s, t := table[..], deleted[..];
      MapOfIsLookup(s, t, k);
      var n := table.Length;
      var x := FirstKeyHash(k, n);
      var y := SecondKeyHash(k, n);
      var i := 1;
      while i < n
        invariant 1 <= i <= n
        invariant x == ProbeAt(k, n, i - 1)
        invariant FindFrom(s, t, k, i - 1) == Lookup(s, t, k)
        invariant table[..] == s && deleted[..] == t
      {
        if table[x].Some? {
          if table[x].value.key == k && !deleted[x] {
            TombstoneFound(s, t, k);
            deleted[x] := true;
            liveCount := liveCount - 1;
            return 1;
          }
        } else {
          return 0;
        }
        x := (x + i * y) % n;
        i := i + 1;
      }
      return 0;
    }

    /** erase(position): erase the key of the entry the iterator points at and hand
      back a copy of the iterator. */
    method EraseAt(position: Iterator<V>) returns (next: Iterator<V>)
      requires Valid() && table.Length > 0 && position.Valid()
      requires position.table == table && position.index < table.Length && table[position.index].Some?
      modifies this`liveCount, deleted
      ensures Valid() && fresh(next)
      ensures next.table == position.table && next.snapshot == position.snapshot && next.index == position.index
      ensures var key := table[position.index].value.key;
              Contents() - {key} == old(Contents()) - {key}
              && (old(Unique()) ==> Unique() && key !in Contents())
    {
      var key := table[position.index].value.key;
      var r := Erase(key);
      next := new Iterator.Copy(position);
    }

    /** clear: a fresh table of DefaultCapacity null slots and a zero counter. */
    method Clear()
      modifies this
      ensures Valid() && fresh(table) && fresh(deleted)
      ensures table.Length == DefaultCapacity && liveCount == 0
      ensures forall i :: 0 <= i < table.Length ==> table[i].None? && !deleted[i]
      ensures Contents() == map[] && Unique()
    {
      table := new Slot<V>[DefaultCapacity](_ => None);
      deleted := new bool[DefaultCapacity](_ => false);
      liveCount := 0;
      EmptyTable(table[..], deleted[..]);
    }

    /** swap: exchange the tables, the flags and the counters. */
    method Swap(other: HashMap<V>)
      requires Valid() && other.Valid()
      modifies this, other
      ensures table == old(other.table) && deleted == old(other.deleted) && liveCount == old(other.liveCount)
      ensures other.table == old(table) && other.deleted == old(deleted) && other.liveCount == old(liveCount)
      ensures Valid() && other.Valid()
      ensures Contents() == old(other.Contents()) && other.Contents() == old(Contents())
    {
      var t, d, c := table, deleted, liveCount;
      table := other.table;
      deleted := other.deleted;
      liveCount := other.liveCount;
      other.table := t;
      other.deleted := d;
      other.liveCount := c;
    }

    /** The insert call in merge's loop: the rvalue insert of one source entry, with
      only what merge needs of its contract. */
    method MergeEntry(e: Entry<V>) returns (placed: bool)
      requires Valid()
      modifies this, table, deleted
      ensures Valid() && table.Length >= old(table.Length)
      ensures fresh(table) || table == old(table)
      ensures fresh(deleted) || deleted == old(deleted)
      ensures placed ==> Contents().Keys == old(Contents().Keys) + {e.key}
    {
      var r := Insert(e.key, e.value, FloatRatio);
      placed := !r.Exhausted?;
    }

    /** merge(source): grow to the source's SIZE if it is larger, then insert, in slot
      order, every non-null slot of the source, tombstoned or not. */
    method Merge(source: HashMap<V>) returns (ok: bool)
      requires Valid() && source.Valid()
      requires source != this && source.table != table
      modifies this, table, deleted
      ensures Valid()
      ensures table.Length >= old(source.table.Length)
      ensures ok ==> Contents().Keys == old(Contents().Keys) + NonNullKeysBelow(old(source.table[..]), old(source.table.Length))
    {
      ghost var keys0, src := Contents().Keys, source.table[..];
      ok := true;
      var n := source.table.Length;
      if n > table.Length {
        ok := Rehash(n);
      }
      var i := 0;
      while i < n
        invariant 0 <= i <= n == source.table.Length == |src|
        invariant Valid() && table.Length >= n
        invariant fresh(table) || table == old(table)
        invariant fresh(deleted) || deleted == old(deleted)
        invariant source.table[..] == src
        invariant ok ==> Contents().Keys == keys0 + NonNullKeysBelow(src, i)
      {
        ghost var below := NonNullKeysBelow(src, i);
        if source.table[i].Some? {
          ghost var before := Contents().Keys;
          var placed := MergeEntry(source.table[i].value);
          if !placed {
            ok := false;
          } else {
            assert Contents().Keys == before + {src[i].value.key};
          }
        }
        i := i + 1;
      }
    }

    // -------------------------------------------------------------------------
    // Iterators

    /** find: an iterator at the slot the lookup finds, or end(); dereferencing it
      gives the key with its value in the map. */
    method Find(k: int) returns (it: Iterator<V>)
      requires 0 < table.Length == deleted.Length
      ensures fresh(it) && it.Valid() && it.table == table && it.snapshot == deleted[..]
      ensures it.index == match Lookup(table[..], deleted[..], k)
                          case Some(p) => p
                          case None => table.Length
      ensures it.index < table.Length <==> k in Contents()
      ensures it.index < table.Length ==>
                k in Contents() && table[it.index] == Some(Entry(k, Contents()[k])) &&
                it.Current() == Entry(k, Contents()[k])
    {
      var r := Locate(k);
      if r.Some? {
        it := new Iterator(table, deleted[..], r.value);
      } else {
        it := End();
      }
    }

    /** begin: an iterator at the first live slot, or end(). */
    method Begin() returns (it: Iterator<V>)
      requires table.Length == deleted.Length
      ensures fresh(it) && it.Valid() && it.table == table && it.snapshot == deleted[..]
      ensures it.index == Scan(table[..], deleted[..], 0)
    {
      var i := 0;
      while i < table.Length
        invariant 0 <= i <= table.Length
        invariant Scan(table[..], deleted[..], i) == Scan(table[..], deleted[..], 0)
      {
        if table[i].Some? && !deleted[i] {
          it := new Iterator(table, deleted[..], i);
          return;
        }
        i := i + 1;
      }
      it := End();
    }

    /** end: an iterator one past the last slot. */
    method End() returns (it: Iterator<V>)
      requires table.Length == deleted.Length
      ensures fresh(it) && it.Valid() && it.table == table && it.snapshot == deleted[..]
      ensures it.index == table.Length
    {
      it := new Iterator(table, deleted[..], table.Length);
    }
  }
}
