/** What the hash_map does that a std::unordered_map would not, each shown on a small
    concrete table of the kind the class produces. */
module Defects {
  import opened Hashing
  import opened Slots

  /** A table of five slots: key 6 erased at slot 1, key 1 live at slot 2. Both keys
      first hash to slot 1 and key 1 steps by 1, so key 1 sits behind the tombstone. */
  function Before(): seq<Slot<char>>
  {
    [None, Some(Entry(6, 'a')), Some(Entry(1, 'b')), None, None]
  }

  function BeforeFlags(): seq<bool>
  {
    [false, true, false, false, false]
  }

  /** The table after inserting (1, 'c') into Before: the insert loop stops at the
      tombstone in slot 1. */
  function After(): seq<Slot<char>>
  {
    [None, Some(Entry(1, 'c')), Some(Entry(1, 'b')), None, None]
  }

  function AfterFlags(): seq<bool>
  {
    [false, false, false, false, false]
  }

  /** Before is a table the class can hold: every live entry is reachable and keys
      are unique. */
  lemma BeforeIsValid()
    ensures Reachable(Before(), BeforeFlags()) && KeysUnique(Before(), BeforeFlags())
    ensures Lookup(Before(), BeforeFlags(), 1) == Some(2)
  {
    var s, t := Before(), BeforeFlags();
    assert ProbeAt(1, 5, 0) == 1 && ProbeAt(1, 5, 1) == 2;
    assert ReachableFrom(s, 1, 2, 0);
    forall i | 0 <= i < |s| && Live(s, t, i) ensures ReachableFrom(s, s[i].value.key, i, 0) {
      assert i == 2;
    }
  }

  /** insert of a key that is already present can add a second live copy: the key is
      live in slot 2, yet the insert loop reports slot 1 vacant and fills it. */
  lemma InsertDuplicatesKey()
    ensures Lookup(Before(), BeforeFlags(), 1).Some?
    ensures InsertFrom(Before(), BeforeFlags(), 1, 0) == Vacant(1)
    ensures After() == Filled(Before(), 1, 1, 'c') && AfterFlags() == BeforeFlags()[1 := false]
    ensures Live(After(), AfterFlags(), 1) && Live(After(), AfterFlags(), 2)
    ensures !KeysUnique(After(), AfterFlags())
  {
    BeforeIsValid();
    assert ProbeAt(1, 5, 0) == 1;
  }

  /** After the duplicating insert, size() counts two entries for one key. */
  lemma SizeCountsDuplicates()
    ensures CountLive(After(), AfterFlags()) == 2
    ensures LiveKeys(After(), AfterFlags()) == {1}
  {
    var s, t := After(), AfterFlags();
    assert Live(s, t, 1) && s[1].value.key == 1;
    assert LiveKeys(s, t) == {1};
  }

  /** erase of the duplicated key tombstones only the first copy: contains and find
      still report the key, now with its older value. */
  lemma EraseLeavesDuplicate()
    ensures Lookup(After(), AfterFlags(), 1) == Some(1)
    ensures var t2 := AfterFlags()[1 := true];
            Lookup(After(), t2, 1) == Some(2) && 1 in MapOf(After(), t2) && MapOf(After(), t2)[1] == 'b'
  {
    var t2 := AfterFlags()[1 := true];
    assert ProbeAt(1, 5, 0) == 1 && ProbeAt(1, 5, 1) == 2;
    MapOfIsLookup(After(), t2, 1);
  }

  /** A key whose step equals the table size never leaves its first slot, so once that
      slot holds another live key the insert loop finds no room, however empty the rest
      of the table is. */
  lemma {:induction false} StalledInsertFails<V>(s: seq<Slot<V>>, t: seq<bool>, k: int, j: nat)
    requires 0 < |s| == |t| && SecondKeyHash(k, |s|) == |s|
    requires Live(s, t, FirstKeyHash(k, |s|)) && s[FirstKeyHash(k, |s|)].value.key != k
    ensures InsertFrom(s, t, k, j) == Exhausted
    decreases |s| - j
  {
    if j + 1 < |s| {
      ProbeStalls(k, |s|, j);
      StalledInsertFails(s, t, k, j + 1);
    }
  }

  /** Every positive key that is a multiple of the table size stalls: once its first
      slot holds another live key, insert fails. */
  lemma MultipleOfSizeStalls<V>(s: seq<Slot<V>>, t: seq<bool>, k: int)
    requires 0 < |s| == |t| && 0 < k < SizeTModulus && k % |s| == 0
    requires Live(s, t, FirstKeyHash(k, |s|)) && s[FirstKeyHash(k, |s|)].value.key != k
    ensures InsertFrom(s, t, k, 0) == Exhausted
  {
    StepIsSizeIff(k, |s|);
    StalledInsertFails(s, t, k, 0);
  }

  /** Key 5 in a table of five slots: with key 0 live in slot 0 and four null slots,
      inserting 5 fails although four slots are free. */
  lemma StallExample<V>(v: V, k: int)
    requires k == 5
    ensures CountLive([Some(Entry(0, v)), None, None, None, None], [false, false, false, false, false]) == 1
    ensures InsertFrom([Some(Entry(0, v)), None, None, None, None], [false, false, false, false, false], k, 0) == Exhausted
  {
    var s, t := [Some(Entry(0, v)), None, None, None, None], [false, false, false, false, false];
    assert AsSize(k) == 5;
    MultipleOfSizeStalls(s, t, k);
    assert CountLiveFrom(s, t, 1) == 0 by {
      assert CountLiveFrom(s, t, 4) == 0;
      assert CountLiveFrom(s, t, 3) == 0;
      assert CountLiveFrom(s, t, 2) == 0;
    }
  }

  /** merge copies every non-null slot of the source, erased ones included: in a
      hash_map(2) into which key 7 was inserted (at slot 1, as 7 % 2 == 1) and then
      erased, key 7 is not in the source map, yet it is among the keys merge inserts. */
  lemma MergeCopiesErased()
    ensures FirstKeyHash(7, 2) == 1
    ensures 7 !in MapOf([None, Some(Entry(7, 'x'))], [false, true])
    ensures 7 in NonNullKeysBelow([None, Some(Entry(7, 'x'))], 2)
  {
    assert AsSize(7) == 7;
    MapOfIsLookup([None, Some(Entry(7, 'x'))], [false, true], 7);
  }
}
