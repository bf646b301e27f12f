/**
 * What hashmap_delete does to the table, and a removal that keeps the
 * insert-only invariant.
 *
 * As written, delete empties the slot the key hashes to without comparing the
 * key stored there and decrements count unconditionally. The lemmas below
 * exhibit the consequences on two keys that collide, "Aa" and "BB" (both
 * hash to slot 2112). RemoveKey is the intended operation: it removes exactly
 * the given key, keeps every other key reachable, and claims one slot less
 * exactly when the key was present.
 */
module Removal {
  import opened Slots

  const Aa: Key := [65, 97]
  const BB: Key := [66, 66]

  /** The table after hashmap_init and a single insert of "Aa": slot 2112 holds it with counter 1. */
  lemma OneEntry()
    ensures Insert(EmptyTable(), Aa) == EmptyTable()[2112 := Entry(Aa, 1)]
    ensures TableInv(Insert(EmptyTable(), Aa))
  {
    HashCollision();
    EmptyTableInv();
    ProbeIs(EmptyTable(), Aa, 0);
    InsertAt(EmptyTable(), Aa, 0);
    InsertCorrect(EmptyTable(), Aa);
  }

  /**
   * Delete never compares the key: deleting "BB", which was never inserted,
   * removes "Aa" from a table that holds only "Aa".
   */
  lemma DeleteIgnoresKey()
    ensures var t := Insert(EmptyTable(), Aa);
      Lookup(t, Aa) == 1 && Lookup(t, BB) == 0 && Lookup(DeleteSlots(t, BB), Aa) == 0
    ensures Lookup(RemoveKey(Insert(EmptyTable(), Aa), BB), Aa) == 1
  {
    HashCollision();
    OneEntry();
    var t := Insert(EmptyTable(), Aa);
    assert Aa[0] != BB[0];
    LookupFinds(t, Aa, 2112);
    LookupMisses(t, BB);
    assert DeleteSlots(t, BB) == EmptyTable();
    EmptyTableInv();
    RemoveKeyCorrect(t, BB);
  }

  /**
   * Delete decrements count unconditionally: on the empty table count wraps
   * to 2^32 - 1 while no slot is occupied.
   */
  lemma DeleteWrapsCount()
    ensures DeleteSlots(EmptyTable(), Aa) == EmptyTable()
    ensures CountAfterDelete(0) == U32 - 1 != Occupied(EmptyTable())
  {
    EmptyTableInv();
    assert DeleteSlots(EmptyTable(), Aa) == EmptyTable();
  }

  /**
   * Emptying a slot cuts the probe run of the keys behind it: after inserting
   * "Aa" then "BB", "BB" sits in slot 2113; deleting "Aa" empties slot 2112,
   * so "BB" looks up as 0 though it is still stored, and inserting "BB" again
   * stores it a second time.
   */
  lemma DeleteBreaksProbeRun()
    ensures var u := Insert(Insert(EmptyTable(), Aa), BB);
      var d := DeleteSlots(u, Aa);
      u[2113] == Entry(BB, 1) && d[2113] == Entry(BB, 1) && Lookup(d, BB) == 0 &&
      !UniqueKeys(Insert(d, BB))
    ensures var u := Insert(Insert(EmptyTable(), Aa), BB);
      var c := RemoveKey(u, Aa);
      Lookup(c, BB) == 1 && UniqueKeys(Insert(c, BB))
  {
    HashCollision();
    OneEntry();
    var t := Insert(EmptyTable(), Aa);
    assert Aa[0] != BB[0];
    assert SlotIndex(Hash(BB), 0) == 2112 && SlotIndex(Hash(BB), 1) == 2113;
    ProbeIs(t, BB, 1);
    InsertAt(t, BB, 1);
    var u := Insert(t, BB);
    var d := DeleteSlots(u, Aa);
    assert d[2112].Empty? && d[2113] == Entry(BB, 1);
    ProbeIs(d, BB, 0);
    InsertAt(d, BB, 0);
    var e := Insert(d, BB);
    assert e[2112] == Entry(BB, 1) && e[2113] == Entry(BB, 1);
    // the intended removal keeps "BB" reachable
    InsertCorrect(t, BB);
    RemoveKeyCorrect(u, Aa);
    var c := RemoveKey(u, Aa);
    ProbeNotFull(c, BB);
    InsertCorrect(c, BB);
  }

  // ---------------------------------------------------------------------------
  // The intended removal
  // ---------------------------------------------------------------------------

  /** A table built from scratch holding the entries of the first n slots of s, except key's. */
  function RebuildFrom(s: seq<Slot>, key: Key, n: nat): (t: seq<Slot>)
    requires |s| == N && n <= N
    ensures |t| == N
  {
    if n == 0 then EmptyTable()
    else
      var t := RebuildFrom(s, key, n - 1);
      if s[n - 1].Entry? && s[n - 1].key != key then Place(t, s[n - 1].key, s[n - 1].value) else t
  }

  /** One more slot of s taken into the rebuild. */
  lemma RebuildNext(s: seq<Slot>, key: Key, n: nat)
    requires |s| == N && n < N
    ensures RebuildFrom(s, key, n + 1) ==
      if s[n].Entry? && s[n].key != key then Place(RebuildFrom(s, key, n), s[n].key, s[n].value)
      else RebuildFrom(s, key, n)
  {
  }

  /** Removing key: the table rebuilt from every other entry. */
  function RemoveKey(s: seq<Slot>, key: Key): (t: seq<Slot>)
    requires |s| == N
    ensures |t| == N
  {
    RebuildFrom(s, key, N)
  }

  /** A slot that does not hold k does not change k's stored counter. */
  lemma StoredBelowStep(s: seq<Slot>, k: Key, n: nat)
    requires UniqueKeys(s) && 0 < n <= |s| && !(s[n - 1].Entry? && s[n - 1].key == k)
    ensures StoredBelow(s, k, n) == StoredBelow(s, k, n - 1)
    ensures PresentBelow(s, k, n) == PresentBelow(s, k, n - 1)
  {
    if PresentBelow(s, k, n - 1) {
      var q :| 0 <= q < n - 1 && s[q].Entry? && s[q].key == k;
      StoredAt(s, q, n);
      StoredAt(s, q, n - 1);
    }
  }

  /** The rebuild t of the first n slots keeps the invariant, stores every key but key with its counter in s, and occupies one slot per entry kept. */
  ghost predicate Rebuilt(s: seq<Slot>, key: Key, n: nat, t: seq<Slot>)
    requires n <= |s|
  {
    TableInv(t) &&
    (forall k :: Stored(t, k) == if k == key then 0 else StoredBelow(s, k, n)) &&
    Occupied(t) == OccupiedBelow(s, n) - (if PresentBelow(s, key, n) then 1 else 0)
  }

  /** One step of the rebuild when slot n - 1 holds an entry that is kept. */
  lemma RebuildPlace(s: seq<Slot>, key: Key, n: nat)
    requires TableInv(s) && 0 < n <= N && s[n - 1].Entry? && s[n - 1].key != key
    requires Rebuilt(s, key, n - 1, RebuildFrom(s, key, n - 1))
    ensures Rebuilt(s, key, n, RebuildFrom(s, key, n))
  {
    var t := RebuildFrom(s, key, n - 1);
    var x := s[n - 1];
    var r := RebuildFrom(s, key, n);
    assert r == Place(t, x.key, x.value);
    assert !PresentBelow(s, x.key, n - 1);
    assert Stored(t, x.key) == 0;
    ProbeNotFull(t, x.key);
    PlaceCorrect(t, x.key, x.value);
    KeptCount(s, key, n, t, r);
    KeptStored(s, key, n, t, r);
  }

  lemma KeptCount(s: seq<Slot>, key: Key, n: nat, t: seq<Slot>, r: seq<Slot>)
    requires UniqueKeys(s) && 0 < n <= |s| && s[n - 1].Entry? && s[n - 1].key != key
    requires Occupied(t) == OccupiedBelow(s, n - 1) - (if PresentBelow(s, key, n - 1) then 1 else 0)
    requires Occupied(r) == Occupied(t) + 1
    ensures Occupied(r) == OccupiedBelow(s, n) - (if PresentBelow(s, key, n) then 1 else 0)
  {
    StoredBelowStep(s, key, n);
  }

  lemma KeptStored(s: seq<Slot>, key: Key, n: nat, t: seq<Slot>, r: seq<Slot>)
    requires UniqueKeys(s) && 0 < n <= |s| && s[n - 1].Entry? && s[n - 1].key != key
    requires forall k :: Stored(t, k) == if k == key then 0 else StoredBelow(s, k, n - 1)
    requires Stored(r, s[n - 1].key) == s[n - 1].value
    requires forall k :: k != s[n - 1].key ==> Stored(r, k) == Stored(t, k)
    ensures forall k :: Stored(r, k) == if k == key then 0 else StoredBelow(s, k, n)
  {
    StoredAt(s, n - 1, n);
    forall k
      ensures Stored(r, k) == if k == key then 0 else StoredBelow(s, k, n)
    {
      if k != s[n - 1].key {
        StoredBelowStep(s, k, n);
      }
    }
  }

  /** One step of the rebuild when slot n - 1 is empty or holds the removed key. */
  lemma RebuildSkip(s: seq<Slot>, key: Key, n: nat)
    requires TableInv(s) && 0 < n <= N && !(s[n - 1].Entry? && s[n - 1].key != key)
    requires Rebuilt(s, key, n - 1, RebuildFrom(s, key, n - 1))
    ensures Rebuilt(s, key, n, RebuildFrom(s, key, n))
  {
    if s[n - 1].Entry? {
      assert !PresentBelow(s, key, n - 1);
      assert PresentBelow(s, key, n);
    } else {
      StoredBelowStep(s, key, n);
    }
    forall k | k != key
      ensures StoredBelow(s, k, n) == StoredBelow(s, k, n - 1)
    {
      StoredBelowStep(s, k, n);
    }
  }

  lemma {:induction false} RebuildInv(s: seq<Slot>, key: Key, n: nat)
    requires TableInv(s) && n <= N
    ensures Rebuilt(s, key, n, RebuildFrom(s, key, n))
  {
    if n == 0 {
      EmptyTableInv();
    } else {
      RebuildInv(s, key, n - 1);
      if s[n - 1].Entry? && s[n - 1].key != key {
        RebuildPlace(s, key, n);
      } else {
        RebuildSkip(s, key, n);
      }
    }
  }

  /**
   * RemoveKey on a table that keeps the invariant: the invariant holds again,
   * key looks up as 0, every other key looks up as before, and one slot is
   * freed exactly when key was present, which is when count should drop.
   */
  lemma RemoveKeyCorrect(s: seq<Slot>, key: Key)
    requires TableInv(s)
    ensures TableInv(RemoveKey(s, key))
    ensures Lookup(RemoveKey(s, key), key) == 0
    ensures forall k :: k != key ==> Lookup(RemoveKey(s, key), k) == Lookup(s, k)
    ensures Occupied(RemoveKey(s, key)) == Occupied(s) - (if Lookup(s, key) > 0 then 1 else 0)
  {
    var r := RemoveKey(s, key);
    RebuildInv(s, key, N);
    LookupStored(s, key);
    LookupStored(r, key);
    StoredPositive(s, key);
    forall k | k != key
      ensures Lookup(r, k) == Lookup(s, k)
    {
      LookupStored(s, k);
      LookupStored(r, k);
    }
  }
}
