/**
 * The hash table of fasic.h and basic.h as the C code runs it: a HashMap owns
 * a buckets array of BUCKETS_SIZE slots and a count, and its operations
 * update both in place with bounded probe loops. Every method is proved
 * against the functions of module Slots.
 */
module HashTable {
  import opened Slots
  import Removal

  /** hash_function: Horner's rule over the key's bytes, then reduced to a slot index. */
  method HashFunction(key: Key) returns (h: nat)
    ensures h == Hash(key)
  {
    var hash: nat := 0;
    var i := 0;
    // A key holds no NUL byte, so the loop runs over the whole key.
    while i < |key|
      invariant 0 <= i <= |key|
      invariant hash == Horner(key[..i])
    {
      HornerAppend(key[..i], key[i]);
      assert key[..i + 1] == key[..i] + [key[i]];
      hash := (31 * hash + Signed(key[i])) % U32;
      i := i + 1;
    }
    assert key[..|key|] == key;
    h := hash % N;
  }

  class HashMap {
    var buckets: array<Slot>
    /** An unsigned int in the source. */
    var count: nat
    /** False once hashmap_destroy has released the table. */
    ghost var live: bool

    ghost predicate Valid()
      reads this
    {
      buckets.Length == N && count < U32
    }

    /** The invariant of insert-only histories, with count equal to the number of occupied slots. */
    ghost predicate Consistent()
      reads this, buckets
      requires Valid()
    {
      TableInv(buckets[..]) && count == Occupied(buckets[..])
    }

    /** hashmap_init: every slot empty and count 0. */
    constructor Init()
      ensures Valid() && live && fresh(buckets)
      ensures buckets[..] == EmptyTable() && count == 0
      ensures Consistent()
    {
      buckets := new Slot[N](_ => Empty);
      count := 0;
      live := true;
      new;
      assert buckets[..] == EmptyTable();
      EmptyTableInv();
    }

    /**
     * hashmap_insert. The probe stops at the first slot that is empty or holds
     * key; an empty slot is claimed with counter 1 when the key's copy can be
     * allocated (mallocOk), a matching slot has its counter incremented, and
     * after BUCKETS_SIZE steps without stopping the insert fails. A failed
     * insert changes nothing; a successful one keeps the insert-only invariant.
     */
    method Insert(key: Key, mallocOk: bool) returns (ok: bool)
      requires Valid() && live
      modifies buckets, this`count
      ensures Valid() && live && buckets == old(buckets)
      ensures ok <==> Probe(old(buckets[..]), key, 0) < N && (mallocOk || !Claims(old(buckets[..]), key))
      ensures ok ==> buckets[..] == Slots.Insert(old(buckets[..]), key)
      ensures ok ==> count == if Claims(old(buckets[..]), key) then (old(count) + 1) % U32 else old(count)
      ensures !ok ==> buckets[..] == old(buckets[..]) && count == old(count)
      ensures old(Consistent()) ==> Consistent()
    {
      ghost var s := buckets[..];
      var h := HashFunction(key);
      // The slot the key hashes to is tried first, then the loop probes on from step 1.
      assert SlotIndex(h, 0) == h;
      if buckets[h].Empty? || buckets[h].key == key {
        ProbeIs(s, key, 0);
        ok := StoreAt(key, mallocOk, h, 0);
        return;
      }
      var i := 1;
      while i < N
        invariant 1 <= i <= N
        invariant buckets[..] == s && count == old(count)
        invariant forall m :: 0 <= m < i ==> !Stops(s, key, SlotIndex(h, m))
      {
        var idx := SlotIndex(h, i);
        if buckets[idx].Empty? || buckets[idx].key == key {
          ProbeIs(s, key, i);
          ok := StoreAt(key, mallocOk, idx, i);
          return;
        }
        i := i + 1;
      }
      ProbeIs(s, key, N);
      return false;
    }

    /**
     * The branches of hashmap_insert once its probe stops at step i, in slot
     * idx: an empty slot is claimed with counter 1 unless the key's copy
     * fails, a slot holding key has its counter incremented.
     */
    method StoreAt(key: Key, mallocOk: bool, idx: nat, ghost i: nat) returns (ok: bool)
      requires Valid() && live && Probe(buckets[..], key, 0) == i < N && idx == SlotIndex(Hash(key), i)
      modifies buckets, this`count
      ensures Valid() && live && buckets == old(buckets)
      ensures ok <==> mallocOk || !Claims(old(buckets[..]), key)
      ensures ok ==> buckets[..] == Slots.Insert(old(buckets[..]), key)
      ensures ok ==> count == if Claims(old(buckets[..]), key) then (old(count) + 1) % U32 else old(count)
      ensures !ok ==> buckets[..] == old(buckets[..]) && count == old(count)
      ensures old(Consistent()) ==> Consistent()
    {
      ghost var s := buckets[..];
      ghost var consistent := Consistent();
      ghost var c := count;
      InsertAt(s, key, i);
      if buckets[idx].Empty? {
        if !mallocOk {
          return false;
        }
        buckets[idx] := Entry(key, 1);
        count := (count + 1) % U32;
        assert buckets[..] == s[idx := Entry(key, 1)];
      } else {
        buckets[idx] := Entry(key, buckets[idx].value + 1);
        assert buckets[..] == s[idx := Entry(key, s[idx].value + 1)];
      }
      if consistent {
        InsertKeepsCount(s, key, c);
      }
      return true;
    }

    /**
     * hashmap_delete as written: it always reports success, empties the slot
     * the key hashes to whatever that slot held, and decrements count
     * unconditionally (module Removal states what this breaks).
     */
    method Delete(key: Key) returns (ok: bool)
      requires Valid() && live
      modifies buckets, this`count
      ensures Valid() && live && buckets == old(buckets)
      ensures ok
      ensures buckets[..] == DeleteSlots(old(buckets[..]), key)
      ensures count == CountAfterDelete(old(count))
    {
      var h := HashFunction(key);
      buckets[h] := Empty;
      count := CountAfterDelete(count);
      return true;
    }

    /**
     * The removal hashmap_delete is meant to perform: it reports whether
     * lookup finds key (on a consistent table: whether key is present),
     * rebuilds the slots from every other entry so that no probe run is cut,
     * and decrements count only when lookup found key. On a
     * consistent table the result is consistent again, with key gone and every
     * other counter kept (Removal.RemoveKeyCorrect).
     */
    method Remove(key: Key) returns (found: bool)
      requires Valid() && live
      modifies this
      ensures Valid() && live && fresh(buckets)
      ensures found <==> Slots.Lookup(old(buckets[..]), key) > 0
      ensures buckets[..] == Removal.RemoveKey(old(buckets[..]), key)
      ensures count == if found then CountAfterDelete(old(count)) else old(count)
      ensures old(Consistent()) ==> Consistent()
    {
      ghost var s := buckets[..];
      ghost var consistent := Consistent();
      var v := Lookup(key);
      var rebuilt := new Slot[N](_ => Empty);
      assert rebuilt[..] == EmptyTable();
      for n := 0 to N
        invariant buckets == old(buckets) && buckets[..] == s && count == old(count) && live
        invariant fresh(rebuilt) && rebuilt.Length == N
        invariant rebuilt[..] == Removal.RebuildFrom(s, key, n)
      {
        Removal.RebuildNext(s, key, n);
        var slot := buckets[n];
        if slot.Entry? && slot.key != key {
          PlaceInto(rebuilt, slot.key, slot.value);
        }
      }
      buckets := rebuilt;
      found := v > 0;
      if found {
        count := CountAfterDelete(count);
      }
      if consistent {
        Removal.RemoveKeyCorrect(s, key);
      }
    }

    /** hashmap_lookup: the counter of the slot the probe stops at, 0 otherwise; the table is unchanged. */
    method Lookup(key: Key) returns (v: nat)
      requires Valid() && live
      ensures v == Slots.Lookup(buckets[..], key)
    {
      ghost var s := buckets[..];
      var h := HashFunction(key);
      var i := 0;
      while i < N
        invariant 0 <= i <= N
        invariant forall m :: 0 <= m < i ==> !Stops(s, key, SlotIndex(h, m))
      {
        var idx := SlotIndex(h, i);
        if buckets[idx].Empty? {
          ProbeIs(s, key, i);
          return 0;
        } else if buckets[idx].key == key {
          ProbeIs(s, key, i);
          return buckets[idx].value;
        }
        i := i + 1;
      }
      ProbeIs(s, key, N);
      return 0;
    }

    /**
     * hashmap_print: the occupied slots among the first bound in slot order,
     * each as its key's hash, the key and the counter. fasic.h scans all
     * BUCKETS_SIZE slots; basic.h takes the bound as a parameter.
     */
    method Enumerate(bound: nat) returns (lines: seq<Line>)
      requires Valid() && live && bound <= N
      ensures lines == Listing(buckets[..], bound)
    {
      lines := [];
      for i := 0 to bound
        invariant lines == Listing(buckets[..], i)
      {
        if buckets[i].Entry? {
          var h := HashFunction(buckets[i].key);
          lines := lines + [Line(h, buckets[i].key, buckets[i].value)];
        }
      }
    }

    /** hashmap_destroy: the keys and the slot array are released and count is reset to 0. */
    method Destroy()
      requires Valid() && live
      modifies this
      ensures Valid() && !live && count == 0 && buckets == old(buckets)
    {
      count := 0;
      live := false;
    }
  }

  /**
   * The probe loop of hashmap_insert on a bare slot array: Entry(key, v) is
   * written where the probe for key stops, and a probe that runs all
   * BUCKETS_SIZE steps writes nothing.
   */
  method PlaceInto(t: array<Slot>, key: Key, v: nat)
    requires t.Length == N
    modifies t
    ensures t[..] == Place(old(t[..]), key, v)
  {
    ghost var s := t[..];
    var h := HashFunction(key);
    var i := 0;
    while i < N
      invariant 0 <= i <= N
      invariant t[..] == s
      invariant forall m :: 0 <= m < i ==> !Stops(s, key, SlotIndex(h, m))
    {
      var idx := SlotIndex(h, i);
      if t[idx].Empty? || t[idx].key == key {
        ProbeIs(s, key, i);
        t[idx] := Entry(key, v);
        return;
      }
      i := i + 1;
    }
    ProbeIs(s, key, N);
  }

  /**
   * The driver of Test/tests.c: after inserting "Ahmed", "Ali", "Mohammed" and
   * "Ahmed" into a fresh table, the lookups are 2, 1 and 1, count is 3 and the
   * listing has three lines.
   */
  method DriverScenario() returns (ahmed: nat, ali: nat, mohammed: nat, count: nat, lines: seq<Line>)
    ensures ahmed == 2 && ali == 1 && mohammed == 1 && count == 3 && |lines| == 3
  {
    var m := new HashMap.Init();
    DriverInserts();
    var ok := m.Insert(Ahmed, true);
    ok := m.Insert(Ali, true);
    ok := m.Insert(Mohammed, true);
    ok := m.Insert(Ahmed, true);
    DriverHistory();
    ahmed := m.Lookup(Ahmed);
    ali := m.Lookup(Ali);
    mohammed := m.Lookup(Mohammed);
    count := m.count;
    lines := m.Enumerate(N);
    ListingContents(m.buckets[..]);
    m.Destroy();
  }
}
