/**
 * The open-addressing hash table of fasic.h and basic.h as values: the slot
 * array, the hash, the linear probe shared by insert and lookup, and the
 * invariants an insert-only history keeps.
 *
 * A table is a sequence of BUCKETS_SIZE slots. A slot is empty (key == NULL)
 * or holds a key with its occurrence counter. The class in module HashTable
 * is proved against the functions defined here.
 */
module Slots {

  /** BUCKETS_SIZE: the number of slots. */
  const N: nat := 100000

  /** The range of a C unsigned int. */
  const U32: nat := 0x1_0000_0000

  /** A byte of a NUL-terminated C string: any value but 0. */
  newtype CChar = c: int | 1 <= c < 256 witness 1

  /** A key: the bytes of a C string before its terminating NUL. */
  type Key = seq<CChar>

  datatype Slot = Empty | Entry(key: Key, value: nat)

  // ---------------------------------------------------------------------------
  // hash_function
  // ---------------------------------------------------------------------------

  /**
   * The value a byte contributes to the hash: a plain char is signed, so bytes
   * 128 .. 255 count as -128 .. -1. The byte itself is recovered modulo 256.
   */
  function Signed(c: CChar): (v: int)
    ensures -128 <= v < 128 && v % 256 == c as int
  {
    if c < 128 then c as int else c as int - 256
  }

  /** One step of Horner's rule, hash = 31 * hash + byte, in unsigned 32-bit arithmetic. */
  function Step(h: nat, c: CChar): (r: nat)
    ensures r < U32
  {
    (31 * h + Signed(c)) % U32
  }

  /** The 32-bit Horner value of a key, before the final reduction. */
  function Horner(key: Key): (h: nat)
    ensures h < U32
  {
    if key == [] then 0 else Step(Horner(key[..|key| - 1]), key[|key| - 1])
  }

  /** hash_function: the Horner value reduced to a slot index. */
  function Hash(key: Key): (h: nat)
    ensures h < N
  {
    Horner(key) % N
  }

  /** The Horner value of a longer key extends the shorter one's by one step. */
  lemma HornerAppend(key: Key, c: CChar)
    ensures Horner(key + [c]) == Step(Horner(key), c)
  {
    assert (key + [c])[..|key|] == key;
  }

  /** The keys "Aa" and "BB" share Horner value 2112, hence the same slot. */
  lemma HashCollision()
    ensures Hash([65, 97]) == Hash([66, 66]) == 2112
  {
    assert [65 as CChar, 97][..1] == [65];
    assert [66 as CChar, 66][..1] == [66];
    assert [65 as CChar][..0] == [];
    assert [66 as CChar][..0] == [];
  }

  // ---------------------------------------------------------------------------
  // The probe sequence (hash + i) % BUCKETS_SIZE
  // ---------------------------------------------------------------------------

  /** The i-th slot visited when probing from hash h. */
  function SlotIndex(h: nat, i: nat): (p: nat)
    ensures p < N
  {
    (h + i) % N
  }

  lemma SlotIndexValue(h: nat, i: nat)
    requires h < N && i < N
    ensures SlotIndex(h, i) == if h + i < N then h + i else h + i - N
  {
    if h + i >= N {
      assert h + i == 1 * N + (h + i - N);
    }
  }

  /** Within one round the probe sequence visits distinct slots. */
  lemma SlotIndexInjective(h: nat, i: nat, m: nat)
    requires h < N && i < N && m < N && SlotIndex(h, i) == SlotIndex(h, m)
    ensures i == m
  {
    SlotIndexValue(h, i);
    SlotIndexValue(h, m);
  }

  /** How many probe steps from hash h reach slot p. */
  function Distance(h: nat, p: nat): (d: nat)
    requires h < N && p < N
    ensures d < N && SlotIndex(h, d) == p
  {
    SlotIndexValue(h, if h <= p then p - h else p + N - h);
    if h <= p then p - h else p + N - h
  }

  /** A probe for key ends at slot p: p is empty or holds key. */
  predicate Stops(s: seq<Slot>, key: Key, p: nat)
    requires p < |s|
  {
    s[p].Empty? || s[p].key == key
  }

  /**
   * The probe loop of hashmap_insert and hashmap_lookup from step i on: the
   * first step at which the probe stops, or N when BUCKETS_SIZE steps pass
   * without stopping.
   */
  function Probe(s: seq<Slot>, key: Key, i: nat): (j: nat)
    requires |s| == N && i <= N
    ensures i <= j <= N
    ensures forall m :: i <= m < j ==> !Stops(s, key, SlotIndex(Hash(key), m))
    ensures j < N ==> Stops(s, key, SlotIndex(Hash(key), j))
    decreases N - i
  {
    if i == N then N
    else if Stops(s, key, SlotIndex(Hash(key), i)) then i
    else Probe(s, key, i + 1)
  }

  /** The probe ends at the first stopping step. */
  lemma ProbeIs(s: seq<Slot>, key: Key, d: nat)
    requires |s| == N && d <= N
    requires forall m :: 0 <= m < d ==> !Stops(s, key, SlotIndex(Hash(key), m))
    requires d < N ==> Stops(s, key, SlotIndex(Hash(key), d))
    ensures Probe(s, key, 0) == d
  {
  }

  /**
   * A probe that runs all BUCKETS_SIZE steps has seen every slot: none is
   * empty and none holds the key. This is the only way insert reports failure
   * once the key's copy succeeds.
   */
  lemma ProbeFull(s: seq<Slot>, key: Key)
    requires |s| == N && Probe(s, key, 0) == N
    ensures forall p :: 0 <= p < N ==> s[p].Entry? && s[p].key != key
    ensures Occupied(s) == N
  {
    var h := Hash(key);
    forall p | 0 <= p < N
      ensures s[p].Entry? && s[p].key != key
    {
      var m := Distance(h, p);
      assert 0 <= m < Probe(s, key, 0);
      assert !Stops(s, key, SlotIndex(h, m));
    }
    OccupiedAll(s, N);
  }

  /** A table with a free slot never makes a probe run all BUCKETS_SIZE steps. */
  lemma ProbeNotFull(s: seq<Slot>, key: Key)
    requires |s| == N && Occupied(s) < N
    ensures Probe(s, key, 0) < N
  {
    if Probe(s, key, 0) == N {
      ProbeFull(s, key);
    }
  }

  // ---------------------------------------------------------------------------
  // Lookup, insert, and the empty table
  // ---------------------------------------------------------------------------

  /** hashmap_lookup: the counter of the slot the probe stops at, or 0. */
  function Lookup(s: seq<Slot>, key: Key): nat
    requires |s| == N
  {
    var j := Probe(s, key, 0);
    if j < N && s[SlotIndex(Hash(key), j)].Entry? then s[SlotIndex(Hash(key), j)].value else 0
  }

  /** Writes Entry(key, v) at the slot the probe for key stops at; a full probe changes nothing. */
  function Place(s: seq<Slot>, key: Key, v: nat): (r: seq<Slot>)
    requires |s| == N
    ensures |r| == N
  {
    var j := Probe(s, key, 0);
    if j == N then s else s[SlotIndex(Hash(key), j) := Entry(key, v)]
  }

  /**
   * hashmap_insert when the key's copy succeeds: the slot the probe stops at
   * gets the key with counter 1 if it was empty, or its counter plus one if it
   * held the key.
   */
  function Insert(s: seq<Slot>, key: Key): (r: seq<Slot>)
    requires |s| == N
    ensures |r| == N
  {
    Place(s, key, Lookup(s, key) + 1)
  }

  /** Where insert writes: the probe's stop gets counter 1 if it was empty, or its counter plus one. */
  lemma InsertAt(s: seq<Slot>, key: Key, i: nat)
    requires |s| == N && Probe(s, key, 0) == i < N
    ensures var p := SlotIndex(Hash(key), i);
      Insert(s, key) == s[p := Entry(key, if s[p].Empty? then 1 else s[p].value + 1)] &&
      (Claims(s, key) <==> s[p].Empty?)
  {
  }

  /** Whether the probe for key stops at an empty slot, so insert must copy the key. */
  predicate Claims(s: seq<Slot>, key: Key)
    requires |s| == N
  {
    var j := Probe(s, key, 0);
    j < N && s[SlotIndex(Hash(key), j)].Empty?
  }

  /** hashmap_init: every slot empty. */
  function EmptyTable(): (s: seq<Slot>)
    ensures |s| == N
  {
    seq(N, _ => Empty)
  }

  /** hashmap_delete's effect on the slots: the slot the key hashes to is emptied, whatever it held. */
  function DeleteSlots(s: seq<Slot>, key: Key): (r: seq<Slot>)
    requires |s| == N
    ensures |r| == N && r[Hash(key)].Empty?
    ensures forall p :: 0 <= p < N && p != Hash(key) ==> r[p] == s[p]
  {
    s[Hash(key) := Empty]
  }

  /** hashmap_delete's effect on count: an unsigned decrement, which undoes an insert's increment. */
  function CountAfterDelete(c: nat): (r: nat)
    requires c < U32
    ensures r < U32 && (r + 1) % U32 == c
  {
    if c == 0 then U32 - 1 else c - 1
  }

  // ---------------------------------------------------------------------------
  // Occupied slots (the quantity count is meant to track)
  // ---------------------------------------------------------------------------

  /** The number of occupied slots among the first n. */
  function OccupiedBelow(s: seq<Slot>, n: nat): (c: nat)
    requires n <= |s|
    ensures c <= n
  {
    if n == 0 then 0 else OccupiedBelow(s, n - 1) + (if s[n - 1].Entry? then 1 else 0)
  }

  function Occupied(s: seq<Slot>): nat {
    OccupiedBelow(s, |s|)
  }

  /** Overwriting one slot changes the number of occupied slots only by that slot's change. */
  lemma {:induction false} OccupiedUpdate(s: seq<Slot>, p: nat, x: Slot, n: nat)
    requires p < |s| && n <= |s|
    ensures OccupiedBelow(s[p := x], n) ==
      OccupiedBelow(s, n) + (if p < n then (if x.Entry? then 1 else 0) - (if s[p].Entry? then 1 else 0) else 0)
  {
    if n > 0 {
      OccupiedUpdate(s, p, x, n - 1);
    }
  }

  lemma {:induction false} OccupiedAll(s: seq<Slot>, n: nat)
    requires n <= |s| && forall p :: 0 <= p < n ==> s[p].Entry?
    ensures OccupiedBelow(s, n) == n
  {
    if n > 0 {
      OccupiedAll(s, n - 1);
    }
  }

  lemma {:induction false} OccupiedNone(s: seq<Slot>, n: nat)
    requires n <= |s| && forall p :: 0 <= p < n ==> s[p].Empty?
    ensures OccupiedBelow(s, n) == 0
  {
    if n > 0 {
      OccupiedNone(s, n - 1);
    }
  }

  // ---------------------------------------------------------------------------
  // The contents of a table and the insert-only invariant
  // ---------------------------------------------------------------------------

  /** Some slot among the first n holds key. */
  ghost predicate PresentBelow(s: seq<Slot>, key: Key, n: nat)
    requires n <= |s|
  {
    exists p :: 0 <= p < n && s[p].Entry? && s[p].key == key
  }

  /** The counter stored for key among the first n slots, 0 when none holds it. */
  ghost function StoredBelow(s: seq<Slot>, key: Key, n: nat): nat
    requires n <= |s|
  {
    if PresentBelow(s, key, n) then
      var p :| 0 <= p < n && s[p].Entry? && s[p].key == key; s[p].value
    else 0
  }

  /** The dictionary a table represents: the counter stored for each key. */
  ghost function Stored(s: seq<Slot>, key: Key): nat {
    StoredBelow(s, key, |s|)
  }

  /** No two slots hold the same key. */
  ghost predicate UniqueKeys(s: seq<Slot>) {
    forall p, q :: 0 <= p < q < |s| && s[p].Entry? && s[q].Entry? ==> s[p].key != s[q].key
  }

  /** Every stored counter is at least 1. */
  ghost predicate ValuesPositive(s: seq<Slot>) {
    forall p :: 0 <= p < |s| && s[p].Entry? ==> s[p].value >= 1
  }

  /** The first d slots of the probe sequence from h are all occupied. */
  ghost predicate Run(s: seq<Slot>, h: nat, d: nat)
    requires |s| == N
  {
    forall m :: 0 <= m < d ==> s[SlotIndex(h, m)].Entry?
  }

  /** Every stored key is reached from its hash without crossing an empty slot. */
  ghost predicate Reachable(s: seq<Slot>)
    requires |s| == N
  {
    forall p :: 0 <= p < N && s[p].Entry? ==> Run(s, Hash(s[p].key), Distance(Hash(s[p].key), p))
  }

  /** The invariant of insert-only histories. */
  ghost predicate TableInv(s: seq<Slot>) {
    |s| == N && UniqueKeys(s) && ValuesPositive(s) && Reachable(s)
  }

  /** With unique keys, the slot holding a key determines its stored counter. */
  lemma StoredAt(s: seq<Slot>, p: nat, n: nat)
    requires UniqueKeys(s) && p < n <= |s| && s[p].Entry?
    ensures StoredBelow(s, s[p].key, n) == s[p].value
  {
    assert PresentBelow(s, s[p].key, n);
  }

  /** The stored counter is positive exactly when some slot holds the key. */
  lemma StoredPositive(s: seq<Slot>, key: Key)
    requires ValuesPositive(s)
    ensures Stored(s, key) > 0 <==> PresentBelow(s, key, |s|)
  {
  }

  lemma EmptyTableInv()
    ensures TableInv(EmptyTable()) && Occupied(EmptyTable()) == 0
    ensures forall key :: Stored(EmptyTable(), key) == 0 && Lookup(EmptyTable(), key) == 0
  {
    var s := EmptyTable();
    OccupiedNone(s, N);
    forall key
      ensures Stored(s, key) == 0 && Lookup(s, key) == 0
    {
      ProbeIs(s, key, 0);
    }
  }

  // ---------------------------------------------------------------------------
  // Lookup agrees with the contents
  // ---------------------------------------------------------------------------

  /** Under the invariant the probe for a stored key ends exactly at its slot. */
  lemma LookupFinds(s: seq<Slot>, key: Key, p: nat)
    requires TableInv(s) && p < N && s[p].Entry? && s[p].key == key
    ensures Probe(s, key, 0) == Distance(Hash(key), p)
    ensures Lookup(s, key) == s[p].value
  {
    var h := Hash(key);
    var d := Distance(h, p);
    assert Run(s, h, d);
    forall m | 0 <= m < d
      ensures !Stops(s, key, SlotIndex(h, m))
    {
      var q := SlotIndex(h, m);
      assert s[q].Entry?;
      if s[q].key == key {
        assert q == p;
        SlotIndexInjective(h, m, d);
      }
    }
    ProbeIs(s, key, d);
  }

  /** A key no slot holds looks up as 0, whatever the table's state. */
  lemma LookupMisses(s: seq<Slot>, key: Key)
    requires |s| == N && !PresentBelow(s, key, N)
    ensures Lookup(s, key) == 0
  {
    var j := Probe(s, key, 0);
    if j < N {
      assert s[SlotIndex(Hash(key), j)].Empty?;
    }
  }

  /** Under the invariant hashmap_lookup returns the stored counter of every key. */
  lemma LookupStored(s: seq<Slot>, key: Key)
    requires TableInv(s)
    ensures Lookup(s, key) == Stored(s, key)
  {
    if PresentBelow(s, key, N) {
      var p :| 0 <= p < N && s[p].Entry? && s[p].key == key;
      LookupFinds(s, key, p);
      StoredAt(s, p, N);
    } else {
      LookupMisses(s, key);
    }
  }

  // ---------------------------------------------------------------------------
  // Insert keeps the invariant and adds one to the key's counter
  // ---------------------------------------------------------------------------

  lemma RunGrows(s: seq<Slot>, r: seq<Slot>, h: nat, d: nat)
    requires |s| == N && |r| == N && Run(s, h, d)
    requires forall q :: 0 <= q < N && s[q].Entry? ==> r[q].Entry?
    ensures Run(r, h, d)
  {
    forall m | 0 <= m < d
      ensures r[SlotIndex(h, m)].Entry?
    {
      assert s[SlotIndex(h, m)].Entry?;
    }
  }

  /**
   * Under the invariant and with room (the probe stops within N steps) the
   * probe for key stops at the slot holding key when some slot does, and at
   * an empty slot otherwise.
   */
  lemma ProbeStop(s: seq<Slot>, key: Key)
    requires TableInv(s) && Probe(s, key, 0) < N
    ensures var h := Hash(key); var j := Probe(s, key, 0); var p := SlotIndex(h, j);
      Distance(h, p) == j && (PresentBelow(s, key, N) <==> s[p].Entry?)
  {
    var h := Hash(key);
    var j := Probe(s, key, 0);
    var p := SlotIndex(h, j);
    SlotIndexInjective(h, Distance(h, p), j);
    if s[p].Empty? {
      forall q | 0 <= q < N && s[q].Entry?
        ensures s[q].key != key
      {
        if s[q].key == key {
          LookupFinds(s, key, q);
        }
      }
    }
  }

  /** Placing a positive counter for key at its probe stop keeps the invariant. */
  lemma PlaceKeepsInv(s: seq<Slot>, key: Key, v: nat)
    requires TableInv(s) && Probe(s, key, 0) < N && v >= 1
    ensures TableInv(Place(s, key, v))
  {
    var h := Hash(key);
    var j := Probe(s, key, 0);
    var p := SlotIndex(h, j);
    var r := Place(s, key, v);
    assert r == s[p := Entry(key, v)];
    ProbeStop(s, key);
    forall q | 0 <= q < N && s[q].Entry?
      ensures r[q].Entry?
    {
    }
    forall q | 0 <= q < N && r[q].Entry?
      ensures Run(r, Hash(r[q].key), Distance(Hash(r[q].key), q))
    {
      if q == p && s[p].Empty? {
        assert Run(s, h, j);
        RunGrows(s, r, h, j);
      } else {
        assert r[q].key == s[q].key;
        RunGrows(s, r, Hash(s[q].key), Distance(Hash(s[q].key), q));
      }
    }
    assert UniqueKeys(r);
  }

  /**
   * Placing a counter for key at its probe stop makes v the counter of key,
   * leaves every other key's counter alone, and claims a slot exactly when
   * key was absent.
   */
  lemma PlaceStores(s: seq<Slot>, key: Key, v: nat)
    requires TableInv(s) && Probe(s, key, 0) < N && v >= 1
    requires UniqueKeys(Place(s, key, v))
    ensures Stored(Place(s, key, v), key) == v
    ensures forall k :: k != key ==> Stored(Place(s, key, v), k) == Stored(s, k)
    ensures Occupied(Place(s, key, v)) == Occupied(s) + (if Stored(s, key) == 0 then 1 else 0)
    ensures Claims(s, key) <==> Stored(s, key) == 0
  {
    var h := Hash(key);
    var j := Probe(s, key, 0);
    var p := SlotIndex(h, j);
    var r := Place(s, key, v);
    assert r == s[p := Entry(key, v)];
    ProbeStop(s, key);
    if s[p].Entry? {
      StoredAt(s, p, N);
    }
    OccupiedUpdate(s, p, Entry(key, v), N);
    StoredAt(r, p, N);
    forall k | k != key
      ensures Stored(r, k) == Stored(s, k)
    {
      if PresentBelow(s, k, N) {
        var q :| 0 <= q < N && s[q].Entry? && s[q].key == k;
        StoredAt(s, q, N);
        StoredAt(r, q, N);
      } else {
        assert !PresentBelow(r, k, N);
      }
    }
  }

  /**
   * Placing a positive counter for key at its probe stop keeps the invariant,
   * makes v the counter of key and leaves every other key's counter alone; a
   * slot is claimed exactly when key was absent.
   */
  lemma PlaceCorrect(s: seq<Slot>, key: Key, v: nat)
    requires TableInv(s) && Probe(s, key, 0) < N && v >= 1
    ensures TableInv(Place(s, key, v))
    ensures Stored(Place(s, key, v), key) == v
    ensures forall k :: k != key ==> Stored(Place(s, key, v), k) == Stored(s, k)
    ensures Occupied(Place(s, key, v)) == Occupied(s) + (if Stored(s, key) == 0 then 1 else 0)
    ensures Claims(s, key) <==> Stored(s, key) == 0
  {
    PlaceKeepsInv(s, key, v);
    PlaceStores(s, key, v);
  }

  /** With room, insert is a placement of the stored counter plus one; in terms of the table's contents. */
  lemma InsertStored(s: seq<Slot>, key: Key)
    requires TableInv(s) && Probe(s, key, 0) < N
    ensures Lookup(s, key) == Stored(s, key)
    ensures TableInv(Insert(s, key))
    ensures forall k :: Stored(Insert(s, key), k) == Stored(s, k) + (if k == key then 1 else 0)
    ensures Occupied(Insert(s, key)) == Occupied(s) + (if Stored(s, key) == 0 then 1 else 0)
    ensures Claims(s, key) <==> Stored(s, key) == 0
  {
    LookupStored(s, key);
    PlaceCorrect(s, key, Lookup(s, key) + 1);
  }

  /**
   * hashmap_insert on a table that keeps the invariant and is not full: the
   * invariant holds again, lookup(key) is one more than before, every other
   * key looks up as before, and count grows by one exactly when key was new.
   */
  lemma InsertCorrect(s: seq<Slot>, key: Key)
    requires TableInv(s) && Probe(s, key, 0) < N
    ensures TableInv(Insert(s, key))
    ensures Lookup(Insert(s, key), key) == Lookup(s, key) + 1
    ensures forall k :: k != key ==> Lookup(Insert(s, key), k) == Lookup(s, k)
    ensures Occupied(Insert(s, key)) == Occupied(s) + (if Lookup(s, key) == 0 then 1 else 0)
    ensures Claims(s, key) <==> Lookup(s, key) == 0
  {
    var r := Insert(s, key);
    InsertStored(s, key);
    LookupStored(r, key);
    forall k | k != key
      ensures Lookup(r, k) == Lookup(s, k)
    {
      LookupStored(s, k);
      LookupStored(r, k);
    }
  }

  /** A count equal to the number of occupied slots stays so under insert's unsigned increment. */
  lemma InsertKeepsCount(s: seq<Slot>, key: Key, c: nat)
    requires TableInv(s) && c == Occupied(s) && Probe(s, key, 0) < N
    ensures TableInv(Insert(s, key))
    ensures Occupied(Insert(s, key)) == if Claims(s, key) then (c + 1) % U32 else c
  {
    InsertStored(s, key);
    ModSmall(c + 1);
  }

  lemma ModSmall(x: nat)
    requires x < U32
    ensures x % U32 == x
  {
  }

  /** When the probe runs all BUCKETS_SIZE steps insert changes nothing. */
  lemma InsertFull(s: seq<Slot>, key: Key)
    requires |s| == N && Probe(s, key, 0) == N
    ensures Insert(s, key) == s && Lookup(s, key) == 0 && Occupied(s) == N
  {
    ProbeFull(s, key);
  }

  // ---------------------------------------------------------------------------
  // Insert-only histories
  // ---------------------------------------------------------------------------

  /**
   * The table after hashmap_init and one insert per key, in order, every key
   * copy allocated; an insert whose probe runs all N steps changes nothing.
   */
  function InsertAll(keys: seq<Key>): (s: seq<Slot>)
    ensures |s| == N
  {
    if keys == [] then EmptyTable() else Insert(InsertAll(keys[..|keys| - 1]), keys[|keys| - 1])
  }

  /**
   * A history one insert longer. While the history holds at most BUCKETS_SIZE
   * distinct keys, the next insert finds room: a key already present is met
   * on its probe path, and a new one finds a free slot.
   */
  lemma InsertAllStep(keys: seq<Key>, key: Key)
    requires |set k | k in keys + [key]| <= N
    ensures InsertAll(keys + [key]) == Insert(InsertAll(keys), key)
    ensures Probe(InsertAll(keys), key, 0) < N
  {
    assert (keys + [key])[..|keys|] == keys;
    AppendOne(keys, key);
    History(keys);
    HistoryRoom(keys, key);
  }

  /**
   * Every insert-only history, of any length, keeps the invariant: an insert
   * whose probe runs all BUCKETS_SIZE steps changes nothing, and any other
   * insert keeps the invariant.
   */
  lemma {:induction false} HistoryKeepsInv(keys: seq<Key>)
    ensures TableInv(InsertAll(keys))
  {
    if keys == [] {
      EmptyTableInv();
    } else {
      var init, key := keys[..|keys| - 1], keys[|keys| - 1];
      HistoryKeepsInv(init);
      var s := InsertAll(init);
      assert InsertAll(keys) == Insert(s, key);
      if Probe(s, key, 0) < N {
        InsertCorrect(s, key);
      } else {
        InsertFull(s, key);
      }
    }
  }

  /**
   * The contents after an insert-only history with at most BUCKETS_SIZE
   * distinct keys, however many inserts it makes: each key's counter is its
   * number of inserts, and the occupied slots are the distinct keys.
   */
  lemma {:induction false} History(keys: seq<Key>)
    requires |set k | k in keys| <= N
    ensures TableInv(InsertAll(keys))
    ensures forall k :: Stored(InsertAll(keys), k) == multiset(keys)[k]
    ensures Occupied(InsertAll(keys)) == |set k | k in keys|
  {
    if keys == [] {
      EmptyTableInv();
      assert (set k | k in keys) == {};
    } else {
      var init, key := keys[..|keys| - 1], keys[|keys| - 1];
      assert keys == init + [key];
      AppendOne(init, key);
      History(init);
      HistoryStep(init, key);
    }
  }

  /** The next insert of a history with room for its key's slot stops within BUCKETS_SIZE steps. */
  lemma HistoryRoom(init: seq<Key>, key: Key)
    requires |set k | k in init + [key]| <= N && TableInv(InsertAll(init))
    requires forall k :: Stored(InsertAll(init), k) == multiset(init)[k]
    requires Occupied(InsertAll(init)) == |set k | k in init|
    ensures Probe(InsertAll(init), key, 0) < N
  {
    var s := InsertAll(init);
    AppendOne(init, key);
    if key in init {
      assert Stored(s, key) > 0;
      StoredPositive(s, key);
      var p :| 0 <= p < N && s[p].Entry? && s[p].key == key;
      LookupFinds(s, key, p);
    } else {
      ProbeNotFull(s, key);
    }
  }

  /** One more insert extends the contents of a history by one occurrence of its key. */
  lemma HistoryStep(init: seq<Key>, key: Key)
    requires |set k | k in init + [key]| <= N && TableInv(InsertAll(init))
    requires forall k :: Stored(InsertAll(init), k) == multiset(init)[k]
    requires Occupied(InsertAll(init)) == |set k | k in init|
    ensures TableInv(InsertAll(init + [key]))
    ensures forall k :: Stored(InsertAll(init + [key]), k) == multiset(init + [key])[k]
    ensures Occupied(InsertAll(init + [key])) == |set k | k in init + [key]|
  {
    var s := InsertAll(init);
    assert (init + [key])[..|init|] == init;
    assert InsertAll(init + [key]) == Insert(s, key);
    HistoryRoom(init, key);
    InsertStored(s, key);
    AppendOne(init, key);
    forall k
      ensures Stored(InsertAll(init + [key]), k) == multiset(init + [key])[k]
    {
      assert Stored(Insert(s, key), k) == Stored(s, k) + (if k == key then 1 else 0);
    }
  }

  /** Appending x to xs adds one occurrence of x, and one distinct element exactly when x is new. */
  lemma AppendOne<T>(xs: seq<T>, x: T)
    ensures forall y :: multiset(xs + [x])[y] == multiset(xs)[y] + (if y == x then 1 else 0)
    ensures |set y | y in xs + [x]| == |set y | y in xs| + (if x in xs then 0 else 1)
  {
    var seen := set y | y in xs;
    assert (set y | y in xs + [x]) == seen + {x};
    if x in xs {
      assert seen + {x} == seen;
    } else {
      assert x !in seen;
    }
  }

  /** A sequence has at most as many distinct elements as it has elements. */
  lemma {:induction false} DistinctAtMost<T>(xs: seq<T>)
    ensures |set y | y in xs| <= |xs|
  {
    if xs != [] {
      var init := xs[..|xs| - 1];
      assert xs == init + [xs[|xs| - 1]];
      DistinctAtMost(init);
      AppendOne(init, xs[|xs| - 1]);
    }
  }

  /**
   * Inserts on a fresh table with at most BUCKETS_SIZE distinct keys all find
   * room; afterwards the invariant holds, every key looks up as the number of
   * times it was inserted, and the occupied slots are as many as the distinct
   * keys, which is at most the number of inserts.
   */
  lemma InsertOnly(keys: seq<Key>)
    requires |set k | k in keys| <= N
    ensures TableInv(InsertAll(keys))
    ensures forall k :: Lookup(InsertAll(keys), k) == multiset(keys)[k]
    ensures Occupied(InsertAll(keys)) == |set k | k in keys| <= |keys|
  {
    History(keys);
    DistinctAtMost(keys);
    forall k
      ensures Lookup(InsertAll(keys), k) == multiset(keys)[k]
    {
      LookupStored(InsertAll(keys), k);
    }
  }

  /** The history that inserts one key n times. */
  function Copies(key: Key, n: nat): (keys: seq<Key>)
    ensures |keys| == n
  {
    if n == 0 then [] else Copies(key, n - 1) + [key]
  }

  /** n inserts of one key: n occurrences of it, and no other key. */
  lemma {:induction false} Repeated(key: Key, n: nat)
    ensures multiset(Copies(key, n))[key] == n
    ensures |set k | k in Copies(key, n)| == if n == 0 then 0 else 1
  {
    if n > 0 {
      var init := Copies(key, n - 1);
      assert Copies(key, n) == init + [key];
      Repeated(key, n - 1);
      AppendOne(init, key);
      assert multiset(init + [key])[key] == multiset(init)[key] + 1;
      assert key in init <==> n > 1 by {
        if n > 1 {
          assert init == Copies(key, n - 2) + [key];
        }
      }
    }
  }

  /**
   * A counter has no bound on repeated inserts: a key inserted n times, for
   * any n, also beyond BUCKETS_SIZE, looks up as n and occupies one slot.
   */
  lemma RepeatedKey(key: Key, n: nat)
    ensures Lookup(InsertAll(Copies(key, n)), key) == n
    ensures Occupied(InsertAll(Copies(key, n))) == if n == 0 then 0 else 1
  {
    Repeated(key, n);
    InsertOnly(Copies(key, n));
  }

  // The keys of the driver in Test/tests.c, as bytes.
  const Ahmed: Key := [65, 104, 109, 101, 100]
  const Ali: Key := [65, 108, 105]
  const Mohammed: Key := [77, 111, 104, 97, 109, 109, 101, 100]

  /** Inserting "Ahmed", "Ali", "Mohammed", "Ahmed" gives lookups 2, 1, 1 and three occupied slots. */
  lemma DriverHistory()
    ensures var s := InsertAll([Ahmed, Ali, Mohammed, Ahmed]);
      Lookup(s, Ahmed) == 2 && Lookup(s, Ali) == 1 && Lookup(s, Mohammed) == 1 && Occupied(s) == 3
  {
    DriverKeys();
    InsertOnly([Ahmed, Ali, Mohammed, Ahmed]);
  }

  /** Each of the driver's four inserts finds room, and each extends the history by its key. */
  lemma DriverInserts()
    ensures InsertAll([]) == EmptyTable()
    ensures Probe(InsertAll([]), Ahmed, 0) < N && InsertAll([Ahmed]) == Insert(InsertAll([]), Ahmed)
    ensures Probe(InsertAll([Ahmed]), Ali, 0) < N && InsertAll([Ahmed, Ali]) == Insert(InsertAll([Ahmed]), Ali)
    ensures Probe(InsertAll([Ahmed, Ali]), Mohammed, 0) < N
    ensures InsertAll([Ahmed, Ali, Mohammed]) == Insert(InsertAll([Ahmed, Ali]), Mohammed)
    ensures Probe(InsertAll([Ahmed, Ali, Mohammed]), Ahmed, 0) < N
    ensures InsertAll([Ahmed, Ali, Mohammed, Ahmed]) == Insert(InsertAll([Ahmed, Ali, Mohammed]), Ahmed)
  {
    DistinctAtMost([] + [Ahmed]);
    InsertAllStep([], Ahmed);
    assert [] + [Ahmed] == [Ahmed];
    DistinctAtMost([Ahmed] + [Ali]);
    InsertAllStep([Ahmed], Ali);
    assert [Ahmed] + [Ali] == [Ahmed, Ali];
    DistinctAtMost([Ahmed, Ali] + [Mohammed]);
    InsertAllStep([Ahmed, Ali], Mohammed);
    assert [Ahmed, Ali] + [Mohammed] == [Ahmed, Ali, Mohammed];
    DistinctAtMost([Ahmed, Ali, Mohammed] + [Ahmed]);
    InsertAllStep([Ahmed, Ali, Mohammed], Ahmed);
    assert [Ahmed, Ali, Mohammed] + [Ahmed] == [Ahmed, Ali, Mohammed, Ahmed];
  }

  /** The driver inserts three distinct keys, "Ahmed" twice. */
  lemma DriverKeys()
    ensures var keys := [Ahmed, Ali, Mohammed, Ahmed];
      |set k | k in keys| == 3 &&
      multiset(keys)[Ahmed] == 2 && multiset(keys)[Ali] == 1 && multiset(keys)[Mohammed] == 1
  {
    var keys := [Ahmed, Ali, Mohammed, Ahmed];
    assert Ahmed != Ali && Ahmed != Mohammed && Ali != Mohammed by {
      assert Ahmed[1] != Ali[1] && Ahmed[0] != Mohammed[0] && Ali[0] != Mohammed[0];
    }
    assert (set k | k in keys) == {Ahmed, Ali, Mohammed};
    assert multiset(keys) == multiset{Ahmed, Ahmed, Ali, Mohammed};
  }

  // ---------------------------------------------------------------------------
  // hashmap_print: the occupied slots in index order
  // ---------------------------------------------------------------------------

  /** One printed line: the key's hash (fasic.h prints it; basic.h does not), the key and its counter. */
  datatype Line = Line(hash: nat, key: Key, value: nat)

  /** The lines for the occupied slots among the first bound, in slot order. */
  function Listing(s: seq<Slot>, bound: nat): seq<Line>
    requires bound <= |s|
  {
    if bound == 0 then []
    else
      var last := if s[bound - 1].Entry? then [Line(Hash(s[bound - 1].key), s[bound - 1].key, s[bound - 1].value)] else [];
      Listing(s, bound - 1) + last
  }

  /** One line per occupied slot among the first bound; each line comes from such a slot, and each such slot gives a line. */
  lemma {:induction false} ListingSlots(s: seq<Slot>, bound: nat)
    requires bound <= |s|
    ensures |Listing(s, bound)| == OccupiedBelow(s, bound)
    ensures forall l :: l in Listing(s, bound) ==>
      exists p :: 0 <= p < bound && s[p] == Entry(l.key, l.value) && l.hash == Hash(l.key)
    ensures forall p :: 0 <= p < bound && s[p].Entry? ==>
      Line(Hash(s[p].key), s[p].key, s[p].value) in Listing(s, bound)
  {
    if bound > 0 {
      ListingSlots(s, bound - 1);
      var rest := Listing(s, bound - 1);
      forall l | l in Listing(s, bound)
        ensures exists p :: 0 <= p < bound && s[p] == Entry(l.key, l.value) && l.hash == Hash(l.key)
      {
        if l !in rest {
          assert s[bound - 1] == Entry(l.key, l.value);
        }
      }
    }
  }

  /**
   * Under the invariant the full listing is the table's dictionary: a line for
   * key k carries lookup(k), every key with a positive lookup has its line,
   * and there are exactly count lines.
   */
  lemma ListingContents(s: seq<Slot>)
    requires TableInv(s)
    ensures |Listing(s, N)| == Occupied(s)
    ensures forall l :: l in Listing(s, N) ==> l.value == Lookup(s, l.key) > 0 && l.hash == Hash(l.key)
    ensures forall k :: Lookup(s, k) > 0 ==> Line(Hash(k), k, Lookup(s, k)) in Listing(s, N)
  {
    ListingSlots(s, N);
    forall l | l in Listing(s, N)
      ensures l.value == Lookup(s, l.key) > 0
    {
      var p :| 0 <= p < N && s[p] == Entry(l.key, l.value) && l.hash == Hash(l.key);
      LookupFinds(s, l.key, p);
    }
    forall k | Lookup(s, k) > 0
      ensures Line(Hash(k), k, Lookup(s, k)) in Listing(s, N)
    {
      LookupStored(s, k);
      StoredPositive(s, k);
      var p :| 0 <= p < N && s[p].Entry? && s[p].key == k;
      LookupFinds(s, k, p);
    }
  }
}
