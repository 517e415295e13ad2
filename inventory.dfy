/**
  The bounded deduplicating inventories (`store_beacon`, `store_client`): a
  fixed array of 256 records, an occupied-slot `count` and a circular write
  `index`. A record whose key is already among the occupied slots replaces
  that slot; any other record overwrites the slot at `index`.

  Both source functions are the same code over different globals and key
  fields; here they are one class, parameterised by the key it compares
  (the BSSID for beacons, the station address for clients).
*/
module Inventory {
  import opened Bytes

  datatype Option<T> = None | Some(value: T)

  /** `MAX_BEACONS` and `MAX_CLIENTS`. */
  const Capacity: nat := 256

  /** The abstract state of one inventory: every slot, `*_count` and `*_index`. */
  datatype Table<T> = Table(slots: seq<T>, count: nat, index: nat)

  /** The key of slot `i`; a name of its own so that facts about all pairs of keys apply only where a proof names it. */
  ghost function KeyAt<T>(slots: seq<T>, key: T -> seq<byte>, i: nat): seq<byte>
    requires i < |slots|
  {
    key(slots[i])
  }

  /** The keys of the occupied slots are pairwise distinct. */
  ghost predicate KeysDistinct<T>(slots: seq<T>, count: nat, key: T -> seq<byte>)
    requires count <= |slots|
  {
    forall i, j :: 0 <= i < j < count ==> KeyAt(slots, key, i) != KeyAt(slots, key, j)
  }

  /** The invariant every store maintains. */
  ghost predicate TableValid<T>(t: Table<T>, key: T -> seq<byte>) {
    |t.slots| == Capacity && t.count <= Capacity && t.index < Capacity &&
    (t.count < Capacity ==> t.index == t.count) &&
    KeysDistinct(t.slots, t.count, key)
  }

  /** Some occupied slot holds key `k`. */
  ghost predicate Occurs<T>(slots: seq<T>, count: nat, k: seq<byte>, key: T -> seq<byte>)
    requires count <= |slots|
  {
    exists i :: 0 <= i < count && key(slots[i]) == k
  }

  /** The linear scan over slots `[from, count)`: the first one whose key is `k`. */
  function FindFrom<T>(slots: seq<T>, count: nat, k: seq<byte>, key: T -> seq<byte>, from: nat): (r: Option<nat>)
    requires count <= |slots|
    decreases count - from
    ensures r.Some? ==> (from <= r.value < count && key(slots[r.value]) == k &&
                         forall j :: from <= j < r.value ==> key(slots[j]) != k)
    ensures r.None? ==> forall j :: from <= j < count ==> key(slots[j]) != k
  {
    if from >= count then None
    else if key(slots[from]) == k then Some(from)
    else FindFrom(slots, count, k, key, from + 1)
  }

  /**
    One store: the new table and whether the key was already known. A known
    key replaces its own slot and leaves `count` and `index` alone; a new key
    overwrites the slot at `index`, grows `count` up to the capacity and
    moves `index` on, modulo the capacity.
  */
  function Upsert<T>(t: Table<T>, rec: T, key: T -> seq<byte>): (r: (Table<T>, bool))
    requires |t.slots| == Capacity && t.count <= Capacity && t.index < Capacity
    ensures r.1 <==> Occurs(t.slots, t.count, key(rec), key)
    ensures r.1 ==> (exists u :: 0 <= u < t.count && key(t.slots[u]) == key(rec) &&
                                 r.0 == t.(slots := t.slots[u := rec]))
    ensures !r.1 ==> r.0 == Table(t.slots[t.index := rec],
                                  if t.count < Capacity then t.count + 1 else Capacity,
                                  (t.index + 1) % Capacity)
  {
    match FindFrom(t.slots, t.count, key(rec), key, 0)
    case Some(u) => (t.(slots := t.slots[u := rec]), true)
    case None =>
      var index := if t.index + 1 == Capacity then 0 else t.index + 1;
      (Table(t.slots[t.index := rec], if t.count < Capacity then t.count + 1 else t.count, index), false)
  }

  /** Storing keeps the bounds, `index == count` until saturation, and distinct keys. */
  lemma UpsertPreservesValid<T>(t: Table<T>, rec: T, key: T -> seq<byte>)
    requires TableValid(t, key)
    ensures TableValid(Upsert(t, rec, key).0, key)
  {
    var (t', known) := Upsert(t, rec, key);
    if known {
      var u :| 0 <= u < t.count && key(t.slots[u]) == key(rec) && t' == t.(slots := t.slots[u := rec]);
      forall i, j | 0 <= i < j < t'.count ensures KeyAt(t'.slots, key, i) != KeyAt(t'.slots, key, j) {
        assert KeyAt(t'.slots, key, i) == KeyAt(t.slots, key, i) && KeyAt(t'.slots, key, j) == KeyAt(t.slots, key, j);
      }
    } else {
      forall i, j | 0 <= i < j < t'.count ensures KeyAt(t'.slots, key, i) != KeyAt(t'.slots, key, j) {
        if i == t.index {
          assert key(t.slots[j]) != key(rec);
        } else if j == t.index {
          assert key(t.slots[i]) != key(rec);
        } else {
          assert KeyAt(t.slots, key, i) != KeyAt(t.slots, key, j);
        }
      }
    }
  }

  /** After a store the key occurs among the occupied slots, in exactly one. */
  lemma UpsertThenPresent<T>(t: Table<T>, rec: T, key: T -> seq<byte>)
    requires TableValid(t, key)
    ensures var t' := Upsert(t, rec, key).0;
      exists u :: 0 <= u < t'.count && t'.slots[u] == rec &&
        forall j :: 0 <= j < t'.count && j != u ==> key(t'.slots[j]) != key(rec)
  {
    UpsertPreservesValid(t, rec, key);
    var (t', known) := Upsert(t, rec, key);
    var u;
    if known {
      u :| 0 <= u < t.count && key(t.slots[u]) == key(rec) && t' == t.(slots := t.slots[u := rec]);
    } else {
      u := t.index;
    }
    assert 0 <= u < t'.count && t'.slots[u] == rec;
    forall j | 0 <= j < t'.count && j != u ensures key(t'.slots[j]) != key(rec) {
      if j < u {
        assert KeyAt(t'.slots, key, j) != KeyAt(t'.slots, key, u);
      } else {
        assert KeyAt(t'.slots, key, u) != KeyAt(t'.slots, key, j);
      }
    }
  }

  /** Storing the same record twice is the same as storing it once, and the second store finds it known. */
  lemma UpsertIdempotent<T>(t: Table<T>, rec: T, key: T -> seq<byte>)
    requires TableValid(t, key)
    ensures var once := Upsert(t, rec, key).0;
      Upsert(once, rec, key) == (once, true)
  {
    UpsertPreservesValid(t, rec, key);
    UpsertThenPresent(t, rec, key);
    var once := Upsert(t, rec, key).0;
    var (twice, known) := Upsert(once, rec, key);
    assert known;
    var u :| 0 <= u < once.count && key(once.slots[u]) == key(rec) && twice == once.(slots := once.slots[u := rec]);
    assert once.slots[u] == rec;
    assert once.slots[u := rec] == once.slots;
  }

  /**
    Once the inventory is full, a new key evicts exactly the record at the
    write index; every other slot and the count stay as they were.
  */
  lemma UpsertEvictsAtIndex<T>(t: Table<T>, rec: T, key: T -> seq<byte>)
    requires TableValid(t, key) && t.count == Capacity
    requires !Occurs(t.slots, t.count, key(rec), key)
    ensures var t' := Upsert(t, rec, key).0;
      t'.count == Capacity && t'.slots[t.index] == rec &&
      (forall i :: 0 <= i < Capacity && i != t.index ==> t'.slots[i] == t.slots[i]) &&
      t'.index == (t.index + 1) % Capacity
  {
  }

  /** Every occupied slot satisfies `p`. */
  ghost predicate AllOccupied<T>(t: Table<T>, p: T -> bool)
    requires t.count <= |t.slots|
  {
    forall i :: 0 <= i < t.count ==> p(t.slots[i])
  }

  /** A property of every stored record survives storing one more record that has it. */
  lemma UpsertKeepsAll<T>(t: Table<T>, rec: T, key: T -> seq<byte>, p: T -> bool)
    requires TableValid(t, key) && AllOccupied(t, p) && p(rec)
    ensures AllOccupied(Upsert(t, rec, key).0, p)
  {
    var (t', known) := Upsert(t, rec, key);
    forall i | 0 <= i < t'.count ensures p(t'.slots[i]) {
      if !known && i == t.index {
        assert t'.slots[i] == rec;
      } else if !known {
        assert i < t.count && t'.slots[i] == t.slots[i];
      }
    }
  }

  /** A scan that found the key at slot `u`: the store replaces that slot. */
  lemma UpsertKnown<T>(t: Table<T>, rec: T, key: T -> seq<byte>, u: nat)
    requires |t.slots| == Capacity && t.count <= Capacity && t.index < Capacity
    requires FindFrom(t.slots, t.count, key(rec), key, 0) == Some(u)
    ensures u < t.count && Upsert(t, rec, key) == (t.(slots := t.slots[u := rec]), true)
  {
  }

  /** A scan that did not find the key: the store writes at the index. */
  lemma UpsertNew<T>(t: Table<T>, rec: T, key: T -> seq<byte>)
    requires |t.slots| == Capacity && t.count <= Capacity && t.index < Capacity
    requires FindFrom(t.slots, t.count, key(rec), key, 0) == None
    ensures Upsert(t, rec, key) == (Table(t.slots[t.index := rec],
                                          if t.count < Capacity then t.count + 1 else t.count,
                                          if t.index + 1 == Capacity then 0 else t.index + 1), false)
  {
  }

  /** An inventory of records of type `T`, keyed by `key`, over a fixed array. */
  class Inventory<T(0)> {
    const key: T -> seq<byte>
    const slots: array<T>
    var count: nat
    var index: nat

    ghost function Abs(): Table<T>
      reads this, slots
    {
      Table(slots[..], count, index)
    }

    ghost predicate Valid()
      reads this, slots
    {
      slots.Length == Capacity && TableValid(Abs(), key)
    }

    /**
      The global array with both counters at 0. Its slots hold Dafny's default
      record rather than zero bytes; only slots `[0, count)` are ever read, so
      their contents do not matter.
    */
    constructor (key: T -> seq<byte>)
      ensures Valid() && fresh(slots)
      ensures this.key == key && count == 0 && index == 0
    {
      this.key := key;
      slots := new T[Capacity];
      count, index := 0, 0;
    }

    /** The scan loop of `store_beacon` / `store_client`: the first occupied slot holding key `k`. */
    method Find(k: seq<byte>) returns (r: Option<nat>)
      requires count <= slots.Length
      ensures r == FindFrom(slots[..], count, k, key, 0)
    {
      var u := 0;
      while u < count
        invariant 0 <= u <= count
        invariant FindFrom(slots[..], count, k, key, u) == FindFrom(slots[..], count, k, key, 0)
      {
        if key(slots[u]) == k {
          return Some(u);
        }
        u := u + 1;
      }
      return None;
    }

    /** `store_beacon` / `store_client`: returns whether the key was already known. */
    method Store(rec: T) returns (known: bool)
      requires Valid()
      modifies this, slots
      ensures Valid()
      ensures (Abs(), known) == Upsert(old(Abs()), rec, key)
    {
      ghost var t := Abs();
      var found := Find(key(rec));
      known := found.Some?;
      var at, newCount, newIndex := index, count, index;
      if known {
        at := found.value;
        UpsertKnown(t, rec, key, at);
      } else {
        UpsertNew(t, rec, key);
        newCount := if count < Capacity then count + 1 else count;
        newIndex := if index + 1 == Capacity then 0 else index + 1;
      }
      ghost var r := Table(t.slots[at := rec], newCount, newIndex);
      assert Upsert(t, rec, key) == (r, known);
      UpsertPreservesValid(t, rec, key);
      slots[at] := rec;
      count, index := newCount, newIndex;
      assert slots[..] == r.slots;
    }
  }
}
