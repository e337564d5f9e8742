/** The hash table in memory: entries in one array, values in another, and a rehash that replaces both. */
module HashTable {
  import opened NumberTheory
  import opened HashSpec
  import opened HashTableSpec
  import opened Primes
  import opened Bytes
  import opened Options

  datatype Status = EMPTY | ALIVE | DELETED

  datatype Entry = Entry(key: nat, status: Status)

  /** The slot that an entry and its value make; the key and value of a deleted entry are left over. */
  function SlotOf<V>(e: Entry, val: V): Slot<V> {
    match e.status
    case EMPTY => Slot.Empty
    case ALIVE => Slot.Alive(e.key, val)
    case DELETED => Slot.Tombstone
  }

  ghost function SlotsOf<V>(table: array<Entry>, vals: array<V>): (s: seq<Slot<V>>)
    reads table, vals
    requires table.Length == vals.Length
    ensures |s| == table.Length && forall i :: 0 <= i < |s| ==> s[i] == SlotOf(table[i], vals[i])
  {
    seq(table.Length, i requires 0 <= i < table.Length == vals.Length reads table, vals => SlotOf(table[i], vals[i]))
  }

  lemma Usable<V>(t: Table<V>)
    requires t.Valid()
    ensures WellFormed(t.slots) && |t.slots| >= 2
  {
  }

  lemma ReinsertNone<V>(slots: seq<Slot<V>>)
    requires WellFormed(slots)
    ensures Reinsert(slots, 0) == EmptyTable(|slots|) && EmptyTable<V>(|slots|).Valid()
  {
    EmptyIsValid<V>(|slots|);
  }

  lemma ReinsertOne<V>(slots: seq<Slot<V>>, i: nat)
    requires WellFormed(slots) && i < |slots|
    ensures Reinsert(slots, i + 1) ==
            if slots[i].Alive? then HashTableSpec.InsertSelf(Reinsert(slots, i), slots[i].key, slots[i].val).0
            else Reinsert(slots, i)
  {
  }

  class HashTable<V(==,0)> {
    var table: array<Entry>
    var vals: array<V>
    var size: nat
    var deleteCount: nat
    var aliveCount: nat

    ghost function Slots(): seq<Slot<V>>
      reads this, table, vals
      requires table.Length == vals.Length
    {
      SlotsOf(table, vals)
    }

    ghost function State(): Table<V>
      reads this, table, vals
      requires table.Length == vals.Length
    {
      Table(Slots(), deleteCount, aliveCount)
    }

    ghost predicate Valid()
      reads this, table, vals
    {
      && table.Length == vals.Length == size
      && table as object != vals
      && State().Valid()
    }

    constructor (size: nat)
      requires Prime(size)
      ensures Valid() && this.size == size && State() == EmptyTable(size) && State().Map() == map[]
      ensures fresh(table) && fresh(vals)
    {
      this.size := size;
      table := new Entry[size](_ => Entry(0, EMPTY));
      vals := new V[size];
      deleteCount, aliveCount := 0, 0;
      new;
      assert Slots() == EmptySlots<V>(size);
      EmptyIsValid<V>(size);
    }

    /** Makes the target slot live. */
    method Store(s: nat, key: nat, val: V)
      requires table.Length == vals.Length && s < table.Length && table as object != vals
      modifies table, vals
      ensures Slots() == old(Slots())[s := Slot.Alive(key, val)]
    {
      table[s] := Entry(key, ALIVE);
      vals[s] := val;
    }

    /** The probe loop of an insertion. */
    method Place(key: nat, val: V) returns (ok: bool)
      requires Valid()
      modifies this`deleteCount, this`aliveCount, table, vals
      ensures (State(), ok) == HashTableSpec.InsertSelf(old(State()), key, val)
    {
      hide WellFormed;
      hide Tombstones;
      hide Probe;
      ghost var t := State();
      Usable(t);
      PutCounts(t, key, val);
      var first := -1;
      var i := 0;
      while i < size
        invariant 0 <= i <= size && State() == t && -1 <= first < size
        invariant Seek(t.slots, key, 0, None) == Seek(t.slots, key, i, if first == -1 then None else Some(first))
      {
        var s := Probe(key, i, size);
        assert t.slots[s] == SlotOf(table[s], vals[s]);
        if table[s].status == ALIVE && table[s].key == key {
          return vals[s] != val;
        }
        if first == -1 && table[s].status == DELETED {
          first := s;
        }
        if table[s].status == EMPTY {
          var target := if first != -1 then first else s;
          assert Seek(t.slots, key, 0, None) == AtFree(target, first != -1);
          if first != -1 {
            deleteCount := deleteCount - 1;
          }
          Store(target, key, val);
          aliveCount := Wrap32(aliveCount + 1);
          return true;
        }
        i := i + 1;
      }
      if first != -1 {
        Store(first, key, val);
        deleteCount := deleteCount - 1;
        aliveCount := Wrap32(aliveCount + 1);
        return true;
      }
      return false;
    }

    /** Inserts a key; with `check` a rehash may come first. */
    method InsertSelf(key: nat, val: V, check: bool, memory: bool) returns (ok: bool)
      requires Valid()
      modifies this, table, vals
      ensures Valid() && size == old(size)
      ensures (table == old(table) && vals == old(vals)) || (check && fresh(table) && fresh(vals))
      ensures var before := old(State());
              (State(), ok) == if check then HashTableSpec.Insert(before, key, val, memory)
                               else HashTableSpec.InsertSelf(before, key, val)
      decreases if check then 2 else 0
    {
      hide WellFormed;
      hide Tombstones;
      hide Reinsert;
      if check {
        HashCheck(memory);
      }
      InsertSelfMeaning(State(), key, val);
      ok := Place(key, val);
    }

    method HashCheck(memory: bool)
      requires Valid()
      modifies this, table, vals
      ensures Valid() && size == old(size)
      ensures (table == old(table) && vals == old(vals)) || (fresh(table) && fresh(vals))
      ensures State() == Check(old(State()), memory)
      decreases 1, 1
    {
      hide WellFormed;
      hide Tombstones;
      hide Reinsert;
      var occupied := Wrap32(aliveCount + deleteCount);
      if Wrap32(occupied * 4) <= Wrap32(size * 3) || Wrap32(deleteCount * 3) <= aliveCount {
        return;
      }
      if !memory { return; }
      Rehash();
    }

    /** New arrays of the same size, without entries. */
    method Renew()
      requires 0 < size
      modifies this
      ensures size == old(size) && fresh(table) && fresh(vals) && table as object != vals
      ensures table.Length == vals.Length == size
      ensures Slots() == EmptySlots<V>(size) && deleteCount == aliveCount == 0
    {
      table := new Entry[size](_ => Entry(0, EMPTY));
      vals := new V[size];
      deleteCount, aliveCount := 0, 0;
      assert Slots() == EmptySlots<V>(size);
    }

    /** Moves the live entries to new arrays of the same size. */
    method Rehash()
      requires Valid()
      modifies this
      ensures Valid() && size == old(size) && fresh(table) && fresh(vals)
      ensures State() == Reinsert(old(Slots()), size)
      decreases 1, 0
    {
      hide WellFormed;
      hide Tombstones;
      hide Reinsert;
      hide HashTableSpec.InsertSelf;
      ghost var slots := Slots();
      Usable(State());
      var oldTable, oldVals := table, vals;
      Renew();
      ReinsertNone(slots);
      var i := 0;
      while i < size
        invariant 0 <= i <= size == oldTable.Length == oldVals.Length && size == old(size)
        invariant Valid() && fresh(table) && fresh(vals)
        invariant SlotsOf(oldTable, oldVals) == slots
        invariant State() == Reinsert(slots, i)
      {
        ReinsertOne(slots, i);
        assert slots[i] == SlotOf(oldTable[i], oldVals[i]);
        if oldTable[i].status == ALIVE {
          var _ := InsertSelf(oldTable[i].key, oldVals[i], false, true);
        }
        i := i + 1;
      }
    }

    method Insert(key: nat, val: V, memory: bool) returns (ok: bool)
      requires Valid()
      modifies this, table, vals
      ensures Valid() && size == old(size)
      ensures (State(), ok) == HashTableSpec.Insert(old(State()), key, val, memory)
    {
      ok := InsertSelf(key, val, true, memory);
    }

    method Query(key: nat) returns (r: Option<V>)
      requires Valid()
      ensures r == if key in State().Map() then Some(State().Map()[key]) else None
    {
      QueryMeaning(State(), key);
      ghost var slots := Slots();
      var i := 0;
      while i < size
        invariant 0 <= i <= size && Find(slots, key, 0) == Find(slots, key, i)
      {
        var s := (key + i * i) % size;
        assert slots[s] == SlotOf(table[s], vals[s]);
        if table[s].status == ALIVE && table[s].key == key {
          return Some(vals[s]);
        }
        if table[s].status == EMPTY {
          return None;
        }
        i := i + 1;
      }
      return None;
    }

    method Delete(key: nat, memory: bool) returns (ok: bool)
      requires Valid()
      modifies this, table, vals
      ensures Valid() && size == old(size)
      ensures (State(), ok) == HashTableSpec.Delete(old(State()), key, memory)
    {
      hide WellFormed;
      hide MapOf;
      hide Tombstones;
      hide Reinsert;
      hide CheckFires;
      hide Wrap32;
      hide Find;
      hide Shallow;
      hide DeletionReachesBelow;
      Usable(State());
      DeleteMeaning(State(), key, memory, 0);
      HashCheck(memory);
      ghost var t := State();
      var i := 0;
      while i < size
        invariant 0 <= i <= size && State() == t && Valid()
        invariant FindWrapped(t.slots, key, 0) == FindWrapped(t.slots, key, i)
        invariant (table == old(table) && vals == old(vals)) || (fresh(table) && fresh(vals))
      {
        var s := (key + Wrap32(i * i)) % size;
        assert t.slots[s] == SlotOf(table[s], vals[s]);
        if table[s].status == ALIVE && table[s].key == key {
          table[s] := table[s].(status := DELETED);
          deleteCount := deleteCount + 1;
          assert Slots() == t.slots[s := Slot.Tombstone];
          return true;
        }
        if table[s].status == EMPTY {
          return false;
        }
        i := i + 1;
      }
      return false;
    }
  }

  const MAX_HASH_TABLE_SIZE := 500000

  /** The index of the first sample from `k` on that is at least `wanted`. */
  function FirstFrom(samples: seq<nat>, wanted: nat, k: nat): (r: nat)
    requires k <= |samples|
    ensures k <= r <= |samples| && (forall j :: k <= j < r ==> samples[j] < wanted)
    ensures r < |samples| ==> samples[r] >= wanted
    decreases |samples| - k
  {
    if k == |samples| || samples[k] >= wanted then k else FirstFrom(samples, wanted, k + 1)
  }

  /** The size of the table that is made for `number` keys, if one is: the doubling is done in 64 bits. */
  function CreatedSize(samples: seq<nat>, number: nat): Option<nat> {
    var r := FirstFrom(samples, Wrap64(number * 2), 0);
    if r == |samples| then None else Some(samples[r])
  }

  /** Samples of primes as the program's table holds them. */
  ghost predicate IsSample(samples: seq<nat>) {
    && samples != [] && (forall k :: 0 <= k < |samples| ==> samples[k] < MAX_HASH_TABLE_SIZE)
    && forall j, k :: 0 <= j < k < |samples| ==> samples[j] < samples[k]
  }

  /** The smallest sampled prime that leaves half of the slots free; the doubling is done in 64 bits. */
  method HashCreate<V(==,0)>(primes: PrimeTable, number: nat) returns (h: HashTable?<V>)
    requires primes.Filled(MAX_HASH_TABLE_SIZE) && 0 < primes.primeSize
    ensures IsSample(primes.prime[..])
    ensures CreatedSize(primes.prime[..], number) == if h == null then None else Some(h.size)
    ensures var wanted := Wrap64(number * 2);
            && (h == null <==> forall k :: 0 <= k < primes.primeSize ==> primes.prime[k] < wanted)
            && (h != null ==>
                  && fresh(h) && h.Valid() && h.State() == EmptyTable(h.size) && h.size >= wanted
                  && exists r :: 0 <= r < primes.primeSize && primes.prime[r] == h.size
                                 && forall k :: 0 <= k < r ==> primes.prime[k] < wanted)
  {
    primes.FilledWithPrimes(MAX_HASH_TABLE_SIZE);
    var wanted := Wrap64(number * 2);
    ghost var first := FirstFrom(primes.prime[..], wanted, 0);
    if wanted >= MAX_HASH_TABLE_SIZE { return null; }
    var r := primes.Search(wanted);
    var size := primes.prime[r];
    if size < wanted { return null; }
    h := new HashTable<V>(size);
  }

  /** Whatever table is made for `number` keys has room for them, if and only if the doubling does not wrap, or wraps to
      more than the last sample, for which no table is made. */
  lemma CreatedHalfFull(samples: seq<nat>, number: nat)
    requires IsSample(samples) && number < TWO_TO_THE_64
    ensures (CreatedSize(samples, number).Some? ==> number <= CreatedSize(samples, number).value / 2) <==>
            number < TWO_TO_THE_64 / 2 || Wrap64(number * 2) > samples[|samples| - 1]
  {
    var r := FirstFrom(samples, Wrap64(number * 2), 0);
    if number < TWO_TO_THE_64 / 2 {
      assert Wrap64(number * 2) == number * 2;
    } else if r < |samples| {
      assert number > samples[r] / 2;
      assert r == |samples| - 1 || samples[r] < samples[|samples| - 1];
    }
  }

  /** For 2^63 keys the smallest table is made. */
  lemma WrappedNumberIsMade(samples: seq<nat>)
    requires IsSample(samples)
    ensures CreatedSize(samples, TWO_TO_THE_64 / 2) == Some(samples[0]) && samples[0] / 2 < TWO_TO_THE_64 / 2
  {
    assert Wrap64(TWO_TO_THE_64 / 2 * 2) == 0;
  }
}
