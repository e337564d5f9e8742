/** The hash table as a state with its counters: insertion, query, deletion and the same-size rehash, and the proof
    that a table at most half full is a finite map over every run. */
module HashTableSpec {
  import opened NumberTheory
  import opened HashSpec
  import opened Options

  const TWO_TO_THE_32: int := 0x1_0000_0000

  /** Unsigned 32-bit arithmetic. */
  function Wrap32(n: int): (r: nat)
    ensures r < TWO_TO_THE_32
  {
    n % TWO_TO_THE_32
  }

  /** `aliveCount` only grows between rehashes: deletion does not lower it. */
  datatype Table<+V> = Table(slots: seq<Slot<V>>, deleteCount: nat, aliveCount: nat) {
    ghost predicate Valid() {
      WellFormed(slots) && deleteCount == |Tombstones(slots)|
    }

    ghost function Map(): map<nat, V>
      requires Valid()
    {
      MapOf(slots)
    }

    function Size(): nat { |slots| }
  }

  function EmptySlots<V>(size: nat): seq<Slot<V>> { seq(size, _ => Empty) }

  function EmptyTable<V>(size: nat): Table<V> { Table(EmptySlots(size), 0, 0) }

  lemma TombstonesAt<V>(slots: seq<Slot<V>>, s: nat, x: Slot<V>)
    requires s < |slots|
    ensures |Tombstones(slots[s := x])| ==
            |Tombstones(slots)| - (if slots[s].Tombstone? then 1 else 0) + (if x.Tombstone? then 1 else 0)
  {
    var rest := Tombstones(slots) - {s};
    assert Tombstones(slots) == if slots[s].Tombstone? then rest + {s} else rest;
    assert Tombstones(slots[s := x]) == if x.Tombstone? then rest + {s} else rest;
  }

  lemma EmptyIsValid<V>(size: nat)
    requires Prime(size)
    ensures EmptyTable<V>(size).Valid() && EmptyTable<V>(size).Map() == map[]
  {
    assert Tombstones(EmptySlots<V>(size)) == {};
  }

  /** Insertion without the rehash check; the answer is false when the same value is there, or nothing fits. */
  function InsertSelf<V(==)>(t: Table<V>, key: nat, val: V): (r: (Table<V>, bool))
    requires t.Valid()
    ensures r.0.Size() == t.Size()
  {
    PutCounts(t, key, val);
    var (slots, outcome) := Put(t.slots, key, val);
    match outcome
    case Same => (t, false)
    case Differs => (t, true)
    case Stored(reused) =>
      (Table(slots, if reused then t.deleteCount - 1 else t.deleteCount, Wrap32(t.aliveCount + 1)), true)
    case Refused => (t, false)
  }

  lemma PutCounts<V>(t: Table<V>, key: nat, val: V)
    requires t.Valid()
    ensures var (slots, outcome) := Put(t.slots, key, val);
            outcome.Stored? ==> |Tombstones(slots)| == t.deleteCount - (if outcome.reused then 1 else 0)
  {
    SeekMeaning(t.slots, key, 0, None);
    match Seek(t.slots, key, 0, None)
    case AtFree(s, reused) => TombstonesAt(t.slots, s, Alive(key, val));
    case _ =>
  }

  lemma InsertSelfMeaning<V>(t: Table<V>, key: nat, val: V)
    requires t.Valid()
    ensures var (t', answer) := InsertSelf(t, key, val);
            && t'.Valid()
            && (key in t.Map() ==> t' == t && answer == (t.Map()[key] != val))
            && (key !in t.Map() && answer ==> t'.Map() == t.Map()[key := val])
            && (key !in t.Map() && !answer ==> t' == t)
            && (key !in t.Map() && |t.Map()| <= t.Size() / 2 ==> answer)
  {
    hide Put;
    PutMeaning(t.slots, key, val);
    PutCounts(t, key, val);
    if |t.Map()| <= t.Size() / 2 {
      RoomForOneMore(t.slots, key, val);
    }
  }

  /** Reinserts the live entries of the first `n` old slots; whether an insertion succeeds is not looked at. */
  function Reinsert<V(==)>(source: seq<Slot<V>>, n: nat): (t: Table<V>)
    requires WellFormed(source) && n <= |source|
    ensures t.Valid() && t.Size() == |source|
    decreases n
  {
    if n == 0 then EmptyIsValid<V>(|source|); EmptyTable(|source|)
    else
      var t := Reinsert(source, n - 1);
      if source[n - 1].Alive? then
        InsertSelfMeaning(t, source[n - 1].key, source[n - 1].val);
        InsertSelf(t, source[n - 1].key, source[n - 1].val).0
      else t
  }

  /** The check's condition, in 32-bit arithmetic. */
  predicate CheckFires(size: nat, aliveCount: nat, deleteCount: nat) {
    && Wrap32(Wrap32(aliveCount + deleteCount) * 4) > Wrap32(size * 3)
    && Wrap32(deleteCount * 3) > aliveCount
  }

  /** Without wrapping: more than three quarters of the slots are in use, more than a quarter of those tombstones. */
  lemma CheckFiresExactly(size: nat, aliveCount: nat, deleteCount: nat)
    requires aliveCount + deleteCount <= size < 0x4000_0000
    ensures CheckFires(size, aliveCount, deleteCount) <==>
            4 * (aliveCount + deleteCount) > 3 * size && 4 * deleteCount > aliveCount + deleteCount
  {
    var n := aliveCount + deleteCount;
    assert Wrap32(n) == n && Wrap32(n * 4) == n * 4;
    assert Wrap32(size * 3) == size * 3 && Wrap32(deleteCount * 3) == deleteCount * 3;
  }

  /** `hash_check`: a rehash, if the counters ask for one and its memory can be had. */
  function Check<V(==)>(t: Table<V>, memory: bool): (t': Table<V>)
    requires t.Valid()
    ensures t'.Valid() && t'.Size() == t.Size()
  {
    if memory && CheckFires(t.Size(), t.aliveCount, t.deleteCount) then Reinsert(t.slots, t.Size()) else t
  }

  function Insert<V(==)>(t: Table<V>, key: nat, val: V, memory: bool): (r: (Table<V>, bool))
    requires t.Valid()
  {
    InsertSelf(Check(t, memory), key, val)
  }

  function Query<V>(t: Table<V>, key: nat): Option<V>
    requires t.Valid()
  {
    match Find(t.slots, key, 0)
    case Some(s) => Some(t.slots[s].val)
    case None => None
  }

  /** Deletion probes with a product of two 32-bit numbers, which wraps from 65536 on. */
  function WrappedProbe(key: nat, i: nat, size: nat): (s: nat)
    requires size > 0
    ensures s < size
  {
    (key + Wrap32(i * i)) % size
  }

  function FindWrapped<V>(slots: seq<Slot<V>>, key: nat, i: nat): (r: Option<nat>)
    requires slots != [] && i <= |slots|
    ensures r.Some? ==> r.value < |slots| && Holds(slots[r.value], key)
    decreases |slots| - i
  {
    if i == |slots| then None
    else
      var s := WrappedProbe(key, i, |slots|);
      if Holds(slots[s], key) then Some(s)
      else if slots[s].Empty? then None
      else FindWrapped(slots, key, i + 1)
  }

  function Delete<V(==)>(t: Table<V>, key: nat, memory: bool): (r: (Table<V>, bool))
    requires t.Valid()
  {
    var c := Check(t, memory);
    match FindWrapped(c.slots, key, 0)
    case Some(s) => (c.(slots := c.slots[s := Tombstone], deleteCount := c.deleteCount + 1), true)
    case None => (c, false)
  }

  // What a rehash keeps.

  lemma UniquePrefix<V>(slots: seq<Slot<V>>, n: nat)
    requires Unique(slots) && n <= |slots|
    ensures Unique(slots[..n])
  {
  }

  lemma MapPrefix<V>(slots: seq<Slot<V>>, n: nat)
    requires Unique(slots) && n < |slots| && Unique(slots[..n]) && Unique(slots[..n + 1])
    ensures slots[n].Alive? ==> slots[n].key !in MapOf(slots[..n])
    ensures MapOf(slots[..n + 1]) ==
            if slots[n].Alive? then MapOf(slots[..n])[slots[n].key := slots[n].val] else MapOf(slots[..n])
  {
    var a, b := slots[..n], slots[..n + 1];
    assert b == a + [slots[n]];
    forall k
      ensures k in MapOf(b) <==> k in MapOf(a) || Holds(slots[n], k)
      ensures k in MapOf(a) ==> !Holds(slots[n], k) && MapOf(b)[k] == MapOf(a)[k]
    {
      MapMeaning(a, k);
      MapMeaning(b, k);
      if s :| 0 <= s < n && Holds(a[s], k) {
        assert b[s] == a[s] && slots[s] == a[s];
      }
      if s :| 0 <= s < n + 1 && Holds(b[s], k) {
        assert s < n ==> a[s] == b[s];
      }
      if Holds(slots[n], k) {
        assert Holds(b[n], k);
      }
    }
  }

  lemma MapPrefixSize<V>(slots: seq<Slot<V>>, n: nat)
    requires Unique(slots) && n <= |slots| && Unique(slots[..n])
    ensures MapOf(slots[..n]).Keys <= MapOf(slots).Keys
  {
    forall k | k in MapOf(slots[..n])
      ensures k in MapOf(slots)
    {
      MapMeaning(slots[..n], k);
      MapMeaning(slots, k);
      var s :| 0 <= s < n && Holds(slots[..n][s], k);
      assert slots[s] == slots[..n][s];
    }
  }

  /** Reinserting never invents or changes an entry, and drops none if at most p/2 + 1 keys are live. */
  lemma {:induction false} ReinsertMeaning<V>(slots: seq<Slot<V>>, n: nat)
    requires WellFormed(slots) && n <= |slots| && Unique(slots[..n])
    ensures Reinsert(slots, n).Map().Keys <= MapOf(slots[..n]).Keys
    ensures forall k :: k in Reinsert(slots, n).Map() ==> Reinsert(slots, n).Map()[k] == MapOf(slots[..n])[k]
    ensures |MapOf(slots)| <= |slots| / 2 + 1 ==> Reinsert(slots, n).Map() == MapOf(slots[..n])
    decreases n
  {
    hide InsertSelf;
    hide MapOf;
    hide Prime;
    hide Unique;
    hide Reachable;
    if n == 0 {
      EmptyIsValid<V>(|slots|);
      NoEntries(slots);
    } else {
      UniquePrefix(slots, n - 1);
      ReinsertMeaning(slots, n - 1);
      MapPrefix(slots, n - 1);
      if slots[n - 1].Alive? {
        var t := Reinsert(slots, n - 1);
        InsertSelfMeaning(t, slots[n - 1].key, slots[n - 1].val);
        PrefixIsSmaller(slots, n - 1);
      }
    }
  }

  lemma NoEntries<V>(slots: seq<Slot<V>>)
    requires Unique(slots[..0])
    ensures MapOf(slots[..0]) == map[]
  {
  }

  lemma PrefixIsSmaller<V>(slots: seq<Slot<V>>, n: nat)
    requires Unique(slots) && n < |slots| && slots[n].Alive? && Unique(slots[..n])
    ensures |MapOf(slots[..n])| < |MapOf(slots)|
  {
    UniquePrefix(slots, n + 1);
    MapPrefix(slots, n);
    MapPrefixSize(slots, n + 1);
    SetSize(MapOf(slots[..n + 1]).Keys, MapOf(slots).Keys);
    assert MapOf(slots[..n + 1]).Keys == MapOf(slots[..n]).Keys + {slots[n].key};
  }

  /** The check keeps the map of a table with at most p/2 + 1 live keys, whether or not it rehashes; in a fuller
      table it may lose entries but changes none. */
  lemma CheckMeaning<V>(t: Table<V>, memory: bool)
    requires t.Valid()
    ensures var t' := Check(t, memory);
            && t'.Map().Keys <= t.Map().Keys
            && (forall k :: k in t'.Map() ==> t'.Map()[k] == t.Map()[k])
            && (|t.Map()| <= t.Size() / 2 + 1 ==> t'.Map() == t.Map())
  {
    assert t.slots[..t.Size()] == t.slots;
    ReinsertMeaning(t.slots, t.Size());
  }

  // The operations on the map.

  lemma QueryMeaning<V>(t: Table<V>, key: nat)
    requires t.Valid()
    ensures Query(t, key) == if key in t.Map() then Some(t.Map()[key]) else None
  {
    FindMeaning(t.slots, key, 0);
    MapMeaning(t.slots, key);
  }

  /** On a table that the check does not shrink, insertion is insertion into the map. */
  lemma InsertMeaning<V>(t: Table<V>, key: nat, val: V, memory: bool)
    requires t.Valid() && |t.Map()| <= t.Size() / 2 + 1
    ensures var (t', answer) := Insert(t, key, val, memory);
            && t'.Valid() && t'.Size() == t.Size()
            && (key in t.Map() ==> t'.Map() == t.Map() && answer == (t.Map()[key] != val))
            && (key !in t.Map() ==> t'.Map() == if answer then t.Map()[key := val] else t.Map())
            && (key !in t.Map() && |t.Map()| <= t.Size() / 2 ==> answer)
  {
    hide InsertSelf;
    hide Reinsert;
    CheckMeaning(t, memory);
    InsertSelfMeaning(Check(t, memory), key, val);
  }

  /** The 32-bit product of an index with itself is the product. */
  predicate ExactSquare(i: nat) {
    Wrap32(i * i) == i * i
  }

  lemma SmallSquareIsExact(i: nat)
    requires i < 65536
    ensures ExactSquare(i)
  {
    SquareBound(i);
    SmallWrap(i * i);
  }

  lemma SquareBound(i: nat)
    requires i < 65536
    ensures 0 <= i * i < TWO_TO_THE_32
  {
    NonNegative(i, i);
    MultiplyBound(i, i, 65535);
  }

  lemma SmallWrap(n: int)
    requires 0 <= n < TWO_TO_THE_32
    ensures Wrap32(n) == n
  {
  }

  /** All the probes that reach new slots use exact squares if and only if the size is less than 131072. */
  lemma WrappedProbesSuffice(size: nat)
    ensures (forall i: nat :: i <= LastNew(size) ==> ExactSquare(i)) <==> size < 131072
  {
    if size < 131072 {
      forall i: nat | i <= LastNew(size)
        ensures ExactSquare(i)
      {
        SmallSquareIsExact(i);
      }
    } else {
      assert !ExactSquare(65536);
    }
  }

  /** On a larger prime size the probe with index 65536 looks at another slot than insertion does. */
  lemma WrappedProbeMisses(p: nat, key: nat)
    requires Prime(p) && p > 131072
    ensures WrappedProbe(key, 65536, p) != Probe(key, 65536, p)
  {
    PrimeSparesProduct(p, 65536, 65536);
    Congruent(p, key, key + 65536 * 65536);
  }

  // What a deletion finds.

  /** The deletion loop's probe `m` looks at the slot of insertion's probe `i`, and all its probes before at slots that
      insertion probes before that. The key, here 0, only shifts all of them. */
  ghost predicate DeletionMeets(p: nat, i: nat, m: nat)
    requires p > 0
  {
    && WrappedProbe(0, m, p) == Probe(0, i, p)
    && forall j: nat :: j < m ==> WrappedProbe(0, j, p) in Reached(0, i, p)
  }

  ghost predicate DeletionReaches(p: nat, i: nat)
    requires p > 0
  {
    exists m: nat :: m < p && DeletionMeets(p, i, m)
  }

  /** The deletion loop gets to the slots of the first `n` probes. */
  ghost predicate DeletionReachesBelow(p: nat, n: nat)
    requires p > 0
  {
    forall i: nat :: i < n ==> DeletionReaches(p, i)
  }

  lemma Shift(p: nat, key: nat, x: nat, y: nat)
    requires p > 0
    ensures (key + x) % p == (key + y) % p <==> x % p == y % p
  {
    Congruent(p, x, y);
    Congruent(p, key + x, key + y);
    assert (key + y) - (key + x) == y - x;
  }

  lemma ShiftProbe(p: nat, key: nat, j: nat, i: nat)
    requires p > 0
    ensures WrappedProbe(key, j, p) == Probe(key, i, p) <==> WrappedProbe(0, j, p) == Probe(0, i, p)
  {
    Shift(p, key, Wrap32(j * j), i * i);
  }

  lemma ShiftReached(p: nat, key: nat, j: nat, i: nat)
    requires p > 0
    ensures WrappedProbe(key, j, p) in Reached(key, i, p) <==> WrappedProbe(0, j, p) in Reached(0, i, p)
  {
    hide Probe;
    hide WrappedProbe;
    forall k | 0 <= k < i
      ensures WrappedProbe(key, j, p) == Probe(key, k, p) <==> WrappedProbe(0, j, p) == Probe(0, k, p)
    {
      ShiftProbe(p, key, j, k);
    }
  }

  /** Up to index 65536 the deletion loop probes as the insertion loop does. */
  lemma ExactProbesReach(p: nat, n: nat)
    requires n <= 65536 && n <= p && p > 0
    ensures DeletionReachesBelow(p, n)
  {
    forall i: nat | i < n
      ensures DeletionReaches(p, i)
    {
      forall j: nat | j <= i
        ensures WrappedProbe(0, j, p) == Probe(0, j, p)
      {
        SmallSquareIsExact(j);
      }
      assert DeletionMeets(p, i, i);
    }
  }

  /** Every live key lies on its own probe path within the first `n` probes. */
  ghost predicate Shallow<V>(slots: seq<Slot<V>>, n: nat)
    requires slots != []
  {
    forall s :: 0 <= s < |slots| && slots[s].Alive? ==> exists i: nat :: i < n && OnPath(slots, slots[s].key, i, s)
  }

  /** A live key on its path at a probe that deletion reaches is found. */
  lemma {:induction false} FindWrappedReaches<V>(slots: seq<Slot<V>>, key: nat, i: nat, m: nat, j: nat)
    requires slots != [] && j <= m < |slots| && DeletionMeets(|slots|, i, m)
    requires exists s: nat :: OnPath(slots, key, i, s) && Holds(slots[s], key)
    ensures FindWrapped(slots, key, j).Some?
    decreases m - j
  {
    hide Probe;
    hide WrappedProbe;
    ShiftProbe(|slots|, key, m, i);
    if j < m {
      ShiftReached(|slots|, key, j, i);
      var k :| 0 <= k < i && WrappedProbe(key, j, |slots|) == Probe(key, k, |slots|);
      assert !At(slots, key, k).Empty?;
      FindWrappedReaches(slots, key, i, m, j + 1);
    }
  }

  /** The first p/2 + 1 probes suffice: the others return to the same slots. */
  lemma WellFormedIsShallow<V>(slots: seq<Slot<V>>)
    requires WellFormed(slots)
    ensures Shallow(slots, |slots| / 2 + 1)
  {
    forall s | 0 <= s < |slots| && slots[s].Alive?
      ensures exists i: nat :: i < |slots| / 2 + 1 && OnPath(slots, slots[s].key, i, s)
    {
      var key := slots[s].key;
      var i: nat :| OnPath(slots, key, i, s);
      if i > LastNew(|slots|) {
        ProbesFold(|slots|, key, i);
        assert OnPath(slots, key, |slots| - i, s);
      }
    }
  }

  /** The deletion loop finds every live key, if it gets to the slots of all probes at which keys lie. */
  lemma FindWrappedMeaning<V>(slots: seq<Slot<V>>, key: nat, n: nat)
    requires WellFormed(slots) && Shallow(slots, n) && DeletionReachesBelow(|slots|, n)
    ensures FindWrapped(slots, key, 0).None? ==> Absent(slots, key)
  {
    hide Prime;
    hide Probe;
    hide Unique;
    hide Reachable;
    hide FindWrapped;
    hide DeletionMeets;
    hide OnPath;
    if s: nat :| s < |slots| && Holds(slots[s], key) {
      var i: nat :| i < n && OnPath(slots, key, i, s);
      assert DeletionReaches(|slots|, i);
      var m: nat :| m < |slots| && DeletionMeets(|slots|, i, m);
      FindWrappedReaches(slots, key, i, m, 0);
    }
  }

  /** Deletion removes just the key and says whether it was there, unless the deletion loop overlooks it. */
  lemma DeleteMeaning<V>(t: Table<V>, key: nat, memory: bool, n: nat)
    requires t.Valid()
    ensures var (t', answer) := Delete(t, key, memory);
            var m := Check(t, memory).Map();
            && t'.Valid() && t'.Size() == t.Size()
            && t'.Map() == (if answer then m - {key} else m)
            && (answer ==> key in m)
            && (Shallow(Check(t, memory).slots, n) && DeletionReachesBelow(t.Size(), n) ==> answer == (key in m))
            && (|t.Map()| <= t.Size() / 2 + 1 ==> m == t.Map())
  {
    hide Prime;
    hide FindWrapped;
    hide Find;
    hide Reinsert;
    hide Shallow;
    hide DeletionReachesBelow;
    CheckMeaning(t, memory);
    var c := Check(t, memory);
    MapMeaning(c.slots, key);
    var found := FindWrapped(c.slots, key, 0);
    if found.Some? {
      RemoveMeaning(c.slots, found.value);
      TombstonesAt(c.slots, found.value, Tombstone);
    }
    if Shallow(c.slots, n) && DeletionReachesBelow(t.Size(), n) {
      FindWrappedMeaning(c.slots, key, n);
    }
  }
}
