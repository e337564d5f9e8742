/** Runs of the hash table against runs of a finite map. */
module HashRuns {
  import opened NumberTheory
  import opened HashSpec
  import opened HashTableSpec
  import opened HashDepth
  import opened Options

  /** An operation; `memory` says whether a rehash it asks for gets its memory. */
  datatype Op<+V> = InsertOp(key: nat, val: V, memory: bool) | QueryOp(key: nat) | DeleteOp(key: nat, memory: bool)

  datatype Answer<+V> = Flag(b: bool) | Result(v: Option<V>)

  function Step<V(==)>(t: Table<V>, op: Op<V>): (Table<V>, Answer<V>)
    requires t.Valid()
  {
    match op
    case InsertOp(key, val, memory) => var (t', b) := Insert(t, key, val, memory); (t', Flag(b))
    case QueryOp(key) => (t, Result(Query(t, key)))
    case DeleteOp(key, memory) => var (t', b) := Delete(t, key, memory); (t', Flag(b))
  }

  /** The same operation on a finite map, where a present key keeps its value. */
  function MapStep<V(==)>(m: map<nat, V>, op: Op<V>): (map<nat, V>, Answer<V>) {
    match op
    case InsertOp(key, val, _) => if key in m then (m, Flag(m[key] != val)) else (m[key := val], Flag(true))
    case QueryOp(key) => (m, Result(if key in m then Some(m[key]) else None))
    case DeleteOp(key, _) => (m - {key}, Flag(key in m))
  }

  lemma StepKeepsValid<V>(t: Table<V>, op: Op<V>)
    requires t.Valid()
    ensures Step(t, op).0.Valid() && Step(t, op).0.Size() == t.Size()
  {
    match op
    case InsertOp(key, val, memory) => InsertSelfMeaning(Check(t, memory), key, val);
    case QueryOp(key) =>
    case DeleteOp(key, memory) => DeleteMeaning(t, key, memory, 0);
  }

  function Run<V(==)>(t: Table<V>, ops: seq<Op<V>>): (Table<V>, seq<Answer<V>>)
    requires t.Valid()
    decreases |ops|
  {
    if ops == [] then (t, [])
    else
      StepKeepsValid(t, ops[0]);
      var (t', a) := Step(t, ops[0]);
      var (t'', as_) := Run(t', ops[1..]);
      (t'', [a] + as_)
  }

  function MapRun<V(==)>(m: map<nat, V>, ops: seq<Op<V>>): (map<nat, V>, seq<Answer<V>>)
    decreases |ops|
  {
    if ops == [] then (m, [])
    else
      var (m', a) := MapStep(m, ops[0]);
      var (m'', as_) := MapRun(m', ops[1..]);
      (m'', [a] + as_)
  }

  /** The run never adds a key to a map that already has `capacity` keys. */
  ghost predicate Within<V>(m: map<nat, V>, ops: seq<Op<V>>, capacity: nat)
    decreases |ops|
  {
    ops == [] ||
    ((ops[0].InsertOp? && ops[0].key !in m ==> |m| < capacity) && Within(MapStep(m, ops[0]).0, ops[1..], capacity))
  }

  lemma MapStepSize<V>(m: map<nat, V>, op: Op<V>, capacity: nat)
    requires |m| <= capacity && (op.InsertOp? && op.key !in m ==> |m| < capacity)
    ensures |MapStep(m, op).0| <= capacity
  {
    if op.DeleteOp? {
      SetSize((m - {op.key}).Keys, m.Keys);
    }
  }

  /** A table that runs with at most `n` keys get to, on a size whose deletion loop gets to all of them. */
  ghost predicate Fit<V>(t: Table<V>, n: nat) {
    t.Valid() && |t.Map()| <= n <= t.Size() / 2 + 1 && Shallow(t.slots, n) && DeletionReachesBelow(t.Size(), n)
  }

  lemma StepRefines<V>(t: Table<V>, op: Op<V>, n: nat)
    requires Fit(t, n) && (op.InsertOp? && op.key !in t.Map() ==> |t.Map()| < n)
    ensures Fit(Step(t, op).0, n)
    ensures Step(t, op).0.Map() == MapStep(t.Map(), op).0 && Step(t, op).1 == MapStep(t.Map(), op).1
  {
    hide Insert;
    hide Delete;
    hide Query;
    hide Check;
    hide MapOf;
    hide WellFormed;
    hide Tombstones;
    hide Shallow;
    hide DeletionReachesBelow;
    MapStepSize(t.Map(), op, n);
    match op
    case InsertOp(key, val, memory) =>
      InsertMeaning(t, key, val, memory);
      InsertIsShallow(t, key, val, memory, n);
    case QueryOp(key) => QueryMeaning(t, key);
    case DeleteOp(key, memory) =>
      CheckIsShallow(t, memory, n);
      DeleteMeaning(t, key, memory, n);
      DeleteIsShallow(t, key, memory, n);
  }

  /** Over every run that keeps at most `n` keys, up to p/2 + 1, the answers and the final contents are the map's,
      whenever the check fires and whether or not it gets its memory. */
  lemma {:induction false} RunRefines<V>(t: Table<V>, ops: seq<Op<V>>, n: nat)
    requires Fit(t, n) && Within(t.Map(), ops, n)
    ensures Run(t, ops).0.Valid() && Run(t, ops).0.Map() == MapRun(t.Map(), ops).0
    ensures Run(t, ops).1 == MapRun(t.Map(), ops).1
    decreases |ops|
  {
    hide Step;
    hide MapStep;
    hide Shallow;
    hide DeletionReachesBelow;
    if ops != [] {
      StepRefines(t, ops[0], n);
      RunRefines(Step(t, ops[0]).0, ops[1..], n);
    }
  }

  lemma {:induction false} WithinMore<V>(m: map<nat, V>, ops: seq<Op<V>>, capacity: nat, more: nat)
    requires Within(m, ops, capacity) && capacity <= more
    ensures Within(m, ops, more)
    decreases |ops|
  {
    if ops != [] {
      WithinMore(MapStep(m, ops[0]).0, ops[1..], capacity, more);
    }
  }

  lemma FreshIsFit<V>(size: nat, n: nat)
    requires Prime(size) && n <= size / 2 + 1 && DeletionReachesBelow(size, n)
    ensures Fit(EmptyTable<V>(size), n) && EmptyTable<V>(size).Map() == map[]
  {
    hide DeletionReachesBelow;
    EmptyIsValid<V>(size);
    EmptyIsShallow<V>(size, n);
  }

  /** A fresh table of a prime size at least 2·`number` behaves as a map over every run of at most `number` keys, up to
      65536. */
  lemma FreshTableRefines<V>(size: nat, number: nat, ops: seq<Op<V>>)
    requires Prime(size) && 2 * number <= size && number <= 65536
    requires Within(map[], ops, number)
    ensures EmptyTable<V>(size).Valid()
    ensures Run(EmptyTable(size), ops).1 == MapRun(map[], ops).1
    ensures Run(EmptyTable(size), ops).0.Valid() && Run(EmptyTable(size), ops).0.Map() == MapRun(map[], ops).0
  {
    PrimeIsTwo(size);
    hide Run;
    hide MapRun;
    hide Prime;
    hide Within;
    hide WellFormed;
    hide MapOf;
    hide DeletionReachesBelow;
    ExactProbesReach(size, number);
    FreshIsFit<V>(size, number);
    RunRefines(EmptyTable(size), ops, number);
  }

  /** The same for a table that is there: all its keys lie within p/2 + 1 probes. */
  lemma FullCapacityRefines<V>(t: Table<V>, ops: seq<Op<V>>)
    requires t.Valid() && |t.Map()| <= t.Size() / 2 + 1 && DeletionReachesBelow(t.Size(), t.Size() / 2 + 1)
    requires Within(t.Map(), ops, t.Size() / 2 + 1)
    ensures Run(t, ops).0.Valid() && Run(t, ops).0.Map() == MapRun(t.Map(), ops).0
    ensures Run(t, ops).1 == MapRun(t.Map(), ops).1
  {
    hide Run;
    hide MapRun;
    hide Within;
    hide Shallow;
    hide DeletionReachesBelow;
    WellFormedIsShallow(t.slots);
    RunRefines(t, ops, t.Size() / 2 + 1);
  }

  // Single steps.

  lemma {:induction false} SeekSkips<V>(slots: seq<Slot<V>>, key: nat, i: nat, j: nat)
    requires slots != [] && i <= j <= |slots|
    requires forall k :: i <= k < j ==> At(slots, key, k).Alive? && At(slots, key, k).key != key
    ensures Seek(slots, key, i, None) == Seek(slots, key, j, None)
    decreases j - i
  {
    hide Probe;
    if i < j {
      assert At(slots, key, i) == slots[Probe(key, i, |slots|)];
      SeekSkips(slots, key, i + 1, j);
    }
  }

  /** An insertion whose first `j` probes meet other keys and whose next meets an empty slot. */
  lemma InsertAt<V>(t: Table<V>, key: nat, val: V, j: nat)
    requires t.Valid() && j < t.Size() && At(t.slots, key, j).Empty?
    requires forall k :: 0 <= k < j ==> At(t.slots, key, k).Alive? && At(t.slots, key, k).key != key
    ensures InsertSelf(t, key, val).0.slots == t.slots[Probe(key, j, t.Size()) := Alive(key, val)]
  {
    SeekSkips(t.slots, key, 0, j);
  }

  /** An insertion all of whose probes meet other keys. */
  lemma InsertRefused<V>(t: Table<V>, key: nat, val: V)
    requires t.Valid()
    requires forall k :: 0 <= k < t.Size() ==> At(t.slots, key, k).Alive? && At(t.slots, key, k).key != key
    ensures InsertSelf(t, key, val) == (t, false)
  {
    SeekSkips(t.slots, key, 0, t.Size());
  }

  lemma ReinsertDead<V>(slots: seq<Slot<V>>, n: nat)
    requires WellFormed(slots) && n < |slots| && !slots[n].Alive?
    ensures Reinsert(slots, n + 1) == Reinsert(slots, n)
  {
  }

  /** One live slot reinserted where its first `j` probes meet other keys and the next the empty slot `s`. */
  lemma ReinsertNext<V>(slots: seq<Slot<V>>, n: nat, j: nat, s: nat)
    requires WellFormed(slots) && n < |slots| && slots[n].Alive? && j < |slots| && Probe(slots[n].key, j, |slots|) == s
    requires Reinsert(slots, n).slots[s].Empty?
    requires forall k :: 0 <= k < j ==>
               var met := At(Reinsert(slots, n).slots, slots[n].key, k); met.Alive? && met.key != slots[n].key
    ensures Reinsert(slots, n + 1).slots == Reinsert(slots, n).slots[s := slots[n]]
  {
    InsertAt(Reinsert(slots, n), slots[n].key, slots[n].val, j);
  }

  lemma ReinsertStart<V>(slots: seq<Slot<V>>)
    requires WellFormed(slots)
    ensures Reinsert(slots, 0).slots == EmptySlots(|slots|)
  {
  }

  lemma ReinsertRefused<V>(slots: seq<Slot<V>>, n: nat)
    requires WellFormed(slots) && n < |slots| && slots[n].Alive?
    requires InsertSelf(Reinsert(slots, n), slots[n].key, slots[n].val).0 == Reinsert(slots, n)
    ensures Reinsert(slots, n + 1) == Reinsert(slots, n)
  {
  }

  lemma WellFormedSlots<V>(t: Table<V>)
    requires t.Valid()
    ensures WellFormed(t.slots) && t.Map() == MapOf(t.slots)
  {
  }

  // Longer runs.

  lemma {:induction false} RunThen<V>(t: Table<V>, ops: seq<Op<V>>, op: Op<V>)
    requires t.Valid()
    ensures Run(t, ops).0.Valid() && |Run(t, ops).1| == |ops|
    ensures Run(t, ops + [op]).0 == Step(Run(t, ops).0, op).0
    ensures Run(t, ops + [op]).1 == Run(t, ops).1 + [Step(Run(t, ops).0, op).1]
    decreases |ops|
  {
    hide Step;
    hide Table.Valid;
    if ops == [] {
      assert ops + [op] == [op];
      StepKeepsValid(t, op);
    } else {
      StepKeepsValid(t, ops[0]);
      RunThen(Step(t, ops[0]).0, ops[1..], op);
      assert (ops + [op])[1..] == ops[1..] + [op];
    }
  }

  lemma {:induction false} MapRunThen<V>(m: map<nat, V>, ops: seq<Op<V>>, op: Op<V>)
    ensures |MapRun(m, ops).1| == |ops|
    ensures MapRun(m, ops + [op]).0 == MapStep(MapRun(m, ops).0, op).0
    ensures MapRun(m, ops + [op]).1 == MapRun(m, ops).1 + [MapStep(MapRun(m, ops).0, op).1]
    decreases |ops|
  {
    hide MapStep;
    if ops == [] {
      assert ops + [op] == [op];
    } else {
      MapRunThen(MapStep(m, ops[0]).0, ops[1..], op);
      assert (ops + [op])[1..] == ops[1..] + [op];
    }
  }

  /** A run with few insertions keeps the map small. */
  lemma {:induction false} ShortRun<V>(m: map<nat, V>, ops: seq<Op<V>>, op: Op<V>, capacity: nat)
    requires |m| + |ops| + (if op.InsertOp? then 1 else 0) <= capacity
    ensures Within(m, ops + [op], capacity)
    decreases |ops|
  {
    if ops == [] {
      assert ops + [op] == [op];
      assert Within(MapStep(m, op).0, [], capacity);
    } else {
      var m' := MapStep(m, ops[0]).0;
      StepAddsOne(m, ops[0]);
      ShortRun(m', ops[1..], op, capacity);
      assert (ops + [op])[1..] == ops[1..] + [op];
    }
  }

  /** Only insertions count. */
  lemma {:induction false} WithinThen<V>(m: map<nat, V>, ops: seq<Op<V>>, op: Op<V>, capacity: nat)
    requires Within(m, ops, capacity) && !op.InsertOp?
    ensures Within(m, ops + [op], capacity)
    decreases |ops|
  {
    if ops == [] {
      assert ops + [op] == [op];
      assert Within(MapStep(m, op).0, [], capacity);
    } else {
      WithinThen(MapStep(m, ops[0]).0, ops[1..], op, capacity);
      assert (ops + [op])[1..] == ops[1..] + [op];
    }
  }

  lemma StepAddsOne<V>(m: map<nat, V>, op: Op<V>)
    ensures |MapStep(m, op).0| <= |m| + 1
  {
    MapStepSize(m, op, |m| + 1);
  }

  // Runs from an empty table, step by step.

  /** The run gets from an empty table to `t`, and the map's run to its map. */
  ghost predicate GetsTo(p: nat, ops: seq<Op<int>>, t: Table<int>) {
    && EmptyTable<int>(p).Valid() && t.Valid() && t.Size() == p
    && Run(EmptyTable(p), ops).0 == t && MapRun(map[], ops).0 == t.Map()
  }

  lemma GetsToStart(p: nat)
    requires Prime(p)
    ensures GetsTo(p, [], EmptyTable(p))
  {
    EmptyIsValid<int>(p);
  }

  lemma GetsToNext(p: nat, ops: seq<Op<int>>, t: Table<int>, op: Op<int>)
    requires GetsTo(p, ops, t) && Step(t, op).0.Valid() && Step(t, op).0.Map() == MapStep(t.Map(), op).0
    ensures GetsTo(p, ops + [op], Step(t, op).0)
  {
    hide Step;
    hide MapStep;
    hide Run;
    hide MapRun;
    hide Table.Map;
    hide WellFormed;
    StepKeepsValid(t, op);
    RunThen(EmptyTable(p), ops, op);
    MapRunThen(map[], ops, op);
  }

  /** One more insertion, whose first `j` probes meet other keys and whose next meets the empty slot `s`. */
  lemma GetsToInsert(p: nat, ops: seq<Op<int>>, t: Table<int>, key: nat, j: nat, s: nat)
    requires GetsTo(p, ops, t) && t.deleteCount == 0
    requires j < p && Probe(key, j, p) == s && t.slots[s].Empty?
    requires forall k :: 0 <= k < j ==> At(t.slots, key, k).Alive? && At(t.slots, key, k).key != key
    ensures GetsTo(p, ops + [InsertOp(key, 0, true)],
                   Table(t.slots[s := Alive(key, 0)], 0, Wrap32(t.aliveCount + 1)))
  {
    hide WellFormed;
    hide Table.Map;
    hide Run;
    hide MapRun;
    hide Step;
    InsertFresh(t, key, j, s);
    GetsToNext(p, ops, t, InsertOp(key, 0, true));
  }

  lemma InsertFresh(t: Table<int>, key: nat, j: nat, s: nat)
    requires t.Valid() && t.deleteCount == 0 && j < t.Size() && Probe(key, j, t.Size()) == s && t.slots[s].Empty?
    requires forall k :: 0 <= k < j ==> At(t.slots, key, k).Alive? && At(t.slots, key, k).key != key
    ensures var op, t' := InsertOp(key, 0, true), Table(t.slots[s := Alive(key, 0)], 0, Wrap32(t.aliveCount + 1));
            Step(t, op).0 == t' && t'.Valid() && t'.Map() == MapStep(t.Map(), op).0
  {
    hide WellFormed;
    hide MapOf;
    hide Reinsert;
    hide Probe;
    hide Wrap32;
    SeekSkips(t.slots, key, 0, j);
    SeekMeaning(t.slots, key, 0, None);
    NotFired(t);
    InsertSelfMeaning(t, key, 0);
    AbsentIsNoKey(t, key);
  }

  lemma AbsentIsNoKey<V>(t: Table<V>, key: nat)
    requires t.Valid()
    ensures key in t.Map() <==> !Absent(t.slots, key)
  {
    MapMeaning(t.slots, key);
  }

  /** A table without tombstones is not rehashed. */
  lemma NotFired<V>(t: Table<V>)
    requires t.Valid() && t.deleteCount == 0
    ensures Check(t, true) == t
  {
    hide Table.Valid;
  }

  /** One more deletion, which finds its key with the first probe. */
  lemma GetsToDelete(p: nat, ops: seq<Op<int>>, t: Table<int>, key: nat, s: nat)
    requires GetsTo(p, ops, t) && !CheckFires(p, t.aliveCount, t.deleteCount)
    requires WrappedProbe(key, 0, p) == s && Holds(t.slots[s], key)
    ensures GetsTo(p, ops + [DeleteOp(key, true)], Table(t.slots[s := Tombstone], t.deleteCount + 1, t.aliveCount))
  {
    hide WellFormed;
    hide Table.Map;
    hide Run;
    hide MapRun;
    hide Step;
    DeleteFirst(t, key, s);
    GetsToNext(p, ops, t, DeleteOp(key, true));
  }

  lemma DeleteFirst(t: Table<int>, key: nat, s: nat)
    requires t.Valid() && !CheckFires(t.Size(), t.aliveCount, t.deleteCount)
    requires WrappedProbe(key, 0, t.Size()) == s && Holds(t.slots[s], key)
    ensures var op, t' := DeleteOp(key, true), Table(t.slots[s := Tombstone], t.deleteCount + 1, t.aliveCount);
            Step(t, op).0 == t' && t'.Valid() && t'.Map() == MapStep(t.Map(), op).0
  {
    hide WellFormed;
    hide MapOf;
    hide Tombstones;
    hide CheckFires;
    hide WrappedProbe;
    hide Shallow;
    hide DeletionReachesBelow;
    DeleteMeaning(t, key, true, 0);
  }

  /** The last answer of a run, and that of the map's run, differ. */
  ghost predicate LastDiffers(p: nat, ops: seq<Op<int>>, answer: Answer<int>, mapAnswer: Answer<int>) {
    && EmptyTable<int>(p).Valid() && |Run(EmptyTable(p), ops).1| == |MapRun(map[], ops).1| == |ops| > 0
    && Run(EmptyTable(p), ops).1[|ops| - 1] == answer && MapRun(map[], ops).1[|ops| - 1] == mapAnswer
    && answer != mapAnswer
  }

  lemma Differ(p: nat, ops: seq<Op<int>>, t: Table<int>, op: Op<int>)
    requires GetsTo(p, ops, t) && Step(t, op).1 != MapStep(t.Map(), op).1
    ensures LastDiffers(p, ops + [op], Step(t, op).1, MapStep(t.Map(), op).1)
  {
    hide Step;
    hide MapStep;
    hide Run;
    hide MapRun;
    hide WellFormed;
    hide Table.Map;
    RunThen(EmptyTable(p), ops, op);
    MapRunThen(map[], ops, op);
  }
}
