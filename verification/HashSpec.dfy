/** Open addressing with quadratic probing and tombstones, on the sequence of slots, and the finite map it stands
    for. */
module HashSpec {
  import opened NumberTheory
  import opened Options

  datatype Slot<+V> = Empty | Alive(key: nat, val: V) | Tombstone

  predicate Holds<V>(s: Slot<V>, key: nat) {
    s.Alive? && s.key == key
  }

  /** The slot that probe `i` for `key` looks at. */
  function At<V>(slots: seq<Slot<V>>, key: nat, i: nat): Slot<V>
    requires slots != []
  {
    slots[Probe(key, i, |slots|)]
  }

  /** Probe `i` for `key` looks at slot `s`, and no earlier probe meets an empty slot. */
  ghost predicate OnPath<V>(slots: seq<Slot<V>>, key: nat, i: nat, s: nat)
    requires slots != []
  {
    && i < |slots| && Probe(key, i, |slots|) == s
    && forall j :: 0 <= j < i ==> !At(slots, key, j).Empty?
  }

  /** A key is alive in one slot at most. */
  ghost predicate Unique<V>(slots: seq<Slot<V>>) {
    forall s, t :: 0 <= s < |slots| && 0 <= t < |slots| && slots[s].Alive? && Holds(slots[t], slots[s].key) ==> s == t
  }

  /** Every live key lies on its own probe path. */
  ghost predicate Reachable<V>(slots: seq<Slot<V>>)
    requires slots != []
  {
    forall s :: 0 <= s < |slots| && slots[s].Alive? ==> exists i: nat :: OnPath(slots, slots[s].key, i, s)
  }

  ghost predicate WellFormed<V>(slots: seq<Slot<V>>) {
    2 <= |slots| && Prime(|slots|) && Unique(slots) && Reachable(slots)
  }

  /** The finite map the slots stand for. */
  ghost function MapOf<V>(slots: seq<Slot<V>>): map<nat, V>
    requires Unique(slots)
  {
    map s | 0 <= s < |slots| && slots[s].Alive? :: slots[s].key := slots[s].val
  }

  ghost function Tombstones<V>(slots: seq<Slot<V>>): set<nat> {
    set s | 0 <= s < |slots| && slots[s].Tombstone?
  }

  // Probing.

  /** The query loop: the slot that holds the key, unless an empty slot or the last probe comes first. */
  function Find<V>(slots: seq<Slot<V>>, key: nat, i: nat): (r: Option<nat>)
    requires slots != [] && i <= |slots|
    ensures r.Some? ==> r.value < |slots| && Holds(slots[r.value], key)
    decreases |slots| - i
  {
    if i == |slots| then None
    else if Holds(At(slots, key, i), key) then Some(Probe(key, i, |slots|))
    else if At(slots, key, i).Empty? then None
    else Find(slots, key, i + 1)
  }

  /** Where an insertion ends: at the key, at a slot to fill, which may be a tombstone, or nowhere. */
  datatype Target = AtKey(s: nat) | AtFree(s: nat, reused: bool) | Nowhere

  /** The insertion loop; `first` is the first tombstone met. */
  function Seek<V>(slots: seq<Slot<V>>, key: nat, i: nat, first: Option<nat>): Target
    requires slots != [] && i <= |slots|
    decreases |slots| - i
  {
    if i == |slots| then
      if first.Some? then AtFree(first.value, true) else Nowhere
    else
      var s := Probe(key, i, |slots|);
      if Holds(slots[s], key) then AtKey(s)
      else if slots[s].Empty? then
        if first.Some? then AtFree(first.value, true) else AtFree(s, false)
      else Seek(slots, key, i + 1, if first.None? && slots[s].Tombstone? then Some(s) else first)
  }

  /** What the loop knows after `i` probes that neither found the key nor met an empty slot. */
  ghost predicate Probed<V>(slots: seq<Slot<V>>, key: nat, i: nat, first: Option<nat>)
    requires slots != [] && i <= |slots|
  {
    && (forall j :: 0 <= j < i ==> !Holds(At(slots, key, j), key) && !At(slots, key, j).Empty?)
    && match first
       case None => forall j :: 0 <= j < i ==> At(slots, key, j).Alive?
       case Some(s) => s < |slots| && slots[s].Tombstone? && exists j: nat :: j < i && OnPath(slots, key, j, s)
  }

  /** No slot holds the key. */
  ghost predicate Absent<V>(slots: seq<Slot<V>>, key: nat) {
    forall s :: 0 <= s < |slots| ==> !Holds(slots[s], key)
  }

  lemma PathSlot<V>(slots: seq<Slot<V>>, key: nat, k: nat, s: nat)
    requires slots != [] && OnPath(slots, key, k, s)
    ensures At(slots, key, k) == slots[s]
  {
  }

  /** A key that was not met before the first empty slot, or in all probes, is nowhere. */
  lemma PathDecides<V>(slots: seq<Slot<V>>, key: nat, i: nat)
    requires WellFormed(slots) && i <= |slots|
    requires forall j :: 0 <= j < i ==> !Holds(At(slots, key, j), key)
    requires i < |slots| ==> At(slots, key, i).Empty?
    ensures Absent(slots, key)
  {
    hide Probe;
    hide Prime;
    forall s | 0 <= s < |slots| && Holds(slots[s], key)
      ensures false
    {
      var k: nat :| OnPath(slots, key, k, s);
      PathSlot(slots, key, k, s);
    }
  }

  lemma {:induction false} FindMeaning<V>(slots: seq<Slot<V>>, key: nat, i: nat)
    requires WellFormed(slots) && i <= |slots|
    requires forall j :: 0 <= j < i ==> !Holds(At(slots, key, j), key) && !At(slots, key, j).Empty?
    ensures Find(slots, key, i).None? ==> Absent(slots, key)
    decreases |slots| - i
  {
    hide Probe;
    hide Prime;
    if i == |slots| || (At(slots, key, i).Empty? && !Holds(At(slots, key, i), key)) {
      PathDecides(slots, key, i);
    } else if !Holds(At(slots, key, i), key) {
      FindMeaning(slots, key, i + 1);
    }
  }

  /** An insertion finds the key if it is there; otherwise it finds a slot on the key's path that is not alive,
      or every probed slot is alive with other keys. */
  lemma {:induction false} SeekMeaning<V>(slots: seq<Slot<V>>, key: nat, i: nat, first: Option<nat>)
    requires WellFormed(slots) && i <= |slots| && Probed(slots, key, i, first)
    ensures match Seek(slots, key, i, first)
            case AtKey(s) => s < |slots| && Holds(slots[s], key)
            case AtFree(s, reused) =>
              && Absent(slots, key) && s < |slots| && (exists j: nat :: OnPath(slots, key, j, s))
              && slots[s] == if reused then Tombstone else Empty
            case Nowhere =>
              Absent(slots, key) && forall j :: 0 <= j < |slots| ==> At(slots, key, j).Alive?
    decreases |slots| - i
  {
    hide Probe;
    hide Prime;
    if i == |slots| {
      PathDecides(slots, key, i);
    } else {
      var s := Probe(key, i, |slots|);
      assert At(slots, key, i) == slots[s];
      if Holds(slots[s], key) {
      } else if slots[s].Empty? {
        PathDecides(slots, key, i);
        assert OnPath(slots, key, i, s);
      } else {
        var next := if first.None? && slots[s].Tombstone? then Some(s) else first;
        if first.None? && slots[s].Tombstone? {
          assert OnPath(slots, key, i, s);
        }
        SeekMeaning(slots, key, i + 1, next);
      }
    }
  }

  // Updating.

  /** What an insertion reports. A present key keeps its value; the source then returns whether the values differ. */
  datatype Outcome = Same | Differs | Stored(reused: bool) | Refused

  function Put<V(==)>(slots: seq<Slot<V>>, key: nat, val: V): (r: (seq<Slot<V>>, Outcome))
    requires WellFormed(slots)
    ensures |r.0| == |slots|
  {
    SeekMeaning(slots, key, 0, None);
    match Seek(slots, key, 0, None)
    case AtKey(s) => (slots, if slots[s].val == val then Same else Differs)
    case AtFree(s, reused) => (slots[s := Alive(key, val)], Stored(reused))
    case Nowhere => (slots, Refused)
  }

  /** Filling a slot on the key's path with the absent key adds just that entry. */
  lemma StoreMeaning<V>(slots: seq<Slot<V>>, key: nat, val: V, s: nat)
    requires WellFormed(slots) && Absent(slots, key) && s < |slots| && !slots[s].Alive?
    requires exists j: nat :: OnPath(slots, key, j, s)
    ensures WellFormed(slots[s := Alive(key, val)])
    ensures MapOf(slots[s := Alive(key, val)]) == MapOf(slots)[key := val]
  {
    hide Probe;
    hide Prime;
    var slots' := slots[s := Alive(key, val)];
    forall t | 0 <= t < |slots| && slots'[t].Alive?
      ensures exists i: nat :: OnPath(slots', slots'[t].key, i, t)
    {
      var i: nat :| OnPath(slots, slots'[t].key, i, t);
      assert forall j :: 0 <= j < i ==> At(slots', slots'[t].key, j).Empty? ==> At(slots, slots'[t].key, j).Empty?;
      assert OnPath(slots', slots'[t].key, i, t);
    }
    assert Unique(slots');
    MapHas(slots, slots', key, val, s);
  }

  lemma MapHas<V>(slots: seq<Slot<V>>, slots': seq<Slot<V>>, key: nat, val: V, s: nat)
    requires s < |slots| && slots' == slots[s := Alive(key, val)] && !slots[s].Alive?
    requires Unique(slots) && Unique(slots') && Absent(slots, key)
    ensures MapOf(slots') == MapOf(slots)[key := val]
  {
    hide Prime;
    var m := MapOf(slots)[key := val];
    forall k
      ensures k in MapOf(slots') <==> k in m
      ensures k in m ==> MapOf(slots')[k] == m[k]
    {
      MapMeaning(slots, k);
      MapMeaning(slots', k);
      assert Holds(slots'[s], key);
      if t :| 0 <= t < |slots| && Holds(slots[t], k) {
        assert slots'[t] == slots[t];
      }
      if t :| 0 <= t < |slots| && Holds(slots'[t], k) {
        assert t != s ==> slots'[t] == slots[t];
      }
    }
  }

  /** Turning a live slot into a tombstone removes just that entry. */
  lemma RemoveMeaning<V>(slots: seq<Slot<V>>, s: nat)
    requires WellFormed(slots) && s < |slots| && slots[s].Alive?
    ensures WellFormed(slots[s := Tombstone])
    ensures MapOf(slots[s := Tombstone]) == MapOf(slots) - {slots[s].key}
  {
    hide Probe;
    hide Prime;
    var slots' := slots[s := Tombstone];
    forall t | 0 <= t < |slots| && slots'[t].Alive?
      ensures exists i: nat :: OnPath(slots', slots'[t].key, i, t)
    {
      var i: nat :| OnPath(slots, slots'[t].key, i, t);
      assert forall j :: 0 <= j < i ==> At(slots', slots'[t].key, j).Empty? ==> At(slots, slots'[t].key, j).Empty?;
      assert OnPath(slots', slots'[t].key, i, t);
    }
    assert Unique(slots');
    MapLoses(slots, s);
  }

  lemma MapLoses<V>(slots: seq<Slot<V>>, s: nat)
    requires s < |slots| && slots[s].Alive? && Unique(slots) && Unique(slots[s := Tombstone])
    ensures MapOf(slots[s := Tombstone]) == MapOf(slots) - {slots[s].key}
  {
    var slots', m := slots[s := Tombstone], MapOf(slots);
    forall k
      ensures k in MapOf(slots') <==> k in m && k != slots[s].key
      ensures k in MapOf(slots') ==> MapOf(slots')[k] == m[k]
    {
      MapMeaning(slots, k);
      MapMeaning(slots', k);
      if t :| 0 <= t < |slots| && Holds(slots[t], k) {
        assert t != s ==> slots'[t] == slots[t];
      }
      if t :| 0 <= t < |slots| && Holds(slots'[t], k) {
        assert slots'[t] == slots[t];
      }
    }
  }

  lemma MapMeaning<V>(slots: seq<Slot<V>>, key: nat)
    requires Unique(slots)
    ensures key !in MapOf(slots) <==> Absent(slots, key)
    ensures forall s :: 0 <= s < |slots| && Holds(slots[s], key) ==>
              key in MapOf(slots) && MapOf(slots)[key] == slots[s].val
  {
  }

  /** An insertion leaves a present key and its value alone; an absent key is added, or refused. */
  lemma PutMeaning<V>(slots: seq<Slot<V>>, key: nat, val: V)
    requires WellFormed(slots)
    ensures var (slots', outcome) := Put(slots, key, val);
            && WellFormed(slots')
            && (key in MapOf(slots) ==>
                  slots' == slots && outcome == if MapOf(slots)[key] == val then Same else Differs)
            && (key !in MapOf(slots) ==> outcome.Stored? || outcome == Refused)
            && (outcome.Stored? ==> MapOf(slots') == MapOf(slots)[key := val])
            && (outcome == Refused ==> slots' == slots)
  {
    hide Seek;
    hide MapOf;
    hide Probe;
    hide Prime;
    SeekMeaning(slots, key, 0, None);
    MapMeaning(slots, key);
    var target := Seek(slots, key, 0, None);
    if target.AtFree? {
      StoreMeaning(slots, key, val, target.s);
    }
  }

  // Room.

  /** The keys that the first `n` probes meet, when all of them meet live slots. */
  ghost function MetKeys<V>(slots: seq<Slot<V>>, key: nat, n: nat): set<nat>
    requires slots != [] && n <= |slots| && forall j :: 0 <= j < n ==> At(slots, key, j).Alive?
  {
    set j | 0 <= j < n :: At(slots, key, j).key
  }

  lemma {:induction false} MetKeysDiffer<V>(slots: seq<Slot<V>>, key: nat, n: nat)
    requires WellFormed(slots) && n <= LastNew(|slots|) + 1 <= |slots|
    requires forall j :: 0 <= j < n ==> At(slots, key, j).Alive?
    ensures |MetKeys(slots, key, n)| == n
    decreases n
  {
    hide Unique;
    hide Reachable;
    hide Probe;
    hide Prime;
    if n == 0 {
      assert MetKeys(slots, key, 0) == {};
    } else {
      MetKeysDiffer(slots, key, n - 1);
      var last := At(slots, key, n - 1).key;
      forall j | 0 <= j < n - 1
        ensures At(slots, key, j).key != last
      {
        KeysDiffer(slots, key, j, n - 1);
      }
      assert MetKeys(slots, key, n) == MetKeys(slots, key, n - 1) + {last};
    }
  }

  lemma KeysDiffer<V>(slots: seq<Slot<V>>, key: nat, i: nat, j: nat)
    requires WellFormed(slots) && i < j <= LastNew(|slots|)
    requires At(slots, key, i).Alive? && At(slots, key, j).Alive?
    ensures At(slots, key, i).key != At(slots, key, j).key
  {
    ProbesDiffer(|slots|, key, i, j);
  }

  lemma {:induction false} MetKeysAreLive<V>(slots: seq<Slot<V>>, key: nat, n: nat)
    requires slots != [] && n <= |slots| && Unique(slots) && forall j :: 0 <= j < n ==> At(slots, key, j).Alive?
    ensures MetKeys(slots, key, n) <= MapOf(slots).Keys
  {
    forall j | 0 <= j < n
      ensures At(slots, key, j).key in MapOf(slots)
    {
      MapMeaning(slots, At(slots, key, j).key);
      assert Holds(slots[Probe(key, j, |slots|)], At(slots, key, j).key);
    }
  }

  lemma SetSize(a: set<nat>, b: set<nat>)
    requires a <= b
    ensures |a| <= |b|
  {
    assert b == a + (b - a);
  }

  /** A table with at most p/2 live keys refuses no key: (p-1)/2 of them when p is odd. */
  lemma RoomForOneMore<V>(slots: seq<Slot<V>>, key: nat, val: V)
    requires WellFormed(slots) && |MapOf(slots)| <= |slots| / 2
    ensures Put(slots, key, val).1 != Refused
  {
    hide Seek;
    hide Unique;
    hide Reachable;
    hide Probe;
    hide Prime;
    SeekMeaning(slots, key, 0, None);
    if Put(slots, key, val).1 == Refused {
      MetKeysDiffer(slots, key, LastNew(|slots|) + 1);
      MetKeysAreLive(slots, key, LastNew(|slots|) + 1);
      SetSize(MetKeys(slots, key, LastNew(|slots|) + 1), MapOf(slots).Keys);
    }
  }
}
