/** How deep keys lie: with at most `n` keys, each is found within the first `n` probes, at every moment of a run. */
module HashDepth {
  import opened NumberTheory
  import opened HashSpec
  import opened HashTableSpec
  import opened Options

  /** What the insertion loop knows, besides, of the probes before the first tombstone: all meet live slots. */
  ghost predicate LiveBefore<V>(slots: seq<Slot<V>>, key: nat, j: nat)
    requires slots != []
  {
    j < |slots| && forall k :: 0 <= k < j ==> At(slots, key, k).Alive?
  }

  ghost predicate FirstIsLow<V>(slots: seq<Slot<V>>, key: nat, i: nat, first: Option<nat>)
    requires slots != []
  {
    match first
    case None => forall k :: 0 <= k < i ==> At(slots, key, k).Alive?
    case Some(s) => exists j: nat :: j < i && LiveBefore(slots, key, j) && OnPath(slots, key, j, s)
  }

  /** The slot that an insertion fills is the first on the key's path that is not alive. */
  lemma {:induction false} SeekIsLow<V>(slots: seq<Slot<V>>, key: nat, i: nat, first: Option<nat>)
    requires slots != [] && i <= |slots| && FirstIsLow(slots, key, i, first)
    requires forall k :: 0 <= k < i ==> !At(slots, key, k).Empty?
    ensures Seek(slots, key, i, first).AtFree? ==>
              exists j: nat :: LiveBefore(slots, key, j) && OnPath(slots, key, j, Seek(slots, key, i, first).s)
    decreases |slots| - i
  {
    hide Probe;
    if i < |slots| {
      var s := Probe(key, i, |slots|);
      assert At(slots, key, i) == slots[s];
      if first.None? && !slots[s].Alive? {
        assert LiveBefore(slots, key, i) && OnPath(slots, key, i, s);
      }
      if !Holds(slots[s], key) && !slots[s].Empty? {
        SeekIsLow(slots, key, i + 1, if first.None? && slots[s].Tombstone? then Some(s) else first);
      }
    }
  }

  /** Probes that meet live slots only are no more than the keys. */
  lemma LiveProbesAreFew<V>(slots: seq<Slot<V>>, key: nat, j: nat, n: nat)
    requires WellFormed(slots) && LiveBefore(slots, key, j) && |MapOf(slots)| < n <= |slots| / 2 + 1
    ensures j < n
  {
    hide Unique;
    hide Reachable;
    hide Probe;
    hide Prime;
    hide MapOf;
    if j >= n {
      MetKeysDiffer(slots, key, n);
      MetKeysAreLive(slots, key, n);
      SetSize(MetKeys(slots, key, n), MapOf(slots).Keys);
    }
  }

  lemma StoreIsShallow<V>(slots: seq<Slot<V>>, key: nat, val: V, s: nat, j: nat, n: nat)
    requires slots != [] && Shallow(slots, n) && s < |slots| && !slots[s].Alive? && j < n && OnPath(slots, key, j, s)
    ensures Shallow(slots[s := Alive(key, val)], n)
  {
    hide Probe;
    var slots' := slots[s := Alive(key, val)];
    forall t | 0 <= t < |slots| && slots'[t].Alive?
      ensures exists i: nat :: i < n && OnPath(slots', slots'[t].key, i, t)
    {
      var i: nat :| i < n && OnPath(slots, slots'[t].key, i, t);
      StaysOnPath(slots, slots', s, slots'[t].key, i, t);
    }
  }

  /** A slot that is filled blocks no path. */
  lemma StaysOnPath<V>(slots: seq<Slot<V>>, slots': seq<Slot<V>>, s: nat, key: nat, i: nat, t: nat)
    requires s < |slots| == |slots'| && slots' == slots[s := slots'[s]] && !slots'[s].Empty? && OnPath(slots, key, i, t)
    ensures OnPath(slots', key, i, t)
  {
    assert forall j :: 0 <= j < i ==> At(slots', key, j).Empty? ==> At(slots, key, j).Empty?;
  }

  lemma RemoveIsShallow<V>(slots: seq<Slot<V>>, s: nat, n: nat)
    requires slots != [] && Shallow(slots, n) && s < |slots|
    ensures Shallow(slots[s := Tombstone], n)
  {
    hide Probe;
    var slots' := slots[s := Tombstone];
    forall t | 0 <= t < |slots| && slots'[t].Alive?
      ensures exists i: nat :: i < n && OnPath(slots', slots'[t].key, i, t)
    {
      var i: nat :| i < n && OnPath(slots, slots'[t].key, i, t);
      StaysOnPath(slots, slots', s, slots'[t].key, i, t);
    }
  }

  /** An insertion into a table with fewer than `n` keys, or of a key that is there. */
  lemma InsertSelfIsShallow<V>(t: Table<V>, key: nat, val: V, n: nat)
    requires t.Valid() && Shallow(t.slots, n) && n <= t.Size() / 2 + 1 && (key !in t.Map() ==> |t.Map()| < n)
    ensures Shallow(InsertSelf(t, key, val).0.slots, n)
  {
    hide Shallow;
    hide MapOf;
    hide Unique;
    hide Reachable;
    hide Prime;
    hide Seek;
    hide OnPath;
    SeekMeaning(t.slots, key, 0, None);
    SeekIsLow(t.slots, key, 0, None);
    MapMeaning(t.slots, key);
    var target := Seek(t.slots, key, 0, None);
    if target.AtFree? {
      var j: nat :| LiveBefore(t.slots, key, j) && OnPath(t.slots, key, j, target.s);
      LiveProbesAreFew(t.slots, key, j, n);
      StoreIsShallow(t.slots, key, val, target.s, j, n);
    }
  }

  lemma EmptyIsShallow<V>(size: nat, n: nat)
    requires size > 0
    ensures Shallow(EmptySlots<V>(size), n)
  {
  }

  /** A rehash starts from an empty table, and inserts no more keys than there are. */
  lemma {:induction false} ReinsertIsShallow<V>(slots: seq<Slot<V>>, k: nat, n: nat)
    requires WellFormed(slots) && k <= |slots| && |MapOf(slots)| <= n <= |slots| / 2 + 1
    ensures Shallow(Reinsert(slots, k).slots, n)
    decreases k
  {
    hide InsertSelf;
    hide MapOf;
    hide Prime;
    hide Unique;
    hide Reachable;
    hide Shallow;
    if k == 0 {
      EmptyIsShallow<V>(|slots|, n);
    } else {
      ReinsertIsShallow(slots, k - 1, n);
      if slots[k - 1].Alive? {
        FewerReinserted(slots, k - 1);
        InsertSelfIsShallow(Reinsert(slots, k - 1), slots[k - 1].key, slots[k - 1].val, n);
      }
    }
  }

  lemma FewerReinserted<V>(slots: seq<Slot<V>>, k: nat)
    requires WellFormed(slots) && k < |slots| && slots[k].Alive?
    ensures |Reinsert(slots, k).Map()| < |MapOf(slots)|
  {
    hide Reinsert;
    hide MapOf;
    hide Prime;
    hide Unique;
    hide Reachable;
    UniquePrefix(slots, k);
    ReinsertMeaning(slots, k);
    PrefixIsSmaller(slots, k);
    SetSize(Reinsert(slots, k).Map().Keys, MapOf(slots[..k]).Keys);
  }

  lemma CheckIsShallow<V>(t: Table<V>, memory: bool, n: nat)
    requires t.Valid() && Shallow(t.slots, n) && |t.Map()| <= n <= t.Size() / 2 + 1
    ensures Shallow(Check(t, memory).slots, n)
  {
    hide Reinsert;
    hide Shallow;
    hide MapOf;
    ReinsertIsShallow(t.slots, t.Size(), n);
  }

  lemma DeleteIsShallow<V>(t: Table<V>, key: nat, memory: bool, n: nat)
    requires t.Valid() && Shallow(t.slots, n) && |t.Map()| <= n <= t.Size() / 2 + 1
    ensures Shallow(Delete(t, key, memory).0.slots, n)
  {
    hide Check;
    hide Shallow;
    hide MapOf;
    hide FindWrapped;
    CheckIsShallow(t, memory, n);
    var c := Check(t, memory);
    var found := FindWrapped(c.slots, key, 0);
    if found.Some? {
      RemoveIsShallow(c.slots, found.value, n);
    }
  }

  lemma InsertIsShallow<V>(t: Table<V>, key: nat, val: V, memory: bool, n: nat)
    requires t.Valid() && Shallow(t.slots, n) && |t.Map()| <= n <= t.Size() / 2 + 1
    requires key !in t.Map() ==> |t.Map()| < n
    ensures Shallow(Insert(t, key, val, memory).0.slots, n)
  {
    hide Check;
    hide Shallow;
    hide MapOf;
    hide InsertSelf;
    hide WellFormed;
    CheckIsShallow(t, memory, n);
    CheckMeaning(t, memory);
    InsertSelfIsShallow(Check(t, memory), key, val, n);
  }
}
