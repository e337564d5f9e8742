/** How full a table may be for the check to be safe: the exact bound, for every prime size, and a run beyond it. */
module HashLoss {
  import opened NumberTheory
  import opened HashSpec
  import opened HashTableSpec
  import opened HashRuns

  // Counting entries.

  ghost function LiveSlots<V>(slots: seq<Slot<V>>): set<nat> {
    set s: nat | s < |slots| && slots[s].Alive?
  }

  lemma {:induction false} MapSizeUpTo<V>(slots: seq<Slot<V>>, n: nat)
    requires Unique(slots) && n <= |slots| && Unique(slots[..n])
    ensures |MapOf(slots[..n])| == |LiveSlots(slots[..n])|
    decreases n
  {
    hide MapOf;
    hide Unique;
    if n == 0 {
      NoEntries(slots);
    } else {
      UniquePrefix(slots, n - 1);
      MapSizeUpTo(slots, n - 1);
      MapPrefix(slots, n - 1);
      var before := LiveSlots(slots[..n - 1]);
      assert LiveSlots(slots[..n]) == if slots[n - 1].Alive? then before + {n - 1} else before;
    }
  }

  /** A table has as many entries as live slots. */
  lemma MapSize<V>(slots: seq<Slot<V>>)
    requires Unique(slots)
    ensures |MapOf(slots)| == |LiveSlots(slots)|
  {
    assert slots[..|slots|] == slots;
    MapSizeUpTo(slots, |slots|);
  }

  // Choosing slots.

  ghost function UpTo(n: nat): (r: set<nat>)
    ensures |r| == n && forall s: nat :: s in r <==> s < n
  {
    if n == 0 then {} else UpTo(n - 1) + {n - 1}
  }

  lemma {:induction false} Choose(a: set<nat>, k: nat) returns (b: set<nat>)
    requires k <= |a|
    ensures b <= a && |b| == k
    decreases k
  {
    if k == 0 {
      b := {};
    } else {
      var rest := Choose(a, k - 1);
      if a <= rest {
        SetSize(a, rest);
      }
      var s :| s in a && s !in rest;
      b := rest + {s};
    }
  }

  lemma {:induction false} Least(a: set<nat>, from: nat) returns (c: nat)
    requires from !in a
    ensures c <= from && c !in a && forall s: nat :: s < c ==> s in a
    decreases from
  {
    c := from;
    if s: nat :| s < from && s !in a {
      c := Least(a, s);
    }
  }

  /** The least slot outside a set of slots that is not all of them. */
  lemma LeastOutside(a: set<nat>, p: nat) returns (c: nat)
    requires |a| < p
    ensures c < p && c !in a && forall s: nat :: s < c ==> s in a
  {
    if UpTo(p) <= a {
      SetSize(UpTo(p), a);
    }
    var s :| s in UpTo(p) && s !in a;
    c := Least(a, s);
  }

  // A table that is too full.

  /** Where the crowd around the key p - 1 is: `probed` are the slots that the key probes, `c` is the least slot that it
      does not probe, and `extra` are other slots. */
  datatype Crowd = Crowd(p: nat, c: nat, probed: set<nat>, extra: set<nat>) {
    ghost predicate Valid() {
      && Prime(p) && p >= 3 && probed == Reached(p - 1, p, p)
      && c < p && c !in probed && (forall s: nat :: s < c ==> s in probed)
      && (forall s :: s in extra ==> c < s < p && s !in probed)
    }

    predicate IsLive(s: nat) {
      s <= c || s in probed || s in extra
    }

    /** Up to `c` every slot has a key that was pushed there from the slot before. */
    function KeyIn(s: nat): nat
      requires p >= 3
    {
      if s == p - 1 then p - 1 else if s == 0 then 2 * p - 1 else if s <= c then s - 1 else s
    }

    function Slots(): (r: seq<Slot<int>>)
      requires p >= 3
      ensures |r| == p && forall s :: 0 <= s < p ==> r[s] == if IsLive(s) then Alive(KeyIn(s), 0) else Empty
    {
      seq(p, s requires 0 <= s < p => if IsLive(s) then Alive(KeyIn(s), 0) else Empty)
    }

    /** The slot of the key's first probe, and which slot's key it is that has its first probe at a slot. */
    function Home(s: nat): nat
      requires p >= 3
    {
      if s == 0 then p - 1 else if s <= c then s - 1 else s
    }

    function Pushed(d: nat): nat
      requires p >= 3
    {
      if d == p - 1 then 0 else if d < c then d + 1 else d
    }

    /** The slots after the first `k` are reinserted: every key is at home. */
    function Moved(k: nat): (r: seq<Slot<int>>)
      requires p >= 3 && c < p - 1
      ensures |r| == p && forall d :: 0 <= d < p ==> r[d] == MovedTo(k, d)
    {
      seq(p, d requires 0 <= d < p => MovedTo(k, d))
    }

    function MovedTo(k: nat, d: nat): Slot<int>
      requires p >= 3
    {
      if d != c && Pushed(d) < k && IsLive(Pushed(d)) then Alive(KeyIn(Pushed(d)), 0) else Empty
    }
  }

  lemma FirstProbes(g: Crowd, s: nat)
    requires g.Valid() && s < g.p
    ensures g.c < g.p - 1 && g.p - 1 in g.probed
    ensures s < g.p - 1 ==> Probe(g.KeyIn(s), 0, g.p) == g.Home(s)
    ensures s == 0 || (s <= g.c && s < g.p - 1) ==> Probe(g.KeyIn(s), 1, g.p) == s
    ensures Probe(g.p - 1, 0, g.p) == g.p - 1
  {
    hide Prime;
    var p := g.p;
    ModIs(p - 1, p, 0, p - 1);
    assert Probe(p - 1, 0, p) == p - 1;
    assert Probe(p - 1, 0, p) in Reached(p - 1, p, p);
    if s == 0 {
      ModIs(2 * p - 1, p, 1, p - 1);
      ModIs(2 * p, p, 2, 0);
    } else if s <= g.c {
      ModIs(s - 1, p, 0, s - 1);
      ModIs(s, p, 0, s);
    } else if s < p - 1 {
      ModIs(s, p, 0, s);
    }
  }

  lemma CrowdIsUnique(g: Crowd)
    requires g.Valid()
    ensures Unique(g.Slots())
  {
    FirstProbes(g, 0);
  }

  lemma CrowdIsWellFormed(g: Crowd)
    requires g.Valid()
    ensures WellFormed(g.Slots())
  {
    hide Prime;
    hide Probe;
    CrowdIsUnique(g);
    var slots := g.Slots();
    forall s | 0 <= s < g.p && slots[s].Alive?
      ensures exists i: nat :: OnPath(slots, slots[s].key, i, s)
    {
      FirstProbes(g, s);
      if s == 0 || (s <= g.c && s < g.p - 1) {
        assert OnPath(slots, slots[s].key, 1, s);
      } else {
        assert OnPath(slots, slots[s].key, 0, s);
      }
    }
    PrimeIsTwo(g.p);
  }

  lemma CrowdIsLive(g: Crowd)
    requires g.Valid()
    ensures LiveSlots(g.Slots()) == g.probed + {g.c} + g.extra
  {
    hide Prime;
    forall s | s in g.probed
      ensures s < g.p
    {
    }
  }

  lemma CrowdParts(g: Crowd)
    requires g.Valid()
    ensures |g.probed| == g.p / 2 + 1 && g.p >= 3
    ensures g.c !in g.probed && g.c !in g.extra && g.probed !! g.extra
  {
    ReachSize(g.p, g.p - 1);
    hide Prime;
    hide Probe;
  }

  lemma CrowdSize(g: Crowd)
    requires g.Valid() && Unique(g.Slots())
    ensures |MapOf(g.Slots())| == g.p / 2 + 2 + |g.extra|
  {
    hide Crowd.Valid;
    hide Unique;
    hide MapOf;
    hide LiveSlots;
    hide Crowd.Slots;
    CrowdParts(g);
    CrowdIsLive(g);
    MapSize(g.Slots());
    ThreeParts(g.probed, g.c, g.extra);
  }

  lemma ThreeParts(a: set<nat>, c: nat, b: set<nat>)
    requires c !in a && c !in b && a !! b
    ensures |a + {c} + b| == |a| + 1 + |b|
  {
    assert |a + {c}| == |a| + 1;
  }

  /** Reinserting moves every key to its home, as long as the last slot is not reached. */
  lemma {:induction false} CrowdMoves(g: Crowd, k: nat)
    requires g.Valid() && k < g.p && WellFormed(g.Slots())
    ensures g.c < g.p - 1 && Reinsert(g.Slots(), k).slots == g.Moved(k)
    decreases k
  {
    hide Prime;
    hide Probe;
    hide WellFormed;
    hide Reinsert;
    hide Table.Valid;
    var slots := g.Slots();
    FirstProbes(g, 0);
    if k == 0 {
      ReinsertStart(slots);
      assert Reinsert(slots, 0).slots == g.Moved(0);
    } else {
      CrowdMoves(g, k - 1);
      FirstProbes(g, k - 1);
      if g.IsLive(k - 1) {
        ReinsertNext(slots, k - 1, 0, g.Home(k - 1));
      } else {
        ReinsertDead(slots, k - 1);
      }
      assert Reinsert(slots, k).slots == g.Moved(k);
    }
  }

  /** The last key finds every slot that it probes taken. */
  lemma CrowdLoses(g: Crowd)
    requires g.Valid() && WellFormed(g.Slots())
    ensures g.p - 1 in MapOf(g.Slots()) && g.p - 1 !in Reinsert(g.Slots(), g.p).Map()
  {
    hide Prime;
    hide WellFormed;
    hide Reinsert;
    hide MapOf;
    var slots, x := g.Slots(), g.p - 1;
    CrowdIsUnique(g);
    CrowdMoves(g, x);
    var t := Reinsert(slots, x);
    forall i | 0 <= i < g.p
      ensures At(t.slots, x, i).Alive? && At(t.slots, x, i).key != x
    {
      assert Probe(x, i, g.p) in Reached(x, g.p, g.p);
      hide Probe;
      FirstProbes(g, 0);
    }
    InsertRefused(t, x, 0);
    FirstProbes(g, x);
    ReinsertRefused(slots, x);
    MapMeaning(slots, x);
    assert Holds(slots[x], x);
    WellFormedSlots(t);
    MapMeaning(t.slots, x);
  }

  lemma CrowdFor(p: nat, n: nat) returns (g: Crowd)
    requires Prime(p) && p / 2 + 2 <= n <= p
    ensures g.Valid() && g.p == p && |g.extra| == n - (p / 2 + 2)
  {
    PrimeIsTwo(p);
    ReachSize(p, p - 1);
    hide Prime;
    hide Reached;
    var probed := Reached(p - 1, p, p);
    var c := LeastOutside(probed, p);
    var others := UpTo(p) - probed - {c};
    OthersSize(p, c, probed, others);
    var extra := Choose(others, n - (p / 2 + 2));
    g := Crowd(p, c, probed, extra);
  }

  lemma OthersSize(p: nat, c: nat, probed: set<nat>, others: set<nat>)
    requires c < p && c !in probed && others == UpTo(p) - probed - {c}
    ensures |others| >= p - |probed| - 1
  {
    var rest := UpTo(p) - probed;
    assert UpTo(p) == rest + UpTo(p) * probed;
    SetSize(UpTo(p) * probed, probed);
    assert rest == others + {c};
  }

  // With tombstones.

  /** Empty slots turned into tombstones. */
  function Buried(slots: seq<Slot<int>>, graves: set<nat>): (r: seq<Slot<int>>)
    ensures |r| == |slots|
    ensures forall s :: 0 <= s < |slots| ==> r[s] == if s in graves then Tombstone else slots[s]
  {
    seq(|slots|, s requires 0 <= s < |slots| => if s in graves then Tombstone else slots[s])
  }

  ghost predicate AreEmpty(slots: seq<Slot<int>>, graves: set<nat>) {
    forall s :: s in graves ==> s < |slots| && slots[s].Empty?
  }

  lemma BuriedIsWellFormed(slots: seq<Slot<int>>, graves: set<nat>)
    requires WellFormed(slots) && AreEmpty(slots, graves)
    ensures WellFormed(Buried(slots, graves))
  {
    hide Prime;
    hide Probe;
    var slots' := Buried(slots, graves);
    forall s | 0 <= s < |slots| && slots'[s].Alive?
      ensures exists i: nat :: OnPath(slots', slots'[s].key, i, s)
    {
      var i: nat :| OnPath(slots, slots[s].key, i, s);
      assert forall j :: 0 <= j < i ==> At(slots', slots[s].key, j).Empty? ==> At(slots, slots[s].key, j).Empty?;
      assert OnPath(slots', slots'[s].key, i, s);
    }
  }

  lemma BuriedMap(slots: seq<Slot<int>>, graves: set<nat>)
    requires Unique(slots) && AreEmpty(slots, graves) && Unique(Buried(slots, graves))
    ensures MapOf(Buried(slots, graves)) == MapOf(slots)
  {
    var slots' := Buried(slots, graves);
    forall key
      ensures key in MapOf(slots') <==> key in MapOf(slots)
      ensures key in MapOf(slots) ==> MapOf(slots')[key] == MapOf(slots)[key]
    {
      MapMeaning(slots, key);
      MapMeaning(slots', key);
      if s :| 0 <= s < |slots| && Holds(slots[s], key) {
        assert slots'[s] == slots[s];
      }
      if s :| 0 <= s < |slots| && Holds(slots'[s], key) {
        assert slots'[s] == slots[s];
      }
    }
  }

  /** A rehash looks at live slots only. */
  lemma {:induction false} BuriedReinsert(slots: seq<Slot<int>>, graves: set<nat>, n: nat)
    requires WellFormed(slots) && AreEmpty(slots, graves) && WellFormed(Buried(slots, graves)) && n <= |slots|
    ensures Reinsert(Buried(slots, graves), n) == Reinsert(slots, n)
    decreases n
  {
    hide WellFormed;
    hide InsertSelf;
    if n > 0 {
      BuriedReinsert(slots, graves, n - 1);
    }
  }

  lemma BuriedTombstones(slots: seq<Slot<int>>, graves: set<nat>)
    requires AreEmpty(slots, graves) && forall s :: 0 <= s < |slots| ==> !slots[s].Tombstone?
    ensures Tombstones(Buried(slots, graves)) == graves
  {
  }

  /** The table of a crowd, with tombstones among its empty slots. */
  function CrowdTable(g: Crowd, graves: set<nat>, a: nat): Table<int>
    requires g.p >= 3
  {
    Table(Buried(g.Slots(), graves), |graves|, a)
  }

  lemma CrowdTableIsValid(g: Crowd, graves: set<nat>, a: nat)
    requires g.Valid() && AreEmpty(g.Slots(), graves)
    ensures var t := CrowdTable(g, graves, a); t.Valid() && t.Size() == g.p && |t.Map()| == g.p / 2 + 2 + |g.extra|
    ensures g.p - 1 in CrowdTable(g, graves, a).Map()
  {
    hide Crowd.Valid;
    hide WellFormed;
    hide MapOf;
    hide Crowd.Slots;
    hide Reinsert;
    CrowdParts(g);
    CrowdIsWellFormed(g);
    CrowdIsUnique(g);
    CrowdSize(g);
    CrowdLoses(g);
    CrowdHasNoTombstone(g);
    BuriedIsWellFormed(g.Slots(), graves);
    BuriedTombstones(g.Slots(), graves);
    WellFormedSlots(CrowdTable(g, graves, a));
    UniqueSlots(Buried(g.Slots(), graves));
    BuriedMap(g.Slots(), graves);
  }

  lemma UniqueSlots(slots: seq<Slot<int>>)
    requires WellFormed(slots)
    ensures Unique(slots)
  {
  }

  lemma CrowdHasNoTombstone(g: Crowd)
    requires g.p >= 3
    ensures forall s :: 0 <= s < g.p ==> !g.Slots()[s].Tombstone?
  {
  }

  /** When the check fires on such a table, it loses the key that comes last. */
  lemma CrowdTableLoses(g: Crowd, graves: set<nat>, a: nat)
    requires g.Valid() && AreEmpty(g.Slots(), graves) && CheckFires(g.p, a, |graves|)
    requires CrowdTable(g, graves, a).Valid()
    ensures g.p - 1 !in Check(CrowdTable(g, graves, a), true).Map()
  {
    hide Crowd.Valid;
    hide WellFormed;
    hide MapOf;
    hide Crowd.Slots;
    hide Reinsert;
    hide CheckFires;
    hide Tombstones;
    CrowdParts(g);
    CrowdIsWellFormed(g);
    CrowdLoses(g);
    WellFormedSlots(CrowdTable(g, graves, a));
    BuriedReinsert(g.Slots(), graves, g.p);
  }

  /** For every prime size and all counters that a table of that size can have: the check keeps the entries of all valid
      tables with these counters and `n` keys if and only if it does not fire or the keys are at most p/2 + 1. */
  lemma CheckKeepsExactly(p: nat, n: nat, d: nat, a: nat)
    requires Prime(p) && n + d <= p
    ensures (forall t: Table<int> ::
               t.Valid() && t.Size() == p && |t.Map()| == n && t.deleteCount == d && t.aliveCount == a ==>
                 Check(t, true).Map() == t.Map()) <==>
            n <= p / 2 + 1 || !CheckFires(p, a, d)
  {
    hide Prime;
    hide MapOf;
    hide Reinsert;
    hide WellFormed;
    hide CheckFires;
    if n <= p / 2 + 1 || !CheckFires(p, a, d) {
      forall t: Table<int> | t.Valid() && t.Size() == p && |t.Map()| == n && t.deleteCount == d && t.aliveCount == a
        ensures Check(t, true).Map() == t.Map()
      {
        CheckMeaning(t, true);
      }
    } else {
      var g := CrowdFor(p, n);
      var graves := GravesFor(g, d);
      CrowdTableIsValid(g, graves, a);
      CrowdTableLoses(g, graves, a);
    }
  }

  lemma GravesFor(g: Crowd, d: nat) returns (graves: set<nat>)
    requires g.Valid() && g.p / 2 + 2 + |g.extra| + d <= g.p
    ensures g.p >= 3 && AreEmpty(g.Slots(), graves) && |graves| == d
  {
    hide Prime;
    hide Reached;
    CrowdParts(g);
    ThreeParts(g.probed, g.c, g.extra);
    var live := g.probed + {g.c} + g.extra;
    hide Crowd.Valid;
    RestSize(UpTo(g.p), live);
    graves := Choose(UpTo(g.p) - live, d);
  }

  lemma RestSize(a: set<nat>, b: set<nat>)
    ensures |a - b| >= |a| - |b|
  {
    assert a == (a - b) + a * b;
    SetSize(a * b, b);
  }
}
