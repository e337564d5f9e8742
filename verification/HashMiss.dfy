/** What the 32-bit product in the deletion loop costs, and what a full table does: the sizes and the numbers of keys
    for which a table is a finite map, exactly. */
module HashMiss {
  import opened NumberTheory
  import opened HashSpec
  import opened HashTableSpec
  import opened HashRuns
  import opened TrialDivision
  import opened Options

  /** A key, and other keys at home in the slots that it probes. */
  datatype Lonely = Lonely(p: nat, key: nat) {
    /** Another key with its first probe at slot `s`. */
    function Other(s: nat): nat {
      if s == key then s + p else s
    }

    /** The slots with the first `k` of the other keys. */
    ghost function Filled(k: nat): (r: seq<Slot<int>>)
      requires p > 0
      ensures |r| == p
      ensures forall s :: 0 <= s < p ==> r[s] == if s in Reached(key, k, p) then Alive(Other(s), 0) else Empty
    {
      seq(p, s requires 0 <= s < p => if s in Reached(key, k, p) then Alive(Other(s), 0) else Empty)
    }

    /** With the key at its probe `i`, because the slots of its earlier probes are taken. */
    ghost function Slots(i: nat): (r: seq<Slot<int>>)
      requires p > 0
      ensures |r| == p
    {
      Filled(i)[Probe(key, i, p) := Alive(key, 0)]
    }

    /** The insertions of the first `k` of the other keys. */
    function Others(k: nat): (ops: seq<Op<int>>)
      requires p > 0
      ensures |ops| == k
    {
      if k == 0 then [] else Others(k - 1) + [InsertOp(Other(Probe(key, k - 1, p)), 0, true)]
    }

    /** These and that of the key. */
    function Inserts(i: nat): (ops: seq<Op<int>>)
      requires p > 0
      ensures |ops| == i + 1
    {
      Others(i) + [InsertOp(key, 0, true)]
    }
  }

  lemma OtherHome(g: Lonely, s: nat)
    requires s < g.p
    ensures g.Other(s) != g.key && g.Other(s) < 2 * g.p && Probe(g.Other(s), 0, g.p) == s
    ensures forall t :: 0 <= t < g.p && g.Other(t) == g.Other(s) ==> t == s
  {
    ModIs(g.Other(s), g.p, if s == g.key then 1 else 0, s);
  }

  lemma NewProbe(g: Lonely, k: nat)
    requires Prime(g.p) && k <= LastNew(g.p)
    ensures g.p > 0 && Probe(g.key, k, g.p) !in Reached(g.key, k, g.p)
    ensures Reached(g.key, k + 1, g.p) == Reached(g.key, k, g.p) + {Probe(g.key, k, g.p)}
  {
    forall j | 0 <= j < k
      ensures Probe(g.key, j, g.p) != Probe(g.key, k, g.p)
    {
      ProbesDiffer(g.p, g.key, j, k);
    }
  }

  /** Filling the slot of the next probe with the key at home there. */
  lemma FilledNext(g: Lonely, k: nat)
    requires Prime(g.p) && k <= LastNew(g.p)
    ensures g.p > 0
    ensures var s := Probe(g.key, k, g.p);
            g.Filled(k)[s].Empty? && g.Filled(k)[s := Alive(g.Other(s), 0)] == g.Filled(k + 1)
  {
    hide Prime;
    hide Reached;
    hide Lonely.Other;
    NewProbe(g, k);
    hide Probe;
  }

  /** The slots of the key's first `n` probes have other keys. */
  lemma OthersMet(g: Lonely, n: nat, k: nat)
    requires g.p > 0 && k < n
    ensures At(g.Filled(n), g.key, k).Alive? && At(g.Filled(n), g.key, k).key != g.key
  {
    hide Lonely.Other;
    hide Probe;
    OtherHome(g, Probe(g.key, k, g.p));
    assert Probe(g.key, k, g.p) in Reached(g.key, n, g.p);
  }

  /** A run of insertions gets to the slots given. */
  ghost predicate Fills(p: nat, ops: seq<Op<int>>, slots: seq<Slot<int>>) {
    EmptyTable<int>(p).Valid() &&
    var t := Run(EmptyTable(p), ops).0;
    GetsTo(p, ops, t) && t.slots == slots && t.deleteCount == 0
  }

  lemma {:induction false} OthersFill(g: Lonely, k: nat)
    requires Prime(g.p) && k <= LastNew(g.p) + 1
    ensures g.p > 0 && Fills(g.p, g.Others(k), g.Filled(k))
    decreases k
  {
    PrimeIsTwo(g.p);
    hide Prime;
    hide Run;
    hide MapRun;
    hide WellFormed;
    hide Lonely.Other;
    hide Probe;
    hide Reached;
    hide Wrap32;
    if k == 0 {
      GetsToStart(g.p);
      NothingFilled(g);
    } else {
      OthersFill(g, k - 1);
      var t, s := Run(EmptyTable<int>(g.p), g.Others(k - 1)).0, Probe(g.key, k - 1, g.p);
      OtherHome(g, s);
      FilledNext(g, k - 1);
      GetsToInsert(g.p, g.Others(k - 1), t, g.Other(s), 0, s);
    }
  }

  lemma NothingFilled(g: Lonely)
    requires g.p > 0
    ensures g.Filled(0) == EmptySlots(g.p)
  {
    assert Reached(g.key, 0, g.p) == {};
  }

  /** The key goes to its probe `i`. */
  lemma KeyFills(g: Lonely, i: nat)
    requires Prime(g.p) && i <= LastNew(g.p)
    ensures g.p > 0 && Fills(g.p, g.Inserts(i), g.Slots(i))
  {
    PrimeIsTwo(g.p);
    hide Prime;
    hide Run;
    hide MapRun;
    hide WellFormed;
    hide Lonely.Other;
    hide Lonely.Others;
    hide Probe;
    hide Reached;
    hide Wrap32;
    OthersFill(g, i);
    FilledNext(g, i);
    forall k | 0 <= k < i
      ensures At(g.Filled(i), g.key, k).Alive? && At(g.Filled(i), g.key, k).key != g.key
    {
      OthersMet(g, i, k);
    }
    GetsToInsert(g.p, g.Others(i), Run(EmptyTable<int>(g.p), g.Others(i)).0, g.key, i, Probe(g.key, i, g.p));
  }

  // What the deletion loop overlooks.

  /** Before it gets to the lonely key the loop meets other keys; if it never gets there it meets an empty slot. */
  lemma {:induction false} LonelyIsMissed(g: Lonely, i: nat, j: nat)
    requires Prime(g.p) && j <= g.p && !DeletionReaches(g.p, i)
    requires forall k: nat :: k < j ==> WrappedProbe(0, k, g.p) in Reached(0, i, g.p)
    ensures FindWrapped(g.Slots(i), g.key, j).None?
    decreases g.p - j
  {
    hide Prime;
    hide WrappedProbe;
    hide Lonely.Other;
    if j < g.p {
      var s := WrappedProbe(g.key, j, g.p);
      ShiftProbe(g.p, g.key, j, i);
      assert !DeletionMeets(g.p, i, j);
      hide Probe;
      ShiftReached(g.p, g.key, j, i);
      hide Reached;
      OtherHome(g, s);
      if s in Reached(g.key, i, g.p) {
        LonelyIsMissed(g, i, j + 1);
      }
    }
  }

  /** A table without tombstones is not rehashed. */
  lemma MissedIsKept(t: Table<int>, key: nat, memory: bool)
    requires t.Valid() && t.deleteCount == 0 && FindWrapped(t.slots, key, 0).None?
    ensures Check(t, memory) == t && Delete(t, key, memory) == (t, false)
  {
    hide FindWrapped;
    hide WellFormed;
    hide Tombstones;
  }

  lemma LonelyIsLive(g: Lonely, i: nat, t: Table<int>)
    requires Prime(g.p) && i <= LastNew(g.p) && t.Valid() && g.p > 0 && t.slots == g.Slots(i)
    ensures g.key in t.Map() && LiesAt(t.slots, g.key, i)
  {
    hide WellFormed;
    hide MapOf;
    hide Tombstones;
    hide Prime;
    hide Probe;
    hide Reached;
    hide Lonely.Other;
    WellFormedSlots(t);
    MapMeaning(t.slots, g.key);
    var s := Probe(g.key, i, g.p);
    assert Holds(t.slots[s], g.key);
    forall k | 0 <= k < i
      ensures !At(t.slots, g.key, k).Empty?
    {
      OthersMet(g, i, k);
    }
    assert OnPath(t.slots, g.key, i, s);
  }

  /** The key lies on its path at its probe `i`. */
  ghost predicate LiesAt<V>(slots: seq<Slot<V>>, key: nat, i: nat)
    requires slots != []
  {
    exists s: nat :: OnPath(slots, key, i, s) && Holds(slots[s], key)
  }

  /** For every prime size, key and probe that reaches a new slot: a deletion finds the key in all valid tables in which
      it lies at that probe if and only if the deletion loop gets to that slot. */
  lemma DeletesExactly(p: nat, key: nat, i: nat)
    requires Prime(p) && i <= LastNew(p)
    ensures p > 0
    ensures (forall t: Table<int>, memory: bool ::
               t.Valid() && t.Size() == p && LiesAt(Check(t, memory).slots, key, i) ==> Delete(t, key, memory).1) <==>
            DeletionReaches(p, i)
  {
    PrimeIsTwo(p);
    hide Prime;
    hide Run;
    hide WellFormed;
    hide DeletionMeets;
    hide FindWrapped;
    hide Lonely.Inserts;
    hide OnPath;
    hide Reached;
    hide WrappedProbe;
    if DeletionReaches(p, i) {
      var m: nat :| m < p && DeletionMeets(p, i, m);
      forall t: Table<int>, memory: bool | t.Valid() && t.Size() == p && LiesAt(Check(t, memory).slots, key, i)
        ensures Delete(t, key, memory).1
      {
        hide Check;
        FindWrappedReaches(Check(t, memory).slots, key, i, m, 0);
      }
    } else {
      var g := Lonely(p, key);
      KeyFills(g, i);
      var t := Run(EmptyTable<int>(p), g.Inserts(i)).0;
      LonelyIsLive(g, i, t);
      LonelyIsMissed(g, i, 0);
      MissedIsKept(t, key, true);
    }
  }

  /** The run that fills the slots of the key's probes before the `i`-th, inserts the key and deletes it. */
  function Missing(g: Lonely, i: nat): seq<Op<int>>
    requires g.p > 0
  {
    g.Inserts(i) + [DeleteOp(g.key, true)]
  }

  /** Over this run of `i` + 1 keys the table is not a map: the last operation does not find the key that the one before
      it put in. */
  lemma DeletionMisses(g: Lonely, i: nat)
    requires Prime(g.p) && i <= LastNew(g.p) && g.p > 0 && !DeletionReaches(g.p, i)
    ensures Within(map[], Missing(g, i), i + 1)
    ensures LastDiffers(g.p, Missing(g, i), Flag(false), Flag(true))
  {
    hide Prime;
    hide Run;
    hide MapRun;
    hide Within;
    hide WellFormed;
    hide Lonely.Inserts;
    hide Lonely.Slots;
    hide DeletionReaches;
    hide Delete;
    hide MapOf;
    hide FindWrapped;
    hide Tombstones;
    KeyFills(g, i);
    var t, op := Run(EmptyTable<int>(g.p), g.Inserts(i)).0, DeleteOp(g.key, true);
    LonelyIsLive(g, i, t);
    LonelyIsMissed(g, i, 0);
    MissedIsKept(t, g.key, true);
    Differ(g.p, g.Inserts(i), t, op);
    ShortRun(map[], g.Inserts(i), op, i + 1);
  }

  // What a table too full refuses.

  /** The run that fills all slots that the key probes and inserts the key. */
  function Refusing(g: Lonely): seq<Op<int>>
    requires g.p > 0
  {
    g.Others(g.p / 2 + 1) + [InsertOp(g.key, 0, true)]
  }

  lemma OthersMetByAll(g: Lonely, k: nat)
    requires Prime(g.p) && k < g.p
    ensures At(g.Filled(g.p / 2 + 1), g.key, k).Alive? && At(g.Filled(g.p / 2 + 1), g.key, k).key != g.key
  {
    if k > g.p / 2 {
      ProbesFold(g.p, g.key, k);
      OthersMet(g, g.p / 2 + 1, g.p - k);
    } else {
      OthersMet(g, g.p / 2 + 1, k);
    }
  }

  lemma RefusedStep(t: Table<int>, key: nat)
    requires t.Valid() && t.deleteCount == 0
    requires forall k :: 0 <= k < t.Size() ==> At(t.slots, key, k).Alive? && At(t.slots, key, k).key != key
    ensures Step(t, InsertOp(key, 0, true)).1 == Flag(false) && key !in t.Map()
  {
    hide WellFormed;
    hide MapOf;
    hide Reinsert;
    NotFired(t);
    InsertRefused(t, key, 0);
    PathDecides(t.slots, key, t.Size());
    AbsentIsNoKey(t, key);
  }

  /** Over this run of p/2 + 2 keys the table is not a map: it does not take the last. */
  lemma InsertionFails(g: Lonely)
    requires Prime(g.p) && g.p > 0
    ensures Within(map[], Refusing(g), g.p / 2 + 2)
    ensures LastDiffers(g.p, Refusing(g), Flag(false), Flag(true))
  {
    hide Run;
    hide MapRun;
    hide Within;
    hide WellFormed;
    hide Lonely.Others;
    hide Lonely.Filled;
    hide MapOf;
    hide Tombstones;
    hide Step;
    var slots := g.Filled(g.p / 2 + 1);
    forall k | 0 <= k < g.p
      ensures At(slots, g.key, k).Alive? && At(slots, g.key, k).key != g.key
    {
      OthersMetByAll(g, k);
    }
    hide Prime;
    OthersFill(g, g.p / 2 + 1);
    var t, op := Run(EmptyTable<int>(g.p), g.Others(g.p / 2 + 1)).0, InsertOp(g.key, 0, true);
    RefusedStep(t, g.key);
    Differ(g.p, g.Others(g.p / 2 + 1), t, op);
    ShortRun(map[], g.Others(g.p / 2 + 1), op, g.p / 2 + 2);
  }

  // Exactly.

  /** Over all runs from the empty table that keep at most `n` keys the answers are those of a map. */
  ghost predicate IsMapWithin(p: nat, n: nat)
    requires Prime(p)
  {
    EmptyTable<int>(p).Valid() &&
    forall ops: seq<Op<int>> :: Within(map[], ops, n) ==> Run(EmptyTable(p), ops).1 == MapRun(map[], ops).1
  }

  lemma IsNoMap(p: nat, n: nat, ops: seq<Op<int>>, a: Answer<int>, b: Answer<int>, m: nat)
    requires Prime(p) && LastDiffers(p, ops, a, b) && Within(map[], ops, m) && m <= n
    ensures !IsMapWithin(p, n)
  {
    hide Prime;
    hide Run;
    hide MapRun;
    hide WellFormed;
    hide Within;
    WithinMore(map[], ops, m, n);
  }

  lemma IsMap(p: nat, n: nat)
    requires Prime(p) && p > 0 && n <= p / 2 + 1 && DeletionReachesBelow(p, n)
    ensures IsMapWithin(p, n)
  {
    hide Prime;
    hide Run;
    hide MapRun;
    hide WellFormed;
    hide Within;
    hide DeletionReachesBelow;
    hide Shallow;
    FreshIsFit<int>(p, n);
    forall ops: seq<Op<int>> | Within(map[], ops, n)
      ensures Run(EmptyTable(p), ops).1 == MapRun(map[], ops).1
    {
      RunRefines(EmptyTable(p), ops, n);
    }
  }

  /** For every prime size and every number of keys: a table is a finite map over all runs from the empty one that keep
      at most `n` keys if and only if `n` is at most p/2 + 1 and the deletion loop gets to the slots of the first `n`
      probes. */
  lemma RunsRefineExactly(p: nat, n: nat)
    requires Prime(p)
    ensures p > 0 && (IsMapWithin(p, n) <==> n <= p / 2 + 1 && DeletionReachesBelow(p, n))
  {
    PrimeIsTwo(p);
    hide Prime;
    hide IsMapWithin;
    hide LastDiffers;
    hide Within;
    hide DeletionReaches;
    var g := Lonely(p, 0);
    if n > p / 2 + 1 {
      InsertionFails(g);
      IsNoMap(p, n, Refusing(g), Flag(false), Flag(true), p / 2 + 2);
    } else if DeletionReachesBelow(p, n) {
      IsMap(p, n);
    } else {
      var i: nat :| i < n && !DeletionReaches(p, i);
      DeletionMisses(g, i);
      IsNoMap(p, n, Missing(g, i), Flag(false), Flag(true), i + 1);
    }
  }

  /** So on every prime size it is a map over all runs of at most 65536 keys, up to p/2 + 1. */
  lemma FewKeysAreMapped(p: nat, n: nat)
    requires Prime(p) && n <= p / 2 + 1 && n <= 65536
    ensures IsMapWithin(p, n)
  {
    PrimeIsTwo(p);
    hide Prime;
    hide DeletionReachesBelow;
    ExactProbesReach(p, n);
    IsMap(p, n);
  }

  // Sizes from 131072 on.

  /** On a larger prime size on which no square of a number up to 65536 is congruent to 131073, deletion overlooks the
      keys that insertion puts at their probe 65536: that index wraps to the first probe, and the next looks at an empty
      slot. */
  lemma LargeSizeMisses(p: nat)
    requires Prime(p) && p > 131072
    requires forall i: nat :: i <= 65536 ==> Probe(0, i, p) != 131073 % p
    ensures !DeletionReaches(p, 65536)
  {
    hide Prime;
    if m: nat :| m < p && DeletionMeets(p, 65536, m) {
      assert WrappedProbe(0, 65537, p) == 131073 % p;
      if m < 65536 {
        SmallSquareIsExact(m);
        ProbesDiffer(p, 0, m, 65536);
      } else if m == 65536 {
        ProbesDiffer(p, 0, 0, 65536);
      }
    }
  }

  /** A prime that the program's samples have at index 157, which is not proved here. */
  const LARGE: nat := 173617

  /** The keys of the run are the key itself and numbers below 2p. */
  lemma {:induction false} OtherKeysAreSmall(g: Lonely, k: nat)
    requires g.p > 0
    ensures forall op :: op in g.Others(k) ==> op.key < 2 * g.p
    decreases k
  {
    if k > 0 {
      OtherKeysAreSmall(g, k - 1);
      OtherHome(g, Probe(g.key, k - 1, g.p));
    }
  }

  /** Deletion overlooks every 32-bit key on the prime size 173617, over a run of 65537 such keys: there only 74239 up
      to half the size has a square congruent to 131073. */
  lemma LargeMisses(key: nat)
    requires key < TWO_TO_THE_32
    ensures Prime(LARGE) && !DeletionReaches(LARGE, 65536)
    ensures var ops := Missing(Lonely(LARGE, key), 65536);
            && (forall op :: op in ops ==> op.key < TWO_TO_THE_32) && Within(map[], ops, 65537)
            && LastDiffers(LARGE, ops, Flag(false), Flag(true))
  {
    hide Run;
    hide MapRun;
    hide Within;
    hide WellFormed;
    hide Lonely.Others;
    hide DeletionReaches;
    hide LastDiffers;
    Prime173617();
    hide Prime;
    assert Probe(0, 74239, LARGE) == 131073;
    forall i: nat | i <= 65536
      ensures Probe(0, i, LARGE) != 131073 % LARGE
    {
      ProbesDiffer(LARGE, 0, i, 74239);
    }
    LargeSizeMisses(LARGE);
    var g := Lonely(LARGE, key);
    OtherKeysAreSmall(g, 65536);
    DeletionMisses(g, 65536);
  }
}
