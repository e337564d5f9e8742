/** A run that fills a table of any prime size from 11 on, and deletes until a rehash is due: it loses a key. */
module HashCrowds {
  import opened NumberTheory
  import opened HashSpec
  import opened HashTableSpec
  import opened HashRuns
  import opened HashLoss

  /** Sizes whose counters stay exact in 32 bits; the program's are below 500000. */
  const MOST: nat := 0x2000_0000

  ghost predicate IsFull(g: Crowd) {
    g.Valid() && 11 <= g.p < MOST && forall s: nat :: s < g.p ==> g.IsLive(s)
  }

  lemma EnoughExtra(p: nat)
    requires Prime(p) && p >= 11
    ensures p - (p / 2 + 1) - 1 >= p / 3 + 1
  {
    assert p % 2 != 0;
  }

  lemma FullCrowd(p: nat) returns (g: Crowd)
    requires Prime(p) && 11 <= p < MOST
    ensures IsFull(g) && g.p == p && |g.extra| >= p / 3 + 1
  {
    ReachSize(p, p - 1);
    EnoughExtra(p);
    hide Prime;
    hide Reached;
    var probed := Reached(p - 1, p, p);
    var c := LeastOutside(probed, p);
    var extra := UpTo(p) - probed - {c};
    OthersSize(p, c, probed, extra);
    FullIsFull(p, c, probed, extra);
    g := Crowd(p, c, probed, extra);
  }

  lemma FullIsFull(p: nat, c: nat, probed: set<nat>, extra: set<nat>)
    requires Prime(p) && 11 <= p < MOST && probed == Reached(p - 1, p, p) && extra == UpTo(p) - probed - {c}
    requires c < p && c !in probed && forall s: nat :: s < c ==> s in probed
    ensures IsFull(Crowd(p, c, probed, extra))
  {
    hide Prime;
    hide Reached;
    var upTo := UpTo(p);
    hide UpTo;
    forall s: nat | s < p
      ensures Crowd(p, c, probed, extra).IsLive(s)
    {
      assert s in upTo;
    }
  }

  // Filling the table.

  /** The slots are filled in turn, the last of them first. */
  function SlotAt(p: nat, k: nat): nat
    requires 0 < k <= p
  {
    if k == 1 then p - 1 else k - 2
  }

  function Stage(g: Crowd, k: nat): (r: seq<Slot<int>>)
    requires g.p >= 3
    ensures |r| == g.p
    ensures forall s :: 0 <= s < g.p ==> r[s] == StageAt(g, k, s)
  {
    seq(g.p, s requires 0 <= s < g.p => StageAt(g, k, s))
  }

  function StageAt(g: Crowd, k: nat, s: nat): Slot<int>
    requires g.p >= 3
  {
    if k > 0 && (s == g.p - 1 || s + 2 <= k) then Alive(g.KeyIn(s), 0) else Empty
  }

  function Filling(g: Crowd, k: nat): (ops: seq<Op<int>>)
    requires g.p >= 3 && k <= g.p
    ensures |ops| == k
  {
    if k == 0 then [] else Filling(g, k - 1) + [InsertOp(g.KeyIn(SlotAt(g.p, k)), 0, true)]
  }

  lemma StageNext(g: Crowd, k: nat)
    requires g.p >= 3 && 0 < k <= g.p
    ensures var s := SlotAt(g.p, k);
            && s < g.p && Stage(g, k - 1)[s].Empty? && Stage(g, k - 1)[s := Alive(g.KeyIn(s), 0)] == Stage(g, k)
  {
  }

  /** Which probe takes a key to its slot: all but the key p - 1 up to the slot `c` are pushed on once. */
  function Pushes(g: Crowd, s: nat): nat {
    if s == 0 || (s <= g.c && s < g.p - 1) then 1 else 0
  }

  lemma PushedTo(g: Crowd, k: nat)
    requires IsFull(g) && 0 < k <= g.p
    ensures var s, slots := SlotAt(g.p, k), Stage(g, k - 1);
            var key, j := g.KeyIn(s), Pushes(g, s);
            && Probe(key, j, g.p) == s
            && forall i :: 0 <= i < j ==> At(slots, key, i).Alive? && At(slots, key, i).key != key
  {
    hide Prime;
    hide Probe;
    hide Crowd.Valid;
    var s := SlotAt(g.p, k);
    FirstProbes(g, s);
    if s < g.p - 1 {
      var slots := Stage(g, k - 1);
      assert At(slots, g.KeyIn(s), 0) == slots[g.Home(s)];
    }
  }

  lemma {:induction false} FillingGetsTo(g: Crowd, k: nat)
    requires IsFull(g) && k <= g.p
    ensures GetsTo(g.p, Filling(g, k), Table(Stage(g, k), 0, k))
    decreases k
  {
    hide GetsTo;
    hide Stage;
    hide Wrap32;
    if k == 0 {
      CrowdIsPrime(g);
      GetsToStart(g.p);
      NothingStaged(g);
    } else {
      FillingGetsTo(g, k - 1);
      StageNext(g, k);
      PushedTo(g, k);
      SmallWrap(k);
      GetsToTable(g.p, Filling(g, k - 1), Table(Stage(g, k - 1), 0, k - 1));
      hide Probe;
      var s := SlotAt(g.p, k);
      GetsToInsert(g.p, Filling(g, k - 1), Table(Stage(g, k - 1), 0, k - 1), g.KeyIn(s), Pushes(g, s), s);
    }
  }

  lemma CrowdIsPrime(g: Crowd)
    requires g.Valid()
    ensures Prime(g.p) && g.p >= 3
  {
  }

  lemma NothingStaged(g: Crowd)
    requires g.p >= 3
    ensures Stage(g, 0) == EmptySlots(g.p)
  {
  }

  lemma GetsToTable(p: nat, ops: seq<Op<int>>, t: Table<int>)
    requires GetsTo(p, ops, t)
    ensures t.Valid() && t.Size() == p
  {
  }

  lemma FilledCrowd(g: Crowd)
    requires IsFull(g)
    ensures Table(Stage(g, g.p), 0, g.p) == CrowdTable(g, {}, g.p)
  {
    hide Prime;
    assert Stage(g, g.p) == Buried(g.Slots(), {});
  }

  // Deleting keys at home.

  ghost predicate Distinct(ds: seq<nat>) {
    forall i, j :: 0 <= i < j < |ds| ==> ds[i] != ds[j]
  }

  ghost function SetOf(ds: seq<nat>): set<nat> {
    set d | d in ds
  }

  /** The crowd without the keys. */
  ghost function Without(g: Crowd, ds: seq<nat>): Crowd {
    g.(extra := g.extra - SetOf(ds))
  }

  function Crowding(g: Crowd, ds: seq<nat>): (ops: seq<Op<int>>)
    requires g.p >= 3
    decreases |ds|
  {
    if ds == [] then Filling(g, g.p) else Crowding(g, ds[..|ds| - 1]) + [DeleteOp(ds[|ds| - 1], true)]
  }

  lemma SetOfSnoc(ds: seq<nat>)
    requires ds != [] && Distinct(ds)
    ensures var front, d := ds[..|ds| - 1], ds[|ds| - 1];
            SetOf(ds) == SetOf(front) + {d} && d !in SetOf(front) && |SetOf(ds)| == |SetOf(front)| + 1
  {
    var front, d := ds[..|ds| - 1], ds[|ds| - 1];
    assert ds == front + [d];
    assert SetOf(ds) == SetOf(front) + {d};
  }

  lemma WithoutIsValid(g: Crowd, ds: seq<nat>)
    requires g.Valid() && forall d :: d in ds ==> d in g.extra
    ensures Without(g, ds).Valid() && AreEmpty(Without(g, ds).Slots(), SetOf(ds))
  {
    hide Prime;
    hide Reached;
  }

  lemma ExtraIsHome(g: Crowd, d: nat)
    requires g.Valid() && d in g.extra
    ensures g.c < d < g.p - 1 && g.KeyIn(d) == d && WrappedProbe(d, 0, g.p) == d
  {
    FirstProbes(g, 0);
    hide Prime;
    hide Reached;
    ModIs(d, g.p, 0, d);
  }

  lemma DeleteHome(g: Crowd, ds: seq<nat>)
    requires IsFull(g) && ds != [] && Distinct(ds) && forall d :: d in ds ==> d in g.extra
    ensures var front, d := ds[..|ds| - 1], ds[|ds| - 1];
            var slots := Buried(Without(g, front).Slots(), SetOf(front));
            && d < g.p && WrappedProbe(d, 0, g.p) == d && Holds(slots[d], d)
            && slots[d := Tombstone] == Buried(Without(g, ds).Slots(), SetOf(ds))
  {
    var front, d := ds[..|ds| - 1], ds[|ds| - 1];
    SetOfSnoc(ds);
    ExtraIsHome(g, d);
    assert d !in g.probed && d in Without(g, front).extra;
    hide Crowd.Valid;
    hide WrappedProbe;
    hide SetOf;
    hide Crowd.KeyIn;
    BuryOne(Without(g, front), SetOf(front), Without(g, ds), SetOf(ds), d);
  }

  lemma BuryOne(g: Crowd, graves: set<nat>, g': Crowd, graves': set<nat>, d: nat)
    requires 3 <= g.p && d < g.p && g' == g.(extra := g'.extra) && d !in graves && graves' == graves + {d}
    requires d in g.extra && forall s :: s != d ==> (s in g.extra <==> s in g'.extra)
    ensures var slots := Buried(g.Slots(), graves);
            slots[d] == Alive(g.KeyIn(d), 0) && slots[d := Tombstone] == Buried(g'.Slots(), graves')
  {
    hide Crowd.KeyIn;
    hide Crowd.Slots;
    hide Buried;
    var slots, slots' := Buried(g.Slots(), graves), Buried(g'.Slots(), graves');
    forall s | 0 <= s < g.p
      ensures slots[d := Tombstone][s] == slots'[s]
    {
      KeyStays(g, g', s);
    }
    assert slots[d := Tombstone] == slots';
  }

  lemma KeyStays(g: Crowd, g': Crowd, s: nat)
    requires g.p >= 3 && g' == g.(extra := g'.extra)
    ensures g.KeyIn(s) == g'.KeyIn(s)
  {
  }

  lemma NothingDeleted(g: Crowd)
    requires IsFull(g)
    ensures SetOf([]) == {} && GetsTo(g.p, Crowding(g, []), CrowdTable(Without(g, []), SetOf([]), g.p))
  {
    hide GetsTo;
    hide Crowd.Valid;
    hide Stage;
    hide CrowdTable;
    FillingGetsTo(g, g.p);
    FilledCrowd(g);
    assert SetOf([]) == {} && Without(g, []) == g;
  }

  lemma {:induction false} CrowdingGetsTo(g: Crowd, ds: seq<nat>)
    requires IsFull(g) && Distinct(ds) && |ds| <= g.p / 3 + 1 && forall d :: d in ds ==> d in g.extra
    ensures |SetOf(ds)| == |ds| && GetsTo(g.p, Crowding(g, ds), CrowdTable(Without(g, ds), SetOf(ds), g.p))
    decreases |ds|
  {
    hide GetsTo;
    hide Crowd.Slots;
    hide Crowd.Valid;
    hide Buried;
    hide WrappedProbe;
    hide Filling;
    hide CheckFires;
    if ds == [] {
      NothingDeleted(g);
    } else {
      var front, d := ds[..|ds| - 1], ds[|ds| - 1];
      CrowdingGetsTo(g, front);
      SetOfSnoc(ds);
      DeleteHome(g, ds);
      NotYet(g.p, |front|);
      hide IsFull;
      GetsToTable(g.p, Crowding(g, front), CrowdTable(Without(g, front), SetOf(front), g.p));
      GetsToDelete(g.p, Crowding(g, front), CrowdTable(Without(g, front), SetOf(front), g.p), d, d);
    }
  }

  lemma NotYet(p: nat, d: nat)
    requires p < MOST && d <= p / 3
    ensures !CheckFires(p, p, d)
  {
  }

  lemma Due(p: nat)
    requires p < MOST
    ensures CheckFires(p, p, p / 3 + 1)
  {
  }

  // The loss.

  /** Some of the elements, in a row. */
  lemma {:induction false} ListOf(a: set<nat>, n: nat) returns (ds: seq<nat>)
    requires n <= |a|
    ensures |ds| == n && Distinct(ds) && forall d :: d in ds ==> d in a
    decreases n
  {
    ds := [];
    if n > 0 {
      var front := ListOf(a, n - 1);
      var more := SetOf(front);
      SetOfSize(front);
      if a <= more {
        SetSize(a, more);
      }
      var d :| d in a && d !in more;
      ds := front + [d];
    }
  }

  lemma {:induction false} SetOfSize(ds: seq<nat>)
    ensures |SetOf(ds)| <= |ds|
    decreases |ds|
  {
    if ds == [] {
      assert SetOf(ds) == {};
    } else {
      var front, d := ds[..|ds| - 1], ds[|ds| - 1];
      SetOfSize(front);
      assert ds == front + [d];
      assert SetOf(ds) == SetOf(front) + {d};
    }
  }

  /** The run keeps at most p keys, all of them below 2p. */
  lemma {:induction false} CrowdingIsWithin(g: Crowd, ds: seq<nat>)
    requires IsFull(g) && forall d :: d in ds ==> d in g.extra
    ensures Within(map[], Crowding(g, ds), g.p)
    ensures forall op :: op in Crowding(g, ds) ==> op.key < 2 * g.p
    decreases |ds|
  {
    hide Within;
    hide Prime;
    hide Filling;
    if ds == [] {
      FillingIsWithin(g);
    } else {
      var front, d := ds[..|ds| - 1], ds[|ds| - 1];
      CrowdingIsWithin(g, front);
      WithinThen(map[], Crowding(g, front), DeleteOp(d, true), g.p);
      assert d in g.extra;
      assert Crowding(g, ds) == Crowding(g, front) + [DeleteOp(d, true)];
    }
  }

  lemma FillingIsWithin(g: Crowd)
    requires g.p >= 3
    ensures Within(map[], Filling(g, g.p), g.p)
    ensures forall op :: op in Filling(g, g.p) ==> op.key < 2 * g.p
  {
    hide Within;
    FillingKeys(g, g.p);
    ShortRun(map[], Filling(g, g.p - 1), InsertOp(g.KeyIn(SlotAt(g.p, g.p)), 0, true), g.p);
  }

  lemma {:induction false} FillingKeys(g: Crowd, k: nat)
    requires g.p >= 3 && k <= g.p
    ensures forall op :: op in Filling(g, k) ==> op.key < 2 * g.p
    decreases k
  {
    if k > 0 {
      FillingKeys(g, k - 1);
    }
  }

  /** For every prime size from 11 on whose counters stay exact: a run that fills the table and deletes a third of it
      gets to a table whose next check fires and loses a live key, and a deletion of that key then says that it is not
      there. */
  lemma RehashLosesKeys(p: nat) returns (ops: seq<Op<int>>)
    requires Prime(p) && 11 <= p < MOST
    ensures Within(map[], ops, p) && forall op :: op in ops ==> op.key < 2 * p
    ensures EmptyTable<int>(p).Valid()
    ensures var t := Run(EmptyTable(p), ops).0;
            && GetsTo(p, ops, t) && CheckFires(p, t.aliveCount, t.deleteCount)
            && p - 1 in t.Map() && p - 1 !in Check(t, true).Map()
    ensures LastDiffers(p, ops + [DeleteOp(p - 1, true)], Flag(false), Flag(true))
  {
    hide Prime;
    hide Run;
    hide MapRun;
    hide Within;
    hide WellFormed;
    hide MapOf;
    hide Crowding;
    hide CrowdTable;
    hide Check;
    hide CheckFires;
    hide Tombstones;
    hide LastDiffers;
    hide Shallow;
    hide DeletionReachesBelow;
    var g := FullCrowd(p);
    var ds := ListOf(g.extra, p / 3 + 1);
    ops := Crowding(g, ds);
    CrowdingIsWithin(g, ds);
    CrowdingGetsTo(g, ds);
    var t := CrowdTable(Without(g, ds), SetOf(ds), p);
    LossIsDue(g, ds);
    DeleteMeaning(t, p - 1, true, 0);
    Differ(p, ops, t, DeleteOp(p - 1, true));
  }

  lemma LossIsDue(g: Crowd, ds: seq<nat>)
    requires IsFull(g) && Distinct(ds) && |ds| == g.p / 3 + 1 == |SetOf(ds)| && forall d :: d in ds ==> d in g.extra
    ensures var t := CrowdTable(Without(g, ds), SetOf(ds), g.p);
            && t.Valid() && CheckFires(g.p, t.aliveCount, t.deleteCount) && t.aliveCount == g.p
            && g.p - 1 in t.Map() && g.p - 1 !in Check(t, true).Map()
  {
    hide Crowd.Valid;
    hide WellFormed;
    hide MapOf;
    hide Tombstones;
    hide Buried;
    hide Crowd.Slots;
    hide Check;
    hide CheckFires;
    WithoutIsValid(g, ds);
    Due(g.p);
    CrowdTableIsValid(Without(g, ds), SetOf(ds), g.p);
    CrowdTableLoses(Without(g, ds), SetOf(ds), g.p);
  }
}
