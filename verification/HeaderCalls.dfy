/** What one call writes when nothing else is called for: which lines of a chain, and in which order. */
module HeaderCalls {
  import opened Options
  import opened HeaderSpec
  import opened HeaderLaws
  import opened HeaderRuns
  import opened HeaderMarks
  import opened HeaderComplete

  /** No conditions. */
  ghost predicate IsQuiet(db: Database, ps: seq<nat>)
    requires Chain(db, ps)
  {
    forall k :: 0 <= k < |ps| ==>
      && db.decls[ps[k]].zIf == None
      && forall inc :: inc in db.decls[ps[k]].includes ==> inc.zIf == None
  }

  lemma QuietAt(db: Database, ps: seq<nat>, k: nat)
    requires Chain(db, ps) && IsQuiet(db, ps) && k < |ps|
    ensures ps[k] < |db.decls| && db.decls[ps[k]].zIf == None
    ensures forall inc :: inc in db.decls[ps[k]].includes ==> inc.zIf == None
    ensures Chain(db, ps[k..]) && ps[k..] != [] && ps[k..][0] == ps[k] && ps[k..][1..] == ps[k + 1..]
    ensures Chain(db, ps[k + 1..])
  {
  }

  lemma RestIsChain(db: Database, ps: seq<nat>, k: nat)
    requires Chain(db, ps) && k <= |ps|
    ensures Chain(db, ps[k..])
  {
  }

  // Forward declarations.

  /** The place has a forward typedef that is new. */
  predicate NewTypedef(db: Database, st: State, ps: seq<nat>, k: nat)
    requires Chain(db, ps)
  {
    k < |ps| && ps[k] !in st.forward && IsForwardTypedef(db.decls[ps[k]])
  }

  /** A new forward typedef stands before a place. */
  ghost predicate TypedefBefore(db: Database, st: State, ps: seq<nat>, k: nat)
    requires Chain(db, ps)
  {
    exists j: nat :: j < k && NewTypedef(db, st, ps, j)
  }

  /** The place has a new forward declaration, and if that is a typedef it is the first. */
  ghost predicate GivesForward(db: Database, st: State, ps: seq<nat>, k: nat)
    requires Chain(db, ps)
  {
    && k < |ps| && ps[k] !in st.forward && db.decls[ps[k]].zFwd.Some?
    && !(IsForwardTypedef(db.decls[ps[k]]) && TypedefBefore(db, st, ps, k))
  }

  ghost function ForwardLines(db: Database, st: State, ps: seq<nat>, k: nat): seq<Item>
    requires Chain(db, ps) && k <= |ps|
    decreases |ps| - k
  {
    if k == |ps| then []
    else (if GivesForward(db, st, ps, k) then [Forward(ps[k])] else []) + ForwardLines(db, st, ps, k + 1)
  }

  /** Some of the first `k` places has the number and a forward declaration. */
  ghost function ForwardSet(db: Database, st: State, ps: seq<nat>, k: nat): set<nat>
    requires Chain(db, ps) && k <= |ps|
    decreases k
  {
    if k == 0 then st.forward
    else ForwardSet(db, st, ps, k - 1) + if db.decls[ps[k - 1]].zFwd.Some? then {ps[k - 1]} else {}
  }

  lemma {:induction false} ForwardSetMeans(db: Database, st: State, ps: seq<nat>, k: nat, p: nat)
    requires Chain(db, ps) && k <= |ps|
    ensures p in ForwardSet(db, st, ps, k) <==>
            p in st.forward || exists j: nat :: j < k && ps[j] == p && db.decls[p].zFwd.Some?
    decreases k
  {
    hide Distinct;
    if k > 0 {
      ForwardSetMeans(db, st, ps, k - 1, p);
    }
  }

  lemma ForwardIsNew(db: Database, st: State, ps: seq<nat>, k: nat)
    requires Chain(db, ps) && k < |ps|
    ensures ps[k] in ForwardSet(db, st, ps, k) <==> ps[k] in st.forward
  {
    hide ForwardSet;
    ForwardSetMeans(db, st, ps, k, ps[k]);
  }

  lemma TypedefStep(db: Database, st: State, ps: seq<nat>, k: nat)
    requires Chain(db, ps)
    ensures TypedefBefore(db, st, ps, k + 1) <==> TypedefBefore(db, st, ps, k) || NewTypedef(db, st, ps, k)
    ensures !TypedefBefore(db, st, ps, 0)
  {
    hide NewTypedef;
  }

  /** One place of the loop. */
  lemma ForwardStep(db: Database, st: State, p: nat, rest: seq<nat>, done: bool)
    requires Sound(db) && Chain(db, [p] + rest) && Chain(db, rest) && st.zIf == None
    requires p < |db.decls| && db.decls[p].zIf == None
    ensures var d := db.decls[p];
            Forwards(db, st, [p] + rest, done) ==
            if d.zFwd.None? || p in st.forward then Forwards(db, st, rest, done)
            else if IsForwardTypedef(d) && done then Forwards(db, st.(forward := st.forward + {p}), rest, true)
            else Forwards(db, st.(forward := st.forward + {p}, out := st.out + [Forward(p)]), rest,
                          done || IsForwardTypedef(d))
  {
    hide IsForwardTypedef;
    hide Distinct;
    assert ([p] + rest)[1..] == rest;
    var st1 := st.(forward := st.forward + {p});
    assert ChangeIfContext(db, st1, None) == st1;
  }

  lemma {:induction false} ForwardsWrite(db: Database, st: State, ps: seq<nat>, k: nat, out: seq<Item>)
    requires Sound(db) && Chain(db, ps) && IsQuiet(db, ps) && st.zIf == None && k <= |ps|
    ensures Chain(db, ps[k..])
    ensures Forwards(db, st.(forward := ForwardSet(db, st, ps, k), out := out), ps[k..],
                     TypedefBefore(db, st, ps, k)) ==
            (st.(forward := ForwardSet(db, st, ps, |ps|), out := out + ForwardLines(db, st, ps, k)),
             TypedefBefore(db, st, ps, |ps|))
    decreases |ps| - k
  {
    RestIsChain(db, ps, k);
    if k == |ps| {
      hide Distinct;
      assert out + [] == out;
    } else {
      QuietAt(db, ps, k);
      ForwardsPlace(db, st, ps, k, out);
      ForwardLinesStep(db, st, ps, k, out);
      hide *;
      ForwardsWrite(db, st, ps, k + 1, out + if GivesForward(db, st, ps, k) then [Forward(ps[k])] else []);
    }
  }

  lemma ForwardLinesStep(db: Database, st: State, ps: seq<nat>, k: nat, out: seq<Item>)
    requires Chain(db, ps) && k < |ps|
    ensures var line := if GivesForward(db, st, ps, k) then [Forward(ps[k])] else [];
            out + ForwardLines(db, st, ps, k) == out + line + ForwardLines(db, st, ps, k + 1)
  {
    hide GivesForward;
    hide Distinct;
  }

  lemma ForwardsPlace(db: Database, st: State, ps: seq<nat>, k: nat, out: seq<Item>)
    requires Sound(db) && Chain(db, ps) && IsQuiet(db, ps) && st.zIf == None && k < |ps|
    requires Chain(db, ps[k..]) && Chain(db, ps[k + 1..])
    ensures var line := if GivesForward(db, st, ps, k) then [Forward(ps[k])] else [];
            Forwards(db, st.(forward := ForwardSet(db, st, ps, k), out := out), ps[k..],
                     TypedefBefore(db, st, ps, k)) ==
            Forwards(db, st.(forward := ForwardSet(db, st, ps, k + 1), out := out + line), ps[k + 1..],
                     TypedefBefore(db, st, ps, k + 1))
  {
    QuietAt(db, ps, k);
    ForwardIsNew(db, st, ps, k);
    TypedefStep(db, st, ps, k);
    assert ps[k..] == [ps[k]] + ps[k + 1..];
    var st1 := st.(forward := ForwardSet(db, st, ps, k), out := out);
    ForwardStep(db, st1, ps[k], ps[k + 1..], TypedefBefore(db, st, ps, k));
    hide Forwards;
    hide TypedefBefore;
    hide Distinct;
    hide IsQuiet;
    assert out + [] == out;
    assert ForwardSet(db, st, ps, k) + {} == ForwardSet(db, st, ps, k);
    assert ps[k] in ForwardSet(db, st, ps, k) ==> ForwardSet(db, st, ps, k) + {ps[k]} == ForwardSet(db, st, ps, k);
  }

  // Includes.

  function Reversed(list: seq<Include>): seq<Include> {
    if list == [] then [] else Reversed(list[1..]) + [list[0]]
  }

  /** The `#include`s of the first `k` places, those of each place from the last to the first. */
  function Visits(db: Database, ps: seq<nat>, k: nat): seq<Include>
    requires Chain(db, ps) && k <= |ps|
    decreases k
  {
    if k == 0 then [] else Visits(db, ps, k - 1) + Reversed(db.decls[ps[k - 1]].includes)
  }

  /** The label is on record or was visited before. */
  ghost predicate IsKnown(table: set<string>, v: seq<Include>, tag: string) {
    tag in table || exists j :: 0 <= j < |v| && v[j].tag == tag
  }

  ghost function IncludeLines(table: set<string>, v: seq<Include>): seq<Item> {
    if v == [] then []
    else
      var n := |v| - 1;
      IncludeLines(table, v[..n]) + if IsKnown(table, v[..n], v[n].tag) then [] else [IncludeLine(v[n])]
  }

  function Tags(v: seq<Include>): set<string> {
    set j | 0 <= j < |v| :: v[j].tag
  }

  ghost function Visited(st: State, v: seq<Include>): State {
    st.(table := st.table + Tags(v), out := st.out + IncludeLines(st.table, v))
  }

  /** One `#include`. */
  lemma VisitOne(st: State, v: seq<Include>, inc: Include)
    ensures Visited(st, v + [inc]) ==
            if inc.tag in Visited(st, v).table then Visited(st, v)
            else Visited(st, v).(table := Visited(st, v).table + {inc.tag}).Put(IncludeLine(inc))
  {
    var w := v + [inc];
    assert w[..|v|] == v && w[|v|] == inc;
    assert Tags(w) == Tags(v) + {inc.tag} by {
      assert forall j :: 0 <= j < |v| ==> w[j] == v[j];
    }
    assert IsKnown(st.table, v, inc.tag) <==> inc.tag in st.table + Tags(v);
    if inc.tag in st.table + Tags(v) {
      assert st.table + Tags(w) == st.table + Tags(v);
    } else {
      assert st.table + Tags(w) == st.table + Tags(v) + {inc.tag};
    }
    assert IncludeLines(st.table, v) + [] == IncludeLines(st.table, v);
    assert st.out + IncludeLines(st.table, v) + [IncludeLine(inc)] ==
           st.out + (IncludeLines(st.table, v) + [IncludeLine(inc)]);
  }

  lemma {:induction false} AddIncludesWrite(db: Database, st: State, v: seq<Include>, list: seq<Include>)
    requires Sound(db) && Labeled(db, list) && st.zIf == None && forall inc :: inc in list ==> inc.zIf == None
    ensures AddIncludes(db, Visited(st, v), list) == Visited(st, v + Reversed(list))
    decreases |list|
  {
    hide Visited;
    hide Sound;
    VisitedIsOpen(st, v);
    if list == [] {
      assert v + [] == v;
    } else {
      assert list[0] in list;
      AddIncludesWrite(db, st, v, list[1..]);
      var w := v + Reversed(list[1..]);
      VisitOne(st, w, list[0]);
      VisitedIsOpen(st, w);
      assert v + Reversed(list) == w + [list[0]];
    }
  }

  lemma VisitedIsOpen(st: State, v: seq<Include>)
    requires st.zIf == None
    ensures Visited(st, v).zIf == None
  {
  }

  lemma {:induction false} ChainIncludesWrite(db: Database, st: State, ps: seq<nat>, k: nat)
    requires Sound(db) && Chain(db, ps) && IsQuiet(db, ps) && st.zIf == None && k <= |ps|
    ensures Chain(db, ps[k..])
    ensures ChainIncludes(db, Visited(st, Visits(db, ps, k)), ps[k..]) == Visited(st, Visits(db, ps, |ps|))
    decreases |ps| - k
  {
    RestIsChain(db, ps, k);
    hide Visited;
    hide AddIncludes;
    hide Distinct;
    if k < |ps| {
      QuietAt(db, ps, k);
      hide IsQuiet;
      AddIncludesWrite(db, st, Visits(db, ps, k), db.decls[ps[k]].includes);
      ChainIncludesWrite(db, st, ps, k + 1);
    }
  }

  // Texts.

  /** The place has a text that is due. */
  predicate DueAt(db: Database, st: State, ps: seq<nat>, full: bool, k: nat)
    requires Chain(db, ps)
  {
    && k < |ps| && ps[k] !in st.declared && db.decls[ps[k]].zDecl.Some?
    && (full || db.decls[ps[k]].zFwd.None?)
  }

  /** Every declaration of the chain is declared or due. */
  predicate AllDue(db: Database, st: State, ps: seq<nat>, full: bool)
    requires Chain(db, ps)
  {
    forall k: nat :: k < |ps| ==> ps[k] in st.declared || DueAt(db, st, ps, full, k)
  }

  /** The texts that are due use no declaration, but for their own name if the whole chain is given out at once. */
  ghost predicate TextsAreQuiet(db: Database, st: State, ps: seq<nat>, full: bool)
    requires Chain(db, ps)
  {
    forall k: nat, u :: k < |ps| && DueAt(db, st, ps, full, k) && u in UsesOf(db, Searched(db.decls[ps[k]])) ==>
      u.name in db.chains ==> db.chains[u.name] == ps && AllDue(db, st, ps, full)
  }

  predicate EnumAt(db: Database, st: State, ps: seq<nat>, full: bool, k: nat)
    requires Chain(db, ps)
  {
    DueAt(db, st, ps, full, k) && !db.decls[ps[k]].isTypedef && db.decls[ps[k]].isEnum
  }

  /** A typedef was given out, or an enumeration that is due stands before the place. */
  ghost predicate OneBefore(db: Database, st: State, ps: seq<nat>, full: bool, done: bool, k: nat)
    requires Chain(db, ps)
  {
    done || exists j: nat :: j < k && EnumAt(db, st, ps, full, j)
  }

  /** The place has a text that is due and no typedef, and if that is an enumeration it is the first. */
  ghost predicate GivesText(db: Database, st: State, ps: seq<nat>, full: bool, done: bool, k: nat)
    requires Chain(db, ps)
  {
    && DueAt(db, st, ps, full, k) && !db.decls[ps[k]].isTypedef
    && !(db.decls[ps[k]].isEnum && OneBefore(db, st, ps, full, done, k))
  }

  ghost function TextLines(db: Database, st: State, ps: seq<nat>, full: bool, done: bool, k: nat): seq<Item>
    requires Chain(db, ps) && k <= |ps|
    decreases |ps| - k
  {
    if k == |ps| then []
    else
      (if GivesText(db, st, ps, full, done, k) then [Full(ps[k])] else []) + TextLines(db, st, ps, full, done, k + 1)
  }

  /** The first typedef that is due from a place on. */
  function TypedefLine(db: Database, st: State, ps: seq<nat>, full: bool, k: nat): seq<Item>
    requires Chain(db, ps) && k <= |ps|
    decreases |ps| - k
  {
    if k == |ps| then []
    else if DueAt(db, st, ps, full, k) && db.decls[ps[k]].isTypedef then [Full(ps[k])]
    else TypedefLine(db, st, ps, full, k + 1)
  }

  /** The marks behind the first `k` places. */
  ghost function Marks(db: Database, st: State, ps: seq<nat>, full: bool, done: bool, k: nat): set<nat>
    requires Chain(db, ps) && k <= |ps|
    decreases k
  {
    if k == 0 then MarkDue(db, st, ps, full).flag
    else Marks(db, st, ps, full, done, k - 1) - if GivesText(db, st, ps, full, done, k - 1) then {ps[k - 1]} else {}
  }

  lemma {:induction false} MarksMean(db: Database, st: State, ps: seq<nat>, full: bool, done: bool, k: nat, i: nat)
    requires Chain(db, ps) && k <= |ps| && i < |ps|
    ensures ps[i] in Marks(db, st, ps, full, done, k) <==>
            DueAt(db, st, ps, full, i) && !(i < k && GivesText(db, st, ps, full, done, i))
    decreases k
  {
    hide GivesText;
    if k > 0 {
      MarksMean(db, st, ps, full, done, k - 1, i);
    }
  }

  lemma OneStep(db: Database, st: State, ps: seq<nat>, full: bool, done: bool, k: nat)
    requires Chain(db, ps)
    ensures OneBefore(db, st, ps, full, done, k + 1) <==>
            OneBefore(db, st, ps, full, done, k) || EnumAt(db, st, ps, full, k)
    ensures OneBefore(db, st, ps, full, done, 0) == done
  {
    hide EnumAt;
  }

  /** One place of the first loop. */
  lemma TextStep(db: Database, st: State, p: nat, rest: seq<nat>, done: bool)
    requires Sound(db) && Chain(db, [p] + rest) && Chain(db, rest) && st.zIf == None
    requires p < |db.decls| && db.decls[p].zIf == None
    ensures var d := db.decls[p];
            Emits(db, st, [p] + rest, done) ==
            if p !in st.flag || d.isTypedef || (d.isEnum && done) then Emits(db, st, rest, done)
            else Emits(db, st.(flag := st.flag - {p}, out := st.out + [Full(p)]), rest, done || d.isEnum)
  {
    hide Distinct;
    assert ([p] + rest)[1..] == rest;
    assert Emit(db, st, p) == st.Put(Full(p));
  }

  lemma TextsPlace(db: Database, st: State, st1: State, ps: seq<nat>, full: bool, done: bool, k: nat, out: seq<Item>)
    requires Sound(db) && Chain(db, ps) && IsQuiet(db, ps) && st1.zIf == None && k < |ps|
    requires Chain(db, ps[k..]) && Chain(db, ps[k + 1..])
    ensures var line := if GivesText(db, st, ps, full, done, k) then [Full(ps[k])] else [];
            Emits(db, st1.(flag := Marks(db, st, ps, full, done, k), out := out), ps[k..],
                  OneBefore(db, st, ps, full, done, k)) ==
            Emits(db, st1.(flag := Marks(db, st, ps, full, done, k + 1), out := out + line), ps[k + 1..],
                  OneBefore(db, st, ps, full, done, k + 1))
  {
    QuietAt(db, ps, k);
    MarksMean(db, st, ps, full, done, k, k);
    OneStep(db, st, ps, full, done, k);
    assert ps[k..] == [ps[k]] + ps[k + 1..];
    var st2 := st1.(flag := Marks(db, st, ps, full, done, k), out := out);
    TextStep(db, st2, ps[k], ps[k + 1..], OneBefore(db, st, ps, full, done, k));
    hide Emits;
    hide OneBefore;
    hide Distinct;
    hide IsQuiet;
    assert out + [] == out;
    assert Marks(db, st, ps, full, done, k) - {} == Marks(db, st, ps, full, done, k);
  }

  lemma {:induction false} EmitsWrite(db: Database, st: State, st1: State, ps: seq<nat>, full: bool, done: bool, k: nat,
                                      out: seq<Item>)
    requires Sound(db) && Chain(db, ps) && IsQuiet(db, ps) && st1.zIf == None && k <= |ps|
    ensures Chain(db, ps[k..])
    ensures Emits(db, st1.(flag := Marks(db, st, ps, full, done, k), out := out), ps[k..],
                  OneBefore(db, st, ps, full, done, k)) ==
            (st1.(flag := Marks(db, st, ps, full, done, |ps|), out := out + TextLines(db, st, ps, full, done, k)),
             OneBefore(db, st, ps, full, done, |ps|))
    decreases |ps| - k
  {
    RestIsChain(db, ps, k);
    hide OneBefore;
    hide GivesText;
    hide Distinct;
    if k == |ps| {
      assert out + [] == out;
    } else {
      QuietAt(db, ps, k);
      TextsPlace(db, st, st1, ps, full, done, k, out);
      hide IsQuiet;
      hide Emits;
      hide Marks;
      var line := if GivesText(db, st, ps, full, done, k) then [Full(ps[k])] else [];
      EmitsWrite(db, st, st1, ps, full, done, k + 1, out + line);
      assert out + line + TextLines(db, st, ps, full, done, k + 1) ==
             out + (line + TextLines(db, st, ps, full, done, k + 1));
    }
  }

  lemma NoEnumAt(db: Database, st: State, ps: seq<nat>, full: bool, k: nat)
    requires Chain(db, ps) && !OneBefore(db, st, ps, full, false, |ps|) && k < |ps|
    ensures !EnumAt(db, st, ps, full, k)
  {
  }

  /** If no enumeration was given out, what is still marked are the typedefs that are due. */
  lemma {:induction false} EmitTypedefWrites(db: Database, st: State, st1: State, ps: seq<nat>, full: bool, k: nat)
    requires Sound(db) && Chain(db, ps) && IsQuiet(db, ps) && st1.zIf == None && k <= |ps|
    requires !OneBefore(db, st, ps, full, false, |ps|) && st1.flag == Marks(db, st, ps, full, false, |ps|)
    ensures Chain(db, ps[k..])
    ensures EmitTypedef(db, st1, ps[k..]).out == st1.out + TypedefLine(db, st, ps, full, k)
    decreases |ps| - k
  {
    RestIsChain(db, ps, k);
    hide Distinct;
    if k < |ps| {
      QuietAt(db, ps, k);
      MarksMean(db, st, ps, full, false, |ps|, k);
      hide Marks;
      hide IsQuiet;
      NoEnumAt(db, st, ps, full, k);
      EmitTypedefWrites(db, st, st1, ps, full, k + 1);
      assert Emit(db, st1, ps[k]) == st1.Put(Full(ps[k]));
    }
  }

  /** Where all of a chain is there, its name calls for nothing. */
  lemma {:induction false} OwnUses(db: Database, st: State, ps: seq<nat>, uses: seq<Use>)
    requires Sound(db) && Chain(db, ps)
    requires forall u :: u in uses && u.name in db.chains ==>
               db.chains[u.name] == ps && forall p :: p in ps ==> p in st.forward && p in st.declared
    ensures ScanText(db, st, uses) == st
    decreases |uses|
  {
    hide Distinct;
    hide Forwards;
    if uses != [] {
      assert uses[0] in uses;
      if uses[0].name in db.chains {
        ForwardsIdle(db, st, ps, false);
        assert DeclareObject(db, st, ps, uses[0].full) == st;
      }
      OwnUses(db, st, ps, uses[1..]);
    }
  }

  lemma {:induction false} ScansNothing(db: Database, st: State, st1: State, ps: seq<nat>, full: bool, k: nat)
    requires Sound(db) && Chain(db, ps) && k <= |ps| && TextsAreQuiet(db, st, ps, full) && st.declared <= st.forward
    requires st1.flag == MarkDue(db, st, ps, full).flag && st1.declared == MarkDue(db, st, ps, full).declared
    requires st1.forward == MarkDue(db, st, ps, full).forward
    ensures Chain(db, ps[k..])
    ensures Scans(db, st1, ps[k..]) == st1
    decreases |ps| - k
  {
    RestIsChain(db, ps, k);
    hide Distinct;
    hide ScanText;
    hide UsesOf;
    if k < |ps| {
      RestIsChain(db, ps, k + 1);
      assert ps[k..][0] == ps[k] && ps[k..][1..] == ps[k + 1..];
      MarkedIsDue(db, st, ps, full, k);
      if ps[k] in st1.flag {
        AllAreThere(db, st, ps, full);
        OwnUses(db, st1, ps, UsesOf(db, Searched(db.decls[ps[k]])));
      }
      ScansNothing(db, st, st1, ps, full, k + 1);
    }
  }

  lemma AllAreThere(db: Database, st: State, ps: seq<nat>, full: bool)
    requires Chain(db, ps) && st.declared <= st.forward
    ensures AllDue(db, st, ps, full) ==>
              forall p :: p in ps ==> p in MarkDue(db, st, ps, full).forward && p in MarkDue(db, st, ps, full).declared
  {
  }

  lemma MarkedIsDue(db: Database, st: State, ps: seq<nat>, full: bool, i: nat)
    requires Chain(db, ps) && i < |ps|
    ensures ps[i] in MarkDue(db, st, ps, full).flag <==> DueAt(db, st, ps, full, i)
  {
  }

  // The whole call.

  /** What a call gives out in full: texts in the chain's order, then one typedef if neither a forward typedef nor an
      enumeration was given out. */
  ghost function FullLines(db: Database, st: State, ps: seq<nat>, full: bool, done: bool): seq<Item>
    requires Chain(db, ps)
  {
    TextLines(db, st, ps, full, done, 0)
    + if OneBefore(db, st, ps, full, done, |ps|) then [] else TypedefLine(db, st, ps, full, 0)
  }

  lemma EmitDueWrites(db: Database, st: State, st1: State, ps: seq<nat>, full: bool, done: bool)
    requires Sound(db) && Chain(db, ps) && IsQuiet(db, ps) && st1.zIf == None
    requires TextsAreQuiet(db, st, ps, full) && st.declared <= st.forward
    requires st1.flag == MarkDue(db, st, ps, full).flag && st1.declared == MarkDue(db, st, ps, full).declared
    requires st1.forward == MarkDue(db, st, ps, full).forward
    ensures EmitDue(db, st1, ps, done).out == st1.out + FullLines(db, st, ps, full, done)
  {
    hide Distinct;
    hide Scans;
    hide Emits;
    hide EmitTypedef;
    hide TextLines;
    hide TypedefLine;
    hide MarkDue;
    hide TextsAreQuiet;
    assert ps[0..] == ps;
    ScansNothing(db, st, st1, ps, full, 0);
    OneStep(db, st, ps, full, done, 0);
    assert st1.(flag := Marks(db, st, ps, full, done, 0), out := st1.out) == st1;
    EmitsWrite(db, st, st1, ps, full, done, 0, st1.out);
    var (st2, after) := Emits(db, st1, ps, done);
    if !after {
      assert !done;
      EmitTypedefWrites(db, st, st2, ps, full, 0);
    }
  }

  lemma {:induction false} NothingDueWrites(db: Database, st: State, ps: seq<nat>, full: bool, done: bool, k: nat)
    requires Chain(db, ps) && k <= |ps| && forall i: nat :: i < |ps| ==> !DueAt(db, st, ps, full, i)
    ensures TextLines(db, st, ps, full, done, k) == [] && TypedefLine(db, st, ps, full, k) == []
    decreases |ps| - k
  {
    hide Distinct;
    if k < |ps| {
      NothingDueWrites(db, st, ps, full, done, k + 1);
    }
  }

  lemma GiveDueWrites(db: Database, st: State, ps: seq<nat>, full: bool, done: bool)
    requires Sound(db) && Chain(db, ps) && IsQuiet(db, ps) && st.zIf == None
    requires TextsAreQuiet(db, st, ps, full) && st.declared <= st.forward
    ensures GiveDue(db, st, ps, full, done).out == st.out + FullLines(db, st, ps, full, done)
  {
    hide Distinct;
    hide EmitDue;
    hide DueAt;
    hide TextsAreQuiet;
    var st1 := MarkDue(db, st, ps, full);
    forall i: nat | i < |ps|
      ensures ps[i] in st1.flag <==> DueAt(db, st, ps, full, i)
    {
      MarkedIsDue(db, st, ps, full, i);
    }
    if p :| p in ps && p in st1.flag {
      EmitDueWrites(db, st, st1, ps, full, done);
    } else {
      NothingDueWrites(db, st, ps, full, done, 0);
      assert st.out + [] == st.out;
    }
  }

  /** Every declaration of the chain is forward declared, or will be, and declared if need be. */
  predicate HasAllAlready(db: Database, st: State, ps: seq<nat>, full: bool)
    requires Chain(db, ps)
  {
    forall k :: 0 <= k < |ps| ==>
      (ps[k] in st.forward || db.decls[ps[k]].zFwd.Some?) && (full ==> ps[k] in st.declared)
  }

  lemma SuitableMeans(db: Database, st: State, ps: seq<nat>, full: bool, out: seq<Item>)
    requires Chain(db, ps)
    ensures IsSuitable(st.(forward := ForwardSet(db, st, ps, |ps|), out := out), ps, full) <==>
            HasAllAlready(db, st, ps, full)
  {
    hide ForwardSet;
    hide Distinct;
    forall k | 0 <= k < |ps|
      ensures ps[k] in ForwardSet(db, st, ps, |ps|) <==> ps[k] in st.forward || db.decls[ps[k]].zFwd.Some?
    {
      ForwardSetMeans(db, st, ps, |ps|, ps[k]);
    }
  }

  /** What a call writes on a chain without conditions whose texts call for nothing else: first the forward declarations
      that are new, of typedefs only the first; then, unless all is there already, the `#include`s with new labels, the
      texts that are due, of enumerations only the first, and at last one typedef if none of either kind was written. */
  lemma QuietCall(db: Database, st: State, ps: seq<nat>, full: bool)
    requires Sound(db) && Chain(db, ps) && IsQuiet(db, ps) && st.zIf == None
    requires TextsAreQuiet(db, st, ps, full) && st.declared <= st.forward
    ensures DeclareObject(db, st, ps, full).out ==
            st.out + ForwardLines(db, st, ps, 0)
            + if HasAllAlready(db, st, ps, full) then []
              else IncludeLines(st.table, Visits(db, ps, |ps|))
                   + FullLines(db, st, ps, full, TypedefBefore(db, st, ps, |ps|))
  {
    hide Distinct;
    hide Forwards;
    hide ChainIncludes;
    hide GiveDue;
    hide ForwardLines;
    hide IncludeLines;
    hide Visits;
    hide FullLines;
    hide TextsAreQuiet;
    assert ps[0..] == ps;
    TypedefStep(db, st, ps, 0);
    ForwardsWrite(db, st, ps, 0, st.out);
    hide TypedefBefore;
    var (st1, done) := Forwards(db, st, ps, false);
    SuitableMeans(db, st, ps, full, st1.out);
    hide HasAllAlready;
    if !IsSuitable(st1, ps, full) {
      var v := Visits(db, ps, |ps|);
      NothingVisited(db, st1, ps);
      ChainIncludesWrite(db, st1, ps, 0);
      var st2 := ChainIncludes(db, st1, ps);
      assert st2 == Visited(st1, v);
      StillQuiet(db, st, st2, ps, full);
      GiveDueWrites(db, st2, ps, full, done);
      SameFullLines(db, st, st2, ps, full, done);
    }
  }

  lemma StillQuiet(db: Database, st: State, st': State, ps: seq<nat>, full: bool)
    requires Chain(db, ps) && st.declared == st'.declared && TextsAreQuiet(db, st, ps, full)
    ensures TextsAreQuiet(db, st', ps, full)
  {
    hide UsesOf;
    hide Distinct;
    assert forall k :: DueAt(db, st, ps, full, k) == DueAt(db, st', ps, full, k);
  }

  lemma NothingVisited(db: Database, st: State, ps: seq<nat>)
    requires Chain(db, ps)
    ensures Visits(db, ps, 0) == [] && Visited(st, []) == st
  {
    assert st.table + {} == st.table && st.out + [] == st.out;
  }

  /** Only what is declared decides on the texts. */
  lemma SameDue(db: Database, st: State, st': State, ps: seq<nat>, full: bool, done: bool)
    requires Chain(db, ps) && st.declared == st'.declared
    ensures forall k :: EnumAt(db, st, ps, full, k) == EnumAt(db, st', ps, full, k)
    ensures forall k :: OneBefore(db, st, ps, full, done, k) == OneBefore(db, st', ps, full, done, k)
  {
    hide Distinct;
    forall k
      ensures OneBefore(db, st, ps, full, done, k) == OneBefore(db, st', ps, full, done, k)
    {
      if j: nat :| j < k && EnumAt(db, st, ps, full, j) {
        assert EnumAt(db, st', ps, full, j);
      }
      if j: nat :| j < k && EnumAt(db, st', ps, full, j) {
        assert EnumAt(db, st, ps, full, j);
      }
    }
  }

  lemma {:induction false} SameLines(db: Database, st: State, st': State, ps: seq<nat>, full: bool, done: bool, k: nat)
    requires Chain(db, ps) && st.declared == st'.declared && k <= |ps|
    ensures TextLines(db, st, ps, full, done, k) == TextLines(db, st', ps, full, done, k)
    ensures TypedefLine(db, st, ps, full, k) == TypedefLine(db, st', ps, full, k)
    decreases |ps| - k
  {
    hide Distinct;
    SameDue(db, st, st', ps, full, done);
    hide OneBefore;
    if k < |ps| {
      SameLines(db, st, st', ps, full, done, k + 1);
    }
  }

  lemma SameFullLines(db: Database, st: State, st': State, ps: seq<nat>, full: bool, done: bool)
    requires Chain(db, ps) && st.declared == st'.declared
    ensures FullLines(db, st, ps, full, done) == FullLines(db, st', ps, full, done)
  {
    hide Distinct;
    SameDue(db, st, st', ps, full, done);
    SameLines(db, st, st', ps, full, done, 0);
    hide OneBefore;
    hide TextLines;
    hide TypedefLine;
  }

  /** Where the `#if` that is wanted is open already, nothing is written. */
  lemma SameContext(db: Database, st: State)
    requires Sound(db)
    ensures ChangeIfContext(db, st, st.zIf) == st
  {
  }
}
