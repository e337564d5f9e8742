/** C forbids to repeat a typedef: of the forward typedefs, typedefs and enumerations of one name a header has at most
    one, provided that the conditions of these declarations do not call for the name. */
module HeaderTypedefs {
  import opened Options
  import opened HeaderSpec
  import opened HeaderLaws
  import opened HeaderRuns
  import opened HeaderOrder
  import opened HeaderPrecedence
  import opened HeaderMarks
  import opened HeaderPresence
  import opened HeaderContents

  /** A line that typedefs the name, or declares it as an enumeration. */
  predicate Typedefs(db: Database, n: string, item: Item) {
    (item.Forward? || item.Full?) && item.p < |db.decls| && db.decls[item.p].name == n &&
    if item.Forward? then IsForwardTypedef(db.decls[item.p])
    else db.decls[item.p].isTypedef || db.decls[item.p].isEnum
  }

  function Times(db: Database, n: string, out: seq<Item>): nat {
    if out == [] then 0
    else Times(db, n, out[..|out| - 1]) + if Typedefs(db, n, out[|out| - 1]) then 1 else 0
  }

  /** The declarations of the name are as the parser makes them, and their conditions use only names that do not call
      for it. */
  ghost predicate IsIdle(db: Database, n: string, called: set<string>) {
    && Sound(db) && Indexed(db) && Closed(db, called) && n !in called
    && forall d :: d in db.decls && d.name == n ==>
         && IsTame(d) && ConditionWithin(db, d.zIf, called)
         && forall inc :: inc in d.includes ==> ConditionWithin(db, inc.zIf, called)
  }

  /** Every typedef and enumeration of the name is on record. */
  ghost predicate AllOnRecord(db: Database, st: State, n: string) {
    forall q: nat :: q < |db.decls| && db.decls[q].name == n ==>
      && (IsForwardTypedef(db.decls[q]) ==> q in st.forward)
      && (db.decls[q].zFwd.None? && db.decls[q].zDecl.Some? && (db.decls[q].isTypedef || db.decls[q].isEnum) ==>
            q in st.declared)
  }

  /** Something of the name is on record in this file. */
  ghost predicate IsTouched(db: Database, base: set<nat>, st: State, n: string) {
    exists q: nat :: q < |db.decls| && db.decls[q].name == n && q in st.forward && q !in base
  }

  /** No line of the name is in the header at first; then at most one, and no other will come. */
  ghost predicate Once(db: Database, base: set<nat>, st: State, n: string) {
    && Proper(db, st) && base <= st.declared
    && Times(db, n, st.out) <= (if IsTouched(db, base, st, n) then 1 else 0)
    && (IsTouched(db, base, st, n) ==> AllOnRecord(db, st, n))
  }

  lemma TimesPut(db: Database, n: string, st: State, item: Item)
    ensures Times(db, n, st.Put(item).out) == Times(db, n, st.out) + if Typedefs(db, n, item) then 1 else 0
  {
    assert st.Put(item).out[..|st.out|] == st.out;
  }

  /** New lines that are none of the name's. */
  lemma {:induction false} TimesStay(db: Database, n: string, out: seq<Item>, out': seq<Item>)
    requires out <= out' && forall k :: |out| <= k < |out'| ==> !Typedefs(db, n, out'[k])
    ensures Times(db, n, out') == Times(db, n, out)
    decreases |out'|
  {
    if out' != out {
      TimesStay(db, n, out, out'[..|out'| - 1]);
    }
  }

  // Calls that cannot reach the name.

  /** A watch that begins here. */
  lemma Begin(db: Database, st: State, needed: set<string>, x: Item)
    requires Sound(db) && Indexed(db) && Proper(db, st) && Closed(db, needed) && x == IncludeLine(Include("", None, ""))
    ensures Watched(db, FromHere(st, needed, x)) && Good(db, FromHere(st, needed, x), st, Has(st, x))
  {
    HereIsGood(db, st, needed, x, Has(st, x));
  }

  /** What a watch tells about new lines. */
  lemma NewLines(db: Database, st: State, st': State, needed: set<string>, x: Item, coming: bool)
    requires Sound(db) && Good(db, FromHere(st, needed, x), st', coming)
    ensures st.out <= st'.out && Proper(db, st')
    ensures forall k :: |st.out| <= k < |st'.out| ==>
              match st'.out[k]
              case Full(p) =>
                p < |db.decls| && db.decls[p].name in needed && p !in st.declared && db.decls[p].zDecl.Some?
              case Forward(p) => p < |db.decls| && db.decls[p].name in needed && p !in st.forward
              case _ => true
    ensures forall p :: p in st'.forward && p !in st.forward ==> p < |db.decls| && db.decls[p].name in needed
  {
    hide Kept;
    hide Proper;
    hide UsesProvided;
  }

  /** Opening a condition that does not call for the name. */
  lemma ConditionIsQuiet(db: Database, n: string, called: set<string>, st: State, zIf: Option<string>)
    requires IsIdle(db, n, called) && Proper(db, st) && ConditionWithin(db, zIf, called)
    ensures var st' := ChangeIfContext(db, st, zIf);
            && Proper(db, st') && Times(db, n, st'.out) == Times(db, n, st.out)
            && forall p :: p in st'.forward && p !in st.forward && p < |db.decls| ==> db.decls[p].name != n
  {
    if zIf.Some? && st.zIf != zIf {
      var st1 := CloseIf(st);
      CloseIfIsQuiet(db, n, st);
      var uses := UsesOf(db, zIf.value);
      UsesAreQuiet(db, n, called, st1, uses);
      var st2 := ScanText(db, st1, uses);
      CloseIfIsQuiet(db, n, st2);
      TimesPut(db, n, CloseIf(st2), If(zIf.value));
      hide UsesOf;
      hide ScanText;
      hide IsIdle;
      hide Times;
      ChangeIfProper(db, st, zIf);
    } else {
      CloseIfIsQuiet(db, n, st);
    }
  }

  lemma CloseIfIsQuiet(db: Database, n: string, st: State)
    requires Proper(db, st)
    ensures Proper(db, CloseIf(st)) && Times(db, n, CloseIf(st).out) == Times(db, n, st.out)
  {
    CloseIfKeeps(db, st, Forward(0));
    TimesPut(db, n, st, EndIf);
    hide Times;
  }

  lemma UsesAreQuiet(db: Database, n: string, called: set<string>, st: State, uses: seq<Use>)
    requires IsIdle(db, n, called) && Proper(db, st) && Within(db, uses, called)
    ensures var st' := ScanText(db, st, uses);
            && Proper(db, st') && Times(db, n, st'.out) == Times(db, n, st.out)
            && forall p :: p in st'.forward && p !in st.forward && p < |db.decls| ==> db.decls[p].name != n
  {
    var x := IncludeLine(Include("", None, ""));
    var st' := ScanText(db, st, uses);
    Begin(db, st, called, x);
    hide Good;
    hide Proper;
    ScanTextGood(db, FromHere(st, called, x), st, Has(st, x), true, uses);
    NewLines(db, st, st', called, x, Has(st, x));
    TimesStay(db, n, st.out, st'.out);
  }

  /** A call that finds all of the name's typedefs on record gives none out. */
  lemma RecordedIsQuiet(db: Database, n: string, st: State, ps: seq<nat>, full: bool, name: string)
    requires Sound(db) && Indexed(db) && Proper(db, st) && AllOnRecord(db, st, n)
    requires forall d :: d in db.decls && d.name == n ==> IsTame(d)
    requires Chain(db, ps) && Named(db, ps, name) && name in db.chains
    ensures var st' := DeclareObject(db, st, ps, full);
            && Proper(db, st') && Times(db, n, st'.out) == Times(db, n, st.out)
  {
    var x := IncludeLine(Include("", None, ""));
    var st' := DeclareObject(db, st, ps, full);
    AllNamesAreClosed(db);
    Begin(db, st, db.chains.Keys, x);
    hide Good;
    hide Proper;
    hide DeclareObject;
    hide Closed;
    DeclareObjectGood(db, FromHere(st, db.chains.Keys, x), st, Has(st, x), true, ps, full, name);
    NewLines(db, st, st', db.chains.Keys, x, Has(st, x));
    NewAreOther(db, n, st, st');
    TimesStay(db, n, st.out, st'.out);
  }

  lemma NewAreOther(db: Database, n: string, st: State, st': State)
    requires AllOnRecord(db, st, n) && st.out <= st'.out && forall d :: d in db.decls && d.name == n ==> IsTame(d)
    requires forall k :: |st.out| <= k < |st'.out| ==>
               match st'.out[k]
               case Full(p) => p < |db.decls| && p !in st.declared && db.decls[p].zDecl.Some?
               case Forward(p) => p < |db.decls| && p !in st.forward
               case _ => true
    ensures forall k :: |st.out| <= k < |st'.out| ==> !Typedefs(db, n, st'.out[k])
  {
    forall k | |st.out| <= k < |st'.out|
      ensures !Typedefs(db, n, st'.out[k])
    {
      match st'.out[k]
      case Full(p) => assert db.decls[p] in db.decls;
      case _ =>
    }
  }

  lemma RecordedScanIsQuiet(db: Database, n: string, st: State, uses: seq<Use>)
    requires Sound(db) && Indexed(db) && Proper(db, st) && AllOnRecord(db, st, n)
    requires forall d :: d in db.decls && d.name == n ==> IsTame(d)
    ensures var st' := ScanText(db, st, uses);
            && Proper(db, st') && Times(db, n, st'.out) == Times(db, n, st.out) && AllOnRecord(db, st', n)
  {
    var x := IncludeLine(Include("", None, ""));
    var st' := ScanText(db, st, uses);
    AllNamesAreClosed(db);
    Begin(db, st, db.chains.Keys, x);
    hide Good;
    hide Proper;
    hide ScanText;
    hide Closed;
    ScanTextGood(db, FromHere(st, db.chains.Keys, x), st, Has(st, x), true, uses);
    NewLines(db, st, st', db.chains.Keys, x, Has(st, x));
    NewAreOther(db, n, st, st');
    TimesStay(db, n, st.out, st'.out);
  }

  // One call for the name.

  lemma OfTheName(db: Database, n: string, called: set<string>, q: nat)
    requires IsIdle(db, n, called) && q < |db.decls| && db.decls[q].name == n
    ensures IsTame(db.decls[q]) && ConditionWithin(db, db.decls[q].zIf, called)
    ensures forall inc :: inc in db.decls[q].includes ==> ConditionWithin(db, inc.zIf, called)
  {
    hide ConditionWithin;
    assert db.decls[q] in db.decls;
  }

  /** One line is left to give out if none was. */
  function Rest(done: bool): nat {
    if done then 0 else 1
  }

  lemma {:induction false} ForwardsOnce(db: Database, n: string, called: set<string>, st: State, ps: seq<nat>,
                                        doneTypedef: bool)
    requires IsIdle(db, n, called) && Proper(db, st) && Chain(db, ps) && Named(db, ps, n)
    ensures var (st', done) := Forwards(db, st, ps, doneTypedef);
            Proper(db, st') && Times(db, n, st'.out) + Rest(done) <= Times(db, n, st.out) + Rest(doneTypedef)
    decreases |ps|
  {
    hide Proper;
    hide IsIdle;
    hide Times;
    hide Distinct;
    hide ChangeIfContext;
    hide Sound;
    if ps != [] {
      IdleIsSound(db, n, called);
      ChainTail(db, ps);
      var d := db.decls[ps[0]];
      if d.zFwd.None? || ps[0] in st.forward {
        ForwardsOnce(db, n, called, st, ps[1..], doneTypedef);
      } else {
        var st1 := st.(forward := st.forward + {ps[0]});
        ForwardIsProper(db, st, ps[0]);
        if IsForwardTypedef(d) && doneTypedef {
          ForwardsOnce(db, n, called, st1, ps[1..], true);
        } else {
          OfTheName(db, n, called, ps[0]);
          ConditionIsQuiet(db, n, called, st1, d.zIf);
          ForwardProper(db, st, ps[0]);
          TimesPut(db, n, ChangeIfContext(db, st1, d.zIf), Forward(ps[0]));
          var st2 := ChangeIfContext(db, st1, d.zIf).Put(Forward(ps[0]));
          ForwardsOnce(db, n, called, st2, ps[1..], doneTypedef || IsForwardTypedef(d));
        }
      }
    }
  }

  lemma IdleIsSound(db: Database, n: string, called: set<string>)
    requires IsIdle(db, n, called)
    ensures Sound(db) && Indexed(db) && forall d :: d in db.decls && d.name == n ==> IsTame(d)
  {
  }

  lemma ForwardIsProper(db: Database, st: State, p: nat)
    requires Proper(db, st) && p < |db.decls| && db.decls[p].zFwd.Some?
    ensures Proper(db, st.(forward := st.forward + {p}))
  {
  }

  lemma {:induction false} AddIncludesAreQuiet(db: Database, n: string, called: set<string>, st: State,
                                               list: seq<Include>)
    requires IsIdle(db, n, called) && Proper(db, st) && Labeled(db, list)
    requires forall inc :: inc in list ==> ConditionWithin(db, inc.zIf, called)
    ensures var st' := AddIncludes(db, st, list);
            Proper(db, st') && Times(db, n, st'.out) == Times(db, n, st.out)
    decreases |list|
  {
    hide Proper;
    hide IsIdle;
    hide Times;
    hide ChangeIfContext;
    hide ConditionWithin;
    if list != [] {
      IdleIsSound(db, n, called);
      AddIncludesAreQuiet(db, n, called, st, list[1..]);
      var st1 := AddIncludes(db, st, list[1..]);
      if list[0].tag !in st1.table {
        var st2 := st1.(table := st1.table + {list[0].tag});
        RecordSameProper(db, st1, st2);
        assert list[0] in list;
        ConditionIsQuiet(db, n, called, st2, list[0].zIf);
        IncludeProper(db, st1, list[0]);
        TimesPut(db, n, ChangeIfContext(db, st2, list[0].zIf), IncludeLine(list[0]));
      }
    }
  }

  lemma {:induction false} ChainIncludesAreQuiet(db: Database, n: string, called: set<string>, st: State, ps: seq<nat>)
    requires IsIdle(db, n, called) && Proper(db, st) && Chain(db, ps) && Named(db, ps, n)
    ensures var st' := ChainIncludes(db, st, ps);
            Proper(db, st') && Times(db, n, st'.out) == Times(db, n, st.out)
    decreases |ps|
  {
    hide Proper;
    hide IsIdle;
    hide Times;
    hide AddIncludes;
    hide Distinct;
    hide ConditionWithin;
    if ps != [] {
      IdleIsSound(db, n, called);
      ChainTail(db, ps);
      OfTheName(db, n, called, ps[0]);
      AddIncludesAreQuiet(db, n, called, st, db.decls[ps[0]].includes);
      ChainIncludesAreQuiet(db, n, called, AddIncludes(db, st, db.decls[ps[0]].includes), ps[1..]);
    }
  }

  lemma EmitOnce(db: Database, n: string, called: set<string>, st: State, q: nat)
    requires IsIdle(db, n, called) && Proper(db, st) && q < |db.decls| && db.decls[q].name == n
    ensures var st' := Emit(db, st, q);
            && Proper(db, st')
            && Times(db, n, st'.out) == Times(db, n, st.out) + if Typedefs(db, n, Full(q)) then 1 else 0
  {
    hide Proper;
    hide IsIdle;
    hide Times;
    hide ChangeIfContext;
    IdleIsSound(db, n, called);
    OfTheName(db, n, called, q);
    ConditionIsQuiet(db, n, called, st, db.decls[q].zIf);
    EmitProper(db, st, q);
    TimesPut(db, n, ChangeIfContext(db, st, db.decls[q].zIf), Full(q));
  }

  lemma UnmarkedIsProper(db: Database, st: State, q: nat)
    requires Proper(db, st)
    ensures Proper(db, st.(flag := st.flag - {q}))
  {
  }

  lemma {:induction false} EmitsOnce(db: Database, n: string, called: set<string>, st: State, ps: seq<nat>,
                                     doneTypedef: bool)
    requires IsIdle(db, n, called) && Proper(db, st) && Chain(db, ps) && Named(db, ps, n)
    ensures var (st', done) := Emits(db, st, ps, doneTypedef);
            Proper(db, st') && Times(db, n, st'.out) + Rest(done) <= Times(db, n, st.out) + Rest(doneTypedef)
    decreases |ps|
  {
    hide Proper;
    hide IsIdle;
    hide Times;
    hide Distinct;
    hide Emit;
    if ps != [] {
      IdleIsSound(db, n, called);
      ChainTail(db, ps);
      var d := db.decls[ps[0]];
      if ps[0] !in st.flag || d.isTypedef || (d.isEnum && doneTypedef) {
        EmitsOnce(db, n, called, st, ps[1..], doneTypedef);
      } else {
        EmitOnce(db, n, called, st, ps[0]);
        var st1 := Emit(db, st, ps[0]);
        UnmarkedIsProper(db, st1, ps[0]);
        EmitsOnce(db, n, called, st1.(flag := st1.flag - {ps[0]}), ps[1..], doneTypedef || d.isEnum);
      }
    }
  }

  lemma {:induction false} EmitTypedefOnce(db: Database, n: string, called: set<string>, st: State, ps: seq<nat>)
    requires IsIdle(db, n, called) && Proper(db, st) && Chain(db, ps) && Named(db, ps, n)
    ensures var st' := EmitTypedef(db, st, ps);
            Proper(db, st') && Times(db, n, st'.out) <= Times(db, n, st.out) + 1
    decreases |ps|
  {
    hide Proper;
    hide IsIdle;
    hide Times;
    hide Distinct;
    hide Emit;
    if ps != [] {
      IdleIsSound(db, n, called);
      ChainTail(db, ps);
      if ps[0] in st.flag {
        EmitOnce(db, n, called, st, ps[0]);
      } else {
        EmitTypedefOnce(db, n, called, st, ps[1..]);
      }
    }
  }

  lemma {:induction false} ScansAreQuiet(db: Database, n: string, called: set<string>, st: State, ps: seq<nat>)
    requires IsIdle(db, n, called) && Proper(db, st) && Chain(db, ps) && AllOnRecord(db, st, n)
    ensures var st' := Scans(db, st, ps);
            && Proper(db, st') && Times(db, n, st'.out) == Times(db, n, st.out) && AllOnRecord(db, st', n)
    decreases |ps|
  {
    hide Proper;
    hide IsIdle;
    hide Times;
    hide Distinct;
    hide UsesOf;
    hide ScanText;
    hide AllOnRecord;
    if ps != [] {
      IdleIsSound(db, n, called);
      ChainTail(db, ps);
      if ps[0] in st.flag && db.decls[ps[0]].zDecl.Some? {
        RecordedScanIsQuiet(db, n, st, UsesOf(db, Searched(db.decls[ps[0]])));
      }
      ScansAreQuiet(db, n, called, ScanDecl(db, st, ps[0]), ps[1..]);
    }
  }

  /** What is due of the name, when its other typedefs are on record. */
  lemma EmitDueOnce(db: Database, n: string, called: set<string>, st: State, ps: seq<nat>, doneTypedef: bool)
    requires IsIdle(db, n, called) && Proper(db, st) && Chain(db, ps) && Named(db, ps, n) && AllOnRecord(db, st, n)
    ensures var st' := EmitDue(db, st, ps, doneTypedef);
            Proper(db, st') && Times(db, n, st'.out) <= Times(db, n, st.out) + Rest(doneTypedef)
  {
    hide Proper;
    hide IsIdle;
    hide Times;
    hide Scans;
    hide Emits;
    hide EmitTypedef;
    hide AllOnRecord;
    IdleIsSound(db, n, called);
    ScansAreQuiet(db, n, called, st, ps);
    var st1 := Scans(db, st, ps);
    EmitsOnce(db, n, called, st1, ps, doneTypedef);
    var (st2, done) := Emits(db, st1, ps, doneTypedef);
    if !done {
      EmitTypedefOnce(db, n, called, st2, ps);
    }
  }

  /** All declarations of the name. */
  ghost predicate HasAll(db: Database, ps: seq<nat>, n: string) {
    forall q: nat :: q < |db.decls| && db.decls[q].name == n ==> q in ps
  }

  lemma MarkDueRecords(db: Database, n: string, called: set<string>, st: State, ps: seq<nat>, full: bool)
    requires IsIdle(db, n, called) && Proper(db, st) && Chain(db, ps) && HasAll(db, ps, n)
    requires forall q :: q in ps && db.decls[q].zFwd.Some? ==> q in st.forward
    ensures var st' := MarkDue(db, st, ps, full);
            Proper(db, st') && st'.out == st.out && AllOnRecord(db, st', n)
  {
    hide WellPlaced;
    hide Context;
    hide Distinct;
    MarkDueKeeps(db, st, ps, full, Forward(0));
    forall q: nat | q < |db.decls| && db.decls[q].name == n
      ensures q in ps && (IsForwardTypedef(db.decls[q]) ==> db.decls[q].zFwd.Some?)
    {
    }
  }

  lemma SuitableIsRecorded(db: Database, n: string, st: State, ps: seq<nat>, full: bool)
    requires Proper(db, st) && HasAll(db, ps, n) && IsSuitable(st, ps, full)
    ensures AllOnRecord(db, st, n)
  {
  }

  /** The first call for the name. */
  lemma FirstCallOnce(db: Database, n: string, called: set<string>, st: State, ps: seq<nat>, full: bool)
    requires IsIdle(db, n, called) && Proper(db, st) && Chain(db, ps) && Named(db, ps, n) && HasAll(db, ps, n)
    requires Times(db, n, st.out) == 0
    ensures var st' := DeclareObject(db, st, ps, full);
            Proper(db, st') && Times(db, n, st'.out) <= 1 && AllOnRecord(db, st', n)
  {
    hide Proper;
    hide IsIdle;
    hide Times;
    hide Forwards;
    hide ChainIncludes;
    hide MarkDue;
    hide EmitDue;
    hide AllOnRecord;
    hide Distinct;
    IdleIsSound(db, n, called);
    var (st1, doneTypedef) := Forwards(db, st, ps, false);
    ForwardsOnce(db, n, called, st, ps, false);
    ForwardsAll(db, st, ps, false);
    if IsSuitable(st1, ps, full) {
      SuitableIsRecorded(db, n, st1, ps, full);
    } else {
      var st2 := ChainIncludes(db, st1, ps);
      ChainIncludesAreQuiet(db, n, called, st1, ps);
      var st3 := MarkDue(db, st2, ps, full);
      MarkDueRecords(db, n, called, st2, ps, full);
      EmitDueOnce(db, n, called, st3, ps, doneTypedef);
      RecordsStay(db, st3, EmitDue(db, st3, ps, doneTypedef), n);
    }
  }

  lemma RecordsStay(db: Database, st: State, st': State, n: string)
    requires Grows(st, st') && AllOnRecord(db, st, n)
    ensures AllOnRecord(db, st', n)
  {
  }

  // All calls.

  /** A step that gives out nothing of the name and puts nothing of it on record. */
  lemma StepHolds(db: Database, n: string, base: set<nat>, st: State, st': State)
    requires Once(db, base, st, n) && Proper(db, st') && Grows(st, st')
    requires Times(db, n, st'.out) == Times(db, n, st.out)
    requires forall p :: p in st'.forward && p !in st.forward && p < |db.decls| ==> db.decls[p].name != n
    ensures Once(db, base, st', n)
  {
    hide Proper;
    hide Times;
    if IsTouched(db, base, st', n) {
      var q: nat :| q < |db.decls| && db.decls[q].name == n && q in st'.forward && q !in base;
      assert q in st.forward;
      RecordsStay(db, st, st', n);
    }
  }

  lemma CloseIfHolds(db: Database, n: string, base: set<nat>, st: State)
    requires Once(db, base, st, n)
    ensures Once(db, base, CloseIf(st), n)
  {
    CloseIfIsQuiet(db, n, st);
    hide Proper;
    hide Times;
    hide AllOnRecord;
    StepHolds(db, n, base, st, CloseIf(st));
  }

  lemma {:induction false} ChangeIfContextHolds(db: Database, n: string, called: set<string>, base: set<nat>, st: State,
                                                zIf: Option<string>)
    requires IsIdle(db, n, called) && Sound(db) && Once(db, base, st, n)
    ensures Once(db, base, ChangeIfContext(db, st, zIf), n)
    ensures ChangeIfContext(db, st, zIf).zIf == zIf
    decreases Left(db, st), 6
  {
    hide IsIdle;
    hide Times;
    hide WellPlaced;
    hide Context;
    hide AllOnRecord;
    hide UsesOf;
    hide Left;
    CloseIfHolds(db, n, base, st);
    ChangeIfProper(db, st, zIf);
    if zIf.Some? && st.zIf != zIf {
      var st1 := CloseIf(st);
      LeftShrinks(db, st, st1);
      var st2 := ScanText(db, st1, UsesOf(db, zIf.value));
      ScanTextHolds(db, n, called, base, st1, UsesOf(db, zIf.value));
      CloseIfHolds(db, n, base, st2);
      TimesPut(db, n, CloseIf(st2), If(zIf.value));
      StepHolds(db, n, base, CloseIf(st2), ChangeIfContext(db, st, zIf));
    }
  }

  lemma {:induction false} ScanTextHolds(db: Database, n: string, called: set<string>, base: set<nat>, st: State,
                                         uses: seq<Use>)
    requires IsIdle(db, n, called) && Sound(db) && Once(db, base, st, n)
    ensures Once(db, base, ScanText(db, st, uses), n)
    decreases Left(db, st), 5, |uses|
  {
    hide IsIdle;
    hide Once;
    IdleIsSound(db, n, called);
    if uses != [] {
      if uses[0].name !in db.chains {
        ScanTextHolds(db, n, called, base, st, uses[1..]);
      } else {
        var ps := db.chains[uses[0].name];
        ChainIsNamed(db, uses[0].name);
        ChainHasAll(db, uses[0].name);
        hide Indexed;
        hide Named;
        hide HasAll;
        var st1 := DeclareObject(db, st, ps, uses[0].full);
        DeclareObjectHolds(db, n, called, base, st, ps, uses[0].full, uses[0].name);
        LeftShrinks(db, st, st1);
        ScanTextHolds(db, n, called, base, st1, uses[1..]);
      }
    }
  }

  lemma ChainHasAll(db: Database, name: string)
    requires Sound(db) && Indexed(db) && name in db.chains
    ensures HasAll(db, db.chains[name], name)
  {
  }

  /** A line of another declaration, within its `#if`. */
  lemma {:induction false} ThenPutHolds(db: Database, n: string, called: set<string>, base: set<nat>, st: State,
                                        zIf: Option<string>, item: Item)
    requires IsIdle(db, n, called) && Sound(db) && Once(db, base, st, n)
    requires !Typedefs(db, n, item) && Proper(db, ChangeIfContext(db, st, zIf).Put(item))
    ensures Once(db, base, ChangeIfContext(db, st, zIf).Put(item), n)
    decreases Left(db, st), 7, 0
  {
    hide IsIdle;
    hide Times;
    hide Proper;
    hide AllOnRecord;
    hide ChangeIfContext;
    ChangeIfContextHolds(db, n, called, base, st, zIf);
    var st1 := ChangeIfContext(db, st, zIf);
    TimesPut(db, n, st1, item);
    StepHolds(db, n, base, st1, st1.Put(item));
  }

  lemma RecordHolds(db: Database, n: string, base: set<nat>, st: State, st': State)
    requires Once(db, base, st, n) && Proper(db, st') && Grows(st, st') && st'.out == st.out
    requires forall p :: p in st'.forward && p !in st.forward && p < |db.decls| ==> db.decls[p].name != n
    ensures Once(db, base, st', n)
  {
    hide Proper;
    hide Times;
    hide AllOnRecord;
    StepHolds(db, n, base, st, st');
  }

  lemma OnceIsProper(db: Database, n: string, base: set<nat>, st: State)
    requires Once(db, base, st, n)
    ensures Proper(db, st)
  {
  }

  lemma {:induction false} AddIncludesHolds(db: Database, n: string, called: set<string>, base: set<nat>, st: State,
                                            list: seq<Include>)
    requires IsIdle(db, n, called) && Sound(db) && Once(db, base, st, n) && Labeled(db, list)
    ensures Once(db, base, AddIncludes(db, st, list), n)
    decreases Left(db, st), 1, |list|
  {
    hide IsIdle;
    hide Once;
    hide Proper;
    hide ChangeIfContext;
    if list != [] {
      AddIncludesHolds(db, n, called, base, st, list[1..]);
      var st1 := AddIncludes(db, st, list[1..]);
      LeftShrinks(db, st, st1);
      if list[0].tag !in st1.table {
        var st2 := st1.(table := st1.table + {list[0].tag});
        LeftShrinks(db, st1, st2);
        OnceIsProper(db, n, base, st1);
        RecordSameProper(db, st1, st2);
        RecordHolds(db, n, base, st1, st2);
        IncludeProper(db, st1, list[0]);
        ThenPutHolds(db, n, called, base, st2, list[0].zIf, IncludeLine(list[0]));
      }
    }
  }

  /** A list of declarations of another name. */
  ghost predicate IsOther(db: Database, ps: seq<nat>, n: string) {
    Chain(db, ps) && forall k :: 0 <= k < |ps| ==> db.decls[ps[k]].name != n
  }

  lemma OtherTail(db: Database, ps: seq<nat>, n: string)
    requires IsOther(db, ps, n) && ps != []
    ensures IsOther(db, ps[1..], n) && db.decls[ps[0]].name != n
    ensures Labeled(db, db.decls[ps[0]].includes)
  {
  }

  lemma {:induction false} ForwardsHolds(db: Database, n: string, called: set<string>, base: set<nat>, st: State,
                                         ps: seq<nat>, doneTypedef: bool)
    requires IsIdle(db, n, called) && Sound(db) && Once(db, base, st, n) && IsOther(db, ps, n)
    ensures Once(db, base, Forwards(db, st, ps, doneTypedef).0, n)
    decreases Left(db, st), 2, |ps|
  {
    hide IsIdle;
    hide Once;
    hide Proper;
    hide ChangeIfContext;
    hide Labels;
    hide Distinct;
    if ps != [] {
      OtherTail(db, ps, n);
      var d := db.decls[ps[0]];
      if d.zFwd.None? || ps[0] in st.forward {
        ForwardsHolds(db, n, called, base, st, ps[1..], doneTypedef);
      } else {
        var st1 := st.(forward := st.forward + {ps[0]});
        LeftShrinks(db, st, st1);
        OnceIsProper(db, n, base, st);
        ForwardIsProper(db, st, ps[0]);
        RecordHolds(db, n, base, st, st1);
        if IsForwardTypedef(d) && doneTypedef {
          ForwardsHolds(db, n, called, base, st1, ps[1..], true);
        } else {
          ForwardProper(db, st, ps[0]);
          ThenPutHolds(db, n, called, base, st1, d.zIf, Forward(ps[0]));
          var st2 := ChangeIfContext(db, st1, d.zIf).Put(Forward(ps[0]));
          LeftShrinks(db, st1, st2);
          ForwardsHolds(db, n, called, base, st2, ps[1..], doneTypedef || IsForwardTypedef(d));
        }
      }
    }
  }

  lemma {:induction false} ChainIncludesHolds(db: Database, n: string, called: set<string>, base: set<nat>, st: State,
                                              ps: seq<nat>)
    requires IsIdle(db, n, called) && Sound(db) && Once(db, base, st, n) && IsOther(db, ps, n)
    ensures Once(db, base, ChainIncludes(db, st, ps), n)
    decreases Left(db, st), 2, |ps|
  {
    hide IsIdle;
    hide Once;
    hide AddIncludes;
    hide Distinct;
    if ps != [] {
      OtherTail(db, ps, n);
      AddIncludesHolds(db, n, called, base, st, db.decls[ps[0]].includes);
      var st1 := AddIncludes(db, st, db.decls[ps[0]].includes);
      LeftShrinks(db, st, st1);
      ChainIncludesHolds(db, n, called, base, st1, ps[1..]);
    }
  }

  lemma {:induction false} ScanDeclHolds(db: Database, n: string, called: set<string>, base: set<nat>, st: State,
                                         q: nat)
    requires IsIdle(db, n, called) && Sound(db) && Once(db, base, st, n) && q < |db.decls|
    ensures Once(db, base, ScanDecl(db, st, q), n)
    decreases Left(db, st), 7, 0
  {
    hide IsIdle;
    hide Once;
    hide UsesOf;
    hide ScanText;
    if q in st.flag && db.decls[q].zDecl.Some? {
      ScanTextHolds(db, n, called, base, st, UsesOf(db, Searched(db.decls[q])));
    }
  }

  lemma {:induction false} ScansHolds(db: Database, n: string, called: set<string>, base: set<nat>, st: State,
                                      ps: seq<nat>)
    requires IsIdle(db, n, called) && Sound(db) && Once(db, base, st, n) && Chain(db, ps)
    ensures Once(db, base, Scans(db, st, ps), n)
    decreases Left(db, st), 8, |ps|
  {
    hide IsIdle;
    hide Once;
    hide ScanDecl;
    if ps != [] {
      ScanDeclHolds(db, n, called, base, st, ps[0]);
      var st1 := ScanDecl(db, st, ps[0]);
      LeftShrinks(db, st, st1);
      ScansHolds(db, n, called, base, st1, ps[1..]);
    }
  }

  lemma {:induction false} EmitHolds(db: Database, n: string, called: set<string>, base: set<nat>, st: State, q: nat)
    requires IsIdle(db, n, called) && Sound(db) && Once(db, base, st, n) && q < |db.decls| && db.decls[q].name != n
    ensures Once(db, base, Emit(db, st, q), n)
    decreases Left(db, st), 7, 1
  {
    hide IsIdle;
    hide Once;
    hide Proper;
    hide ChangeIfContext;
    OnceIsProper(db, n, base, st);
    EmitProper(db, st, q);
    ThenPutHolds(db, n, called, base, st, db.decls[q].zIf, Full(q));
  }

  lemma {:induction false} EmitsHolds(db: Database, n: string, called: set<string>, base: set<nat>, st: State,
                                      ps: seq<nat>, doneTypedef: bool)
    requires IsIdle(db, n, called) && Sound(db) && Once(db, base, st, n) && IsOther(db, ps, n)
    ensures Once(db, base, Emits(db, st, ps, doneTypedef).0, n)
    decreases Left(db, st), 8, |ps|
  {
    hide IsIdle;
    hide Once;
    hide Proper;
    hide Emit;
    hide Labels;
    hide Distinct;
    if ps != [] {
      OtherTail(db, ps, n);
      var d := db.decls[ps[0]];
      if ps[0] !in st.flag || d.isTypedef || (d.isEnum && doneTypedef) {
        EmitsHolds(db, n, called, base, st, ps[1..], doneTypedef);
      } else {
        var st1 := Emit(db, st, ps[0]);
        EmitHolds(db, n, called, base, st, ps[0]);
        var st2 := st1.(flag := st1.flag - {ps[0]});
        OnceIsProper(db, n, base, st1);
        UnmarkedIsProper(db, st1, ps[0]);
        RecordHolds(db, n, base, st1, st2);
        LeftShrinks(db, st, st2);
        EmitsHolds(db, n, called, base, st2, ps[1..], doneTypedef || d.isEnum);
      }
    }
  }

  lemma {:induction false} EmitTypedefHolds(db: Database, n: string, called: set<string>, base: set<nat>, st: State,
                                            ps: seq<nat>)
    requires IsIdle(db, n, called) && Sound(db) && Once(db, base, st, n) && IsOther(db, ps, n)
    ensures Once(db, base, EmitTypedef(db, st, ps), n)
    decreases Left(db, st), 8, |ps|
  {
    hide IsIdle;
    hide Once;
    hide Emit;
    hide Labels;
    hide Distinct;
    if ps != [] {
      OtherTail(db, ps, n);
      if ps[0] in st.flag {
        EmitHolds(db, n, called, base, st, ps[0]);
      } else {
        EmitTypedefHolds(db, n, called, base, st, ps[1..]);
      }
    }
  }

  lemma {:induction false} EmitDueHolds(db: Database, n: string, called: set<string>, base: set<nat>, st: State,
                                        ps: seq<nat>, doneTypedef: bool)
    requires IsIdle(db, n, called) && Sound(db) && Once(db, base, st, n) && IsOther(db, ps, n)
    ensures Once(db, base, EmitDue(db, st, ps, doneTypedef), n)
    decreases Left(db, st), 9
  {
    hide IsIdle;
    hide Once;
    hide Scans;
    hide Emits;
    hide EmitTypedef;
    var st1 := Scans(db, st, ps);
    ScansHolds(db, n, called, base, st, ps);
    LeftShrinks(db, st, st1);
    EmitsHolds(db, n, called, base, st1, ps, doneTypedef);
    var (st2, done) := Emits(db, st1, ps, doneTypedef);
    LeftShrinks(db, st1, st2);
    EmitTypedefHolds(db, n, called, base, st2, ps);
  }

  lemma MarkDueHolds(db: Database, n: string, base: set<nat>, st: State, ps: seq<nat>, full: bool)
    requires Once(db, base, st, n) && IsOther(db, ps, n)
    ensures Once(db, base, MarkDue(db, st, ps, full), n)
  {
    MarkDueKeeps(db, st, ps, full, Forward(0));
    hide Proper;
    hide Times;
    hide AllOnRecord;
    hide Distinct;
    RecordHolds(db, n, base, st, MarkDue(db, st, ps, full));
  }

  lemma {:induction false} GiveDueHolds(db: Database, n: string, called: set<string>, base: set<nat>, st: State,
                                        ps: seq<nat>, full: bool, doneTypedef: bool)
    requires IsIdle(db, n, called) && Sound(db) && Once(db, base, st, n) && IsOther(db, ps, n)
    ensures Once(db, base, GiveDue(db, st, ps, full, doneTypedef), n)
    decreases Left(db, st), 2
  {
    hide IsIdle;
    hide Once;
    hide MarkDue;
    hide EmitDue;
    var st1 := MarkDue(db, st, ps, full);
    MarkDueHolds(db, n, base, st, ps, full);
    if p :| p in ps && p in st1.flag {
      MarkedWereDue(db, st, ps, full, p);
      LeftShrinks(db, st, st1);
      EmitDueHolds(db, n, called, base, st1, ps, doneTypedef);
    }
  }

  /** A call for the name itself: the first one gives out a typedef at most, later ones none. */
  lemma OwnCallHolds(db: Database, n: string, called: set<string>, base: set<nat>, st: State, ps: seq<nat>, full: bool)
    requires IsIdle(db, n, called) && Sound(db) && Once(db, base, st, n) && Chain(db, ps) && Named(db, ps, n)
    requires n in db.chains && (HasAll(db, ps, n) || IsTouched(db, base, st, n))
    ensures Once(db, base, DeclareObject(db, st, ps, full), n)
  {
    hide IsIdle;
    hide Proper;
    hide Times;
    hide DeclareObject;
    hide AllOnRecord;
    IdleIsSound(db, n, called);
    var st' := DeclareObject(db, st, ps, full);
    if IsTouched(db, base, st, n) {
      RecordedIsQuiet(db, n, st, ps, full, n);
      RecordsStay(db, st, st', n);
      var q: nat :| q < |db.decls| && db.decls[q].name == n && q in st.forward && q !in base;
      assert q in st'.forward;
    } else {
      FirstCallOnce(db, n, called, st, ps, full);
      if !IsTouched(db, base, st', n) {
        UntouchedHasNone(db, n, base, st, ps, full);
      }
    }
  }

  /** A call that puts nothing on record gives nothing out. */
  lemma UntouchedHasNone(db: Database, n: string, base: set<nat>, st: State, ps: seq<nat>, full: bool)
    requires Sound(db) && Indexed(db) && Proper(db, st) && base <= st.declared && Chain(db, ps) && Named(db, ps, n)
    requires n in db.chains && !IsTouched(db, base, DeclareObject(db, st, ps, full), n)
    ensures Times(db, n, DeclareObject(db, st, ps, full).out) == Times(db, n, st.out)
  {
    var x := IncludeLine(Include("", None, ""));
    var st' := DeclareObject(db, st, ps, full);
    AllNamesAreClosed(db);
    Begin(db, st, db.chains.Keys, x);
    hide DeclareObject;
    hide Closed;
    hide Kept;
    hide UsesProvided;
    hide Marked;
    hide WellPlaced;
    hide Context;
    DeclareObjectGood(db, FromHere(st, db.chains.Keys, x), st, Has(st, x), true, ps, full, n);
    forall k | |st.out| <= k < |st'.out|
      ensures !Typedefs(db, n, st'.out[k])
    {
      assert Grounded(db, FromHere(st, db.chains.Keys, x), st', st'.out[k]);
      if st'.out[k].Forward? {
        OutIsRecorded(db, st, st', ps, full, k);
      }
    }
    TimesStay(db, n, st.out, st'.out);
  }

  lemma OutIsRecorded(db: Database, st: State, st': State, ps: seq<nat>, full: bool, k: nat)
    requires Sound(db) && Chain(db, ps) && st' == DeclareObject(db, st, ps, full)
    requires st.out <= st'.out && |st.out| <= k < |st'.out| && st'.out[k].Forward?
    ensures st'.out[k].p in st'.forward
  {
    hide DeclareObject;
    hide Proper;
    DeclareObjectKeeps(db, st, ps, full, st'.out[k]);
    CountGrows(st.out, st'.out, k);
  }

  lemma {:induction false} CountGrows(out: seq<Item>, out': seq<Item>, k: nat)
    requires out <= out' && |out| <= k < |out'|
    ensures Count(out', out'[k]) > Count(out, out'[k])
    decreases |out'|
  {
    var rest := out'[..|out'| - 1];
    if k < |rest| {
      CountGrows(out, rest, k);
    } else {
      CountMore(out, rest, out'[k]);
    }
  }

  lemma {:induction false} CountMore(out: seq<Item>, out': seq<Item>, x: Item)
    requires out <= out'
    ensures Count(out', x) >= Count(out, x)
    decreases |out'|
  {
    if out != out' {
      CountMore(out, out'[..|out'| - 1], x);
    }
  }

  lemma {:induction false} DeclareObjectHolds(db: Database, n: string, called: set<string>, base: set<nat>, st: State,
                                              ps: seq<nat>, full: bool, name: string)
    requires IsIdle(db, n, called) && Sound(db) && Once(db, base, st, n) && Chain(db, ps) && Named(db, ps, name)
    requires name in db.chains && (HasAll(db, ps, name) || IsTouched(db, base, st, name))
    ensures Once(db, base, DeclareObject(db, st, ps, full), n)
    decreases Left(db, st), 3
  {
    if name == n {
      OwnCallHolds(db, n, called, base, st, ps, full);
    } else {
      hide IsIdle;
      hide Once;
      hide Forwards;
      hide ChainIncludes;
      hide GiveDue;
      hide HasAll;
      hide IsTouched;
      assert IsOther(db, ps, n);
      var (st1, doneTypedef) := Forwards(db, st, ps, false);
      ForwardsHolds(db, n, called, base, st, ps, false);
      LeftShrinks(db, st, st1);
      if !IsSuitable(st1, ps, full) {
        var st2 := ChainIncludes(db, st1, ps);
        ChainIncludesHolds(db, n, called, base, st1, ps);
        LeftShrinks(db, st1, st2);
        GiveDueHolds(db, n, called, base, st2, ps, full, doneTypedef);
      }
    }
  }

  // Whole headers.

  lemma {:induction false} CompleteOnceHolds(db: Database, n: string, called: set<string>, base: set<nat>, st: State,
                                             p: nat)
    requires IsIdle(db, n, called) && Sound(db) && Indexed(db) && Once(db, base, st, n) && p <= |db.decls|
    ensures Once(db, base, CompleteOnce(db, st, p).st, n)
    decreases |db.decls| - p
  {
    hide IsIdle;
    hide Times;
    hide Proper;
    hide AllOnRecord;
    hide DeclareObject;
    hide ChainFrom;
    hide Left;
    if p < |db.decls| {
      if p !in st.forward || p in st.declared {
        CompleteOnceHolds(db, n, called, base, st, p + 1);
      } else {
        var ps := ChainFrom(db, p);
        RestIsNamed(db, p);
        assert IsTouched(db, base, st, db.decls[p].name);
        DeclareObjectHolds(db, n, called, base, st, ps, true, db.decls[p].name);
        hide Once;
        CompleteOnceHolds(db, n, called, base, DeclareObject(db, st, ps, true), p + 1);
      }
    }
  }

  lemma {:induction false} CompleteHolds(db: Database, n: string, called: set<string>, base: set<nat>, st: State)
    requires IsIdle(db, n, called) && Sound(db) && Indexed(db) && Once(db, base, st, n)
    ensures Once(db, base, Complete(db, st).st, n)
    decreases Left(db, st)
  {
    hide IsIdle;
    hide Once;
    hide CompleteOnce;
    var r := CompleteOnce(db, st, 0);
    CompleteOnceHolds(db, n, called, base, st, 0);
    if r.progress && !r.failed {
      CompleteHolds(db, n, called, base, r.st);
    }
  }

  /** In any header a name has at most one line that typedefs it or declares it as an enumeration. */
  lemma TypedefsOnce(db: Database, file: string, marks: set<nat>, names: seq<string>, n: string, called: set<string>)
    requires Sound(db) && Indexed(db) && IsIdle(db, n, called)
    ensures Times(db, n, MakeHeader(db, file, marks, names).st.out) <= 1
  {
    var base := Elsewhere(db, file);
    var st := Start(db, file, marks);
    assert Once(db, base, st, n);
    hide IsIdle;
    hide Once;
    ScanTextHolds(db, n, called, base, st, NeedAll(names));
    CompleteHolds(db, n, called, base, ScanText(db, st, NeedAll(names)));
    var r := Complete(db, ScanText(db, st, NeedAll(names)));
    if !r.failed {
      ChangeIfContextHolds(db, n, called, base, r.st, None);
    }
    OnceBounds(db, n, base, MakeHeader(db, file, marks, names).st);
  }

  lemma OnceBounds(db: Database, n: string, base: set<nat>, st: State)
    requires Once(db, base, st, n)
    ensures Times(db, n, st.out) <= 1
  {
  }
}
