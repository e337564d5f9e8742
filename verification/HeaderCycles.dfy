/** Conditions that call for the declaration they belong to: an `#include` comes behind the text that asks for it, and a
    typedef comes twice. */
module HeaderCycles {
  import opened Options
  import opened TokenSpec
  import opened TokenStreams
  import opened HeaderSpec
  import opened HeaderLaws
  import opened HeaderRuns
  import opened HeaderOrder
  import opened HeaderPrecedence
  import opened HeaderMarks
  import opened HeaderComplete
  import opened HeaderPresence
  import opened HeaderContents
  import opened HeaderExamples
  import opened HeaderTypedefs

  /** The only declaration of its name, with a text, and with one `#include` whose condition starts with a full use of
      the name. */
  ghost predicate AsksForItself(db: Database, file: string, p: nat) {
    && Sound(db) && Indexed(db) && p < |db.decls| && !IsElsewhere(db, file, p)
    && db.decls[p].name in db.chains && db.chains[db.decls[p].name] == [p]
    && db.decls[p].zFwd.None? && db.decls[p].zDecl.Some?
    && |db.decls[p].includes| == 1 && db.decls[p].includes[0].zIf.Some?
    && var uses := UsesOf(db, db.decls[p].includes[0].zIf.value);
       uses != [] && uses[0] == Use(db.decls[p].name, true)
  }

  /** The call's state behind the `#include` line. */
  function Included(db: Database, file: string, marks: set<nat>, p: nat): State
    requires AsksForItself(db, file, p)
  {
    var inc := db.decls[p].includes[0];
    var st := Start(db, file, marks);
    ChangeIfContext(db, st.(table := {inc.tag}), inc.zIf).Put(IncludeLine(inc))
  }

  lemma CallIncludesFirst(db: Database, file: string, marks: set<nat>, p: nat)
    requires AsksForItself(db, file, p)
    ensures var st := Start(db, file, marks);
            ScanText(db, st, NeedAll([db.decls[p].name])) ==
            GiveDue(db, Included(db, file, marks, p), [p], true, false)
  {
    hide GiveDue;
    hide ChangeIfContext;
    hide UsesOf;
    var name, inc := db.decls[p].name, db.decls[p].includes[0];
    var st := Start(db, file, marks);
    ElsewhereMeans(db, file, p);
    hide Elsewhere;
    assert db.decls[p].includes == [inc];
    assert NeedAll([name]) == [Use(name, true)];
    assert Forwards(db, st, [p], false) == (st, false);
    assert inc.tag !in st.table && st.table + {inc.tag} == {inc.tag};
    assert AddIncludes(db, st, []) == st;
    assert AddIncludes(db, st, [inc]) == Included(db, file, marks, p);
    assert ChainIncludes(db, Included(db, file, marks, p), []) == Included(db, file, marks, p);
    assert ChainIncludes(db, st, [p]) == Included(db, file, marks, p);
  }

  /** The start of the call, with the label on record. */
  function Labelled(db: Database, file: string, marks: set<nat>, p: nat): State
    requires AsksForItself(db, file, p)
  {
    Start(db, file, marks).(table := {db.decls[p].includes[0].tag})
  }

  lemma ItselfIsReady(db: Database, file: string, marks: set<nat>, p: nat)
    requires AsksForItself(db, file, p)
    ensures Ready(db, file, Labelled(db, file, marks, p), p) && p !in Labelled(db, file, marks, p).declared
  {
    hide UsesOf;
    var st, st1 := Start(db, file, marks), Labelled(db, file, marks, p);
    ElsewhereMeans(db, file, p);
    StartIsReady(db, file, marks, p);
    RecordSameProper(db, st, st1);
    SameGiven(st, st1, p);
    StepDelivers(db, file, st, st1, p);
  }

  /** The condition gives the text out. */
  lemma ConditionGivesText(db: Database, file: string, marks: set<nat>, p: nat)
    requires AsksForItself(db, file, p)
    ensures var inc := db.decls[p].includes[0];
            var st := ChangeIfContext(db, Labelled(db, file, marks, p), inc.zIf);
            && Proper(db, st) && st.zIf == inc.zIf && inc.tag in st.table
            && Given(st, p) > 0 && Count(st.out, IncludeLine(inc)) == 0
  {
    var st1 := Labelled(db, file, marks, p);
    var inc := db.decls[p].includes[0];
    var uses := UsesOf(db, inc.zIf.value);
    ItselfIsReady(db, file, marks, p);
    ReadyMeans(db, file, st1, p);
    ScanProvides(db, st1, uses, 0);
    var st2 := ScanText(db, st1, uses);
    assert ChangeIfContext(db, st1, inc.zIf) == CloseIf(st2).Put(If(inc.zIf.value)).(zIf := inc.zIf);
    assert p in st2.declared;
    hide Ready;
    hide Proper;
    hide UsesOf;
    hide ScanText;
    ChangeIfContextDelivers(db, file, st1, inc.zIf, p);
    ChangeIfContextKeeps(db, st1, inc.zIf, IncludeLine(inc));
  }

  lemma WatchedHere(db: Database, file: string, marks: set<nat>, p: nat)
    requires AsksForItself(db, file, p) && Proper(db, Included(db, file, marks, p))
    requires db.decls[p].includes[0].tag in Included(db, file, marks, p).table
    ensures var st := Included(db, file, marks, p);
            var w := FromHere(st, db.chains.Keys, IncludeLine(db.decls[p].includes[0]));
            && Watched(db, w) && CanBeDone(db, w) && Good(db, w, st, false)
            && ChainIn(db, w, false, [p], db.decls[p].name) && LabelsIn(db, st, [p])
  {
    hide UsesOf;
    var st := Included(db, file, marks, p);
    var x := IncludeLine(db.decls[p].includes[0]);
    LineIsShown(db, st.out[..|st.out| - 1], x, x);
    assert st.out[..|st.out| - 1] + [x] == st.out;
    HereIsGood(db, st, db.chains.Keys, x, false);
    AllNamesAreClosed(db);
    hide Included;
    hide Good;
    hide Closed;
  }

  /** The rest of the header comes behind the line. */
  lemma RestFollows(db: Database, file: string, marks: set<nat>, p: nat)
    requires AsksForItself(db, file, p) && Proper(db, Included(db, file, marks, p))
    requires db.decls[p].includes[0].tag in Included(db, file, marks, p).table
    ensures Included(db, file, marks, p).out <= MakeHeader(db, file, marks, [db.decls[p].name]).st.out
  {
    var name := db.decls[p].name;
    var st := Included(db, file, marks, p);
    var w := FromHere(st, db.chains.Keys, IncludeLine(db.decls[p].includes[0]));
    CallIncludesFirst(db, file, marks, p);
    WatchedHere(db, file, marks, p);
    hide AsksForItself;
    hide Included;
    hide Watched;
    hide CanBeDone;
    hide Good;
    hide Proper;
    hide ChainIn;
    hide LabelsIn;
    GiveDueGood(db, w, st, false, false, [p], true, false, name);
    CompleteGood(db, w, GiveDue(db, st, [p], true, false));
    var r := Complete(db, GiveDue(db, st, [p], true, false));
    if !r.failed {
      ChangeIfContextGood(db, w, r.st, false, false, None);
    }
    GoodExtends(db, w, MakeHeader(db, file, marks, [name]).st, false);
  }

  lemma GoodExtends(db: Database, w: Watch, st: State, coming: bool)
    requires Sound(db) && Good(db, w, st, coming)
    ensures w.before <= st.out
  {
  }

  /** In the header for that name the text stands before the `#include` that it asks for. */
  lemma IncludeFollows(db: Database, file: string, marks: set<nat>, p: nat) returns (j: nat, k: nat)
    requires AsksForItself(db, file, p)
    ensures var x := IncludeLine(db.decls[p].includes[0]);
            var out := MakeHeader(db, file, marks, [db.decls[p].name]).st.out;
            j < k < |out| && out[j] == Full(p) && out[k] == x && !InOut(out[..k], x)
  {
    var name, inc := db.decls[p].name, db.decls[p].includes[0];
    var st := ChangeIfContext(db, Labelled(db, file, marks, p), inc.zIf);
    ConditionGivesText(db, file, marks, p);
    LineIsPut(db, file, marks, p);
    hide *;
    RestFollows(db, file, marks, p);
    j := Found(st.out, p);
    k := |st.out|;
    CountIsIn(st.out, IncludeLine(inc));
    Behind(st.out, IncludeLine(inc), MakeHeader(db, file, marks, [name]).st.out);
  }

  lemma LineIsPut(db: Database, file: string, marks: set<nat>, p: nat)
    requires AsksForItself(db, file, p)
    requires var inc := db.decls[p].includes[0];
             var st := ChangeIfContext(db, Labelled(db, file, marks, p), inc.zIf);
             Proper(db, st) && st.zIf == inc.zIf && inc.tag in st.table
    ensures var inc := db.decls[p].includes[0];
            var st := ChangeIfContext(db, Labelled(db, file, marks, p), inc.zIf);
            var st1 := Included(db, file, marks, p);
            st1.out == st.out + [IncludeLine(inc)] && Proper(db, st1) && inc.tag in st1.table
  {
    var inc := db.decls[p].includes[0];
    var st := ChangeIfContext(db, Labelled(db, file, marks, p), inc.zIf);
    PutMeaning(db, st, IncludeLine(inc), IncludeLine(inc));
    hide ChangeIfContext;
    hide UsesOf;
  }

  lemma Behind(out: seq<Item>, x: Item, all: seq<Item>)
    requires out + [x] <= all
    ensures |out| < |all| && all[..|out|] == out && all[|out|] == x
    ensures forall k :: 0 <= k < |out| ==> all[k] == out[k]
  {
    assert all[|out|] == (out + [x])[|out|];
    assert forall k :: 0 <= k < |out| ==> all[k] == (out + [x])[k];
  }

  const ITSELF: string := "(X)"

  /** A variable with an `#include` that depends on it. */
  function Looping(): Database {
    Database(
      [Decl("X", "a.c", None, None, Some("int X;\n"), false, false, false, [Include("<x.h>", Some(ITSELF), "x")])],
      map["X" := [0]],
      z => i => false)
  }

  lemma UsesOfItself(db: Database)
    requires "X" in db.chains
    ensures UsesOf(db, ITSELF) != [] && UsesOf(db, ITSELF)[0] == Use("X", true)
  {
    hide Uses;
    hide Nonspace;
    var z, f := ITSELF, db.ifZero(ITSELF);
    SignAt(z, f, 0);
    WordAt(z, f, 1, 2);
    SignAt(z, f, 2);
    assert TextOf(z, Token(Id, 1, 2)) == "X";
    UnusedToken(db, z, 0, Token(Other, 0, 1));
    UsedToken(db, z, 1, Token(Id, 1, 2), Token(Other, 2, 3));
  }

  lemma LoopingAsksForItself(file: string)
    ensures AsksForItself(Looping(), file, 0)
  {
    hide UsesOf;
    var db := Looping();
    assert db.decls[0].name == "X" && db.chains["X"] == [0] && 0 in db.chains["X"];
    UsesOfItself(db);
  }

  // A typedef given out twice.

  const GUARD: string := "(T)"

  /** A structure whose forward typedef depends on the name, and a typedef of the name in another file. */
  function Repeating(): Database {
    Database(
      [Decl("T", "a.c", Some(GUARD), Some(FORWARD), Some(STRUCT), false, false, false, []),
       Decl("T", "b.c", None, None, Some(FORWARD), true, false, false, [])],
      map["T" := [0, 1]],
      z => i => false)
  }

  lemma RepeatingIsSound()
    ensures Sound(Repeating()) && Indexed(Repeating()) && Chain(Repeating(), [0, 1])
  {
    var db := Repeating();
    assert db.chains["T"] == [0, 1] && 0 in db.chains["T"] && 1 in db.chains["T"];
    assert db.decls[0].name == "T" && db.decls[1].name == "T";
  }

  lemma UsesOfGuard(db: Database)
    requires "T" in db.chains
    ensures UsesOf(db, GUARD) != [] && UsesOf(db, GUARD)[0] == Use("T", true)
  {
    hide Uses;
    hide Nonspace;
    var z, f := GUARD, db.ifZero(GUARD);
    SignAt(z, f, 0);
    WordAt(z, f, 1, 2);
    SignAt(z, f, 2);
    assert TextOf(z, Token(Id, 1, 2)) == "T";
    UnusedToken(db, z, 0, Token(Other, 0, 1));
    UsedToken(db, z, 1, Token(Id, 1, 2), Token(Other, 2, 3));
  }

  /** When both declarations are on record, no text calls for anything. */
  lemma {:induction false} NothingToScan(st: State, uses: seq<Use>)
    requires Sound(Repeating()) && {0, 1} <= st.forward && {0, 1} <= st.declared
    ensures ScanText(Repeating(), st, uses) == st
    decreases |uses|
  {
    var db := Repeating();
    if uses != [] {
      if uses[0].name in db.chains {
        ForwardsIdle(db, st, [0, 1], false);
        assert DeclareObject(db, st, [0, 1], uses[0].full) == st;
      }
      NothingToScan(st, uses[1..]);
    }
  }

  /** Both declarations are given out: what was marked is, within its condition. */
  lemma BothAreGiven(st: State)
    requires Sound(Repeating()) && Chain(Repeating(), [0, 1]) && st.zIf == None
    requires st.forward == {0} && st.declared == {} && st.out == []
    ensures var st' := DeclareObject(Repeating(), st, [0, 1], true);
            && st'.forward == {0, 1} && st'.declared == {0, 1} && st'.zIf == None
            && st'.out == [If(GUARD), Full(0), EndIf, Full(1)]
  {
    var db := Repeating();
    hide UsesOf;
    ForwardsIdle(db, st, [0, 1], false);
    assert 1 in [0, 1] && !IsSuitable(st, [0, 1], true);
    assert ChainIncludes(db, st, [0, 1]) == st by {
      assert AddIncludes(db, st, []) == st;
      assert ChainIncludes(db, st, []) == st;
      assert ChainIncludes(db, st, [1]) == st;
    }
    var st1 := MarkDue(db, st, [0, 1], true);
    BothAreMarked(st);
    BothAreEmitted(st1);
    assert DeclareObject(db, st, [0, 1], true) == EmitDue(db, st1, [0, 1], false);
  }

  lemma BothAreMarked(st: State)
    requires Chain(Repeating(), [0, 1]) && st.forward == {0} && st.declared == {}
    ensures var st1 := MarkDue(Repeating(), st, [0, 1], true);
            && st1.forward == {0, 1} && st1.declared == {0, 1} && 0 in st1.flag && 1 in st1.flag
            && st1.zIf == st.zIf && st1.out == st.out
  {
    assert Due(Repeating(), st, [0, 1], true) == {0, 1} by {
      assert 0 in [0, 1] && 1 in [0, 1];
    }
  }

  lemma GuardOpens(st: State)
    requires Sound(Repeating()) && st.zIf == None && {0, 1} <= st.forward && {0, 1} <= st.declared
    ensures ChangeIfContext(Repeating(), st, Some(GUARD)) == st.Put(If(GUARD)).(zIf := Some(GUARD))
  {
    hide UsesOf;
    assert CloseIf(st) == st;
    NothingToScan(st, UsesOf(Repeating(), GUARD));
  }

  lemma BothAreEmitted(st: State)
    requires Sound(Repeating()) && Chain(Repeating(), [0, 1]) && st.zIf == None && st.out == []
    requires st.forward == {0, 1} && st.declared == {0, 1} && 0 in st.flag && 1 in st.flag
    ensures var st' := EmitDue(Repeating(), st, [0, 1], false);
            && st'.forward == {0, 1} && st'.declared == {0, 1} && st'.zIf == None
            && st'.out == [If(GUARD), Full(0), EndIf, Full(1)]
  {
    var db := Repeating();
    hide UsesOf;
    NothingToScan(st, UsesOf(db, Searched(db.decls[0])));
    NothingToScan(st, UsesOf(db, Searched(db.decls[1])));
    assert [0, 1][1..] == [1] && [1][1..] == [];
    assert Scans(db, st, [1]) == Scans(db, st, []) == st;
    assert Scans(db, st, [0, 1]) == st;
    GuardOpens(st);
    hide ChangeIfContext;
    var st1 := Emit(db, st, 0);
    assert st1.out == [If(GUARD), Full(0)] && st1.zIf == Some(GUARD);
    var st2 := st1.(flag := st1.flag - {0});
    assert Emits(db, st2, [1], false) == Emits(db, st2, [], false) == (st2, false);
    assert Emits(db, st, [0, 1], false) == (st2, false);
    assert 1 in st2.flag && 0 !in st2.flag;
    assert EmitTypedef(db, st2, [0, 1]) == EmitTypedef(db, st2, [1]) == Emit(db, st2, 1);
    NoneCloses(st2);
  }

  lemma NoneCloses(st: State)
    requires Sound(Repeating()) && st.zIf.Some?
    ensures ChangeIfContext(Repeating(), st, None) == st.Put(EndIf).(zIf := None)
  {
  }

  /** The start of the header, with the structure's forward declaration on record. */
  function Begun(marks: set<nat>): State {
    State({0}, {}, marks, {}, None, [])
  }

  lemma FirstForward(marks: set<nat>)
    requires Sound(Repeating()) && Chain(Repeating(), [0, 1])
    ensures var st := ChangeIfContext(Repeating(), Begun(marks), Some(GUARD));
            && st.forward == {0, 1} && st.declared == {0, 1} && st.zIf == Some(GUARD)
            && st.out == [If(GUARD), Full(0), EndIf, Full(1), If(GUARD)]
  {
    var db := Repeating();
    var st := Begun(marks);
    BothAreGiven(st);
    var st1 := DeclareObject(db, st, [0, 1], true);
    UsesOfGuard(db);
    hide UsesOf;
    hide DeclareObject;
    var uses := UsesOf(db, GUARD);
    NothingToScan(st1, uses[1..]);
    assert db.chains[uses[0].name] == [0, 1];
    assert ScanText(db, st, uses) == st1;
    assert CloseIf(st) == st && CloseIf(st1) == st1;
  }

  lemma ForwardsOfBoth(marks: set<nat>)
    requires Sound(Repeating()) && Chain(Repeating(), [0, 1])
    ensures var st := ChangeIfContext(Repeating(), Begun(marks), Some(GUARD)).Put(Forward(0));
            Forwards(Repeating(), State({}, {}, marks, {}, None, []), [0, 1], false) == (st, true)
  {
    var db := Repeating();
    hide ChangeIfContext;
    var st0 := State({}, {}, marks, {}, None, []);
    var st := ChangeIfContext(db, Begun(marks), Some(GUARD)).Put(Forward(0));
    assert db.decls[0].zIf == Some(GUARD);
    assert IsForwardTypedef(db.decls[0]);
    assert st0.forward + {0} == {0};
    assert [0, 1][1..] == [1] && [1][1..] == [];
    assert Forwards(db, st, [1], true) == Forwards(db, st, [], true) == (st, true);
  }

  lemma NothingToComplete(st: State)
    requires Sound(Repeating()) && Indexed(Repeating()) && st.declared == {0, 1}
    ensures Complete(Repeating(), st) == Sweep(st, false, false)
  {
    var db := Repeating();
    hide DeclareObject;
    assert CompleteOnce(db, st, 2) == Sweep(st, false, false);
    assert CompleteOnce(db, st, 1) == Sweep(st, false, false);
    assert CompleteOnce(db, st, 0) == Sweep(st, false, false);
  }

  lemma OnlyCall(marks: set<nat>)
    requires Sound(Repeating()) && Chain(Repeating(), [0, 1])
    ensures var st := ChangeIfContext(Repeating(), Begun(marks), Some(GUARD)).Put(Forward(0));
            && DeclareObject(Repeating(), State({}, {}, marks, {}, None, []), [0, 1], true) == st
            && st.out == [If(GUARD), Full(0), EndIf, Full(1), If(GUARD), Forward(0)]
            && st.declared == {0, 1} && st.zIf == Some(GUARD)
  {
    FirstForward(marks);
    ForwardsOfBoth(marks);
    hide ChangeIfContext;
    hide Forwards;
    var st := ChangeIfContext(Repeating(), Begun(marks), Some(GUARD)).Put(Forward(0));
    assert IsSuitable(st, [0, 1], true);
  }

  lemma StartOfRepeating(marks: set<nat>)
    ensures Start(Repeating(), "a.c", marks) == State({}, {}, marks, {}, None, [])
  {
    assert Elsewhere(Repeating(), "a.c") == {};
  }

  lemma OneName(db: Database, st: State, ps: seq<nat>)
    requires Sound(db) && "T" in db.chains && db.chains["T"] == ps
    ensures ScanText(db, st, NeedAll(["T"])) == DeclareObject(db, st, ps, true)
  {
    hide DeclareObject;
    assert NeedAll(["T"]) == [Use("T", true)];
    assert [Use("T", true)][1..] == [];
  }

  /** A header with two typedefs of one name: the condition of the first calls for the second. */
  lemma TypedefRepeated(marks: set<nat>)
    ensures Sound(Repeating()) && Indexed(Repeating())
    ensures MakeHeader(Repeating(), "a.c", marks, ["T"]).st.out ==
            [If(GUARD), Full(0), EndIf, Full(1), If(GUARD), Forward(0), EndIf]
  {
    RepeatingIsSound();
    StartOfRepeating(marks);
    OnlyCall(marks);
    var db := Repeating();
    var st := DeclareObject(db, State({}, {}, marks, {}, None, []), [0, 1], true);
    OneName(db, State({}, {}, marks, {}, None, []), [0, 1]);
    hide Start;
    hide ScanText;
    hide DeclareObject;
    hide NeedAll;
    NothingToComplete(st);
    hide Complete;
    NoneCloses(st);
    hide ChangeIfContext;
  }
}
