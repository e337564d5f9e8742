/** Whatever a header declares is in it, as long as no call for a name takes the marks off that a call for the same name
    still waits to give out; and exactly when that happens. */
module HeaderComplete {
  import opened Options
  import opened HeaderSpec
  import opened HeaderLaws
  import opened HeaderRuns
  import opened HeaderOrder
  import opened HeaderPrecedence
  import opened HeaderMarks

  /** Not one of the declarations of which a call gives out one at most. */
  predicate IsPlain(db: Database, p: nat) {
    p < |db.decls| && !db.decls[p].isTypedef && !db.decls[p].isEnum
  }

  // One call.

  /** Every text of the name uses the name in full. */
  ghost predicate NamesItself(db: Database, name: string)
    requires Sound(db) && name in db.chains
  {
    forall r :: r in db.chains[name] && db.decls[r].zDecl.Some? ==>
      Use(name, true) in UsesOf(db, Searched(db.decls[r]))
  }

  /** A marked declaration of a settled name is given out. */
  lemma {:induction false} EmitsGives(db: Database, st: State, ps: seq<nat>, doneTypedef: bool, p: nat)
    requires Share(db, st, p, p) && Chain(db, ps) && IsPlain(db, p)
    requires IsSettled(db, st, db.decls[p].name) && p in ps && p in st.flag
    ensures Given(Emits(db, st, ps, doneTypedef).0, p) > Given(st, p)
    decreases |ps|
  {
    hide Given;
    hide Emit;
    hide Indexed;
    hide Distinct;
    hide Unmarks;
    hide Proper;
    ChainTail(db, ps);
    var d := db.decls[ps[0]];
    if ps[0] !in st.flag || d.isTypedef || (d.isEnum && doneTypedef) {
      EmitsGives(db, st, ps[1..], doneTypedef, p);
    } else {
      var st1 := Emit(db, st, ps[0]);
      var st2 := st1.(flag := st1.flag - {ps[0]});
      EmitGives(db, st, ps[0], p);
      SameGiven(st1, st2, p);
      if ps[0] == p {
        EmitsMore(db, st2, ps[1..], doneTypedef || d.isEnum, p);
      } else {
        EmitTreats(db, st, ps[0], p, p);
        EmitsGives(db, st2, ps[1..], doneTypedef || d.isEnum, p);
      }
    }
  }

  lemma EmitGives(db: Database, st: State, q: nat, p: nat)
    requires Share(db, st, p, p) && q < |db.decls| && IsTame(db.decls[p])
    ensures Given(Emit(db, st, q), p) == Given(st, p) + if q == p then 1 else 0
  {
    hide Count;
    hide Proper;
    EmitKeeps(db, st, q, Full(p));
  }

  lemma EmitsMore(db: Database, st: State, ps: seq<nat>, doneTypedef: bool, p: nat)
    requires Share(db, st, p, p) && Chain(db, ps) && IsTame(db.decls[p]) && p !in ps
    ensures Given(Emits(db, st, ps, doneTypedef).0, p) >= Given(st, p)
  {
    hide Count;
    hide Proper;
    EmitsKeeps(db, st, ps, doneTypedef, Full(p));
  }

  lemma {:induction false} EmitTypedefMore(db: Database, st: State, ps: seq<nat>, p: nat)
    requires Share(db, st, p, p) && Chain(db, ps) && IsTame(db.decls[p])
    ensures Given(EmitTypedef(db, st, ps), p) >= Given(st, p)
    decreases |ps|
  {
    hide Given;
    hide Emit;
    hide Indexed;
    hide Distinct;
    if ps != [] {
      ChainTail(db, ps);
      if ps[0] in st.flag {
        EmitGives(db, st, ps[0], p);
      } else {
        EmitTypedefMore(db, st, ps[1..], p);
      }
    }
  }

  lemma EmitDueGives(db: Database, st: State, ps: seq<nat>, doneTypedef: bool, p: nat)
    requires Share(db, st, p, p) && Chain(db, ps) && IsPlain(db, p)
    requires IsSettled(db, st, db.decls[p].name) && p in ps && p in st.flag
    ensures Given(EmitDue(db, st, ps, doneTypedef), p) > Given(st, p)
  {
    hide Count;
    hide Scans;
    hide Emits;
    hide EmitTypedef;
    hide Indexed;
    hide Distinct;
    hide Proper;
    var st1 := Scans(db, st, ps);
    ScansTreats(db, st, ps, p, p);
    ScansKeeps(db, st, ps, Full(p));
    EmitsGives(db, st1, ps, doneTypedef, p);
    var (st2, done) := Emits(db, st1, ps, doneTypedef);
    EmitTypedefMore(db, st2, ps, p);
  }

  /** A call that is not over when it meets the chain takes the mark off. */
  lemma DeclareObjectUnmarks(db: Database, st: State, p: nat, q: nat)
    requires Share(db, st, p, q) && (q !in st.declared || p !in st.flag)
    ensures p !in DeclareObject(db, st, db.chains[db.decls[p].name], true).flag
  {
    hide Forwards;
    hide ChainIncludes;
    hide GiveDue;
    hide Distinct;
    hide IsSettled;
    var name := db.decls[p].name;
    var ps := db.chains[name];
    OfItsName(db, name, q);
    hide Indexed;
    var (st1, doneTypedef) := Forwards(db, st, ps, false);
    ForwardsTreats(db, st, ps, false, p, q);
    if !IsSuitable(st1, ps, true) {
      GiveDueTreats(db, ChainIncludes(db, st1, ps), name, true, doneTypedef, p, q);
    }
  }

  lemma {:induction false} ScanTextUnmarks(db: Database, st: State, uses: seq<Use>, k: nat, p: nat, q: nat)
    requires Share(db, st, p, q) && (q !in st.declared || p !in st.flag)
    requires k < |uses| && uses[k] == Use(db.decls[p].name, true)
    ensures p !in ScanText(db, st, uses).flag
    decreases |uses|
  {
    hide DeclareObject;
    hide IsSettled;
    if uses[0].name !in db.chains {
      ScanTextUnmarks(db, st, uses[1..], k - 1, p, q);
    } else {
      hide Indexed;
      var st1 := DeclareObject(db, st, db.chains[uses[0].name], uses[0].full);
      DeclareObjectTreats(db, st, uses[0].name, uses[0].full, p, q);
      if k == 0 {
        DeclareObjectUnmarks(db, st, p, q);
        ScanTextTreats(db, st1, uses[1..], p, q);
      } else {
        ScanTextUnmarks(db, st1, uses[1..], k - 1, p, q);
      }
    }
  }

  lemma {:induction false} ScansUnmark(db: Database, st: State, ps: seq<nat>, p: nat, q: nat)
    requires Share(db, st, p, q) && (q !in st.declared || p !in st.flag)
    requires NamesItself(db, db.decls[p].name) && db.decls[p].zDecl.Some?
    requires Chain(db, ps) && p in ps && forall r :: r in ps ==> r in db.chains[db.decls[p].name]
    ensures p !in Scans(db, st, ps).flag
    decreases |ps|
  {
    hide ScanText;
    hide UsesOf;
    hide Distinct;
    hide IsSettled;
    hide Indexed;
    ChainTail(db, ps);
    var r := ps[0];
    assert r in ps;
    var st1 := ScanDecl(db, st, r);
    if r in st.flag && db.decls[r].zDecl.Some? {
      var uses := UsesOf(db, Searched(db.decls[r]));
      var k :| 0 <= k < |uses| && uses[k] == Use(db.decls[p].name, true);
      ScanTextUnmarks(db, st, uses, k, p, q);
    }
    if p !in st1.flag {
      ScansTreats(db, st1, ps[1..], p, q);
    } else {
      ScansUnmark(db, st1, ps[1..], p, q);
    }
  }

  lemma EmitDueSame(db: Database, st: State, ps: seq<nat>, doneTypedef: bool, p: nat)
    requires Share(db, st, p, p) && Chain(db, ps) && IsTame(db.decls[p]) && p !in Scans(db, st, ps).flag
    ensures Given(EmitDue(db, st, ps, doneTypedef), p) == Given(st, p)
  {
    hide Count;
    hide Scans;
    hide Emits;
    hide EmitTypedef;
    hide Indexed;
    hide Distinct;
    hide Proper;
    var st1 := Scans(db, st, ps);
    ScansKeeps(db, st, ps, Full(p));
    EmitsKeeps(db, st1, ps, doneTypedef, Full(p));
    EmitTypedefKeeps(db, Emits(db, st1, ps, doneTypedef).0, ps, Full(p));
  }

  /** A declaration that a call finds due is given out by that call if and only if every other declaration of the name
      is declared already or due with it. */
  lemma GivenExactly(db: Database, st: State, name: string, full: bool, doneTypedef: bool, p: nat)
    requires Sound(db) && Indexed(db) && Proper(db, st) && name in db.chains && NamesItself(db, name)
    requires p in db.chains[name] && IsPlain(db, p) && IsDue(db, st, p, full)
    ensures var st' := GiveDue(db, st, db.chains[name], full, doneTypedef);
            && p in st'.declared
            && (Given(st', p) > Given(st, p) <==>
                forall r :: r in db.chains[name] ==> r in st.declared || IsDue(db, st, r, full))
  {
    hide Count;
    hide EmitDue;
    hide Distinct;
    hide NamesItself;
    hide WellPlaced;
    hide Context;
    var ps := db.chains[name];
    OfItsName(db, name, p);
    var st1 := MarkDue(db, st, ps, full);
    SameGiven(st, st1, p);
    assert p in st1.flag;
    if forall r :: r in ps ==> r in st.declared || IsDue(db, st, r, full) {
      EmitDueGives(db, st1, ps, doneTypedef, p);
    } else {
      var q :| q in ps && q !in st.declared && !IsDue(db, st, q, full);
      OfItsName(db, name, q);
      ScansUnmark(db, st1, ps, p, q);
      EmitDueSame(db, st1, ps, doneTypedef, p);
    }
  }

  /** The only marked declaration of a list is given out, be it a typedef, if no typedef was given out before. */
  lemma {:induction false} EmitsAlone(db: Database, st: State, ps: seq<nat>, p: nat)
    requires Share(db, st, p, p) && Chain(db, ps) && IsTame(db.decls[p])
    requires p in ps && p in st.flag && forall r :: r in ps && r != p ==> r !in st.flag
    ensures if db.decls[p].isTypedef then Emits(db, st, ps, false) == (st, false)
            else Given(Emits(db, st, ps, false).0, p) > Given(st, p)
    ensures EmitTypedef(db, st, ps) == Emit(db, st, p)
    decreases |ps|
  {
    hide Given;
    hide Emit;
    hide Indexed;
    hide Distinct;
    ChainTail(db, ps);
    if ps[0] != p {
      EmitsAlone(db, st, ps[1..], p);
    } else if db.decls[p].isTypedef {
      assert !IsMarked(st, ps[1..]);
      NoneMarked(db, st, ps[1..], false);
    } else {
      var st1 := Emit(db, st, p);
      var st2 := st1.(flag := st1.flag - {p});
      EmitGives(db, st, p, p);
      SameGiven(st1, st2, p);
      EmitsMore(db, st2, ps[1..], db.decls[p].isEnum, p);
    }
  }

  lemma EmitDueGivesAlone(db: Database, st: State, ps: seq<nat>, p: nat)
    requires Share(db, st, p, p) && Chain(db, ps) && IsTame(db.decls[p])
    requires IsSettled(db, st, db.decls[p].name) && p in ps && p in st.flag
    requires forall r :: r in ps && r != p ==> r < |db.decls| && r in st.declared && r !in st.flag
    ensures Given(EmitDue(db, st, ps, false), p) > Given(st, p)
  {
    hide Count;
    hide Scans;
    hide Emits;
    hide EmitTypedef;
    hide Indexed;
    hide Distinct;
    hide Proper;
    var st1 := Scans(db, st, ps);
    ScansTreats(db, st, ps, p, p);
    ScansKeeps(db, st, ps, Full(p));
    forall r | r in ps && r != p
      ensures r !in st1.flag
    {
      ScansTreats(db, st, ps, r, r);
    }
    EmitsAlone(db, st1, ps, p);
    EmitGives(db, st1, p, p);
    var (st2, done) := Emits(db, st1, ps, false);
    EmitTypedefMore(db, st2, ps, p);
  }

  // Whole headers.

  /** A name whose declarations are due together: all that are not local to another file have texts, and none of them
      has a forward declaration unless it is the only one. */
  ghost predicate IsWhole(db: Database, file: string, name: string)
    requires name in db.chains
  {
    forall r :: r in db.chains[name] && r !in Elsewhere(db, file) ==>
      && r < |db.decls| && db.decls[r].zDecl.Some?
      && (db.decls[r].zFwd.None? || IsAlone(db, file, name, r))
  }

  ghost predicate IsAlone(db: Database, file: string, name: string, r: nat)
    requires name in db.chains
  {
    forall q :: q in db.chains[name] && q != r ==> q in Elsewhere(db, file)
  }

  /** A declaration that no other of its name can keep from being given out: of typedefs and enumerations a call gives
      out one at most. */
  ghost predicate IsSingle(db: Database, file: string, p: nat) {
    && p < |db.decls| && IsTame(db.decls[p])
    && (IsPlain(db, p) || (db.decls[p].name in db.chains && IsAlone(db, file, db.decls[p].name, p)))
  }

  /** Either all of them are declared or none. */
  ghost predicate IsSealed(db: Database, file: string, st: State, name: string)
    requires name in db.chains
  {
    forall q, r :: q in db.chains[name] && r in db.chains[name] && q !in Elsewhere(db, file) && q in st.declared ==>
      r in st.declared
  }

  ghost predicate Ready(db: Database, file: string, st: State, p: nat) {
    && Sound(db) && Indexed(db) && IsSingle(db, file, p) && p !in Elsewhere(db, file)
    && Proper(db, st) && Elsewhere(db, file) <= st.declared
    && IsWhole(db, file, db.decls[p].name) && IsSealed(db, file, st, db.decls[p].name)
  }

  /** If the declaration is declared on the way, its text is given out on the way. */
  ghost predicate Delivers(db: Database, file: string, st: State, st': State, p: nat) {
    && Ready(db, file, st', p)
    && Given(st, p) <= Given(st', p)
    && (p in st'.declared && p !in st.declared ==> Given(st', p) > 0)
  }

  lemma DeliversOn(db: Database, file: string, a: State, b: State, c: State, p: nat)
    requires Delivers(db, file, a, b, p) && Delivers(db, file, b, c, p)
    ensures Delivers(db, file, a, c, p)
  {
  }

  /** A step that declares nothing. */
  lemma StepDelivers(db: Database, file: string, st: State, st': State, p: nat)
    requires Ready(db, file, st, p) && Proper(db, st') && st'.declared == st.declared && Given(st', p) >= Given(st, p)
    ensures Delivers(db, file, st, st', p)
  {
  }

  lemma {:induction false} ChangeIfContextDelivers(db: Database, file: string, st: State, zIf: Option<string>, p: nat)
    requires Ready(db, file, st, p)
    ensures Delivers(db, file, st, ChangeIfContext(db, st, zIf), p)
    decreases Left(db, st), 6
  {
    hide Ready;
    hide Proper;
    hide Count;
    hide UsesOf;
    hide Left;
    ReadyMeans(db, file, st, p);
    CloseIfDelivers(db, file, st, p);
    if zIf.None? {
    } else if st.zIf == zIf {
      StepDelivers(db, file, st, st, p);
    } else {
      var st1 := CloseIf(st);
      LeftShrinks(db, st, st1);
      var st2 := ScanText(db, st1, UsesOf(db, zIf.value));
      ScanTextDelivers(db, file, st1, UsesOf(db, zIf.value), p);
      var st3 := CloseIf(st2).Put(If(zIf.value)).(zIf := zIf);
      ChangeIfContextKeeps(db, st, zIf, Full(p));
      PutGives(db, st2, EndIf, p);
      PutGives(db, CloseIf(st2), If(zIf.value), p);
      StepDelivers(db, file, st2, st3, p);
      DeliversOn(db, file, st, st1, st2, p);
      DeliversOn(db, file, st, st2, st3, p);
    }
  }

  lemma ReadyMeans(db: Database, file: string, st: State, p: nat)
    requires Ready(db, file, st, p)
    ensures Sound(db) && Indexed(db) && Proper(db, st) && IsCounted(db, Full(p))
  {
  }

  lemma CloseIfDelivers(db: Database, file: string, st: State, p: nat)
    requires Ready(db, file, st, p)
    ensures Delivers(db, file, st, CloseIf(st), p)
  {
    hide Proper;
    hide Count;
    CloseIfKeeps(db, st, Full(p));
  }

  lemma {:induction false} ScanTextDelivers(db: Database, file: string, st: State, uses: seq<Use>, p: nat)
    requires Ready(db, file, st, p) && Sound(db)
    ensures Delivers(db, file, st, ScanText(db, st, uses), p)
    decreases Left(db, st), 5, |uses|
  {
    hide Ready;
    hide Given;
    ReadyMeans(db, file, st, p);
    if uses == [] {
      StepDelivers(db, file, st, st, p);
    } else if uses[0].name !in db.chains {
      ScanTextDelivers(db, file, st, uses[1..], p);
    } else {
      var ps := db.chains[uses[0].name];
      var st1 := DeclareObject(db, st, ps, uses[0].full);
      DeclareObjectDelivers(db, file, st, ps, uses[0].full, uses[0].name, p);
      LeftShrinks(db, st, st1);
      ScanTextDelivers(db, file, st1, uses[1..], p);
      DeliversOn(db, file, st, st1, ScanText(db, st1, uses[1..]), p);
    }
  }

  /** A list of declarations of one name; if that is the name of `p`, it has all that are not local to another file. */
  ghost predicate Covers(db: Database, file: string, ps: seq<nat>, name: string, p: nat)
    requires Chain(db, ps) && p < |db.decls|
  {
    && name in db.chains
    && (forall r :: r in ps ==> r in db.chains[name])
    && (name == db.decls[p].name ==> forall r :: r in db.chains[name] && r !in Elsewhere(db, file) ==> r in ps)
  }

  lemma {:induction false} AddIncludesDelivers(db: Database, file: string, st: State, list: seq<Include>, p: nat)
    requires Ready(db, file, st, p) && Sound(db) && Labeled(db, list)
    ensures Delivers(db, file, st, AddIncludes(db, st, list), p)
    decreases Left(db, st), 1, |list|
  {
    hide Ready;
    hide Proper;
    hide Given;
    ReadyMeans(db, file, st, p);
    if list == [] {
      StepDelivers(db, file, st, st, p);
    } else {
      AddIncludesDelivers(db, file, st, list[1..], p);
      var st1 := AddIncludes(db, st, list[1..]);
      LeftShrinks(db, st, st1);
      if list[0].tag !in st1.table {
        IncludeDelivers(db, file, st1, list[0], p);
        DeliversOn(db, file, st, st1, AddIncludes(db, st, list), p);
      }
    }
  }

  lemma {:induction false} IncludeDelivers(db: Database, file: string, st: State, inc: Include, p: nat)
    requires Ready(db, file, st, p) && Sound(db) && inc.tag in Labels(db) && inc.tag !in st.table
    ensures var st1 := st.(table := st.table + {inc.tag});
            Delivers(db, file, st, ChangeIfContext(db, st1, inc.zIf).Put(IncludeLine(inc)), p)
    decreases Left(db, st), 0
  {
    hide Ready;
    hide WellPlaced;
    hide Context;
    hide Count;
    ReadyMeans(db, file, st, p);
    var st1 := st.(table := st.table + {inc.tag});
    LeftShrinks(db, st, st1);
    StepDelivers(db, file, st, st1, p);
    ChangeIfContextDelivers(db, file, st1, inc.zIf, p);
    var st2 := ChangeIfContext(db, st1, inc.zIf);
    IncludeKeeps(db, st, inc, Full(p));
    PutGives(db, st2, IncludeLine(inc), p);
    StepDelivers(db, file, st2, st2.Put(IncludeLine(inc)), p);
    DeliversOn(db, file, st, st1, st2, p);
    DeliversOn(db, file, st, st2, st2.Put(IncludeLine(inc)), p);
  }

  lemma {:induction false} ForwardsDelivers(db: Database, file: string, st: State, ps: seq<nat>, doneTypedef: bool,
                                            p: nat)
    requires Ready(db, file, st, p) && Sound(db) && Chain(db, ps)
    ensures Delivers(db, file, st, Forwards(db, st, ps, doneTypedef).0, p)
    decreases Left(db, st), 2, |ps|
  {
    hide Ready;
    hide WellPlaced;
    hide Context;
    hide Count;
    hide Distinct;
    ReadyMeans(db, file, st, p);
    if ps == [] {
      StepDelivers(db, file, st, st, p);
    } else {
      ChainTail(db, ps);
      var d := db.decls[ps[0]];
      if d.zFwd.None? || ps[0] in st.forward {
        ForwardsDelivers(db, file, st, ps[1..], doneTypedef, p);
      } else {
        var st1 := st.(forward := st.forward + {ps[0]});
        LeftShrinks(db, st, st1);
        StepDelivers(db, file, st, st1, p);
        if IsForwardTypedef(d) && doneTypedef {
          ForwardsDelivers(db, file, st1, ps[1..], true, p);
          DeliversOn(db, file, st, st1, Forwards(db, st, ps, doneTypedef).0, p);
        } else {
          var st2 := ChangeIfContext(db, st1, d.zIf).Put(Forward(ps[0]));
          ForwardDelivers(db, file, st, ps[0], p);
          LeftShrinks(db, st1, st2);
          ForwardsDelivers(db, file, st2, ps[1..], doneTypedef || IsForwardTypedef(d), p);
          DeliversOn(db, file, st, st2, Forwards(db, st, ps, doneTypedef).0, p);
        }
      }
    }
  }

  lemma {:induction false} ForwardDelivers(db: Database, file: string, st: State, q: nat, p: nat)
    requires Ready(db, file, st, p) && Sound(db) && q < |db.decls| && db.decls[q].zFwd.Some? && q !in st.forward
    ensures var st1 := st.(forward := st.forward + {q});
            Delivers(db, file, st, ChangeIfContext(db, st1, db.decls[q].zIf).Put(Forward(q)), p)
    decreases Left(db, st), 0
  {
    hide Ready;
    hide WellPlaced;
    hide Context;
    hide Count;
    ReadyMeans(db, file, st, p);
    var st1 := st.(forward := st.forward + {q});
    LeftShrinks(db, st, st1);
    StepDelivers(db, file, st, st1, p);
    ChangeIfContextDelivers(db, file, st1, db.decls[q].zIf, p);
    var st2 := ChangeIfContext(db, st1, db.decls[q].zIf);
    ForwardKeeps(db, st, q, Full(p));
    PutGives(db, st2, Forward(q), p);
    StepDelivers(db, file, st2, st2.Put(Forward(q)), p);
    DeliversOn(db, file, st, st1, st2, p);
    DeliversOn(db, file, st, st2, st2.Put(Forward(q)), p);
  }

  lemma {:induction false} ChainIncludesDelivers(db: Database, file: string, st: State, ps: seq<nat>, p: nat)
    requires Ready(db, file, st, p) && Sound(db) && Chain(db, ps)
    ensures Delivers(db, file, st, ChainIncludes(db, st, ps), p)
    decreases Left(db, st), 2, |ps|
  {
    hide Ready;
    hide Given;
    hide AddIncludes;
    hide Distinct;
    hide Proper;
    ReadyMeans(db, file, st, p);
    if ps == [] {
      StepDelivers(db, file, st, st, p);
    } else {
      ChainTail(db, ps);
      AddIncludesDelivers(db, file, st, db.decls[ps[0]].includes, p);
      var st1 := AddIncludes(db, st, db.decls[ps[0]].includes);
      LeftShrinks(db, st, st1);
      ChainIncludesDelivers(db, file, st1, ps[1..], p);
      DeliversOn(db, file, st, st1, ChainIncludes(db, st1, ps[1..]), p);
    }
  }

  lemma {:induction false} ScanDeclDelivers(db: Database, file: string, st: State, q: nat, p: nat)
    requires Ready(db, file, st, p) && Sound(db) && q < |db.decls|
    ensures Delivers(db, file, st, ScanDecl(db, st, q), p)
    decreases Left(db, st), 7, 0
  {
    hide Ready;
    hide Given;
    hide UsesOf;
    hide ScanText;
    hide Proper;
    ReadyMeans(db, file, st, p);
    StepDelivers(db, file, st, st, p);
    if q in st.flag && db.decls[q].zDecl.Some? {
      ScanTextDelivers(db, file, st, UsesOf(db, Searched(db.decls[q])), p);
    }
  }

  lemma {:induction false} ScansDelivers(db: Database, file: string, st: State, ps: seq<nat>, p: nat)
    requires Ready(db, file, st, p) && Sound(db) && Chain(db, ps)
    ensures Delivers(db, file, st, Scans(db, st, ps), p)
    decreases Left(db, st), 8, |ps|
  {
    hide Ready;
    hide Given;
    hide ScanDecl;
    hide Distinct;
    hide Proper;
    ReadyMeans(db, file, st, p);
    if ps == [] {
      StepDelivers(db, file, st, st, p);
    } else {
      ChainTail(db, ps);
      ScanDeclDelivers(db, file, st, ps[0], p);
      var st1 := ScanDecl(db, st, ps[0]);
      LeftShrinks(db, st, st1);
      ScansDelivers(db, file, st1, ps[1..], p);
      DeliversOn(db, file, st, st1, Scans(db, st1, ps[1..]), p);
    }
  }

  lemma {:induction false} EmitDelivers(db: Database, file: string, st: State, q: nat, p: nat)
    requires Ready(db, file, st, p) && Sound(db) && q < |db.decls|
    ensures Delivers(db, file, st, Emit(db, st, q), p)
    decreases Left(db, st), 7, 1
  {
    hide Ready;
    hide Proper;
    hide Count;
    ReadyMeans(db, file, st, p);
    ChangeIfContextDelivers(db, file, st, db.decls[q].zIf, p);
    var st1 := ChangeIfContext(db, st, db.decls[q].zIf);
    EmitKeeps(db, st, q, Forward(0));
    PutGives(db, st1, Full(q), p);
    StepDelivers(db, file, st1, st1.Put(Full(q)), p);
    DeliversOn(db, file, st, st1, st1.Put(Full(q)), p);
  }

  lemma {:induction false} EmitsDelivers(db: Database, file: string, st: State, ps: seq<nat>, doneTypedef: bool, p: nat)
    requires Ready(db, file, st, p) && Sound(db) && Chain(db, ps)
    ensures Delivers(db, file, st, Emits(db, st, ps, doneTypedef).0, p)
    decreases Left(db, st), 8, |ps|
  {
    hide Ready;
    hide WellPlaced;
    hide Context;
    hide Given;
    hide Emit;
    hide Distinct;
    ReadyMeans(db, file, st, p);
    if ps == [] {
      StepDelivers(db, file, st, st, p);
    } else {
      ChainTail(db, ps);
      var d := db.decls[ps[0]];
      if ps[0] !in st.flag || d.isTypedef || (d.isEnum && doneTypedef) {
        EmitsDelivers(db, file, st, ps[1..], doneTypedef, p);
      } else {
        var st1 := Emit(db, st, ps[0]);
        EmitDelivers(db, file, st, ps[0], p);
        var st2 := st1.(flag := st1.flag - {ps[0]});
        ReadyMeans(db, file, st1, p);
        SameGiven(st1, st2, p);
        StepDelivers(db, file, st1, st2, p);
        DeliversOn(db, file, st, st1, st2, p);
        LeftShrinks(db, st, st2);
        EmitsDelivers(db, file, st2, ps[1..], doneTypedef || d.isEnum, p);
        DeliversOn(db, file, st, st2, Emits(db, st, ps, doneTypedef).0, p);
      }
    }
  }

  lemma {:induction false} EmitTypedefDelivers(db: Database, file: string, st: State, ps: seq<nat>, p: nat)
    requires Ready(db, file, st, p) && Sound(db) && Chain(db, ps)
    ensures Delivers(db, file, st, EmitTypedef(db, st, ps), p)
    decreases Left(db, st), 8, |ps|
  {
    hide Ready;
    hide Proper;
    hide Given;
    hide Emit;
    hide Distinct;
    ReadyMeans(db, file, st, p);
    if ps == [] {
      StepDelivers(db, file, st, st, p);
    } else {
      ChainTail(db, ps);
      if ps[0] in st.flag {
        EmitDelivers(db, file, st, ps[0], p);
      } else {
        EmitTypedefDelivers(db, file, st, ps[1..], p);
      }
    }
  }

  lemma {:induction false} EmitDueDelivers(db: Database, file: string, st: State, ps: seq<nat>, doneTypedef: bool,
                                           p: nat)
    requires Ready(db, file, st, p) && Sound(db) && Chain(db, ps)
    ensures Delivers(db, file, st, EmitDue(db, st, ps, doneTypedef), p)
    decreases Left(db, st), 9
  {
    hide Ready;
    hide Proper;
    hide Given;
    hide Scans;
    hide Emits;
    hide EmitTypedef;
    hide Distinct;
    var st1 := Scans(db, st, ps);
    ScansDelivers(db, file, st, ps, p);
    LeftShrinks(db, st, st1);
    EmitsDelivers(db, file, st1, ps, doneTypedef, p);
    var (st2, done) := Emits(db, st1, ps, doneTypedef);
    LeftShrinks(db, st1, st2);
    DeliversOn(db, file, st, st1, st2, p);
    if !done {
      EmitTypedefDelivers(db, file, st2, ps, p);
      DeliversOn(db, file, st, st2, EmitTypedef(db, st2, ps), p);
    }
  }

  /** Where nothing is left to forward declare, no typedef is. */
  lemma {:induction false} ForwardsIdle(db: Database, st: State, ps: seq<nat>, doneTypedef: bool)
    requires Sound(db) && Chain(db, ps) && forall r :: r in ps ==> db.decls[r].zFwd.None? || r in st.forward
    ensures Forwards(db, st, ps, doneTypedef) == (st, doneTypedef)
    decreases |ps|
  {
    hide ChangeIfContext;
    if ps != [] {
      ForwardsIdle(db, st, ps[1..], doneTypedef);
    }
  }

  /** A typedef or enumeration of the name. */
  ghost predicate IsOne(db: Database, name: string, p: nat) {
    p < |db.decls| && name == db.decls[p].name && !IsPlain(db, p) && db.decls[p].zDecl.Some?
  }

  lemma OnlyTypedefs(db: Database, file: string, st: State, ps: seq<nat>, name: string, p: nat)
    requires Ready(db, file, st, p) && Chain(db, ps) && Sound(db) && Covers(db, file, ps, name, p)
    requires IsOne(db, name, p)
    ensures !Forwards(db, st, ps, false).1
  {
    hide Forwards;
    hide Elsewhere;
    hide Distinct;
    hide WellPlaced;
    hide Context;
    ForwardsIdle(db, st, ps, false);
  }

  /** What marking means for the declaration's own name: nothing is due, or the name is settled then. */
  lemma MarkDueSettles(db: Database, file: string, st: State, ps: seq<nat>, full: bool, name: string, p: nat)
    requires Ready(db, file, st, p) && Chain(db, ps) && Covers(db, file, ps, name, p)
    ensures var st1 := MarkDue(db, st, ps, full);
            && st1.out == st.out && Ready(db, file, st1, p)
            && (p in st1.declared && p !in st.declared ==>
                  && p in ps && p in st1.flag && IsSettled(db, st1, db.decls[p].name)
                  && (!IsPlain(db, p) ==> forall r :: r in ps && r != p ==> r in st1.declared && r !in st1.flag))
  {
    hide WellPlaced;
    hide Context;
    hide Distinct;
    hide Elsewhere;
    OfItsName(db, name, p);
    forall r: nat | r < |db.decls|
      ensures r in db.chains[name] <==> db.decls[r].name == name
    {
      OfItsName(db, name, r);
    }
  }

  /** What marking declares is given out. */
  lemma DueIsGiven(db: Database, file: string, st: State, ps: seq<nat>, full: bool, doneTypedef: bool,
                   name: string, p: nat)
    requires Ready(db, file, st, p) && Chain(db, ps) && Sound(db) && Covers(db, file, ps, name, p)
    requires IsOne(db, name, p) ==> !doneTypedef
    requires p in MarkDue(db, st, ps, full).declared && p !in st.declared
    ensures Given(EmitDue(db, MarkDue(db, st, ps, full), ps, doneTypedef), p) > 0
  {
    hide Given;
    hide EmitDue;
    hide MarkDue;
    hide Distinct;
    hide IsWhole;
    hide IsSealed;
    hide IsSettled;
    hide Proper;
    hide Elsewhere;
    var st1 := MarkDue(db, st, ps, full);
    MarkDueSettles(db, file, st, ps, full, name, p);
    MarkedWereDue(db, st, ps, full, p);
    if IsPlain(db, p) {
      EmitDueGives(db, st1, ps, doneTypedef, p);
    } else {
      OfItsName(db, name, p);
      EmitDueGivesAlone(db, st1, ps, p);
    }
  }

  lemma {:induction false} GiveDueDelivers(db: Database, file: string, st: State, ps: seq<nat>, full: bool,
                                           doneTypedef: bool, name: string, p: nat)
    requires Ready(db, file, st, p) && Chain(db, ps) && Sound(db) && Covers(db, file, ps, name, p)
    requires IsOne(db, name, p) ==> !doneTypedef
    ensures Delivers(db, file, st, GiveDue(db, st, ps, full, doneTypedef), p)
    decreases Left(db, st), 2
  {
    hide Ready;
    hide Given;
    hide EmitDue;
    hide MarkDue;
    hide Distinct;
    hide IsOne;
    hide Covers;
    hide IsSettled;
    var st1 := MarkDue(db, st, ps, full);
    MarkDueSettles(db, file, st, ps, full, name, p);
    SameGiven(st, st1, p);
    if q :| q in ps && q in st1.flag {
      MarkedWereDue(db, st, ps, full, q);
      LeftShrinks(db, st, st1);
      EmitDueDelivers(db, file, st1, ps, doneTypedef, p);
      if p in st1.declared && p !in st.declared {
        DueIsGiven(db, file, st, ps, full, doneTypedef, name, p);
      }
    }
  }

  lemma {:induction false} DeclareObjectDelivers(db: Database, file: string, st: State, ps: seq<nat>, full: bool,
                                                 name: string, p: nat)
    requires Ready(db, file, st, p) && Chain(db, ps) && Sound(db) && Covers(db, file, ps, name, p)
    ensures Delivers(db, file, st, DeclareObject(db, st, ps, full), p)
    decreases Left(db, st), 3
  {
    hide Ready;
    hide Given;
    hide Forwards;
    hide ChainIncludes;
    hide GiveDue;
    hide Distinct;
    hide Covers;
    hide IsOne;
    var (st1, doneTypedef) := Forwards(db, st, ps, false);
    ForwardsDelivers(db, file, st, ps, false, p);
    LeftShrinks(db, st, st1);
    if !IsSuitable(st1, ps, full) {
      var st2 := ChainIncludes(db, st1, ps);
      ChainIncludesDelivers(db, file, st1, ps, p);
      LeftShrinks(db, st1, st2);
      if IsOne(db, name, p) {
        OnlyTypedefs(db, file, st, ps, name, p);
      }
      GiveDueDelivers(db, file, st2, ps, full, doneTypedef, name, p);
      DeliversOn(db, file, st, st1, st2, p);
      DeliversOn(db, file, st, st2, GiveDue(db, st2, ps, full, doneTypedef), p);
    }
  }

  lemma FromIsPart(ps: seq<nat>, p: nat)
    requires p in ps
    ensures forall r :: r in From(ps, p) ==> r in ps
  {
  }

  /** Only the rest of a chain is completed; that is the whole of it for a name that is whole. */
  lemma ChainFromCovers(db: Database, file: string, st: State, k: nat, p: nat)
    requires Ready(db, file, st, p) && Sound(db) && Indexed(db) && k < |db.decls|
    requires k in st.forward && k !in st.declared
    ensures Covers(db, file, ChainFrom(db, k), db.decls[k].name, p)
  {
    hide WellPlaced;
    hide Context;
    hide Distinct;
    hide Elsewhere;
    hide From;
    var name := db.decls[k].name;
    FromIsPart(db.chains[name], k);
    assert ChainFrom(db, k)[0] == k;
    if name == db.decls[p].name {
      assert IsAlone(db, file, name, k);
    }
  }

  lemma {:induction false} CompleteOnceDelivers(db: Database, file: string, st: State, k: nat, p: nat)
    requires Ready(db, file, st, p) && Sound(db) && Indexed(db) && k <= |db.decls|
    ensures Delivers(db, file, st, CompleteOnce(db, st, k).st, p)
    decreases |db.decls| - k
  {
    hide Ready;
    hide Given;
    hide DeclareObject;
    hide Distinct;
    hide Left;
    hide ChainFrom;
    hide Covers;
    ReadyMeans(db, file, st, p);
    if k == |db.decls| {
      StepDelivers(db, file, st, st, p);
    } else if k !in st.forward || k in st.declared {
      CompleteOnceDelivers(db, file, st, k + 1, p);
    } else {
      var ps := ChainFrom(db, k);
      var st1 := DeclareObject(db, st, ps, true);
      ChainFromCovers(db, file, st, k, p);
      DeclareObjectDelivers(db, file, st, ps, true, db.decls[k].name, p);
      if k in st1.declared {
        CompleteOnceDelivers(db, file, st1, k + 1, p);
        DeliversOn(db, file, st, st1, CompleteOnce(db, st1, k + 1).st, p);
      }
    }
  }

  lemma {:induction false} CompleteDelivers(db: Database, file: string, st: State, p: nat)
    requires Ready(db, file, st, p) && Sound(db) && Indexed(db)
    ensures Delivers(db, file, st, Complete(db, st).st, p)
    decreases Left(db, st)
  {
    hide Ready;
    hide Given;
    hide CompleteOnce;
    var r := CompleteOnce(db, st, 0);
    CompleteOnceDelivers(db, file, st, 0, p);
    if r.progress && !r.failed {
      CompleteDelivers(db, file, r.st, p);
      DeliversOn(db, file, st, r.st, Complete(db, r.st).st, p);
    }
  }

  lemma StartIsReady(db: Database, file: string, marks: set<nat>, p: nat)
    requires Sound(db) && Indexed(db) && IsSingle(db, file, p) && p !in Elsewhere(db, file)
    requires IsWhole(db, file, db.decls[p].name)
    ensures Ready(db, file, Start(db, file, marks), p)
  {
    hide Elsewhere;
  }

  /** A declaration of a whole name, which is not local to another file, has its text in the header just once if it
      counts as declared, and not at all otherwise. */
  lemma DeclaredIsGiven(db: Database, file: string, marks: set<nat>, names: seq<string>, p: nat)
    requires Sound(db) && Indexed(db) && IsSingle(db, file, p) && !IsElsewhere(db, file, p)
    requires IsWhole(db, file, db.decls[p].name)
    ensures var st := MakeHeader(db, file, marks, names).st;
            Given(st, p) == if p in st.declared then 1 else 0
  {
    hide Ready;
    hide ScanText;
    hide Complete;
    hide IsWhole;
    hide Elsewhere;
    hide Proper;
    var st := Start(db, file, marks);
    ElsewhereMeans(db, file, p);
    StartIsReady(db, file, marks, p);
    var st1 := ScanText(db, st, NeedAll(names));
    ScanTextDelivers(db, file, st, NeedAll(names), p);
    CompleteDelivers(db, file, st1, p);
    var r := Complete(db, st1);
    if !r.failed {
      ChangeIfContextDelivers(db, file, r.st, None, p);
    }
    MakeHeaderKeeps(db, file, marks, names, Full(p));
  }

  /** A finished header has, of every name that it was made for and that is whole, the text of each declaration that is
      not local to another file, just once. */
  lemma NamesAreGiven(db: Database, file: string, marks: set<nat>, names: seq<string>, k: nat, p: nat)
    requires Sound(db) && Indexed(db) && !MakeHeader(db, file, marks, names).failed
    requires k < |names| && names[k] in db.chains && IsWhole(db, file, names[k])
    requires p in db.chains[names[k]] && IsSingle(db, file, p) && !IsElsewhere(db, file, p)
    ensures Given(MakeHeader(db, file, marks, names).st, p) == 1
  {
    hide MakeHeader;
    hide Given;
    hide Elsewhere;
    ElsewhereMeans(db, file, p);
    OfItsName(db, names[k], p);
    HeaderProvides(db, file, marks, names, k);
    DeclaredIsGiven(db, file, marks, names, p);
  }

  lemma {:induction false} Found(out: seq<Item>, q: nat) returns (k: nat)
    requires Count(out, Full(q)) > 0
    ensures k < |out| && out[k] == Full(q)
  {
    if out[|out| - 1] == Full(q) {
      k := |out| - 1;
    } else {
      k := Found(out[..|out| - 1], q);
    }
  }

  /** Unless declarations of different names need each other in full: the text of whatever a text needs in full stands
      before it. */
  lemma NeededStandsBefore(db: Database, o: Order, file: string, marks: set<nat>, names: seq<string>,
                           p: nat, q: nat, j: nat)
    returns (k: nat)
    requires Setting(db, o, p, Full(q))
    requires IsSingle(db, file, q) && !IsElsewhere(db, file, q) && IsWhole(db, file, db.decls[q].name)
    requires j < |MakeHeader(db, file, marks, names).st.out| && MakeHeader(db, file, marks, names).st.out[j] == Full(p)
    ensures k < j && MakeHeader(db, file, marks, names).st.out[k] == Full(q)
  {
    hide MakeHeader;
    hide Needs;
    hide Acyclic;
    hide IsWhole;
    hide IsSingle;
    hide Elsewhere;
    var st := MakeHeader(db, file, marks, names).st;
    ElsewhereMeans(db, file, q);
    HeaderInOrder(db, o, file, marks, names, p, Full(q));
    NeededIsLower(db, o, p, Full(q));
    Occurs(st.out, Full(p), j);
    DeclaredIsGiven(db, file, marks, names, q);
    k := Found(st.out, q);
  }
}
