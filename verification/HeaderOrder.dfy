/** The order of a header: unless declarations need each other in full, each comes after all that its text uses. */
module HeaderOrder {
  import opened Options
  import opened HeaderSpec
  import opened HeaderLaws
  import opened HeaderRuns

  /** A rank for each name, and a bound for the ranks of the names in conditions. */
  datatype Order = Order(rank: string -> nat, conditions: nat)

  /** All declarations of the name have forward declarations. */
  ghost predicate IsForwardable(db: Database, name: string)
    requires Sound(db) && name in db.chains
  {
    forall q :: q in db.chains[name] ==> db.decls[q].zFwd.Some?
  }

  /** The use needs more than forward declarations. */
  ghost predicate NeedsText(db: Database, u: Use)
    requires Sound(db) && u.name in db.chains
  {
    u.full || !IsForwardable(db, u.name)
  }

  ghost predicate IsLowCondition(db: Database, o: Order, zIf: Option<string>) {
    zIf.Some? ==> forall u :: u in UsesOf(db, zIf.value) && u.name in db.chains ==> o.rank(u.name) < o.conditions
  }

  /** What a text needs in full has a lower rank than what it declares, but for the name that it declares itself, and
      conditions use low names only. */
  ghost predicate Acyclic(db: Database, o: Order)
    requires Sound(db)
  {
    forall d :: d in db.decls ==>
      && (d.zDecl.Some? ==>
            forall u :: u in UsesOf(db, Searched(d)) && u.name in db.chains && u.name != d.name && NeedsText(db, u) ==>
              o.rank(u.name) < o.rank(d.name))
      && IsLowCondition(db, o, d.zIf)
      && forall inc :: inc in d.includes ==> IsLowCondition(db, o, inc.zIf)
  }

  ghost predicate Ordered(db: Database, o: Order) {
    Sound(db) && Indexed(db) && Acyclic(db, o)
  }

  /** A declaration that no condition depends on. */
  ghost predicate IsHigh(db: Database, o: Order, p: nat) {
    p < |db.decls| && o.rank(db.decls[p].name) >= o.conditions
  }

  ghost predicate Named(db: Database, ps: seq<nat>, name: string)
    requires Chain(db, ps)
  {
    forall k :: 0 <= k < |ps| ==> db.decls[ps[k]].name == name
  }

  // What lower declarations call for never gives out a higher one.

  ghost predicate AreLow(db: Database, o: Order, uses: seq<Use>, p: nat)
    requires Sound(db) && p < |db.decls|
  {
    forall u :: u in uses && u.name in db.chains && NeedsText(db, u) ==> o.rank(u.name) < o.rank(db.decls[p].name)
  }

  ghost predicate AreLowConditions(db: Database, o: Order, list: seq<Include>) {
    forall k :: 0 <= k < |list| ==> IsLowCondition(db, o, list[k].zIf)
  }

  /** The text is not given out. */
  ghost predicate Spares(st: State, st': State, p: nat) {
    Given(st', p) == Given(st, p)
  }

  lemma {:induction false} ChangeIfContextSpares(db: Database, o: Order, st: State, zIf: Option<string>, p: nat)
    requires Ordered(db, o) && IsHigh(db, o, p) && IsLowCondition(db, o, zIf)
    ensures Spares(st, ChangeIfContext(db, st, zIf), p)
    decreases Left(db, st), 6
  {
    hide Count;
    hide UsesOf;
    hide Left;
    PutGives(db, st, EndIf, p);
    if zIf.Some? && st.zIf != zIf {
      var st1 := CloseIf(st);
      LeftShrinks(db, st, st1);
      var st2 := ScanText(db, st1, UsesOf(db, zIf.value));
      ScanTextSpares(db, o, st1, UsesOf(db, zIf.value), p);
      PutGives(db, st2, EndIf, p);
      PutGives(db, CloseIf(st2), If(zIf.value), p);
    }
  }

  lemma {:induction false} ScanTextSpares(db: Database, o: Order, st: State, uses: seq<Use>, p: nat)
    requires Ordered(db, o) && IsHigh(db, o, p) && AreLow(db, o, uses, p)
    ensures Spares(st, ScanText(db, st, uses), p)
    decreases Left(db, st), 5, |uses|
  {
    hide Count;
    hide Acyclic;
    if uses != [] {
      assert AreLow(db, o, uses[1..], p);
      if uses[0].name !in db.chains {
        ScanTextSpares(db, o, st, uses[1..], p);
      } else {
        var ps := db.chains[uses[0].name];
        var st1 := DeclareObject(db, st, ps, uses[0].full);
        DeclareObjectSpares(db, o, st, ps, uses[0].full, uses[0].name, p);
        LeftShrinks(db, st, st1);
        ScanTextSpares(db, o, st1, uses[1..], p);
      }
    }
  }

  lemma {:induction false} AddIncludesSpares(db: Database, o: Order, st: State, list: seq<Include>, p: nat)
    requires Ordered(db, o) && IsHigh(db, o, p) && Labeled(db, list) && AreLowConditions(db, o, list)
    ensures Spares(st, AddIncludes(db, st, list), p)
    decreases Left(db, st), 1, |list|
  {
    hide Count;
    hide Acyclic;
    hide IsLowCondition;
    if list != [] {
      AddIncludesSpares(db, o, st, list[1..], p);
      var st1 := AddIncludes(db, st, list[1..]);
      LeftShrinks(db, st, st1);
      if list[0].tag !in st1.table {
        var st2 := st1.(table := st1.table + {list[0].tag});
        LeftShrinks(db, st1, st2);
        ChangeIfContextSpares(db, o, st2, list[0].zIf, p);
        PutGives(db, ChangeIfContext(db, st2, list[0].zIf), IncludeLine(list[0]), p);
      }
    }
  }

  lemma DeclConditions(db: Database, o: Order, q: nat)
    requires Ordered(db, o) && q < |db.decls|
    ensures IsLowCondition(db, o, db.decls[q].zIf) && AreLowConditions(db, o, db.decls[q].includes)
    ensures Labeled(db, db.decls[q].includes)
  {
    hide IsLowCondition;
    assert db.decls[q] in db.decls;
  }

  lemma {:induction false} ForwardsSpares(db: Database, o: Order, st: State, ps: seq<nat>, doneTypedef: bool, p: nat)
    requires Ordered(db, o) && IsHigh(db, o, p) && Chain(db, ps)
    ensures Spares(st, Forwards(db, st, ps, doneTypedef).0, p)
    decreases Left(db, st), 2, |ps|
  {
    hide Count;
    hide IsLowCondition;
    if ps != [] {
      var d := db.decls[ps[0]];
      assert d in db.decls;
      if d.zFwd.None? || ps[0] in st.forward {
        ForwardsSpares(db, o, st, ps[1..], doneTypedef, p);
      } else {
        var st1 := st.(forward := st.forward + {ps[0]});
        LeftShrinks(db, st, st1);
        if IsForwardTypedef(d) && doneTypedef {
          ForwardsSpares(db, o, st1, ps[1..], true, p);
        } else {
          var st2 := ChangeIfContext(db, st1, d.zIf).Put(Forward(ps[0]));
          ChangeIfContextSpares(db, o, st1, d.zIf, p);
          PutGives(db, ChangeIfContext(db, st1, d.zIf), Forward(ps[0]), p);
          LeftShrinks(db, st1, st2);
          ForwardsSpares(db, o, st2, ps[1..], doneTypedef || IsForwardTypedef(d), p);
        }
      }
    }
  }

  lemma {:induction false} ChainIncludesSpares(db: Database, o: Order, st: State, ps: seq<nat>, p: nat)
    requires Ordered(db, o) && IsHigh(db, o, p) && Chain(db, ps)
    ensures Spares(st, ChainIncludes(db, st, ps), p)
    decreases Left(db, st), 2, |ps|
  {
    hide Given;
    hide Acyclic;
    hide AddIncludes;
    hide Distinct;
    if ps != [] {
      ChainTail(db, ps);
      DeclConditions(db, o, ps[0]);
      AddIncludesSpares(db, o, st, db.decls[ps[0]].includes, p);
      var st1 := AddIncludes(db, st, db.decls[ps[0]].includes);
      LeftShrinks(db, st, st1);
      ChainIncludesSpares(db, o, st1, ps[1..], p);
    }
  }

  /** A chain of a lower name. */
  ghost predicate IsLower(db: Database, o: Order, ps: seq<nat>, name: string, p: nat)
    requires p < |db.decls|
  {
    Chain(db, ps) && Named(db, ps, name) && o.rank(name) < o.rank(db.decls[p].name)
  }

  lemma {:induction false} ScanDeclSpares(db: Database, o: Order, st: State, q: nat, p: nat)
    requires Ordered(db, o) && IsHigh(db, o, p) && q < |db.decls|
    requires o.rank(db.decls[q].name) < o.rank(db.decls[p].name)
    ensures Spares(st, ScanDecl(db, st, q), p)
    decreases Left(db, st), 7, 0
  {
    hide Count;
    hide IsLowCondition;
    hide UsesOf;
    var d := db.decls[q];
    assert d in db.decls;
    if q in st.flag && d.zDecl.Some? {
      ScanTextSpares(db, o, st, UsesOf(db, Searched(d)), p);
    }
  }

  lemma {:induction false} ScansSpares(db: Database, o: Order, st: State, ps: seq<nat>, name: string, p: nat)
    requires Ordered(db, o) && IsHigh(db, o, p) && IsLower(db, o, ps, name, p)
    ensures Spares(st, Scans(db, st, ps), p)
    decreases Left(db, st), 8, |ps|
  {
    hide Given;
    hide Acyclic;
    hide ScanDecl;
    hide Distinct;
    if ps != [] {
      ChainTail(db, ps);
      ScanDeclSpares(db, o, st, ps[0], p);
      var st1 := ScanDecl(db, st, ps[0]);
      LeftShrinks(db, st, st1);
      ScansSpares(db, o, st1, ps[1..], name, p);
    }
  }

  lemma {:induction false} EmitSpares(db: Database, o: Order, st: State, q: nat, p: nat)
    requires Ordered(db, o) && IsHigh(db, o, p) && q < |db.decls| && q != p
    ensures Spares(st, Emit(db, st, q), p)
    decreases Left(db, st), 7, 0
  {
    hide Count;
    hide IsLowCondition;
    assert db.decls[q] in db.decls;
    ChangeIfContextSpares(db, o, st, db.decls[q].zIf, p);
    PutGives(db, ChangeIfContext(db, st, db.decls[q].zIf), Full(q), p);
  }

  lemma {:induction false} EmitsSpares(db: Database, o: Order, st: State, ps: seq<nat>, doneTypedef: bool, p: nat)
    requires Ordered(db, o) && IsHigh(db, o, p) && Chain(db, ps) && p !in ps
    ensures Spares(st, Emits(db, st, ps, doneTypedef).0, p)
    decreases Left(db, st), 8, |ps|
  {
    hide Count;
    hide Acyclic;
    hide Emit;
    if ps != [] {
      var d := db.decls[ps[0]];
      if ps[0] !in st.flag || d.isTypedef || (d.isEnum && doneTypedef) {
        EmitsSpares(db, o, st, ps[1..], doneTypedef, p);
      } else {
        var st1 := Emit(db, st, ps[0]);
        EmitSpares(db, o, st, ps[0], p);
        var st2 := st1.(flag := st1.flag - {ps[0]});
        LeftShrinks(db, st, st2);
        EmitsSpares(db, o, st2, ps[1..], doneTypedef || d.isEnum, p);
      }
    }
  }

  lemma {:induction false} EmitTypedefSpares(db: Database, o: Order, st: State, ps: seq<nat>, p: nat)
    requires Ordered(db, o) && IsHigh(db, o, p) && Chain(db, ps) && p !in ps
    ensures Spares(st, EmitTypedef(db, st, ps), p)
    decreases Left(db, st), 8, |ps|
  {
    hide Count;
    hide Acyclic;
    hide Emit;
    if ps != [] {
      if ps[0] in st.flag {
        EmitSpares(db, o, st, ps[0], p);
      } else {
        EmitTypedefSpares(db, o, st, ps[1..], p);
      }
    }
  }

  lemma {:induction false} EmitDueSpares(db: Database, o: Order, st: State, ps: seq<nat>, doneTypedef: bool,
                                         name: string, p: nat)
    requires Ordered(db, o) && IsHigh(db, o, p) && IsLower(db, o, ps, name, p)
    ensures Spares(st, EmitDue(db, st, ps, doneTypedef), p)
    decreases Left(db, st), 9
  {
    hide Count;
    hide Acyclic;
    hide Scans;
    hide Emits;
    hide EmitTypedef;
    var st1 := Scans(db, st, ps);
    ScansSpares(db, o, st, ps, name, p);
    LeftShrinks(db, st, st1);
    EmitsSpares(db, o, st1, ps, doneTypedef, p);
    var (st2, done) := Emits(db, st1, ps, doneTypedef);
    LeftShrinks(db, st1, st2);
    EmitTypedefSpares(db, o, st2, ps, p);
  }

  lemma {:induction false} GiveDueSpares(db: Database, o: Order, st: State, ps: seq<nat>, full: bool,
                                         doneTypedef: bool, name: string, p: nat)
    requires Ordered(db, o) && IsHigh(db, o, p) && IsLower(db, o, ps, name, p)
    ensures Spares(st, GiveDue(db, st, ps, full, doneTypedef), p)
    decreases Left(db, st), 2
  {
    hide Count;
    hide Acyclic;
    hide MarkDue;
    hide EmitDue;
    var st1 := MarkDue(db, st, ps, full);
    MarkDueSpares(db, st, ps, full, p);
    if q :| q in ps && q in st1.flag {
      MarkedWereDue(db, st, ps, full, q);
      LeftShrinks(db, st, st1);
      EmitDueSpares(db, o, st1, ps, doneTypedef, name, p);
    }
  }

  lemma MarkDueSpares(db: Database, st: State, ps: seq<nat>, full: bool, p: nat)
    requires Chain(db, ps) && p !in ps
    ensures Spares(st, MarkDue(db, st, ps, full), p)
  {
  }

  lemma {:induction false} DeclareObjectSpares(db: Database, o: Order, st: State, ps: seq<nat>, full: bool,
                                               name: string, p: nat)
    requires Ordered(db, o) && IsHigh(db, o, p) && Chain(db, ps)
    requires IsLower(db, o, ps, name, p) || (!full && forall q :: q in ps ==> db.decls[q].zFwd.Some?)
    ensures Spares(st, DeclareObject(db, st, ps, full), p)
    decreases Left(db, st), 3
  {
    hide Given;
    hide Acyclic;
    hide Forwards;
    hide ChainIncludes;
    hide GiveDue;
    hide IsLower;
    var (st1, doneTypedef) := Forwards(db, st, ps, false);
    ForwardsSpares(db, o, st, ps, false, p);
    ForwardsAll(db, st, ps, false);
    LeftShrinks(db, st, st1);
    if !IsSuitable(st1, ps, full) {
      var st2 := ChainIncludes(db, st1, ps);
      ChainIncludesSpares(db, o, st1, ps, p);
      LeftShrinks(db, st1, st2);
      GiveDueSpares(db, o, st2, ps, full, doneTypedef, name, p);
    }
  }
}
