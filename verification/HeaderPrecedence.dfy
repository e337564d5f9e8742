/** The order of a header, for two of its lines: a text, and a declaration that the text needs. */
module HeaderPrecedence {
  import opened Options
  import opened HeaderSpec
  import opened HeaderLaws
  import opened HeaderRuns
  import opened HeaderOrder

  /** The text of `p`, which no condition depends on, uses what `x` declares, and so that `x` is needed. */
  ghost predicate Needs(db: Database, o: Order, p: nat, x: Item)
    requires Sound(db)
  {
    && IsHigh(db, o, p) && db.decls[p].zDecl.Some? && IsTame(db.decls[p])
    && (x.Forward? || x.Full?) && x.p < |db.decls| && (x.Full? ==> db.decls[x.p].name != db.decls[p].name)
    && exists u :: u in UsesOf(db, Searched(db.decls[p])) && IsUseOf(db, u, x)
  }

  /** Providing for the use gives `x`. */
  predicate IsUseOf(db: Database, u: Use, x: Item)
    requires (x.Forward? || x.Full?) && x.p < |db.decls|
  {
    var d := db.decls[x.p];
    && u.name == d.name
    && (if x.Forward? then d.zFwd.Some? else d.zDecl.Some? && IsTame(d) && (u.full || d.zFwd.None?))
  }

  ghost predicate NoneAfter(out: seq<Item>, a: Item, x: Item) {
    forall j, k :: 0 <= j < k < |out| && out[j] == a ==> out[k] != x
  }

  /** No `x` is behind the text of `p`, nor will be. */
  ghost predicate InOrder(st: State, p: nat, x: Item) {
    (Given(st, p) > 0 ==> Has(st, x)) && NoneAfter(st.out, Full(p), x)
  }

  ghost predicate Setting(db: Database, o: Order, p: nat, x: Item) {
    Ordered(db, o) && Needs(db, o, p, x)
  }

  lemma NeededIsLower(db: Database, o: Order, p: nat, x: Item)
    requires Setting(db, o, p, x)
    ensures x != Full(p) && IsCounted(db, x) && IsCounted(db, Full(p))
    ensures x.Full? ==> o.rank(db.decls[x.p].name) < o.rank(db.decls[p].name)
  {
    hide UsesOf;
    hide IsLowCondition;
    var d := db.decls[p];
    assert d in db.decls;
    var u :| u in UsesOf(db, Searched(d)) && IsUseOf(db, u, x);
    if x.Full? {
      assert x.p in db.chains[u.name];
      assert NeedsText(db, u);
    }
  }

  lemma {:induction false} Occurs(out: seq<Item>, a: Item, j: nat)
    requires j < |out| && out[j] == a
    ensures Count(out, a) > 0
  {
    if j < |out| - 1 {
      Occurs(out[..|out| - 1], a, j);
    }
  }

  lemma PutInOrder(db: Database, st: State, item: Item, p: nat, x: Item)
    requires InOrder(st, p, x) && x != Full(p)
    requires item == Full(p) ==> Has(st, x)
    requires item == x ==> Given(st, p) == 0
    ensures InOrder(st.Put(item), p, x)
  {
    hide Count;
    PutGives(db, st, item, p);
    forall j | 0 <= j < |st.out|
      ensures st.out[j] == Full(p) ==> Given(st, p) > 0
    {
      if st.out[j] == Full(p) {
        Occurs(st.out, Full(p), j);
      }
    }
  }

  lemma {:induction false} ChangeIfContextSorts(db: Database, o: Order, st: State, zIf: Option<string>, p: nat, x: Item)
    requires Setting(db, o, p, x) && Proper(db, st) && InOrder(st, p, x)
    ensures InOrder(ChangeIfContext(db, st, zIf), p, x)
    decreases Left(db, st), 6
  {
    hide Proper;
    hide InOrder;
    hide Needs;
    hide Acyclic;
    NeededIsLower(db, o, p, x);
    PutInOrder(db, st, EndIf, p, x);
    CloseIfSorts(st, p, x);
    if zIf.Some? && st.zIf != zIf {
      var st1 := CloseIf(st);
      CloseIfKeeps(db, st, x);
      var st2 := ScanText(db, st1, UsesOf(db, zIf.value));
      ScanTextSorts(db, o, st1, UsesOf(db, zIf.value), p, x);
      PutInOrder(db, st2, EndIf, p, x);
      CloseIfSorts(st2, p, x);
      PutInOrder(db, CloseIf(st2), If(zIf.value), p, x);
      WithIfSorts(CloseIf(st2).Put(If(zIf.value)), zIf, p, x);
    }
  }

  lemma WithIfSorts(st: State, zIf: Option<string>, p: nat, x: Item)
    requires InOrder(st, p, x)
    ensures InOrder(st.(zIf := zIf), p, x)
  {
  }

  lemma CloseIfSorts(st: State, p: nat, x: Item)
    requires InOrder(st, p, x) && InOrder(st.Put(EndIf), p, x)
    ensures InOrder(CloseIf(st), p, x)
  {
  }

  lemma {:induction false} ScanTextSorts(db: Database, o: Order, st: State, uses: seq<Use>, p: nat, x: Item)
    requires Setting(db, o, p, x) && Proper(db, st) && InOrder(st, p, x)
    ensures InOrder(ScanText(db, st, uses), p, x)
    decreases Left(db, st), 5, |uses|
  {
    hide Proper;
    hide InOrder;
    hide Needs;
    hide Acyclic;
    if uses != [] {
      NeededIsLower(db, o, p, x);
      if uses[0].name !in db.chains {
        ScanTextSorts(db, o, st, uses[1..], p, x);
      } else {
        var ps := db.chains[uses[0].name];
        var st1 := DeclareObject(db, st, ps, uses[0].full);
        DeclareObjectKeeps(db, st, ps, uses[0].full, x);
        DeclareObjectSorts(db, o, st, ps, uses[0].full, uses[0].name, p, x);
        LeftShrinks(db, st, st1);
        ScanTextSorts(db, o, st1, uses[1..], p, x);
      }
    }
  }

  /** Putting things on record keeps the header in order. */
  lemma RecordSorts(db: Database, st: State, st1: State, p: nat, x: Item)
    requires InOrder(st, p, x) && Grows(st, st1) && st1.out == st.out && st1.zIf == st.zIf
    ensures InOrder(st1, p, x)
    ensures Proper(db, st) && st1.declared == st.declared
            && (forall q :: q in st1.forward && q !in st.forward ==> q < |db.decls| && db.decls[q].zFwd.Some?)
            ==> Proper(db, st1)
  {
    hide Count;
    hide WellPlaced;
    hide Context;
  }

  lemma {:induction false} AddIncludesSorts(db: Database, o: Order, st: State, list: seq<Include>, p: nat, x: Item)
    requires Setting(db, o, p, x) && Proper(db, st) && InOrder(st, p, x) && Labeled(db, list)
    ensures InOrder(AddIncludes(db, st, list), p, x)
    decreases Left(db, st), 1, |list|
  {
    hide Proper;
    hide InOrder;
    hide Needs;
    hide Acyclic;
    hide Keeps;
    if list != [] {
      NeededIsLower(db, o, p, x);
      AddIncludesSorts(db, o, st, list[1..], p, x);
      var st1 := AddIncludes(db, st, list[1..]);
      LeftShrinks(db, st, st1);
      if list[0].tag !in st1.table {
        AddIncludesProper(db, st, list[1..]);
        IncludeSorts(db, o, st1, list[0], p, x);
      }
    }
  }

  lemma AddIncludesProper(db: Database, st: State, list: seq<Include>)
    requires Sound(db) && Labeled(db, list) && Proper(db, st)
    ensures Proper(db, AddIncludes(db, st, list))
  {
    AddIncludesKeeps(db, st, list, Forward(0));
  }

  lemma {:induction false} IncludeSorts(db: Database, o: Order, st: State, inc: Include, p: nat, x: Item)
    requires Setting(db, o, p, x) && Proper(db, st) && InOrder(st, p, x)
    requires inc.tag in Labels(db) && inc.tag !in st.table
    ensures InOrder(ChangeIfContext(db, st.(table := st.table + {inc.tag}), inc.zIf).Put(IncludeLine(inc)), p, x)
    decreases Left(db, st), 0
  {
    hide Proper;
    hide InOrder;
    hide Acyclic;
    NeededIsLower(db, o, p, x);
    var st1 := st.(table := st.table + {inc.tag});
    LeftShrinks(db, st, st1);
    RecordSorts(db, st, st1, p, x);
    ChangeIfContextSorts(db, o, st1, inc.zIf, p, x);
    PutInOrder(db, ChangeIfContext(db, st1, inc.zIf), IncludeLine(inc), p, x);
  }

  lemma {:induction false} ForwardsSorts(db: Database, o: Order, st: State, ps: seq<nat>, doneTypedef: bool,
                                         p: nat, x: Item)
    requires Setting(db, o, p, x) && Proper(db, st) && InOrder(st, p, x) && Chain(db, ps)
    ensures InOrder(Forwards(db, st, ps, doneTypedef).0, p, x)
    decreases Left(db, st), 2, |ps|
  {
    hide Proper;
    hide InOrder;
    hide Needs;
    hide Acyclic;
    if ps != [] {
      NeededIsLower(db, o, p, x);
      var d := db.decls[ps[0]];
      if d.zFwd.None? || ps[0] in st.forward {
        ForwardsSorts(db, o, st, ps[1..], doneTypedef, p, x);
      } else {
        var st1 := st.(forward := st.forward + {ps[0]});
        LeftShrinks(db, st, st1);
        if IsForwardTypedef(d) && doneTypedef {
          RecordSorts(db, st, st1, p, x);
          ForwardsSorts(db, o, st1, ps[1..], true, p, x);
        } else {
          ForwardSorts(db, o, st, ps[0], p, x);
          ForwardKeeps(db, st, ps[0], x);
          var st2 := ChangeIfContext(db, st1, d.zIf).Put(Forward(ps[0]));
          LeftShrinks(db, st1, st2);
          ForwardsSorts(db, o, st2, ps[1..], doneTypedef || IsForwardTypedef(d), p, x);
        }
      }
    }
  }

  lemma {:induction false} ForwardSorts(db: Database, o: Order, st: State, q: nat, p: nat, x: Item)
    requires Setting(db, o, p, x) && Proper(db, st) && InOrder(st, p, x)
    requires q < |db.decls| && db.decls[q].zFwd.Some? && q !in st.forward
    ensures InOrder(ChangeIfContext(db, st.(forward := st.forward + {q}), db.decls[q].zIf).Put(Forward(q)), p, x)
    decreases Left(db, st), 0
  {
    hide Proper;
    hide Acyclic;
    hide NoneAfter;
    hide Given;
    NeededIsLower(db, o, p, x);
    var st1 := st.(forward := st.forward + {q});
    LeftShrinks(db, st, st1);
    RecordSorts(db, st, st1, p, x);
    ChangeIfContextSorts(db, o, st1, db.decls[q].zIf, p, x);
    DeclConditions(db, o, q);
    ChangeIfContextSpares(db, o, st1, db.decls[q].zIf, p);
    SameGiven(st, st1, p);
    PutInOrder(db, ChangeIfContext(db, st1, db.decls[q].zIf), Forward(q), p, x);
  }

  lemma {:induction false} ChainIncludesSorts(db: Database, o: Order, st: State, ps: seq<nat>, p: nat, x: Item)
    requires Setting(db, o, p, x) && Proper(db, st) && InOrder(st, p, x) && Chain(db, ps)
    ensures InOrder(ChainIncludes(db, st, ps), p, x)
    decreases Left(db, st), 2, |ps|
  {
    hide Proper;
    hide InOrder;
    hide Needs;
    hide Acyclic;
    hide AddIncludes;
    if ps != [] {
      AddIncludesSorts(db, o, st, db.decls[ps[0]].includes, p, x);
      AddIncludesProper(db, st, db.decls[ps[0]].includes);
      var st1 := AddIncludes(db, st, db.decls[ps[0]].includes);
      LeftShrinks(db, st, st1);
      ChainIncludesSorts(db, o, st1, ps[1..], p, x);
    }
  }

  lemma {:induction false} ScanDeclSorts(db: Database, o: Order, st: State, q: nat, p: nat, x: Item)
    requires Setting(db, o, p, x) && Proper(db, st) && InOrder(st, p, x) && q < |db.decls|
    ensures InOrder(ScanDecl(db, st, q), p, x)
    ensures Proper(db, ScanDecl(db, st, q))
    ensures q == p && p in st.flag ==> Has(ScanDecl(db, st, q), x)
    decreases Left(db, st), 7, 0
  {
    hide Proper;
    hide InOrder;
    hide Acyclic;
    hide UsesOf;
    hide ScanText;
    ScanDeclKeeps(db, st, q, Forward(0));
    var d := db.decls[q];
    if q in st.flag && d.zDecl.Some? {
      var uses := UsesOf(db, Searched(d));
      ScanTextSorts(db, o, st, uses, p, x);
      if q == p {
        var u :| u in uses && IsUseOf(db, u, x);
        var k :| 0 <= k < |uses| && uses[k] == u;
        ScanProvides(db, st, uses, k);
        assert x.p in db.chains[u.name];
      }
    }
  }

  lemma {:induction false} ScansSorts(db: Database, o: Order, st: State, ps: seq<nat>, p: nat, x: Item)
    requires Setting(db, o, p, x) && Proper(db, st) && InOrder(st, p, x) && Chain(db, ps)
    requires p in ps ==> IsStuck(db, st, p)
    ensures InOrder(Scans(db, st, ps), p, x)
    ensures p in ps && p in Scans(db, st, ps).flag ==> Has(Scans(db, st, ps), x)
    decreases Left(db, st), 8, |ps|
  {
    hide Proper;
    hide InOrder;
    hide Needs;
    hide Acyclic;
    hide ScanDecl;
    hide Distinct;
    if ps != [] {
      NeededIsLower(db, o, p, x);
      ChainTail(db, ps);
      var st1 := ScanDecl(db, st, ps[0]);
      ScanDeclSorts(db, o, st, ps[0], p, x);
      ScanDeclKeeps(db, st, ps[0], Full(p));
      LeftShrinks(db, st, st1);
      ScansKeeps(db, st1, ps[1..], Full(p));
      ScansSorts(db, o, st1, ps[1..], p, x);
    }
  }

  lemma {:induction false} EmitSorts(db: Database, o: Order, st: State, q: nat, p: nat, x: Item)
    requires Setting(db, o, p, x) && Proper(db, st) && InOrder(st, p, x) && q < |db.decls|
    requires q == p ==> Has(st, x)
    requires x == Full(q) ==> Given(st, p) == 0
    ensures InOrder(Emit(db, st, q), p, x)
    decreases Left(db, st), 7, 0
  {
    hide Proper;
    hide InOrder;
    hide Given;
    hide Acyclic;
    NeededIsLower(db, o, p, x);
    DeclConditions(db, o, q);
    var st1 := ChangeIfContext(db, st, db.decls[q].zIf);
    ChangeIfContextSorts(db, o, st, db.decls[q].zIf, p, x);
    ChangeIfContextSpares(db, o, st, db.decls[q].zIf, p);
    PutInOrder(db, st1, Full(q), p, x);
  }

  /** What is marked of a chain may be given out: the text of `p` if `x` is on record, and `x` if the text is not in the
      header yet. */
  ghost predicate MayEmit(db: Database, st: State, ps: seq<nat>, p: nat, x: Item)
    requires p < |db.decls| && (x.Full? ==> x.p < |db.decls|)
  {
    && (p in ps ==> IsStuck(db, st, p) && (p in st.flag ==> Has(st, x)))
    && (x.Full? && x.p in ps ==> IsStuck(db, st, x.p) && (x.p in st.flag ==> Given(st, p) == 0))
  }

  lemma {:induction false} EmitsSorts(db: Database, o: Order, st: State, ps: seq<nat>, doneTypedef: bool,
                                      name: string, p: nat, x: Item)
    requires Setting(db, o, p, x) && Proper(db, st) && InOrder(st, p, x)
    requires Chain(db, ps) && Named(db, ps, name) && MayEmit(db, st, ps, p, x)
    ensures InOrder(Emits(db, st, ps, doneTypedef).0, p, x)
    decreases Left(db, st), 8, |ps|
  {
    hide Proper;
    hide InOrder;
    hide Given;
    hide Acyclic;
    hide Distinct;
    hide Emit;
    if ps != [] {
      ChainTail(db, ps);
      NeededIsLower(db, o, p, x);
      var d := db.decls[ps[0]];
      if ps[0] !in st.flag || d.isTypedef || (d.isEnum && doneTypedef) {
        EmitsSorts(db, o, st, ps[1..], doneTypedef, name, p, x);
      } else {
        var st1 := Emit(db, st, ps[0]);
        EmitSorts(db, o, st, ps[0], p, x);
        var st2 := st1.(flag := st1.flag - {ps[0]});
        EmitLeaves(db, o, st, ps, name, p, x);
        LeftShrinks(db, st, st2);
        EmitsSorts(db, o, st2, ps[1..], doneTypedef || d.isEnum, name, p, x);
      }
    }
  }

  lemma EmitLeaves(db: Database, o: Order, st: State, ps: seq<nat>, name: string, p: nat, x: Item)
    requires Setting(db, o, p, x) && Proper(db, st) && ps != [] && Chain(db, ps)
    requires InOrder(Emit(db, st, ps[0]), p, x)
    requires Named(db, ps, name) && MayEmit(db, st, ps, p, x)
    ensures var st1 := Emit(db, st, ps[0]);
            var st2 := st1.(flag := st1.flag - {ps[0]});
            Proper(db, st2) && InOrder(st2, p, x) && MayEmit(db, st2, ps[1..], p, x)
  {
    hide Proper;
    hide Given;
    hide NoneAfter;
    hide Acyclic;
    hide Distinct;
    hide Emit;
    NeededIsLower(db, o, p, x);
    ChainTail(db, ps);
    var st1 := Emit(db, st, ps[0]);
    var st2 := st1.(flag := st1.flag - {ps[0]});
    EmitProper(db, st, ps[0]);
    RecordSorts(db, st1, st2, p, x);
    SameGiven(st1, st2, p);
    if p in ps[1..] {
      EmitKeeps(db, st, ps[0], Full(p));
    }
    if x.Full? && x.p in ps[1..] {
      EmitKeeps(db, st, ps[0], x);
      EmitSpares(db, o, st, ps[0], p);
    }
  }

  lemma EmitProper(db: Database, st: State, q: nat)
    requires Sound(db) && q < |db.decls| && Proper(db, st)
    ensures Proper(db, Emit(db, st, q))
  {
    EmitKeeps(db, st, q, Forward(0));
  }

  lemma {:induction false} EmitTypedefSorts(db: Database, o: Order, st: State, ps: seq<nat>, p: nat, x: Item)
    requires Setting(db, o, p, x) && Proper(db, st) && InOrder(st, p, x)
    requires Chain(db, ps) && MayEmit(db, st, ps, p, x)
    ensures InOrder(EmitTypedef(db, st, ps), p, x)
    decreases Left(db, st), 8, |ps|
  {
    hide Proper;
    hide InOrder;
    hide Given;
    hide Acyclic;
    hide Emit;
    if ps != [] {
      NeededIsLower(db, o, p, x);
      if ps[0] in st.flag {
        EmitSorts(db, o, st, ps[0], p, x);
      } else {
        EmitTypedefSorts(db, o, st, ps[1..], p, x);
      }
    }
  }

  /** What is marked of a chain is declared, and has a text. */
  ghost predicate AreMarked(db: Database, st: State, ps: seq<nat>)
    requires Chain(db, ps)
  {
    forall q :: q in ps && q in st.flag ==> q in st.declared && db.decls[q].zDecl.Some?
  }

  lemma {:induction false} EmitDueSorts(db: Database, o: Order, st: State, ps: seq<nat>, doneTypedef: bool,
                                        name: string, p: nat, x: Item)
    requires Setting(db, o, p, x) && Proper(db, st) && InOrder(st, p, x)
    requires Chain(db, ps) && Named(db, ps, name) && AreMarked(db, st, ps)
    requires p in ps ==> IsStuck(db, st, p)
    requires x.Full? && x.p in ps ==> IsStuck(db, st, x.p) && (x.p in st.flag ==> Given(st, p) == 0)
    ensures InOrder(EmitDue(db, st, ps, doneTypedef), p, x)
    decreases Left(db, st), 9
  {
    hide Proper;
    hide InOrder;
    hide Given;
    hide Acyclic;
    hide Scans;
    hide Emits;
    hide EmitTypedef;
    var st1 := Scans(db, st, ps);
    ScansSorts(db, o, st, ps, p, x);
    LeftShrinks(db, st, st1);
    AfterScans(db, o, st, ps, name, p, x);
    EmitsSorts(db, o, st1, ps, doneTypedef, name, p, x);
    var (st2, done) := Emits(db, st1, ps, doneTypedef);
    LeftShrinks(db, st1, st2);
    AfterEmits(db, o, st1, ps, doneTypedef, name, p, x);
    if !done {
      EmitTypedefSorts(db, o, st2, ps, p, x);
    }
  }

  lemma AfterScans(db: Database, o: Order, st: State, ps: seq<nat>, name: string, p: nat, x: Item)
    requires Setting(db, o, p, x) && Proper(db, st)
    requires Chain(db, ps) && Named(db, ps, name) && AreMarked(db, st, ps)
    requires p in ps ==> IsStuck(db, st, p)
    requires p in ps && p in Scans(db, st, ps).flag ==> Has(Scans(db, st, ps), x)
    requires x.Full? && x.p in ps ==> IsStuck(db, st, x.p) && (x.p in st.flag ==> Given(st, p) == 0)
    ensures var st1 := Scans(db, st, ps);
            && Proper(db, st1) && MayEmit(db, st1, ps, p, x)
            && (IsOwed(st1, ps, x) ==> x.p in st1.declared && db.decls[x.p].zDecl.Some?)
            && (IsOwed(st1, ps, Full(p)) ==> p in st1.declared && db.decls[p].zDecl.Some?)
  {
    hide Proper;
    hide Given;
    hide Acyclic;
    hide Scans;
    hide Distinct;
    NeededIsLower(db, o, p, x);
    ScansKeeps(db, st, ps, x);
    ScansKeeps(db, st, ps, Full(p));
    if x.Full? && x.p in ps {
      ScansSpares(db, o, st, ps, name, p);
    }
  }

  lemma AfterEmits(db: Database, o: Order, st: State, ps: seq<nat>, doneTypedef: bool, name: string, p: nat, x: Item)
    requires Setting(db, o, p, x) && Proper(db, st)
    requires Chain(db, ps) && Named(db, ps, name) && MayEmit(db, st, ps, p, x)
    requires IsOwed(st, ps, x) ==> x.p in st.declared && db.decls[x.p].zDecl.Some?
    requires IsOwed(st, ps, Full(p)) ==> p in st.declared && db.decls[p].zDecl.Some?
    ensures var st1 := Emits(db, st, ps, doneTypedef).0;
            Proper(db, st1) && MayEmit(db, st1, ps, p, x)
  {
    hide Proper;
    hide Given;
    hide Acyclic;
    hide Emits;
    hide Distinct;
    NeededIsLower(db, o, p, x);
    EmitsKeeps(db, st, ps, doneTypedef, x);
    EmitsKeeps(db, st, ps, doneTypedef, Full(p));
    if x.Full? && x.p in ps {
      EmitsSpares(db, o, st, ps, doneTypedef, p);
    }
  }

  lemma {:induction false} GiveDueSorts(db: Database, o: Order, st: State, ps: seq<nat>, full: bool,
                                        doneTypedef: bool, name: string, p: nat, x: Item)
    requires Setting(db, o, p, x) && Proper(db, st) && InOrder(st, p, x)
    requires Chain(db, ps) && Named(db, ps, name)
    ensures InOrder(GiveDue(db, st, ps, full, doneTypedef), p, x)
    decreases Left(db, st), 2
  {
    hide Proper;
    hide Given;
    hide NoneAfter;
    hide Acyclic;
    hide EmitDue;
    hide MarkDue;
    hide Distinct;
    hide InOrder;
    hide Needs;
    hide IsStuck;
    hide AreMarked;
    hide Left;
    NeededIsLower(db, o, p, x);
    var st1 := MarkDue(db, st, ps, full);
    AfterMarkDue(db, o, st, ps, full, p, x);
    if q :| q in ps && q in st1.flag {
      MarkedWereDue(db, st, ps, full, q);
      LeftShrinks(db, st, st1);
      EmitDueSorts(db, o, st1, ps, doneTypedef, name, p, x);
    }
  }

  lemma AfterMarkDue(db: Database, o: Order, st: State, ps: seq<nat>, full: bool, p: nat, x: Item)
    requires Setting(db, o, p, x) && Proper(db, st) && InOrder(st, p, x) && Chain(db, ps)
    ensures var st1 := MarkDue(db, st, ps, full);
            && Proper(db, st1) && InOrder(st1, p, x) && AreMarked(db, st1, ps)
            && (p in ps ==> IsStuck(db, st1, p))
            && (x.Full? && x.p in ps ==> IsStuck(db, st1, x.p) && (x.p in st1.flag ==> Given(st1, p) == 0))
  {
    hide Proper;
    hide Given;
    hide NoneAfter;
    hide Acyclic;
    hide Distinct;
    NeededIsLower(db, o, p, x);
    var st1 := MarkDue(db, st, ps, full);
    MarkDueKeeps(db, st, ps, full, x);
    MarkDueKeeps(db, st, ps, full, Full(p));
    SameGiven(st, st1, p);
  }

  lemma {:induction false} DeclareObjectSorts(db: Database, o: Order, st: State, ps: seq<nat>, full: bool,
                                              name: string, p: nat, x: Item)
    requires Setting(db, o, p, x) && Proper(db, st) && InOrder(st, p, x)
    requires Chain(db, ps) && Named(db, ps, name)
    ensures InOrder(DeclareObject(db, st, ps, full), p, x)
    decreases Left(db, st), 3
  {
    hide Proper;
    hide InOrder;
    hide Needs;
    hide Acyclic;
    hide Forwards;
    hide ChainIncludes;
    hide GiveDue;
    NeededIsLower(db, o, p, x);
    var (st1, doneTypedef) := Forwards(db, st, ps, false);
    ForwardsKeeps(db, st, ps, false, x);
    ForwardsSorts(db, o, st, ps, false, p, x);
    LeftShrinks(db, st, st1);
    if !IsSuitable(st1, ps, full) {
      var st2 := ChainIncludes(db, st1, ps);
      ChainIncludesKeeps(db, st1, ps, x);
      ChainIncludesSorts(db, o, st1, ps, p, x);
      LeftShrinks(db, st1, st2);
      GiveDueSorts(db, o, st2, ps, full, doneTypedef, name, p, x);
    }
  }

  // Whole headers.

  lemma DeclareKeepsOrder(db: Database, o: Order, st: State, ps: seq<nat>, name: string, p: nat, x: Item)
    requires Setting(db, o, p, x) && Proper(db, st) && InOrder(st, p, x) && Chain(db, ps) && Named(db, ps, name)
    ensures Proper(db, DeclareObject(db, st, ps, true)) && InOrder(DeclareObject(db, st, ps, true), p, x)
  {
    hide Proper;
    hide InOrder;
    hide Needs;
    hide Acyclic;
    hide DeclareObject;
    hide Distinct;
    hide Named;
    NeededIsLower(db, o, p, x);
    DeclareObjectKeeps(db, st, ps, true, x);
    DeclareObjectSorts(db, o, st, ps, true, name, p, x);
  }

  lemma RestIsNamed(db: Database, k: nat)
    requires Sound(db) && Indexed(db) && k < |db.decls|
    ensures Chain(db, ChainFrom(db, k)) && Named(db, ChainFrom(db, k), db.decls[k].name)
  {
  }

  lemma {:induction false} CompleteOnceSorts(db: Database, o: Order, st: State, k: nat, p: nat, x: Item)
    requires Setting(db, o, p, x) && Proper(db, st) && InOrder(st, p, x) && k <= |db.decls|
    ensures InOrder(CompleteOnce(db, st, k).st, p, x)
    decreases |db.decls| - k
  {
    hide Proper;
    hide InOrder;
    hide Needs;
    hide Acyclic;
    hide DeclareObject;
    hide Left;
    hide Distinct;
    hide Sound;
    hide Indexed;
    hide Chain;
    hide Grows;
    hide Named;
    if k < |db.decls| {
      if k !in st.forward || k in st.declared {
        CompleteOnceSorts(db, o, st, k + 1, p, x);
      } else {
        var ps := ChainFrom(db, k);
        RestIsNamed(db, k);
        DeclareKeepsOrder(db, o, st, ps, db.decls[k].name, p, x);
        CompleteOnceSorts(db, o, DeclareObject(db, st, ps, true), k + 1, p, x);
      }
    }
  }

  lemma {:induction false} CompleteSorts(db: Database, o: Order, st: State, p: nat, x: Item)
    requires Setting(db, o, p, x) && Proper(db, st) && InOrder(st, p, x)
    ensures InOrder(Complete(db, st).st, p, x)
    decreases Left(db, st)
  {
    hide Proper;
    hide InOrder;
    hide Needs;
    hide Acyclic;
    hide CompleteOnce;
    NeededIsLower(db, o, p, x);
    var r := CompleteOnce(db, st, 0);
    CompleteOnceSorts(db, o, st, 0, p, x);
    CompleteOnceKeeps(db, st, 0, x);
    if r.progress && !r.failed {
      CompleteSorts(db, o, r.st, p, x);
    }
  }

  /** Unless declarations of different names need each other in full: where a declaration's text is, what it needs is on
      record, and is not declared behind that text, neither in full nor forward. */
  lemma HeaderInOrder(db: Database, o: Order, file: string, marks: set<nat>, names: seq<string>, p: nat, x: Item)
    requires Setting(db, o, p, x)
    ensures var st := MakeHeader(db, file, marks, names).st;
            (Given(st, p) > 0 ==> Has(st, x)) && NoneAfter(st.out, Full(p), x)
  {
    hide Needs;
    hide Acyclic;
    hide ScanText;
    hide Complete;
    NeededIsLower(db, o, p, x);
    var st := Start(db, file, marks);
    var st1 := ScanText(db, st, NeedAll(names));
    ScanTextKeeps(db, st, NeedAll(names), x);
    ScanTextSorts(db, o, st, NeedAll(names), p, x);
    CompleteKeeps(db, st1, x);
    CompleteSorts(db, o, st1, p, x);
    var r := Complete(db, st1);
    if !r.failed {
      ChangeIfContextSorts(db, o, r.st, None, p, x);
    }
  }
}
