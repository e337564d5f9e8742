/** What every run of the header generator keeps: balanced `#if` lines, each line in the right one, none twice. */
module HeaderLaws {
  import opened Options
  import opened HeaderSpec

  // The `#if` that a line of the header stands in.

  /** The `#if` that is open behind a part of the header. */
  function Context(out: seq<Item>): Option<string> {
    if out == [] then None
    else
      match out[|out| - 1]
      case If(condition) => Some(condition)
      case EndIf => None
      case _ => Context(out[..|out| - 1])
  }

  /** The line may stand where `zIf` is open: an `#if` is never inside another, an `#endif` ends one, and whatever
      has a condition of its own is within exactly that one. */
  predicate Fits(db: Database, zIf: Option<string>, item: Item) {
    match item
    case If(_) => zIf.None?
    case EndIf => zIf.Some?
    case IncludeLine(inc) => zIf == inc.zIf
    case Forward(p) => p < |db.decls| && zIf == db.decls[p].zIf && db.decls[p].zFwd.Some?
    case Full(p) => p < |db.decls| && zIf == db.decls[p].zIf
  }

  predicate WellPlaced(db: Database, out: seq<Item>) {
    forall k :: 0 <= k < |out| ==> Fits(db, Context(out[..k]), out[k])
  }

  /** The header so far is well placed, the open `#if` is known, and whatever counts as forward declared has a forward
      declaration or is declared, which counts as forward declared, too. */
  ghost predicate Proper(db: Database, st: State) {
    && WellPlaced(db, st.out) && Context(st.out) == st.zIf && st.declared <= st.forward
    && forall p :: p in st.forward ==> p in st.declared || (p < |db.decls| && db.decls[p].zFwd.Some?)
  }

  // How often a line is in the header.

  /** Lines that would be one too many, both. */
  predicate Same(a: Item, b: Item) {
    if a.IncludeLine? && b.IncludeLine? then a.inc.tag == b.inc.tag else a == b
  }

  function Count(out: seq<Item>, x: Item): nat {
    if out == [] then 0 else Count(out[..|out| - 1], x) + if Same(out[|out| - 1], x) then 1 else 0
  }

  /** A declaration as the parser makes them: what has a forward declaration besides its text is neither a typedef nor
      an enumeration. */
  predicate IsTame(d: Decl) {
    d.zFwd.Some? && d.zDecl.Some? ==> !d.isTypedef && !d.isEnum
  }

  /** Lines that a header should not have twice. */
  predicate IsCounted(db: Database, x: Item) {
    && !x.If? && !x.EndIf?
    && (x.Full? ==> x.p < |db.decls| && IsTame(db.decls[x.p]))
  }

  /** The state's record of a line. */
  predicate Has(st: State, x: Item) {
    match x
    case IncludeLine(inc) => inc.tag in st.table
    case Forward(p) => p in st.forward
    case Full(p) => p in st.declared
    case _ => true
  }

  /** No call can mark this declaration, unless it gives out its text, too. */
  predicate IsStuck(db: Database, st: State, p: nat)
    requires p < |db.decls|
  {
    p in st.declared || db.decls[p].zFwd.Some? || db.decls[p].zDecl.None?
  }

  /** What a step or many keep: a line on record is not given out any more, one that is not is given out at most once
      and is on record then. */
  ghost predicate Keeps(db: Database, st: State, st': State, x: Item)
    requires IsCounted(db, x)
  {
    && Grows(st, st')
    && (Proper(db, st) ==> Proper(db, st'))
    && Count(st.out, x) <= Count(st'.out, x) <= Count(st.out, x) + 1
    && (Count(st'.out, x) > Count(st.out, x) ==> !Has(st, x) && Has(st', x))
    && (x.Full? && IsStuck(db, st, x.p) && x.p in st'.flag ==> x.p in st.flag)
    && (x.Full? && x.p in st'.declared ==> x.p in st.declared || db.decls[x.p].zDecl.Some?)
  }

  lemma KeepsOn(db: Database, a: State, b: State, c: State, x: Item)
    requires IsCounted(db, x) && Keeps(db, a, b, x) && Keeps(db, b, c, x)
    ensures Keeps(db, a, c, x)
  {
    hide Proper;
    hide Count;
  }

  lemma KeepsStill(db: Database, st: State, x: Item)
    requires IsCounted(db, x)
    ensures Keeps(db, st, st, x)
  {
  }

  lemma PutMeaning(db: Database, st: State, item: Item, x: Item)
    ensures Count(st.Put(item).out, x) == Count(st.out, x) + if Same(item, x) then 1 else 0
    ensures WellPlaced(db, st.out) && Fits(db, Context(st.out), item) ==> WellPlaced(db, st.Put(item).out)
    ensures Context(st.Put(item).out) ==
            (match item case If(condition) => Some(condition) case EndIf => None case _ => Context(st.out))
  {
    var out := st.Put(item).out;
    assert out[..|st.out|] == st.out;
    forall k | 0 <= k < |st.out|
      ensures out[..k] == st.out[..k] && out[k] == st.out[k]
    {
    }
  }

  /** Number of times a declaration's text is in the header. */
  function Given(st: State, p: nat): nat {
    Count(st.out, Full(p))
  }

  lemma PutGives(db: Database, st: State, item: Item, p: nat)
    ensures Given(st.Put(item), p) == Given(st, p) + if item == Full(p) then 1 else 0
  {
    PutMeaning(db, st, item, Full(p));
  }

  lemma SameGiven(st: State, st': State, p: nat)
    requires st.out == st'.out
    ensures Given(st, p) == Given(st', p)
  {
  }

  lemma CloseIfKeeps(db: Database, st: State, x: Item)
    requires IsCounted(db, x)
    ensures Keeps(db, st, CloseIf(st), x)
  {
    PutMeaning(db, st, EndIf, x);
    hide Count;
    hide Context;
    hide WellPlaced;
  }

  lemma {:induction false} ChangeIfContextKeeps(db: Database, st: State, zIf: Option<string>, x: Item)
    requires Sound(db) && IsCounted(db, x)
    ensures Keeps(db, st, ChangeIfContext(db, st, zIf), x)
    ensures ChangeIfContext(db, st, zIf).zIf == zIf
    decreases Left(db, st), 6
  {
    CloseIfKeeps(db, st, x);
    if zIf.Some? && st.zIf != zIf {
      var st1 := CloseIf(st);
      var st2 := ScanText(db, st1, UsesOf(db, zIf.value));
      ScanTextKeeps(db, st1, UsesOf(db, zIf.value), x);
      CloseIfKeeps(db, st2, x);
      KeepsOn(db, st, st1, st2, x);
      KeepsOn(db, st, st2, CloseIf(st2), x);
      var st3 := CloseIf(st2).Put(If(zIf.value)).(zIf := zIf);
      PutMeaning(db, CloseIf(st2), If(zIf.value), x);
      assert Keeps(db, CloseIf(st2), st3, x);
      KeepsOn(db, st, CloseIf(st2), st3, x);
    }
  }

  lemma {:induction false} ScanTextKeeps(db: Database, st: State, uses: seq<Use>, x: Item)
    requires Sound(db) && IsCounted(db, x)
    ensures Keeps(db, st, ScanText(db, st, uses), x)
    decreases Left(db, st), 5, |uses|
  {
    if uses != [] {
      if uses[0].name !in db.chains {
        ScanTextKeeps(db, st, uses[1..], x);
      } else {
        var st1 := DeclareObject(db, st, db.chains[uses[0].name], uses[0].full);
        DeclareObjectKeeps(db, st, db.chains[uses[0].name], uses[0].full, x);
        LeftShrinks(db, st, st1);
        ScanTextKeeps(db, st1, uses[1..], x);
        KeepsOn(db, st, st1, ScanText(db, st1, uses[1..]), x);
      }
    }
  }

  /** A line that is put on record, then given out once its `#if` is open. */
  lemma RecordKeeps(db: Database, st: State, st1: State, st2: State, item: Item, x: Item)
    requires IsCounted(db, x) && (item.IncludeLine? || item.Forward?) && Keeps(db, st1, st2, x)
    requires Grows(st, st1) && st1.(forward := st.forward, table := st.table) == st
    requires Proper(db, st) ==> Proper(db, st1)
    requires !Has(st, item) && Has(st1, item) && Fits(db, st2.zIf, item)
    requires !Same(item, x) ==> Has(st, x) == Has(st1, x)
    ensures Keeps(db, st, st2.Put(item), x)
  {
    hide Count;
    hide WellPlaced;
    hide Context;
    PutMeaning(db, st2, item, x);
  }

  lemma {:induction false} AddIncludesKeeps(db: Database, st: State, list: seq<Include>, x: Item)
    requires Sound(db) && Labeled(db, list) && IsCounted(db, x)
    ensures Keeps(db, st, AddIncludes(db, st, list), x)
    decreases Left(db, st), 1, |list|
  {
    hide Proper;
    hide Count;
    if list != [] {
      AddIncludesKeeps(db, st, list[1..], x);
      var st1 := AddIncludes(db, st, list[1..]);
      LeftShrinks(db, st, st1);
      if list[0].tag !in st1.table {
        IncludeKeeps(db, st1, list[0], x);
        KeepsOn(db, st, st1, AddIncludes(db, st, list), x);
      }
    }
  }

  lemma {:induction false} IncludeKeeps(db: Database, st: State, inc: Include, x: Item)
    requires Sound(db) && inc.tag in Labels(db) && IsCounted(db, x) && inc.tag !in st.table
    ensures var st1 := st.(table := st.table + {inc.tag});
            Keeps(db, st, ChangeIfContext(db, st1, inc.zIf).Put(IncludeLine(inc)), x)
    decreases Left(db, st), 0
  {
    hide Keeps;
    hide WellPlaced;
    hide Context;
    var st1 := st.(table := st.table + {inc.tag});
    LeftShrinks(db, st, st1);
    ChangeIfContextKeeps(db, st1, inc.zIf, x);
    RecordKeeps(db, st, st1, ChangeIfContext(db, st1, inc.zIf), IncludeLine(inc), x);
  }

  lemma {:induction false} ForwardsKeeps(db: Database, st: State, ps: seq<nat>, doneTypedef: bool, x: Item)
    requires Sound(db) && Chain(db, ps) && IsCounted(db, x)
    ensures Keeps(db, st, Forwards(db, st, ps, doneTypedef).0, x)
    decreases Left(db, st), 2, |ps|
  {
    hide Count;
    hide WellPlaced;
    hide Context;
    hide Left;
    hide ChangeIfContext;
    if ps != [] {
      var d := db.decls[ps[0]];
      if d.zFwd.None? || ps[0] in st.forward {
        ForwardsKeeps(db, st, ps[1..], doneTypedef, x);
      } else {
        var st1 := st.(forward := st.forward + {ps[0]});
        LeftShrinks(db, st, st1);
        if IsForwardTypedef(d) && doneTypedef {
          ForwardsKeeps(db, st1, ps[1..], true, x);
          assert Keeps(db, st, st1, x);
          KeepsOn(db, st, st1, Forwards(db, st, ps, doneTypedef).0, x);
        } else {
          ForwardKeeps(db, st, ps[0], x);
          var st2 := ChangeIfContext(db, st1, d.zIf).Put(Forward(ps[0]));
          LeftShrinks(db, st1, st2);
          ForwardsKeeps(db, st2, ps[1..], doneTypedef || IsForwardTypedef(d), x);
          KeepsOn(db, st, st2, Forwards(db, st, ps, doneTypedef).0, x);
        }
      }
    }
  }

  lemma {:induction false} ForwardKeeps(db: Database, st: State, p: nat, x: Item)
    requires Sound(db) && p < |db.decls| && IsCounted(db, x)
    requires db.decls[p].zFwd.Some? && p !in st.forward
    ensures var st1 := st.(forward := st.forward + {p});
            Keeps(db, st, ChangeIfContext(db, st1, db.decls[p].zIf).Put(Forward(p)), x)
    decreases Left(db, st), 0
  {
    hide Keeps;
    hide WellPlaced;
    hide Context;
    var st1 := st.(forward := st.forward + {p});
    LeftShrinks(db, st, st1);
    ChangeIfContextKeeps(db, st1, db.decls[p].zIf, x);
    RecordKeeps(db, st, st1, ChangeIfContext(db, st1, db.decls[p].zIf), Forward(p), x);
  }

  lemma {:induction false} ChainIncludesKeeps(db: Database, st: State, ps: seq<nat>, x: Item)
    requires Sound(db) && Chain(db, ps) && IsCounted(db, x)
    ensures Keeps(db, st, ChainIncludes(db, st, ps), x)
    decreases Left(db, st), 2, |ps|
  {
    if ps != [] {
      AddIncludesKeeps(db, st, db.decls[ps[0]].includes, x);
      var st1 := AddIncludes(db, st, db.decls[ps[0]].includes);
      LeftShrinks(db, st, st1);
      ChainIncludesKeeps(db, st1, ps[1..], x);
      KeepsOn(db, st, st1, ChainIncludes(db, st, ps), x);
    }
  }

  lemma {:induction false} ScanDeclKeeps(db: Database, st: State, p: nat, x: Item)
    requires Sound(db) && p < |db.decls| && IsCounted(db, x)
    ensures Keeps(db, st, ScanDecl(db, st, p), x)
    decreases Left(db, st), 7, 0
  {
    if p in st.flag && db.decls[p].zDecl.Some? {
      ScanTextKeeps(db, st, UsesOf(db, Searched(db.decls[p])), x);
    }
  }

  lemma {:induction false} ScansKeeps(db: Database, st: State, ps: seq<nat>, x: Item)
    requires Sound(db) && Chain(db, ps) && IsCounted(db, x)
    ensures Keeps(db, st, Scans(db, st, ps), x)
    decreases Left(db, st), 8, |ps|
  {
    hide ScanDecl;
    if ps != [] {
      ScanDeclKeeps(db, st, ps[0], x);
      var st1 := ScanDecl(db, st, ps[0]);
      LeftShrinks(db, st, st1);
      ScansKeeps(db, st1, ps[1..], x);
      KeepsOn(db, st, st1, Scans(db, st, ps), x);
    }
  }

  lemma ChainTail(db: Database, ps: seq<nat>)
    requires Chain(db, ps) && ps != []
    ensures ps[0] !in ps[1..] && Chain(db, ps[1..])
  {
  }

  /** Whether `x` is the full text of a declaration of the chain that is marked. */
  predicate IsOwed(st: State, ps: seq<nat>, x: Item) {
    x.Full? && x.p in ps && x.p in st.flag
  }

  /** What giving out marked declarations keeps: one that is marked is given out at most once, and not marked then. */
  ghost predicate Pays(db: Database, st: State, st': State, ps: seq<nat>, x: Item)
    requires IsCounted(db, x)
  {
    if IsOwed(st, ps, x) then
      && Grows(st, st')
      && (Proper(db, st) ==> Proper(db, st'))
      && Count(st.out, x) <= Count(st'.out, x) <= Count(st.out, x) + 1
      && (Count(st'.out, x) > Count(st.out, x) ==> x.p !in st'.flag)
      && (db.decls[x.p].zFwd.Some? ==> x.p !in st'.flag)
    else Keeps(db, st, st', x)
  }

  lemma {:induction false} EmitKeeps(db: Database, st: State, p: nat, x: Item)
    requires Sound(db) && p < |db.decls| && IsCounted(db, x)
    requires x == Full(p) ==> p in st.declared
    ensures if x == Full(p)
            then Grows(st, Emit(db, st, p)) && (Proper(db, st) ==> Proper(db, Emit(db, st, p))) &&
                 Count(Emit(db, st, p).out, x) == Count(st.out, x) + 1 && (p in Emit(db, st, p).flag ==> p in st.flag)
            else Keeps(db, st, Emit(db, st, p), x)
    decreases Left(db, st), 7, 0
  {
    hide Count;
    hide WellPlaced;
    hide Context;
    ChangeIfContextKeeps(db, st, db.decls[p].zIf, x);
    PutMeaning(db, ChangeIfContext(db, st, db.decls[p].zIf), Full(p), x);
  }

  lemma {:induction false} EmitsKeeps(db: Database, st: State, ps: seq<nat>, doneTypedef: bool, x: Item)
    requires Sound(db) && Chain(db, ps) && IsCounted(db, x)
    requires x.Full? && x.p in ps ==> IsStuck(db, st, x.p)
    requires IsOwed(st, ps, x) ==> x.p in st.declared && db.decls[x.p].zDecl.Some?
    ensures Pays(db, st, Emits(db, st, ps, doneTypedef).0, ps, x)
    decreases Left(db, st), 8, |ps|
  {
    hide Emit;
    hide Proper;
    hide Count;
    hide Distinct;
    if ps != [] {
      assert ps[0] !in ps[1..] && Chain(db, ps[1..]) by { ChainTail(db, ps); }
      var d := db.decls[ps[0]];
      if ps[0] !in st.flag || d.isTypedef || (d.isEnum && doneTypedef) {
        EmitsKeeps(db, st, ps[1..], doneTypedef, x);
      } else {
        EmitKeeps(db, st, ps[0], x);
        var st1 := Emit(db, st, ps[0]);
        var st2 := st1.(flag := st1.flag - {ps[0]});
        UnmarkKeeps(db, st1, ps[0], x);
        LeftShrinks(db, st, st2);
        EmitsKeeps(db, st2, ps[1..], doneTypedef || d.isEnum, x);
        if x != Full(ps[0]) {
          KeepsOn(db, st, st1, st2, x);
        }
        if x != Full(ps[0]) && !IsOwed(st2, ps[1..], x) {
          KeepsOn(db, st, st2, Emits(db, st, ps, doneTypedef).0, x);
        }
      }
    }
  }

  lemma UnmarkKeeps(db: Database, st: State, p: nat, x: Item)
    requires IsCounted(db, x)
    ensures Keeps(db, st, st.(flag := st.flag - {p}), x)
  {
  }

  lemma {:induction false} EmitTypedefKeeps(db: Database, st: State, ps: seq<nat>, x: Item)
    requires Sound(db) && Chain(db, ps) && IsCounted(db, x)
    requires IsOwed(st, ps, x) ==> x.p in st.declared && db.decls[x.p].zFwd.None?
    ensures if IsOwed(st, ps, x) then Gives(db, st, EmitTypedef(db, st, ps), x)
            else Keeps(db, st, EmitTypedef(db, st, ps), x)
    decreases Left(db, st), 8, |ps|
  {
    hide Emit;
    hide Proper;
    hide Count;
    if ps != [] {
      if ps[0] in st.flag {
        EmitKeeps(db, st, ps[0], x);
      } else {
        EmitTypedefKeeps(db, st, ps[1..], x);
      }
    }
  }

  /** The text of a declaration that is marked is given out at most once, and one with a forward declaration is not
      marked at last. */
  ghost predicate Gives(db: Database, st: State, st': State, x: Item)
    requires IsCounted(db, x)
  {
    && Grows(st, st')
    && (Proper(db, st) ==> Proper(db, st'))
    && Count(st.out, x) <= Count(st'.out, x) <= Count(st.out, x) + 1
    && (x.Full? && db.decls[x.p].zFwd.Some? ==> x.p !in st'.flag)
  }

  lemma {:induction false} EmitDueKeeps(db: Database, st: State, ps: seq<nat>, doneTypedef: bool, x: Item)
    requires Sound(db) && Chain(db, ps) && IsCounted(db, x)
    requires x.Full? && x.p in ps ==> IsStuck(db, st, x.p)
    requires IsOwed(st, ps, x) ==> x.p in st.declared && db.decls[x.p].zDecl.Some?
    ensures if IsOwed(st, ps, x) then Gives(db, st, EmitDue(db, st, ps, doneTypedef), x)
            else Keeps(db, st, EmitDue(db, st, ps, doneTypedef), x)
    decreases Left(db, st), 9
  {
    hide Scans;
    hide Emits;
    hide EmitTypedef;
    hide Proper;
    hide Count;
    var st1 := Scans(db, st, ps);
    ScansKeeps(db, st, ps, x);
    LeftShrinks(db, st, st1);
    EmitsKeeps(db, st1, ps, doneTypedef, x);
    var (st2, done) := Emits(db, st1, ps, doneTypedef);
    LeftShrinks(db, st1, st2);
    if !IsOwed(st1, ps, x) {
      KeepsOn(db, st, st1, st2, x);
    }
    if !done {
      EmitTypedefKeeps(db, st2, ps, x);
      if !IsOwed(st1, ps, x) {
        KeepsOn(db, st, st2, EmitTypedef(db, st2, ps), x);
      }
    }
  }

  lemma MarkDueKeeps(db: Database, st: State, ps: seq<nat>, full: bool, x: Item)
    requires Chain(db, ps) && IsCounted(db, x)
    ensures var st' := MarkDue(db, st, ps, full);
            && st'.out == st.out && (Proper(db, st) ==> Proper(db, st'))
            && (x.Full? && x.p in ps ==> IsStuck(db, st', x.p))
            && (if IsOwed(st', ps, x) then x.p in st'.declared && x.p !in st.declared && db.decls[x.p].zDecl.Some?
                else Keeps(db, st, st', x))
  {
  }

  /** A declaration that is marked, then given out. */
  lemma GivesOnce(db: Database, st: State, st1: State, st2: State, x: Item)
    requires IsCounted(db, x) && x.Full? && Grows(st, st1) && st1.out == st.out && Gives(db, st1, st2, x)
    requires Proper(db, st) ==> Proper(db, st1)
    requires x.p in st1.declared && x.p !in st.declared && db.decls[x.p].zDecl.Some?
    ensures Keeps(db, st, st2, x)
  {
    hide Proper;
    hide Count;
  }

  lemma {:induction false} GiveDueKeeps(db: Database, st: State, ps: seq<nat>, full: bool, doneTypedef: bool, x: Item)
    requires Sound(db) && Chain(db, ps) && IsCounted(db, x)
    ensures Keeps(db, st, GiveDue(db, st, ps, full, doneTypedef), x)
    decreases Left(db, st), 2
  {
    hide MarkDue;
    hide EmitDue;
    hide Keeps;
    hide Gives;
    hide Proper;
    var st1 := MarkDue(db, st, ps, full);
    MarkDueKeeps(db, st, ps, full, x);
    if p :| p in ps && p in st1.flag {
      MarkedWereDue(db, st, ps, full, p);
      LeftShrinks(db, st, st1);
      EmitDueKeeps(db, st1, ps, doneTypedef, x);
      var st2 := EmitDue(db, st1, ps, doneTypedef);
      if IsOwed(st1, ps, x) {
        GivesOnce(db, st, st1, st2, x);
      } else {
        KeepsOn(db, st, st1, st2, x);
      }
    }
  }

  lemma MarkedWereDue(db: Database, st: State, ps: seq<nat>, full: bool, p: nat)
    requires Chain(db, ps) && p in ps && p in MarkDue(db, st, ps, full).flag
    ensures p in All(db) && IsDue(db, st, p, full) && p in MarkDue(db, st, ps, full).declared
  {
  }

  lemma {:induction false} DeclareObjectKeeps(db: Database, st: State, ps: seq<nat>, full: bool, x: Item)
    requires Sound(db) && Chain(db, ps) && IsCounted(db, x)
    ensures Keeps(db, st, DeclareObject(db, st, ps, full), x)
    decreases Left(db, st), 3
  {
    hide Forwards;
    hide ChainIncludes;
    hide GiveDue;
    hide Keeps;
    var (st1, doneTypedef) := Forwards(db, st, ps, false);
    ForwardsKeeps(db, st, ps, false, x);
    LeftShrinks(db, st, st1);
    if !IsSuitable(st1, ps, full) {
      var st2 := ChainIncludes(db, st1, ps);
      ChainIncludesKeeps(db, st1, ps, x);
      LeftShrinks(db, st1, st2);
      GiveDueKeeps(db, st2, ps, full, doneTypedef, x);
      KeepsOn(db, st, st1, st2, x);
      KeepsOn(db, st, st2, GiveDue(db, st2, ps, full, doneTypedef), x);
    }
  }
}
