/** What becomes of the mark of a declaration that is waiting to be given out, in calls made meanwhile. */
module HeaderMarks {
  import opened Options
  import opened HeaderSpec
  import opened HeaderLaws
  import opened HeaderRuns

  ghost predicate IsMarked(st: State, ps: seq<nat>) {
    exists p :: p in ps && p in st.flag
  }

  lemma {:induction false} NoneMarked(db: Database, st: State, ps: seq<nat>, doneTypedef: bool)
    requires Sound(db) && Chain(db, ps) && !IsMarked(st, ps)
    ensures Scans(db, st, ps) == st && Emits(db, st, ps, doneTypedef) == (st, doneTypedef)
    ensures EmitTypedef(db, st, ps) == st
    decreases |ps|
  {
    hide Emit;
    hide ScanText;
    if ps != [] {
      NoneMarked(db, st, ps[1..], doneTypedef);
    }
  }

  /** Nothing is left to do for the name. */
  ghost predicate IsSettled(db: Database, st: State, name: string)
    requires name in db.chains
  {
    forall r :: r in db.chains[name] ==> r in st.forward && r in st.declared
  }

  /** Two declarations of one name, the first of them declared. */
  ghost predicate Share(db: Database, st: State, p: nat, q: nat) {
    && Sound(db) && Indexed(db) && p < |db.decls| && q < |db.decls|
    && db.decls[p].name == db.decls[q].name && p in st.declared
  }

  /** A call never marks `p` again, and takes a mark off if it declares `q`. */
  ghost predicate Unmarks(db: Database, st: State, st': State, p: nat, q: nat)
    requires Share(db, st, p, q)
  {
    && Grows(st, st')
    && (p in st'.flag ==> p in st.flag)
    && (q in st'.declared && q !in st.declared ==> p !in st'.flag)
  }

  /** Besides, it leaves a mark if the name is settled. */
  ghost predicate Treats(db: Database, st: State, st': State, p: nat, q: nat)
    requires Share(db, st, p, q)
  {
    && Unmarks(db, st, st', p, q)
    && (IsSettled(db, st, db.decls[p].name) && p in st.flag ==> p in st'.flag)
  }

  lemma UnmarksOn(db: Database, a: State, b: State, c: State, p: nat, q: nat)
    requires Share(db, a, p, q) && Unmarks(db, a, b, p, q) && Unmarks(db, b, c, p, q)
    ensures Unmarks(db, a, c, p, q)
  {
  }

  lemma StaysOff(db: Database, st: State, st': State, p: nat, q: nat)
    requires Share(db, st, p, q) && Treats(db, st, st', p, q) && p !in st.flag
    ensures p !in st'.flag
  {
  }

  lemma TreatsOn(db: Database, a: State, b: State, c: State, p: nat, q: nat)
    requires Share(db, a, p, q) && Treats(db, a, b, p, q) && Treats(db, b, c, p, q)
    ensures Treats(db, a, c, p, q)
  {
  }

  /** Steps that neither mark nor declare. */
  lemma PlainTreats(db: Database, st: State, st': State, p: nat, q: nat)
    requires Share(db, st, p, q) && Grows(st, st') && st'.flag == st.flag && st'.declared == st.declared
    ensures Treats(db, st, st', p, q)
  {
  }

  lemma {:induction false} ChangeIfContextTreats(db: Database, st: State, zIf: Option<string>, p: nat, q: nat)
    requires Share(db, st, p, q)
    ensures Treats(db, st, ChangeIfContext(db, st, zIf), p, q)
    decreases Left(db, st), 6
  {
    hide UsesOf;
    hide Treats;
    hide Indexed;
    hide Left;
    PlainTreats(db, st, CloseIf(st), p, q);
    if zIf.None? {
    } else if st.zIf == zIf {
      PlainTreats(db, st, st, p, q);
    } else {
      var st1 := CloseIf(st);
      LeftShrinks(db, st, st1);
      var st2 := ScanText(db, st1, UsesOf(db, zIf.value));
      ScanTextTreats(db, st1, UsesOf(db, zIf.value), p, q);
      var st3 := CloseIf(st2).Put(If(zIf.value)).(zIf := zIf);
      PlainTreats(db, st2, st3, p, q);
      TreatsOn(db, st, st1, st2, p, q);
      TreatsOn(db, st, st2, st3, p, q);
    }
  }

  lemma {:induction false} ScanTextTreats(db: Database, st: State, uses: seq<Use>, p: nat, q: nat)
    requires Share(db, st, p, q)
    ensures Treats(db, st, ScanText(db, st, uses), p, q)
    decreases Left(db, st), 5, |uses|
  {
    hide Treats;
    hide Indexed;
    if uses == [] {
      PlainTreats(db, st, st, p, q);
    } else if uses[0].name !in db.chains {
      ScanTextTreats(db, st, uses[1..], p, q);
    } else {
      var st1 := DeclareObject(db, st, db.chains[uses[0].name], uses[0].full);
      DeclareObjectTreats(db, st, uses[0].name, uses[0].full, p, q);
      LeftShrinks(db, st, st1);
      ScanTextTreats(db, st1, uses[1..], p, q);
      TreatsOn(db, st, st1, ScanText(db, st1, uses[1..]), p, q);
    }
  }

  lemma {:induction false} AddIncludesTreats(db: Database, st: State, list: seq<Include>, p: nat, q: nat)
    requires Share(db, st, p, q) && Labeled(db, list)
    ensures Treats(db, st, AddIncludes(db, st, list), p, q)
    decreases Left(db, st), 1, |list|
  {
    hide Treats;
    hide Indexed;
    if list == [] {
      PlainTreats(db, st, st, p, q);
    } else {
      AddIncludesTreats(db, st, list[1..], p, q);
      var st1 := AddIncludes(db, st, list[1..]);
      LeftShrinks(db, st, st1);
      if list[0].tag !in st1.table {
        var st2 := st1.(table := st1.table + {list[0].tag});
        LeftShrinks(db, st1, st2);
        PlainTreats(db, st1, st2, p, q);
        ThenPutTreats(db, st1, st2, list[0].zIf, IncludeLine(list[0]), p, q);
        TreatsOn(db, st, st1, ChangeIfContext(db, st2, list[0].zIf).Put(IncludeLine(list[0])), p, q);
      }
    }
  }

  /** A line within its `#if`. */
  lemma {:induction false} ThenPutTreats(db: Database, st: State, st1: State, zIf: Option<string>, item: Item,
                                         p: nat, q: nat)
    requires Share(db, st, p, q) && Treats(db, st, st1, p, q)
    ensures Treats(db, st, ChangeIfContext(db, st1, zIf).Put(item), p, q)
    decreases Left(db, st1), 7
  {
    hide Indexed;
    hide ChangeIfContext;
    ChangeIfContextTreats(db, st1, zIf, p, q);
    var st2 := ChangeIfContext(db, st1, zIf);
    PlainTreats(db, st2, st2.Put(item), p, q);
    hide Treats;
    TreatsOn(db, st, st1, st2, p, q);
    TreatsOn(db, st, st2, st2.Put(item), p, q);
  }

  lemma {:induction false} ForwardsTreats(db: Database, st: State, ps: seq<nat>, doneTypedef: bool, p: nat, q: nat)
    requires Share(db, st, p, q) && Chain(db, ps)
    ensures Treats(db, st, Forwards(db, st, ps, doneTypedef).0, p, q)
    decreases Left(db, st), 2, |ps|
  {
    hide Treats;
    hide Indexed;
    hide Distinct;
    if ps == [] {
      PlainTreats(db, st, st, p, q);
    } else {
      ChainTail(db, ps);
      var d := db.decls[ps[0]];
      if d.zFwd.None? || ps[0] in st.forward {
        ForwardsTreats(db, st, ps[1..], doneTypedef, p, q);
      } else {
        var st1 := st.(forward := st.forward + {ps[0]});
        LeftShrinks(db, st, st1);
        PlainTreats(db, st, st1, p, q);
        if IsForwardTypedef(d) && doneTypedef {
          ForwardsTreats(db, st1, ps[1..], true, p, q);
          TreatsOn(db, st, st1, Forwards(db, st, ps, doneTypedef).0, p, q);
        } else {
          var st2 := ChangeIfContext(db, st1, d.zIf).Put(Forward(ps[0]));
          ThenPutTreats(db, st, st1, d.zIf, Forward(ps[0]), p, q);
          LeftShrinks(db, st1, st2);
          ForwardsTreats(db, st2, ps[1..], doneTypedef || IsForwardTypedef(d), p, q);
          TreatsOn(db, st, st2, Forwards(db, st, ps, doneTypedef).0, p, q);
        }
      }
    }
  }

  lemma {:induction false} ChainIncludesTreats(db: Database, st: State, ps: seq<nat>, p: nat, q: nat)
    requires Share(db, st, p, q) && Chain(db, ps)
    ensures Treats(db, st, ChainIncludes(db, st, ps), p, q)
    decreases Left(db, st), 2, |ps|
  {
    hide Treats;
    hide Indexed;
    hide AddIncludes;
    hide Distinct;
    if ps == [] {
      PlainTreats(db, st, st, p, q);
    } else {
      ChainTail(db, ps);
      AddIncludesTreats(db, st, db.decls[ps[0]].includes, p, q);
      var st1 := AddIncludes(db, st, db.decls[ps[0]].includes);
      LeftShrinks(db, st, st1);
      ChainIncludesTreats(db, st1, ps[1..], p, q);
      TreatsOn(db, st, st1, ChainIncludes(db, st1, ps[1..]), p, q);
    }
  }

  lemma {:induction false} ScanDeclTreats(db: Database, st: State, r: nat, p: nat, q: nat)
    requires Share(db, st, p, q) && r < |db.decls|
    ensures Treats(db, st, ScanDecl(db, st, r), p, q)
    decreases Left(db, st), 7, 0
  {
    hide Treats;
    hide Indexed;
    hide UsesOf;
    hide ScanText;
    PlainTreats(db, st, st, p, q);
    if r in st.flag && db.decls[r].zDecl.Some? {
      ScanTextTreats(db, st, UsesOf(db, Searched(db.decls[r])), p, q);
    }
  }

  lemma {:induction false} ScansTreats(db: Database, st: State, ps: seq<nat>, p: nat, q: nat)
    requires Share(db, st, p, q) && Chain(db, ps)
    ensures Treats(db, st, Scans(db, st, ps), p, q)
    decreases Left(db, st), 8, |ps|
  {
    hide Treats;
    hide Indexed;
    hide ScanDecl;
    hide Distinct;
    if ps == [] {
      PlainTreats(db, st, st, p, q);
    } else {
      ChainTail(db, ps);
      ScanDeclTreats(db, st, ps[0], p, q);
      var st1 := ScanDecl(db, st, ps[0]);
      LeftShrinks(db, st, st1);
      ScansTreats(db, st1, ps[1..], p, q);
      TreatsOn(db, st, st1, Scans(db, st1, ps[1..]), p, q);
    }
  }

  lemma {:induction false} EmitTreats(db: Database, st: State, r: nat, p: nat, q: nat)
    requires Share(db, st, p, q) && r < |db.decls|
    ensures Treats(db, st, Emit(db, st, r), p, q)
    decreases Left(db, st), 7, 1
  {
    hide Treats;
    hide Indexed;
    hide ChangeIfContext;
    ChangeIfContextTreats(db, st, db.decls[r].zIf, p, q);
    var st1 := ChangeIfContext(db, st, db.decls[r].zIf);
    PlainTreats(db, st1, st1.Put(Full(r)), p, q);
    TreatsOn(db, st, st1, st1.Put(Full(r)), p, q);
  }

  /** Taking the mark off a declaration that is not `p`, or when `p` has none. */
  lemma UnmarkTreats(db: Database, st: State, r: nat, p: nat, q: nat)
    requires Share(db, st, p, q) && (r == p ==> p !in st.flag)
    ensures Treats(db, st, st.(flag := st.flag - {r}), p, q)
  {
  }

  lemma {:induction false} EmitsTreats(db: Database, st: State, ps: seq<nat>, doneTypedef: bool, p: nat, q: nat)
    requires Share(db, st, p, q) && Chain(db, ps) && (p in ps ==> p !in st.flag)
    ensures Treats(db, st, Emits(db, st, ps, doneTypedef).0, p, q)
    decreases Left(db, st), 8, |ps|
  {
    hide Indexed;
    hide Emit;
    hide Distinct;
    hide IsSettled;
    if ps == [] {
      PlainTreats(db, st, st, p, q);
    } else {
      ChainTail(db, ps);
      var d := db.decls[ps[0]];
      if ps[0] !in st.flag || d.isTypedef || (d.isEnum && doneTypedef) {
        EmitsTreats(db, st, ps[1..], doneTypedef, p, q);
      } else {
        var st1 := Emit(db, st, ps[0]);
        EmitTreats(db, st, ps[0], p, q);
        var st2 := st1.(flag := st1.flag - {ps[0]});
        UnmarkTreats(db, st1, ps[0], p, q);
        TreatsOn(db, st, st1, st2, p, q);
        LeftShrinks(db, st, st2);
        EmitsTreats(db, st2, ps[1..], doneTypedef || d.isEnum, p, q);
        TreatsOn(db, st, st2, Emits(db, st, ps, doneTypedef).0, p, q);
      }
    }
  }

  lemma {:induction false} EmitTypedefTreats(db: Database, st: State, ps: seq<nat>, p: nat, q: nat)
    requires Share(db, st, p, q) && Chain(db, ps)
    ensures Treats(db, st, EmitTypedef(db, st, ps), p, q)
    decreases Left(db, st), 8, |ps|
  {
    hide Treats;
    hide Indexed;
    hide Emit;
    hide Distinct;
    if ps == [] {
      PlainTreats(db, st, st, p, q);
    } else {
      ChainTail(db, ps);
      if ps[0] in st.flag {
        EmitTreats(db, st, ps[0], p, q);
      } else {
        EmitTypedefTreats(db, st, ps[1..], p, q);
      }
    }
  }

  lemma {:induction false} EmitDueTreats(db: Database, st: State, ps: seq<nat>, doneTypedef: bool, p: nat, q: nat)
    requires Share(db, st, p, q) && Chain(db, ps) && (p in ps ==> p !in st.flag)
    ensures Treats(db, st, EmitDue(db, st, ps, doneTypedef), p, q)
    decreases Left(db, st), 9
  {
    hide Indexed;
    hide Scans;
    hide Emits;
    hide EmitTypedef;
    hide Distinct;
    hide IsSettled;
    var st1 := Scans(db, st, ps);
    ScansTreats(db, st, ps, p, q);
    LeftShrinks(db, st, st1);
    EmitsTreats(db, st1, ps, doneTypedef, p, q);
    var (st2, done) := Emits(db, st1, ps, doneTypedef);
    LeftShrinks(db, st1, st2);
    TreatsOn(db, st, st1, st2, p, q);
    if !done {
      EmitTypedefTreats(db, st2, ps, p, q);
      TreatsOn(db, st, st2, EmitTypedef(db, st2, ps), p, q);
    }
  }

  lemma MarkDueTreats(db: Database, st: State, name: string, full: bool, p: nat, q: nat)
    requires Share(db, st, p, q) && name in db.chains
    ensures var st1 := MarkDue(db, st, db.chains[name], full);
            && Unmarks(db, st, st1, p, q)
            && (if name == db.decls[p].name then p !in st1.flag
                else p !in db.chains[name] && Treats(db, st, st1, p, q))
  {
    hide Distinct;
    OfItsName(db, name, p);
    OfItsName(db, name, q);
  }

  /** A declaration is in the chain of its name only. */
  lemma OfItsName(db: Database, name: string, p: nat)
    requires Sound(db) && Indexed(db) && name in db.chains && p < |db.decls|
    ensures p in db.chains[name] <==> db.decls[p].name == name
  {
  }

  lemma {:induction false} GiveDueTreats(db: Database, st: State, name: string, full: bool, doneTypedef: bool,
                                         p: nat, q: nat)
    requires Share(db, st, p, q) && name in db.chains
    ensures var st' := GiveDue(db, st, db.chains[name], full, doneTypedef);
            if name == db.decls[p].name then Unmarks(db, st, st', p, q) && p !in st'.flag
            else Treats(db, st, st', p, q)
    decreases Left(db, st), 2
  {
    hide IsSettled;
    hide Indexed;
    hide MarkDue;
    hide EmitDue;
    hide Distinct;
    hide Unmarks;
    hide Left;
    var ps := db.chains[name];
    var st1 := MarkDue(db, st, ps, full);
    MarkDueTreats(db, st, name, full, p, q);
    if r :| r in ps && r in st1.flag {
      MarkedWereDue(db, st, ps, full, r);
      LeftShrinks(db, st, st1);
      var st2 := EmitDue(db, st1, ps, doneTypedef);
      EmitDueTreats(db, st1, ps, doneTypedef, p, q);
      if p !in st1.flag {
        StaysOff(db, st1, st2, p, q);
      }
      UnmarksOn(db, st, st1, st2, p, q);
      if name != db.decls[p].name {
        TreatsOn(db, st, st1, st2, p, q);
      }
    }
  }

  lemma {:induction false} DeclareObjectTreats(db: Database, st: State, name: string, full: bool, p: nat, q: nat)
    requires Share(db, st, p, q) && name in db.chains
    ensures Treats(db, st, DeclareObject(db, st, db.chains[name], full), p, q)
    decreases Left(db, st), 3
  {
    hide Unmarks;
    hide Indexed;
    hide Forwards;
    hide ChainIncludes;
    hide GiveDue;
    hide Distinct;
    hide Left;
    var ps := db.chains[name];
    var (st1, doneTypedef) := Forwards(db, st, ps, false);
    ForwardsTreats(db, st, ps, false, p, q);
    LeftShrinks(db, st, st1);
    if !IsSuitable(st1, ps, full) {
      var st2 := ChainIncludes(db, st1, ps);
      ChainIncludesTreats(db, st1, ps, p, q);
      LeftShrinks(db, st1, st2);
      TreatsOn(db, st, st1, st2, p, q);
      var st3 := GiveDue(db, st2, ps, full, doneTypedef);
      GiveDueTreats(db, st2, name, full, doneTypedef, p, q);
      UnmarksOn(db, st, st2, st3, p, q);
      if name != db.decls[p].name {
        TreatsOn(db, st, st2, st3, p, q);
      }
    }
  }
}
