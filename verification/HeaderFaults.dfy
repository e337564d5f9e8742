/** What can go wrong when declarations of one name are not due together: a text is lost. */
module HeaderFaults {
  import opened Options
  import opened TokenSpec
  import opened TokenStreams
  import opened HeaderSpec
  import opened HeaderLaws
  import opened HeaderRuns
  import opened HeaderComplete
  import opened HeaderExamples

  /** A function and a structure of the name T, and a function C that takes a pointer to T. In a variant that no parsed
      declaration is, the second declaration of T is a typedef with a forward declaration. */
  function Example(isTypedef: bool): Database {
    Database(
      [Plain("T", None, FUNCTION, false), Plain("T", Some(if isTypedef then "T;" else FORWARD), STRUCT, isTypedef),
       Plain("C", None, POINTER_USER, false)],
      map["T" := [0, 1], "C" := [2]],
      z => i => false)
  }

  lemma ExampleIsTame(isTypedef: bool)
    ensures IsTame(Example(isTypedef).decls[1]) <==> !isTypedef
    ensures IsForwardTypedef(Example(isTypedef).decls[1]) <==> !isTypedef
  {
    assert FORWARD[0..7] == "typedef";
  }

  lemma ExampleIsSound(isTypedef: bool)
    ensures Sound(Example(isTypedef)) && Indexed(Example(isTypedef)) && IsExample(Example(isTypedef))
  {
    var db := Example(isTypedef);
    assert db.decls[0].name == "T" && db.decls[1].name == "T" && db.decls[2].name == "C";
    assert db.chains["T"] == [0, 1] && db.chains["C"] == [2];
    forall name | name in db.chains
      ensures name == "T" || name == "C"
    {
    }
    assert 0 in db.chains["T"] && 1 in db.chains["T"] && 2 in db.chains["C"];
  }

  lemma TextsOfExample(isTypedef: bool)
    ensures var db := Example(isTypedef);
            && UsesOf(db, Searched(db.decls[0])) == [Use("T", true)]
            && UsesOf(db, Searched(db.decls[1])) == [Use("T", true)]
            && UsesOf(db, Searched(db.decls[2])) == [Use("C", true), Use("T", false)]
  {
    hide UsesOf;
    hide Sound;
    hide Indexed;
    ExampleIsSound(isTypedef);
    var db := Example(isTypedef);
    UsesOfFunction(db);
    UsesOfStruct(db);
    UsesOfPointerUser(db);
  }

  /** A state of the example in which no `#if` is open and nothing was included. */
  function Bare(forward: set<nat>, declared: set<nat>, flag: set<nat>, out: seq<Item>): State {
    State(forward, declared, flag, {}, None, out)
  }

  /** The mark of the second declaration of T stays only if that is a typedef; then it is given out again. */
  function Marks(isTypedef: bool): set<nat> {
    if isTypedef then {1} else {}
  }

  function Again(isTypedef: bool): seq<Item> {
    if isTypedef then [Full(1)] else []
  }

  lemma NoIncludes(isTypedef: bool, st: State)
    ensures var db := Example(isTypedef);
            Sound(db) && ChainIncludes(db, st, [0, 1]) == st && ChainIncludes(db, st, [2]) == st
  {
    ExampleIsSound(isTypedef);
    var db := Example(isTypedef);
    assert [0, 1][1..] == [1] && [1][1..] == [] && [2][1..] == [];
    assert ChainIncludes(db, st, [1]) == st;
  }

  /** A call that has nothing left to do. */
  lemma SettledCall(isTypedef: bool, st: State, name: string, full: bool)
    requires Sound(Example(isTypedef)) && name in Example(isTypedef).chains
    requires forall r :: r in Example(isTypedef).chains[name] ==> r in st.forward && r in st.declared
    ensures DeclareObject(Example(isTypedef), st, Example(isTypedef).chains[name], full) == st
  {
    hide ChainIncludes;
    hide GiveDue;
    hide Forwards;
    hide Sound;
    ForwardsIdle(Example(isTypedef), st, Example(isTypedef).chains[name], false);
  }

  lemma ScanOne(db: Database, st: State, u: Use, st1: State)
    requires Sound(db) && u.name in db.chains && DeclareObject(db, st, db.chains[u.name], u.full) == st1
    ensures ScanText(db, st, [u]) == st1
  {
    hide DeclareObject;
    assert [u][1..] == [];
    assert ScanText(db, st1, []) == st1;
  }

  /** The inner call for T, in full: it gives out the second declaration, and takes the mark off the first. */
  lemma InnerCall(isTypedef: bool, out: seq<Item>)
    ensures Sound(Example(isTypedef))
    ensures DeclareObject(Example(isTypedef), Bare({0, 1, 2}, {0, 2}, {0, 2}, out), [0, 1], true) ==
            Bare({0, 1, 2}, {0, 1, 2}, {2} + Marks(isTypedef), out + [Full(1)])
  {
    hide Forwards;
    hide ChainIncludes;
    hide MarkDue;
    hide EmitDue;
    hide Example;
    ExampleIsSound(isTypedef);
    var db := Example(isTypedef);
    var st := Bare({0, 1, 2}, {0, 2}, {0, 2}, out);
    InnerStart(isTypedef, out);
    NoIncludes(isTypedef, st);
    InnerEmits(isTypedef, out);
    assert 1 in [0, 1];
  }

  lemma InnerStart(isTypedef: bool, out: seq<Item>)
    ensures Sound(Example(isTypedef)) && Chain(Example(isTypedef), [0, 1])
    ensures var db, st := Example(isTypedef), Bare({0, 1, 2}, {0, 2}, {0, 2}, out);
            && Forwards(db, st, [0, 1], false) == (st, false)
            && MarkDue(db, st, [0, 1], true) == Bare({0, 1, 2}, {0, 1, 2}, {1, 2}, out)
  {
    ExampleIsSound(isTypedef);
    ForwardsIdle(Example(isTypedef), Bare({0, 1, 2}, {0, 2}, {0, 2}, out), [0, 1], false);
  }

  lemma InnerScans(isTypedef: bool, out: seq<Item>)
    ensures Sound(Example(isTypedef)) && Chain(Example(isTypedef), [0, 1])
    ensures Scans(Example(isTypedef), Bare({0, 1, 2}, {0, 1, 2}, {1, 2}, out), [0, 1]) ==
            Bare({0, 1, 2}, {0, 1, 2}, {1, 2}, out)
  {
    hide DeclareObject;
    hide UsesOf;
    ExampleIsSound(isTypedef);
    TextsOfExample(isTypedef);
    var db := Example(isTypedef);
    var st := Bare({0, 1, 2}, {0, 1, 2}, {1, 2}, out);
    assert [0, 1][1..] == [1] && [1][1..] == [];
    SettledCall(isTypedef, st, "T", true);
    ScanOne(db, st, Use("T", true), st);
    assert ScanDecl(db, st, 1) == st;
    assert Scans(db, st, [1]) == st;
  }

  lemma InnerEmits(isTypedef: bool, out: seq<Item>)
    ensures Sound(Example(isTypedef)) && Chain(Example(isTypedef), [0, 1])
    ensures EmitDue(Example(isTypedef), Bare({0, 1, 2}, {0, 1, 2}, {1, 2}, out), [0, 1], false) ==
            Bare({0, 1, 2}, {0, 1, 2}, {2} + Marks(isTypedef), out + [Full(1)])
  {
    hide UsesOf;
    hide ScanText;
    ExampleIsSound(isTypedef);
    var db := Example(isTypedef);
    var st := Bare({0, 1, 2}, {0, 1, 2}, {1, 2}, out);
    var st1 := Bare({0, 1, 2}, {0, 1, 2}, {2} + Marks(isTypedef), out + [Full(1)]);
    assert [0, 1][1..] == [1] && [1][1..] == [];
    InnerScans(isTypedef, out);
    assert Emit(db, st, 1) == st.Put(Full(1));
    if isTypedef {
      assert Emits(db, st, [1], false) == (st, false);
      assert Emits(db, st, [0, 1], false) == (st, false);
      assert EmitTypedef(db, st, [1]) == st.Put(Full(1)) == st1;
    } else {
      assert st.Put(Full(1)).(flag := {1, 2} - {1}) == st1;
      assert Emits(db, st1, [], false) == (st1, false);
      assert Emits(db, st, [1], false) == (st1, false);
      assert Emits(db, st, [0, 1], false) == (st1, false);
      assert EmitTypedef(db, st1, [1]) == st1;
    }
  }

  /** The outer call for T, forward: the first declaration has lost its mark, and the second may have one. */
  lemma OuterCall(isTypedef: bool)
    ensures Sound(Example(isTypedef))
    ensures DeclareObject(Example(isTypedef), Bare({2}, {2}, {2}, []), [0, 1], false) ==
            Bare({0, 1, 2}, {0, 1, 2}, {2} + Marks(isTypedef), [Forward(1), Full(1)] + Again(isTypedef))
  {
    hide Forwards;
    hide ChainIncludes;
    hide MarkDue;
    hide EmitDue;
    hide Example;
    ExampleIsSound(isTypedef);
    var st1 := Bare({1, 2}, {2}, {2}, [Forward(1)]);
    OuterForwards(isTypedef);
    OuterMarks(isTypedef);
    NoIncludes(isTypedef, st1);
    OuterEmits(isTypedef);
    assert 0 in [0, 1];
  }

  lemma OuterMarks(isTypedef: bool)
    ensures Sound(Example(isTypedef)) && Chain(Example(isTypedef), [0, 1])
    ensures MarkDue(Example(isTypedef), Bare({1, 2}, {2}, {2}, [Forward(1)]), [0, 1], false) ==
            Bare({0, 1, 2}, {0, 2}, {0, 2}, [Forward(1)])
  {
    ExampleIsSound(isTypedef);
    assert 0 in [0, 1];
  }

  lemma OuterForwards(isTypedef: bool)
    ensures Sound(Example(isTypedef)) && Chain(Example(isTypedef), [0, 1])
    ensures Forwards(Example(isTypedef), Bare({2}, {2}, {2}, []), [0, 1], false) ==
            (Bare({1, 2}, {2}, {2}, [Forward(1)]), !isTypedef)
  {
    hide IsForwardTypedef;
    ExampleIsTame(isTypedef);
    ExampleIsSound(isTypedef);
    var db := Example(isTypedef);
    var st, st1 := Bare({2}, {2}, {2}, []), Bare({1, 2}, {2}, {2}, [Forward(1)]);
    assert [0, 1][1..] == [1] && [1][1..] == [];
    var marked := st.(forward := st.forward + {1});
    assert marked.forward == {1, 2};
    assert ChangeIfContext(db, marked, None) == marked;
    assert marked.Put(Forward(1)) == st1;
    assert Forwards(db, st1, [], !isTypedef) == (st1, !isTypedef);
    assert Forwards(db, st, [1], false) == (st1, !isTypedef);
  }

  lemma OuterEmits(isTypedef: bool)
    ensures Sound(Example(isTypedef)) && Chain(Example(isTypedef), [0, 1])
    ensures EmitDue(Example(isTypedef), Bare({0, 1, 2}, {0, 2}, {0, 2}, [Forward(1)]), [0, 1], !isTypedef) ==
            Bare({0, 1, 2}, {0, 1, 2}, {2} + Marks(isTypedef), [Forward(1), Full(1)] + Again(isTypedef))
  {
    hide UsesOf;
    hide ScanText;
    ExampleIsSound(isTypedef);
    var db := Example(isTypedef);
    assert [0, 1][1..] == [1] && [1][1..] == [];
    var st1 := Bare({0, 1, 2}, {0, 1, 2}, {2} + Marks(isTypedef), [Forward(1), Full(1)]);
    OuterScans(isTypedef);
    assert Emits(db, st1, [1], !isTypedef) == (st1, !isTypedef);
    assert Emits(db, st1, [0, 1], !isTypedef) == (st1, !isTypedef);
    assert Emit(db, st1, 1) == st1.Put(Full(1));
    assert EmitTypedef(db, st1, [1]) == if isTypedef then st1.Put(Full(1)) else st1;
  }

  lemma OuterScans(isTypedef: bool)
    ensures Sound(Example(isTypedef)) && Chain(Example(isTypedef), [0, 1])
    ensures Scans(Example(isTypedef), Bare({0, 1, 2}, {0, 2}, {0, 2}, [Forward(1)]), [0, 1]) ==
            Bare({0, 1, 2}, {0, 1, 2}, {2} + Marks(isTypedef), [Forward(1), Full(1)])
  {
    hide DeclareObject;
    hide UsesOf;
    ExampleIsSound(isTypedef);
    TextsOfExample(isTypedef);
    var db := Example(isTypedef);
    var st := Bare({0, 1, 2}, {0, 2}, {0, 2}, [Forward(1)]);
    var st1 := Bare({0, 1, 2}, {0, 1, 2}, {2} + Marks(isTypedef), [Forward(1), Full(1)]);
    assert [0, 1][1..] == [1] && [1][1..] == [];
    InnerCall(isTypedef, [Forward(1)]);
    ScanOne(db, st, Use("T", true), st1);
    assert ScanDecl(db, st, 0) == st1;
    SettledCall(isTypedef, st1, "T", true);
    ScanOne(db, st1, Use("T", true), st1);
    assert ScanDecl(db, st1, 1) == st1;
    assert Scans(db, st1, [1]) == st1;
  }

  lemma CallForC(isTypedef: bool)
    ensures Sound(Example(isTypedef))
    ensures DeclareObject(Example(isTypedef), Bare({}, {}, {}, []), [2], true) ==
            Bare({0, 1, 2}, {0, 1, 2}, Marks(isTypedef), [Forward(1), Full(1)] + Again(isTypedef) + [Full(2)])
  {
    ExampleIsSound(isTypedef);
    var db := Example(isTypedef);
    var st := Bare({}, {}, {}, []);
    assert [2][1..] == [];
    ForwardsIdle(db, st, [2], false);
    assert 2 in [2];
    NoIncludes(isTypedef, st);
    assert MarkDue(db, st, [2], true) == Bare({2}, {2}, {2}, []);
    hide Forwards;
    EmitsForC(isTypedef);
  }

  lemma ScansForC(isTypedef: bool)
    ensures Sound(Example(isTypedef)) && Chain(Example(isTypedef), [2])
    ensures Scans(Example(isTypedef), Bare({2}, {2}, {2}, []), [2]) ==
            Bare({0, 1, 2}, {0, 1, 2}, {2} + Marks(isTypedef), [Forward(1), Full(1)] + Again(isTypedef))
  {
    hide DeclareObject;
    hide UsesOf;
    ExampleIsSound(isTypedef);
    TextsOfExample(isTypedef);
    var db := Example(isTypedef);
    var st1 := Bare({2}, {2}, {2}, []);
    var st2 := Bare({0, 1, 2}, {0, 1, 2}, {2} + Marks(isTypedef), [Forward(1), Full(1)] + Again(isTypedef));
    assert [2][1..] == [] && [Use("C", true), Use("T", false)][1..] == [Use("T", false)];
    SettledCall(isTypedef, st1, "C", true);
    OuterCall(isTypedef);
    ScanOne(db, st1, Use("T", false), st2);
    assert ScanText(db, st1, [Use("C", true), Use("T", false)]) == st2;
    assert ScanDecl(db, st1, 2) == st2;
  }

  lemma EmitsForC(isTypedef: bool)
    ensures Sound(Example(isTypedef)) && Chain(Example(isTypedef), [2])
    ensures EmitDue(Example(isTypedef), Bare({2}, {2}, {2}, []), [2], false) ==
            Bare({0, 1, 2}, {0, 1, 2}, Marks(isTypedef), [Forward(1), Full(1)] + Again(isTypedef) + [Full(2)])
  {
    hide DeclareObject;
    hide ScanText;
    hide UsesOf;
    ExampleIsSound(isTypedef);
    var db := Example(isTypedef);
    var st2 := Bare({0, 1, 2}, {0, 1, 2}, {2} + Marks(isTypedef), [Forward(1), Full(1)] + Again(isTypedef));
    assert [2][1..] == [];
    ScansForC(isTypedef);
    assert Emit(db, st2, 2) == st2.Put(Full(2));
    var st3 := Bare({0, 1, 2}, {0, 1, 2}, Marks(isTypedef), st2.out + [Full(2)]);
    assert Emits(db, st2, [2], false) == (st3, false) by {
      assert st2.Put(Full(2)).(flag := st2.flag - {2}) == st3;
      assert Emits(db, st3, [], false) == (st3, false);
    }
    assert EmitTypedef(db, st3, [2]) == st3;
  }

  lemma HeaderOfC(isTypedef: bool)
    ensures Sound(Example(isTypedef)) && Indexed(Example(isTypedef))
    ensures MakeHeader(Example(isTypedef), "a.c", {}, ["C"]) ==
            Sweep(Bare({0, 1, 2}, {0, 1, 2}, Marks(isTypedef), [Forward(1), Full(1)] + Again(isTypedef) + [Full(2)]),
                  false, false)
  {
    hide DeclareObject;
    ExampleIsSound(isTypedef);
    var db := Example(isTypedef);
    assert Elsewhere(db, "a.c") == {};
    assert NeedAll(["C"]) == [Use("C", true)];
    CallForC(isTypedef);
    var st := Bare({}, {}, {}, []);
    var out := [Forward(1), Full(1)] + Again(isTypedef) + [Full(2)];
    var st1 := Bare({0, 1, 2}, {0, 1, 2}, Marks(isTypedef), out);
    ScanOne(db, st, Use("C", true), st1);
    assert CompleteOnce(db, st1, 3) == Sweep(st1, false, false);
    assert CompleteOnce(db, st1, 2) == Sweep(st1, false, false);
    assert CompleteOnce(db, st1, 1) == Sweep(st1, false, false);
  }

  /** What `IsTame` is for: a header with the full text of a typedef twice. */
  lemma TypedefTwice()
    ensures Sound(Example(true)) && Indexed(Example(true)) && !IsTame(Example(true).decls[1])
    ensures Count(MakeHeader(Example(true), "a.c", {}, ["C"]).st.out, Full(1)) == 2
  {
    hide MakeHeader;
    hide Sound;
    hide Indexed;
    HeaderOfC(true);
    ExampleIsSound(true);
    CountTwice();
  }

  lemma CountTwice()
    ensures Count([Forward(1), Full(1)] + Again(true) + [Full(2)], Full(1)) == 2
  {
    var out := [Forward(1), Full(1), Full(1), Full(2)];
    assert [Forward(1), Full(1)] + Again(true) + [Full(2)] == out;
    assert out[..3] == [Forward(1), Full(1), Full(1)];
    assert out[..3][..2] == [Forward(1), Full(1)];
    assert [Forward(1), Full(1)][..1] == [Forward(1)];
    assert Count([Forward(1)], Full(1)) == 0;
    assert Count([Forward(1), Full(1)], Full(1)) == 1;
  }

  /** A header without a text that counts as declared: the function T is not due together with the structure T, so the
      call for T in the function's own text takes the mark off the function. */
  lemma TextLost()
    ensures Sound(Example(false)) && Indexed(Example(false)) && forall d :: d in Example(false).decls ==> IsTame(d)
    ensures var r := MakeHeader(Example(false), "a.c", {}, ["C"]);
            !r.failed && 0 in r.st.declared && Full(0) !in r.st.out
  {
    hide MakeHeader;
    hide Sound;
    hide Indexed;
    HeaderOfC(false);
    ExampleIsSound(false);
  }
}
