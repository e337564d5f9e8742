/** Whole headers: what the generator makes of a list of names. */
module HeaderRuns {
  import opened Options
  import opened HeaderSpec
  import opened HeaderLaws

  // What one call provides.

  /** What is wanted of a chain is on record. */
  ghost predicate Provided(db: Database, st: State, ps: seq<nat>, full: bool)
    requires Chain(db, ps)
  {
    forall p :: p in ps ==>
      && (db.decls[p].zFwd.Some? ==> p in st.forward)
      && (db.decls[p].zDecl.Some? && (full || db.decls[p].zFwd.None?) ==> p in st.declared)
  }

  lemma {:induction false} ForwardsAll(db: Database, st: State, ps: seq<nat>, doneTypedef: bool)
    requires Sound(db) && Chain(db, ps)
    ensures forall p :: p in ps && db.decls[p].zFwd.Some? ==> p in Forwards(db, st, ps, doneTypedef).0.forward
    decreases |ps|
  {
    hide ChangeIfContext;
    if ps != [] {
      var d := db.decls[ps[0]];
      if d.zFwd.None? || ps[0] in st.forward {
        ForwardsAll(db, st, ps[1..], doneTypedef);
      } else {
        var st1 := st.(forward := st.forward + {ps[0]});
        if IsForwardTypedef(d) && doneTypedef {
          ForwardsAll(db, st1, ps[1..], true);
        } else {
          var st2 := ChangeIfContext(db, st1, d.zIf).Put(Forward(ps[0]));
          ForwardsAll(db, st2, ps[1..], doneTypedef || IsForwardTypedef(d));
        }
      }
    }
  }

  /** A call gives a chain what is wanted of it. */
  lemma DeclareProvides(db: Database, st: State, ps: seq<nat>, full: bool)
    requires Sound(db) && Chain(db, ps) && Proper(db, st)
    ensures Provided(db, DeclareObject(db, st, ps, full), ps, full)
  {
    hide Forwards;
    hide ChainIncludes;
    hide EmitDue;
    hide WellPlaced;
    hide Context;
    hide Count;
    ForwardsAll(db, st, ps, false);
    ForwardsKeeps(db, st, ps, false, Forward(0));
  }

  lemma ProvidedStays(db: Database, st: State, st': State, ps: seq<nat>, full: bool)
    requires Chain(db, ps) && Grows(st, st') && Provided(db, st, ps, full)
    ensures Provided(db, st', ps, full)
  {
  }

  /** Behind a text's search, all that it uses is provided. */
  lemma {:induction false} ScanProvides(db: Database, st: State, uses: seq<Use>, k: nat)
    requires Sound(db) && Proper(db, st) && k < |uses| && uses[k].name in db.chains
    ensures Provided(db, ScanText(db, st, uses), db.chains[uses[k].name], uses[k].full)
    decreases |uses|
  {
    hide DeclareObject;
    hide Proper;
    hide Provided;
    if uses[0].name !in db.chains {
      ScanProvides(db, st, uses[1..], k - 1);
    } else {
      var st1 := DeclareObject(db, st, db.chains[uses[0].name], uses[0].full);
      if k == 0 {
        DeclareProvides(db, st, db.chains[uses[0].name], uses[0].full);
        ProvidedStays(db, st1, ScanText(db, st1, uses[1..]), db.chains[uses[0].name], uses[0].full);
      } else {
        DeclareObjectKeeps(db, st, db.chains[uses[0].name], uses[0].full, Forward(0));
        ScanProvides(db, st1, uses[1..], k - 1);
      }
    }
  }

  // A header.

  /** What is local to other files. */
  function Elsewhere(db: Database, file: string): set<nat> {
    set p | p in All(db) && db.decls[p].isLocal && db.decls[p].file != file
  }

  /** Local to another file. */
  predicate IsElsewhere(db: Database, file: string, p: nat) {
    p < |db.decls| && db.decls[p].isLocal && db.decls[p].file != file
  }

  lemma ElsewhereMeans(db: Database, file: string, p: nat)
    ensures p in Elsewhere(db, file) <==> IsElsewhere(db, file, p)
  {
  }

  /** The start: what is local to other files counts as declared; the marks are left over from headers before. */
  function Start(db: Database, file: string, marks: set<nat>): State {
    State(Elsewhere(db, file), Elsewhere(db, file), marks, {}, None, [])
  }

  /** All names are needed in full. */
  function NeedAll(names: seq<string>): (r: seq<Use>)
    ensures |r| == |names|
    ensures forall k :: 0 <= k < |r| ==> r[k] == Use(names[k], true)
  {
    if names == [] then [] else [Use(names[0], true)] + NeedAll(names[1..])
  }

  /** The rest of a list from an element on. */
  function From(ps: seq<nat>, p: nat): (r: seq<nat>)
    requires p in ps
    ensures r != [] && r[0] == p && |r| <= |ps| && r == ps[|ps| - |r|..]
  {
    if ps[0] == p then ps else From(ps[1..], p)
  }

  /** The declarations that share a declaration's name, from that declaration on. */
  function ChainFrom(db: Database, p: nat): (r: seq<nat>)
    requires Sound(db) && Indexed(db) && p < |db.decls|
    ensures r != [] && r[0] == p && Chain(db, r)
  {
    From(db.chains[db.decls[p].name], p)
  }

  datatype Sweep = Sweep(st: State, progress: bool, failed: bool)

  /** Complete all declarations from `p` on that are only forward declared; stop at one that cannot be completed. */
  function CompleteOnce(db: Database, st: State, p: nat): (r: Sweep)
    requires Sound(db) && Indexed(db) && p <= |db.decls|
    ensures Grows(st, r.st)
    ensures r.progress && !r.failed ==> Left(db, r.st) < Left(db, st)
    ensures r.failed ==> r.progress
    decreases |db.decls| - p
  {
    if p == |db.decls| then Sweep(st, false, false)
    else if p !in st.forward || p in st.declared then CompleteOnce(db, st, p + 1)
    else
      var st1 := DeclareObject(db, st, ChainFrom(db, p), true);
      if p !in st1.declared then Sweep(st1, true, true)
      else
        var r := CompleteOnce(db, st1, p + 1);
        LeftShrinks(db, st, r.st);
        r.(progress := true)
  }

  /** Complete what is only forward declared, until nothing is. */
  function Complete(db: Database, st: State): (r: Sweep)
    requires Sound(db) && Indexed(db)
    ensures Grows(st, r.st)
    decreases Left(db, st)
  {
    var r := CompleteOnce(db, st, 0);
    if r.progress && !r.failed then Complete(db, r.st) else r
  }

  /** The header of a list of names. */
  function MakeHeader(db: Database, file: string, marks: set<nat>, names: seq<string>): Sweep
    requires Sound(db) && Indexed(db)
  {
    var r := Complete(db, ScanText(db, Start(db, file, marks), NeedAll(names)));
    if r.failed then r else r.(st := ChangeIfContext(db, r.st, None))
  }

  // What whole headers keep.

  lemma {:induction false} CompleteOnceKeeps(db: Database, st: State, p: nat, x: Item)
    requires Sound(db) && Indexed(db) && p <= |db.decls| && IsCounted(db, x)
    ensures Keeps(db, st, CompleteOnce(db, st, p).st, x)
    decreases |db.decls| - p
  {
    hide Keeps;
    hide DeclareObject;
    hide ChainFrom;
    if p == |db.decls| {
      KeepsStill(db, st, x);
    } else {
      if p !in st.forward || p in st.declared {
        CompleteOnceKeeps(db, st, p + 1, x);
      } else {
        var st1 := DeclareObject(db, st, ChainFrom(db, p), true);
        DeclareObjectKeeps(db, st, ChainFrom(db, p), true, x);
        if p in st1.declared {
          CompleteOnceKeeps(db, st1, p + 1, x);
          KeepsOn(db, st, st1, CompleteOnce(db, st1, p + 1).st, x);
        }
      }
    }
  }

  lemma {:induction false} CompleteKeeps(db: Database, st: State, x: Item)
    requires Sound(db) && Indexed(db) && IsCounted(db, x)
    ensures Keeps(db, st, Complete(db, st).st, x)
    decreases Left(db, st)
  {
    var r := CompleteOnce(db, st, 0);
    CompleteOnceKeeps(db, st, 0, x);
    if r.progress && !r.failed {
      CompleteKeeps(db, r.st, x);
      KeepsOn(db, st, r.st, Complete(db, st).st, x);
    }
  }

  lemma MakeHeaderKeeps(db: Database, file: string, marks: set<nat>, names: seq<string>, x: Item)
    requires Sound(db) && Indexed(db) && IsCounted(db, x)
    ensures Keeps(db, Start(db, file, marks), MakeHeader(db, file, marks, names).st, x)
  {
    hide Keeps;
    var st := Start(db, file, marks);
    var st1 := ScanText(db, st, NeedAll(names));
    ScanTextKeeps(db, st, NeedAll(names), x);
    CompleteKeeps(db, st1, x);
    var r := Complete(db, st1);
    KeepsOn(db, st, st1, r.st, x);
    if !r.failed {
      ChangeIfContextKeeps(db, r.st, None, x);
      KeepsOn(db, st, r.st, ChangeIfContext(db, r.st, None), x);
    }
  }

  /** In any header of any database every `#if` has its `#endif`, none is inside another, every line is within exactly
      the `#if` that its declaration or `#include` asks for, and no `#include`, no forward declaration and no full
      text is there twice; for the full text the declaration must be tame. */
  lemma HeaderIsProper(db: Database, file: string, marks: set<nat>, names: seq<string>)
    requires Sound(db) && Indexed(db)
    ensures var r := MakeHeader(db, file, marks, names);
            && WellPlaced(db, r.st.out)
            && (!r.failed ==> Context(r.st.out) == None)
            && forall x :: IsCounted(db, x) ==> Count(r.st.out, x) <= 1
  {
    hide MakeHeader;
    var r := MakeHeader(db, file, marks, names);
    forall x | IsCounted(db, x)
      ensures Proper(db, r.st) && Count(r.st.out, x) <= 1
    {
      MakeHeaderKeeps(db, file, marks, names, x);
    }
    assert IsCounted(db, Forward(0));
    HeaderEnds(db, file, marks, names);
  }

  lemma HeaderEnds(db: Database, file: string, marks: set<nat>, names: seq<string>)
    requires Sound(db) && Indexed(db)
    ensures var r := MakeHeader(db, file, marks, names);
            !r.failed ==> r.st.zIf == None
  {
  }

  /** From `p` on, what is forward declared is declared. */
  ghost predicate AllComplete(db: Database, st: State, p: nat) {
    forall q :: p <= q < |db.decls| && q in st.forward ==> q in st.declared
  }

  lemma {:induction false} CompleteOnceMeaning(db: Database, st: State, p: nat)
    requires Sound(db) && Indexed(db) && p <= |db.decls|
    ensures var r := CompleteOnce(db, st, p);
            !r.progress ==> r.st == st && AllComplete(db, st, p)
    decreases |db.decls| - p
  {
    hide DeclareObject;
    hide ChainFrom;
    hide Left;
    hide Sound;
    hide Indexed;
    if p < |db.decls| && (p !in st.forward || p in st.declared) {
      CompleteOnceMeaning(db, st, p + 1);
    }
  }

  lemma {:induction false} CompleteMeaning(db: Database, st: State)
    requires Sound(db) && Indexed(db) && !Complete(db, st).failed
    ensures AllComplete(db, Complete(db, st).st, 0)
    decreases Left(db, st)
  {
    hide CompleteOnce;
    CompleteOnceMeaning(db, st, 0);
    var r := CompleteOnce(db, st, 0);
    if r.progress {
      CompleteMeaning(db, r.st);
    }
  }

  /** A header that is finished gives each name all that it stands for, and leaves nothing only forward declared. */
  lemma HeaderProvides(db: Database, file: string, marks: set<nat>, names: seq<string>, k: nat)
    requires Sound(db) && Indexed(db) && !MakeHeader(db, file, marks, names).failed
    requires k < |names| && names[k] in db.chains
    ensures var st := MakeHeader(db, file, marks, names).st;
            Provided(db, st, db.chains[names[k]], true) && AllComplete(db, st, 0)
  {
    hide ScanText;
    hide Complete;
    hide Provided;
    var st := Start(db, file, marks);
    var st1 := ScanText(db, st, NeedAll(names));
    ScanProvides(db, st, NeedAll(names), k);
    CompleteMeaning(db, st1);
    ProvidedStays(db, st1, MakeHeader(db, file, marks, names).st, db.chains[names[k]], true);
  }

  // When completing fails.

  /** All that can be forward declared in the file can be declared. */
  ghost predicate CanComplete(db: Database, file: string) {
    forall p :: 0 <= p < |db.decls| && p !in Elsewhere(db, file) && db.decls[p].zFwd.Some? ==> db.decls[p].zDecl.Some?
  }

  lemma {:induction false} CompleteOnceSucceeds(db: Database, file: string, st: State, p: nat)
    requires Sound(db) && Indexed(db) && p <= |db.decls| && CanComplete(db, file)
    requires Proper(db, st) && Elsewhere(db, file) <= st.declared
    ensures !CompleteOnce(db, st, p).failed
    decreases |db.decls| - p
  {
    hide DeclareObject;
    hide ChainFrom;
    hide WellPlaced;
    hide Context;
    hide Elsewhere;
    if p < |db.decls| {
      if p !in st.forward || p in st.declared {
        CompleteOnceSucceeds(db, file, st, p + 1);
      } else {
        var ps := ChainFrom(db, p);
        DeclareProvides(db, st, ps, true);
        DeclareObjectKeeps(db, st, ps, true, Forward(0));
        assert ps[0] in ps;
        CompleteOnceSucceeds(db, file, DeclareObject(db, st, ps, true), p + 1);
      }
    }
  }

  lemma {:induction false} CompleteSucceeds(db: Database, file: string, st: State)
    requires Sound(db) && Indexed(db) && CanComplete(db, file)
    requires Proper(db, st) && Elsewhere(db, file) <= st.declared
    ensures !Complete(db, st).failed
    decreases Left(db, st)
  {
    hide CompleteOnce;
    hide Elsewhere;
    CompleteOnceSucceeds(db, file, st, 0);
    CompleteOnceKeeps(db, st, 0, Forward(0));
    var r := CompleteOnce(db, st, 0);
    if r.progress {
      CompleteSucceeds(db, file, r.st);
    }
  }

  /** Completing the forward declarations succeeds for all lists of names exactly when each declaration that has a
      forward declaration has a full text, too, or is local to another file. */
  lemma CompletesExactly(db: Database, file: string)
    requires Sound(db) && Indexed(db)
    ensures (forall marks, names :: !MakeHeader(db, file, marks, names).failed) <==> CanComplete(db, file)
  {
    hide Keeps;
    if CanComplete(db, file) {
      forall marks, names
        ensures !MakeHeader(db, file, marks, names).failed
      {
        HeaderSucceeds(db, file, marks, names);
      }
    } else {
      var p :| 0 <= p < |db.decls| && p !in Elsewhere(db, file) && db.decls[p].zFwd.Some? && db.decls[p].zDecl.None?;
      HeaderFails(db, file, p);
    }
  }

  lemma HeaderSucceeds(db: Database, file: string, marks: set<nat>, names: seq<string>)
    requires Sound(db) && Indexed(db) && CanComplete(db, file)
    ensures !MakeHeader(db, file, marks, names).failed
  {
    hide ScanText;
    hide Complete;
    hide Elsewhere;
    var st := Start(db, file, marks);
    ScanTextKeeps(db, st, NeedAll(names), Forward(0));
    CompleteSucceeds(db, file, ScanText(db, st, NeedAll(names)));
  }

  lemma HeaderFails(db: Database, file: string, p: nat)
    requires Sound(db) && Indexed(db) && p < |db.decls| && p !in Elsewhere(db, file)
    requires db.decls[p].zFwd.Some? && db.decls[p].zDecl.None?
    ensures MakeHeader(db, file, {}, [db.decls[p].name]).failed
  {
    hide MakeHeader;
    var r := MakeHeader(db, file, {}, [db.decls[p].name]);
    if !r.failed {
      HeaderProvides(db, file, {}, [db.decls[p].name], 0);
      MakeHeaderKeeps(db, file, {}, [db.decls[p].name], Full(p));
    }
  }
}
