/** What is in a finished header: the lines that its texts ask for, and only what is needed. */
module HeaderContents {
  import opened Options
  import opened HeaderSpec
  import opened HeaderLaws
  import opened HeaderRuns
  import opened HeaderOrder
  import opened HeaderPrecedence
  import opened HeaderMarks
  import opened HeaderComplete
  import opened HeaderPresence

  // A watch over a whole header.

  /** What was forward declared before, and not declared, is needed. */
  ghost predicate CanBeDone(db: Database, w: Watch) {
    forall p :: p in w.known && p !in w.base ==> IsNeeded(db, w, p)
  }

  lemma {:induction false} CompleteOnceGood(db: Database, w: Watch, st: State, p: nat)
    requires Watched(db, w) && CanBeDone(db, w) && Good(db, w, st, false) && p <= |db.decls|
    ensures Good(db, w, CompleteOnce(db, st, p).st, false)
    decreases |db.decls| - p
  {
    hide Kept;
    hide AllGrounded;
    hide Marked;
    hide Proper;
    hide Closed;
    hide DeclareObject;
    hide ChainFrom;
    hide Left;
    hide Named;
    hide Distinct;
    if p < |db.decls| {
      if p !in st.forward || p in st.declared {
        CompleteOnceGood(db, w, st, p + 1);
      } else {
        var ps := ChainFrom(db, p);
        RestIsNamed(db, p);
        DeclareObjectGood(db, w, st, false, false, ps, true, db.decls[p].name);
        CompleteOnceGood(db, w, DeclareObject(db, st, ps, true), p + 1);
      }
    }
  }

  lemma {:induction false} CompleteGood(db: Database, w: Watch, st: State)
    requires Watched(db, w) && CanBeDone(db, w) && Good(db, w, st, false)
    ensures Good(db, w, Complete(db, st).st, false)
    decreases Left(db, st)
  {
    hide Good;
    hide Closed;
    hide CompleteOnce;
    var r := CompleteOnce(db, st, 0);
    CompleteOnceGood(db, w, st, 0);
    if r.progress && !r.failed {
      CompleteGood(db, w, r.st);
    }
  }

  /** A watch that begins with the header. */
  function Over(db: Database, file: string, marks: set<nat>, needed: set<string>, called: set<string>, x: Item): Watch {
    Watch(Elsewhere(db, file), Elsewhere(db, file), [], needed, called, x, marks, {})
  }

  ghost predicate AllIn(db: Database, names: seq<string>, needed: set<string>) {
    forall k :: 0 <= k < |names| && names[k] in db.chains ==> names[k] in needed
  }

  lemma MakeHeaderGood(db: Database, file: string, marks: set<nat>, names: seq<string>, needed: set<string>,
                       called: set<string>, x: Item)
    requires Watched(db, Over(db, file, marks, needed, called, x)) && AllIn(db, names, needed)
    ensures Good(db, Over(db, file, marks, needed, called, x), MakeHeader(db, file, marks, names).st, false)
  {
    var w := Over(db, file, marks, needed, called, x);
    var st := Start(db, file, marks);
    assert Good(db, w, st, false);
    hide Good;
    hide Closed;
    hide Elsewhere;
    ScanTextGood(db, w, st, false, false, NeedAll(names));
    CompleteGood(db, w, ScanText(db, st, NeedAll(names)));
    var r := Complete(db, ScanText(db, st, NeedAll(names)));
    if !r.failed {
      ChangeIfContextGood(db, w, r.st, false, false, None);
    }
  }

  lemma AllNamesAreClosed(db: Database)
    ensures Closed(db, db.chains.Keys)
  {
  }

  lemma ClosedPart(db: Database, names: set<string>)
    requires Closed(db, names)
    ensures Closed(db, names * db.chains.Keys)
    ensures forall zIf :: ConditionWithin(db, zIf, names) ==> ConditionWithin(db, zIf, names * db.chains.Keys)
  {
    hide UsesOf;
  }

  lemma WatchLine(db: Database, file: string, marks: set<nat>, names: seq<string>, x: Item)
    requires Sound(db) && Indexed(db)
    requires x.IncludeLine? || (x.Forward? && x.p < |db.decls| && db.decls[x.p].zFwd.Some?)
    ensures var w := Over(db, file, marks, db.chains.Keys, db.chains.Keys, x);
            Good(db, w, MakeHeader(db, file, marks, names).st, false)
  {
    hide Good;
    hide MakeHeader;
    hide UsesOf;
    AllNamesAreClosed(db);
    MakeHeaderGood(db, file, marks, names, db.chains.Keys, db.chains.Keys, x);
  }

  // The lines of a header.

  /** The label of an `#include` is on record exactly if its line is in the header, once. */
  lemma LabelsExactly(db: Database, file: string, marks: set<nat>, names: seq<string>, inc: Include)
    requires Sound(db) && Indexed(db)
    ensures var st := MakeHeader(db, file, marks, names).st;
            Count(st.out, IncludeLine(inc)) == if inc.tag in st.table then 1 else 0
  {
    hide MakeHeader;
    hide Wants;
    hide AllGrounded;
    hide Proper;
    var st := MakeHeader(db, file, marks, names).st;
    var x := IncludeLine(inc);
    WatchLine(db, file, marks, names, x);
    HeaderIsProper(db, file, marks, names);
    MakeHeaderKeeps(db, file, marks, names, x);
    CountIsIn(st.out, x);
  }

  lemma GivenIsIn(out: seq<Item>, p: nat)
    requires Count(out, Full(p)) > 0
    ensures exists k :: 0 <= k < |out| && out[k] == Full(p)
  {
    CountIsIn(out, Full(p));
  }

  /** A text in a header is that of a declaration that is not local to another file, and it is on record. */
  lemma TextIsDeclared(db: Database, file: string, marks: set<nat>, names: seq<string>, p: nat)
    requires Sound(db) && Indexed(db)
    ensures var st := MakeHeader(db, file, marks, names).st;
            Given(st, p) > 0 ==>
              && p < |db.decls| && db.decls[p].zDecl.Some? && p in st.declared
              && !IsElsewhere(db, file, p)
  {
    hide MakeHeader;
    hide Kept;
    hide Proper;
    hide UsesProvided;
    var st := MakeHeader(db, file, marks, names).st;
    WatchLine(db, file, marks, names, IncludeLine(Include("", None, "")));
    if Given(st, p) > 0 {
      GivenIsIn(st.out, p);
    }
  }

  /** Every `#include` of a declaration whose text is in the header is in it, once. */
  lemma IncludesAreThere(db: Database, file: string, marks: set<nat>, names: seq<string>, p: nat, k: nat)
    requires Sound(db) && Indexed(db) && Given(MakeHeader(db, file, marks, names).st, p) > 0
    requires p < |db.decls| && k < |db.decls[p].includes|
    ensures Count(MakeHeader(db, file, marks, names).st.out, IncludeLine(db.decls[p].includes[k])) == 1
  {
    hide MakeHeader;
    hide Wants;
    hide AllGrounded;
    hide Proper;
    var inc := db.decls[p].includes[k];
    TextIsDeclared(db, file, marks, names, p);
    LabelsExactly(db, file, marks, names, inc);
    WatchLine(db, file, marks, names, IncludeLine(inc));
  }

  /** A forward declaration is in the header, once, exactly if it is on record in this file; a typedef on record may be
      left out if one for the same name is there. */
  lemma ForwardsExactly(db: Database, file: string, marks: set<nat>, names: seq<string>, p: nat)
    requires Sound(db) && Indexed(db) && p < |db.decls| && db.decls[p].zFwd.Some?
    ensures var st := MakeHeader(db, file, marks, names).st;
            var n := Count(st.out, Forward(p));
            if IsElsewhere(db, file, p) || p !in st.forward then n == 0
            else
              n == 1 || (n == 0 && IsForwardTypedef(db.decls[p]) && TypedefIn(db, st.out, db.decls[p].name))
  {
    hide MakeHeader;
    hide Wants;
    hide AllGrounded;
    hide Proper;
    hide TypedefIn;
    hide IsForwardTypedef;
    var st := MakeHeader(db, file, marks, names).st;
    WatchLine(db, file, marks, names, Forward(p));
    HeaderIsProper(db, file, marks, names);
    MakeHeaderKeeps(db, file, marks, names, Forward(p));
    CountIsIn(st.out, Forward(p));
  }

  // The order of lines.

  /** A line that a text asks for stands before the text, unless the line's own condition calls for that text. */
  lemma StandsBefore(db: Database, file: string, marks: set<nat>, names: seq<string>, called: set<string>, x: Item,
                     k: nat)
    requires Sound(db) && Indexed(db) && Closed(db, called)
    requires match x
             case IncludeLine(inc) =>
               forall d, i :: d in db.decls && i in d.includes && i.tag == inc.tag ==>
                 ConditionWithin(db, i.zIf, called)
             case Forward(p) =>
               p < |db.decls| && db.decls[p].zFwd.Some? && !IsElsewhere(db, file, p) &&
               ConditionWithin(db, db.decls[p].zIf, called)
             case _ => false
    requires var out := MakeHeader(db, file, marks, names).st.out;
             && k < |out| && out[k].Full? && Wants(db, out[k].p, x)
             && out[k].p < |db.decls| && db.decls[out[k].p].name !in called
    ensures Shown(db, MakeHeader(db, file, marks, names).st.out[..k], x)
  {
    hide MakeHeader;
    hide Wants;
    hide AllGrounded;
    hide Proper;
    hide Shown;
    hide UsesOf;
    var names' := called * db.chains.Keys;
    AllNamesAreClosed(db);
    ClosedPart(db, called);
    hide Closed;
    hide ConditionWithin;
    MakeHeaderGood(db, file, marks, names, db.chains.Keys, names', x);
  }

  /** Where a text or a condition stands, all that it uses is provided. */
  lemma UsesAreProvided(db: Database, file: string, marks: set<nat>, names: seq<string>, k: nat)
    requires Sound(db) && Indexed(db) && k < |MakeHeader(db, file, marks, names).st.out|
    ensures var st := MakeHeader(db, file, marks, names).st;
            match st.out[k]
            case Full(p) =>
              p < |db.decls| && db.decls[p].zDecl.Some? && UsesProvided(db, st, UsesOf(db, Searched(db.decls[p])))
            case If(c) => UsesProvided(db, st, UsesOf(db, c))
            case _ => true
  {
    hide MakeHeader;
    hide Kept;
    hide Proper;
    hide UsesProvided;
    hide UsesOf;
    WatchLine(db, file, marks, names, IncludeLine(Include("", None, "")));
  }

  /** A finished header leaves nothing only forward declared. */
  lemma FinishedIsComplete(db: Database, file: string, marks: set<nat>, names: seq<string>)
    requires Sound(db) && Indexed(db) && !MakeHeader(db, file, marks, names).failed
    ensures AllComplete(db, MakeHeader(db, file, marks, names).st, 0)
  {
    hide Complete;
    hide ScanText;
    CompleteMeaning(db, ScanText(db, Start(db, file, marks), NeedAll(names)));
  }

  /** What a text or a condition in a finished header uses is in it, too: the forward declarations of the name, and the
      texts of a whole name. */
  lemma UsedIsThere(db: Database, file: string, marks: set<nat>, names: seq<string>, k: nat, u: Use, q: nat)
    requires Sound(db) && Indexed(db) && !MakeHeader(db, file, marks, names).failed
    requires u.name in db.chains && q in db.chains[u.name] && !IsElsewhere(db, file, q)
    requires var out := MakeHeader(db, file, marks, names).st.out;
             k < |out| &&
             match out[k]
             case Full(p) => p < |db.decls| && db.decls[p].zDecl.Some? && u in UsesOf(db, Searched(db.decls[p]))
             case If(c) => u in UsesOf(db, c)
             case _ => false
    ensures var st := MakeHeader(db, file, marks, names).st;
            && q < |db.decls|
            && (db.decls[q].zFwd.Some? ==> Shown(db, st.out, Forward(q)))
            && (IsWhole(db, file, u.name) && IsSingle(db, file, q) ==> Given(st, q) == 1)
  {
    hide MakeHeader;
    hide UsesOf;
    hide Shown;
    hide IsWhole;
    hide Count;
    hide IsSingle;
    var st := MakeHeader(db, file, marks, names).st;
    OfItsName(db, u.name, q);
    hide Indexed;
    UsesAreProvided(db, file, marks, names, k);
    assert Provided(db, st, db.chains[u.name], u.full);
    if db.decls[q].zFwd.Some? {
      ForwardIsShown(db, file, marks, names, q);
    }
    if IsWhole(db, file, u.name) && IsSingle(db, file, q) {
      FinishedIsComplete(db, file, marks, names);
      WholeHasTexts(db, file, u.name, q);
      DeclaredIsGiven(db, file, marks, names, q);
    }
  }

  lemma ForwardIsShown(db: Database, file: string, marks: set<nat>, names: seq<string>, q: nat)
    requires Sound(db) && Indexed(db) && q < |db.decls| && db.decls[q].zFwd.Some? && !IsElsewhere(db, file, q)
    requires q in MakeHeader(db, file, marks, names).st.forward
    ensures Shown(db, MakeHeader(db, file, marks, names).st.out, Forward(q))
  {
    hide MakeHeader;
    ForwardsExactly(db, file, marks, names, q);
    CountIsIn(MakeHeader(db, file, marks, names).st.out, Forward(q));
  }

  lemma WholeHasTexts(db: Database, file: string, name: string, q: nat)
    requires Sound(db) && name in db.chains && IsWhole(db, file, name)
    requires q in db.chains[name] && q < |db.decls| && !IsElsewhere(db, file, q)
    ensures db.decls[q].zDecl.Some?
  {
    ElsewhereMeans(db, file, q);
  }

  /** Nothing is in a header but what is needed: if the names, and all that is used under them, stay within a set of
      names, so does each line. */
  lemma OnlyNeededIsThere(db: Database, file: string, marks: set<nat>, names: seq<string>, needed: set<string>, k: nat)
    requires Sound(db) && Indexed(db) && Closed(db, needed) && AllIn(db, names, needed)
    requires k < |MakeHeader(db, file, marks, names).st.out|
    ensures match MakeHeader(db, file, marks, names).st.out[k]
            case Full(p) => p < |db.decls| && db.decls[p].name in needed && !IsElsewhere(db, file, p)
            case Forward(p) => p < |db.decls| && db.decls[p].name in needed && !IsElsewhere(db, file, p)
            case If(c) => IsCondition(db, needed, c)
            case IncludeLine(inc) => exists d :: d in db.decls && d.name in needed && inc in d.includes
            case EndIf => true
  {
    hide MakeHeader;
    hide Kept;
    hide Proper;
    hide UsesProvided;
    hide IsCondition;
    hide UsesOf;
    var x := IncludeLine(Include("", None, ""));
    MakeHeaderGood(db, file, marks, names, needed, needed, x);
  }
}
