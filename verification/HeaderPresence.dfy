/** What stands in a header: the lines that its texts ask for, each text behind them, and nothing that is not needed. */
module HeaderPresence {
  import opened Options
  import opened HeaderSpec
  import opened HeaderLaws
  import opened HeaderRuns
  import opened HeaderOrder
  import opened HeaderPrecedence
  import opened HeaderMarks

  // What a declaration calls for.

  ghost predicate Within(db: Database, uses: seq<Use>, names: set<string>) {
    forall u :: u in uses && u.name in db.chains ==> u.name in names
  }

  ghost predicate ConditionWithin(db: Database, zIf: Option<string>, names: set<string>) {
    zIf.Some? ==> Within(db, UsesOf(db, zIf.value), names)
  }

  /** The text, the condition and the conditions of the `#include`s use these names only. */
  ghost predicate DeclWithin(db: Database, d: Decl, names: set<string>) {
    && (d.zDecl.Some? ==> Within(db, UsesOf(db, Searched(d)), names))
    && ConditionWithin(db, d.zIf, names)
    && forall inc :: inc in d.includes ==> ConditionWithin(db, inc.zIf, names)
  }

  /** Whatever is declared under these names uses these names only. */
  ghost predicate Closed(db: Database, names: set<string>) {
    forall d :: d in db.decls && d.name in names ==> DeclWithin(db, d, names)
  }

  /** A watch over one line: what is forward declared, declared and written when the watch begins; the names that are
      needed, the names that the line's own condition calls for, and the line, an `#include` or a forward declaration;
      then the marks that may be left over from before, and the marked declarations whose texts are not searched yet. */
  datatype Watch = Watch(
    known: set<nat>, base: set<nat>, before: seq<Item>,
    needed: set<string>, called: set<string>, x: Item, stale: set<nat>, open: set<nat>)

  ghost predicate Watched(db: Database, w: Watch) {
    && Sound(db) && Indexed(db) && Closed(db, w.needed) && Closed(db, w.called) && w.called <= w.needed
    && match w.x
       case IncludeLine(inc) =>
         forall d, i :: d in db.decls && d.name in w.needed && i in d.includes && i.tag == inc.tag ==>
           ConditionWithin(db, i.zIf, w.called)
       case Forward(p) =>
         p < |db.decls| && db.decls[p].zFwd.Some? && ConditionWithin(db, db.decls[p].zIf, w.called)
       case _ => false
  }

  /** The names that may be met: inside the line's own condition only those that it calls for. */
  function Scope(w: Watch, deep: bool): set<string> {
    if deep then w.called else w.needed
  }

  // What is kept.

  predicate InOut(out: seq<Item>, x: Item) {
    exists k :: 0 <= k < |out| && Same(out[k], x)
  }

  /** A forward typedef of the name is in the header. */
  ghost predicate TypedefIn(db: Database, out: seq<Item>, name: string) {
    exists q: nat ::
      q < |db.decls| && db.decls[q].name == name && IsForwardTypedef(db.decls[q]) && InOut(out, Forward(q))
  }

  /** The line is in the header, or it is a typedef and one for the same name is. */
  ghost predicate Shown(db: Database, out: seq<Item>, x: Item) {
    || InOut(out, x)
    || (x.Forward? && x.p < |db.decls| && IsForwardTypedef(db.decls[x.p]) && TypedefIn(db, out, db.decls[x.p].name))
  }

  predicate HasLabel(d: Decl, tag: string) {
    exists k :: 0 <= k < |d.includes| && d.includes[k].tag == tag
  }

  /** The text of `p` asks for the line: for its own `#include`s and forward declaration, and for the forward
      declarations of all that it uses. */
  ghost predicate Wants(db: Database, p: nat, x: Item)
    requires Sound(db)
  {
    p < |db.decls| && db.decls[p].zDecl.Some? &&
    match x
    case IncludeLine(inc) => HasLabel(db.decls[p], inc.tag)
    case Forward(q) =>
      q == p || exists u :: u in UsesOf(db, Searched(db.decls[p])) && u.name in db.chains && q in db.chains[u.name]
    case _ => false
  }

  predicate IsForeign(w: Watch) {
    w.x.Forward? && w.x.p in w.known
  }

  /** The text asks for the line, and the line's condition does not call for the text. */
  ghost predicate WantsBefore(db: Database, w: Watch, item: Item)
    requires Sound(db)
  {
    item.Full? && Wants(db, item.p, w.x) && db.decls[item.p].name !in w.called
  }

  /** The line on record is shown unless it is still to come; it is on record for each declaration that has it; and each
      text that asks for it stands behind it. */
  ghost predicate Kept(db: Database, w: Watch, st: State, coming: bool)
    requires Sound(db)
  {
    && (coming ==> Has(st, w.x))
    && (Has(st, w.x) && !coming && !IsForeign(w) ==> Shown(db, st.out, w.x))
    && (w.x.IncludeLine? ==>
          forall q :: q in st.declared && q !in w.base && q < |db.decls| && HasLabel(db.decls[q], w.x.inc.tag) ==>
            w.x.inc.tag in st.table)
    && (!IsForeign(w) ==>
          forall k :: |w.before| <= k < |st.out| && WantsBefore(db, w, st.out[k]) ==> Shown(db, st.out[..k], w.x))
  }

  ghost predicate UsesProvided(db: Database, st: State, uses: seq<Use>)
    requires Sound(db)
  {
    forall u :: u in uses && u.name in db.chains ==> Provided(db, st, db.chains[u.name], u.full)
  }

  /** A condition of a declaration under these names, or of an `#include` of it. */
  ghost predicate IsCondition(db: Database, names: set<string>, c: string) {
    exists d :: d in db.decls && d.name in names &&
      (d.zIf == Some(c) || exists inc :: inc in d.includes && inc.zIf == Some(c))
  }

  ghost predicate IsNeeded(db: Database, w: Watch, p: nat) {
    p < |db.decls| && db.decls[p].name in w.needed
  }

  /** A line is there because a needed declaration has it, and what it uses is provided. */
  ghost predicate Grounded(db: Database, w: Watch, st: State, item: Item)
    requires Sound(db)
  {
    match item
    case Full(p) =>
      IsNeeded(db, w, p) && p in st.declared && p !in w.base && db.decls[p].zDecl.Some? &&
      UsesProvided(db, st, UsesOf(db, Searched(db.decls[p])))
    case If(c) => IsCondition(db, w.needed, c) && UsesProvided(db, st, UsesOf(db, c))
    case Forward(p) => IsNeeded(db, w, p) && p !in w.known && db.decls[p].zFwd.Some?
    case IncludeLine(inc) => exists d :: d in db.decls && d.name in w.needed && inc in d.includes
    case EndIf => true
  }

  ghost predicate AllGrounded(db: Database, w: Watch, st: State)
    requires Sound(db)
  {
    w.before <= st.out && forall k :: |w.before| <= k < |st.out| ==> Grounded(db, w, st, st.out[k])
  }

  /** Only what is needed is put on record. */
  ghost predicate OnlyNeeded(db: Database, w: Watch, st: State) {
    && w.known <= st.forward && w.base <= st.declared
    && forall p :: p in st.forward && p !in w.known ==> IsNeeded(db, w, p)
  }

  /** What is marked was marked for this header, and all that its text uses is provided, once it is searched. */
  ghost predicate Marked(db: Database, w: Watch, st: State)
    requires Sound(db)
  {
    forall q :: q in st.flag && q !in w.stale ==>
      && q < |db.decls| && q in st.declared && q !in w.base && db.decls[q].zDecl.Some?
      && (q !in w.open ==> UsesProvided(db, st, UsesOf(db, Searched(db.decls[q]))))
  }

  ghost predicate Good(db: Database, w: Watch, st: State, coming: bool)
    requires Sound(db)
  {
    && Proper(db, st) && OnlyNeeded(db, w, st) && Kept(db, w, st, coming) && AllGrounded(db, w, st)
    && Marked(db, w, st)
  }

  // Single steps.

  lemma ShownStays(db: Database, out: seq<Item>, item: Item, x: Item)
    requires Shown(db, out, x)
    ensures Shown(db, out + [item], x)
  {
    if InOut(out, x) {
      InOutStays(out, item, x);
    } else {
      var q: nat :| q < |db.decls| && db.decls[q].name == db.decls[x.p].name && IsForwardTypedef(db.decls[q]) &&
                    InOut(out, Forward(q));
      InOutStays(out, item, Forward(q));
    }
  }

  lemma InOutStays(out: seq<Item>, item: Item, x: Item)
    requires InOut(out, x)
    ensures InOut(out + [item], x)
  {
    var k :| 0 <= k < |out| && Same(out[k], x);
    assert (out + [item])[k] == out[k];
  }

  lemma InOutLast(out: seq<Item>, item: Item, x: Item)
    requires Same(item, x)
    ensures InOut(out + [item], x)
  {
    assert (out + [item])[|out|] == item;
  }

  lemma LineIsShown(db: Database, out: seq<Item>, item: Item, x: Item)
    requires Same(item, x)
    ensures Shown(db, out + [item], x)
  {
    InOutLast(out, item, x);
  }

  lemma PutKept(db: Database, w: Watch, st: State, coming: bool, item: Item, coming': bool)
    requires Sound(db) && Kept(db, w, st, coming) && (coming' ==> coming)
    requires coming && !coming' ==> Same(item, w.x)
    requires WantsBefore(db, w, item) && !IsForeign(w) ==> Shown(db, st.out, w.x)
    ensures Kept(db, w, st.Put(item), coming')
  {
    hide Shown;
    hide WantsBefore;
    hide HasLabel;
    hide InOut;
    var out := st.Put(item).out;
    if coming && !coming' {
      LineIsShown(db, st.out, item, w.x);
    } else if Shown(db, st.out, w.x) {
      ShownStays(db, st.out, item, w.x);
    }
    forall k | 0 <= k < |out|
      ensures k < |st.out| ==> out[k] == st.out[k] && out[..k] == st.out[..k]
      ensures k == |st.out| ==> out[k] == item && out[..k] == st.out
    {
    }
  }

  lemma StillProvided(db: Database, st: State, st': State, uses: seq<Use>)
    requires Sound(db) && Grows(st, st') && UsesProvided(db, st, uses)
    ensures UsesProvided(db, st', uses)
  {
    hide Provided;
    forall u | u in uses && u.name in db.chains
      ensures Provided(db, st', db.chains[u.name], u.full)
    {
      ProvidedStays(db, st, st', db.chains[u.name], u.full);
    }
  }

  lemma StillGrounded(db: Database, w: Watch, st: State, st': State, item: Item)
    requires Sound(db) && Grows(st, st') && Grounded(db, w, st, item)
    ensures Grounded(db, w, st', item)
  {
    hide UsesProvided;
    hide IsCondition;
    hide UsesOf;
    match item
    case Full(p) => StillProvided(db, st, st', UsesOf(db, Searched(db.decls[p])));
    case If(c) => StillProvided(db, st, st', UsesOf(db, c));
    case _ =>
  }

  lemma AllStillGrounded(db: Database, w: Watch, st: State, st': State)
    requires Sound(db) && Grows(st, st') && AllGrounded(db, w, st)
    ensures forall k :: |w.before| <= k < |st.out| ==> Grounded(db, w, st', st.out[k])
  {
    hide Grounded;
    forall k | |w.before| <= k < |st.out|
      ensures Grounded(db, w, st', st.out[k])
    {
      StillGrounded(db, w, st, st', st.out[k]);
    }
  }

  lemma StillMarked(db: Database, w: Watch, st: State, st': State)
    requires Sound(db) && Grows(st, st') && st'.flag <= st.flag && Marked(db, w, st)
    ensures Marked(db, w, st')
  {
    hide UsesOf;
    hide UsesProvided;
    forall q | q in st'.flag && q !in w.stale && q !in w.open
      ensures UsesProvided(db, st', UsesOf(db, Searched(db.decls[q])))
    {
      StillProvided(db, st, st', UsesOf(db, Searched(db.decls[q])));
    }
  }

  /** More marks may be left over, more texts still to be searched. */
  lemma WeakerGood(db: Database, w: Watch, w': Watch, st: State, coming: bool)
    requires Sound(db) && Good(db, w, st, coming) && w' == w.(stale := w'.stale, open := w'.open)
    requires w.stale <= w'.stale && w.open <= w'.open
    ensures Good(db, w', st, coming)
  {
    OtherMarks(db, w, w', st, coming);
    hide Kept;
    hide AllGrounded;
    hide Proper;
    hide UsesProvided;
    hide UsesOf;
  }

  lemma OtherMarks(db: Database, w: Watch, w': Watch, st: State, coming: bool)
    requires Sound(db) && w' == w.(stale := w'.stale, open := w'.open)
    ensures Kept(db, w, st, coming) <==> Kept(db, w', st, coming)
    ensures AllGrounded(db, w, st) <==> AllGrounded(db, w', st)
  {
    hide Shown;
    hide Wants;
    hide UsesProvided;
    hide IsCondition;
    hide HasLabel;
    hide UsesOf;
    assert forall item :: WantsBefore(db, w, item) == WantsBefore(db, w', item);
    forall item
      ensures Grounded(db, w, st, item) == Grounded(db, w', st, item)
    {
    }
  }

  lemma PutGood(db: Database, w: Watch, st: State, coming: bool, item: Item, coming': bool)
    requires Sound(db) && Good(db, w, st, coming) && Proper(db, st.Put(item)) && Grounded(db, w, st, item)
    requires (coming' ==> coming) && (coming && !coming' ==> Same(item, w.x))
    requires WantsBefore(db, w, item) && !IsForeign(w) ==> Shown(db, st.out, w.x)
    ensures Good(db, w, st.Put(item), coming')
  {
    hide Kept;
    hide Grounded;
    hide Proper;
    hide Shown;
    StillMarked(db, w, st, st.Put(item));
    hide Marked;
    PutKept(db, w, st, coming, item, coming');
    AllStillGrounded(db, w, st, st.Put(item));
    StillGrounded(db, w, st, st.Put(item), item);
  }

  /** A line that is no text goes where its `#if` is open. */
  lemma PutLineGood(db: Database, w: Watch, st: State, coming: bool, item: Item, coming': bool)
    requires Sound(db) && Good(db, w, st, coming) && Proper(db, st.Put(item)) && Grounded(db, w, st, item)
    requires !item.Full? && (coming' ==> coming) && (coming && !coming' ==> Same(item, w.x))
    ensures Good(db, w, st.Put(item), coming')
  {
    hide Good;
    hide Grounded;
    hide Proper;
    PutGood(db, w, st, coming, item, coming');
  }

  lemma GoodIsProper(db: Database, w: Watch, st: State, coming: bool)
    requires Sound(db) && Good(db, w, st, coming)
    ensures Proper(db, st) && w.base <= st.declared
  {
  }

  /** The `#if` that is open is no part of what is kept, nor are the marks. */
  lemma SameOut(db: Database, w: Watch, st: State, st': State, coming: bool)
    requires Sound(db) && Good(db, w, st, coming) && Proper(db, st')
    requires st' == st.(zIf := st'.zIf, flag := st'.flag) && st'.flag <= st.flag
    ensures Good(db, w, st', coming)
  {
    StillMarked(db, w, st, st');
    hide Marked;
    hide Grounded;
    hide Shown;
    hide Proper;
    hide WantsBefore;
    AllStillGrounded(db, w, st, st');
  }

  lemma CloseIfGood(db: Database, w: Watch, st: State, coming: bool)
    requires Sound(db) && Good(db, w, st, coming)
    ensures Good(db, w, CloseIf(st), coming)
  {
    StillMarked(db, w, st, CloseIf(st));
    hide Marked;
    hide Kept;
    hide AllGrounded;
    hide WellPlaced;
    hide Context;
    if st.zIf.Some? {
      var st1 := st.Put(EndIf);
      PutMeaning(db, st, EndIf, Forward(0));
      PutKept(db, w, st, coming, EndIf, coming);
      EndIfGrounded(db, w, st);
      ZIfKept(db, w, st1, None, coming);
    }
  }

  lemma EndIfGrounded(db: Database, w: Watch, st: State)
    requires Sound(db) && AllGrounded(db, w, st)
    ensures AllGrounded(db, w, st.Put(EndIf).(zIf := None))
  {
    assert Grounded(db, w, st.Put(EndIf).(zIf := None), EndIf);
    hide Grounded;
    AllStillGrounded(db, w, st, st.Put(EndIf).(zIf := None));
  }

  lemma ZIfKept(db: Database, w: Watch, st: State, zIf: Option<string>, coming: bool)
    requires Sound(db) && Kept(db, w, st, coming)
    ensures Kept(db, w, st.(zIf := zIf), coming)
  {
    hide Shown;
    hide WantsBefore;
  }

  lemma OpenGood(db: Database, w: Watch, st: State, coming: bool, c: string)
    requires Sound(db) && Good(db, w, st, coming) && st.zIf == None
    requires IsCondition(db, w.needed, c) && UsesProvided(db, st, UsesOf(db, c))
    ensures Good(db, w, st.Put(If(c)).(zIf := Some(c)), coming)
  {
    hide Kept;
    hide WellPlaced;
    hide Context;
    hide IsCondition;
    hide UsesProvided;
    hide UsesOf;
    var st1 := st.Put(If(c)).(zIf := Some(c));
    StillMarked(db, w, st, st1);
    hide Marked;
    PutMeaning(db, st, If(c), Forward(0));
    PutKept(db, w, st, coming, If(c), coming);
    ZIfKept(db, w, st.Put(If(c)), Some(c), coming);
    StillProvided(db, st, st1, UsesOf(db, c));
    assert Grounded(db, w, st1, If(c));
    hide Grounded;
    AllStillGrounded(db, w, st, st1);
  }

  /** Putting more on record. */
  lemma RecordGood(db: Database, w: Watch, st: State, st': State, coming: bool, coming': bool)
    requires Sound(db) && Good(db, w, st, coming) && Proper(db, st') && Grows(st, st') && st'.out == st.out
    requires Marked(db, w, st') && OnlyNeeded(db, w, st')
    requires coming' ==> Has(st', w.x)
    requires coming ==> coming'
    requires Has(st', w.x) && !Has(st, w.x) ==> coming' || IsForeign(w) || Shown(db, st.out, w.x)
    requires w.x.IncludeLine? ==>
               forall q ::
                 q in st'.declared && q !in st.declared && q < |db.decls| && HasLabel(db.decls[q], w.x.inc.tag) ==>
                   w.x.inc.tag in st'.table
    ensures Good(db, w, st', coming')
  {
    hide Grounded;
    hide Shown;
    hide Proper;
    hide WantsBefore;
    hide HasLabel;
    hide Marked;
    AllStillGrounded(db, w, st, st');
  }

  // The generator.

  lemma DeclInScope(db: Database, w: Watch, deep: bool, q: nat)
    requires Watched(db, w) && q < |db.decls| && db.decls[q].name in Scope(w, deep)
    ensures DeclWithin(db, db.decls[q], Scope(w, deep)) && db.decls[q].name in w.needed
    ensures db.decls[q].zIf.Some? ==> IsCondition(db, w.needed, db.decls[q].zIf.value)
    ensures forall inc :: inc in db.decls[q].includes && inc.zIf.Some? ==> IsCondition(db, w.needed, inc.zIf.value)
  {
    hide DeclWithin;
    hide ConditionWithin;
    assert db.decls[q] in db.decls;
  }

  lemma ChangeIfProper(db: Database, st: State, zIf: Option<string>)
    requires Sound(db) && Proper(db, st)
    ensures Proper(db, ChangeIfContext(db, st, zIf)) && ChangeIfContext(db, st, zIf).zIf == zIf
  {
    ChangeIfContextKeeps(db, st, zIf, Forward(0));
  }

  lemma ScanGivesUses(db: Database, st: State, uses: seq<Use>)
    requires Sound(db) && Proper(db, st)
    ensures UsesProvided(db, ScanText(db, st, uses), uses)
  {
    hide Proper;
    hide Provided;
    forall u | u in uses && u.name in db.chains
      ensures Provided(db, ScanText(db, st, uses), db.chains[u.name], u.full)
    {
      var k :| 0 <= k < |uses| && uses[k] == u;
      ScanProvides(db, st, uses, k);
    }
  }

  lemma {:induction false} ChangeIfContextGood(db: Database, w: Watch, st: State, coming: bool, deep: bool,
                                               zIf: Option<string>)
    requires Watched(db, w) && Good(db, w, st, coming) && (coming ==> deep)
    requires ConditionWithin(db, zIf, Scope(w, deep)) && (zIf.Some? ==> IsCondition(db, w.needed, zIf.value))
    ensures Good(db, w, ChangeIfContext(db, st, zIf), coming)
    decreases Left(db, st), 6
  {
    hide Kept;
    hide AllGrounded;
    hide WellPlaced;
    hide Context;
    hide Within;
    hide IsCondition;
    hide UsesOf;
    hide UsesProvided;
    hide Left;
    CloseIfGood(db, w, st, coming);
    if zIf.Some? && st.zIf != zIf {
      var st1 := CloseIf(st);
      LeftShrinks(db, st, st1);
      var uses := UsesOf(db, zIf.value);
      var st2 := ScanText(db, st1, uses);
      ScanTextGood(db, w, st1, coming, deep, uses);
      ScanGivesUses(db, st1, uses);
      StillProvided(db, st2, CloseIf(st2), uses);
      CloseIfGood(db, w, st2, coming);
      OpenGood(db, w, CloseIf(st2), coming, zIf.value);
    }
  }

  lemma ChainIsNamed(db: Database, name: string)
    requires Sound(db) && Indexed(db) && name in db.chains
    ensures Chain(db, db.chains[name]) && Named(db, db.chains[name], name)
  {
  }

  lemma {:induction false} ScanTextGood(db: Database, w: Watch, st: State, coming: bool, deep: bool, uses: seq<Use>)
    requires Watched(db, w) && Good(db, w, st, coming) && (coming ==> deep) && Within(db, uses, Scope(w, deep))
    ensures Good(db, w, ScanText(db, st, uses), coming)
    decreases Left(db, st), 5, |uses|
  {
    hide Good;
    hide Closed;
    hide Named;
    hide Indexed;
    if uses != [] {
      assert uses[0] in uses;
      if uses[0].name !in db.chains {
        ScanTextGood(db, w, st, coming, deep, uses[1..]);
      } else {
        var ps := db.chains[uses[0].name];
        ChainIsNamed(db, uses[0].name);
        assert ChainIn(db, w, deep, ps, uses[0].name);
        var st1 := DeclareObject(db, st, ps, uses[0].full);
        DeclareObjectGood(db, w, st, coming, deep, ps, uses[0].full, uses[0].name);
        LeftShrinks(db, st, st1);
        ScanTextGood(db, w, st1, coming, deep, uses[1..]);
      }
    }
  }

  lemma LabelGood(db: Database, w: Watch, st: State, coming: bool, inc: Include)
    requires Watched(db, w) && Good(db, w, st, coming) && inc.tag !in st.table
    ensures Good(db, w, st.(table := st.table + {inc.tag}), coming || Same(IncludeLine(inc), w.x))
    ensures coming ==> !Same(IncludeLine(inc), w.x)
  {
    hide Shown;
    hide AllGrounded;
    hide Proper;
    var st1 := st.(table := st.table + {inc.tag});
    StillMarked(db, w, st, st1);
    hide Marked;
    RecordSameProper(db, st, st1);
    RecordGood(db, w, st, st1, coming, coming || Same(IncludeLine(inc), w.x));
  }

  /** The condition of a line is met in its own scope if the line is the watched one. */
  lemma LineScope(db: Database, w: Watch, deep: bool, inc: Include, q: nat)
    requires Watched(db, w) && q < |db.decls| && db.decls[q].name in Scope(w, deep) && inc in db.decls[q].includes
    ensures ConditionWithin(db, inc.zIf, Scope(w, deep || Same(IncludeLine(inc), w.x)))
    ensures inc.zIf.Some? ==> IsCondition(db, w.needed, inc.zIf.value)
    ensures exists d :: d in db.decls && d.name in w.needed && inc in d.includes
  {
    hide ConditionWithin;
    hide IsCondition;
    DeclInScope(db, w, deep, q);
    assert db.decls[q] in db.decls;
  }

  lemma IncludeProper(db: Database, st: State, inc: Include)
    requires Sound(db) && Proper(db, st) && inc.tag in Labels(db) && inc.tag !in st.table
    ensures Proper(db, ChangeIfContext(db, st.(table := st.table + {inc.tag}), inc.zIf).Put(IncludeLine(inc)))
  {
    IncludeKeeps(db, st, inc, Forward(0));
  }

  lemma GroundedInclude(db: Database, w: Watch, st: State, inc: Include)
    requires Sound(db) && exists d :: d in db.decls && d.name in w.needed && inc in d.includes
    ensures Grounded(db, w, st, IncludeLine(inc))
  {
  }

  lemma {:induction false} IncludeGood(db: Database, w: Watch, st: State, coming: bool, deep: bool, inc: Include,
                                       q: nat)
    requires Watched(db, w) && Good(db, w, st, coming) && (coming ==> deep)
    requires q < |db.decls| && db.decls[q].name in Scope(w, deep) && inc in db.decls[q].includes
    requires inc.tag in Labels(db) && inc.tag !in st.table
    ensures Good(db, w, ChangeIfContext(db, st.(table := st.table + {inc.tag}), inc.zIf).Put(IncludeLine(inc)), coming)
    decreases Left(db, st), 0
  {
    var st1 := st.(table := st.table + {inc.tag});
    var same := Same(IncludeLine(inc), w.x);
    LeftShrinks(db, st, st1);
    LabelGood(db, w, st, coming, inc);
    LineScope(db, w, deep, inc, q);
    GoodIsProper(db, w, st, coming);
    IncludeProper(db, st, inc);
    hide *;
    ChangeIfContextGood(db, w, st1, coming || same, deep || same, inc.zIf);
    GroundedInclude(db, w, ChangeIfContext(db, st1, inc.zIf), inc);
    PutLineGood(db, w, ChangeIfContext(db, st1, inc.zIf), coming || same, IncludeLine(inc), coming);
  }

  lemma RecordSameProper(db: Database, st: State, st1: State)
    requires Proper(db, st) && st1 == st.(table := st1.table)
    ensures Proper(db, st1)
  {
  }

  lemma {:induction false} AddIncludesGood(db: Database, w: Watch, st: State, coming: bool, deep: bool,
                                           list: seq<Include>, q: nat)
    requires Watched(db, w) && Good(db, w, st, coming) && (coming ==> deep) && Labeled(db, list)
    requires q < |db.decls| && db.decls[q].name in Scope(w, deep)
    requires forall inc :: inc in list ==> inc in db.decls[q].includes
    ensures Good(db, w, AddIncludes(db, st, list), coming)
    ensures forall inc :: inc in list ==> inc.tag in AddIncludes(db, st, list).table
    decreases Left(db, st), 1, |list|
  {
    hide Good;
    hide Closed;
    hide Indexed;
    hide ChangeIfContext;
    if list != [] {
      assert list[0] in list;
      AddIncludesGood(db, w, st, coming, deep, list[1..], q);
      var st1 := AddIncludes(db, st, list[1..]);
      LeftShrinks(db, st, st1);
      if list[0].tag !in st1.table {
        IncludeGood(db, w, st1, coming, deep, list[0], q);
        assert Grows(st1, AddIncludes(db, st, list));
      }
    }
  }

  /** The chain's declarations have the name. */
  ghost predicate ChainIn(db: Database, w: Watch, deep: bool, ps: seq<nat>, name: string) {
    Chain(db, ps) && Named(db, ps, name) && name in Scope(w, deep)
  }

  lemma ChainInTail(db: Database, w: Watch, deep: bool, ps: seq<nat>, name: string)
    requires ChainIn(db, w, deep, ps, name) && ps != []
    ensures ChainIn(db, w, deep, ps[1..], name) && ps[0] !in ps[1..]
    ensures ps[0] < |db.decls| && db.decls[ps[0]].name == name && name in Scope(w, deep)
  {
  }

  ghost predicate TypedefDone(db: Database, st: State, doneTypedef: bool, name: string) {
    doneTypedef ==> TypedefIn(db, st.out, name)
  }

  lemma RecordForwardGood(db: Database, w: Watch, st: State, coming: bool, p: nat)
    requires Watched(db, w) && Good(db, w, st, coming) && p < |db.decls| && db.decls[p].zFwd.Some? && p !in st.forward
    requires db.decls[p].name in w.needed
    ensures Good(db, w, st.(forward := st.forward + {p}), coming || Forward(p) == w.x)
    ensures coming ==> Forward(p) != w.x
    ensures p !in w.known
  {
    hide Shown;
    hide AllGrounded;
    hide WellPlaced;
    hide Context;
    hide HasLabel;
    var st1 := st.(forward := st.forward + {p});
    StillMarked(db, w, st, st1);
    hide Marked;
    RecordGood(db, w, st, st1, coming, coming || Forward(p) == w.x);
  }

  lemma ForwardProper(db: Database, st: State, p: nat)
    requires Sound(db) && Proper(db, st) && p < |db.decls| && db.decls[p].zFwd.Some? && p !in st.forward
    ensures Proper(db, ChangeIfContext(db, st.(forward := st.forward + {p}), db.decls[p].zIf).Put(Forward(p)))
  {
    ForwardKeeps(db, st, p, Forward(0));
  }

  lemma GroundedForward(db: Database, w: Watch, st: State, p: nat)
    requires Sound(db) && p < |db.decls| && p !in w.known && db.decls[p].name in w.needed && db.decls[p].zFwd.Some?
    ensures Grounded(db, w, st, Forward(p))
  {
  }

  lemma {:induction false} ForwardGood(db: Database, w: Watch, st: State, coming: bool, deep: bool, p: nat)
    requires Watched(db, w) && Good(db, w, st, coming) && (coming ==> deep)
    requires p < |db.decls| && db.decls[p].name in Scope(w, deep) && db.decls[p].zFwd.Some? && p !in st.forward
    ensures var st1 := st.(forward := st.forward + {p});
            Good(db, w, ChangeIfContext(db, st1, db.decls[p].zIf).Put(Forward(p)), coming)
    decreases Left(db, st), 0
  {
    var st1 := st.(forward := st.forward + {p});
    var same := Forward(p) == w.x;
    LeftShrinks(db, st, st1);
    DeclInScope(db, w, deep, p);
    RecordForwardGood(db, w, st, coming, p);
    GoodIsProper(db, w, st, coming);
    ForwardProper(db, st, p);
    ForwardScope(db, w, deep, p);
    hide *;
    var st2 := ChangeIfContext(db, st1, db.decls[p].zIf);
    ChangeIfContextGood(db, w, st1, coming || same, deep || same, db.decls[p].zIf);
    GroundedForward(db, w, st2, p);
    PutLineGood(db, w, st2, coming || same, Forward(p), coming);
  }

  lemma ForwardScope(db: Database, w: Watch, deep: bool, p: nat)
    requires Watched(db, w) && p < |db.decls| && db.decls[p].name in Scope(w, deep)
    ensures ConditionWithin(db, db.decls[p].zIf, Scope(w, deep || Forward(p) == w.x))
  {
    DeclInScope(db, w, deep, p);
  }

  lemma SkippedGood(db: Database, w: Watch, st: State, coming: bool, p: nat)
    requires Watched(db, w) && Good(db, w, st, coming) && p < |db.decls| && p !in st.forward
    requires IsForwardTypedef(db.decls[p]) && TypedefIn(db, st.out, db.decls[p].name)
    requires db.decls[p].name in w.needed
    ensures Good(db, w, st.(forward := st.forward + {p}), coming)
  {
    hide AllGrounded;
    hide WellPlaced;
    hide Context;
    hide TypedefIn;
    hide HasLabel;
    StillMarked(db, w, st, st.(forward := st.forward + {p}));
    hide Marked;
    RecordGood(db, w, st, st.(forward := st.forward + {p}), coming, coming);
  }

  lemma ForwardIsDone(db: Database, st: State, p: nat, doneTypedef: bool, name: string)
    requires p < |db.decls| && db.decls[p].name == name
    requires doneTypedef ==> IsForwardTypedef(db.decls[p]) || TypedefIn(db, st.out, name)
    ensures TypedefDone(db, st.Put(Forward(p)), doneTypedef, name)
  {
    InOutLast(st.out, Forward(p), Forward(p));
    if doneTypedef && !IsForwardTypedef(db.decls[p]) {
      var q: nat :|
        q < |db.decls| && db.decls[q].name == name && IsForwardTypedef(db.decls[q]) && InOut(st.out, Forward(q));
      InOutStays(st.out, Forward(p), Forward(q));
    }
  }

  /** What is in the header stays in it. */
  lemma InOutKept(db: Database, st: State, zIf: Option<string>, doneTypedef: bool, name: string)
    requires Sound(db) && TypedefDone(db, st, doneTypedef, name)
    ensures TypedefDone(db, ChangeIfContext(db, st, zIf), doneTypedef, name)
  {
    hide InOut;
    if doneTypedef {
      var q: nat :|
        q < |db.decls| && db.decls[q].name == name && IsForwardTypedef(db.decls[q]) && InOut(st.out, Forward(q));
      ChangeIfContextKeeps(db, st, zIf, Forward(q));
      CountIsIn(st.out, Forward(q));
      CountIsIn(ChangeIfContext(db, st, zIf).out, Forward(q));
    }
  }

  lemma {:induction false} CountIsIn(out: seq<Item>, x: Item)
    ensures Count(out, x) > 0 <==> InOut(out, x)
    decreases |out|
  {
    if out != [] {
      var rest := out[..|out| - 1];
      CountIsIn(rest, x);
      if k :| 0 <= k < |rest| && Same(rest[k], x) {
        assert Same(out[k], x);
      }
      if k :| 0 <= k < |out| && Same(out[k], x) {
        assert k < |rest| ==> Same(rest[k], x);
      }
    }
  }

  lemma {:induction false} ForwardsGood(db: Database, w: Watch, st: State, coming: bool, deep: bool, ps: seq<nat>,
                                        doneTypedef: bool, name: string)
    requires Watched(db, w) && Good(db, w, st, coming) && (coming ==> deep) && ChainIn(db, w, deep, ps, name)
    requires TypedefDone(db, st, doneTypedef, name)
    ensures Good(db, w, Forwards(db, st, ps, doneTypedef).0, coming)
    decreases Left(db, st), 2, |ps|
  {
    hide Good;
    hide TypedefIn;
    hide Closed;
    hide Indexed;
    hide ChangeIfContext;
    if ps != [] {
      ChainInTail(db, w, deep, ps, name);
      hide ChainIn;
      var d := db.decls[ps[0]];
      if d.zFwd.None? || ps[0] in st.forward {
        ForwardsGood(db, w, st, coming, deep, ps[1..], doneTypedef, name);
      } else {
        var st1 := st.(forward := st.forward + {ps[0]});
        LeftShrinks(db, st, st1);
        if IsForwardTypedef(d) && doneTypedef {
          SkippedGood(db, w, st, coming, ps[0]);
          ForwardsGood(db, w, st1, coming, deep, ps[1..], true, name);
        } else {
          ForwardGood(db, w, st, coming, deep, ps[0]);
          InOutKept(db, st1, d.zIf, doneTypedef, name);
          ForwardIsDone(db, ChangeIfContext(db, st1, d.zIf), ps[0], doneTypedef || IsForwardTypedef(d), name);
          var st2 := ChangeIfContext(db, st1, d.zIf).Put(Forward(ps[0]));
          LeftShrinks(db, st1, st2);
          ForwardsGood(db, w, st2, coming, deep, ps[1..], doneTypedef || IsForwardTypedef(d), name);
        }
      }
    }
  }

  ghost predicate LabelsIn(db: Database, st: State, ps: seq<nat>)
    requires Chain(db, ps)
  {
    forall p, inc :: p in ps && inc in db.decls[p].includes ==> inc.tag in st.table
  }

  lemma {:induction false} ChainIncludesGood(db: Database, w: Watch, st: State, coming: bool, deep: bool, ps: seq<nat>,
                                             name: string)
    requires Watched(db, w) && Good(db, w, st, coming) && (coming ==> deep) && ChainIn(db, w, deep, ps, name)
    ensures Good(db, w, ChainIncludes(db, st, ps), coming) && LabelsIn(db, ChainIncludes(db, st, ps), ps)
    decreases Left(db, st), 2, |ps|
  {
    hide Good;
    hide Closed;
    hide Indexed;
    hide AddIncludes;
    hide Distinct;
    if ps != [] {
      ChainInTail(db, w, deep, ps, name);
      AddIncludesGood(db, w, st, coming, deep, db.decls[ps[0]].includes, ps[0]);
      var st1 := AddIncludes(db, st, db.decls[ps[0]].includes);
      LeftShrinks(db, st, st1);
      ChainIncludesGood(db, w, st1, coming, deep, ps[1..], name);
    }
  }

  /** Behind its search a declaration's text is not still to be searched. */
  lemma {:induction false} ScanDeclGood(db: Database, w: Watch, st: State, coming: bool, deep: bool, p: nat)
    requires Watched(db, w) && Good(db, w, st, coming) && (coming ==> deep)
    requires p < |db.decls| && db.decls[p].name in Scope(w, deep) && p !in w.stale
    ensures Good(db, w.(open := w.open - {p}), ScanDecl(db, st, p), coming)
    decreases Left(db, st), 7, 0
  {
    hide Kept;
    hide AllGrounded;
    hide Proper;
    hide Within;
    hide IsCondition;
    hide UsesOf;
    hide UsesProvided;
    hide ScanText;
    OtherMarks(db, w, w.(open := w.open - {p}), ScanDecl(db, st, p), coming);
    if p in st.flag {
      var uses := UsesOf(db, Searched(db.decls[p]));
      DeclInScope(db, w, deep, p);
      ScanTextGood(db, w, st, coming, deep, uses);
      ScanGivesUses(db, st, uses);
    }
  }

  lemma {:induction false} ScansGood(db: Database, w: Watch, st: State, coming: bool, deep: bool, ps: seq<nat>,
                                     name: string)
    requires Watched(db, w) && Good(db, w, st, coming) && (coming ==> deep) && ChainIn(db, w, deep, ps, name)
    requires forall p :: p in ps ==> p !in w.stale
    ensures Good(db, w.(open := w.open - Members(ps)), Scans(db, st, ps), coming)
    decreases Left(db, st), 8, |ps|
  {
    hide Good;
    hide Closed;
    hide Indexed;
    hide ScanDecl;
    hide Distinct;
    if ps == [] {
      assert w.open - Members(ps) == w.open;
    } else {
      ChainInTail(db, w, deep, ps, name);
      var st1 := ScanDecl(db, st, ps[0]);
      var w1 := w.(open := w.open - {ps[0]});
      ScanDeclGood(db, w, st, coming, deep, ps[0]);
      LeftShrinks(db, st, st1);
      ScansGood(db, w1, st1, coming, deep, ps[1..], name);
      assert w1.open - Members(ps[1..]) == w.open - Members(ps);
    }
  }

  lemma {:induction false} EmitGood(db: Database, w: Watch, st: State, coming: bool, deep: bool, p: nat)
    requires Watched(db, w) && Good(db, w, st, coming) && (coming ==> deep)
    requires p < |db.decls| && db.decls[p].name in Scope(w, deep) && p in st.declared && p !in w.base
    requires db.decls[p].zDecl.Some? && UsesProvided(db, st, UsesOf(db, Searched(db.decls[p])))
    ensures Good(db, w, Emit(db, st, p), coming)
    decreases Left(db, st), 7, 0
  {
    hide Kept;
    hide Shown;
    hide AllGrounded;
    hide Proper;
    hide Within;
    hide IsCondition;
    hide UsesOf;
    hide UsesProvided;
    hide WantsBefore;
    DeclInScope(db, w, deep, p);
    var st1 := ChangeIfContext(db, st, db.decls[p].zIf);
    ChangeIfContextGood(db, w, st, coming, deep, db.decls[p].zIf);
    StillProvided(db, st, st1, UsesOf(db, Searched(db.decls[p])));
    EmitProper(db, st, p);
    if WantsBefore(db, w, Full(p)) && !IsForeign(w) {
      WantedIsShown(db, w, st1, coming, deep, p);
    }
    PutGood(db, w, st1, coming, Full(p), coming);
  }

  lemma WantedIsShown(db: Database, w: Watch, st: State, coming: bool, deep: bool, p: nat)
    requires Watched(db, w) && Good(db, w, st, coming) && (coming ==> deep)
    requires p < |db.decls| && db.decls[p].name in Scope(w, deep) && p in st.declared && p !in w.base
    requires db.decls[p].zDecl.Some? && UsesProvided(db, st, UsesOf(db, Searched(db.decls[p])))
    requires WantsBefore(db, w, Full(p)) && !IsForeign(w)
    ensures Shown(db, st.out, w.x)
  {
    hide Shown;
    hide AllGrounded;
    hide WellPlaced;
    hide Context;
    hide UsesOf;
    hide HasLabel;
    if w.x.Forward? && w.x.p != p {
      var u :| u in UsesOf(db, Searched(db.decls[p])) && u.name in db.chains && w.x.p in db.chains[u.name];
      assert Provided(db, st, db.chains[u.name], u.full);
    }
  }

  /** Nothing of the chain is marked from before or still to be searched. */
  ghost predicate IsSearched(w: Watch, ps: seq<nat>) {
    forall p :: p in ps ==> p !in w.stale && p !in w.open
  }

  lemma MarkedIsReady(db: Database, w: Watch, st: State, coming: bool, p: nat)
    requires Watched(db, w) && Good(db, w, st, coming) && p in st.flag && p !in w.stale && p !in w.open
    ensures p < |db.decls| && p in st.declared && p !in w.base && db.decls[p].zDecl.Some?
    ensures UsesProvided(db, st, UsesOf(db, Searched(db.decls[p])))
  {
    hide Kept;
    hide AllGrounded;
    hide Proper;
    hide UsesProvided;
    hide UsesOf;
  }

  lemma {:induction false} EmitsGood(db: Database, w: Watch, st: State, coming: bool, deep: bool, ps: seq<nat>,
                                     doneTypedef: bool, name: string)
    requires Watched(db, w) && Good(db, w, st, coming) && (coming ==> deep) && ChainIn(db, w, deep, ps, name)
    requires IsSearched(w, ps)
    ensures Good(db, w, Emits(db, st, ps, doneTypedef).0, coming)
    decreases Left(db, st), 8, |ps|
  {
    hide Good;
    hide Closed;
    hide Indexed;
    hide Emit;
    hide UsesOf;
    hide UsesProvided;
    if ps != [] {
      ChainInTail(db, w, deep, ps, name);
      hide ChainIn;
      var d := db.decls[ps[0]];
      if ps[0] !in st.flag || d.isTypedef || (d.isEnum && doneTypedef) {
        EmitsGood(db, w, st, coming, deep, ps[1..], doneTypedef, name);
      } else {
        var st1 := Emit(db, st, ps[0]);
        MarkedIsReady(db, w, st, coming, ps[0]);
        EmitGood(db, w, st, coming, deep, ps[0]);
        var st2 := st1.(flag := st1.flag - {ps[0]});
        UnmarkGood(db, w, st1, ps[0], coming);
        LeftShrinks(db, st, st2);
        EmitsGood(db, w, st2, coming, deep, ps[1..], doneTypedef || d.isEnum, name);
      }
    }
  }

  lemma UnmarkGood(db: Database, w: Watch, st: State, p: nat, coming: bool)
    requires Sound(db) && Good(db, w, st, coming)
    ensures Good(db, w, st.(flag := st.flag - {p}), coming)
  {
    hide Kept;
    hide AllGrounded;
    SameOut(db, w, st, st.(flag := st.flag - {p}), coming);
  }

  lemma {:induction false} EmitTypedefGood(db: Database, w: Watch, st: State, coming: bool, deep: bool, ps: seq<nat>,
                                           name: string)
    requires Watched(db, w) && Good(db, w, st, coming) && (coming ==> deep) && ChainIn(db, w, deep, ps, name)
    requires IsSearched(w, ps)
    ensures Good(db, w, EmitTypedef(db, st, ps), coming)
    decreases Left(db, st), 8, |ps|
  {
    hide Good;
    hide Closed;
    hide Indexed;
    hide Emit;
    hide UsesOf;
    hide UsesProvided;
    if ps != [] {
      ChainInTail(db, w, deep, ps, name);
      hide ChainIn;
      if ps[0] in st.flag {
        MarkedIsReady(db, w, st, coming, ps[0]);
        EmitGood(db, w, st, coming, deep, ps[0]);
      } else {
        EmitTypedefGood(db, w, st, coming, deep, ps[1..], name);
      }
    }
  }

  lemma {:induction false} EmitDueGood(db: Database, w: Watch, st: State, coming: bool, deep: bool, ps: seq<nat>,
                                       doneTypedef: bool, name: string)
    requires Watched(db, w) && Good(db, w, st, coming) && (coming ==> deep) && ChainIn(db, w, deep, ps, name)
    requires forall p :: p in ps ==> p !in w.stale
    ensures Good(db, w.(open := w.open - Members(ps)), EmitDue(db, st, ps, doneTypedef), coming)
    decreases Left(db, st), 9
  {
    hide Good;
    hide Closed;
    hide Indexed;
    hide Scans;
    hide Emits;
    hide EmitTypedef;
    var st1 := Scans(db, st, ps);
    ScansGood(db, w, st, coming, deep, ps, name);
    LeftShrinks(db, st, st1);
    var w1 := w.(open := w.open - Members(ps));
    EmitsGood(db, w1, st1, coming, deep, ps, doneTypedef, name);
    var (st2, done) := Emits(db, st1, ps, doneTypedef);
    LeftShrinks(db, st1, st2);
    if !done {
      EmitTypedefGood(db, w1, st2, coming, deep, ps, name);
    }
  }

  /** While a chain's marked texts are searched. */
  function Searching(db: Database, w: Watch, st: State, ps: seq<nat>, full: bool): Watch
    requires Chain(db, ps)
  {
    w.(stale := w.stale - Members(ps), open := w.open - Members(ps) + Due(db, st, ps, full))
  }

  lemma MarkDueGood(db: Database, w: Watch, st: State, coming: bool, ps: seq<nat>, full: bool)
    requires Watched(db, w) && Good(db, w, st, coming) && Chain(db, ps) && LabelsIn(db, st, ps)
    requires forall p :: p in ps ==> db.decls[p].name in w.needed
    requires forall p :: p in ps && db.decls[p].zFwd.Some? ==> p in st.forward
    ensures Good(db, Searching(db, w, st, ps, full), MarkDue(db, st, ps, full), coming)
  {
    hide Shown;
    hide AllGrounded;
    hide WellPlaced;
    hide Context;
    hide Distinct;
    hide UsesOf;
    hide UsesProvided;
    var w1, st1 := Searching(db, w, st, ps, full), MarkDue(db, st, ps, full);
    var st0 := st.(flag := st.flag - Members(ps));
    SameOut(db, w, st, st0, coming);
    OtherMarks(db, w, w1, st0, coming);
    MarkDueMarked(db, w, st, ps, full);
    MarkDueUnmarks(db, w, st, ps, full);
    hide Marked;
    RecordGood(db, w1, st0, st1, coming, coming);
  }

  lemma MarkDueUnmarks(db: Database, w: Watch, st: State, ps: seq<nat>, full: bool)
    requires Watched(db, w) && Chain(db, ps) && Marked(db, w, st)
    ensures Marked(db, Searching(db, w, st, ps, full), st.(flag := st.flag - Members(ps)))
  {
  }

  lemma MarkDueMarked(db: Database, w: Watch, st: State, ps: seq<nat>, full: bool)
    requires Watched(db, w) && w.base <= st.declared && Chain(db, ps) && Marked(db, w, st)
    ensures Marked(db, Searching(db, w, st, ps, full), MarkDue(db, st, ps, full))
  {
  }

  lemma SearchingMeans(db: Database, w: Watch, deep: bool, st: State, ps: seq<nat>, full: bool, name: string)
    requires Watched(db, w) && ChainIn(db, w, deep, ps, name)
    ensures var w1 := Searching(db, w, st, ps, full);
            && Watched(db, w1) && ChainIn(db, w1, deep, ps, name) && (forall p :: p in ps ==> p !in w1.stale)
            && w1 == w.(stale := w1.stale, open := w1.open)
            && w1.stale <= w.stale && w1.open - Members(ps) <= w.open
            && (Due(db, st, ps, full) == {} ==> w1.open <= w.open)
    ensures forall p :: p in ps ==> db.decls[p].name in w.needed
  {
  }

  /** Some of the chain is marked. */
  lemma {:induction false} GiveMarkedGood(db: Database, w: Watch, st: State, coming: bool, deep: bool, ps: seq<nat>,
                                          full: bool, doneTypedef: bool, name: string, p: nat)
    requires Watched(db, w) && Good(db, w, st, coming) && (coming ==> deep) && ChainIn(db, w, deep, ps, name)
    requires Good(db, Searching(db, w, st, ps, full), MarkDue(db, st, ps, full), coming)
    requires p in ps && p in MarkDue(db, st, ps, full).flag
    ensures Good(db, w, EmitDue(db, MarkDue(db, st, ps, full), ps, doneTypedef), coming)
    decreases Left(db, st), 1
  {
    var st1 := MarkDue(db, st, ps, full);
    var w1 := Searching(db, w, st, ps, full);
    MarkedWereDue(db, st, ps, full, p);
    LeftShrinks(db, st, st1);
    SearchingMeans(db, w, deep, st, ps, full, name);
    hide *;
    EmitDueGood(db, w1, st1, coming, deep, ps, doneTypedef, name);
    WeakerGood(db, w1.(open := w1.open - Members(ps)), w, EmitDue(db, st1, ps, doneTypedef), coming);
  }

  lemma {:induction false} GiveDueGood(db: Database, w: Watch, st: State, coming: bool, deep: bool, ps: seq<nat>,
                                       full: bool, doneTypedef: bool, name: string)
    requires Watched(db, w) && Good(db, w, st, coming) && (coming ==> deep) && ChainIn(db, w, deep, ps, name)
    requires LabelsIn(db, st, ps) && forall p :: p in ps && db.decls[p].zFwd.Some? ==> p in st.forward
    ensures Good(db, w, GiveDue(db, st, ps, full, doneTypedef), coming)
    decreases Left(db, st), 2
  {
    SearchingMeans(db, w, deep, st, ps, full, name);
    hide Good;
    hide Closed;
    hide Indexed;
    hide MarkDue;
    hide EmitDue;
    hide LabelsIn;
    hide Searching;
    hide Due;
    MarkDueGood(db, w, st, coming, ps, full);
    var st1 := MarkDue(db, st, ps, full);
    if p :| p in ps && p in st1.flag {
      GiveMarkedGood(db, w, st, coming, deep, ps, full, doneTypedef, name, p);
    } else {
      NothingDue(db, st, ps, full);
      WeakerGood(db, Searching(db, w, st, ps, full), w, st1, coming);
    }
  }

  lemma NothingDue(db: Database, st: State, ps: seq<nat>, full: bool)
    requires Chain(db, ps) && forall p :: p in ps ==> p !in MarkDue(db, st, ps, full).flag
    ensures Due(db, st, ps, full) == {}
  {
    var due := Due(db, st, ps, full);
    assert forall p :: p in due ==> p in ps && p in MarkDue(db, st, ps, full).flag;
  }

  lemma {:induction false} DeclareObjectGood(db: Database, w: Watch, st: State, coming: bool, deep: bool, ps: seq<nat>,
                                             full: bool, name: string)
    requires Watched(db, w) && Good(db, w, st, coming) && (coming ==> deep) && ChainIn(db, w, deep, ps, name)
    ensures Good(db, w, DeclareObject(db, st, ps, full), coming)
    decreases Left(db, st), 3
  {
    hide Good;
    hide Closed;
    hide Indexed;
    hide Forwards;
    hide ChainIncludes;
    hide GiveDue;
    hide LabelsIn;
    var (st1, doneTypedef) := Forwards(db, st, ps, false);
    ForwardsGood(db, w, st, coming, deep, ps, false, name);
    ForwardsAll(db, st, ps, false);
    LeftShrinks(db, st, st1);
    if !IsSuitable(st1, ps, full) {
      var st2 := ChainIncludes(db, st1, ps);
      ChainIncludesGood(db, w, st1, coming, deep, ps, name);
      LeftShrinks(db, st1, st2);
      GiveDueGood(db, w, st2, coming, deep, ps, full, doneTypedef, name);
    }
  }

  // A watch that begins anywhere.

  /** From here on. */
  function FromHere(st: State, needed: set<string>, x: Item): Watch {
    Watch(st.forward, st.declared, st.out, needed, needed, x, st.flag, {})
  }

  lemma HereIsGood(db: Database, st: State, needed: set<string>, x: Item, coming: bool)
    requires Sound(db) && Proper(db, st) && (if coming then Has(st, x) else Has(st, x) ==> Shown(db, st.out, x))
    ensures Good(db, FromHere(st, needed, x), st, coming)
  {
  }
}
