/** The header generator of makeheaders: which declarations go into a header, under which `#if`, and in what order. */
module HeaderSpec {
  import opened Options
  import opened TokenSpec
  import opened TokenStreams

  datatype Include = Include(file: string, zIf: Option<string>, tag: string)

  /** A declaration: where it is from, its forward declaration and its full text, where it has them. */
  datatype Decl = Decl(
    name: string, file: string, zIf: Option<string>, zFwd: Option<string>, zDecl: Option<string>,
    isTypedef: bool, isEnum: bool, isLocal: bool, includes: seq<Include>)

  /** All declarations; for a name, the list of those that share it; and where `if %d` reads a zero in a text. */
  datatype Database = Database(decls: seq<Decl>, chains: map<string, seq<nat>>, ifZero: string -> nat -> bool)

  ghost predicate Distinct(s: seq<nat>) {
    forall j, k :: 0 <= j < k < |s| ==> s[j] != s[k]
  }

  /** A list of declarations with the same name, or the end of one. */
  ghost predicate Chain(db: Database, ps: seq<nat>) {
    Distinct(ps) && forall k :: 0 <= k < |ps| ==> ps[k] < |db.decls|
  }

  ghost predicate Sound(db: Database) {
    forall name :: name in db.chains ==> Chain(db, db.chains[name])
  }

  /** Every declaration is in the chain of its name, and no other. */
  ghost predicate Indexed(db: Database) {
    && (forall p: nat :: p < |db.decls| ==> db.decls[p].name in db.chains && p in db.chains[db.decls[p].name])
    && (forall name, k :: name in db.chains && 0 <= k < |db.chains[name]| ==>
          db.chains[name][k] < |db.decls| && db.decls[db.chains[name][k]].name == name)
  }

  /** What a header is made of. */
  datatype Item = EndIf | If(condition: string) | IncludeLine(inc: Include) | Forward(p: nat) | Full(p: nat)

  /** The flags of the declarations, the labels of the headers included, the open `#if`, and the header so far. */
  datatype State = State(
    forward: set<nat>, declared: set<nat>, flag: set<nat>, table: set<string>, zIf: Option<string>, out: seq<Item>)
  {
    function Put(item: Item): State {
      this.(out := out + [item])
    }
  }

  // What a text uses.

  /** A name with a declaration, and whether its full declaration is needed. */
  datatype Use = Use(name: string, full: bool)

  /** A token's text. */
  function TextOf(z: string, t: Token): string {
    if t.start <= t.end <= |z| then z[t.start..t.end] else ""
  }

  /** What the text uses from `i` on; `next` is a token read ahead. */
  function Uses(db: Database, z: string, i: nat, next: Option<Token>): seq<Use>
    requires next.Some? ==> next.value.kind == Id
    decreases |z| - i, next.Some?
  {
    if At(z, i) == '\0' then []
    else
      var t := if next.Some? then next.value else Nonspace(z, db.ifZero(z), i, 0).0;
      var j := if next.Some? then i else t.end;
      if t.kind == Id && TextOf(z, t) in db.chains then
        var n := Nonspace(z, db.ifZero(z), j, 0).0;
        var full := At(z, n.start) != '*';
        [Use(TextOf(z, t), full)] + Uses(db, z, n.end, if full && n.kind == Id then Some(n) else None)
      else if t.kind == Preprocessor then Uses(db, z, t.start + 1, None)
      else Uses(db, z, j, None)
  }

  function UsesOf(db: Database, z: string): seq<Use> {
    Uses(db, z, 0, None)
  }

  /** The text of a declaration that is searched for what it uses: a macro's is searched behind its `#`. */
  function Searched(d: Decl): string
    requires d.zDecl.Some?
  {
    if At(d.zDecl.value, 0) == '#' then d.zDecl.value[1..] else d.zDecl.value
  }

  predicate IsForwardTypedef(d: Decl) {
    d.zFwd.Some? && HasPrefix(d.zFwd.value, 0, "typedef")
  }

  // What is left to do, which bounds the recursion.

  function Below(n: nat): (r: set<nat>)
    ensures forall p: nat :: p in r <==> p < n
  {
    if n == 0 then {} else Below(n - 1) + {n - 1}
  }

  function All(db: Database): set<nat> {
    Below(|db.decls|)
  }

  function Labels(db: Database): set<string> {
    set p: nat, k: nat | p < |db.decls| && k < |db.decls[p].includes| :: db.decls[p].includes[k].tag
  }

  /** The declarations not declared yet, those not forward declared yet, and the labels not in the table yet. */
  function Left(db: Database, st: State): nat {
    |All(db) - st.declared| + |All(db) - st.forward| + |Labels(db) - st.table|
  }

  ghost predicate Grows(st: State, st': State) {
    st.forward <= st'.forward && st.declared <= st'.declared && st.table <= st'.table
  }

  lemma FewerLeft<T>(all: set<T>, a: set<T>, b: set<T>)
    requires a <= b
    ensures |all - b| <= |all - a|
    ensures (exists x :: x in all && x in b && x !in a) ==> |all - b| < |all - a|
  {
    var rest, more := all - b, (all - a) * b;
    assert all - a == rest + more;
    if x :| x in all && x in b && x !in a {
      assert x in more;
    }
  }

  lemma LeftShrinks(db: Database, st: State, st': State)
    requires Grows(st, st')
    ensures Left(db, st') <= Left(db, st)
    ensures (exists p :: p in All(db) && p in st'.declared && p !in st.declared) ==> Left(db, st') < Left(db, st)
    ensures (exists p :: p in All(db) && p in st'.forward && p !in st.forward) ==> Left(db, st') < Left(db, st)
    ensures (exists l :: l in Labels(db) && l in st'.table && l !in st.table) ==> Left(db, st') < Left(db, st)
  {
    FewerLeft(All(db), st.declared, st'.declared);
    FewerLeft(All(db), st.forward, st'.forward);
    FewerLeft(Labels(db), st.table, st'.table);
  }

  // The generator.

  /** Leave the `#if` that is open, if one is. */
  function CloseIf(st: State): State {
    if st.zIf.None? then st else st.Put(EndIf).(zIf := None)
  }

  /** Make the header stand within the given `#if`. */
  function ChangeIfContext(db: Database, st: State, zIf: Option<string>): (r: State)
    requires Sound(db)
    ensures Grows(st, r)
    decreases Left(db, st), 6
  {
    if zIf.None? then CloseIf(st)
    else if st.zIf == zIf then st
    else CloseIf(ScanText(db, CloseIf(st), UsesOf(db, zIf.value))).Put(If(zIf.value)).(zIf := zIf)
  }

  /** Declare what is used, in the order of its use. */
  function ScanText(db: Database, st: State, uses: seq<Use>): (r: State)
    requires Sound(db)
    ensures Grows(st, r)
    decreases Left(db, st), 5, |uses|
  {
    if uses == [] then st
    else if uses[0].name !in db.chains then ScanText(db, st, uses[1..])
    else
      var st' := DeclareObject(db, st, db.chains[uses[0].name], uses[0].full);
      LeftShrinks(db, st, st');
      ScanText(db, st', uses[1..])
  }

  ghost predicate Labeled(db: Database, list: seq<Include>) {
    forall k :: 0 <= k < |list| ==> list[k].tag in Labels(db)
  }

  /** The `#include` lines of a list, the last of the list first, each label once. */
  function AddIncludes(db: Database, st: State, list: seq<Include>): (r: State)
    requires Sound(db) && Labeled(db, list)
    ensures Grows(st, r)
    decreases Left(db, st), 1, |list|
  {
    if list == [] then st
    else
      var st1 := AddIncludes(db, st, list[1..]);
      if list[0].tag in st1.table then st1
      else
        var st2 := st1.(table := st1.table + {list[0].tag});
        LeftShrinks(db, st, st1);
        LeftShrinks(db, st1, st2);
        ChangeIfContext(db, st2, list[0].zIf).Put(IncludeLine(list[0]))
  }

  /** The forward declarations of a chain; at most one of them is a typedef. */
  function Forwards(db: Database, st: State, ps: seq<nat>, doneTypedef: bool): (r: (State, bool))
    requires Sound(db) && Chain(db, ps)
    ensures Grows(st, r.0)
    decreases Left(db, st), 2, |ps|
  {
    if ps == [] then (st, doneTypedef)
    else
      var d := db.decls[ps[0]];
      if d.zFwd.None? || ps[0] in st.forward then Forwards(db, st, ps[1..], doneTypedef)
      else
        var st1 := st.(forward := st.forward + {ps[0]});
        LeftShrinks(db, st, st1);
        if IsForwardTypedef(d) && doneTypedef then Forwards(db, st1, ps[1..], true)
        else
          var st2 := ChangeIfContext(db, st1, d.zIf).Put(Forward(ps[0]));
          LeftShrinks(db, st1, st2);
          Forwards(db, st2, ps[1..], doneTypedef || IsForwardTypedef(d))
  }

  /** Whether a chain has all it needs already. */
  predicate IsSuitable(st: State, ps: seq<nat>, full: bool) {
    forall p :: p in ps ==> p in st.forward && (full ==> p in st.declared)
  }

  function ChainIncludes(db: Database, st: State, ps: seq<nat>): (r: State)
    requires Sound(db) && Chain(db, ps)
    ensures Grows(st, r)
    decreases Left(db, st), 2, |ps|
  {
    if ps == [] then st
    else
      var st1 := AddIncludes(db, st, db.decls[ps[0]].includes);
      LeftShrinks(db, st, st1);
      ChainIncludes(db, st1, ps[1..])
  }

  /** A declaration whose full text is to be given now. */
  predicate IsDue(db: Database, st: State, p: nat, full: bool)
    requires p < |db.decls|
  {
    p !in st.declared && (db.decls[p].zFwd.None? || full) && db.decls[p].zDecl.Some?
  }

  function Members(ps: seq<nat>): set<nat> {
    set p | p in ps
  }

  function Due(db: Database, st: State, ps: seq<nat>, full: bool): set<nat>
    requires Chain(db, ps)
  {
    set p | p in ps && IsDue(db, st, p, full)
  }

  /** Mark the declarations that are due, and only those, for output. */
  function MarkDue(db: Database, st: State, ps: seq<nat>, full: bool): (r: State)
    requires Chain(db, ps)
    ensures Grows(st, r)
  {
    var due := Due(db, st, ps, full);
    st.(forward := st.forward + due, declared := st.declared + due, flag := st.flag - Members(ps) + due)
  }

  /** What a declaration uses, if it is marked. */
  function ScanDecl(db: Database, st: State, p: nat): (r: State)
    requires Sound(db) && p < |db.decls|
    ensures Grows(st, r)
    decreases Left(db, st), 7, 0
  {
    if p in st.flag && db.decls[p].zDecl.Some? then ScanText(db, st, UsesOf(db, Searched(db.decls[p]))) else st
  }

  /** What the marked declarations of a chain use. */
  function Scans(db: Database, st: State, ps: seq<nat>): (r: State)
    requires Sound(db) && Chain(db, ps)
    ensures Grows(st, r)
    decreases Left(db, st), 8, |ps|
  {
    if ps == [] then st
    else
      var st1 := ScanDecl(db, st, ps[0]);
      LeftShrinks(db, st, st1);
      Scans(db, st1, ps[1..])
  }

  /** The full text of a declaration, within its `#if`. */
  function Emit(db: Database, st: State, p: nat): (r: State)
    requires Sound(db) && p < |db.decls|
    ensures Grows(st, r)
    decreases Left(db, st), 7, 0
  {
    ChangeIfContext(db, st, db.decls[p].zIf).Put(Full(p))
  }

  /** The marked declarations that are not typedefs; at most one enumeration. */
  function Emits(db: Database, st: State, ps: seq<nat>, doneTypedef: bool): (r: (State, bool))
    requires Sound(db) && Chain(db, ps)
    ensures Grows(st, r.0)
    decreases Left(db, st), 8, |ps|
  {
    if ps == [] then (st, doneTypedef)
    else
      var d := db.decls[ps[0]];
      if ps[0] !in st.flag || d.isTypedef || (d.isEnum && doneTypedef) then Emits(db, st, ps[1..], doneTypedef)
      else
        var st1 := Emit(db, st, ps[0]);
        var st2 := st1.(flag := st1.flag - {ps[0]});
        LeftShrinks(db, st, st2);
        Emits(db, st2, ps[1..], doneTypedef || d.isEnum)
  }

  /** The first declaration still marked. */
  function EmitTypedef(db: Database, st: State, ps: seq<nat>): (r: State)
    requires Sound(db) && Chain(db, ps)
    ensures Grows(st, r)
    decreases Left(db, st), 8, |ps|
  {
    if ps == [] then st
    else if ps[0] in st.flag then Emit(db, st, ps[0])
    else EmitTypedef(db, st, ps[1..])
  }

  /** Search the marked declarations, then give them out. */
  function EmitDue(db: Database, st: State, ps: seq<nat>, doneTypedef: bool): (r: State)
    requires Sound(db) && Chain(db, ps)
    ensures Grows(st, r)
    decreases Left(db, st), 9
  {
    var st1 := Scans(db, st, ps);
    LeftShrinks(db, st, st1);
    var (st2, done) := Emits(db, st1, ps, doneTypedef);
    LeftShrinks(db, st1, st2);
    if done then st2 else EmitTypedef(db, st2, ps)
  }

  /** Give out what is due of a chain, after what it uses. */
  function GiveDue(db: Database, st: State, ps: seq<nat>, full: bool, doneTypedef: bool): (r: State)
    requires Sound(db) && Chain(db, ps)
    ensures Grows(st, r)
    decreases Left(db, st), 2
  {
    var st1 := MarkDue(db, st, ps, full);
    if forall p :: p in ps ==> p !in st1.flag then st1
    else
      LeftShrinks(db, st, st1);
      EmitDue(db, st1, ps, doneTypedef)
  }

  /** Declare all objects of a chain, in full if need be. */
  function DeclareObject(db: Database, st: State, ps: seq<nat>, full: bool): (r: State)
    requires Sound(db) && Chain(db, ps)
    ensures Grows(st, r)
    decreases Left(db, st), 3
  {
    var (st1, doneTypedef) := Forwards(db, st, ps, false);
    LeftShrinks(db, st, st1);
    if IsSuitable(st1, ps, full) then st1
    else
      var st2 := ChainIncludes(db, st1, ps);
      LeftShrinks(db, st1, st2);
      GiveDue(db, st2, ps, full, doneTypedef)
  }
}
