/** The header generator itself: it sets flags in the declarations, moves from `#if` to `#if`, and appends to a header,
    while it calls itself for whatever a text uses. */
module HeaderGenerator {
  import opened Options
  import opened TokenSpec
  import opened TokenStreams
  import opened Tokenizer
  import opened HeaderSpec
  import Spec = HeaderSpec
  import opened HeaderLaws
  import opened HeaderMarks
  import opened Runs = HeaderRuns

  /** The list with one more element, behind the first. */
  function Inserted(ps: seq<nat>, p: nat): (r: seq<nat>)
    ensures p in r && forall q :: q in ps ==> q in r
    ensures forall k :: 0 <= k < |r| ==> r[k] == p || r[k] in ps
  {
    if ps == [] then [p] else [ps[0], p] + ps[1..]
  }

  lemma InsertedIsDistinct(ps: seq<nat>, p: nat)
    requires Distinct(ps) && p !in ps
    ensures Distinct(Inserted(ps, p))
  {
    var r := Inserted(ps, p);
    forall j, k | 0 <= j < k < |r|
      ensures r[j] != r[k]
    {
      if ps != [] {
        assert r[j] == (if j == 0 then ps[0] else if j == 1 then p else ps[j - 1]);
        assert r[k] == if k == 1 then p else ps[k - 1];
      }
    }
  }

  /** A new declaration is the last of all, and the second of those with its name. */
  function Installed(db: Database, d: Decl): Database {
    var p := |db.decls|;
    Database(db.decls + [d],
             db.chains[d.name := if d.name in db.chains then Inserted(db.chains[d.name], p) else [p]],
             db.ifZero)
  }

  lemma InstalledChains(db: Database, d: Decl)
    requires Sound(db) && Indexed(db)
    ensures Sound(Installed(db, d))
  {
    var r := Installed(db, d);
    if d.name in db.chains {
      InsertedIsDistinct(db.chains[d.name], |db.decls|);
    }
    forall name | name in r.chains
      ensures Chain(r, r.chains[name])
    {
      hide Distinct;
      if name != d.name {
        assert Chain(db, db.chains[name]);
      }
    }
  }

  /** Installing keeps every declaration in the chain of its name, once. */
  lemma InstalledIsSound(db: Database, d: Decl)
    requires Sound(db) && Indexed(db)
    ensures Sound(Installed(db, d)) && Indexed(Installed(db, d))
  {
    hide Sound;
    InstalledChains(db, d);
    var r := Installed(db, d);
    forall p: nat | p < |r.decls|
      ensures r.decls[p].name in r.chains && p in r.chains[r.decls[p].name]
    {
      if p < |db.decls| {
        assert p in db.chains[db.decls[p].name];
      }
    }
    forall name, k | name in r.chains && 0 <= k < |r.chains[name]|
      ensures r.chains[name][k] < |r.decls| && r.decls[r.chains[name][k]].name == name
    {
      var p := r.chains[name][k];
      if p != |db.decls| {
        assert p in db.chains[name];
      }
    }
  }

  /** The declarations as they are installed, each in the chain of its name. */
  class DeclTable {
    var decls: seq<Decl>
    var chains: map<string, seq<nat>>
    const ifZero: string -> nat -> bool

    function Db(): Database
      reads this
    {
      Database(decls, chains, ifZero)
    }

    ghost predicate Valid()
      reads this
    {
      Sound(Db()) && Indexed(Db())
    }

    constructor (ifZero: string -> nat -> bool)
      ensures Valid() && Db() == Database([], map[], ifZero)
    {
      this.ifZero := ifZero;
      decls, chains := [], map[];
    }

    method InstallDecl(d: Decl)
      requires Valid()
      modifies this
      ensures Valid() && Db() == Installed(old(Db()), d)
    {
      hide Sound;
      hide Indexed;
      InstalledIsSound(Db(), d);
      var p := |decls|;
      if d.name in chains {
        chains := chains[d.name := Inserted(chains[d.name], p)];
      } else {
        chains := chains[d.name := [p]];
      }
      decls := decls + [d];
    }
  }

  /** A declaration with the flags that the generator sets in it. */
  class Node {
    const decl: Decl
    var forward: bool
    var declared: bool
    var flag: bool

    constructor (decl: Decl)
      ensures this.decl == decl && !forward && !declared && !flag
    {
      this.decl := decl;
      forward, declared, flag := false, false, false;
    }
  }

  /** Each declaration has a node of its own. */
  ghost predicate AreNodes(decls: seq<Decl>, nodes: seq<Node>) {
    && |nodes| == |decls|
    && (forall p :: 0 <= p < |nodes| ==> nodes[p].decl == decls[p])
    && (forall p, q :: 0 <= p < q < |nodes| ==> nodes[p] != nodes[q])
  }

  /** All texts that are searched end in their first NUL. */
  ghost predicate HasCTexts(db: Database) {
    forall d :: d in db.decls ==>
      && (d.zDecl.Some? ==> CText(d.zDecl.value))
      && (d.zIf.Some? ==> CText(d.zIf.value))
      && IncludesAreCTexts(d.includes)
  }

  function OneUse(use: Option<Use>): seq<Use> {
    if use.Some? then [use.value] else []
  }

  lemma ScanUnfolds(db: Database, st: State, use: Option<Use>, rest: seq<Use>)
    requires Sound(db) && (use.Some? ==> use.value.name in db.chains)
    ensures Spec.ScanText(db, st, OneUse(use) + rest) ==
            if use.Some? then
              Spec.ScanText(db, Spec.DeclareObject(db, st, db.chains[use.value.name], use.value.full), rest)
            else Spec.ScanText(db, st, rest)
  {
    hide Spec.DeclareObject;
    assert OneUse(use) + rest == if use.Some? then [use.value] + rest else rest;
  }

  lemma NoUses(db: Database, st: State, z: string, i: nat, next: Option<Token>)
    requires Sound(db) && At(z, i) == '\0' && (next.Some? ==> next.value.kind == Id)
    ensures Spec.ScanText(db, st, Uses(db, z, i, next)) == st
  {
  }

  ghost predicate IncludesAreCTexts(list: seq<Include>) {
    forall inc :: inc in list && inc.zIf.Some? ==> CText(inc.zIf.value)
  }

  lemma ChainRest(db: Database, ps: seq<nat>)
    requires Chain(db, ps) && ps != []
    ensures Chain(db, ps[1..])
  {
  }

  /** A declaration marked as declared, or not marked. */
  function MarkedIf(due: bool, st: State, p: nat): State {
    if due then st.(forward := st.forward + {p}, declared := st.declared + {p}, flag := st.flag + {p})
    else st.(flag := st.flag - {p})
  }

  lemma MarkNone(db: Database, st: State, full: bool)
    ensures Chain(db, []) && MarkDue(db, st, [], full) == st
  {
  }

  /** Marking a chain marks one declaration after another. */
  lemma MarkNext(db: Database, st: State, ps: seq<nat>, k: nat, full: bool)
    requires Chain(db, ps) && k < |ps| && Chain(db, ps[..k])
    ensures Chain(db, ps[..k + 1])
    ensures var st1 := MarkDue(db, st, ps[..k], full);
            MarkDue(db, st, ps[..k + 1], full) == MarkedIf(IsDue(db, st1, ps[k], full), st1, ps[k])
  {
    hide Distinct;
    DueNext(db, st, ps, k, full);
  }

  lemma DueNext(db: Database, st: State, ps: seq<nat>, k: nat, full: bool)
    requires Chain(db, ps) && k < |ps| && Chain(db, ps[..k])
    ensures Chain(db, ps[..k + 1]) && ps[k] !in Due(db, st, ps[..k], full)
    ensures Members(ps[..k + 1]) == Members(ps[..k]) + {ps[k]}
    ensures Due(db, st, ps[..k + 1], full) ==
            if IsDue(db, st, ps[k], full) then Due(db, st, ps[..k], full) + {ps[k]} else Due(db, st, ps[..k], full)
  {
    hide IsDue;
    assert ps[..k + 1] == ps[..k] + [ps[k]];
  }

  class Generator {
    const db: Database
    const nodes: seq<Node>
    var table: set<string>
    var zIf: Option<string>
    var out: seq<Item>

    ghost predicate Valid() {
      && Sound(db) && Indexed(db) && HasCTexts(db)
      && AreNodes(db.decls, nodes)
    }

    constructor (db: Database, nodes: seq<Node>)
      requires Sound(db) && Indexed(db) && HasCTexts(db) && AreNodes(db.decls, nodes)
      ensures Valid() && this.db == db && this.nodes == nodes
      ensures table == {} && zIf == None && out == []
    {
      this.db, this.nodes := db, nodes;
      table, zIf, out := {}, None, [];
    }

    /** The declarations with a flag. */
    ghost function Forwarded(): (r: set<nat>)
      requires Valid()
      reads nodes
    {
      set p | p in All(db) && nodes[p].forward
    }

    ghost function Declared(): (r: set<nat>)
      requires Valid()
      reads nodes
    {
      set p | p in All(db) && nodes[p].declared
    }

    ghost function Flagged(): (r: set<nat>)
      requires Valid()
      reads nodes
    {
      set p | p in All(db) && nodes[p].flag
    }

    /** The state as a value. */
    ghost function Now(): (r: State)
      requires Valid()
      reads this, nodes
      ensures r.table == table && r.zIf == zIf && r.out == out
    {
      State(Forwarded(), Declared(), Flagged(), table, zIf, out)
    }

    lemma NodesCount()
      requires Valid()
      ensures |nodes| == |db.decls|
    {
    }

    lemma FlagsOf(p: nat)
      requires Valid() && p < |nodes|
      ensures p in Now().forward <==> nodes[p].forward
      ensures p in Now().declared <==> nodes[p].declared
      ensures p in Now().flag <==> nodes[p].flag
    {
    }

    method Append(item: Item)
      requires Valid()
      modifies this`out
      ensures Now() == old(Now()).Put(item)
    {
      out := out + [item];
    }

    method SetForward(p: nat)
      requires Valid() && p < |nodes|
      modifies nodes[p]
      ensures Now() == old(Now()).(forward := old(Now()).forward + {p})
    {
      nodes[p].forward := true;
      assert forall q :: 0 <= q < |nodes| && q != p ==> nodes[q] != nodes[p];
    }

    method SetDeclared(p: nat)
      requires Valid() && p < |nodes|
      modifies nodes[p]
      ensures Now() == old(Now()).(declared := old(Now()).declared + {p})
    {
      nodes[p].declared := true;
      assert forall q :: 0 <= q < |nodes| && q != p ==> nodes[q] != nodes[p];
    }

    method SetFlag(p: nat)
      requires Valid() && p < |nodes|
      modifies nodes[p]
      ensures Now() == old(Now()).(flag := old(Now()).flag + {p})
    {
      nodes[p].flag := true;
      assert forall q :: 0 <= q < |nodes| && q != p ==> nodes[q] != nodes[p];
    }

    method ClearFlag(p: nat)
      requires Valid() && p < |nodes|
      modifies nodes[p]
      ensures Now() == old(Now()).(flag := old(Now()).flag - {p})
    {
      nodes[p].flag := false;
      assert forall q :: 0 <= q < |nodes| && q != p ==> nodes[q] != nodes[p];
    }

    method SetIf(newIf: Option<string>)
      requires Valid()
      modifies this`zIf
      ensures Now() == old(Now()).(zIf := newIf)
    {
      zIf := newIf;
    }

    method CloseIf()
      requires Valid()
      modifies this
      ensures Now() == Spec.CloseIf(old(Now()))
    {
      hide Generator.Now;
      if zIf.Some? {
        Append(EndIf);
        SetIf(None);
      }
    }

    method ChangeIfContext(newIf: Option<string>)
      requires Valid() && (newIf.Some? ==> CText(newIf.value))
      modifies this, nodes
      ensures Now() == Spec.ChangeIfContext(db, old(Now()), newIf)
      decreases Left(db, Now()), 6
    {
      hide Generator.Now;
      hide UsesOf;
      if newIf.None? {
        CloseIf();
      } else {
        if zIf.Some? {
          if newIf == zIf {
            return;
          }
          CloseIf();
        }
        ghost var st := Now();
        LeftShrinks(db, old(Now()), st);
        ScanText(newIf.value);
        CloseIf();
        Append(If(newIf.value));
        SetIf(newIf);
      }
    }

    /** Read a token, or two behind a name that has a declaration. */
    method NextUse(sIn: InStream, next: Option<Token>) returns (use: Option<Use>, later: Option<Token>)
      requires CText(sIn.z) && At(sIn.z, sIn.i) != '\0' && (next.Some? ==> next.value.kind == Id)
      modifies sIn
      ensures later.Some? ==> later.value.kind == Id
      ensures use.Some? ==> use.value.name in db.chains
      ensures Uses(db, sIn.z, old(sIn.i), next) == OneUse(use) + Uses(db, sIn.z, sIn.i, later)
      ensures old(sIn.i) < sIn.i || (old(sIn.i) == sIn.i && next.Some? && later.None?)
    {
      hide Nonspace;
      hide TextOf;
      hide Newlines;
      var ifZero := db.ifZero(sIn.z);
      var t, line, errors;
      use, later := None, None;
      if next.Some? {
        t := next.value;
      } else {
        t, line, errors := sIn.GetNonspaceToken(ifZero);
      }
      if t.kind == Id {
        var name := TextOf(sIn.z, t);
        if name in db.chains {
          var full, n := true, t;
          n, line, errors := sIn.GetNonspaceToken(ifZero);
          if At(sIn.z, n.start) == '*' {
            full := false;
          } else if n.kind == Id {
            later := Some(n);
          }
          use := Some(Use(name, full));
        }
      } else if t.kind == Preprocessor {
        sIn.i := sIn.i - (t.end - t.start - 1);
      }
    }

    /** Declare all that a text uses, each use when it is read. */
    method ScanText(zText: string)
      requires Valid() && CText(zText)
      modifies this, nodes
      ensures Now() == Spec.ScanText(db, old(Now()), UsesOf(db, zText))
      decreases Left(db, Now()), 5
    {
      hide Generator.Now;
      hide Newlines;
      hide Left;
      hide Uses;
      hide Spec.ScanText;
      var sIn := new InStream(zText);
      var next: Option<Token> := None;
      ghost var st, all := Now(), Spec.ScanText(db, Now(), UsesOf(db, zText));
      while At(zText, sIn.i) != '\0'
        invariant sIn.z == zText && (next.Some? ==> next.value.kind == Id)
        invariant Grows(st, Now())
        invariant Spec.ScanText(db, Now(), Uses(db, zText, sIn.i, next)) == all
        decreases |zText| - sIn.i, next.Some?
      {
        var use;
        label Before:
        use, next := NextUse(sIn, next);
        assert Now() == old@Before(Now());
        ScanUnfolds(db, Now(), use, Uses(db, zText, sIn.i, next));
        if use.Some? {
          LeftShrinks(db, st, Now());
          DeclareObject(db.chains[use.value.name], use.value.full);
        }
      }
      NoUses(db, Now(), zText, sIn.i, next);
    }

    method AddIncludes(list: seq<Include>)
      requires Valid() && Labeled(db, list) && IncludesAreCTexts(list)
      modifies this, nodes
      ensures Now() == Spec.AddIncludes(db, old(Now()), list)
      decreases Left(db, Now()), 1, |list|
    {
      hide Generator.Now;
      hide Spec.ChangeIfContext;
      if list != [] {
        ghost var st := Now();
        AddIncludes(list[1..]);
        LeftShrinks(db, st, Now());
        if list[0].tag !in table {
          ghost var st1 := Now();
          SetTag(list[0].tag);
          LeftShrinks(db, st1, Now());
          ChangeIfContext(list[0].zIf);
          Append(IncludeLine(list[0]));
        }
      }
    }

    method SetTag(tag: string)
      requires Valid()
      modifies this`table
      ensures Now() == old(Now()).(table := old(Now()).table + {tag})
    {
      table := table + {tag};
    }

    /** The loop over a chain for its forward declarations. */
    method DeclareForwards(ps: seq<nat>) returns (doneTypedef: bool)
      requires Valid() && Chain(db, ps)
      modifies this, nodes
      ensures (Now(), doneTypedef) == Forwards(db, old(Now()), ps, false)
      decreases Left(db, Now()), 2
    {
      hide Generator.Now;
      hide Spec.ChangeIfContext;
      hide Distinct;
      hide Left;
      var k := 0;
      doneTypedef := false;
      ghost var st, all := Now(), Forwards(db, Now(), ps, false);
      assert ps[0..] == ps;
      while k < |ps|
        invariant 0 <= k <= |ps| && Grows(st, Now())
        invariant Chain(db, ps[k..]) && Forwards(db, Now(), ps[k..], doneTypedef) == all
      {
        var p := ps[k];
        assert ps[k..][0] == p && ps[k..][1..] == ps[k + 1..];
        ChainRest(db, ps[k..]);
        FlagsOf(p);
        k := k + 1;
        if db.decls[p].zFwd.Some? && !nodes[p].forward {
          LeftShrinks(db, st, Now());
          ghost var st1 := Now();
          SetForward(p);
          LeftShrinks(db, st1, Now());
          if IsForwardTypedef(db.decls[p]) {
            if doneTypedef {
              continue;
            }
            doneTypedef := true;
          }
          TextsOf(p);
          ChangeIfContext(db.decls[p].zIf);
          Append(Forward(p));
        }
      }
    }

    lemma TextsOf(p: nat)
      requires Valid() && p < |db.decls|
      ensures db.decls[p].zIf.Some? ==> CText(db.decls[p].zIf.value)
      ensures db.decls[p].zDecl.Some? ==> CText(Searched(db.decls[p]))
      ensures Labeled(db, db.decls[p].includes) && IncludesAreCTexts(db.decls[p].includes)
    {
      assert db.decls[p] in db.decls;
    }

    /** Whether everything is suitably declared already. */
    method FindSuitable(ps: seq<nat>, full: bool) returns (all: bool)
      requires Valid() && Chain(db, ps)
      ensures all == IsSuitable(Now(), ps, full)
    {
      hide Generator.Now;
      hide Distinct;
      var k := 0;
      while k < |ps|
        invariant 0 <= k <= |ps|
        invariant forall j :: 0 <= j < k ==> ps[j] in Now().forward && (full ==> ps[j] in Now().declared)
      {
        FlagsOf(ps[k]);
        if !nodes[ps[k]].forward || (full && !nodes[ps[k]].declared) {
          assert ps[k] in ps;
          return false;
        }
        k := k + 1;
      }
      return true;
    }

    method IncludeForChain(ps: seq<nat>)
      requires Valid() && Chain(db, ps)
      modifies this, nodes
      ensures Now() == ChainIncludes(db, old(Now()), ps)
      decreases Left(db, Now()), 2
    {
      hide Generator.Now;
      hide Spec.AddIncludes;
      hide Distinct;
      hide Left;
      var k := 0;
      ghost var st, all := Now(), ChainIncludes(db, Now(), ps);
      assert ps[0..] == ps;
      while k < |ps|
        invariant 0 <= k <= |ps| && Grows(st, Now())
        invariant Chain(db, ps[k..]) && ChainIncludes(db, Now(), ps[k..]) == all
      {
        var p := ps[k];
        assert ps[k..][0] == p && ps[k..][1..] == ps[k + 1..];
        ChainRest(db, ps[k..]);
        TextsOf(p);
        LeftShrinks(db, st, Now());
        AddIncludes(db.decls[p].includes);
        k := k + 1;
      }
    }

    method MarkOne(p: nat, full: bool)
      requires Valid() && p < |nodes|
      modifies nodes[p]
      ensures Now() == MarkedIf(IsDue(db, old(Now()), p, full), old(Now()), p)
    {
      hide Generator.Now;
      FlagsOf(p);
      if !nodes[p].declared && (db.decls[p].zFwd.None? || full) && db.decls[p].zDecl.Some? {
        SetForward(p);
        SetDeclared(p);
        SetFlag(p);
      } else {
        ClearFlag(p);
      }
    }

    /** Mark what is due of a chain; take the mark off the rest. */
    method MarkChain(ps: seq<nat>, full: bool)
      requires Valid() && Chain(db, ps)
      modifies nodes
      ensures Now() == MarkDue(db, old(Now()), ps, full)
    {
      hide Generator.Now;
      hide MarkDue;
      hide Distinct;
      var k := 0;
      ghost var st := Now();
      MarkNone(db, st, full);
      assert ps[..0] == [];
      while k < |ps|
        invariant 0 <= k <= |ps| && Chain(db, ps[..k])
        invariant Now() == MarkDue(db, st, ps[..k], full)
      {
        MarkNext(db, st, ps, k, full);
        MarkOne(ps[k], full);
        k := k + 1;
      }
      assert ps[..k] == ps;
    }

    /** Search the texts that are marked. */
    method ScanChain(ps: seq<nat>)
      requires Valid() && Chain(db, ps)
      modifies this, nodes
      ensures Now() == Scans(db, old(Now()), ps)
      decreases Left(db, Now()), if IsMarked(Now(), ps) then 8 else 0
    {
      hide Generator.Now;
      hide Spec.ScanText;
      hide UsesOf;
      hide Distinct;
      hide Left;
      var k := 0;
      ghost var st, all := Now(), Scans(db, Now(), ps);
      assert ps[0..] == ps;
      while k < |ps|
        invariant 0 <= k <= |ps| && Grows(st, Now()) && (!IsMarked(st, ps) ==> Now() == st)
        invariant Chain(db, ps[k..]) && Scans(db, Now(), ps[k..]) == all
      {
        var p := ps[k];
        assert ps[k..][0] == p && ps[k..][1..] == ps[k + 1..];
        ChainRest(db, ps[k..]);
        FlagsOf(p);
        TextsOf(p);
        LeftShrinks(db, st, Now());
        if nodes[p].flag && db.decls[p].zDecl.Some? {
          ScanText(Searched(db.decls[p]));
        }
        k := k + 1;
      }
    }

    /** Give out what is marked and no typedef. */
    method EmitChain(ps: seq<nat>, wasTypedef: bool) returns (doneTypedef: bool)
      requires Valid() && Chain(db, ps)
      modifies this, nodes
      ensures (Now(), doneTypedef) == Emits(db, old(Now()), ps, wasTypedef)
      decreases Left(db, Now()), if IsMarked(Now(), ps) then 8 else 0
    {
      hide Generator.Now;
      hide Spec.ChangeIfContext;
      hide Distinct;
      hide Left;
      var k := 0;
      doneTypedef := wasTypedef;
      ghost var st, all := Now(), Emits(db, Now(), ps, wasTypedef);
      assert ps[0..] == ps;
      while k < |ps|
        invariant 0 <= k <= |ps| && Grows(st, Now()) && (!IsMarked(st, ps) ==> Now() == st)
        invariant Chain(db, ps[k..]) && Emits(db, Now(), ps[k..], doneTypedef) == all
      {
        var p := ps[k];
        assert ps[k..][0] == p && ps[k..][1..] == ps[k + 1..];
        ChainRest(db, ps[k..]);
        FlagsOf(p);
        k := k + 1;
        if nodes[p].flag && !db.decls[p].isTypedef {
          if db.decls[p].isEnum {
            if doneTypedef {
              continue;
            }
            doneTypedef := true;
          }
          TextsOf(p);
          LeftShrinks(db, st, Now());
          ChangeIfContext(db.decls[p].zIf);
          Append(Full(p));
          ClearFlag(p);
        }
      }
    }

    /** Give out the first text that is still marked. */
    method EmitFirst(ps: seq<nat>)
      requires Valid() && Chain(db, ps)
      modifies this, nodes
      ensures Now() == Spec.EmitTypedef(db, old(Now()), ps)
      decreases Left(db, Now()), if IsMarked(Now(), ps) then 8 else 0
    {
      hide Generator.Now;
      hide Spec.ChangeIfContext;
      hide Distinct;
      hide Left;
      var k, doneTypedef := 0, false;
      ghost var st, all := Now(), Spec.EmitTypedef(db, Now(), ps);
      assert ps[0..] == ps;
      while k < |ps| && !doneTypedef
        invariant 0 <= k <= |ps|
        invariant if doneTypedef then Now() == all
                  else Now() == st && Chain(db, ps[k..]) && Spec.EmitTypedef(db, st, ps[k..]) == all
      {
        var p := ps[k];
        assert ps[k..][0] == p && ps[k..][1..] == ps[k + 1..];
        ChainRest(db, ps[k..]);
        FlagsOf(p);
        if nodes[p].flag {
          doneTypedef := true;
          TextsOf(p);
          ChangeIfContext(db.decls[p].zIf);
          Append(Full(p));
        }
        k := k + 1;
      }
    }

    /** Mark what is due of a chain, search it, and give it out. */
    method GiveDue(ps: seq<nat>, full: bool, wasTypedef: bool)
      requires Valid() && Chain(db, ps)
      modifies this, nodes
      ensures Now() == Spec.GiveDue(db, old(Now()), ps, full, wasTypedef)
      decreases Left(db, Now()), 2
    {
      hide Generator.Now;
      hide MarkDue;
      hide Scans;
      hide Emits;
      hide EmitTypedef;
      hide Distinct;
      hide Left;
      ghost var st := Now();
      MarkChain(ps, full);
      ghost var st1 := Now();
      LeftShrinks(db, st, st1);
      if IsMarked(st1, ps) {
        ghost var p :| p in ps && p in st1.flag;
        MarkedWereDue(db, st, ps, full, p);
      } else {
        NoneMarked(db, st1, ps, wasTypedef);
      }
      ScanChain(ps);
      LeftShrinks(db, st1, Now());
      var doneTypedef := EmitChain(ps, wasTypedef);
      LeftShrinks(db, st1, Now());
      if !doneTypedef {
        EmitFirst(ps);
      }
    }

    /** Declare what has one name, in full if need be, after all that it uses. */
    method DeclareObject(ps: seq<nat>, full: bool)
      requires Valid() && Chain(db, ps)
      modifies this, nodes
      ensures Now() == Spec.DeclareObject(db, old(Now()), ps, full)
      decreases Left(db, Now()), 3
    {
      hide Generator.Now;
      hide Forwards;
      hide ChainIncludes;
      hide Spec.GiveDue;
      hide Distinct;
      hide Left;
      ghost var st := Now();
      var doneTypedef := DeclareForwards(ps);
      LeftShrinks(db, st, Now());
      var suitable := FindSuitable(ps, full);
      if suitable {
        return;
      }
      IncludeForChain(ps);
      LeftShrinks(db, st, Now());
      GiveDue(ps, full, doneTypedef);
    }

    /** Forget what was declared in the last header; what is local to other files counts as declared. */
    method ResetDeclFlags(file: string)
      requires Valid()
      modifies nodes
      ensures Now() == old(Now()).(forward := Elsewhere(db, file), declared := Elsewhere(db, file))
    {
      hide Sound;
      hide Indexed;
      hide HasCTexts;
      hide AreNodes;
      hide Generator.Flagged;
      NodesCount();
      var p := 0;
      while p < |nodes|
        invariant 0 <= p <= |nodes|
        invariant table == old(table) && zIf == old(zIf) && out == old(out) && Flagged() == old(Flagged())
        invariant forall q :: 0 <= q < p ==> nodes[q].forward == (q in Elsewhere(db, file))
        invariant forall q :: 0 <= q < p ==> nodes[q].declared == (q in Elsewhere(db, file))
      {
        ResetNode(p, db.decls[p].isLocal && db.decls[p].file != file);
        p := p + 1;
      }
    }

    method ResetNode(p: nat, isElsewhere: bool)
      requires Valid() && p < |nodes|
      modifies nodes[p]
      ensures Flagged() == old(Flagged())
      ensures nodes[p].forward == isElsewhere && nodes[p].declared == isElsewhere
      ensures forall q :: 0 <= q < |nodes| && q != p ==>
                nodes[q].forward == old(nodes[q].forward) && nodes[q].declared == old(nodes[q].declared)
    {
      nodes[p].forward, nodes[p].declared := false, false;
      if isElsewhere {
        nodes[p].forward, nodes[p].declared := true, true;
      }
      assert forall q :: 0 <= q < |nodes| && q != p ==> nodes[q] != nodes[p];
    }

    /** Complete what is only forward declared; it fails at a declaration that this does not declare. */
    method CompleteForwardDeclarations() returns (failed: bool)
      requires Valid()
      modifies this, nodes
      ensures Now() == Complete(db, old(Now())).st && failed == Complete(db, old(Now())).failed
    {
      hide Generator.Now;
      hide CompleteOnce;
      hide Left;
      hide Sound;
      hide Indexed;
      var progress := true;
      ghost var all := Complete(db, Now());
      while progress
        invariant if progress then Reaches(Complete(db, Now()), all) else Now() == all.st && !all.failed
        decreases Left(db, Now()), progress
      {
        ghost var st := Now();
        progress, failed := CompleteAll();
        LeftShrinks(db, st, Now());
        if failed {
          return;
        }
      }
      return false;
    }

    method CompleteAll() returns (progress: bool, failed: bool)
      requires Valid()
      modifies this, nodes
      ensures Sweep(Now(), progress, failed) == CompleteOnce(db, old(Now()), 0)
    {
      hide Generator.Now;
      hide Spec.DeclareObject;
      hide ChainFrom;
      var p := 0;
      progress := false;
      ghost var all := CompleteOnce(db, Now(), 0);
      while p < |nodes|
        invariant 0 <= p <= |nodes|
        invariant Reaches(CompleteOnce(db, Now(), p), all)
        invariant progress || CompleteOnce(db, Now(), p).progress == all.progress
        invariant progress ==> all.progress
      {
        FlagsOf(p);
        if nodes[p].forward && !nodes[p].declared {
          DeclareObject(ChainFrom(db, p), true);
          progress := true;
          FlagsOf(p);
          if !nodes[p].declared {
            return true, true;
          }
        }
        p := p + 1;
      }
      return progress, false;
    }

    /** The header of a file, for the names that it uses. */
    method MakeHeader(file: string, names: seq<string>) returns (failed: bool)
      requires Valid()
      modifies this, nodes
      ensures var r := Runs.MakeHeader(db, file, old(Flagged()), names); Now() == r.st && failed == r.failed
    {
      hide Generator.Now;
      hide Complete;
      hide Spec.ScanText;
      hide Spec.ChangeIfContext;
      StartHeader(file);
      DeclareNames(names);
      failed := CompleteForwardDeclarations();
      if !failed {
        ChangeIfContext(None);
      }
    }

    method StartHeader(file: string)
      requires Valid()
      modifies this, nodes
      ensures Now() == Start(db, file, old(Flagged()))
    {
      table, zIf, out := {}, None, [];
      ResetDeclFlags(file);
    }

    method DeclareNames(names: seq<string>)
      requires Valid()
      modifies this, nodes
      ensures Now() == Spec.ScanText(db, old(Now()), NeedAll(names))
    {
      hide Generator.Now;
      hide Spec.DeclareObject;
      var k := 0;
      ghost var uses, all := NeedAll(names), Spec.ScanText(db, Now(), NeedAll(names));
      assert uses[0..] == uses;
      while k < |names|
        invariant 0 <= k <= |names|
        invariant Spec.ScanText(db, Now(), uses[k..]) == all
      {
        assert uses[k..][0] == Use(names[k], true) && uses[k..][1..] == uses[k + 1..];
        if names[k] in db.chains {
          DeclareObject(db.chains[names[k]], true);
        }
        k := k + 1;
      }
    }
  }

  /** Both end in the same state, and in the same way. */
  ghost predicate Reaches(a: Sweep, b: Sweep) {
    a.st == b.st && a.failed == b.failed
  }
}
