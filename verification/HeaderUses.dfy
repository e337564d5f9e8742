/** What a text uses, said of its tokens. */
module HeaderUses {
  import opened Options
  import opened TokenSpec
  import opened TokenStreams
  import opened HeaderSpec

  /** The tokens of a text that count, with its directives taken apart behind their `#`. */
  function Seen(z: string, ifZero: nat -> bool, i: nat): seq<Token>
    decreases |z| - i
  {
    var t := Nonspace(z, ifZero, i, 0).0;
    if t.kind == Eof then []
    else if t.kind == Preprocessor then Seen(z, ifZero, t.start + 1)
    else [t] + Seen(z, ifZero, t.end)
  }

  /** A word that is the name of a declaration. */
  predicate IsName(db: Database, z: string, t: Token) {
    t.kind == Id && TextOf(z, t) in db.chains
  }

  /** The token that counts next behind another. */
  function After(db: Database, z: string, t: Token): Token {
    Nonspace(z, db.ifZero(z), t.end, 0).0
  }

  /** The names among the tokens, in order; those behind which a star comes are needed as pointers only. */
  function NamesUsed(db: Database, z: string, ts: seq<Token>): seq<Use> {
    if ts == [] then []
    else
      (if IsName(db, z, ts[0]) then [Use(TextOf(z, ts[0]), At(z, After(db, z, ts[0]).start) != '*')] else [])
      + NamesUsed(db, z, ts[1..])
  }

  /** Behind a name neither a directive comes nor a word that ends the text: those are not searched. */
  ghost predicate AllSearched(db: Database, z: string, ts: seq<Token>) {
    forall t :: t in ts && IsName(db, z, t) ==>
      After(db, z, t).kind != Preprocessor && (After(db, z, t).kind == Id ==> After(db, z, t).end < |z|)
  }

  lemma SeenStep(z: string, ifZero: nat -> bool, i: nat)
    ensures var t := Nonspace(z, ifZero, i, 0).0;
            && (t.kind == Eof ==> Seen(z, ifZero, i) == [])
            && (t.kind == Preprocessor ==> Seen(z, ifZero, i) == Seen(z, ifZero, t.start + 1))
            && (t.kind != Eof && t.kind != Preprocessor ==> Seen(z, ifZero, i) == [t] + Seen(z, ifZero, t.end))
  {
  }

  lemma NamesStep(db: Database, z: string, t: Token, ts: seq<Token>)
    ensures NamesUsed(db, z, [t] + ts) ==
            (if IsName(db, z, t) then [Use(TextOf(z, t), At(z, After(db, z, t).start) != '*')] else [])
            + NamesUsed(db, z, ts)
    ensures AllSearched(db, z, [t] + ts) ==> AllSearched(db, z, ts)
  {
    assert ([t] + ts)[1..] == ts;
    assert forall x :: x in ts ==> x in [t] + ts;
  }

  /** The first character of a token tells its kind. */
  lemma StarIsNoWord(z: string, ifZero: nat -> bool, i: nat)
    ensures var n := Nonspace(z, ifZero, i, 0).0;
            At(z, n.start) == '*' ==> n.kind != Id && n.kind != Preprocessor && n.kind != Eof
    decreases |z| - i
  {
    StarFrom(z, ifZero, i, 0);
  }

  lemma {:induction false} StarFrom(z: string, ifZero: nat -> bool, i: nat, depth: nat)
    ensures var n := Nonspace(z, ifZero, i, depth).0;
            At(z, n.start) == '*' ==> n.kind != Id && n.kind != Preprocessor && n.kind != Eof
    decreases |z| - i
  {
    hide Shows;
    hide ZeroStep;
    if i < |z| {
      StarCut(z, i);
      hide CutAt;
      CutAdvances(z, i);
      var c := CutAt(z, i);
      var t := Token(c.kind, i, c.end);
      if !Shows(z, ifZero, t, depth) {
        StarFrom(z, ifZero, c.end, ZeroStep(z, ifZero, t, depth));
      }
    }
  }

  lemma StarCut(z: string, i: nat)
    requires i < |z|
    ensures z[i] == '*' ==> CutAt(z, i).kind == Other
  {
  }

  /** A name's use, and the uses behind it. */
  function UsesOfName(db: Database, z: string, t: Token): seq<Use> {
    var n := After(db, z, t);
    var full := At(z, n.start) != '*';
    [Use(TextOf(z, t), full)] + Uses(db, z, n.end, if full && n.kind == Id then Some(n) else None)
  }

  /** From a name on. */
  lemma {:induction false} UsesFromName(db: Database, z: string, t: Token)
    requires CText(z) && IsName(db, z, t)
    requires AllSearched(db, z, [t] + Seen(z, db.ifZero(z), t.end))
    ensures UsesOfName(db, z, t) == NamesUsed(db, z, [t] + Seen(z, db.ifZero(z), t.end))
    decreases |z| - t.end, 0
  {
    hide Nonspace;
    hide TextOf;
    hide Seen;
    hide NamesUsed;
    hide Uses;
    var f := db.ifZero(z);
    var n := After(db, z, t);
    var rest := Seen(z, f, t.end);
    assert t in [t] + rest;
    NamesStep(db, z, t, rest);
    SeenStep(z, f, t.end);
    StarIsNoWord(z, f, t.end);
    if n.kind == Eof {
      UsesAtEnd(db, z, n.end);
      NoNames(db, z);
    } else {
      NamesStep(db, z, n, Seen(z, f, n.end));
      if n.kind == Id {
        UsesFrom(db, z, n.end, Some(n));
      } else {
        assert [] + Seen(z, f, n.end) == Seen(z, f, n.end);
        UsesFrom(db, z, n.end, None);
      }
    }
  }

  lemma NoNames(db: Database, z: string)
    ensures NamesUsed(db, z, []) == []
  {
  }

  lemma UsesAtEnd(db: Database, z: string, i: nat)
    requires i >= |z|
    ensures Uses(db, z, i, None) == []
  {
  }

  /** One token on, without and with a word read ahead. */
  lemma UsesStep(db: Database, z: string, i: nat)
    requires CText(z) && i < |z|
    ensures var t := Nonspace(z, db.ifZero(z), i, 0).0;
            Uses(db, z, i, None) ==
            if IsName(db, z, t) then UsesOfName(db, z, t)
            else if t.kind == Preprocessor then Uses(db, z, t.start + 1, None)
            else Uses(db, z, t.end, None)
    ensures forall t: Token :: t.kind == Id && t.end == i ==>
              Uses(db, z, i, Some(t)) == if IsName(db, z, t) then UsesOfName(db, z, t) else Uses(db, z, i, None)
  {
    hide Nonspace;
    hide TextOf;
    assert z[i] != '\0';
  }

  /** From any place on, be a word read ahead or not. */
  lemma {:induction false} UsesFrom(db: Database, z: string, i: nat, next: Option<Token>)
    requires CText(z) && (next.Some? ==> next.value.kind == Id && next.value.end == i < |z|)
    requires AllSearched(db, z, Ahead(next) + Seen(z, db.ifZero(z), i))
    ensures Uses(db, z, i, next) == NamesUsed(db, z, Ahead(next) + Seen(z, db.ifZero(z), i))
    decreases |z| - i, if next.Some? then 3 else 2
  {
    hide Nonspace;
    hide TextOf;
    hide Seen;
    hide NamesUsed;
    var f := db.ifZero(z);
    SeenStep(z, f, i);
    NoNames(db, z);
    if next.Some? {
      var t := next.value;
      UsesStep(db, z, i);
      hide Uses;
      hide UsesOfName;
      hide AllSearched;
      NamesStep(db, z, t, Seen(z, f, i));
      if IsName(db, z, t) {
        UsesFromName(db, z, t);
      } else {
        assert [] + Seen(z, f, i) == Seen(z, f, i);
        UsesFrom(db, z, i, None);
      }
    } else {
      assert [] + Seen(z, f, i) == Seen(z, f, i);
      UsesFromHere(db, z, i);
    }
  }

  function Ahead(next: Option<Token>): seq<Token> {
    if next.Some? then [next.value] else []
  }

  lemma {:induction false} UsesFromHere(db: Database, z: string, i: nat)
    requires CText(z) && AllSearched(db, z, Seen(z, db.ifZero(z), i))
    ensures Uses(db, z, i, None) == NamesUsed(db, z, Seen(z, db.ifZero(z), i))
    decreases |z| - i, 1
  {
    hide *;
    var f := db.ifZero(z);
    var t := Nonspace(z, f, i, 0).0;
    SeenStep(z, f, i);
    NoNames(db, z);
    if i >= |z| {
      AtEndIsEof(z, f, i);
      UsesAtEnd(db, z, i);
    } else {
      UsesStep(db, z, i);
      if t.kind == Eof {
        EofIsNoName(db, z, t);
        UsesAtEnd(db, z, t.end);
      } else if t.kind == Preprocessor {
        EofIsNoName(db, z, t);
        UsesFromHere(db, z, t.start + 1);
      } else {
        UsesFromToken(db, z, t);
      }
    }
  }

  lemma EofIsNoName(db: Database, z: string, t: Token)
    requires t.kind == Eof || t.kind == Preprocessor
    ensures !IsName(db, z, t)
  {
  }

  lemma {:induction false} UsesFromToken(db: Database, z: string, t: Token)
    requires CText(z) && AllSearched(db, z, [t] + Seen(z, db.ifZero(z), t.end))
    ensures (if IsName(db, z, t) then UsesOfName(db, z, t) else Uses(db, z, t.end, None)) ==
            NamesUsed(db, z, [t] + Seen(z, db.ifZero(z), t.end))
    decreases |z| - t.end, 2
  {
    NamesStep(db, z, t, Seen(z, db.ifZero(z), t.end));
    hide *;
    if IsName(db, z, t) {
      UsesFromName(db, z, t);
    } else {
      UsesFromHere(db, z, t.end);
    }
  }

  lemma AtEndIsEof(z: string, ifZero: nat -> bool, i: nat)
    requires i >= |z|
    ensures Nonspace(z, ifZero, i, 0).0.kind == Eof
  {
  }

  /** A text uses the names of declarations among its tokens, in their order; by pointer where a star follows. */
  lemma UsesExactly(db: Database, z: string)
    requires CText(z) && AllSearched(db, z, Seen(z, db.ifZero(z), 0))
    ensures UsesOf(db, z) == NamesUsed(db, z, Seen(z, db.ifZero(z), 0))
  {
    UsesFromHere(db, z, 0);
  }
}
