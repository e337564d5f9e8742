/** Texts as the parser of declarations leaves them, and what they use. */
module HeaderExamples {
  import opened Options
  import opened TokenSpec
  import opened TokenStreams
  import opened HeaderSpec
  import opened HeaderLaws
  import opened HeaderRuns
  import opened HeaderOrder
  import opened HeaderPrecedence
  import opened HeaderComplete

  const STRUCT: string := "struct T {int a;};\n"
  const FUNCTION: string := "int T(int);\n"
  const POINTER_USER: string := "int C(T *);\n"
  const VALUE_USER: string := "int C(T);\n"

  lemma {:induction false} SkipTo(z: string, i: nat, j: nat, p: char -> bool)
    requires i <= j <= |z| && (forall k :: i <= k < j ==> p(z[k])) && (j < |z| ==> !p(z[j]))
    ensures Skip(z, i, p) == j
    decreases j - i
  {
    if i < j {
      SkipTo(z, i + 1, j, p);
    }
  }

  /** The next token that counts is a word. */
  lemma WordAt(z: string, ifZero: nat -> bool, i: nat, j: nat)
    requires i < j < |z| && IsLetter(z[i]) && (forall k :: i <= k < j ==> IsIdChar(z[k])) && !IsIdChar(z[j])
    ensures Nonspace(z, ifZero, i, 0).0 == Token(Id, i, j)
  {
    SkipTo(z, i, j, IsIdChar);
  }

  /** The next token that counts is a sign. */
  lemma SignAt(z: string, ifZero: nat -> bool, i: nat)
    requires i < |z| && (z[i] in {'{', '}', '(', ')', ';'} || (z[i] == '*' && At(z, i + 1) != '='))
    ensures Nonspace(z, ifZero, i, 0).0 == Token(Other, i, i + 1)
  {
    SignCut(z, i);
    hide CutAt;
    CutAdvances(z, i);
  }

  lemma SignCut(z: string, i: nat)
    requires i < |z| && (z[i] in {'{', '}', '(', ')', ';'} || (z[i] == '*' && At(z, i + 1) != '='))
    ensures CutAt(z, i) == Cut(Other, i + 1, 0)
  {
  }

  /** A blank is skipped. */
  lemma BlankAt(z: string, ifZero: nat -> bool, i: nat)
    requires i + 1 < |z| && z[i] == ' ' && !IsSpace(z[i + 1])
    ensures Nonspace(z, ifZero, i, 0).0 == Nonspace(z, ifZero, i + 1, 0).0
  {
    SkipTo(z, i, i + 1, IsSpace);
  }

  lemma UnusedToken(db: Database, z: string, i: nat, t: Token)
    requires At(z, i) != '\0' && Nonspace(z, db.ifZero(z), i, 0).0 == t && t.kind != Preprocessor
    requires t.kind == Id ==> TextOf(z, t) !in db.chains
    ensures Uses(db, z, i, None) == Uses(db, z, t.end, None)
  {
    hide Nonspace;
  }

  lemma UsedToken(db: Database, z: string, i: nat, t: Token, n: Token)
    requires At(z, i) != '\0' && Nonspace(z, db.ifZero(z), i, 0).0 == t && t.kind == Id && TextOf(z, t) in db.chains
    requires Nonspace(z, db.ifZero(z), t.end, 0).0 == n && n.kind != Id
    ensures Uses(db, z, i, None) == [Use(TextOf(z, t), At(z, n.start) != '*')] + Uses(db, z, n.end, None)
  {
    hide Nonspace;
  }

  /** Other words of the texts are no names of declarations. */
  predicate IsExample(db: Database) {
    "T" in db.chains && "C" in db.chains && "struct" !in db.chains && "int" !in db.chains && "a" !in db.chains
  }

  lemma StartOfStruct(db: Database)
    requires IsExample(db)
    ensures UsesOf(db, STRUCT) == Uses(db, STRUCT, 6, None)
  {
    hide Uses;
    hide Nonspace;
    WordAt(STRUCT, db.ifZero(STRUCT), 0, 6);
    assert TextOf(STRUCT, Token(Id, 0, 6)) == "struct";
    UnusedToken(db, STRUCT, 0, Token(Id, 0, 6));
  }

  lemma UsesOfStruct(db: Database)
    requires IsExample(db)
    ensures UsesOf(db, STRUCT) == [Use("T", true)]
  {
    hide Uses;
    hide Nonspace;
    var z, f := STRUCT, db.ifZero(STRUCT);
    StartOfStruct(db);
    BlankAt(z, f, 6);
    WordAt(z, f, 7, 8);
    BlankAt(z, f, 8);
    SignAt(z, f, 9);
    assert TextOf(z, Token(Id, 7, 8)) == "T";
    UsedToken(db, z, 6, Token(Id, 7, 8), Token(Other, 9, 10));
    RestOfStruct(db);
  }

  lemma RestOfStruct(db: Database)
    requires IsExample(db)
    ensures Uses(db, STRUCT, 10, None) == []
  {
    hide Uses;
    hide Nonspace;
    var z, f := STRUCT, db.ifZero(STRUCT);
    WordAt(z, f, 10, 13);
    assert TextOf(z, Token(Id, 10, 13)) == "int";
    UnusedToken(db, z, 10, Token(Id, 10, 13));
    BlankAt(z, f, 13);
    WordAt(z, f, 14, 15);
    assert TextOf(z, Token(Id, 14, 15)) == "a";
    UnusedToken(db, z, 13, Token(Id, 14, 15));
    EndOfStruct(db);
  }

  lemma EndOfStruct(db: Database)
    ensures Uses(db, STRUCT, 15, None) == []
  {
    hide Uses;
    hide Nonspace;
    var z, f := STRUCT, db.ifZero(STRUCT);
    SignAt(z, f, 15);
    UnusedToken(db, z, 15, Token(Other, 15, 16));
    SignAt(z, f, 16);
    UnusedToken(db, z, 16, Token(Other, 16, 17));
    SignAt(z, f, 17);
    UnusedToken(db, z, 17, Token(Other, 17, 18));
    NoUseAtEnd(db, z);
  }

  /** A function that returns a number uses its own name in full. */
  lemma HeadUse(db: Database, z: string)
    requires |z| > 6 && IsExample(db) && z[..4] == "int " && z[5] == '('
    requires IsLetter(z[4]) && z[4..5] in db.chains
    ensures UsesOf(db, z) == [Use(z[4..5], true)] + Uses(db, z, 6, None)
  {
    hide Uses;
    hide Nonspace;
    var f := db.ifZero(z);
    assert z[0] == z[..4][0] && z[1] == z[..4][1] && z[2] == z[..4][2] && z[3] == z[..4][3];
    WordAt(z, f, 0, 3);
    assert TextOf(z, Token(Id, 0, 3)) == "int";
    UnusedToken(db, z, 0, Token(Id, 0, 3));
    BlankAt(z, f, 3);
    WordAt(z, f, 4, 5);
    SignAt(z, f, 5);
    UsedToken(db, z, 3, Token(Id, 4, 5), Token(Other, 5, 6));
  }

  lemma UsesOfFunction(db: Database)
    requires IsExample(db)
    ensures UsesOf(db, FUNCTION) == [Use("T", true)]
  {
    hide Uses;
    hide Nonspace;
    var z, f := FUNCTION, db.ifZero(FUNCTION);
    assert z[4..5] == "T";
    HeadUse(db, z);
    WordAt(z, f, 6, 9);
    assert TextOf(z, Token(Id, 6, 9)) == "int";
    UnusedToken(db, z, 6, Token(Id, 6, 9));
    SignAt(z, f, 9);
    UnusedToken(db, z, 9, Token(Other, 9, 10));
    SignAt(z, f, 10);
    UnusedToken(db, z, 10, Token(Other, 10, 11));
    NoUseAtEnd(db, z);
  }

  lemma UsesOfPointerUser(db: Database)
    requires IsExample(db)
    ensures UsesOf(db, POINTER_USER) == [Use("C", true), Use("T", false)]
  {
    hide Uses;
    hide Nonspace;
    var z, f := POINTER_USER, db.ifZero(POINTER_USER);
    assert z[4..5] == "C";
    HeadUse(db, z);
    WordAt(z, f, 6, 7);
    BlankAt(z, f, 7);
    SignAt(z, f, 8);
    assert TextOf(z, Token(Id, 6, 7)) == "T";
    UsedToken(db, z, 6, Token(Id, 6, 7), Token(Other, 8, 9));
    SignAt(z, f, 9);
    UnusedToken(db, z, 9, Token(Other, 9, 10));
    SignAt(z, f, 10);
    UnusedToken(db, z, 10, Token(Other, 10, 11));
    NoUseAtEnd(db, z);
  }

  lemma UsesOfValueUser(db: Database)
    requires IsExample(db)
    ensures UsesOf(db, VALUE_USER) == [Use("C", true), Use("T", true)]
  {
    hide Uses;
    hide Nonspace;
    var z, f := VALUE_USER, db.ifZero(VALUE_USER);
    assert z[4..5] == "C";
    HeadUse(db, z);
    WordAt(z, f, 6, 7);
    SignAt(z, f, 7);
    assert TextOf(z, Token(Id, 6, 7)) == "T";
    UsedToken(db, z, 6, Token(Id, 6, 7), Token(Other, 7, 8));
    SignAt(z, f, 8);
    UnusedToken(db, z, 8, Token(Other, 8, 9));
    NoUseAtEnd(db, z);
  }

  /** Nothing follows the line feed at the end. */
  lemma NoUseAtEnd(db: Database, z: string)
    requires |z| > 0 && z[|z| - 1] == '\n'
    ensures Uses(db, z, |z| - 1, None) == []
  {
    var i := |z| - 1;
    SkipTo(z, i, |z|, IsSpace);
    assert Nonspace(z, db.ifZero(z), |z|, 0).0 == Token(Eof, |z|, |z|);
    assert Nonspace(z, db.ifZero(z), i, 0).0 == Token(Eof, |z|, |z|);
    assert Uses(db, z, |z|, None) == [];
  }

  function Plain(name: string, zFwd: Option<string>, text: string, isTypedef: bool): Decl {
    Decl(name, "a.c", None, zFwd, Some(text), isTypedef, false, false, [])
  }

  const FORWARD: string := "typedef struct T T;\n"

  /** A structure, and a function that takes one. */
  function Orderly(): Database {
    Database(
      [Plain("T", Some(FORWARD), STRUCT, false), Plain("C", None, VALUE_USER, false)],
      map["T" := [0], "C" := [1]],
      z => i => false)
  }

  lemma OrderlyIsSound()
    ensures Sound(Orderly()) && Indexed(Orderly())
    ensures forall file :: IsWhole(Orderly(), file, "T") && IsWhole(Orderly(), file, "C")
    ensures IsExample(Orderly())
  {
    var db := Orderly();
    assert db.decls[0].name == "T" && db.decls[1].name == "C";
    assert db.chains["T"] == [0] && db.chains["C"] == [1];
    forall name | name in db.chains
      ensures name == "T" || name == "C"
    {
    }
    assert 0 in db.chains["T"] && 1 in db.chains["C"];
  }

  /** The theorems on order and completeness speak of such declarations: the function's text needs the structure. */
  lemma OrderlyIsOrdered(o: Order)
    requires o.rank("C") > o.rank("T") && o.conditions == 0
    ensures Setting(Orderly(), o, 1, Full(0)) && Setting(Orderly(), o, 1, Forward(0))
    ensures forall file :: IsSingle(Orderly(), file, 0) && 0 !in Elsewhere(Orderly(), file)
  {
    hide UsesOf;
    hide Sound;
    hide Indexed;
    OrderlyIsSound();
    var db := Orderly();
    UsesOfStruct(db);
    UsesOfValueUser(db);
    assert Searched(db.decls[0]) == STRUCT && Searched(db.decls[1]) == VALUE_USER;
    assert IsUseOf(db, Use("T", true), Full(0)) && IsUseOf(db, Use("T", true), Forward(0));
    assert Use("T", true) in UsesOf(db, Searched(db.decls[1]));
  }
}
