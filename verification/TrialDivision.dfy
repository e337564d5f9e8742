/** Primality of a number by trial division. */
module TrialDivision {
  import opened NumberTheory

  /** None of eight odd numbers in a row divides. */
  predicate Spared(p: nat, d: nat)
    requires d > 0
  {
    && p % d != 0 && p % (d + 2) != 0 && p % (d + 4) != 0 && p % (d + 6) != 0
    && p % (d + 8) != 0 && p % (d + 10) != 0 && p % (d + 12) != 0 && p % (d + 14) != 0
  }

  ghost predicate NoDivisorBelow(p: nat, n: nat) {
    forall e :: 2 <= e < n ==> p % e != 0
  }

  lemma NoDivisorStart(p: nat)
    requires p % 2 == 1
    ensures NoDivisorBelow(p, 3)
  {
  }

  lemma SparedAt(p: nat, d: nat, k: nat)
    requires d > 0 && k < 8 && Spared(p, d)
    ensures p % (d + 2 * k) != 0
  {
    assert k == 0 || k == 1 || k == 2 || k == 3 || k == 4 || k == 5 || k == 6 || k == 7;
  }

  lemma NoDivisorMore(p: nat, n: nat)
    requires p % 2 == 1 && n % 2 == 1 && NoDivisorBelow(p, n) && Spared(p, n)
    ensures NoDivisorBelow(p, n + 16)
  {
    hide Spared;
    forall e | n <= e < n + 16
      ensures p % e != 0
    {
      if e % 2 == 0 {
        OddIsSpared(p, e);
      } else {
        SparedAt(p, n, (e - n) / 2);
      }
    }
  }

  /** An even number divides no odd one. */
  lemma OddIsSpared(p: nat, e: nat)
    requires p % 2 == 1 && e % 2 == 0 && e > 0
    ensures p % e != 0
  {
    EvenProduct(e / 2, p / e);
    assert p == (2 * (e / 2)) * (p / e) + p % e;
  }

  lemma EvenProduct(k: nat, q: nat)
    ensures ((2 * k) * q) % 2 == 0
  {
    assert (2 * k) * q == 2 * (k * q);
    MultipleOf(2, k * q);
  }

  /** Trial division up to the square root decides. */
  lemma SquareRootDecides(p: nat, n: nat)
    requires 2 <= p < n * n && NoDivisorBelow(p, n)
    ensures Prime(p)
  {
    hide NoDivisorBelow;
    forall d | 2 <= d < p
      ensures p % d != 0
    {
      DoesNotDivide(p, n, d);
    }
  }

  lemma DoesNotDivide(p: nat, n: nat, d: nat)
    requires 2 <= d < p < n * n && NoDivisorBelow(p, n)
    ensures p % d != 0
  {
    var e := p / d;
    if d >= n && p == d * e {
      CofactorIsSmall(d, e, n);
      ModIs(p, e, d, 0);
    }
  }

  /** Of a divisor that is not below `n` and its cofactor, the cofactor is. */
  lemma CofactorIsSmall(d: nat, e: nat, n: nat)
    requires n <= d < d * e < n * n
    ensures 2 <= e < n
  {
    if e >= n {
      MultiplyBound(d, n, e);
      MultiplyBound(n, n, d);
    } else if e <= 1 {
      MultiplyBound(d, e, 1);
    }
  }

  lemma LowDivisors()
    ensures NoDivisorBelow(173617, 211)
  {
    hide NoDivisorBelow;
    NoDivisorStart(173617);
    NoDivisorMore(173617, 3);
    NoDivisorMore(173617, 19);
    NoDivisorMore(173617, 35);
    NoDivisorMore(173617, 51);
    NoDivisorMore(173617, 67);
    NoDivisorMore(173617, 83);
    NoDivisorMore(173617, 99);
    NoDivisorMore(173617, 115);
    NoDivisorMore(173617, 131);
    NoDivisorMore(173617, 147);
    NoDivisorMore(173617, 163);
    NoDivisorMore(173617, 179);
    NoDivisorMore(173617, 195);
  }

  lemma HighDivisors()
    ensures NoDivisorBelow(173617, 419)
  {
    hide NoDivisorBelow;
    LowDivisors();
    NoDivisorMore(173617, 211);
    NoDivisorMore(173617, 227);
    NoDivisorMore(173617, 243);
    NoDivisorMore(173617, 259);
    NoDivisorMore(173617, 275);
    NoDivisorMore(173617, 291);
    NoDivisorMore(173617, 307);
    NoDivisorMore(173617, 323);
    NoDivisorMore(173617, 339);
    NoDivisorMore(173617, 355);
    NoDivisorMore(173617, 371);
    NoDivisorMore(173617, 387);
    NoDivisorMore(173617, 403);
  }

  lemma Prime173617()
    ensures Prime(173617)
  {
    hide Prime;
    HighDivisors();
    SquareRootDecides(173617, 419);
  }
}
