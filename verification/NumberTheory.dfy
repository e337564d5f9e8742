/** Primes, and why quadratic probing over a prime number of slots spreads out. */
module NumberTheory {
  ghost predicate Prime(p: nat) {
    2 <= p && forall d :: 2 <= d < p ==> p % d != 0
  }

  lemma PrimeIsTwo(p: nat)
    requires Prime(p)
    ensures p >= 2
  {
  }

  lemma MultipleOf(p: nat, k: int)
    requires p > 0
    ensures (p * k) % p == 0
  {
    ModIs(p * k, p, k, 0);
  }

  /** Division is determined by its quotient and remainder. */
  lemma ModIs(n: int, p: nat, q: int, r: int)
    requires p > 0 && n == p * q + r && 0 <= r < p
    ensures n % p == r && n / p == q
  {
    var q' := n / p;
    Distribute(p, q, q');
    Distribute(p, q', q);
    if q > q' {
      MultipleIsLarge(p, q - q');
    } else if q < q' {
      MultipleIsLarge(p, q' - q);
    }
  }

  lemma Distribute(p: int, a: int, b: int)
    ensures p * (a - b) == p * a - p * b
  {
  }

  lemma MultipleIsLarge(p: nat, k: int)
    requires k >= 1
    ensures p * k >= p
  {
    MultiplyBound(p, 1, k);
  }

  lemma NonNegative(a: int, b: int)
    requires a >= 0 && b >= 0
    ensures a * b >= 0
  {
  }

  lemma MultiplyBound(c: int, a: int, b: int)
    requires a <= b && c >= 0
    ensures c * a <= c * b
  {
    NonNegative(c, b - a);
    Distribute(c, b, a);
  }

  /** A prime divides no product of two smaller positive numbers. */
  lemma {:induction false} PrimeSparesProduct(p: nat, a: nat, b: nat)
    requires Prime(p) && 0 < a < p && 0 < b < p
    ensures (a * b) % p != 0
    decreases a
  {
    if a == 1 {
      ModIs(a * b, p, 0, b);
    } else {
      var q, r := p / a, p % a;
      PrimeSparesProduct(p, r, b);
      if (a * b) % p == 0 {
        var k := (a * b) / p;
        assert r * b == p * (b - q * k) by {
          assert p == a * q + r && a * b == p * k;
          assert r * b == p * b - (a * q) * b;
          assert (a * q) * b == q * (a * b) == q * (p * k) == p * (q * k);
        }
        MultipleOf(p, b - q * k);
      }
    }
  }

  /** Congruent numbers differ by a multiple. */
  lemma Congruent(p: nat, x: int, y: int)
    requires p > 0
    ensures x % p == y % p <==> (y - x) % p == 0
  {
    if x % p == y % p {
      assert y - x == p * (y / p - x / p);
      MultipleOf(p, y / p - x / p);
    }
    if (y - x) % p == 0 {
      var k := (y - x) / p;
      assert y == p * (k + x / p) + x % p;
      ModIs(y, p, k + x / p, x % p);
    }
  }

  function Probe(key: nat, i: nat, size: nat): (s: nat)
    requires size > 0
    ensures s < size
  {
    (key + i * i) % size
  }

  /** The last probe that can reach a new slot. */
  function LastNew(size: nat): nat { size / 2 }

  /** The first p/2 + 1 probes, (p+1)/2 of them when p is odd, reach different slots. */
  lemma ProbesDiffer(p: nat, key: nat, i: nat, j: nat)
    requires Prime(p) && i < j <= LastNew(p)
    ensures Probe(key, i, p) != Probe(key, j, p)
  {
    PrimeSparesProduct(p, j - i, j + i);
    assert (key + j * j) - (key + i * i) == (j - i) * (j + i);
    Congruent(p, key + i * i, key + j * j);
  }

  /** Later probes return to slots already reached. */
  lemma ProbesFold(p: nat, key: nat, i: nat)
    requires 2 <= p && LastNew(p) < i < p
    ensures p - i <= LastNew(p) && Probe(key, i, p) == Probe(key, p - i, p)
  {
    assert (key + i * i) - (key + (p - i) * (p - i)) == p * (2 * i - p);
    MultipleOf(p, 2 * i - p);
    Congruent(p, key + (p - i) * (p - i), key + i * i);
  }

  /** The slots reached by the first `n` probes. */
  ghost function Reached(key: nat, n: nat, p: nat): (s: set<nat>)
    requires p > 0
  {
    set i | 0 <= i < n :: Probe(key, i, p)
  }

  /** A probe sequence over a prime size p reaches exactly p/2 + 1 slots: (p+1)/2 when p is odd. */
  lemma ReachSize(p: nat, key: nat)
    requires Prime(p)
    ensures |Reached(key, p, p)| == p / 2 + 1
    ensures p % 2 == 1 ==> |Reached(key, p, p)| == (p + 1) / 2
  {
    DistinctReach(p, key, p / 2 + 1);
    forall i | 0 <= i < p
      ensures Probe(key, i, p) in Reached(key, p / 2 + 1, p)
    {
      if i > p / 2 {
        ProbesFold(p, key, i);
        assert p - i < p / 2 + 1;
      }
    }
    assert Reached(key, p, p) == Reached(key, p / 2 + 1, p);
  }

  lemma {:induction false} DistinctReach(p: nat, key: nat, n: nat)
    requires Prime(p) && n <= p / 2 + 1
    ensures |Reached(key, n, p)| == n
    decreases n
  {
    if n == 0 {
      assert Reached(key, 0, p) == {};
    } else {
      DistinctReach(p, key, n - 1);
      var last := Probe(key, n - 1, p);
      forall i | 0 <= i < n - 1
        ensures Probe(key, i, p) != last
      {
        ProbesDiffer(p, key, i, n - 1);
      }
      assert Reached(key, n, p) == Reached(key, n - 1, p) + {last};
    }
  }
}
