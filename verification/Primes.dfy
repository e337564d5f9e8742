/** The sieve that samples every hundredth prime as a possible hash table size. */
module Primes {
  import opened NumberTheory

  /** The primes below `n`, in order. */
  ghost function PrimesBelow(n: nat): seq<nat> {
    if n == 0 then [] else PrimesBelow(n - 1) + if Prime(n - 1) then [n - 1] else []
  }

  /** What the second pass counts: it starts at 0, and the sieve never marks 0 and 1. */
  ghost function Candidates(n: nat): seq<nat> {
    if n == 0 then [] else Candidates(n - 1) + if n - 1 < 2 || Prime(n - 1) then [n - 1] else []
  }

  lemma {:induction false} CandidatesArePrimes(n: nat)
    requires n >= 2
    ensures Candidates(n) == [0, 1] + PrimesBelow(n)
    decreases n
  {
    if n == 2 {
      assert Candidates(1) == [0] && PrimesBelow(1) == [];
      assert Candidates(2) == [0, 1] && PrimesBelow(2) == [];
    } else {
      CandidatesArePrimes(n - 1);
    }
  }

  lemma {:induction false} CandidatesGrow(m: nat, n: nat)
    requires m <= n
    ensures Candidates(m) <= Candidates(n)
    decreases n
  {
    if m < n {
      CandidatesGrow(m, n - 1);
    }
  }

  lemma SampleIndices(n: nat)
    ensures |PrimesBelow(n)| / 100 <= |Candidates(n)| / 100
    ensures forall k :: 0 <= k < |PrimesBelow(n)| / 100 ==>
              100 * k + 99 < |Candidates(n)| && Candidates(n)[100 * k + 99] == PrimesBelow(n)[100 * k + 97]
  {
    if n < 2 {
      assert PrimesBelow(1) == [] && PrimesBelow(0) == [];
    } else {
      CandidatesArePrimes(n);
    }
  }

  /** The list is exactly the primes below `n`, strictly increasing. */
  lemma {:induction false} PrimesBelowExact(n: nat)
    ensures forall k :: 0 <= k < |PrimesBelow(n)| ==> Prime(PrimesBelow(n)[k]) && PrimesBelow(n)[k] < n
    ensures forall j, k :: 0 <= j < k < |PrimesBelow(n)| ==> PrimesBelow(n)[j] < PrimesBelow(n)[k]
    ensures forall p: nat :: Prime(p) && p < n ==> p in PrimesBelow(n)
    decreases n
  {
    if n > 0 {
      PrimesBelowExact(n - 1);
    }
  }

  /** Some number from 2 up to but not including `i` divides `k` properly. */
  ghost predicate Sieved(k: nat, i: nat) {
    exists d :: 2 <= d < i && d < k && k % d == 0
  }

  lemma SievedIsComposite(k: nat)
    requires k >= 2
    ensures Sieved(k, k) <==> !Prime(k)
  {
  }

  /** Crossing out the multiples of a composite would add nothing. */
  lemma CompositeAddsNothing(i: nat, k: nat)
    requires i >= 2 && Sieved(i, i) && k > i && Multiple(k, i)
    ensures Sieved(k, i)
  {
    var d :| 2 <= d < i && i % d == 0;
    assert i == d * (i / d) && k == i * (k / i);
    assert k == d * ((i / d) * (k / i));
    MultipleOf(d, (i / d) * (k / i));
  }

  lemma SievedStep(k: nat, i: nat)
    requires i >= 2
    ensures Sieved(k, i + 1) <==> Sieved(k, i) || (k > i && Multiple(k, i))
  {
  }

  predicate Multiple(k: nat, i: nat)
    requires i > 0
  {
    k % i == 0
  }

  /** Between two multiples of `i` that are `i` apart there is no other. */
  lemma NextMultiple(i: nat, j: nat)
    requires i > 0 && Multiple(j, i)
    ensures Multiple(j + i, i)
    ensures forall k :: j < k < j + i ==> !Multiple(k, i)
  {
    assert j == i * (j / i) && j + i == i * (j / i + 1);
    MultipleOf(i, j / i + 1);
    forall k | j < k < j + i
      ensures !Multiple(k, i)
    {
      ModIs(k, i, j / i, k - j);
    }
  }

  /** The globals that the hash table reads. */
  class PrimeTable {
    var prime: array<nat>
    var primeSize: nat

    constructor ()
      ensures primeSize == 0
    {
      prime := new nat[0];
      primeSize := 0;
    }

    /** The table holds every hundredth candidate below `bound`. */
    ghost predicate Filled(bound: nat)
      reads this, prime
    {
      && primeSize == prime.Length == |PrimesBelow(bound)| / 100
      && forall k :: 0 <= k < primeSize ==> prime[k] == PrimesBelow(bound)[100 * k + 97]
    }

    /** `prime_init`, for a sieve of `bound` numbers. */
    method Init(bound: nat)
      requires primeSize == 0
      modifies this
      ensures fresh(prime) && Filled(bound)
    {
      var st := new int[bound](_ => 0);
      Sieve(st);
      prime := new nat[primeSize];
      Sample(st);
    }

    /** The first pass marks the composites and counts a sample for every hundred primes. */
    method Sieve(st: array<int>)
      requires primeSize == 0 && forall k :: 0 <= k < st.Length ==> st[k] == 0
      modifies this`primeSize, st
      ensures primeSize == |PrimesBelow(st.Length)| / 100
      ensures forall k :: 2 <= k < st.Length ==> (st[k] != 0 <==> !Prime(k))
      ensures forall k :: 0 <= k < 2 && k < st.Length ==> st[k] == 0
    {
      var count := 0;
      var i := 2;
      assert PrimesBelow(1) == [] && PrimesBelow(2) == [];
      while i < st.Length
        invariant 2 <= i && (i <= st.Length || i == 2)
        invariant count == |PrimesBelow(i)| && primeSize == count / 100
        invariant forall k :: 0 <= k < st.Length ==> (st[k] != 0 <==> Sieved(k, i))
      {
        SievedIsComposite(i);
        if st[i] != 0 {
          forall k | 0 <= k < st.Length
            ensures Sieved(k, i + 1) <==> Sieved(k, i)
          {
            SievedStep(k, i);
            if k > i && Multiple(k, i) {
              CompositeAddsNothing(i, k);
            }
          }
        } else {
          count := count + 1;
          if count % 100 == 0 {
            primeSize := primeSize + 1;
          }
          CrossOut(st, i);
          forall k | 0 <= k < st.Length
            ensures Sieved(k, i + 1) <==> Sieved(k, i) || (k > i && Multiple(k, i))
          {
            SievedStep(k, i);
          }
        }
        i := i + 1;
      }
      if st.Length < 2 {
        assert PrimesBelow(0) == [];
      }
      forall k | 2 <= k < st.Length
        ensures st[k] != 0 <==> !Prime(k)
      {
        SievedIsComposite(k);
      }
    }

    /** The second pass samples; the two extra numbers it counts only move the samples to smaller primes. */
    method Sample(st: array<int>)
      requires prime.Length == primeSize == |PrimesBelow(st.Length)| / 100
      requires forall k :: 0 <= k < st.Length ==> (st[k] == 0 <==> k < 2 || Prime(k))
      modifies prime
      ensures Filled(st.Length)
    {
      hide PrimesBelow;
      hide Prime;
      var count, idx, i := 0, 0, 0;
      var done := false;
      while i < st.Length && !done
        invariant 0 <= i <= st.Length && idx <= primeSize
        invariant forall k :: 0 <= k < idx ==> 100 * k + 99 < |Candidates(i)| && prime[k] == Candidates(i)[100 * k + 99]
        invariant !done ==> count == |Candidates(i)| && idx == count / 100
        invariant !done ==> i == 0 || idx < primeSize
        invariant done ==> idx == primeSize
      {
        CandidatesGrow(i, i + 1);
        if st[i] == 0 {
          count := count + 1;
          if count % 100 == 0 {
            prime[idx] := i;
            idx := idx + 1;
          }
          if idx == primeSize {
            done := true;
          }
        }
        i := i + 1;
      }
      CandidatesGrow(i, st.Length);
      SampleIndices(st.Length);
    }

    /** Every entry is prime and the entries increase strictly. */
    lemma FilledWithPrimes(bound: nat)
      requires Filled(bound)
      ensures forall k :: 0 <= k < primeSize ==> Prime(prime[k]) && prime[k] < bound
      ensures forall j, k :: 0 <= j < k < primeSize ==> prime[j] < prime[k]
    {
      PrimesBelowExact(bound);
    }

    /** The binary search of `hash_create`: the least entry that is at least `number`, or else the last one. */
    method Search(number: nat) returns (r: nat)
      requires 0 < primeSize == prime.Length
      requires forall j, k :: 0 <= j < k < primeSize ==> prime[j] < prime[k]
      ensures r < primeSize
      ensures forall k :: 0 <= k < r ==> prime[k] < number
      ensures prime[r] < number ==> r == primeSize - 1
    {
      var lo, hi := -1, primeSize - 1;
      while lo + 1 != hi
        invariant -1 <= lo < hi < primeSize
        invariant forall k :: 0 <= k <= lo ==> prime[k] < number
        invariant prime[hi] >= number || hi == primeSize - 1
        decreases hi - lo
      {
        var mid := (lo + hi) / 2;
        if prime[mid] >= number {
          hi := mid;
        } else {
          lo := mid;
        }
      }
      r := hi;
    }
  }

  /** Marks the proper multiples of `i` and nothing else. */
  method CrossOut(st: array<int>, i: nat)
    requires 2 <= i
    modifies st
    ensures forall k :: 0 <= k < st.Length ==> (st[k] != 0 <==> old(st[k]) != 0 || (k > i && Multiple(k, i)))
  {
    var j := i * 2;
    MultipleOf(i, 1);
    NextMultiple(i, i);
    hide Multiple;
    while j < st.Length
      invariant i < j && Multiple(j, i)
      invariant forall k :: 0 <= k < st.Length ==> (st[k] != 0 <==> old(st[k]) != 0 || (i < k < j && Multiple(k, i)))
    {
      st[j] := 1;
      NextMultiple(i, j);
      j := j + i;
    }
  }
}
