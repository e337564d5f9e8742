/** The search order of the block allocator: from a moving position to the end, then from the start up to it. */
module NextFit {
  import opened Options

  /** `n` blocks from `s` on are free. */
  ghost predicate FreeRun(used: seq<bool>, s: nat, n: nat) {
    s + n <= |used| && forall b :: s <= b < s + n ==> !used[b]
  }

  /** No free run of `n` blocks lies wholly in lo..hi. */
  ghost predicate NoRun(used: seq<bool>, lo: nat, hi: int, n: nat) {
    forall s: nat :: lo <= s && s + n <= hi ==> !FreeRun(used, s, n)
  }

  /** The first free run in search order; a run that would wrap around does not count. */
  ghost predicate IsNextFit(used: seq<bool>, now: nat, n: nat, r: Option<nat>) {
    match r
    case None => NoRun(used, now, |used|, n) && NoRun(used, 0, now, n)
    case Some(s) =>
      && FreeRun(used, s, n)
      && if s >= now then NoRun(used, now, s + n - 1, n)
         else s + n <= now && NoRun(used, now, |used|, n) && NoRun(used, 0, s + n - 1, n)
  }

  /** The search has one answer. */
  lemma NextFitUnique(used: seq<bool>, now: nat, n: nat, r: Option<nat>, r': Option<nat>)
    requires now < |used| && n >= 1 && IsNextFit(used, now, n, r) && IsNextFit(used, now, n, r')
    ensures r == r'
  {
  }

  /** Block `i` of the search, counted from `now`. */
  function Cyclic(now: nat, i: nat, cap: nat): (b: nat)
    requires now < cap && i < cap
    ensures b < cap
  {
    if now + i < cap then now + i else now + i - cap
  }

  /** Which step of the search looks at block `b`. */
  function SearchStep(now: nat, b: nat, cap: nat): (i: nat)
    requires now < cap && b < cap
    ensures i < cap && Cyclic(now, i, cap) == b
  {
    if b >= now then b - now else b + cap - now
  }

  /** The source computes it with a remainder. */
  lemma CyclicIsRemainder(now: nat, i: nat, cap: nat)
    requires now < cap && i < cap
    ensures Cyclic(now, i, cap) == (now + i) % cap
  {
  }

  /** What the search knows in front of block `b` of the stretch that starts at `lo`: the last `c` blocks are free,
      no more than those, and no run of `n` was seen. */
  ghost predicate Scanned(used: seq<bool>, lo: nat, b: nat, c: nat, n: nat) {
    && lo + c <= b <= |used| && c < n
    && (forall k :: b - c <= k < b ==> !used[k])
    && (b - c == lo || used[b - c - 1])
    && NoRun(used, lo, b, n)
  }

  lemma ScanStart(used: seq<bool>, lo: nat, n: nat)
    requires lo <= |used| && n >= 1
    ensures Scanned(used, lo, lo, 0, n)
  {
  }

  lemma ScanUsed(used: seq<bool>, lo: nat, b: nat, c: nat, n: nat)
    requires Scanned(used, lo, b, c, n) && b < |used| && used[b]
    ensures Scanned(used, lo, b + 1, 0, n)
  {
  }

  lemma ScanFree(used: seq<bool>, lo: nat, b: nat, c: nat, n: nat)
    requires Scanned(used, lo, b, c, n) && b < |used| && !used[b]
    ensures c + 1 < n ==> Scanned(used, lo, b + 1, c + 1, n)
    ensures c + 1 == n ==> FreeRun(used, b - c, n)
  {
    forall s: nat | lo <= s && s + n == b + 1 && c + 1 < n
      ensures !FreeRun(used, s, n)
    {
      assert s <= b - c - 1 < s + n;
    }
  }

  lemma ScanEnds(used: seq<bool>, lo: nat, b: nat, c: nat, n: nat)
    requires Scanned(used, lo, b, c, n)
    ensures NoRun(used, lo, b, n)
  {
  }

  lemma ScanFinds(used: seq<bool>, now: nat, lo: nat, b: nat, c: nat, n: nat)
    requires Scanned(used, lo, b, c, n) && b < |used| && !used[b] && c + 1 == n
    requires lo == now || (lo == 0 && b < now && NoRun(used, now, |used|, n))
    ensures IsNextFit(used, now, n, Some(b - c))
  {
    ScanFree(used, lo, b, c, n);
  }

  lemma FitIsFree(used: seq<bool>, now: nat, n: nat, r: Option<nat>)
    requires IsNextFit(used, now, n, r)
    ensures r.Some? ==> FreeRun(used, r.value, n)
  {
  }
}
