/** The arena: runs of whole blocks and small reference-counted objects, allocated from the same blocks. Addresses
    are byte offsets from the arena's start. */
module Arena {
  import opened Bitmap
  import opened NextFit
  import opened Options

  const BLOCK_SIZE: nat := 4096

  /** The count that marks a block of a run, and also the largest number of objects in a shared block. */
  const EXCLUSIVE: nat := 255

  /** Who holds a block: nobody, the run that starts at block `start`, or small objects. */
  datatype Owner = Free | Run(start: nat) | Shared

  /** A live allocation: a run by its first block, or a small object by its block and offset. */
  datatype Region = RunRegion(s: nat) | ObjectRegion(b: nat, o: nat)

  /** The objects of a block are not empty, lie in its used part, and do not overlap. */
  ghost predicate Packed(os: map<nat, nat>, len: nat) {
    && (forall o :: o in os ==> 1 <= os[o] && o + os[o] <= len)
    && (forall o, p :: o in os && p in os && o < p ==> o + os[o] <= p)
  }

  function With(os: map<nat, nat>, o: nat, n: nat): map<nat, nat> { os[o := n] }

  function Without(os: map<nat, nat>, o: nat): map<nat, nat> { os - {o} }

  /** An object at the end of the used part overlaps none. */
  lemma AddObject(os: map<nat, nat>, len: nat, n: nat)
    requires Packed(os, len) && 1 <= n
    ensures len !in os && Packed(With(os, len, n), len + n) && |With(os, len, n)| == |os| + 1
  {
    assert With(os, len, n).Keys == os.Keys + {len};
  }

  lemma DropObject(os: map<nat, nat>, len: nat, o: nat)
    requires Packed(os, len) && o in os
    ensures Packed(Without(os, o), len) && |Without(os, o)| == |os| - 1
    ensures |os| == 1 <==> Without(os, o) == map[]
  {
    assert Without(os, o).Keys == os.Keys - {o};
    if |os| == 1 {
      assert |Without(os, o).Keys| == 0;
    }
  }

  /** What a block's bit, count and length say about it. */
  ghost predicate BlockOk(used: bool, owner: Owner, count: nat, len: nat, os: map<nat, nat>) {
    && (used <==> owner != Free)
    && match owner
       case Free => count == 0 && len == 0 && os == map[]
       case Run(_) => count == EXCLUSIVE && len == 0 && os == map[]
       case Shared => os != map[] && count == |os| <= 255 && len < BLOCK_SIZE && Packed(os, len)
  }

  /** Every live run lies in the arena, owns its blocks and no others, and has its length in its header. */
  ghost predicate RunsOwn(owner: seq<Owner>, runs: map<nat, nat>, header: seq<nat>) {
    && |header| == |owner|
    && (forall s :: s in runs ==> 1 <= runs[s] && s + runs[s] <= |owner| && header[s] == runs[s])
    && (forall s, b :: s in runs && s <= b < s + runs[s] ==> owner[b] == Run(s))
    && (forall b :: 0 <= b < |owner| && owner[b].Run? ==>
          owner[b].start in runs && owner[b].start <= b < owner[b].start + runs[owner[b].start])
  }

  ghost function SetOwners(owner: seq<Owner>, s: nat, n: nat, o: Owner): (r: seq<Owner>)
    requires s + n <= |owner|
    ensures |r| == |owner| && forall b :: 0 <= b < |r| ==> r[b] == if s <= b < s + n then o else owner[b]
  {
    owner[..s] + seq(n, _ => o) + owner[s + n..]
  }

  lemma AddRun(owner: seq<Owner>, runs: map<nat, nat>, header: seq<nat>, s: nat, n: nat)
    requires RunsOwn(owner, runs, header) && 1 <= n && s + n <= |owner|
    requires forall b :: s <= b < s + n ==> owner[b] == Free
    ensures s !in runs && RunsOwn(SetOwners(owner, s, n, Run(s)), runs[s := n], header[s := n])
  {
    forall t | t in runs
      ensures t != s
    {
      assert owner[t] == Run(t);
    }
    var owner' := SetOwners(owner, s, n, Run(s));
    forall t, b | t in runs[s := n] && t <= b < t + runs[s := n][t]
      ensures owner'[b] == Run(t)
    {
      if t != s {
        assert owner[b] == Run(t);
      }
    }
  }

  lemma DropRun(owner: seq<Owner>, runs: map<nat, nat>, header: seq<nat>, s: nat)
    requires RunsOwn(owner, runs, header) && s in runs
    ensures RunsOwn(SetOwners(owner, s, runs[s], Free), runs - {s}, header)
    ensures forall b :: 0 <= b < |owner| ==> (s <= b < s + runs[s] <==> owner[b] == Run(s))
  {
    var owner' := SetOwners(owner, s, runs[s], Free);
    forall t, b | t in runs - {s} && t <= b < t + runs[t]
      ensures owner'[b] == Run(t)
    {
      assert owner[b] == Run(t);
    }
    forall b | 0 <= b < |owner| && owner'[b].Run?
      ensures owner[b].start in runs - {s}
    {
      assert owner[b] == owner'[b];
    }
  }

  lemma EmptyPacked(len: nat)
    ensures Packed(map[], len)
  {
  }

  lemma SharedOwnsNoRun(owner: seq<Owner>, runs: map<nat, nat>, header: seq<nat>, b: nat, o: Owner)
    requires RunsOwn(owner, runs, header) && b < |owner| && !owner[b].Run? && !o.Run?
    ensures RunsOwn(owner[b := o], runs, header)
  {
  }

  /** Taking an object keeps the block's books; neither the 8-bit count nor the 16-bit length wraps. */
  lemma ObjectTaken(used: bool, owner: Owner, count: nat, len: nat, os: map<nat, nat>, size: nat)
    requires BlockOk(used, owner, count, len, os) && 1 <= size < BLOCK_SIZE
    requires !used || (count != EXCLUSIVE && len + size < BLOCK_SIZE)
    ensures BlockOk(true, Shared, (count + 1) % 0x100, (len + size) % 0x1_0000, With(os, len, size))
    ensures !owner.Run? && len < BLOCK_SIZE && len !in os
    ensures (count + 1) % 0x100 == count + 1 && (len + size) % 0x1_0000 == len + size
  {
    hide Packed;
    EmptyPacked(0);
    AddObject(os, len, size);
  }

  /** Freeing an object: the count reaches zero exactly with the last one. */
  lemma ObjectFreed(used: bool, owner: Owner, count: nat, len: nat, os: map<nat, nat>, o: nat)
    requires BlockOk(used, owner, count, len, os) && o in os
    ensures used && owner == Shared && count >= 1 && (count - 1) % 0x100 == count - 1
    ensures count == 1 <==> Without(os, o) == map[]
    ensures if count == 1 then BlockOk(false, Free, 0, 0, Without(os, o))
            else BlockOk(true, Shared, count - 1, len, Without(os, o))
  {
    hide Packed;
    DropObject(os, len, o);
  }

  lemma RunFreed(used: bool, owner: Owner, count: nat, len: nat, os: map<nat, nat>)
    requires BlockOk(used, owner, count, len, os) && owner.Run?
    ensures BlockOk(false, Free, 0, len, os)
  {
  }

  /** The first `n` bits of a bitmap. */
  ghost function BitsOf(bits: seq<bv8>, n: nat): (u: seq<bool>)
    requires n <= 8 * |bits|
    ensures |u| == n && forall b :: 0 <= b < n ==> u[b] == Bit(bits, b)
  {
    seq(n, b requires 0 <= b < n => Bit(bits, b))
  }

  class Arena {
    var bitmap: array<bv8>
    var refCount: array<nat>
    var refLen: array<nat>
    /** The first word of every block, where a run keeps its length. */
    var header: array<nat>
    var now: nat
    var cap: nat

    ghost var owner: seq<Owner>
    /** The live runs: first block and number of blocks. */
    ghost var runs: map<nat, nat>
    /** The live small objects of every block: offset in the block and size. */
    ghost var objects: seq<map<nat, nat>>

    ghost predicate Shape()
      reads this`cap, this`bitmap, this`refCount, this`refLen, this`header, this`owner, this`objects
    {
      && 0 < cap
      && bitmap.Length == (cap + 7) / 8
      && refCount.Length == refLen.Length == header.Length == cap
      && refCount != refLen && refCount != header && refLen != header
      && bitmap as object !in {refCount as object, refLen as object, header as object}
      && |owner| == |objects| == cap
    }

    ghost predicate BlockValid(b: nat)
      reads this`cap, this`bitmap, this`refCount, this`refLen, this`header, this`owner, this`objects
      reads bitmap, refCount, refLen
      requires Shape() && b < cap
    {
      BlockOk(Bit(bitmap[..], b), owner[b], refCount[b], refLen[b], objects[b])
    }

    ghost predicate Valid()
      reads this, bitmap, refCount, refLen, header
    {
      Shape() && now < cap && RunsOwn(owner, runs, header[..]) && forall b :: 0 <= b < cap ==> BlockValid(b)
    }

    ghost function Used(): (u: seq<bool>)
      reads this`cap, this`bitmap, bitmap
      requires bitmap.Length == (cap + 7) / 8
      ensures |u| == cap && forall b :: 0 <= b < cap ==> u[b] == Bit(bitmap[..], b)
    {
      BitsOf(bitmap[..], cap)
    }

    /** `arena_create`; size 0 asks for the default number of blocks. */
    constructor (size: nat)
      ensures Valid() && cap == (if size == 0 then BLOCK_SIZE else size) && now == 0
      ensures runs == map[] && forall b :: 0 <= b < cap ==> objects[b] == map[]
      ensures fresh(bitmap) && fresh(refCount) && fresh(refLen) && fresh(header)
    {
      var n := if size == 0 then BLOCK_SIZE else size;
      bitmap := new bv8[(n + 7) / 8](_ => 0);
      refCount := new nat[n](_ => 0);
      refLen := new nat[n](_ => 0);
      header := new nat[n];
      now, cap := 0, n;
      owner := seq(n, _ => Free);
      runs := map[];
      objects := seq(n, _ => map[]);
      new;
      forall b | 0 <= b < n
        ensures !Bit(bitmap[..], b)
      {
        FullAndEmpty(b % 8);
      }
    }

    /** The search of `arena_alloc_block`. */
    method FindRun(count: nat) returns (r: Option<nat>)
      requires Shape() && now < cap && count <= cap
      ensures count == 0 ==> r == None
      ensures count >= 1 ==> IsNextFit(Used(), now, count, r)
    {
      hide Scanned;
      hide NoRun;
      hide FreeRun;
      hide Bit;
      ghost var used := Used();
      var consecutive, candidate := 0, 0;
      ghost var lo, b := now, now;
      if count >= 1 { ScanStart(used, now, count); }
      var i := 0;
      while i < cap
        invariant 0 <= i <= cap
        invariant if now + i < cap then lo == now && b == now + i else lo == 0 && b == now + i - cap
        invariant 0 <= consecutive <= b - lo && (count >= 1 ==> consecutive < count)
        invariant consecutive > 0 ==> candidate == b - consecutive
        invariant count >= 1 ==> Scanned(used, lo, b, consecutive, count)
        invariant count >= 1 && now + i >= cap ==> NoRun(used, now, cap, count)
      {
        var idx := Cyclic(now, i, cap);
        assert idx == b && used[idx] == Bit(bitmap[..], idx);
        if !Bit(bitmap[..], idx) {
          if count >= 1 { ScanFree(used, lo, b, consecutive, count); }
          if consecutive == 0 {
            candidate := idx;
          }
          consecutive := consecutive + 1;
          if consecutive == count {
            ScanFinds(used, now, lo, b, consecutive - 1, count);
            return Some(candidate);
          }
        } else {
          if count >= 1 { ScanUsed(used, lo, b, consecutive, count); }
          consecutive := 0;
        }
        b := b + 1;
        if idx == cap - 1 {
          if count >= 1 {
            ScanEnds(used, lo, b, consecutive, count);
            ScanStart(used, 0, count);
          }
          consecutive := 0;
          lo, b := 0, 0;
        }
        i := i + 1;
      }
      if count >= 1 {
        ScanEnds(used, lo, b, consecutive, count);
      }
      return None;
    }

    /** Marks the blocks of a free run as used and exclusive. */
    method TakeRun(s: nat, count: nat)
      requires Valid() && 1 <= count && FreeRun(Used(), s, count)
      modifies this`owner, this`runs, bitmap, refCount, header
      ensures Valid() && runs == old(runs)[s := count]
      ensures forall b :: 0 <= b < cap ==> Bit(bitmap[..], b) == (Bit(old(bitmap[..]), b) || s <= b < s + count)
    {
      hide RunsOwn;
      hide Bit;
      ghost var used := Used();
      forall b | s <= b < s + count
        ensures owner[b] == Free
      {
        assert !used[b] && BlockValid(b);
      }
      AddRun(owner, runs, header[..], s, count);
      SetRange(bitmap, s, s + count - 1);
      ghost var bits := bitmap[..];
      forall b | s <= b < s + count {
        refCount[b] := EXCLUSIVE;
      }
      header[s] := count;
      runs := runs[s := count];
      owner := SetOwners(owner, s, count, Run(s));
      assert header[..] == old(header[..])[s := count];
      assert bitmap[..] == bits;
      forall b | 0 <= b < cap
        ensures BlockValid(b)
      {
        assert old(BlockValid(b));
      }
    }

    /** Allocates `count` blocks in a row, or nothing; the caller gets the bytes after the header. `found` is where
        the search ended. */
    method AllocBlock(count: nat) returns (ptr: Option<nat>, size: nat, ghost found: Option<nat>)
      requires Valid() && count <= cap
      modifies this`now, this`owner, this`runs, bitmap, refCount, header
      ensures Valid()
      ensures if count == 0 then found == None else IsNextFit(old(Used()), old(now), count, found)
      ensures match found
              case None => ptr == None && now == old(now) && runs == old(runs) && bitmap[..] == old(bitmap[..])
              case Some(s) => ptr == Some(s * BLOCK_SIZE + 8) && size == count * BLOCK_SIZE - 8 &&
                              now == (s + count) % cap && runs == old(runs)[s := count]
    {
      hide IsNextFit;
      hide RunsOwn;
      hide BlockOk;
      ghost var used := Used();
      var r := FindRun(count);
      found := r;
      if r == None { return None, 0, found; }
      var s := r.value;
      FitIsFree(used, now, count, r);
      TakeRun(s, count);
      ghost var words, bits := header[..], bitmap[..];
      now := (s + count) % cap;
      assert header[..] == words && bitmap[..] == bits;
      return Some(s * BLOCK_SIZE + 8), count * BLOCK_SIZE - 8, found;
    }

    /** Frees the run that the pointer was given for; its length is read from its header. */
    method Recycle(ptr: nat)
      requires Valid() && exists s :: s in runs && ptr == s * BLOCK_SIZE + 8
      modifies this`owner, this`runs, bitmap, refCount
      ensures Valid() && runs == old(runs) - {(ptr - 8) / BLOCK_SIZE}
      ensures forall b :: 0 <= b < cap ==>
                Bit(bitmap[..], b) == (Bit(old(bitmap[..]), b) && old(owner[b]) != Run((ptr - 8) / BLOCK_SIZE))
    {
      hide Bit;
      var s := (ptr - 8) / BLOCK_SIZE;
      assert s in runs;
      var count := header[s];
      DropRun(owner, runs, header[..], s);
      hide RunsOwn;
      hide BlockOk;
      UnsetRange(bitmap, s, s + count - 1);
      ghost var bits := bitmap[..];
      forall b | s <= b < s + count {
        refCount[b] := 0;
      }
      owner := SetOwners(owner, s, count, Free);
      runs := runs - {s};
      assert bitmap[..] == bits;
      forall b | 0 <= b < cap
        ensures BlockValid(b)
      {
        assert old(BlockValid(b));
        if old(owner[b]) == Run(s) {
          RunFreed(old(Bit(bitmap[..], b)), old(owner[b]), old(refCount[b]), refLen[b], objects[b]);
        }
      }
    }

    /** Forgets all allocations. */
    method Clean()
      requires Valid()
      modifies this`now, this`owner, this`runs, this`objects, bitmap, refLen, refCount
      ensures Valid() && runs == map[] && now == 0
      ensures forall b :: 0 <= b < cap ==> objects[b] == map[] && !Bit(bitmap[..], b)
    {
      forall k | 0 <= k < bitmap.Length { bitmap[k] := 0; }
      forall k | 0 <= k < refLen.Length { refLen[k] := 0; }
      forall k | 0 <= k < refCount.Length { refCount[k] := 0; }
      now := 0;
      owner := seq(cap, _ => Free);
      runs := map[];
      objects := seq(cap, _ => map[]);
      forall b | 0 <= b < cap
        ensures !Bit(bitmap[..], b)
      {
        assert bitmap[..][b / 8] == 0;
        FullAndEmpty(b % 8);
      }
    }

    /** Whether block `b` can take an object of the given size: a free block can, and a shared one that has room. */
    predicate Takes(b: nat, size: nat)
      reads this`cap, this`bitmap, this`refCount, this`refLen, this`header, this`owner, this`objects
      reads bitmap, refCount, refLen
      requires Shape() && b < cap
    {
      !Bit(bitmap[..], b) || (refCount[b] != EXCLUSIVE && refLen[b] + size < BLOCK_SIZE)
    }

    /** In terms of the live objects: a block is free, or shared by fewer than 255 objects that leave room for one more
        before the block's last byte. */
    lemma TakesExactly(b: nat, size: nat)
      requires Valid() && b < cap
      ensures Takes(b, size) <==>
              || owner[b] == Free
              || (owner[b] == Shared && |objects[b]| < 255 && refLen[b] + size < 4096)
    {
      hide Packed;
      hide RunsOwn;
      assert BlockValid(b);
    }

    /** No block that the search looks at before `b` can take the object. */
    ghost predicate FirstToTake(b: nat, size: nat)
      reads this, bitmap, refCount, refLen
      requires Shape() && now < cap && b < cap
    {
      forall j :: 0 <= j < SearchStep(now, b, cap) ==> !Takes(Cyclic(now, j, cap), size)
    }

    /** The search of `arena_alloc_ref_block`: the first block, from `now` around, that can take the object. */
    method FindShared(size: nat) returns (r: Option<nat>)
      requires Shape() && now < cap
      ensures r == None ==> forall b :: 0 <= b < cap ==> !Takes(b, size)
      ensures r.Some? ==> r.value < cap && Takes(r.value, size) && FirstToTake(r.value, size)
    {
      var i := 0;
      while i < cap
        invariant 0 <= i <= cap
        invariant forall j :: 0 <= j < i ==> !Takes(Cyclic(now, j, cap), size)
      {
        var b := Cyclic(now, i, cap);
        if !Bit(bitmap[..], b) {
          return Some(b);
        } else if refCount[b] != EXCLUSIVE && refLen[b] + size < BLOCK_SIZE {
          return Some(b);
        }
        i := i + 1;
      }
      forall b | 0 <= b < cap
        ensures !Takes(b, size)
      {
        assert b == Cyclic(now, SearchStep(now, b, cap), cap);
      }
      return None;
    }

    /** Allocates a small object at the end of the used part of a block. */
    method AllocRef(size: nat) returns (ptr: Option<nat>)
      requires Valid() && 1 <= size < BLOCK_SIZE
      modifies this`now, this`owner, this`objects, bitmap, refCount, refLen
      ensures Valid() && runs == old(runs)
      ensures ptr == None ==> objects == old(objects) && forall b :: 0 <= b < cap ==> !old(Takes(b, size))
      ensures ptr.Some? ==>
                var b, o := ptr.value / BLOCK_SIZE, ptr.value % BLOCK_SIZE;
                && b < cap && old(Takes(b, size) && FirstToTake(b, size))
                && o !in old(objects[b]) && o == old(refLen[b])
                && objects == old(objects)[b := With(old(objects[b]), o, size)]
                && now == (b + 1) % cap
    {
      hide RunsOwn;
      hide Bit;
      hide BlockOk;
      var r := FindShared(size);
      if r == None {
        forall b | 0 <= b < cap
          ensures !old(Takes(b, size))
        {
          assert !Takes(b, size);
        }
        return None;
      }
      var b := r.value;
      var o := refLen[b];
      TakeObject(b, size);
      ghost var words, bits := header[..], bitmap[..];
      ptr := Some(b * BLOCK_SIZE + o);
      now := (b + 1) % cap;
      assert header[..] == words && bitmap[..] == bits;
    }

    method TakeObject(b: nat, size: nat)
      requires Valid() && 1 <= size < BLOCK_SIZE && b < cap && Takes(b, size)
      modifies this`owner, this`objects, bitmap, refCount, refLen
      ensures Valid()
      ensures old(refLen[b]) < BLOCK_SIZE && old(refLen[b]) !in old(objects[b])
      ensures objects == old(objects)[b := With(old(objects[b]), old(refLen[b]), size)]
    {
      hide With;
      hide Without;
      hide RunsOwn;
      hide Bit;
      hide Packed;
      assert BlockValid(b);
      var o := refLen[b];
      ghost var os := objects[b];
      ObjectTaken(Bit(bitmap[..], b), owner[b], refCount[b], o, os, size);
      hide BlockOk;
      SetRange(bitmap, b, b);
      ghost var bits := bitmap[..];
      refLen[b] := (refLen[b] + size) % 0x1_0000;
      refCount[b] := (refCount[b] + 1) % 0x100;
      objects := objects[b := With(os, o, size)];
      owner := owner[b := Shared];
      assert bitmap[..] == bits;
      forall k | 0 <= k < cap
        ensures BlockValid(k)
      {
        assert old(BlockValid(k));
      }
      SharedOwnsNoRun(old(owner), runs, header[..], b, Shared);
      assert old(header[..]) == header[..];
    }

    /** Frees a small object; with its last object the block becomes free again. */
    method RecycleRef(ptr: nat)
      requires Valid() && ptr / BLOCK_SIZE < cap && ptr % BLOCK_SIZE in objects[ptr / BLOCK_SIZE]
      modifies this`owner, this`objects, bitmap, refCount, refLen
      ensures Valid() && runs == old(runs)
      ensures var b, o := ptr / BLOCK_SIZE, ptr % BLOCK_SIZE;
              && objects == old(objects)[b := Without(old(objects[b]), o)]
              && (Bit(bitmap[..], b) <==> objects[b] != map[])
    {
      hide With;
      hide Without;
      hide RunsOwn;
      hide Bit;
      hide Packed;
      var b := ptr / BLOCK_SIZE;
      assert BlockValid(b);
      ghost var os := objects[b];
      ObjectFreed(Bit(bitmap[..], b), owner[b], refCount[b], refLen[b], os, ptr % BLOCK_SIZE);
      hide BlockOk;
      refCount[b] := (refCount[b] - 1) % 0x100;
      objects := objects[b := Without(os, ptr % BLOCK_SIZE)];
      ghost var bits := bitmap[..];
      if refCount[b] == 0 {
        refLen[b] := 0;
        UnsetRange(bitmap, b, b);
        bits := bitmap[..];
        owner := owner[b := Free];
        SharedOwnsNoRun(old(owner), runs, header[..], b, Free);
      }
      assert bitmap[..] == bits && header[..] == old(header[..]);
      forall k | 0 <= k < cap
        ensures BlockValid(k)
      {
        assert old(BlockValid(k));
      }
    }

    ghost predicate Live(r: Region)
      reads this
    {
      match r
      case RunRegion(s) => s in runs
      case ObjectRegion(b, o) => b < |objects| && o in objects[b]
    }

    /** The first byte of a live region; a run's pointer is 8 bytes on, after its header. */
    ghost function Start(r: Region): nat
    {
      match r
      case RunRegion(s) => s * BLOCK_SIZE
      case ObjectRegion(b, o) => b * BLOCK_SIZE + o
    }

    ghost function End(r: Region): nat
      reads this
      requires Live(r)
    {
      match r
      case RunRegion(s) => (s + runs[s]) * BLOCK_SIZE
      case ObjectRegion(b, o) => b * BLOCK_SIZE + o + objects[b][o]
    }

    /** A block that holds an object is shared, and the object lies in its block. */
    lemma ObjectInBlock(b: nat, o: nat)
      requires Valid() && Live(ObjectRegion(b, o))
      ensures owner[b] == Shared && o + objects[b][o] < BLOCK_SIZE && objects[b][o] >= 1
    {
      assert BlockValid(b);
    }

    /** In every valid state the live regions lie in the arena and do not overlap; so no object and no other run
        covers the header of a run. */
    lemma RegionsDisjoint(r: Region, r': Region)
      requires Valid() && Live(r) && Live(r') && r != r'
      ensures Start(r) < End(r) <= cap * BLOCK_SIZE
      ensures End(r) <= Start(r') || End(r') <= Start(r)
    {
      match (r, r')
      case (RunRegion(s), RunRegion(t)) =>
        assert owner[s] == Run(s) && owner[t] == Run(t);
      case (RunRegion(s), ObjectRegion(b, o)) =>
        ObjectInBlock(b, o);
      case (ObjectRegion(b, o), RunRegion(s)) =>
        ObjectInBlock(b, o);
      case (ObjectRegion(b, o), ObjectRegion(c, p)) =>
        ObjectInBlock(b, o);
        ObjectInBlock(c, p);
        assert BlockValid(b);
    }

    /** The header of a live run holds the number of blocks that freeing it will clear. */
    lemma HeadersHoldCounts(s: nat)
      requires Valid() && s in runs
      ensures header[s] == runs[s] && forall b :: 0 <= b < cap ==> (owner[b] == Run(s) <==> s <= b < s + header[s])
    {
    }

    /** The books of a block: a set bit for every block in use, zero counts for a clear one, and for a shared block
        a count that is the number of its objects and a length below the block size. */
    lemma Books(b: nat)
      requires Valid() && b < cap
      ensures !Bit(bitmap[..], b) ==> refCount[b] == 0 && refLen[b] == 0 && objects[b] == map[]
      ensures Bit(bitmap[..], b) <==> owner[b].Run? || objects[b] != map[]
      ensures objects[b] != map[] ==> refCount[b] == |objects[b]| <= 255 && refLen[b] < BLOCK_SIZE
    {
      assert BlockValid(b);
    }
  }
}
