/** Following a run of the chunked automaton through a byte string, position by position. */
module ChunkedTrace {
  import opened Bytes
  import opened ChunkedSpec

  /** A run of the automaton over all of `orig`, and the outcome it comes to. */
  datatype Journey = Journey(trailer: bool, orig: seq<Byte>, goal: Outcome)

  /** The outcome on all of `orig`, when its first `src` bytes delivered `out` and led to `m`. */
  ghost function Finally(j: Journey, out: seq<Byte>, src: nat, m: Machine): Outcome
    requires m.Valid() && src <= |j.orig|
  {
    After(out, src, Run(m, j.trailer, j.orig[src..]))
  }

  ghost predicate Leads(j: Journey, out: seq<Byte>, src: nat, m: Machine) {
    m.Valid() && src <= |j.orig| && j.goal == Finally(j, out, src, m)
  }

  lemma AtStart(m: Machine, trailer: bool, orig: seq<Byte>)
    requires m.Valid()
    ensures Leads(Journey(trailer, orig, Run(m, trailer, orig)), [], 0, m)
  {
    assert orig[0..] == orig;
  }

  lemma AtEnd(j: Journey, out: seq<Byte>, src: nat, m: Machine)
    requires Leads(j, out, src, m) && src == |j.orig|
    ensures j.goal == Outcome(m, out, src, NeedMore)
  {
    assert out + [] == out;
  }

  lemma Advance(j: Journey, out: seq<Byte>, src: nat, m: Machine, m': Machine)
    requires Leads(j, out, src, m) && src < |j.orig|
    requires StepByte(m, j.trailer, j.orig[src]) == Go(m', [])
    ensures Leads(j, out, src + 1, m')
  {
    AdvanceOut(j, out, src, m, m', []);
    assert out + [] == out;
  }

  lemma AdvanceOut(j: Journey, out: seq<Byte>, src: nat, m: Machine, m': Machine, o: seq<Byte>)
    requires Leads(j, out, src, m) && src < |j.orig|
    requires StepByte(m, j.trailer, j.orig[src]) == Go(m', o)
    ensures Leads(j, out + o, src + 1, m')
  {
    StepKeepsValid(m, j.trailer, j.orig[src]);
    assert j.orig[src..][1..] == j.orig[src + 1..];
    AfterAfter(out, src, o, 1, Run(m', j.trailer, j.orig[src + 1..]));
  }

  lemma StopAt(j: Journey, out: seq<Byte>, src: nat, m: Machine, m': Machine)
    requires Leads(j, out, src, m) && src < |j.orig|
    requires StepByte(m, j.trailer, j.orig[src]) in {Refuse(m'), Finish(m')}
    ensures m'.Valid()
    ensures j.goal == if StepByte(m, j.trailer, j.orig[src]).Refuse? then Outcome(m', out, src, Malformed)
                    else Outcome(m', out, src + 1, Complete)
  {
    StepKeepsValid(m, j.trailer, j.orig[src]);
    assert out + [] == out;
  }

  /** The byte that ends a size is read again as the first byte of the extension. */
  lemma EndSize(j: Journey, out: seq<Byte>, src: nat, m: Machine)
    requires Leads(j, out, src, m) && src < |j.orig|
    requires m.state == InChunkSize && m.hexCount > 0
    requires DecodeHex(j.orig[src]) == -1 && EndsSize(j.orig[src])
    ensures Leads(j, out, src, m.(state := InChunkExt, hexCount := 0))
  {
    var ext := m.(state := InChunkExt, hexCount := 0);
    assert StepByte(m, j.trailer, j.orig[src]) == StepByte(ext, j.trailer, j.orig[src]);
    assert Run(m, j.trailer, j.orig[src..]) == Run(ext, j.trailer, j.orig[src..]);
  }

  lemma AfterAfter(a: seq<Byte>, i: nat, b: seq<Byte>, j: nat, r: Outcome)
    ensures After(a, i, After(b, j, r)) == After(a + b, i + j, r)
  {
    assert a + (b + r.out) == a + b + r.out;
  }

  /** The machine once `n` of the bytes left in a chunk have been read. */
  function AfterData(m: Machine, n: nat): Machine
    requires n <= m.left
  {
    Machine(if n == m.left then DataExpectCr else InChunkData, m.left - n, m.hexCount)
  }

  /** Reading `n` bytes of data, no more than are left in the chunk, delivers exactly those bytes. */
  lemma {:induction false} AdvanceData(j: Journey, out: seq<Byte>, src: nat, m: Machine, n: nat)
    requires Leads(j, out, src, m) && m.state == InChunkData
    requires 0 < n <= m.left && src + n <= |j.orig|
    ensures Leads(j, out + j.orig[src..src + n], src + n, AfterData(m, n))
    decreases n
  {
    hide Finally;
    hide Run;
    AdvanceOut(j, out, src, m, AfterData(m, 1), [j.orig[src]]);
    if n > 1 {
      AdvanceData(j, out + [j.orig[src]], src + 1, AfterData(m, 1), n - 1);
      assert out + [j.orig[src]] + j.orig[src + 1..src + n] == out + j.orig[src..src + n];
    } else {
      assert [j.orig[src]] == j.orig[src..src + n];
    }
  }
}
