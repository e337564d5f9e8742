/** Chunked transfer coding (section 4.1 of RFC 7230) as an automaton that reads one byte at a time. */
module ChunkedSpec {
  import opened Bytes

  /** The eight decoder states. */
  datatype State =
    | InChunkSize
    | InChunkExt
    | HeaderExpectLf
    | InChunkData
    | DataExpectCr
    | DataExpectLf
    | TrailersLineHead
    | TrailersLineMiddle

  /** The part of the decoder that steers parsing: `left` is the size being read, or the data still to come. */
  datatype Machine = Machine(state: State, left: nat, hexCount: nat) {
    ghost predicate Valid() {
      && hexCount <= 16
      && left < TWO_TO_THE_64
      && (state == InChunkSize ==> left < Pow16(hexCount))
      && (state != InChunkSize ==> hexCount == 0)
      && (state == InChunkData ==> left > 0)
      && (state == DataExpectCr || state == DataExpectLf || state == TrailersLineHead || state == TrailersLineMiddle
          ==> left == 0)
    }
  }

  /** A decoder as the caller zero-fills it. */
  const INITIAL: Machine := Machine(InChunkSize, 0, 0)

  function Pow16(n: nat): (r: nat)
    ensures r > 0
  {
    if n == 0 then 1 else 16 * Pow16(n - 1)
  }

  /** The value of a hexadecimal digit, or -1. */
  function DecodeHex(b: Byte): (v: int)
    ensures -1 <= v < 16
  {
    if '0' <= b <= '9' then b as int - '0' as int
    else if 'A' <= b <= 'F' then b as int - 'A' as int + 10
    else if 'a' <= b <= 'f' then b as int - 'a' as int + 10
    else -1
  }

  /** What reading one byte does: go on with some payload, refuse the byte, or finish with it. */
  datatype Step = Go(m: Machine, out: seq<Byte>) | Refuse(m: Machine) | Finish(m: Machine)

  /** The bytes that may follow a chunk size. */
  predicate EndsSize(b: Byte) {
    b == ' ' || b == '\t' || b == ';' || b == '\n' || b == '\r'
  }

  function StepSize(m: Machine, b: Byte): Step {
    var v := DecodeHex(b);
    if v == -1 then
      if m.hexCount == 0 || !EndsSize(b) then Refuse(m)
      else StepExt(m.(state := InChunkExt, hexCount := 0), b)
    else if m.hexCount == 16 then Refuse(m)
    else Go(m.(left := m.left * 16 + v, hexCount := m.hexCount + 1), [])
  }

  function StepExt(m: Machine, b: Byte): Step {
    if b == '\r' then Go(m.(state := HeaderExpectLf), [])
    else if b == '\n' then Refuse(m)
    else Go(m, [])
  }

  function StepHeaderLf(m: Machine, trailer: bool, b: Byte): Step {
    if b != '\n' then Refuse(m)
    else if m.left > 0 then Go(m.(state := InChunkData), [])
    else if trailer then Go(m.(state := TrailersLineHead), [])
    else Finish(m)
  }

  function StepData(m: Machine, b: Byte): Step
    requires m.left > 0
  {
    Go(Machine(if m.left == 1 then DataExpectCr else InChunkData, m.left - 1, m.hexCount), [b])
  }

  function StepByte(m: Machine, trailer: bool, b: Byte): Step
    requires m.Valid()
  {
    match m.state
    case InChunkSize => StepSize(m, b)
    case InChunkExt => StepExt(m, b)
    case HeaderExpectLf => StepHeaderLf(m, trailer, b)
    case InChunkData => StepData(m, b)
    case DataExpectCr => if b == '\r' then Go(m.(state := DataExpectLf), []) else Refuse(m)
    case DataExpectLf => if b == '\n' then Go(m.(state := InChunkSize), []) else Refuse(m)
    case TrailersLineHead =>
      if b == '\r' then Go(m, [])
      else if b == '\n' then Finish(m)
      else Go(m.(state := TrailersLineMiddle), [])
    case TrailersLineMiddle => if b == '\n' then Go(m.(state := TrailersLineHead), []) else Go(m, [])
  }

  /** A size written in at most 16 digits fits 64 bits. */
  lemma {:induction false} Pow16Fits(n: nat)
    requires n <= 16
    ensures Pow16(n) <= TWO_TO_THE_64
  {
    assert Pow16(4) == 0x1_0000;
    assert Pow16(8) == 0x1_0000_0000;
    assert Pow16(12) == 0x1_0000_0000_0000;
    assert Pow16(16) == TWO_TO_THE_64;
    Pow16Monotone(n, 16);
  }

  lemma {:induction false} Pow16Monotone(i: nat, j: nat)
    requires i <= j
    ensures Pow16(i) <= Pow16(j)
    decreases j
  {
    if i < j {
      Pow16Monotone(i, j - 1);
    }
  }

  /** No reachable step leaves the valid machines; in particular the size accumulator stays below 16^hexCount. */
  lemma StepKeepsValid(m: Machine, trailer: bool, b: Byte)
    requires m.Valid()
    ensures StepByte(m, trailer, b).m.Valid()
  {
    hide Pow16;
    if m.state == InChunkSize && DecodeHex(b) != -1 && m.hexCount < 16 {
      DigitFits(m.left, m.hexCount, DecodeHex(b));
    }
  }

  lemma DigitFits(left: nat, hexCount: nat, v: nat)
    requires hexCount < 16 && left < Pow16(hexCount) && v < 16
    ensures left * 16 + v < Pow16(hexCount + 1) <= TWO_TO_THE_64
  {
    Pow16Fits(hexCount + 1);
  }

  datatype Verdict = NeedMore | Malformed | Complete

  /** The outcome of reading a byte string: final machine, payload, bytes consumed, verdict. */
  datatype Outcome = Outcome(m: Machine, out: seq<Byte>, used: nat, verdict: Verdict)

  /** Reads bytes one at a time until they run out, one is refused, or the message ends. */
  function Run(m: Machine, trailer: bool, s: seq<Byte>): (r: Outcome)
    requires m.Valid()
    ensures r.m.Valid()
    ensures r.used <= |s| && |r.out| <= r.used
    ensures r.verdict == NeedMore ==> r.used == |s|
    decreases |s|
  {
    if s == [] then Outcome(m, [], 0, NeedMore)
    else
      hide StepByte;
      StepKeepsValid(m, trailer, s[0]);
      match StepByte(m, trailer, s[0])
      case Go(m', out) => After(out, 1, Run(m', trailer, s[1..]))
      case Refuse(m') => Outcome(m', [], 0, Malformed)
      case Finish(m') => Outcome(m', [], 1, Complete)
  }

  /** An outcome preceded by `used` bytes that produced `out`. */
  function After(out: seq<Byte>, used: nat, r: Outcome): Outcome {
    r.(out := out + r.out, used := used + r.used)
  }
}
