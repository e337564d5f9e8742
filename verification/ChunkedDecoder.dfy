/** The resumable decoder: it removes the chunk framing from a buffer, in place, one call per piece of input. */
module ChunkedDecoder {
  import opened Bytes
  import opened ChunkedSpec
  import opened ChunkedTrace

  /** What persists between calls; both counters are 64-bit and wrap. */
  datatype Persistent = Persistent(m: Machine, totalRead: nat, totalOverhead: nat) {
    ghost predicate Valid() {
      m.Valid() && totalRead < TWO_TO_THE_64 && totalOverhead < TWO_TO_THE_64
    }
  }

  const FRESH := Persistent(INITIAL, 0, 0)

  /** A call's effect: the new state, the payload, the bytes left undecoded, and the returned number. */
  datatype CallResult = CallResult(d: Persistent, out: seq<Byte>, rest: seq<Byte>, ret: int)

  /** Whether an arm of the switch leaves the loop. */
  datatype Stop = Running | StoppedWith(verdict: Verdict)

  const INCOMPLETE := -2
  const ERROR := -1

  /** The guard against framing that outweighs the payload. */
  predicate ExcessiveOverhead(totalRead: nat, totalOverhead: nat) {
    totalOverhead >= 100 * 1024 && Wrap64(totalRead - totalOverhead) < totalRead / 4
  }

  /** One call, described by the byte-at-a-time automaton. */
  function Call(d: Persistent, trailer: bool, piece: seq<Byte>): (r: CallResult)
    requires d.Valid()
    ensures r.d.Valid()
    ensures r.ret >= -2
  {
    var run := Run(d.m, trailer, piece);
    var read := Wrap64(d.totalRead + |piece|);
    var rest := piece[run.used..];
    match run.verdict
    case Complete => CallResult(Persistent(run.m, read, d.totalOverhead), run.out, rest, |rest|)
    case Malformed => CallResult(Persistent(run.m, read, d.totalOverhead), run.out, rest, ERROR)
    case NeedMore =>
      var overhead := Wrap64(d.totalOverhead + (|piece| - |run.out|));
      CallResult(Persistent(run.m, read, overhead), run.out, rest,
                 if ExcessiveOverhead(read, overhead) then ERROR else INCOMPLETE)
  }

  lemma CallOutcome(d: Persistent, trailer: bool, piece: seq<Byte>, m: Machine, out: seq<Byte>, used: nat, v: Verdict)
    requires d.Valid() && used <= |piece|
    requires Run(d.m, trailer, piece) == Outcome(m, out, used, v)
    ensures var read := Wrap64(d.totalRead + |piece|);
            var overhead := if v == NeedMore then Wrap64(d.totalOverhead + (|piece| - |out|))
                            else d.totalOverhead;
            Call(d, trailer, piece) == CallResult(
              Persistent(m, read, overhead), out, piece[used..],
              match v
              case Complete => |piece| - used
              case Malformed => ERROR
              case NeedMore => if ExcessiveOverhead(read, overhead) then ERROR else INCOMPLETE)
  {
  }

  /** `memmove` within a buffer, towards its front. */
  method MemMove(buf: array<Byte>, dst: nat, src: nat, n: nat)
    requires dst <= src && src + n <= buf.Length
    modifies buf
    ensures buf[..dst] == old(buf[..dst])
    ensures buf[dst..dst + n] == old(buf[src..src + n])
    ensures buf[dst + n..] == old(buf[dst + n..])
  {
    forall i | 0 <= i < n {
      buf[dst + i] := buf[src + i];
    }
  }

  class Decoder {
    var bytesLeftInChunk: nat
    var consumeTrailer: bool
    var hexCount: nat
    var state: State
    var totalRead: nat
    var totalOverhead: nat

    constructor (consumeTrailer: bool)
      ensures State() == FRESH && Valid()
      ensures this.consumeTrailer == consumeTrailer
    {
      bytesLeftInChunk, hexCount, state := 0, 0, InChunkSize;
      totalRead, totalOverhead := 0, 0;
      this.consumeTrailer := consumeTrailer;
    }

    ghost function M(): Machine
      reads this
    {
      Machine(state, bytesLeftInChunk, hexCount)
    }

    ghost function State(): Persistent
      reads this
    {
      Persistent(M(), totalRead, totalOverhead)
    }

    ghost predicate Valid()
      reads this
    {
      State().Valid()
    }

    /** `buf` is part-way through decoding `j.orig`: the first `dst` bytes are the payload of the first `src`
        bytes, everything from `src` on is untouched, and what is left to do leads to `j.goal`. */
    ghost predicate Tracks(buf: array<Byte>, dst: nat, src: nat, j: Journey)
      reads this, buf
    {
      && j.trailer == consumeTrailer
      && dst <= src <= |j.orig| <= buf.Length
      && (forall i :: src <= i < |j.orig| ==> buf[i] == j.orig[i])
      && Leads(j, buf[..dst], src, M())
    }

    /** Decoding of `j.orig` is over, with the given verdict; `src` bytes are consumed. */
    ghost predicate Stopped(buf: array<Byte>, dst: nat, src: nat, j: Journey, v: Verdict)
      reads this, buf
    {
      && M().Valid()
      && dst <= src <= |j.orig| <= buf.Length
      && (forall i :: src <= i < |j.orig| ==> buf[i] == j.orig[i])
      && j.goal == Outcome(M(), buf[..dst], src, v)
    }

    /** What every arm of the switch promises: decoding goes on in state `next`, or it has stopped. */
    ghost predicate Progress(buf: array<Byte>, dst: nat, src: nat, j: Journey, stop: Stop, next: State)
      reads this, buf
    {
      match stop
      case Running => state == next && Tracks(buf, dst, src, j)
      case StoppedWith(v) => Stopped(buf, dst, src, j, v)
    }

    method ReadSize(buf: array<Byte>, ghost dst: nat, src: nat, bufsz: nat, ghost j: Journey)
      returns (src': nat, stop: Stop)
      requires Tracks(buf, dst, src, j) && |j.orig| == bufsz && state == InChunkSize
      modifies this`bytesLeftInChunk, this`hexCount, this`state
      ensures src <= src' && Progress(buf, dst, src', j, stop, InChunkExt)
    {
      hide Finally;
      hide Run;
      hide Pow16;
      hide After;
      src' := src;
      ghost var out := buf[..dst];
      while true
        invariant src <= src' && Tracks(buf, dst, src', j) && state == InChunkSize
        decreases bufsz - src'
      {
        if src' == bufsz {
          AtEnd(j, out, src', M());
          return src', StoppedWith(NeedMore);
        }
        var v := DecodeHex(buf[src']);
        if v == -1 {
          if hexCount == 0 || !EndsSize(buf[src']) {
            StopAt(j, out, src', M(), M());
            return src', StoppedWith(Malformed);
          }
          break;
        }
        if hexCount == 16 {
          StopAt(j, out, src', M(), M());
          return src', StoppedWith(Malformed);
        }
        Advance(j, out, src', M(), Machine(state, bytesLeftInChunk * 16 + v, hexCount + 1));
        bytesLeftInChunk := Wrap64(bytesLeftInChunk * 16 + v);
        hexCount := hexCount + 1;
        src' := src' + 1;
      }
      EndSize(j, out, src', M());
      hexCount := 0;
      state := InChunkExt;
      stop := Running;
    }

    method SkipExtension(buf: array<Byte>, ghost dst: nat, src: nat, bufsz: nat, ghost j: Journey)
      returns (src': nat, stop: Stop)
      requires Tracks(buf, dst, src, j) && |j.orig| == bufsz && state == InChunkExt
      modifies this`state
      ensures src <= src' && Progress(buf, dst, src', j, stop, HeaderExpectLf)
    {
      hide Finally;
      hide Run;
      src' := src;
      ghost var out := buf[..dst];
      while true
        invariant src <= src' && Tracks(buf, dst, src', j) && state == InChunkExt
        decreases bufsz - src'
      {
        if src' == bufsz {
          AtEnd(j, out, src', M());
          return src', StoppedWith(NeedMore);
        }
        if buf[src'] == '\r' {
          break;
        } else if buf[src'] == '\n' {
          StopAt(j, out, src', M(), M());
          return src', StoppedWith(Malformed);
        }
        Advance(j, out, src', M(), M());
        src' := src' + 1;
      }
      Advance(j, out, src', M(), M().(state := HeaderExpectLf));
      src' := src' + 1;
      state := HeaderExpectLf;
      stop := Running;
    }

    /** Ends the chunk header; after the last chunk the message is complete or the trailer begins. */
    method EndHeader(buf: array<Byte>, ghost dst: nat, src: nat, bufsz: nat, ghost j: Journey)
      returns (src': nat, stop: Stop)
      requires Tracks(buf, dst, src, j) && |j.orig| == bufsz && state == HeaderExpectLf
      modifies this`state
      ensures src <= src' && (stop == Running ==> src < src')
      ensures Progress(buf, dst, src', j, stop, if bytesLeftInChunk == 0 then TrailersLineHead else InChunkData)
    {
      hide Finally;
      hide Run;
      ghost var out := buf[..dst];
      if src == bufsz {
        AtEnd(j, out, src, M());
        return src, StoppedWith(NeedMore);
      }
      if buf[src] != '\n' {
        StopAt(j, out, src, M(), M());
        return src, StoppedWith(Malformed);
      }
      src' := src + 1;
      if bytesLeftInChunk == 0 {
        if consumeTrailer {
          Advance(j, out, src, M(), M().(state := TrailersLineHead));
          state := TrailersLineHead;
          return src', Running;
        }
        StopAt(j, out, src, M(), M());
        return src', StoppedWith(Complete);
      }
      Advance(j, out, src, M(), M().(state := InChunkData));
      state := InChunkData;
      stop := Running;
    }

    /** Delivers data by moving it down over the framing already removed. */
    method DeliverData(buf: array<Byte>, dst: nat, src: nat, bufsz: nat, ghost j: Journey)
      returns (dst': nat, src': nat, stop: Stop)
      requires Tracks(buf, dst, src, j) && |j.orig| == bufsz && state == InChunkData
      modifies this`bytesLeftInChunk, this`state, buf
      ensures src <= src' && Progress(buf, dst', src', j, stop, DataExpectCr)
      ensures buf[bufsz..] == old(buf[bufsz..])
    {
      hide Finally;
      hide Run;
      var avail := bufsz - src;
      if avail < bytesLeftInChunk {
        MoveData(buf, dst, src, avail, j);
        bytesLeftInChunk := bytesLeftInChunk - avail;
        AtEnd(j, buf[..dst + avail], src + avail, M());
        return dst + avail, src + avail, StoppedWith(NeedMore);
      }
      MoveData(buf, dst, src, bytesLeftInChunk, j);
      src' := src + bytesLeftInChunk;
      dst' := dst + bytesLeftInChunk;
      bytesLeftInChunk := 0;
      state := DataExpectCr;
      stop := Running;
    }

    method MoveData(buf: array<Byte>, dst: nat, src: nat, n: nat, ghost j: Journey)
      requires Tracks(buf, dst, src, j) && state == InChunkData
      requires n <= bytesLeftInChunk && src + n <= |j.orig|
      modifies buf
      ensures n > 0 ==> Leads(j, buf[..dst + n], src + n, AfterData(M(), n))
      ensures n == 0 ==> buf[..] == old(buf[..])
      ensures buf[src + n..] == old(buf[src + n..])
    {
      hide Finally;
      hide Run;
      if n > 0 {
        AdvanceData(j, buf[..dst], src, M(), n);
      }
      assert buf[src..src + n] == j.orig[src..src + n];
      if dst != src {
        MemMove(buf, dst, src, n);
      }
      assert buf[..dst + n] == old(buf[..dst]) + j.orig[src..src + n];
    }

    method ExpectByte(buf: array<Byte>, ghost dst: nat, src: nat, bufsz: nat, ghost j: Journey)
      returns (src': nat, stop: Stop)
      requires Tracks(buf, dst, src, j) && |j.orig| == bufsz
      requires state == DataExpectCr || state == DataExpectLf
      modifies this`state
      ensures src <= src' && (stop == Running ==> src < src')
      ensures Progress(buf, dst, src', j, stop, if old(state) == DataExpectCr then DataExpectLf else InChunkSize)
    {
      hide Finally;
      hide Run;
      ghost var out := buf[..dst];
      if src == bufsz {
        AtEnd(j, out, src, M());
        return src, StoppedWith(NeedMore);
      }
      var next := if state == DataExpectCr then DataExpectLf else InChunkSize;
      if buf[src] != (if state == DataExpectCr then '\r' else '\n') {
        StopAt(j, out, src, M(), M());
        return src, StoppedWith(Malformed);
      }
      Advance(j, out, src, M(), M().(state := next));
      src' := src + 1;
      state := next;
      stop := Running;
    }

    /** A trailer line that is empty, up to carriage returns, ends the message. */
    method StartTrailerLine(buf: array<Byte>, ghost dst: nat, src: nat, bufsz: nat, ghost j: Journey)
      returns (src': nat, stop: Stop)
      requires Tracks(buf, dst, src, j) && |j.orig| == bufsz && state == TrailersLineHead
      modifies this`state
      ensures src <= src' && Progress(buf, dst, src', j, stop, TrailersLineMiddle)
    {
      hide Finally;
      hide Run;
      src' := src;
      ghost var out := buf[..dst];
      while true
        invariant src <= src' && Tracks(buf, dst, src', j) && state == TrailersLineHead
        decreases bufsz - src'
      {
        if src' == bufsz {
          AtEnd(j, out, src', M());
          return src', StoppedWith(NeedMore);
        }
        if buf[src'] != '\r' { break; }
        Advance(j, out, src', M(), M());
        src' := src' + 1;
      }
      if buf[src'] == '\n' {
        StopAt(j, out, src', M(), M());
        return src' + 1, StoppedWith(Complete);
      }
      Advance(j, out, src', M(), M().(state := TrailersLineMiddle));
      src' := src' + 1;
      state := TrailersLineMiddle;
      stop := Running;
    }

    method SkipTrailerLine(buf: array<Byte>, ghost dst: nat, src: nat, bufsz: nat, ghost j: Journey)
      returns (src': nat, stop: Stop)
      requires Tracks(buf, dst, src, j) && |j.orig| == bufsz && state == TrailersLineMiddle
      modifies this`state
      ensures src <= src' && (stop == Running ==> src < src')
      ensures Progress(buf, dst, src', j, stop, TrailersLineHead)
    {
      hide Finally;
      hide Run;
      src' := src;
      ghost var out := buf[..dst];
      while true
        invariant src <= src' && Tracks(buf, dst, src', j) && state == TrailersLineMiddle
        decreases bufsz - src'
      {
        if src' == bufsz {
          AtEnd(j, out, src', M());
          return src', StoppedWith(NeedMore);
        }
        if buf[src'] == '\n' { break; }
        Advance(j, out, src', M(), M());
        src' := src' + 1;
      }
      Advance(j, out, src', M(), M().(state := TrailersLineHead));
      src' := src' + 1;
      state := TrailersLineHead;
      stop := Running;
    }

    /** The loop around the switch; an arm that does not leave falls through to the next. */
    method Loop(buf: array<Byte>, bufsz: nat, ghost j: Journey)
      returns (dst: nat, src: nat, verdict: Verdict)
      requires Tracks(buf, 0, 0, j) && |j.orig| == bufsz
      modifies this`bytesLeftInChunk, this`hexCount, this`state, buf
      ensures Stopped(buf, dst, src, j, verdict)
      ensures buf[bufsz..] == old(buf[bufsz..])
    {
      hide Finally;
      hide Run;
      dst, src := 0, 0;
      var stop;
      while true
        invariant Tracks(buf, dst, src, j)
        invariant buf[bufsz..] == old(buf[bufsz..])
        decreases bufsz - src
      {
        if state == InChunkSize {
          src, stop := ReadSize(buf, dst, src, bufsz, j);
          if stop != Running { return dst, src, stop.verdict; }
        }
        if state == InChunkExt {
          src, stop := SkipExtension(buf, dst, src, bufsz, j);
          if stop != Running { return dst, src, stop.verdict; }
        }
        if state == HeaderExpectLf {
          src, stop := EndHeader(buf, dst, src, bufsz, j);
          if stop != Running { return dst, src, stop.verdict; }
          if state == TrailersLineHead { continue; }
        }
        if state == InChunkData {
          dst, src, stop := DeliverData(buf, dst, src, bufsz, j);
          if stop != Running { return dst, src, stop.verdict; }
        }
        if state == DataExpectCr {
          src, stop := ExpectByte(buf, dst, src, bufsz, j);
          if stop != Running { return dst, src, stop.verdict; }
        }
        if state == DataExpectLf {
          src, stop := ExpectByte(buf, dst, src, bufsz, j);
          if stop != Running { return dst, src, stop.verdict; }
          continue;
        }
        if state == TrailersLineHead {
          src, stop := StartTrailerLine(buf, dst, src, bufsz, j);
          if stop != Running { return dst, src, stop.verdict; }
        }
        src, stop := SkipTrailerLine(buf, dst, src, bufsz, j);
        if stop != Running { return dst, src, stop.verdict; }
      }
    }

    /** Moves the undecoded bytes up to the payload. */
    method MoveRest(buf: array<Byte>, dst: nat, src: nat, bufsz: nat)
      requires dst <= src <= bufsz <= buf.Length
      modifies buf
      ensures buf[..dst] == old(buf[..dst])
      ensures buf[dst..dst + (bufsz - src)] == old(buf[src..bufsz])
      ensures buf[bufsz..] == old(buf[bufsz..])
    {
      if dst != src {
        MemMove(buf, dst, src, bufsz - src);
        assert buf[bufsz..] == buf[dst + (bufsz - src)..][src - dst..];
      }
    }

    /** The returned number; an incomplete call adds to the overhead, and too much of it is an error. */
    method Account(bufsz: nat, dst: nat, src: nat, verdict: Verdict) returns (ret: int)
      requires dst <= src <= bufsz
      modifies this`totalOverhead
      ensures totalOverhead == if verdict == NeedMore then Wrap64(old(totalOverhead) + (bufsz - dst))
                               else old(totalOverhead)
      ensures ret == match verdict
                     case Complete => bufsz - src
                     case Malformed => ERROR
                     case NeedMore => if ExcessiveOverhead(totalRead, totalOverhead) then ERROR else INCOMPLETE
    {
      ret := match verdict
             case Complete => bufsz - src
             case Malformed => ERROR
             case NeedMore => INCOMPLETE;
      if ret == INCOMPLETE {
        totalOverhead := Wrap64(totalOverhead + (bufsz - dst));
        if ExcessiveOverhead(totalRead, totalOverhead) {
          ret := ERROR;
        }
      }
    }

    /** Decodes the first `bufsz` bytes of `buf` in place: the payload comes first, then what is left undecoded. */
    method Decode(buf: array<Byte>, bufsz: nat) returns (size: nat, ret: int)
      requires Valid() && bufsz <= buf.Length
      modifies this, buf
      ensures var r := Call(old(State()), old(consumeTrailer), old(buf[..bufsz]));
              && M() == r.d.m && totalRead == r.d.totalRead && totalOverhead == r.d.totalOverhead
              && ret == r.ret
              && size == |r.out| && size + |r.rest| <= bufsz
              && buf[..size] == r.out
              && buf[size..size + |r.rest|] == r.rest
      ensures Valid() && consumeTrailer == old(consumeTrailer)
      ensures buf[bufsz..] == old(buf[bufsz..])
    {
      hide Finally;
      hide Run;
      hide Call;
      hide Pow16;
      hide Wrap64;
      hide ExcessiveOverhead;
      ghost var before := State();
      ghost var orig := buf[..bufsz];
      ghost var j := Journey(consumeTrailer, orig, Run(M(), consumeTrailer, orig));
      AtStart(M(), consumeTrailer, orig);
      totalRead := Wrap64(totalRead + bufsz);
      var src, verdict;
      size, src, verdict := Loop(buf, bufsz, j);
      assert buf[src..bufsz] == orig[src..];
      CallOutcome(before, consumeTrailer, orig, M(), buf[..size], src, verdict);
      ghost var r := Call(before, consumeTrailer, orig);
      assert r.d.m == M() && r.out == buf[..size] && r.rest == buf[src..bufsz];
      MoveRest(buf, size, src, bufsz);
      ret := Account(bufsz, size, src, verdict);
    }
  }
}
