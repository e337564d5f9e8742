/** What a caller sees who feeds the decoder a stream in pieces. */
module ChunkedStreams {
  import opened Bytes
  import opened ChunkedSpec
  import opened ChunkedTrace
  import opened ChunkedDecoder

  function Flatten(pieces: seq<seq<Byte>>): seq<Byte> {
    if pieces == [] then [] else pieces[0] + Flatten(pieces[1..])
  }

  /** Calls the decoder on one piece after another while it asks for more; pieces not fed stay undecoded. */
  function Feed(d: Persistent, trailer: bool, pieces: seq<seq<Byte>>): (r: CallResult)
    requires d.Valid() && pieces != []
    ensures r.d.Valid()
    decreases |pieces|
  {
    var first := Call(d, trailer, pieces[0]);
    if |pieces| == 1 then first
    else if first.ret != INCOMPLETE then first.(rest := first.rest + Flatten(pieces[1..]))
    else
      var later := Feed(first.d, trailer, pieces[1..]);
      later.(out := first.out + later.out)
  }

  /** The overhead guard fires on none of the calls before the last. */
  ghost predicate GuardQuiet(d: Persistent, trailer: bool, pieces: seq<seq<Byte>>)
    requires d.Valid() && pieces != []
    decreases |pieces|
  {
    |pieces| == 1 || Run(d.m, trailer, pieces[0]).verdict != NeedMore ||
    var first := Call(d, trailer, pieces[0]);
    first.ret == INCOMPLETE && GuardQuiet(first.d, trailer, pieces[1..])
  }

  /** Running on after a part that asked for more. */
  lemma {:induction false} RunSplit(m: Machine, trailer: bool, a: seq<Byte>, b: seq<Byte>)
    requires m.Valid()
    ensures var ra := Run(m, trailer, a);
            Run(m, trailer, a + b) ==
            if ra.verdict == NeedMore then After(ra.out, |a|, Run(ra.m, trailer, b)) else ra
    decreases |a|
  {
    if a == [] {
      assert a + b == b;
      var r := Run(m, trailer, b);
      assert After([], 0, r).out == r.out;
    } else {
      assert (a + b)[0] == a[0] && (a + b)[1..] == a[1..] + b;
      StepKeepsValid(m, trailer, a[0]);
      match StepByte(m, trailer, a[0])
      case Go(m', o) =>
        RunSplit(m', trailer, a[1..], b);
        var ra := Run(m', trailer, a[1..]);
        AfterAfter(o, 1, ra.out, |a| - 1, Run(ra.m, trailer, b));
      case _ =>
    }
  }

  lemma AddWraps(x: nat, a: nat, b: nat)
    ensures Wrap64(Wrap64(x + a) + b) == Wrap64(x + (a + b))
  {
  }

  /** Two calls, the first incomplete, do what one call on both pieces does. */
  lemma CallSplit(d: Persistent, trailer: bool, a: seq<Byte>, b: seq<Byte>)
    requires d.Valid() && Run(d.m, trailer, a).verdict == NeedMore
    ensures var first := Call(d, trailer, a);
            var second := Call(first.d, trailer, b);
            var whole := Call(d, trailer, a + b);
            && whole.out == first.out + second.out && whole.rest == second.rest && whole.ret == second.ret
            && whole.d.m == second.d.m
            && Run(d.m, trailer, a + b).verdict == Run(first.d.m, trailer, b).verdict
            && (Run(d.m, trailer, a + b).verdict == NeedMore ==> whole.d == second.d)
  {
    hide Run;
    hide Call;
    hide Pow16;
    hide Wrap64;
    hide ExcessiveOverhead;
    RunSplit(d.m, trailer, a, b);
    var first := Call(d, trailer, a);
    var ra := Run(d.m, trailer, a);
    var rb := Run(ra.m, trailer, b);
    AddWraps(d.totalRead, |a|, |b|);
    AddWraps(d.totalOverhead, |a| - |ra.out|, |b| - |rb.out|);
    assert (a + b)[|a| + rb.used..] == b[rb.used..];
    CallOutcome(d, trailer, a, ra.m, ra.out, ra.used, ra.verdict);
    CallOutcome(first.d, trailer, b, rb.m, rb.out, rb.used, rb.verdict);
    CallOutcome(d, trailer, a + b, rb.m, ra.out + rb.out, |a| + rb.used, rb.verdict);
  }

  /** A call that does not ask for more ignores what follows, which stays undecoded. */
  lemma CallIgnoresRest(d: Persistent, trailer: bool, a: seq<Byte>, b: seq<Byte>)
    requires d.Valid() && Run(d.m, trailer, a).verdict != NeedMore
    ensures var first := Call(d, trailer, a);
            var whole := Call(d, trailer, a + b);
            && whole.out == first.out && whole.rest == first.rest + b && whole.d.m == first.d.m
            && Run(d.m, trailer, a + b).verdict == Run(d.m, trailer, a).verdict
  {
    RunSplit(d.m, trailer, a, b);
    var ra := Run(d.m, trailer, a);
    assert (a + b)[ra.used..] == a[ra.used..] + b;
  }

  /** However a stream is cut into calls, the payload, the machine, the verdict and the undecoded rest are
      those of one call on the whole; an incomplete stream also has the same counters. */
  lemma {:induction false} SplitInvariance(d: Persistent, trailer: bool, pieces: seq<seq<Byte>>)
    requires d.Valid() && pieces != [] && GuardQuiet(d, trailer, pieces)
    ensures var fed := Feed(d, trailer, pieces);
            var whole := Call(d, trailer, Flatten(pieces));
            && fed.out == whole.out && fed.rest == whole.rest && fed.d.m == whole.d.m
            && (fed.ret >= 0 <==> whole.ret >= 0) && (whole.ret < 0 ==> fed.ret == whole.ret)
            && (Run(d.m, trailer, Flatten(pieces)).verdict == NeedMore ==> fed.d == whole.d)
    decreases |pieces|
  {
    hide Run;
    var a, b := pieces[0], Flatten(pieces[1..]);
    if |pieces| == 1 {
      assert Flatten(pieces) == a + [] == a;
    } else if Run(d.m, trailer, a).verdict == NeedMore {
      CallSplit(d, trailer, a, b);
      SplitInvariance(Call(d, trailer, a).d, trailer, pieces[1..]);
    } else {
      CallIgnoresRest(d, trailer, a, b);
    }
  }

  /** Incomplete calls keep the difference of the counters equal to the payload delivered, modulo 2^64. */
  lemma CallAccounting(d: Persistent, trailer: bool, piece: seq<Byte>)
    requires d.Valid() && Run(d.m, trailer, piece).verdict == NeedMore
    ensures var r := Call(d, trailer, piece);
            Wrap64(r.d.totalRead - r.d.totalOverhead) == Wrap64(d.totalRead - d.totalOverhead + |r.out|)
  {
    hide Run;
    hide Pow16;
    hide ExcessiveOverhead;
    hide Wrap64;
    WrapDifference(d.totalRead, d.totalOverhead, |piece|, |Run(d.m, trailer, piece).out|);
  }

  lemma WrapDifference(a: int, b: int, n: int, k: int)
    ensures Wrap64(Wrap64(a + n) - Wrap64(b + (n - k))) == Wrap64(a - b + k)
  {
  }

  /** After any run of incomplete calls on a fresh decoder, bytes read minus overhead is the payload delivered:
      exactly below 2^64 bytes, and modulo 2^64 beyond. */
  lemma Accounting(trailer: bool, pieces: seq<seq<Byte>>)
    requires pieces != []
    requires GuardQuiet(FRESH, trailer, pieces) && Feed(FRESH, trailer, pieces).ret == INCOMPLETE
    ensures var fed := Feed(FRESH, trailer, pieces);
            && Wrap64(fed.d.totalRead - fed.d.totalOverhead) == Wrap64(|fed.out|)
            && (|Flatten(pieces)| < TWO_TO_THE_64 ==>
                  fed.d.totalRead == |Flatten(pieces)| && fed.d.totalRead - fed.d.totalOverhead == |fed.out|)
  {
    hide Run;
    hide Pow16;
    hide ExcessiveOverhead;
    hide GuardQuiet;
    hide Feed;
    hide Flatten;
    SplitInvariance(FRESH, trailer, pieces);
  }

  /** The guard in the source's terms: on a stream shorter than 2^64 bytes that needs more, it fires exactly when
      at least 100 KiB are framing and the payload is less than a quarter of the bytes read. */
  lemma GuardMeaning(trailer: bool, s: seq<Byte>)
    requires |s| < TWO_TO_THE_64 && Run(INITIAL, trailer, s).verdict == NeedMore
    ensures var r := Call(FRESH, trailer, s);
            r.ret == ERROR <==> |s| - |r.out| >= 102400 && |r.out| < |s| / 4
  {
    hide Run;
    hide Pow16;
  }
}
