/** What the decoder's verdicts and numbers mean for the bytes that may still come. */
module ChunkedVerdicts {
  import opened Bytes
  import opened ChunkedSpec
  import opened ChunkedTrace
  import opened ChunkedDecoder
  import opened ChunkedStreams
  import opened ChunkedGrammar

  // Whatever was read can be completed.

  ghost predicate Completable(m: Machine, trailer: bool)
    requires m.Valid()
  {
    exists s :: Run(m, trailer, s).verdict == Complete
  }

  lemma FinishNow(m: Machine, trailer: bool, b: Byte)
    requires m.Valid() && StepByte(m, trailer, b).Finish?
    ensures Completable(m, trailer)
  {
    assert Run(m, trailer, [b]).verdict == Complete;
  }

  lemma StepOn(m: Machine, trailer: bool, b: Byte, m': Machine)
    requires m.Valid() && m'.Valid() && StepByte(m, trailer, b).Go? && StepByte(m, trailer, b).m == m'
    requires Completable(m', trailer)
    ensures Completable(m, trailer)
  {
    hide StepByte;
    var s :| Run(m', trailer, s).verdict == Complete;
    assert ([b] + s)[0] == b && ([b] + s)[1..] == s;
    assert Run(m, trailer, [b] + s).verdict == Complete;
  }

  lemma TrailerCompletes(m: Machine, trailer: bool)
    requires m.Valid() && (m.state == TrailersLineHead || m.state == TrailersLineMiddle)
    ensures Completable(m, trailer)
  {
    var head := m.(state := TrailersLineHead);
    FinishNow(head, trailer, '\n');
    if m.state == TrailersLineMiddle {
      StepOn(m, trailer, '\n', head);
    }
  }

  lemma LastLineCompletes(trailer: bool)
    ensures Completable(Machine(HeaderExpectLf, 0, 0), trailer)
  {
    hide Completable;
    var m := Machine(HeaderExpectLf, 0, 0);
    if trailer {
      TrailerCompletes(Machine(TrailersLineHead, 0, 0), trailer);
      StepOn(m, trailer, '\n', Machine(TrailersLineHead, 0, 0));
    } else {
      FinishNow(m, trailer, '\n');
    }
  }

  lemma ReturnEndsSize(m: Machine, trailer: bool)
    requires m.Valid() && m.state == InChunkSize && m.hexCount > 0
    ensures StepByte(m, trailer, '\r') == Go(Machine(HeaderExpectLf, m.left, 0), [])
  {
    hide Pow16;
    EndsSizes('\r');
  }

  lemma ZeroIsRead(m: Machine, trailer: bool)
    requires m.Valid() && m.state == InChunkSize && m.hexCount < 16
    ensures StepByte(m, trailer, '0') == Go(Machine(InChunkSize, m.left * 16, m.hexCount + 1), [])
    ensures Machine(InChunkSize, m.left * 16, m.hexCount + 1).Valid()
  {
    hide Pow16;
    assert DecodeHex('0') == 0;
    StepKeepsValid(m, trailer, '0');
  }

  lemma InitialIsValid()
    ensures INITIAL.Valid()
  {
    hide Pow16;
  }

  /** A size of zero is the last. */
  lemma LastCompletes(trailer: bool)
    ensures Completable(Machine(HeaderExpectLf, 0, 0), trailer) && Completable(INITIAL, trailer)
  {
    hide Completable;
    hide StepByte;
    hide Machine.Valid;
    LastLineCompletes(trailer);
    InitialIsValid();
    ZeroIsRead(INITIAL, trailer);
    ReturnEndsSize(Machine(InChunkSize, 0, 1), trailer);
    StepKeepsValid(Machine(InChunkSize, 0, 1), trailer, '\r');
    StepOn(Machine(InChunkSize, 0, 1), trailer, '\r', Machine(HeaderExpectLf, 0, 0));
    StepOn(INITIAL, trailer, '0', Machine(InChunkSize, 0, 1));
  }

  lemma {:induction false} DataCompletes(m: Machine, trailer: bool)
    requires m.Valid() && (m.state == InChunkData || m.state == DataExpectCr || m.state == DataExpectLf)
    ensures Completable(m, trailer)
    decreases m.left
  {
    hide Completable;
    if m.state == InChunkData {
      DataCompletes(StepData(m, 'x').m, trailer);
      StepOn(m, trailer, 'x', StepData(m, 'x').m);
    } else {
      LastCompletes(trailer);
      StepOn(Machine(DataExpectLf, 0, 0), trailer, '\n', INITIAL);
      StepOn(Machine(DataExpectCr, 0, 0), trailer, '\r', Machine(DataExpectLf, 0, 0));
    }
  }

  /** From every state that the decoder can be in some bytes complete the message. */
  lemma AlwaysCompletable(m: Machine, trailer: bool)
    requires m.Valid()
    ensures Completable(m, trailer)
  {
    hide Completable;
    hide Pow16;
    var lf := Machine(HeaderExpectLf, m.left, 0);
    LastCompletes(trailer);
    if m.left > 0 {
      DataCompletes(Machine(InChunkData, m.left, 0), trailer);
      StepOn(lf, trailer, '\n', Machine(InChunkData, m.left, 0));
    }
    match m.state
    case InChunkSize =>
      if m.hexCount > 0 {
        StepOn(m, trailer, '\r', lf);
      } else {
        NothingRead(m);
      }
    case InChunkExt => StepOn(m, trailer, '\r', lf);
    case HeaderExpectLf =>
    case TrailersLineHead => TrailerCompletes(m, trailer);
    case TrailersLineMiddle => TrailerCompletes(m, trailer);
    case _ => DataCompletes(m, trailer);
  }

  lemma NothingRead(m: Machine)
    requires m.Valid() && m.state == InChunkSize && m.hexCount == 0
    ensures m == INITIAL
  {
  }

  /** A stream begins with a message, or can be continued to one. */
  ghost predicate BeginsMessage(s: seq<Byte>, trailer: bool) {
    exists msg: Message :: msg.Valid() && msg.Encode(trailer) <= s
  }

  /** Some continuation of the stream begins with a message. */
  ghost predicate Opens(s: seq<Byte>, trailer: bool) {
    exists more :: BeginsMessage(s + more, trailer)
  }

  /** The decoder refuses a stream if and only if no continuation of it begins with a message, and asks for more if and
      only if some continuation does but the stream does not yet. */
  lemma RefusesExactly(s: seq<Byte>, trailer: bool)
    ensures Run(INITIAL, trailer, s).verdict == Malformed <==> !Opens(s, trailer)
    ensures Run(INITIAL, trailer, s).verdict == NeedMore <==> !BeginsMessage(s, trailer) && Opens(s, trailer)
  {
    hide Run;
    hide Pow16;
    hide BeginsMessage;
    var r := Run(INITIAL, trailer, s);
    Begins(s, trailer);
    forall more
      ensures BeginsMessage(s + more, trailer) <==>
              r.verdict == Complete || (r.verdict == NeedMore && Run(r.m, trailer, more).verdict == Complete)
    {
      Begins(s + more, trailer);
      RunSplit(INITIAL, trailer, s, more);
    }
    if r.verdict == NeedMore {
      AlwaysCompletable(r.m, trailer);
      var more :| Run(r.m, trailer, more).verdict == Complete;
      assert BeginsMessage(s + more, trailer);
    } else if r.verdict == Complete {
      assert s + [] == s;
      assert BeginsMessage(s + [], trailer);
    }
  }

  lemma Begins(s: seq<Byte>, trailer: bool)
    ensures BeginsMessage(s, trailer) <==> Run(INITIAL, trailer, s).verdict == Complete
  {
    hide Run;
    CompletesExactlyOnMessages(s, trailer);
  }

  lemma {:induction false} StopsBehindGoodBytes(m: Machine, trailer: bool, s: seq<Byte>)
    requires m.Valid() && Run(m, trailer, s).verdict == Malformed
    ensures var k := Run(m, trailer, s).used;
            && k < |s| && Run(m, trailer, s[..k]).verdict == NeedMore
            && Run(m, trailer, s[..k + 1]).verdict == Malformed
    decreases |s|
  {
    hide StepByte;
    hide Machine.Valid;
    StepKeepsValid(m, trailer, s[0]);
    var k := Run(m, trailer, s).used;
    var step := StepByte(m, trailer, s[0]);
    if step.Go? {
      StopsBehindGoodBytes(step.m, trailer, s[1..]);
      assert s[..k][1..] == s[1..][..k - 1] && s[..k + 1][1..] == s[1..][..k];
    }
  }

  /** A refused stream is read up to the first byte with which no message can go on. */
  lemma StopsAtFirst(s: seq<Byte>, trailer: bool)
    requires Run(INITIAL, trailer, s).verdict == Malformed
    ensures var k := Run(INITIAL, trailer, s).used;
            k < |s| && Opens(s[..k], trailer) && !Opens(s[..k + 1], trailer)
  {
    hide BeginsMessage;
    StopsBehindGoodBytes(INITIAL, trailer, s);
    hide Run;
    var k := Run(INITIAL, trailer, s).used;
    RefusesExactly(s[..k], trailer);
    RefusesExactly(s[..k + 1], trailer);
  }

  /** The number that one call on a fresh decoder returns: how many bytes are left behind a message, -1 if there will be
      none or the framing is too much, -2 if there may be one. */
  lemma NumbersExactly(s: seq<Byte>, trailer: bool)
    requires |s| < TWO_TO_THE_64
    ensures var r := Call(FRESH, trailer, s);
            && (r.ret >= 0 <==> BeginsMessage(s, trailer))
            && (BeginsMessage(s, trailer) ==> exists msg: Message ::
                  msg.Valid() && msg.Encode(trailer) <= s && r.ret == |s| - |msg.Encode(trailer)|)
            && (r.ret == -1 <==>
                  || !Opens(s, trailer)
                  || (!BeginsMessage(s, trailer) && |s| - |r.out| >= 102400 && |r.out| < |s| / 4))
            && r.ret >= -2
  {
    hide Run;
    hide Pow16;
    hide BeginsMessage;
    RefusesExactly(s, trailer);
    Begins(s, trailer);
    var run := Run(INITIAL, trailer, s);
    if run.verdict == NeedMore {
      GuardMeaning(trailer, s);
    } else if run.verdict == Complete {
      var msg := CompletedMessage(s, trailer);
    }
  }
}
