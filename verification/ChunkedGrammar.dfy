/** The chunked grammar (sections 4.1, 4.1.1 and 4.1.2 of RFC 7230, as liberally as the decoder reads it),
    and the proof that the automaton completes on exactly the byte strings that begin with a message. */
module ChunkedGrammar {
  import opened Bytes
  import opened ChunkedSpec
  import opened ChunkedTrace
  import opened ChunkedDecoder

  const CRLF: seq<Byte> := ['\r', '\n']

  /** The digits in the order of their values, in either case. */
  const LOWER_DIGITS: string := "0123456789abcdef"
  const UPPER_DIGITS: string := "0123456789ABCDEF"

  /** The last position of a character, or -1. */
  function PositionOf(s: string, c: char): (r: int)
    ensures -1 <= r < |s| && (r >= 0 ==> s[r] == c) && (r == -1 ==> c !in s)
  {
    if s == [] then -1 else if s[|s| - 1] == c then |s| - 1 else PositionOf(s[..|s| - 1], c)
  }

  /** The value of a digit, which is its position among the digits, or -1 for another byte. */
  function DigitValue(b: Byte): (v: int)
    ensures -1 <= v < 16
  {
    if b in LOWER_DIGITS then PositionOf(LOWER_DIGITS, b) else PositionOf(UPPER_DIGITS, b)
  }

  /** The decoder's arithmetic on character codes gives the digits their values, and nothing else one. */
  lemma DecodesDigits(b: Byte)
    ensures DecodeHex(b) == DigitValue(b)
    ensures DecodeHex(b) == -1 <==> b !in LOWER_DIGITS && b !in UPPER_DIGITS
    ensures DecodeHex(b) >= 0 ==> LOWER_DIGITS[DecodeHex(b)] == b || UPPER_DIGITS[DecodeHex(b)] == b
  {
    hide PositionOf;
    var v := DecodeHex(b);
    assert v >= 0 ==> LOWER_DIGITS[v] == b || UPPER_DIGITS[v] == b;
    assert v == -1 ==> b !in LOWER_DIGITS && b !in UPPER_DIGITS;
  }

  /** The bytes that may follow a chunk size. */
  predicate MayFollowSize(b: Byte) {
    b in " \t;\r\n"
  }

  lemma EndsSizes(b: Byte)
    ensures EndsSize(b) <==> MayFollowSize(b)
    ensures MayFollowSize(b) ==> DecodeHex(b) == -1
  {
  }

  lemma SizeIsOver(b: Byte)
    requires MayFollowSize(b)
    ensures EndsSize(b) && DecodeHex(b) == -1
  {
    EndsSizes(b);
  }

  /** Any number of digits: a chunk size uses 1 to 16 of them. */
  predicate HexDigits(s: seq<Byte>) {
    forall i :: 0 <= i < |s| ==> DigitValue(s[i]) != -1
  }

  function HexValue(s: seq<Byte>): nat
    requires HexDigits(s)
  {
    if s == [] then 0 else HexValue(s[..|s| - 1]) * 16 + DigitValue(s[|s| - 1])
  }

  predicate Size(s: seq<Byte>) {
    1 <= |s| <= 16 && HexDigits(s)
  }

  /** A chunk extension with the white space around it: no line ends, and something that can follow a size. */
  predicate Extension(e: seq<Byte>) {
    '\r' !in e && '\n' !in e && (e != [] ==> MayFollowSize(e[0]))
  }

  datatype Chunk = Chunk(size: seq<Byte>, ext: seq<Byte>, data: seq<Byte>) {
    predicate Valid() {
      Size(size) && Extension(ext) && data != [] && HexValue(size) == |data|
    }

    function Encode(): seq<Byte> {
      size + ext + CRLF + data + CRLF
    }
  }

  /** A trailer line without its line feed; carriage returns alone would make it the blank line. */
  predicate TrailerLine(l: seq<Byte>) {
    '\n' !in l && exists i :: 0 <= i < |l| && l[i] != '\r'
  }

  predicate BlankLine(l: seq<Byte>) {
    forall i :: 0 <= i < |l| ==> l[i] == '\r'
  }

  function EncodeChunks(cs: seq<Chunk>): seq<Byte> {
    if cs == [] then [] else cs[0].Encode() + EncodeChunks(cs[1..])
  }

  function Payload(cs: seq<Chunk>): seq<Byte> {
    if cs == [] then [] else cs[0].data + Payload(cs[1..])
  }

  function EncodeLines(ls: seq<seq<Byte>>): seq<Byte> {
    if ls == [] then [] else ls[0] + ['\n'] + EncodeLines(ls[1..])
  }

  /** A message: its chunks, the last chunk, and the trailer lines with the blank line that ends them. */
  datatype Message = Message(chunks: seq<Chunk>, lastSize: seq<Byte>, lastExt: seq<Byte>,
                             lines: seq<seq<Byte>>, blank: seq<Byte>)
  {
    predicate Valid() {
      && (forall c :: c in chunks ==> c.Valid())
      && Size(lastSize) && HexValue(lastSize) == 0 && Extension(lastExt)
      && (forall l :: l in lines ==> TrailerLine(l))
      && BlankLine(blank)
    }

    function EncodeLast(): seq<Byte> {
      lastSize + lastExt + CRLF
    }

    function EncodeTrailer(): seq<Byte> {
      EncodeLines(lines) + (blank + ['\n'])
    }

    /** Without `trailer` the decoder stops after the last chunk's line. */
    function Encode(trailer: bool): seq<Byte> {
      EncodeChunks(chunks) + (EncodeLast() + if trailer then EncodeTrailer() else [])
    }
  }

  /** What the decoder does with a byte while it reads a size. */
  lemma SizeStep(m: Machine, trailer: bool, b: Byte)
    requires m.Valid() && m.state == InChunkSize
    ensures var v := DigitValue(b);
            && (v == -1 ==> DecodeHex(b) == -1 && (MayFollowSize(b) ==> EndsSize(b)))
            && (v == -1 && (m.hexCount == 0 || !MayFollowSize(b)) ==> StepByte(m, trailer, b) == Refuse(m))
            && (v != -1 && m.hexCount == 16 ==> StepByte(m, trailer, b) == Refuse(m))
            && (v != -1 && m.hexCount < 16 ==>
                  StepByte(m, trailer, b) == Go(Machine(InChunkSize, m.left * 16 + v, m.hexCount + 1), []))
  {
    DecodesDigits(b);
    EndsSizes(b);
    hide DigitValue;
    hide DecodeHex;
    hide EndsSize;
    hide MayFollowSize;
  }

  // Reading what the grammar generates.

  lemma {:induction false} ReadDigits(j: Journey, out: seq<Byte>, src: nat, digits: seq<Byte>, k: nat)
    requires Leads(j, out, src, INITIAL) && At(j.orig, src, digits)
    requires Size(digits) && k <= |digits|
    ensures Leads(j, out, src + k, Machine(InChunkSize, HexValue(digits[..k]), k))
    decreases k
  {
    hide Finally;
    hide At;
    hide StepByte;
    hide DigitValue;
    if k > 0 {
      ReadDigits(j, out, src, digits, k - 1);
      var m := Machine(InChunkSize, HexValue(digits[..k - 1]), k - 1);
      AtByte(j.orig, src, digits, k - 1);
      assert digits[..k][..k - 1] == digits[..k - 1];
      SizeStep(m, j.trailer, digits[k - 1]);
      Advance(j, out, src + k - 1, m, Machine(InChunkSize, HexValue(digits[..k]), k));
    }
  }

  lemma {:induction false} ReadExtension(j: Journey, out: seq<Byte>, src: nat, m: Machine, ext: seq<Byte>, k: nat)
    requires Leads(j, out, src, m) && m.state == InChunkExt && At(j.orig, src, ext)
    requires '\r' !in ext && '\n' !in ext && k <= |ext|
    ensures Leads(j, out, src + k, m)
    decreases k
  {
    hide Finally;
    hide At;
    if k > 0 {
      ReadExtension(j, out, src, m, ext, k - 1);
      AtByte(j.orig, src, ext, k - 1);
      Advance(j, out, src + k - 1, m, m);
    }
  }

  /** A size line up to its line feed. */
  lemma ReadHeader(j: Journey, out: seq<Byte>, src: nat, size: seq<Byte>, ext: seq<Byte>)
    requires Leads(j, out, src, INITIAL) && At(j.orig, src, size + ext + CRLF)
    requires Size(size) && Extension(ext)
    ensures Leads(j, out, src + |size| + |ext| + 1, Machine(HeaderExpectLf, HexValue(size), 0))
    ensures src + |size| + |ext| + 1 < |j.orig| && j.orig[src + |size| + |ext| + 1] == '\n'
  {
    hide StepByte;
    hide StepSize;
    hide HexDigits;
    hide Finally;
    hide At;
    hide HexValue;
    hide DigitValue;
    hide DecodeHex;
    hide EndsSize;
    hide Pow16;
    AtBoth(j.orig, src, size + ext, CRLF);
    AtBoth(j.orig, src, size, ext);
    ReadDigits(j, out, src, size, |size|);
    assert size[..|size|] == size;
    var i := src + |size|;
    AtByte(j.orig, i + |ext|, CRLF, 0);
    AtByte(j.orig, i + |ext|, CRLF, 1);
    if ext != [] {
      AtByte(j.orig, i, ext, 0);
    }
    SizeIsOver(j.orig[i]);
    EndSize(j, out, i, Machine(InChunkSize, HexValue(size), |size|));
    ReadRest(j, out, i, Machine(InChunkExt, HexValue(size), 0), ext);
  }

  lemma ReadRest(j: Journey, out: seq<Byte>, src: nat, m: Machine, ext: seq<Byte>)
    requires Leads(j, out, src, m) && m.state == InChunkExt && At(j.orig, src, ext)
    requires '\r' !in ext && '\n' !in ext && src + |ext| < |j.orig| && j.orig[src + |ext|] == '\r'
    ensures Leads(j, out, src + |ext| + 1, m.(state := HeaderExpectLf))
  {
    hide Finally;
    hide At;
    ReadExtension(j, out, src, m, ext, |ext|);
    Advance(j, out, src + |ext|, m, m.(state := HeaderExpectLf));
  }

  lemma ReadChunk(j: Journey, out: seq<Byte>, src: nat, c: Chunk)
    requires Leads(j, out, src, INITIAL) && At(j.orig, src, c.Encode()) && c.Valid()
    ensures Leads(j, out + c.data, src + |c.Encode()|, INITIAL)
  {
    hide Finally;
    hide At;
    hide HexValue;
    AtBoth(j.orig, src, c.size + c.ext + CRLF + c.data, CRLF);
    AtBoth(j.orig, src, c.size + c.ext + CRLF, c.data);
    ReadHeader(j, out, src, c.size, c.ext);
    var i := src + |c.size| + |c.ext| + 2;
    Advance(j, out, i - 1, Machine(HeaderExpectLf, |c.data|, 0), Machine(InChunkData, |c.data|, 0));
    AtSlice(j.orig, i, c.data);
    AdvanceData(j, out, i, Machine(InChunkData, |c.data|, 0), |c.data|);
    i := i + |c.data|;
    AtByte(j.orig, i, CRLF, 0);
    AtByte(j.orig, i, CRLF, 1);
    Advance(j, out + c.data, i, Machine(DataExpectCr, 0, 0), Machine(DataExpectLf, 0, 0));
    Advance(j, out + c.data, i + 1, Machine(DataExpectLf, 0, 0), INITIAL);
  }

  lemma {:induction false} ReadChunks(j: Journey, out: seq<Byte>, src: nat, cs: seq<Chunk>)
    requires Leads(j, out, src, INITIAL) && At(j.orig, src, EncodeChunks(cs))
    requires forall c :: c in cs ==> c.Valid()
    ensures Leads(j, out + Payload(cs), src + |EncodeChunks(cs)|, INITIAL)
    decreases |cs|
  {
    hide Finally;
    hide At;
    if cs == [] {
      assert out + [] == out;
    } else {
      AtBoth(j.orig, src, cs[0].Encode(), EncodeChunks(cs[1..]));
      ReadChunk(j, out, src, cs[0]);
      ReadChunks(j, out + cs[0].data, src + |cs[0].Encode()|, cs[1..]);
      assert out + cs[0].data + Payload(cs[1..]) == out + Payload(cs);
    }
  }

  lemma {:induction false} ReadLine(j: Journey, out: seq<Byte>, src: nat, l: seq<Byte>, k: nat)
    requires Leads(j, out, src, Machine(TrailersLineHead, 0, 0)) && At(j.orig, src, l)
    requires '\n' !in l && k <= |l|
    ensures BlankLine(l[..k]) ==> Leads(j, out, src + k, Machine(TrailersLineHead, 0, 0))
    ensures !BlankLine(l[..k]) ==> Leads(j, out, src + k, Machine(TrailersLineMiddle, 0, 0))
    decreases k
  {
    hide Finally;
    hide At;
    if k > 0 {
      ReadLine(j, out, src, l, k - 1);
      AtByte(j.orig, src, l, k - 1);
      assert l[..k] == l[..k - 1] + [l[k - 1]];
      var before := Machine(if BlankLine(l[..k - 1]) then TrailersLineHead else TrailersLineMiddle, 0, 0);
      var after := Machine(if BlankLine(l[..k]) then TrailersLineHead else TrailersLineMiddle, 0, 0);
      assert BlankLine(l[..k]) <==> BlankLine(l[..k - 1]) && l[k - 1] == '\r';
      Advance(j, out, src + k - 1, before, after);
    }
  }

  lemma {:induction false} ReadLines(j: Journey, out: seq<Byte>, src: nat, ls: seq<seq<Byte>>)
    requires Leads(j, out, src, Machine(TrailersLineHead, 0, 0)) && At(j.orig, src, EncodeLines(ls))
    requires forall l :: l in ls ==> TrailerLine(l)
    ensures Leads(j, out, src + |EncodeLines(ls)|, Machine(TrailersLineHead, 0, 0))
    decreases |ls|
  {
    hide Finally;
    hide At;
    if ls != [] {
      var l := ls[0];
      assert l in ls;
      AtBoth(j.orig, src, l + ['\n'], EncodeLines(ls[1..]));
      AtBoth(j.orig, src, l, ['\n']);
      ReadLine(j, out, src, l, |l|);
      assert l[..|l|] == l;
      AtByte(j.orig, src + |l|, ['\n'], 0);
      Advance(j, out, src + |l|, Machine(TrailersLineMiddle, 0, 0), Machine(TrailersLineHead, 0, 0));
      ReadLines(j, out, src + |l| + 1, ls[1..]);
    }
  }

  /** The last chunk ends the message, or starts the trailer, which the blank line ends. */
  lemma ReadEnd(j: Journey, out: seq<Byte>, src: nat, msg: Message)
    requires Leads(j, out, src, INITIAL) && msg.Valid()
    requires At(j.orig, src, msg.EncodeLast() + if j.trailer then msg.EncodeTrailer() else [])
    ensures j.goal.verdict == Complete && j.goal.out == out
    ensures j.goal.used == src + |msg.EncodeLast() + if j.trailer then msg.EncodeTrailer() else []|
  {
    hide Finally;
    hide At;
    hide HexValue;
    hide Pow16;
    AtBoth(j.orig, src, msg.EncodeLast(), if j.trailer then msg.EncodeTrailer() else []);
    ReadHeader(j, out, src, msg.lastSize, msg.lastExt);
    var i := src + |msg.EncodeLast()|;
    if j.trailer {
      Advance(j, out, i - 1, Machine(HeaderExpectLf, 0, 0), Machine(TrailersLineHead, 0, 0));
      AtBoth(j.orig, i, EncodeLines(msg.lines), msg.blank + ['\n']);
      ReadLines(j, out, i, msg.lines);
      i := i + |EncodeLines(msg.lines)|;
      AtBoth(j.orig, i, msg.blank, ['\n']);
      ReadLine(j, out, i, msg.blank, |msg.blank|);
      assert msg.blank[..|msg.blank|] == msg.blank;
      AtByte(j.orig, i + |msg.blank|, ['\n'], 0);
      StopAt(j, out, i + |msg.blank|, Machine(TrailersLineHead, 0, 0), Machine(TrailersLineHead, 0, 0));
    } else {
      StopAt(j, out, i - 1, Machine(HeaderExpectLf, 0, 0), Machine(HeaderExpectLf, 0, 0));
    }
  }

  /** Decoding the encoding of a message yields its payload and stops exactly at its end. */
  lemma RoundTrip(msg: Message, trailer: bool, tail: seq<Byte>)
    requires msg.Valid()
    ensures var run := Run(INITIAL, trailer, msg.Encode(trailer) + tail);
            run.verdict == Complete && run.out == Payload(msg.chunks) && run.used == |msg.Encode(trailer)|
  {
    hide Finally;
    hide Run;
    var s := msg.Encode(trailer) + tail;
    var j := Journey(trailer, s, Run(INITIAL, trailer, s));
    AtStart(INITIAL, trailer, s);
    assert At(s, 0, msg.Encode(trailer));
    AtBoth(s, 0, EncodeChunks(msg.chunks), msg.EncodeLast() + if trailer then msg.EncodeTrailer() else []);
    ReadChunks(j, [], 0, msg.chunks);
    assert [] + Payload(msg.chunks) == Payload(msg.chunks);
    ReadEnd(j, Payload(msg.chunks), |EncodeChunks(msg.chunks)|, msg);
  }

  /** The same for a call: the number returned is the length of the tail, which is left undecoded. */
  lemma CallRoundTrip(msg: Message, trailer: bool, tail: seq<Byte>)
    requires msg.Valid()
    ensures var r := Call(FRESH, trailer, msg.Encode(trailer) + tail);
            r.out == Payload(msg.chunks) && r.rest == tail && r.ret == |tail|
  {
    hide Run;
    hide Pow16;
    RoundTrip(msg, trailer, tail);
    assert (msg.Encode(trailer) + tail)[|msg.Encode(trailer)|..] == tail;
  }

  // Every completed run reads a message.

  lemma DigitsSnoc(s: seq<Byte>, i: nat, k: nat)
    requires i + k < |s| && HexDigits(s[i..i + k]) && DigitValue(s[i + k]) != -1
    ensures HexDigits(s[i..i + (k + 1)])
    ensures HexValue(s[i..i + (k + 1)]) == HexValue(s[i..i + k]) * 16 + DigitValue(s[i + k])
  {
    assert s[i..i + (k + 1)] == s[i..i + k] + [s[i + k]];
    assert s[i..i + (k + 1)][..k] == s[i..i + k];
  }

  lemma ScanDigits(j: Journey, out: seq<Byte>, src: nat, k: nat) returns (n: nat)
    requires j.goal.verdict == Complete
    requires k <= 16 && src + k <= |j.orig| && HexDigits(j.orig[src..src + k])
    requires Leads(j, out, src + k, Machine(InChunkSize, HexValue(j.orig[src..src + k]), k))
    ensures src + n < |j.orig| && Size(j.orig[src..src + n])
    ensures DigitValue(j.orig[src + n]) == -1 && MayFollowSize(j.orig[src + n])
    ensures Leads(j, out, src + n, Machine(InChunkExt, HexValue(j.orig[src..src + n]), 0))
    decreases |j.orig| - src - k
  {
    hide StepByte;
    hide DigitValue;
    hide DecodeHex;
    hide EndsSize;
    hide MayFollowSize;
    hide Finally;
    hide Pow16;
    hide HexDigits;
    hide HexValue;
    var m := Machine(InChunkSize, HexValue(j.orig[src..src + k]), k);
    if src + k == |j.orig| {
      AtEnd(j, out, src + k, m);
      assert false;
    }
    var b := j.orig[src + k];
    SizeStep(m, j.trailer, b);
    if DigitValue(b) == -1 {
      if k == 0 || !MayFollowSize(b) {
        StopAt(j, out, src + k, m, m);
        assert false;
      }
      EndSize(j, out, src + k, m);
      n := k;
    } else if k == 16 {
      StopAt(j, out, src + k, m, m);
      assert false;
    } else {
      DigitsSnoc(j.orig, src, k);
      Advance(j, out, src + k, m, Machine(InChunkSize, HexValue(j.orig[src..src + (k + 1)]), k + 1));
      n := ScanDigits(j, out, src, k + 1);
    }
  }

  lemma ScanExtension(j: Journey, out: seq<Byte>, src: nat, m: Machine, k: nat) returns (n: nat)
    requires j.goal.verdict == Complete && m.state == InChunkExt
    requires src + k <= |j.orig| && '\r' !in j.orig[src..src + k] && '\n' !in j.orig[src..src + k]
    requires Leads(j, out, src + k, m)
    ensures src + n + 1 <= |j.orig| && '\r' !in j.orig[src..src + n] && '\n' !in j.orig[src..src + n]
    ensures j.orig[src + n] == '\r' && Leads(j, out, src + n + 1, m.(state := HeaderExpectLf))
    decreases |j.orig| - src - k
  {
    hide Finally;
    hide Pow16;
    if src + k == |j.orig| {
      AtEnd(j, out, src + k, m);
      assert false;
    } else if j.orig[src + k] == '\r' {
      Advance(j, out, src + k, m, m.(state := HeaderExpectLf));
      n := k;
    } else if j.orig[src + k] == '\n' {
      StopAt(j, out, src + k, m, m);
      assert false;
    } else {
      Advance(j, out, src + k, m, m);
      assert j.orig[src..src + (k + 1)] == j.orig[src..src + k] + [j.orig[src + k]];
      n := ScanExtension(j, out, src, m, k + 1);
    }
  }

  /** A completed run that stands before a chunk header reads one, up to its line feed. */
  lemma ScanHeader(j: Journey, out: seq<Byte>, src: nat) returns (size: seq<Byte>, ext: seq<Byte>)
    requires j.goal.verdict == Complete && Leads(j, out, src, INITIAL)
    ensures Size(size) && Extension(ext)
    ensures At(j.orig, src, size + ext + CRLF)
    ensures Leads(j, out, src + |size| + |ext| + 1, Machine(HeaderExpectLf, HexValue(size), 0))
  {
    hide DigitValue;
    hide DecodeHex;
    hide EndsSize;
    hide MayFollowSize;
    hide Finally;
    hide Pow16;
    assert j.orig[src..src] == [];
    var n := ScanDigits(j, out, src, 0);
    size := j.orig[src..src + n];
    var m := Machine(InChunkExt, HexValue(size), 0);
    assert j.orig[src + n..src + n] == [];
    var e := ScanExtension(j, out, src + n, m, 0);
    ext := j.orig[src + n..src + n + e];
    ExpectByte(j, out, src + n + e + 1, m.(state := HeaderExpectLf), '\n');
    assert j.orig[src..src + |size + ext + CRLF|] == size + ext + CRLF;
  }

  /** In the states that expect one byte, a completed run finds it. */
  lemma ExpectByte(j: Journey, out: seq<Byte>, src: nat, m: Machine, b: Byte)
    requires j.goal.verdict == Complete && Leads(j, out, src, m)
    requires b == if m.state == DataExpectCr then '\r' else '\n'
    requires m.state == HeaderExpectLf || m.state == DataExpectCr || m.state == DataExpectLf
    ensures src < |j.orig| && j.orig[src] == b
  {
    hide Finally;
    if src == |j.orig| {
      AtEnd(j, out, src, m);
    } else if j.orig[src] != b {
      StopAt(j, out, src, m, m);
    }
  }

  lemma ScanChunk(j: Journey, out: seq<Byte>, src: nat, size: seq<Byte>, ext: seq<Byte>) returns (c: Chunk)
    requires j.goal.verdict == Complete && Size(size) && HexValue(size) > 0 && Extension(ext)
    requires At(j.orig, src, size + ext + CRLF)
    requires Leads(j, out, src + |size| + |ext| + 1, Machine(HeaderExpectLf, HexValue(size), 0))
    ensures c.Valid() && At(j.orig, src, c.Encode()) && 0 < |c.Encode()| <= |j.orig| - src
    ensures Leads(j, out + c.data, src + |c.Encode()|, INITIAL)
  {
    hide DigitValue;
    hide MayFollowSize;
    hide EndsSize;
    hide DecodeHex;
    hide HexDigits;
    hide Extension;
    hide Finally;
    hide Pow16;
    hide HexValue;
    var n := HexValue(size);
    var i := src + |size| + |ext| + 2;
    AtByte(j.orig, src, size + ext + CRLF, |size + ext| + 1);
    Advance(j, out, i - 1, Machine(HeaderExpectLf, n, 0), Machine(InChunkData, n, 0));
    DataFits(j, out, i, n);
    AdvanceData(j, out, i, Machine(InChunkData, n, 0), n);
    var data := j.orig[i..i + n];
    ExpectByte(j, out + data, i + n, Machine(DataExpectCr, 0, 0), '\r');
    Advance(j, out + data, i + n, Machine(DataExpectCr, 0, 0), Machine(DataExpectLf, 0, 0));
    ExpectByte(j, out + data, i + n + 1, Machine(DataExpectLf, 0, 0), '\n');
    Advance(j, out + data, i + n + 1, Machine(DataExpectLf, 0, 0), INITIAL);
    c := Chunk(size, ext, data);
    assert At(j.orig, i, data);
    assert At(j.orig, i + n, CRLF);
    AtBoth(j.orig, src, size + ext + CRLF, data);
    AtBoth(j.orig, src, size + ext + CRLF + data, CRLF);
  }

  /** A completed run that is in data has all of the chunk's data before it. */
  lemma DataFits(j: Journey, out: seq<Byte>, src: nat, n: nat)
    requires j.goal.verdict == Complete && n > 0 && Leads(j, out, src, Machine(InChunkData, n, 0))
    ensures src + n < |j.orig|
  {
    hide Finally;
    hide Pow16;
    var avail := |j.orig| - src;
    if avail == 0 {
      AtEnd(j, out, src, Machine(InChunkData, n, 0));
    } else if avail <= n {
      AdvanceData(j, out, src, Machine(InChunkData, n, 0), avail);
      AtEnd(j, out + j.orig[src..src + avail], src + avail, AfterData(Machine(InChunkData, n, 0), avail));
    }
  }

  lemma BlankSnoc(l: seq<Byte>, b: Byte)
    ensures BlankLine(l + [b]) <==> BlankLine(l) && b == '\r'
  {
    if BlankLine(l + [b]) {
      assert forall i :: 0 <= i < |l| ==> (l + [b])[i] == l[i];
      assert (l + [b])[|l|] == b;
    }
  }

  lemma ScanLine(j: Journey, out: seq<Byte>, src: nat, k: nat) returns (n: nat)
    requires j.goal.verdict == Complete && src + k <= |j.orig| && '\n' !in j.orig[src..src + k]
    requires var state := if BlankLine(j.orig[src..src + k]) then TrailersLineHead else TrailersLineMiddle;
             Leads(j, out, src + k, Machine(state, 0, 0))
    ensures src + n < |j.orig| && '\n' !in j.orig[src..src + n] && j.orig[src + n] == '\n'
    ensures !BlankLine(j.orig[src..src + n]) ==> Leads(j, out, src + n + 1, Machine(TrailersLineHead, 0, 0))
    ensures BlankLine(j.orig[src..src + n]) ==> j.goal.used == src + n + 1 && j.goal.out == out
    decreases |j.orig| - src - k
  {
    hide StepSize;
    hide StepExt;
    hide StepHeaderLf;
    hide StepData;
    hide Pow16;
    hide Finally;
    var line := j.orig[src..src + k];
    var m := Machine(if BlankLine(line) then TrailersLineHead else TrailersLineMiddle, 0, 0);
    if src + k == |j.orig| {
      AtEnd(j, out, src + k, m);
      assert false;
    } else if j.orig[src + k] == '\n' {
      n := k;
      if BlankLine(line) {
        StopAt(j, out, src + k, m, m);
      } else {
        Advance(j, out, src + k, m, Machine(TrailersLineHead, 0, 0));
      }
    } else {
      var line' := j.orig[src..src + (k + 1)];
      assert line' == line + [j.orig[src + k]];
      BlankSnoc(line, j.orig[src + k]);
      Advance(j, out, src + k, m, Machine(if BlankLine(line') then TrailersLineHead else TrailersLineMiddle, 0, 0));
      n := ScanLine(j, out, src, k + 1);
    }
  }

  lemma ScanLines(j: Journey, out: seq<Byte>, src: nat) returns (ls: seq<seq<Byte>>, blank: seq<Byte>)
    requires j.goal.verdict == Complete && Leads(j, out, src, Machine(TrailersLineHead, 0, 0))
    ensures (forall l :: l in ls ==> TrailerLine(l)) && BlankLine(blank)
    ensures At(j.orig, src, EncodeLines(ls) + (blank + ['\n']))
    ensures j.goal.used == src + |EncodeLines(ls) + (blank + ['\n'])| && j.goal.out == out
    decreases |j.orig| - src
  {
    hide Finally;
    assert j.orig[src..src] == [];
    var n := ScanLine(j, out, src, 0);
    var line := j.orig[src..src + n];
    assert At(j.orig, src, line + ['\n']);
    if BlankLine(line) {
      ls, blank := [], line;
      assert [] + (blank + ['\n']) == blank + ['\n'];
    } else {
      var more;
      more, blank := ScanLines(j, out, src + n + 1);
      ls := [line] + more;
      AtBoth(j.orig, src, line + ['\n'], EncodeLines(more) + (blank + ['\n']));
      assert EncodeLines(ls) + (blank + ['\n']) == line + ['\n'] + (EncodeLines(more) + (blank + ['\n']));
    }
  }

  lemma ScanEnd(j: Journey, out: seq<Byte>, src: nat, size: seq<Byte>, ext: seq<Byte>) returns (msg: Message)
    requires j.goal.verdict == Complete && Size(size) && HexValue(size) == 0 && Extension(ext)
    requires At(j.orig, src, size + ext + CRLF)
    requires Leads(j, out, src + |size| + |ext| + 1, Machine(HeaderExpectLf, 0, 0))
    ensures msg.Valid() && msg.chunks == []
    ensures At(j.orig, src, msg.Encode(j.trailer))
    ensures j.goal.used == src + |msg.Encode(j.trailer)| && j.goal.out == out
  {
    hide Finally;
    hide Pow16;
    hide HexValue;
    var last := size + ext + CRLF;
    var i := src + |last|;
    AtByte(j.orig, src, last, |last| - 1);
    var m := Machine(HeaderExpectLf, 0, 0);
    if j.trailer {
      Advance(j, out, i - 1, m, Machine(TrailersLineHead, 0, 0));
      var ls, blank := ScanLines(j, out, i);
      msg := Message([], size, ext, ls, blank);
      AtBoth(j.orig, src, last, msg.EncodeTrailer());
      assert msg.Encode(true) == last + msg.EncodeTrailer();
    } else {
      StopAt(j, out, i - 1, m, m);
      msg := Message([], size, ext, [], []);
      assert msg.Encode(false) == last;
    }
  }

  lemma ScanMessage(j: Journey, out: seq<Byte>, src: nat) returns (msg: Message)
    requires j.goal.verdict == Complete && Leads(j, out, src, INITIAL)
    ensures msg.Valid() && At(j.orig, src, msg.Encode(j.trailer))
    ensures j.goal.used == src + |msg.Encode(j.trailer)|
    decreases |j.orig| - src
  {
    hide At;
    hide HexDigits;
    hide Extension;
    hide Chunk.Valid;
    hide Chunk.Encode;
    hide Machine.Valid;
    hide DigitValue;
    hide StepByte;
    hide Finally;
    hide Pow16;
    hide HexValue;
    var size, ext := ScanHeader(j, out, src);
    if HexValue(size) == 0 {
      msg := ScanEnd(j, out, src, size, ext);
    } else {
      var c := ScanChunk(j, out, src, size, ext);
      var more := ScanMessage(j, out + c.data, src + |c.Encode()|);
      msg := more.(chunks := [c] + more.chunks);
      AtBoth(j.orig, src, c.Encode(), more.Encode(j.trailer));
      assert msg.Encode(j.trailer) == c.Encode() + more.Encode(j.trailer);
    }
  }

  /** The decoder completes on `s` exactly when `s` begins with the encoding of a message. */
  lemma CompletesExactlyOnMessages(s: seq<Byte>, trailer: bool)
    ensures Run(INITIAL, trailer, s).verdict == Complete <==>
            exists msg: Message :: msg.Valid() && msg.Encode(trailer) <= s
  {
    hide Run;
    hide Pow16;
    if Run(INITIAL, trailer, s).verdict == Complete {
      var msg := CompletedMessage(s, trailer);
    }
    if msg: Message :| msg.Valid() && msg.Encode(trailer) <= s {
      MessageCompletes(msg, s, trailer);
    }
  }

  lemma CompletedMessage(s: seq<Byte>, trailer: bool) returns (msg: Message)
    requires Run(INITIAL, trailer, s).verdict == Complete
    ensures msg.Valid() && msg.Encode(trailer) <= s
    ensures Run(INITIAL, trailer, s).used == |msg.Encode(trailer)|
    ensures Run(INITIAL, trailer, s).out == Payload(msg.chunks)
  {
    hide Run;
    hide Pow16;
    AtStart(INITIAL, trailer, s);
    msg := ScanMessage(Journey(trailer, s, Run(INITIAL, trailer, s)), [], 0);
    AtSlice(s, 0, msg.Encode(trailer));
    MessageCompletes(msg, s, trailer);
  }

  lemma MessageCompletes(msg: Message, s: seq<Byte>, trailer: bool)
    requires msg.Valid() && msg.Encode(trailer) <= s
    ensures Run(INITIAL, trailer, s).verdict == Complete
    ensures Run(INITIAL, trailer, s).out == Payload(msg.chunks)
  {
    hide DigitValue;
    hide DecodeHex;
    hide EndsSize;
    hide MayFollowSize;
    hide Run;
    hide Pow16;
    RoundTrip(msg, trailer, s[|msg.Encode(trailer)|..]);
    assert msg.Encode(trailer) + s[|msg.Encode(trailer)|..] == s;
  }

  // The overhead guard between three and four fifths.

  /** A chunk of 65535 bytes of which `n` have come, after an extension of `e` + 1 characters. */
  function Padded(e: nat, n: nat): (s: seq<Byte>)
    ensures |s| == e + 7 + n
  {
    "ffff" + ([';'] + seq(e, _ => 'x')) + CRLF + seq(n, _ => 'y')
  }

  lemma HexValueOfFour()
    ensures Size("ffff") && HexValue("ffff") == 65535
  {
    assert "ffff"[..3] == "fff" && "fff"[..2] == "ff" && "ff"[..1] == "f" && "f"[..0] == "";
    assert HexValue("") == 0;
    assert HexValue("f") == 15;
    assert HexValue("ff") == 255;
    assert HexValue("fff") == 4095;
  }

  lemma PaddedRun(e: nat, n: nat, trailer: bool)
    requires 0 < n <= 65535
    ensures var run := Run(INITIAL, trailer, Padded(e, n)); run.verdict == NeedMore && |run.out| == n
  {
    hide Finally;
    hide Run;
    hide Pow16;
    hide At;
    hide HexValue;
    hide DecodeHex;
    var s, ext, data := Padded(e, n), [';'] + seq(e, _ => 'x'), seq(n, _ => 'y');
    var j := Journey(trailer, s, Run(INITIAL, trailer, s));
    HexValueOfFour();
    AtStart(INITIAL, trailer, s);
    AtWhole(s);
    AtBoth(s, 0, "ffff" + ext + CRLF, data);
    ReadHeader(j, [], 0, "ffff", ext);
    var i := e + 7;
    Advance(j, [], i - 1, Machine(HeaderExpectLf, 65535, 0), Machine(InChunkData, 65535, 0));
    AdvanceData(j, [], i, Machine(InChunkData, 65535, 0), n);
    AtEnd(j, [] + s[i..i + n], i + n, AfterData(Machine(InChunkData, 65535, 0), n));
  }

  lemma AtWhole(s: seq<Byte>)
    ensures At(s, 0, s)
  {
  }

  /** An unfinished stream of which less than four fifths are framing, and on which the guard fires. */
  lemma GuardFiresBelowFourFifths(trailer: bool)
    ensures var s := Padded(102993, 30000);
            var r := Call(FRESH, trailer, s);
            && Run(INITIAL, trailer, s).verdict == NeedMore && r.ret == ERROR
            && |s| == 133000 && |r.out| == 30000 && (|s| - |r.out|) * 5 < |s| * 4
  {
    hide Run;
    hide Pow16;
    hide Padded;
    PaddedRun(102993, 30000, trailer);
  }
}
