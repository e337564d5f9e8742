/** The parser's procedures. They advance a position through a read-only buffer and fill a caller's header array;
    each is proved to return what the grammar functions say. `blocks` tells whether the build has block scans. */
module RequestParser {
  import opened Bytes
  import opened RequestSpec
  import opened RequestFastScan
  import opened Options

  /** `get_token_to_eol`. */
  method GetTextLine(b: seq<Byte>, start: nat, blocks: bool) returns (r: Parse<Slice>)
    requires start <= |b|
    ensures r == TextLine(b, start)
  {
    var end;
    if blocks {
      end := FindTextEndByBlocks(b, start);
    } else {
      end := FindTextEndByEights(b, start);
    }
    if end == More { return Partial; }
    var i := end.pos;
    if b[i] == '\r' {
      i := i + 1;
      if i == |b| { return Partial; }
      if b[i] != '\n' { return Err; }
      i := i + 1;
      r := Ok(Slice(start, i - 2 - start), i);
    } else if b[i] == '\n' {
      r := Ok(Slice(start, i - start), i + 1);
    } else {
      r := Err;
    }
  }

  method ExpectNewline(b: seq<Byte>, i: nat) returns (r: Scan)
    requires i < |b|
    ensures r == Newline(b, i)
  {
    if b[i] == '\r' {
      if i + 1 == |b| { return More; }
      if b[i + 1] != '\n' { return Bad; }
      r := Found(i + 2);
    } else if b[i] == '\n' {
      r := Found(i + 1);
    } else {
      r := Bad;
    }
  }

  method SkipBlanks(b: seq<Byte>, start: nat) returns (r: Scan)
    requires start <= |b|
    ensures r == BlanksEnd(b, start)
  {
    var i := start;
    while true
      invariant start <= i <= |b| && BlanksEnd(b, start) == BlanksEnd(b, i)
      decreases |b| - i
    {
      if i == |b| { return More; }
      if !(b[i] == ' ' || b[i] == '\t') { return Found(i); }
      i := i + 1;
    }
  }

  /** Moves past the character at `start` and the spaces after it. */
  method SkipGap(b: seq<Byte>, start: nat) returns (r: Scan)
    requires start < |b|
    ensures r == SpacesEnd(b, start + 1)
  {
    var i := start + 1;
    if i == |b| { return More; }
    while b[i] == ' '
      invariant start < i < |b| && SpacesEnd(b, start + 1) == SpacesEnd(b, i)
      decreases |b| - i
    {
      i := i + 1;
      if i == |b| { return More; }
    }
    r := Found(i);
  }

  method TrimValue(b: seq<Byte>, start: nat, len: nat) returns (end: nat)
    requires start + len <= |b|
    ensures end == TrimEnd(b, start, start + len)
  {
    end := start + len;
    while end != start
      invariant start <= end <= start + len
      invariant TrimEnd(b, start, start + len) == TrimEnd(b, start, end)
    {
      var c := b[end - 1];
      if !(c == ' ' || c == '\t') { break; }
      end := end - 1;
    }
  }

  /** Parses header lines into `headers`, whose length is the number of headers accepted. */
  method ParseHeaderBlock(b: seq<Byte>, start: nat, headers: array<Header>, blocks: bool) returns (r: Scan, num: nat)
    requires start <= |b| && IsBytes(b)
    modifies headers
    ensures num <= headers.Length
    ensures match ParseHeaders(b, start, 0, headers.Length)
            case Ok(hs, end) => r == Found(end) && headers[..num] == hs
            case Err => r == Bad
            case Partial => r == More
  {
    ghost var goal := ParseHeaders(b, start, 0, headers.Length);
    var i := start;
    num := 0;
    FollowingNone(goal);
    assert headers[..0] == [];
    while true
      invariant start <= i <= |b| && num <= headers.Length
      invariant goal == Following(headers[..num], ParseHeaders(b, i, num, headers.Length))
      decreases |b| - i
    {
      if i == |b| { return More, num; }
      if b[i] == '\r' || b[i] == '\n' {
        r := ExpectNewline(b, i);
        return;
      }
      if num == headers.Length { return Bad, num; }
      var h := ParseHeaderLine(b, i, num == 0, blocks);
      if h == Err { return Bad, num; }
      if h == Partial { return More, num; }
      ghost var before := headers[..num];
      ghost var rest := ParseHeaders(b, h.pos, num + 1, headers.Length);
      headers[num] := h.value;
      i := h.pos;
      num := num + 1;
      assert headers[..num] == before + [h.value];
      FollowingTwice(before, h.value, rest);
    }
  }

  /** A parse that has `hs` before it. */
  ghost function Following(hs: seq<Header>, r: Parse<seq<Header>>): Parse<seq<Header>> {
    match r
    case Ok(more, end) => Ok(hs + more, end)
    case failure => failure
  }

  lemma FollowingNone(r: Parse<seq<Header>>)
    ensures Following([], r) == r
  {
    if r.Ok? {
      assert [] + r.value == r.value;
    }
  }

  lemma FollowingTwice(hs: seq<Header>, h: Header, r: Parse<seq<Header>>)
    ensures Following(hs, Following([h], r)) == Following(hs + [h], r)
  {
    if r.Ok? {
      assert hs + ([h] + r.value) == hs + [h] + r.value;
    }
  }

  method ParseHeaderLine(b: seq<Byte>, start: nat, first: bool, blocks: bool) returns (r: Parse<Header>)
    requires start < |b| && IsBytes(b)
    ensures r == ParseHeader(b, start, first)
  {
    hide TokenEnd;
    hide BlanksEnd;
    hide TextLine;
    hide TrimEnd;
    var i := start;
    var name := None;
    if !(!first && (b[i] == ' ' || b[i] == '\t')) {
      var colon := ParseToken(b, i, ':', blocks);
      if colon == Bad { return Err; }
      if colon == More { return Partial; }
      if colon.pos == i { return Err; }
      name := Some(Slice(i, colon.pos - i));
      var v := SkipBlanks(b, colon.pos + 1);
      if v == More { return Partial; }
      i := v.pos;
    }
    var text := GetTextLine(b, i, blocks);
    if text == Err { return Err; }
    if text == Partial { return Partial; }
    var end := TrimValue(b, i, text.value.len);
    r := Ok(Header(name, Slice(i, end - i)), text.pos);
  }

  method GetVersion(b: seq<Byte>, i: nat) returns (r: Parse<nat>)
    requires i <= |b|
    ensures r == ParseVersion(b, i)
  {
    if |b| - i < 9 { return Partial; }
    assert b[i..i + 7] == HTTP_1 <==> forall k :: 0 <= k < 7 ==> b[i + k] == HTTP_1[k];
    if b[i] != 'H' || b[i + 1] != 'T' || b[i + 2] != 'T' || b[i + 3] != 'P' || b[i + 4] != '/'
       || b[i + 5] != '1' || b[i + 6] != '.' {
      return Err;
    }
    if b[i + 7] < '0' || '9' < b[i + 7] { return Err; }
    r := Ok(b[i + 7] as int - '0' as int, i + 8);
  }

  method GetRequestLine(b: seq<Byte>, start: nat, blocks: bool) returns (r: Parse<Request>)
    requires start <= |b| && IsBytes(b)
    ensures r == ParseRequestLine(b, start)
  {
    var m := ParseToken(b, start, ' ', blocks);
    if m == Bad { return Err; }
    if m == More { return Partial; }
    var p := SkipGap(b, m.pos);
    if p == More { return Partial; }
    var q := AdvancePath(b, p.pos, blocks);
    if q == Bad { return Err; }
    if q == More { return Partial; }
    var v := SkipGap(b, q.pos);
    if v == More { return Partial; }
    var verb, path := Slice(start, m.pos - start), Slice(p.pos, q.pos - p.pos);
    if verb.len == 0 || path.len == 0 { return Err; }
    var version := GetVersion(b, v.pos);
    if version == Err { return Err; }
    if version == Partial { return Partial; }
    var n := ExpectNewline(b, version.pos);
    r := match n
         case Found(pos) => Ok(Request(verb, path, version.value, []), pos)
         case Bad => Err
         case More => Partial;
  }

  /** `is_complete`. */
  method PreScan(b: seq<Byte>, lastLen: nat) returns (r: Scan)
    requires lastLen <= |b|
    ensures r == IsComplete(b, lastLen)
  {
    var seen := 0;
    var i := if lastLen < 3 then 0 else lastLen - 3;
    ghost var goal := IsComplete(b, lastLen);
    while true
      invariant 0 <= i <= |b| && 0 <= seen < 2 && goal == CompleteFrom(b, i, seen)
      decreases |b| - i
    {
      if i == |b| { return More; }
      if b[i] == '\r' {
        i := i + 1;
        if i == |b| { return More; }
        if b[i] != '\n' { return Bad; }
        i := i + 1;
        seen := seen + 1;
      } else if b[i] == '\n' {
        i := i + 1;
        seen := seen + 1;
      } else {
        i := i + 1;
        seen := 0;
      }
      if seen == 2 { return Found(i); }
    }
  }

  /** Returns the number of bytes consumed, -1 for a malformed request, or -2 for a partial one. */
  method PhrParseRequest(b: seq<Byte>, headers: array<Header>, lastLen: nat, blocks: bool)
    returns (ret: int, line: Request, num: nat)
    requires lastLen <= |b| && IsBytes(b)
    modifies headers
    ensures num <= headers.Length
    ensures var r := WithPreScan(b, lastLen, ParseRequest(b, headers.Length));
            && ret == (match r case Ok(_, pos) => pos case Err => -1 case Partial => -2)
            && (r.Ok? ==> r.value == line.(headers := headers[..num]))
  {
    line := Request(Slice(0, 0), Slice(0, 0), 0, []);
    num := 0;
    if lastLen != 0 {
      var complete := PreScan(b, lastLen);
      if complete == Bad { return -1, line, 0; }
      if complete == More { return -2, line, 0; }
    }
    if |b| == 0 { return -2, line, 0; }
    var i := 0;
    if b[0] == '\r' || b[0] == '\n' {
      var blank := ExpectNewline(b, 0);
      if blank == Bad { return -1, line, 0; }
      if blank == More { return -2, line, 0; }
      i := blank.pos;
    }
    var parsed := GetRequestLine(b, i, blocks);
    if parsed == Err { return -1, line, 0; }
    if parsed == Partial { return -2, line, 0; }
    line := parsed.value;
    var end;
    end, num := ParseHeaderBlock(b, parsed.pos, headers, blocks);
    ret := match end
           case Found(pos) => pos
           case Bad => -1
           case More => -2;
  }

  method GetStatusLine(b: seq<Byte>, blocks: bool) returns (r: Parse<Response>)
    ensures r == ParseStatusLine(b)
  {
    hide SpacesEnd;
    hide SkipSpaces;
    hide TextEnd;
    hide ParseVersion;
    var version := GetVersion(b, 0);
    if version == Err { return Err; }
    if version == Partial { return Partial; }
    if b[version.pos] != ' ' { return Err; }
    var s := SkipGap(b, version.pos);
    if s == More { return Partial; }
    var i := s.pos;
    if |b| - i < 4 { return Partial; }
    if !IsDigit(b[i]) || !IsDigit(b[i + 1]) || !IsDigit(b[i + 2]) { return Err; }
    var status := 100 * Digit(b[i]);
    status := status + 10 * Digit(b[i + 1]);
    status := status + Digit(b[i + 2]);
    var text := GetTextLine(b, i + 3, blocks);
    if text == Err { return Err; }
    if text == Partial { return Partial; }
    var msg := text.value;
    if msg.len != 0 {
      if b[msg.start] != ' ' { return Err; }
      msg := SkipMessageSpaces(b, msg);
    }
    r := Ok(Response(version.value, status, msg, []), text.pos);
  }

  method SkipMessageSpaces(b: seq<Byte>, text: Slice) returns (msg: Slice)
    requires text.start <= |b| && TextEnd(b, text.start) == Found(text.start + text.len)
    ensures var end := text.start + text.len;
            var start := SkipSpaces(b, text.start, end);
            msg == Slice(start, end - start)
  {
    msg := text;
    ghost var end := text.start + text.len;
    TextStopped(b, text.start);
    while b[msg.start] == ' '
      invariant text.start <= msg.start && msg.start + msg.len == end
      invariant SkipSpaces(b, text.start, end) == SkipSpaces(b, msg.start, end)
      decreases msg.len
    {
      msg := Slice(msg.start + 1, msg.len - 1);
    }
  }

  /** A text is followed by a character that is not a space, so skipping spaces stops at its end. */
  lemma {:induction false} TextStopped(b: seq<Byte>, i: nat)
    requires i <= |b| && TextEnd(b, i).Found?
    ensures EndsText(b[TextEnd(b, i).pos])
    decreases |b| - i
  {
    if !EndsText(b[i]) {
      TextStopped(b, i + 1);
    }
  }

  method PhrParseResponse(b: seq<Byte>, headers: array<Header>, lastLen: nat, blocks: bool)
    returns (ret: int, line: Response, num: nat)
    requires lastLen <= |b| && IsBytes(b)
    modifies headers
    ensures num <= headers.Length
    ensures var r := WithPreScan(b, lastLen, ParseResponse(b, headers.Length));
            && ret == (match r case Ok(_, pos) => pos case Err => -1 case Partial => -2)
            && (r.Ok? ==> r.value == line.(headers := headers[..num]))
  {
    line := Response(0, 0, Slice(0, 0), []);
    num := 0;
    if lastLen != 0 {
      var complete := PreScan(b, lastLen);
      if complete == Bad { return -1, line, 0; }
      if complete == More { return -2, line, 0; }
    }
    var parsed := GetStatusLine(b, blocks);
    if parsed == Err { return -1, line, 0; }
    if parsed == Partial { return -2, line, 0; }
    line := parsed.value;
    var end;
    end, num := ParseHeaderBlock(b, parsed.pos, headers, blocks);
    ret := match end
           case Found(pos) => pos
           case Bad => -1
           case More => -2;
  }

  method PhrParseHeaders(b: seq<Byte>, headers: array<Header>, lastLen: nat, blocks: bool) returns (ret: int, num: nat)
    requires lastLen <= |b| && IsBytes(b)
    modifies headers
    ensures num <= headers.Length
    ensures var r := WithPreScan(b, lastLen, ParseHeaders(b, 0, 0, headers.Length));
            && ret == (match r case Ok(_, pos) => pos case Err => -1 case Partial => -2)
            && (r.Ok? ==> headers[..num] == r.value)
  {
    num := 0;
    if lastLen != 0 {
      var complete := PreScan(b, lastLen);
      if complete == Bad { return -1, 0; }
      if complete == More { return -2, 0; }
    }
    var end;
    end, num := ParseHeaderBlock(b, 0, headers, blocks);
    ret := match end
           case Found(pos) => pos
           case Bad => -1
           case More => -2;
  }
}
