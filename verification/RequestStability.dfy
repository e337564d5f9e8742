/** A verdict, once given, does not change when more bytes arrive. */
module RequestStability {
  import opened Bytes
  import opened RequestSpec

  /** `a` and `b` have the same first `n` bytes. */
  ghost predicate Agree(a: seq<Byte>, b: seq<Byte>, n: nat) {
    n <= |a| && n <= |b| && forall k :: 0 <= k < n ==> a[k] == b[k]
  }

  // Each scan looks no further than the byte it stops at: what it finds within the first `n` bytes of `b` it
  // also finds in any `a` that has them, and a refusal within all of `b` stands for every extension `a`.

  ghost predicate SameScan(found: Scan, other: Scan, n: nat, whole: bool) {
    && (found.Found? && found.pos < n ==> other == found)
    && (whole && found == Bad ==> other == Bad)
  }

  ghost predicate SameParse<T>(parsed: Parse<T>, other: Parse<T>, n: nat, whole: bool) {
    && (parsed.Ok? && parsed.pos <= n ==> other == parsed)
    && (whole && parsed == Err ==> other == Err)
  }

  lemma {:induction false} TokenLocal(a: seq<Byte>, b: seq<Byte>, n: nat, i: nat, next: Byte)
    requires Agree(a, b, n) && i <= n
    ensures SameScan(TokenEnd(b, i, next), TokenEnd(a, i, next), n, n == |b|)
    decreases n - i
  {
    if i < n {
      TokenLocal(a, b, n, i + 1, next);
    }
  }

  lemma {:induction false} PathLocal(a: seq<Byte>, b: seq<Byte>, n: nat, i: nat)
    requires Agree(a, b, n) && i <= n
    ensures SameScan(PathEnd(b, i), PathEnd(a, i), n, n == |b|)
    decreases n - i
  {
    if i < n {
      PathLocal(a, b, n, i + 1);
    }
  }

  lemma {:induction false} TextLocal(a: seq<Byte>, b: seq<Byte>, n: nat, i: nat)
    requires Agree(a, b, n) && i <= n
    ensures SameScan(TextEnd(b, i), TextEnd(a, i), n, n == |b|)
    decreases n - i
  {
    if i < n {
      TextLocal(a, b, n, i + 1);
    }
  }

  lemma {:induction false} SpacesLocal(a: seq<Byte>, b: seq<Byte>, n: nat, i: nat)
    requires Agree(a, b, n) && i <= n
    ensures SameScan(SpacesEnd(b, i), SpacesEnd(a, i), n, n == |b|)
    decreases n - i
  {
    if i < n {
      SpacesLocal(a, b, n, i + 1);
    }
  }

  lemma {:induction false} BlanksLocal(a: seq<Byte>, b: seq<Byte>, n: nat, i: nat)
    requires Agree(a, b, n) && i <= n
    ensures SameScan(BlanksEnd(b, i), BlanksEnd(a, i), n, n == |b|)
    decreases n - i
  {
    if i < n {
      BlanksLocal(a, b, n, i + 1);
    }
  }

  lemma NewlineLocal(a: seq<Byte>, b: seq<Byte>, n: nat, i: nat)
    requires Agree(a, b, n) && i <= n
    ensures Newline(b, i).Found? && Newline(b, i).pos <= n ==> Newline(a, i) == Newline(b, i)
    ensures n == |b| && Newline(b, i) == Bad ==> Newline(a, i) == Bad
  {
  }

  lemma {:induction false} TrimLocal(a: seq<Byte>, b: seq<Byte>, n: nat, start: nat, end: nat)
    requires Agree(a, b, n) && start <= end <= n
    ensures TrimEnd(a, start, end) == TrimEnd(b, start, end)
    decreases end
  {
    if start < end && IsBlank(b[end - 1]) {
      TrimLocal(a, b, n, start, end - 1);
    }
  }

  lemma {:induction false} SkipLocal(a: seq<Byte>, b: seq<Byte>, n: nat, i: nat, end: nat)
    requires Agree(a, b, n) && i <= end <= n
    ensures SkipSpaces(a, i, end) == SkipSpaces(b, i, end)
    decreases end - i
  {
    if i < end && b[i] == ' ' {
      SkipLocal(a, b, n, i + 1, end);
    }
  }

  lemma TextLineLocal(a: seq<Byte>, b: seq<Byte>, n: nat, i: nat)
    requires Agree(a, b, n) && i <= n
    ensures SameParse(TextLine(b, i), TextLine(a, i), n, n == |b|)
  {
    TextLocal(a, b, n, i);
    if TextEnd(b, i).Found? && TextEnd(b, i).pos < n {
      NewlineLocal(a, b, n, TextEnd(b, i).pos);
    }
  }

  lemma ValueLocal(a: seq<Byte>, b: seq<Byte>, n: nat, i: nat)
    requires Agree(a, b, n) && i <= n
    ensures SameParse(Value(b, i), Value(a, i), n, n == |b|)
  {
    TextLineLocal(a, b, n, i);
    var text := TextLine(b, i);
    if text.Ok? && text.pos <= n {
      TrimLocal(a, b, n, i, i + text.value.len);
    }
  }

  lemma HeaderLocal(a: seq<Byte>, b: seq<Byte>, n: nat, i: nat, first: bool)
    requires Agree(a, b, n) && i < n
    ensures SameParse(ParseHeader(b, i, first), ParseHeader(a, i, first), n, n == |b|)
  {
    hide TokenEnd;
    hide BlanksEnd;
    hide Value;
    if !first && IsBlank(b[i]) {
      ValueLocal(a, b, n, i);
    } else {
      TokenLocal(a, b, n, i, ':');
      var colon := TokenEnd(b, i, ':');
      if colon.Found? && colon.pos < n {
        BlanksLocal(a, b, n, colon.pos + 1);
        var v := BlanksEnd(b, colon.pos + 1);
        if v.Found? && v.pos < n {
          ValueLocal(a, b, n, v.pos);
        }
      }
    }
  }

  lemma {:induction false} HeadersLocal(a: seq<Byte>, b: seq<Byte>, n: nat, i: nat, count: nat, max: nat)
    requires Agree(a, b, n) && i <= n && count <= max
    ensures SameParse(ParseHeaders(b, i, count, max), ParseHeaders(a, i, count, max), n, n == |b|)
    decreases n - i
  {
    hide ParseHeader;
    hide Newline;
    if i < n {
      if b[i] == '\r' || b[i] == '\n' {
        NewlineLocal(a, b, n, i);
      } else if count < max {
        HeaderLocal(a, b, n, i, count == 0);
        var h := ParseHeader(b, i, count == 0);
        if h.Ok? && h.pos <= n {
          HeadersLocal(a, b, n, h.pos, count + 1, max);
        }
      }
    }
  }

  lemma VersionLocal(a: seq<Byte>, b: seq<Byte>, n: nat, i: nat)
    requires Agree(a, b, n) && i <= n
    ensures ParseVersion(b, i).Ok? && i + 9 <= n ==> ParseVersion(a, i) == ParseVersion(b, i)
    ensures n == |b| && ParseVersion(b, i) == Err ==> ParseVersion(a, i) == Err
  {
    if i + 9 <= n {
      assert a[i..i + 7] == b[i..i + 7];
    }
  }

  lemma RequestLineLocal(a: seq<Byte>, b: seq<Byte>, n: nat, i: nat)
    requires Agree(a, b, n) && i <= n
    ensures SameParse(ParseRequestLine(b, i), ParseRequestLine(a, i), n, n == |b|)
  {
    hide TokenEnd;
    hide SpacesEnd;
    hide PathEnd;
    hide Newline;
    hide ParseVersion;
    TokenLocal(a, b, n, i, ' ');
    var m := TokenEnd(b, i, ' ');
    if m.Found? && m.pos < n {
      SpacesLocal(a, b, n, m.pos + 1);
      var p := SpacesEnd(b, m.pos + 1);
      if p.Found? && p.pos < n {
        PathLocal(a, b, n, p.pos);
        var q := PathEnd(b, p.pos);
        if q.Found? && q.pos < n {
          SpacesLocal(a, b, n, q.pos + 1);
          var v := SpacesEnd(b, q.pos + 1);
          if v.Found? && v.pos < n {
            VersionLocal(a, b, n, v.pos);
            if v.pos + 8 <= n {
              NewlineLocal(a, b, n, v.pos + 8);
            }
          }
        }
      }
    }
  }

  lemma RequestLocal(a: seq<Byte>, b: seq<Byte>, n: nat, max: nat)
    requires Agree(a, b, n)
    ensures SameParse(ParseRequest(b, max), ParseRequest(a, max), n, n == |b|)
  {
    if b != [] && n > 0 {
      NewlineLocal(a, b, n, 0);
      var i := LeadingBlank(b);
      if i.Found? && i.pos <= n {
        RequestLineLocal(a, b, n, i.pos);
        var line := ParseRequestLine(b, i.pos);
        if line.Ok? && line.pos <= n {
          HeadersLocal(a, b, n, line.pos, 0, max);
        }
      }
    }
  }

  lemma StatusLineLocal(a: seq<Byte>, b: seq<Byte>, n: nat)
    requires Agree(a, b, n)
    ensures SameParse(ParseStatusLine(b), ParseStatusLine(a), n, n == |b|)
  {
    hide SpacesEnd;
    hide TextLine;
    hide SkipSpaces;
    hide ParseVersion;
    VersionLocal(a, b, n, 0);
    if ParseVersion(b, 0).Ok? && 9 <= n {
      SpacesLocal(a, b, n, 9);
      var s := SpacesEnd(b, 9);
      if s.Found? && s.pos + 4 <= n {
        TextLineLocal(a, b, n, s.pos + 3);
        var text := TextLine(b, s.pos + 3);
        if text.Ok? && text.pos <= n {
          SkipLocal(a, b, n, s.pos + 3, s.pos + 3 + text.value.len);
        }
      }
    }
  }

  lemma ResponseLocal(a: seq<Byte>, b: seq<Byte>, n: nat, max: nat)
    requires Agree(a, b, n)
    ensures SameParse(ParseResponse(b, max), ParseResponse(a, max), n, n == |b|)
  {
    StatusLineLocal(a, b, n);
    var line := ParseStatusLine(b);
    if line.Ok? && line.pos <= n {
      HeadersLocal(a, b, n, line.pos, 0, max);
    }
  }

  /** A request accepted or refused on `b` is accepted or refused, with the same result, on every extension;
      and acceptance depends on the consumed bytes alone. */
  lemma RequestStable(b: seq<Byte>, more: seq<Byte>, max: nat)
    ensures ParseRequest(b, max) != Partial ==> ParseRequest(b + more, max) == ParseRequest(b, max)
    ensures ParseRequest(b, max).Ok? ==>
              ParseRequest(b[..ParseRequest(b, max).pos], max) == ParseRequest(b, max)
  {
    RequestLocal(b + more, b, |b|, max);
    if ParseRequest(b, max).Ok? {
      RequestLocal(b[..ParseRequest(b, max).pos], b, ParseRequest(b, max).pos, max);
    }
  }

  /** The same for responses. */
  lemma ResponseStable(b: seq<Byte>, more: seq<Byte>, max: nat)
    ensures ParseResponse(b, max) != Partial ==> ParseResponse(b + more, max) == ParseResponse(b, max)
    ensures ParseResponse(b, max).Ok? ==>
              ParseResponse(b[..ParseResponse(b, max).pos], max) == ParseResponse(b, max)
  {
    ResponseLocal(b + more, b, |b|, max);
    if ParseResponse(b, max).Ok? {
      ResponseLocal(b[..ParseResponse(b, max).pos], b, ParseResponse(b, max).pos, max);
    }
  }
}
