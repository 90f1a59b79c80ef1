// Chunked bodies of other origin, and bodies that break off: what `read_content_chunked` makes of them.
module ChunkedExact {
  import opened Text
  import opened Streams
  import opened Chunked
  import opened Wrappers

  // The size line

  /** What `strtoul` gives for a value with a sign. */
  function Signed(sign: string, value: nat): nat {
    if value > ULONG_MAX then ULONG_MAX else if sign == "-" then (UINT64 - value) % UINT64 else value
  }

  /** Where the digits of a size end. */
  predicate Ends(h: string, rest: string) {
    && (rest != "" ==> HexValue(rest[0]).None?)
    && (h == "0" && rest != "" ==> rest[0] != 'x' && rest[0] != 'X')
  }

  lemma {:induction false} DigitsUpTo(h: string, rest: string)
    requires AllDigits(h) && (rest != "" ==> HexValue(rest[0]).None?)
    ensures DigitRun(h + rest) == |h|
  {
    if h == "" {
      assert h + rest == rest;
    } else {
      assert (h + rest)[1..] == h[1..] + rest;
      DigitsUpTo(h[1..], rest);
    }
  }

  predicate Prefixed(u: string) {
    |u| > 2 && u[0] == '0' && (u[1] == 'x' || u[1] == 'X') && HexValue(u[2]).Some?
  }

  /** Behind the spaces and the sign. */
  lemma Digits(u: string, prefix: string, h: string, rest: string)
    requires u == prefix + (h + rest) && prefix in {"", "0x", "0X"}
    requires h != "" && AllDigits(h) && Ends(h, rest)
    ensures (if Prefixed(u) then u[2..] else u) == h + rest
  {
    if prefix == "" {
      assert u == h + rest;
      if |h| > 1 { assert u[1] == h[1] && HexValue(h[1]).Some?; }
    } else {
      assert u[2..] == h + rest && u[2] == h[0] && HexValue(h[0]).Some?;
    }
  }

  lemma StrtoulOf(s: string, t: string, sign: string, u: string, v: string, h: string)
    requires SkipSpaces(s) == t && sign in {"", "+", "-"}
    requires if sign == "" then t == u && u != "" && u[0] != '+' && u[0] != '-' else t == sign + u
    requires v == if Prefixed(u) then u[2..] else u
    requires h != "" && DigitRun(v) == |h| && v[..|h|] == h
    ensures Strtoul(s) == Some(Signed(sign, Value(h)))
  {
    assert sign != "" ==> t[0] == sign[0] && t[1..] == u;
  }

  lemma NoSign(u: string, prefix: string, h: string, rest: string)
    requires u == prefix + (h + rest) && prefix in {"", "0x", "0X"} && h != "" && AllDigits(h)
    ensures u != "" && u[0] != '+' && u[0] != '-' && !IsSpace(u[0])
  {
    assert HexValue(h[0]).Some? && (h + rest)[0] == h[0];
    assert u[0] == if prefix == "" then h[0] else '0';
  }

  /** A size may have spaces, a sign and a prefix in front and anything behind it; one that does not fit 64 bits
      counts as the largest number, a negative one modulo 2 to the 64. */
  lemma SizeSpelled(sp: string, sign: string, prefix: string, h: string, rest: string)
    requires AllSpace(sp) && sign in {"", "+", "-"} && prefix in {"", "0x", "0X"}
    requires h != "" && AllDigits(h) && Ends(h, rest)
    ensures Strtoul(sp + (sign + (prefix + (h + rest)))) == Some(Signed(sign, Value(h)))
  {
    var u := prefix + (h + rest);
    var t := sign + u;
    NoSign(u, prefix, h, rest);
    assert t[0] == if sign == "" then u[0] else sign[0];
    SpacesSkipped(sp, t);
    Digits(u, prefix, h, rest);
    DigitsUpTo(h, rest);
    assert (h + rest)[..|h|] == h;
    if sign == "" {
      assert t == u;
    }
    StrtoulOf(sp + t, t, sign, u, h + rest, h);
  }

  /** Without a digit behind the spaces and the sign there is no size. */
  lemma NoSize(sp: string, sign: string, rest: string)
    requires AllSpace(sp) && sign in {"", "+", "-"} && (rest != "" ==> HexValue(rest[0]).None?)
    requires sign == "" && rest != "" ==> !IsSpace(rest[0]) && rest[0] != '+' && rest[0] != '-'
    ensures Strtoul(sp + (sign + rest)) == None
  {
    var t := sign + rest;
    if t == "" {
      AllSkipped(sp);
      assert sp + t == sp;
    } else {
      SpacesSkipped(sp, t);
      if sign == "" {
        assert t == rest;
      } else {
        assert t[1..] == rest;
      }
    }
  }

  lemma {:induction false} AllSkipped(sp: string)
    requires AllSpace(sp)
    ensures SkipSpaces(sp) == ""
  {
    if sp != "" {
      assert sp[0] in sp && forall c | c in sp[1..] :: c in sp;
      AllSkipped(sp[1..]);
    }
  }

  // Chunks as others write them: leading zeros, capitals, extensions

  /** A size as section 4.1 of RFC 7230 has it. */
  predicate SizeText(h: string, ext: string) {
    h != "" && AllDigits(h) && (ext != "" ==> ext[0] == ';') && '\n' !in ext
  }

  lemma SizeTextLine(h: string, ext: string, rest: string, fails: bool)
    requires SizeText(h, ext)
    ensures NextLine(h + ext + CRLF + rest, fails) == Line(true, h + ext + CRLF, rest)
    ensures Strtoul(h + ext + CRLF) == Some(if Value(h) > ULONG_MAX then ULONG_MAX else Value(h))
  {
    var more := ext + CRLF;
    NoFeed(h);
    LineWithCrlf(h + ext, rest, fails);
    assert more[0] == if ext == "" then '\r' else ';';
    SizeSpelled("", "", "", h, more);
    assert "" + ("" + ("" + (h + more))) == h + ext + CRLF;
  }

  lemma AtSizeLine(h: string, ext: string, d: string, fails: bool)
    requires SizeText(h, ext)
    ensures ReadChunked(h + ext + CRLF + d, fails) == ReadChunks(h + ext + CRLF, d, fails)
  {
    SizeTextLine(h, ext, d, fails);
  }

  /** Chunks, with any extension and however their size is spelled, are read; so is the last one. */
  lemma AnyChunk(h: string, ext: string, p: string, rest: string, fails: bool)
    requires SizeText(h, ext) && Value(h) == |p| < ULONG_MAX
    ensures ReadChunked(h + ext + CRLF + (p + (CRLF + rest)), fails)
         == if p == "" then Read(true, "", rest) else Prepend(p, ReadChunked(rest, fails))
  {
    var line := h + ext + CRLF;
    SizeTextLine(h, ext, p + (CRLF + rest), fails);
    AtSizeLine(h, ext, p + (CRLF + rest), fails);
    if p == "" {
      CrlfLine(rest, fails);
      assert p + (CRLF + rest) == CRLF + rest;
    } else {
      ChunkBody(line, p, rest, fails);
    }
  }

  /** A size of the largest 64-bit number or more ends the body as a failure before any of its data. */
  lemma HugeChunkRefused(h: string, ext: string, d: string, fails: bool)
    requires SizeText(h, ext) && Value(h) >= ULONG_MAX
    ensures ReadChunked(h + ext + CRLF + d, fails) == Read(false, "", d)
  {
    SizeTextLine(h, ext, d, fails);
    AtSizeLine(h, ext, d, fails);
  }

  // Bodies that break off

  /** What is on the wire for these portions and `done`. */
  function Wire(portions: seq<string>): string {
    if portions == [] then DONE_MARKER else Chunk(portions[0]) + Wire(portions[1..])
  }

  function Written(portions: seq<string>): seq<Event> {
    if portions == [] then [Done] else [Portion(portions[0])] + Written(portions[1..])
  }

  lemma {:induction false} WireIsEmitted(portions: seq<string>)
    ensures Wire(portions) == Emitted(Written(portions))
  {
    if portions == [] {
      assert [Done][1..] == [] && DONE_MARKER + "" == DONE_MARKER;
    } else {
      assert Written(portions)[1..] == Written(portions[1..]);
      WireIsEmitted(portions[1..]);
    }
  }

  function Joined(portions: seq<string>): string {
    if portions == [] then "" else portions[0] + Joined(portions[1..])
  }

  /** The first `k` characters of the wire end between the carriage return and the line feed that follow the data
      of some chunk. */
  predicate EndsInCr(portions: seq<string>, k: nat) {
    && portions != []
    && var p := portions[0];
       || (p != "" && k == |Hex(|p|)| + 2 + |p| + 1)
       || (k >= |Chunk(p)| && EndsInCr(portions[1..], k - |Chunk(p)|))
  }

  lemma NothingFollows(line: string, fails: bool)
    ensures var r := ReadChunks(line, "", fails); !r.ok && r.payload == ""
  {
  }

  lemma OpenLine(d: string, fails: bool)
    requires '\n' !in d
    ensures var r := ReadChunked(d, fails); !r.ok && r.payload == ""
  {
    LastLine(d, d, "", fails);
    assert d + "" == d;
    NothingFollows(d, fails);
  }

  lemma MarkerBroken(k: nat, fails: bool)
    requires k < |DONE_MARKER|
    ensures var r := ReadChunked(DONE_MARKER[..k], fails); !r.ok && r.payload == ""
  {
    var d := DONE_MARKER[..k];
    if k < 3 {
      assert '\n' !in d;
      OpenLine(d, fails);
    } else {
      var x := d[3..];
      assert Hex(0) == "0" && DONE_MARKER == (Hex(0) + CRLF) + CRLF;
      BackOf(d, Hex(0) + CRLF, CRLF);
      SizeLine(0, x, fails);
      SizeRoundTrip(0);
      HalfCrlf(x, fails);
    }
  }

  /** A line end that breaks off. */
  lemma HalfCrlf(x: string, fails: bool)
    requires x <= CRLF && x != CRLF
    ensures var l := NextLine(x, fails); (l.ok <==> x != "" && !fails) && !IsCrlf(l.text) && l.rest == ""
  {
    assert x == "" || x == "\r";
    assert x + "" == x;
    LastLine(x, x, "", fails);
  }

  /** Inside a chunk. */
  lemma ChunkBroken(p: string, d: string, fails: bool)
    requires p != "" && |p| < ULONG_MAX && d <= Chunk(p) && d != Chunk(p)
    ensures var r := ReadChunked(d, fails);
            && (r.ok <==> !fails && |d| == |Hex(|p|)| + 2 + |p| + 1)
            && r.payload <= p && (r.ok ==> r.payload == p)
  {
    var line := Hex(|p|) + CRLF;
    HexDigits(|p|);
    NoFeed(Hex(|p|));
    if |d| < |line| {
      FrontOf(d, Hex(|p|) + "\r", "\n" + p + CRLF);
      OpenLine(d, fails);
    } else {
      var x := d[|line|..];
      assert Chunk(p) == line + (p + CRLF);
      BackOf(d, line, p + CRLF);
      SizeLine(|p|, x, fails);
      SizeRoundTrip(|p|);
      DataBroken(line, p, x, fails);
    }
  }

  lemma FrontOf(d: string, a: string, b: string)
    requires d <= a + b && |d| <= |a| && '\n' !in a
    ensures '\n' !in d
  {
    assert d == a[..|d|];
  }

  lemma BackOf(d: string, a: string, b: string)
    requires d <= a + b && |a| <= |d|
    ensures d == a + d[|a|..] && d[|a|..] <= b
  {
    assert a == d[..|a|];
  }

  lemma DataBroken(line: string, p: string, x: string, fails: bool)
    requires Strtoul(line) == Some(|p|) && 0 < |p| < ULONG_MAX && x <= p + CRLF && x != p + CRLF
    ensures var r := ReadChunks(line, x, fails);
            && (r.ok <==> !fails && |x| == |p| + 1)
            && r.payload <= p && (r.ok ==> r.payload == p)
  {
    if |x| < |p| {
      assert x == p[..|x|];
    } else {
      BackOf(x, p, CRLF);
      assert x[..|p|] == p;
      HalfCrlf(x[|p|..], fails);
    }
  }

  lemma CutWire(p: string, rest: string, k: nat)
    requires k <= |Chunk(p) + rest|
    ensures var d := (Chunk(p) + rest)[..k];
            if k < |Chunk(p)| then d <= Chunk(p) && d != Chunk(p) else d == Chunk(p) + rest[..k - |Chunk(p)|]
  {
  }

  /** A body that breaks off is never delivered as anything but a front of its data, and it is accepted in exactly
      one kind of place: after a regular end of the stream between the carriage return and the line feed behind the
      data of a chunk. */
  lemma {:induction false} BrokenBody(portions: seq<string>, k: nat, fails: bool)
    requires k < |Wire(portions)| && forall p | p in portions :: |p| < ULONG_MAX
    ensures var r := ReadChunked(Wire(portions)[..k], fails);
            (r.ok <==> !fails && EndsInCr(portions, k)) && r.payload <= Joined(portions)
    decreases |portions|
  {
    if portions == [] {
      MarkerBroken(k, fails);
    } else {
      var p, rest := portions[0], Wire(portions[1..]);
      assert p in portions && forall q | q in portions[1..] :: q in portions;
      EndsHere(portions, k);
      if k < |Chunk(p)| {
        BrokenHere(p, rest, k, fails, Joined(portions[1..]));
      } else {
        BrokenBody(portions[1..], k - |Chunk(p)|, fails);
        BrokenLater(p, rest, k, fails, Joined(portions[1..]));
      }
    }
  }

  lemma BrokenHere(p: string, rest: string, k: nat, fails: bool, more: string)
    requires |p| < ULONG_MAX && k < |Chunk(p)|
    ensures var r := ReadChunked((Chunk(p) + rest)[..k], fails);
            && (r.ok <==> !fails && k == |Hex(|p|)| + 2 + |p| + 1)
            && r.payload <= p + more
  {
    CutWire(p, rest, k);
    ChunkBroken(p, (Chunk(p) + rest)[..k], fails);
  }

  lemma BrokenLater(p: string, rest: string, k: nat, fails: bool, more: string)
    requires |p| < ULONG_MAX && |Chunk(p)| <= k <= |Chunk(p) + rest|
    requires ReadChunked(rest[..k - |Chunk(p)|], fails).payload <= more
    ensures var r := ReadChunked((Chunk(p) + rest)[..k], fails);
            r.ok == ReadChunked(rest[..k - |Chunk(p)|], fails).ok && r.payload <= p + more
  {
    CutWire(p, rest, k);
    OneChunk(p, rest[..k - |Chunk(p)|], fails);
  }

  lemma EndsHere(portions: seq<string>, k: nat)
    requires portions != []
    ensures var p := portions[0];
      if k < |Chunk(p)| then EndsInCr(portions, k) <==> p != "" && k == |Hex(|p|)| + 2 + |p| + 1
      else EndsInCr(portions, k) <==> EndsInCr(portions[1..], k - |Chunk(p)|)
  {
  }

  /** A chunk, the carriage return behind it, and then nothing, is a complete body. */
  lemma CutBodyAccepted(p: string)
    requires 0 < |p| < ULONG_MAX
    ensures ReadChunked(Hex(|p|) + CRLF + p + "\r", false).ok
    ensures ReadChunked(Hex(|p|) + CRLF + p + "\r", false).payload == p
  {
    CutLineEnd(Hex(|p|) + CRLF + p);
    ChunkBroken(p, Hex(|p|) + CRLF + p + "\r", false);
  }

  lemma CutLineEnd(x: string)
    ensures x + "\r" <= x + CRLF && x + "\r" != x + CRLF
  {
    assert x + CRLF == x + "\r" + "\n";
  }
}
