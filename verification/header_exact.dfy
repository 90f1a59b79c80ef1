// Exactly which headers come back from `write_headers` and `read_headers` of `comm/httplib.h` as they were.
module HeaderExact {
  import opened Text
  import opened Url
  import opened Streams
  import opened HeaderBlock

  /** What a caller has to see to before a header is written. */
  predicate Kept(h: Header) {
    ':' !in h.0 && '\n' !in h.0 && '\n' !in h.1 && Intact(h)
  }

  ghost predicate AllKept(hs: seq<Header>) { forall i | 0 <= i < |hs| :: Kept(hs[i]) }

  // What the reader can make of a text

  function Size(h: Header): nat { |h.0| + |h.1| }

  /** A key that can have been read. */
  predicate KeyRead(h: Header) { ':' !in h.0 && '\n' !in h.0 }

  ghost predicate KeysRead(hs: seq<Header>) { forall i | 0 <= i < |hs| :: KeyRead(hs[i]) }

  lemma LineWeight(line: string)
    ensures Weight(ParseLine(line)) <= |line|
    ensures '\n' !in line ==> KeysRead(ParseLine(line))
  {
    var t := TrimRight(line);
    var k := Colon(t);
    StrippedShrinks(line);
    TrimmedMembers(line);
    if k < |t| {
      var v := TrimLeft(t[k + 1..]);
      StrippedShrinks(t[k + 1..]);
      DecodesToItself(v, false);
      if v != "" {
        assert ParseLine(line)[1..] == [];
      }
    }
  }

  lemma {:induction false} TrimmedMembers(s: string)
    ensures forall c | c in TrimRight(s) :: c in s
  {
    if s != "" {
      TrimmedMembers(s[..|s| - 1]);
    }
  }

  lemma {:induction false} KeysAreRead(d: string, fails: bool)
    ensures KeysRead(ReadBlock(d, fails).headers)
    decreases |d|
  {
    hide ParseLine;
    var l := NextLine(d, fails);
    if l.ok && !(EndsWithCrlf(l.text) && |l.text| == 2) {
      KeysAreRead(l.rest, fails);
      if EndsWithCrlf(l.text) {
        var line := l.text[..|l.text| - 2];
        LineEndIsFirst(d);
        assert line == d[..|l.text| - 1][..|l.text| - 2];
        LineWeight(line);
      }
    }
  }

  /** At the next line feed of a text that the reader goes through. */
  lemma NextFeed(a: string, rest: string, fails: bool)
    requires '\n' !in a
    ensures var b := ReadBlock(a + "\n" + rest, fails);
            || b == ReadBlock(rest, fails)
            || b.headers == []
            || (a != "" && a[|a| - 1] == '\r' && b == Onto(ParseLine(a[..|a| - 1]), ReadBlock(rest, fails)))
  {
    LineWithFeed(a, rest, fails);
    if EndsWithCrlf(a + "\n") {
      assert (a + "\n")[..|a| - 1] == a[..|a| - 1];
    }
  }

  lemma FirstFeed(t: string) returns (a: string, b: string)
    requires '\n' in t
    ensures t == a + "\n" + b && '\n' !in a
    decreases t
  {
    if t[0] == '\n' {
      a, b := "", t[1..];
    } else {
      assert t == [t[0]] + t[1..];
      var c;
      c, b := FirstFeed(t[1..]);
      a := [t[0]] + c;
    }
  }

  lemma FeedThenRest(a: string, b: string, x: string)
    ensures a + "\n" + b + x == a + "\n" + (b + x)
  {
  }

  /** Whatever a text holds, the headers read from it hold no more characters. */
  lemma {:induction false} TextWeight(t: string, rest: string, fails: bool)
    ensures Weight(ReadBlock(t + (CRLF + rest), fails).headers) <= |t| + Weight(ReadBlock(rest, fails).headers)
    decreases |t|
  {
    var q := ReadBlock(rest, fails);
    if '\n' in t {
      var a, b := FirstFeed(t);
      FeedThenRest(a, b, CRLF + rest);
      var more := b + (CRLF + rest);
      NextFeed(a, more, fails);
      TextWeight(b, rest, fails);
      if a != "" {
        LineWeight(a[..|a| - 1]);
        WeightParts(ParseLine(a[..|a| - 1]), ReadBlock(more, fails).headers);
      }
    } else if t == "" {
      assert t + (CRLF + rest) == CRLF + rest;
      BlankLine(rest, fails);
    } else {
      Assoc(t, CRLF, rest);
      OneLine(t, rest, fails);
      LineWeight(t);
      WeightParts(ParseLine(t), q.headers);
    }
  }

  // What it makes of a printed header

  lemma ParsedWeight(k: string, v: string)
    requires ':' !in k
    ensures Weight(ParseLine(k + ": " + v)) <= |k| + |v|
  {
    ParsesAs(k, v);
    ValueShrinks(v);
    assert ParseLine(k + ": " + v) != [] ==> ParseLine(k + ": " + v)[1..] == [];
  }

  lemma SplitLine(k: string, a: string, b: string, rest: string)
    ensures k + ": " + (a + "\n" + b) + CRLF + rest == (k + ": " + a) + "\n" + (b + (CRLF + rest))
    ensures a != "" ==> (k + ": " + a)[..|k + ": " + a| - 1] == k + ": " + a[..|a| - 1]
  {
  }

  lemma OntoWeight(line: string, b: Block, q: Block)
    requires b == Onto(ParseLine(line), q)
    ensures Weight(b.headers) == Weight(ParseLine(line)) + Weight(q.headers)
  {
    WeightParts(ParseLine(line), q.headers);
  }

  /** A value with a line feed loses it. */
  lemma BrokenHeader(k: string, v: string, rest: string, fails: bool)
    requires ':' !in k && '\n' !in k && '\n' in v
    ensures Weight(ReadBlock(k + ": " + v + CRLF + rest, fails).headers)
          < |k| + |v| + Weight(ReadBlock(rest, fails).headers)
  {
    var a, b := FirstFeed(v);
    SplitLine(k, a, b, rest);
    var more, line := b + (CRLF + rest), k + ": " + a;
    NextFeed(line, more, fails);
    TextWeight(b, rest, fails);
    var r, q := ReadBlock(line + "\n" + more, fails), ReadBlock(more, fails);
    if a == "" {
      assert line[|line| - 1] == ' ';
    } else if r == Onto(ParseLine(line[..|line| - 1]), q) {
      ParsedWeight(k, a[..|a| - 1]);
      OntoWeight(line[..|line| - 1], r, q);
    }
  }

  /** A header that could be read loses nothing only if its text is one line, and then if it is dropped empty
      or arrives intact. */
  lemma HeaderWeight(h: Header, rest: string, fails: bool)
    requires KeyRead(h)
    ensures var r, q := ReadBlock(HeaderLine(h) + rest, fails), ReadBlock(rest, fails);
            && Weight(r.headers) <= Size(h) + Weight(q.headers)
            && (Weight(r.headers) == Size(h) + Weight(q.headers) ==> Sendable(h) && (Intact(h) || Arrives(h) == []))
  {
    var k, v := CString(h.0), CString(h.1);
    assert ':' !in k && '\n' !in k;
    if '\n' in v {
      BrokenHeader(k, v, rest, fails);
    } else {
      OneHeader(h, rest, fails);
      WeightParts(Arrives(h), ReadBlock(rest, fails).headers);
      ArrivesWeight(h);
    }
  }

  lemma ValueShrinks(v: string)
    ensures var w := Decode(Stripped(v), false); |w| <= |v| && (|w| == |v| ==> w == v)
  {
    StrippedShrinks(v);
    StrippedShrinks(TrimRight(v));
    DecodesToItself(Stripped(v), false);
  }

  lemma SamePrefix(s: string, t: string)
    requires s <= t && |s| == |t|
    ensures s == t
  {
  }

  lemma ArrivesWeight(h: Header)
    ensures Weight(Arrives(h)) <= Size(h)
    ensures Weight(Arrives(h)) == Size(h) ==> Intact(h) || Arrives(h) == []
  {
    var k, v := CString(h.0), CString(h.1);
    ValueShrinks(v);
    if Arrives(h) != [] {
      var a := Arrives(h)[0];
      assert Arrives(h) == [a] && [a][1..] == [] && Weight([a]) == |a.0| + |a.1|;
      if Weight(Arrives(h)) == Size(h) {
        SamePrefix(k, h.0);
        SamePrefix(v, h.1);
        UnchangedExactly(h);
      }
    }
  }

  lemma {:induction false} BlockWeight(hs: seq<Header>, x: string, fails: bool)
    requires KeysRead(hs)
    ensures var r := ReadBlock(HeaderLines(hs) + (CRLF + x), fails);
            && Weight(r.headers) <= Weight(hs)
            && (Weight(r.headers) == Weight(hs) ==>
                  forall i | 0 <= i < |hs| :: Sendable(hs[i]) && (Intact(hs[i]) || Arrives(hs[i]) == []))
  {
    if hs == [] {
      assert HeaderLines(hs) + (CRLF + x) == CRLF + x;
      BlankLine(x, fails);
    } else {
      var rest := HeaderLines(hs[1..]) + (CRLF + x);
      Assoc(HeaderLine(hs[0]), HeaderLines(hs[1..]), CRLF + x);
      BlockWeight(hs[1..], x, fails);
      HeaderWeight(hs[0], rest, fails);
      assert forall i | 0 < i < |hs| :: hs[i] == hs[1..][i - 1];
    }
  }

  // The law

  lemma {:induction false} AllArrive(hs: seq<Header>)
    ensures |ArriveAll(hs)| <= |hs|
    ensures |ArriveAll(hs)| == |hs| ==> forall i | 0 <= i < |hs| :: Arrives(hs[i]) != []
  {
    if hs != [] {
      AllArrive(hs[1..]);
      assert forall i | 0 < i < |hs| :: hs[i] == hs[1..][i - 1];
    }
  }

  lemma {:induction false} ArriveKept(hs: seq<Header>)
    requires AllKept(hs)
    ensures ArriveAll(hs) == hs
  {
    if hs != [] {
      UnchangedExactly(hs[0]);
      assert forall i | 0 <= i < |hs[1..]| :: hs[1..][i] == hs[i + 1];
      ArriveKept(hs[1..]);
      assert hs == [hs[0]] + hs[1..];
    }
  }

  lemma KeptIsSendable(hs: seq<Header>)
    requires AllKept(hs)
    ensures AllSendable(hs)
  {
  }

  lemma KeptArrive(hs: seq<Header>, x: string, fails: bool)
    requires AllKept(hs)
    ensures ReadBlock(HeaderLines(hs) + (CRLF + x), fails) == Block(true, hs, x)
  {
    KeptIsSendable(hs);
    LinesRoundTrip(hs, x, fails);
    ArriveKept(hs);
  }

  /** If as many headers come back, with keys that can be read and with as many characters, then all of them
      were fit for it. */
  lemma NothingLost(hs: seq<Header>, x: string, fails: bool)
    requires KeysRead(hs)
    requires var r := ReadBlock(HeaderLines(hs) + (CRLF + x), fails).headers;
             |r| == |hs| && Weight(r) == Weight(hs)
    ensures AllKept(hs)
  {
    BlockWeight(hs, x, fails);
    LinesRoundTrip(hs, x, fails);
    AllArrive(hs);
    forall i | 0 <= i < |hs|
      ensures Kept(hs[i])
    {
      assert Sendable(hs[i]) && Arrives(hs[i]) != [] && KeyRead(hs[i]);
      UnchangedExactly(hs[i]);
    }
  }

  /** Written and read, any headers whatever come back as they were exactly when every key holds no colon, line
      feed or NUL and every value is not empty and holds no line feed, NUL, escape or outer blank; reading then
      stops right behind the block. */
  lemma RoundTripExact(hs: seq<Header>, x: string, fails: bool)
    ensures ReadBlock(HeaderLines(hs) + (CRLF + x), fails).headers == hs <==> AllKept(hs)
    ensures ReadBlock(HeaderLines(hs) + (CRLF + x), fails) == Block(true, hs, x) <==> AllKept(hs)
  {
    var r := ReadBlock(HeaderLines(hs) + (CRLF + x), fails);
    if AllKept(hs) {
      KeptArrive(hs, x, fails);
    }
    if r.headers == hs {
      KeysAreRead(HeaderLines(hs) + (CRLF + x), fails);
      NothingLost(hs, x, fails);
    }
  }

  lemma WrittenExact(info: seq<Header>, extra: seq<Header>, x: string, fails: bool)
    ensures var hs := Shown(info) + extra;
            ReadBlock(Written(info, extra) + x, fails) == Block(true, hs, x) <==> AllKept(hs)
  {
    var hs := Shown(info) + extra;
    Assoc(HeaderLines(hs), CRLF, x);
    RoundTripExact(hs, x, fails);
  }

  // The map at the other end

  lemma {:induction false} EmplaceWeight(hs: seq<Header>, h: Header)
    ensures var r := Emplace(hs, h);
            && |r| == |hs| + 1 && Weight(r) == Weight(hs) + Size(h)
            && (KeysRead(hs) && KeyRead(h) ==> KeysRead(r))
  {
    var r := Emplace(hs, h);
    if hs == [] {
      assert r[1..] == [];
    } else if Less(h.0, hs[0].0) {
      assert r[1..] == hs;
    } else {
      EmplaceWeight(hs[1..], h);
      assert r[1..] == Emplace(hs[1..], h);
      assert forall i | 0 <= i < |hs[1..]| :: hs[1..][i] == hs[i + 1];
      assert forall i | 0 < i < |r| :: r[i] == r[1..][i - 1];
    }
  }

  lemma {:induction false} EmplaceAllWeight(hs: seq<Header>, more: seq<Header>)
    ensures var r := EmplaceAll(hs, more);
            && |r| == |hs| + |more| && Weight(r) == Weight(hs) + Weight(more)
            && (KeysRead(hs) && KeysRead(more) ==> KeysRead(r))
    decreases |more|
  {
    if more != [] {
      EmplaceWeight(hs, more[0]);
      EmplaceAllWeight(Emplace(hs, more[0]), more[1..]);
      assert forall i | 0 <= i < |more[1..]| :: more[1..][i] == more[i + 1];
    }
  }

  /** The receiver's map is the sender's, repeated keys and their order included, exactly under the same
      condition. */
  lemma SameMapExactly(info: seq<Header>, x: string, fails: bool)
    requires Sorted(Shown(info))
    ensures EmplaceAll([], ReadBlock(Written(info, []) + x, fails).headers) == Shown(info) <==> AllKept(Shown(info))
  {
    var hs := Shown(info);
    var d := HeaderLines(hs) + (CRLF + x);
    assert hs + [] == hs && [] + hs == hs;
    Assoc(HeaderLines(hs), CRLF, x);
    var r := ReadBlock(d, fails).headers;
    if AllKept(hs) {
      KeptArrive(hs, x, fails);
      EmplaceSorted([], hs);
    }
    if EmplaceAll([], r) == hs {
      EmplaceAllWeight([], r);
      KeysAreRead(d, fails);
      NothingLost(hs, x, fails);
    }
  }

  // Headers that can be set and that come back changed

  /** A colon in a key cuts it short; what follows goes to the value. */
  lemma ColonCutsKey(p: string, q: string, v: string, x: string, fails: bool)
    requires ':' !in p && '\n' !in p + q + v && '\0' !in p + q + v
    ensures var w := Stripped(q + ": " + v);
            ReadBlock(HeaderLines([(p + ":" + q, v)]) + (CRLF + x), fails)
            == Block(true, if w == "" then [] else [(p, Decode(w, false))], x)
  {
    var k, w := p + ":" + q, q + ": " + v;
    WholeKey(p, q, v);
    var t := p + ":" + w;
    assert k + ": " + v == t;
    assert HeaderLines([(k, v)]) == t + CRLF + HeaderLines([]);
    assert HeaderLines([(k, v)]) + (CRLF + x) == t + CRLF + (CRLF + x);
    OneLine(t, CRLF + x, fails);
    BlankLine(x, fails);
    ParsesAtColon(p, w);
    assert ParseLine(t) + [] == ParseLine(t);
  }

  lemma WholeKey(p: string, q: string, v: string)
    requires '\0' !in p + q + v
    ensures CString(p + ":" + q) == p + ":" + q && CString(v) == v
  {
    assert forall c | c in p + ":" + q :: c in p + q + v || c == ':';
    assert forall c | c in v :: c in p + q + v;
  }

  lemma ColonIsLost(h: Header, x: string, fails: bool)
    requires h == ("a:b", "c")
    ensures ReadBlock(HeaderLines([h]) + (CRLF + x), fails).headers != [h]
  {
    RoundTripExact([h], x, fails);
    assert h.0[1] == ':' && ':' in h.0;
    assert !Kept([h][0]);
  }

  lemma EscapeIsLost(h: Header, x: string, fails: bool)
    requires h == ("k", "%41")
    ensures ReadBlock(HeaderLines([h]) + (CRLF + x), fails).headers != [h]
  {
    EscapeInside("%41");
    RoundTripExact([h], x, fails);
    assert !Kept([h][0]);
  }

  lemma EscapeInside(v: string)
    requires |v| == 3 && v[0] == '%' && v[1] == '4' && v[2] == '1'
    ensures !NoEscape(v)
  {
    assert EscapeAt(v, 0);
  }
}
