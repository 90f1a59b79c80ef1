// The header block of `comm/httplib.h`: `write_headers` prints it, `read_headers` reads it line by line.
module HeaderBlock {
  import opened Text
  import opened Url
  import opened Streams

  type Header = (string, string)

  const EXCEPTION_WHAT := "EXCEPTION_WHAT"

  // The specification of the reader

  /** The first colon, or the length. */
  function Colon(s: string): (k: nat)
    ensures k <= |s| && (k < |s| ==> s[k] == ':') && ':' !in s[..k]
  {
    if s == "" || s[0] == ':' then 0 else 1 + Colon(s[1..])
  }

  /** What is left of a value between its outer blanks. */
  function Stripped(v: string): string {
    TrimLeft(TrimRight(v))
  }

  /** What `parse_header` calls back, if it does, for a line without its CRLF. */
  function ParseLine(line: string): seq<Header> {
    var t := TrimRight(line);
    var k := Colon(t);
    if k == |t| then []
    else
      var v := TrimLeft(t[k + 1..]);
      if v == "" then [] else [(t[..k], Decode(v, false))]
  }

  datatype Block = Block(ok: bool, headers: seq<Header>, rest: string)

  function Onto(before: seq<Header>, b: Block): Block {
    Block(b.ok, before + b.headers, b.rest)
  }

  /** Lines that do not end with CRLF are skipped; a line of nothing else ends the block. */
  function ReadBlock(d: string, fails: bool): Block
    decreases |d|
  {
    var l := NextLine(d, fails);
    if !l.ok then Block(false, [], l.rest)
    else if !EndsWithCrlf(l.text) then ReadBlock(l.rest, fails)
    else if |l.text| == 2 then Block(true, [], l.rest)
    else Onto(ParseLine(l.text[..|l.text| - 2]), ReadBlock(l.rest, fails))
  }

  // The specification of the writer

  function HeaderLine(h: Header): string {
    CString(h.0) + ": " + CString(h.1) + CRLF
  }

  function HeaderLines(hs: seq<Header>): string {
    if hs == [] then "" else HeaderLine(hs[0]) + HeaderLines(hs[1..])
  }

  /** The headers of a response or request that are written at all. */
  function Shown(hs: seq<Header>): seq<Header> {
    if hs == [] then []
    else (if hs[0].0 == EXCEPTION_WHAT then [] else [hs[0]]) + Shown(hs[1..])
  }

  function Written(info: seq<Header>, extra: seq<Header>): string {
    HeaderLines(Shown(info) + extra) + CRLF
  }

  // Round trip

  /** A header whose text occupies one line and whose key ends at the first colon. */
  predicate Sendable(h: Header) {
    '\n' !in CString(h.0) && ':' !in CString(h.0) && '\n' !in CString(h.1)
  }

  ghost predicate AllSendable(hs: seq<Header>) {
    forall i | 0 <= i < |hs| :: Sendable(hs[i])
  }

  /** What arrives of a header: cut at a NUL, without outer blanks, escapes decoded; a header whose value
      is blank does not arrive. */
  function Arrives(h: Header): seq<Header> {
    var v := Stripped(CString(h.1));
    if v == "" then [] else [(CString(h.0), Decode(v, false))]
  }

  function ArriveAll(hs: seq<Header>): seq<Header> {
    if hs == [] then [] else Arrives(hs[0]) + ArriveAll(hs[1..])
  }

  lemma {:induction false} TrimRightBehind(a: string, v: string)
    ensures TrimRight(a + v) == if TrimRight(v) == "" then TrimRight(a) else a + TrimRight(v)
  {
    if v == "" {
      assert a + v == a;
    } else {
      assert (a + v)[..|a + v| - 1] == a + v[..|v| - 1];
      TrimRightBehind(a, v[..|v| - 1]);
    }
  }

  lemma {:induction false} ColonBehind(k: string, x: string)
    requires ':' !in k
    ensures Colon(k + ":" + x) == |k|
  {
    if k == "" {
      assert k + ":" + x == ":" + x;
    } else {
      assert k[0] in k && forall c | c in k[1..] :: c in k;
      assert (k + ":" + x)[1..] == k[1..] + ":" + x;
      ColonBehind(k[1..], x);
    }
  }

  /** The value begins behind the first colon. */
  lemma ParsesAtColon(k: string, w: string)
    requires ':' !in k
    ensures ParseLine(k + ":" + w) == if Stripped(w) == "" then [] else [(k, Decode(Stripped(w), false))]
  {
    var t := TrimRight(w);
    TrimRightBehind(k + ":", w);
    ColonBehind(k, t);
    var s := k + ":" + t;
    assert s[..|k|] == k && s[|k| + 1..] == t;
    if t == "" {
      assert k + ":" + "" == k + ":" && TrimRight(k + ":") == k + ":";
    }
  }

  lemma StrippedBlank(v: string)
    ensures Stripped(" " + v) == Stripped(v)
  {
    TrimRightBehind(" ", v);
    assert " "[..0] == "";
    if TrimRight(v) != "" {
      assert (" " + TrimRight(v))[1..] == TrimRight(v);
    }
  }

  lemma ParsesAs(k: string, v: string)
    requires ':' !in k
    ensures ParseLine(k + ": " + v) == if Stripped(v) == "" then [] else [(k, Decode(Stripped(v), false))]
  {
    assert k + ": " + v == k + ":" + (" " + v);
    ParsesAtColon(k, " " + v);
    StrippedBlank(v);
  }

  lemma OneLine(line: string, rest: string, fails: bool)
    requires line != "" && '\n' !in line
    ensures ReadBlock(line + CRLF + rest, fails) == Onto(ParseLine(line), ReadBlock(rest, fails))
  {
    LineWithCrlf(line, rest, fails);
  }

  lemma OneHeader(h: Header, rest: string, fails: bool)
    requires Sendable(h)
    ensures ReadBlock(HeaderLine(h) + rest, fails) == Onto(Arrives(h), ReadBlock(rest, fails))
  {
    var k, v := CString(h.0), CString(h.1);
    ParsesAs(k, v);
    OneLine(k + ": " + v, rest, fails);
  }

  lemma BlankLine(rest: string, fails: bool)
    ensures ReadBlock(CRLF + rest, fails) == Block(true, [], rest)
  {
    LineWithCrlf("", rest, fails);
    assert "" + CRLF == CRLF;
  }

  /** Every header arrives as `Arrives` says, in order, and reading stops right behind the blank line. */
  lemma {:induction false} LinesRoundTrip(hs: seq<Header>, x: string, fails: bool)
    requires AllSendable(hs)
    ensures ReadBlock(HeaderLines(hs) + (CRLF + x), fails) == Block(true, ArriveAll(hs), x)
  {
    if hs == [] {
      assert HeaderLines(hs) + (CRLF + x) == CRLF + x;
      BlankLine(x, fails);
    } else {
      var rest := HeaderLines(hs[1..]) + (CRLF + x);
      assert HeaderLines(hs) + (CRLF + x) == HeaderLine(hs[0]) + rest;
      LinesRoundTrip(hs[1..], x, fails);
      OneHeader(hs[0], rest, fails);
    }
  }

  lemma HeadersRoundTrip(info: seq<Header>, extra: seq<Header>, x: string, fails: bool)
    requires AllSendable(Shown(info) + extra)
    ensures ReadBlock(Written(info, extra) + x, fails) == Block(true, ArriveAll(Shown(info) + extra), x)
  {
    hide ReadBlock, ArriveAll, HeaderLines;
    var hs := Shown(info) + extra;
    LinesRoundTrip(hs, x, fails);
    assert HeaderLines(hs) + CRLF + x == HeaderLines(hs) + (CRLF + x);
  }

  // Lines of other origin

  lemma StrippedPadded(pre: string, v: string, post: string)
    requires forall c | c in pre + post :: c == ' ' || c == '\t'
    requires !OuterBlank(v)
    ensures Stripped(pre + v + post) == v
  {
    assert forall c | c in pre :: c in pre + post;
    assert forall c | c in post :: c in pre + post;
    if v == "" {
      assert pre + v + post == "" + (pre + post);
      TrimRightPadded("", pre + post);
    } else {
      TrimRightPadded(pre + v, post);
      TrimLeftPadded(pre, v);
    }
  }

  /** Any line with a colon, whatever the blanks around the value, is the header that its key and decoded value
      make; with nothing but blanks behind the colon it is none. */
  lemma AnyHeaderRead(k: string, pre: string, v: string, post: string, rest: string, fails: bool)
    requires ':' !in k && '\n' !in k && '\n' !in v
    requires (forall c | c in pre + post :: c == ' ' || c == '\t') && !OuterBlank(v)
    ensures ReadBlock(k + ":" + (pre + v + post) + CRLF + rest, fails)
         == Onto(if v == "" then [] else [(k, Decode(v, false))], ReadBlock(rest, fails))
  {
    var w := pre + v + post;
    assert '\n' !in w by {
      assert '\n' !in pre + post;
      assert forall c | c in w :: c in v || c in pre + post;
    }
    StrippedPadded(pre, v, post);
    ParsesAtColon(k, w);
    OneLine(k + ":" + w, rest, fails);
  }

  lemma NoColonInLine(l: string)
    requires ':' !in l
    ensures ParseLine(l) == []
  {
    var t := TrimRight(l);
    TrimRightEnds(l);
    forall i | 0 <= i < |t|
      ensures t[i] != ':'
    {
      assert l[i] in l;
    }
    ColonAt(t, |t|);
  }

  /** A line that ends without a carriage return is passed over. */
  lemma BareLineSkipped(l: string, rest: string, fails: bool)
    requires '\n' !in l && (l != "" ==> l[|l| - 1] != '\r')
    ensures ReadBlock(l + "\n" + rest, fails) == ReadBlock(rest, fails)
  {
    LineWithFeed(l, rest, fails);
  }

  /** So is a line without a colon. */
  lemma LineSkipped(l: string, rest: string, fails: bool)
    requires l != "" && '\n' !in l && ':' !in l
    ensures ReadBlock(l + CRLF + rest, fails) == ReadBlock(rest, fails)
  {
    hide ReadBlock;
    OneLine(l, rest, fails);
    NoColonInLine(l);
    OntoTwice([], [], ReadBlock(rest, fails));
  }

  lemma {:induction false} ShownConcat(a: seq<Header>, b: seq<Header>)
    ensures Shown(a + b) == Shown(a) + Shown(b)
  {
    if a == [] {
      assert a + b == b;
    } else {
      assert (a + b)[1..] == a[1..] + b;
      ShownConcat(a[1..], b);
      Assoc(if a[0].0 == EXCEPTION_WHAT then [] else [a[0]], Shown(a[1..]), Shown(b));
    }
  }

  /** Exactly the exception text is kept back, and the order of the others. */
  lemma ShownParts(a: seq<Header>, h: Header, b: seq<Header>)
    ensures Shown(a + [h] + b) == Shown(a) + (if h.0 == "EXCEPTION_WHAT" then [] else [h]) + Shown(b)
  {
    ShownConcat(a + [h], b);
    ShownConcat(a, [h]);
    assert [h][1..] == [];
  }

  // Which headers arrive unchanged

  predicate Intact(h: Header) {
    '\0' !in h.0 && '\0' !in h.1 && h.1 != "" && !OuterBlank(h.1) && NoEscape(h.1)
  }

  lemma {:induction false} StrippedShrinks(v: string)
    ensures |TrimLeft(v)| <= |v| && |TrimRight(v)| <= |v|
    ensures |TrimLeft(v)| == |v| ==> TrimLeft(v) == v && (v != "" ==> !IsBlank(v[0]))
    ensures |TrimRight(v)| == |v| ==> TrimRight(v) == v && (v != "" ==> !IsBlank(v[|v| - 1]))
    ensures !OuterBlank(v) ==> TrimLeft(v) == v && TrimRight(v) == v
  {
    if v != "" {
      StrippedShrinks(v[1..]);
      StrippedShrinks(v[..|v| - 1]);
    }
  }

  lemma CStringWhole(s: string)
    ensures CString(s) == s <==> '\0' !in s
  {
    if CString(s) == s && s != "" {
      CStringWhole(s[1..]);
    }
  }

  /** What arrives of a header that is read from its own line is that header exactly when neither half holds a
      NUL and the value is not empty, has no outer blanks and no percent escape. */
  lemma UnchangedExactly(h: Header)
    ensures Arrives(h) == [h] <==> Intact(h)
  {
    hide CString, Decode, TrimLeft, TrimRight;
    var v := CString(h.1);
    CStringWhole(h.0);
    CStringWhole(h.1);
    StrippedShrinks(v);
    StrippedShrinks(TrimRight(v));
    DecodesToItself(Stripped(v), false);
  }

  // The map the headers are kept in

  /** The order of `ci`: lexicographic, letter case ignored. */
  predicate Less(a: string, b: string) {
    b != "" && (a == "" || ToLower(a[0]) < ToLower(b[0]) || (ToLower(a[0]) == ToLower(b[0]) && Less(a[1..], b[1..])))
  }

  ghost predicate Sorted(hs: seq<Header>) {
    forall i, j | 0 <= i < j < |hs| :: !Less(hs[j].0, hs[i].0)
  }

  /** `emplace`: behind every entry whose key is not greater. */
  function Emplace(hs: seq<Header>, h: Header): seq<Header> {
    if hs == [] then [h]
    else if Less(h.0, hs[0].0) then [h] + hs
    else [hs[0]] + Emplace(hs[1..], h)
  }

  function EmplaceAll(hs: seq<Header>, more: seq<Header>): seq<Header>
    decreases |more|
  {
    if more == [] then hs else EmplaceAll(Emplace(hs, more[0]), more[1..])
  }

  lemma {:induction false} EmplaceLast(hs: seq<Header>, h: Header)
    requires forall i | 0 <= i < |hs| :: !Less(h.0, hs[i].0)
    ensures Emplace(hs, h) == hs + [h]
  {
    if hs != [] {
      EmplaceLast(hs[1..], h);
      assert hs + [h] == [hs[0]] + (hs[1..] + [h]);
    }
  }

  lemma {:induction false} EmplaceSorted(hs: seq<Header>, more: seq<Header>)
    requires Sorted(hs + more)
    ensures EmplaceAll(hs, more) == hs + more
    decreases |more|
  {
    if more != [] {
      var all, n := hs + more, |hs|;
      forall i | 0 <= i < n
        ensures !Less(more[0].0, hs[i].0)
      {
        assert hs[i] == all[i] && more[0] == all[n];
      }
      EmplaceLast(hs, more[0]);
      assert (hs + [more[0]]) + more[1..] == all;
      EmplaceSorted(hs + [more[0]], more[1..]);
    }
  }

  // The order of the map

  lemma {:induction false} SameKey(a: string, b: string)
    ensures !Less(a, b) && !Less(b, a) <==> SameLetters(a, b)
    ensures Less(a, b) ==> !Less(b, a)
  {
    if a != "" && b != "" {
      SameKey(a[1..], b[1..]);
      assert ToLower(a[0]) == ToLower(b[0]) <==> SameLetter(a[0], b[0]);
      if SameLetters(a, b) {
        assert forall i | 0 <= i < |a[1..]| :: a[1..][i] == a[i + 1] && b[1..][i] == b[i + 1];
      }
      if SameLetter(a[0], b[0]) && SameLetters(a[1..], b[1..]) {
        assert forall i | 0 < i < |a| :: a[i] == a[1..][i - 1] && b[i] == b[1..][i - 1];
      }
    }
  }

  lemma {:induction false} NotLessTransitive(a: string, b: string, c: string)
    requires !Less(b, a) && !Less(c, b)
    ensures !Less(c, a)
  {
    if a != "" && b != "" && c != "" && ToLower(a[0]) == ToLower(b[0]) == ToLower(c[0]) {
      NotLessTransitive(a[1..], b[1..], c[1..]);
    }
  }

  /** Where a header goes: behind the last one whose key, letter case ignored, is not greater. */
  lemma {:induction false} EmplacePlace(hs: seq<Header>, h: Header) returns (k: nat)
    ensures k <= |hs| && Emplace(hs, h) == hs[..k] + [h] + hs[k..]
    ensures (forall i | 0 <= i < k :: !Less(h.0, hs[i].0)) && (k < |hs| ==> Less(h.0, hs[k].0))
  {
    if hs == [] || Less(h.0, hs[0].0) {
      k := 0;
    } else {
      k := EmplacePlace(hs[1..], h);
      k := k + 1;
      assert hs[..k] == [hs[0]] + hs[1..][..k - 1] && hs[1..][k - 1..] == hs[k..];
    }
  }

  /** The map stays sorted, whatever is emplaced. */
  lemma EmplaceKeepsSorted(hs: seq<Header>, h: Header)
    requires Sorted(hs)
    ensures Sorted(Emplace(hs, h))
  {
    var k := EmplacePlace(hs, h);
    var r := Emplace(hs, h);
    forall i, j | 0 <= i < j < |r|
      ensures !Less(r[j].0, r[i].0)
    {
      if i == k {
        SameKey(h.0, hs[k].0);
        if k < j - 1 { NotLessTransitive(h.0, hs[k].0, hs[j - 1].0); }
      }
    }
  }

  lemma {:induction false} EmplaceAllSorted(hs: seq<Header>, more: seq<Header>)
    requires Sorted(hs)
    ensures Sorted(EmplaceAll(hs, more))
    decreases |more|
  {
    if more != [] {
      EmplaceKeepsSorted(hs, more[0]);
      EmplaceAllSorted(Emplace(hs, more[0]), more[1..]);
    }
  }

  // The loops

  class BufferStream {
    var buffer: string

    constructor ()
      ensures buffer == ""
    {
      buffer := "";
    }

    method Write(d: string) returns (n: int)
      modifies this
      ensures buffer == old(buffer) + d && n == |d|
    {
      buffer := buffer + d;
      return |d|;
    }
  }

  method WriteHeaders(strm: BufferStream, info: seq<Header>, headers: seq<Header>) returns (n: int)
    modifies strm
    ensures strm.buffer == old(strm.buffer) + Written(info, headers) && n == |Written(info, headers)|
  {
    var writeLen: nat := 0;
    ghost var was, all := strm.buffer, Shown(info) + headers;
    for i := 0 to |info|
      invariant strm.buffer + HeaderLines(Shown(info[i..])) == was + HeaderLines(Shown(info))
      invariant |was| + writeLen == |strm.buffer|
    {
      ghost var before := strm.buffer;
      assert info[i..][1..] == info[i + 1..];
      if info[i].0 != EXCEPTION_WHAT {
        var len := strm.Write(HeaderLine(info[i]));
        LinesConcat([info[i]], Shown(info[i + 1..]));
        LinesOne(info[i]);
        Assoc(before, HeaderLine(info[i]), HeaderLines(Shown(info[i + 1..])));
        if len < 0 { return len; }
        writeLen := writeLen + len;
      } else {
        assert [] + Shown(info[i + 1..]) == Shown(info[i + 1..]);
      }
    }
    ghost var middle := strm.buffer;
    assert middle == was + HeaderLines(Shown(info));
    for i := 0 to |headers|
      invariant strm.buffer + HeaderLines(headers[i..]) == middle + HeaderLines(headers)
      invariant |was| + writeLen == |strm.buffer|
    {
      ghost var before := strm.buffer;
      assert headers[i..][1..] == headers[i + 1..];
      var len := strm.Write(HeaderLine(headers[i]));
      Assoc(before, HeaderLine(headers[i]), HeaderLines(headers[i + 1..]));
      if len < 0 { return len; }
      writeLen := writeLen + len;
    }
    LinesConcat(Shown(info), headers);
    Assoc(was, HeaderLines(Shown(info)), HeaderLines(headers));
    Assoc(was, HeaderLines(all), CRLF);
    var len := strm.Write(CRLF);
    if len < 0 { return len; }
    return writeLen + len;
  }

  lemma LinesOne(h: Header)
    ensures HeaderLines([h]) == HeaderLine(h)
  {
    assert HeaderLine(h) + "" == HeaderLine(h);
  }

  lemma {:induction false} LinesConcat(a: seq<Header>, b: seq<Header>)
    ensures HeaderLines(a + b) == HeaderLines(a) + HeaderLines(b)
  {
    if a == [] {
      assert a + b == b;
    } else {
      assert (a + b)[1..] == a[1..] + b;
      LinesConcat(a[1..], b);
      Assoc(HeaderLine(a[0]), HeaderLines(a[1..]), HeaderLines(b));
    }
  }

  lemma TrimRightStep(line: string, end: nat)
    requires 0 < end <= |line|
    ensures TrimRight(line[..end]) == if IsBlank(line[end - 1]) then TrimRight(line[..end - 1]) else line[..end]
  {
    assert line[..end][..end - 1] == line[..end - 1];
  }

  lemma {:induction false} ColonAt(t: string, p: nat)
    requires p <= |t| && (forall k | 0 <= k < p :: t[k] != ':') && (p < |t| ==> t[p] == ':')
    ensures Colon(t) == p
  {
    if p > 0 {
      ColonAt(t[1..], p - 1);
    }
  }

  lemma {:induction false} BlanksUpTo(v: string, p: nat)
    requires p <= |v| && (forall k | 0 <= k < p :: IsBlank(v[k])) && (p < |v| ==> !IsBlank(v[p]))
    ensures TrimLeft(v) == v[p..]
  {
    if p > 0 {
      BlanksUpTo(v[1..], p - 1);
      assert v[1..][p - 1..] == v[p..];
    }
  }

  /** The line up to `end` has its colon at `k` and its value from `p` on. */
  lemma ParsedAs(line: string, end: nat, k: nat, p: nat)
    requires k < p <= end <= |line| && TrimRight(line) == line[..end]
    requires (forall i | 0 <= i < k :: line[i] != ':') && line[k] == ':'
    requires (forall i | k < i < p :: IsBlank(line[i])) && (p < end ==> !IsBlank(line[p]))
    ensures ParseLine(line) == if p == end then [] else [(line[..k], Decode(line[p..end], false))]
  {
    ColonInLine(line, end, k);
    ValueInLine(line, end, k, p);
    Slices(line, end, k);
    ParseParts(line, line[..end], k, line[p..end]);
  }

  lemma ColonInLine(line: string, end: nat, k: nat)
    requires k < end <= |line| && (forall i | 0 <= i < k :: line[i] != ':') && line[k] == ':'
    ensures Colon(line[..end]) == k
  {
    ColonAt(line[..end], k);
  }

  lemma ValueInLine(line: string, end: nat, k: nat, p: nat)
    requires k < p <= end <= |line|
    requires (forall i | k < i < p :: IsBlank(line[i])) && (p < end ==> !IsBlank(line[p]))
    ensures TrimLeft(line[k + 1..end]) == line[p..end]
  {
    var v, n := line[k + 1..end], p - (k + 1);
    forall i | 0 <= i < n
      ensures IsBlank(v[i])
    {
      assert v[i] == line[k + 1 + i];
    }
    BlanksUpTo(v, n);
    assert v[n..] == line[p..end];
  }

  lemma ParseParts(line: string, t: string, k: nat, v: string)
    requires TrimRight(line) == t && k < |t| && Colon(t) == k && TrimLeft(t[k + 1..]) == v
    ensures ParseLine(line) == if v == "" then [] else [(t[..k], Decode(v, false))]
  {
  }

  lemma Slices(line: string, end: nat, k: nat)
    requires k < end <= |line|
    ensures line[..end][k + 1..] == line[k + 1..end] && line[..end][..k] == line[..k]
  {
  }

  lemma NoColon(line: string, end: nat)
    requires end <= |line| && TrimRight(line) == line[..end] && forall i | 0 <= i < end :: line[i] != ':'
    ensures ParseLine(line) == []
  {
    ColonAt(line[..end], end);
  }

  method ParseHeader(line: string) returns (header: seq<Header>)
    ensures header == ParseLine(line) && |header| <= 1
  {
    var end := |line|;
    assert line[..end] == line;
    while 0 < end && IsBlank(line[end - 1])
      invariant end <= |line| && TrimRight(line[..end]) == TrimRight(line)
    {
      TrimRightStep(line, end);
      end := end - 1;
    }
    if end > 0 { TrimRightStep(line, end); }
    var p := 0;
    while p < end && line[p] != ':'
      invariant p <= end && forall i | 0 <= i < p :: line[i] != ':'
    {
      p := p + 1;
    }
    if p == end {
      NoColon(line, end);
      return [];
    }
    var keyEnd := p;
    p := p + 1;
    while p < end && IsBlank(line[p])
      invariant keyEnd < p <= end && forall i | keyEnd < i < p :: IsBlank(line[i])
    {
      p := p + 1;
    }
    ParsedAs(line, end, keyEnd, p);
    if p < end {
      var value := DecodeUrl(line[p..end], false);
      return [(line[..keyEnd], value)];
    }
    return [];
  }

  lemma OntoTwice(a: seq<Header>, b: seq<Header>, r: Block)
    ensures Onto(a, Onto(b, r)) == Onto(a + b, r)
    ensures Onto([], r) == r
    ensures a + [] == a
  {
    assert a + (b + r.headers) == a + b + r.headers;
  }

  lemma AtLine(whole: Block, found: seq<Header>, d: string, fails: bool, l: Line)
    requires whole == Onto(found, ReadBlock(d, fails)) && l == NextLine(d, fails)
    ensures !l.ok ==> whole == Block(false, found, l.rest)
    ensures l.ok && !EndsWithCrlf(l.text) ==> whole == Onto(found, ReadBlock(l.rest, fails))
    ensures l.ok && EndsWithCrlf(l.text) && |l.text| == 2 ==> whole == Block(true, found, l.rest)
    ensures l.ok && EndsWithCrlf(l.text) && |l.text| > 2 ==>
              whole == Onto(found + ParseLine(l.text[..|l.text| - 2]), ReadBlock(l.rest, fails))
  {
    OntoTwice(found, [], ReadBlock(l.rest, fails));
    if l.ok && EndsWithCrlf(l.text) {
      OntoTwice(found, ParseLine(l.text[..|l.text| - 2]), ReadBlock(l.rest, fails));
    }
  }

  lemma {:induction false} EmplaceMore(hs: seq<Header>, found: seq<Header>, h: Header)
    ensures EmplaceAll(hs, found + [h]) == Emplace(EmplaceAll(hs, found), h)
    decreases |found|
  {
    if found == [] {
      assert EmplaceAll(Emplace(hs, h), []) == Emplace(hs, h);
    } else {
      assert (found + [h])[1..] == found[1..] + [h];
      EmplaceMore(Emplace(hs, found[0]), found[1..], h);
    }
  }

  lemma EmplaceIfAny(hs: seq<Header>, found: seq<Header>, header: seq<Header>)
    requires |header| <= 1
    ensures EmplaceAll(hs, found + header)
         == if header == [] then EmplaceAll(hs, found) else Emplace(EmplaceAll(hs, found), header[0])
  {
    if header == [] {
      assert found + header == found;
    } else {
      assert header == [header[0]];
      EmplaceMore(hs, found, header[0]);
    }
  }

  /** Besides the map, `found` lists the headers in the order in which they were emplaced. */
  method ReadHeaders(strm: InStream, headers: seq<Header>)
    returns (ok: bool, all: seq<Header>, ghost found: seq<Header>)
    requires strm.Valid()
    modifies strm
    ensures strm.Valid()
    ensures Block(ok, found, strm.Rest()) == ReadBlock(old(strm.Rest()), strm.fails)
    ensures all == EmplaceAll(headers, found)
  {
    all, found := headers, [];
    var buf := new char[2048];
    var lineReader := new LineReader(strm, buf);
    ghost var d, fails := strm.Rest(), strm.fails;
    ghost var whole := ReadBlock(d, fails);
    OntoTwice([], [], whole);
    while true
      invariant lineReader.Valid() && lineReader.strm == strm && lineReader.fixed == buf
      invariant d == strm.Rest() && whole == Onto(found, ReadBlock(d, fails))
      invariant all == EmplaceAll(headers, found)
      decreases |d|
    {
      var more := lineReader.GetLine();
      var line := lineReader.Current();
      AtLine(whole, found, d, fails, Line(more, line, strm.Rest()));
      d := strm.Rest();
      if !more { return false, all, found; }
      if !EndsWithCrlf(line) { continue; }
      if |line| == 2 { return true, all, found; }
      var header := ParseHeader(line[..|line| - 2]);
      EmplaceIfAny(headers, found, header);
      found := found + header;
      if header != [] {
        all := Emplace(all, header[0]);
      }
    }
  }
}
