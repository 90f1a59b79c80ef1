// Chunked transfer coding (section 4.1 of RFC 7230): the writer `write_content_chunked` and the reader
// `read_content_chunked` of `comm/httplib.h`.
module Chunked {
  import opened Text
  import opened Streams
  import opened Wrappers

  const UINT64 := 0x1_0000_0000_0000_0000
  const ULONG_MAX := UINT64 - 1
  const RECV_BUFSIZ := 4096

  // The size line

  const CHARSET := "0123456789abcdef"

  /** `from_i_to_hex`. */
  function Hex(n: nat): string {
    (if n < 16 then "" else Hex(n / 16)) + [CHARSET[n % 16]]
  }

  predicate AllDigits(s: string) {
    forall i | 0 <= i < |s| :: HexValue(s[i]).Some?
  }

  /** How many hexadecimal digits `s` starts with. */
  function DigitRun(s: string): (n: nat)
    ensures n <= |s| && AllDigits(s[..n])
  {
    if s == "" || HexValue(s[0]).None? then 0 else 1 + DigitRun(s[1..])
  }

  function Value(s: string): nat
    requires AllDigits(s)
  {
    if s == "" then 0 else Value(s[..|s| - 1]) * 16 + HexValue(s[|s| - 1]).value
  }

  /** `strtoul` in base 16: none when there is nothing to convert. */
  function Strtoul(s: string): Option<nat> {
    var t := SkipSpaces(s);
    var negative := t != "" && t[0] == '-';
    var u := if t != "" && (t[0] == '-' || t[0] == '+') then t[1..] else t;
    var prefixed := |u| > 2 && u[0] == '0' && (u[1] == 'x' || u[1] == 'X') && HexValue(u[2]).Some?;
    var v := if prefixed then u[2..] else u;
    var k := DigitRun(v);
    if k == 0 then None
    else
      var value := Value(v[..k]);
      if value > ULONG_MAX then Some(ULONG_MAX)
      else Some(if negative then (UINT64 - value) % UINT64 else value)
  }

  lemma CharsetDigit(k: nat)
    requires k < 16
    ensures HexValue(CHARSET[k]) == Some(k)
  {
  }

  lemma OneDigit(h: string, d: char)
    requires AllDigits(h) && HexValue(d).Some?
    ensures AllDigits(h + [d]) && Value(h + [d]) == Value(h) * 16 + HexValue(d).value
  {
    assert (h + [d])[..|h|] == h;
  }

  lemma {:induction false} HexDigits(n: nat)
    ensures Hex(n) != "" && AllDigits(Hex(n))
    ensures Value(Hex(n)) == n
  {
    var d := CHARSET[n % 16];
    CharsetDigit(n % 16);
    if n >= 16 {
      HexDigits(n / 16);
      OneDigit(Hex(n / 16), d);
    } else {
      OneDigit("", d);
      assert Hex(n) == "" + [d];
    }
  }

  lemma {:induction false} DigitRunOf(s: string, c: char, rest: string)
    requires AllDigits(s)
    requires HexValue(c).None?
    ensures DigitRun(s + [c] + rest) == |s|
  {
    if s == "" {
      assert s + [c] + rest == [c] + rest;
    } else {
      assert (s + [c] + rest)[1..] == s[1..] + [c] + rest;
      DigitRunOf(s[1..], c, rest);
    }
  }

  /** A plain number is converted up to the first character that is no digit. */
  lemma PlainNumber(h: string, c: char, rest: string)
    requires h != "" && AllDigits(h) && HexValue(c).None? && c != 'x' && c != 'X'
    requires Value(h) <= ULONG_MAX
    ensures Strtoul(h + [c] + rest) == Some(Value(h))
  {
    hide Value, DigitRun;
    var s := h + [c] + rest;
    DigitRunOf(h, c, rest);
    assert HexValue(s[0]).Some? && s[0] == h[0];
    assert SkipSpaces(s) == s;
    assert s[1] == if |h| > 1 then h[1] else c;
    assert s[..|h|] == h;
  }

  /** The reader takes the size that the writer printed. */
  lemma SizeRoundTrip(n: nat)
    requires n <= ULONG_MAX
    ensures Strtoul(Hex(n) + CRLF) == Some(n)
  {
    HexDigits(n);
    PlainNumber(Hex(n), '\r', "\n");
    assert Hex(n) + CRLF == Hex(n) + ['\r'] + "\n";
  }

  // The specification of the reader

  datatype Read = Read(ok: bool, payload: string, rest: string)

  function Prepend(p: string, r: Read): Read {
    Read(r.ok, p + r.payload, r.rest)
  }

  /** `strcmp` with a blank line. */
  predicate IsCrlf(line: string) { CString(line) == CRLF }

  /** What is read when `d` is still to come: whether it succeeds, what the receiver gets, what is left. */
  function ReadChunked(d: string, fails: bool): Read
    decreases |d|, 0
  {
    var l := NextLine(d, fails);
    if l.ok then ReadChunks(l.text, l.rest, fails) else Read(false, "", l.rest)
  }

  /** After the size line `line`. Anything but a blank line behind the data ends the body successfully. */
  function ReadChunks(line: string, d: string, fails: bool): Read
    decreases |d|, 1
  {
    match Strtoul(line)
    case None => Read(false, "", d)
    case Some(n) =>
      if n == ULONG_MAX then Read(false, "", d)
      else if n == 0 then
        var l := NextLine(d, fails);
        Read(l.ok && IsCrlf(l.text), "", l.rest)
      else if |d| < n then Read(false, d, "")
      else
        var l := NextLine(d[n..], fails);
        if !l.ok then Read(false, d[..n], l.rest)
        else if !IsCrlf(l.text) then Read(true, d[..n], l.rest)
        else Prepend(d[..n], ReadChunked(l.rest, fails))
  }

  // The specification of the writer

  /** What the content provider does with the sink: `write` or `done`. */
  datatype Event = Portion(data: string) | Done

  function Chunk(payload: string): string {
    if payload == "" then "" else Hex(|payload|) + CRLF + payload + CRLF
  }

  const DONE_MARKER := "0\r\n\r\n"

  function Emission(e: Event): string {
    if e.Done? then DONE_MARKER else Chunk(e.data)
  }

  function Emitted(events: seq<Event>): string {
    if events == [] then "" else Emission(events[0]) + Emitted(events[1..])
  }

  /** Everything written before `done`. */
  function Payload(events: seq<Event>): string {
    if events == [] || events[0].Done? then "" else events[0].data + Payload(events[1..])
  }

  function AfterDone(events: seq<Event>): seq<Event> {
    if events == [] then [] else if events[0].Done? then events[1..] else AfterDone(events[1..])
  }

  // Round trip

  lemma NoFeed(h: string)
    requires AllDigits(h)
    ensures '\n' !in h
  {
    assert HexValue('\n') == None;
    forall i | 0 <= i < |h|
      ensures h[i] != '\n'
    {
      assert HexValue(h[i]).Some?;
    }
  }

  lemma SizeLine(n: nat, rest: string, fails: bool)
    ensures NextLine(Hex(n) + CRLF + rest, fails) == Line(true, Hex(n) + CRLF, rest)
  {
    HexDigits(n);
    NoFeed(Hex(n));
    LineWithCrlf(Hex(n), rest, fails);
  }

  lemma CrlfLine(rest: string, fails: bool)
    ensures NextLine(CRLF + rest, fails) == Line(true, CRLF, rest)
    ensures IsCrlf(CRLF)
  {
    LineWithCrlf("", rest, fails);
    assert "" + CRLF == CRLF;
  }

  lemma ChunkBody(line: string, p: string, rest: string, fails: bool)
    requires Strtoul(line) == Some(|p|) && 0 < |p| < ULONG_MAX
    ensures ReadChunks(line, p + (CRLF + rest), fails) == Prepend(p, ReadChunked(rest, fails))
  {
    var n, d := |p|, p + (CRLF + rest);
    assert d[..n] == p && d[n..] == CRLF + rest;
    CrlfLine(rest, fails);
  }

  lemma Spread(h: string, c: string, p: string, rest: string)
    ensures h + c + p + c + rest == h + c + (p + (c + rest))
  {
  }

  lemma OneChunk(p: string, rest: string, fails: bool)
    requires |p| < ULONG_MAX
    ensures ReadChunked(Chunk(p) + rest, fails) == Prepend(p, ReadChunked(rest, fails))
  {
    if p == "" {
      assert Chunk(p) + rest == rest;
      var r := ReadChunked(rest, fails);
      assert p + r.payload == r.payload;
    } else {
      var n, d := |p|, p + (CRLF + rest);
      Spread(Hex(n), CRLF, p, rest);
      SizeLine(n, d, fails);
      ChunkBody(Hex(n) + CRLF, p, rest, fails) by {
        SizeRoundTrip(n);
      }
    }
  }

  lemma LastChunk(rest: string, fails: bool)
    ensures ReadChunked(DONE_MARKER + rest, fails) == Read(true, "", rest)
  {
    assert Hex(0) == "0";
    assert DONE_MARKER + rest == Hex(0) + CRLF + (CRLF + rest);
    SizeLine(0, CRLF + rest, fails);
    SizeRoundTrip(0);
    CrlfLine(rest, fails);
  }

  lemma ReadNothing(fails: bool)
    ensures ReadChunked("", fails) == Read(false, "", "")
  {
  }

  ghost predicate Sized(events: seq<Event>) {
    forall i | 0 <= i < |events| && events[i].Portion? :: |events[i].data| < ULONG_MAX
  }

  /** Whatever was written, in whatever portions, is read back, and the reader stops right behind the
      last chunk, whatever follows it. */
  lemma {:induction false} ChunkedRoundTrip(events: seq<Event>, x: string, fails: bool)
    requires Sized(events) && Done in events
    ensures ReadChunked(Emitted(events) + x, fails) == Read(true, Payload(events), Emitted(AfterDone(events)) + x)
  {
    var rest := Emitted(events[1..]) + x;
    assert Emitted(events) + x == Emission(events[0]) + rest;
    if events[0].Done? {
      LastChunk(rest, fails);
    } else {
      ChunkedRoundTrip(events[1..], x, fails);
      OneChunk(events[0].data, rest, fails);
    }
  }

  /** Without `done` the reader gets all of the data and still reports a failure. */
  lemma {:induction false} NeverDone(events: seq<Event>, fails: bool)
    requires Sized(events) && Done !in events
    ensures ReadChunked(Emitted(events), fails) == Read(false, Payload(events), "")
  {
    if events == [] {
      ReadNothing(fails);
    } else {
      assert events[0] in events;
      var rest := Emitted(events[1..]);
      NeverDone(events[1..], fails);
      OneChunk(events[0].data, rest, fails);
    }
  }

  /** A written body is accepted exactly when its provider called `done`. */
  lemma AcceptedExactlyWhenDone(events: seq<Event>, fails: bool)
    requires Sized(events)
    ensures ReadChunked(Emitted(events), fails).ok <==> Done in events
    ensures ReadChunked(Emitted(events), fails).payload == Payload(events)
  {
    if Done in events {
      ChunkedRoundTrip(events, "", fails);
      assert Emitted(events) + "" == Emitted(events);
    } else {
      NeverDone(events, fails);
    }
  }

  // The reader

  /** The content receiver; `willing` is its answer to each call. */
  class Receiver {
    const willing: nat -> bool
    var calls: nat
    var received: string

    constructor (willing: nat -> bool)
      ensures this.willing == willing && received == ""
    {
      this.willing, calls, received := willing, 0, "";
    }

    method Take(s: string) returns (ok: bool)
      modifies this
      ensures received == old(received) + s
      ensures ok == willing(old(calls)) && calls == old(calls) + 1
    {
      received := received + s;
      calls := calls + 1;
      return willing(calls - 1);
    }
  }

  ghost predicate AlwaysWilling(r: Receiver) { forall n :: r.willing(n) }

  lemma Advance(all: string, r: nat, s: string, rest: string)
    requires r <= |all| && all[r..] == s + rest
    ensures r + |s| <= |all| && all[r + |s|..] == rest && all[..r + |s|] == all[..r] + s
  {
    assert |all| == r + |s| + |rest|;
    assert all == all[..r] + all[r..];
    assert all == all[..r] + s + rest;
  }

  /** How far a body was delivered: `got` is a prefix of what was to be read; all of it was read unless
      the receiver refused. */
  ghost predicate Delivered(all: Read, ok: bool, got: string, rest: string, willing: bool) {
    && got <= all.payload
    && (ok || willing ==> all == Read(ok, got, rest))
  }

  /** A body of known length. */
  function ReadExactly(d: string, len: nat): Read {
    if |d| < len then Read(false, d, "") else Read(true, d[..len], d[len..])
  }

  method ReadContentWithLength(strm: InStream, len: nat, out: Receiver) returns (ok: bool, ghost got: string)
    requires strm.Valid()
    modifies strm, out
    ensures strm.Valid() && out.received == old(out.received) + got
    ensures Delivered(ReadExactly(old(strm.Rest()), len), ok, got, strm.Rest(), AlwaysWilling(out))
  {
    ghost var all, was := strm.Rest(), out.received;
    var r := 0;
    got := "";
    while r < len
      invariant strm.Valid()
      invariant r <= len && r <= |all| && strm.Rest() == all[r..]
      invariant got == all[..r] && out.received == was + got
    {
      var n, s := strm.Read(if len - r < RECV_BUFSIZ then len - r else RECV_BUFSIZ);
      if n <= 0 {
        return false, got;
      }
      Advance(all, r, s, strm.Rest());
      r := r + |s|;
      got := got + s;
      var more := out.Take(s);
      assert out.received == was + got;
      if !more { return false, got; }
    }
    return true, got;
  }

  lemma Behind(before: string, r: Read, ok: bool, got: string, rest: string, willing: bool)
    requires Delivered(r, ok, got, rest, willing)
    ensures Delivered(Prepend(before, r), ok, before + got, rest, willing)
  {
  }

  lemma PrependTwice(a: string, b: string, r: Read)
    ensures Prepend(a, Prepend(b, r)) == Prepend(a + b, r)
  {
    Assoc(a, b, r.payload);
  }

  lemma PrependNothing(r: Read)
    ensures Prepend("", r) == r
  {
    assert "" + r.payload == r.payload;
  }

  datatype Turn = Stop(ok: bool) | Next

  /** What one turn leaves to the next. */
  ghost predicate Turned(r: Read, fails: bool, turn: Turn, got: string, line: string, rest: string, willing: bool) {
    if turn.Stop? then Delivered(r, turn.ok, got, rest, willing) else r == Prepend(got, ReadChunks(line, rest, fails))
  }

  /** The rest of one turn of the loop of `read_content_chunked`, from a size that is not zero to the next
      size line. */
  method ReadChunk(strm: InStream, lineReader: LineReader, out: Receiver, len: nat, ghost line: string)
    returns (turn: Turn, ghost got: string)
    requires lineReader.Valid() && lineReader.strm == strm && lineReader.fixed.Length >= 2
    requires Strtoul(line) == Some(len) && 0 < len < ULONG_MAX
    modifies strm, lineReader, lineReader.fixed, out
    ensures lineReader.Valid() && out.received == old(out.received) + got
    ensures turn.Next? ==> |strm.Rest()| < |old(strm.Rest())|
    ensures Turned(ReadChunks(line, old(strm.Rest()), strm.fails), strm.fails, turn, got,
              lineReader.Current(), strm.Rest(), AlwaysWilling(out))
  {
    hide ReadChunks, ReadChunked, NextLine, Strtoul;
    ghost var d, fails := strm.Rest(), strm.fails;
    var more;
    more, got := ReadContentWithLength(strm, len, out);
    if !more {
      CutShort(line, d, fails, len, got, strm.Rest(), AlwaysWilling(out));
      return Stop(false), got;
    }
    more := lineReader.GetLine();
    var end := lineReader.Current();
    ghost var l := Line(more, end, strm.Rest());
    DataEnds(line, d, fails, len, l, AlwaysWilling(out));
    if !more || !IsCrlf(end) { return Stop(more), got; }
    more := lineReader.GetLine();
    SizeFollows(line, d, fails, len, l, Line(more, lineReader.Current(), strm.Rest()), AlwaysWilling(out));
    return if more then Next else Stop(false), got;
  }

  lemma DataEnds(line: string, d: string, fails: bool, n: nat, l: Line, willing: bool)
    requires Strtoul(line) == Some(n) && 0 < n < ULONG_MAX && n <= |d| && l == NextLine(d[n..], fails)
    ensures !(l.ok && IsCrlf(l.text)) ==>
              Turned(ReadChunks(line, d, fails), fails, Stop(l.ok), d[..n], l.text, l.rest, willing)
  {
    BehindData(line, d, fails, n, l);
  }

  lemma SizeFollows(line: string, d: string, fails: bool, n: nat, l: Line, m: Line, willing: bool)
    requires Strtoul(line) == Some(n) && 0 < n < ULONG_MAX && n <= |d| && l == NextLine(d[n..], fails)
    requires l.ok && IsCrlf(l.text) && m == NextLine(l.rest, fails)
    ensures Turned(ReadChunks(line, d, fails), fails, if m.ok then Next else Stop(false), d[..n], m.text, m.rest,
                   willing)
  {
    BehindData(line, d, fails, n, l);
    BehindLine(l.rest, fails, m, d[..n]);
  }

  lemma CutShort(line: string, d: string, fails: bool, n: nat, p: string, rest: string, willing: bool)
    requires Strtoul(line) == Some(n) && 0 < n < ULONG_MAX
    requires Delivered(ReadExactly(d, n), false, p, rest, willing)
    ensures Delivered(ReadChunks(line, d, fails), false, p, rest, willing)
  {
    if |d| >= n {
      BehindData(line, d, fails, n, NextLine(d[n..], fails));
    }
  }

  lemma BehindData(line: string, d: string, fails: bool, n: nat, l: Line)
    requires Strtoul(line) == Some(n) && 0 < n < ULONG_MAX && n <= |d| && l == NextLine(d[n..], fails)
    ensures !l.ok ==> ReadChunks(line, d, fails) == Read(false, d[..n], l.rest)
    ensures l.ok && !IsCrlf(l.text) ==> ReadChunks(line, d, fails) == Read(true, d[..n], l.rest)
    ensures l.ok && IsCrlf(l.text) ==>
              ReadChunks(line, d, fails) == Prepend(d[..n], ReadChunked(l.rest, fails))
  {
  }

  lemma BehindLine(d: string, fails: bool, l: Line, got: string)
    requires l == NextLine(d, fails)
    ensures l.ok ==> ReadChunked(d, fails) == ReadChunks(l.text, l.rest, fails)
    ensures !l.ok ==> ReadChunked(d, fails) == Read(false, "", l.rest)
                      && Prepend(got, ReadChunked(d, fails)) == Read(false, got, l.rest)
  {
    assert got + "" == got;
  }

  /** Where no data follows. */
  lemma AtSize(line: string, d: string, fails: bool, r: Read)
    requires r == ReadChunks(line, d, fails)
    ensures Strtoul(line) == None || Strtoul(line) == Some(ULONG_MAX) ==> r == Read(false, "", d)
    ensures Strtoul(line) == Some(0) ==> var l := NextLine(d, fails); r == Read(l.ok && IsCrlf(l.text), "", l.rest)
  {
  }

  /** One turn of the loop of `read_content_chunked`, from a size line to the next, with the terminator
      behind the last chunk. */
  method ReadTurn(strm: InStream, lineReader: LineReader, out: Receiver) returns (turn: Turn, ghost got: string)
    requires lineReader.Valid() && lineReader.strm == strm && lineReader.fixed.Length >= 2
    modifies strm, lineReader, lineReader.fixed, out
    ensures lineReader.Valid() && out.received == old(out.received) + got
    ensures turn.Next? ==> |strm.Rest()| < |old(strm.Rest())|
    ensures Turned(ReadChunks(old(lineReader.Current()), old(strm.Rest()), strm.fails), strm.fails, turn, got,
              lineReader.Current(), strm.Rest(), AlwaysWilling(out))
  {
    var line := lineReader.Current();
    ghost var all := ReadChunks(line, strm.Rest(), strm.fails);
    AtSize(line, strm.Rest(), strm.fails, all);
    assert out.received + "" == out.received;
    var chunkLen := Strtoul(line);
    if chunkLen == None || chunkLen == Some(ULONG_MAX) {
      return Stop(false), "";
    }
    if chunkLen == Some(0) {
      var more := lineReader.GetLine();
      return Stop(more && IsCrlf(lineReader.Current())), "";
    }
    turn, got := ReadChunk(strm, lineReader, out, chunkLen.value, line);
  }

  lemma TakeTurn(whole: Read, before: string, r: Read, fails: bool, turn: Turn, got: string, line: string, rest: string,
      willing: bool)
    requires whole == Prepend(before, r) && Turned(r, fails, turn, got, line, rest, willing)
    ensures Turned(whole, fails, turn, before + got, line, rest, willing)
  {
    if turn.Stop? {
      Behind(before, r, turn.ok, got, rest, willing);
    } else {
      PrependTwice(before, got, ReadChunks(line, rest, fails));
    }
  }

  method ReadContentChunked(strm: InStream, out: Receiver) returns (ok: bool, ghost got: string)
    requires strm.Valid()
    modifies strm, out
    ensures strm.Valid() && out.received == old(out.received) + got
    ensures Delivered(ReadChunked(old(strm.Rest()), strm.fails), ok, got, strm.Rest(), AlwaysWilling(out))
  {
    ghost var d, fails, was, willing := strm.Rest(), strm.fails, out.received, AlwaysWilling(out);
    got := "";
    var buf := new char[16];
    var lineReader := new LineReader(strm, buf);
    var more := lineReader.GetLine();
    BehindLine(d, fails, Line(more, lineReader.Current(), strm.Rest()), "");
    if !more { return false, got; }
    ghost var whole := ReadChunks(lineReader.Current(), strm.Rest(), fails);
    PrependNothing(whole);
    assert was + got == was;
    while true
      invariant lineReader.Valid() && lineReader.strm == strm && lineReader.fixed == buf
      invariant Turned(whole, fails, Next, got, lineReader.Current(), strm.Rest(), willing)
      invariant out.received == was + got
      decreases |strm.Rest()|
    {
      ghost var before, left := got, ReadChunks(lineReader.Current(), strm.Rest(), fails);
      var turn, p := ReadTurn(strm, lineReader, out);
      TakeTurn(whole, before, left, fails, turn, p, lineReader.Current(), strm.Rest(), willing);
      Assoc(was, before, p);
      got := before + p;
      if turn.Stop? { return turn.ok, got; }
    }
  }
}
