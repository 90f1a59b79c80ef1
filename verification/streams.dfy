// A byte stream with arbitrary short reads and writes, and `stream_line_reader` over it.
module Streams {
  import opened Text

  /** The receiving end of a connection. `cuts` decides how many bytes each read gives, at least one
      while there are any; after the last byte a read reports the end, or an error if `fails`. */
  class InStream {
    const data: string
    const fails: bool
    const cuts: nat -> nat
    var pos: nat
    var taken: nat

    ghost predicate Valid()
      reads this
    {
      pos <= |data|
    }

    function Rest(): string
      requires Valid()
      reads this
    {
      data[pos..]
    }

    constructor (data: string, fails: bool, cuts: nat -> nat)
      ensures Valid() && Rest() == data && this.fails == fails
    {
      this.data, this.fails, this.cuts := data, fails, cuts;
      pos, taken := 0, 0;
    }

    method Read(n: nat) returns (r: int, s: string)
      requires Valid() && n > 0
      modifies this
      ensures Valid() && old(Rest()) == s + Rest() && |s| <= n
      ensures r == if old(Rest()) == "" then (if fails then -1 else 0) else |s|
      ensures old(Rest()) != "" ==> s != ""
    {
      taken := taken + 1;
      if pos == |data| {
        return if fails then -1 else 0, "";
      }
      var most := if n <= |data| - pos then n else |data| - pos;
      var k := 1 + cuts(taken) % most;
      s := data[pos..pos + k];
      r := k;
      pos := pos + k;
    }
  }

  /** The sending end. `cuts` decides how many bytes each write takes, at least one; from the write
      numbered `breaks` on, every write fails. */
  class OutStream {
    const cuts: nat -> nat
    const breaks: nat
    var sent: string
    var taken: nat
    var broken: bool

    constructor (cuts: nat -> nat, breaks: nat)
      ensures sent == "" && !broken
    {
      this.cuts, this.breaks := cuts, breaks;
      sent, taken, broken := "", 0, false;
    }

    method Write(d: string) returns (n: int)
      requires d != ""
      modifies this
      ensures broken == (old(broken) || n < 0)
      ensures n <= |d| && sent == old(sent) + if n < 0 then "" else d[..n]
      ensures n != 0
    {
      if taken >= breaks {
        broken := true;
        return -1;
      }
      taken := taken + 1;
      var k := 1 + cuts(taken) % |d|;
      sent := sent + d[..k];
      return k;
    }

    /** `write_data`. */
    method WriteData(d: string) returns (ok: bool)
      modifies this
      ensures ok ==> sent == old(sent) + d && broken == old(broken)
      ensures !ok ==> broken && exists k | 0 <= k < |d| :: sent == old(sent) + d[..k]
    {
      var offset := 0;
      while offset < |d|
        invariant offset <= |d| && sent == old(sent) + d[..offset] && broken == old(broken)
      {
        var length := Write(d[offset..]);
        if length < 0 {
          return false;
        }
        assert d[..offset] + d[offset..][..length] == d[..offset + length];
        offset := offset + length;
      }
      return true;
    }
  }

  // Lines

  /** The length of the first line with its line feed, or of all of `d` when there is none. */
  function LineEnd(d: string): (n: nat)
    ensures n <= |d|
  {
    if d == "" then 0 else if d[0] == '\n' then 1 else 1 + LineEnd(d[1..])
  }

  datatype Line = Line(ok: bool, text: string, rest: string)

  /** What `getline` makes of the bytes still to come: a last line without a line feed counts, unless
      the stream breaks off. */
  function NextLine(d: string, fails: bool): (l: Line)
    ensures l.text + l.rest == d
    ensures l.ok ==> |l.rest| < |d|
  {
    var n := LineEnd(d);
    Line(n > 0 && (d[n - 1] == '\n' || !fails), d[..n], d[n..])
  }

  /** A line holds no line feed but its last character. */
  lemma {:induction false} LineEndIsFirst(d: string)
    ensures var n := LineEnd(d); n > 0 ==> '\n' !in d[..n - 1] && (d[n - 1] != '\n' ==> n == |d|)
  {
    if d != "" && d[0] != '\n' {
      LineEndIsFirst(d[1..]);
      var n := LineEnd(d[1..]);
      if n > 0 {
        assert d[..n] == [d[0]] + d[1..][..n - 1];
      }
    }
  }

  lemma {:induction false} LineEndAt(l: string, rest: string)
    requires '\n' !in l
    ensures LineEnd(l + "\n" + rest) == |l| + 1
    ensures LineEnd(l) == |l|
  {
    if l == "" {
      assert l + "\n" + rest == "\n" + rest;
    } else {
      assert l[0] in l && forall c | c in l[1..] :: c in l;
      assert (l + "\n" + rest)[1..] == l[1..] + "\n" + rest;
      LineEndAt(l[1..], rest);
    }
  }

  lemma LineWithFeed(l: string, rest: string, fails: bool)
    requires '\n' !in l
    ensures NextLine(l + "\n" + rest, fails) == Line(true, l + "\n", rest)
  {
    LineEndAt(l, rest);
    assert l + "\n" + rest == (l + "\n") + rest;
  }

  lemma LineWithCrlf(l: string, rest: string, fails: bool)
    requires '\n' !in l
    ensures NextLine(l + CRLF + rest, fails) == Line(true, l + CRLF, rest)
    ensures EndsWithCrlf(l + CRLF) && (l + CRLF)[..|l|] == l
  {
    var r := l + "\r";
    assert l + CRLF == r + "\n";
    LineWithFeed(r, rest, fails);
  }

  lemma LastLine(all: string, line: string, rest: string, fails: bool)
    requires all == line + rest && rest == "" && '\n' !in line
    ensures line == all && NextLine(all, fails) == Line(line != "" && !fails, line, "")
  {
    assert line == all;
    LineEndAt(all, "");
  }

  lemma MoveOne(before: string, s: string, rest: string)
    requires |s| == 1
    ensures before + (s + rest) == (before + [s[0]]) + rest
    ensures s[0] == '\n' ==> before + [s[0]] == before + "\n"
  {
    assert s == [s[0]];
  }

  predicate EndsWithCrlf(line: string) {
    |line| >= 2 && line[|line| - 2] == '\r' && line[|line| - 1] == '\n'
  }

  /** `stream_line_reader`: a line is kept in the caller's buffer while it fits with a terminating
      NUL, and in a growable string from then on. */
  class LineReader {
    const strm: InStream
    const fixed: array<char>
    var used: nat
    var growable: string

    ghost predicate Valid()
      reads this, fixed, strm
    {
      && strm.Valid()
      && used < fixed.Length
      && (used > 0 ==> fixed[used] == '\0')
      && (growable != "" ==> used + 1 == fixed.Length)
    }

    constructor (strm: InStream, fixed: array<char>)
      requires fixed.Length >= 2 && strm.Valid()
      ensures Valid() && this.strm == strm && this.fixed == fixed
    {
      this.strm, this.fixed := strm, fixed;
      used, growable := 0, "";
    }

    /** `ptr()` and `size()` together. */
    function Current(): string
      requires Valid()
      reads this, fixed, strm
    {
      if growable == "" then fixed[..used] else growable
    }

    method Append(c: char)
      requires Valid() && fixed.Length >= 2
      modifies this, fixed
      ensures Valid() && Current() == old(Current()) + [c]
    {
      if used < fixed.Length - 1 {
        fixed[used] := c;
        used := used + 1;
        fixed[used] := '\0';
      } else {
        if growable == "" {
          assert fixed[used] == '\0';
          growable := fixed[..used];
        }
        growable := growable + [c];
      }
    }

    method GetLine() returns (ok: bool)
      requires Valid() && fixed.Length >= 2
      modifies this, fixed, strm
      ensures Valid()
      ensures Line(ok, Current(), strm.Rest()) == NextLine(old(strm.Rest()), strm.fails)
    {
      used := 0;
      growable := "";
      ghost var all := strm.Rest();
      var i := 0;
      while true
        invariant Valid()
        invariant all == Current() + strm.Rest() && i == |Current()|
        invariant '\n' !in Current()
        decreases |strm.Rest()|
      {
        ghost var before, rest := Current(), strm.Rest();
        var n, s := strm.Read(1);
        if n <= 0 {
          LastLine(all, before, rest, strm.fails);
          return n == 0 && i != 0;
        }
        var byte := s[0];
        Append(byte);
        MoveOne(before, s, strm.Rest());
        if byte == '\n' {
          LineWithFeed(before, strm.Rest(), strm.fails);
          return true;
        }
        i := i + 1;
      }
    }
  }
}
