// Byte strings as `comm/httplib.h` handles them: substring search, blanks, trimming.
module Text {
  import opened Wrappers

  const CRLF := "\r\n"

  lemma Assoc<T>(x: seq<T>, y: seq<T>, z: seq<T>)
    ensures x + (y + z) == (x + y) + z
  {
  }

  predicate OccursAt(s: string, p: string, i: nat) {
    i + |p| <= |s| && s[i..i + |p|] == p
  }

  predicate Contains(s: string, p: string) {
    exists i: nat | i <= |s| :: OccursAt(s, p, i)
  }

  /** The least index, at or after `i`, at which `p` occurs in `s`; -1 is `npos`. */
  function FindFrom(s: string, p: string, i: nat): (r: int)
    requires i <= |s|
    ensures -1 <= r
    ensures r >= 0 ==> i <= r && OccursAt(s, p, r)
    ensures forall j: nat :: i <= j && OccursAt(s, p, j) ==> 0 <= r <= j
    decreases |s| - i
  {
    if OccursAt(s, p, i) then i
    else if i == |s| then -1
    else FindFrom(s, p, i + 1)
  }

  function Find(s: string, p: string): (r: int)
    ensures -1 <= r
    ensures r >= 0 ==> OccursAt(s, p, r)
    ensures forall j: nat :: OccursAt(s, p, j) ==> 0 <= r <= j
  {
    FindFrom(s, p, 0)
  }

  lemma InsideOccurrence(s: string, d: string, j: nat, k: nat)
    requires OccursAt(s, d, j) && j < k < j + |d|
    ensures s[k] in d[1..]
  {
    assert s[k] == s[j..j + |d|][k - j] == d[1..][k - j - 1];
  }

  lemma NothingBefore(u: string, d: string, x: string, j: nat)
    requires d != "" && d[0] !in d[1..]
    requires !Contains(u, d) && j < |u|
    ensures !OccursAt(u + d + x, d, j)
  {
    var s := u + d + x;
    if j + |d| <= |u| {
      assert u[j..j + |d|] == s[j..j + |d|];
      assert !OccursAt(u, d, j);
    } else if OccursAt(s, d, j) {
      InsideOccurrence(s, d, j, |u|);
    }
  }

  /** A delimiter whose first character does not recur cannot overlap itself, so in `u + d + x` it
      is first found where it was put, provided `u` alone does not contain it. */
  lemma FirstOccurrence(u: string, d: string, x: string)
    requires d != "" && d[0] !in d[1..]
    requires !Contains(u, d)
    ensures forall j: nat :: OccursAt(u + d + x, d, j) ==> |u| <= j
    ensures OccursAt(u + d + x, d, |u|)
    ensures Find(u + d + x, d) == |u|
  {
    var s := u + d + x;
    forall j: nat | j < |u|
      ensures !OccursAt(s, d, j)
    {
      NothingBefore(u, d, x, j);
    }
    var k: nat := |u|;
    assert s[k..k + |d|] == d;
    assert OccursAt(s, d, k) && Find(s, d) <= k;
    var r: nat := Find(s, d);
    assert OccursAt(s, d, r);
  }

  /** As long as the delimiter is not wholly visible, nothing is found. */
  lemma NoEarlyOccurrence(u: string, d: string, s: string)
    requires d != "" && d[0] !in d[1..]
    requires !Contains(u, d)
    requires |s| < |u| + |d| && s <= u + d
    ensures Find(s, d) == -1
  {
    FirstOccurrence(u, d, "");
    assert u + d + "" == u + d;
    var r := Find(s, d);
    if r >= 0 {
      OccursInPrefix(s, u + d, d, r);
    }
  }

  lemma OccursInPrefix(s: string, t: string, p: string, i: nat)
    requires s <= t && OccursAt(s, p, i)
    ensures OccursAt(t, p, i)
  {
    assert t[i..i + |p|] == s[i..i + |p|];
  }

  lemma OccursInSuffix(s: string, k: nat, p: string, i: nat)
    requires k <= |s|
    ensures OccursAt(s[k..], p, i) <==> OccursAt(s, p, k + i)
  {
    if k + i + |p| <= |s| {
      assert s[k..][i..i + |p|] == s[k + i..k + i + |p|];
    }
  }

  predicate IsBlank(c: char) { c == ' ' || c == '\t' }

  function TrimLeft(s: string): (r: string)
  {
    if s != "" && IsBlank(s[0]) then TrimLeft(s[1..]) else s
  }

  function TrimRight(s: string): (r: string)
  {
    if s != "" && IsBlank(s[|s| - 1]) then TrimRight(s[..|s| - 1]) else s
  }

  function Trim(s: string): string { TrimRight(TrimLeft(s)) }

  predicate OuterBlank(s: string) {
    s != "" && (s[0] == ' ' || s[0] == '\t' || s[|s| - 1] == ' ' || s[|s| - 1] == '\t')
  }

  lemma {:induction false} TrimLeftEnds(s: string)
    ensures TrimLeft(s) != "" ==> !IsBlank(TrimLeft(s)[0])
  {
    if s != "" { TrimLeftEnds(s[1..]); }
  }

  lemma {:induction false} TrimRightEnds(s: string)
    ensures TrimRight(s) <= s
    ensures TrimRight(s) != "" ==> !IsBlank(TrimRight(s)[|TrimRight(s)| - 1])
  {
    if s != "" { TrimRightEnds(s[..|s| - 1]); }
  }

  lemma TrimmedEnds(s: string)
    ensures !OuterBlank(Trim(s))
  {
    TrimLeftEnds(s);
    TrimRightEnds(TrimLeft(s));
  }

  /** What is between the outer blanks is kept, and nothing else. */
  lemma TrimPadded(pre: string, s: string, post: string)
    requires forall c | c in pre + post :: IsBlank(c)
    requires s != "" ==> !IsBlank(s[0]) && !IsBlank(s[|s| - 1])
    ensures Trim(pre + s + post) == s
  {
    assert forall c | c in pre :: c in pre + post;
    assert forall c | c in post :: c in pre + post;
    if s == "" {
      assert pre + s + post == (pre + post) + "";
      TrimLeftPadded(pre + post, "");
    } else {
      assert pre + s + post == pre + (s + post);
      TrimLeftPadded(pre, s + post);
      TrimRightPadded(s, post);
    }
  }

  lemma TrimLeftPadded(pre: string, s: string)
    requires forall c | c in pre :: IsBlank(c)
    requires s != "" ==> !IsBlank(s[0])
    ensures TrimLeft(pre + s) == s
  {
    if pre == "" {
      assert pre + s == s;
    } else {
      assert (pre + s)[1..] == pre[1..] + s;
      TrimLeftPadded(pre[1..], s);
    }
  }

  lemma TrimRightPadded(s: string, post: string)
    requires forall c | c in post :: IsBlank(c)
    requires s != "" ==> !IsBlank(s[|s| - 1])
    ensures TrimRight(s + post) == s
  {
    if post == "" {
      assert s + post == s;
    } else {
      assert (s + post)[..|s + post| - 1] == s + post[..|post| - 1];
      TrimRightPadded(s, post[..|post| - 1]);
    }
  }

  function ToLower(c: char): char {
    if 'A' <= c <= 'Z' then c - 'A' + 'a' else c
  }

  /** `start_with`: a prefix up to letter case. */
  predicate StartsWith(a: string, b: string) {
    |b| <= |a| && forall i | 0 <= i < |b| :: ToLower(a[i]) == ToLower(b[i])
  }

  /** The same letter, perhaps once as a capital. */
  predicate SameLetter(c: char, d: char) {
    c == d || ('A' <= c <= 'Z' && d == c - 'A' + 'a') || ('A' <= d <= 'Z' && c == d - 'A' + 'a')
  }

  predicate SameLetters(a: string, b: string) {
    |a| == |b| && forall i | 0 <= i < |a| :: SameLetter(a[i], b[i])
  }

  lemma StartsWithLetters(a: string, b: string)
    ensures StartsWith(a, b) <==> |b| <= |a| && SameLetters(a[..|b|], b)
  {
    if |b| <= |a| {
      assert forall i | 0 <= i < |b| :: a[..|b|][i] == a[i];
    }
  }

  /** The C string inside a buffer: what comes before the first NUL. */
  function CString(s: string): (r: string)
    ensures r <= s
    ensures '\0' !in s ==> r == s
  {
    if s == "" || s[0] == '\0' then "" else [s[0]] + CString(s[1..])
  }

  /** The first index of `d`, or the length. */
  function Until(s: string, d: char): (k: nat)
    ensures k <= |s| && (k < |s| ==> s[k] == d)
  {
    if s == "" || s[0] == d then 0 else 1 + Until(s[1..], d)
  }

  lemma {:induction false} UntilFree(s: string, d: char)
    ensures d !in s[..Until(s, d)]
  {
    if s != "" && s[0] != d {
      UntilFree(s[1..], d);
      assert s[..1 + Until(s[1..], d)] == [s[0]] + s[1..][..Until(s[1..], d)];
    }
  }

  // Characters of the C library and of regular expressions

  predicate IsSpace(c: char) { c == ' ' || '\t' <= c <= '\r' }

  function SkipSpaces(s: string): (r: string)
    ensures |r| <= |s|
  {
    if s != "" && IsSpace(s[0]) then SkipSpaces(s[1..]) else s
  }

  predicate AllSpace(s: string) { forall c | c in s :: IsSpace(c) }

  lemma {:induction false} SpacesSkipped(s: string, x: string)
    requires AllSpace(s) && x != "" && !IsSpace(x[0])
    ensures SkipSpaces(s + x) == x
  {
    if s == "" {
      assert s + x == x;
    } else {
      assert s[0] in s && forall c | c in s[1..] :: c in s;
      assert (s + x)[1..] == s[1..] + x;
      SpacesSkipped(s[1..], x);
    }
  }

  lemma {:induction false} SkippedSpaces(a: string)
    ensures var k := |a| - |SkipSpaces(a)|; a == a[..k] + SkipSpaces(a) && AllSpace(a[..k])
  {
    if a != "" && IsSpace(a[0]) {
      var t, x := a[1..], SkipSpaces(a);
      SkippedSpaces(t);
      var j := |t| - |x|;
      SpaceInFront(a[0], t[..j], x);
      assert a == [a[0]] + t && t == t[..j] + x && a[..j + 1] == [a[0]] + t[..j];
    }
  }

  lemma SpaceInFront(c: char, s: string, x: string)
    requires IsSpace(c) && AllSpace(s)
    ensures AllSpace([c] + s) && [c] + (s + x) == ([c] + s) + x
  {
  }

  function HexValue(c: char): Option<nat> {
    if '0' <= c <= '9' then Some(c as int - '0' as int)
    else if 'A' <= c <= 'F' then Some(c as int - 'A' as int + 10)
    else if 'a' <= c <= 'f' then Some(c as int - 'a' as int + 10)
    else None
  }

  // Lists of keys and values

  /** All the characters in them. */
  function Weight(ps: seq<(string, string)>): nat {
    if ps == [] then 0 else |ps[0].0| + |ps[0].1| + Weight(ps[1..])
  }

  lemma {:induction false} WeightParts(a: seq<(string, string)>, b: seq<(string, string)>)
    ensures Weight(a + b) == Weight(a) + Weight(b)
  {
    if a == [] {
      assert a + b == b;
    } else {
      assert (a + b)[1..] == a[1..] + b;
      WeightParts(a[1..], b);
    }
  }
}
