// Both variants of `skip_trailing_space` in `oj_server/include/m_string.h`, over `uint8korr` of
// `oj_server/include/byte_order_generic.h`.
module SkipSpace {

  type Byte = x: int | 0 <= x < 256

  const SPACE: Byte := 0x20

  // Specification

  predicate AllSpace(s: seq<Byte>, from: nat, to: nat)
    requires to <= |s|
  {
    forall i | from <= i < to :: s[i] == SPACE
  }

  /** Where the byte loop stops that starts at `end`. */
  function Stop(s: seq<Byte>, end: nat): (k: nat)
    requires end <= |s|
    ensures k <= end
  {
    if end > 0 && s[end - 1] == SPACE then Stop(s, end - 1) else end
  }

  /** It is the only place with nothing but spaces behind it and none before it. */
  lemma {:induction false} StopsThere(s: seq<Byte>, end: nat, k: nat)
    requires k <= end <= |s|
    ensures k == Stop(s, end) <==> AllSpace(s, k, end) && (k > 0 ==> s[k - 1] != SPACE)
  {
    if end > 0 && s[end - 1] == SPACE && k < end {
      StopsThere(s, end - 1, k);
    }
  }

  lemma {:induction false} StopBehindSpaces(s: seq<Byte>, from: nat, to: nat)
    requires from <= to <= |s| && AllSpace(s, from, to)
    ensures Stop(s, to) == Stop(s, from)
  {
    if from < to {
      StopBehindSpaces(s, from, to - 1);
    }
  }

  // Words

  /** Four bytes at `i`, the lowest first. */
  function Little4(s: seq<Byte>, i: nat): nat
    requires i + 4 <= |s|
  {
    0x100_0000 * s[i + 3] as int + 0x1_0000 * s[i + 2] as int + 0x100 * s[i + 1] as int + s[i] as int
  }

  /** `uint8korr`: neither half exceeds 32 bits, so nothing wraps. */
  function Uint8Korr(s: seq<Byte>, i: nat): nat
    requires i + 8 <= |s|
  {
    Little4(s, i) + Little4(s, i + 4) * 0x1_0000_0000
  }

  lemma FourSpaces(s: seq<Byte>, i: nat)
    requires i + 4 <= |s|
    ensures Little4(s, i) < 0x1_0000_0000
    ensures Little4(s, i) == 0x2020_2020 <==> AllSpace(s, i, i + 4)
  {
    if Little4(s, i) == 0x2020_2020 {
      assert s[i] == 0x20;
      assert s[i + 1] == 0x20;
      assert s[i + 2] == 0x20;
    }
  }

  lemma EightSpaces(s: seq<Byte>, i: nat)
    requires i + 8 <= |s|
    ensures Uint8Korr(s, i) == 0x2020_2020_2020_2020 <==> AllSpace(s, i, i + 8)
  {
    FourSpaces(s, i);
    FourSpaces(s, i + 4);
  }

  // The variant for everything but SPARC

  method SkipTrailingSpace(s: seq<Byte>) returns (end: nat)
    ensures end == Stop(s, |s|)
  {
    end := |s|;
    while end >= 8
      invariant end <= |s| && Stop(s, end) == Stop(s, |s|)
    {
      EightSpaces(s, end - 8);
      if Uint8Korr(s, end - 8) != 0x2020_2020_2020_2020 { break; }
      StopBehindSpaces(s, end - 8, end);
      end := end - 8;
    }
    while end > 0 && s[end - 1] == SPACE
      invariant end <= |s| && Stop(s, end) == Stop(s, |s|)
    {
      end := end - 1;
    }
  }

  // The SPARC variant

  /** A word of `w` bytes at `i`, the highest first. */
  function Big(s: seq<Byte>, i: nat, w: nat): nat
    requires i + w <= |s|
  {
    if w == 0 then 0 else Big(s, i, w - 1) * 256 + s[i + w - 1]
  }

  /** `SPACE_INT` for words of `w` bytes. */
  function SpaceInt(w: nat): nat { if w == 0 then 0 else SpaceInt(w - 1) * 256 + SPACE }

  lemma {:induction false} WordOfSpaces(s: seq<Byte>, i: nat, w: nat)
    requires i + w <= |s|
    ensures Big(s, i, w) == SpaceInt(w) <==> AllSpace(s, i, i + w)
  {
    if w > 0 {
      WordOfSpaces(s, i, w - 1);
      var x, y := Big(s, i, w - 1), SpaceInt(w - 1);
      assert x * 256 + s[i + w - 1] == y * 256 + SPACE <==> x == y && s[i + w - 1] == SPACE;
    }
  }

  lemma SpaceInts()
    ensures SpaceInt(4) == 0x2020_2020 && SpaceInt(8) == 0x2020_2020_2020_2020
  {
    assert SpaceInt(1) == 0x20 && SpaceInt(2) == 0x2020 && SpaceInt(3) == 0x20_2020;
    assert SpaceInt(5) == 0x20_2020_2020 && SpaceInt(6) == 0x2020_2020_2020;
    assert SpaceInt(7) == 0x20_2020_2020_2020;
  }

  function Down(x: nat, w: nat): nat
    requires w > 0
  {
    x / w * w
  }

  lemma DownIsNear(x: nat, w: nat)
    requires w in {4, 8}
    ensures Down(x, w) <= x < Down(x, w) + w && Down(x, w) % w == 0
  {
    if w == 4 {
      assert x / 4 * 4 <= x < x / 4 * 4 + 4;
    } else {
      assert x / 8 * 8 <= x < x / 8 * 8 + 8;
    }
  }

  lemma Apart(x: nat, y: nat, w: nat)
    requires w in {4, 8} && x % w == 0 && y % w == 0 && x < y
    ensures x + w <= y && (y - w) % w == 0
  {
  }

  /** The buffer starts at address `ptr`; only words at multiples of `w` are read as words. That
      `endWords > ptr` holds whatever the alignment. */
  method SkipTrailingSpaceAligned(s: seq<Byte>, ptr: nat, w: nat) returns (end: nat)
    requires w in {4, 8}
    ensures end == Stop(s, |s|)
  {
    end := |s|;
    if |s| > 20 {
      var endWords, startWords := Down(ptr + |s|, w), Down(ptr + w - 1, w);
      var spaceInt := if w == 4 then 0x2020_2020 else 0x2020_2020_2020_2020;
      SpaceInts();
      DownIsNear(ptr + |s|, w);
      DownIsNear(ptr + w - 1, w);
      assert endWords > ptr;
      while ptr + end > endWords && s[end - 1] == SPACE
        invariant endWords <= ptr + end && end <= |s| && Stop(s, end) == Stop(s, |s|)
      {
        end := end - 1;
      }
      if s[end - 1] == SPACE && startWords < endWords {
        while ptr + end > startWords
          invariant startWords <= ptr + end && end <= |s| && (ptr + end) % w == 0
          invariant Stop(s, end) == Stop(s, |s|)
        {
          Apart(startWords, ptr + end, w);
          WordOfSpaces(s, end - w, w);
          if Big(s, end - w, w) != spaceInt { break; }
          StopBehindSpaces(s, end - w, end);
          end := end - w;
        }
      }
    }
    while end > 0 && s[end - 1] == SPACE
      invariant end <= |s| && Stop(s, end) == Stop(s, |s|)
    {
      end := end - 1;
    }
  }
}
