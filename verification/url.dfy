// Percent-encoding in `comm/httplib.h`. A byte is a char below 256.
module Url {
  import opened Text
  import opened Wrappers

  predicate Bytes(s: string) { forall i | 0 <= i < |s| :: s[i] as int < 256 }

  // Hexadecimal digits

  function HexDigit(n: nat): char
    requires n < 16
  {
    if n < 10 then '0' + n as char else 'A' + (n - 10) as char
  }

  /** `from_hex_to_i`: exactly `cnt` digits at the front of `s`, on top of `acc`. */
  function HexPrefix(s: string, cnt: nat, acc: nat): Option<nat> {
    if cnt == 0 then Some(acc)
    else if s == "" || HexValue(s[0]).None? then None
    else HexPrefix(s[1..], cnt - 1, acc * 16 + HexValue(s[0]).value)
  }

  /** `to_utf8` for the codes four digits can give; a surrogate gives nothing. */
  function ToUtf8(code: nat): string {
    if code < 0x80 then [code as char]
    else if code < 0x800 then [(0xC0 + code / 64 % 32) as char, (0x80 + code % 64) as char]
    else if code < 0xD800 then Three(code)
    else if code < 0xE000 then ""
    else if code < 0x1_0000 then Three(code)
    else ""
  }

  function Three(code: nat): string {
    [(0xE0 + code / 4096 % 16) as char, (0x80 + code / 64 % 64) as char, (0x80 + code % 64) as char]
  }

  // Encoding and decoding

  predicate Escaped(c: char) {
    c in " +\r\n',;" || c as int >= 0x80
  }

  function EncodeChar(c: char): string
    requires c as int < 256
  {
    if Escaped(c) then ['%', HexDigit(c as int / 16), HexDigit(c as int % 16)] else [c]
  }

  /** `encode_url` stops at the first NUL. */
  function Encode(s: string): string
    requires Bytes(s)
  {
    if s == "" || s[0] == '\0' then "" else EncodeChar(s[0]) + Encode(s[1..])
  }

  /** What the front of `s` stands for, and how many characters it takes. */
  function DecodeFront(s: string, plus: bool): (r: (string, nat))
    requires s != ""
    ensures 0 < r.1 <= |s|
  {
    if s[0] == '%' && |s| > 1 then
      if s[1] == 'u' then
        HexPrefixFits(s[2..], 4, 0);
        if |s| > 2 && HexPrefix(s[2..], 4, 0).Some? then (ToUtf8(HexPrefix(s[2..], 4, 0).value), 6) else ("%", 1)
      else
        HexPrefixFits(s[1..], 2, 0);
        if HexPrefix(s[1..], 2, 0).Some? then ([HexPrefix(s[1..], 2, 0).value as char], 3) else ("%", 1)
    else if plus && s[0] == '+' then (" ", 1)
    else ([s[0]], 1)
  }

  lemma {:induction false} HexPrefixFits(s: string, cnt: nat, acc: nat)
    ensures var r := HexPrefix(s, cnt, acc); r.Some? ==> cnt <= |s| && r.value < (acc + 1) * Pow16(cnt)
  {
    if cnt > 0 && s != "" && HexValue(s[0]).Some? {
      var d := HexValue(s[0]).value;
      HexPrefixFits(s[1..], cnt - 1, acc * 16 + d);
      PowBound(acc, d, Pow16(cnt - 1));
    }
  }

  function Pow16(n: nat): nat { if n == 0 then 1 else 16 * Pow16(n - 1) }

  lemma PowBound(acc: nat, d: nat, p: nat)
    requires d < 16
    ensures (acc * 16 + d + 1) * p <= (acc + 1) * (16 * p)
  {
    assert (acc + 1) * (16 * p) == (acc * 16 + 16) * p;
    assert (acc * 16 + 16) * p - (acc * 16 + d + 1) * p == (15 - d) * p;
  }

  function Decode(s: string, plus: bool): string {
    if s == "" then ""
    else
      var r := DecodeFront(s, plus);
      r.0 + Decode(s[r.1..], plus)
  }

  /** One encoded character is decoded as itself, whatever follows and whether or not plus signs
      stand for blanks. */
  lemma DecodeChar(c: char, rest: string, plus: bool)
    requires c as int < 256 && c != '%' && c != '\0'
    ensures Decode(EncodeChar(c) + rest, plus) == [c] + Decode(rest, plus)
  {
    var s := EncodeChar(c) + rest;
    if Escaped(c) {
      var n := c as int;
      assert s == ['%', HexDigit(n / 16), HexDigit(n % 16)] + rest;
      TwoDigits(s[1..], n);
      assert DecodeFront(s, plus) == ([c], 3);
      assert s[3..] == rest;
    } else {
      assert DecodeFront(s, plus) == ([c], 1);
      assert s[1..] == rest;
    }
  }

  lemma TwoDigits(s: string, n: nat)
    requires n < 256 && |s| >= 2 && s[0] == HexDigit(n / 16) && s[1] == HexDigit(n % 16)
    ensures HexPrefix(s, 2, 0) == Some(n)
    ensures s[0] != 'u'
  {
    assert HexValue(s[0]) == Some(n / 16) && HexValue(s[1]) == Some(n % 16);
    assert HexPrefix(s[1..], 1, n / 16) == HexPrefix(s[1..][1..], 0, n);
  }

  // Which strings are kept

  predicate IsHex(c: char) { '0' <= c <= '9' || 'A' <= c <= 'F' || 'a' <= c <= 'f' }

  /** At `i` stands a percent sign with two hexadecimal digits, or with a `u` and four of them. */
  predicate EscapeAt(v: string, i: nat) {
    && i < |v| && v[i] == '%'
    && (|| (i + 2 < |v| && IsHex(v[i + 1]) && IsHex(v[i + 2]))
        || (i + 5 < |v| && v[i + 1] == 'u'
            && IsHex(v[i + 2]) && IsHex(v[i + 3]) && IsHex(v[i + 4]) && IsHex(v[i + 5])))
  }

  predicate NoEscape(v: string) { forall i | 0 <= i < |v| :: !EscapeAt(v, i) }

  lemma OneHex(s: string, cnt: nat, acc: nat)
    requires cnt > 0
    ensures HexPrefix(s, cnt, acc).Some? <==>
              s != "" && IsHex(s[0]) && HexPrefix(s[1..], cnt - 1, acc * 16 + HexValue(s[0]).value).Some?
  {
  }

  lemma TwoHex(s: string, acc: nat)
    ensures HexPrefix(s, 2, acc).Some? <==> |s| >= 2 && IsHex(s[0]) && IsHex(s[1])
  {
    OneHex(s, 2, acc);
    if s != "" && IsHex(s[0]) {
      OneHex(s[1..], 1, acc * 16 + HexValue(s[0]).value);
    }
  }

  lemma FourHex(s: string)
    ensures HexPrefix(s, 4, 0).Some? <==>
              |s| >= 4 && IsHex(s[0]) && IsHex(s[1]) && IsHex(s[2]) && IsHex(s[3])
  {
    OneHex(s, 4, 0);
    if s != "" && IsHex(s[0]) {
      var acc := HexValue(s[0]).value;
      OneHex(s[1..], 3, acc);
      if |s| > 1 && IsHex(s[1]) {
        TwoHex(s[1..][1..], acc * 16 + HexValue(s[1]).value);
      }
    }
  }

  /** The decoder takes more than one character exactly at an escape. */
  lemma FrontIsEscape(v: string, plus: bool)
    requires v != ""
    ensures DecodeFront(v, plus).1 != 1 <==> EscapeAt(v, 0)
  {
    if |v| > 1 {
      TwoHex(v[1..], 0);
      FourHex(v[2..]);
    }
  }

  lemma NoEscapeCons(v: string)
    requires v != ""
    ensures NoEscape(v) <==> DecodeFront(v, false).1 == 1 && NoEscape(v[1..])
  {
    FrontIsEscape(v, false);
    assert forall i: nat :: EscapeAt(v[1..], i) <==> EscapeAt(v, i + 1);
    if NoEscape(v[1..]) && !EscapeAt(v, 0) {
      forall i: nat | i < |v|
        ensures !EscapeAt(v, i)
      {
        if i > 0 { assert EscapeAt(v[1..], i - 1) <==> EscapeAt(v, i); }
      }
    }
  }

  lemma FrontShrinks(v: string, plus: bool)
    requires v != ""
    ensures var r := DecodeFront(v, plus);
            if r.1 > 1 then |r.0| < r.1 else r.0 == if plus && v[0] == '+' then " " else [v[0]]
    ensures DecodeFront(v, plus).1 == DecodeFront(v, false).1
  {
  }

  /** A front of length `n` and what follows, read back as `front` and `tail`. */
  lemma Rebuilt(v: string, front: string, n: nat, tail: string)
    requires 0 < n <= |v| && |tail| <= |v| - n
    requires if n == 1 then |front| == 1 else |front| < n
    ensures |front + tail| <= |v|
    ensures |front + tail| == |v| <==> n == 1 && |tail| == |v| - 1
    ensures front + tail == v <==> n == 1 && front == [v[0]] && tail == v[1..]
  {
    if n == 1 {
      assert v == [v[0]] + v[1..];
      assert (front + tail)[1..] == tail && (front + tail)[0] == front[0];
      assert front == [front[0]];
    }
  }

  /** A string decodes to itself exactly when it has no escape and, where those stand for blanks, no plus
      sign. */
  lemma {:induction false} DecodesToItself(v: string, plus: bool)
    ensures |Decode(v, plus)| <= |v|
    ensures |Decode(v, plus)| == |v| <==> NoEscape(v)
    ensures Decode(v, plus) == v <==> NoEscape(v) && (plus ==> '+' !in v)
  {
    if v != "" {
      var r := DecodeFront(v, plus);
      DecodesToItself(v[r.1..], plus);
      NoEscapeCons(v);
      FrontShrinks(v, plus);
      Rebuilt(v, r.0, r.1, Decode(v[r.1..], plus));
      assert '+' in v <==> v[0] == '+' || '+' in v[1..];
    }
  }

  lemma HexKept(t: string)
    requires Bytes(t)
    ensures t == "" ==> Encode(t) == ""
    ensures t != "" && HexValue(t[0]).Some? ==> Encode(t) == [t[0]] + Encode(t[1..])
    ensures t != "" && HexValue(t[0]).None? ==> Encode(t) == "" || HexValue(Encode(t)[0]).None?
  {
  }

  lemma DropBehindFirst(s: string, k: nat)
    requires 0 < k <= |s|
    ensures s[k..] == s[1..][k - 1..]
  {
  }

  /** The encoder leaves hexadecimal digits alone. */
  lemma {:induction false} HexThrough(t: string, cnt: nat, acc: nat)
    requires Bytes(t)
    ensures HexPrefix(Encode(t), cnt, acc) == HexPrefix(t, cnt, acc)
    ensures HexPrefix(t, cnt, acc).Some? ==>
              cnt <= |t| && cnt <= |Encode(t)| && Encode(t)[cnt..] == Encode(t[cnt..])
  {
    hide Encode, HexValue;
    HexKept(t);
    if cnt > 0 && t != "" && HexValue(t[0]).Some? {
      var e, v := Encode(t), acc * 16 + HexValue(t[0]).value;
      HexThrough(t[1..], cnt - 1, v);
      assert e[0] == t[0] && e[1..] == Encode(t[1..]);
      if HexPrefix(t[1..], cnt - 1, v).Some? {
        DropBehindFirst(t, cnt);
        DropBehindFirst(e, cnt);
      }
    }
  }

  /** What `DecodeFront` makes of a percent sign with `t` behind it. */
  lemma FrontAtPercent(s: string, t: string, plus: bool)
    requires s == "%" + t
    ensures DecodeFront(s, plus) ==
      if t == "" then ("%", 1)
      else if t[0] == 'u' then
        (if HexPrefix(t[1..], 4, 0).Some? then (ToUtf8(HexPrefix(t[1..], 4, 0).value), 6) else ("%", 1))
      else if HexPrefix(t, 2, 0).Some? then (DecodeFront(s, plus).0, 3) else ("%", 1)
    ensures t != "" && t[0] != 'u' && HexPrefix(t, 2, 0).Some? ==>
              HexPrefix(t, 2, 0).value < 256 && DecodeFront(s, plus).0 == [HexPrefix(t, 2, 0).value as char]
  {
    hide HexPrefix;
    HexPrefixFits(t, 2, 0);
    assert s[1..] == t && (t != "" ==> s[2..] == t[1..]);
    if t != "" { HexPrefixFits(t[1..], 4, 0); }
  }

  lemma EncodedHead(t: string)
    requires Bytes(t) && t != "" && t[0] != '\0'
    ensures Encode(t) != "" && (t[0] == 'u' ==> Encode(t) == "u" + Encode(t[1..]))
    ensures t[0] != 'u' ==> Encode(t)[0] != 'u'
  {
  }

  lemma EncodedPercent(s: string)
    requires Bytes(s) && s != "" && s[0] == '%'
    ensures Encode(s) == "%" + Encode(s[1..])
  {
  }

  /** At a percent sign that was already there, the decoder sees in the encoded text what it would have
      seen in the text itself. */
  lemma PercentThrough(s: string, plus: bool)
    requires Bytes(s) && s != "" && s[0] == '%'
    ensures var r := DecodeFront(s, plus);
            r == DecodeFront(Encode(s), plus) && Encode(s)[r.1..] == Encode(s[r.1..])
  {
    hide Encode, HexPrefix, DecodeFront, ToUtf8;
    var t, e := s[1..], Encode(s[1..]);
    EncodedPercent(s);
    assert s == "%" + t && Encode(s)[1..] == e;
    FrontAtPercent(s, t, plus);
    FrontAtPercent(Encode(s), e, plus);
    if t == "" || t[0] == '\0' {
      NothingBehind(t);
    } else {
      EncodedHead(t);
      if t[0] == 'u' {
        HexThrough(t[1..], 4, 0);
        assert e[1..] == Encode(t[1..]);
        if HexPrefix(t[1..], 4, 0).Some? { DropSix(s, t); DropSix(Encode(s), e); }
      } else {
        HexThrough(t, 2, 0);
        if HexPrefix(t, 2, 0).Some? {
          assert Encode(s)[3..] == e[2..] && s[3..] == t[2..];
        }
      }
    }
  }

  lemma NothingBehind(t: string)
    requires Bytes(t) && (t == "" || t[0] == '\0')
    ensures Encode(t) == "" && HexPrefix(t, 2, 0).None? && (t != "" ==> t[0] != 'u')
  {
  }

  lemma DropSix(s: string, t: string)
    requires s == "%" + t && |t| >= 5
    ensures s[6..] == t[1..][4..]
  {
  }

  /** Decoding undoes encoding exactly on the byte strings without a NUL and without an escape: the
      encoder does not protect the percent sign. */
  lemma {:induction false} DecodeEncode(s: string, plus: bool)
    requires Bytes(s)
    ensures |Decode(Encode(s), plus)| <= |s|
    ensures |Decode(Encode(s), plus)| == |s| <==> '\0' !in s && NoEscape(s)
    ensures Decode(Encode(s), plus) == s <==> '\0' !in s && NoEscape(s)
  {
    if s != "" && s[0] != '\0' {
      NoEscapeCons(s);
      FrontShrinks(s, false);
      assert '\0' in s <==> '\0' in s[1..];
      if s[0] == '%' {
        var r := DecodeFront(s, plus);
        PercentThrough(s, plus);
        FrontShrinks(s, plus);
        DecodeEncode(s[r.1..], plus);
        Rebuilt(s, r.0, r.1, Decode(Encode(s[r.1..]), plus));
      } else {
        assert DecodeFront(s, false).1 == 1;
        DecodeChar(s[0], Encode(s[1..]), plus);
        DecodeEncode(s[1..], plus);
        Rebuilt(s, [s[0]], 1, Decode(Encode(s[1..]), plus));
      }
    }
  }

  // Encoding and decoding, spelled out

  /** The value of two hexadecimal digits. */
  function Two(a: char, b: char): nat
    requires IsHex(a) && IsHex(b)
  {
    HexValue(a).value * 16 + HexValue(b).value
  }

  /** A text is decoded from the left: an escape as what it stands for, anything else as itself, but for a plus
      sign where that stands for a blank. */
  lemma DecodedFromTheLeft(s: string, plus: bool)
    requires s != ""
    ensures !EscapeAt(s, 0) ==> Decode(s, plus) == [if plus && s[0] == '+' then ' ' else s[0]] + Decode(s[1..], plus)
    ensures EscapeAt(s, 0) && s[1] != 'u' ==> Decode(s, plus) == [Two(s[1], s[2]) as char] + Decode(s[3..], plus)
    ensures EscapeAt(s, 0) && s[1] == 'u' ==>
              Decode(s, plus) == ToUtf8(Two(s[2], s[3]) * 256 + Two(s[4], s[5])) + Decode(s[6..], plus)
  {
    FrontIsEscape(s, plus);
    FrontShrinks(s, plus);
    if EscapeAt(s, 0) {
      if s[1] == 'u' {
        FourDigits(s[2..]);
      } else {
        assert HexPrefix(s[1..][1..], 1, HexValue(s[1]).value) == HexPrefix(s[1..][1..][1..], 0, Two(s[1], s[2]));
      }
    }
  }

  lemma FourDigits(s: string)
    requires |s| >= 4 && IsHex(s[0]) && IsHex(s[1]) && IsHex(s[2]) && IsHex(s[3])
    ensures HexPrefix(s, 4, 0) == Some(Two(s[0], s[1]) * 256 + Two(s[2], s[3]))
  {
    var t, u, v := s[1..], s[1..][1..], s[1..][1..][1..];
    var a, b := HexValue(s[0]).value, Two(s[0], s[1]);
    assert HexPrefix(s, 4, 0) == HexPrefix(t, 3, a) == HexPrefix(u, 2, b);
    assert HexPrefix(u, 2, b) == HexPrefix(v, 1, b * 16 + HexValue(s[2]).value);
    assert HexPrefix(v, 1, b * 16 + HexValue(s[2]).value)
        == HexPrefix(v[1..], 0, (b * 16 + HexValue(s[2]).value) * 16 + HexValue(s[3]).value);
  }

  /** What UTF-8 (section 3 of RFC 3629) makes of one, two or three bytes. */
  function FromUtf8(u: string): Option<nat> {
    if |u| == 1 && u[0] as int < 0x80 then Some(u[0] as int)
    else if |u| == 2 && 0xC2 <= u[0] as int < 0xE0 && Continues(u[1]) then
      Some((u[0] as int - 0xC0) * 64 + (u[1] as int - 0x80))
    else if |u| == 3 && 0xE0 <= u[0] as int < 0xF0 && Continues(u[1]) && Continues(u[2])
            && (u[0] as int == 0xE0 ==> u[1] as int >= 0xA0) then
      Some(((u[0] as int - 0xE0) * 64 + (u[1] as int - 0x80)) * 64 + (u[2] as int - 0x80))
    else None
  }

  predicate Continues(c: char) { 0x80 <= c as int < 0xC0 }

  /** Every code that four digits can give is put into UTF-8, in its shortest form; only surrogates give
      nothing. */
  lemma Utf8Back(code: nat)
    requires code < 0x1_0000
    ensures if 0xD800 <= code < 0xE000 then ToUtf8(code) == "" else FromUtf8(ToUtf8(code)) == Some(code)
  {
    if code >= 0x800 {
      assert code / 4096 % 16 == code / 4096 && code / 64 % 64 == code / 64 - code / 4096 * 64;
      assert code == (code / 4096 * 64 + code / 64 % 64) * 64 + code % 64;
    } else if code >= 0x80 {
      assert code / 64 % 32 == code / 64;
    }
  }

  /** The characters that are sent as escapes. */
  predicate MustEscape(c: char) {
    || c == ' ' || c == '+' || c == '\r' || c == '\n' || c == '\'' || c == ',' || c == ';'
    || c as int >= 0x80
  }

  /** No such character is left in an encoded text, and a text is its own encoding exactly when it holds none of
      them and no NUL. */
  lemma {:induction false} EncodedExactly(s: string)
    requires Bytes(s)
    ensures forall c | c in Encode(s) :: !MustEscape(c)
    ensures Encode(s) == s <==> '\0' !in s && forall c | c in s :: !MustEscape(c)
  {
    if s != "" && s[0] != '\0' {
      EncodedExactly(s[1..]);
      EncodedCons(s[0], s[1..], Encode(s[1..]));
      assert s == [s[0]] + s[1..];
    }
  }

  lemma EncodedCons(c: char, t: string, f: string)
    requires c as int < 256 && forall x | x in f :: !MustEscape(x)
    ensures forall x | x in EncodeChar(c) + f :: !MustEscape(x)
    ensures EncodeChar(c) + f == [c] + t <==> !MustEscape(c) && f == t
  {
    var e := EncodeChar(c);
    if MustEscape(c) {
      assert (e + f)[0] == '%' && c != '%';
    } else {
      assert e == [c] && (e + f)[1..] == f && ([c] + t)[1..] == t;
    }
  }

  // The loops

  method EncodeUrl(s: string) returns (result: string)
    requires Bytes(s)
    ensures result == Encode(s)
  {
    result := "";
    var i := 0;
    while i < |s| && s[i] != '\0'
      invariant i <= |s|
      invariant result + Encode(s[i..]) == Encode(s)
      decreases |s| - i
    {
      var c := s[i] as int;
      ghost var before := result;
      if Escaped(s[i]) {
        result := result + ['%', HexDigit(c / 16), HexDigit(c % 16)];
      } else {
        result := result + [s[i]];
      }
      EncodeStep(s, i, before, result);
      i := i + 1;
    }
  }

  lemma EncodeStep(s: string, i: nat, before: string, result: string)
    requires Bytes(s) && i < |s| && s[i] != '\0' && result == before + EncodeChar(s[i])
    ensures before + Encode(s[i..]) == result + Encode(s[i + 1..])
  {
    assert s[i..][1..] == s[i + 1..];
  }

  method FromHexToI(s: string, at: nat, cnt: nat) returns (val: Option<nat>)
    requires at <= |s|
    ensures val == if at >= |s| then None else HexPrefix(s[at..], cnt, 0)
  {
    if at >= |s| { return None; }
    var v: nat, i: nat, left: nat := 0, at, cnt;
    while left > 0
      invariant at <= i <= |s| && left <= cnt
      invariant HexPrefix(s[at..], cnt, 0) == HexPrefix(s[i..], left, v)
    {
      if i == |s| || HexValue(s[i]).None? { return None; }
      assert s[i..][1..] == s[i + 1..];
      v := v * 16 + HexValue(s[i]).value;
      i, left := i + 1, left - 1;
    }
    return Some(v);
  }

  method DecodeUrl(s: string, plus: bool) returns (result: string)
    ensures result == Decode(s, plus)
  {
    result := "";
    var i := 0;
    while i < |s|
      invariant i <= |s|
      invariant result + Decode(s[i..], plus) == Decode(s, plus)
    {
      ghost var before, at := result, i;
      if s[i] == '%' && i + 1 < |s| {
        if s[i + 1] == 'u' {
          var val := FromHexToI(s, i + 2, 4);
          Front(s, i, plus, val);
          match val
          case Some(code) =>
            result := result + ToUtf8(code);
            i := i + 5;
          case None => result := result + [s[i]];
        } else {
          var val := FromHexToI(s, i + 1, 2);
          Front(s, i, plus, val);
          match val
          case Some(code) =>
            result := result + [code as char];
            i := i + 2;
          case None => result := result + [s[i]];
        }
      } else if plus && s[i] == '+' {
        result := result + " ";
      } else {
        result := result + [s[i]];
      }
      i := i + 1;
      DecodeStep(s, plus, at, i, before, result);
    }
  }

  /** What an escape at `i` amounts to. */
  lemma Front(s: string, i: nat, plus: bool, val: Option<nat>)
    requires i + 1 < |s| && s[i] == '%'
    requires
      var at, cnt := if s[i + 1] == 'u' then i + 2 else i + 1, if s[i + 1] == 'u' then 4 else 2;
      val == if at >= |s| then None else HexPrefix(s[at..], cnt, 0)
    ensures val.Some? ==> val.value < (if s[i + 1] == 'u' then 0x1_0000 else 256)
    ensures DecodeFront(s[i..], plus) ==
      if val.None? then ("%", 1)
      else if s[i + 1] == 'u' then (ToUtf8(val.value), 6)
      else ([val.value as char], 3)
    ensures val.Some? ==> i + (if s[i + 1] == 'u' then 6 else 3) <= |s|
  {
    var t := s[i..];
    if s[i + 1] == 'u' {
      assert t[2..] == s[i + 2..];
      HexPrefixFits(t[2..], 4, 0);
      assert Pow16(4) == 0x1_0000;
    } else {
      assert t[1..] == s[i + 1..];
      HexPrefixFits(t[1..], 2, 0);
    }
  }

  lemma DecodeStep(s: string, plus: bool, at: nat, i: nat, before: string, result: string)
    requires at < |s| && i <= |s|
    requires var r := DecodeFront(s[at..], plus); i == at + r.1 && result == before + r.0
    ensures before + Decode(s[at..], plus) == result + Decode(s[i..], plus)
  {
    var r := DecodeFront(s[at..], plus);
    assert s[at..][r.1..] == s[i..];
    Assoc(before, r.0, Decode(s[i..], plus));
  }

}
