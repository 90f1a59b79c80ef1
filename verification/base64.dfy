// `base64_encode` of `comm/httplib.h` against section 4 of RFC 4648.
module Base64 {

  type Byte = x: int | 0 <= x < 256

  const INT_RANGE := 0x1_0000_0000

  /** The character for six bits, the table `lookup`. */
  function Six(n: nat): char
    requires n < 64
  {
    if n < 26 then 'A' + n as char
    else if n < 52 then 'a' + (n - 26) as char
    else if n < 62 then '0' + (n - 52) as char
    else if n == 62 then '+' else '/'
  }

  /** It is table 1 of RFC 4648. */
  lemma StandardTable()
    ensures [Six(0), Six(1), Six(2), Six(3), Six(4), Six(5), Six(6), Six(7),
             Six(8), Six(9), Six(10), Six(11), Six(12), Six(13), Six(14), Six(15),
             Six(16), Six(17), Six(18), Six(19), Six(20), Six(21), Six(22), Six(23),
             Six(24), Six(25), Six(26), Six(27), Six(28), Six(29), Six(30), Six(31),
             Six(32), Six(33), Six(34), Six(35), Six(36), Six(37), Six(38), Six(39),
             Six(40), Six(41), Six(42), Six(43), Six(44), Six(45), Six(46), Six(47),
             Six(48), Six(49), Six(50), Six(51), Six(52), Six(53), Six(54), Six(55),
             Six(56), Six(57), Six(58), Six(59), Six(60), Six(61), Six(62), Six(63)]
         == "ABCDEFGHIJKLMNOPQRSTUVWXYZabcdefghijklmnopqrstuvwxyz0123456789+/"
  {
  }

  /** The six bits of a character, or 64. */
  function Bits(c: char): nat {
    if 'A' <= c <= 'Z' then c as int - 'A' as int
    else if 'a' <= c <= 'z' then c as int - 'a' as int + 26
    else if '0' <= c <= '9' then c as int - '0' as int + 52
    else if c == '+' then 62
    else if c == '/' then 63 else 64
  }

  lemma SixBits(n: nat)
    requires n < 64
    ensures Bits(Six(n)) == n && Six(n) != '='
  {
  }

  // Specification

  /** Bytes behind the end count as zero. */
  function At(s: seq<Byte>, i: nat): Byte { if i < |s| then s[i] else 0 }

  /** Six bits out of three bytes. */
  function Quarter(a: Byte, b: Byte, c: Byte, r: nat): (n: nat)
    ensures n < 64
  {
    if r == 0 then a / 4
    else if r == 1 then a % 4 * 16 + b / 16
    else if r == 2 then b % 16 * 4 + c / 64
    else c % 64
  }

  /** The `j`th six bits of `s`, three bytes making four of them. */
  function Sextet(s: seq<Byte>, j: nat): (n: nat)
    ensures n < 64
  {
    var g := j / 4 * 3;
    Quarter(At(s, g), At(s, g + 1), At(s, g + 2), j % 4)
  }

  /** How many characters carry the bits of `n` bytes; the rest of the last four is padding. */
  function Carriers(n: nat): nat { (4 * n + 2) / 3 }

  predicate Encodes(out: string, s: seq<Byte>) {
    && |out| == 4 * ((|s| + 2) / 3)
    && (forall j | 0 <= j < Carriers(|s|) :: j < |out| && out[j] == Six(Sextet(s, j)))
    && (forall j | Carriers(|s|) <= j < |out| :: out[j] == '=')
  }

  /** Byte `r` of a group is made of the six bits at `r` and after it. */
  function Third(x: nat, y: nat, r: nat): Byte {
    (if r == 0 then x * 4 + y / 16 else if r == 1 then x * 16 + y / 4 else x * 64 + y) % 256
  }

  function DecodedByte(t: string, i: nat): Byte
    requires i / 3 * 4 + i % 3 + 1 < |t|
  {
    var j := i / 3 * 4 + i % 3;
    Third(Bits(t[j]), Bits(t[j + 1]), i % 3)
  }

  function Padding(t: string): nat {
    if t == "" || t[|t| - 1] != '=' then 0 else if |t| < 2 || t[|t| - 2] != '=' then 1 else 2
  }

  function Decoded(t: string): seq<Byte>
    requires |t| % 4 == 0
  {
    seq(|t| / 4 * 3 - Padding(t), i requires 0 <= i < |t| / 4 * 3 - Padding(t) => DecodedByte(t, i))
  }

  lemma ThirdOfQuarters(a: Byte, b: Byte, c: Byte)
    ensures Third(Quarter(a, b, c, 0), Quarter(a, b, c, 1), 0) == a
    ensures Third(Quarter(a, b, c, 1), Quarter(a, b, c, 2), 1) == b
    ensures Third(Quarter(a, b, c, 2), Quarter(a, b, c, 3), 2) == c
  {
    FirstOfThree(a, b);
    SecondOfThree(a, b, c);
    ThirdOfThree(b, c);
  }

  lemma FirstOfThree(a: Byte, b: Byte)
    ensures Third(a / 4, a % 4 * 16 + b / 16, 0) == a
  {
    assert (a % 4 * 16 + b / 16) / 16 == a % 4;
  }

  lemma SecondOfThree(a: Byte, b: Byte, c: Byte)
    ensures Third(a % 4 * 16 + b / 16, b % 16 * 4 + c / 64, 1) == b
  {
    assert (b % 16 * 4 + c / 64) / 4 == b % 16;
    assert (a % 4 * 16 + b / 16) * 16 + b % 16 == a % 4 * 256 + b;
  }

  lemma ThirdOfThree(b: Byte, c: Byte)
    ensures Third(b % 16 * 4 + c / 64, c % 64, 2) == c
  {
    assert (b % 16 * 4 + c / 64) * 64 + c % 64 == b % 16 * 256 + c;
  }

  lemma SextetAt(s: seq<Byte>, g: nat, r: nat)
    requires r < 4
    ensures Sextet(s, 4 * g + r) == Quarter(At(s, g * 3), At(s, g * 3 + 1), At(s, g * 3 + 2), r)
  {
    assert (4 * g + r) / 4 == g && (4 * g + r) % 4 == r;
  }

  lemma Carried(s: seq<Byte>, out: string, g: nat, r: nat)
    requires Encodes(out, s) && r < 4 && 4 * g + r < Carriers(|s|)
    ensures 4 * g + r < |out|
    ensures Bits(out[4 * g + r]) == Quarter(At(s, g * 3), At(s, g * 3 + 1), At(s, g * 3 + 2), r)
  {
    SextetAt(s, g, r);
    SixBits(Sextet(s, 4 * g + r));
  }

  lemma BothCarried(n: nat, g: nat, r: nat)
    requires r < 3 && g * 3 + r < n
    ensures 4 * g + r + 1 < Carriers(n)
  {
  }

  lemma DecodedAt(t: string, i: nat, g: nat, r: nat)
    requires r < 3 && i == 3 * g + r && 4 * g + r + 1 < |t|
    ensures i / 3 * 4 + i % 3 == 4 * g + r && i % 3 == r
    ensures DecodedByte(t, i) == Third(Bits(t[4 * g + r]), Bits(t[4 * g + r + 1]), r)
  {
    assert i / 3 == g && i % 3 == r;
  }

  lemma ThirdBack(a: Byte, b: Byte, c: Byte, r: nat)
    requires r < 3
    ensures Third(Quarter(a, b, c, r), Quarter(a, b, c, r + 1), r) == if r == 0 then a else if r == 1 then b else c
  {
    ThirdOfQuarters(a, b, c);
  }

  lemma ByteBackAt(s: seq<Byte>, out: string, g: nat, r: nat)
    requires Encodes(out, s) && r < 3 && g * 3 + r < |s|
    ensures 4 * g + r + 1 < |out| && Third(Bits(out[4 * g + r]), Bits(out[4 * g + r + 1]), r) == s[g * 3 + r]
  {
    BothCarried(|s|, g, r);
    Carried(s, out, g, r);
    Carried(s, out, g, r + 1);
    ThirdBack(At(s, g * 3), At(s, g * 3 + 1), At(s, g * 3 + 2), r);
  }

  lemma ByteBack(s: seq<Byte>, out: string, i: nat)
    requires Encodes(out, s) && i < |s|
    ensures i / 3 * 4 + i % 3 + 1 < |out| && DecodedByte(out, i) == s[i]
  {
    ByteBackAt(s, out, i / 3, i % 3);
    DecodedAt(out, i, i / 3, i % 3);
  }

  lemma PaddingOf(s: seq<Byte>, out: string)
    requires Encodes(out, s)
    ensures |out| / 4 * 3 - Padding(out) == |s|
  {
    var n := |out|;
    if n > 0 {
      assert Carriers(|s|) == n - (if |s| % 3 == 0 then 0 else 3 - |s| % 3);
      forall j | n - 2 <= j < n && j < Carriers(|s|)
        ensures out[j] != '='
      {
        SixBits(Sextet(s, j));
      }
    }
  }

  /** Any text that encodes `s` decodes to `s`, and no two texts do. */
  lemma RoundTrip(s: seq<Byte>, out: string)
    requires Encodes(out, s)
    ensures Decoded(out) == s
    ensures forall other :: Encodes(other, s) ==> other == out
  {
    PaddingOf(s, out);
    forall i | 0 <= i < |s|
      ensures Decoded(out)[i] == s[i]
    {
      ByteBack(s, out, i);
    }
    forall other | Encodes(other, s)
      ensures other == out
    {
      assert forall j | 0 <= j < |out| :: other[j] == out[j];
    }
  }

  // The loop

  /** `(val >> k) & 0x3F`. */
  function Window(val: nat, k: nat): (r: nat)
    ensures r < 64
  {
    val / Pow2(k) % 64
  }

  function Pow2(k: nat): (p: nat)
    ensures p > 0
  {
    if k == 0 then 1 else 2 * Pow2(k - 1)
  }

  lemma Powers()
    ensures Pow2(0) == 1 && Pow2(2) == 4 && Pow2(4) == 16 && Pow2(6) == 64
  {
    assert Pow2(1) == 2 && Pow2(3) == 8 && Pow2(5) == 32;
  }

  /** The accumulator ends with the bytes `b` and `c`. */
  predicate Holds(val: nat, high: nat, b: Byte, c: Byte) {
    val == 65536 * high + 256 * b + c
  }

  function Push(val: nat, c: Byte): nat { (val * 256 + c) % INT_RANGE }

  /** The wrap-around is too far up to matter. */
  lemma Pushed(val: nat, high: nat, b: Byte, c: Byte, d: Byte) returns (high': nat)
    requires Holds(val, high, b, c)
    ensures Holds(Push(val, d), high', c, d)
  {
    var x := 256 * high + b;
    var q := x / 65536;
    high' := x % 65536;
    Wrapped(val * 256 + d, q, 65536 * high' + 256 * c + d);
  }

  lemma Wrapped(x: nat, q: nat, r: nat)
    requires x == INT_RANGE * q + r && r < INT_RANGE
    ensures x % INT_RANGE == r
  {
  }

  lemma Remainder(x: int, q: int, r: int)
    requires x == 64 * q + r && 0 <= r < 64
    ensures x % 64 == r
  {
  }

  lemma WindowValue(val: nat, k: nat, q: nat, r: nat, low: nat)
    requires k in {0, 2, 4, 6} && val == Pow2(k) * (64 * q + r) + low && low < Pow2(k) && r < 64
    ensures Window(val, k) == r
  {
    Powers();
    var x := 64 * q + r;
    if k == 2 { assert val == 4 * x + low; }
    if k == 4 { assert val == 16 * x + low; }
    if k == 6 { assert val == 64 * x + low; }
    assert val / Pow2(k) == x;
    Remainder(x, q, r);
  }

  lemma Windows(val: nat, high: nat, b: Byte, c: Byte)
    requires Holds(val, high, b, c)
    ensures Window(val, 0) == Quarter(0, b, c, 3) && Window(val, 2) == Quarter(c, 0, 0, 0)
    ensures Window(val, 4) == Quarter(b, c, 0, 1) && Window(val, 6) == Quarter(0, b, c, 2)
  {
    Powers();
    WindowValue(val, 0, 1024 * high + 4 * b + c / 64, c % 64, 0);
    WindowValue(val, 2, 256 * high + b, c / 4, c % 4);
    WindowValue(val, 4, 64 * high + b / 4, b % 4 * 16 + c / 16, c % 16);
    WindowValue(val, 6, 16 * high + b / 16, b % 16 * 4 + c / 64, c % 64);
  }

  /** `i` bytes are in, `n` characters out, and `valb` bits beyond six are waiting. */
  predicate Level(i: nat, n: nat, valb: int) {
    valb == 8 * i - 6 * n - 6
  }

  lemma Position(i: nat, j: nat, k: nat)
    requires Level(i + 1, j, k) && k <= 6
    ensures k == 2 ==> i % 3 == 0 && j == 4 * (i / 3)
    ensures k == 4 ==> i % 3 == 1 && j == 4 * (i / 3) + 1
    ensures k == 6 ==> i % 3 == 2 && j == 4 * (i / 3) + 2
    ensures k == 0 ==> i % 3 == 2 && j == 4 * (i / 3) + 3
    ensures k in {0, 2, 4, 6}
  {
    assert i == 3 * (i / 3) + i % 3;
  }

  /** The accumulator after `i` bytes. */
  function Value(s: seq<Byte>, i: nat): nat {
    if i == 0 then 0 else Push(Value(s, i - 1), At(s, i - 1))
  }

  lemma {:induction false} ValueHolds(s: seq<Byte>, i: nat, b: Byte, c: Byte) returns (high: nat)
    requires b == if i < 2 then 0 else At(s, i - 2)
    requires c == if i < 1 then 0 else At(s, i - 1)
    ensures Holds(Value(s, i), high, b, c)
  {
    if i == 0 {
      high := 0;
    } else {
      var a := if i < 3 then 0 else At(s, i - 3);
      high := ValueHolds(s, i - 1, a, b);
      high := Pushed(Value(s, i - 1), high, a, b, c);
    }
  }

  /** The window over the bits up to byte `i` shows the next six, `j` of them being out. */
  lemma WindowIsSextet(s: seq<Byte>, i: nat, j: nat, k: nat)
    requires Level(i + 1, j, k) && k <= 6
    ensures Window(Value(s, i + 1), k) == Sextet(s, j)
  {
    var b, c := if i < 1 then 0 else At(s, i - 1), At(s, i);
    var high := ValueHolds(s, i + 1, b, c);
    Windows(Value(s, i + 1), high, b, c);
    Position(i, j, k);
    SextetAt(s, i / 3, if k == 0 then 3 else k / 2 - 1);
  }

  /** All characters so far are the right ones. */
  ghost predicate Carries(out: string, s: seq<Byte>) {
    forall j | 0 <= j < |out| :: out[j] == Six(Sextet(s, j))
  }

  lemma Full(n: nat, i: nat, valb: int)
    requires Level(i, n, valb) && -6 <= valb < 0
    ensures n + (if valb > -6 then 1 else 0) == Carriers(i)
  {
  }

  lemma Extend(out: string, s: seq<Byte>, c: char)
    requires Carries(out, s) && c == Six(Sextet(s, |out|))
    ensures Carries(out + [c], s)
  {
  }

  /** The last loop: padding up to a multiple of four. */
  method Pad(text: string) returns (out: string)
    ensures |out| % 4 == 0 && |out| < |text| + 4
    ensures text <= out && forall j | |text| <= j < |out| :: out[j] == '='
  {
    out := text;
    ghost var groups := (|text| + 3) / 4;
    while |out| % 4 != 0
      invariant |out| <= 4 * groups < |text| + 4
      invariant text <= out && forall j | |text| <= j < |out| :: out[j] == '='
      decreases 4 * groups - |out|
    {
      out := out + "=";
    }
  }

  lemma PaddedEncodes(text: string, out: string, s: seq<Byte>)
    requires Carries(text, s) && |text| == Carriers(|s|)
    requires |out| % 4 == 0 && |out| < |text| + 4
    requires text <= out && forall j | |text| <= j < |out| :: out[j] == '='
    ensures Encodes(out, s)
  {
    hide Sextet;
    RoundedUp(|s|, |out|);
    assert forall j | 0 <= j < |text| :: out[j] == text[j];
  }

  /** Padding up to a multiple of four makes whole groups. */
  lemma RoundedUp(n: nat, m: nat)
    requires m % 4 == 0 && Carriers(n) <= m < Carriers(n) + 4
    ensures m == 4 * ((n + 2) / 3)
  {
    var q, r := n / 3, n % 3;
    assert n == 3 * q + r && Carriers(n) == 4 * q + (if r == 0 then 0 else r + 1);
  }

  method Base64Encode(s: seq<Byte>) returns (out: string)
    ensures Encodes(out, s)
  {
    out := "";
    var val: nat, valb := 0, -6;
    for i := 0 to |s|
      invariant Level(i, |out|, valb) && -6 <= valb < 0 && Carries(out, s)
      invariant val == Value(s, i)
    {
      val := Push(val, s[i]);
      valb := valb + 8;
      while valb >= 0
        invariant Level(i + 1, |out|, valb) && -6 <= valb <= 6 && Carries(out, s)
      {
        WindowIsSextet(s, i, |out|, valb);
        Extend(out, s, Six(Window(val, valb)));
        out := out + [Six(Window(val, valb))];
        valb := valb - 6;
      }
    }
    Full(|out|, |s|, valb);
    if valb > -6 {
      val := Push(val, 0);
      WindowIsSextet(s, |s|, |out|, valb + 8);
      Extend(out, s, Six(Window(val, valb + 8)));
      out := out + [Six(Window(val, valb + 8))];
    }
    ghost var text := out;
    out := Pad(out);
    PaddedEncodes(text, out, s);
  }
}
