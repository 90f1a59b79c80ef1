// Exactly which queries come back from `params_to_query_str` and `parse_query_text` as they were.
module QueryExact {
  import opened Text
  import opened Url
  import opened Query
  import opened Wrappers

  // A string decodes part by part where no escape can reach across

  predicate Apart(c: char) { HexValue(c).None? && c != 'u' && c != '%' && c != '+' }

  lemma {:induction false} HexStops(a: string, c: char, b: string, cnt: nat, acc: nat)
    requires HexValue(c).None?
    ensures HexPrefix(a + [c] + b, cnt, acc) == HexPrefix(a, cnt, acc)
  {
    if cnt > 0 {
      if a == "" {
        assert a + [c] + b == [c] + b;
      } else {
        assert (a + [c] + b)[1..] == a[1..] + [c] + b;
        if HexValue(a[0]).Some? {
          HexStops(a[1..], c, b, cnt - 1, acc * 16 + HexValue(a[0]).value);
        }
      }
    }
  }

  lemma FrontStops(a: string, c: char, b: string)
    requires a != "" && Apart(c)
    ensures DecodeFront(a + [c] + b, true) == DecodeFront(a, true)
  {
    var s := a + [c] + b;
    if a[0] == '%' && |a| > 1 {
      assert s[1..] == a[1..] + [c] + b && s[2..] == a[2..] + [c] + b;
      HexStops(a[1..], c, b, 2, 0);
      HexStops(a[2..], c, b, 4, 0);
    } else if a[0] == '%' {
      assert s[1..] == [c] + b;
    }
  }

  lemma {:induction false} DecodeParts(a: string, c: char, b: string)
    requires Apart(c)
    ensures Decode(a + [c] + b, true) == Decode(a, true) + ([c] + Decode(b, true))
  {
    var s := a + [c] + b;
    if a == "" {
      assert s == [c] + b && s[1..] == b;
      assert DecodeFront(s, true) == ([c], 1);
    } else {
      var r := DecodeFront(a, true);
      FrontStops(a, c, b);
      DecodeParts(a[r.1..], c, b);
      assert s[r.1..] == a[r.1..] + [c] + b;
      Assoc(r.0, Decode(a[r.1..], true), [c] + Decode(b, true));
    }
  }

  // What a text can at most amount to

  function Size(s: string): nat { |Decode(s, true)| }

  function Count(s: string, c: char): nat {
    if s == "" then 0 else (if s[0] == c then 1 else 0) + Count(s[1..], c)
  }

  lemma {:induction false} CountParts(a: string, b: string, c: char)
    ensures Count(a + b, c) == Count(a, c) + Count(b, c)
  {
    if a == "" {
      assert a + b == b;
    } else {
      assert (a + b)[1..] == a[1..] + b;
      CountParts(a[1..], b, c);
    }
  }

  lemma {:induction false} CountMember(s: string, c: char)
    ensures Count(s, c) == 0 <==> c !in s
  {
    if s != "" {
      CountMember(s[1..], c);
      assert s == [s[0]] + s[1..];
    }
  }

  /** Decoded characters that are no equals sign of the text. */
  function Load(s: string): int { Size(s) - Count(s, '=') }

  lemma LoadParts(a: string, c: char, b: string)
    requires Apart(c)
    ensures Size(a + [c] + b) == Size(a) + 1 + Size(b)
    ensures Load(a + [c] + b) == Load(a) + Load(b) + if c == '=' then 0 else 1
    ensures Count(a + [c] + b, '&') == Count(a, '&') + Count(b, '&') + if c == '&' then 1 else 0
  {
    DecodeParts(a, c, b);
    CountParts(a + [c], b, '=');
    CountParts(a, [c], '=');
    CountParts(a + [c], b, '&');
    CountParts(a, [c], '&');
    assert [c][1..] == "";
  }

  lemma {:induction false} TrimLeftLoad(s: string)
    ensures Size(TrimLeft(s)) <= Size(s) && Load(TrimLeft(s)) <= Load(s)
    ensures s != "" && IsBlank(s[0]) ==> Size(TrimLeft(s)) < Size(s)
  {
    if s != "" && IsBlank(s[0]) {
      LoadParts("", s[0], s[1..]);
      assert "" + [s[0]] + s[1..] == s;
      TrimLeftLoad(s[1..]);
    }
  }

  lemma {:induction false} TrimRightLoad(s: string)
    ensures Size(TrimRight(s)) <= Size(s) && Load(TrimRight(s)) <= Load(s)
    ensures s != "" && IsBlank(s[|s| - 1]) ==> Size(TrimRight(s)) < Size(s)
  {
    if s != "" && IsBlank(s[|s| - 1]) {
      var t := s[..|s| - 1];
      LoadParts(t, s[|s| - 1], "");
      assert t + [s[|s| - 1]] + "" == s;
      TrimRightLoad(t);
    }
  }

  lemma TrimLoad(s: string)
    ensures Size(Trim(s)) <= Size(s) && Load(Trim(s)) <= Load(s)
    ensures OuterBlank(s) ==> Size(Trim(s)) < Size(s)
  {
    TrimLeftLoad(s);
    TrimRightLoad(TrimLeft(s));
  }

  function Sizes(ps: seq<string>): nat {
    if ps == [] then 0 else Size(ps[0]) + Sizes(ps[1..])
  }

  lemma {:induction false} PiecesSizes(s: string)
    ensures Sizes(Pieces(s, '=')) + Count(s, '=') <= Size(s)
    decreases |s|
  {
    var k := Until(s, '=');
    if k == |s| {
      UntilFree(s, '=');
      CountMember(s, '=');
      KeepSizes(s, []);
      assert Keep(s) + [] == Keep(s);
    } else {
      var a, b := s[..k], s[k + 1..];
      assert s == a + ['='] + b;
      LoadParts(a, '=', b);
      UntilFree(s, '=');
      CountMember(a, '=');
      KeepSizes(a, Pieces(b, '='));
      PiecesSizes(b);
    }
  }

  lemma KeepSizes(s: string, more: seq<string>)
    ensures Sizes(Keep(s) + more) <= Size(s) + Sizes(more)
  {
    TrimLoad(s);
    if Keep(s) == [] {
      assert Keep(s) + more == more;
    } else {
      assert (Keep(s) + more)[1..] == more;
    }
  }

  lemma PairLoad(piece: string)
    ensures Weight(ParsePair(piece)) <= Load(piece)
  {
    var ps := Pieces(piece, '=');
    PiecesSizes(piece);
    if |ps| > 1 {
      FirstAndLast(ps);
    }
  }

  lemma FirstAndLast(ps: seq<string>)
    requires |ps| > 1
    ensures Size(ps[0]) + Size(ps[|ps| - 1]) <= Sizes(ps)
  {
    LastSize(ps[1..]);
  }

  lemma {:induction false} LastSize(ps: seq<string>)
    requires ps != []
    ensures Size(ps[|ps| - 1]) <= Sizes(ps)
  {
    if |ps| > 1 {
      LastSize(ps[1..]);
    }
  }

  lemma {:induction false} ParsePairsParts(a: seq<string>, b: seq<string>)
    ensures ParsePairs(a + b) == ParsePairs(a) + ParsePairs(b)
  {
    if a == [] {
      assert a + b == b;
    } else {
      assert (a + b)[1..] == a[1..] + b;
      ParsePairsParts(a[1..], b);
      Assoc(ParsePair(a[0]), ParsePairs(a[1..]), ParsePairs(b));
    }
  }

  lemma KeptLoad(s: string)
    ensures Weight(ParsePairs(Keep(s))) <= Load(s)
  {
    TrimLoad(s);
    PiecesSizes(s);
    if Keep(s) != [] {
      PairLoad(Trim(s));
      assert Keep(s) == [Trim(s)] + [];
      ParsePairsCons(Trim(s), []);
      assert ParsePair(Trim(s)) + [] == ParsePair(Trim(s));
    }
  }

  /** Whatever the text, the pairs it parses to hold no more characters than it decodes to, its separators
      not counted. */
  lemma {:induction false} QueryLoad(s: string)
    ensures Weight(ParseQuery(s)) + Count(s, '&') <= Load(s)
    decreases |s|
  {
    var k := Until(s, '&');
    UntilFree(s, '&');
    KeptLoad(s[..k]);
    CountMember(s[..k], '&');
    if k == |s| {
      assert s[..k] == s;
    } else {
      var a, b := s[..k], s[k + 1..];
      assert s == a + ['&'] + b;
      LoadParts(a, '&', b);
      QueryLoad(b);
      ParsePairsParts(Keep(a), Pieces(b, '&'));
      WeightParts(ParsePairs(Keep(a)), ParsePairs(Pieces(b, '&')));
    }
  }

  // What a printed query amounts to

  function Net(p: Pair): int
    requires Bytes(p.1)
  {
    Load(p.0) + Load(Encode(p.1)) - Count(p.0, '&') - Count(Encode(p.1), '&')
  }

  function Nets(ps: seq<Pair>): int
    requires Printable(ps)
  {
    if ps == [] then 0 else Net(ps[0]) + Nets(ps[1..])
  }

  lemma PrintPairLoad(p: Pair)
    requires Bytes(p.1)
    ensures Load(PrintPair(p)) - Count(PrintPair(p), '&') == Net(p)
  {
    LoadParts(p.0, '=', Encode(p.1));
    assert PrintPair(p) == p.0 + ['='] + Encode(p.1);
  }

  lemma {:induction false} PrintLoad(ps: seq<Pair>)
    requires Printable(ps)
    ensures Load(PrintQuery(ps)) - Count(PrintQuery(ps), '&') == Nets(ps)
  {
    if ps != [] {
      var p, rest := PrintPair(ps[0]), PrintQuery(ps[1..]);
      PrintPairLoad(ps[0]);
      PrintLoad(ps[1..]);
      if |ps| > 1 {
        LoadParts(p, '&', rest);
        assert PrintQuery(ps) == p + ['&'] + rest;
      }
    }
  }

  /** No separator, nothing the decoder would change in length, nothing the encoder would cut off. */
  predicate Clean(p: Pair) {
    && '&' !in p.0 && '=' !in p.0 && NoEscape(p.0)
    && Bytes(p.1) && '&' !in p.1 && '=' !in p.1 && '\0' !in p.1 && NoEscape(p.1)
  }

  lemma {:induction false} EncodeKeeps(v: string, c: char)
    requires Bytes(v) && '\0' !in v && c in {'&', '='} && c in v
    ensures c in Encode(v)
  {
    assert v[0] in v && forall x | x in v[1..] :: x in v;
    if v[0] != c {
      assert v == [v[0]] + v[1..];
      EncodeKeeps(v[1..], c);
    }
  }

  lemma NetBound(p: Pair)
    requires Bytes(p.1)
    ensures Net(p) <= |p.0| + |p.1|
    ensures Net(p) == |p.0| + |p.1| ==> Clean(p)
  {
    var k, v, e := p.0, p.1, Encode(p.1);
    DecodesToItself(k, true);
    DecodeEncode(v, true);
    CountMember(k, '=');
    CountMember(k, '&');
    CountMember(e, '=');
    CountMember(e, '&');
    if Net(p) == |k| + |v| {
      if '&' in v { EncodeKeeps(v, '&'); }
      if '=' in v { EncodeKeeps(v, '='); }
    }
  }

  lemma {:induction false} NetsBound(ps: seq<Pair>)
    requires Printable(ps)
    ensures Nets(ps) <= Weight(ps)
    ensures Nets(ps) == Weight(ps) ==> forall i | 0 <= i < |ps| :: Clean(ps[i])
  {
    if ps != [] {
      NetBound(ps[0]);
      NetsBound(ps[1..]);
      assert forall i | 0 < i < |ps| :: ps[i] == ps[1..][i - 1];
    }
  }

  lemma RoundTripIsClean(ps: seq<Pair>)
    requires Printable(ps) && ParseQuery(PrintQuery(ps)) == ps
    ensures forall i | 0 <= i < |ps| :: Clean(ps[i])
  {
    QueryLoad(PrintQuery(ps));
    PrintLoad(ps);
    NetsBound(ps);
  }

  // Clean pairs are parsed one by one

  lemma {:induction false} TrimLeftAround(k: string, x: string)
    requires x != "" && !IsBlank(x[0])
    ensures TrimLeft(k + x) == TrimLeft(k) + x
  {
    if k == "" {
      assert k + x == x && TrimLeft(k) + x == x;
    } else {
      assert (k + x)[1..] == k[1..] + x;
      if IsBlank(k[0]) { TrimLeftAround(k[1..], x); }
    }
  }

  lemma {:induction false} TrimRightAround(y: string, e: string)
    requires y != "" && !IsBlank(y[|y| - 1])
    ensures TrimRight(y + e) == y + TrimRight(e)
  {
    if e == "" {
      assert y + e == y && y + TrimRight(e) == y;
    } else {
      assert (y + e)[..|y + e| - 1] == y + e[..|e| - 1];
      if IsBlank(e[|e| - 1]) { TrimRightAround(y, e[..|e| - 1]); }
    }
  }

  lemma TrimAround(k: string, e: string)
    ensures Trim(k + "=" + e) == TrimLeft(k) + "=" + TrimRight(e)
  {
    assert k + "=" + e == k + ("=" + e);
    TrimLeftAround(k, "=" + e);
    assert TrimLeft(k) + ("=" + e) == (TrimLeft(k) + "=") + e;
    TrimRightAround(TrimLeft(k) + "=", e);
  }

  lemma {:induction false} TrimLeftTwice(s: string)
    ensures TrimLeft(TrimLeft(s)) == TrimLeft(s)
    ensures forall c | c in TrimLeft(s) :: c in s
  {
    if s != "" && IsBlank(s[0]) {
      TrimLeftTwice(s[1..]);
    }
  }

  lemma {:induction false} TrimRightMembers(s: string)
    ensures forall c | c in TrimRight(s) :: c in s
  {
    if s != "" && IsBlank(s[|s| - 1]) {
      TrimRightMembers(s[..|s| - 1]);
    }
  }

  /** The two parts of a trimmed pair. */
  lemma PairParts(k: string, e: string)
    requires '=' !in k && '=' !in e
    ensures Pieces(Trim(k + "=" + e), '=') == Keep(k) + Keep(TrimRight(e))
  {
    var a, b := TrimLeft(k), TrimRight(e);
    TrimAround(k, e);
    TrimLeftTwice(k);
    TrimRightMembers(e);
    assert a + "=" + b == a + ['='] + b;
    PiecesSplit(a, '=', b);
    PiecesSplit(b, '=', "");
  }

  lemma KeepPair(p: Pair)
    requires Clean(p)
    ensures Keep(PrintPair(p)) == [Trim(PrintPair(p))] && '&' !in PrintPair(p)
  {
    EncodeMembers(p.1);
    TrimAround(p.0, Encode(p.1));
  }

  lemma {:induction false} PrintedPieces(ps: seq<Pair>, i: nat)
    requires Printable(ps) && (forall k | 0 <= k < |ps| :: Clean(ps[k])) && i < |ps|
    ensures var qs := Pieces(PrintQuery(ps), '&'); |qs| == |ps| && qs[i] == Trim(PrintPair(ps[i]))
  {
    var t := PrintPair(ps[0]);
    KeepPair(ps[0]);
    if |ps| == 1 {
      PiecesSplit(t, '&', "");
    } else {
      var rest := PrintQuery(ps[1..]);
      assert PrintQuery(ps) == t + ['&'] + rest;
      PiecesSplit(t, '&', rest);
      PrintedPieces(ps[1..], if i == 0 then 0 else i - 1);
    }
  }

  lemma {:induction false} OneEach(pieces: seq<string>, ps: seq<Pair>, i: nat)
    requires ParsePairs(pieces) == ps && |pieces| == |ps| && i < |ps|
    ensures ParsePair(pieces[i]) == [ps[i]]
  {
    AtMostOneEach(pieces[1..]);
    assert ParsePair(pieces[0]) == [ps[0]];
    if i > 0 {
      assert ([ps[0]] + ParsePairs(pieces[1..]))[1..] == ParsePairs(pieces[1..]);
      OneEach(pieces[1..], ps[1..], i - 1);
    }
  }

  lemma {:induction false} AtMostOneEach(pieces: seq<string>)
    ensures |ParsePairs(pieces)| <= |pieces|
  {
    if pieces != [] {
      AtMostOneEach(pieces[1..]);
    }
  }

  // When a clean pair comes back

  lemma {:induction false} EncodeEnds(v: string)
    requires Bytes(v) && v != "" && '\0' !in v
    ensures Encode(v) != ""
    ensures v[0] == '\t' ==> Encode(v)[0] == '\t'
    ensures v[|v| - 1] == '\t' ==> Encode(v)[|Encode(v)| - 1] == '\t'
  {
    assert v[0] in v && forall c | c in v[1..] :: c in v;
    if |v| > 1 {
      EncodeEnds(v[1..]);
      assert v[1..][|v| - 2] == v[|v| - 1];
    } else {
      assert v[1..] == "";
    }
  }

  lemma KeyBack(k: string)
    requires Trim(k) != "" && Decode(Trim(k), true) == k
    ensures k != "" && !OuterBlank(k) && '+' !in k
  {
    TrimLoad(k);
    DecodesToItself(k, true);
    TrimPadded("", k, "");
    assert "" + k + "" == k;
  }

  lemma ValueBack(v: string)
    requires Bytes(v) && '\0' !in v && v != ""
    requires Decode(Trim(TrimRight(Encode(v))), true) == v
    ensures v[0] != '\t' && v[|v| - 1] != '\t'
  {
    var e := Encode(v);
    EncodeEnds(v);
    DecodeEncode(v, true);
    TrimRightLoad(e);
    TrimLoad(TrimRight(e));
    assert TrimRight(e) == e;
  }

  /** A pair without a key yields nothing, or its value as a key. */
  lemma WithoutKey(k: string, e: string)
    requires '=' !in k && '=' !in e && Keep(k) == []
    ensures var r := ParsePair(Trim(k + "=" + e)); r != [] ==> e != "" && r[0].1 == ""
  {
    PairParts(k, e);
    assert Keep(k) + Keep(TrimRight(e)) == Keep(TrimRight(e));
  }

  lemma PairBack(p: Pair)
    requires Clean(p) && ParsePair(Trim(PrintPair(p))) == [p]
    ensures PairOk(p)
  {
    var k, e := p.0, Encode(p.1);
    EncodeMembers(p.1);
    PairParts(k, e);
    if Keep(k) == [] {
      WithoutKey(k, e);
    }
    KeyBack(k);
    if p.1 != "" {
      ValueBack(p.1);
    }
  }

  /** A query comes back as it was exactly when every pair is fit for it: the key is not empty and holds no
      separator, escape, plus sign or outer blank; the value holds no separator, escape or NUL and no tab at
      an end. */
  lemma QueryRoundTripExact(ps: seq<Pair>)
    requires Printable(ps)
    ensures ParseQuery(PrintQuery(ps)) == ps <==> forall i | 0 <= i < |ps| :: PairOk(ps[i])
  {
    if forall i | 0 <= i < |ps| :: PairOk(ps[i]) {
      QueryRoundTrip(ps);
    }
    if ParseQuery(PrintQuery(ps)) == ps {
      RoundTripIsClean(ps);
      forall i | 0 <= i < |ps|
        ensures PairOk(ps[i])
      {
        PrintedPieces(ps, i);
        OneEach(Pieces(PrintQuery(ps), '&'), ps, i);
        PairBack(ps[i]);
      }
    }
  }
}
