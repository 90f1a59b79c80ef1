// The query string of `comm/httplib.h`: printed by `params_to_query_str`, parsed by `parse_query_text`
// over `split` and `trim`.
module Query {
  import opened Text
  import opened Url

  type Pair = (string, string)

  function Keep(piece: string): seq<string> {
    if Trim(piece) == "" then [] else [Trim(piece)]
  }

  /** What `split` calls back: the trimmed pieces between the separators, without the empty ones. */
  function Pieces(s: string, d: char): seq<string>
    decreases |s|
  {
    var k := Until(s, d);
    if k == |s| then Keep(s) else Keep(s[..k]) + Pieces(s[k + 1..], d)
  }

  function ParsePair(piece: string): seq<Pair> {
    var ps := Pieces(piece, '=');
    if ps == [] then []
    else [(Decode(ps[0], true), if |ps| > 1 then Decode(ps[|ps| - 1], true) else "")]
  }

  function ParsePairs(pieces: seq<string>): seq<Pair> {
    if pieces == [] then [] else ParsePair(pieces[0]) + ParsePairs(pieces[1..])
  }

  /** The pairs that are emplaced, in order. */
  function ParseQuery(s: string): seq<Pair> { ParsePairs(Pieces(s, '&')) }

  function PrintPair(p: Pair): string
    requires Bytes(p.1)
  {
    p.0 + "=" + Encode(p.1)
  }

  predicate Printable(ps: seq<Pair>) { forall i | 0 <= i < |ps| :: Bytes(ps[i].1) }

  function PrintQuery(ps: seq<Pair>): string
    requires Printable(ps)
  {
    if ps == [] then ""
    else if |ps| == 1 then PrintPair(ps[0])
    else PrintPair(ps[0]) + "&" + PrintQuery(ps[1..])
  }

  // Round trip

  /** Keys are printed as they are and decoded on the way back; values are encoded, but not every
      separator is. */
  predicate PairOk(p: Pair) {
    && p.0 != "" && !OuterBlank(p.0) && '&' !in p.0 && '=' !in p.0 && NoEscape(p.0) && '+' !in p.0
    && Bytes(p.1) && '&' !in p.1 && '=' !in p.1 && NoEscape(p.1) && '\0' !in p.1
    && (p.1 != "" ==> p.1[0] != '\t' && p.1[|p.1| - 1] != '\t')
  }

  lemma {:induction false} UntilFound(a: string, d: char, b: string)
    requires d !in a
    ensures Until(a + [d] + b, d) == |a|
    ensures Until(a, d) == |a|
  {
    if a != "" {
      assert a[0] in a && forall c | c in a[1..] :: c in a;
      UntilFound(a[1..], d, b);
      assert (a + [d] + b)[1..] == a[1..] + [d] + b;
    } else {
      assert a + [d] + b == [d] + b;
    }
  }

  lemma TrimWhole(s: string)
    requires s != "" && !OuterBlank(s)
    ensures Keep(s) == [s]
  {
    TrimPadded("", s, "");
    assert "" + s + "" == s;
  }

  lemma PiecesSplit(a: string, d: char, b: string)
    requires d !in a
    ensures Pieces(a + [d] + b, d) == Keep(a) + Pieces(b, d)
    ensures Pieces(a, d) == Keep(a)
  {
    UntilFound(a, d, b);
    var s := a + [d] + b;
    assert s[..|a|] == a && s[|a| + 1..] == b;
  }

  lemma PiecesCons(a: string, d: char, b: string)
    requires d !in a && a != "" && !OuterBlank(a)
    ensures Pieces(a + [d] + b, d) == [a] + Pieces(b, d)
    ensures Pieces(a, d) == [a]
  {
    UntilFound(a, d, b);
    TrimWhole(a);
    var s := a + [d] + b;
    assert s[..|a|] == a && s[|a| + 1..] == b;
  }

  lemma {:induction false} EncodeMembers(s: string)
    requires Bytes(s) && '&' !in s && '=' !in s && '\0' !in s
    ensures '&' !in Encode(s) && '=' !in Encode(s)
    ensures Encode(s) == "" <==> s == ""
    ensures s != "" ==> (IsBlank(Encode(s)[0]) ==> s[0] == '\t')
    ensures s != "" ==> (IsBlank(Encode(s)[|Encode(s)| - 1]) ==> s[|s| - 1] == '\t')
  {
    if s != "" {
      assert s[0] in s && forall c | c in s[1..] :: c in s;
      EncodeCharMembers(s[0]);
      EncodeMembers(s[1..]);
      var e, f := EncodeChar(s[0]), Encode(s[1..]);
      assert Encode(s) == e + f;
      if |s| > 1 {
        assert s[1..][|s[1..]| - 1] == s[|s| - 1];
        assert (e + f)[|e + f| - 1] == f[|f| - 1];
      } else {
        assert s[1..] == "" && e + f == e;
      }
    }
  }

  lemma EncodeCharMembers(c: char)
    requires c as int < 256 && c != '&' && c != '='
    ensures var e := EncodeChar(c);
      e != "" && '&' !in e && '=' !in e && (IsBlank(e[0]) || IsBlank(e[|e| - 1]) ==> e == [c] && c == '\t')
  {
  }

  lemma PairPieces(key: string, e: string)
    requires key != "" && !OuterBlank(key) && '=' !in key && '&' !in key
    requires '=' !in e && '&' !in e && !OuterBlank(e)
    ensures Pieces(key + "=" + e, '=') == if e == "" then [key] else [key, e]
    ensures !OuterBlank(key + "=" + e) && '&' !in key + "=" + e
  {
    assert key + "=" + e == key + ['='] + e;
    PiecesCons(key, '=', e);
    if e == "" {
      assert Pieces(e, '=') == [];
    } else {
      PiecesCons(e, '=', "");
    }
  }

  lemma PairRoundTrip(p: Pair)
    requires PairOk(p)
    ensures ParsePair(PrintPair(p)) == [p]
    ensures PrintPair(p) != "" && !OuterBlank(PrintPair(p)) && '&' !in PrintPair(p)
  {
    EncodeMembers(p.1);
    DecodeEncode(p.1, true);
    DecodesToItself(p.0, true);
    PairPieces(p.0, Encode(p.1));
  }

  lemma ParsePairsCons(p: string, rest: seq<string>)
    ensures ParsePairs([p] + rest) == ParsePair(p) + ParsePairs(rest)
  {
    assert ([p] + rest)[1..] == rest;
  }

  /** Parsing a printed query gives back the same pairs in the same order, repeated keys included. */
  lemma {:induction false} QueryRoundTrip(ps: seq<Pair>)
    requires Printable(ps) && forall i | 0 <= i < |ps| :: PairOk(ps[i])
    ensures ParseQuery(PrintQuery(ps)) == ps
  {
    if ps != [] {
      var p := PrintPair(ps[0]);
      PairRoundTrip(ps[0]);
      if |ps| == 1 {
        PiecesCons(p, '&', "");
        ParsePairsCons(p, []);
        assert [p] + [] == [p] && ParsePair(p) + [] == [ps[0]] == ps;
      } else {
        var q := PrintQuery(ps[1..]);
        QueryRoundTrip(ps[1..]);
        assert PrintQuery(ps) == p + ['&'] + q;
        PiecesCons(p, '&', q);
        ParsePairsCons(p, Pieces(q, '&'));
        assert ps == [ps[0]] + ps[1..];
      }
    }
  }

  // Texts of other origin

  /** A separator separates, wherever it stands. */
  lemma {:induction false} PiecesParts(a: string, d: char, b: string)
    ensures Pieces(a + [d] + b, d) == Pieces(a, d) + Pieces(b, d)
    decreases |a|
  {
    var k := Until(a, d);
    if k == |a| {
      UntilFree(a, d);
      PiecesSplit(a, d, b);
    } else {
      var x, y := FirstPiece(a, d);
      PiecesParts(y, d, b);
      CutFurther(x, d, y, b);
      PiecesSplit(x, d, y + [d] + b);
      Assoc(Keep(x), Pieces(y, d), Pieces(b, d));
    }
  }

  lemma CutFurther(x: string, d: char, y: string, b: string)
    ensures (x + [d] + y) + [d] + b == x + [d] + (y + [d] + b)
  {
  }

  lemma FirstPiece(a: string, d: char) returns (x: string, y: string)
    requires Until(a, d) < |a|
    ensures a == x + [d] + y && |y| < |a| && d !in x && Pieces(a, d) == Keep(x) + Pieces(y, d)
  {
    var k := Until(a, d);
    x, y := a[..k], a[k + 1..];
    UntilFree(a, d);
    assert a == x + [d] + y;
  }

  lemma {:induction false} ParsePairsParts(a: seq<string>, b: seq<string>)
    ensures ParsePairs(a + b) == ParsePairs(a) + ParsePairs(b)
  {
    if a == [] {
      assert a + b == b;
    } else {
      assert (a + b)[1..] == a[1..] + b;
      ParsePairsParts(a[1..], b);
      Assoc(ParsePair(a[0]), ParsePairs(a[1..]), ParsePairs(b));
    }
  }

  /** A query is read pair by pair between its ampersands. */
  lemma QueryParts(a: string, b: string)
    ensures ParseQuery(a + "&" + b) == ParseQuery(a) + ParseQuery(b)
  {
    PiecesParts(a, '&', b);
    ParsePairsParts(Pieces(a, '&'), Pieces(b, '&'));
  }

  lemma TrimLeftMore(t: string, c: char)
    requires IsBlank(c)
    ensures TrimLeft(t + [c]) == if TrimLeft(t) == "" then "" else TrimLeft(t) + [c]
  {
    if t == "" {
      assert t + [c] == [c] && [c][1..] == "";
    } else {
      assert (t + [c])[1..] == t[1..] + [c];
      if IsBlank(t[0]) { TrimLeftMore(t[1..], c); }
    }
  }

  lemma TrimMore(t: string, c: char)
    requires IsBlank(c)
    ensures Trim(t + [c]) == Trim(t) && Trim([c] + t) == Trim(t)
  {
    TrimLeftMore(t, c);
    var l := TrimLeft(t);
    assert (l + [c])[..|l|] == l;
    assert ([c] + t)[1..] == t;
  }

  lemma BlankInFront(t: string, c: char, d: char)
    requires IsBlank(c) && c != d
    ensures Pieces([c] + t, d) == Pieces(t, d)
  {
    var k, s := Until(t, d), [c] + t;
    assert s[1..] == t && Until(s, d) == k + 1;
    assert s[..k + 1] == [c] + t[..k] && s[k + 1..] == t[k..];
    TrimMore(t[..k], c);
    if k < |t| {
      assert s[k + 2..] == t[k + 1..];
    } else {
      assert t[..k] == t;
    }
  }

  lemma BlankBehind(t: string, c: char, d: char)
    requires IsBlank(c) && c != d
    ensures Pieces(t + [c], d) == Pieces(t, d)
    decreases |t|
  {
    var k := Until(t, d);
    UntilFree(t, d);
    if k == |t| {
      PiecesSplit(t + [c], d, "");
      PiecesSplit(t, d, "");
      TrimMore(t, c);
    } else {
      var x, y := FirstPiece(t, d);
      assert t + [c] == x + [d] + (y + [c]);
      PiecesSplit(x, d, y + [c]);
      BlankBehind(y, c, d);
    }
  }

  lemma {:induction false} PiecesTrimLeft(t: string, d: char)
    requires !IsBlank(d)
    ensures Pieces(TrimLeft(t), d) == Pieces(t, d)
  {
    if t != "" && IsBlank(t[0]) {
      PiecesTrimLeft(t[1..], d);
      BlankInFront(t[1..], t[0], d);
      assert [t[0]] + t[1..] == t;
    }
  }

  lemma {:induction false} PiecesTrimRight(t: string, d: char)
    requires !IsBlank(d)
    ensures Pieces(TrimRight(t), d) == Pieces(t, d)
  {
    if t != "" && IsBlank(t[|t| - 1]) {
      PiecesTrimRight(t[..|t| - 1], d);
      BlankBehind(t[..|t| - 1], t[|t| - 1], d);
      assert t[..|t| - 1] + [t[|t| - 1]] == t;
    }
  }

  /** Between ampersands stands one pair. */
  lemma OnePiece(t: string)
    requires '&' !in t
    ensures ParseQuery(t) == ParsePair(t)
  {
    PiecesSplit(t, '&', "");
    PiecesTrimLeft(t, '=');
    PiecesTrimRight(TrimLeft(t), '=');
    if Trim(t) == "" {
      assert Pieces("", '=') == [];
    } else {
      ParsePairsCons(Trim(t), []);
      assert [Trim(t)] + [] == [Trim(t)] && ParsePair(Trim(t)) + [] == ParsePair(Trim(t));
    }
  }

  /** Without an equals sign a piece is a key alone, if it is not blank. */
  lemma KeyAlone(x: string)
    requires '&' !in x && '=' !in x
    ensures ParseQuery(x) == if Trim(x) == "" then [] else [(Decode(Trim(x), true), "")]
  {
    OnePiece(x);
    PiecesSplit(x, '=', "");
  }

  /** Blank parts do not count, neither in front nor behind. */
  lemma BlankPart(x: string, t: string)
    requires '&' !in x + t && '=' !in x && Trim(x) == ""
    ensures ParseQuery(x + "=" + t) == ParseQuery(t) && ParseQuery(t + "=" + x) == ParseQuery(t)
  {
    assert (forall c | c in x :: c in x + t) && (forall c | c in t :: c in x + t);
    OnePiece(t);
    OnePiece(x + "=" + t);
    OnePiece(t + "=" + x);
    PiecesParts(x, '=', t);
    PiecesParts(t, '=', x);
    PiecesSplit(x, '=', "");
    assert [] + Pieces(t, '=') == Pieces(t, '=') && Pieces(t, '=') + [] == Pieces(t, '=');
  }

  /** Of several parts the first is the key and the last the value; what stands between them is lost. */
  lemma FirstAndLastPart(x: string, m: string, y: string)
    requires '&' !in x + m + y && '=' !in x && '=' !in y && Trim(x) != "" && Trim(y) != ""
    ensures ParseQuery(x + "=" + y) == [(Decode(Trim(x), true), Decode(Trim(y), true))]
    ensures ParseQuery(x + "=" + m + "=" + y) == [(Decode(Trim(x), true), Decode(Trim(y), true))]
  {
    var t, u := x + "=" + y, x + "=" + m + "=" + y;
    assert forall c | c in x || c in m || c in y :: c in x + m + y;
    OnePiece(t);
    OnePiece(u);
    PiecesSplit(x, '=', "");
    PiecesSplit(y, '=', "");
    PiecesParts(x, '=', y);
    PiecesParts(x + "=" + m, '=', y);
    PiecesParts(x, '=', m);
    assert Pieces(u, '=') == [Trim(x)] + Pieces(m, '=') + [Trim(y)];
  }

  // The loops

  /** `trim`: the right end may run back past `left`, and then nothing is kept. */
  method TrimRange(s: string, left: nat, right: nat) returns (l: nat, r: nat)
    requires left <= right <= |s|
    ensures r <= |s|
    ensures l < r ==> left <= l && r <= right && s[l..r] == Trim(s[left..right])
    ensures l >= r ==> Trim(s[left..right]) == ""
  {
    l, r := left, right;
    while l < |s| && IsBlank(s[l])
      invariant left <= l <= |s|
      invariant forall i | left <= i < l :: IsBlank(s[i])
    {
      l := l + 1;
    }
    while r > 0 && IsBlank(s[r - 1])
      invariant r <= right
      invariant forall i | r <= i < right :: IsBlank(s[i])
    {
      r := r - 1;
    }
    TrimmedBetween(s, left, right, l, r);
  }

  lemma TrimmedBetween(s: string, left: nat, right: nat, l: nat, r: nat)
    requires left <= right <= |s| && left <= l <= |s| && r <= right
    requires forall i | left <= i < l :: IsBlank(s[i])
    requires forall i | r <= i < right :: IsBlank(s[i])
    requires l < |s| ==> !IsBlank(s[l])
    requires r > 0 ==> !IsBlank(s[r - 1])
    ensures if l < r then s[l..r] == Trim(s[left..right]) else Trim(s[left..right]) == ""
  {
    var m := s[left..right];
    if l < r {
      assert m == s[left..l] + s[l..r] + s[r..right];
      TrimPadded(s[left..l], s[l..r], s[r..right]);
    } else {
      assert forall i | 0 <= i < |m| :: m[i] == s[left + i];
      assert forall c | c in m :: IsBlank(c);
      TrimPadded(m, "", "");
      assert m + "" + "" == m;
    }
  }

  method TrimPiece(s: string, left: nat, right: nat) returns (out: seq<string>)
    requires left <= right <= |s|
    ensures out == Keep(s[left..right])
  {
    var l, r := TrimRange(s, left, right);
    if l < r { return [s[l..r]]; }
    return [];
  }

  predicate Free(s: string, d: char, beg: nat, end: nat)
    requires end <= |s|
  {
    forall k | beg <= k < end :: s[k] != d
  }

  /** `split`; what it calls back is collected in order. */
  method Split(s: string, d: char) returns (out: seq<string>)
    ensures out == Pieces(s, d)
  {
    out := [];
    var i, beg := 0, 0;
    while i < |s|
      invariant beg <= i <= |s|
      invariant Free(s, d, beg, i)
      invariant out + Pieces(s[beg..], d) == Pieces(s, d)
    {
      if s[i] == d {
        var piece := TrimPiece(s, beg, i);
        SplitStep(s, d, beg, i, out, piece);
        out := out + piece;
        beg := i + 1;
      }
      i := i + 1;
    }
    SplitEnd(s, d, beg);
    if i > 0 {
      var piece := TrimPiece(s, beg, i);
      out := out + piece;
    }
  }

  lemma SplitStep(s: string, d: char, beg: nat, i: nat, out: seq<string>, piece: seq<string>)
    requires beg <= i < |s| && s[i] == d && Free(s, d, beg, i) && piece == Keep(s[beg..i])
    ensures out + Pieces(s[beg..], d) == out + piece + Pieces(s[i + 1..], d)
  {
    PiecesStep(s, d, beg, i);
    Assoc(out, piece, Pieces(s[i + 1..], d));
  }

  lemma SplitEnd(s: string, d: char, beg: nat)
    requires beg <= |s| && Free(s, d, beg, |s|)
    ensures Pieces(s[beg..], d) == Keep(s[beg..|s|])
  {
    assert s[beg..|s|] == s[beg..];
    PiecesSplit(s[beg..], d, "");
  }

  lemma PiecesStep(s: string, d: char, beg: nat, i: nat)
    requires beg <= i < |s| && s[i] == d && d !in s[beg..i]
    ensures Pieces(s[beg..], d) == Keep(s[beg..i]) + Pieces(s[i + 1..], d)
  {
    CutAt(s, d, beg, i);
    PiecesSplit(s[beg..i], d, s[i + 1..]);
  }

  lemma CutAt(s: string, d: char, beg: nat, i: nat)
    requires beg <= i < |s| && s[i] == d
    ensures s[beg..] == s[beg..i] + [d] + s[i + 1..]
  {
  }

  /** The callback of the outer `split`: the first piece is the key, the last of the others the value. */
  method ParsePiece(piece: string) returns (pair: seq<Pair>)
    ensures pair == ParsePair(piece)
  {
    var key, val := "", "";
    var parts := Split(piece, '=');
    for k := 0 to |parts|
      invariant key == if k == 0 then "" else parts[0]
      invariant val == if k > 1 then parts[k - 1] else ""
    {
      PieceIsNotEmpty(piece, '=', 0);
      if key == "" { key := parts[k]; } else { val := parts[k]; }
    }
    if |parts| > 0 { PieceIsNotEmpty(piece, '=', 0); }
    if key == "" { return []; }
    var dk := DecodeUrl(key, true);
    var dv := DecodeUrl(val, true);
    return [(dk, dv)];
  }

  method ParseQueryText(s: string) returns (params: seq<Pair>)
    ensures params == ParseQuery(s)
  {
    params := [];
    var pieces := Split(s, '&');
    for i := 0 to |pieces|
      invariant params + ParsePairs(pieces[i..]) == ParseQuery(s)
    {
      var pair := ParsePiece(pieces[i]);
      assert pieces[i..][1..] == pieces[i + 1..];
      Assoc(params, pair, ParsePairs(pieces[i + 1..]));
      params := params + pair;
    }
  }

  lemma {:induction false} PieceIsNotEmpty(s: string, d: char, k: nat)
    requires k < |Pieces(s, d)|
    ensures Pieces(s, d)[k] != ""
    decreases |s|
  {
    var u := Until(s, d);
    if u < |s| && k >= |Keep(s[..u])| {
      PieceIsNotEmpty(s[u + 1..], d, k - |Keep(s[..u])|);
    }
  }

  method ParamsToQueryStr(params: seq<Pair>) returns (query: string)
    requires Printable(params)
    ensures query == PrintQuery(params)
  {
    query := "";
    for i := 0 to |params|
      invariant query + Sep(i, |params|) + PrintQuery(params[i..]) == PrintQuery(params)
    {
      ghost var before := query;
      if i != 0 { query := query + "&"; }
      query := query + params[i].0;
      query := query + "=";
      var e := EncodeUrl(params[i].1);
      query := query + e;
      assert params[i..][0] == params[i] && params[i..][1..] == params[i + 1..];
      Joined(before, i, |params|, PrintPair(params[i]), PrintQuery(params[i + 1..]));
      assert query == before + Sep(i, |params|) + PrintPair(params[i]);
    }
  }

  /** The separator still to come before the pair `i` of `n`. */
  function Sep(i: nat, n: nat): string { if 0 < i < n then "&" else "" }

  lemma Joined(before: string, i: nat, n: nat, p: string, rest: string)
    requires i < n
    ensures before + Sep(i, n) + (if i + 1 == n then p else p + "&" + rest)
         == before + Sep(i, n) + p + Sep(i + 1, n) + (if i + 1 == n then "" else rest)
  {
  }
}
