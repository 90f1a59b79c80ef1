// The Range header (section 2.1 of RFC 7233): `make_range_header` and `parse_range_header` of
// `comm/httplib.h`.
module RangeHeader {
  import opened Text
  import Q = Query
  import opened Wrappers

  /** A bound of -1 is left out. */
  type Range = (int, int)

  const INT64_MAX := 0x7FFF_FFFF_FFFF_FFFF

  // Decimal numbers

  predicate IsDigit(c: char) { '0' <= c <= '9' }

  predicate AllDigits(s: string) { forall i | 0 <= i < |s| :: IsDigit(s[i]) }

  function Decimal(n: nat): string {
    (if n < 10 then "" else Decimal(n / 10)) + ['0' + (n % 10) as char]
  }

  /** `std::to_string`. */
  function ToString(n: int): string { if n < 0 then "-" + Decimal(-n) else Decimal(n) }

  function Number(s: string): nat
    requires AllDigits(s)
  {
    if s == "" then 0 else Number(s[..|s| - 1]) * 10 + (s[|s| - 1] as int - '0' as int)
  }

  lemma {:induction false} DecimalNumber(n: nat)
    ensures Decimal(n) != "" && AllDigits(Decimal(n)) && Number(Decimal(n)) == n
  {
    if n >= 10 {
      DecimalNumber(n / 10);
      assert Decimal(n)[..|Decimal(n)| - 1] == Decimal(n / 10);
    } else {
      assert Decimal(n)[..0] == "";
    }
  }

  // The grammar of the regular expressions

  function DigitRun(s: string): (k: nat)
    ensures k <= |s| && AllDigits(s[..k]) && (k < |s| ==> !IsDigit(s[k]))
  {
    if s == "" || !IsDigit(s[0]) then 0
    else
      var k := DigitRun(s[1..]);
      assert s[..1 + k] == [s[0]] + s[1..][..k];
      1 + k
  }

  /** The length of a front of the form `\d*-\d*`, if there is one; digits are taken greedily, and nothing
      that may follow is a digit. */
  function OneRange(s: string): (k: Option<nat>)
    ensures k.Some? ==> 0 < k.value <= |s|
  {
    var a := DigitRun(s);
    if a == |s| || s[a] != '-' then None else Some(a + 1 + DigitRun(s[a + 1..]))
  }

  /** `\d*-\d*(?:,\s*\d*-\d*)*`, all of `s`. */
  predicate RangeList(s: string)
    decreases |s|
  {
    var k := OneRange(s);
    k.Some? && (k.value == |s| || (s[k.value] == ',' && RangeList(SkipSpaces(s[k.value + 1..]))))
  }

  /** `std::stoll` on digits; none means that it throws. */
  function Bound(s: string): Option<int>
    requires AllDigits(s)
  {
    if s == "" then Some(-1)
    else
      var n: int := Number(s);
      if n <= INT64_MAX then Some(n) else None
  }

  /** A piece between commas. */
  function ParsePiece(piece: string): Option<Range> {
    var s := SkipSpaces(piece);
    var a := DigitRun(s);
    if a == |s| || s[a] != '-' || !AllDigits(s[a + 1..]) then None
    else
      var first, last := Bound(s[..a]), Bound(s[a + 1..]);
      if first == None || last == None then None
      else if first.value != -1 && last.value != -1 && first.value > last.value then None
      else Some((first.value, last.value))
  }

  function ParsePieces(pieces: seq<string>): Option<seq<Range>> {
    if pieces == [] then Some([])
    else
      var r := ParsePiece(pieces[0]);
      if r == None then None
      else
        var rest := ParsePieces(pieces[1..]);
        if rest == None then None else Some([r.value] + rest.value)
  }

  const PREFIX := "bytes="

  /** The ranges, if the header is accepted. */
  function ParseRange(s: string): Option<seq<Range>> {
    if PREFIX <= s && RangeList(s[|PREFIX|..]) then ParsePieces(Q.Pieces(s[|PREFIX|..], ',')) else None
  }

  // The printer

  function BoundText(b: int): string { if b != -1 then ToString(b) else "" }

  function RangeText(r: Range): string { BoundText(r.0) + "-" + BoundText(r.1) }

  function RangeTexts(rs: seq<Range>): seq<string> {
    seq(|rs|, i requires 0 <= i < |rs| => RangeText(rs[i]))
  }

  /** The texts from number `i` on, each but the first behind a comma and a blank. */
  function Joined(texts: seq<string>, i: nat): string
    requires i <= |texts|
    decreases |texts| - i
  {
    if i == |texts| then "" else Separator(i) + (texts[i] + Joined(texts, i + 1))
  }

  function Separator(i: nat): string { if i == 0 then "" else ", " }

  function MakeRange(rs: seq<Range>): string { PREFIX + Joined(RangeTexts(rs), 0) }

  // What is accepted: lists of ranges

  /** `t` lists exactly these ranges: digits, a dash and digits, either left out for -1; no bound exceeds 63 bits
      and no range runs backwards; behind each comma there may be spaces. */
  ghost predicate Lists(t: string, rs: seq<Range>)
    decreases |rs|
  {
    && rs != []
    && exists a, b ::
         && Spells(a, b, rs[0])
         && if |rs| == 1 then t == a + "-" + b
            else exists sp, u :: AllSpace(sp) && Follows(t, a + "-" + b, sp, u) && Lists(u, rs[1..])
  }

  predicate Follows(t: string, p: string, sp: string, u: string) { t == p + ("," + (sp + u)) }

  predicate Spells(a: string, b: string, r: Range) {
    && AllDigits(a) && AllDigits(b)
    && r.0 == (if a == "" then -1 else Number(a)) && r.1 == (if b == "" then -1 else Number(b))
    && r.0 <= INT64_MAX && r.1 <= INT64_MAX && (a != "" && b != "" ==> r.0 <= r.1)
  }

  lemma {:induction false} DigitRunOf(a: string, rest: string)
    requires AllDigits(a) && (rest != "" ==> !IsDigit(rest[0]))
    ensures DigitRun(a + rest) == |a|
  {
    if a == "" {
      assert a + rest == rest;
    } else {
      assert (a + rest)[1..] == a[1..] + rest;
      DigitRunOf(a[1..], rest);
    }
  }

  lemma {:induction false} DigitRunGrows(s: string, rest: string)
    requires DigitRun(s) < |s| || (rest != "" ==> !IsDigit(rest[0]))
    ensures DigitRun(s + rest) == DigitRun(s)
  {
    if s == "" {
      assert s + rest == rest;
    } else {
      assert (s + rest)[1..] == s[1..] + rest;
      if IsDigit(s[0]) {
        DigitRunGrows(s[1..], rest);
      }
    }
  }

  /** The text of one range, whatever its bounds. */
  predicate RangeLike(p: string) {
    OneRange(p) == Some(|p|) && forall i | 0 <= i < |p| :: IsDigit(p[i]) || p[i] == '-'
  }

  lemma Suffix(p: string, rest: string, k: nat)
    requires k <= |p|
    ensures (p + rest)[k..] == p[k..] + rest
  {
  }

  lemma OneRangeGrows(p: string, rest: string)
    requires RangeLike(p) && (rest != "" ==> !IsDigit(rest[0]))
    ensures OneRange(p + rest) == Some(|p|)
  {
    var a, s := DigitRun(p), p + rest;
    var x := p[a + 1..];
    DigitRunGrows(p, rest);
    Suffix(p, rest, a + 1);
    DigitRunGrows(x, rest);
    RangeAt(s, a, x + rest, |x|);
  }

  lemma RangeAt(s: string, a: nat, y: string, n: nat)
    requires DigitRun(s) == a < |s| && s[a] == '-' && s[a + 1..] == y && DigitRun(y) == n
    ensures OneRange(s) == Some(a + 1 + n)
  {
  }

  lemma TwoBounds(a: string, b: string)
    requires AllDigits(a) && AllDigits(b)
    ensures var s := a + "-" + b; DigitRun(s) == |a| && s[|a|] == '-' && s[..|a|] == a && s[|a| + 1..] == b
    ensures RangeLike(a + "-" + b)
  {
    var s := a + "-" + b;
    assert s == a + ("-" + b);
    DigitRunOf(a, "-" + b);
    assert s[|a| + 1..] == b;
    DigitRunOf(b, "");
    assert b + "" == b;
  }

  lemma NoSpace(p: string)
    requires RangeLike(p)
    ensures SkipSpaces(p) == p && !OuterBlank(p) && ',' !in p
  {
    assert !IsSpace(p[0]);
  }

  lemma SpelledPiece(a: string, b: string, r: Range)
    requires AllDigits(a) && AllDigits(b)
    ensures RangeLike(a + "-" + b)
    ensures ParsePiece(a + "-" + b) == Some(r) <==> Spells(a, b, r)
  {
    TwoBounds(a, b);
    NoSpace(a + "-" + b);
  }

  lemma {:induction false} TrimLeftKeeps(sp: string, p: string) returns (k: nat)
    requires p != "" && !OuterBlank(p)
    ensures k <= |sp| && TrimLeft(sp + p) == sp[k..] + p
  {
    k := 0;
    if sp == "" {
      assert sp + p == p;
    } else if IsBlank(sp[0]) {
      assert (sp + p)[1..] == sp[1..] + p;
      k := TrimLeftKeeps(sp[1..], p);
      assert sp[1..][k..] == sp[k + 1..];
      k := k + 1;
    }
  }

  /** Whatever spaces stand in front of a piece, it is read the same. */
  lemma SpacedPiece(sp: string, p: string)
    requires AllSpace(sp) && RangeLike(p)
    ensures Q.Keep(sp + p) == [Trim(sp + p)] && ParsePiece(Trim(sp + p)) == ParsePiece(p)
  {
    NoSpace(p);
    var k := TrimLeftKeeps(sp, p);
    var s := sp[k..];
    assert forall c | c in s :: c in sp;
    TrimRightPadded(s + p, "");
    assert s + p + "" == s + p;
    SpacesSkipped(s, p);
  }

  lemma ParsePiecesCons(p: string, rest: seq<string>)
    ensures ParsePieces([p] + rest) == match ParsePiece(p)
      case None => None
      case Some(r) => Behind([r], ParsePieces(rest))
  {
    assert ([p] + rest)[1..] == rest;
  }

  function Behind(before: seq<Range>, rest: Option<seq<Range>>): Option<seq<Range>> {
    if rest == None then None else Some(before + rest.value)
  }

  lemma BehindTwice(a: seq<Range>, b: seq<Range>, rest: Option<seq<Range>>)
    ensures Behind(a, Behind(b, rest)) == Behind(a + b, rest)
    ensures Behind([], rest) == rest
  {
    if rest.Some? {
      assert a + (b + rest.value) == a + b + rest.value && [] + rest.value == rest.value;
    }
  }

  /** The only piece of a list. */
  lemma LastOfList(sp: string, p: string)
    requires AllSpace(sp) && RangeLike(p)
    ensures ParsePieces(Q.Pieces(sp + p, ',')) == match ParsePiece(p) case None => None case Some(r) => Some([r])
  {
    NoSpace(p);
    Q.PiecesSplit(sp + p, ',', "");
    SpacedPiece(sp, p);
    ParsePiecesCons(Trim(sp + p), []);
    assert [Trim(sp + p)] + [] == [Trim(sp + p)];
    assert forall r: Range :: [r] + [] == [r];
  }

  /** The first piece of a list and the others. */
  lemma FirstOfList(sp: string, p: string, rest: string, t: string)
    requires AllSpace(sp) && RangeLike(p) && t == p + ("," + rest)
    ensures ParsePieces(Q.Pieces(sp + t, ',')) == match ParsePiece(p)
      case None => None
      case Some(r) => Behind([r], ParsePieces(Q.Pieces(rest, ',')))
  {
    NoSpace(p);
    assert sp + t == (sp + p) + [','] + rest;
    Q.PiecesSplit(sp + p, ',', rest);
    SpacedPiece(sp, p);
    ParsePiecesCons(Trim(sp + p), Q.Pieces(rest, ','));
  }

  lemma BehindFirst(t: string, p: string, x: string)
    requires t == p + ("," + x)
    ensures t[|p|] == ',' && t[|p| + 1..] == x
  {
  }

  lemma ListGrows(t: string, p: string, sp: string, u: string)
    requires RangeLike(p) && AllSpace(sp) && u != "" && !IsSpace(u[0]) && Follows(t, p, sp, u)
    ensures RangeList(t) <==> RangeList(u)
  {
    var x := sp + u;
    OneRangeGrows(p, "," + x);
    BehindFirst(t, p, x);
    SpacesSkipped(sp, u);
  }

  lemma {:induction false} ListedIsRead(t: string, rs: seq<Range>, sp: string)
    requires Lists(t, rs) && AllSpace(sp)
    ensures RangeList(t) && SkipSpaces(t) == t && t != "" && !IsSpace(t[0])
    ensures ParsePieces(Q.Pieces(sp + t, ',')) == Some(rs)
    decreases |rs|
  {
    if |rs| == 1 {
      var a, b :| Spells(a, b, rs[0]) && t == a + "-" + b;
      SpelledPiece(a, b, rs[0]);
      NoSpace(t);
      LastOfList(sp, t);
      assert [rs[0]] == rs;
    } else {
      var a, b, sp', u :| Spells(a, b, rs[0]) && AllSpace(sp') && Follows(t, a + "-" + b, sp', u) && Lists(u, rs[1..]);
      var p := a + "-" + b;
      SpelledPiece(a, b, rs[0]);
      NoSpace(p);
      ListedIsRead(u, rs[1..], sp');
      FirstOfList(sp, p, sp' + u, t);
      ListGrows(t, p, sp', u);
      assert t[0] == p[0];
      assert [rs[0]] + rs[1..] == rs;
    }
  }

  /** A front that is a range. */
  lemma FrontRange(t: string) returns (a: string, b: string)
    requires OneRange(t).Some?
    ensures AllDigits(a) && AllDigits(b) && t[..OneRange(t).value] == a + "-" + b && RangeLike(a + "-" + b)
  {
    var m := DigitRun(t);
    var x := t[m + 1..];
    a, b := t[..m], x[..DigitRun(x)];
    Spelled(t, m, DigitRun(x));
    TwoBounds(a, b);
  }

  lemma Spelled(t: string, m: nat, n: nat)
    requires m < |t| && t[m] == '-' && n <= |t| - m - 1
    ensures t[..m + 1 + n] == t[..m] + "-" + t[m + 1..][..n]
  {
  }

  lemma BehindComma(t: string, k: nat) returns (sp: string)
    requires k < |t| && t[k] == ','
    ensures AllSpace(sp) && Follows(t, t[..k], sp, SkipSpaces(t[k + 1..]))
  {
    var x := t[k + 1..];
    SkippedSpaces(x);
    sp := x[..|x| - |SkipSpaces(x)|];
    assert t == t[..k] + ("," + x);
  }

  /** What a list begins with: its first range, and if there are more the comma, spaces and another list. */
  lemma ListCut(t: string) returns (a: string, b: string, sp: string, u: string)
    requires RangeList(t)
    ensures AllDigits(a) && AllDigits(b) && RangeLike(a + "-" + b) && |u| < |t|
    ensures t == a + "-" + b || (AllSpace(sp) && Follows(t, a + "-" + b, sp, u) && RangeList(u))
  {
    var k := OneRange(t).value;
    a, b := FrontRange(t);
    sp, u := "", "";
    if k == |t| {
      assert t[..k] == t;
    } else {
      sp := BehindComma(t, k);
      u := SkipSpaces(t[k + 1..]);
    }
  }

  lemma {:induction false} ReadIsListed(t: string, rs: seq<Range>, sp: string)
    requires RangeList(t) && AllSpace(sp) && ParsePieces(Q.Pieces(sp + t, ',')) == Some(rs)
    ensures Lists(t, rs)
    decreases |t|
  {
    var a, b, sp', u := ListCut(t);
    var p := a + "-" + b;
    if t == p {
      LastOfList(sp, p);
      SpelledPiece(a, b, rs[0]);
    } else {
      FirstOfList(sp, p, sp' + u, t);
      var rest := ParsePieces(Q.Pieces(sp' + u, ',')).value;
      assert rs == [rs[0]] + rest && rs[1..] == rest;
      SpelledPiece(a, b, rs[0]);
      ReadIsListed(u, rs[1..], sp');
      assert rs[1..] != [];
    }
  }

  lemma Prefixed(t: string)
    ensures ParseRange(PREFIX + t) == if RangeList(t) then ParsePieces(Q.Pieces(t, ',')) else None
  {
    assert (PREFIX + t)[|PREFIX|..] == t;
  }

  /** Exactly the lists of ranges are accepted, and read as the ranges they list. */
  lemma AcceptedExactly(t: string, rs: seq<Range>)
    ensures ParseRange("bytes=" + t) == Some(rs) <==> Lists(t, rs)
  {
    Prefixed(t);
    assert "" + t == t;
    if Lists(t, rs) {
      ListedIsRead(t, rs, "");
    }
    if ParseRange("bytes=" + t) == Some(rs) {
      ReadIsListed(t, rs, "");
    }
  }

  // Round trip

  predicate BoundOk(b: int) { -1 <= b <= INT64_MAX }

  predicate RangeOk(r: Range) {
    BoundOk(r.0) && BoundOk(r.1) && (r.0 != -1 && r.1 != -1 ==> r.0 <= r.1)
  }

  predicate AllRangesOk(rs: seq<Range>) { forall i | 0 <= i < |rs| :: RangeOk(rs[i]) }

  lemma BoundSpelled(b: int)
    requires b >= -1
    ensures AllDigits(BoundText(b)) && (BoundText(b) == "" <==> b == -1)
    ensures b >= 0 ==> Number(BoundText(b)) == b
  {
    if b >= 0 { DecimalNumber(b); }
  }

  lemma RangeSpelled(r: Range)
    requires RangeOk(r)
    ensures Spells(BoundText(r.0), BoundText(r.1), r)
  {
    BoundSpelled(r.0);
    BoundSpelled(r.1);
  }

  ghost predicate TextOf(p: string, r: Range) { exists a, b :: p == a + "-" + b && Spells(a, b, r) }

  lemma ListOne(p: string, r: Range)
    requires TextOf(p, r)
    ensures Lists(p, [r])
  {
  }

  lemma ListMore(p: string, r: Range, u: string, rs: seq<Range>)
    requires TextOf(p, r) && Lists(u, rs)
    ensures Lists(p + (", " + u), [r] + rs)
  {
    var t := p + (", " + u);
    CommaBlank(p, u);
    assert AllSpace(" ") && ([r] + rs)[1..] == rs;
  }

  lemma CommaBlank(p: string, u: string)
    ensures Follows(p + (", " + u), p, " ", u)
  {
    assert ", " + u == "," + (" " + u);
  }

  ghost predicate TextsOf(texts: seq<string>, rs: seq<Range>) {
    |texts| == |rs| && forall k | 0 <= k < |rs| :: TextOf(texts[k], rs[k])
  }

  /** The ranges from number `i` on, without the separator in front of them. */
  lemma {:induction false} PrintedIsList(rs: seq<Range>, texts: seq<string>, i: nat)
    requires TextsOf(texts, rs) && i < |rs|
    ensures Lists(texts[i] + Joined(texts, i + 1), rs[i..])
    decreases |rs| - i
  {
    assert rs[i..] == [rs[i]] + rs[i + 1..];
    if i + 1 == |rs| {
      ListOne(texts[i], rs[i]);
      assert texts[i] + "" == texts[i] && rs[i..] == [rs[i]];
    } else {
      PrintedIsList(rs, texts, i + 1);
      ListMore(texts[i], rs[i], texts[i + 1] + Joined(texts, i + 2), rs[i + 1..]);
    }
  }

  lemma RangeTextsSpelled(rs: seq<Range>)
    requires AllRangesOk(rs)
    ensures TextsOf(RangeTexts(rs), rs)
  {
    forall k | 0 <= k < |rs|
      ensures TextOf(RangeTexts(rs)[k], rs[k])
    {
      RangeSpelled(rs[k]);
    }
  }

  lemma {:induction false} ListedAreOk(t: string, rs: seq<Range>)
    requires Lists(t, rs)
    ensures rs != [] && AllRangesOk(rs)
    decreases |rs|
  {
    if |rs| > 1 {
      var a, b, sp, u :| Spells(a, b, rs[0]) && AllSpace(sp) && Follows(t, a + "-" + b, sp, u) && Lists(u, rs[1..]);
      ListedAreOk(u, rs[1..]);
      assert forall i | 0 < i < |rs| :: rs[i] == rs[1..][i - 1];
    }
  }

  lemma PrintedIsRead(rs: seq<Range>)
    requires rs != [] && AllRangesOk(rs)
    ensures ParseRange(MakeRange(rs)) == Some(rs)
  {
    var texts := RangeTexts(rs);
    var t := texts[0] + Joined(texts, 1);
    RangeTextsSpelled(rs);
    PrintedIsList(rs, texts, 0);
    assert rs[0..] == rs && Joined(texts, 0) == "" + t == t;
    AcceptedExactly(t, rs);
  }

  lemma ReadAreOk(rs: seq<Range>)
    requires ParseRange(MakeRange(rs)) == Some(rs)
    ensures rs != [] && AllRangesOk(rs)
  {
    var t := Joined(RangeTexts(rs), 0);
    AcceptedExactly(t, rs);
    ListedAreOk(t, rs);
  }

  /** A printed header is read back exactly when it lists at least one range, every bound is absent or fits
      63 bits, and no range runs backwards. */
  lemma RangeRoundTrip(rs: seq<Range>)
    ensures ParseRange(MakeRange(rs)) == Some(rs) <==> rs != [] && AllRangesOk(rs)
  {
    if rs != [] && AllRangesOk(rs) { PrintedIsRead(rs); }
    if ParseRange(MakeRange(rs)) == Some(rs) { ReadAreOk(rs); }
  }

  // The loops

  lemma Append(field: string, i: nat, a: string, b: string, rest: string)
    ensures field + (Separator(i) + ((a + "-" + b) + rest)) == field + Separator(i) + a + "-" + b + rest
  {
  }

  method MakeRangeHeader(rs: seq<Range>) returns (field: string)
    ensures field == MakeRange(rs)
  {
    field := "bytes=";
    ghost var texts := RangeTexts(rs);
    for i := 0 to |rs|
      invariant field + Joined(texts, i) == MakeRange(rs)
    {
      Append(field, i, BoundText(rs[i].0), BoundText(rs[i].1), Joined(texts, i + 1));
      if i != 0 { field := field + ", "; } else { field := field + ""; }
      field := field + BoundText(rs[i].0);
      field := field + "-";
      field := field + BoundText(rs[i].1);
    }
  }

  method ParseRangeHeader(s: string) returns (ok: bool, ranges: seq<Range>)
    ensures ParseRange(s) == if ok then Some(ranges) else None
  {
    ranges := [];
    if !(PREFIX <= s && RangeList(s[|PREFIX|..])) { return false, ranges; }
    var pieces := Q.Split(s[|PREFIX|..], ',');
    ghost var all := ParsePieces(pieces);
    var allValidRanges := true;
    assert pieces[0..] == pieces;
    BehindTwice([], [], all);
    for i := 0 to |pieces|
      invariant all == if allValidRanges then Behind(ranges, ParsePieces(pieces[i..])) else None
    {
      if allValidRanges {
        var r := ParsePiece(pieces[i]);
        NextPiece(ranges, pieces, i, r);
        match r
        case None =>
          allValidRanges := false;
        case Some(range) =>
          ranges := ranges + [range];
      }
    }
    assert ranges + [] == ranges;
    return allValidRanges, ranges;
  }

  lemma NextPiece(ranges: seq<Range>, pieces: seq<string>, i: nat, r: Option<Range>)
    requires i < |pieces| && r == ParsePiece(pieces[i])
    ensures Behind(ranges, ParsePieces(pieces[i..]))
         == match r case None => None case Some(range) => Behind(ranges + [range], ParsePieces(pieces[i + 1..]))
  {
    assert pieces[i..] == [pieces[i]] + pieces[i + 1..];
    ParsePiecesCons(pieces[i], pieces[i + 1..]);
    if r.Some? {
      BehindTwice(ranges, [r.value], ParsePieces(pieces[i + 1..]));
    }
  }
}
