// What the header lines of a multipart part mean to the parser: the recognizer against the regular expression
// read as a grammar, and which lines decide.
module Disposition {
  import opened Text
  import opened MultipartHeaders
  import opened Wrappers

  // ^Content-Disposition:\s*form-data;\s*name="(.*?)"(?:;\s*filename="(.*?)")?\s*$ as a grammar

  predicate Spells(q: string, lit: string) { SameLetters(q, lit) }

  /** A filename field, with what the expression spells out. */
  predicate FilenameParts(t: string, s: string, q: string, f: string, z: string) {
    && t == ";" + (s + (q + (f + ("\"" + z))))
    && AllSpace(s) && Spells(q, "filename=\"") && NoBreaks(f) && AllSpace(z)
  }

  ghost predicate IsTail(t: string, f: string) {
    (f == "" && AllSpace(t)) || exists s, q, z :: FilenameParts(t, s, q, f, z)
  }

  predicate NameParts(l: string, h: string, s: string, d: string, s': string, m: string, n: string, tail: string) {
    && l == h + (s + (d + (s' + (m + (n + ("\"" + tail))))))
    && Spells(h, "Content-Disposition:") && AllSpace(s) && Spells(d, "form-data;") && AllSpace(s')
    && Spells(m, "name=\"") && NoBreaks(n)
  }

  /** The line can be read as a disposition with this name and this filename. */
  ghost predicate IsDisposition(l: string, n: string, f: string) {
    exists h, s, d, s', m, tail :: NameParts(l, h, s, d, s', m, n, tail) && IsTail(tail, f)
  }

  /** The expression prefers the shortest name. */
  ghost predicate Names(l: string, n: string, f: string) {
    IsDisposition(l, n, f) && forall n', f' | IsDisposition(l, n', f') :: |n| <= |n'|
  }

  // Pieces of the recognizer

  lemma StripSpelled(q: string, lit: string, r: string)
    requires Spells(q, lit)
    ensures Strip(q + r, lit) == Some(r)
  {
    assert forall i | 0 <= i < |lit| :: (q + r)[i] == q[i];
  }

  lemma Stripped(s: string, lit: string)
    requires Strip(s, lit).Some?
    ensures s == s[..|lit|] + Strip(s, lit).value && Spells(s[..|lit|], lit)
  {
    StartsWithLetters(s, lit);
  }

  /** A literal behind spaces. */
  lemma NextLiteral(s: string, q: string, lit: string, r: string)
    requires AllSpace(s) && Spells(q, lit) && lit != "" && !IsSpace(lit[0]) && lit[0] != '\t'
    ensures Strip(SkipSpaces(s + (q + r)), lit) == Some(r)
  {
    assert (q + r)[0] == q[0] && SameLetter(q[0], lit[0]);
    assert !IsSpace(q[0]);
    SpacesSkipped(s, q + r);
    StripSpelled(q, lit, r);
  }

  /** What the recognizer of a literal behind spaces has seen. */
  lemma LiteralSeen(a: string, lit: string) returns (s: string, q: string)
    requires Strip(SkipSpaces(a), lit).Some?
    ensures a == s + (q + Strip(SkipSpaces(a), lit).value) && AllSpace(s) && Spells(q, lit)
  {
    var x := SkipSpaces(a);
    SkippedSpaces(a);
    Stripped(x, lit);
    s, q := a[..|a| - |x|], x[..|lit|];
  }

  // The filename

  predicate EndsAt(s: string, k: nat) { k < |s| && s[k] == '"' && AllSpace(s[k + 1..]) }

  lemma NoQuoteBehind(s: string, k: nat, i: nat)
    requires EndsAt(s, k) && k < i < |s|
    ensures s[i] != '"'
  {
    assert s[i] == s[k + 1..][i - k - 1] && s[i] in s[k + 1..];
  }

  lemma OneEnd(s: string, k: nat, k': nat)
    requires EndsAt(s, k) && EndsAt(s, k')
    ensures k == k'
  {
    if k < k' { NoQuoteBehind(s, k, k'); }
    if k' < k { NoQuoteBehind(s, k', k); }
  }

  lemma {:induction false} FilenameFound(s: string, i: nat)
    requires i <= |s|
    ensures var r := MatchFilename(s, i);
      r.Some? ==> i <= |r.value| <= |s| && r.value == s[..|r.value|] && EndsAt(s, |r.value|)
                  && NoBreaks(s[i..|r.value|])
    decreases |s| - i
  {
    if i < |s| && !EndsAt(s, i) && !IsBreak(s[i]) {
      FilenameFound(s, i + 1);
      var r := MatchFilename(s, i);
      if r.Some? {
        assert s[i..|r.value|] == [s[i]] + s[i + 1..|r.value|];
      }
    }
  }

  lemma {:induction false} FilenameFinds(s: string, i: nat, k: nat)
    requires i <= k && EndsAt(s, k) && NoBreaks(s[i..k])
    ensures MatchFilename(s, i) == Some(s[..k])
    decreases k - i
  {
    if i < k {
      assert s[i] == s[i..k][0] && s[i] in s[i..k];
      assert forall c | c in s[i + 1..k] :: c in s[i..k] by {
        assert s[i + 1..k] == s[i..k][1..];
      }
      if EndsAt(s, i) { OneEnd(s, i, k); }
      FilenameFinds(s, i + 1, k);
    }
  }

  lemma FieldSpelled(t: string, s: string, q: string, f: string, z: string)
    requires FilenameParts(t, s, q, f, z)
    ensures MatchTail(t) == Some(f)
  {
    var b := f + ("\"" + z);
    StripSpelled(";", ";", s + (q + b));
    NextLiteral(s, q, "filename=\"", b);
    assert b[|f| + 1..] == z && b[..|f|] == f && b[0..|f|] == f;
    FilenameFinds(b, 0, |f|);
  }

  lemma TailSpelled(t: string, f: string)
    requires IsTail(t, f)
    ensures MatchTail(t) == Some(f)
  {
    if s, q, z :| FilenameParts(t, s, q, f, z) {
      FieldSpelled(t, s, q, f, z);
    } else {
      assert t != "" ==> t[0] in t && IsSpace(t[0]);
    }
  }

  lemma TailSeen(t: string)
    requires MatchTail(t).Some?
    ensures IsTail(t, MatchTail(t).value)
  {
    match Strip(t, ";")
    case None =>
    case Some(a) =>
      Stripped(t, ";");
      assert t[0] == ';' && t == ";" + a;
      var s, q := LiteralSeen(a, "filename=\"");
      var b := Strip(SkipSpaces(a), "filename=\"").value;
      FilenameFound(b, 0);
      var f := MatchFilename(b, 0).value;
      var z := b[|f| + 1..];
      assert b == f + ("\"" + z);
      assert b[0..|f|] == f;
      assert FilenameParts(t, s, q, f, z);
  }

  // The name

  lemma {:induction false} NameFound(s: string, i: nat)
    requires i <= |s|
    ensures var r := MatchName(s, i);
      r.Some? ==> var k := |r.value.0|;
        && i <= k < |s| && r.value.0 == s[..k] && s[k] == '"' && NoBreaks(s[i..k])
        && IsTail(s[k + 1..], r.value.1)
    decreases |s| - i
  {
    if i < |s| {
      if s[i] == '"' && MatchTail(s[i + 1..]).Some? {
        TailSeen(s[i + 1..]);
      } else if !IsBreak(s[i]) {
        NameFound(s, i + 1);
        var r := MatchName(s, i);
        if r.Some? {
          assert s[i..|r.value.0|] == [s[i]] + s[i + 1..|r.value.0|];
        }
      }
    }
  }

  lemma {:induction false} NameFinds(s: string, i: nat, k: nat, f: string)
    requires i <= k < |s| && s[k] == '"' && NoBreaks(s[i..k]) && IsTail(s[k + 1..], f)
    ensures var r := MatchName(s, i);
      r.Some? && |r.value.0| <= k && (|r.value.0| == k ==> r.value == (s[..k], f))
    decreases k - i
  {
    if i == k {
      TailSpelled(s[k + 1..], f);
    } else {
      assert s[i] == s[i..k][0] && s[i] in s[i..k];
      assert forall c | c in s[i + 1..k] :: c in s[i..k] by {
        assert s[i + 1..k] == s[i..k][1..];
      }
      NameFinds(s, i + 1, k, f);
    }
  }

  // The whole line

  lemma DispositionSeen(l: string)
    requires MatchDisposition(l).Some?
    ensures IsDisposition(l, MatchDisposition(l).value.0, MatchDisposition(l).value.1)
  {
    hide MatchName, SkipSpaces, IsTail;
    var a := Strip(l, DISPOSITION_NAME).value;
    Stripped(l, DISPOSITION_NAME);
    var s, d := LiteralSeen(a, "form-data;");
    var b := Strip(SkipSpaces(a), "form-data;").value;
    var s', m := LiteralSeen(b, "name=\"");
    var c := Strip(SkipSpaces(b), "name=\"").value;
    NameFound(c, 0);
    var n := MatchName(c, 0).value.0;
    var tail := c[|n| + 1..];
    assert c == n + ("\"" + tail) && c[0..|n|] == n;
    assert NameParts(l, l[..|DISPOSITION_NAME|], s, d, s', m, n, tail);
  }

  lemma DispositionFound(l: string, n: string, f: string)
    requires IsDisposition(l, n, f)
    ensures var r := MatchDisposition(l);
      r.Some? && |r.value.0| <= |n| && (|r.value.0| == |n| ==> r.value == (n, f))
  {
    var h, s, d, s', m, tail :| NameParts(l, h, s, d, s', m, n, tail) && IsTail(tail, f);
    PartsFound(l, h, s, d, s', m, n, tail, f);
  }

  lemma PartsFound(l: string, h: string, s: string, d: string, s': string, m: string, n: string, tail: string,
                   f: string)
    requires NameParts(l, h, s, d, s', m, n, tail) && IsTail(tail, f)
    ensures var r := MatchDisposition(l);
      r.Some? && |r.value.0| <= |n| && (|r.value.0| == |n| ==> r.value == (n, f))
  {
    var c := n + ("\"" + tail);
    var b := s' + (m + c);
    StripSpelled(h, DISPOSITION_NAME, s + (d + b));
    NextLiteral(s, d, "form-data;", b);
    NextLiteral(s', m, "name=\"", c);
    assert c[..|n|] == n && c[0..|n|] == n && c[|n| + 1..] == tail;
    NameFinds(c, 0, |n|, f);
  }

  /** The recognizer matches exactly what the expression matches, with the same groups: of all readings of the
      line the one with the shortest name. */
  lemma MatchesExactly(l: string, n: string, f: string)
    ensures MatchDisposition(l) == Some((n, f)) <==> Names(l, n, f)
    ensures MatchDisposition(l) == None <==> forall n', f' :: !IsDisposition(l, n', f')
  {
    if MatchDisposition(l).Some? {
      DispositionSeen(l);
    }
    forall n', f' | IsDisposition(l, n', f')
      ensures MatchDisposition(l).Some? && |MatchDisposition(l).value.0| <= |n'|
    {
      DispositionFound(l, n', f');
    }
    if IsDisposition(l, n, f) {
      DispositionFound(l, n, f);
    }
  }

  // Which lines decide

  predicate TypeLine(l: string) { |l| >= 13 && Spells(l[..13], "content-type:") }

  ghost predicate NameLine(l: string) { exists n, f :: IsDisposition(l, n, f) }

  lemma EighthLetter(l: string)
    ensures TypeLine(l) ==> l[8] in {'t', 'T'}
    ensures NameLine(l) ==> |l| > 8 && l[8] in {'d', 'D'}
  {
    assert "content-type:"[8] == 't' && "Content-Disposition:"[8] == 'D';
    if TypeLine(l) {
      assert l[8] == l[..13][8] && SameLetter(l[..13][8], 't');
    }
    if n, f :| IsDisposition(l, n, f) {
      var h, s, d, s', m, tail :| NameParts(l, h, s, d, s', m, n, tail) && IsTail(tail, f);
      assert l[8] == h[8] && SameLetter(h[8], 'D');
    }
  }

  lemma NoTypeLine(l: string)
    ensures TypeLine(l) <==> StartsWith(l, TYPE_NAME)
    ensures NameLine(l) ==> !TypeLine(l)
  {
    StartsWithLetters(l, TYPE_NAME);
    EighthLetter(l);
  }

  lemma OneLineMeans(file: Item, l: string)
    ensures var r := ApplyLine(file, l);
      && r.content == file.content
      && (if TypeLine(l) then r.contentType == Trim(l[13..]) else r.contentType == file.contentType)
      && (NameLine(l) ==> Names(l, r.name, r.filename))
      && (!NameLine(l) ==> r.name == file.name && r.filename == file.filename)
  {
    NoTypeLine(l);
    var r := ApplyLine(file, l);
    MatchesExactly(l, r.name, r.filename);
  }

  /** Line `k` is the last one that gives a content type. */
  predicate LastType(ls: seq<string>, k: nat) {
    k < |ls| && TypeLine(ls[k]) && forall i | k < i < |ls| :: !TypeLine(ls[i])
  }

  ghost predicate LastName(ls: seq<string>, k: nat) {
    k < |ls| && NameLine(ls[k]) && forall i | k < i < |ls| :: !NameLine(ls[i])
  }

  ghost predicate TypeIsLast(ls: seq<string>, contentType: string) {
    && (forall k: nat | LastType(ls, k) :: contentType == Trim(ls[k][13..]))
    && ((forall i | 0 <= i < |ls| :: !TypeLine(ls[i])) ==> contentType == "")
  }

  ghost predicate NameIsLast(ls: seq<string>, name: string, filename: string) {
    && (forall k: nat | LastName(ls, k) :: Names(ls[k], name, filename))
    && ((forall i | 0 <= i < |ls| :: !NameLine(ls[i])) ==> name == "" && filename == "")
  }

  /** Of the lines that give a content type the last one counts, and of those that give a name the last one,
      with its filename; without any the fields are empty. No other line matters. */
  lemma {:induction false} LastLineCounts(ls: seq<string>)
    ensures var r := ApplyLines(NO_FILE, ls);
      TypeIsLast(ls, r.contentType) && NameIsLast(ls, r.name, r.filename) && r.content == ""
    decreases |ls|
  {
    if ls != [] {
      var before, l := ls[..|ls| - 1], ls[|ls| - 1];
      assert ls == before + [l];
      LastLineCounts(before);
      ApplyMore(NO_FILE, before, l);
      var file, r := ApplyLines(NO_FILE, before), ApplyLines(NO_FILE, ls);
      OneLineMeans(file, l);
      TypeStaysLast(before, l, file.contentType, r.contentType);
      NameStaysLast(before, l, file, r);
    }
  }

  lemma TypeStaysLast(before: seq<string>, l: string, was: string, now: string)
    requires TypeIsLast(before, was)
    requires if TypeLine(l) then now == Trim(l[13..]) else now == was
    ensures TypeIsLast(before + [l], now)
  {
    var ls := before + [l];
    assert ls[|before|] == l && forall i | 0 <= i < |before| :: ls[i] == before[i];
    forall k: nat | LastType(ls, k)
      ensures now == Trim(ls[k][13..])
    {
      if k < |before| {
        assert LastType(before, k);
      }
    }
  }

  lemma NameStaysLast(before: seq<string>, l: string, file: Item, r: Item)
    requires NameIsLast(before, file.name, file.filename)
    requires if NameLine(l) then Names(l, r.name, r.filename) else r.name == file.name && r.filename == file.filename
    ensures NameIsLast(before + [l], r.name, r.filename)
  {
    var ls := before + [l];
    assert ls[|before|] == l && forall i | 0 <= i < |before| :: ls[i] == before[i];
    forall k: nat | LastName(ls, k)
      ensures Names(ls[k], r.name, r.filename)
    {
      if k < |before| {
        assert LastName(before, k);
      }
    }
  }
}
