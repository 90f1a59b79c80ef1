// The header lines of one part of a multipart/form-data body: how `Post` prints them and how the
// parser reads them back. The regular expression of the parser is an explicit recognizer here.
module MultipartHeaders {
  import opened Text
  import opened Wrappers

  /** `MultipartFormData`. */
  datatype Item = Item(name: string, filename: string, contentType: string, content: string)

  const NO_FILE := Item("", "", "", "")

  const DISPOSITION_NAME := "Content-Disposition:"
  const TYPE_NAME := "content-type:"

  // Printing

  function FilenameField(it: Item): string {
    if it.filename == "" then "" else ";" + (" " + ("filename=\"" + (it.filename + "\"")))
  }

  function DispositionLine(it: Item): string {
    DISPOSITION_NAME + (" " + ("form-data;" + (" " + ("name=\"" + (it.name + "\"" + FilenameField(it))))))
  }

  const NAME_PREFIX := DISPOSITION_NAME + (" " + ("form-data;" + (" " + "name=\"")))
  const FILENAME_PREFIX := ";" + (" " + "filename=\"")

  /** The same line as `Post` spells it, piece by piece. */
  lemma DispositionSpelled(it: Item)
    ensures DispositionLine(it) ==
      NAME_PREFIX + it.name + "\""
      + (if it.filename == "" then "" else FILENAME_PREFIX + it.filename + "\"")
  {
    Reassociate(DISPOSITION_NAME, " ", "form-data;", " ", "name=\"", it.name, "\"", FilenameField(it));
    Reassociate("", ";", " ", "filename=\"", "", it.filename, "\"", "");
    assert FILENAME_PREFIX == "" + (";" + (" " + ("filename=\"" + "")));
    assert it.filename + "\"" + "" == it.filename + "\"";
  }

  lemma Reassociate(a: string, b: string, c: string, d: string, e: string, n: string, q: string, f: string)
    ensures a + (b + (c + (d + (e + (n + q + f))))) == a + (b + (c + (d + e))) + n + q + f
    ensures a + (b + (c + (d + (e + (n + q + f))))) == a + (b + (c + (d + e + (n + q + f))))
  {
    assert d + (e + (n + q + f)) == d + e + (n + q + f);
    assert c + (d + e + (n + q + f)) == c + (d + e) + (n + q + f);
    assert b + (c + (d + e) + (n + q + f)) == b + (c + (d + e)) + (n + q + f);
    assert a + (b + (c + (d + e)) + (n + q + f)) == a + (b + (c + (d + e))) + (n + q + f);
  }

  function HeaderLines(it: Item): seq<string> {
    [DispositionLine(it)]
    + (if it.contentType == "" then [] else ["Content-Type: " + it.contentType])
  }

  function Lines(ls: seq<string>): string {
    if ls == [] then "" else ls[0] + CRLF + Lines(ls[1..])
  }

  // Recognizing: ^Content-Disposition:\s*form-data;\s*name="(.*?)"(?:;\s*filename="(.*?)")?\s*$
  // with letter case ignored. `.` does not match CR or LF, and `.*?` prefers the shortest match.

  function Strip(s: string, lit: string): (r: Option<string>)
    ensures r.Some? ==> |lit| <= |s| && r.value == s[|lit|..]
  {
    if StartsWith(s, lit) then Some(s[|lit|..]) else None
  }

  function MatchFilename(s: string, i: nat): Option<string>
    requires i <= |s|
    decreases |s| - i
  {
    if i == |s| then None
    else if s[i] == '"' && AllSpace(s[i + 1..]) then Some(s[..i])
    else if s[i] == '\r' || s[i] == '\n' then None
    else MatchFilename(s, i + 1)
  }

  function MatchTail(s: string): Option<string> {
    match Strip(s, ";")
    case None => if AllSpace(s) then Some("") else None
    case Some(a) =>
      match Strip(SkipSpaces(a), "filename=\"")
      case None => None
      case Some(b) => MatchFilename(b, 0)
  }

  function MatchName(s: string, i: nat): Option<(string, string)>
    requires i <= |s|
    decreases |s| - i
  {
    if i == |s| then None
    else if s[i] == '"' && MatchTail(s[i + 1..]).Some? then Some((s[..i], MatchTail(s[i + 1..]).value))
    else if s[i] == '\r' || s[i] == '\n' then None
    else MatchName(s, i + 1)
  }

  function MatchDisposition(line: string): Option<(string, string)> {
    match Strip(line, DISPOSITION_NAME)
    case None => None
    case Some(a) =>
      match Strip(SkipSpaces(a), "form-data;")
      case None => None
      case Some(b) =>
        match Strip(SkipSpaces(b), "name=\"")
        case None => None
        case Some(c) => MatchName(c, 0)
  }

  /** What one header line does to `file_`. */
  function ApplyLine(file: Item, line: string): Item {
    if StartsWith(line, TYPE_NAME) then
      file.(contentType := Trim(line[|TYPE_NAME|..]))
    else
      match MatchDisposition(line)
      case Some(m) => file.(name := m.0, filename := m.1)
      case None => file
  }

  function ApplyLines(file: Item, ls: seq<string>): Item
    decreases |ls|
  {
    if ls == [] then file else ApplyLines(ApplyLine(file, ls[0]), ls[1..])
  }

  lemma {:induction false} ApplyMore(file: Item, ls: seq<string>, l: string)
    ensures ApplyLines(file, ls + [l]) == ApplyLine(ApplyLines(file, ls), l)
    decreases |ls|
  {
    if ls == [] {
      assert [l][1..] == [] && ls + [l] == [l];
      assert ApplyLines(ApplyLine(file, l), []) == ApplyLine(file, l);
    } else {
      assert (ls + [l])[1..] == ls[1..] + [l];
      ApplyMore(ApplyLine(file, ls[0]), ls[1..], l);
    }
  }

  // What an item must look like for its headers to survive

  predicate IsBreak(c: char) { c == '\r' || c == '\n' }

  predicate NoBreaks(s: string) { forall c | c in s :: !IsBreak(c) }

  /** The header lines are the lines that were printed. */
  predicate LinesOk(it: Item) {
    NoBreaks(it.name) && NoBreaks(it.filename) && !Contains(it.contentType, CRLF)
  }

  /** Read as the rest of a line behind a quote, `s` opens a filename: a semicolon, spaces, `filename="` and
      something behind it. */
  predicate OpensFilename(s: string) {
    match Strip(s, ";")
    case None => false
    case Some(a) =>
      match Strip(SkipSpaces(a), "filename=\"")
      case None => false
      case Some(b) => b != ""
  }

  /** A quote in the name behind which a filename seems to open. */
  predicate QuoteEndsName(it: Item) {
    exists i | 0 <= i < |it.name| :: it.name[i] == '"' && OpensFilename(AfterQuote(it, i))
  }

  function AfterQuote(it: Item, i: nat): string
    requires i < |it.name|
  {
    it.name[i + 1..] + ("\"" + FilenameField(it))
  }

  predicate HeadersOk(it: Item) {
    LinesOk(it) && !OuterBlank(it.contentType) && !QuoteEndsName(it)
  }

  // The filename: quotes in it do no harm

  lemma FilenameMatches(f: string, i: nat)
    requires NoBreaks(f) && i <= |f|
    ensures MatchFilename(f + "\"", i) == Some(f)
    decreases |f| - i
  {
    var s := f + "\"";
    if i < |f| {
      assert s[i] == f[i] && f[i] in f;
      assert s[i + 1..][|f| - i - 1] == '"' && '"' in s[i + 1..];
      FilenameMatches(f, i + 1);
    } else {
      assert s[i + 1..] == "" && s[..i] == f;
    }
  }

  lemma TailMatches(it: Item)
    requires LinesOk(it)
    ensures MatchTail(FilenameField(it)) == Some(it.filename)
  {
    if it.filename != "" {
      var tail := it.filename + "\"";
      var b := "filename=\"" + tail;
      StripLiteral(FilenameField(it), ";", " " + b);
      SkipOneSpace(b);
      StripLiteral(b, "filename=\"", tail);
      FilenameMatches(it.filename, 0);
    }
  }

  // The name: it ends at the first quote behind which the rest of the line matches

  predicate EndsQuoted(s: string) { s != "" && s[|s| - 1] == '"' }

  lemma {:induction false} ClosedFilename(s: string, i: nat)
    requires NoBreaks(s) && EndsQuoted(s) && i < |s|
    ensures MatchFilename(s, i).Some?
    decreases |s| - i
  {
    assert s[i] in s;
    if i == |s| - 1 {
      assert s[i + 1..] == "";
    } else {
      ClosedFilename(s, i + 1);
    }
  }

  lemma SkipSpacesKeepsEnd(s: string)
    requires EndsQuoted(s)
    ensures EndsQuoted(SkipSpaces(s)) && forall c | c in SkipSpaces(s) :: c in s
  {
    if IsSpace(s[0]) {
      assert s[1..] != "";
      SkipSpacesKeepsEnd(s[1..]);
    }
  }

  /** A text without breaks that ends with a quote matches as the rest of a line exactly when it opens a
      filename. */
  lemma MatchesIfOpens(s: string)
    requires NoBreaks(s) && EndsQuoted(s)
    ensures MatchTail(s).Some? <==> OpensFilename(s)
  {
    assert s[|s| - 1] in s && !AllSpace(s);
    match Strip(s, ";")
    case None =>
    case Some(a) =>
      if a != "" {
        assert a[|a| - 1] == s[|s| - 1];
        SkipSpacesKeepsEnd(a);
        match Strip(SkipSpaces(a), "filename=\"")
        case None =>
        case Some(b) =>
          if b != "" {
            assert forall c | c in b :: c in SkipSpaces(a);
            assert forall c | c in a :: c in s;
            ClosedFilename(b, 0);
          }
      }
  }

  lemma FieldEndsQuoted(it: Item)
    requires LinesOk(it)
    ensures EndsQuoted("\"" + FilenameField(it)) && NoBreaks("\"" + FilenameField(it))
  {
    if it.filename == "" {
      assert "\"" + FilenameField(it) == "\"";
    } else {
      var t := it.filename + "\"";
      Quoted(it.filename, "\"");
      Quoted("filename=\"", t);
      Quoted(" ", "filename=\"" + t);
      Quoted(";", " " + ("filename=\"" + t));
      Quoted("\"", FilenameField(it));
    }
  }

  lemma Quoted(a: string, b: string)
    requires NoBreaks(a) && NoBreaks(b) && EndsQuoted(b)
    ensures NoBreaks(a + b) && EndsQuoted(a + b)
  {
  }

  lemma AfterQuoteMatches(it: Item, i: nat)
    requires LinesOk(it) && i < |it.name|
    ensures MatchTail(AfterQuote(it, i)).Some? <==> OpensFilename(AfterQuote(it, i))
  {
    FieldEndsQuoted(it);
    MatchesIfOpens(AfterQuote(it, i));
  }

  /** From `i` on no quote ends the name early exactly when the whole name is found. */
  lemma {:induction false} NameMatches(it: Item, i: nat)
    requires LinesOk(it) && i <= |it.name|
    ensures var m := MatchName(it.name + "\"" + FilenameField(it), i);
      && m.Some?
      && (m.value.0 == it.name
          <==> forall k | i <= k < |it.name| :: !(it.name[k] == '"' && OpensFilename(AfterQuote(it, k))))
      && (m.value.0 == it.name ==> m.value.1 == it.filename)
    decreases |it.name| - i
  {
    hide MatchTail, OpensFilename, FilenameField;
    var s := it.name + "\"" + FilenameField(it);
    if i < |it.name| {
      assert s[i] == it.name[i] && it.name[i] in it.name;
      assert s[i + 1..] == AfterQuote(it, i);
      AfterQuoteMatches(it, i);
      NameMatches(it, i + 1);
      if s[i] == '"' && OpensFilename(AfterQuote(it, i)) {
        assert |s[..i]| < |it.name|;
      }
    } else {
      TailMatches(it);
      assert s[i + 1..] == FilenameField(it) && s[..i] == it.name;
    }
  }

  lemma DispositionMatches(it: Item)
    requires LinesOk(it)
    ensures var m := MatchDisposition(DispositionLine(it));
      m.Some? && (m.value == (it.name, it.filename) <==> !QuoteEndsName(it))
  {
    var c := it.name + "\"" + FilenameField(it);
    var b := "name=\"" + c;
    var a := "form-data;" + (" " + b);
    StripLiteral(DispositionLine(it), DISPOSITION_NAME, " " + a);
    SkipOneSpace(a);
    StripLiteral(a, "form-data;", " " + b);
    SkipOneSpace(b);
    StripLiteral(b, "name=\"", c);
    NameMatches(it, 0);
  }

  lemma StripLiteral(s: string, lit: string, rest: string)
    requires s == lit + rest
    ensures Strip(s, lit) == Some(rest)
  {
  }

  lemma SkipOneSpace(s: string)
    requires s != "" && !IsSpace(s[0])
    ensures SkipSpaces(" " + s) == s
  {
    assert (" " + s)[1..] == s;
  }

  lemma DispositionApplies(it: Item)
    requires LinesOk(it)
    ensures var file := ApplyLine(NO_FILE, DispositionLine(it));
      file.contentType == "" && file.content == ""
      && ((file.name, file.filename) == (it.name, it.filename) <==> !QuoteEndsName(it))
  {
    var line := DispositionLine(it);
    assert line[8] == DISPOSITION_NAME[8] == 'D' && TYPE_NAME[8] == 't';
    assert !StartsWith(line, TYPE_NAME);
    DispositionMatches(it);
  }

  lemma TypeApplies(file: Item, contentType: string)
    ensures ApplyLine(file, "Content-Type: " + contentType) == file.(contentType := Trim(" " + contentType))
  {
    var line := "Content-Type: " + contentType;
    assert forall i | 0 <= i < 13 :: line[i] == "Content-Type:"[i];
    assert StartsWith(line, TYPE_NAME);
    assert line[|TYPE_NAME|..] == " " + contentType;
  }

  lemma TrimExactly(s: string)
    ensures Trim(" " + s) == s <==> !OuterBlank(s)
  {
    TrimmedEnds(" " + s);
    if !OuterBlank(s) {
      TrimPadded(" ", s, "");
      assert " " + s + "" == " " + s;
    }
  }

  /** The header lines of an item, read into a cleared `file_`, give back its three fields exactly when the
      content type has no outer blanks and no quote ends the name early. */
  lemma HeadersRoundTrip(it: Item)
    requires LinesOk(it)
    ensures ApplyLines(NO_FILE, HeaderLines(it)) == it.(content := "") <==> HeadersOk(it)
    ensures ApplyLines(NO_FILE, HeaderLines(it)).content == ""
  {
    DispositionApplies(it);
    var one := ApplyLine(NO_FILE, DispositionLine(it));
    var rest := HeaderLines(it)[1..];
    assert ApplyLines(NO_FILE, HeaderLines(it)) == ApplyLines(one, rest);
    if it.contentType != "" {
      TypeApplies(one, it.contentType);
      TrimExactly(it.contentType);
      assert rest[1..] == [];
    }
  }

  /** No header line is empty or contains the line break that ends it. */
  lemma HeaderLinesAreLines(it: Item)
    requires LinesOk(it)
    ensures forall l | l in HeaderLines(it) :: l != "" && !Contains(l, CRLF)
  {
    var line := DispositionLine(it);
    NoCr(it);
    forall i: nat
      ensures !OccursAt(line, CRLF, i)
    {
      if i + 2 <= |line| {
        assert line[i] in line;
        assert line[i..i + 2][0] == line[i] && CRLF[0] == '\r';
      }
    }
    var l2 := "Content-Type: " + it.contentType;
    forall i: nat
      ensures !OccursAt(l2, CRLF, i)
    {
      if 14 <= i {
        OccursInSuffix(l2, 14, CRLF, i - 14);
        assert l2[14..] == it.contentType;
        assert !OccursAt(it.contentType, CRLF, i - 14);
      } else if i + 2 <= |l2| {
        assert l2[i] == "Content-Type: "[i];
        assert l2[i..i + 2][0] == l2[i] && CRLF[0] == '\r';
      }
    }
  }

  lemma NoCr(it: Item)
    requires LinesOk(it)
    ensures '\r' !in DispositionLine(it)
  {
    var c := it.name + "\"" + FilenameField(it);
    NoCrField(it);
    var e := "name=\"" + c;
    assert '\r' !in e;
    var d := "form-data;" + (" " + e);
    assert '\r' !in d;
  }

  lemma NoCrField(it: Item)
    requires LinesOk(it)
    ensures '\r' !in FilenameField(it) && '\r' !in it.name + "\"" + FilenameField(it)
  {
  }
}
