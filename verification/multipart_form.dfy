// The multipart parser on any input whatever: what it accepts is a form, and what it calls back is what stands
// in that form. Header lines that it does not know change nothing.
module MultipartForm {
  import opened Text
  import opened MultipartHeaders
  import opened Multipart
  import opened MultipartRoundTrip
  import opened MultipartExact

  // Header lines besides the printed ones

  /** A line that is neither a content type nor a disposition, whatever the case of its letters. */
  predicate Foreign(l: string) {
    !StartsWith(l, "content-type:") && !StartsWith(l, "Content-Disposition:")
  }

  function OwnLines(ls: seq<string>): seq<string> {
    if ls == [] then [] else (if Foreign(ls[0]) then [] else [ls[0]]) + OwnLines(ls[1..])
  }

  /** A part with the content of the item and its printed header lines, in order, among any foreign ones. */
  predicate Carries(p: Part, it: Item) {
    p.content == it.content && AreLines(p.lines) && OwnLines(p.lines) == HeaderLines(it)
  }

  predicate CarryAll(parts: seq<Part>, items: seq<Item>) {
    |parts| == |items| && forall i | 0 <= i < |parts| :: Carries(parts[i], items[i])
  }

  lemma {:induction false} OwnLinesDecide(file: Item, ls: seq<string>)
    ensures ApplyLines(file, ls) == ApplyLines(file, OwnLines(ls))
    decreases |ls|
  {
    if ls != [] {
      OwnLinesDecide(ApplyLine(file, ls[0]), ls[1..]);
      if Foreign(ls[0]) {
        assert [] + OwnLines(ls[1..]) == OwnLines(ls[1..]);
      } else {
        assert ([ls[0]] + OwnLines(ls[1..]))[1..] == OwnLines(ls[1..]);
      }
    }
  }

  lemma {:induction false} CarriedSeen(parts: seq<Part>, items: seq<Item>)
    requires CarryAll(parts, items)
    ensures SeenAll(parts) == SeenAll(PostedAll(items))
  {
    if parts != [] {
      PostedCons(items);
      assert forall i | 0 <= i < |parts[1..]| :: parts[1..][i] == parts[i + 1] && items[1..][i] == items[i + 1];
      CarriedSeen(parts[1..], items[1..]);
      OwnLinesDecide(NO_FILE, parts[0].lines);
    }
  }

  lemma CarriedContents(b: string, parts: seq<Part>, items: seq<Item>)
    requires CarryAll(parts, items)
    ensures WellFormed(parts)
    ensures Unambiguous(b, parts) <==> forall it | it in items :: !Contains(it.content, Delim(b))
    ensures Calm(b, parts) <==> forall it | it in items :: Safe(it.content, b)
  {
    forall it | it in items
      ensures exists p :: p in parts && p.content == it.content
    {
      var i :| 0 <= i < |items| && items[i] == it;
      assert parts[i] in parts;
    }
    forall p | p in parts
      ensures AreLines(p.lines) && exists it :: it in items && it.content == p.content
    {
      var i :| 0 <= i < |parts| && parts[i] == p;
      assert items[i] in items;
    }
  }

  lemma CarriedSameContents(parts: seq<Part>, items: seq<Item>)
    requires CarryAll(parts, items)
    ensures SameContents(items, SeenAll(parts))
  {
    forall i | 0 <= i < |items| { SeenAt(parts, i); }
  }

  /** Foreign header lines change nothing: whatever stands between the printed lines of its parts, a body is
      read back from every split, and in one buffer, under exactly the same conditions. */
  lemma OtherLinesIgnored(b: string, items: seq<Item>, parts: seq<Part>)
    requires BoundaryOk(b) && CarryAll(parts, items)
    ensures Recovers(b, items, [FormText(b, parts)])
      <==> items != [] && AllHeadersOk(items) && forall it | it in items :: !Contains(it.content, Delim(b))
    ensures (forall pieces | Concat(pieces) == FormText(b, parts) :: Recovers(b, items, pieces))
      <==> items != [] && AllHeadersOk(items)
           && forall it | it in items :: !Contains(it.content, Delim(b)) && Safe(it.content, b)
  {
    var body := FormText(b, parts);
    ConcatOne(body);
    CarriedContents(b, parts, items);
    if AllLinesOk(items) {
      CarriedSeen(parts, items);
      SeenAsTheyAre(items);
      FormExact(b, parts);
      FormSplitExact(b, parts);
      CarriedSameContents(parts, items);
      if !Unambiguous(b, parts) {
        Ambiguous(b, parts);
      }
    } else {
      FeedOne(b, INIT, body);
      assert INIT.buf + body == body;
      NothingClean();
      RunClean(b, INIT.(buf := body));
    }
  }

  // What is accepted is a form

  function PartTexts(b: string, parts: seq<Part>): string {
    if parts == [] then "" else PartTexts(b, parts[..|parts| - 1]) + PartText(b, parts[|parts| - 1])
  }

  lemma {:induction false} FormAfter(b: string, before: seq<Part>, after: seq<Part>)
    ensures PartTexts(b, before) + FormText(b, after) == FormText(b, before + after)
    decreases |before|
  {
    if before == [] {
      assert before + after == after;
    } else {
      var first, last := before[..|before| - 1], before[|before| - 1];
      assert ([last] + after)[1..] == after;
      assert first + ([last] + after) == before + after;
      FormAfter(b, first, [last] + after);
      Assoc(PartTexts(b, first), PartText(b, last), FormText(b, after));
    }
  }

  lemma PartTextsMore(b: string, parts: seq<Part>, p: Part)
    ensures PartTexts(b, parts + [p]) == PartTexts(b, parts) + PartText(b, p)
  {
    assert (parts + [p])[..|parts|] == parts;
  }

  lemma {:induction false} SeenMore(parts: seq<Part>, p: Part)
    ensures SeenAll(parts + [p]) == SeenAll(parts) + [Seen(p)]
  {
    if parts == [] {
      assert [p][1..] == [] && [] + [p] == [p];
    } else {
      assert (parts + [p])[1..] == parts[1..] + [p];
      SeenMore(parts[1..], p);
    }
  }

  lemma {:induction false} LinesMore(ls: seq<string>, l: string)
    ensures Lines(ls + [l]) == Lines(ls) + (l + CRLF)
  {
    if ls == [] {
      assert [l][1..] == [] && ls + [l] == [l];
      assert Lines([l]) == l + CRLF + "";
    } else {
      assert (ls + [l])[1..] == ls[1..] + [l];
      LinesMore(ls[1..], l);
      Assoc(ls[0] + CRLF, Lines(ls[1..]), l + CRLF);
    }
  }

  /** What stands before the headers of the next part. */
  function Front(b: string, parts: seq<Part>): string { PartTexts(b, parts) + ("--" + b) }

  /** What has been consumed so far is the text of `parts`, and of the part that is being read, whose header
      lines so far are `ls`; and what has been called back is what stands in it. */
  ghost predicate Traced(b: string, past: string, p: Parser, parts: seq<Part>, ls: seq<string>) {
    && WellFormed(parts) && AreLines(ls)
    && (p.valid ==> p.state.Done?)
    && match p.state
       case InitialBoundary => past == "" && parts == [] && p.log == []
       case NewEntry => past == Front(b, parts) + CRLF && p.log == SeenAll(parts)
       case Headers =>
         && past == Front(b, parts) + CRLF + Lines(ls) && p.log == SeenAll(parts)
         && p.file == ApplyLines(NO_FILE, ls)
       case Body =>
         && p.log != []
         && var last := p.log[|p.log| - 1];
         && past == Front(b, parts) + CRLF + (Lines(ls) + CRLF) + last.content
         && p.log == SeenAll(parts) + [Seen(Part(ls, last.content))]
       case Boundary => parts != [] && past == Front(b, parts) && p.log == SeenAll(parts)
       case Done => parts != [] && past == FormText(b, parts) && p.log == SeenAll(parts)
  }

  /** A turn that does not fail consumes the front `text` of the buffer and stays on the trace. */
  ghost predicate Traces(b: string, past: string, p: Parser, o: Outcome, text: string) {
    && p.buf == text + o.p.buf
    && (o.Stop? && !o.ret ==> !o.p.valid)
    && (o.Go? || o.ret ==> OnTrace(b, past + text, o.p))
  }

  ghost predicate OnTrace(b: string, past: string, p: Parser) { exists parts, ls :: Traced(b, past, p, parts, ls) }

  lemma Consumed(buf: string, k: nat)
    requires k <= |buf|
    ensures buf[..k] + buf[k..] == buf
  {
  }

  lemma StartTraced(b: string, past: string, p: Parser, parts: seq<Part>, ls: seq<string>) returns (text: string)
    requires p.state.InitialBoundary? && Traced(b, past, p, parts, ls)
    ensures Traces(b, past, p, ReadInitial(b, p), text)
  {
    var o, pattern := ReadInitial(b, p), "--" + b + CRLF;
    if o.Go? {
      text := pattern;
      assert OccursAt(p.buf, pattern, 0) && p.buf[..|pattern|] == pattern;
      Consumed(p.buf, |pattern|);
      assert past + text == text && Front(b, []) == "--" + b;
      assert Traced(b, past + text, o.p, [], []);
    } else {
      text := "";
      assert past + "" == past && "" + p.buf == p.buf;
      assert Traced(b, past + text, p, parts, ls);
    }
  }

  lemma EntryTraced(b: string, past: string, p: Parser, parts: seq<Part>, ls: seq<string>)
    requires p.state.NewEntry? && Traced(b, past, p, parts, ls)
    ensures Traced(b, past, p.(state := Headers, file := NO_FILE), parts, [])
  {
    assert past + "" == past;
  }

  lemma HeadersTraced(b: string, ok: Accepts, past: string, p: Parser, parts: seq<Part>, ls: seq<string>)
    returns (text: string)
    requires p.state.Headers? && Traced(b, past, p, parts, ls)
    ensures Traces(b, past, p, ReadHeaders(ok, p), text)
  {
    var o, pos := ReadHeaders(ok, p), Find(p.buf, CRLF);
    if o.Go? && pos == 0 {
      text := BlankTraced(b, past, p, parts, ls, o.p);
    } else if o.Go? {
      text := LineTraced(b, past, p, parts, ls, pos);
    } else {
      text := "";
      Nothing(past, p.buf);
      assert o.ret ==> Traced(b, past + text, p, parts, ls);
    }
  }

  lemma Nothing(past: string, buf: string)
    ensures past + "" == past && "" + buf == buf
  {
  }

  lemma BlankTraced(b: string, past: string, p: Parser, parts: seq<Part>, ls: seq<string>, q: Parser)
    returns (text: string)
    requires p.state.Headers? && Traced(b, past, p, parts, ls) && OccursAt(p.buf, CRLF, 0)
    requires q == p.(state := Body, buf := p.buf[2..], off := p.off + 2, log := p.log + [p.file])
    ensures p.buf == text + q.buf && OnTrace(b, past + text, q)
  {
    text := CRLF;
    assert p.buf[..2] == CRLF;
    Consumed(p.buf, 2);
    LinesKeepContent(NO_FILE, ls);
    Assoc(Front(b, parts) + CRLF, Lines(ls), CRLF);
    Nothing(past + text, "");
    assert Traced(b, past + text, q, parts, ls);
  }

  lemma LineTraced(b: string, past: string, p: Parser, parts: seq<Part>, ls: seq<string>, pos: nat)
    returns (text: string)
    requires p.state.Headers? && Traced(b, past, p, parts, ls)
    requires 0 < pos && pos + 2 <= |p.buf| && Find(p.buf, CRLF) == pos
    ensures p.buf == text + NextLine(p, pos).buf && OnTrace(b, past + text, NextLine(p, pos))
  {
    var l := p.buf[..pos];
    text := LineText(p.buf, pos);
    FrontFree(p.buf, CRLF);
    LinesMore(ls, l);
    ApplyMore(NO_FILE, ls, l);
    Assoc(Front(b, parts) + CRLF, Lines(ls), text);
    assert forall m | m in ls + [l] :: m in ls || m == l;
    assert Traced(b, past + text, NextLine(p, pos), parts, ls + [l]);
  }

  lemma LineText(buf: string, pos: nat) returns (text: string)
    requires OccursAt(buf, CRLF, pos)
    ensures text == buf[..pos] + CRLF && buf == text + buf[pos + 2..]
  {
    text := buf[..pos] + CRLF;
    assert buf[pos..pos + 2] == CRLF;
    assert buf[..pos + 2] == text;
    Consumed(buf, pos + 2);
  }

  /** Some content has been delivered. */
  lemma DeliveredTraced(b: string, past: string, p: Parser, parts: seq<Part>, ls: seq<string>, text: string, q: Parser)
    requires p.state.Body? && Traced(b, past, p, parts, ls)
    requires q.state.Body? && q.valid == p.valid && q.log == Deliver(p.log, text)
    ensures Traced(b, past + text, q, parts, ls)
  {
    var c := p.log[|p.log| - 1].content;
    Assoc(Front(b, parts) + CRLF + (Lines(ls) + CRLF), c, text);
    assert p.log[..|p.log| - 1] == SeenAll(parts);
    assert q.log[|q.log| - 1].content == c + text;
  }

  lemma DelimTraced(b: string, past: string, p: Parser, parts: seq<Part>, ls: seq<string>, q: Parser)
    returns (part: Part)
    requires p.state.Body? && Traced(b, past, p, parts, ls)
    requires q.state.Boundary? && !q.valid && q.log == p.log
    ensures Traced(b, past + Delim(b), q, parts + [part], [])
  {
    var c := p.log[|p.log| - 1].content;
    part := Part(ls, c);
    SeenMore(parts, part);
    PartTextsMore(b, parts, part);
    PartEnds(b, PartTexts(b, parts), Lines(ls) + CRLF, c);
    assert forall m | m in parts + [part] :: m in parts || m == part;
  }

  lemma PartEnds(b: string, t: string, h: string, c: string)
    ensures t + ("--" + b) + CRLF + h + c + Delim(b) == t + ("--" + b + CRLF + h + c + CRLF) + ("--" + b)
  {
    var d := "--" + b;
    assert Delim(b) == CRLF + d;
    Assoc(t + d + CRLF + h + c, CRLF, d);
    Assoc(t, d + CRLF + h + c, CRLF);
    Assoc(t, d + CRLF + h, c);
    Assoc(t, d + CRLF, h);
    Assoc(t, d, CRLF);
  }

  lemma BodyTraced(b: string, ok: Accepts, past: string, p: Parser, parts: seq<Part>, ls: seq<string>)
    returns (text: string)
    requires p.state.Body? && Traced(b, past, p, parts, ls)
    ensures Traces(b, past, p, ReadBody(b, ok, p), text)
  {
    var r := Release(ok, p);
    text := "";
    assert past + "" == past && "" + p.buf == p.buf;
    if r.Go? {
      var k := Releasable(p.buf);
      Consumed(p.buf, k);
      DeliveredTraced(b, past, p, parts, ls, p.buf[..k], r.p);
      text := SeekTraced(b, ok, past + p.buf[..k], r.p, parts, ls);
      Assoc(p.buf[..k], text, ReadBody(b, ok, p).p.buf);
      Assoc(past, p.buf[..k], text);
      text := p.buf[..k] + text;
    } else if r.ret {
      assert Traced(b, past + text, p, parts, ls);
    }
  }

  lemma SeekTraced(b: string, ok: Accepts, past: string, p: Parser, parts: seq<Part>, ls: seq<string>)
    returns (text: string)
    requires p.state.Body? && Traced(b, past, p, parts, ls)
    ensures Traces(b, past, p, Seek(b, ok, p), text)
  {
    var o, n := Seek(b, ok, p), |Delim(b)|;
    text := "";
    assert past + "" == past && "" + p.buf == p.buf;
    if o.Stop? {
      if o.ret {
        assert Traced(b, past + text, p, parts, ls);
      }
    } else if o.p.state.Body? {
      text := p.buf[..n];
      Consumed(p.buf, n);
      DeliveredTraced(b, past, p, parts, ls, text, o.p);
    } else {
      text := FoundTraced(b, past, p, parts, ls, o.p, Find(p.buf, Delim(b)));
    }
  }

  lemma FoundTraced(b: string, past: string, p: Parser, parts: seq<Part>, ls: seq<string>, q: Parser, g: nat)
    returns (text: string)
    requires p.state.Body? && Traced(b, past, p, parts, ls) && OccursAt(p.buf, Delim(b), g)
    requires q.state.Boundary? && q.valid == p.valid && q.log == Deliver(p.log, p.buf[..g])
    requires q.buf == p.buf[g + |Delim(b)|..]
    ensures p.buf == text + q.buf && OnTrace(b, past + text, q)
  {
    var c, n := p.buf[..g], |Delim(b)|;
    text := c + Delim(b);
    assert p.buf[..g + n] == text by {
      assert p.buf[g..g + n] == Delim(b);
      assert p.buf[..g + n] == c + p.buf[g..g + n];
    }
    Consumed(p.buf, g + n);
    var r := p.(log := q.log);
    DeliveredTraced(b, past, p, parts, ls, c, r);
    var part := DelimTraced(b, past + c, r, parts, ls, q);
    Assoc(past, c, Delim(b));
  }

  lemma BoundaryTraced(b: string, past: string, p: Parser, parts: seq<Part>, ls: seq<string>) returns (text: string)
    requires p.state.Boundary? && Traced(b, past, p, parts, ls)
    ensures Traces(b, past, p, ReadBoundary(p), text)
  {
    var o := ReadBoundary(p);
    text := p.buf[..|p.buf| - |o.p.buf|];
    if o.Go? && o.p.state.NewEntry? {
      Consumed(p.buf, 2);
      assert Traced(b, past + text, o.p, parts, []);
    } else if o.Go? {
      Consumed(p.buf, 4);
      FormAfter(b, parts, []);
      assert parts + [] == parts;
      assert past + text == PartTexts(b, parts) + FormText(b, []) by {
        Assoc(PartTexts(b, parts), "--" + b, "--" + CRLF);
        assert "--" + b + ("--" + CRLF) == FormText(b, []);
      }
      assert Traced(b, past + text, o.p, parts, []);
    } else {
      assert text == "" && past + "" == past && "" + p.buf == p.buf;
      assert Traced(b, past + text, p, parts, ls);
    }
  }

  lemma TurnTraced(b: string, ok: Accepts, past: string, p: Parser, parts: seq<Part>, ls: seq<string>)
    returns (text: string)
    requires p.buf != "" && Traced(b, past, p, parts, ls)
    ensures Traces(b, past, p, Turn(b, ok, p), text)
  {
    match p.state
    case InitialBoundary => text := StartTraced(b, past, p, parts, ls);
    case NewEntry =>
      text := "";
      assert past + "" == past && "" + p.buf == p.buf;
      EntryTraced(b, past, p, parts, ls);
    case Headers => text := HeadersTraced(b, ok, past, p, parts, ls);
    case Body => text := BodyTraced(b, ok, past, p, parts, ls);
    case Boundary => text := BoundaryTraced(b, past, p, parts, ls);
    case Done =>
      text := "";
      assert "" + p.buf == p.buf;
  }

  lemma OneTurn(b: string, ok: Accepts, past: string, p: Parser) returns (text: string)
    requires p.buf != "" && OnTrace(b, past, p)
    ensures Traces(b, past, p, Turn(b, ok, p), text)
  {
    var parts, ls :| Traced(b, past, p, parts, ls);
    text := TurnTraced(b, ok, past, p, parts, ls);
  }

  /** What a call that found `p` has consumed and left. */
  ghost predicate Called(b: string, past: string, p: Parser, r: (Parser, bool), text: string) {
    && p.buf == text + r.0.buf
    && (!r.1 ==> !r.0.valid)
    && (r.1 ==> OnTrace(b, past + text, r.0) && (r.0.valid ==> r.0.buf == ""))
  }

  lemma CalledLater(b: string, past: string, p: Parser, front: string, q: Parser, more: string, r: (Parser, bool))
    requires p.buf == front + q.buf && Called(b, past + front, q, r, more)
    ensures Called(b, past, p, r, front + more)
  {
    Assoc(past, front, more);
    Assoc(front, more, r.0.buf);
  }

  lemma {:induction false} RunTraced(b: string, ok: Accepts, past: string, p: Parser) returns (text: string)
    requires OnTrace(b, past, p)
    ensures Called(b, past, p, Run(b, ok, p), text)
    decreases |p.buf|, p.state.NewEntry?
  {
    if p.buf == "" {
      text := "";
      Nothing(past, p.buf);
    } else {
      text := OneTurn(b, ok, past, p);
      var o := Turn(b, ok, p);
      if o.Go? {
        var more := RunTraced(b, ok, past + text, o.p);
        CalledLater(b, past, p, text, o.p, more, Run(b, ok, p));
        text := text + more;
      } else if o.ret {
        TurnStops(b, ok, p);
      }
    }
  }

  /** A turn waits only with an unfinished form. */
  lemma TurnStops(b: string, ok: Accepts, p: Parser)
    requires p.buf != "" && (p.valid ==> p.state.Done?)
    ensures var o := Turn(b, ok, p); o.Stop? && o.ret ==> !o.p.valid
  {
  }

  lemma {:induction false} FeedTraced(b: string, ok: Accepts, past: string, p: Parser, pieces: seq<string>)
    requires OnTrace(b, past, p) && (p.valid ==> p.buf == "")
    ensures var r := Feed(b, ok, p, pieces).0;
      r.valid ==> r.buf == "" && OnTrace(b, past + (p.buf + Concat(pieces)), r)
    decreases |pieces|
  {
    if pieces == [] {
      assert p.buf + "" == p.buf && past + "" == past;
    } else {
      var q := p.(buf := p.buf + pieces[0]);
      var parts, ls :| Traced(b, past, p, parts, ls);
      assert Traced(b, past, q, parts, ls);
      var text := RunTraced(b, ok, past, q);
      var r := Run(b, ok, q);
      if r.1 {
        FeedTraced(b, ok, past + text, r.0, pieces[1..]);
        Assoc(past, text, r.0.buf + Concat(pieces[1..]));
        Assoc(text, r.0.buf, Concat(pieces[1..]));
        Assoc(p.buf, pieces[0], Concat(pieces[1..]));
      }
    }
  }

  /** Whatever is fed, in whatever pieces and to whatever callbacks: if it ends as a valid form, then it is the
      text of a form, and its parts, as their header lines say and with their contents, are what was called back. */
  lemma AcceptedIsForm(b: string, ok: Accepts, pieces: seq<string>)
    ensures var r := Feed(b, ok, INIT, pieces).0;
      r.valid ==> exists parts ::
        parts != [] && WellFormed(parts) && Concat(pieces) == FormText(b, parts) && r.log == SeenAll(parts)
  {
    assert Traced(b, "", INIT, [], []);
    FeedTraced(b, ok, "", INIT, pieces);
    assert "" + ("" + Concat(pieces)) == Concat(pieces);
  }

  // Callbacks that refuse

  /** The last answer of the callbacks was not a refusal. */
  ghost predicate Welcome(ok: Accepts, p: Parser) { p.log == [] || ok(p.log) }

  /** Either the callbacks have refused something, which ends the call and invalidates the form, or it is as if
      they accepted everything. */
  ghost predicate Refusal(ok: Accepts, p: Parser) { !p.valid && p.log != [] && !ok(p.log) }

  lemma TurnRefused(b: string, ok: Accepts, p: Parser)
    requires p.buf != "" && Welcome(ok, p) && (p.state.Body? ==> p.log != [])
    ensures var o := Turn(b, ok, p);
      && (o.Go? && o.p.state.Body? ==> o.p.log != [])
      && AsIfAccepted(ok, o, Turn(b, ALL, p))
  {
    if p.state.Body? {
      BodyRefused(b, ok, p);
    }
  }

  ghost predicate AsIfAccepted(ok: Accepts, o: Outcome, all: Outcome) {
    (o == all && Welcome(ok, o.p)) || (o == Stop(o.p, false) && Refusal(ok, o.p))
  }

  lemma BodyRefused(b: string, ok: Accepts, p: Parser)
    requires Welcome(ok, p) && p.state.Body? && p.log != []
    ensures AsIfAccepted(ok, ReadBody(b, ok, p), ReadBody(b, ALL, p)) && ReadBody(b, ok, p).p.log != []
  {
    var r := Release(ok, p);
    assert AsIfAccepted(ok, r, Release(ALL, p)) && r.p.log != [];
    if r.Go? {
      SeekRefused(b, ok, r.p);
    }
  }

  lemma SeekRefused(b: string, ok: Accepts, p: Parser)
    requires Welcome(ok, p) && p.log != []
    ensures AsIfAccepted(ok, Seek(b, ok, p), Seek(b, ALL, p)) && Seek(b, ok, p).p.log != []
  {
  }

  lemma {:induction false} RunRefused(b: string, ok: Accepts, p: Parser)
    requires Welcome(ok, p) && (p.state.Body? ==> p.log != [])
    ensures var r := Run(b, ok, p);
      && (r.0.state.Body? ==> r.0.log != [])
      && ((r == Run(b, ALL, p) && Welcome(ok, r.0)) || (!r.1 && Refusal(ok, r.0)))
    decreases |p.buf|, p.state.NewEntry?
  {
    if p.buf != "" {
      TurnRefused(b, ok, p);
      var o := Turn(b, ok, p);
      if o.Go? {
        RunRefused(b, ok, o.p);
      }
    }
  }

  lemma {:induction false} FeedRefused(b: string, ok: Accepts, p: Parser, pieces: seq<string>)
    requires Welcome(ok, p) && (p.state.Body? ==> p.log != [])
    ensures var r := Feed(b, ok, p, pieces);
      (r == Feed(b, ALL, p, pieces) && Welcome(ok, r.0)) || (!r.1 && Refusal(ok, r.0))
    decreases |pieces|
  {
    if pieces != [] {
      var q := p.(buf := p.buf + pieces[0]);
      RunRefused(b, ok, q);
      var r := Run(b, ok, q);
      if r.1 {
        FeedRefused(b, ok, r.0, pieces[1..]);
      }
    }
  }

  /** A refusal by a callback ends the parsing at once, as a failure and with an invalid form; short of that the
      callbacks' answers make no difference. */
  lemma RefusalStops(b: string, ok: Accepts, pieces: seq<string>)
    ensures var r := Feed(b, ok, INIT, pieces);
      || (r == Feed(b, ALL, INIT, pieces) && (r.0.log == [] || ok(r.0.log)))
      || (!r.1 && !r.0.valid && r.0.log != [] && !ok(r.0.log))
  {
    FeedRefused(b, ok, INIT, pieces);
  }

  // Input that is no form

  /** Bytes behind a complete form invalidate it. */
  lemma TrailingRefused(b: string, items: seq<Item>, pieces: seq<string>, x: string)
    requires Recovers(b, items, pieces) && x != ""
    ensures var r := Feed(b, ALL, INIT, pieces + [x]); !r.1 && !r.0.valid && r.0.log == items
  {
    var p := Feed(b, ALL, INIT, pieces).0;
    FeedAppend(b, INIT, pieces, [x]);
    FeedOne(b, p, x);
    assert p.buf + x == x;
  }

  /** Behind a delimiter that is followed neither by a line break nor by the closing dashes nothing is ever
      called back or accepted again. */
  lemma {:induction false} JunkBehindDelimiter(b: string, p: Parser, pieces: seq<string>)
    requires p.state.Boundary? && |p.buf| >= 4 && p.buf[..2] != "\r\n" && p.buf[..4] != "--\r\n"
    ensures Feed(b, ALL, p, pieces) == (p.(buf := p.buf + Concat(pieces)), true)
    decreases |pieces|
  {
    if pieces == [] {
      assert p.buf + "" == p.buf;
    } else {
      var q := p.(buf := p.buf + pieces[0]);
      assert q.buf[..2] == p.buf[..2] && q.buf[..4] == p.buf[..4];
      assert Turn(b, ALL, q) == Stop(q, true);
      JunkBehindDelimiter(b, q, pieces[1..]);
      Assoc(p.buf, pieces[0], Concat(pieces[1..]));
    }
  }
}
