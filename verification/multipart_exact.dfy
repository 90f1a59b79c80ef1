// The other direction: a body that is ambiguous is misread in one buffer, and a content that is not
// safe has a split that loses its delimiter. Together with the track this gives exact conditions.
module MultipartExact {
  import opened Text
  import opened MultipartHeaders
  import opened Multipart
  import opened MultipartRoundTrip

  // What has been delivered is never taken back

  predicate Settled(p: Parser, k: nat) {
    k < |p.log| - 1 || (k < |p.log| && !p.state.Body?)
  }

  ghost predicate Keeps(p: Parser, q: Parser, k: nat) {
    k < |p.log| ==>
      && k < |q.log| && p.log[k].content <= q.log[k].content
      && (Settled(p, k) ==> q.log[k] == p.log[k] && Settled(q, k))
  }

  lemma BodyKeeps(b: string, p: Parser, k: nat)
    requires p.state.Body?
    ensures Keeps(p, ReadBody(b, ALL, p).p, k)
  {
    var q := Release(ALL, p).p;
    assert Keeps(p, q, k) && q.state.Body?;
    assert Keeps(q, Seek(b, ALL, q).p, k);
  }

  lemma {:induction false} RunKeeps(b: string, p: Parser, k: nat)
    ensures Keeps(p, Run(b, ALL, p).0, k)
    decreases |p.buf|, p.state.NewEntry?
  {
    if p.buf != "" {
      if p.state.Body? {
        BodyKeeps(b, p, k);
      }
      var o := Turn(b, ALL, p);
      assert Keeps(p, o.p, k);
      if o.Go? {
        RunKeeps(b, o.p, k);
      }
    }
  }

  lemma {:induction false} FeedKeeps(b: string, p: Parser, pieces: seq<string>, k: nat)
    ensures Keeps(p, Feed(b, ALL, p, pieces).0, k)
    decreases |pieces|
  {
    if pieces != [] {
      var q := p.(buf := p.buf + pieces[0]);
      RunKeeps(b, q, k);
      var r := Run(b, ALL, q);
      assert Keeps(p, r.0, k);
      if r.1 {
        FeedKeeps(b, r.0, pieces[1..], k);
      }
    }
  }

  // One buffer: the first content that contains the delimiter is cut short

  lemma CutContent(b: string, u: string) returns (v: string, w: string)
    requires Contains(u, Delim(b))
    ensures u == v + Delim(b) + w && !Contains(v, Delim(b))
  {
    var i := Find(u, Delim(b));
    v, w := u[..i], u[i + |Delim(b)|..];
    forall j: nat | j <= |v|
      ensures !OccursAt(v, Delim(b), j)
    {
      if OccursAt(v, Delim(b), j) {
        OccursInPrefix(v, u, Delim(b), j);
      }
    }
  }

  /** The body has just begun, so all of the content of `todo[0]` is still to come. */
  predicate Fresh(p: Parser) { p.state.Body? ==> p.log != [] && p.log[|p.log| - 1].content == "" }

  predicate SameContents(xs: seq<Item>, ys: seq<Item>) {
    |xs| == |ys| && forall i | 0 <= i < |xs| :: xs[i].content == ys[i].content
  }

  lemma SeenContents(items: seq<Item>)
    ensures SameContents(items, SeenAll(PostedAll(items)))
  {
    forall i | 0 <= i < |items| { SeenAt(PostedAll(items), i); }
  }

  lemma BodyTruncates(b: string, goal: seq<Item>, todo: seq<Part>, p: Parser)
    requires BoundaryOk(b) && p.state.Body? && Fresh(p)
    requires OnTrack(b, goal, todo, p, "") && Contains(todo[0].content, Delim(b))
    ensures !SameContents(Run(b, ALL, p).0.log, goal)
  {
    var u := todo[0].content;
    var v, w := CutContent(b, u);
    var y := Delim(b) + Tail(b, todo[1..]);
    var x := w + y;
    assert p.buf == v + Delim(b) + x by {
      assert u[0..] == u && p.buf + "" == p.buf;
      Assoc(u, Delim(b), Tail(b, todo[1..]));
      Assoc(v + Delim(b), w, y);
    }
    BodyVisible(b, p, v, x);
    var q := Found(b, p, v, x);
    var k := |p.log| - 1;
    assert Turn(b, ALL, p) == Go(q);
    assert q.log[k].content == "" + v == v;
    RunKeeps(b, q, k);
    SeenAt(todo, 0);
    assert goal[k] == Seen(todo[0]);
  }

  lemma {:induction false} RunTruncates(b: string, goal: seq<Item>, todo: seq<Part>, p: Parser)
    requires BoundaryOk(b) && OnTrack(b, goal, todo, p, "") && WellFormed(todo) && Fresh(p)
    requires !Unambiguous(b, todo)
    ensures !SameContents(Run(b, ALL, p).0.log, goal)
    decreases |p.buf|, p.state.NewEntry?
  {
    if p.buf == "" {
      NothingLeft(b, goal, todo, p);
    } else if p.state.Body? && Contains(todo[0].content, Delim(b)) {
      BodyTruncates(b, goal, todo, p);
    } else {
      var todo' := TurnOnTrack(b, goal, todo, p, "");
      var q := Turn(b, ALL, p).p;
      if p.state.Body? {
        WholeBody(b, goal, todo, p);
      }
      TruncatesLater(b, todo, todo');
      RunTruncates(b, goal, todo', q);
    }
  }

  lemma TruncatesLater(b: string, todo: seq<Part>, todo': seq<Part>)
    requires WellFormed(todo) && !Unambiguous(b, todo)
    requires todo' == todo || (todo' == todo[1..] && todo != [] && !Contains(todo[0].content, Delim(b)))
    ensures WellFormed(todo') && !Unambiguous(b, todo')
  {
    var bad :| bad in todo && Contains(bad.content, Delim(b));
    assert bad in todo';
    assert forall it | it in todo' :: it in todo;
  }

  lemma WholeBody(b: string, goal: seq<Item>, todo: seq<Part>, p: Parser)
    requires BoundaryOk(b) && p.state.Body? && Fresh(p) && p.buf != ""
    requires OnTrack(b, goal, todo, p, "") && !Contains(todo[0].content, Delim(b))
    ensures Turn(b, ALL, p).Go? && Turn(b, ALL, p).p.state.Boundary?
  {
    var u := todo[0].content;
    assert u[0..] == u && p.buf + "" == p.buf;
    BodyVisible(b, p, u, Tail(b, todo[1..]));
  }

  lemma EmptyFormRefused(b: string)
    ensures !Recovers(b, [], [FormText(b, [])])
  {
    var body, pattern := FormText(b, []), "--" + b + CRLF;
    var p := INIT.(buf := body);
    assert INIT.buf + body == body;
    assert body[|b| + 2] == '-' && pattern[|b| + 2] == '\r';
    assert !OccursAt(body, pattern, 0);
    assert Run(b, ALL, p) == (p, false);
    assert [body][0] == body;
  }

  // What is called back has been read from lines

  /** All header fields so far can be printed as lines. */
  predicate AllClean(p: Parser) { LinesOk(p.file) && AllLinesOk(p.log) }

  lemma {:induction false} FilenameClean(s: string, i: nat)
    requires i <= |s| && NoBreaks(s[..i])
    ensures var m := MatchFilename(s, i); m.Some? ==> NoBreaks(m.value)
    decreases |s| - i
  {
    if i < |s| && !IsBreak(s[i]) {
      assert s[..i + 1] == s[..i] + [s[i]];
      FilenameClean(s, i + 1);
    }
  }

  lemma TailClean(s: string)
    ensures var m := MatchTail(s); m.Some? ==> NoBreaks(m.value)
  {
    match Strip(s, ";")
    case None =>
    case Some(a) =>
      match Strip(SkipSpaces(a), "filename=\"")
      case None =>
      case Some(b) => FilenameClean(b, 0);
  }

  lemma {:induction false} NameClean(s: string, i: nat)
    requires i <= |s| && NoBreaks(s[..i])
    ensures var m := MatchName(s, i); m.Some? ==> NoBreaks(m.value.0) && NoBreaks(m.value.1)
    decreases |s| - i
  {
    if i < |s| {
      TailClean(s[i + 1..]);
      if !IsBreak(s[i]) {
        assert s[..i + 1] == s[..i] + [s[i]];
        NameClean(s, i + 1);
      }
    }
  }

  lemma DispositionClean(line: string)
    ensures var m := MatchDisposition(line); m.Some? ==> NoBreaks(m.value.0) && NoBreaks(m.value.1)
  {
    match Strip(line, DISPOSITION_NAME)
    case None =>
    case Some(a) =>
      match Strip(SkipSpaces(a), "form-data;")
      case None =>
      case Some(b) =>
        match Strip(SkipSpaces(b), "name=\"")
        case None =>
        case Some(c) => NameClean(c, 0);
  }

  lemma {:induction false} TrimLeftFree(s: string, d: string)
    requires !Contains(s, d)
    ensures !Contains(TrimLeft(s), d)
  {
    if s != "" && IsBlank(s[0]) {
      SuffixFree(s, 1, d);
      TrimLeftFree(s[1..], d);
    }
  }

  lemma PrefixFree(s: string, t: string, d: string)
    requires s <= t && !Contains(t, d)
    ensures !Contains(s, d)
  {
    forall i: nat | i <= |s|
      ensures !OccursAt(s, d, i)
    {
      if OccursAt(s, d, i) {
        OccursInPrefix(s, t, d, i);
      }
    }
  }

  lemma TrimFree(s: string, d: string)
    requires !Contains(s, d)
    ensures !Contains(Trim(s), d)
  {
    TrimLeftFree(s, d);
    TrimRightEnds(TrimLeft(s));
    PrefixFree(Trim(s), TrimLeft(s), d);
  }

  lemma LineClean(file: Item, line: string)
    requires LinesOk(file) && !Contains(line, CRLF)
    ensures LinesOk(ApplyLine(file, line))
  {
    if StartsWith(line, TYPE_NAME) {
      SuffixFree(line, |TYPE_NAME|, CRLF);
      TrimFree(line[|TYPE_NAME|..], CRLF);
    } else {
      DispositionClean(line);
    }
  }

  /** What stands in front of the first occurrence is free of it. */
  lemma FrontFree(s: string, d: string)
    requires Find(s, d) >= 0
    ensures !Contains(s[..Find(s, d)], d) || d == ""
  {
    var k := Find(s, d);
    if d != "" {
      forall i: nat | i <= k
        ensures !OccursAt(s[..k], d, i)
      {
        if OccursAt(s[..k], d, i) {
          OccursInPrefix(s[..k], s, d, i);
        }
      }
    }
  }

  lemma NothingClean()
    ensures LinesOk(NO_FILE)
  {
    forall i: nat | i <= 0
      ensures !OccursAt("", CRLF, i)
    {
    }
  }

  lemma DeliverClean(log: seq<Item>, text: string)
    requires AllLinesOk(log)
    ensures AllLinesOk(Deliver(log, text))
  {
    if log != [] {
      var n := |log| - 1;
      assert log[n] in log && forall it | it in log[..n] :: it in log;
    }
  }

  lemma BodyClean(b: string, p: Parser)
    requires p.state.Body? && AllClean(p)
    ensures AllClean(ReadBody(b, ALL, p).p)
  {
    if |p.buf| >= 4 {
      var q := Release(ALL, p).p;
      DeliverClean(p.log, p.buf[..Releasable(p.buf)]);
      var n, g := |Delim(b)|, Find(q.buf, Delim(b));
      if |q.buf| >= n {
        DeliverClean(q.log, q.buf[..if g >= 0 then g else n]);
      }
    }
  }

  lemma TurnClean(b: string, p: Parser)
    requires AllClean(p) && p.buf != ""
    ensures AllClean(Turn(b, ALL, p).p)
  {
    match p.state
    case NewEntry => NothingClean();
    case Headers =>
      var pos := Find(p.buf, CRLF);
      if pos > 0 {
        FrontFree(p.buf, CRLF);
        LineClean(p.file, p.buf[..pos]);
      }
    case Body => BodyClean(b, p);
    case _ =>
  }

  lemma {:induction false} RunClean(b: string, p: Parser)
    requires AllClean(p)
    ensures AllClean(Run(b, ALL, p).0)
    decreases |p.buf|, p.state.NewEntry?
  {
    if p.buf != "" {
      TurnClean(b, p);
      var o := Turn(b, ALL, p);
      if o.Go? {
        RunClean(b, o.p);
      }
    }
  }

  lemma Ambiguous(b: string, parts: seq<Part>)
    requires BoundaryOk(b) && WellFormed(parts) && !Unambiguous(b, parts)
    ensures !SameContents(Feed(b, ALL, INIT, [FormText(b, parts)]).0.log, SeenAll(parts))
  {
    var body := FormText(b, parts);
    var p := INIT.(buf := body);
    FeedOne(b, INIT, body);
    assert INIT.buf + body == body && p.buf + "" == body;
    BodyIsChain(b, parts);
    RunTruncates(b, SeenAll(parts), parts, p);
  }

  /** In one buffer a form, whatever its header lines, is called back with its contents exactly when it has at
      least one part and no content contains the delimiter. */
  lemma FormExact(b: string, parts: seq<Part>)
    requires BoundaryOk(b) && WellFormed(parts)
    ensures Recovers(b, SeenAll(parts), [FormText(b, parts)]) <==> parts != [] && Unambiguous(b, parts)
  {
    ConcatOne(FormText(b, parts));
    if parts == [] {
      EmptyFormRefused(b);
    } else if Unambiguous(b, parts) {
      FedIsSeen(b, parts, [FormText(b, parts)]);
    } else {
      Ambiguous(b, parts);
    }
  }

  /** In one buffer the parser gives back exactly the items that were posted when and only when there is at
      least one, their header fields are in order and no content contains the delimiter. */
  lemma RoundTripExact(b: string, items: seq<Item>)
    requires BoundaryOk(b)
    ensures Recovers(b, items, [BodyText(b, items)])
        <==> items != [] && AllHeadersOk(items) && forall it | it in items :: !Contains(it.content, Delim(b))
  {
    var parts := PostedAll(items);
    SameParts(b, items);
    if AllLinesOk(items) {
      PostedWellFormed(items);
      SeenAsTheyAre(items);
      FormExact(b, parts);
      if parts != [] && !Unambiguous(b, parts) {
        Ambiguous(b, parts);
        SeenContents(items);
      }
    } else {
      var body := BodyText(b, items);
      FeedOne(b, INIT, body);
      assert INIT.buf + body == body;
      NothingClean();
      RunClean(b, INIT.(buf := body));
    }
  }

  lemma SameParts(b: string, items: seq<Item>)
    ensures Unambiguous(b, PostedAll(items)) <==> forall it | it in items :: !Contains(it.content, Delim(b))
    ensures Calm(b, PostedAll(items)) <==> forall it | it in items :: Safe(it.content, b)
  {
    var parts := PostedAll(items);
    forall it | it in items
      ensures Posted(it) in parts
    {
      var i :| 0 <= i < |items| && items[i] == it;
      assert parts[i] == Posted(it);
    }
    forall part | part in parts
      ensures exists it :: it in items && it.content == part.content
    {
      var i :| 0 <= i < |parts| && parts[i] == part;
      assert items[i] in items;
    }
  }

  lemma FeedOne(b: string, p: Parser, piece: string)
    ensures Feed(b, ALL, p, [piece]) == Run(b, ALL, p.(buf := p.buf + piece))
  {
    var r := Run(b, ALL, p.(buf := p.buf + piece));
    assert [piece][1..] == [];
    assert Feed(b, ALL, r.0, []) == (r.0, true);
  }

  // Splits: a piece that ends where the parser drops bytes

  lemma NoRunAfter(s: string, t: nat, i: nat)
    requires i < |s| && t <= |s| && AllRun(s[t..]) && !IsRun(s[i])
    ensures i < t
  {
  }

  lemma RunStartUnique(s: string, t: nat)
    requires t <= |s| && AllRun(s[t..]) && (t == 0 || !IsRun(s[t - 1]))
    ensures RunStart(s) == t
  {
    var r := RunStart(s);
    if t > 0 {
      NoRunAfter(s, r, t - 1);
    }
    if r > 0 {
      NoRunAfter(s, t, r - 1);
    }
  }

  /** Fed a piece that ends a delimiter's length after the point where the parser holds back, the
      parser delivers all of it as content. */
  lemma DropsPiece(b: string, p: Parser, u: string, w: string)
    requires BoundaryOk(b) && !Contains(u, Delim(b)) && p.state.Body? && p.buf == ""
    requires w <= u + Delim(b) && |w| < |u| + |Delim(b)|
    requires Releasable(w) + |Delim(b)| == |w|
    ensures Run(b, ALL, p.(buf := w)) == (p.(off := p.off + |w|, log := Deliver(p.log, w)), true)
  {
    var k, n := Releasable(w), |Delim(b)|;
    DelimDoesNotOverlap(b);
    NoEarlyOccurrence(u, Delim(b), w);
    if Find(w[k..], Delim(b)) >= 0 {
      OccursInSuffix(w, k, Delim(b), Find(w[k..], Delim(b)));
    }
    DropsAll(b, p, w);
  }

  lemma DropsAll(b: string, p: Parser, w: string)
    requires p.state.Body? && p.buf == ""
    requires Releasable(w) + |Delim(b)| == |w| && Find(w[Releasable(w)..], Delim(b)) < 0
    ensures Turn(b, ALL, p.(buf := w)) == Go(p.(off := p.off + |w|, log := Deliver(p.log, w)))
  {
    var k := Releasable(w);
    var log := Deliver(p.log, w[..k]);
    var q := p.(buf := w[k..], off := p.off + k, log := log);
    TurnSeeks(b, p.(buf := w), q);
    SeekDropsAll(b, q);
    AllDelivered(p, q, w, k);
  }

  lemma AllDelivered(p: Parser, q: Parser, w: string, k: nat)
    requires p.buf == "" && k <= |w|
    requires q == p.(buf := w[k..], off := p.off + k, log := Deliver(p.log, w[..k]))
    ensures q.(buf := "", off := q.off + |q.buf|, log := Deliver(q.log, q.buf))
         == p.(off := p.off + |w|, log := Deliver(p.log, w))
  {
    DeliverTwice(p.log, w[..k], w[k..]);
    assert w[..k] + w[k..] == w;
  }

  lemma TurnSeeks(b: string, p: Parser, q: Parser)
    requires p.state.Body? && |p.buf| >= 4
    requires var k := Releasable(p.buf);
      q == p.(buf := p.buf[k..], off := p.off + k, log := Deliver(p.log, p.buf[..k]))
    ensures Turn(b, ALL, p) == Seek(b, ALL, q)
  {
    assert Release(ALL, p) == Go(q);
  }

  lemma SeekDropsAll(b: string, q: Parser)
    requires |q.buf| == |Delim(b)| && Find(q.buf, Delim(b)) < 0
    ensures Seek(b, ALL, q) == Go(q.(buf := "", off := q.off + |q.buf|, log := Deliver(q.log, q.buf)))
  {
    var n := |Delim(b)|;
    assert q.buf[..n] == q.buf && q.buf[n..] == "";
  }

  /** Where the parser can be made to drop bytes of an unsafe content. */
  lemma DropPoint(b: string, u: string) returns (k: nat)
    requires !Safe(u, b)
    ensures |Delim(b)| <= k < |u| + |Delim(b)|
    ensures Releasable((u + Delim(b))[..k]) + |Delim(b)| == k
    ensures k <= |u| ==> !Safe(u[k..], b)
  {
    if !SafeAtDashes(u, b) {
      k := DashesDropPoint(b, u);
    } else {
      k := RunsDropPoint(b, u);
    }
  }

  lemma RunsDropPoint(b: string, u: string) returns (k: nat)
    requires !SafeAtRuns(u, b)
    ensures |Delim(b)| <= k < |u| + |Delim(b)|
    ensures Releasable((u + Delim(b))[..k]) + |Delim(b)| == k
    ensures k <= |u| ==> !Safe(u[k..], b)
  {
    var t := UnsafeRun(b, u);
    k := t + |Delim(b)|;
    RunDropPoint(b, u, t, k);
  }

  lemma DashesDropPoint(b: string, u: string) returns (k: nat)
    requires !SafeAtDashes(u, b)
    ensures |Delim(b)| <= k < |u| + |Delim(b)|
    ensures Releasable((u + Delim(b))[..k]) + |Delim(b)| == k
    ensures k <= |u| ==> !Safe(u[k..], b)
  {
    DashesOccur(u);
    k := Find(u + DASHES, DASHES) + |Delim(b)|;
    DashesVisible(b, u, (u + Delim(b))[..k]);
  }

  lemma UnsafeRun(b: string, u: string) returns (t: nat)
    requires !SafeAtRuns(u, b)
    ensures t + |Delim(b)| < Find(u + DASHES, DASHES) + 4 && RunAt(u + DASHES, t, |Delim(b)|)
    ensures Find(u + DASHES, DASHES) <= |u|
    ensures t + |Delim(b)| <= |u| ==> !Safe(u[t + |Delim(b)|..], b)
  {
    DashesOccur(u);
    var n := |Delim(b)|;
    t :| t + n < Find(u + DASHES, DASHES) + 4 && RunAt(u + DASHES, t, n) && !(t + n <= |u| && Safe(u[t + n..], b));
  }

  lemma RunDropPoint(b: string, u: string, t: nat, k: nat)
    requires k == t + |Delim(b)| < Find(u + DASHES, DASHES) + 4 && RunAt(u + DASHES, t, |Delim(b)|)
    requires Find(u + DASHES, DASHES) <= |u|
    ensures k < |u| + |Delim(b)| && Releasable((u + Delim(b))[..k]) == t
  {
    var s, n := u + DASHES, |Delim(b)|;
    var w := (u + Delim(b))[..t + n];
    DashesVisible(b, u, w);
    SamePrefix(b, u, t + n);
    assert w[t..] == s[t..t + n];
    RunStartUnique(w, t);
  }

  lemma SamePrefix(b: string, u: string, k: nat)
    requires k <= |u| + 4
    ensures (u + Delim(b))[..k] == (u + DASHES)[..k]
  {
  }

  lemma DashesVisible(b: string, u: string, w: string)
    requires w <= u + Delim(b)
    ensures var p := Find(u + DASHES, DASHES);
      0 <= p <= |u| && Find(w, DASHES) == (if p + 4 <= |w| then p else -1)
  {
    var rest := (u + Delim(b))[|w|..];
    assert w + rest == u + Delim(b);
    DelimParts(b, u, "");
    assert w + rest == u + DASHES + (b + "");
    FindVisible(w, rest, u, b + "");
  }

  ghost predicate Overran(p: Parser, q: Parser, u: string) {
    && q.state.Body? && q.buf == "" && |q.log| == |p.log| && p.log != []
    && |q.log[|q.log| - 1].content| > |p.log[|p.log| - 1].content| + |u|
  }

  lemma {:induction false} LosingSplit(b: string, p: Parser, u: string) returns (pieces: seq<string>)
    requires BoundaryOk(b) && !Contains(u, Delim(b)) && !Safe(u, b)
    requires p.state.Body? && p.buf == "" && p.log != []
    ensures Concat(pieces) <= u + Delim(b)
    ensures Feed(b, ALL, p, pieces).1 && Overran(p, Feed(b, ALL, p, pieces).0, u)
    decreases |u|
  {
    var k := DropPoint(b, u);
    var w := (u + Delim(b))[..k];
    DropsPiece(b, p, u, w);
    var q := p.(off := p.off + |w|, log := Deliver(p.log, w));
    var more := [];
    if k <= |u| {
      SuffixFree(u, k, Delim(b));
      more := LosingSplit(b, q, u[k..]);
      PrefixAfter(u, Delim(b), k, Concat(more));
      Overruns(p, q, Feed(b, ALL, q, more).0, w, u, k);
    } else {
      Overruns(p, q, q, w, u, k);
    }
    pieces := [w] + more;
    FeedCons(b, p, w, more, q);
  }

  lemma Overruns(p: Parser, q: Parser, r: Parser, w: string, u: string, k: nat)
    requires p.state.Body? && p.buf == "" && p.log != [] && |w| == k
    requires q == p.(off := q.off, log := Deliver(p.log, w))
    requires if k > |u| then r == q else Overran(q, r, u[k..])
    ensures Overran(p, r, u)
  {
  }

  lemma FeedCons(b: string, p: Parser, piece: string, more: seq<string>, q: Parser)
    requires p.buf == "" && Run(b, ALL, p.(buf := piece)) == (q, true)
    ensures Feed(b, ALL, p, [piece] + more) == Feed(b, ALL, q, more)
    ensures Concat([piece] + more) == piece + Concat(more)
  {
    assert p.buf + piece == piece;
    assert ([piece] + more)[1..] == more;
  }

  lemma PrefixAfter(u: string, d: string, k: nat, x: string)
    requires k <= |u| && x <= u[k..] + d
    ensures (u + d)[..k] + x <= u + d
  {
    assert (u + d)[k..] == u[k..] + d;
  }

  lemma {:induction false} FeedAppend(b: string, p: Parser, xs: seq<string>, ys: seq<string>)
    ensures Concat(xs + ys) == Concat(xs) + Concat(ys)
    ensures Feed(b, ALL, p, xs).1 ==> Feed(b, ALL, p, xs + ys) == Feed(b, ALL, Feed(b, ALL, p, xs).0, ys)
    decreases |xs|
  {
    if xs == [] {
      assert xs + ys == ys;
    } else {
      assert (xs + ys)[1..] == xs[1..] + ys;
      FeedAppend(b, Run(b, ALL, p.(buf := p.buf + xs[0])).0, xs[1..], ys);
    }
  }

  // Getting to the start of the content of part `i` with everything before it in one piece

  function OnePart(b: string, part: Part, x: string): string {
    Lines(part.lines) + CRLF + (part.content + Delim(b) + (CRLF + x))
  }

  /** From the headers of part `j` to the headers of part `i`, included. */
  function UpTo(b: string, parts: seq<Part>, j: nat, i: nat): string
    requires j <= i < |parts|
    decreases i - j
  {
    if j == i then Lines(parts[j].lines) + CRLF else OnePart(b, parts[j], UpTo(b, parts, j + 1, i))
  }

  lemma {:induction false} UpToIsPrefix(b: string, parts: seq<Part>, j: nat, i: nat)
    requires j <= i < |parts|
    ensures Entry(b, parts[j..]) == UpTo(b, parts, j, i) + Content(b, parts[i..], 0)
    decreases i - j
  {
    if j < i {
      UpToIsPrefix(b, parts, j + 1, i);
      assert parts[j..][1..] == parts[j + 1..];
      EntryOfPart(b, parts[j..], UpTo(b, parts, j + 1, i), Content(b, parts[i..], 0));
    }
  }

  lemma EntryOfPart(b: string, todo: seq<Part>, x: string, y: string)
    requires |todo| > 1 && Entry(b, todo[1..]) == x + y
    ensures Entry(b, todo) == OnePart(b, todo[0], x) + y
  {
    var h, c := Lines(todo[0].lines) + CRLF, todo[0].content;
    assert c[0..] == c;
    assert Tail(b, todo[1..]) == CRLF + (x + y);
    assert Content(b, todo, 0) == c + Delim(b) + (CRLF + (x + y));
    Assoc(CRLF, x, y);
    Assoc(c + Delim(b), CRLF + x, y);
    Assoc(h, c + Delim(b) + (CRLF + x), y);
  }

  lemma {:induction false} RunLines(b: string, p: Parser, ls: seq<string>, x: string) returns (q: Parser)
    requires p.state.Headers? && AreLines(ls) && p.buf == Lines(ls) + CRLF + x
    ensures Run(b, ALL, p) == Run(b, ALL, q)
    ensures q.state.Body? && q.buf == x && q.log == p.log + [ApplyLines(p.file, ls)]
    decreases |ls|
  {
    if ls == [] {
      assert Lines(ls) + CRLF + x == CRLF + x;
      BlankVisible(p, x);
      q := Turn(b, ALL, p).p;
    } else {
      var l, y := ls[0], Lines(ls[1..]) + CRLF + x;
      assert l in ls && forall m | m in ls[1..] :: m in ls;
      assert Lines(ls) + CRLF + x == l + CRLF + y;
      LineVisible(p, l, y);
      q := RunLines(b, Turn(b, ALL, p).p, ls[1..], x);
    }
  }

  lemma RunHeaders(b: string, p: Parser, part: Part, x: string) returns (q: Parser)
    requires p.state.NewEntry? && AreLines(part.lines) && p.buf == Lines(part.lines) + CRLF + x
    ensures Run(b, ALL, p) == Run(b, ALL, q)
    ensures q.state.Body? && q.buf == x && q.log == p.log + [Seen(part).(content := "")]
  {
    LinesKeepContent(NO_FILE, part.lines);
    q := RunLines(b, Turn(b, ALL, p).p, part.lines, x);
  }

  lemma RunBody(b: string, p: Parser, u: string, x: string) returns (q: Parser)
    requires BoundaryOk(b) && p.state.Body? && p.log != [] && !Contains(u, Delim(b))
    requires p.buf == u + Delim(b) + (CRLF + x)
    ensures Run(b, ALL, p) == Run(b, ALL, q)
    ensures q.state.NewEntry? && q.buf == x && |q.log| == |p.log|
  {
    BodyVisible(b, p, u, CRLF + x);
    var found := Found(b, p, u, CRLF + x);
    q := RunCrlf(b, found, x);
  }

  lemma RunCrlf(b: string, p: Parser, x: string) returns (q: Parser)
    requires p.state.Boundary? && p.buf == CRLF + x
    ensures Run(b, ALL, p) == Run(b, ALL, q) && q == p.(state := NewEntry, buf := x, off := p.off + 2)
  {
    Split(CRLF, x);
    q := Turn(b, ALL, p).p;
  }

  lemma RunPart(b: string, p: Parser, part: Part, x: string) returns (q: Parser)
    requires BoundaryOk(b) && p.state.NewEntry? && AreLines(part.lines) && !Contains(part.content, Delim(b))
    requires p.buf == OnePart(b, part, x)
    ensures Run(b, ALL, p) == Run(b, ALL, q)
    ensures q.state.NewEntry? && q.buf == x && |q.log| == |p.log| + 1
  {
    var body := RunHeaders(b, p, part, part.content + Delim(b) + (CRLF + x));
    q := RunBody(b, body, part.content, x);
  }

  predicate BodyBegun(p: Parser, n: nat) {
    p.state.Body? && p.buf == "" && |p.log| == n && n > 0 && p.log[n - 1].content == ""
  }

  /** `texts[k]` is what is visible when the parser comes to part `k`; part `i` is the last one. */
  predicate Visible(b: string, parts: seq<Part>, i: nat, texts: seq<string>) {
    && |texts| == i + 1 <= |parts|
    && texts[i] == Lines(parts[i].lines) + CRLF
    && forall k | 0 <= k < i :: texts[k] == OnePart(b, parts[k], texts[k + 1])
  }

  /** The parser in front of part `k`, in a call that comes to `r`. */
  ghost predicate Coming(b: string, texts: seq<string>, k: nat, n: nat, p: Parser, r: (Parser, bool)) {
    k < |texts| && p.state.NewEntry? && p.buf == texts[k] && |p.log| == n && Run(b, ALL, p) == r
  }

  lemma RunOnePart(b: string, p: Parser, parts: seq<Part>, i: nat, texts: seq<string>, k: nat, n: nat,
      r: (Parser, bool))
    returns (q: Parser)
    requires BoundaryOk(b) && Fine(b, parts) && Visible(b, parts, i, texts) && k < i && Coming(b, texts, k, n, p, r)
    ensures Coming(b, texts, k + 1, n + 1, q, r)
  {
    assert parts[k] in parts;
    q := RunPart(b, p, parts[k], texts[k + 1]);
  }

  lemma RunLastPart(b: string, p: Parser, parts: seq<Part>, i: nat, texts: seq<string>, n: nat, r: (Parser, bool))
    returns (q: Parser)
    requires BoundaryOk(b) && Fine(b, parts) && Visible(b, parts, i, texts) && Coming(b, texts, i, n, p, r)
    ensures Run(b, ALL, q) == r && BodyBegun(q, n + 1)
  {
    assert parts[i] in parts;
    assert p.buf == Lines(parts[i].lines) + CRLF + "";
    q := RunHeaders(b, p, parts[i], "");
  }

  lemma {:induction false} RunToLast(b: string, p: Parser, parts: seq<Part>, i: nat, texts: seq<string>, k: nat, n: nat,
      r: (Parser, bool))
    returns (q: Parser)
    requires BoundaryOk(b) && Fine(b, parts) && Visible(b, parts, i, texts) && k <= i && Coming(b, texts, k, n, p, r)
    ensures Coming(b, texts, i, n + (i - k), q, r)
    decreases i - k
  {
    if k == i {
      q := p;
    } else {
      var next := RunOnePart(b, p, parts, i, texts, k, n, r);
      q := RunToLast(b, next, parts, i, texts, k + 1, n + 1, r);
    }
  }

  lemma RunUpTo(b: string, p: Parser, parts: seq<Part>, i: nat, texts: seq<string>, r: (Parser, bool))
    returns (q: Parser)
    requires BoundaryOk(b) && Fine(b, parts) && Visible(b, parts, i, texts) && Coming(b, texts, 0, 0, p, r)
    ensures Run(b, ALL, q) == r && BodyBegun(q, i + 1)
  {
    var last := RunToLast(b, p, parts, i, texts, 0, 0, r);
    q := RunLastPart(b, last, parts, i, texts, i, r);
  }

  lemma Texts(b: string, parts: seq<Part>, i: nat) returns (texts: seq<string>)
    requires i < |parts|
    ensures Visible(b, parts, i, texts) && texts[0] == UpTo(b, parts, 0, i)
  {
    texts := seq(i + 1, k requires 0 <= k <= i => UpTo(b, parts, k, i));
    assert forall k | 0 <= k <= i :: texts[k] == UpTo(b, parts, k, i);
    TextsVisible(b, parts, i, texts);
  }

  lemma TextsVisible(b: string, parts: seq<Part>, i: nat, texts: seq<string>)
    requires i < |parts| && |texts| == i + 1
    requires forall k | 0 <= k <= i :: texts[k] == UpTo(b, parts, k, i)
    ensures Visible(b, parts, i, texts)
  {
    assert texts[i] == UpTo(b, parts, i, i);
    forall k | 0 <= k < i
      ensures texts[k] == OnePart(b, parts[k], texts[k + 1])
    {
      UpToStep(b, parts, k, i);
    }
  }

  lemma UpToStep(b: string, parts: seq<Part>, j: nat, i: nat)
    requires j < i < |parts|
    ensures UpTo(b, parts, j, i) == OnePart(b, parts[j], UpTo(b, parts, j + 1, i))
  {
  }

  lemma FirstPiece(b: string, parts: seq<Part>, i: nat) returns (piece: string, q: Parser)
    requires BoundaryOk(b) && Fine(b, parts) && i < |parts|
    ensures FormText(b, parts) == piece + Content(b, parts[i..], 0)
    ensures Feed(b, ALL, INIT, [piece]) == (q, true)
    ensures BodyBegun(q, i + 1)
  {
    var pattern, x := "--" + b + CRLF, UpTo(b, parts, 0, i);
    piece := pattern + x;
    BodyIsChain(b, parts);
    UpToIsPrefix(b, parts, 0, i);
    assert parts[0..] == parts;
    Assoc("--" + b, CRLF, Entry(b, parts));
    Assoc(pattern, x, Content(b, parts[i..], 0));
    FeedOne(b, INIT, piece);
    var p := INIT.(buf := piece);
    assert INIT.buf + piece == piece;
    Split(pattern, x);
    assert OccursAt(piece, pattern, 0);
    var texts := Texts(b, parts, i);
    q := RunUpTo(b, Turn(b, ALL, p).p, parts, i, texts, Run(b, ALL, p));
  }

  lemma UnsafeLoses(b: string, parts: seq<Part>) returns (pieces: seq<string>)
    requires BoundaryOk(b) && Fine(b, parts) && !Calm(b, parts)
    ensures Concat(pieces) == FormText(b, parts) && !Recovers(b, SeenAll(parts), pieces)
  {
    var bad :| bad in parts && !Safe(bad.content, b);
    var i: nat :| i < |parts| && parts[i] == bad;
    var u, y := bad.content, Tail(b, parts[i..][1..]);
    var piece, q := FirstPiece(b, parts, i);
    assert !Contains(u, Delim(b));
    var lose := LosingSplit(b, q, u);
    var w := u + Delim(b);
    var rest := (w + y)[|Concat(lose)|..];
    Remainder(Concat(lose), w, y);
    ContentWhole(b, parts[i..]);
    pieces := [piece] + lose + [rest];
    FeedThree(b, piece, q, lose, rest);
    Assoc(piece, Concat(lose), rest);
    TooMuch(b, Feed(b, ALL, q, lose).0, rest, parts, i);
  }

  /** Once too much of a content has been delivered the form can no longer be read back. */
  lemma TooMuch(b: string, p: Parser, rest: string, parts: seq<Part>, i: nat)
    requires i < |parts| && i < |p.log| && |p.log[i].content| > |parts[i].content|
    ensures Feed(b, ALL, p, [rest]).0.log != SeenAll(parts)
  {
    FeedKeeps(b, p, [rest], i);
    SeenAt(parts, i);
  }

  lemma Remainder(x: string, w: string, y: string)
    requires x <= w
    ensures x + (w + y)[|x|..] == w + y
  {
  }

  lemma ContentWhole(b: string, todo: seq<Part>)
    requires todo != []
    ensures Content(b, todo, 0) == todo[0].content + Delim(b) + Tail(b, todo[1..])
  {
    assert todo[0].content[0..] == todo[0].content;
  }

  lemma FeedThree(b: string, piece: string, q: Parser, lose: seq<string>, rest: string)
    requires Feed(b, ALL, INIT, [piece]) == (q, true) && Feed(b, ALL, q, lose).1
    ensures Feed(b, ALL, INIT, [piece] + lose + [rest]) == Feed(b, ALL, Feed(b, ALL, q, lose).0, [rest])
    ensures Concat([piece] + lose + [rest]) == piece + Concat(lose) + rest
  {
    FeedAppend(b, INIT, [piece], lose);
    FeedAppend(b, INIT, [piece] + lose, [rest]);
    ConcatOne(piece);
    ConcatOne(rest);
  }

  lemma ConcatOne(x: string)
    ensures Concat([x]) == x
  {
    assert [x][1..] == [];
  }

  /** Every way of splitting a form, whatever its header lines, calls back its contents when and only when,
      besides, every content is safe. */
  lemma FormSplitExact(b: string, parts: seq<Part>)
    requires BoundaryOk(b) && WellFormed(parts)
    ensures (forall pieces | Concat(pieces) == FormText(b, parts) :: Recovers(b, SeenAll(parts), pieces))
      <==> parts != [] && Unambiguous(b, parts) && Calm(b, parts)
  {
    var whole := [FormText(b, parts)];
    ConcatOne(FormText(b, parts));
    FormExact(b, parts);
    if Recovers(b, SeenAll(parts), whole) {
      if Calm(b, parts) {
        forall pieces | Concat(pieces) == FormText(b, parts)
          ensures Recovers(b, SeenAll(parts), pieces)
        {
          FedIsSeen(b, parts, pieces);
        }
      } else {
        var pieces := UnsafeLoses(b, parts);
        assert Concat(pieces) == FormText(b, parts);
      }
    }
  }

  /** Every way of splitting the body gives back exactly the items when and only when, besides, every content
      is safe. */
  lemma SplitExact(b: string, items: seq<Item>)
    requires BoundaryOk(b)
    ensures (forall pieces | Concat(pieces) == BodyText(b, items) :: Recovers(b, items, pieces))
      <==> items != [] && AllHeadersOk(items)
           && forall it | it in items :: !Contains(it.content, Delim(b)) && Safe(it.content, b)
  {
    ConcatOne(BodyText(b, items));
    RoundTripExact(b, items);
    SameParts(b, items);
    if Recovers(b, items, [BodyText(b, items)]) {
      PostedWellFormed(items);
      SeenAsTheyAre(items);
      FormSplitExact(b, PostedAll(items));
    }
  }

  // Two conditions that are easy to see

  /** A content without CRLF `--`, whose last run of CR, LF and `-` is no longer than the boundary,
      is safe. */
  lemma {:induction false} ShortRunIsSafe(b: string, u: string)
    requires !Contains(u, DASHES) && |u| - RunStart(u) <= |b|
    ensures Safe(u, b)
    decreases |u|
  {
    var n := |Delim(b)|;
    DashesLast(u);
    forall t: nat | t + n < |u| + 4 && RunAt(u + DASHES, t, n)
      ensures t + n <= |u| && Safe(u[t + n..], b)
    {
      ShortRunPasses(b, u, t);
      ShortRunIsSafe(b, u[t + n..]);
    }
  }

  lemma DashesLast(u: string)
    requires !Contains(u, DASHES)
    ensures Find(u + DASHES, DASHES) == |u|
  {
    assert DASHES[0] !in DASHES[1..];
    FirstOccurrence(u, DASHES, "");
    assert u + DASHES + "" == u + DASHES;
  }

  lemma ShortRunPasses(b: string, u: string, t: nat)
    requires !Contains(u, DASHES) && |u| - RunStart(u) <= |b|
    requires t + |Delim(b)| < |u| + 4 && RunAt(u + DASHES, t, |Delim(b)|)
    ensures t + |Delim(b)| <= |u|
    ensures var v := u[t + |Delim(b)|..]; !Contains(v, DASHES) && |v| - RunStart(v) <= |b|
  {
    var k := t + |Delim(b)|;
    if k > |u| {
      LongRun(u, t, |Delim(b)|);
    } else {
      SuffixFree(u, k, DASHES);
      RunStartSuffix(u, k);
    }
  }

  lemma InRun(s: string, t: nat, n: nat, i: nat)
    requires RunAt(s, t, n) && t <= i < t + n
    ensures IsRun(s[i])
  {
    assert s[i] == s[t..t + n][i - t];
  }

  lemma RunInside(u: string, t: nat, n: nat, i: nat)
    requires RunAt(u + DASHES, t, n) && t <= i < t + n && i < |u|
    ensures IsRun(u[i])
  {
    InRun(u + DASHES, t, n, i);
    assert (u + DASHES)[i] == u[i];
  }

  lemma LongRun(u: string, t: nat, n: nat)
    requires RunAt(u + DASHES, t, n) && t < |u| < t + n
    ensures RunStart(u) <= t
  {
    hide RunStart, RunAt;
    if RunStart(u) > t {
      RunInside(u, t, n, RunStart(u) - 1);
    }
  }

  lemma RunStartSuffix(u: string, k: nat)
    requires k <= |u|
    ensures |u[k..]| - RunStart(u[k..]) <= |u| - RunStart(u)
  {
    var r, q := RunStart(u), RunStart(u[k..]);
    if r > k {
      DropDrop(u, k, q);
      NoRunAfter(u, k + q, r - 1);
    }
  }

  lemma PlainHasNo(u: string, d: string)
    requires d != "" && IsRun(d[0]) && forall c | c in u :: !IsRun(c)
    ensures !Contains(u, d)
  {
    forall i: nat | i <= |u|
      ensures !OccursAt(u, d, i)
    {
      if i < |u| {
        assert u[i] in u;
        assert i + |d| <= |u| ==> u[i..i + |d|][0] == u[i];
      }
    }
  }

  /** In particular a content without CR, LF and `-` is read back from every split. */
  lemma PlainContentsSurviveEverySplit(b: string, items: seq<Item>, pieces: seq<string>)
    requires BoundaryOk(b) && AllHeadersOk(items) && items != []
    requires forall it, c | it in items && c in it.content :: !IsRun(c)
    requires Concat(pieces) == BodyText(b, items)
    ensures Recovers(b, items, pieces)
  {
    forall it | it in items
      ensures !Contains(it.content, Delim(b)) && Safe(it.content, b)
    {
      PlainIsSafe(b, it.content);
    }
    SplitExact(b, items);
  }

  lemma PlainIsSafe(b: string, u: string)
    requires forall c | c in u :: !IsRun(c)
    ensures !Contains(u, Delim(b)) && Safe(u, b)
  {
    PlainHasNo(u, Delim(b));
    PlainHasNo(u, DASHES);
    assert u != "" ==> u[|u| - 1] in u;
    RunStartUnique(u, |u|);
    ShortRunIsSafe(b, u);
  }

  /** A quote in a name does harm where a filename seems to open behind it. */
  lemma QuoteCutsName(b: string, it: Item)
    requires BoundaryOk(b) && it.name == "a\";filename=\"z"
    ensures !Recovers(b, [it], [BodyText(b, [it])])
  {
    var t := AfterQuote(it, 1);
    assert it.name[1] == '"' && it.name[2..] == ";" + ("filename=\"" + "z");
    var rest := "z" + ("\"" + FilenameField(it));
    assert t == ";" + ("filename=\"" + rest);
    StripLiteral(t, ";", "filename=\"" + rest);
    assert SkipSpaces("filename=\"" + rest) == "filename=\"" + rest;
    StripLiteral("filename=\"" + rest, "filename=\"", rest);
    assert OpensFilename(t);
    assert it in [it] && !HeadersOk(it);
    RoundTripExact(b, [it]);
  }

  /** A line of two dashes is enough: with a boundary of three characters or more, a form with this
      content is read back in one buffer, and misread from some split. */
  lemma DashedLineCanBeLost(b: string, it: Item) returns (pieces: seq<string>)
    requires BoundaryOk(b) && |b| >= 3 && HeadersOk(it) && it.content == "\r\n--\r\n"
    ensures Recovers(b, [it], [BodyText(b, [it])])
    ensures Concat(pieces) == BodyText(b, [it]) && !Recovers(b, [it], pieces)
  {
    assert OccursAt(it.content + DASHES, DASHES, 0);
    assert !SafeAtDashes(it.content, b) && it in [it];
    RoundTripExact(b, [it]);
    SameParts(b, [it]);
    PostedWellFormed([it]);
    SeenAsTheyAre([it]);
    pieces := UnsafeLoses(b, PostedAll([it]));
  }
}
