// The parser against the serializer: when a body comes back as the items it was made from, in one
// buffer and in every sequence of pieces.
module MultipartRoundTrip {
  import opened Text
  import opened MultipartHeaders
  import opened Multipart

  const ALL: Accepts := (log: seq<Item>) => true

  /** Fed in these pieces, the parser calls back exactly the items and ends as a valid form. */
  predicate Recovers(b: string, items: seq<Item>, pieces: seq<string>) {
    var r := Feed(b, ALL, INIT, pieces);
    r.1 && r.0.log == items && r.0.state.Done? && r.0.valid && r.0.buf == ""
  }

  predicate RunAt(s: string, t: nat, n: nat) {
    t + n <= |s| && (t == 0 || !IsRun(s[t - 1])) && AllRun(s[t..t + n])
  }

  /** No split can make the parser swallow the start of the delimiter that follows `u`. Wherever it
      may drop a delimiter's length of bytes (at the first CRLF `--`, or at a run of CR, LF and `-`
      that is as long as the delimiter), those bytes all belong to `u`, and so on after them. */
  predicate Safe(u: string, b: string)
    decreases |u|, 1
  {
    SafeAtDashes(u, b) && SafeAtRuns(u, b)
  }

  predicate SafeAtDashes(u: string, b: string)
    decreases |u|, 0
  {
    DashesOccur(u);
    var k := Find(u + DASHES, DASHES) + |Delim(b)|;
    Find(u + DASHES, DASHES) < |u| ==> k <= |u| && Safe(u[k..], b)
  }

  predicate SafeAtRuns(u: string, b: string)
    decreases |u|, 0
  {
    DashesOccur(u);
    var n := |Delim(b)|;
    forall t: nat | t + n < Find(u + DASHES, DASHES) + 4 && RunAt(u + DASHES, t, n) ::
      t + n <= |u| && Safe(u[t + n..], b)
  }

  lemma DashesOccur(u: string)
    ensures 0 <= Find(u + DASHES, DASHES) <= |u|
  {
    assert OccursAt(u + DASHES, DASHES, |u|);
  }

  // The body as a chain: after each boundary comes a tail

  function Entry(b: string, parts: seq<Part>): string
    requires parts != []
    decreases |parts|, 1
  {
    Lines(parts[0].lines) + CRLF + Content(b, parts, 0)
  }

  /** What follows the first `t` bytes of the content of the first part. */
  function Content(b: string, parts: seq<Part>, t: nat): string
    requires parts != [] && t <= |parts[0].content|
    decreases |parts|, 0
  {
    parts[0].content[t..] + Delim(b) + Tail(b, parts[1..])
  }

  function Tail(b: string, parts: seq<Part>): (s: string)
    ensures s != ""
    decreases |parts|, 2
  {
    if parts == [] then "--" + CRLF else CRLF + Entry(b, parts)
  }

  lemma {:induction false} BodyIsChain(b: string, parts: seq<Part>)
    ensures FormText(b, parts) == "--" + b + Tail(b, parts)
  {
    var d := "--" + b;
    if parts != [] {
      BodyIsChain(b, parts[1..]);
      var h := Lines(parts[0].lines) + CRLF;
      var c := parts[0].content;
      assert c[0..] == c;
      Chain(d, h, c, d + Tail(b, parts[1..]));
      assert Tail(b, parts) == CRLF + Entry(b, parts);
      assert Entry(b, parts) == h + Content(b, parts, 0);
      DelimSplit(b, c, Tail(b, parts[1..]));
    }
  }

  lemma DelimSplit(b: string, c: string, tail: string)
    ensures c + (CRLF + ("--" + b + tail)) == c + Delim(b) + tail
  {
    assert CRLF + ("--" + b + tail) == Delim(b) + tail;
  }

  lemma Chain(d: string, h: string, c: string, rest: string)
    ensures d + CRLF + h + c + CRLF + rest == d + (CRLF + (h + (c + (CRLF + rest))))
  {
    Assoc(c, CRLF, rest);
    Assoc(h, c, CRLF + rest);
    Assoc(CRLF, h, c + (CRLF + rest));
  }

  lemma Split(x: string, y: string)
    ensures (x + y)[..|x|] == x && (x + y)[|x|..] == y
  {
  }

  lemma DelimDoesNotOverlap(b: string)
    requires BoundaryOk(b)
    ensures Delim(b)[0] !in Delim(b)[1..]
  {
    var d := Delim(b);
    assert d[1..] == "\n--" + b;
    assert forall c | c in b :: c != '\r';
  }

  // Turns in which the whole of what is awaited is visible

  predicate AreLines(ls: seq<string>) { forall l | l in ls :: l != "" && !Contains(l, CRLF) }

  lemma LineVisible(p: Parser, l: string, y: string)
    requires l != "" && !Contains(l, CRLF)
    requires p.buf == l + CRLF + y
    ensures ReadHeaders(ALL, p) == Go(p.(buf := y, off := p.off + |l| + 2, file := ApplyLine(p.file, l)))
  {
    FirstOccurrence(l, CRLF, y);
    Split(l + CRLF, y);
    assert p.buf[..|l|] == l;
  }

  lemma BlankVisible(p: Parser, x: string)
    requires p.buf == CRLF + x
    ensures ReadHeaders(ALL, p) == Go(p.(state := Body, buf := x, off := p.off + 2, log := p.log + [p.file]))
  {
    FirstOccurrence("", CRLF, x);
    assert p.buf == "" + CRLF + x;
    Split(CRLF, x);
  }

  /** The parser after a delimiter that stood behind `u`. */
  function Found(b: string, p: Parser, u: string, x: string): Parser {
    p.(state := Boundary, buf := x, off := p.off + |u| + |Delim(b)|, log := Deliver(p.log, u))
  }

  lemma BodyVisible(b: string, p: Parser, u: string, x: string)
    requires BoundaryOk(b) && !Contains(u, Delim(b))
    requires p.buf == u + Delim(b) + x
    ensures ReadBody(b, ALL, p) == Go(Found(b, p, u, x))
  {
    var q := Release(ALL, p).p;
    var pos := |p.buf| - |q.buf|;
    ReleaseStops(b, p, u, x);
    DropInside(u, Delim(b) + x, pos);
    Assoc(u, Delim(b), x);
    Assoc(u[pos..], Delim(b), x);
    SuffixFree(u, pos, Delim(b));
    SeekVisible(b, q, u[pos..], x);
    Sought(b, p, q, u, pos, x, ReadBody(b, ALL, p));
  }

  lemma Sought(b: string, p: Parser, q: Parser, u: string, pos: nat, x: string, r: Outcome)
    requires pos <= |u| && q == p.(buf := q.buf, off := p.off + pos, log := Deliver(p.log, u[..pos]))
    requires r == Go(Found(b, q, u[pos..], x))
    ensures r == Go(Found(b, p, u, x))
  {
    DeliverTwice(p.log, u[..pos], u[pos..]);
    assert u[..pos] + u[pos..] == u;
  }

  lemma DropInside(u: string, y: string, k: nat)
    requires k <= |u|
    ensures (u + y)[k..] == u[k..] + y && (u + y)[..k] == u[..k] && u[..k] + u[k..] == u
  {
  }

  lemma SeekVisible(b: string, p: Parser, u: string, x: string)
    requires BoundaryOk(b) && !Contains(u, Delim(b))
    requires p.buf == u + Delim(b) + x
    ensures Seek(b, ALL, p) == Go(Found(b, p, u, x))
  {
    DelimDoesNotOverlap(b);
    FirstOccurrence(u, Delim(b), x);
    Split(u + Delim(b), x);
    assert p.buf[..|u|] == u;
  }

  lemma ReleaseStops(b: string, p: Parser, u: string, x: string)
    requires p.buf == u + Delim(b) + x
    ensures var r := Release(ALL, p);
      && r.Go? && |p.buf| - |r.p.buf| <= |u| && r.p.buf == p.buf[|p.buf| - |r.p.buf|..]
      && r.p == p.(buf := r.p.buf, off := p.off + (|p.buf| - |r.p.buf|),
                   log := Deliver(p.log, p.buf[..|p.buf| - |r.p.buf|]))
  {
    assert p.buf[|u|..|u| + 4] == DASHES;
    assert OccursAt(p.buf, DASHES, |u|);
  }

  lemma SuffixFree(u: string, k: nat, d: string)
    requires k <= |u| && !Contains(u, d)
    ensures !Contains(u[k..], d)
  {
    forall i: nat | i <= |u[k..]|
      ensures !OccursAt(u[k..], d, i)
    {
      OccursInSuffix(u, k, d, i);
      assert !OccursAt(u, d, k + i);
    }
  }

  lemma DeliverTwice(log: seq<Item>, x: string, y: string)
    ensures Deliver(Deliver(log, x), y) == Deliver(log, x + y)
  {
    if log != [] {
      var c := log[|log| - 1].content;
      assert c + x + y == c + (x + y);
      assert Deliver(log, x)[..|log| - 1] == log[..|log| - 1];
    }
  }

  // What the parser makes of the header lines of a part

  function Seen(p: Part): Item { ApplyLines(NO_FILE, p.lines).(content := p.content) }

  function SeenAll(parts: seq<Part>): (r: seq<Item>)
    ensures |r| == |parts|
  {
    if parts == [] then [] else [Seen(parts[0])] + SeenAll(parts[1..])
  }

  lemma {:induction false} SeenAt(parts: seq<Part>, i: nat)
    requires i < |parts|
    ensures SeenAll(parts)[i] == Seen(parts[i])
  {
    if i > 0 {
      SeenAt(parts[1..], i - 1);
    }
  }

  lemma {:induction false} LinesKeepContent(file: Item, ls: seq<string>)
    ensures ApplyLines(file, ls).content == file.content
    decreases |ls|
  {
    if ls != [] {
      LinesKeepContent(ApplyLine(file, ls[0]), ls[1..]);
    }
  }

  predicate AllHeadersOk(items: seq<Item>) { forall it | it in items :: HeadersOk(it) }

  predicate AllLinesOk(items: seq<Item>) { forall it | it in items :: LinesOk(it) }

  lemma AllHeadersOkCons(items: seq<Item>)
    requires items != []
    ensures AllHeadersOk(items) <==> HeadersOk(items[0]) && AllHeadersOk(items[1..])
  {
    assert items == [items[0]] + items[1..];
  }

  lemma AllLinesOkCons(items: seq<Item>)
    requires items != [] && AllLinesOk(items)
    ensures LinesOk(items[0]) && AllLinesOk(items[1..])
  {
    assert items[0] in items && forall it | it in items[1..] :: it in items;
  }

  /** Posted items are seen as they are exactly when all their headers are in order. */
  lemma {:induction false} SeenAsTheyAre(items: seq<Item>)
    requires AllLinesOk(items)
    ensures SeenAll(PostedAll(items)) == items <==> AllHeadersOk(items)
  {
    if items != [] {
      AllLinesOkCons(items);
      AllHeadersOkCons(items);
      SeenAsItIs(items[0]);
      SeenAsTheyAre(items[1..]);
      PostedCons(items);
      SameList(Seen(Posted(items[0])), SeenAll(PostedAll(items[1..])), items);
    }
  }

  lemma SeenAsItIs(it: Item)
    requires LinesOk(it)
    ensures Seen(Posted(it)) == it <==> HeadersOk(it)
  {
    HeadersRoundTrip(it);
  }

  lemma PostedWellFormed(items: seq<Item>)
    requires AllLinesOk(items)
    ensures WellFormed(PostedAll(items))
  {
    forall i | 0 <= i < |items|
      ensures AreLines(PostedAll(items)[i].lines)
    {
      assert items[i] in items;
      HeaderLinesAreLines(items[i]);
    }
  }

  lemma SameList<T>(x: T, xs: seq<T>, ys: seq<T>)
    requires ys != []
    ensures [x] + xs == ys <==> x == ys[0] && xs == ys[1..]
  {
    assert ys == [ys[0]] + ys[1..];
    if [x] + xs == ys {
      assert ([x] + xs)[1..] == xs;
    }
  }

  // The track: where the parser is in the body when `rest` is what has not been fed yet

  ghost predicate InHeaders(b: string, todo: seq<Part>, p: Parser, rest: string, ls: seq<string>)
    requires todo != []
  {
    && AreLines(ls)
    && ApplyLines(p.file, ls) == Seen(todo[0]).(content := "")
    && p.buf + rest == Lines(ls) + CRLF + Content(b, todo, 0)
  }

  ghost predicate InBody(b: string, goal: seq<Item>, todo: seq<Part>, p: Parser, rest: string)
    requires todo != []
  {
    && p.log != []
    && var last := p.log[|p.log| - 1];
    && last.content <= todo[0].content
    && last == Seen(todo[0]).(content := last.content)
    && p.log[..|p.log| - 1] + SeenAll(todo) == goal
    && p.buf + rest == Content(b, todo, |last.content|)
  }

  ghost predicate OnTrack(b: string, goal: seq<Item>, todo: seq<Part>, p: Parser, rest: string) {
    match p.state
    case InitialBoundary =>
      todo != [] && SeenAll(todo) == goal && p.log == [] && p.buf + rest == "--" + b + Tail(b, todo)
    case NewEntry => todo != [] && p.log + SeenAll(todo) == goal && p.buf + rest == Entry(b, todo)
    case Headers => todo != [] && p.log + SeenAll(todo) == goal && exists ls :: InHeaders(b, todo, p, rest, ls)
    case Body => todo != [] && InBody(b, goal, todo, p, rest)
    case Boundary => p.log + SeenAll(todo) == goal && p.buf + rest == Tail(b, todo)
    case Done => todo == [] && p.log == goal && p.buf + rest == "" && p.valid
  }

  predicate Calm(b: string, parts: seq<Part>) { forall p | p in parts :: Safe(p.content, b) }

  predicate WellFormed(parts: seq<Part>) { forall p | p in parts :: AreLines(p.lines) }

  predicate Unambiguous(b: string, parts: seq<Part>) {
    forall p | p in parts :: !Contains(p.content, Delim(b))
  }

  /** Either everything has been fed, or no content still to come is open to a bad split. */
  ghost predicate Covered(b: string, todo: seq<Part>, p: Parser, rest: string) {
    || rest == ""
    || (if p.state.Body? && todo != [] && p.log != [] && |p.log[|p.log| - 1].content| <= |todo[0].content| then
          Safe(todo[0].content[|p.log[|p.log| - 1].content|..], b) && Calm(b, todo[1..])
        else Calm(b, todo))
  }

  /** One turn from a point of the track leads to another one; the parser only waits for bytes that
      are still to come. */
  ghost predicate Follows(b: string, goal: seq<Item>, todo: seq<Part>, rest: string, o: Outcome) {
    && OnTrack(b, goal, todo, o.p, rest) && Covered(b, todo, o.p, rest)
    && (o.Stop? ==> o.ret && rest != "")
  }

  lemma Whole(buf: string, rest: string, x: string, y: string)
    requires buf + rest == x + y
    ensures |x| <= |buf| ==> buf == x + buf[|x|..] && buf[|x|..] + rest == y
    ensures |buf| < |x| ==> buf <= x && rest != ""
  {
    if |x| <= |buf| {
      assert (buf + rest)[..|x|] == buf[..|x|];
      assert (buf + rest)[|x|..] == buf[|x|..] + rest;
    } else {
      assert (x + y)[..|buf|] == x[..|buf|];
      assert (buf + rest)[..|buf|] == buf;
    }
  }

  lemma TurnInitial(b: string, goal: seq<Item>, todo: seq<Part>, p: Parser, rest: string)
    requires p.state.InitialBoundary? && p.buf != ""
    requires OnTrack(b, goal, todo, p, rest) && Covered(b, todo, p, rest) && WellFormed(todo)
    ensures Follows(b, goal, todo, rest, Turn(b, ALL, p))
  {
    var x := "--" + b + CRLF;
    Assoc("--" + b, CRLF, Entry(b, todo));
    Whole(p.buf, rest, x, Entry(b, todo));
    assert p.log + SeenAll(todo) == SeenAll(todo);
    if |x| <= |p.buf| {
      assert OccursAt(p.buf, x, 0);
    }
  }

  lemma TurnNewEntry(b: string, goal: seq<Item>, todo: seq<Part>, p: Parser, rest: string)
    requires p.state.NewEntry? && p.buf != ""
    requires OnTrack(b, goal, todo, p, rest) && Covered(b, todo, p, rest) && WellFormed(todo)
    ensures Follows(b, goal, todo, rest, Turn(b, ALL, p))
  {
    var ls := todo[0].lines;
    assert todo[0] in todo;
    LinesKeepContent(NO_FILE, ls);
    assert InHeaders(b, todo, Turn(b, ALL, p).p, rest, ls);
  }

  lemma TurnHeaders(b: string, goal: seq<Item>, todo: seq<Part>, p: Parser, rest: string, ls: seq<string>)
    requires p.state.Headers? && p.buf != ""
    requires OnTrack(b, goal, todo, p, rest) && Covered(b, todo, p, rest) && WellFormed(todo)
    requires InHeaders(b, todo, p, rest, ls)
    ensures Follows(b, goal, todo, rest, Turn(b, ALL, p))
  {
    var c := Content(b, todo, 0);
    if ls == [] {
      assert Lines(ls) + CRLF + c == CRLF + c;
      Whole(p.buf, rest, CRLF, c);
      if |p.buf| >= 2 {
        BlankVisible(p, p.buf[2..]);
        BodyEntered(b, goal, todo, p, Turn(b, ALL, p).p, rest);
      } else {
        NothingFound("", p.buf);
      }
    } else {
      TurnLine(b, goal, todo, p, rest, ls);
    }
  }

  lemma TurnLine(b: string, goal: seq<Item>, todo: seq<Part>, p: Parser, rest: string, ls: seq<string>)
    requires p.state.Headers? && p.buf != "" && ls != []
    requires OnTrack(b, goal, todo, p, rest) && Covered(b, todo, p, rest)
    requires InHeaders(b, todo, p, rest, ls)
    ensures Follows(b, goal, todo, rest, Turn(b, ALL, p))
  {
    var l, c := ls[0], Content(b, todo, 0);
    var y := Lines(ls[1..]) + CRLF + c;
    assert l in ls;
    LinesSplit(l, Lines(ls[1..]), c);
    LineTurn(p, rest, l, y);
    if |p.buf| >= |l| + 2 {
      assert forall m | m in ls[1..] :: m in ls;
      assert InHeaders(b, todo, Turn(b, ALL, p).p, rest, ls[1..]);
    }
  }

  lemma LinesSplit(l: string, m: string, c: string)
    ensures (l + CRLF + m) + CRLF + c == (l + CRLF) + (m + CRLF + c)
  {
    Assoc(l + CRLF, m, CRLF);
    Assoc(l + CRLF, m + CRLF, c);
  }

  /** A line is either visible and applied, or waited for. */
  lemma LineTurn(p: Parser, rest: string, l: string, y: string)
    requires p.buf + rest == (l + CRLF) + y && l != "" && !Contains(l, CRLF)
    ensures |p.buf| >= |l| + 2 ==>
      ReadHeaders(ALL, p) == Go(p.(buf := p.buf[|l| + 2..], off := p.off + |l| + 2, file := ApplyLine(p.file, l)))
      && p.buf[|l| + 2..] + rest == y
    ensures |p.buf| < |l| + 2 ==> ReadHeaders(ALL, p) == Stop(p, true) && rest != ""
  {
    Whole(p.buf, rest, l + CRLF, y);
    if |p.buf| >= |l| + 2 {
      LineVisible(p, l, p.buf[|l| + 2..]);
    } else {
      NothingFound(l, p.buf);
    }
  }

  lemma NothingFound(l: string, buf: string)
    requires !Contains(l, CRLF) && buf <= l + CRLF && |buf| < |l| + 2
    ensures Find(buf, CRLF) == -1
  {
    NoEarlyOccurrence(l, CRLF, buf);
  }

  lemma BodyEntered(b: string, goal: seq<Item>, todo: seq<Part>, p: Parser, q: Parser, rest: string)
    requires todo != [] && p.log + SeenAll(todo) == goal
    requires p.file == Seen(todo[0]).(content := "")
    requires q.state.Body? && q.log == p.log + [p.file] && q.buf + rest == Content(b, todo, 0)
    requires rest == "" || Calm(b, todo)
    ensures OnTrack(b, goal, todo, q, rest) && Covered(b, todo, q, rest)
  {
    assert q.log[..|q.log| - 1] == p.log;
    assert todo[0].content[0..] == todo[0].content;
    assert todo[0] in todo;
    assert forall it | it in todo[1..] :: it in todo;
  }

  lemma TurnBoundary(b: string, goal: seq<Item>, todo: seq<Part>, p: Parser, rest: string)
    requires p.state.Boundary? && p.buf != ""
    requires OnTrack(b, goal, todo, p, rest) && Covered(b, todo, p, rest) && WellFormed(todo)
    ensures Follows(b, goal, todo, rest, Turn(b, ALL, p))
  {
    if todo == [] {
      Whole(p.buf, rest, "--" + CRLF, "");
      assert p.buf + rest == "--" + CRLF + "";
      if |p.buf| >= 2 {
        assert p.buf[0] == (p.buf + rest)[0] == '-';
        assert p.buf[..2] != CRLF;
        if |p.buf| >= 4 {
          assert p.buf[..4] == "--" + CRLF;
        }
      }
    } else {
      Whole(p.buf, rest, CRLF, Entry(b, todo));
    }
  }

  // The body state

  lemma FindVisible(buf: string, rest: string, u: string, y: string)
    requires buf + rest == u + DASHES + y
    ensures var p := Find(u + DASHES, DASHES);
      0 <= p <= |u| && Find(buf, DASHES) == (if p + 4 <= |buf| then p else -1)
  {
    DashesOccur(u);
    var s, w := u + DASHES, buf + rest;
    var p, f := Find(s, DASHES), Find(buf, DASHES);
    assert s <= w && buf <= w;
    if p + 4 <= |buf| {
      assert buf[p..p + 4] == w[p..p + 4] == s[p..p + 4];
      assert OccursAt(buf, DASHES, p);
    }
    if 0 <= f && f + 4 <= |s| {
      assert buf[f..f + 4] == w[f..f + 4] == s[f..f + 4];
      assert OccursAt(s, DASHES, f);
    }
  }

  lemma FindInSuffix(s: string, k: nat, d: string)
    requires k <= Find(s, d)
    ensures Find(s[k..], d) == Find(s, d) - k
  {
    OccursInSuffix(s, k, d, Find(s, d) - k);
    var f := Find(s[k..], d);
    if f >= 0 {
      OccursInSuffix(s, k, d, f);
    }
  }

  /** Safety is kept at the points where the parser may stop and wait. */
  lemma SafeSuffix(u: string, b: string, k: nat)
    requires Safe(u, b)
    requires k <= |u| && ReleasePoint(u, k)
    ensures Safe(u[k..], b)
  {
    SafeSuffixDashes(u, b, k);
    SafeSuffixRuns(u, b, k);
  }

  lemma DropDrop(u: string, k: nat, m: nat)
    requires k + m <= |u|
    ensures u[k..][m..] == u[k + m..]
  {
  }

  lemma DashesInSuffix(u: string, k: nat)
    requires k <= |u| && ReleasePoint(u, k)
    ensures Find(u[k..] + DASHES, DASHES) == Find(u + DASHES, DASHES) - k
  {
    assert u[k..] + DASHES == (u + DASHES)[k..];
    FindInSuffix(u + DASHES, k, DASHES);
  }

  lemma SafeSuffixDashes(u: string, b: string, k: nat)
    requires SafeAtDashes(u, b) && k <= |u| && ReleasePoint(u, k)
    ensures SafeAtDashes(u[k..], b)
  {
    DashesOccur(u);
    DashesOccur(u[k..]);
    DashesInSuffix(u, k);
    var p := Find(u + DASHES, DASHES);
    if p < |u| {
      DropDrop(u, k, p - k + |Delim(b)|);
    }
  }

  lemma SafeSuffixRuns(u: string, b: string, k: nat)
    requires SafeAtRuns(u, b) && k <= |u| && ReleasePoint(u, k)
    ensures SafeAtRuns(u[k..], b)
  {
    DashesInSuffix(u, k);
    forall t: nat | t + |Delim(b)| < Find(u[k..] + DASHES, DASHES) + 4 && RunAt(u[k..] + DASHES, t, |Delim(b)|)
      ensures t + |Delim(b)| <= |u[k..]| && Safe(u[k..][t + |Delim(b)|..], b)
    {
      SafeSuffixRun(u, b, k, t);
    }
  }

  lemma SafeSuffixRun(u: string, b: string, k: nat, t: nat)
    requires SafeAtRuns(u, b) && k <= |u| && ReleasePoint(u, k)
    requires t + |Delim(b)| < Find(u[k..] + DASHES, DASHES) + 4 && RunAt(u[k..] + DASHES, t, |Delim(b)|)
    ensures t + |Delim(b)| <= |u[k..]| && Safe(u[k..][t + |Delim(b)|..], b)
  {
    DashesInSuffix(u, k);
    RunShifts(u, k, t, |Delim(b)|);
    assert k + t + |Delim(b)| <= |u|;
    DropDrop(u, k, t + |Delim(b)|);
  }

  predicate ReleasePoint(u: string, k: nat)
    requires k <= |u|
  {
    var p := Find(u + DASHES, DASHES);
    k == p || (k <= p && (k == 0 || !IsRun((u + DASHES)[k - 1])))
  }

  lemma RunShifts(u: string, k: nat, t: nat, n: nat)
    requires k <= |u| && RunAt(u[k..] + DASHES, t, n)
    requires k == 0 || t != 0 || !IsRun((u + DASHES)[k - 1])
    ensures RunAt(u + DASHES, k + t, n)
  {
    var s := u + DASHES;
    SuffixOfSum(u, k, DASHES);
    assert s[k..][t..t + n] == s[k + t..k + t + n];
  }

  lemma SuffixOfSum(u: string, k: nat, x: string)
    requires k <= |u|
    ensures (u + x)[k..] == u[k..] + x
  {
  }

  /** What the first half of the body state leaves in the buffer: nothing, the beginning of a CRLF
      `--`, or a run that may be one. */
  lemma ReleaseInside(buf: string, rest: string, u: string, y: string)
    requires buf + rest == u + DASHES + y
    ensures Releasable(buf) <= |u| && ReleasePoint(u, Releasable(buf))
    ensures || Releasable(buf) == Find(u + DASHES, DASHES)
            || (AllRun(buf[Releasable(buf)..]) && |buf| < Find(u + DASHES, DASHES) + 4)
  {
    FindVisible(buf, rest, u, y);
    var s := u + DASHES;
    var p := Find(s, DASHES);
    var k := Releasable(buf);
    if |buf| < p + 4 {
      assert buf <= s by {
        assert s <= buf + rest;
      }
      NotInDashes(s, p, buf, k);
    }
  }

  lemma NotInDashes(s: string, p: nat, buf: string, k: nat)
    requires OccursAt(s, DASHES, p) && buf <= s && |buf| < p + 4
    requires k <= |buf| && (k == 0 || !IsRun(buf[k - 1]))
    ensures k <= p
  {
    if k > p {
      DashesAreRun(s, p, k - 1);
    }
  }

  lemma DashesAreRun(s: string, p: nat, i: nat)
    requires OccursAt(s, DASHES, p) && p <= i < p + 4
    ensures IsRun(s[i])
  {
    assert s[i] == s[p..p + 4][i - p] == DASHES[i - p];
  }

  lemma DelimParts(b: string, u: string, y: string)
    ensures u + Delim(b) + y == u + DASHES + (b + y)
    ensures u + Delim(b) + y == u + (Delim(b) + y)
  {
  }

  lemma DropFront(buf: string, rest: string, u: string, d: string, k: nat)
    requires buf + rest == u + d && k <= |buf| && k <= |u|
    ensures buf[k..] + rest == u[k..] + d && buf[..k] == u[..k]
  {
    assert buf[..k] == (buf + rest)[..k];
    assert (buf + rest)[k..] == buf[k..] + rest;
  }

  /** Where a body may be cut: either everything is there, or its rest is safe. */
  ghost predicate Guarded(b: string, u: string, rest: string) { rest == "" || Safe(u, b) }

  lemma ReleaseGuarded(b: string, u: string, rest: string, k: nat)
    requires Guarded(b, u, rest) && k <= |u| && ReleasePoint(u, k)
    ensures Guarded(b, u[k..], rest)
  {
    if rest != "" {
      SafeSuffix(u, b, k);
    }
  }

  /** What may stand at the front of the buffer when the delimiter is sought. */
  ghost predicate Sifted(u: string, buf: string) {
    var f := Find(u + DASHES, DASHES);
    f == 0 || (AllRun(buf) && |buf| < f + 4)
  }

  lemma ReleaseSifts(buf: string, rest: string, u: string, y: string)
    requires buf + rest == u + DASHES + y
    ensures Releasable(buf) <= |u| && Sifted(u[Releasable(buf)..], buf[Releasable(buf)..])
  {
    ReleaseInside(buf, rest, u, y);
    var k := Releasable(buf);
    assert u[k..] + DASHES == (u + DASHES)[k..];
    FindInSuffix(u + DASHES, k, DASHES);
  }

  /** When the parser drops a delimiter's length of bytes from a safe content, the content has that
      many left. */
  lemma JumpInside(b: string, u: string, buf: string, rest: string, y: string)
    requires Safe(u, b) && buf + rest == u + Delim(b) + y
    requires |Delim(b)| <= |buf| < |u| + |Delim(b)| && Sifted(u, buf)
    ensures |Delim(b)| <= |u| && Safe(u[|Delim(b)|..], b)
  {
    DashesOccur(u);
    if Find(u + DASHES, DASHES) != 0 {
      RunInFront(b, u, buf, rest, y);
    }
  }

  lemma RunInFront(b: string, u: string, buf: string, rest: string, y: string)
    requires buf + rest == u + Delim(b) + y && |Delim(b)| <= |buf| < |u| + 4
    requires AllRun(buf)
    ensures RunAt(u + DASHES, 0, |Delim(b)|)
  {
    var n := |Delim(b)|;
    DelimParts(b, u, y);
    assert (u + DASHES)[0..n] == (buf + rest)[..n] == buf[..n];
  }

  lemma SeekDrop(b: string, p: Parser, u: string, rest: string, y: string)
    requires BoundaryOk(b) && !Contains(u, Delim(b))
    requires p.buf + rest == u + Delim(b) + y && |Delim(b)| <= |p.buf| < |u| + |Delim(b)| && |Delim(b)| <= |u|
    ensures var n := |Delim(b)|;
      Seek(b, ALL, p) == Go(p.(buf := p.buf[n..], off := p.off + n, log := Deliver(p.log, u[..n])))
  {
    Whole(p.buf, rest, u + Delim(b), y);
    DelimDoesNotOverlap(b);
    NoEarlyOccurrence(u, Delim(b), p.buf);
    DelimParts(b, u, y);
    DropFront(p.buf, rest, u, Delim(b) + y, |Delim(b)|);
  }

  // The body state on the track. `u` is what is left of the content.

  ghost predicate BodyAt(b: string, goal: seq<Item>, todo: seq<Part>, p: Parser, rest: string, u: string) {
    && p.state.Body? && p.log != [] && todo != []
    && var last := p.log[|p.log| - 1];
    && Seen(todo[0]) == last.(content := last.content + u)
    && p.log[..|p.log| - 1] + SeenAll(todo) == goal
    && p.buf + rest == u + Delim(b) + Tail(b, todo[1..])
  }

  lemma BodyAtIsInBody(b: string, goal: seq<Item>, todo: seq<Part>, p: Parser, rest: string) returns (u: string)
    requires p.state.Body? && todo != [] && InBody(b, goal, todo, p, rest)
    ensures BodyAt(b, goal, todo, p, rest, u)
    ensures u == todo[0].content[|p.log[|p.log| - 1].content|..]
  {
    u := todo[0].content[|p.log[|p.log| - 1].content|..];
    assert p.log[|p.log| - 1].content + u == todo[0].content;
  }

  lemma InBodyIsBodyAt(b: string, goal: seq<Item>, todo: seq<Part>, p: Parser, rest: string, u: string)
    requires BodyAt(b, goal, todo, p, rest, u)
    ensures InBody(b, goal, todo, p, rest)
    ensures u == todo[0].content[|p.log[|p.log| - 1].content|..]
  {
  }

  lemma DeliverAt(b: string, goal: seq<Item>, todo: seq<Part>, p: Parser, q: Parser, rest: string, u: string, k: nat)
    requires BodyAt(b, goal, todo, p, rest, u) && k <= |u| && k <= |p.buf|
    requires q.state.Body? && q.log == Deliver(p.log, u[..k]) && q.buf == p.buf[k..]
    ensures BodyAt(b, goal, todo, q, rest, u[k..])
  {
    DeliverPart(p.log, u, k);
    DelimParts(b, u, Tail(b, todo[1..]));
    DelimParts(b, u[k..], Tail(b, todo[1..]));
    DropFront(p.buf, rest, u, Delim(b) + Tail(b, todo[1..]), k);
  }

  lemma DeliverPart(log: seq<Item>, u: string, k: nat)
    requires log != [] && k <= |u|
    ensures var last, more := log[|log| - 1], Deliver(log, u[..k]);
      && |more| == |log| && more[..|log| - 1] == log[..|log| - 1]
      && more[|log| - 1] == last.(content := last.content + u[..k])
      && last.content + u[..k] + u[k..] == last.content + u
  {
    Assoc(log[|log| - 1].content, u[..k], u[k..]);
    assert u[..k] + u[k..] == u;
  }

  lemma TurnBody(b: string, goal: seq<Item>, todo: seq<Part>, p: Parser, rest: string) returns (todo': seq<Part>)
    requires BoundaryOk(b) && p.state.Body? && p.buf != ""
    requires OnTrack(b, goal, todo, p, rest) && Covered(b, todo, p, rest)
    requires !Contains(todo[0].content, Delim(b))
    ensures Follows(b, goal, todo', rest, Turn(b, ALL, p))
    ensures todo' == todo || todo' == todo[1..]
  {
    var u := BodyAtIsInBody(b, goal, todo, p, rest);
    SuffixFree(todo[0].content, |p.log[|p.log| - 1].content|, Delim(b));
    var o;
    o, todo' := ReadBodyAt(b, goal, todo, p, rest, u);
    if o.p.state.Body? {
      var v :| BodyAt(b, goal, todo, o.p, rest, v) && Guarded(b, v, rest);
      InBodyIsBodyAt(b, goal, todo, o.p, rest, v);
    } else {
      assert forall it | it in todo[1..] :: it in todo;
    }
  }

  /** After the second half: further on in the same body, or behind its delimiter. */
  ghost predicate SeekAtEnd(b: string, goal: seq<Item>, todo: seq<Part>, todo': seq<Part>, rest: string, o: Outcome)
    requires todo != []
  {
    && (o.Stop? ==> o.ret && rest != "")
    && (if o.p.state.Body? then todo' == todo && exists v :: BodyAt(b, goal, todo, o.p, rest, v) && Guarded(b, v, rest)
        else todo' == todo[1..] && o.p.state.Boundary? && OnTrack(b, goal, todo', o.p, rest))
  }

  lemma ReadBodyAt(b: string, goal: seq<Item>, todo: seq<Part>, p: Parser, rest: string, u: string)
    returns (o: Outcome, todo': seq<Part>)
    requires BoundaryOk(b) && BodyAt(b, goal, todo, p, rest, u)
    requires Guarded(b, u, rest) && !Contains(u, Delim(b))
    ensures o == ReadBody(b, ALL, p) && SeekAtEnd(b, goal, todo, todo', rest, o)
  {
    var y := Tail(b, todo[1..]);
    o := ReadBody(b, ALL, p);
    todo' := todo;
    if |p.buf| >= 4 {
      DelimParts(b, u, y);
      ReleaseInside(p.buf, rest, u, b + y);
      ReleaseSifts(p.buf, rest, u, b + y);
      var q := Release(ALL, p).p;
      var k := Releasable(p.buf);
      DropFront(p.buf, rest, u, Delim(b) + y, k);
      DeliverAt(b, goal, todo, p, q, rest, u, k);
      ReleaseGuarded(b, u, rest, k);
      SuffixFree(u, k, Delim(b));
      todo' := SeekAt(b, goal, todo, q, rest, u[k..]);
    } else {
      assert |p.buf + rest| == |u| + |Delim(b)| + |y|;
    }
  }

  lemma SeekFinds(b: string, goal: seq<Item>, todo: seq<Part>, p: Parser, rest: string, u: string)
    requires BoundaryOk(b) && BodyAt(b, goal, todo, p, rest, u)
    requires |p.buf| >= |u| + |Delim(b)| && !Contains(u, Delim(b))
    ensures Seek(b, ALL, p) == Go(Found(b, p, u, p.buf[|u| + |Delim(b)|..]))
    ensures OnTrack(b, goal, todo[1..], Seek(b, ALL, p).p, rest)
  {
    Whole(p.buf, rest, u + Delim(b), Tail(b, todo[1..]));
    SeekVisible(b, p, u, p.buf[|u| + |Delim(b)|..]);
    ItemDone(p.log, todo, u, goal);
  }

  lemma ItemDone(log: seq<Item>, todo: seq<Part>, u: string, goal: seq<Item>)
    requires log != [] && todo != []
    requires var last := log[|log| - 1]; Seen(todo[0]) == last.(content := last.content + u)
    requires log[..|log| - 1] + SeenAll(todo) == goal
    ensures Deliver(log, u) + SeenAll(todo[1..]) == goal
  {
    Assoc(log[..|log| - 1], [Seen(todo[0])], SeenAll(todo[1..]));
  }

  lemma SeekAt(b: string, goal: seq<Item>, todo: seq<Part>, p: Parser, rest: string, u: string)
    returns (todo': seq<Part>)
    requires BoundaryOk(b) && BodyAt(b, goal, todo, p, rest, u)
    requires Guarded(b, u, rest) && !Contains(u, Delim(b)) && Sifted(u, p.buf)
    ensures SeekAtEnd(b, goal, todo, todo', rest, Seek(b, ALL, p))
  {
    var n, y := |Delim(b)|, Tail(b, todo[1..]);
    assert |p.buf + rest| == |u| + n + |y|;
    todo' := todo;
    if |p.buf| >= |u| + n {
      SeekFinds(b, goal, todo, p, rest, u);
      todo' := todo[1..];
    } else if |p.buf| >= n {
      JumpInside(b, u, p.buf, rest, y);
      SeekDrop(b, p, u, rest, y);
      DeliverAt(b, goal, todo, p, Seek(b, ALL, p).p, rest, u, n);
      assert Guarded(b, u[n..], rest);
    }
  }

  // Whole calls and whole feeds

  lemma TurnOnTrack(b: string, goal: seq<Item>, todo: seq<Part>, p: Parser, rest: string) returns (todo': seq<Part>)
    requires BoundaryOk(b) && p.buf != "" && WellFormed(todo)
    requires OnTrack(b, goal, todo, p, rest) && Covered(b, todo, p, rest)
    requires p.state.Body? ==> !Contains(todo[0].content, Delim(b))
    ensures Follows(b, goal, todo', rest, Turn(b, ALL, p))
    ensures todo' == todo || (p.state.Body? && todo' == todo[1..])
  {
    todo' := todo;
    match p.state
    case InitialBoundary => TurnInitial(b, goal, todo, p, rest);
    case NewEntry => TurnNewEntry(b, goal, todo, p, rest);
    case Headers =>
      var ls :| InHeaders(b, todo, p, rest, ls);
      TurnHeaders(b, goal, todo, p, rest, ls);
    case Body => todo' := TurnBody(b, goal, todo, p, rest);
    case Boundary => TurnBoundary(b, goal, todo, p, rest);
  }

  predicate Fine(b: string, parts: seq<Part>) { WellFormed(parts) && Unambiguous(b, parts) }

  lemma FineTail(b: string, parts: seq<Part>)
    requires Fine(b, parts) && parts != []
    ensures Fine(b, parts[1..]) && AreLines(parts[0].lines) && !Contains(parts[0].content, Delim(b))
  {
    assert parts[0] in parts;
    assert forall p | p in parts[1..] :: p in parts;
  }

  lemma {:induction false} RunOnTrack(b: string, goal: seq<Item>, todo: seq<Part>, p: Parser, rest: string)
    returns (todo': seq<Part>)
    requires BoundaryOk(b)
    requires OnTrack(b, goal, todo, p, rest) && Covered(b, todo, p, rest) && Fine(b, todo)
    ensures var r := Run(b, ALL, p);
      && r.1 && OnTrack(b, goal, todo', r.0, rest) && Covered(b, todo', r.0, rest) && Fine(b, todo')
      && (rest == "" ==> r.0.buf == "")
    decreases |p.buf|, p.state.NewEntry?
  {
    todo' := todo;
    if p.buf != "" {
      if todo != [] {
        FineTail(b, todo);
      }
      todo' := TurnOnTrack(b, goal, todo, p, rest);
      var o := Turn(b, ALL, p);
      if o.Go? {
        todo' := RunOnTrack(b, goal, todo', o.p, rest);
      }
    }
  }

  /** Only at its end is the body wholly consumed. */
  lemma NothingLeft(b: string, goal: seq<Item>, todo: seq<Part>, p: Parser)
    requires OnTrack(b, goal, todo, p, "") && p.buf == ""
    ensures p.state.Done? && p.log == goal && p.valid && todo == []
  {
    assert p.buf + "" == "";
  }

  lemma {:induction false} FeedOnTrack(b: string, goal: seq<Item>, todo: seq<Part>, p: Parser, pieces: seq<string>)
    requires BoundaryOk(b)
    requires OnTrack(b, goal, todo, p, Concat(pieces)) && Fine(b, todo)
    requires Covered(b, todo, p, Concat(pieces)) || |pieces| == 1
    requires Concat(pieces) == "" ==> p.buf == ""
    ensures var r := Feed(b, ALL, p, pieces);
      r.1 && r.0.log == goal && r.0.state.Done? && r.0.valid && r.0.buf == ""
    decreases |pieces|
  {
    if pieces == [] {
      NothingLeft(b, goal, todo, p);
    } else {
      var rest := Concat(pieces[1..]);
      var q := p.(buf := p.buf + pieces[0]);
      Assoc(p.buf, pieces[0], rest);
      if p.state.Headers? {
        var ls :| InHeaders(b, todo, p, Concat(pieces), ls);
        assert InHeaders(b, todo, q, rest, ls);
      }
      var todo' := RunOnTrack(b, goal, todo, q, rest);
      FeedOnTrack(b, goal, todo', Run(b, ALL, q).0, pieces[1..]);
    }
  }

  /** A body whose contents are free of the delimiter is called back with its contents, and with the headers
      that are seen. */
  lemma FedIsSeen(b: string, parts: seq<Part>, pieces: seq<string>)
    requires BoundaryOk(b) && parts != [] && Fine(b, parts)
    requires Concat(pieces) == FormText(b, parts)
    requires Calm(b, parts) || |pieces| == 1
    ensures Recovers(b, SeenAll(parts), pieces)
  {
    BodyIsChain(b, parts);
    assert INIT.buf + Concat(pieces) == Concat(pieces);
    FeedOnTrack(b, SeenAll(parts), parts, INIT, pieces);
  }
}
