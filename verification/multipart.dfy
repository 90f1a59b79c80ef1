// The multipart/form-data parser of `comm/httplib.h` and the serializer of `ClientImpl::Post`.
module Multipart {
  import opened Text
  import opened MultipartHeaders
  import opened Wrappers

  datatype State = InitialBoundary | NewEntry | Headers | Body | Boundary | Done

  /** The fields of the parser. `log` is what the two callbacks have been given so far: a header
      callback opens a new entry, a content callback extends the last one. */
  datatype Parser = Parser(state: State, buf: string, off: nat, valid: bool, file: Item, log: seq<Item>)

  const INIT := Parser(InitialBoundary, "", 0, false, NO_FILE, [])

  /** The answer a callback gives, as a function of all that has been delivered. */
  type Accepts = seq<Item> -> bool

  const DASHES := "\r\n--"

  function Delim(b: string): (d: string)
    ensures |d| == 4 + |b|
  {
    DASHES + b
  }

  function Deliver(log: seq<Item>, text: string): seq<Item> {
    if log == [] then log
    else log[..|log| - 1] + [log[|log| - 1].(content := log[|log| - 1].content + text)]
  }

  /** The characters a visible body never gives away at its end. */
  predicate IsRun(c: char) { c == '\r' || c == '\n' || c == '-' }

  predicate AllRun(s: string) { forall c | c in s :: IsRun(c) }

  function RunStart(s: string): (t: nat)
    ensures t <= |s| && AllRun(s[t..])
    ensures t > 0 ==> !IsRun(s[t - 1])
  {
    if s != "" && IsRun(s[|s| - 1]) then RunStart(s[..|s| - 1]) else |s|
  }

  // One turn of the parser's loop, by state

  datatype Outcome = Go(p: Parser) | Stop(p: Parser, ret: bool)

  /** The fed bytes are either consumed or still buffered, and a turn that goes on gets nearer to
      the end. */
  ghost predicate Advances(p: Parser, r: Outcome) {
    && r.p.off + |r.p.buf| == p.off + |p.buf|
    && |r.p.buf| <= |p.buf|
    && (r.Go? ==> |r.p.buf| < |p.buf| || (p.state.NewEntry? && !r.p.state.NewEntry?))
  }

  function NextLine(p: Parser, pos: nat): Parser
    requires pos + 2 <= |p.buf|
  {
    p.(file := ApplyLine(p.file, p.buf[..pos]), buf := p.buf[pos + 2..], off := p.off + pos + 2)
  }

  /** One complete header line; the blank line ends the block. */
  function ReadHeaders(ok: Accepts, p: Parser): (r: Outcome)
    ensures Advances(p, r)
  {
    var pos := Find(p.buf, CRLF);
    if pos < 0 then Stop(p, true)
    else if pos == 0 then
      var log := p.log + [p.file];
      if !ok(log) then Stop(p.(valid := false, log := log), false)
      else Go(p.(state := Body, buf := p.buf[2..], off := p.off + 2, log := log))
    else Go(NextLine(p, pos))
  }

  /** All the complete header lines that are visible, up to the blank line. */
  function ReadHeaderLines(ok: Accepts, p: Parser): (r: Outcome)
    requires p.state.Headers?
    ensures r.Stop? && r.ret ==> r.p.state.Headers? && Find(r.p.buf, CRLF) < 0
    ensures r.Go? ==> r.p.state.Body? && |r.p.log| == |p.log| + 1
    decreases |p.buf|
  {
    match ReadHeaders(ok, p)
    case Stop(q, ret) => Stop(q, ret)
    case Go(q) => if q.state.Headers? then ReadHeaderLines(ok, q) else Go(q)
  }

  /** How many visible bytes cannot belong to the delimiter. */
  function Releasable(buf: string): (pos: nat)
    ensures pos <= |buf|
  {
    var f := Find(buf, DASHES);
    if f >= 0 then f else RunStart(buf)
  }

  /** First half of the body state: give away what cannot belong to the delimiter. */
  function Release(ok: Accepts, p: Parser): (r: Outcome)
    ensures r.p.off + |r.p.buf| == p.off + |p.buf|
    ensures |r.p.buf| <= |p.buf|
  {
    if |p.buf| < 4 then Stop(p, true) else
    var pos := Releasable(p.buf);
    var log := Deliver(p.log, p.buf[..pos]);
    if ok(log) then Go(p.(buf := p.buf[pos..], off := p.off + pos, log := log))
    else Stop(p.(valid := false, log := log), false)
  }

  /** Second half: look for the delimiter, and drop as many bytes as it has when it is not there. */
  function Seek(b: string, ok: Accepts, p: Parser): (r: Outcome)
    ensures r.p.off + |r.p.buf| == p.off + |p.buf|
    ensures |r.p.buf| <= |p.buf|
    ensures r.Go? ==> |r.p.buf| < |p.buf|
  {
    var n := |Delim(b)|;
    if |p.buf| < n then Stop(p, true) else
    var g := Find(p.buf, Delim(b));
    var log := Deliver(p.log, p.buf[..if g >= 0 then g else n]);
    if !ok(log) then Stop(p.(valid := false, log := log), false)
    else if g >= 0 then
      Go(p.(state := Boundary, buf := p.buf[g + n..], off := p.off + g + n, log := log))
    else
      Go(p.(buf := p.buf[n..], off := p.off + n, log := log))
  }

  function ReadBody(b: string, ok: Accepts, p: Parser): (r: Outcome)
    ensures Advances(p, r)
  {
    var r := Release(ok, p);
    if r.Go? then Seek(b, ok, r.p) else r
  }

  function ReadInitial(b: string, p: Parser): (r: Outcome)
    ensures Advances(p, r)
  {
    var pattern := "--" + b + CRLF;
    if |p.buf| < |pattern| then Stop(p, true)
    else if Find(p.buf, pattern) != 0 then Stop(p, false)
    else Go(p.(state := NewEntry, buf := p.buf[|pattern|..], off := p.off + |pattern|))
  }

  function ReadBoundary(p: Parser): (r: Outcome)
    ensures Advances(p, r)
  {
    if |p.buf| < 2 then Stop(p, true)
    else if p.buf[..2] == CRLF then Go(p.(state := NewEntry, buf := p.buf[2..], off := p.off + 2))
    else if |p.buf| < 4 then Stop(p, true)
    else if p.buf[..4] == "--" + CRLF then
      Go(p.(state := Done, valid := true, buf := p.buf[4..], off := p.off + 4))
    else Stop(p, true)
  }

  function Turn(b: string, ok: Accepts, p: Parser): (r: Outcome)
    requires p.buf != ""
    ensures Advances(p, r)
  {
    match p.state
    case InitialBoundary => ReadInitial(b, p)
    case NewEntry => Go(p.(state := Headers, file := NO_FILE))
    case Headers => ReadHeaders(ok, p)
    case Body => ReadBody(b, ok, p)
    case Boundary => ReadBoundary(p)
    case Done => Stop(p.(valid := false), false)
  }

  /** `parse` after `buf_.append`: the parser it leaves behind and what it returns. */
  function Run(b: string, ok: Accepts, p: Parser): (r: (Parser, bool))
    ensures r.0.off + |r.0.buf| == p.off + |p.buf|
    decreases |p.buf|, p.state.NewEntry?
  {
    if p.buf == "" then (p, true)
    else
      match Turn(b, ok, p)
      case Stop(q, ret) => (q, ret)
      case Go(q) => Run(b, ok, q)
  }

  /** Successive calls of `parse`; the caller gives up at the first one that fails. */
  function Feed(b: string, ok: Accepts, p: Parser, pieces: seq<string>): (Parser, bool)
    decreases |pieces|
  {
    if pieces == [] then (p, true)
    else
      var r := Run(b, ok, p.(buf := p.buf + pieces[0]));
      if r.1 then Feed(b, ok, r.0, pieces[1..]) else r
  }

  function Concat(pieces: seq<string>): string {
    if pieces == [] then "" else pieces[0] + Concat(pieces[1..])
  }

  /** For any input at all, what was fed is what was consumed plus what is buffered. */
  lemma {:induction false} FedIsConsumedPlusBuffered(b: string, ok: Accepts, p: Parser, pieces: seq<string>)
    ensures var r := Feed(b, ok, p, pieces);
      r.1 ==> r.0.off + |r.0.buf| == p.off + |p.buf| + |Concat(pieces)|
    decreases |pieces|
  {
    if pieces != [] {
      var r := Run(b, ok, p.(buf := p.buf + pieces[0]));
      if r.1 {
        FedIsConsumedPlusBuffered(b, ok, r.0, pieces[1..]);
      }
    }
  }

  /** `MultipartFormDataParser`: the fields are updated in place, and every call of `Parse` does
      what `Run` says. */
  class MultipartFormDataParser {
    var boundary: string
    var buf: string
    var state: State
    var valid: bool
    var off: nat
    var file: Item
    var log: seq<Item>

    constructor ()
      ensures View() == INIT && boundary == ""
    {
      boundary, buf, state, valid, off, file, log := "", "", InitialBoundary, false, 0, NO_FILE, [];
    }

    function View(): Parser
      reads this
    {
      Parser(state, buf, off, valid, file, log)
    }

    method SetBoundary(b: string)
      modifies `boundary
      ensures boundary == b
    {
      boundary := b;
    }

    method ClearFileInfo()
      modifies `file
      ensures file == NO_FILE
    {
      file := file.(name := "", filename := "", contentType := "", content := "");
    }

    method Parse(data: string, ok: Accepts) returns (ret: bool)
      modifies this
      ensures boundary == old(boundary)
      ensures (View(), ret) == Run(boundary, ok, old(View()).(buf := old(buf) + data))
    {
      buf := buf + data;
      ghost var start := View();
      while buf != ""
        invariant boundary == old(boundary)
        invariant Run(boundary, ok, View()) == Run(boundary, ok, start)
        decreases |buf|, state.NewEntry?
      {
        var more := Continuing;
        match state {
          case InitialBoundary => more := ParseInitial();
          case NewEntry =>
            ClearFileInfo();
            state := Headers;
          case Headers => more := ParseHeaders(ok);
          case Body => more := ParseBody(ok);
          case Boundary => more := ParseBoundary();
          case Done =>
            valid := false;
            more := Refused;
        }
        if more != Continuing { return more == Waiting; }
      }
      return true;
    }

    method ParseInitial() returns (more: Progress)
      modifies this
      ensures boundary == old(boundary)
      ensures Reports(more, View(), ReadInitial(boundary, old(View())))
    {
      var pattern := "--" + boundary + CRLF;
      if |pattern| > |buf| { return Waiting; }
      var pos := Find(buf, pattern);
      if pos != 0 { return Refused; }
      buf := buf[|pattern|..];
      off := off + |pattern|;
      state := NewEntry;
      return Continuing;
    }

    /** A loop over the complete header lines that are visible. */
    method ParseHeaders(ok: Accepts) returns (more: Progress)
      requires state == Headers && buf != ""
      modifies this
      ensures boundary == old(boundary)
      ensures Reports(more, View(), ReadHeaderLines(ok, old(View())))
      ensures Arrives(boundary, ok, more, View(), old(View()))
    {
      var pos := Find(buf, CRLF);
      while pos >= 0
        invariant boundary == old(boundary) && state == Headers && |buf| <= |old(buf)|
        invariant pos == Find(buf, CRLF)
        invariant Run(boundary, ok, View()) == Run(boundary, ok, old(View()))
        invariant ReadHeaderLines(ok, View()) == ReadHeaderLines(ok, old(View()))
        decreases |buf|
      {
        if pos == 0 {
          more := BlankLine(ok);
          return;
        }
        HeaderLine(pos);
        pos := Find(buf, CRLF);
      }
      return Waiting;
    }

    method BlankLine(ok: Accepts) returns (more: Progress)
      requires state == Headers && Find(buf, CRLF) == 0
      modifies this
      ensures boundary == old(boundary)
      ensures Reports(more, View(), ReadHeaders(ok, old(View())))
    {
      log := log + [file];
      if !ok(log) {
        valid := false;
        return Refused;
      }
      buf := buf[2..];
      off := off + 2;
      state := Body;
      return Continuing;
    }

    method HeaderLine(pos: nat)
      requires pos + 2 <= |buf|
      modifies this
      ensures boundary == old(boundary)
      ensures View() == NextLine(old(View()), pos)
    {
      file := ApplyLine(file, buf[..pos]);
      off := off + pos + 2;
      buf := buf[pos + 2..];
    }

    method ParseBody(ok: Accepts) returns (more: Progress)
      requires state == Body
      modifies this
      ensures boundary == old(boundary)
      ensures Reports(more, View(), ReadBody(boundary, ok, old(View())))
    {
      more := GiveAway(ok);
      if more == Continuing {
        more := SeekDelimiter(ok);
      }
    }

    method GiveAway(ok: Accepts) returns (more: Progress)
      modifies this
      ensures boundary == old(boundary)
      ensures Reports(more, View(), Release(ok, old(View())))
    {
      if 4 > |buf| { return Waiting; }
      var pos := Find(buf, DASHES);
      if pos < 0 {
        pos := SkipBackOverRun();
      }
      log := Deliver(log, buf[..pos]);
      if !ok(log) {
        valid := false;
        return Refused;
      }
      off := off + pos;
      buf := buf[pos..];
      return Continuing;
    }

    method SkipBackOverRun() returns (pos: nat)
      ensures pos == RunStart(buf)
    {
      pos := |buf|;
      assert buf[..pos] == buf;
      while pos > 0
        invariant pos <= |buf|
        invariant RunStart(buf[..pos]) == RunStart(buf)
      {
        if !IsRun(buf[pos - 1]) { break; }
        assert buf[..pos][..pos - 1] == buf[..pos - 1];
        pos := pos - 1;
      }
    }

    method SeekDelimiter(ok: Accepts) returns (more: Progress)
      modifies this
      ensures boundary == old(boundary)
      ensures Reports(more, View(), Seek(boundary, ok, old(View())))
    {
      var pattern := Delim(boundary);
      if |pattern| > |buf| { return Waiting; }
      var pos := Find(buf, pattern);
      if pos >= 0 {
        log := Deliver(log, buf[..pos]);
        if !ok(log) {
          valid := false;
          return Refused;
        }
        off := off + pos + |pattern|;
        buf := buf[pos + |pattern|..];
        state := Boundary;
      } else {
        log := Deliver(log, buf[..|pattern|]);
        if !ok(log) {
          valid := false;
          return Refused;
        }
        off := off + |pattern|;
        buf := buf[|pattern|..];
      }
      return Continuing;
    }

    method ParseBoundary() returns (more: Progress)
      modifies this
      ensures boundary == old(boundary)
      ensures Reports(more, View(), ReadBoundary(old(View())))
    {
      if 2 > |buf| { return Waiting; }
      if buf[..2] == CRLF {
        buf := buf[2..];
        off := off + 2;
        state := NewEntry;
        return Continuing;
      }
      var pattern := "--" + CRLF;
      if |pattern| > |buf| { return Waiting; }
      if buf[..|pattern|] != pattern { return Waiting; }
      buf := buf[|pattern|..];
      off := off + |pattern|;
      valid := true;
      state := Done;
      return Continuing;
    }
  }

  datatype Progress = Continuing | Waiting | Refused

  /** What is left to do after some turns is what was left to do before them. */
  ghost predicate Arrives(b: string, ok: Accepts, more: Progress, view: Parser, start: Parser) {
    match more
    case Continuing => Run(b, ok, view) == Run(b, ok, start) && (|view.buf| < |start.buf|)
    case Waiting => Run(b, ok, start) == (view, true)
    case Refused => Run(b, ok, start) == (view, false)
  }

  ghost predicate Reports(more: Progress, view: Parser, r: Outcome) {
    && view == r.p
    && (more == Continuing <==> r.Go?)
    && (more == Waiting <==> r.Stop? && r.ret)
  }

  // The serializer

  predicate BoundaryCharOk(c: char) {
    'a' <= c <= 'z' || 'A' <= c <= 'Z' || '0' <= c <= '9' || c == '-' || c == '_'
  }

  predicate BoundaryOk(b: string) { forall c | c in b :: BoundaryCharOk(c) }

  /** A part of a body with whatever header lines. */
  datatype Part = Part(lines: seq<string>, content: string)

  function PartText(b: string, p: Part): string {
    "--" + b + CRLF + (Lines(p.lines) + CRLF) + p.content + CRLF
  }

  function FormText(b: string, parts: seq<Part>): string {
    if parts == [] then "--" + b + "--" + CRLF
    else PartText(b, parts[0]) + FormText(b, parts[1..])
  }

  /** The part `Post` makes of an item. */
  function Posted(it: Item): Part { Part(HeaderLines(it), it.content) }

  function PostedAll(items: seq<Item>): (parts: seq<Part>)
    ensures |parts| == |items|
  {
    seq(|items|, i requires 0 <= i < |items| => Posted(items[i]))
  }

  lemma PostedCons(items: seq<Item>)
    requires items != []
    ensures PostedAll(items)[0] == Posted(items[0]) && PostedAll(items)[1..] == PostedAll(items[1..])
  {
    hide Posted;
    var a, b := PostedAll(items)[1..], PostedAll(items[1..]);
    assert |a| == |b| && forall i | 0 <= i < |b| :: a[i] == Posted(items[i + 1]) == b[i];
  }

  function BodyText(b: string, items: seq<Item>): string { FormText(b, PostedAll(items)) }

  /** `ClientImpl::Post` up to the call that sends the body: none when the boundary is refused. */
  method MakeBody(items: seq<Item>, b: string) returns (r: Option<string>)
    ensures r.Some? <==> BoundaryOk(b)
    ensures r.Some? ==> r.value == BodyText(b, items)
  {
    for i := 0 to |b|
      invariant BoundaryOk(b[..i])
    {
      if !BoundaryCharOk(b[i]) {
        assert b[i] in b;
        return None;
      }
      assert b[..i + 1] == b[..i] + [b[i]];
    }
    assert b[..|b|] == b;
    var body := "";
    for i := 0 to |items|
      invariant body + BodyText(b, items[i..]) == BodyText(b, items)
    {
      ghost var before := body;
      body := AppendPart(body, b, items[i]);
      assert items[i..][1..] == items[i + 1..];
      PostedCons(items[i..]);
      Assoc(before, PartText(b, Posted(items[i])), BodyText(b, items[i + 1..]));
    }
    body := body + ("--" + b + "--" + CRLF);
    return Some(body);
  }

  method AppendPart(before: string, b: string, it: Item) returns (body: string)
    ensures body == before + PartText(b, Posted(it))
  {
    ghost var t := "--" + b + CRLF;
    body := before + ("--" + b + CRLF);
    t := Append(before, t, NAME_PREFIX + it.name + "\"");
    body := body + (NAME_PREFIX + it.name + "\"");
    if it.filename != "" {
      t := Append(before, t, FILENAME_PREFIX + it.filename + "\"");
      body := body + (FILENAME_PREFIX + it.filename + "\"");
    }
    t := Append(before, t, CRLF);
    body := body + CRLF;
    if it.contentType != "" {
      t := Append(before, t, "Content-Type: " + it.contentType + CRLF);
      body := body + ("Content-Type: " + it.contentType + CRLF);
    }
    t := Append(before, t, CRLF);
    body := body + CRLF;
    t := Append(before, t, it.content + CRLF);
    body := body + (it.content + CRLF);
    PartTextSpelled(b, it);
  }

  lemma Append(before: string, t: string, x: string) returns (t': string)
    ensures t' == t + x && before + t + x == before + t'
  {
    t' := t + x;
    Assoc(before, t, x);
  }

  lemma PartTextSpelled(b: string, it: Item)
    ensures
      var t := "--" + b + CRLF + (NAME_PREFIX + it.name + "\"");
      var t := if it.filename == "" then t else t + (FILENAME_PREFIX + it.filename + "\"");
      var t := t + CRLF;
      var t := if it.contentType == "" then t else t + ("Content-Type: " + it.contentType + CRLF);
      PartText(b, Posted(it)) == t + CRLF + (it.content + CRLF)
  {
    DispositionSpelled(it);
    var p, a, n := "--" + b + CRLF, DispositionLine(it), NAME_PREFIX + it.name + "\"";
    var y := if it.contentType == "" then "" else "Content-Type: " + it.contentType + CRLF;
    LinesSpelled(it, a, y);
    Spread(p, a, y, it.content);
    if it.filename == "" {
      assert a == n;
    } else {
      var f := FILENAME_PREFIX + it.filename + "\"";
      assert n + f == a by {
        Assoc(n, FILENAME_PREFIX + it.filename, "\"");
        Assoc(n, FILENAME_PREFIX, it.filename);
      }
      Assoc(p, n, f);
    }
    assert it.contentType == "" ==> p + a + CRLF + y == p + a + CRLF;
  }

  lemma LinesSpelled(it: Item, a: string, y: string)
    requires a == DispositionLine(it)
    requires y == if it.contentType == "" then "" else "Content-Type: " + it.contentType + CRLF
    ensures Lines(HeaderLines(it)) == a + CRLF + y
  {
    var rest := HeaderLines(it)[1..];
    assert HeaderLines(it)[0] == a;
    if it.contentType != "" {
      assert rest == ["Content-Type: " + it.contentType] && rest[1..] == [];
      assert Lines(rest) == rest[0] + CRLF + Lines([]) == y;
    }
  }

  lemma Spread(p: string, a: string, y: string, c: string)
    ensures p + (a + CRLF + y + CRLF) + c + CRLF == p + a + CRLF + y + CRLF + (c + CRLF)
  {
  }
}
