// The Location header of a redirect in `comm/httplib.h`: how `redirect` takes it apart, and where it leads. The
// regular expression is an explicit recognizer here.
module Location {
  import opened Text
  import opened Url
  import opened Wrappers
  import R = RangeHeader

  /** Where a client is connected to. */
  datatype Place = Place(https: bool, host: string, port: nat)

  /** The groups of the expression; a group that did not take part is empty. */
  datatype Parts = Parts(scheme: string, host: string, port: string, path: string)

  // ^(?:(https?):)?(?://([^:/?#]*)(?::(\d+))?)?([^?#]*(?:\?[^#]*)?)(?:#.*)?

  function SchemeOf(l: string): (s: string)
    ensures s != "" ==> s + ":" <= l
  {
    if "https:" <= l then "https" else if "http:" <= l then "http" else ""
  }

  predicate HostChar(c: char) { c != ':' && c != '/' && c != '?' && c != '#' }

  predicate HostText(s: string) { forall c | c in s :: HostChar(c) }

  function HostRun(s: string): (k: nat)
    ensures k <= |s| && HostText(s[..k]) && (k < |s| ==> !HostChar(s[k]))
  {
    if s == "" || !HostChar(s[0]) then 0
    else
      var k := HostRun(s[1..]);
      assert s[..1 + k] == [s[0]] + s[1..][..k];
      1 + k
  }

  /** How many characters of a port, with its colon, `s` begins with. */
  function PortRun(s: string): (k: nat)
    ensures k <= |s| && k != 1
    ensures k > 0 <==> |s| >= 2 && s[0] == ':' && R.IsDigit(s[1])
    ensures k > 0 ==> R.AllDigits(s[1..k]) && (k < |s| ==> !R.IsDigit(s[k]))
  {
    if s == "" || s[0] != ':' || R.DigitRun(s[1..]) == 0 then 0
    else
      var n := R.DigitRun(s[1..]);
      assert s[1..1 + n] == s[1..][..n];
      1 + n
  }

  /** The port, if there is one, and what follows it. */
  function PortAndRest(s: string): (string, string) {
    var k := PortRun(s);
    (if k == 0 then "" else s[1..k], s[k..])
  }

  /** Host, port, and what follows them. */
  function Authority(s: string): (string, string, string) {
    if !("//" <= s) then ("", "", s)
    else
      var h := HostRun(s[2..]);
      var r := PortAndRest(s[2..][h..]);
      (s[2..][..h], r.0, r.1)
  }

  predicate NoBreak(s: string) { '\r' !in s && '\n' !in s }

  /** The path with its query is all up to the fragment, which must be one line. */
  function Split(l: string): (r: Option<Parts>)
    ensures r.Some? ==> R.AllDigits(r.value.port)
  {
    var scheme := SchemeOf(l);
    var a := Authority(if scheme == "" then l else l[|scheme| + 1..]);
    var k := Until(a.2, '#');
    if k < |a.2| && !NoBreak(a.2[k + 1..]) then None else Some(Parts(scheme, a.0, a.1, a.2[..k]))
  }

  // The groups against the text

  function SchemeText(scheme: string): string { if scheme == "" then "" else scheme + ":" }

  function AuthorityText(auth: bool, host: string, port: string): string {
    if !auth then "" else "//" + (host + (if port == "" then "" else ":" + port))
  }

  predicate Fragment(f: string) { f == "" || (f[0] == '#' && NoBreak(f[1..])) }

  /** A text from which the groups can be told. */
  predicate Shapes(auth: bool, p: Parts) {
    && p.scheme in {"", "http", "https"} && HostText(p.host) && R.AllDigits(p.port) && '#' !in p.path
    && (!auth ==> p.host == "" && p.port == "")
  }

  /** None of the groups could have taken more. */
  predicate Greedy(auth: bool, p: Parts) {
    && (!auth ==> !("//" <= p.path))
    && (!auth && p.scheme == "" ==> !("http:" <= p.path) && !("https:" <= p.path))
    && (auth && p.path != "" ==>
          if p.port == "" then !HostChar(p.path[0]) && PortRun(p.path) == 0 else !R.IsDigit(p.path[0]))
  }

  lemma {:induction false} HostUpTo(h: string, rest: string)
    requires HostText(h) && (rest != "" ==> !HostChar(rest[0]))
    ensures HostRun(h + rest) == |h|
  {
    if h == "" {
      assert h + rest == rest;
    } else {
      assert h[0] in h && forall c | c in h[1..] :: c in h;
      assert (h + rest)[1..] == h[1..] + rest;
      HostUpTo(h[1..], rest);
    }
  }

  lemma PortTold(port: string, rest: string)
    requires port != "" && R.AllDigits(port) && (rest != "" ==> !R.IsDigit(rest[0]))
    ensures PortAndRest(":" + (port + rest)) == (port, rest)
  {
    var x := ":" + (port + rest);
    R.DigitRunOf(port, rest);
    assert x[1..] == port + rest;
    assert x[1..1 + |port|] == port && x[1 + |port|..] == rest;
  }

  /** Behind the host. */
  lemma HostTold(host: string, x: string)
    requires HostText(host) && (x != "" ==> !HostChar(x[0]))
    ensures Authority("//" + (host + x)) == (host, PortAndRest(x).0, PortAndRest(x).1)
  {
    var t := host + x;
    assert ("//" + t)[2..] == t;
    HostUpTo(host, x);
    assert t[..|host|] == host && t[|host|..] == x;
  }

  lemma AuthorityTold(host: string, port: string, rest: string)
    requires HostText(host) && R.AllDigits(port)
    requires rest != "" ==>
               if port == "" then !HostChar(rest[0]) && PortRun(rest) == 0 else !R.IsDigit(rest[0])
    ensures Authority(AuthorityText(true, host, port) + rest) == (host, port, rest)
  {
    AuthorityJoins(host, port, rest);
    if port == "" {
      HostTold(host, rest);
      NoPort(rest);
    } else {
      PortTold(port, rest);
      HostTold(host, ":" + (port + rest));
    }
  }

  lemma NoPort(rest: string)
    requires rest != "" ==> PortRun(rest) == 0
    ensures PortAndRest(rest) == ("", rest)
  {
  }

  lemma AuthorityJoins(host: string, port: string, rest: string)
    ensures AuthorityText(true, host, port) + rest
         == "//" + (host + if port == "" then rest else ":" + (port + rest))
  {
    var x := if port == "" then "" else ":" + port;
    assert x + rest == if port == "" then rest else ":" + (port + rest);
    assert "//" + (host + x) + rest == "//" + (host + (x + rest));
  }

  lemma {:induction false} FragmentAt(path: string, f: string)
    requires '#' !in path && (f != "" ==> f[0] == '#')
    ensures Until(path + f, '#') == |path|
  {
    if path == "" {
      assert path + f == f;
    } else {
      assert path[0] in path && forall c | c in path[1..] :: c in path;
      assert (path + f)[1..] == path[1..] + f;
      FragmentAt(path[1..], f);
    }
  }

  lemma SchemeTold(scheme: string, rest: string)
    requires scheme in {"", "http", "https"}
    requires scheme == "" ==> !("http:" <= rest) && !("https:" <= rest)
    ensures var l := SchemeText(scheme) + rest;
            SchemeOf(l) == scheme && l[|SchemeText(scheme)|..] == rest
  {
    var l := SchemeText(scheme) + rest;
    if scheme == "" {
      assert l == rest;
    } else if scheme == "http" {
      assert l[4] == ':' && "https:"[4] == 's';
    } else {
      assert "https:" <= l;
    }
  }

  /** The text with these groups and this fragment. */
  function Spelling(auth: bool, p: Parts, f: string): string {
    SchemeText(p.scheme) + (AuthorityText(auth, p.host, p.port) + (p.path + f))
  }

  lemma BehindScheme(auth: bool, p: Parts, f: string)
    requires Shapes(auth, p) && Greedy(auth, p) && Fragment(f)
    ensures Authority(AuthorityText(auth, p.host, p.port) + (p.path + f)) == (p.host, p.port, p.path + f)
  {
    var rest := p.path + f;
    assert p.path != "" ==> rest[0] == p.path[0];
    if auth {
      if p.path != "" && p.port == "" { PortRunFront(p.path, f); }
      AuthorityTold(p.host, p.port, rest);
    } else {
      assert "" + rest == rest;
      NotInFront("//", p.path, f);
    }
  }

  lemma NoSchemeInFront(auth: bool, p: Parts, f: string)
    requires Shapes(auth, p) && Greedy(auth, p) && Fragment(f) && p.scheme == ""
    ensures var s := AuthorityText(auth, p.host, p.port) + (p.path + f); !("http:" <= s) && !("https:" <= s)
  {
    var s := AuthorityText(auth, p.host, p.port) + (p.path + f);
    if auth {
      assert s != "" && s[0] == '/';
    } else {
      assert s == p.path + f;
      NotInFront("http:", p.path, f);
      NotInFront("https:", p.path, f);
    }
  }

  lemma SplitFrom(l: string, p: Parts, s: string, rest: string)
    requires SchemeOf(l) == p.scheme && s == (if p.scheme == "" then l else l[|p.scheme| + 1..])
    requires Authority(s) == (p.host, p.port, rest)
    requires Until(rest, '#') == |p.path| && rest[..|p.path|] == p.path
    requires |p.path| < |rest| ==> NoBreak(rest[|p.path| + 1..])
    ensures Split(l) == Some(p)
  {
    hide SchemeOf, Authority, Until;
  }

  /** A Location is taken apart into the groups from which it was put together, in the greedy reading. */
  lemma SplitBack(auth: bool, p: Parts, f: string)
    requires Shapes(auth, p) && Greedy(auth, p) && Fragment(f)
    ensures Split(Spelling(auth, p, f)) == Some(p)
  {
    hide SchemeOf, Authority, Until, Split;
    var s, rest := AuthorityText(auth, p.host, p.port) + (p.path + f), p.path + f;
    if p.scheme == "" { NoSchemeInFront(auth, p, f); }
    SchemeTold(p.scheme, s);
    BehindScheme(auth, p, f);
    FragmentAt(p.path, f);
    PathAndFragment(p.path, f);
    SplitFrom(Spelling(auth, p, f), p, s, rest);
  }

  lemma PathAndFragment(path: string, f: string)
    ensures (path + f)[..|path|] == path && (f != "" ==> (path + f)[|path| + 1..] == f[1..])
  {
  }

  // And whatever is taken apart is put together so

  /** A text with the port, if there is one, in front. */
  function PortText(port: string, rest: string): string { if port == "" then rest else ":" + (port + rest) }

  lemma PortSeen(s: string)
    ensures var r := PortAndRest(s);
      && R.AllDigits(r.0) && s == PortText(r.0, r.1)
      && (r.0 == "" ==> PortRun(s) == 0)
      && (r.0 != "" && r.1 != "" ==> !R.IsDigit(r.1[0]))
  {
    var k := PortRun(s);
    if k > 0 {
      assert s[1..] == s[1..k] + s[k..] && s == ":" + s[1..];
    }
  }

  lemma HostSeen(t: string)
    ensures var a := Authority("//" + t);
      && "//" + t == AuthorityText(true, a.0, a.1) + a.2 && HostText(a.0) && R.AllDigits(a.1)
      && (a.2 != "" ==>
            if a.1 == "" then !HostChar(a.2[0]) && PortRun(a.2) == 0 else !R.IsDigit(a.2[0]))
  {
    hide HostRun, PortRun;
    var h := HostRun(t);
    var x, r := t[h..], PortAndRest(t[h..]);
    assert ("//" + t)[2..] == t;
    PortSeen(x);
    AuthorityJoins(t[..h], r.0, r.1);
    assert t == t[..h] + x;
  }

  lemma AuthoritySeen(s: string) returns (auth: bool)
    ensures var a := Authority(s);
      && s == AuthorityText(auth, a.0, a.1) + a.2 && HostText(a.0) && R.AllDigits(a.1)
      && (!auth ==> a.0 == "" && a.1 == "" && !("//" <= a.2))
      && (auth && a.2 != "" ==>
            if a.1 == "" then !HostChar(a.2[0]) && PortRun(a.2) == 0 else !R.IsDigit(a.2[0]))
  {
    auth := "//" <= s;
    if auth {
      assert s == "//" + s[2..];
      HostSeen(s[2..]);
    } else {
      assert "" + s == s;
    }
  }

  lemma SchemeSeen(l: string)
    ensures var scheme := SchemeOf(l);
      var s := if scheme == "" then l else l[|scheme| + 1..];
      l == SchemeText(scheme) + s && (scheme == "" ==> !("http:" <= s) && !("https:" <= s))
  {
    if SchemeOf(l) == "" { assert "" + l == l; }
  }

  lemma FragmentSeen(rest: string) returns (f: string)
    requires var k := Until(rest, '#'); k < |rest| ==> NoBreak(rest[k + 1..])
    ensures var k := Until(rest, '#'); rest == rest[..k] + f && Fragment(f) && '#' !in rest[..k]
  {
    var k := Until(rest, '#');
    f := rest[k..];
    UntilFree(rest, '#');
    assert f != "" ==> f[1..] == rest[k + 1..];
  }

  lemma PrefixKept(x: string, path: string, rest: string)
    requires path <= rest && x <= path
    ensures x <= rest
  {
    assert x == path[..|x|] == rest[..|x|];
  }

  /** The pieces of a text that is taken apart. */
  lemma Pieces(l: string) returns (s: string, rest: string)
    requires Split(l).Some?
    ensures var p := Split(l).value;
      && p.scheme == SchemeOf(l) && s == (if p.scheme == "" then l else l[|p.scheme| + 1..])
      && Authority(s) == (p.host, p.port, rest) && p.path == rest[..Until(rest, '#')]
    ensures var k := Until(rest, '#'); k < |rest| ==> NoBreak(rest[k + 1..])
  {
    var scheme := SchemeOf(l);
    s := if scheme == "" then l else l[|scheme| + 1..];
    rest := Authority(s).2;
  }

  lemma GroupsSeen(l: string) returns (auth: bool, f: string)
    requires Split(l).Some?
    ensures Shapes(auth, Split(l).value) && Greedy(auth, Split(l).value) && Fragment(f)
    ensures l == Spelling(auth, Split(l).value, f)
  {
    var p := Split(l).value;
    var s, rest := Pieces(l);
    SchemeSeen(l);
    auth := AuthoritySeen(s);
    f := FragmentSeen(rest);
    Grouped(auth, p, f, s, rest);
  }

  lemma Grouped(auth: bool, p: Parts, f: string, s: string, rest: string)
    requires p.scheme in {"", "http", "https"} && HostText(p.host) && R.AllDigits(p.port) && '#' !in p.path
    requires s == AuthorityText(auth, p.host, p.port) + rest && rest == p.path + f
    requires p.scheme == "" ==> !("http:" <= s) && !("https:" <= s)
    requires !auth ==> p.host == "" && p.port == "" && !("//" <= rest)
    requires auth && rest != "" ==>
               if p.port == "" then !HostChar(rest[0]) && PortRun(rest) == 0 else !R.IsDigit(rest[0])
    ensures Shapes(auth, p) && Greedy(auth, p) && SchemeText(p.scheme) + s == Spelling(auth, p, f)
  {
    FrontGreedy(auth, p, s, rest);
  }

  /** The groups could not have taken more, so much the less when the fragment is cut off. */
  lemma FrontGreedy(auth: bool, p: Parts, s: string, rest: string)
    requires p.path <= rest && s == AuthorityText(auth, p.host, p.port) + rest
    requires p.scheme == "" ==> !("http:" <= s) && !("https:" <= s)
    requires !auth ==> !("//" <= rest)
    requires auth && rest != "" ==>
               if p.port == "" then !HostChar(rest[0]) && PortRun(rest) == 0 else !R.IsDigit(rest[0])
    ensures Greedy(auth, p)
  {
    if auth {
      assert p.path != "" ==> rest[0] == p.path[0];
      assert |p.path| >= 2 ==> rest[1] == p.path[1];
    } else {
      assert "" + rest == rest && s == rest;
      if "//" <= p.path { PrefixKept("//", p.path, rest); }
      if "http:" <= p.path { PrefixKept("http:", p.path, rest); }
      if "https:" <= p.path { PrefixKept("https:", p.path, rest); }
    }
  }

  /** Exactly the texts of this form are taken apart, into exactly these groups. */
  lemma SplitExactly(l: string, p: Parts)
    ensures Split(l) == Some(p) <==>
      exists auth, f :: Shapes(auth, p) && Greedy(auth, p) && Fragment(f) && l == Spelling(auth, p, f)
  {
    if Split(l) == Some(p) {
      var auth, f := GroupsSeen(l);
    }
    if auth, f :| Shapes(auth, p) && Greedy(auth, p) && Fragment(f) && l == Spelling(auth, p, f) {
      SplitBack(auth, p, f);
    }
  }

  /** What a path does not begin with, it does not begin with when a fragment follows. */
  lemma NotInFront(x: string, path: string, f: string)
    requires '#' !in x && (f != "" ==> f[0] == '#') && !(x <= path)
    ensures !(x <= path + f)
  {
    if |x| <= |path| {
      assert (path + f)[..|x|] == path[..|x|];
    } else if f != "" {
      assert x[|path|] in x && (path + f)[|path|] == '#';
    }
  }

  lemma PortRunFront(path: string, f: string)
    requires (f != "" ==> f[0] == '#') && PortRun(path) == 0 && path != ""
    ensures PortRun(path + f) == 0
  {
    if path[0] == ':' {
      assert (path + f)[1..] == path[1..] + f;
    }
  }

  // Where it leads

  const INT_MAX := 0x7FFF_FFFF

  /** Place and path, if the header can be used. */
  function Target(here: Place, header: string): Option<(Place, string)> {
    var l := Decode(header, true);
    if l == "" then None
    else
      match Split(l)
      case None => None
      case Some(p) =>
        var port := if p.port != "" then R.Number(p.port)
                    else if p.scheme == "" then here.port
                    else if p.scheme == "https" then 443 else 80;
        if port > INT_MAX then None
        else
          Some((Place(if p.scheme == "" then here.https else p.scheme == "https",
                      if p.host == "" then here.host else p.host, port),
                if p.path == "" then "/" else p.path))
  }

  /** A plain absolute path stays at the same place. */
  lemma PathTarget(here: Place, path: string)
    requires here.port <= INT_MAX && "/" <= path && !("//" <= path) && '#' !in path
    requires NoEscape(path) && '+' !in path
    ensures Target(here, path) == Some((here, path))
  {
    var p := Parts("", "", "", path);
    DecodesToItself(path, true);
    assert "" + ("" + (path + "")) == path;
    assert path[0] == '/';
    SplitBack(false, p, "");
  }

  lemma TargetOf(here: Place, l: string, p: Parts)
    requires l != "" && Decode(l, true) == l && Split(l) == Some(p)
    ensures var port := if p.port != "" then R.Number(p.port)
                        else if p.scheme == "" then here.port else if p.scheme == "https" then 443 else 80;
            port <= INT_MAX ==>
              Target(here, l) == Some((Place(if p.scheme == "" then here.https else p.scheme == "https",
                                             if p.host == "" then here.host else p.host, port),
                                       if p.path == "" then "/" else p.path))
  {
    hide Decode, Split;
  }

  /** A plain URL leads to its host, on its port or the usual one of its scheme. */
  lemma UrlTarget(here: Place, p: Parts, l: string)
    requires p.scheme in {"http", "https"} && p.host != "" && HostText(p.host) && R.AllDigits(p.port)
    requires (p.path != "" ==> p.path[0] == '/') && '#' !in p.path && R.Number(p.port) <= INT_MAX
    requires l == p.scheme + ":" + ("//" + (p.host + (if p.port == "" then "" else ":" + p.port)) + (p.path + ""))
    requires NoEscape(l) && '+' !in l
    ensures Target(here, l)
         == Some((Place(p.scheme == "https", p.host,
                        if p.port != "" then R.Number(p.port) else if p.scheme == "https" then 443 else 80),
                  if p.path == "" then "/" else p.path))
  {
    DecodesToItself(l, true);
    SplitBack(true, p, "");
    TargetOf(here, l, p);
  }

  /** `redirect` as far as it reads the header. */
  method ReadLocation(here: Place, header: string) returns (next: Option<(Place, string)>)
    ensures next == Target(here, header)
  {
    var location := DecodeUrl(header, true);
    if location == "" { return None; }
    var m := Split(location);
    if m == None { return None; }
    var nextScheme, nextHost, nextPath, nextPort := m.value.scheme, m.value.host, m.value.path, here.port;
    if m.value.port != "" {
      nextPort := R.Number(m.value.port);
    } else if nextScheme != "" {
      nextPort := if nextScheme == "https" then 443 else 80;
    }
    if nextPort > INT_MAX { return None; }
    var nextHttps := if nextScheme == "" then here.https else nextScheme == "https";
    if nextHost == "" { nextHost := here.host; }
    if nextPath == "" { nextPath := "/"; }
    return Some((Place(nextHttps, nextHost, nextPort), nextPath));
  }
}
