// The client's `send`, `handle_request` and `redirect` in `comm/httplib.h`: how often one call can bother
// servers that answer with redirects and authentication challenges.
module Redirect {
  import opened Text
  import opened Wrappers
  import opened Location

  const MAX_AUTHORIZATIONS := 5

  /** The location is the value of the header, empty when there is none. */
  datatype Response = Response(status: int, location: string, challenge: bool)

  datatype Request = Request(path: string, verb: string, body: string, redirects: nat, authorizations: nat)

  /** What becomes of one attempt: no connection, a connection that breaks, or a response. */
  datatype Exchange = Refused | Broken | Answered(response: Response)

  datatype Settings = Settings(follow: bool, tls: bool, digest: bool, proxyDigest: bool)

  /** A request, the place it was sent to, and the number of the exchange. */
  datatype Sent = Sent(at: nat, place: Place, request: Request)

  // Specification

  /** The state after a call: the next attempt, the requests made, and the response if it succeeded. */
  datatype Outcome = Outcome(next: nat, log: seq<Sent>, response: Option<Response>)

  function RedirectedRequest(req: Request, status: int, path: string): Request
    requires req.redirects > 0
  {
    var r := req.(path := path, redirects := req.redirects - 1);
    if status == 303 && req.verb != "GET" && req.verb != "HEAD" then r.(verb := "GET", body := "")
    else r
  }

  /** A client at `here` can follow: without TLS it cannot go to another place over HTTPS. */
  predicate MayFollow(s: Settings, here: Place, req: Request, res: Response) {
    var t := Target(here, res.location);
    req.redirects > 0 && t.Some? && (t.value.0 == here || !t.value.0.https || s.tls)
  }

  predicate IsRedirect(s: Settings, res: Response) { s.follow && 300 < res.status < 400 }

  predicate Challenged(s: Settings, req: Request, res: Response) {
    && s.tls && res.challenge && req.authorizations < MAX_AUTHORIZATIONS
    && ((res.status == 401 && s.digest) || (res.status == 407 && s.proxyDigest))
  }

  function Authorized(req: Request): Request {
    req.(authorizations := req.authorizations + 1)
  }

  /** Authentication retries left. */
  function Retries(req: Request): nat {
    if req.authorizations < MAX_AUTHORIZATIONS then MAX_AUTHORIZATIONS - req.authorizations else 0
  }

  function Send(s: Settings, net: nat -> Exchange, n: nat, here: Place, req: Request): Outcome
    decreases req.redirects + Retries(req), 1
  {
    if net(n).Refused? then Outcome(n + 1, [], None)
    else if req.path == "" then Outcome(n, [], None)
    else if net(n).Broken? then Outcome(n + 1, [Sent(n, here, req)], None)
    else Handle(s, net, n, here, req, net(n).response)
  }

  /** `handle_request`, once exchange `n` has brought the response to `req`. */
  function Handle(s: Settings, net: nat -> Exchange, n: nat, here: Place, req: Request, res: Response): Outcome
    decreases req.redirects + Retries(req), 0
  {
    var first := if IsRedirect(s, res) then Follow(s, net, n + 1, here, req, res) else Outcome(n + 1, [], Some(res));
    var shown := if first.response.Some? then first.response.value else res;
    if Challenged(s, req, shown) then
      var again := Send(s, net, first.next, here, Authorized(req));
      Outcome(again.next, [Sent(n, here, req)] + first.log + again.log, again.response)
    else Outcome(first.next, [Sent(n, here, req)] + first.log, first.response)
  }

  function Follow(s: Settings, net: nat -> Exchange, n: nat, here: Place, req: Request, res: Response): Outcome
    decreases req.redirects + Retries(req), 0, 0
  {
    if MayFollow(s, here, req, res) then
      var (there, path) := Target(here, res.location).value;
      Send(s, net, n, there, RedirectedRequest(req, res.status, path))
    else Outcome(n, [], None)
  }

  /** The first half of `handle_request`. */
  function AfterRedirect(s: Settings, net: nat -> Exchange, n: nat, here: Place, req: Request, res: Response): Outcome {
    if IsRedirect(s, res) then Follow(s, net, n, here, req, res) else Outcome(n, [], Some(res))
  }

  // The number of requests

  function Most(r: nat, k: nat): nat {
    1 + (if r > 0 then Most(r - 1, k) else 0) + (if k > 0 then Most(r, k - 1) else 0)
  }

  /** Binomial coefficients. */
  function Choose(n: nat, m: nat): nat {
    if m == 0 then 1 else if n == 0 then 0 else Choose(n - 1, m - 1) + Choose(n - 1, m)
  }

  lemma {:induction false} ChooseAll(n: nat, m: nat)
    requires m >= n
    ensures Choose(n, m) == if m == n then 1 else 0
  {
    if n > 0 {
      ChooseAll(n - 1, m - 1);
      ChooseAll(n - 1, m);
    }
  }

  lemma {:induction false} MostIsBinomial(r: nat, k: nat)
    ensures Most(r, k) == Choose(r + k + 2, r + 1) - 1
  {
    ChooseAll(r + 1, r + 1);
    if r > 0 { MostIsBinomial(r - 1, k); }
    if k > 0 { MostIsBinomial(r, k - 1); }
    assert Choose(r + k + 2, r + 1) == Choose(r + k + 1, r) + Choose(r + k + 1, r + 1);
  }

  lemma {:induction false} MostAlone(n: nat)
    ensures Most(n, 0) == n + 1 && Most(0, n) == n + 1
  {
    if n > 0 { MostAlone(n - 1); }
  }

  /** Redirects that can be followed, and challenges that can be met, under the given settings. */
  function Redirects(s: Settings, req: Request): nat { if s.follow then req.redirects else 0 }

  function Challenges(s: Settings, req: Request): nat {
    if s.tls && (s.digest || s.proxyDigest) then Retries(req) else 0
  }

  /** Whatever the servers answer, no more requests than this are made. */
  lemma {:induction false} RequestBound(s: Settings, net: nat -> Exchange, n: nat, here: Place, req: Request)
    ensures |Send(s, net, n, here, req).log| <= Most(Redirects(s, req), Challenges(s, req))
    decreases req.redirects + Retries(req)
  {
    hide Target;
    if net(n).Answered? && req.path != "" {
      var res := net(n).response;
      if IsRedirect(s, res) && MayFollow(s, here, req, res) {
        var (there, path) := Target(here, res.location).value;
        RequestBound(s, net, n + 1, there, RedirectedRequest(req, res.status, path));
      }
      var first := AfterRedirect(s, net, n + 1, here, req, res);
      if req.authorizations < MAX_AUTHORIZATIONS {
        RequestBound(s, net, first.next, here, Authorized(req));
      }
    }
  }

  lemma RequestBinomialBound(s: Settings, net: nat -> Exchange, n: nat, here: Place, req: Request)
    ensures var r, k := req.redirects, Retries(req);
            |Send(s, net, n, here, req).log| <= Choose(r + k + 2, r + 1) - 1
    ensures !s.tls || !(s.digest || s.proxyDigest) ==> |Send(s, net, n, here, req).log| <= req.redirects + 1
    ensures !s.follow ==> |Send(s, net, n, here, req).log| <= Retries(req) + 1
  {
    var r, k := req.redirects, Retries(req);
    RequestBound(s, net, n, here, req);
    MostIsBinomial(r, k);
    MostGrows(Redirects(s, req), Challenges(s, req), r, k);
    MostAlone(Redirects(s, req));
    MostAlone(Challenges(s, req));
  }

  lemma {:induction false} MostGrows(r: nat, k: nat, r': nat, k': nat)
    requires r <= r' && k <= k'
    ensures Most(r, k) <= Most(r', k')
  {
    if r > 0 { MostGrows(r - 1, k, r' - 1, k'); }
    if k > 0 { MostGrows(r, k - 1, r', k' - 1); }
  }

  // The bound is reached

  const CHALLENGE := Response(401, "", true)

  const AWAY := Response(302, "/", false)

  /** The answers of the most tiresome server: it redirects as long as that works and then demands
      authentication. */
  function Tiresome(r: nat, k: nat): seq<Response> {
    [if r > 0 then AWAY else CHALLENGE]
    + (if r > 0 then Tiresome(r - 1, k) else [])
    + (if k > 0 then Tiresome(r, k - 1) else [])
  }

  ghost predicate Answers(net: nat -> Exchange, n: nat, script: seq<Response>) {
    forall i: nat | i < |script| :: net(n + i) == Answered(script[i])
  }

  lemma AnswersSplit(net: nat -> Exchange, n: nat, a: Response, b: seq<Response>, c: seq<Response>)
    requires Answers(net, n, [a] + b + c)
    ensures net(n) == Answered(a) && Answers(net, n + 1, b) && Answers(net, n + 1 + |b|, c)
  {
    var all := [a] + b + c;
    assert net(n + 0) == Answered(all[0]);
    forall i: nat | i < |b|
      ensures net(n + 1 + i) == Answered(b[i])
    {
      assert net(n + (1 + i)) == Answered(all[1 + i]);
    }
    forall i: nat | i < |c|
      ensures net(n + 1 + |b| + i) == Answered(c[i])
    {
      assert net(n + (1 + |b| + i)) == Answered(all[1 + |b| + i]);
    }
  }

  lemma {:induction false} TiresomeLength(r: nat, k: nat)
    ensures |Tiresome(r, k)| == Most(r, k)
  {
    if r > 0 { TiresomeLength(r - 1, k); }
    if k > 0 { TiresomeLength(r, k - 1); }
  }

  lemma TiresomeAnswers(net: nat -> Exchange, n: nat, r: nat, k: nat)
    requires Answers(net, n, Tiresome(r, k))
    ensures net(n) == Answered(if r > 0 then AWAY else CHALLENGE)
    ensures r > 0 ==> Answers(net, n + 1, Tiresome(r - 1, k))
    ensures k > 0 ==> Answers(net, n + 1 + if r > 0 then Most(r - 1, k) else 0, Tiresome(r, k - 1))
  {
    if r > 0 { TiresomeLength(r - 1, k); }
    AnswersSplit(net, n, if r > 0 then AWAY else CHALLENGE, if r > 0 then Tiresome(r - 1, k) else [],
      if k > 0 then Tiresome(r, k - 1) else []);
  }

  /** What the most tiresome server gets. */
  ghost predicate WornOut(n: nat, r: nat, k: nat, out: Outcome) {
    |out.log| == Most(r, k) && out.next == n + Most(r, k) && out.response == Some(CHALLENGE)
  }

  /** One round: the redirected request `first`, if any, and then the authorized one, if any. */
  lemma TiresomeRound(s: Settings, net: nat -> Exchange, n: nat, here: Place, req: Request)
    requires s.follow && s.tls && s.digest && req.path != "" && req.authorizations <= MAX_AUTHORIZATIONS
    requires here.port <= INT_MAX
    requires net(n) == Answered(if req.redirects > 0 then AWAY else CHALLENGE)
    requires req.redirects > 0 ==>
               WornOut(n + 1, req.redirects - 1, Retries(req),
                       Send(s, net, n + 1, here, RedirectedRequest(req, 302, "/")))
    requires Retries(req) > 0 ==>
               var m := n + 1 + if req.redirects > 0 then Most(req.redirects - 1, Retries(req)) else 0;
               WornOut(m, req.redirects, Retries(req) - 1, Send(s, net, m, here, Authorized(req)))
    ensures WornOut(n, req.redirects, Retries(req), Send(s, net, n, here, req))
  {
    var res := net(n).response;
    PathTarget(here, "/");
    var first := AfterRedirect(s, net, n + 1, here, req, res);
    assert first.response == Some(CHALLENGE);
    assert Challenged(s, req, CHALLENGE) <==> Retries(req) > 0;
    assert Send(s, net, n, here, req) == Handle(s, net, n, here, req, res);
  }

  /** Some servers make the client send exactly as many requests as the bound allows. */
  lemma {:induction false} BoundReached(s: Settings, net: nat -> Exchange, n: nat, here: Place, req: Request)
    requires s.follow && s.tls && s.digest && req.path != "" && req.authorizations <= MAX_AUTHORIZATIONS
    requires here.port <= INT_MAX
    requires Answers(net, n, Tiresome(req.redirects, Retries(req)))
    ensures WornOut(n, req.redirects, Retries(req), Send(s, net, n, here, req))
    decreases req.redirects + Retries(req)
  {
    var r, k := req.redirects, Retries(req);
    TiresomeAnswers(net, n, r, k);
    if r > 0 {
      BoundReached(s, net, n + 1, here, RedirectedRequest(req, 302, "/"));
    }
    if k > 0 {
      BoundReached(s, net, n + 1 + if r > 0 then Most(r - 1, k) else 0, here, Authorized(req));
    }
    TiresomeRound(s, net, n, here, req);
  }

  // What is sent

  /** A later request spends from the same budgets, and is either the original one or a bodyless GET. */
  predicate Follows(req: Request, r: Request) {
    && r.path != "" && r.redirects <= req.redirects && Retries(r) <= Retries(req)
    && ((r.verb == req.verb && r.body == req.body) || (r.verb == "GET" && r.body == ""))
  }

  lemma TargetHasPath(here: Place, location: string)
    ensures var t := Target(here, location); t.Some? ==> t.value.1 != ""
  {
  }

  lemma {:induction false} EveryRequestFollows(s: Settings, net: nat -> Exchange, n: nat, here: Place, req: Request,
                                               x: Sent)
    requires x in Send(s, net, n, here, req).log
    ensures Follows(req, x.request)
    decreases req.redirects + Retries(req)
  {
    if net(n).Answered? && x != Sent(n, here, req) {
      var res := net(n).response;
      var first := AfterRedirect(s, net, n + 1, here, req, res);
      if x in first.log {
        var (there, path) := Target(here, res.location).value;
        TargetHasPath(here, res.location);
        EveryRequestFollows(s, net, n + 1, there, RedirectedRequest(req, res.status, path), x);
      } else {
        EveryRequestFollows(s, net, first.next, here, Authorized(req), x);
      }
    }
  }

  // Where it goes

  /** Some earlier request of the log was answered with a Location that leads there. */
  ghost predicate Told(net: nat -> Exchange, log: seq<Sent>, x: Sent) {
    exists y :: y in log && LedTo(net, y, x)
  }

  predicate LedTo(net: nat -> Exchange, y: Sent, x: Sent) {
    && y.at < x.at && net(y.at).Answered?
    && Target(y.place, net(y.at).response.location) == Some((x.place, x.request.path))
  }

  /** Every request goes to the place and the path the caller gave, or to exactly those of a Location with which
      some server had answered an earlier request. */
  lemma {:induction false} RequestOrigin(s: Settings, net: nat -> Exchange, n: nat, here: Place, req: Request, x: Sent)
    requires x in Send(s, net, n, here, req).log
    ensures n <= x.at < Send(s, net, n, here, req).next
    ensures (x.place == here && x.request.path == req.path) || Told(net, Send(s, net, n, here, req).log, x)
    decreases req.redirects + Retries(req)
  {
    hide Target;
    NeverBack(s, net, n, here, req);
    if net(n).Answered? && x != Sent(n, here, req) {
      var res := net(n).response;
      var first := AfterRedirect(s, net, n + 1, here, req, res);
      if x in first.log {
        OriginOfRedirected(s, net, n, here, req, x);
      } else {
        AfterBehind(s, net, n + 1, here, req, res);
        RequestOrigin(s, net, first.next, here, Authorized(req), x);
        AgainLogged(s, net, n, here, req);
        ToldInMore(net, Send(s, net, first.next, here, Authorized(req)).log, Send(s, net, n, here, req).log, x);
      }
    }
  }

  lemma OriginOfRedirected(s: Settings, net: nat -> Exchange, n: nat, here: Place, req: Request, x: Sent)
    requires net(n).Answered? && req.path != ""
    requires x in AfterRedirect(s, net, n + 1, here, req, net(n).response).log
    ensures n <= x.at < Send(s, net, n, here, req).next
    ensures Told(net, Send(s, net, n, here, req).log, x)
    decreases req.redirects + Retries(req), 0
  {
    hide Target;
    var res := net(n).response;
    var (there, path) := Target(here, res.location).value;
    var moved := RedirectedRequest(req, res.status, path);
    RequestOrigin(s, net, n + 1, there, moved, x);
    AgainBehind(s, net, n, here, req);
    var log := Send(s, net, n, here, req).log;
    FirstLogged(s, net, n, here, req);
    if x.place == there && x.request.path == path {
      assert LedTo(net, Sent(n, here, req), x);
    } else {
      ToldInMore(net, Send(s, net, n + 1, there, moved).log, log, x);
    }
  }

  lemma ToldInMore(net: nat -> Exchange, log: seq<Sent>, more: seq<Sent>, x: Sent)
    requires forall y | y in log :: y in more
    ensures Told(net, log, x) ==> Told(net, more, x)
  {
  }

  lemma FirstLogged(s: Settings, net: nat -> Exchange, n: nat, here: Place, req: Request)
    requires net(n).Answered? && req.path != ""
    ensures var log, first := Send(s, net, n, here, req).log, AfterRedirect(s, net, n + 1, here, req, net(n).response);
      Sent(n, here, req) in log && forall y | y in first.log :: y in log
  {
    hide Target;
    assert Send(s, net, n, here, req) == Handle(s, net, n, here, req, net(n).response);
  }

  lemma AgainLogged(s: Settings, net: nat -> Exchange, n: nat, here: Place, req: Request)
    requires net(n).Answered? && req.path != "" && req.authorizations < MAX_AUTHORIZATIONS
    ensures var first := AfterRedirect(s, net, n + 1, here, req, net(n).response);
      var shown := if first.response.Some? then first.response.value else net(n).response;
      Challenged(s, req, shown) ==>
        forall y | y in Send(s, net, first.next, here, Authorized(req)).log :: y in Send(s, net, n, here, req).log
  {
    hide Target;
    assert Send(s, net, n, here, req) == Handle(s, net, n, here, req, net(n).response);
  }

  lemma NeverBack(s: Settings, net: nat -> Exchange, n: nat, here: Place, req: Request)
    ensures Send(s, net, n, here, req).next >= n
    ensures Send(s, net, n, here, req).log != [] ==> Send(s, net, n, here, req).next > n
    decreases req.redirects + Retries(req), 1
  {
    hide Target;
    if net(n).Answered? && req.path != "" {
      AgainBehind(s, net, n, here, req);
      AfterBehind(s, net, n + 1, here, req, net(n).response);
    }
  }

  lemma AfterBehind(s: Settings, net: nat -> Exchange, n: nat, here: Place, req: Request, res: Response)
    ensures AfterRedirect(s, net, n, here, req, res).next >= n
    decreases req.redirects + Retries(req), 0
  {
    hide Target;
    if IsRedirect(s, res) && MayFollow(s, here, req, res) {
      var (there, path) := Target(here, res.location).value;
      NeverBack(s, net, n, there, RedirectedRequest(req, res.status, path));
    }
  }

  lemma AgainBehind(s: Settings, net: nat -> Exchange, n: nat, here: Place, req: Request)
    requires net(n).Answered? && req.path != ""
    ensures Send(s, net, n, here, req).next >= AfterRedirect(s, net, n + 1, here, req, net(n).response).next
    decreases req.redirects + Retries(req), 0
  {
    hide Target;
    var first := AfterRedirect(s, net, n + 1, here, req, net(n).response);
    if req.authorizations < MAX_AUTHORIZATIONS {
      NeverBack(s, net, first.next, here, Authorized(req));
    }
  }

  // What becomes of the first response

  lemma FirstSent(s: Settings, net: nat -> Exchange, n: nat, here: Place, req: Request)
    requires !net(n).Refused? && req.path != ""
    ensures var log := Send(s, net, n, here, req).log; |log| >= 1 && log[0] == Sent(n, here, req)
  {
  }

  /** A redirect that may be followed leads to exactly the place and the path of its Location, with one redirect
      less, and as a bodyless GET exactly for a 303 to another verb than GET or HEAD. */
  lemma RedirectGoesThere(s: Settings, net: nat -> Exchange, n: nat, here: Place, req: Request, there: Place,
                          path: string)
    requires req.path != "" && net(n).Answered? && !net(n + 1).Refused?
    requires var res := net(n).response;
             && s.follow && 300 < res.status < 400 && req.redirects > 0
             && Target(here, res.location) == Some((there, path)) && (there == here || !there.https || s.tls)
    ensures var res, log := net(n).response, Send(s, net, n, here, req).log;
            && |log| >= 2 && log[0] == Sent(n, here, req) && log[1].at == n + 1
            && log[1].place == there && log[1].request.path == path
            && log[1].request.redirects == req.redirects - 1
            && log[1].request.authorizations == req.authorizations
            && (if res.status == 303 && req.verb != "GET" && req.verb != "HEAD" then
                  log[1].request.verb == "GET" && log[1].request.body == ""
                else
                  log[1].request.verb == req.verb && log[1].request.body == req.body)
  {
    hide Target;
    var res := net(n).response;
    TargetHasPath(here, res.location);
    var moved := RedirectedRequest(req, res.status, path);
    FirstSent(s, net, n + 1, there, moved);
    assert Follow(s, net, n + 1, here, req, res) == Send(s, net, n + 1, there, moved);
    assert Send(s, net, n, here, req) == Handle(s, net, n, here, req, res);
  }

  /** In particular a plain absolute path is requested from the same server. */
  lemma PathRedirect(s: Settings, net: nat -> Exchange, n: nat, here: Place, req: Request)
    requires req.path != "" && net(n).Answered? && !net(n + 1).Refused? && here.port <= INT_MAX
    requires var res := net(n).response;
             && s.follow && 300 < res.status < 400 && req.redirects > 0
             && "/" <= res.location && !("//" <= res.location) && '#' !in res.location
             && '%' !in res.location && '+' !in res.location
    ensures var log := Send(s, net, n, here, req).log;
            |log| >= 2 && log[1].place == here && log[1].request.path == net(n).response.location
  {
    var l := net(n).response.location;
    assert forall i | 0 <= i < |l| :: l[i] in l;
    PathTarget(here, l);
    RedirectGoesThere(s, net, n, here, req, here, l);
  }

  /** Any other redirect ends the call without a response. */
  lemma RedirectRefused(s: Settings, net: nat -> Exchange, n: nat, here: Place, req: Request)
    requires req.path != "" && net(n).Answered?
    requires var res := net(n).response;
             && s.follow && 300 < res.status < 400
             && (req.redirects == 0
                 || match Target(here, res.location)
                    case None => true
                    case Some(t) => t.0 != here && t.0.https && !s.tls)
    ensures Send(s, net, n, here, req) == Outcome(n + 1, [Sent(n, here, req)], None)
  {
    hide Target;
    var res := net(n).response;
    assert !MayFollow(s, here, req, res) && !Challenged(s, req, res);
    assert Follow(s, net, n + 1, here, req, res) == Outcome(n + 1, [], None);
    assert [Sent(n, here, req)] + [] == [Sent(n, here, req)];
    assert Send(s, net, n, here, req) == Handle(s, net, n, here, req, res);
  }

  /** A challenge that can be met makes the client repeat the request, counting the attempt; the repeated
      request decides the call. */
  lemma ChallengeMet(s: Settings, net: nat -> Exchange, n: nat, here: Place, req: Request)
    requires req.path != "" && net(n).Answered? && s.tls && req.authorizations < 5
    requires var res := net(n).response;
             res.challenge && ((res.status == 401 && s.digest) || (res.status == 407 && s.proxyDigest))
    ensures var again := Send(s, net, n + 1, here, req.(authorizations := req.authorizations + 1));
            Send(s, net, n, here, req) == Outcome(again.next, [Sent(n, here, req)] + again.log, again.response)
    ensures !net(n + 1).Refused? ==>
              var log := Send(s, net, n, here, req).log;
              && |log| >= 2 && log[0] == Sent(n, here, req)
              && log[1] == Sent(n + 1, here, req.(authorizations := req.authorizations + 1))
  {
    hide Target;
    var again := Authorized(req);
    assert Send(s, net, n, here, req) == Handle(s, net, n, here, req, net(n).response);
    assert [Sent(n, here, req)] + [] == [Sent(n, here, req)];
    if !net(n + 1).Refused? {
      FirstSent(s, net, n + 1, here, again);
    }
  }

  /** Every other response is the result. */
  lemma AnswerTaken(s: Settings, net: nat -> Exchange, n: nat, here: Place, req: Request)
    requires req.path != "" && net(n).Answered?
    requires var res := net(n).response;
             && !(s.follow && 300 < res.status < 400)
             && !(s.tls && req.authorizations < 5 && res.challenge
                  && ((res.status == 401 && s.digest) || (res.status == 407 && s.proxyDigest)))
    ensures Send(s, net, n, here, req) == Outcome(n + 1, [Sent(n, here, req)], Some(net(n).response))
  {
    hide Target;
    assert Send(s, net, n, here, req) == Handle(s, net, n, here, req, net(n).response);
  }

  // The recursion

  /** The servers' side of the connection. */
  class Network {
    const net: nat -> Exchange
    var next: nat
    var log: seq<Sent>

    constructor (net: nat -> Exchange)
      ensures this.net == net && next == 0 && log == []
    {
      this.net, next, log := net, 0, [];
    }

    /** `create_and_connect_socket`, unless a connection is still open. */
    method Connect() returns (ok: bool)
      modifies this
      ensures log == old(log) && ok == !net(old(next)).Refused?
      ensures next == old(next) + if ok then 0 else 1
    {
      ok := !net(next).Refused?;
      if !ok { next := next + 1; }
    }

    /** `process_request`. */
    method Process(here: Place, req: Request) returns (res: Option<Response>)
      modifies this
      ensures log == old(log) + [Sent(old(next), here, req)] && next == old(next) + 1
      ensures res == if net(old(next)).Answered? then Some(net(old(next)).response) else None
    {
      log := log + [Sent(next, here, req)];
      res := if net(next).Answered? then Some(net(next).response) else None;
      next := next + 1;
    }
  }

  class ClientImpl {
    const settings: Settings
    const here: Place

    constructor (settings: Settings, here: Place)
      ensures this.settings == settings && this.here == here
    {
      this.settings, this.here := settings, here;
    }

    ghost predicate Made(wire: Network, log: seq<Sent>, res: Option<Response>, out: Outcome)
      reads wire
    {
      wire.next == out.next && wire.log == log + out.log && res == out.response
    }

    method SendRequest(wire: Network, req: Request) returns (res: Option<Response>)
      modifies wire
      ensures Made(wire, old(wire.log), res, Send(settings, wire.net, old(wire.next), here, req))
      decreases req.redirects + Retries(req), 1
    {
      assert wire.log + [] == wire.log;
      var connected := wire.Connect();
      if !connected { return None; }
      res := HandleRequest(wire, req);
    }

    method HandleRequest(wire: Network, req: Request) returns (res: Option<Response>)
      requires !wire.net(wire.next).Refused?
      modifies wire
      ensures Made(wire, old(wire.log), res, Send(settings, wire.net, old(wire.next), here, req))
      decreases req.redirects + Retries(req), 0
    {
      assert wire.log + [] == wire.log;
      if req.path == "" { return None; }
      ghost var log := wire.log;
      var answer := wire.Process(here, req);
      if answer == None { return None; }
      var shown := answer.value;
      res := answer;
      ghost var sent, first := [Sent(wire.next - 1, here, req)], Outcome(wire.next, [], answer);
      assert log + sent + [] == log + sent;
      if IsRedirect(settings, shown) {
        first := Follow(settings, wire.net, wire.next, here, req, shown);
        res := RedirectTo(wire, req, shown);
        if res.Some? { shown := res.value; }
      }
      Assoc(log, sent, first.log);
      if Challenged(settings, req, shown) {
        ghost var again := Send(settings, wire.net, wire.next, here, Authorized(req));
        res := SendRequest(wire, Authorized(req));
        Assoc(log, sent + first.log, again.log);
      }
    }

    method RedirectTo(wire: Network, req: Request, res: Response) returns (newRes: Option<Response>)
      modifies wire
      ensures Made(wire, old(wire.log), newRes, Follow(settings, wire.net, old(wire.next), here, req, res))
      decreases req.redirects + Retries(req), 0, 0
    {
      assert wire.log + [] == wire.log;
      if req.redirects == 0 { return None; }
      hide Target;
      var next := ReadLocation(here, res.location);
      if next == None { return None; }
      var (there, path) := next.value;
      var newReq := RedirectedRequest(req, res.status, path);
      if there == here {
        newRes := SendRequest(wire, newReq);
      } else {
        if there.https && !settings.tls { return None; }
        var cli := new ClientImpl(settings, there);
        newRes := cli.SendRequest(wire, newReq);
      }
    }
  }
}
