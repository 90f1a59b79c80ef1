// The retry loop of `Control::Judge` in `oj_server/oj_control.hpp` as the program it is, run by one thread on
// a fleet that nobody else touches.
module JudgeLoop {
  import opened LoadBalance
  import opened Wrappers
  import J = Judge

  /** The compile servers, with a record of which machine each post went to. After the listed answers none
      answers any more, so that every call ends. */
  class Backend {
    const answers: seq<J.Answer>
    const reports: nat -> Report
    var asked: seq<int>

    constructor (answers: seq<J.Answer>, reports: nat -> Report)
      ensures this.answers == answers && this.reports == reports && asked == []
    {
      this.answers, this.reports, asked := answers, reports, [];
    }

    /** The answer to post number `k`. */
    function Reply(k: nat): J.Answer { if k < |answers| then answers[k] else J.NoResponse }

    method Post(id: int) returns (a: J.Answer)
      modifies this
      ensures asked == old(asked) + [id] && a == Reply(old(|asked|))
    {
      a := if |asked| < |answers| then answers[|asked|] else J.NoResponse;
      asked := asked + [id];
    }
  }

  /** The machines whose posts, from number `from` on, stayed without a response, in order. */
  function Silent(net: Backend, asked: seq<int>, from: nat): seq<int>
    decreases |asked|
  {
    if |asked| <= from then []
    else
      Silent(net, asked[..|asked| - 1], from)
      + if net.Reply(|asked| - 1).NoResponse? then [asked[|asked| - 1]] else []
  }

  /** One round that found `f` and left `g`: after a refresh by `report` the machine `id` was asked because it
      was the choice. Without a response it, and it alone, went offline; otherwise its load is what it was. */
  ghost predicate Round(f: Fleet, report: Report, id: int, a: J.Answer, g: Fleet) {
    var r := Refresh(f, report);
    && Valid(r) && IsChoice(r, id) && 0 <= id < |r.loads| == |g.loads|
    && (if a.NoResponse? then
          && g.offline == f.offline + [id] && |g.online| + 1 == |f.online|
          && (forall x :: x in g.online <==> x in f.online && x != id)
          && g.loads == r.loads[id := 0]
        else
          g == r.(loads := r.loads[id := r.loads[id] % UINT64]))
  }

  /** The rounds between one fleet and the next, beginning with post number `from`. */
  ghost predicate Rounds(net: Backend, asked: seq<int>, from: nat, fleets: seq<Fleet>) {
    && from + |fleets| == |asked| + 1
    && forall k: nat | k < |fleets| - 1 ::
         Round(fleets[k], net.reports(from + k), asked[from + k], net.Reply(from + k), fleets[k + 1])
  }

  /** A round keeps every machine in one list. */
  lemma Answered(f: Fleet, report: Report, id: int, a: J.Answer, g: Fleet)
    requires J.Partitioned(f) && !a.NoResponse?
    requires var r := Refresh(f, report);
             && Valid(r) && IsChoice(r, id) && 0 <= id < |r.loads| && g == Decremented(Incremented(r, id), id)
    ensures Round(f, report, id, a, g) && J.Partitioned(g) && Valid(g)
  {
    Refreshed(f, g);
    OneMoreOneLess(Refresh(f, report).loads[id]);
  }

  lemma OneMoreOneLess(n: nat)
    ensures ((n + 1) % UINT64 + UINT64 - 1) % UINT64 == n % UINT64
  {
  }

  lemma Unanswered(f: Fleet, report: Report, id: int, g: Fleet)
    requires J.Partitioned(f)
    requires var r := Refresh(f, report);
             && Valid(r) && IsChoice(r, id) && 0 <= id < |r.loads|
             && Valid(Incremented(r, id)) && g == TakeOffline(Incremented(r, id), id)
    ensures Round(f, report, id, J.NoResponse, g) && J.Partitioned(g) && Valid(g)
  {
    var r := Refresh(f, report);
    var h := Incremented(r, id);
    ChoiceIsOnline(r, id);
    Refreshed(f, h);
    J.OfflineKeeps(h, id);
    J.PartitionedIsValid(g);
    assert forall x :: x in g.online <==> x in f.online && x != id;
  }

  lemma SilentMore(net: Backend, asked: seq<int>, from: nat, id: int)
    requires from <= |asked|
    ensures Silent(net, asked + [id], from)
         == Silent(net, asked, from) + if net.Reply(|asked|).NoResponse? then [id] else []
  {
    assert (asked + [id])[..|asked|] == asked;
  }

  /** One turn of the loop: the answer that came from machine `id`, if there was a machine to ask. */
  method Turn(lb: LoadBalance, net: Backend) returns (a: Option<J.Answer>, ghost id: int)
    requires J.Partitioned(lb.View()) && Valid(lb.View())
    modifies lb, net
    ensures J.Partitioned(lb.View()) && Valid(lb.View())
    ensures a == None ==> lb.View() == old(lb.View()) && lb.online == [] && net.asked == old(net.asked)
    ensures a.Some? ==>
              && a.value == net.Reply(old(|net.asked|)) && net.asked == old(net.asked) + [id]
              && Round(old(lb.View()), net.reports(old(|net.asked|)), id, a.value, lb.View())
  {
    ghost var f, report := lb.View(), net.reports(|net.asked|);
    var ok, m := lb.SmartChoice(net.reports(|net.asked|));
    id := m;
    if !ok { return None, id; }
    ChoiceIsOnline(lb.View(), m);
    lb.IncLoad(m);
    Refreshed(f, lb.View());
    var answer := net.Post(m);
    if answer.NoResponse? {
      lb.OfflineMachine(m);
      Unanswered(f, report, m, lb.View());
    } else {
      lb.DecLoad(m);
      Answered(f, report, m, answer, lb.View());
    }
    return Some(answer), id;
  }

  /** A call that found `start` when `first` posts had been made and has come to `now`: `fleets` is what the fleet
      was before each post, and is now, and `failed` are the machines that stayed silent. */
  ghost predicate Tracked(net: Backend, start: Fleet, first: nat, asked: seq<int>, fleets: seq<Fleet>,
                          failed: seq<int>, now: Fleet) {
    && first <= |asked| && fleets != [] && fleets[0] == start && fleets[|fleets| - 1] == now
    && Rounds(net, asked, first, fleets)
    && failed == Silent(net, asked, first) && now.offline == start.offline + failed
  }

  lemma OneMoreRound(net: Backend, start: Fleet, first: nat, asked: seq<int>, fleets: seq<Fleet>,
                     failed: seq<int>, now: Fleet, id: int, next: Fleet)
    requires Tracked(net, start, first, asked, fleets, failed, now)
    requires Round(now, net.reports(|asked|), id, net.Reply(|asked|), next)
    ensures var failed' := failed + if net.Reply(|asked|).NoResponse? then [id] else [];
            Tracked(net, start, first, asked + [id], fleets + [next], failed', next)
  {
    MoreRounds(net, asked, first, fleets, id, next);
    SilentMore(net, asked, first, id);
    assert start.offline + (failed + [id]) == start.offline + failed + [id];
    assert failed + [] == failed;
  }

  lemma MoreRounds(net: Backend, asked: seq<int>, from: nat, fleets: seq<Fleet>, id: int, g: Fleet)
    requires fleets != [] && Rounds(net, asked, from, fleets)
    requires Round(fleets[|fleets| - 1], net.reports(|asked|), id, net.Reply(|asked|), g)
    ensures Rounds(net, asked + [id], from, fleets + [g])
  {
    var all, more := asked + [id], fleets + [g];
    forall k: nat | k < |more| - 1
      ensures Round(more[k], net.reports(from + k), all[from + k], net.Reply(from + k), more[k + 1])
    {
      if k < |fleets| - 1 {
        assert Round(fleets[k], net.reports(from + k), asked[from + k], net.Reply(from + k), fleets[k + 1]);
      }
    }
  }

  /** The call asks one machine after the other, each time the choice of the refreshed fleet, until one answers
      with 200 or none is left. The first 200 is the output; with no output no machine is online any more. The
      machines that went offline are, in order, those whose posts stayed without a response. */
  method Judge(lb: LoadBalance, net: Backend)
    returns (out: Option<string>, ghost failed: seq<int>, ghost fleets: seq<Fleet>)
    requires J.Partitioned(lb.View()) && Valid(lb.View())
    modifies lb, net
    ensures J.Partitioned(lb.View()) && old(net.asked) <= net.asked
    ensures Tracked(net, old(lb.View()), |old(net.asked)|, net.asked, fleets, failed, lb.View())
    ensures match out
            case None =>
              lb.online == [] && forall k | |old(net.asked)| <= k < |net.asked| :: !net.Reply(k).Ok200?
            case Some(body) =>
              && |net.asked| > |old(net.asked)| && net.Reply(|net.asked| - 1) == J.Ok200(body)
              && forall k | |old(net.asked)| <= k < |net.asked| - 1 :: !net.Reply(k).Ok200?
  {
    out, failed, fleets := None, [], [lb.View()];
    ghost var start, first, asked := lb.View(), |net.asked|, net.asked;
    assert start.offline + [] == start.offline;
    while true
      invariant J.Partitioned(lb.View()) && Valid(lb.View())
      invariant asked == net.asked && old(net.asked) <= asked
      invariant Tracked(net, start, first, asked, fleets, failed, lb.View())
      invariant forall k | first <= k < |asked| :: !net.Reply(k).Ok200?
      decreases if |asked| < |net.answers| then |net.answers| - |asked| else 0, |lb.online|
    {
      ghost var f := lb.View();
      var a;
      ghost var id;
      a, id := Turn(lb, net);
      if a == None { return; }
      OneMoreRound(net, start, first, asked, fleets, failed, f, id, lb.View());
      fleets, failed := fleets + [lb.View()], failed + if a.value.NoResponse? then [id] else [];
      asked := net.asked;
      if a.value.Ok200? {
        return Some(a.value.body), failed, fleets;
      }
    }
  }

  /** Changed loads leave the lists alone. */
  lemma Refreshed(f: Fleet, g: Fleet)
    requires J.Partitioned(f) && g.online == f.online && g.offline == f.offline && |g.loads| == |f.loads|
    ensures J.Partitioned(g) && Valid(g)
  {
    J.SameLists(f, g);
    J.PartitionedIsValid(g);
  }

  // What the rounds amount to

  lemma RoundMoves(f: Fleet, report: Report, id: int, a: J.Answer, g: Fleet)
    requires Round(f, report, id, a, g)
    ensures id in f.online && |g.online| == |f.online| - if a.NoResponse? then 1 else 0
    ensures forall x :: x in g.online <==> x in f.online && !(a.NoResponse? && x == id)
  {
    ChoiceIsOnline(Refresh(f, report), id);
  }

  /** What went offline in some rounds. */
  ghost predicate Moved(f: Fleet, g: Fleet, silent: seq<int>) {
    && |g.online| + |silent| == |f.online|
    && J.NoDuplicates(silent)
    && (forall x :: x in silent <==> x in f.online && x !in g.online)
    && (forall x | x in g.online :: x in f.online)
  }

  /** Over any number of rounds exactly the silent machines leave `online`, one for each silence and none
      twice; in particular no machine is asked again once it was silent. */
  lemma {:induction false} SilentOnesLeave(net: Backend, asked: seq<int>, from: nat, fleets: seq<Fleet>)
    requires from <= |asked| && fleets != [] && Rounds(net, asked, from, fleets)
    ensures Moved(fleets[0], fleets[|fleets| - 1], Silent(net, asked, from))
    decreases |fleets|
  {
    var n := |fleets|;
    if n > 1 {
      var before, id := asked[..|asked| - 1], asked[|asked| - 1];
      assert asked == before + [id];
      assert forall k: nat | k < n - 2 ::
        Round(fleets[k], net.reports(from + k), asked[from + k], net.Reply(from + k), fleets[k + 1]);
      assert Rounds(net, before, from, fleets[..n - 1]);
      SilentOnesLeave(net, before, from, fleets[..n - 1]);
      SilentMore(net, before, from, id);
      var k: nat := n - 2;
      assert Round(fleets[k], net.reports(from + k), asked[from + k], net.Reply(from + k), fleets[k + 1]);
      RoundMoves(fleets[n - 2], net.reports(from + (n - 2)), id, net.Reply(|before|), fleets[n - 1]);
      MoveOn(fleets[0], fleets[n - 2], Silent(net, before, from), id, net.Reply(|before|), fleets[n - 1]);
    }
  }

  lemma MoveOn(f: Fleet, g: Fleet, silent: seq<int>, id: int, a: J.Answer, h: Fleet)
    requires Moved(f, g, silent) && id in g.online && |h.online| == |g.online| - if a.NoResponse? then 1 else 0
    requires forall x :: x in h.online <==> x in g.online && !(a.NoResponse? && x == id)
    ensures Moved(f, h, silent + if a.NoResponse? then [id] else [])
  {
    if a.NoResponse? {
      assert id !in silent;
      assert forall x :: x in silent + [id] <==> x in silent || x == id;
    } else {
      assert silent + [] == silent;
    }
  }
}
