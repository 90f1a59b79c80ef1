// The retry loop of `Control::Judge`, run by any number of threads over one fleet while recovery
// events bring machines back. Each locked method of the fleet is one step.
module Judge {
  import opened LoadBalance
  import opened Wrappers

  datatype Answer = Ok200(body: string) | OtherStatus | NoResponse

  /** Where a call of `Judge` is in its loop. */
  datatype Pc =
    | Choosing
    | Chosen(id: int)        // `SmartChoice` returned, `IncLoad` comes next
    | Posting(id: int)       // the request is out
    | Leaving(id: int)       // answered with 200, `DecLoad` comes next
    | Retrying(id: int)      // answered with another status, `DecLoad` comes next
    | Failing(id: int)       // no response, `OfflineMachine` comes next
    | Done

  /** A call, and what can be observed of it: the rounds it began, the ids it reported dead, the
      answers other than 200 it got, the fleet's size and the count of restored machines when it
      started. */
  datatype Call = Call(pc: Pc, out: Option<string>, rounds: nat, failed: seq<int>, others: nat,
                       start: nat, base: nat)

  /** `restored` counts the machines that `OnlineMachine` has put back so far. */
  datatype System = System(fleet: Fleet, calls: seq<Call>, restored: nat)

  /** `Choose` takes any online machine: other threads may change loads while the choice is made, because a
      machine's counter has a mutex of its own. */
  datatype Step =
    | Begin
    | Choose(t: nat, report: Report, id: int)
    | Inc(t: nat)
    | Receive(t: nat, answer: Answer)
    | Dec(t: nat)
    | ReportDead(t: nat)
    | Recover

  ghost predicate Enabled(s: System, step: Step)
    requires Valid(s.fleet)
  {
    match step
    case Begin => true
    case Choose(t, report, id) =>
      && t < |s.calls| && s.calls[t].pc.Choosing?
      && (s.fleet.online != [] ==> id in s.fleet.online && Valid(Refresh(s.fleet, report)))
    case Inc(t) => t < |s.calls| && s.calls[t].pc.Chosen? && 0 <= s.calls[t].pc.id < |s.fleet.loads|
    case Receive(t, _) => t < |s.calls| && s.calls[t].pc.Posting?
    case Dec(t) =>
      && t < |s.calls| && (s.calls[t].pc.Leaving? || s.calls[t].pc.Retrying?)
      && 0 <= s.calls[t].pc.id < |s.fleet.loads|
    case ReportDead(t) => t < |s.calls| && s.calls[t].pc.Failing?
    case Recover => true
  }

  ghost function Do(s: System, step: Step): System
    requires Valid(s.fleet) && Enabled(s, step)
  {
    match step
    case Begin =>
      s.(calls := s.calls + [Call(Choosing, None, 0, [], 0, |s.fleet.online|, s.restored)])
    case Choose(t, report, id) =>
      var c := s.calls[t];
      if s.fleet.online == [] then s.(calls := s.calls[t := c.(pc := Done, rounds := c.rounds + 1)])
      else s.(fleet := Refresh(s.fleet, report), calls := s.calls[t := c.(pc := Chosen(id), rounds := c.rounds + 1)])
    case Inc(t) =>
      var c := s.calls[t];
      s.(fleet := Incremented(s.fleet, c.pc.id), calls := s.calls[t := c.(pc := Posting(c.pc.id))])
    case Receive(t, answer) =>
      var c := s.calls[t];
      s.(calls := s.calls[t :=
        match answer
        case Ok200(body) => c.(pc := Leaving(c.pc.id), out := Some(body))
        case OtherStatus => c.(pc := Retrying(c.pc.id), others := c.others + 1)
        case NoResponse => c.(pc := Failing(c.pc.id))])
    case Dec(t) =>
      var c := s.calls[t];
      s.(fleet := Decremented(s.fleet, c.pc.id),
         calls := s.calls[t := c.(pc := if c.pc.Leaving? then Done else Choosing)])
    case ReportDead(t) =>
      var c := s.calls[t];
      s.(fleet := TakeOffline(s.fleet, c.pc.id),
         calls := s.calls[t := c.(pc := Choosing, failed := c.failed + [c.pc.id])])
    case Recover =>
      s.(fleet := BringOnline(s.fleet), restored := s.restored + |s.fleet.offline|)
  }

  // What every step keeps of the fleet

  /** `online` and `offline` together hold every machine exactly once. */
  ghost predicate Partitioned(f: Fleet) {
    forall id :: Places(f, id) == if 0 <= id < |f.loads| then 1 else 0
  }

  function Places(f: Fleet, id: int): nat { Count(f.online, id) + Count(f.offline, id) }

  lemma PartitionedIsValid(f: Fleet)
    requires Partitioned(f)
    ensures Valid(f)
  {
    forall id | id in f.online + f.offline
      ensures 0 <= id < |f.loads|
    {
      assert Places(f, id) == if 0 <= id < |f.loads| then 1 else 0;
      CountMember(f.online, id);
      CountMember(f.offline, id);
    }
  }

  lemma OfflineKeeps(f: Fleet, which: int)
    requires Partitioned(f) && Valid(f)
    ensures Partitioned(TakeOffline(f, which))
    ensures which !in TakeOffline(f, which).online
    ensures forall id | id != which :: id in TakeOffline(f, which).online <==> id in f.online
    ensures |TakeOffline(f, which).online| == |f.online| - if which in f.online then 1 else 0
  {
    var g := TakeOffline(f, which);
    forall id
      ensures Places(g, id) == (if 0 <= id < |g.loads| then 1 else 0)
      ensures id in g.online <==> id in f.online && id != which
    {
      assert Places(f, id) == if 0 <= id < |f.loads| then 1 else 0;
      CountMember(f.online, id);
      CountMember(g.online, id);
      if which in f.online {
        CountRemoved(f.online, which, id);
        CountAppend(f.offline, [which], id);
        assert [which][1..] == [];
      }
    }
    if which in f.online {
      CountRemoved(f.online, which, which);
    }
  }

  lemma OnlineKeeps(f: Fleet)
    requires Partitioned(f)
    ensures Partitioned(BringOnline(f))
  {
    forall id
      ensures Places(BringOnline(f), id) == if 0 <= id < |f.loads| then 1 else 0
    {
      assert Places(f, id) == if 0 <= id < |f.loads| then 1 else 0;
      CountAppend(f.online, f.offline, id);
    }
  }

  lemma SameLists(f: Fleet, g: Fleet)
    requires Partitioned(f) && g.online == f.online && g.offline == f.offline && |g.loads| == |f.loads|
    ensures Partitioned(g)
  {
    forall id
      ensures Places(g, id) == if 0 <= id < |g.loads| then 1 else 0
    {
      assert Places(f, id) == if 0 <= id < |f.loads| then 1 else 0;
    }
  }

  // What every step keeps of every call

  predicate Holds(c: Call, id: int) {
    (c.pc.Chosen? || c.pc.Posting? || c.pc.Failing?) && c.pc.id == id
  }

  /** The machine this call may yet report has left `online` already. */
  predicate Owes(c: Call, online: seq<int>) {
    (c.pc.Chosen? || c.pc.Posting? || c.pc.Failing?) && c.pc.id !in online
  }

  predicate NoDuplicates(s: seq<int>) { forall i, j | 0 <= i < j < |s| :: s[i] != s[j] }

  /** The bound that makes failover end: each reported death used up a machine that was online when
      the call started or was put back since. */
  predicate Bounded(c: Call, online: seq<int>, restored: nat) {
    && c.base <= restored
    && |c.failed| + |online| + (if Owes(c, online) then 1 else 0) <= c.start + (restored - c.base)
  }

  predicate Distinct(c: Call, online: seq<int>, restored: nat) {
    restored == c.base ==>
      && NoDuplicates(c.failed)
      && (forall id | id in c.failed :: id !in online && !Holds(c, id))
  }

  predicate Counted(c: Call) {
    && c.rounds == |c.failed| + c.others + (if c.pc.Choosing? || c.pc.Retrying? then 0 else 1)
    && (c.out.Some? ==> c.pc.Leaving? || c.pc.Done?)
    && (c.pc.Leaving? ==> c.out.Some?)
  }

  predicate KnownMachine(c: Call, n: nat) {
    c.pc.Choosing? || c.pc.Done? || 0 <= c.pc.id < n
  }

  predicate CallOk(c: Call, f: Fleet, restored: nat) {
    && Bounded(c, f.online, restored) && Distinct(c, f.online, restored)
    && Counted(c) && KnownMachine(c, |f.loads|)
  }

  ghost predicate Ok(s: System) {
    && Partitioned(s.fleet)
    && forall t | 0 <= t < |s.calls| :: CallOk(s.calls[t], s.fleet, s.restored)
  }

  /** A change of the fleet that no call notices: nothing, a machine gone, or machines put back. */
  ghost predicate Harmless(f: Fleet, restored: nat, g: Fleet, restored': nat) {
    && |g.loads| == |f.loads| && restored <= restored'
    && |g.online| <= |f.online| + (restored' - restored)
    && (restored' == restored ==> forall id | id in g.online :: id in f.online)
    && ((forall id | id in f.online :: id in g.online) || |g.online| < |f.online|)
  }

  lemma OthersKeep(c: Call, f: Fleet, restored: nat, g: Fleet, restored': nat)
    requires CallOk(c, f, restored) && Harmless(f, restored, g, restored')
    requires restored' > restored ==> forall id | id in f.online :: id in g.online
    ensures CallOk(c, g, restored')
  {
  }

  lemma ReportKeeps(c: Call, f: Fleet, restored: nat)
    requires Partitioned(f) && Valid(f) && CallOk(c, f, restored) && c.pc.Failing?
    ensures CallOk(c.(pc := Choosing, failed := c.failed + [c.pc.id]), TakeOffline(f, c.pc.id), restored)
  {
    OfflineKeeps(f, c.pc.id);
    assert Holds(c, c.pc.id);
  }

  lemma OfflineIsHarmless(f: Fleet, which: int, restored: nat)
    requires Partitioned(f) && Valid(f)
    ensures Harmless(f, restored, TakeOffline(f, which), restored)
  {
    OfflineKeeps(f, which);
    if which !in f.online {
      assert TakeOffline(f, which) == f;
    }
  }

  lemma FleetStep(s: System, step: Step)
    requires Ok(s) && Valid(s.fleet) && Enabled(s, step)
    ensures var q := Do(s, step);
      && Partitioned(q.fleet) && Harmless(s.fleet, s.restored, q.fleet, q.restored)
      && (q.restored > s.restored ==> forall id | id in s.fleet.online :: id in q.fleet.online)
  {
    match step
    case ReportDead(t) =>
      OfflineKeeps(s.fleet, s.calls[t].pc.id);
      OfflineIsHarmless(s.fleet, s.calls[t].pc.id, s.restored);
    case Recover => OnlineKeeps(s.fleet);
    case _ => SameLists(s.fleet, Do(s, step).fleet);
  }

  lemma OwnStep(s: System, step: Step, t: nat)
    requires Ok(s) && Valid(s.fleet) && Enabled(s, step) && !step.Begin? && !step.Recover? && step.t == t
    ensures CallOk(Do(s, step).calls[t], Do(s, step).fleet, Do(s, step).restored)
  {
    assert CallOk(s.calls[t], s.fleet, s.restored);
    match step
    case Choose(_, report, id) =>
      if s.fleet.online != [] { assert id in s.fleet.online + s.fleet.offline; }
    case ReportDead(_) => ReportKeeps(s.calls[t], s.fleet, s.restored);
    case _ =>
  }

  lemma StepKeeps(s: System, step: Step)
    requires Ok(s) && Valid(s.fleet) && Enabled(s, step)
    ensures Ok(Do(s, step))
  {
    FleetStep(s, step);
    var q := Do(s, step);
    forall t | 0 <= t < |q.calls|
      ensures CallOk(q.calls[t], q.fleet, q.restored)
    {
      if t < |s.calls| && q.calls[t] == s.calls[t] {
        OthersKeep(s.calls[t], s.fleet, s.restored, q.fleet, q.restored);
      } else if !step.Begin? {
        OwnStep(s, step, t);
      }
    }
  }

  // Over whole runs

  ghost predicate Possible(s: System, steps: seq<Step>)
    decreases |steps|
  {
    steps == [] || (Valid(s.fleet) && Enabled(s, steps[0]) && Possible(Do(s, steps[0]), steps[1..]))
  }

  ghost function Exec(s: System, steps: seq<Step>): System
    requires Possible(s, steps)
    decreases |steps|
  {
    if steps == [] then s else Exec(Do(s, steps[0]), steps[1..])
  }

  lemma {:induction false} RunKeeps(s: System, steps: seq<Step>)
    requires Ok(s) && Possible(s, steps)
    ensures Ok(Exec(s, steps))
    decreases |steps|
  {
    if steps != [] {
      StepKeeps(s, steps[0]);
      RunKeeps(Do(s, steps[0]), steps[1..]);
    }
  }

  /** The fleet as `LoadConf` leaves it, before any call. */
  predicate Initial(s: System) {
    && s.calls == [] && s.restored == 0 && s.fleet.offline == []
    && |s.fleet.online| == |s.fleet.loads|
    && forall i | 0 <= i < |s.fleet.online| :: s.fleet.online[i] == i
  }

  lemma {:induction false} CountOfRange(s: seq<int>, k: int, id: int)
    requires forall i | 0 <= i < |s| :: s[i] == k + i
    ensures Count(s, id) == if k <= id < k + |s| then 1 else 0
  {
    if s != [] {
      CountOfRange(s[1..], k + 1, id);
    }
  }

  lemma InitialIsOk(s: System)
    requires Initial(s)
    ensures Ok(s)
  {
    forall id
      ensures Places(s.fleet, id) == if 0 <= id < |s.fleet.loads| then 1 else 0
    {
      CountOfRange(s.fleet.online, 0, id);
    }
  }

  ghost predicate Reachable(s0: System, s: System) {
    Initial(s0) && exists steps :: Possible(s0, steps) && Exec(s0, steps) == s
  }

  lemma ReachableIsOk(s0: System, s: System)
    requires Reachable(s0, s)
    ensures Ok(s)
  {
    var steps :| Possible(s0, steps) && Exec(s0, steps) == s;
    InitialIsOk(s0);
    RunKeeps(s0, steps);
  }

  /** Whatever the interleaving, no machine is lost or listed twice. */
  lemma FleetConserved(s0: System, s: System, id: int)
    requires Reachable(s0, s)
    ensures Count(s.fleet.online, id) + Count(s.fleet.offline, id) == if 0 <= id < |s.fleet.loads| then 1 else 0
  {
    ReachableIsOk(s0, s);
    assert Places(s.fleet, id) == if 0 <= id < |s.fleet.loads| then 1 else 0;
  }

  /** The rounds of one call, whatever the other threads do: at most one per machine that was online
      when it started, one per machine put back since, one per answer other than 200, and a last
      one. The deaths it has reported or is about to report obey the same bound. */
  lemma FailoverBound(s0: System, s: System, t: nat)
    requires Reachable(s0, s) && t < |s.calls|
    ensures var c := s.calls[t];
      && c.base <= s.restored
      && |c.failed| + (if c.pc.Failing? then 1 else 0) <= c.start + (s.restored - c.base)
      && c.rounds <= c.start + (s.restored - c.base) + c.others + 1
      && (c.out.Some? ==> c.pc.Leaving? || c.pc.Done?)
  {
    ReachableIsOk(s0, s);
    assert CallOk(s.calls[t], s.fleet, s.restored);
  }

  /** While nothing is put back a call never reports the same machine twice. */
  lemma FailuresDistinct(s0: System, s: System, t: nat)
    requires Reachable(s0, s) && t < |s.calls| && s.restored == s.calls[t].base
    ensures NoDuplicates(s.calls[t].failed)
    ensures s.calls[t].pc.Failing? ==> s.calls[t].pc.id !in s.calls[t].failed
    ensures forall id | id in s.calls[t].failed :: id !in s.fleet.online
  {
    ReachableIsOk(s0, s);
    assert CallOk(s.calls[t], s.fleet, s.restored);
    if s.calls[t].pc.Failing? {
      assert Holds(s.calls[t], s.calls[t].pc.id);
    }
  }

  // The accounts against the steps of a run

  function Rounds(steps: seq<Step>, t: nat): nat {
    if steps == [] then 0 else (if steps[0].Choose? && steps[0].t == t then 1 else 0) + Rounds(steps[1..], t)
  }

  function Others(steps: seq<Step>, t: nat): nat {
    if steps == [] then 0
    else (if steps[0].Receive? && steps[0].t == t && steps[0].answer.OtherStatus? then 1 else 0) + Others(steps[1..], t)
  }

  function Deaths(steps: seq<Step>, t: nat): nat {
    if steps == [] then 0 else (if steps[0].ReportDead? && steps[0].t == t then 1 else 0) + Deaths(steps[1..], t)
  }

  /** The machines that the recoveries of a run put back. */
  ghost function PutBack(s: System, steps: seq<Step>): nat
    requires Possible(s, steps)
    decreases |steps|
  {
    if steps == [] then 0
    else (if steps[0].Recover? then |s.fleet.offline| else 0) + PutBack(Do(s, steps[0]), steps[1..])
  }

  lemma {:induction false} Accounts(s: System, steps: seq<Step>, t: nat)
    requires Possible(s, steps) && t < |s.calls|
    ensures var q := Exec(s, steps);
      && |q.calls| >= |s.calls| && q.restored == s.restored + PutBack(s, steps)
      && q.calls[t].rounds == s.calls[t].rounds + Rounds(steps, t)
      && q.calls[t].others == s.calls[t].others + Others(steps, t)
      && |q.calls[t].failed| == |s.calls[t].failed| + Deaths(steps, t)
      && q.calls[t].start == s.calls[t].start && q.calls[t].base == s.calls[t].base
    decreases |steps|
  {
    if steps != [] {
      Accounts(Do(s, steps[0]), steps[1..], t);
    }
  }

  /** The same bound in steps alone. A call begins, and then anything happens: its rounds are at most one for each
      machine that was online when it began, one for each machine put back since, one for each answer other than
      200 that it got, and a last one; its reports are at most the first two together. */
  lemma RoundsBounded(s0: System, s: System, steps: seq<Step>)
    requires Reachable(s0, s) && Valid(s.fleet) && Possible(Do(s, Begin), steps)
    ensures var t, back := |s.calls|, PutBack(Do(s, Begin), steps);
      && Rounds(steps, t) <= |s.fleet.online| + back + Others(steps, t) + 1
      && Deaths(steps, t) <= |s.fleet.online| + back
  {
    var t, s1 := |s.calls|, Do(s, Begin);
    ReachableIsOk(s0, s);
    StepKeeps(s, Begin);
    RunKeeps(s1, steps);
    Accounts(s1, steps, t);
    assert CallOk(Exec(s1, steps).calls[t], Exec(s1, steps).fleet, Exec(s1, steps).restored);
  }

  /** The machine of the last choice of call `t`. */
  function LastChoice(steps: seq<Step>, t: nat, before: Option<int>): Option<int>
    decreases |steps|
  {
    if steps == [] then before
    else LastChoice(steps[1..], t, if steps[0].Choose? && steps[0].t == t then Some(steps[0].id) else before)
  }

  /** A call asks, and releases or reports, the machine that it chose last. */
  lemma {:induction false} ChosenIsAsked(s: System, steps: seq<Step>, t: nat, before: Option<int>)
    requires Possible(s, steps) && t < |s.calls|
    requires s.calls[t].pc.Choosing? || s.calls[t].pc.Done? || before == Some(s.calls[t].pc.id)
    ensures t < |Exec(s, steps).calls|
    ensures var pc := Exec(s, steps).calls[t].pc;
      pc.Choosing? || pc.Done? || LastChoice(steps, t, before) == Some(pc.id)
    decreases |steps|
  {
    if steps != [] {
      ChosenIsAsked(Do(s, steps[0]), steps[1..], t,
        if steps[0].Choose? && steps[0].t == t then Some(steps[0].id) else before);
    }
  }

  /** Step `k` of the run is a call that asked machine `id` and got no response. */
  ghost predicate SilentAt(s: System, steps: seq<Step>, k: nat, id: int) {
    && k < |steps| && Possible(s, steps[..k]) && steps[k].Receive? && steps[k].answer.NoResponse?
    && var calls := Exec(s, steps[..k]).calls;
       steps[k].t < |calls| && calls[steps[k].t].pc == Posting(id)
  }

  predicate AboutToReport(s: System, id: int) { exists c :: c in s.calls && c.pc == Failing(id) }

  lemma StaysOnline(s: System, step: Step, id: int)
    requires Valid(s.fleet) && Enabled(s, step) && id in s.fleet.online && !AboutToReport(s, id)
    requires !(step.Receive? && step.answer.NoResponse? && s.calls[step.t].pc == Posting(id))
    ensures id in Do(s, step).fleet.online && !AboutToReport(Do(s, step), id)
  {
    var q := Do(s, step);
    forall c | c in q.calls
      ensures c.pc != Failing(id)
    {
      var i :| 0 <= i < |q.calls| && q.calls[i] == c;
      if i < |s.calls| {
        assert s.calls[i] in s.calls;
      }
    }
    if step.ReportDead? {
      assert s.calls[step.t] in s.calls;
      if s.calls[step.t].pc.id in s.fleet.online {
        CountRemoved(s.fleet.online, s.calls[step.t].pc.id, id);
        CountMember(s.fleet.online, id);
        CountMember(q.fleet.online, id);
      }
    }
  }

  /** Whatever the interleaving, a machine goes offline only after some call asked it and got no response. */
  lemma {:induction false} OnlyTheSilentLeave(s: System, steps: seq<Step>, id: int) returns (k: nat)
    requires Possible(s, steps) && id in s.fleet.online && !AboutToReport(s, id)
    requires id !in Exec(s, steps).fleet.online
    ensures SilentAt(s, steps, k, id)
    decreases |steps|
  {
    var step := steps[0];
    assert steps[..0] == [] && Exec(s, []) == s;
    if step.Receive? && step.answer.NoResponse? && s.calls[step.t].pc == Posting(id) {
      k := 0;
    } else {
      StaysOnline(s, step, id);
      k := OnlyTheSilentLeave(Do(s, step), steps[1..], id);
      var front := steps[1..][..k];
      assert steps[..k + 1] == [step] + front && steps[1..][k] == steps[k + 1];
      Cons(s, step, front, Do(s, step));
      k := k + 1;
    }
  }

  // The load counters

  /** The call is counted at machine `id`: after `IncLoad`, before `DecLoad` or the report. */
  predicate At(c: Call, id: int) {
    (c.pc.Posting? || c.pc.Leaving? || c.pc.Retrying? || c.pc.Failing?) && c.pc.id == id
  }

  function Busy(calls: seq<Call>, id: int): nat {
    if calls == [] then 0 else (if At(calls[0], id) then 1 else 0) + Busy(calls[1..], id)
  }

  lemma {:induction false} BusyAt(calls: seq<Call>, t: nat, c: Call, id: int)
    requires t < |calls|
    ensures Busy(calls[t := c], id) + (if At(calls[t], id) then 1 else 0)
         == Busy(calls, id) + if At(c, id) then 1 else 0
  {
    var more := calls[t := c];
    if t == 0 {
      assert more[1..] == calls[1..];
    } else {
      assert more[1..] == calls[1..][t - 1 := c];
      BusyAt(calls[1..], t - 1, c, id);
    }
  }

  lemma {:induction false} BusyMore(calls: seq<Call>, c: Call, id: int)
    requires !At(c, id)
    ensures Busy(calls + [c], id) == Busy(calls, id)
  {
    if calls == [] {
      assert calls + [c] == [c] && [c][1..] == [];
    } else {
      assert (calls + [c])[1..] == calls[1..] + [c];
      BusyMore(calls[1..], c, id);
    }
  }

  /** No machine reports a load of its own, and none is reported dead. */
  ghost predicate Undisturbed(step: Step) {
    !step.ReportDead? && (step.Choose? ==> forall id :: step.report(id).None?)
  }

  lemma StepCounts(s: System, step: Step, id: int) returns (q: int)
    requires Valid(s.fleet) && Enabled(s, step) && Undisturbed(step) && 0 <= id < |s.fleet.loads|
    ensures var r := Do(s, step);
      && |r.fleet.loads| == |s.fleet.loads|
      && r.fleet.loads[id] == s.fleet.loads[id] + Busy(r.calls, id) - Busy(s.calls, id) + q * UINT64
  {
    var r := Do(s, step);
    q := 0;
    match step
    case Begin => BusyMore(s.calls, r.calls[|s.calls|], id);
    case Recover =>
    case Choose(t, _, _) => BusyAt(s.calls, t, r.calls[t], id);
    case Receive(t, _) => BusyAt(s.calls, t, r.calls[t], id);
    case Inc(t) =>
      BusyAt(s.calls, t, r.calls[t], id);
      if id == s.calls[t].pc.id { q := Wraps(s.fleet.loads[id] + 1); }
    case Dec(t) =>
      BusyAt(s.calls, t, r.calls[t], id);
      if id == s.calls[t].pc.id {
        q := Wraps(s.fleet.loads[id] + UINT64 - 1);
        q := q + 1;
      }
  }

  lemma Wraps(x: nat) returns (q: int)
    ensures x % UINT64 == x + q * UINT64
  {
    q := -(x / UINT64);
  }

  lemma {:induction false} RunCounts(s: System, steps: seq<Step>, id: int) returns (q: int)
    requires Possible(s, steps) && (forall step | step in steps :: Undisturbed(step)) && 0 <= id < |s.fleet.loads|
    ensures var r := Exec(s, steps);
      && |r.fleet.loads| == |s.fleet.loads|
      && r.fleet.loads[id] == s.fleet.loads[id] + Busy(r.calls, id) - Busy(s.calls, id) + q * UINT64
    decreases |steps|
  {
    q := 0;
    if steps != [] {
      assert steps[0] in steps && forall step | step in steps[1..] :: step in steps;
      q := StepCounts(s, steps[0], id);
      var more := RunCounts(Do(s, steps[0]), steps[1..], id);
      q := q + more;
    }
  }

  /** While no machine reports a load of its own and none is reported dead, a counter grows by the calls that are
      at its machine, so that it is what it was whenever as many are there as at first. */
  lemma LoadsCountCalls(s: System, steps: seq<Step>, id: int)
    requires Possible(s, steps) && (forall step | step in steps :: Undisturbed(step)) && 0 <= id < |s.fleet.loads|
    requires s.fleet.loads[id] < UINT64
    requires var loads := Exec(s, steps).fleet.loads; id < |loads| && loads[id] < UINT64
    ensures var r := Exec(s, steps);
      && (Busy(r.calls, id) == Busy(s.calls, id) ==> r.fleet.loads[id] == s.fleet.loads[id])
      && (0 <= s.fleet.loads[id] + Busy(r.calls, id) - Busy(s.calls, id) < UINT64 ==>
            r.fleet.loads[id] == s.fleet.loads[id] + Busy(r.calls, id) - Busy(s.calls, id))
  {
    var q := RunCounts(s, steps, id);
    var r := Exec(s, steps);
    var due := s.fleet.loads[id] + Busy(r.calls, id) - Busy(s.calls, id);
    if 0 <= due < UINT64 {
      assert q == 0;
    }
  }

  /** A report sets the counter to zero, whoever else is at the machine; when such a call leaves, the counter
      wraps below zero. */
  lemma CounterWraps(s: System, t: nat, u: nat, id: int)
    requires Partitioned(s.fleet) && Valid(s.fleet) && id in s.fleet.online
    requires t < |s.calls| && u < |s.calls| && s.calls[t].pc == Failing(id) && s.calls[u].pc == Leaving(id)
    ensures Enabled(s, ReportDead(t))
    ensures var r := Do(s, ReportDead(t));
      && Valid(r.fleet) && Enabled(r, Dec(u))
      && 0 <= id < |Do(r, Dec(u)).fleet.loads|
      && Do(r, Dec(u)).fleet.loads[id] == 0xFFFF_FFFF_FFFF_FFFF
  {
    assert id in s.fleet.online + s.fleet.offline;
    OfflineKeeps(s.fleet, id);
    PartitionedIsValid(TakeOffline(s.fleet, id));
  }

  // Answers other than 200 are the one thing without a bound

  const SILENT: Report := id => None

  /** A machine that keeps answering with another status keeps the call going: from any state in
      which it may choose, it can begin any number of rounds with nothing restored and nothing
      reported. */
  lemma {:induction false} RetriesWithoutBound(s: System, t: nat, k: nat) returns (steps: seq<Step>)
    requires Valid(s.fleet) && s.fleet.online != [] && t < |s.calls| && s.calls[t].pc.Choosing?
    ensures Possible(s, steps)
    ensures var q := Exec(s, steps);
      && t < |q.calls| && q.calls[t].rounds == s.calls[t].rounds + k && q.calls[t].pc.Choosing?
      && q.restored == s.restored && q.calls[t].failed == s.calls[t].failed
    decreases k
  {
    if k == 0 {
      steps := [];
    } else {
      var id, q := OneRetry(s, t);
      var more := RetriesWithoutBound(q, t, k - 1);
      steps := [Choose(t, SILENT, id), Inc(t), Receive(t, OtherStatus), Dec(t)] + more;
      Unroll(s, Choose(t, SILENT, id), Inc(t), Receive(t, OtherStatus), Dec(t), more, q);
    }
  }

  ghost predicate Leads(s: System, step: Step, q: System) {
    Valid(s.fleet) && Enabled(s, step) && Do(s, step) == q
  }

  ghost predicate LeadsBy4(s: System, a: Step, b: Step, c: Step, d: Step, q: System) {
    exists s1, s2, s3 :: Leads(s, a, s1) && Leads(s1, b, s2) && Leads(s2, c, s3) && Leads(s3, d, q)
  }

  lemma OneRetry(s: System, t: nat) returns (id: int, q: System)
    requires Valid(s.fleet) && s.fleet.online != [] && t < |s.calls| && s.calls[t].pc.Choosing?
    ensures LeadsBy4(s, Choose(t, SILENT, id), Inc(t), Receive(t, OtherStatus), Dec(t), q)
    ensures Valid(q.fleet) && q.fleet.online == s.fleet.online && |q.calls| == |s.calls|
    ensures q.calls[t] == s.calls[t].(rounds := s.calls[t].rounds + 1, others := s.calls[t].others + 1)
    ensures q.restored == s.restored
  {
    assert Refresh(s.fleet, SILENT) == s.fleet;
    id := s.fleet.online[0];
    assert id in s.fleet.online + s.fleet.offline;
    var s1 := Do(s, Choose(t, SILENT, id));
    assert Leads(s, Choose(t, SILENT, id), s1);
    assert s1.calls[t].pc == Chosen(id) && s1.fleet == s.fleet;
    var s2 := Do(s1, Inc(t));
    assert Leads(s1, Inc(t), s2);
    SameIds(s1.fleet, s2.fleet);
    var s3 := Do(s2, Receive(t, OtherStatus));
    assert Leads(s2, Receive(t, OtherStatus), s3);
    q := Do(s3, Dec(t));
    assert Leads(s3, Dec(t), q);
    SameIds(s3.fleet, q.fleet);
  }

  lemma SameIds(f: Fleet, g: Fleet)
    requires Valid(f) && g.online == f.online && g.offline == f.offline && |g.loads| == |f.loads|
    ensures Valid(g)
  {
  }

  lemma Unroll(s: System, a: Step, b: Step, c: Step, d: Step, more: seq<Step>, q: System)
    requires LeadsBy4(s, a, b, c, d, q) && Possible(q, more)
    ensures Possible(s, [a, b, c, d] + more) && Exec(s, [a, b, c, d] + more) == Exec(q, more)
  {
    var s1, s2, s3 :| Leads(s, a, s1) && Leads(s1, b, s2) && Leads(s2, c, s3) && Leads(s3, d, q);
    Cons(s3, d, more, q);
    Cons(s2, c, [d] + more, s3);
    Cons(s1, b, [c] + ([d] + more), s2);
    Cons(s, a, [b] + ([c] + ([d] + more)), s1);
    assert [a, b, c, d] + more == [a] + ([b] + ([c] + ([d] + more)));
  }

  lemma Cons(s: System, step: Step, more: seq<Step>, q: System)
    requires Leads(s, step, q) && Possible(q, more)
    ensures Possible(s, [step] + more) && Exec(s, [step] + more) == Exec(q, more)
  {
    assert ([step] + more)[1..] == more;
  }
}
