// `Machine` and `LoadBalance` of `oj_server/oj_control.hpp`.
module LoadBalance {
  import opened Text
  import opened Wrappers

  const UINT64 := 0x1_0000_0000_0000_0000

  /** The state `LoadBalance::mtx` protects, and the load counters. `online[0]` is tried first. */
  datatype Fleet = Fleet(online: seq<int>, offline: seq<int>, loads: seq<nat>)

  ghost predicate Valid(f: Fleet) {
    forall id | id in f.online + f.offline :: 0 <= id < |f.loads|
  }

  /** What a status request says about a machine: none when it fails. */
  type Report = int -> Option<nat>

  function RemoveFirst(s: seq<int>, x: int): seq<int> {
    if s == [] then [] else if s[0] == x then s[1..] else [s[0]] + RemoveFirst(s[1..], x)
  }

  function TakeOffline(f: Fleet, which: int): (g: Fleet)
    requires Valid(f)
    ensures |g.loads| == |f.loads|
  {
    if which !in f.online then f
    else
      assert which in f.online + f.offline;
      Fleet(RemoveFirst(f.online, which), f.offline + [which], f.loads[which := 0])
  }

  function BringOnline(f: Fleet): Fleet {
    Fleet(f.online + f.offline, [], f.loads)
  }

  function Refresh(f: Fleet, report: Report): Fleet {
    f.(loads := seq(|f.loads|, i requires 0 <= i < |f.loads| =>
      if i in f.online && report(i).Some? then report(i).value else f.loads[i]))
  }

  /** `id` is the first online machine whose load no online machine undercuts. */
  ghost predicate IsChoice(f: Fleet, id: int)
    requires Valid(f)
  {
    exists k: nat :: IsChoiceAt(f, id, k)
  }

  ghost predicate IsChoiceAt(f: Fleet, id: int, k: nat)
    requires Valid(f)
  {
    && k < |f.online| && f.online[k] == id
    && (forall i | 0 <= i < |f.online| :: Load(f, k) <= Load(f, i))
    && (forall i | 0 <= i < k :: Load(f, k) < Load(f, i))
  }

  function Load(f: Fleet, k: int): nat
    requires Valid(f) && 0 <= k < |f.online|
  {
    assert f.online[k] in f.online + f.offline;
    f.loads[f.online[k]]
  }

  lemma {:induction false} LeastLoaded(f: Fleet, n: nat) returns (k: nat)
    requires Valid(f) && 0 < n <= |f.online|
    ensures k < n
    ensures forall i | 0 <= i < n :: Load(f, k) <= Load(f, i)
    ensures forall i | 0 <= i < k :: Load(f, k) < Load(f, i)
    decreases n
  {
    if n == 1 {
      k := 0;
    } else {
      k := LeastLoaded(f, n - 1);
      if Load(f, n - 1) < Load(f, k) {
        k := n - 1;
      }
    }
  }

  /** The choice is determined by the fleet. */
  lemma ChoiceIsUnique(f: Fleet, id: int, id': int)
    requires Valid(f) && IsChoice(f, id) && IsChoice(f, id')
    ensures id == id'
  {
    var k: nat :| IsChoiceAt(f, id, k);
    var k': nat :| IsChoiceAt(f, id', k');
    SameChoice(f, id, k, id', k');
  }

  lemma SameChoice(f: Fleet, id: int, k: nat, id': int, k': nat)
    requires Valid(f) && IsChoiceAt(f, id, k) && IsChoiceAt(f, id', k')
    ensures k == k'
  {
    assert Load(f, k) <= Load(f, k') && Load(f, k') <= Load(f, k);
  }

  lemma ChoiceIsOnline(f: Fleet, id: int)
    requires Valid(f) && IsChoice(f, id)
    ensures id in f.online && 0 <= id < |f.loads|
  {
    var k: nat :| IsChoiceAt(f, id, k);
    assert id in f.online + f.offline;
  }

  function Incremented(f: Fleet, id: int): Fleet
    requires 0 <= id < |f.loads|
  {
    f.(loads := f.loads[id := (f.loads[id] + 1) % UINT64])
  }

  function Decremented(f: Fleet, id: int): Fleet
    requires 0 <= id < |f.loads|
  {
    f.(loads := f.loads[id := (f.loads[id] + UINT64 - 1) % UINT64])
  }

  // The machines of the configuration file

  function SkipColons(s: string): (r: string)
    ensures |r| <= |s|
  {
    if s != "" && s[0] == ':' then SkipColons(s[1..]) else s
  }

  /** `SplitString` at colons, several in a row counting as one. */
  function Tokens(s: string): seq<string>
    decreases |s|
  {
    var k := Until(s, ':');
    if k == |s| then [s] else [s[..k]] + Tokens(SkipColons(s[k + 1..]))
  }

  /** Host and port, each as written, of every line that has the two. */
  function MachinesOf(lines: seq<string>): seq<(string, string)> {
    if lines == [] then []
    else
      var tokens := Tokens(lines[|lines| - 1]);
      MachinesOf(lines[..|lines| - 1]) + if |tokens| == 2 then [(tokens[0], tokens[1])] else []
  }

  lemma {:induction false} UntilAt(s: string, k: nat)
    requires k <= |s| && (forall i | 0 <= i < k :: s[i] != ':') && (k < |s| ==> s[k] == ':')
    ensures Until(s, ':') == k
  {
    if k > 0 { UntilAt(s[1..], k - 1); }
  }

  lemma {:induction false} SkipAll(colons: string, b: string)
    requires (forall i | 0 <= i < |colons| :: colons[i] == ':') && (b != "" ==> b[0] != ':')
    ensures SkipColons(colons + b) == b
  {
    if colons == "" {
      assert colons + b == b;
    } else {
      assert (colons + b)[1..] == colons[1..] + b;
      SkipAll(colons[1..], b);
    }
  }

  /** A host and a port with any number of colons between them are the two parts of a line. */
  lemma HostAndPort(host: string, colons: string, port: string)
    requires ':' !in host && ':' !in port
    requires colons != "" && forall i | 0 <= i < |colons| :: colons[i] == ':'
    ensures Tokens(host + colons + port) == [host, port]
  {
    var s, k := host + colons + port, |host|;
    UntilAt(s, k);
    UntilAt(port, |port|);
    assert s[..k] == host && s[k + 1..] == colons[1..] + port;
    SkipAll(colons[1..], port);
    assert [host] + [port] == [host, port];
  }

  lemma {:induction false} MachinesOfMore(a: seq<string>, b: seq<string>)
    ensures MachinesOf(a + b) == MachinesOf(a) + MachinesOf(b)
    decreases |b|
  {
    if b == [] {
      assert a + b == a;
    } else {
      assert (a + b)[..|a + b| - 1] == a + b[..|b| - 1];
      MachinesOfMore(a, b[..|b| - 1]);
    }
  }

  lemma OneLine(line: string)
    ensures var tokens := Tokens(line);
            MachinesOf([line]) == if |tokens| == 2 then [(tokens[0], tokens[1])] else []
  {
    assert [line][..0] == [] && [line][0] == line;
  }

  /** A line with a host and a port adds one machine, wherever it stands. */
  lemma MachineLine(before: seq<string>, host: string, colons: string, port: string, after: seq<string>)
    requires ':' !in host && ':' !in port
    requires colons != "" && forall i | 0 <= i < |colons| :: colons[i] == ':'
    ensures MachinesOf(before + [host + colons + port] + after)
         == MachinesOf(before) + [(host, port)] + MachinesOf(after)
  {
    var line := host + colons + port;
    HostAndPort(host, colons, port);
    OneLine(line);
    MachinesOfMore(before + [line], after);
    MachinesOfMore(before, [line]);
  }

  /** A line without a colon, or with more than two parts, adds none. */
  lemma OtherLine(before: seq<string>, line: string, after: seq<string>)
    requires || ':' !in line
             || exists a, b, c :: line == a + ":" + b + ":" + c && ':' !in a && ':' !in b && b != ""
    ensures MachinesOf(before + [line] + after) == MachinesOf(before) + MachinesOf(after)
  {
    if ':' !in line {
      UntilAt(line, |line|);
    } else {
      var a, b, c :| line == a + ":" + b + ":" + c && ':' !in a && ':' !in b && b != "";
      ThreeParts(a, b, c);
    }
    OneLine(line);
    MachinesOfMore(before + [line], after);
    MachinesOfMore(before, [line]);
    assert MachinesOf(before) + [] == MachinesOf(before);
  }

  lemma ThreeParts(a: string, b: string, c: string)
    requires ':' !in a && ':' !in b && b != ""
    ensures |Tokens(a + ":" + b + ":" + c)| > 2
  {
    var s, t := a + ":" + b + ":" + c, b + ":" + c;
    assert s == a + ":" + t && t[0] == b[0] && b[0] in b;
    FirstToken(a, t);
    FirstToken(b, c);
    assert SkipColons(t) == t;
  }

  lemma FirstToken(a: string, t: string)
    requires ':' !in a
    ensures Tokens(a + ":" + t) == [a] + Tokens(SkipColons(t)) && |Tokens(SkipColons(t))| > 0
  {
    var s := a + ":" + t;
    UntilAt(s, |a|);
    assert s[..|a|] == a && s[|a| + 1..] == t;
  }

  /** `LoadBalance`: two vectors of machine ids and the machines' loads, changed in place. */
  class LoadBalance {
    const machines: seq<(string, string)>
    var online: seq<int>
    var offline: seq<int>
    var loads: seq<nat>

    function View(): Fleet
      reads this
    {
      Fleet(online, offline, loads)
    }

    /** `LoadConf`, given the lines of the file; a line that does not split into two parts is skipped. */
    constructor (lines: seq<string>)
      ensures machines == MachinesOf(lines)
      ensures offline == [] && |online| == |loads| == |machines|
      ensures forall i | 0 <= i < |online| :: online[i] == i && loads[i] == 0
    {
      var ids: seq<int>, zeros: seq<nat>, found := [], [], [];
      for i := 0 to |lines|
        invariant |ids| == |zeros| == |found| && found == MachinesOf(lines[..i])
        invariant forall j | 0 <= j < |ids| :: ids[j] == j && zeros[j] == 0
      {
        assert lines[..i + 1][..i] == lines[..i];
        var tokens := Tokens(lines[i]);
        if |tokens| == 2 {
          ids := ids + [|found|];
          zeros := zeros + [0];
          found := found + [(tokens[0], tokens[1])];
        }
      }
      assert lines[..|lines|] == lines;
      machines, online, offline, loads := found, ids, [], zeros;
    }

    /** Refresh the online machines, then look for the first minimal load. */
    method SmartChoice(report: Report) returns (ok: bool, id: int)
      requires Valid(View())
      modifies `loads
      ensures ok <==> online != []
      ensures ok ==> View() == Refresh(old(View()), report) && Valid(View()) && IsChoice(View(), id)
      ensures !ok ==> View() == old(View())
    {
      id := 0;
      var n := |online|;
      if n == 0 {
        return false, id;
      }
      UpdateAll(report);
      var min := Load(View(), 0);
      id := online[0];
      ghost var best: nat := 0;
      for i := 0 to n
        invariant best < n && id == online[best] && min == Load(View(), best)
        invariant forall j | 0 <= j < i :: min <= Load(View(), j)
        invariant forall j | 0 <= j < best :: min < Load(View(), j)
      {
        var cur := Load(View(), i);
        if min > cur {
          min, id, best := cur, online[i], i;
        }
      }
      assert IsChoiceAt(View(), id, best);
      return true, id;
    }

    method UpdateAll(report: Report)
      requires Valid(View())
      modifies `loads
      ensures View() == Refresh(old(View()), report) && Valid(View())
    {
      for i := 0 to |online|
        invariant |loads| == |old(loads)|
        invariant forall j | 0 <= j < |loads| ::
          loads[j] == if j in online[..i] && report(j).Some? then report(j).value else old(loads)[j]
      {
        var id := online[i];
        assert id in online + offline;
        assert forall j :: j in online[..i + 1] <==> j in online[..i] || j == id;
        match report(id)
        case Some(load) => loads := loads[id := load];
        case None =>
      }
      assert online[..|online|] == online;
      forall id | id in online + offline
        ensures 0 <= id < |loads|
      {
        assert id in old(View()).online + old(View()).offline;
      }
    }

    /** Take `which` out of `online`, if it is still there. */
    method OfflineMachine(which: int)
      requires Valid(View())
      modifies this
      ensures View() == TakeOffline(old(View()), which)
    {
      for i := 0 to |online|
        invariant View() == old(View())
        invariant which !in online[..i]
      {
        if online[i] == which {
          assert which in online + offline;
          RemoveAt(online, i);
          loads := loads[which := 0];
          online := online[..i] + online[i + 1..];
          offline := offline + [which];
          return;
        }
        assert online[..i + 1] == online[..i] + [online[i]];
      }
      assert online[..|online|] == online;
    }

    method OnlineMachine()
      modifies this
      ensures View() == BringOnline(old(View()))
    {
      online := online + offline;
      offline := [];
    }

    /** `Machine::IncLoad`, on a 64-bit counter. */
    method IncLoad(id: int)
      requires 0 <= id < |loads|
      modifies `loads
      ensures View() == Incremented(old(View()), id)
    {
      loads := loads[id := (loads[id] + 1) % UINT64];
    }

    method DecLoad(id: int)
      requires 0 <= id < |loads|
      modifies `loads
      ensures View() == Decremented(old(View()), id)
    {
      loads := loads[id := (loads[id] + UINT64 - 1) % UINT64];
    }
  }

  lemma {:induction false} RemoveAt(s: seq<int>, i: nat)
    requires i < |s| && s[i] !in s[..i]
    ensures RemoveFirst(s, s[i]) == s[..i] + s[i + 1..]
  {
    if i > 0 {
      assert s[0] == s[..i][0];
      assert s[1..][..i - 1] == s[..i][1..];
      RemoveAt(s[1..], i - 1);
      assert s[1..][i..] == s[i + 1..];
    }
  }

  // Occurrences

  function Count(s: seq<int>, x: int): nat {
    if s == [] then 0 else (if s[0] == x then 1 else 0) + Count(s[1..], x)
  }

  lemma {:induction false} CountAppend(s: seq<int>, t: seq<int>, x: int)
    ensures Count(s + t, x) == Count(s, x) + Count(t, x)
  {
    if s == [] {
      assert s + t == t;
    } else {
      assert (s + t)[1..] == s[1..] + t;
      CountAppend(s[1..], t, x);
    }
  }

  lemma {:induction false} CountMember(s: seq<int>, x: int)
    ensures Count(s, x) > 0 <==> x in s
  {
    if s != [] {
      CountMember(s[1..], x);
      assert s == [s[0]] + s[1..];
    }
  }

  lemma {:induction false} CountRemoved(s: seq<int>, x: int, y: int)
    requires x in s
    ensures |RemoveFirst(s, x)| == |s| - 1
    ensures Count(RemoveFirst(s, x), y) == Count(s, y) - if x == y then 1 else 0
  {
    if s[0] != x {
      assert s == [s[0]] + s[1..];
      CountRemoved(s[1..], x, y);
      var r := RemoveFirst(s[1..], x);
      assert ([s[0]] + r)[1..] == r;
    }
  }

  // What the locked operations change, and what they leave

  lemma {:induction false} FirstAt(s: seq<int>, x: int) returns (k: nat)
    requires x in s
    ensures k < |s| && s[k] == x && x !in s[..k]
  {
    if s[0] == x {
      k := 0;
    } else {
      assert s == [s[0]] + s[1..];
      k := FirstAt(s[1..], x);
      k := k + 1;
      assert s[..k] == [s[0]] + s[1..][..k - 1];
    }
  }

  /** A report takes out one place of `online`, keeps the order of all others, and forgets the machine's load and
      no other load. */
  lemma OfflineMoves(f: Fleet, which: int) returns (k: nat)
    requires Valid(f) && which in f.online
    ensures k < |f.online| && f.online[k] == which && 0 <= which < |f.loads|
    ensures var g := TakeOffline(f, which);
      && g.online == f.online[..k] + f.online[k + 1..] && g.offline == f.offline + [which]
      && |g.loads| == |f.loads| && g.loads[which] == 0
      && forall id | 0 <= id < |f.loads| && id != which :: g.loads[id] == f.loads[id]
  {
    k := FirstAt(f.online, which);
    RemoveAt(f.online, k);
    assert which in f.online + f.offline;
  }

  /** Below the largest 64-bit number one more job is one more, and taking it back leaves the fleet as it was;
      taking one from zero leads to the largest number. */
  lemma JobAddedAndTaken(f: Fleet, id: int)
    requires 0 <= id < |f.loads| && f.loads[id] < 0xFFFF_FFFF_FFFF_FFFF
    ensures Incremented(f, id).loads[id] == f.loads[id] + 1
    ensures Decremented(Incremented(f, id), id) == f
    ensures Decremented(f, id).loads[id] == if f.loads[id] == 0 then 0xFFFF_FFFF_FFFF_FFFF else f.loads[id] - 1
  {
    assert f.loads[id := f.loads[id]] == f.loads;
  }

  // Where the loads come from

  /** What a machine reports about itself, over the reals; nothing in it is negative. */
  type Metric = x: real | x >= 0.0

  datatype Metrics = Metrics(cpu: Metric, memory: Metric, network: Metric, diskIo: Metric, connections: Metric,
                             load1: Metric, load5: Metric, load15: Metric, response: Metric)

  /** The weighted mean that `UpdateStatus` computes. */
  function TotalLoad(m: Metrics): (t: real)
    ensures t >= 0.0
  {
    m.cpu * 0.4 + m.memory * 0.2 + m.network * 0.1 + m.diskIo * 0.1 + m.connections * 0.05
    + (m.load1 + m.load5 + m.load15) * 0.1 / 3.0 + m.response * 0.05
  }

  /** What `UpdateStatus` stores, if the machine answers. */
  function ReportOf(status: int -> Option<Metrics>): Report {
    (id: int) => match status(id)
      case None => None
      case Some(m) => Some(TotalLoad(m).Floor as nat)
  }

  predicate Within(lo: Metrics, hi: Metrics) {
    && lo.cpu <= hi.cpu && lo.memory <= hi.memory && lo.network <= hi.network && lo.diskIo <= hi.diskIo
    && lo.connections <= hi.connections && lo.load1 <= hi.load1 && lo.load5 <= hi.load5
    && lo.load15 <= hi.load15 && lo.response <= hi.response
  }

  function Uniform(x: Metric): Metrics { Metrics(x, x, x, x, x, x, x, x, x) }

  /** The load never decreases when a metric grows, and lies between the extremes of the metrics. */
  lemma LoadIsAMean(m: Metrics, m': Metrics, lo: Metric, hi: Metric)
    requires Within(Uniform(lo), m) && Within(m, m') && Within(m', Uniform(hi))
    ensures lo.Floor <= TotalLoad(m).Floor <= TotalLoad(m').Floor <= hi.Floor
  {
    assert TotalLoad(Uniform(lo)) == lo && TotalLoad(Uniform(hi)) == hi;
  }

  /** After a refresh the load of an online machine that answered lies between the extremes of its metrics;
      every other load is what it was. */
  lemma RefreshedLoad(f: Fleet, status: int -> Option<Metrics>, id: int, lo: Metric, hi: Metric)
    requires 0 <= id < |f.loads|
    ensures var load := Refresh(f, ReportOf(status)).loads[id];
      match if id in f.online then status(id) else None
      case None => load == f.loads[id]
      case Some(m) => Within(Uniform(lo), m) && Within(m, Uniform(hi)) ==> lo.Floor <= load <= hi.Floor
  {
    if id in f.online && status(id).Some? {
      var m := status(id).value;
      if Within(Uniform(lo), m) && Within(m, Uniform(hi)) {
        LoadIsAMean(m, m, lo, hi);
      }
    }
  }

  /** A machine that is worse than another in no metric has no greater load, so it is not passed over for the
      other when it comes first. */
  lemma BetterMetricsWin(f: Fleet, status: int -> Option<Metrics>, i: nat, k: nat)
    requires Valid(f) && i < k < |f.online|
    requires status(f.online[i]).Some? && status(f.online[k]).Some?
    requires Within(status(f.online[i]).value, status(f.online[k]).value)
    ensures var g := Refresh(f, ReportOf(status)); Valid(g) && Load(g, i) <= Load(g, k)
    ensures !IsChoiceAt(Refresh(f, ReportOf(status)), f.online[k], k)
  {
    var g := Refresh(f, ReportOf(status));
    assert f.online[i] in f.online + f.offline && f.online[k] in f.online + f.offline;
    assert forall id | id in g.online + g.offline :: id in f.online + f.offline;
    var m, m' := status(f.online[i]).value, status(f.online[k]).value;
    LoadsOrdered(m, m');
  }

  lemma LoadsOrdered(m: Metrics, m': Metrics)
    requires Within(m, m')
    ensures TotalLoad(m).Floor <= TotalLoad(m').Floor
  {
    assert TotalLoad(m) <= TotalLoad(m');
  }

  /** The load that is stored, in three hundredths: forty for each point of the processor, twenty for memory,
      ten for network and for disk, five for connections and for the response time, and ten for the mean of the
      three load averages, rounded down. */
  lemma RefreshedWeights(f: Fleet, status: int -> Option<Metrics>, id: int, m: Metrics)
    requires 0 <= id < |f.loads| && id in f.online && status(id) == Some(m)
    ensures var load, weighed := Refresh(f, ReportOf(status)).loads[id],
              120.0 * m.cpu + 60.0 * m.memory + 30.0 * m.network + 30.0 * m.diskIo + 15.0 * m.connections
              + 10.0 * m.load1 + 10.0 * m.load5 + 10.0 * m.load15 + 15.0 * m.response;
            300.0 * load as real <= weighed < 300.0 * (load as real + 1.0)
  {
  }
}
