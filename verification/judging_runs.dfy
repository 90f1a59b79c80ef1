// Several judging runs at once over one temp directory, interleaved at every file operation, and the
// same run as one sequential method.
module JudgingRuns {
  import opened JudgingRun
  import opened Wrappers

  /** All that several calls of `Start` share is the temp directory. */
  datatype System = System(files: Files, locals: seq<Local>)

  function Begin(jobs: seq<Job>, fs: Files): System {
    System(fs, seq(|jobs|, i => START))
  }

  predicate For(jobs: seq<Job>, schedule: seq<nat>) {
    forall i | 0 <= i < |schedule| :: schedule[i] < |jobs|
  }

  function Turn(jobs: seq<Job>, s: System, t: nat): System
    requires t < |jobs| == |s.locals|
  {
    var r := Step(jobs[t], s.locals[t], s.files);
    System(r.1, s.locals[t := r.0])
  }

  /** `schedule` lists which run makes the next operation, the latest one last. */
  function Exec(jobs: seq<Job>, fs: Files, schedule: seq<nat>): (s: System)
    requires For(jobs, schedule)
    ensures |s.locals| == |jobs|
  {
    if schedule == [] then Begin(jobs, fs)
    else
      var t := schedule[|schedule| - 1];
      Turn(jobs, Exec(jobs, fs, schedule[..|schedule| - 1]), t)
  }

  function Turns(schedule: seq<nat>, t: nat): nat {
    if schedule == [] then 0
    else Turns(schedule[..|schedule| - 1], t) + if schedule[|schedule| - 1] == t then 1 else 0
  }

  /** `UniqFileName` gave the runs that need a name different names, none of them empty. */
  predicate NamesDistinct(jobs: seq<Job>) {
    && (forall i | 0 <= i < |jobs| && jobs[i].code != "" :: jobs[i].name != "")
    && forall i, k | 0 <= i < k < |jobs| && jobs[i].code != "" && jobs[k].code != "" :: jobs[i].name != jobs[k].name
  }

  /** None of the runs' files is there at the start. */
  predicate Vacant(jobs: seq<Job>, fs: Files) {
    forall i | 0 <= i < |jobs| :: Gone(fs, NameOf(jobs[i]), 6)
  }

  // A run without code changes nothing

  predicate Silent(l: Local) {
    l.name == "" && (l.pc.Entry? || (l.pc.Describe? && l.status == -1) || l.pc.Remove? || l.pc.Done?)
  }

  lemma SilentStep(j: Job, l: Local, fs: Files)
    requires j.code == "" && Silent(l) && Gone(fs, "", 6)
    ensures Silent(Step(j, l, fs).0) && Step(j, l, fs).1 == fs
  {
    if l.pc.Remove? && l.pc.k < 6 {
      assert Path("", l.pc.k) !in fs;
    }
  }

  lemma {:induction false} SilentAlone(j: Job, fs: Files, n: nat)
    requires j.code == "" && Gone(fs, "", 6)
    ensures Silent(Alone(j, fs, n).0) && Alone(j, fs, n).1 == fs
  {
    hide Step;
    if n > 0 {
      SilentAlone(j, fs, n - 1);
      SilentStep(j, Alone(j, fs, n - 1).0, fs);
    }
  }

  lemma {:induction false} AloneKeeps(j: Job, fs: Files, n: nat)
    requires Gone(fs, NameOf(j), 6)
    ensures Named(j, Alone(j, fs, n).0) && Tidy(j, Alone(j, fs, n).0, Alone(j, fs, n).1)
  {
    if n > 0 {
      AloneKeeps(j, fs, n - 1);
      StepNames(j, Alone(j, fs, n - 1).0, Alone(j, fs, n - 1).1);
      StepTidies(j, Alone(j, fs, n - 1).0, Alone(j, fs, n - 1).1);
    }
  }

  // The interleaving against the runs alone

  /** Run `t` is where it would be alone, and finds its files as it would find them alone. */
  ghost predicate AsAlone(jobs: seq<Job>, fs: Files, s: System, t: nat, n: nat)
    requires t < |jobs| == |s.locals|
  {
    s.locals[t] == Alone(jobs[t], fs, n).0 && Agree(s.files, Alone(jobs[t], fs, n).1, NameOf(jobs[t]))
  }

  ghost predicate Foreign(jobs: seq<Job>, path: string) {
    forall i | 0 <= i < |jobs| :: !Owns(NameOf(jobs[i]), path)
  }

  lemma OwnTurn(jobs: seq<Job>, fs: Files, s: System, t: nat, n: nat)
    requires t < |jobs| == |s.locals| && Vacant(jobs, fs) && AsAlone(jobs, fs, s, t, n)
    ensures AsAlone(jobs, fs, Turn(jobs, s, t), t, n + 1)
  {
    AloneKeeps(jobs[t], fs, n);
    StepLocal(jobs[t], s.locals[t], s.files, Alone(jobs[t], fs, n).1);
  }

  /** A turn of run `t` leaves every path outside its own files alone. */
  lemma TurnFrame(jobs: seq<Job>, fs: Files, s: System, t: nat, n: nat, path: string)
    requires t < |jobs| == |s.locals| && Vacant(jobs, fs) && AsAlone(jobs, fs, s, t, n)
    requires !Owns(NameOf(jobs[t]), path)
    ensures AgreeAt(Turn(jobs, s, t).files, s.files, path)
  {
    AloneKeeps(jobs[t], fs, n);
    StepFrame(jobs[t], s.locals[t], s.files, path);
  }

  lemma NotOwned(n: string, n': string, k: nat)
    requires n != n' && k < 6
    ensures !Owns(n, Path(n', k))
  {
    if Owns(n, Path(n', k)) {
      var k': nat :| k' < 6 && Path(n', k) == Path(n, k');
      PathTellsName(n', n, k, k');
    }
  }

  lemma OtherTurn(jobs: seq<Job>, fs: Files, s: System, t: nat, m: nat, i: nat, n: nat)
    requires NamesDistinct(jobs) && Vacant(jobs, fs)
    requires t < |jobs| == |s.locals| && i < |jobs| && i != t
    requires AsAlone(jobs, fs, s, t, m) && AsAlone(jobs, fs, s, i, n)
    ensures AsAlone(jobs, fs, Turn(jobs, s, t), i, n)
  {
    if jobs[t].code == "" {
      SilentTurn(jobs, fs, s, t, m);
    } else {
      assert NameOf(jobs[i]) != NameOf(jobs[t]);
      forall k: nat | k < 6
        ensures AgreeAt(Turn(jobs, s, t).files, Alone(jobs[i], fs, n).1, Path(NameOf(jobs[i]), k))
      {
        assert AgreeAt(s.files, Alone(jobs[i], fs, n).1, Path(NameOf(jobs[i]), k));
        NotOwned(NameOf(jobs[t]), NameOf(jobs[i]), k);
        TurnFrame(jobs, fs, s, t, m, Path(NameOf(jobs[i]), k));
      }
    }
  }

  lemma SilentTurn(jobs: seq<Job>, fs: Files, s: System, t: nat, m: nat)
    requires t < |jobs| == |s.locals| && Vacant(jobs, fs) && AsAlone(jobs, fs, s, t, m) && jobs[t].code == ""
    ensures Turn(jobs, s, t).files == s.files
  {
    SilentAlone(jobs[t], fs, m);
    assert Gone(s.files, "", 6) by {
      forall k: nat | k < 6
        ensures Path("", k) !in s.files
      {
        assert AgreeAt(s.files, Alone(jobs[t], fs, m).1, Path(NameOf(jobs[t]), k));
        assert Path(NameOf(jobs[t]), k) !in fs;
      }
    }
    SilentStep(jobs[t], s.locals[t], s.files);
  }

  ghost predicate AllAsAlone(jobs: seq<Job>, fs: Files, s: System, schedule: seq<nat>)
    requires |jobs| == |s.locals|
  {
    forall t: nat | t < |jobs| :: AsAlone(jobs, fs, s, t, Turns(schedule, t))
  }

  ghost predicate ForeignKept(jobs: seq<Job>, fs: Files, s: System) {
    forall path | Foreign(jobs, path) :: AgreeAt(s.files, fs, path)
  }

  lemma TurnAsAlone(jobs: seq<Job>, fs: Files, s: System, past: seq<nat>, t: nat, i: nat)
    requires NamesDistinct(jobs) && Vacant(jobs, fs) && i < |jobs|
    requires t < |jobs| == |s.locals| && AllAsAlone(jobs, fs, s, past)
    ensures AsAlone(jobs, fs, Turn(jobs, s, t), i, Turns(past + [t], i))
  {
    hide Step, Alone, Turn;
    assert (past + [t])[..|past|] == past;
    assert AsAlone(jobs, fs, s, t, Turns(past, t)) && AsAlone(jobs, fs, s, i, Turns(past, i));
    if i == t {
      OwnTurn(jobs, fs, s, t, Turns(past, t));
    } else {
      OtherTurn(jobs, fs, s, t, Turns(past, t), i, Turns(past, i));
    }
  }

  lemma AnyTurn(jobs: seq<Job>, fs: Files, s: System, past: seq<nat>, t: nat)
    requires NamesDistinct(jobs) && Vacant(jobs, fs)
    requires t < |jobs| == |s.locals| && AllAsAlone(jobs, fs, s, past) && ForeignKept(jobs, fs, s)
    ensures AllAsAlone(jobs, fs, Turn(jobs, s, t), past + [t]) && ForeignKept(jobs, fs, Turn(jobs, s, t))
  {
    forall i: nat | i < |jobs|
      ensures AsAlone(jobs, fs, Turn(jobs, s, t), i, Turns(past + [t], i))
    {
      TurnAsAlone(jobs, fs, s, past, t, i);
    }
    assert AsAlone(jobs, fs, s, t, Turns(past, t));
    forall path | Foreign(jobs, path)
      ensures AgreeAt(Turn(jobs, s, t).files, fs, path)
    {
      TurnFrame(jobs, fs, s, t, Turns(past, t), path);
    }
  }

  /** Whatever the interleaving, every run is where it would be alone after as many operations, and no
      file outside the runs has changed. */
  lemma {:induction false} RunsDoNotInterfere(jobs: seq<Job>, fs: Files, schedule: seq<nat>)
    requires NamesDistinct(jobs) && Vacant(jobs, fs) && For(jobs, schedule)
    ensures AllAsAlone(jobs, fs, Exec(jobs, fs, schedule), schedule)
    ensures ForeignKept(jobs, fs, Exec(jobs, fs, schedule))
    decreases |schedule|
  {
    if schedule != [] {
      var past, t := schedule[..|schedule| - 1], schedule[|schedule| - 1];
      RunsDoNotInterfere(jobs, fs, past);
      AnyTurn(jobs, fs, Exec(jobs, fs, past), past, t);
      assert past + [t] == schedule;
    }
  }

  /** Once every run has had its operations, each has the response it gives alone, and the temp
      directory is what it was before. */
  lemma DirectoryRestored(jobs: seq<Job>, fs: Files, schedule: seq<nat>)
    requires NamesDistinct(jobs) && Vacant(jobs, fs) && For(jobs, schedule)
    requires forall t: nat | t < |jobs| :: Turns(schedule, t) >= 20
    ensures var s := Exec(jobs, fs, schedule);
      && s.files == fs
      && forall t: nat | t < |jobs| :: s.locals[t] == Complete(jobs[t], START, fs).0
  {
    var s := Exec(jobs, fs, schedule);
    RunsDoNotInterfere(jobs, fs, schedule);
    forall t: nat | t < |jobs|
      ensures s.locals[t] == Complete(jobs[t], START, fs).0
    {
      assert AsAlone(jobs, fs, s, t, Turns(schedule, t));
      AloneCompletes(jobs[t], fs, Turns(schedule, t));
    }
    forall path
      ensures AgreeAt(s.files, fs, path)
    {
      PathRestored(jobs, fs, schedule, path);
    }
    SameFiles(s.files, fs);
  }

  lemma PathRestored(jobs: seq<Job>, fs: Files, schedule: seq<nat>, path: string)
    requires NamesDistinct(jobs) && Vacant(jobs, fs) && For(jobs, schedule)
    requires forall t: nat | t < |jobs| :: Turns(schedule, t) >= 20
    ensures AgreeAt(Exec(jobs, fs, schedule).files, fs, path)
  {
    var s := Exec(jobs, fs, schedule);
    RunsDoNotInterfere(jobs, fs, schedule);
    if !Foreign(jobs, path) {
      var t :| 0 <= t < |jobs| && Owns(NameOf(jobs[t]), path);
      var k: nat :| k < 6 && path == Path(NameOf(jobs[t]), k);
      var n := Turns(schedule, t);
      assert AsAlone(jobs, fs, s, t, n);
      AloneDescends(jobs[t], fs, n);
      AloneKeeps(jobs[t], fs, n);
      assert AgreeAt(s.files, Alone(jobs[t], fs, n).1, Path(NameOf(jobs[t]), k));
    }
  }

  lemma SameFiles(fs: Files, fs': Files)
    requires forall path :: AgreeAt(fs, fs', path)
    ensures fs == fs'
  {
    forall path
      ensures path in fs <==> path in fs'
      ensures path in fs ==> fs[path] == fs'[path]
    {
      assert AgreeAt(fs, fs', path);
    }
  }

  /** The run to its end. */
  function Complete(j: Job, l: Local, fs: Files): (Local, Files)
    decreases Rank(l.pc)
  {
    if l.pc.Done? then (l, fs)
    else
      StepDescends(j, l, fs);
      var r := Step(j, l, fs);
      Complete(j, r.0, r.1)
  }

  lemma OneStep(j: Job, l: Local, fs: Files)
    ensures Complete(j, l, fs) == Complete(j, Step(j, l, fs).0, Step(j, l, fs).1)
  {
  }

  lemma {:induction false} AloneToComplete(j: Job, fs: Files, n: nat)
    ensures var r := Alone(j, fs, n); Complete(j, r.0, r.1) == Complete(j, START, fs)
  {
    hide Step, Complete;
    if n > 0 {
      AloneToComplete(j, fs, n - 1);
      var r := Alone(j, fs, n - 1);
      OneStep(j, r.0, r.1);
    }
  }

  lemma AloneCompletes(j: Job, fs: Files, n: nat)
    requires n >= 20
    ensures Alone(j, fs, n) == Complete(j, START, fs)
  {
    AloneToComplete(j, fs, n);
    AloneDescends(j, fs, n);
  }
}
