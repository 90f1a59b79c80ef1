// What a judging run answers, told without any file: the reference for the pipeline of
// `compile_server/compile_run.hpp`.
module Verdict {
  import opened JudgingRun
  import opened JudgingRuns
  import opened Wrappers

  function Plain(status: int, reason: Reason): Response { Response(status, reason, None, None) }

  function Signal(code: int): Reason {
    if code == 0 then Success
    else if code == 6 then MemoryExceeded
    else if code == 24 then CpuExceeded
    else if code == 8 then FloatingPoint
    else if code == 11 then SegmentationFault
    else OtherSignal(code)
  }

  function Ran(out: string, err: string, signal: nat): Response {
    if signal == 0 then Response(0, Success, Some(KeepLines(out)), Some(KeepLines(err)))
    else Plain(signal, Signal(signal))
  }

  /** The response to a job, from its code and input, the compiler and the program alone. */
  function Verdict(j: Job): Response {
    if j.code == "" then Plain(-1, EmptyCode)
    else if !j.srcOpens || !j.inputOpens then Plain(-2, Unknown)
    else
      match j.compiler(Some(j.code))
      case NoChild => Plain(-3, CompilerSays(""))
      case Compiled(errors, None) => Plain(-3, CompilerSays(if errors.Some? then KeepLines(errors.value) else ""))
      case Compiled(_, Some(exe)) =>
        if !j.stdinOpens || !j.stdoutOpens || !j.stderrOpens then Plain(-2, Unknown)
        else
          Finished(j.program(exe, j.input))
  }

  /** What becomes of the program. */
  function Finished(e: Execution): Response {
    match e
    case NoProcess => Plain(-2, Unknown)
    case Executed(out, err, waitStatus) => Ran(out, err, waitStatus % 128)
  }

  // From the common exit on

  /** What the exit makes of a status and the files there are. */
  function Answer(status: int, name: string, fs: Files): Response {
    var reason := CodeToDesc(status, name, fs);
    if status == 0 then
      Response(status, reason, Some(ReadFile(fs, Path(name, STDOUT))), Some(ReadFile(fs, Path(name, STDERR))))
    else Plain(status, reason)
  }

  lemma {:induction false} RemovalAnswers(j: Job, l: Local, fs: Files)
    requires l.pc.Remove? || l.pc.Done?
    ensures Complete(j, l, fs).0.response == l.response
    decreases Rank(l.pc)
  {
    if l.pc.Remove? {
      StepDescends(j, l, fs);
      RemovalAnswers(j, Step(j, l, fs).0, Step(j, l, fs).1);
    }
  }

  lemma Next(j: Job, l: Local, fs: Files, l': Local, fs': Files)
    requires !l.pc.Done? && Step(j, l, fs) == (l', fs')
    ensures Complete(j, l, fs) == Complete(j, l', fs')
  {
  }

  lemma ExitAnswers(j: Job, l: Local, fs: Files)
    requires l.pc.Describe? && l.response == START.response
    ensures Complete(j, l, fs).0.response == Answer(l.status, l.name, fs)
  {
    var l1 := Step(j, l, fs).0;
    Next(j, l, fs, l1, fs);
    if l.status == 0 {
      var l2 := Step(j, l1, fs).0;
      Next(j, l1, fs, l2, fs);
      var l3 := Step(j, l2, fs).0;
      Next(j, l2, fs, l3, fs);
      RemovalAnswers(j, l3, fs);
    } else {
      RemovalAnswers(j, l1, fs);
    }
  }

  // The stages

  lemma Executes(j: Job, l: Local, fs: Files)
    requires l.pc.Execute? && l.response == START.response
    requires Get(fs, Path(l.name, STDOUT)) == Some("") && Get(fs, Path(l.name, STDERR)) == Some("")
    ensures Complete(j, l, fs).0.response ==
            Finished(j.program(ContentOf(fs, Path(l.name, EXE)), ContentOf(fs, Path(l.name, STDIN))))
  {
    var r := Step(j, l, fs);
    Next(j, l, fs, r.0, r.1);
    ExitAnswers(j, r.0, r.1);
    var p := j.program(ContentOf(fs, Path(l.name, EXE)), ContentOf(fs, Path(l.name, STDIN)));
    if p.Executed? {
      SixPaths(l.name);
      assert p.out + "" == p.out && p.err + "" == p.err;
    }
  }

  lemma SixPaths(name: string)
    ensures forall k: nat, m: nat | k < m < 6 :: Path(name, k) != Path(name, m)
  {
    forall k: nat, m: nat | k < m < 6
      ensures Path(name, k) != Path(name, m)
    {
      var n := |TEMP + name|;
      assert Path(name, k)[n..] == SUFFIXES[k] && Path(name, m)[n..] == SUFFIXES[m];
      Suffixes(k, m);
    }
  }

  lemma Suffixes(k: nat, m: nat)
    requires k < m < 6
    ensures SUFFIXES[k] != SUFFIXES[m]
  {
    assert |SUFFIXES[k]| != |SUFFIXES[m]| || SUFFIXES[k][|SUFFIXES[k]| - 1] != SUFFIXES[m][|SUFFIXES[m]| - 1];
  }

  lemma Opens(j: Job, l: Local, fs: Files)
    requires l.pc.OpenStdin? && l.allOpen && l.response == START.response
    requires Path(l.name, STDIN) in fs && Path(l.name, STDOUT) !in fs && Path(l.name, STDERR) !in fs
    ensures Complete(j, l, fs).0.response ==
            if !j.stdinOpens || !j.stdoutOpens || !j.stderrOpens then Plain(-2, Unknown)
            else Finished(j.program(ContentOf(fs, Path(l.name, EXE)), fs[Path(l.name, STDIN)]))
  {
    SixPaths(l.name);
    var r1 := Step(j, l, fs);
    Next(j, l, fs, r1.0, r1.1);
    var r2 := Step(j, r1.0, r1.1);
    Next(j, r1.0, r1.1, r2.0, r2.1);
    var r3 := Step(j, r2.0, r2.1);
    Next(j, r2.0, r2.1, r3.0, r3.1);
    if r3.0.pc.Execute? {
      Executes(j, r3.0, r3.1);
    } else {
      ExitAnswers(j, r3.0, r3.1);
    }
  }

  lemma Compiles(j: Job, l: Local, fs: Files)
    requires l.pc.Compile? && l.allOpen && l.response == START.response
    requires Get(fs, Path(l.name, SRC)) == Some(j.code) && Get(fs, Path(l.name, STDIN)) == Some(j.input)
    requires Path(l.name, COMPILE_ERR) !in fs && Path(l.name, EXE) !in fs
    requires Path(l.name, STDOUT) !in fs && Path(l.name, STDERR) !in fs
    ensures Complete(j, l, fs).0.response ==
            match j.compiler(Some(j.code))
            case NoChild => Plain(-3, CompilerSays(""))
            case Compiled(errors, None) => Plain(-3, CompilerSays(if errors.Some? then KeepLines(errors.value) else ""))
            case Compiled(_, Some(exe)) =>
              if !j.stdinOpens || !j.stdoutOpens || !j.stderrOpens then Plain(-2, Unknown)
              else Finished(j.program(exe, j.input))
  {
    SixPaths(l.name);
    var r := Step(j, l, fs);
    Next(j, l, fs, r.0, r.1);
    if r.0.pc.Describe? {
      ExitAnswers(j, r.0, r.1);
    } else {
      var r2 := Step(j, r.0, r.1);
      Next(j, r.0, r.1, r2.0, r2.1);
      var c := j.compiler(Some(j.code));
      assert c.errors.Some? ==> c.errors.value + "" == c.errors.value;
      if c.exe.Some? {
        Opens(j, r2.0, r2.1);
      } else {
        ExitAnswers(j, r2.0, r2.1);
      }
    }
  }

  /** A run that finds none of its files answers what the verdict says. */
  lemma RunAnswersVerdict(j: Job, fs: Files)
    requires Gone(fs, NameOf(j), 6)
    ensures Complete(j, START, fs).0.response == Verdict(j)
  {
    var r1 := Step(j, START, fs);
    Next(j, START, fs, r1.0, r1.1);
    if j.code == "" {
      ExitAnswers(j, r1.0, fs);
    } else {
      SixPaths(j.name);
      var r2 := Step(j, r1.0, fs);
      Next(j, r1.0, fs, r2.0, fs);
      var r3 := Step(j, r2.0, fs);
      Next(j, r2.0, fs, r3.0, r3.1);
      if !j.srcOpens {
        ExitAnswers(j, r3.0, r3.1);
      } else {
        var r4 := Step(j, r3.0, r3.1);
        Next(j, r3.0, r3.1, r4.0, r4.1);
        if !j.inputOpens {
          ExitAnswers(j, r4.0, r4.1);
        } else {
          Compiles(j, r4.0, r4.1);
        }
      }
    }
  }

  /** However the runs are interleaved, each of them answers its verdict. */
  lemma EveryRunAnswersVerdict(jobs: seq<Job>, fs: Files, schedule: seq<nat>, t: nat)
    requires NamesDistinct(jobs) && Vacant(jobs, fs) && For(jobs, schedule)
    requires (forall i: nat | i < |jobs| :: Turns(schedule, i) >= 20) && t < |jobs|
    ensures JudgingRuns.Exec(jobs, fs, schedule).locals[t].response == Verdict(jobs[t])
  {
    DirectoryRestored(jobs, fs, schedule);
    RunAnswersVerdict(jobs[t], fs);
  }

  // The answers, spelled out

  /** All stages before the program succeed, and it is run. */
  predicate Runs(j: Job, e: Execution) {
    && j.code != "" && j.srcOpens && j.inputOpens && j.stdinOpens && j.stdoutOpens && j.stderrOpens
    && j.compiler(Some(j.code)).Compiled? && j.compiler(Some(j.code)).exe.Some?
    && e == j.program(j.compiler(Some(j.code)).exe.value, j.input)
  }

  /** What a program that ends without a signal has written is answered as it is, but for a line feed behind a
      last line that has none. */
  lemma OutputsAnswered(j: Job, fs: Files, out: string, err: string, waitStatus: nat)
    requires Gone(fs, NameOf(j), 6) && Runs(j, Executed(out, err, waitStatus)) && waitStatus % 128 == 0
    ensures Complete(j, START, fs).0.response
         == Response(0, Success,
                     Some(if out == "" || out[|out| - 1] == '\n' then out else out + "\n"),
                     Some(if err == "" || err[|err| - 1] == '\n' then err else err + "\n"))
  {
    RunAnswersVerdict(j, fs);
  }

  /** A program that is ended by a signal leaves no outputs in the answer, only the signal. */
  lemma SignalAnswered(j: Job, fs: Files, out: string, err: string, waitStatus: nat)
    requires Gone(fs, NameOf(j), 6) && Runs(j, Executed(out, err, waitStatus)) && waitStatus % 128 != 0
    ensures var r, signal := Complete(j, START, fs).0.response, waitStatus % 128;
            && r.status == signal && r.stdout == None && r.stderr == None
            && (signal == 6 <==> r.reason == MemoryExceeded) && (signal == 24 <==> r.reason == CpuExceeded)
            && (signal == 8 <==> r.reason == FloatingPoint) && (signal == 11 <==> r.reason == SegmentationFault)
            && (signal !in {6, 8, 11, 24} ==> r.reason == OtherSignal(signal))
  {
    RunAnswersVerdict(j, fs);
  }

  /** What the compiler says about a source for which it makes no executable is the reason of the answer, ended
      by a line feed in the same way. */
  lemma CompilerAnswered(j: Job, fs: Files, text: string)
    requires Gone(fs, NameOf(j), 6) && j.code != "" && j.srcOpens && j.inputOpens
    requires j.compiler(Some(j.code)) == Compiled(Some(text), None)
    ensures Complete(j, START, fs).0.response
         == Response(-3, CompilerSays(if text == "" || text[|text| - 1] == '\n' then text else text + "\n"),
                     None, None)
  {
    RunAnswersVerdict(j, fs);
  }
}
