// `CompileAndRun::Start` with `Compiler::Compile`, `Runner::Run` and `RemoveTempFile`: one judging run
// over the files of the temp directory, as a sequence of file operations.
module JudgingRun {
  import opened Wrappers

  /** Contents by path; a path that is not in the map has no file. */
  type Files = map<string, string>

  const TEMP := "./temp/"

  /** In the order in which `RemoveTempFile` takes them. */
  const SUFFIXES := [".cpp", ".compile_err", ".exe", ".stdin", ".stdout", ".stderr"]

  const SRC := 0
  const COMPILE_ERR := 1
  const EXE := 2
  const STDIN := 3
  const STDOUT := 4
  const STDERR := 5

  /** `PathUtil::AddSuffix`. */
  function Path(name: string, k: nat): string
    requires k < 6
  {
    TEMP + name + SUFFIXES[k]
  }

  ghost predicate Owns(name: string, path: string) {
    exists k: nat | k < 6 :: path == Path(name, k)
  }

  /** What the compiler does with a source: the child may fail to start or to open its error file. */
  datatype Compilation = NoChild | Compiled(errors: Option<string>, exe: Option<string>)

  /** What the program writes, and the status `waitpid` gives for it. */
  datatype Execution = NoProcess | Executed(out: string, err: string, waitStatus: nat)

  /** The request, and the answers of the world around the run. */
  datatype Job = Job(
    code: string, input: string, name: string,
    srcOpens: bool, inputOpens: bool, compiler: Option<string> -> Compilation,
    stdinOpens: bool, stdoutOpens: bool, stderrOpens: bool, program: (string, string) -> Execution)

  datatype Reason =
    | Success | EmptyCode | Unknown | CompilerSays(text: string)
    | MemoryExceeded | CpuExceeded | FloatingPoint | SegmentationFault | OtherSignal(code: int)

  datatype Response = Response(status: int, reason: Reason, stdout: Option<string>, stderr: Option<string>)

  datatype Pc =
    | Entry | Naming | WriteSrc | WriteInput | Compile | TestExe
    | OpenStdin | OpenStdout | OpenStderr | Execute
    | Describe | ReadStdout | ReadStderr | Remove(k: nat) | Done

  /** The local variables of `Start` and `Run`. */
  datatype Local = Local(pc: Pc, name: string, status: int, allOpen: bool, response: Response)

  const START := Local(Entry, "", 0, true, Response(0, Success, None, None))

  function Get(fs: Files, path: string): Option<string> {
    if path in fs then Some(fs[path]) else None
  }

  /** Opened with `O_CREAT` and without `O_TRUNC`. */
  function Created(fs: Files, path: string): Files {
    if path in fs then fs else fs[path := ""]
  }

  /** Written from the start over what may be there already. */
  function Overlaid(fs: Files, path: string, text: string): Files {
    var was := if path in fs then fs[path] else "";
    fs[path := text + if |text| <= |was| then was[|text|..] else ""]
  }

  /** `ReadFile` with `keep`: every line, the last one too, ends with a line feed. */
  function KeepLines(text: string): string {
    if text == "" || text[|text| - 1] == '\n' then text else text + "\n"
  }

  function ReadFile(fs: Files, path: string): string {
    match Get(fs, path) case Some(text) => KeepLines(text) case None => ""
  }

  function CodeToDesc(code: int, name: string, fs: Files): Reason {
    if code == 0 then Success
    else if code == -1 then EmptyCode
    else if code == -2 then Unknown
    else if code == -3 then CompilerSays(ReadFile(fs, Path(name, COMPILE_ERR)))
    else if code == 6 then MemoryExceeded
    else if code == 24 then CpuExceeded
    else if code == 8 then FloatingPoint
    else if code == 11 then SegmentationFault
    else OtherSignal(code)
  }

  function Fail(l: Local, status: int): Local { l.(status := status, pc := Describe) }

  /** Open one of the three standard files; a failure is looked at after all three. */
  function Opened(l: Local, fs: Files, opens: bool, path: string, next: Pc): (Local, Files) {
    if opens then (l.(pc := next), Created(fs, path)) else (l.(allOpen := false, pc := next), fs)
  }

  /** One operation of the run. */
  function Step(j: Job, l: Local, fs: Files): (Local, Files) {
    match l.pc
    case Entry => (if j.code == "" then Fail(l, -1) else l.(pc := Naming), fs)
    case Naming => (l.(name := j.name, pc := WriteSrc), fs)
    case WriteSrc =>
      if j.srcOpens then (l.(pc := WriteInput), fs[Path(l.name, SRC) := j.code]) else (Fail(l, -2), fs)
    case WriteInput =>
      if j.inputOpens then (l.(pc := Compile), fs[Path(l.name, STDIN) := j.input]) else (Fail(l, -2), fs)
    case Compile =>
      (match j.compiler(Get(fs, Path(l.name, SRC)))
       case NoChild => (Fail(l, -3), fs)
       case Compiled(errors, exe) =>
         var fs1 := if errors.Some? then Overlaid(fs, Path(l.name, COMPILE_ERR), errors.value) else fs;
         (l.(pc := TestExe), if exe.Some? then fs1[Path(l.name, EXE) := exe.value] else fs1))
    case TestExe => (if Path(l.name, EXE) in fs then l.(pc := OpenStdin) else Fail(l, -3), fs)
    case OpenStdin => Opened(l, fs, j.stdinOpens, Path(l.name, STDIN), OpenStdout)
    case OpenStdout => Opened(l, fs, j.stdoutOpens, Path(l.name, STDOUT), OpenStderr)
    case OpenStderr =>
      var r := Opened(l, fs, j.stderrOpens, Path(l.name, STDERR), Execute);
      if r.0.allOpen then r else (Fail(r.0, -2), r.1)
    case Execute =>
      (match j.program(ContentOf(fs, Path(l.name, EXE)), ContentOf(fs, Path(l.name, STDIN)))
       case NoProcess => (Fail(l, -2), fs)
       case Executed(out, err, waitStatus) =>
         var fs1 := Overlaid(fs, Path(l.name, STDOUT), out);
         (Fail(l, waitStatus % 128), Overlaid(fs1, Path(l.name, STDERR), err)))
    case Describe =>
      var r := l.response.(status := l.status, reason := CodeToDesc(l.status, l.name, fs));
      (l.(response := r, pc := if l.status == 0 then ReadStdout else Remove(0)), fs)
    case ReadStdout =>
      (l.(response := l.response.(stdout := Some(ReadFile(fs, Path(l.name, STDOUT)))), pc := ReadStderr), fs)
    case ReadStderr =>
      (l.(response := l.response.(stderr := Some(ReadFile(fs, Path(l.name, STDERR)))), pc := Remove(0)), fs)
    case Remove(k) =>
      if k < 6 then (l.(pc := if k == 5 then Done else Remove(k + 1)), fs - {Path(l.name, k)})
      else (l.(pc := Done), fs)
    case Done => (l, fs)
  }

  function ContentOf(fs: Files, path: string): string { if path in fs then fs[path] else "" }

  /** The run on its own, after `n` operations. */
  function Alone(j: Job, fs: Files, n: nat): (Local, Files) {
    if n == 0 then (START, fs)
    else
      var r := Alone(j, fs, n - 1);
      Step(j, r.0, r.1)
  }

  // Every run comes to its common exit, and leaves nothing behind

  function Rank(pc: Pc): nat {
    match pc
    case Entry => 20 case Naming => 19 case WriteSrc => 18 case WriteInput => 17
    case Compile => 16 case TestExe => 15 case OpenStdin => 14 case OpenStdout => 13
    case OpenStderr => 12 case Execute => 11 case Describe => 10 case ReadStdout => 9
    case ReadStderr => 8 case Remove(k) => if k <= 6 then 7 - k else 1
    case Done => 0
  }

  lemma StepDescends(j: Job, l: Local, fs: Files)
    ensures !l.pc.Done? ==> Rank(Step(j, l, fs).0.pc) < Rank(l.pc)
  {
    hide CodeToDesc, Overlaid, Created, ReadFile, ContentOf, Path;
  }

  lemma {:induction false} AloneDescends(j: Job, fs: Files, n: nat)
    ensures Rank(Alone(j, fs, n).0.pc) + n <= 20 || Alone(j, fs, n).0.pc.Done?
  {
    if n > 0 {
      AloneDescends(j, fs, n - 1);
      var r := Alone(j, fs, n - 1);
      StepDescends(j, r.0, r.1);
    }
  }

  /** A run that has not been named yet works under the empty name, as `RemoveTempFile` does when the
      code is empty. */
  function NameOf(j: Job): string { if j.code == "" then "" else j.name }

  predicate Named(j: Job, l: Local) {
    if l.pc.Entry? || l.pc.Naming? then l.name == "" && (l.pc.Naming? ==> j.code != "")
    else l.name == NameOf(j)
  }

  /** Files of the run that may exist at this point. */
  ghost predicate Tidy(j: Job, l: Local, fs: Files) {
    match l.pc
    case Entry => Gone(fs, NameOf(j), 6)
    case Naming => Gone(fs, NameOf(j), 6)
    case Remove(i) => i <= 6 && Gone(fs, NameOf(j), i)
    case Done => Gone(fs, NameOf(j), 6)
    case _ => true
  }

  lemma NameKept(j: Job, l: Local, fs: Files)
    requires !l.pc.Entry? && !l.pc.Naming?
    ensures var l' := Step(j, l, fs).0; l'.name == l.name && !l'.pc.Entry? && !l'.pc.Naming?
  {
    hide CodeToDesc, Overlaid, Created, ReadFile, ContentOf, Path;
  }

  lemma StepNames(j: Job, l: Local, fs: Files)
    requires Named(j, l)
    ensures Named(j, Step(j, l, fs).0)
  {
    if !l.pc.Entry? && !l.pc.Naming? {
      NameKept(j, l, fs);
      assert Step(j, l, fs).0.name == NameOf(j);
    }
  }

  predicate Gone(fs: Files, name: string, i: nat) {
    forall k: nat | k < 6 && k < i :: Path(name, k) !in fs
  }

  lemma NextPc(j: Job, l: Local, fs: Files)
    requires !l.pc.Entry? && !l.pc.Remove?
    ensures !Step(j, l, fs).0.pc.Entry? && !Step(j, l, fs).0.pc.Naming?
  {
    hide CodeToDesc, Overlaid, Created, ReadFile, ContentOf, Path;
  }

  lemma RemovalStarts(j: Job, l: Local, fs: Files, pc: Pc)
    requires !l.pc.Remove? && pc == Step(j, l, fs).0.pc
    ensures (pc.Done? ==> l.pc.Done?) && (pc.Remove? ==> pc.k == 0)
  {
    hide CodeToDesc, Overlaid, Created, ReadFile, ContentOf, Path;
  }

  lemma StepTidies(j: Job, l: Local, fs: Files)
    requires Named(j, l) && Tidy(j, l, fs)
    ensures Tidy(j, Step(j, l, fs).0, Step(j, l, fs).1)
  {
    if l.pc.Remove? {
      if l.pc.k < 6 { RemovalTidies(j, l, fs); }
    } else if !l.pc.Entry? {
      NextPc(j, l, fs);
      RemovalStarts(j, l, fs, Step(j, l, fs).0.pc);
    }
  }

  lemma RemovalTidies(j: Job, l: Local, fs: Files)
    requires l.pc.Remove? && l.pc.k < 6 && l.name == NameOf(j) && Tidy(j, l, fs)
    ensures Tidy(j, Step(j, l, fs).0, Step(j, l, fs).1)
  {
    var i, n := l.pc.k, NameOf(j);
    assert Gone(fs - {Path(n, i)}, n, i + 1);
  }

  // What one operation touches and depends on

  ghost predicate Agree(fs: Files, fs': Files, name: string) {
    forall k: nat | k < 6 :: AgreeAt(fs, fs', Path(name, k))
  }

  predicate AgreeAt(fs: Files, fs': Files, path: string) { Get(fs, path) == Get(fs', path) }

  lemma CreatedAgrees(fs: Files, fs': Files, path: string, p: string)
    requires AgreeAt(fs, fs', path) && AgreeAt(fs, fs', p)
    ensures AgreeAt(Created(fs, path), Created(fs', path), p)
  {
  }

  lemma OverlaidAgrees(fs: Files, fs': Files, path: string, text: string, p: string)
    requires AgreeAt(fs, fs', path) && AgreeAt(fs, fs', p)
    ensures AgreeAt(Overlaid(fs, path, text), Overlaid(fs', path, text), p)
  {
  }

  /** One operation sees only the six files of its run. */
  lemma StepLocal(j: Job, l: Local, fs: Files, fs': Files)
    requires Named(j, l) && Agree(fs, fs', NameOf(j))
    ensures Step(j, l, fs).0 == Step(j, l, fs').0
    ensures Agree(Step(j, l, fs).1, Step(j, l, fs').1, NameOf(j))
  {
    forall k: nat | k < 6
      ensures AgreeAt(Step(j, l, fs).1, Step(j, l, fs').1, Path(NameOf(j), k))
    {
      StepAgreesAt(j, l, fs, fs', Path(NameOf(j), k));
    }
    StepDecides(j, l, fs, fs');
  }

  lemma StepDecides(j: Job, l: Local, fs: Files, fs': Files)
    requires Named(j, l) && Agree(fs, fs', NameOf(j))
    ensures Step(j, l, fs).0 == Step(j, l, fs').0
  {
    AgreeAtEach(j, l, fs, fs');
    match l.pc
    case Describe => assert CodeToDesc(l.status, l.name, fs) == CodeToDesc(l.status, l.name, fs');
    case Compile =>
    case Execute =>
    case _ =>
  }

  lemma AgreeAtEach(j: Job, l: Local, fs: Files, fs': Files)
    requires Named(j, l) && Agree(fs, fs', NameOf(j))
    ensures !l.pc.Entry? && !l.pc.Naming? ==>
      && AgreeAt(fs, fs', Path(l.name, SRC)) && AgreeAt(fs, fs', Path(l.name, COMPILE_ERR))
      && AgreeAt(fs, fs', Path(l.name, EXE)) && AgreeAt(fs, fs', Path(l.name, STDIN))
      && AgreeAt(fs, fs', Path(l.name, STDOUT)) && AgreeAt(fs, fs', Path(l.name, STDERR))
  {
  }

  lemma StepAgreesAt(j: Job, l: Local, fs: Files, fs': Files, p: string)
    requires Named(j, l) && Agree(fs, fs', NameOf(j)) && AgreeAt(fs, fs', p)
    ensures AgreeAt(Step(j, l, fs).1, Step(j, l, fs').1, p)
  {
    AgreeAtEach(j, l, fs, fs');
    match l.pc
    case Compile =>
      CompileAgreesAt(j, l, fs, fs', p);
    case Execute => ExecuteAgreesAt(j, l, fs, fs', p);
    case OpenStdin => CreatedAgrees(fs, fs', Path(l.name, STDIN), p);
    case OpenStdout => CreatedAgrees(fs, fs', Path(l.name, STDOUT), p);
    case OpenStderr => CreatedAgrees(fs, fs', Path(l.name, STDERR), p);
    case _ =>
  }

  lemma CompileAgreesAt(j: Job, l: Local, fs: Files, fs': Files, p: string)
    requires l.pc.Compile? && AgreeAt(fs, fs', p)
    requires AgreeAt(fs, fs', Path(l.name, SRC)) && AgreeAt(fs, fs', Path(l.name, COMPILE_ERR))
    ensures AgreeAt(Step(j, l, fs).1, Step(j, l, fs').1, p)
  {
    var c := j.compiler(Get(fs, Path(l.name, SRC)));
    if c.Compiled? && c.errors.Some? {
      OverlaidAgrees(fs, fs', Path(l.name, COMPILE_ERR), c.errors.value, p);
    }
  }

  lemma ExecuteAgreesAt(j: Job, l: Local, fs: Files, fs': Files, p: string)
    requires l.pc.Execute? && AgreeAt(fs, fs', p)
    requires AgreeAt(fs, fs', Path(l.name, EXE)) && AgreeAt(fs, fs', Path(l.name, STDIN))
    requires AgreeAt(fs, fs', Path(l.name, STDOUT)) && AgreeAt(fs, fs', Path(l.name, STDERR))
    ensures AgreeAt(Step(j, l, fs).1, Step(j, l, fs').1, p)
  {
    var c := j.program(ContentOf(fs, Path(l.name, EXE)), ContentOf(fs, Path(l.name, STDIN)));
    if c.Executed? {
      var out, err := Path(l.name, STDOUT), Path(l.name, STDERR);
      OverlaidAgrees(fs, fs', out, c.out, p);
      OverlaidAgrees(fs, fs', out, c.out, err);
      OverlaidAgrees(Overlaid(fs, out, c.out), Overlaid(fs', out, c.out), err, c.err, p);
    }
  }

  lemma StepFrame(j: Job, l: Local, fs: Files, path: string)
    requires Named(j, l) && !Owns(NameOf(j), path)
    ensures Get(Step(j, l, fs).1, path) == Get(fs, path)
  {
    assert forall k: nat | k < 6 :: path != Path(NameOf(j), k);
  }

  // Different names have different files

  function LastDot(s: string): int {
    if s == "" then -1 else if s[|s| - 1] == '.' then |s| - 1 else LastDot(s[..|s| - 1])
  }

  lemma LastDotAt(a: string, s: string)
    requires s != "" && s[0] == '.' && '.' !in s[1..]
    ensures LastDot(a + s) == |a|
    decreases |s|
  {
    if |s| > 1 {
      var t := s[..|s| - 1];
      assert s[|s| - 1] == s[1..][|s| - 2];
      assert t[1..] == s[1..][..|s| - 2];
      assert (a + s)[..|a + s| - 1] == a + t;
      LastDotAt(a, t);
    }
  }

  lemma SuffixDots(k: nat)
    requires k < 6
    ensures SUFFIXES[k] != "" && SUFFIXES[k][0] == '.' && '.' !in SUFFIXES[k][1..]
  {
  }

  /** The last dot of a path tells where its name ends, so runs with distinct names share no path. */
  lemma PathTellsName(n: string, n': string, k: nat, k': nat)
    requires k < 6 && k' < 6 && Path(n, k) == Path(n', k')
    ensures n == n'
  {
    SuffixDots(k);
    SuffixDots(k');
    LastDotAt(TEMP + n, SUFFIXES[k]);
    LastDotAt(TEMP + n', SUFFIXES[k']);
    assert Path(n, k)[..|TEMP + n|] == TEMP + n && Path(n', k')[..|TEMP + n'|] == TEMP + n';
    assert n == (TEMP + n)[|TEMP|..] && n' == (TEMP + n')[|TEMP|..];
  }
}
