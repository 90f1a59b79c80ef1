// `CompileAndRun::Start` as the sequential program it is, over the files of the temp directory.
module TempDirectory {
  import opened JudgingRun
  import opened JudgingRuns
  import opened Wrappers

  /** The files after all three standard files have been opened, where that works. */
  function AllOpened(j: Job, name: string, fs: Files): Files {
    var fs1 := if j.stdinOpens then Created(fs, Path(name, STDIN)) else fs;
    var fs2 := if j.stdoutOpens then Created(fs1, Path(name, STDOUT)) else fs1;
    if j.stderrOpens then Created(fs2, Path(name, STDERR)) else fs2
  }

  lemma OpenedContent(j: Job, name: string, fs: Files, path: string)
    ensures ContentOf(AllOpened(j, name, fs), path) == ContentOf(fs, path)
  {
  }

  /** The files after a compilation. */
  function AfterCompiling(c: Compilation, name: string, fs: Files): Files {
    match c
    case NoChild => fs
    case Compiled(errors, exe) =>
      var fs1 := if errors.Some? then Overlaid(fs, Path(name, COMPILE_ERR), errors.value) else fs;
      if exe.Some? then fs1[Path(name, EXE) := exe.value] else fs1
  }

  /** The code of a run that starts with `fs` and ends with `fs'`: -1 when a standard file could not be opened,
      -2 when there was no child, otherwise the low seven bits of the wait status, with the outputs written. */
  ghost predicate Exits(j: Job, name: string, fs: Files, code: int, fs': Files) {
    if !j.stdinOpens || !j.stdoutOpens || !j.stderrOpens then code == -1 && fs' == AllOpened(j, name, fs)
    else
      match j.program(ContentOf(fs, Path(name, EXE)), ContentOf(fs, Path(name, STDIN)))
      case NoProcess => code == -2 && fs' == AllOpened(j, name, fs)
      case Executed(out, err, waitStatus) =>
        && code == waitStatus % 128
        && fs' == Overlaid(Overlaid(AllOpened(j, name, fs), Path(name, STDOUT), out), Path(name, STDERR), err)
  }

  class TempDir {
    var files: Files

    constructor (fs: Files)
      ensures files == fs
    {
      files := fs;
    }

    method WriteFile(target: string, text: string, opens: bool) returns (ok: bool)
      modifies this
      ensures ok == opens
      ensures files == if opens then old(files)[target := text] else old(files)
    {
      if !opens { return false; }
      files := files[target := text];
      return true;
    }

    /** The loop over `std::getline`: each line goes in with its line feed. */
    method ReadLines(path: string) returns (content: string)
      ensures content == ReadFile(files, path)
    {
      content := "";
      if path !in files { return; }
      var text := files[path];
      var i := 0;
      while i < |text|
        invariant i <= |text|
        invariant content == KeepLines(text[..i])
        invariant i < |text| ==> i == 0 || text[i - 1] == '\n'
        decreases |text| - i
      {
        var k := i;
        while k < |text| && text[k] != '\n'
          invariant i <= k <= |text|
          invariant '\n' !in text[i..k]
        {
          k := k + 1;
        }
        ghost var next := if k < |text| then k + 1 else k;
        assert text[..i] + text[i..k] + "\n" == KeepLines(text[..next]);
        content := content + text[i..k] + "\n";
        i := if k < |text| then k + 1 else k;
      }
      assert text[..i] == text;
    }

    method Unlink(name: string, k: nat)
      requires k < 6
      modifies this
      ensures files == old(files) - {Path(name, k)}
    {
      if Path(name, k) in files {
        files := files - {Path(name, k)};
      }
    }

    /** Open for reading or writing, without truncation. */
    method Open(path: string, opens: bool) returns (ok: bool)
      modifies this
      ensures ok == opens
      ensures files == if opens then Created(old(files), path) else old(files)
    {
      if opens && path !in files {
        files := files[path := ""];
      }
      return opens;
    }

    method Spill(path: string, text: string)
      modifies this
      ensures files == Overlaid(old(files), path, text)
    {
      var was := if path in files then files[path] else "";
      files := files[path := text + if |text| <= |was| then was[|text|..] else ""];
    }

    /** `RemoveTempFile`. */
    method RemoveTempFile(j: Job, name: string, ghost l: Local)
      requires l.pc == Remove(0) && l.name == name
      modifies this
      ensures Complete(j, l, old(files)) == (l.(pc := Done), files)
    {
      ghost var p := l;
      for k := 0 to 6
        invariant p == l.(pc := if k == 6 then Done else Remove(k))
        invariant Complete(j, p, files) == Complete(j, l, old(files))
      {
        ghost var q := Step(j, p, files);
        Unlink(name, k);
        p := q.0;
      }
    }

    /** `Compiler::Compile`: success is decided by the executable being there. */
    method CompileSource(j: Job, name: string, ghost l: Local) returns (ok: bool)
      requires l.pc.Compile? && l.name == name
      modifies this
      ensures files == AfterCompiling(j.compiler(Get(old(files), Path(name, SRC))), name, old(files))
      ensures ok <==> j.compiler(Get(old(files), Path(name, SRC))).Compiled? && Path(name, EXE) in files
      ensures Complete(j, if ok then l.(pc := OpenStdin) else Fail(l, -3), files) == Complete(j, l, old(files))
    {
      match j.compiler(Get(files, Path(name, SRC)))
      case NoChild => return false;
      case Compiled(errors, exe) =>
        if errors.Some? {
          Spill(Path(name, COMPILE_ERR), errors.value);
        }
        if exe.Some? {
          files := files[Path(name, EXE) := exe.value];
        }
        assert (l.(pc := TestExe), files) == Step(j, l, old(files));
        return Path(name, EXE) in files;
    }

    /** The three standard files are all opened before any failure is looked at. */
    method OpenStandardFiles(j: Job, name: string, ghost l: Local) returns (ok: bool)
      requires l.pc.OpenStdin? && l.name == name && l.allOpen
      modifies this
      ensures ok <==> j.stdinOpens && j.stdoutOpens && j.stderrOpens
      ensures files == AllOpened(j, name, old(files))
      ensures Complete(j, if ok then l.(pc := Execute) else Fail(l.(allOpen := false), -2), files)
           == Complete(j, l, old(files))
    {
      var a := Open(Path(name, STDIN), j.stdinOpens);
      ghost var l1 := l.(allOpen := a, pc := OpenStdout);
      ghost var fs1 := files;
      assert (l1, files) == Step(j, l, old(files));
      Next(j, l, old(files));
      var b := Open(Path(name, STDOUT), j.stdoutOpens);
      ghost var l2 := l.(allOpen := a && b, pc := OpenStderr);
      assert (l2, files) == Step(j, l1, fs1);
      Next(j, l1, fs1);
      ghost var fs2 := files;
      var c := Open(Path(name, STDERR), j.stderrOpens);
      ok := a && b && c;
      ghost var l3 := if ok then l.(pc := Execute) else Fail(l.(allOpen := false), -2);
      assert (l3, files) == Step(j, l2, fs2);
      Next(j, l2, fs2);
    }

    /** `Runner::Run`: negative for a failure of its own, otherwise the low seven bits of the wait
        status, so an ordinary exit gives 0 whatever its exit code. */
    method RunProgram(j: Job, name: string, ghost l: Local) returns (code: int, ghost l': Local)
      requires l.pc.OpenStdin? && l.name == name && l.allOpen
      modifies this
      ensures Exits(j, name, old(files), code, files)
      ensures l' == Fail(l.(allOpen := l'.allOpen), if code < 0 then -2 else code)
      ensures Complete(j, l', files) == Complete(j, l, old(files))
    {
      var ok := OpenStandardFiles(j, name, l);
      if !ok {
        l' := Fail(l.(allOpen := false), -2);
        return -1, l';
      }
      ghost var l1 := l.(pc := Execute);
      ghost var fs1 := files;
      OpenedContent(j, name, old(files), Path(name, EXE));
      OpenedContent(j, name, old(files), Path(name, STDIN));
      var exe, input := ContentOf(files, Path(name, EXE)), ContentOf(files, Path(name, STDIN));
      match j.program(exe, input)
      case NoProcess =>
        code, l' := -2, Fail(l, -2);
        assert (l', files) == Step(j, l1, fs1);
      case Executed(out, err, waitStatus) =>
        Spill(Path(name, STDOUT), out);
        Spill(Path(name, STDERR), err);
        code := waitStatus % 128;
        l' := Fail(l, code);
        assert (l', files) == Step(j, l1, fs1);
    }

    /** From the label `END` on: the response, then the clean-up. */
    method Conclude(j: Job, name: string, status: int, ghost l: Local) returns (r: Response)
      requires l.pc.Describe? && l.name == name && l.status == status && l.response == START.response
      modifies this
      ensures var c := Complete(j, l, old(files)); c.0.response == r && c.1 == files
    {
      r := Response(status, CodeToDesc(status, name, files), None, None);
      ghost var p := Step(j, l, files).0;
      Next(j, l, files);
      if status == 0 {
        var out := ReadLines(Path(name, STDOUT));
        r := r.(stdout := Some(out));
        Next(j, p, files);
        p := Step(j, p, files).0;
        var err := ReadLines(Path(name, STDERR));
        r := r.(stderr := Some(err));
        Next(j, p, files);
        p := Step(j, p, files).0;
      }
      RemoveTempFile(j, name, p);
    }

    /** `Start`: what it answers and leaves behind is what the run, operation by operation, comes to. */
    method Start(j: Job) returns (r: Response)
      modifies this
      ensures var c := Complete(j, START, old(files)); r == c.0.response && files == c.1
    {
      var status, name := 0, "";
      ghost var l := START;
      if j.code == "" {
        status, l := -1, Fail(l, -1);
        r := Conclude(j, name, status, l);
        return;
      }
      name := j.name;
      l := l.(name := j.name, pc := WriteSrc);
      NameGiven(j, files);
      ghost var l0, fs0 := l, files;
      var ok := WriteFile(Path(name, SRC), j.code, j.srcOpens);
      if !ok {
        r := Conclude(j, name, -2, Fail(l, -2));
        return;
      }
      l := l.(pc := WriteInput);
      assert (l, files) == Step(j, l0, fs0);
      ok := WriteFile(Path(name, STDIN), j.input, j.inputOpens);
      if !ok {
        r := Conclude(j, name, -2, Fail(l, -2));
        return;
      }
      l := l.(pc := Compile);
      ok := CompileSource(j, name, l);
      if !ok {
        r := Conclude(j, name, -3, Fail(l, -3));
        return;
      }
      l := l.(pc := OpenStdin);
      var code;
      code, l := RunProgram(j, name, l);
      status := if code < 0 then -2 else if code > 0 then code else 0;
      r := Conclude(j, name, status, l);
    }
  }

  lemma Next(j: Job, l: Local, fs: Files)
    requires !l.pc.Done?
    ensures Complete(j, l, fs) == Complete(j, Step(j, l, fs).0, Step(j, l, fs).1)
  {
  }

  lemma NameGiven(j: Job, fs: Files)
    requires j.code != ""
    ensures Complete(j, START.(name := j.name, pc := WriteSrc), fs) == Complete(j, START, fs)
  {
    assert Step(j, START, fs) == (START.(pc := Naming), fs);
    assert Step(j, START.(pc := Naming), fs) == (START.(name := j.name, pc := WriteSrc), fs);
  }
}
