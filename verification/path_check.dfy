// `is_valid_path` of `comm/httplib.h`: a path must not climb above the directory it starts from.
module PathCheck {
  import opened Text
  import opened Wrappers

  /** The length of the first component. */
  function ComponentLength(p: string): (n: nat)
    ensures n <= |p| && '/' !in p[..n] && (n < |p| ==> p[n] == '/')
  {
    if p == "" || p[0] == '/' then 0 else 1 + ComponentLength(p[1..])
  }

  /** What stands between the slashes, empty pieces left out. */
  function Components(p: string): seq<string>
    decreases |p|
  {
    if p == "" then []
    else if p[0] == '/' then Components(p[1..])
    else [p[..ComponentLength(p)]] + Components(p[ComponentLength(p)..])
  }

  /** A text without a slash is one component, unless it is empty. */
  lemma OneComponent(a: string)
    requires '/' !in a
    ensures Components(a) == if a == "" then [] else [a]
  {
    if a != "" {
      FirstComponent(a, "");
      assert a + "" == a;
    }
  }

  /** A slash separates, wherever it stands. */
  lemma {:induction false} ComponentsParts(a: string, b: string)
    ensures Components(a + "/" + b) == Components(a) + Components(b)
    decreases |a|
  {
    var s := a + "/" + b;
    if a == "" {
      assert s == "/" + b && s[1..] == b;
    } else if a[0] == '/' {
      assert s[1..] == a[1..] + "/" + b;
      ComponentsParts(a[1..], b);
    } else {
      var k := ComponentLength(a);
      var x, y := a[..k], a[k..];
      assert s == x + (y + "/" + b) && a == x + y;
      ComponentsParts(y, b);
      FirstComponent(x, y + "/" + b);
      FirstComponent(x, y);
      Assoc([x], Components(y), Components(b));
    }
  }

  lemma FirstComponent(x: string, y: string)
    requires x != "" && '/' !in x && (y == "" || y[0] == '/')
    ensures Components(x + y) == [x] + Components(y)
  {
    var s := x + y;
    ComponentEnds(x, y);
    assert s[..|x|] == x && s[|x|..] == y;
    assert s[0] in x;
  }

  lemma {:induction false} ComponentEnds(x: string, y: string)
    requires '/' !in x && (y == "" || y[0] == '/')
    ensures ComponentLength(x + y) == |x|
  {
    if x == "" {
      assert x + y == y;
    } else {
      assert x[0] in x && forall c | c in x[1..] :: c in x;
      assert (x + y)[1..] == x[1..] + y;
      ComponentEnds(x[1..], y);
    }
  }

  function Ups(cs: seq<string>): nat {
    if cs == [] then 0 else Ups(cs[..|cs| - 1]) + if cs[|cs| - 1] == ".." then 1 else 0
  }

  function Downs(cs: seq<string>): nat {
    if cs == [] then 0 else Downs(cs[..|cs| - 1]) + if cs[|cs| - 1] in {".", ".."} then 0 else 1
  }

  /** However far one walks along the components, one has not gone up more often than down. */
  ghost predicate NeverAbove(cs: seq<string>) {
    forall k | 0 <= k <= |cs| :: Ups(cs[..k]) <= Downs(cs[..k])
  }

  lemma CountOne(seen: seq<string>, c: string)
    ensures Ups(seen + [c]) == Ups(seen) + if c == ".." then 1 else 0
    ensures Downs(seen + [c]) == Downs(seen) + if c in {".", ".."} then 0 else 1
  {
    assert (seen + [c])[..|seen|] == seen;
  }

  lemma NeverAboveOne(seen: seq<string>, c: string)
    requires NeverAbove(seen)
    ensures NeverAbove(seen + [c]) <==> Ups(seen + [c]) <= Downs(seen + [c])
  {
    var all := seen + [c];
    assert all[..|all|] == all;
    assert forall k | 0 <= k <= |seen| :: all[..k] == seen[..k];
  }

  lemma NeverAbovePrefix(seen: seq<string>, rest: seq<string>)
    requires NeverAbove(seen + rest)
    ensures NeverAbove(seen)
  {
    assert forall k | 0 <= k <= |seen| :: (seen + rest)[..k] == seen[..k];
  }

  lemma SkipSlash(p: string, i: nat)
    requires i < |p| && p[i] == '/'
    ensures Components(p[i..]) == Components(p[i + 1..])
  {
    assert p[i..][1..] == p[i + 1..];
  }

  lemma TakeComponent(p: string, beg: nat, i: nat)
    requires beg < i <= |p| && (forall k | beg <= k < i :: p[k] != '/') && (i < |p| ==> p[i] == '/')
    ensures Components(p[beg..]) == [p[beg..i]] + Components(p[i..])
  {
    var t := p[beg..];
    assert ComponentLength(t) == i - beg;
    assert t[..i - beg] == p[beg..i] && t[i - beg..] == p[i..];
  }

  lemma NextComponent(seen: seq<string>, c: string, rest: seq<string>)
    requires NeverAbove(seen)
    ensures seen + ([c] + rest) == (seen + [c]) + rest
    ensures Ups(seen + [c]) == Ups(seen) + if c == ".." then 1 else 0
    ensures Downs(seen + [c]) == Downs(seen) + if c in {".", ".."} then 0 else 1
    ensures NeverAbove(seen + [c]) <==> Ups(seen + [c]) <= Downs(seen + [c])
    ensures NeverAbove((seen + [c]) + rest) ==> NeverAbove(seen + [c])
  {
    Assoc(seen, [c], rest);
    CountOne(seen, c);
    NeverAboveOne(seen, c);
    if NeverAbove((seen + [c]) + rest) {
      NeverAbovePrefix(seen + [c], rest);
    }
  }

  lemma Emptied(p: string, i: nat)
    requires i == |p|
    ensures Components(p[i..]) == []
  {
  }

  /** The loops that skip slashes. */
  method SkipSlashes(path: string, beg: nat) returns (i: nat)
    requires beg <= |path|
    ensures beg <= i <= |path| && (i < |path| ==> path[i] != '/')
    ensures Components(path[i..]) == Components(path[beg..])
  {
    i := beg;
    while i < |path| && path[i] == '/'
      invariant beg <= i <= |path| && Components(path[i..]) == Components(path[beg..])
    {
      SkipSlash(path, i);
      i := i + 1;
    }
  }

  /** The loop over one component; it is never empty. */
  method ReadComponent(path: string, beg: nat) returns (i: nat)
    requires beg < |path| && path[beg] != '/'
    ensures beg < i <= |path|
    ensures Components(path[beg..]) == [path[beg..i]] + Components(path[i..])
  {
    i := beg;
    while i < |path| && path[i] != '/'
      invariant beg <= i <= |path| && (i == beg ==> path[i] != '/')
      invariant forall k | beg <= k < i :: path[k] != '/'
    {
      i := i + 1;
    }
    TakeComponent(path, beg, i);
  }

  method IsValidPath(path: string) returns (valid: bool)
    ensures valid <==> NeverAbove(Components(path))
  {
    ghost var all, seen: seq<string> := Components(path), [];
    assert path[0..] == path;
    var level: nat := 0;
    var i := SkipSlashes(path, 0);
    ghost var todo := Components(path[i..]);
    assert seen + todo == todo;
    while i < |path|
      invariant i <= |path| && (i < |path| ==> path[i] != '/')
      invariant todo == Components(path[i..]) && all == seen + todo
      invariant NeverAbove(seen) && level == Downs(seen) - Ups(seen)
      decreases |path| - i
    {
      var beg := i;
      i := ReadComponent(path, beg);
      assert i - beg > 0;
      var c := path[beg..i];
      todo := Components(path[i..]);
      NextComponent(seen, c, todo);
      seen := seen + [c];
      if c == "." {
      } else if c == ".." {
        if level == 0 { return false; }
        level := level - 1;
      } else {
        level := level + 1;
      }
      i := SkipSlashes(path, i);
    }
    Emptied(path, i);
    assert seen + [] == seen;
    return true;
  }

  // What the check guarantees

  /** The directory one is in, as the way down to it; going up from the top leaves the tree. */
  function Walk(at: seq<string>, cs: seq<string>): Option<seq<string>>
    decreases |cs|
  {
    if cs == [] then Some(at)
    else if cs[0] == "." then Walk(at, cs[1..])
    else if cs[0] == ".." then
      if at == [] then None else Walk(at[..|at| - 1], cs[1..])
    else Walk(at + [cs[0]], cs[1..])
  }

  lemma CountFront(c: string, cs: seq<string>)
    ensures Ups([c] + cs) == Ups(cs) + if c == ".." then 1 else 0
    ensures Downs([c] + cs) == Downs(cs) + if c in {".", ".."} then 0 else 1
  {
    if cs == [] {
      assert [] + [c] == [c] + cs;
      CountOne([], c);
    } else {
      CountFront(c, cs[..|cs| - 1]);
      assert ([c] + cs)[..|cs|] == [c] + cs[..|cs| - 1];
    }
  }

  ghost predicate Bounded(depth: int, cs: seq<string>) {
    forall k | 0 <= k <= |cs| :: Ups(cs[..k]) <= depth + Downs(cs[..k])
  }

  lemma CountAt(c: string, rest: seq<string>, k: nat)
    requires k <= |rest|
    ensures Ups(([c] + rest)[..k + 1]) == Ups(rest[..k]) + if c == ".." then 1 else 0
    ensures Downs(([c] + rest)[..k + 1]) == Downs(rest[..k]) + if c in {".", ".."} then 0 else 1
  {
    CountFront(c, rest[..k]);
    assert ([c] + rest)[..k + 1] == [c] + rest[..k];
  }

  /** Behind a component that leads from depth `depth` to depth `next`. */
  lemma BoundedCons(depth: nat, c: string, rest: seq<string>, next: int)
    requires next == depth + if c == "." then 0 else if c == ".." then -1 else 1
    ensures Bounded(depth, [c] + rest) <==> next >= 0 && Bounded(next, rest)
  {
    var cs := [c] + rest;
    if Bounded(depth, cs) {
      CountAt(c, rest, 0);
      assert Ups(cs[..0 + 1]) <= depth + Downs(cs[..0 + 1]);
      forall k | 0 <= k <= |rest|
        ensures Ups(rest[..k]) <= next + Downs(rest[..k])
      {
        CountAt(c, rest, k);
        assert Ups(cs[..k + 1]) <= depth + Downs(cs[..k + 1]);
      }
    }
    if next >= 0 && Bounded(next, rest) {
      forall k | 0 < k <= |cs|
        ensures Ups(cs[..k]) <= depth + Downs(cs[..k])
      {
        CountAt(c, rest, k - 1);
        assert Ups(rest[..k - 1]) <= next + Downs(rest[..k - 1]);
      }
      assert cs[..0] == [];
    }
  }

  lemma {:induction false} WalkStaysInside(at: seq<string>, cs: seq<string>)
    ensures Walk(at, cs).Some? <==> Bounded(|at|, cs)
    decreases |cs|
  {
    if cs == [] {
      assert cs[..0] == [];
    } else {
      var c, rest := cs[0], cs[1..];
      assert cs == [c] + rest;
      BoundedCons(|at|, c, rest, |at| + if c == "." then 0 else if c == ".." then -1 else 1);
      if c == "." {
        WalkStaysInside(at, rest);
      } else if c != ".." {
        WalkStaysInside(at + [c], rest);
      } else if at != [] {
        WalkStaysInside(at[..|at| - 1], rest);
      }
    }
  }

  /** The accepted paths are exactly those along which one can walk without leaving the tree. */
  lemma ValidStaysInside(path: string)
    ensures NeverAbove(Components(path)) <==> Walk([], Components(path)).Some?
  {
    WalkStaysInside([], Components(path));
    assert NeverAbove(Components(path)) <==> Bounded(0, Components(path));
  }
}
