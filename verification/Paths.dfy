/** What CompressPath computes: a path is the walk of its components. */
module Paths {
  /** Both kinds of slash separate components, whether or not DOS compatibility is asked for. */
  predicate IsSlash(c: char) {
    c == '/' || c == '\\'
  }

  /** The length of the component a string starts with. */
  function Word(s: string): (n: nat)
    ensures n <= |s| && (n < |s| ==> IsSlash(s[n])) && (forall i :: 0 <= i < n ==> !IsSlash(s[i]))
  {
    if s == [] || IsSlash(s[0]) then 0 else 1 + Word(s[1..])
  }

  /** The components of a path; empty ones and "." do not count. */
  function Components(s: string): seq<string>
    decreases |s|
  {
    if s == [] then []
    else if IsSlash(s[0]) then Components(s[1..])
    else
      var n := Word(s);
      assert n > 0;
      Counted(s[..n]) + Components(s[n..])
  }

  function Counted(word: string): seq<string> {
    if word == "." then [] else [word]
  }

  /** One step of the walk: ".." goes up, except at the root, or above the start of a relative path. */
  function Step(abs: bool, stack: seq<string>, c: string): seq<string> {
    if c != ".." then stack + [c]
    else if stack == [] then (if abs then [] else [".."])
    else if stack[|stack| - 1] == ".." then stack + [".."]
    else stack[..|stack| - 1]
  }

  function Walk(abs: bool, stack: seq<string>, cs: seq<string>): seq<string>
    decreases |cs|
  {
    if cs == [] then stack else Walk(abs, Step(abs, stack, cs[0]), cs[1..])
  }

  function Join(cs: seq<string>): string {
    if cs == [] then "" else if |cs| == 1 then cs[0] else cs[0] + "/" + Join(cs[1..])
  }

  /** The text of a path with the given components. */
  function Render(abs: bool, cs: seq<string>): string {
    if abs then "/" + Join(cs) else if cs == [] then "." else Join(cs)
  }

  predicate Absolute(s: string) {
    s != [] && IsSlash(s[0])
  }

  function Canonical(s: string): string {
    Render(Absolute(s), Walk(Absolute(s), [], Components(s)))
  }

  // ---- components ----

  predicate Proper(c: string) {
    c != "" && c != "." && '\0' !in c && forall i :: 0 <= i < |c| ==> !IsSlash(c[i])
  }

  predicate AllProper(cs: seq<string>) {
    forall i :: 0 <= i < |cs| ==> Proper(cs[i])
  }

  lemma {:induction false} ComponentsProper(s: string)
    requires '\0' !in s
    ensures AllProper(Components(s))
    decreases |s|
  {
    if s == [] {
    } else if IsSlash(s[0]) {
      ComponentsProper(s[1..]);
    } else {
      ComponentsProper(s[Word(s)..]);
    }
  }

  /** A text with neither slash nor backslash is one component, unless it is empty or ".". */
  lemma OneComponent(s: string)
    requires '/' !in s && '\\' !in s
    ensures Components(s) == if s == "" || s == "." then [] else [s]
  {
    if s != "" {
      var n := Word(s);
      assert forall i :: 0 <= i < |s| ==> s[i] in s;
      assert s[..n] == s && s[n..] == "";
    }
  }

  /** And no component holds either. */
  lemma {:induction false} NoSlashInside(s: string)
    ensures forall c :: c in Components(s) ==> '/' !in c && '\\' !in c && c != "" && c != "."
    ensures Absolute(s) <==> s != "" && (s[0] == '/' || s[0] == '\\')
    decreases |s|
  {
    if s == [] {
    } else if IsSlash(s[0]) {
      NoSlashInside(s[1..]);
    } else {
      var n := Word(s);
      NoSlashInside(s[n..]);
      assert forall i :: 0 <= i < n ==> s[..n][i] == s[i];
    }
  }

  lemma WordAppend(s: string, t: string)
    requires s != []
    ensures t == [] || IsSlash(t[0]) || Word(s) < |s| ==> Word(s + t) == Word(s)
  {
    if !IsSlash(s[0]) {
      assert (s + t)[1..] == s[1..] + t;
      if |s| > 1 {
        WordAppend(s[1..], t);
      } else {
        assert s[1..] + t == t;
      }
    }
  }

  /** A slash between two strings splits their components. */
  lemma ComponentsSplit(s: string, t: string)
    ensures Components(s + "/" + t) == Components(s) + Components(t)
  {
    var rest := "/" + t;
    ComponentsBehind(s, rest);
    assert s + "/" + t == s + rest && rest[1..] == t;
  }

  lemma {:induction false} ComponentsBehind(s: string, rest: string)
    requires rest != "" && IsSlash(rest[0])
    ensures Components(s + rest) == Components(s) + Components(rest)
    decreases |s|
  {
    if s == [] {
      assert s + rest == rest && [] + Components(rest) == Components(rest);
    } else if IsSlash(s[0]) {
      assert (s + rest)[1..] == s[1..] + rest;
      ComponentsBehind(s[1..], rest);
    } else {
      var n := Word(s);
      ComponentsBehind(s[n..], rest);
      FirstWord(s, rest);
      Joined3(Counted(s[..n]), Components(s[n..]), Components(rest));
    }
  }

  lemma Joined3(a: seq<string>, b: seq<string>, c: seq<string>)
    ensures a + (b + c) == (a + b) + c
  {
  }

  lemma FirstWord(s: string, t: string)
    requires s != [] && !IsSlash(s[0]) && t != [] && IsSlash(t[0])
    ensures Components(s + t) == Counted(s[..Word(s)]) + Components(s[Word(s)..] + t)
  {
    var n := Word(s);
    WordAppend(s, t);
    assert (s + t)[..n] == s[..n] && (s + t)[n..] == s[n..] + t;
  }

  lemma {:induction false} ComponentsOfWord(c: string)
    requires Proper(c)
    ensures Components(c) == [c] && Word(c) == |c|
  {
    assert c[..|c|] == c && c[|c|..] == [];
  }

  lemma {:induction false} ComponentsOfJoin(cs: seq<string>)
    requires AllProper(cs)
    ensures Components(Join(cs)) == cs
  {
    if cs != [] {
      ComponentsOfWord(cs[0]);
      if |cs| > 1 {
        assert AllProper(cs[1..]);
        ComponentsOfJoin(cs[1..]);
        ComponentsSplit(cs[0], Join(cs[1..]));
        assert cs == [cs[0]] + cs[1..];
      } else {
        assert cs == [cs[0]];
      }
    }
  }

  // ---- the walk ----

  lemma {:induction false} WalkSplit(abs: bool, stack: seq<string>, xs: seq<string>, ys: seq<string>)
    ensures Walk(abs, stack, xs + ys) == Walk(abs, Walk(abs, stack, xs), ys)
    decreases |xs|
  {
    if xs == [] {
      assert xs + ys == ys;
    } else {
      assert (xs + ys)[1..] == xs[1..] + ys;
      WalkSplit(abs, Step(abs, stack, xs[0]), xs[1..], ys);
    }
  }

  /** ".." only at the front, and not even there in an absolute path. */
  predicate Settled(abs: bool, cs: seq<string>) {
    forall i :: 0 <= i < |cs| && cs[i] == ".." ==> !abs && (i == 0 || cs[i - 1] == "..")
  }

  lemma {:induction false} WalkSettled(abs: bool, cs: seq<string>)
    requires Settled(abs, cs)
    ensures Walk(abs, [], cs) == cs
    decreases |cs|
  {
    if cs != [] {
      var front := cs[..|cs| - 1];
      var last := cs[|cs| - 1];
      assert Settled(abs, front);
      WalkSettled(abs, front);
      assert cs == front + [last];
      WalkSplit(abs, [], front, [last]);
      assert front != [] ==> front[|front| - 1] == cs[|cs| - 2];
      assert Walk(abs, front, [last]) == Walk(abs, Step(abs, front, last), []);
    }
  }

  lemma {:induction false} WalkSettles(abs: bool, stack: seq<string>, cs: seq<string>)
    requires Settled(abs, stack) && AllProper(stack) && AllProper(cs)
    ensures Settled(abs, Walk(abs, stack, cs)) && AllProper(Walk(abs, stack, cs))
    decreases |cs|
  {
    if cs != [] {
      var next := Step(abs, stack, cs[0]);
      assert Settled(abs, next) && AllProper(next) by {
        assert Proper("..");
      }
      WalkSettles(abs, next, cs[1..]);
    }
  }

  /** A component followed by ".." is as good as neither. */
  lemma WalkPop(abs: bool, front: seq<string>, c: string, back: seq<string>)
    requires Settled(abs, front) && c != ".."
    ensures Walk(abs, [], front + [c, ".."] + back) == Walk(abs, [], front + back)
  {
    var rest := [c, ".."] + back;
    assert front + [c, ".."] + back == front + rest;
    WalkSettled(abs, front);
    WalkSplit(abs, [], front, back);
    WalkSplit(abs, [], front, rest);
    WalkTwo(abs, front, c, "..", back);
    assert (front + [c])[..|front|] == front;
  }

  lemma WalkTwo(abs: bool, stack: seq<string>, c: string, d: string, back: seq<string>)
    ensures Walk(abs, stack, [c, d] + back) == Walk(abs, Step(abs, Step(abs, stack, c), d), back)
  {
    assert ([c, d] + back)[1..] == [d] + back && ([d] + back)[1..] == back;
  }

  // ---- what canonical paths are good for ----

  lemma CanonicalComponents(s: string)
    requires '\0' !in s && Absolute(s)
    ensures Components(Canonical(s)) == Walk(true, [], Components(s))
    ensures AllProper(Components(Canonical(s))) && Settled(true, Components(Canonical(s)))
    ensures Absolute(Canonical(s))
  {
    ComponentsProper(s);
    var w := Walk(true, [], Components(s));
    WalkSettles(true, [], Components(s));
    ComponentsOfJoin(w);
    assert Canonical(s)[1..] == Join(w);
  }

  /** Compressing twice changes nothing, so a path and its spellings share one cache key. */
  lemma CanonicalIdempotent(s: string)
    requires '\0' !in s && Absolute(s)
    ensures Canonical(Canonical(s)) == Canonical(s)
  {
    CanonicalComponents(s);
    WalkSettled(true, Components(Canonical(s)));
  }

  /** Two absolute paths have the same canonical form exactly when they walk to the same place. */
  lemma CanonicalDecides(s: string, t: string)
    requires '\0' !in s && Absolute(s) && '\0' !in t && Absolute(t)
    ensures Canonical(s) == Canonical(t) <==> Walk(true, [], Components(s)) == Walk(true, [], Components(t))
  {
    CanonicalComponents(s);
    CanonicalComponents(t);
  }

  /** Going to `a` and from there to `b` is going to a/b. */
  lemma CanonicalComposes(cwd: string, a: string, b: string)
    requires '\0' !in cwd && '\0' !in a && Absolute(cwd)
    ensures Canonical(Canonical(cwd + "/" + a) + "/" + b) == Canonical(cwd + "/" + (a + "/" + b))
  {
    CanonicalAgain(cwd + "/" + a, b);
    assert cwd + "/" + (a + "/" + b) == cwd + "/" + a + "/" + b;
  }

  lemma CanonicalAgain(p: string, b: string)
    requires '\0' !in p && Absolute(p)
    ensures Canonical(Canonical(p) + "/" + b) == Canonical(p + "/" + b)
  {
    CanonicalComponents(p);
    WalkSettled(true, Components(Canonical(p)));
    CanonicalBehind(p, b);
    CanonicalBehind(Canonical(p), b);
  }

  lemma CanonicalBehind(p: string, b: string)
    requires Absolute(p)
    ensures Canonical(p + "/" + b) == Render(true, Walk(true, Walk(true, [], Components(p)), Components(b)))
  {
    ComponentsSplit(p, b);
    WalkSplit(true, [], Components(p), Components(b));
  }

  // ---- lengths ----

  function Weight(cs: seq<string>): nat {
    if cs == [] then 0 else |cs[0]| + 1 + Weight(cs[1..])
  }

  lemma {:induction false} WeightSplit(xs: seq<string>, ys: seq<string>)
    ensures Weight(xs + ys) == Weight(xs) + Weight(ys)
  {
    if xs == [] {
      assert xs + ys == ys;
    } else {
      assert (xs + ys)[1..] == xs[1..] + ys;
      WeightSplit(xs[1..], ys);
    }
  }

  lemma {:induction false} JoinWeight(cs: seq<string>)
    ensures |Join(cs)| == if cs == [] then 0 else Weight(cs) - 1
  {
    if |cs| > 1 {
      JoinWeight(cs[1..]);
    }
  }

  lemma {:induction false} ComponentsWeight(s: string)
    ensures Weight(Components(s)) <= |s| + 1
    ensures s == [] || IsSlash(s[0]) ==> Weight(Components(s)) <= |s|
    decreases |s|
  {
    if s == [] {
    } else if IsSlash(s[0]) {
      ComponentsWeight(s[1..]);
    } else {
      var n := Word(s);
      ComponentsWeight(s[n..]);
      WeightSplit(Counted(s[..n]), Components(s[n..]));
    }
  }

  lemma {:induction false} WalkWeight(abs: bool, stack: seq<string>, cs: seq<string>)
    ensures Weight(Walk(abs, stack, cs)) <= Weight(stack) + Weight(cs)
    decreases |cs|
  {
    if cs != [] {
      var next := Step(abs, stack, cs[0]);
      WeightSplit(stack, [cs[0]]);
      if stack != [] {
        WeightSplit(stack[..|stack| - 1], [stack[|stack| - 1]]);
        assert stack == stack[..|stack| - 1] + [stack[|stack| - 1]];
      }
      assert Weight(next) <= Weight(stack) + |cs[0]| + 1;
      WalkWeight(abs, next, cs[1..]);
    }
  }

  /** Canonical paths are never longer than what they stand for. */
  lemma CanonicalShorter(s: string)
    requires s != []
    ensures |Canonical(s)| <= |s|
  {
    var abs := Absolute(s);
    ComponentsWeight(s);
    WalkWeight(abs, [], Components(s));
    JoinWeight(Walk(abs, [], Components(s)));
  }
}
