/** CompressPath and PathCat (u_pathcat.c, without DOS compatibility): one pass copies a path while
    squeezing slashes and "." out of it, a second removes ".." in place, starting over after each. */
module PathCompress {
  import opened Paths

  /** `dst` holds the C string `t`. */
  ghost predicate HoldsText(dst: array<char>, t: string)
    reads dst
  {
    |t| < dst.Length && dst[..|t|] == t && dst[|t|] == '\0' && '\0' !in t
  }

  // ---- first pass ----

  /** A "." component stands here. */
  predicate DotHere(s: string) {
    s != [] && s[0] == '.' && (|s| == 1 || IsSlash(s[1]))
  }

  /** What is left after the separators, and the "." components, a string starts with. */
  function SkipSeparators(s: string): (r: string)
    ensures |r| <= |s|
    ensures r == [] || (!IsSlash(r[0]) && !DotHere(r))
    decreases |s|
  {
    if s == [] then []
    else if IsSlash(s[0]) then SkipSeparators(s[1..])
    else if s[0] == '.' && |s| > 1 && IsSlash(s[1]) then SkipSeparators(s[2..])
    else if s == "." then []
    else s
  }

  /** What the first pass writes before it looks at the end. */
  function Squeezed(s: string): string
    decreases |s|
  {
    if s == [] then []
    else if IsSlash(s[0]) then "/" + Squeezed(SkipSeparators(s[1..]))
    else [s[0]] + Squeezed(s[1..])
  }

  lemma {:induction false} SkipKeepsComponents(s: string)
    ensures Components(SkipSeparators(s)) == Components(s)
    decreases |s|
  {
    if s == [] {
    } else if IsSlash(s[0]) {
      SkipKeepsComponents(s[1..]);
    } else if DotHere(s) {
      assert s[1..] == [] || Word(s[1..]) == 0;
      assert Word(s) == 1 && s[..1] == ".";
      if |s| > 1 {
        assert s[1..][1..] == s[2..];
        SkipKeepsComponents(s[2..]);
      }
    }
  }

  lemma {:induction false} SqueezedWord(s: string)
    ensures Squeezed(s) == s[..Word(s)] + Squeezed(s[Word(s)..])
  {
    if s != [] && !IsSlash(s[0]) {
      SqueezedWord(s[1..]);
      HeadOf(s, Word(s[1..]), Squeezed(s[Word(s)..]));
    } else {
      assert s[..0] == [] && s[0..] == s;
    }
  }

  lemma HeadOf(s: string, n: nat, rest: string)
    requires n < |s|
    ensures s[1..][n..] == s[1 + n..] && [s[0]] + (s[1..][..n] + rest) == s[..1 + n] + rest
  {
    assert [s[0]] + s[1..][..n] == s[..1 + n];
  }

  /** From the start of a component on, the first pass writes the joined components and perhaps one
      slash more. */
  lemma {:induction false} SqueezedIsJoin(s: string)
    requires s == [] || (!IsSlash(s[0]) && !DotHere(s))
    ensures Squeezed(s) == Join(Components(s)) || (s != [] && Squeezed(s) == Join(Components(s)) + "/")
    ensures s != [] ==> Components(s) != []
    decreases |s|
  {
    if s != [] {
      var n := Word(s);
      var w := s[..n];
      SqueezedWord(s);
      FirstComponent(s);
      if n == |s| {
        assert s[n..] == [] && w + "" == w;
      } else {
        var r := SkipSeparators(s[n + 1..]);
        assert s[n..][1..] == s[n + 1..];
        SkipKeepsComponents(s[n + 1..]);
        SqueezedIsJoin(r);
        JoinMore(w, Squeezed(r), Components(r));
      }
    }
  }

  lemma FirstComponent(s: string)
    requires s != [] && !IsSlash(s[0]) && !DotHere(s)
    ensures Word(s) > 0 && Components(s) == [s[..Word(s)]] + Components(s[Word(s)..])
  {
    var w := s[..Word(s)];
    assert s[0] == w[0];
    assert w != ".";
  }

  /** One component before others, or before nothing but a slash. */
  lemma JoinMore(w: string, u: string, cs: seq<string>)
    requires u == Join(cs) || (cs != [] && u == Join(cs) + "/")
    ensures w + ("/" + u) == Join([w] + cs) || w + ("/" + u) == Join([w] + cs) + "/"
  {
    assert ([w] + cs)[1..] == cs;
    if cs == [] {
      assert w + ("/" + u) == w + "/";
    } else {
      assert Join([w] + cs) == (w + "/") + Join(cs);
      assert w + ("/" + Join(cs)) == (w + "/") + Join(cs);
      assert w + ("/" + (Join(cs) + "/")) == (w + ("/" + Join(cs))) + "/";
    }
  }

  /** The trailing slash goes, unless it is the root. */
  function Trimmed(t: string): string {
    if |t| > 1 && IsSlash(t[|t| - 1]) then t[..|t| - 1] else t
  }

  lemma {:induction false} JoinEnd(cs: seq<string>)
    requires AllProper(cs) && cs != []
    ensures Join(cs) != [] && !IsSlash(Join(cs)[|Join(cs)| - 1]) && '\0' !in Join(cs)
  {
    if |cs| > 1 {
      assert AllProper(cs[1..]);
      JoinEnd(cs[1..]);
      assert Proper(cs[0]);
    }
  }

  /** The "." components a relative path starts with are passed over, one slash with each. */
  function StripDots(s: string): string {
    if !DotHere(s) then s else if |s| == 1 then "" else StripDots(s[2..])
  }

  lemma {:induction false} StripKeepsComponents(s: string)
    ensures Components(StripDots(s)) == Components(s)
    ensures !DotHere(StripDots(s)) && |StripDots(s)| <= |s|
    ensures '\0' !in s ==> '\0' !in StripDots(s)
  {
    if DotHere(s) {
      assert s[1..] == [] || Word(s[1..]) == 0;
      assert Word(s) == 1 && s[..1] == ".";
      if |s| > 1 {
        assert s[1..][1..] == s[2..];
        StripKeepsComponents(s[2..]);
      }
    }
  }

  /** The text the first pass leaves. */
  function FirstPass(s: string): string {
    Trimmed(Squeezed(StripDots(s)))
  }

  lemma FirstPassRenders(s: string)
    requires '\0' !in s && StripDots(s) != ""
    ensures FirstPass(s) == Render(Absolute(StripDots(s)), Components(s))
    ensures Absolute(StripDots(s)) || Components(s) != []
  {
    var p := StripDots(s);
    StripKeepsComponents(s);
    ComponentsProper(p);
    if Absolute(p) {
      var r := SkipSeparators(p[1..]);
      SkipKeepsComponents(p[1..]);
      SqueezedIsJoin(r);
      TrimmedRenders(true, Squeezed(r), Components(p));
    } else {
      SqueezedIsJoin(p);
      TrimmedRenders(false, Squeezed(p), Components(p));
    }
  }

  lemma TrimmedRenders(abs: bool, j: string, cs: seq<string>)
    requires AllProper(cs) && (abs || cs != [])
    requires j == Join(cs) || (cs != [] && j == Join(cs) + "/")
    ensures Trimmed(if abs then "/" + j else j) == Render(abs, cs)
  {
    if cs != [] {
      JoinEnd(cs);
    }
  }

  /** The first pass gets a path right exactly when it is absolute, or does not become so once its
      leading "./" are gone: ".//x" would turn into "/x". */
  lemma FirstPassRightIff(s: string)
    requires '\0' !in s && StripDots(s) != ""
    ensures FirstPass(s) == Render(Absolute(s), Components(s)) <==> Absolute(s) || !Absolute(StripDots(s))
  {
    FirstPassRenders(s);
    if !Absolute(s) && Absolute(StripDots(s)) {
      ComponentsProper(s);
      RootSlash(true, Components(s));
      RootSlash(false, Components(s));
    }
  }

  lemma DotSlashSlash()
    ensures !Absolute(".//x") && Absolute(StripDots(".//x"))
  {
    assert ".//x"[2..] == "/x";
  }

  /** The paths whose first pass is right. */
  predicate Compressible(s: string) {
    '\0' !in s && StripDots(s) != "" && (Absolute(s) || !Absolute(StripDots(s)))
  }

  /** The loop of the first pass; nothing is written while leading "." components are passed over. */
  ghost predicate Squeezing(out: string, src: string, s: nat) {
    && |out| <= s <= |src|
    && (out == "" ==> StripDots(src[s..]) == StripDots(src) && (s == 0 || s == |src| || IsSlash(src[s - 1])))
    && (out != "" ==> out + Squeezed(src[s..]) == Squeezed(StripDots(src)))
    && (out != "" && s < |src| && s > 0 && IsSlash(src[s - 1]) ==> !DotHere(src[s..]))
  }

  lemma SqueezeDot(out: string, src: string, s: nat)
    requires Squeezing(out, src, s) && s < |src| && src[s] == '.'
    requires (s == 0 || IsSlash(src[s - 1])) && (s + 1 == |src| || IsSlash(src[s + 1]))
    ensures Squeezing(out, src, if s + 1 == |src| then s + 1 else s + 2)
  {
    var r := src[s..];
    assert DotHere(r);
    assert |r| > 1 ==> r[2..] == src[s + 2..];
  }

  lemma SqueezeChar(out: string, src: string, s: nat)
    requires Squeezing(out, src, s) && s < |src| && !IsSlash(src[s])
    requires !(src[s] == '.' && (s == 0 || IsSlash(src[s - 1])) && (s + 1 == |src| || IsSlash(src[s + 1])))
    ensures Squeezing(out + [src[s]], src, s + 1)
  {
    var r := src[s..];
    assert r[1..] == src[s + 1..];
    assert out == "" ==> !DotHere(r) && out + Squeezed(r) == Squeezed(r);
    assert (out + [src[s]]) + Squeezed(src[s + 1..]) == out + ([src[s]] + Squeezed(src[s + 1..]));
  }

  lemma SqueezeSlash(out: string, src: string, s: nat, next: nat)
    requires Squeezing(out, src, s) && s < |src| && IsSlash(src[s])
    requires s < next <= |src| && src[next..] == SkipSeparators(src[s + 1..])
    ensures Squeezing(out + "/", src, next)
  {
    var r := src[s..];
    assert r[1..] == src[s + 1..];
    assert out == "" ==> !DotHere(r) && out + Squeezed(r) == Squeezed(r);
    assert (out + "/") + Squeezed(src[next..]) == out + ("/" + Squeezed(src[next..]));
  }

  lemma SqueezeDone(out: string, src: string)
    requires Squeezing(out, src, |src|) && '\0' !in src && StripDots(src) != ""
    ensures out == Squeezed(StripDots(src)) && out != "" && '\0' !in Trimmed(out)
  {
    assert src[|src|..] == "";
    assert out + "" == out;
    FirstPassNoNul(src);
  }

  /** One turn of the first pass. */
  method SqueezeStep(dst: array<char>, src: string, s0: nat, d0: nat, lim: nat, ghost out: string) returns (s: nat, d: nat, ghost out': string)
    requires s0 < |src| <= lim < dst.Length && Squeezing(out, src, s0) && d0 == |out|
    modifies dst
    ensures s0 < s && Squeezing(out', src, s) && d == |out'|
    ensures out' == out || (|out'| == |out| + 1 && out'[..|out|] == out && dst[|out|] == out'[|out|])
    ensures forall i :: 0 <= i < d0 ==> dst[i] == old(dst[i])
  {
    s, d, out' := s0, d0, out;
    var c := src[s];
    if c == '.' && (s == 0 || IsSlash(src[s - 1])) && (s + 1 == |src| || IsSlash(src[s + 1])) {
      SqueezeDot(out, src, s);
      if s + 1 < |src| {
        s := s + 1;
      }
      s := s + 1;
    } else if IsSlash(c) {
      if d < lim {
        dst[d] := '/';
        d := d + 1;
      }
      s := SkipLoop(src, s + 1);
      SqueezeSlash(out, src, s0, s);
      out' := out + "/";
    } else {
      SqueezeChar(out, src, s);
      if d < lim {
        dst[d] := c;
        d := d + 1;
      }
      out' := out + [c];
      s := s + 1;
    }
  }

  /** The first pass. `lim` leaves room for the NUL; a path that fits never reaches it. */
  method Squeeze(dst: array<char>, src: string)
    requires '\0' !in src && StripDots(src) != "" && |src| < dst.Length
    modifies dst
    ensures HoldsText(dst, FirstPass(src))
  {
    var s: nat, d: nat, lim := 0, 0, dst.Length - 1;
    ghost var out := "";
    assert src[0..] == src;
    while s < |src|
      invariant Squeezing(out, src, s) && d == |out|
      invariant forall i :: 0 <= i < d ==> dst[i] == out[i]
    {
      ghost var before := out;
      s, d, out := SqueezeStep(dst, src, s, d, lim, out);
      assert forall i :: 0 <= i < |before| ==> out[i] == out[..|before|][i] == before[i];
    }
    SqueezeDone(out, src);
    assert dst[..d] == out;
    Terminate(dst, d, out);
  }

  /** At the NUL: a trailing slash is removed. */
  method Terminate(dst: array<char>, d: nat, ghost out: string)
    requires 0 < d == |out| < dst.Length && dst[..d] == out && '\0' !in Trimmed(out)
    modifies dst
    ensures HoldsText(dst, Trimmed(out))
  {
    assert out[d - 1] == dst[d - 1];
    if IsSlash(dst[d - 1]) && d > 1 {
      dst[d - 1] := '\0';
    }
    dst[d] := '\0';
    assert dst[..|Trimmed(out)|] == Trimmed(out);
  }

  lemma FirstPassNoNul(s: string)
    requires '\0' !in s && StripDots(s) != ""
    ensures Squeezed(StripDots(s)) != "" && '\0' !in FirstPass(s)
  {
    FirstPassRenders(s);
    ComponentsProper(s);
    if Components(s) != [] {
      JoinEnd(Components(s));
    }
  }

  /** The inner loop over multiple slashes and "./". */
  method SkipLoop(src: string, s0: nat) returns (s: nat)
    requires s0 <= |src|
    ensures s0 <= s <= |src| && src[s..] == SkipSeparators(src[s0..])
  {
    s := s0;
    while s < |src|
      invariant s0 <= s <= |src| && SkipSeparators(src[s..]) == SkipSeparators(src[s0..])
    {
      ghost var r := src[s..];
      assert r[1..] == src[s + 1..];
      if IsSlash(src[s]) {
        s := s + 1;
      } else if src[s] == '.' {
        if s + 1 == |src| {
          s := s + 1;
        } else if IsSlash(src[s + 1]) {
          assert r[2..] == src[s + 2..];
          s := s + 2;
        } else {
          break;
        }
      } else {
        break;
      }
    }
  }

  // ---- second pass ----

  /** Every component with the slash after it. */
  function Prefix(cs: seq<string>): string {
    if cs == [] then "" else cs[0] + "/" + Prefix(cs[1..])
  }

  /** The text of a path up to the component that comes after `front`. */
  function Head(abs: bool, front: seq<string>): string {
    (if abs then "/" else "") + Prefix(front)
  }

  lemma {:induction false} PrefixSnoc(front: seq<string>, c: string)
    ensures Prefix(front + [c]) == Prefix(front) + c + "/"
  {
    if front == [] {
      assert [c][1..] == [];
    } else {
      assert (front + [c])[1..] == front[1..] + [c];
      PrefixSnoc(front[1..], c);
    }
  }

  lemma {:induction false} RenderSplit(abs: bool, front: seq<string>, rest: seq<string>)
    requires rest != []
    ensures Render(abs, front + rest) == Head(abs, front) + Join(rest)
  {
    JoinSplit(front, rest);
    assert "" + Prefix(front) == Prefix(front);
    assert "/" + (Prefix(front) + Join(rest)) == ("/" + Prefix(front)) + Join(rest);
  }

  lemma {:induction false} JoinSplit(front: seq<string>, rest: seq<string>)
    requires rest != []
    ensures Join(front + rest) == Prefix(front) + Join(rest)
  {
    if front == [] {
      assert front + rest == rest;
    } else {
      assert (front + rest)[1..] == front[1..] + rest;
      JoinSplit(front[1..], rest);
      assert (front[0] + "/") + (Prefix(front[1..]) + Join(rest)) == ((front[0] + "/") + Prefix(front[1..])) + Join(rest);
    }
  }

  /** Reading a C string at `i`, the NUL included. */
  function At(t: string, i: nat): char {
    if i < |t| then t[i] else '\0'
  }

  lemma DotDotIn(c: string, u: string)
    requires Proper(c) && (u == "" || u[0] == '/')
    ensures At(c + u, 0) == '.' && At(c + u, 1) == '.' && IsSlash(At(c + u, 2)) <==> c == ".." && u != ""
    ensures At(c + u, 0) == '.' && At(c + u, 1) == '.' && At(c + u, 2) == '\0' <==> c == ".." && u == ""
  {
    var t := c + u;
    if |c| == 1 {
      assert c == [c[0]];
      assert At(t, 1) != '.';
    } else if |c| == 2 {
      assert c == [c[0], c[1]];
      assert At(t, 2) == (if u == "" then '\0' else '/');
    } else {
      assert At(t, 2) == c[2];
      assert c[2] in c;
    }
  }

  /** What the tests for ".." at the start of a node see. */
  lemma DotDotHere(rest: seq<string>)
    requires AllProper(rest) && rest != []
    ensures var t := Join(rest);
      && (At(t, 0) == '.' && At(t, 1) == '.' && IsSlash(At(t, 2)) <==> rest[0] == ".." && |rest| > 1)
      && (At(t, 0) == '.' && At(t, 1) == '.' && At(t, 2) == '\0' <==> rest[0] == ".." && |rest| == 1)
  {
    var u := if |rest| == 1 then "" else "/" + Join(rest[1..]);
    DotDotIn(rest[0], u);
    assert Join(rest) == rest[0] + u;
  }

  /** The loop that gets the next node: past the next slash, or `found` is false at the NUL. The text
      is `head`, a node `c` from `a0` on, and `u` from the slash after it. */
  method NextNode(dst: array<char>, a0: nat, ghost head: string, ghost c: string, ghost u: string) returns (found: bool, a: nat)
    requires HoldsText(dst, head + c + u) && a0 == |head|
    requires (forall i :: 0 <= i < |c| ==> !IsSlash(c[i])) && (u == "" || u[0] == '/')
    ensures found <==> u != ""
    ensures found ==> a == a0 + |c| + 1
  {
    ghost var t := head + c + u;
    assert forall i :: 0 <= i < |t| ==> dst[..|t|][i] == t[i];
    a := a0;
    while true
      invariant a0 <= a <= a0 + |c|
      decreases a0 + |c| - a
    {
      assert a < a0 + |c| ==> dst[a] == c[a - a0] && c[a - a0] in t;
      assert a == a0 + |c| ==> dst[a] == (if u == "" then '\0' else '/');
      if dst[a] == '\0' {
        return false, a;
      }
      if IsSlash(dst[a]) {
        a := a + 1;
        return true, a;
      }
      a := a + 1;
    }
  }

  method StrLen(dst: array<char>, from: nat, ghost t: string) returns (n: nat)
    requires HoldsText(dst, t) && from <= |t|
    ensures from + n == |t|
  {
    n := 0;
    assert forall i :: 0 <= i < |t| ==> dst[..|t|][i] == t[i] && t[i] in t;
    while dst[from + n] != '\0'
      invariant from + n <= |t|
      decreases |t| - n
    {
      n := n + 1;
    }
  }

  /** memmove towards the front. */
  method MemMove(dst: array<char>, to: nat, from: nat, n: nat)
    requires to <= from && from + n <= dst.Length
    modifies dst
    ensures dst[..to] == old(dst[..to]) && dst[to..to + n] == old(dst[from..from + n])
  {
    ghost var d0 := dst[..];
    ghost var gap := from - to;
    var i := 0;
    while i < n
      invariant 0 <= i <= n
      invariant forall j :: 0 <= j < to ==> dst[j] == d0[j]
      invariant forall j :: to <= j < to + i ==> dst[j] == d0[j + gap]
      invariant forall j :: from + i <= j < dst.Length ==> dst[j] == d0[j]
    {
      dst[to + i] := dst[from + i];
      i := i + 1;
    }
    ghost var d1 := dst[..];
    Moved(d0, d1, to, from, n);
    assert dst[..to] == d1[..to] && dst[to..to + n] == d1[to..to + n];
  }

  lemma Moved(d0: seq<char>, d1: seq<char>, to: nat, from: nat, n: nat)
    requires |d0| == |d1| && to <= from && from + n <= |d0|
    requires forall j :: 0 <= j < to ==> d1[j] == d0[j]
    requires forall j :: to <= j < to + n ==> d1[j] == d0[j + (from - to)]
    ensures d1[..to] == d0[..to] && d1[to..to + n] == d0[from..from + n]
  {
  }

  /** The tail of the string, NUL included, moved down to `to`. */
  method MoveDown(dst: array<char>, to: nat, from: nat, ghost t: string)
    requires HoldsText(dst, t) && to <= from <= |t|
    modifies dst
    ensures HoldsText(dst, t[..to] + t[from..])
  {
    var n := StrLen(dst, from, t);
    ghost var tail := dst[from..from + n + 1];
    assert tail == t[from..] + ['\0'];
    assert dst[..to] == t[..to];
    MemMove(dst, to, from, n + 1);
    assert dst[..to + n + 1] == t[..to] + tail;
    assert dst[..to + n] == dst[..to + n + 1][..to + n];
  }

  /** Where the scan of the second pass stands: at the root slash, or before the first component of
      `rest`, everything before it being settled. */
  ghost predicate Scanning(abs: bool, atRoot: bool, front: seq<string>, rest: seq<string>, a: nat) {
    && AllProper(front) && AllProper(rest) && Settled(abs, front)
    && (atRoot ==> abs && front == [] && a == 0)
    && (!atRoot && rest != [] ==> a == |Head(abs, front)| && Settled(abs, front + [rest[0]]))
    && (!atRoot && rest == [] ==> front == [] && a == (if abs then 1 else 0))
  }

  /** The text of a path cut at the node where the scan stands. */
  ghost function Parts(abs: bool, atRoot: bool, front: seq<string>, rest: seq<string>): (string, string, string) {
    if atRoot then ("", "", "/" + Join(rest))
    else if rest == [] then ((if abs then "/" else ""), (if abs then "" else "."), "")
    else (Head(abs, front), rest[0], if |rest| == 1 then "" else "/" + Join(rest[1..]))
  }

  lemma PartsMakeText(abs: bool, atRoot: bool, front: seq<string>, rest: seq<string>, a: nat)
    requires Scanning(abs, atRoot, front, rest, a)
    ensures var (head, c, u) := Parts(abs, atRoot, front, rest);
      && head + c + u == Render(abs, front + rest) && a == |head|
      && (forall i :: 0 <= i < |c| ==> !IsSlash(c[i])) && (u == "" || u[0] == '/')
  {
    var (head, c, u) := Parts(abs, atRoot, front, rest);
    if atRoot || rest == [] {
      assert front + rest == rest;
    } else {
      RenderSplit(abs, front, rest);
      assert Proper(rest[0]);
      assert Join(rest) == c + u;
      assert head + c + u == head + (c + u);
    }
  }

  /** The components after the node. */
  ghost function Todo(atRoot: bool, rest: seq<string>): seq<string> {
    if atRoot || rest == [] then rest else rest[1..]
  }

  /** The node ".." and the one before it taken out: the walk is the same. */
  lemma PopKeepsWalk(abs: bool, atRoot: bool, front: seq<string>, rest: seq<string>, a: nat)
    requires Scanning(abs, atRoot, front, rest, a)
    requires Todo(atRoot, rest) != [] && Todo(atRoot, rest)[0] == ".."
    requires !atRoot ==> rest[0] != ".."
    ensures Walk(abs, [], front + rest) == Walk(abs, [], front + Todo(atRoot, rest)[1..])
    ensures AllProper(front + Todo(atRoot, rest)[1..])
  {
    var back := Todo(atRoot, rest)[1..];
    if atRoot {
      assert front + rest == rest && front + back == rest[1..];
    } else {
      assert rest == [rest[0], ".."] + back;
      assert front + rest == front + [rest[0], ".."] + back;
      WalkPop(abs, front, rest[0], back);
    }
  }

  /** What is at the node, and at the next one. */
  lemma NodeTests(abs: bool, atRoot: bool, front: seq<string>, rest: seq<string>, a: nat, t: string, next: nat)
    requires Scanning(abs, atRoot, front, rest, a) && t == Render(abs, front + rest)
    requires Parts(abs, atRoot, front, rest).2 != "" && next == a + |Parts(abs, atRoot, front, rest).1| + 1
    ensures next <= |t| && t[next..] == Join(Todo(atRoot, rest))
    ensures At(t, a) == '.' && At(t, a + 1) == '.' && IsSlash(At(t, a + 2)) <==> !atRoot && rest[0] == ".."
    ensures At(t, next) == '.' && At(t, next + 1) == '.' && IsSlash(At(t, next + 2)) <==>
              |Todo(atRoot, rest)| > 1 && Todo(atRoot, rest)[0] == ".."
    ensures At(t, next) == '.' && At(t, next + 1) == '.' && At(t, next + 2) == '\0' <==> Todo(atRoot, rest) == [".."]
  {
    PartsMakeText(abs, atRoot, front, rest, a);
    var (head, c, u) := Parts(abs, atRoot, front, rest);
    Behind(t, head, c, u);
    NextTests(Todo(atRoot, rest), t, next);
    if !atRoot {
      NodeTest(c, u, t, a);
    } else {
      assert At(t, a) == u[0];
    }
  }

  lemma Behind(t: string, head: string, c: string, u: string)
    requires t == head + c + u && u != ""
    ensures t[|head|..] == c + u && |head| + |c| + 1 <= |t| && t[|head| + |c| + 1..] == u[1..] && At(t, |head| + |c|) == u[0]
  {
    assert t == head + (c + u);
  }

  lemma NextTests(todo: seq<string>, t: string, next: nat)
    requires AllProper(todo) && next <= |t| && t[next..] == Join(todo)
    ensures At(t, next) == '.' && At(t, next + 1) == '.' && IsSlash(At(t, next + 2)) <==> |todo| > 1 && todo[0] == ".."
    ensures At(t, next) == '.' && At(t, next + 1) == '.' && At(t, next + 2) == '\0' <==> todo == [".."]
  {
    AtTail(t, next, Join(todo));
    if todo != [] {
      DotDotHere(todo);
    }
  }

  lemma NodeTest(c: string, u: string, t: string, a: nat)
    requires Proper(c) && u != "" && u[0] == '/' && a <= |t| && t[a..] == c + u
    ensures At(t, a) == '.' && At(t, a + 1) == '.' && IsSlash(At(t, a + 2)) <==> c == ".."
  {
    AtTail(t, a, c + u);
    DotDotIn(c, u);
  }

  lemma AtTail(t: string, i: nat, tail: string)
    requires i <= |t| && t[i..] == tail
    ensures At(tail, 0) == At(t, i) && At(tail, 1) == At(t, i + 1) && At(tail, 2) == At(t, i + 2)
  {
  }

  /** ".." with a slash after it: the node and ".." are moved over. */
  method PopMiddle(dst: array<char>, b: nat, a: nat, ghost abs: bool, ghost atRoot: bool, ghost front: seq<string>, ghost rest: seq<string>)
    requires Scanning(abs, atRoot, front, rest, b) && HoldsText(dst, Render(abs, front + rest))
    requires |Todo(atRoot, rest)| > 1 && Todo(atRoot, rest)[0] == ".."
    requires a <= |Render(abs, front + rest)| && Render(abs, front + rest)[a..] == Join(Todo(atRoot, rest))
    modifies dst
    ensures HoldsText(dst, Render(abs, front + Todo(atRoot, rest)[1..]))
  {
    ghost var t := Render(abs, front + rest);
    PopMiddleText(abs, atRoot, front, rest, b, a);
    assert t[0] == dst[..|t|][0] == dst[0];
    if b == 0 && IsSlash(dst[0]) {
      MoveDown(dst, b + 1, a + 3, t);
    } else {
      MoveDown(dst, b, a + 3, t);
    }
  }

  /** The text with a node and "../" taken out; the root slash is not part of the node. */
  lemma PopMiddleText(abs: bool, atRoot: bool, front: seq<string>, rest: seq<string>, b: nat, a: nat)
    requires Scanning(abs, atRoot, front, rest, b) && |Todo(atRoot, rest)| > 1 && Todo(atRoot, rest)[0] == ".."
    requires a <= |Render(abs, front + rest)| && Render(abs, front + rest)[a..] == Join(Todo(atRoot, rest))
    ensures var t := Render(abs, front + rest);
      && t != "" && b < a && a + 3 <= |t| && (IsSlash(t[0]) <==> abs)
      && t[..if b == 0 && abs then 1 else b] + t[a + 3..] == Render(abs, front + Todo(atRoot, rest)[1..])
  {
    var t, back := Render(abs, front + rest), Todo(atRoot, rest)[1..];
    var (head, c, u) := Parts(abs, atRoot, front, rest);
    PartsMakeText(abs, atRoot, front, rest, b);
    Behind(t, head, c, u);
    assert t[b + |c| + 1..] == Join(Todo(atRoot, rest));
    RootSlash(abs, front + rest);
    assert Todo(atRoot, rest) == [".."] + back;
    UpTaken(t, a, back);
    RenderSplit(abs, front, back);
    if atRoot {
      assert t[..1] == "/" == Head(abs, front);
    } else {
      assert t[..b] == head;
    }
  }

  lemma UpTaken(t: string, a: nat, back: seq<string>)
    requires back != [] && a <= |t| && t[a..] == Join([".."] + back)
    ensures a + 3 <= |t| && t[a + 3..] == Join(back)
  {
    assert ([".."] + back)[1..] == back;
    assert t[a..] == "../" + Join(back);
    assert t[a + 3..] == t[a..][3..];
  }

  /** The text of a path starts with a slash exactly when it is absolute. */
  lemma RootSlash(abs: bool, cs: seq<string>)
    requires AllProper(cs)
    ensures var t := Render(abs, cs); t != "" && (IsSlash(t[0]) <==> abs) && (abs ==> t[0] == '/')
  {
    if !abs && cs != [] {
      assert Proper(cs[0]);
      assert Join(cs)[0] == cs[0][0];
    }
  }

  /** A trailing "..": the string ends before the node. Before the root slash, what is left depends on
      how the source `started`. */
  method PopLast(dst: array<char>, b: nat, started: bool, ghost abs: bool, ghost atRoot: bool, ghost front: seq<string>, ghost rest: seq<string>)
    requires Scanning(abs, atRoot, front, rest, b) && HoldsText(dst, Render(abs, front + rest)) && (started ==> abs)
    requires Todo(atRoot, rest) == [".."]
    modifies dst
    ensures HoldsText(dst, Render(if atRoot then started else abs, front))
  {
    ghost var t := Render(abs, front + rest);
    PartsMakeText(abs, atRoot, front, rest, b);
    RootSlash(abs, front + rest);
    assert t[0] == dst[..|t|][0] == dst[0];
    if b == 0 {
      dst[0] := if started then '/' else '.';
      dst[1] := '\0';
      assert front == [];
    } else if b <= 1 && IsSlash(dst[0]) {
      dst[1] := '\0';
      assert front == [];
    } else {
      assert front != [];
      HeadEnds(abs, front);
      assert t[..b] == Head(abs, front);
      CutOff(dst, b - 1, t, Render(abs, front));
    }
  }

  /** The text ends before a slash. */
  method CutOff(dst: array<char>, n: nat, ghost t: string, ghost r: string)
    requires HoldsText(dst, t) && n < |t| && t[..n + 1] == r + "/"
    modifies dst
    ensures HoldsText(dst, r)
  {
    CutsText(t, n, r);
    assert dst[..n] == dst[..|t|][..n];
    dst[n] := '\0';
  }

  lemma CutsText(t: string, n: nat, r: string)
    requires n < |t| && t[..n + 1] == r + "/" && '\0' !in t
    ensures t[..n] == r && '\0' !in r
  {
    assert t[..n + 1][..n] == t[..n];
    assert forall i :: 0 <= i < n ==> t[..n][i] == t[i];
  }

  lemma HeadEnds(abs: bool, front: seq<string>)
    requires AllProper(front) && front != []
    ensures Head(abs, front) == Render(abs, front) + "/" && |Head(abs, front)| > 1
    ensures abs ==> |Head(abs, front)| > 2
  {
    var last := front[|front| - 1];
    assert front == front[..|front| - 1] + [last];
    PrefixSnoc(front[..|front| - 1], last);
    JoinSplit(front[..|front| - 1], [last]);
    assert Proper(last);
  }

  /** "/.." is all there is, but the source did not start with a slash. */
  predicate RootLost(started: bool, atRoot: bool, rest: seq<string>) {
    atRoot && !started && rest == [".."]
  }

  /** The walk ends with a ".." at the root. */
  predicate EndsAtRoot(cs: seq<string>) {
    cs != [] && cs[|cs| - 1] == ".." && Walk(true, [], cs[..|cs| - 1]) == []
  }

  /** What the second pass makes of the text of a path. */
  function Outcome(started: bool, abs: bool, cs: seq<string>): string {
    if abs && !started && EndsAtRoot(cs) then "." else Render(abs, Walk(abs, [], cs))
  }

  /** Taking out a node and the ".." behind it does not change the outcome. */
  lemma PopKeepsOutcome(started: bool, abs: bool, atRoot: bool, front: seq<string>, rest: seq<string>, a: nat)
    requires Scanning(abs, atRoot, front, rest, a) && (started ==> abs)
    requires Todo(atRoot, rest) != [] && Todo(atRoot, rest)[0] == ".."
    requires !atRoot ==> rest[0] != ".."
    ensures AllProper(front + Todo(atRoot, rest)[1..])
    ensures var lost := RootLost(started, atRoot, rest);
      Outcome(started, if lost then false else abs, front + Todo(atRoot, rest)[1..]) == Outcome(started, abs, front + rest)
  {
    PopKeepsWalk(abs, atRoot, front, rest, a);
    if abs && !started {
      if RootLost(started, atRoot, rest) {
        assert front + rest == [".."] && front + rest[1..] == [];
      } else {
        PopKeepsEnd(atRoot, front, rest, a);
      }
    }
  }

  lemma PopKeepsEnd(atRoot: bool, front: seq<string>, rest: seq<string>, a: nat)
    requires Scanning(true, atRoot, front, rest, a)
    requires Todo(atRoot, rest) != [] && Todo(atRoot, rest)[0] == ".." && !(atRoot && rest == [".."])
    requires !atRoot ==> rest[0] != ".."
    ensures EndsAtRoot(front + Todo(atRoot, rest)[1..]) <==> EndsAtRoot(front + rest)
  {
    var back := Todo(atRoot, rest)[1..];
    if atRoot {
      assert front + rest == [".."] + back && front + back == back;
      EndBehindRoot(back);
    } else {
      NodeAndUp(front, rest);
      if back != [] {
        EndBehindPop(front, rest[0], back);
      } else {
        EndNotAtRoot(front, rest[0]);
      }
    }
  }

  lemma NodeAndUp(front: seq<string>, rest: seq<string>)
    requires |rest| > 1 && rest[1] == ".."
    ensures front + rest == front + [rest[0], ".."] + rest[2..] && rest[1..][1..] == rest[2..]
    ensures rest[2..] == [] ==> front + rest == front + [rest[0]] + [".."] && front + rest[2..] == front
  {
    assert rest == [rest[0], ".."] + rest[2..];
  }

  lemma EndBehindRoot(back: seq<string>)
    requires back != []
    ensures EndsAtRoot([".."] + back) <==> EndsAtRoot(back)
  {
    var cs, init := [".."] + back, back[..|back| - 1];
    assert cs[..|cs| - 1] == [".."] + init && ([".."] + init)[1..] == init;
  }

  lemma EndBehindPop(front: seq<string>, c: string, back: seq<string>)
    requires Settled(true, front) && c != ".." && back != []
    ensures EndsAtRoot(front + [c, ".."] + back) <==> EndsAtRoot(front + back)
  {
    var cs, ds, init := front + [c, ".."] + back, front + back, back[..|back| - 1];
    assert cs[..|cs| - 1] == front + [c, ".."] + init && ds[..|ds| - 1] == front + init;
    WalkPop(true, front, c, init);
  }

  lemma EndNotAtRoot(front: seq<string>, c: string)
    requires Settled(true, front + [c])
    ensures !EndsAtRoot(front + [c] + [".."]) && !EndsAtRoot(front)
  {
    var cs := front + [c] + [".."];
    assert cs[..|cs| - 1] == front + [c];
    WalkSettled(true, front + [c]);
    if front != [] {
      assert (front + [c])[|front| - 1] == front[|front| - 1];
    }
  }

  /** The test for ".." after the node that starts at `b`; when it succeeds, both are removed. */
  method PopDotDot(dst: array<char>, b: nat, a: nat, started: bool, ghost abs: bool, ghost atRoot: bool, ghost front: seq<string>, ghost rest: seq<string>)
    returns (popped: bool)
    requires Scanning(abs, atRoot, front, rest, b) && HoldsText(dst, Render(abs, front + rest)) && (started ==> abs)
    requires Parts(abs, atRoot, front, rest).2 != "" && a == b + |Parts(abs, atRoot, front, rest).1| + 1
    requires !atRoot ==> rest[0] != ".."
    modifies dst
    ensures popped <==> Todo(atRoot, rest) != [] && Todo(atRoot, rest)[0] == ".."
    ensures popped ==> HoldsText(dst, Render(if RootLost(started, atRoot, rest) then false else abs, front + Todo(atRoot, rest)[1..]))
    ensures !popped ==> HoldsText(dst, Render(abs, front + rest))
  {
    ghost var t := Render(abs, front + rest);
    NodeTests(abs, atRoot, front, rest, b, t, a);
    assert forall i :: 0 <= i < |t| ==> dst[..|t|][i] == t[i];
    popped := false;
    if dst[a] == '.' && dst[a + 1] == '.' {
      if IsSlash(dst[a + 2]) {
        PopMiddle(dst, b, a, abs, atRoot, front, rest);
        popped := true;
      } else if dst[a + 2] == '\0' {
        PopLast(dst, b, started, abs, atRoot, front, rest);
        assert front + Todo(atRoot, rest)[1..] == front;
        popped := true;
      }
    }
  }

  /** The node at `b` is itself "..", left where it is. */
  method IsDotDot(dst: array<char>, b: nat, ghost abs: bool, ghost atRoot: bool, ghost front: seq<string>, ghost rest: seq<string>, ghost a: nat)
    returns (yes: bool)
    requires Scanning(abs, atRoot, front, rest, b) && HoldsText(dst, Render(abs, front + rest))
    requires Parts(abs, atRoot, front, rest).2 != "" && a == b + |Parts(abs, atRoot, front, rest).1| + 1
    ensures yes <==> !atRoot && rest[0] == ".."
  {
    ghost var t := Render(abs, front + rest);
    NodeTests(abs, atRoot, front, rest, b, t, a);
    assert forall i :: 0 <= i < |t| ==> dst[..|t|][i] == t[i];
    yes := dst[b] == '.' && dst[b + 1] == '.' && IsSlash(dst[b + 2]);
  }

  /** Past the root slash, or past a component that is not followed by a removable "..". */
  ghost method Advance(abs: bool, atRoot: bool, front: seq<string>, rest: seq<string>, a: nat) returns (front': seq<string>, rest': seq<string>)
    requires Scanning(abs, atRoot, front, rest, a) && Parts(abs, atRoot, front, rest).2 != ""
    requires Todo(atRoot, rest) != [] && Todo(atRoot, rest)[0] == ".." ==> !atRoot && rest[0] == ".."
    ensures Scanning(abs, false, front', rest', a + |Parts(abs, atRoot, front, rest).1| + 1)
    ensures front' + rest' == front + rest && |rest'| == |Todo(atRoot, rest)|
  {
    if atRoot {
      front', rest' := front, rest;
    } else {
      front', rest' := front + [rest[0]], rest[1..];
      PrefixSnoc(front, rest[0]);
      assert rest == [rest[0]] + rest[1..];
      var next := front' + [rest'[0]];
      forall i | 0 <= i < |next| && next[i] == ".." ensures !abs && (i == 0 || next[i - 1] == "..") {
        assert i < |front'| ==> next[i] == front'[i] && (i > 0 ==> next[i - 1] == front'[i - 1]);
        if i == |front'| {
          assert front'[|front'| - 1] == "..";
        }
      }
    }
  }

  /** The scan has run into the NUL. */
  lemma ScanEnds(started: bool, abs: bool, atRoot: bool, front: seq<string>, rest: seq<string>, a: nat)
    requires Scanning(abs, atRoot, front, rest, a)
    requires a == |Render(abs, front + rest)| || (!atRoot && Parts(abs, atRoot, front, rest).2 == "")
    ensures Outcome(started, abs, front + rest) == Render(abs, front + rest)
  {
    PartsMakeText(abs, atRoot, front, rest, a);
    assert rest == [] || rest == [rest[0]];
    assert Settled(abs, front + rest);
    WalkSettled(abs, front + rest);
  }

  /** The next node of the path, from where the scan stands. */
  method NextAt(dst: array<char>, a0: nat, ghost abs: bool, ghost atRoot: bool, ghost front: seq<string>, ghost rest: seq<string>)
    returns (found: bool, a: nat)
    requires Scanning(abs, atRoot, front, rest, a0) && HoldsText(dst, Render(abs, front + rest))
    ensures found <==> Parts(abs, atRoot, front, rest).2 != ""
    ensures found ==> a == a0 + |Parts(abs, atRoot, front, rest).1| + 1 <= |Render(abs, front + rest)|
  {
    ghost var (head, c, u) := Parts(abs, atRoot, front, rest);
    PartsMakeText(abs, atRoot, front, rest, a0);
    found, a := NextNode(dst, a0, head, c, u);
  }

  /** The node at `b`, unless it is "..", goes with a ".." behind it; `next` are the components left. */
  method PopAt(dst: array<char>, b: nat, a: nat, started: bool, ghost abs: bool, ghost atRoot: bool, ghost front: seq<string>, ghost rest: seq<string>)
    returns (up: bool, ghost abs': bool, ghost next: seq<string>)
    requires Scanning(abs, atRoot, front, rest, b) && HoldsText(dst, Render(abs, front + rest)) && (started ==> abs)
    requires Parts(abs, atRoot, front, rest).2 != "" && a == b + |Parts(abs, atRoot, front, rest).1| + 1
    modifies dst
    ensures up ==> HoldsText(dst, Render(abs', next)) && AllProper(next) && |next| < |front| + |rest| && (started ==> abs')
    ensures up ==> Outcome(started, abs', next) == Outcome(started, abs, front + rest)
    ensures !up ==> HoldsText(dst, Render(abs, front + rest))
    ensures !up && Todo(atRoot, rest) != [] && Todo(atRoot, rest)[0] == ".." ==> !atRoot && rest[0] == ".."
  {
    abs' := if RootLost(started, atRoot, rest) then false else abs;
    next := [];
    up := IsDotDot(dst, b, abs, atRoot, front, rest, a);
    if up {
      up := false;
    } else {
      up := PopDotDot(dst, b, a, started, abs, atRoot, front, rest);
      if up {
        PopKeepsOutcome(started, abs, atRoot, front, rest, b);
        next := front + Todo(atRoot, rest)[1..];
      }
    }
  }

  /** The second pass. It starts over after every ".." it removes; each time the path has lost at
      least one component. */
  method RemoveDotDots(dst: array<char>, started: bool, ghost abs0: bool, ghost cs: seq<string>)
    requires AllProper(cs) && HoldsText(dst, Render(abs0, cs)) && (started ==> abs0)
    modifies dst
    ensures HoldsText(dst, Outcome(started, abs0, cs))
  {
    var a: nat := 0;
    ghost var abs, front, rest, atRoot := abs0, [], cs, abs0;
    FromTheStart(abs, rest);
    while dst[a] != '\0'
      invariant Scanning(abs, atRoot, front, rest, a) && a <= |Render(abs, front + rest)|
      invariant HoldsText(dst, Render(abs, front + rest))
      invariant Outcome(started, abs, front + rest) == Outcome(started, abs0, cs) && (started ==> abs)
      decreases |front| + |rest|, |rest| + (if atRoot then 1 else 0)
    {
      var b := a;
      var found;
      found, a := NextAt(dst, a, abs, atRoot, front, rest);
      if !found {
        ScanEnds(started, abs, atRoot, front, rest, b);
        return;
      }
      var up;
      ghost var abs', next;
      up, abs', next := PopAt(dst, b, a, started, abs, atRoot, front, rest);
      if up {
        a := 0;
        abs, front, rest, atRoot := abs', [], next, abs';
        FromTheStart(abs, rest);
        continue;
      }
      front, rest := Advance(abs, atRoot, front, rest, b);
      atRoot := false;
    }
    TextEnds(dst, Render(abs, front + rest), a);
    ScanEnds(started, abs, atRoot, front, rest, a);
  }

  lemma FromTheStart(abs: bool, rest: seq<string>)
    requires AllProper(rest)
    ensures Scanning(abs, abs, [], rest, 0) && [] + rest == rest
  {
    assert !abs && rest != [] ==> [] + [rest[0]] == [rest[0]];
  }

  lemma TextEnds(dst: array<char>, t: string, a: nat)
    requires HoldsText(dst, t) && a <= |t| && dst[a] == '\0'
    ensures a == |t|
  {
    assert forall i :: 0 <= i < |t| ==> dst[i] == dst[..|t|][i] == t[i] && t[i] in t;
  }

  /** What CompressPath makes of a path. */
  function Compressed(s: string): string {
    Outcome(Absolute(s), Absolute(StripDots(s)), Components(s))
  }

  /** It is the stack walk of the components exactly when the first pass gets the path right. */
  lemma CompressedRightIff(s: string)
    requires '\0' !in s && StripDots(s) != ""
    ensures Compressed(s) == Canonical(s) <==> Absolute(s) || !Absolute(StripDots(s))
  {
    var cs := Components(s);
    ComponentsProper(s);
    if !Absolute(s) && Absolute(StripDots(s)) {
      WalkSettles(false, [], cs);
      WalkSettles(true, [], cs);
      RootSlash(false, Walk(false, [], cs));
      RootSlash(true, Walk(true, [], cs));
      if EndsAtRoot(cs) {
        UpFromRoot(cs);
      }
    }
  }

  /** Components walked absolutely to the root, and then "..": the relative walk ends above its start. */
  lemma UpFromRoot(cs: seq<string>)
    requires AllProper(cs) && EndsAtRoot(cs)
    ensures Render(false, Walk(false, [], cs)) != "."
  {
    var init := cs[..|cs| - 1];
    assert cs == init + [".."];
    var n := RelativeWalk(0, [], init);
    assert Ups(0) + [] == [] && Ups(n) + [] == Ups(n);
    WalkSplit(false, [], init, [".."]);
    var w := Walk(false, [], cs);
    assert w == Ups(n) + [".."];
    RootSlash(false, w);
    assert w[0] == "..";
    assert Join(w)[..2] == "..";
  }

  /** As many ".." as asked for. */
  function Ups(n: nat): (ups: seq<string>)
    ensures |ups| == n && forall i :: 0 <= i < n ==> ups[i] == ".."
  {
    seq(n, i => "..")
  }

  /** Walked relatively, a path only collects in front the ".." an absolute walk ignores at the root. */
  lemma {:induction false} RelativeWalk(n: nat, stack: seq<string>, cs: seq<string>) returns (m: nat)
    requires ".." !in stack
    ensures Walk(false, Ups(n) + stack, cs) == Ups(m) + Walk(true, stack, cs)
    decreases |cs|
  {
    if cs == [] {
      m := n;
    } else {
      var n' := if stack == [] && cs[0] == ".." then n + 1 else n;
      var next := Step(true, stack, cs[0]);
      StepBoth(n, stack, cs[0]);
      m := RelativeWalk(n', next, cs[1..]);
    }
  }

  lemma StepBoth(n: nat, stack: seq<string>, c: string)
    requires ".." !in stack
    ensures ".." !in Step(true, stack, c)
    ensures Step(false, Ups(n) + stack, c) == Ups(if stack == [] && c == ".." then n + 1 else n) + Step(true, stack, c)
  {
    var both := Ups(n) + stack;
    if stack != [] {
      assert both[|both| - 1] == stack[|stack| - 1];
      assert both[..|both| - 1] == Ups(n) + stack[..|stack| - 1];
    } else {
      assert both == Ups(n) && Ups(n) + [".."] == Ups(n + 1);
    }
  }

  /** CompressPath without DOS compatibility. */
  method CompressPath(dst: array<char>, src: string)
    requires src == "" || dst.Length < 4 || ('\0' !in src && StripDots(src) != "" && |src| < dst.Length)
    modifies dst
    ensures dst.Length > 0 && (src == "" || dst.Length < 4) ==> HoldsText(dst, "")
    ensures dst.Length >= 4 && src != "" ==> HoldsText(dst, Compressed(src))
    ensures dst.Length >= 4 && src != "" && Compressible(src) ==> HoldsText(dst, Canonical(src))
  {
    if dst.Length == 0 {
      return;
    }
    dst[0] := '\0';
    if src == "" || dst.Length < 4 {
      return;
    }
    ComponentsProper(src);
    FirstPassRenders(src);
    CompressedRightIff(src);
    Squeeze(dst, src);
    RemoveDotDots(dst, IsSlash(src[0]), Absolute(StripDots(src)), Components(src));
  }

  const TMP_SIZE := 512

  /** The longest prefix of at most n characters. */
  function Shorten(s: string, n: nat): string {
    if |s| <= n then s else s[..n]
  }

  /** The path PathCat compresses: `src` itself when it is absolute or starts with "~", else `cwd`, a
      slash and `src`, cut to what the temporary buffer holds. */
  function Concatenated(cwd: string, src: string): string {
    if src != "" && (src[0] == '/' || src[0] == '~') then src
    else var head := Shorten(cwd, TMP_SIZE - 2) + "/"; head + Shorten(src, TMP_SIZE - |head| - 1)
  }

  method PathCat(dst: array<char>, cwd: string, src: string)
    requires '\0' !in Concatenated(cwd, src) && StripDots(Concatenated(cwd, src)) != ""
    requires 4 <= dst.Length && |Concatenated(cwd, src)| < dst.Length
    modifies dst
    ensures HoldsText(dst, Compressed(Concatenated(cwd, src)))
    ensures Compressible(Concatenated(cwd, src)) ==> HoldsText(dst, Canonical(Concatenated(cwd, src)))
    // an absolute path, one from a home directory, and any other as long as nothing is cut
    ensures src != "" && (src[0] == '/' || src[0] == '~') ==> HoldsText(dst, Canonical(src))
    ensures (src == "" || (src[0] != '/' && src[0] != '~')) && |cwd| <= 510 && |cwd| + 1 + |src| <= 511
              && (Absolute(cwd) || Compressible(cwd + "/" + src)) ==>
              HoldsText(dst, Canonical(cwd + "/" + src))
  {
    if src != "" && (src[0] == '/' || src[0] == '~') {
      CompressPath(dst, src);
      return;
    }
    var tmp := Shorten(cwd, TMP_SIZE - 2);
    tmp := tmp + "/";
    tmp := tmp + Shorten(src, TMP_SIZE - |tmp| - 1);
    CompressPath(dst, tmp);
  }

  /** Two steps of PathCat are one, as long as nothing is cut: changing to `a` and then to `b` ends up where changing to
      a/b does, from the current directory or, if `a` is absolute, from the root; and an absolute `b` is where
      one ends up whatever came before. */
  lemma PathCatComposes(cwd: string, a: string, b: string)
    requires '\0' !in cwd && '\0' !in a && Absolute(cwd)
    requires a != "" && a[0] != '~' && (b == "" || b[0] != '~')
    requires |cwd| + 1 + |a| < TMP_SIZE - 1 && |cwd| + 1 + |a| + 1 + |b| < TMP_SIZE
    ensures Canonical(Concatenated(Canonical(Concatenated(cwd, a)), b)) ==
            if b != "" && b[0] == '/' then Canonical(b)
            else if a[0] == '/' then Canonical(a + "/" + b)
            else Canonical(cwd + "/" + a + "/" + b)
  {
    var p := if a[0] == '/' then a else cwd + "/" + a;
    assert Concatenated(cwd, a) == p;
    if b == "" || b[0] != '/' {
      CanonicalShorter(p);
      assert Concatenated(Canonical(p), b) == Canonical(p) + "/" + b;
      CanonicalAgain(p, b);
    }
  }
}
