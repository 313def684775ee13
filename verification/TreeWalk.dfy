/** Ftw (ftw.c): walks a directory tree, calling back with the path of every entry; all paths are
    built in one shared buffer. */
module TreeWalk {
  import opened Basics

  // ---- trees ----

  /** What a directory entry turns out to be. An entry that cannot be examined, or is neither a file,
      a link nor a directory, is Other. */
  datatype Node =
    | File(name: string)
    | Link(name: string)
    | Dir(name: string, readable: bool, entries: Nodes)
    | Other(name: string)

  datatype Nodes = Nil | Cons(head: Node, tail: Nodes)

  function Append(es: Nodes, fs: Nodes): Nodes {
    match es
    case Nil => fs
    case Cons(e, tail) => Cons(e, Append(tail, fs))
  }

  function Size(d: Node): nat {
    if d.Dir? then 1 + Sizes(d.entries) else 1
  }

  function Sizes(es: Nodes): nat {
    match es
    case Nil => 0
    case Cons(e, tail) => Size(e) + Sizes(tail)
  }

  predicate Skipped(name: string) {
    name == "." || name == ".."
  }

  predicate IsSubDir(e: Node) {
    e.Dir? && !Skipped(e.name)
  }

  /** The directories a directory defers. */
  function SubDirs(es: Nodes): Nodes {
    match es
    case Nil => Nil
    case Cons(e, tail) => if IsSubDir(e) then Cons(e, SubDirs(tail)) else SubDirs(tail)
  }

  // ---- what the walk is to do ----

  datatype Visit = Visit(kind: char, path: string)

  /** The path of a directory with a separator after it; the root directory is one itself. */
  function Below(path: string): string {
    if path == "/" then path else path + "/"
  }

  function LeafVisit(prefix: string, e: Node): seq<Visit> {
    if Skipped(e.name) then []
    else if e.File? then [Visit('-', prefix + e.name)]
    else if e.Link? then [Visit('l', prefix + e.name)]
    else []
  }

  /** The files and links among some entries, in order. */
  function LeafVisits(prefix: string, es: Nodes): seq<Visit> {
    match es
    case Nil => []
    case Cons(e, tail) => LeafVisit(prefix, e) + LeafVisits(prefix, tail)
  }

  function DirVisit(prefix: string, e: Node): seq<Visit>
    decreases e
  {
    if IsSubDir(e) then
      var path := prefix + e.name;
      [Visit('d', path)]
      + (if e.readable then LeafVisits(Below(path), e.entries) + DirVisits(Below(path), e.entries) else [])
    else []
  }

  /** The directories among some entries, in order, each followed by all that is in it: first what is
      not a directory, then its subdirectories. */
  function DirVisits(prefix: string, es: Nodes): seq<Visit>
    decreases es
  {
    match es
    case Nil => []
    case Cons(e, tail) => DirVisit(prefix, e) + DirVisits(prefix, tail)
  }

  /** What is visited below a directory. */
  function Visits(path: string, d: Node): seq<Visit>
    requires d.Dir?
  {
    if d.readable then LeafVisits(Below(path), d.entries) + DirVisits(Below(path), d.entries) else []
  }

  /** Files, links and opened directories found, and the depth reached. */
  datatype Tally = Tally(files: nat, links: nat, dirs: nat, maxDepth: nat) {
    function Plus(t: Tally): Tally {
      Tally(files + t.files, links + t.links, dirs + t.dirs, if maxDepth < t.maxDepth then t.maxDepth else maxDepth)
    }
  }

  const NOTHING := Tally(0, 0, 0, 0)

  function LeafTally(e: Node): Tally {
    Tally(if e.File? && !Skipped(e.name) then 1 else 0, if e.Link? && !Skipped(e.name) then 1 else 0, 0, 0)
  }

  function LeafTallies(es: Nodes): Tally {
    match es
    case Nil => NOTHING
    case Cons(e, tail) => LeafTally(e).Plus(LeafTallies(tail))
  }

  function TreeTally(d: Node, depth: nat): Tally
    decreases d, 0
  {
    if d.Dir? && d.readable
    then Tally(0, 0, 1, depth).Plus(LeafTallies(d.entries)).Plus(DirTallies(d.entries, depth + 1))
    else NOTHING
  }

  function DirTally(e: Node, depth: nat): Tally
    decreases e, 1
  {
    if IsSubDir(e) then TreeTally(e, depth) else NOTHING
  }

  function DirTallies(es: Nodes, depth: nat): Tally
    decreases es, 0
  {
    match es
    case Nil => NOTHING
    case Cons(e, tail) => DirTally(e, depth).Plus(DirTallies(tail, depth))
  }

  /** No path outgrows a buffer of this size, so that it is never reallocated. */
  predicate PathsFit(path: string, d: Node, size: nat)
    decreases d
  {
    && |path| <= size
    && (d.Dir? && d.readable ==> AllPathsFit(Below(path), d.entries, size))
  }

  predicate AllPathsFit(prefix: string, es: Nodes, size: nat)
    decreases es
  {
    match es
    case Nil => true
    case Cons(e, tail) =>
      && (!Skipped(e.name) ==> '\0' !in e.name && |prefix| + |e.name| + 1 <= size && PathsFit(prefix + e.name, e, size))
      && AllPathsFit(prefix, tail, size)
  }

  // ---- deferring the subdirectories changes nothing but the order ----

  lemma {:induction false} SubDirVisits(prefix: string, es: Nodes)
    ensures DirVisits(prefix, SubDirs(es)) == DirVisits(prefix, es)
  {
    if es.Cons? {
      SubDirVisits(prefix, es.tail);
      if !IsSubDir(es.head) {
        assert DirVisit(prefix, es.head) == [];
      }
    }
  }

  /** Nothing has been counted: all four numbers are 0. */
  ghost predicate Neutral(zero: Tally) {
    forall t: Tally :: zero.Plus(t) == t
  }

  lemma FromZero(zero: Tally, t: Tally)
    requires Neutral(zero)
    ensures zero.Plus(t) == t
  {
  }

  lemma NothingPlus(t: Tally)
    ensures NOTHING.Plus(t) == t
  {
  }

  lemma {:induction false} SubDirTallies(es: Nodes, depth: nat)
    ensures DirTallies(SubDirs(es), depth) == DirTallies(es, depth)
  {
    match es
    case Nil =>
    case Cons(e, tail) =>
      SubDirTallies(tail, depth);
      if IsSubDir(e) {
        assert SubDirs(es) == Cons(e, SubDirs(tail));
      } else {
        NothingPlus(DirTallies(tail, depth));
      }
  }

  lemma {:induction false} SubDirsFit(prefix: string, es: Nodes, size: nat)
    requires AllPathsFit(prefix, es, size)
    ensures AllPathsFit(prefix, SubDirs(es), size) && OnlySubDirs(SubDirs(es))
    ensures Sizes(SubDirs(es)) <= Sizes(es)
  {
    if es.Cons? {
      SubDirsFit(prefix, es.tail, size);
    }
  }

  predicate OnlySubDirs(es: Nodes) {
    es.Cons? ==> IsSubDir(es.head) && OnlySubDirs(es.tail)
  }

  lemma {:induction false} AppendOne(q: Nodes, e: Node, rest: Nodes)
    ensures Append(Append(q, Cons(e, Nil)), rest) == Append(q, Cons(e, rest))
  {
    if q.Cons? {
      AppendOne(q.tail, e, rest);
    }
  }

  lemma {:induction false} AppendNil(q: Nodes)
    ensures Append(q, Nil) == q
  {
    if q.Cons? {
      AppendNil(q.tail);
    }
  }

  // ---- the plain listing of a tree ----

  /** Every entry where it stands, a directory followed by what is in it. */
  function Listing(prefix: string, es: Nodes): seq<Visit>
    decreases es
  {
    match es
    case Nil => []
    case Cons(e, tail) =>
      (if IsSubDir(e) then
         [Visit('d', prefix + e.name)] + (if e.readable then Listing(Below(prefix + e.name), e.entries) else [])
       else LeafVisit(prefix, e))
      + Listing(prefix, tail)
  }

  /** The walk visits exactly what the plain listing names, as often as it does. */
  lemma {:induction false} WalkIsListing(prefix: string, es: Nodes)
    ensures multiset(LeafVisits(prefix, es) + DirVisits(prefix, es)) == multiset(Listing(prefix, es))
    decreases es
  {
    match es
    case Nil =>
    case Cons(e, tail) =>
      WalkIsListing(prefix, tail);
      if IsSubDir(e) {
        assert LeafVisit(prefix, e) == [];
        if e.readable {
          WalkIsListing(Below(prefix + e.name), e.entries);
        }
      } else {
        assert DirVisit(prefix, e) == [];
      }
  }

  // ---- what is visited, and how often ----

  predicate Among(e: Node, es: Nodes) {
    es.Cons? && (e == es.head || Among(e, es.tail))
  }

  /** Every file, link and directory that is not called "." or ".." is visited where it stands, hidden ones
      included, and nothing else is. */
  lemma {:induction false} EntryVisited(prefix: string, es: Nodes, e: Node)
    requires Among(e, es)
    ensures e.name != "." && e.name != ".." ==>
              && (e.File? ==> Visit('-', prefix + e.name) in LeafVisits(prefix, es))
              && (e.Link? ==> Visit('l', prefix + e.name) in LeafVisits(prefix, es))
              && (e.Dir? ==> Visit('d', prefix + e.name) in DirVisits(prefix, es))
    ensures e.Other? || e.name == "." || e.name == ".." ==> LeafVisit(prefix, e) == DirVisit(prefix, e) == []
  {
    if e != es.head {
      EntryVisited(prefix, es.tail, e);
    } else if e.Dir? && e.name != "." && e.name != ".." {
      assert DirVisit(prefix, e)[0] == Visit('d', prefix + e.name);
    }
  }

  /** How many visits are of a kind. */
  function Kinds(vs: seq<Visit>, kind: char): nat {
    if vs == [] then 0 else (if vs[0].kind == kind then 1 else 0) + Kinds(vs[1..], kind)
  }

  lemma {:induction false} KindsJoined(vs: seq<Visit>, ws: seq<Visit>, kind: char)
    ensures Kinds(vs + ws, kind) == Kinds(vs, kind) + Kinds(ws, kind)
  {
    if vs == [] {
      assert vs + ws == ws;
    } else {
      KindsJoined(vs[1..], ws, kind);
      assert (vs + ws)[1..] == vs[1..] + ws;
    }
  }

  /** The counters are the numbers of files and links visited, and of directories but for some that cannot be
      opened. */
  ghost predicate Counts(t: Tally, vs: seq<Visit>, open: bool) {
    t.files == Kinds(vs, '-') && t.links == Kinds(vs, 'l') && t.dirs <= Kinds(vs, 'd') && (open ==> t.dirs == Kinds(vs, 'd'))
  }

  lemma CountsJoined(t: Tally, vs: seq<Visit>, u: Tally, ws: seq<Visit>, open: bool)
    requires Counts(t, vs, open) && Counts(u, ws, open)
    ensures Counts(t.Plus(u), vs + ws, open)
  {
    KindsJoined(vs, ws, '-');
    KindsJoined(vs, ws, 'l');
    KindsJoined(vs, ws, 'd');
  }

  lemma LeafCounted(prefix: string, e: Node)
    ensures Counts(LeafTally(e), LeafVisit(prefix, e), true)
  {
    var vs := LeafVisit(prefix, e);
    if vs != [] {
      assert vs[1..] == [];
    }
  }

  lemma {:induction false} LeavesCounted(prefix: string, es: Nodes, open: bool)
    ensures Counts(LeafTallies(es), LeafVisits(prefix, es), open)
  {
    match es
    case Nil =>
    case Cons(e, tail) =>
      LeafCounted(prefix, e);
      LeavesCounted(prefix, tail, open);
      CountsJoined(LeafTally(e), LeafVisit(prefix, e), LeafTallies(tail), LeafVisits(prefix, tail), open);
  }

  /** All directories can be opened. */
  predicate AllOpen(es: Nodes)
    decreases es
  {
    es.Cons? ==> Open(es.head) && AllOpen(es.tail)
  }

  predicate Open(e: Node)
    decreases e
  {
    e.Dir? ==> e.readable && AllOpen(e.entries)
  }

  lemma {:induction false} DirsCounted(prefix: string, es: Nodes, depth: nat, open: bool)
    requires open ==> AllOpen(es)
    ensures Counts(DirTallies(es, depth), DirVisits(prefix, es), open)
    decreases es, 0
  {
    match es
    case Nil =>
    case Cons(e, tail) =>
      DirCounted(prefix, e, depth, open);
      DirsCounted(prefix, tail, depth, open);
      CountsJoined(DirTally(e, depth), DirVisit(prefix, e), DirTallies(tail, depth), DirVisits(prefix, tail), open);
  }

  lemma {:induction false} DirCounted(prefix: string, e: Node, depth: nat, open: bool)
    requires open ==> Open(e)
    ensures Counts(DirTally(e, depth), DirVisit(prefix, e), open)
    decreases e, 1
  {
    if IsSubDir(e) {
      var path := prefix + e.name;
      TreeCounted(path, e, depth, open);
      assert DirVisit(prefix, e) == [Visit('d', path)] + Visits(path, e);
    }
  }

  /** What is counted of a directory is what is visited of it, and that as often. */
  lemma {:induction false} TreeCounted(path: string, d: Node, depth: nat, open: bool)
    requires d.Dir? && (open ==> Open(d))
    ensures Counts(TreeTally(d, depth), [Visit('d', path)] + Visits(path, d), open)
    decreases d, 0
  {
    var self := [Visit('d', path)];
    assert self[1..] == [];
    if d.readable {
      var own, leaves, dirs := Tally(0, 0, 1, depth), LeafVisits(Below(path), d.entries), DirVisits(Below(path), d.entries);
      LeavesCounted(Below(path), d.entries, open);
      DirsCounted(Below(path), d.entries, depth + 1, open);
      CountsJoined(own, self, LeafTallies(d.entries), leaves, open);
      CountsJoined(own.Plus(LeafTallies(d.entries)), self + leaves, DirTallies(d.entries, depth + 1), dirs, open);
      assert self + (leaves + dirs) == self + leaves + dirs;
    } else {
      assert self + [] == self;
    }
  }

  /** How many levels of directories can be opened. */
  function Levels(d: Node): nat
    decreases d, 0
  {
    if d.Dir? && d.readable then 1 + LevelsBelow(d.entries) else 0
  }

  function LevelsBelow(es: Nodes): nat
    decreases es, 0
  {
    if es == Nil then 0
    else
      var n, m := if es.head.name == "." || es.head.name == ".." then 0 else Levels(es.head), LevelsBelow(es.tail);
      if n > m then n else m
  }

  /** The depth counted is that of the deepest of them. */
  lemma {:induction false} DepthCounted(d: Node, depth: nat)
    ensures TreeTally(d, depth).maxDepth == if Levels(d) == 0 then 0 else depth + Levels(d) - 1
    decreases d, 0
  {
    if d.Dir? && d.readable {
      NoDepth(d.entries);
      DepthBelow(d.entries, depth + 1);
    }
  }

  lemma {:induction false} DepthBelow(es: Nodes, depth: nat)
    ensures DirTallies(es, depth).maxDepth == if LevelsBelow(es) == 0 then 0 else depth + LevelsBelow(es) - 1
    decreases es, 0
  {
    if es.Cons? {
      DepthCounted(es.head, depth);
      DepthBelow(es.tail, depth);
    }
  }

  lemma {:induction false} NoDepth(es: Nodes)
    ensures LeafTallies(es).maxDepth == 0
  {
    if es.Cons? {
      NoDepth(es.tail);
    }
  }

  // ---- runs of callbacks, cut short by a negative result ----

  type Proc = nat -> int

  /** The callbacks made so far, continued with `full`: all of them, none refused (rc 0), or up to and
      including the first one refused (rc -1). */
  ghost predicate Ran(proc: Proc, before: seq<Visit>, full: seq<Visit>, after: seq<Visit>, rc: int) {
    && (rc == 0 || rc == -1)
    && before <= after <= before + full
    && (rc == 0 ==> after == before + full && forall i :: |before| <= i < |after| ==> proc(i) >= 0)
    && (rc == -1 ==> |after| > |before| && proc(|after| - 1) < 0 && forall i :: |before| <= i < |after| - 1 ==> proc(i) >= 0)
  }

  lemma RanThen(proc: Proc, a: seq<Visit>, f: seq<Visit>, b: seq<Visit>, g: seq<Visit>, c: seq<Visit>, rc: int)
    requires Ran(proc, a, f, b, 0) && Ran(proc, b, g, c, rc)
    ensures Ran(proc, a, f + g, c, rc)
  {
    assert a + (f + g) == (a + f) + g;
  }

  lemma RanCut(proc: Proc, a: seq<Visit>, f: seq<Visit>, b: seq<Visit>, g: seq<Visit>)
    requires Ran(proc, a, f, b, -1)
    ensures Ran(proc, a, f + g, b, -1)
  {
    assert a + (f + g) == (a + f) + g;
  }

  // ---- the walker ----

  class FtwInfo {
    const curPath: array<char>
    const curPathAllocSize: nat
    const proc: Proc
    var curPathLen: nat
    var curType: char
    var numFiles: nat
    var numLinks: nat
    var numDirs: nat
    var maxDepth: nat
    var calls: seq<Visit>

    /** The buffer has two characters to spare, for a separator and the NUL. */
    ghost predicate Valid()
      reads this
    {
      curPath.Length == curPathAllocSize + 2
    }

    ghost function Counters(): Tally
      reads this
    {
      Tally(numFiles, numLinks, numDirs, maxDepth)
    }

    constructor (size: nat, proc: Proc)
      ensures Valid() && curPathAllocSize == size && this.proc == proc && calls == [] && fresh(curPath)
    {
      curPath := new char[size + 2](i => '\0');
      curPathAllocSize := size;
      this.proc := proc;
      curPathLen, curType, numFiles, numLinks, numDirs, maxDepth := 0, 'd', 0, 0, 0, 0;
      calls := [];
    }

    /** Calls back: the callee sees the type and the path in the buffer. */
    method Callback(ghost path: string) returns (r: int)
      requires Valid() && Filled(curPath, path) && curPathLen == |path|
      modifies `calls
      ensures calls == old(calls) + [Visit(curType, path)] && r == proc(|old(calls)|)
    {
      r := proc(|calls|);
      calls := calls + [Visit(curType, curPath[..curPathLen])];
    }

    /** memcpy(filename, name, strlen(name) + 1) behind `at` characters of the path. */
    method PutName(at: nat, name: string)
      requires Valid() && at + |name| < curPath.Length
      modifies curPath, `curPathLen
      ensures curPath[..at] == old(curPath[..at])
      ensures Filled(curPath, old(curPath[..at]) + name) && curPathLen == at + |name|
    {
      forall i | 0 <= i < |name| { curPath[at + i] := name[i]; }
      curPath[at + |name|] := '\0';
      curPathLen := at + |name|;
    }

    /** One directory entry: a file or a link is visited. */
    method VisitLeaf(at: nat, e: Node, ghost prefix: string) returns (rc: int)
      requires Valid() && at == |prefix| && at <= curPath.Length && curPath[..at] == prefix
      requires !Skipped(e.name) ==> |prefix| + |e.name| + 1 <= curPathAllocSize
      modifies curPath, `curPathLen, `curType, `numFiles, `numLinks, `calls
      ensures curPath[..at] == prefix
      ensures Ran(proc, old(calls), LeafVisit(prefix, e), calls, rc)
      ensures rc == 0 ==> Counters() == old(Counters()).Plus(LeafTally(e))
    {
      var r := 0;
      if !Skipped(e.name) {
        curPath[at] := '\0';
        PutName(at, e.name);
        if e.File? {
          numFiles := numFiles + 1;
          curType := '-';
          r := Callback(prefix + e.name);
        } else if e.Link? {
          curType := 'l';
          numLinks := numLinks + 1;
          r := Callback(prefix + e.name);
        }
      }
      rc := if r < 0 then -1 else 0;
    }

    /** The loop over the directory entries: subdirectories are deferred. */
    method VisitLeaves(at: nat, es: Nodes, ghost prefix: string) returns (rc: int, head: Nodes)
      requires Valid() && at == |prefix| && at <= curPath.Length && curPath[..at] == prefix
      requires AllPathsFit(prefix, es, curPathAllocSize)
      modifies curPath, `curPathLen, `curType, `numFiles, `numLinks, `calls
      ensures curPath[..at] == prefix
      ensures Ran(proc, old(calls), LeafVisits(prefix, es), calls, rc)
      ensures rc == 0 ==> head == SubDirs(es) && Counters() == old(Counters()).Plus(LeafTallies(es))
    {
      head := Nil;
      var rest := es;
      ghost var before, tally := calls, Counters();
      ghost var all := tally.Plus(LeafTallies(es));
      ghost var left := LeafVisits(prefix, es);
      ghost var done: seq<Visit> := [];
      rc := 0;
      while rest.Cons?
        invariant curPath[..at] == prefix && AllPathsFit(prefix, rest, curPathAllocSize)
        invariant Append(head, SubDirs(rest)) == SubDirs(es)
        invariant rc == 0 && left == LeafVisits(prefix, rest) && Joins(done, left, LeafVisits(prefix, es))
        invariant Ran(proc, before, done, calls, 0)
        invariant Counters().Plus(LeafTallies(rest)) == all
        decreases rest
      {
        var e := rest.head;
        ghost var visit, start := LeafVisit(prefix, e), calls;
        PlusAssoc(Counters(), LeafTally(e), LeafTallies(rest.tail));
        rc := VisitLeaf(at, e, prefix);
        left := LeafVisits(prefix, rest.tail);
        JoinsStep(done, visit, left, LeafVisits(prefix, es));
        if rc < 0 {
          CutShort(proc, before, done, start, visit, left, calls);
          return;
        }
        RanThen(proc, before, done, start, visit, calls, 0);
        done := done + visit;
        if IsSubDir(e) {
          AppendOne(head, e, SubDirs(rest.tail));
          head := Append(head, Cons(e, Nil));
        }
        rest := rest.tail;
      }
      AppendNil(head);
      PlusNothing(Counters());
    }

    /** The loop over the deferred subdirectories. */
    method VisitDirs(at: nat, head: Nodes, depth: nat, ghost prefix: string) returns (rc: int)
      requires Valid() && at == |prefix| && at <= curPath.Length && curPath[..at] == prefix && prefix != ""
      requires AllPathsFit(prefix, head, curPathAllocSize) && OnlySubDirs(head)
      modifies curPath, `curPathLen, `curType, `numFiles, `numLinks, `numDirs, `maxDepth, `calls
      ensures curPath[..at] == prefix
      ensures Ran(proc, old(calls), DirVisits(prefix, head), calls, rc)
      ensures rc == 0 ==> Counters() == old(Counters()).Plus(DirTallies(head, depth + 1))
      decreases Sizes(head), 2
    {
      var sdp := head;
      ghost var before := calls;
      ghost var all := Counters().Plus(DirTallies(head, depth + 1));
      ghost var left := DirVisits(prefix, head);
      ghost var done: seq<Visit> := [];
      rc := 0;
      while sdp.Cons?
        invariant curPath[..at] == prefix && AllPathsFit(prefix, sdp, curPathAllocSize) && OnlySubDirs(sdp)
        invariant Sizes(sdp) <= Sizes(head)
        invariant rc == 0 && left == DirVisits(prefix, sdp) && Joins(done, left, DirVisits(prefix, head))
        invariant Ran(proc, before, done, calls, 0)
        invariant Counters().Plus(DirTallies(sdp, depth + 1)) == all
        decreases sdp
      {
        var d := sdp.head;
        ghost var visit, start := DirVisit(prefix, d), calls;
        PlusAssoc(Counters(), DirTally(d, depth + 1), DirTallies(sdp.tail, depth + 1));
        rc := VisitDir(at, d, depth, prefix);
        left := DirVisits(prefix, sdp.tail);
        JoinsStep(done, visit, left, DirVisits(prefix, head));
        if rc < 0 {
          CutShort(proc, before, done, start, visit, left, calls);
          return;
        }
        RanThen(proc, before, done, start, visit, calls, 0);
        done := done + visit;
        sdp := sdp.tail;
      }
      PlusNothing(Counters());
    }

    /** One deferred subdirectory: the callback, then all that is in it. */
    method VisitDir(at: nat, d: Node, depth: nat, ghost prefix: string) returns (rc: int)
      requires Valid() && at == |prefix| && at <= curPath.Length && curPath[..at] == prefix && prefix != ""
      requires IsSubDir(d) && |prefix| + |d.name| + 1 <= curPathAllocSize && PathsFit(prefix + d.name, d, curPathAllocSize)
      modifies curPath, `curPathLen, `curType, `numFiles, `numLinks, `numDirs, `maxDepth, `calls
      ensures curPath[..at] == prefix
      ensures Ran(proc, old(calls), DirVisit(prefix, d), calls, rc)
      ensures rc == 0 ==> Counters() == old(Counters()).Plus(DirTally(d, depth + 1))
      decreases Size(d), 1
    {
      ghost var path, before := prefix + d.name, calls;
      PutName(at, d.name);
      curType := 'd';
      var r := Callback(path);
      ghost var visit := [Visit('d', path)];
      ghost var start := calls;
      if r < 0 {
        assert Ran(proc, before, visit, calls, -1);
        RanCut(proc, before, visit, calls, Visits(path, d));
        return -1;
      }
      assert Ran(proc, before, visit, calls, 0);
      rc := FtwTraverse(at + |d.name|, depth + 1, d, path);
      assert curPath[..at] == curPath[..|path|][..at];
      if rc == 0 {
        curPath[at] := '\0';
      }
      RanThen(proc, before, visit, start, Visits(path, d), calls, rc);
    }

    /** An opened directory is counted, and its path gets a separator unless it is one. */
    method EnterDirectory(dirPathLen: nat, depth: nat, ghost path: string) returns (at: nat)
      requires Valid() && path != "" && dirPathLen == |path| && Filled(curPath, path) && |path| <= curPathAllocSize
      modifies curPath, `numDirs, `maxDepth
      ensures at == |Below(path)| && at <= curPath.Length && curPath[..at] == Below(path)
      ensures Counters() == old(Counters()).Plus(Tally(0, 0, 1, depth))
    {
      var isRootDir := dirPathLen == 1 && curPath[0] == '/';
      assert isRootDir <==> path == "/";
      numDirs := numDirs + 1;
      if maxDepth < depth {
        maxDepth := depth;
      }
      at := dirPathLen;
      if !isRootDir {
        curPath[at] := '/';
        at := at + 1;
      }
      curPath[at] := '\0';
    }

    /** FtwTraverse: the directory whose path is in the buffer. One that cannot be opened is passed over. */
    method FtwTraverse(dirPathLen: nat, depth: nat, d: Node, ghost path: string) returns (rc: int)
      requires Valid() && d.Dir? && path != "" && dirPathLen == |path| && Filled(curPath, path)
      requires PathsFit(path, d, curPathAllocSize)
      modifies curPath, `curPathLen, `curType, `numFiles, `numLinks, `numDirs, `maxDepth, `calls
      ensures |path| <= curPath.Length && curPath[..|path|] == path
      ensures Ran(proc, old(calls), Visits(path, d), calls, rc)
      ensures rc == 0 ==> Counters() == old(Counters()).Plus(TreeTally(d, depth))
      decreases Size(d), 0
    {
      if !d.readable {
        PlusNothing(Counters());
        return 0;
      }
      var at := EnterDirectory(dirPathLen, depth, path);
      rc := VisitBelow(at, depth, d, Below(path));
      PlusAssoc(old(Counters()).Plus(Tally(0, 0, 1, depth)), LeafTallies(d.entries), DirTallies(d.entries, depth + 1));
      PlusAssoc(old(Counters()), Tally(0, 0, 1, depth), LeafTallies(d.entries).Plus(DirTallies(d.entries, depth + 1)));
      PlusAssoc(Tally(0, 0, 1, depth), LeafTallies(d.entries), DirTallies(d.entries, depth + 1));
      PrefixStays(path);
    }

    lemma PrefixStays(path: string)
      requires |Below(path)| <= curPath.Length && curPath[..|Below(path)|] == Below(path)
      ensures curPath[..|path|] == path
    {
      assert Below(path)[..|path|] == path;
      assert curPath[..|Below(path)|][..|path|] == curPath[..|path|];
    }

    /** The two loops of FtwTraverse. */
    method VisitBelow(at: nat, depth: nat, d: Node, ghost prefix: string) returns (rc: int)
      requires Valid() && d.Dir? && at == |prefix| && at <= curPath.Length && curPath[..at] == prefix && prefix != ""
      requires AllPathsFit(prefix, d.entries, curPathAllocSize)
      modifies curPath, `curPathLen, `curType, `numFiles, `numLinks, `numDirs, `maxDepth, `calls
      ensures curPath[..at] == prefix
      ensures Ran(proc, old(calls), LeafVisits(prefix, d.entries) + DirVisits(prefix, d.entries), calls, rc)
      ensures rc == 0 ==> Counters() == old(Counters()).Plus(LeafTallies(d.entries)).Plus(DirTallies(d.entries, depth + 1))
      decreases Sizes(d.entries), 3
    {
      ghost var before := calls;
      var head;
      rc, head := VisitLeaves(at, d.entries, prefix);
      ghost var middle := calls;
      if rc < 0 {
        RanCut(proc, before, LeafVisits(prefix, d.entries), calls, DirVisits(prefix, d.entries));
        return;
      }
      SubDirVisits(prefix, d.entries);
      SubDirTallies(d.entries, depth + 1);
      SubDirsFit(prefix, d.entries, curPathAllocSize);
      rc := VisitDirs(at, head, depth, prefix);
      RanThen(proc, before, LeafVisits(prefix, d.entries), middle, DirVisits(prefix, d.entries), calls, rc);
    }

    /** Puts the start path into the buffer and cuts off trailing separators. */
    method PutStart(path: string) returns (len: nat)
      requires Valid() && path != "" && |path| < curPathAllocSize
      modifies curPath, `curPathLen
      ensures Filled(curPath, WithoutSlashes(path)) && len == curPathLen == |WithoutSlashes(path)|
    {
      PutName(0, path);
      var cp := |path| - 1;
      ghost var left := path;
      while cp > 0 && curPath[cp] == '/'
        invariant cp + 1 == |left| && Filled(curPath, left)
        invariant left != "" && WithoutSlashes(left) == WithoutSlashes(path)
        modifies curPath
      {
        assert left[cp] == '/';
        curPath[cp] := '\0';
        left := left[..cp];
        cp := cp - 1;
      }
      assert left[cp] == curPath[cp];
      len := cp + 1;
      curPathLen := len;
    }

    /** From the first callback on: the start directory, then all below it. */
    method Walk(startPathLen: nat, d: Node, ghost start: string) returns (rc: int)
      requires Valid() && calls == [] && d.Dir? && start != "" && |start| < curPathAllocSize
      requires Filled(curPath, start) && curPathLen == startPathLen == |start| && curType == 'd'
      requires PathsFit(start, d, curPathAllocSize)
      modifies curPath, `curPathLen, `curType, `numFiles, `numLinks, `numDirs, `maxDepth, `calls
      ensures Filled(curPath, start) && curPathLen == |start|
      ensures Ran(proc, [], [Visit('d', start)] + Visits(start, d), calls, rc)
      ensures rc == 0 ==> Counters() == TreeTally(d, 1)
    {
      ghost var first := [Visit('d', start)];
      FirstCall(proc, start);
      var r := Callback(start);
      if r < 0 {
        RanCut(proc, [], first, calls, Visits(start, d));
        return -1;
      }
      rc := WalkBelow(startPathLen, d, start, TreeTally(d, 1));
      RanThen(proc, [], first, first, Visits(start, d), calls, rc);
    }

    method WalkBelow(startPathLen: nat, d: Node, ghost start: string, ghost tally: Tally) returns (rc: int)
      requires Valid() && d.Dir? && start != "" && |start| < curPathAllocSize
      requires Filled(curPath, start) && startPathLen == |start|
      requires PathsFit(start, d, curPathAllocSize) && tally == TreeTally(d, 1)
      modifies curPath, `curPathLen, `curType, `numFiles, `numLinks, `numDirs, `maxDepth, `calls
      ensures Filled(curPath, start) && curPathLen == |start|
      ensures Ran(proc, old(calls), Visits(start, d), calls, rc)
      ensures rc == 0 ==> Counters() == tally
    {
      ClearCounters();
      ghost var zero := Counters();
      rc := WalkDown(startPathLen, d, start, tally);
      if rc == 0 {
        FromZero(zero, tally);
      }
    }

    method WalkDown(startPathLen: nat, d: Node, ghost start: string, ghost tally: Tally) returns (rc: int)
      requires Valid() && d.Dir? && start != "" && |start| < curPathAllocSize
      requires Filled(curPath, start) && startPathLen == |start|
      requires PathsFit(start, d, curPathAllocSize) && tally == TreeTally(d, 1)
      modifies curPath, `curPathLen, `curType, `numFiles, `numLinks, `numDirs, `maxDepth, `calls
      ensures Filled(curPath, start) && curPathLen == |start|
      ensures Ran(proc, old(calls), Visits(start, d), calls, rc)
      ensures rc == 0 ==> Counters() == old(Counters()).Plus(tally)
    {
      rc := FtwTraverse(startPathLen, 1, d, start);
      RestorePath(startPathLen, start);
    }

    method ClearCounters()
      modifies `numFiles, `numLinks, `numDirs, `maxDepth
      ensures Neutral(Counters())
    {
      numFiles, numLinks, numDirs, maxDepth := 0, 0, 0, 0;
    }

    /** Ftw: `top` is what the path leads to. The start is visited first, then all below it; the buffer
        is left holding the start path. */
    method Ftw(path: string, top: Stat) returns (rc: int)
      requires Valid() && calls == [] && |path| < curPathAllocSize
      requires Walks(path, top) ==> PathsFit(WithoutSlashes(path), top.node, curPathAllocSize)
      modifies this, curPath
      ensures !Walks(path, top) ==> rc == -1 && calls == []
      ensures Walks(path, top) ==>
                var start := WithoutSlashes(path);
                && Ran(proc, [], [Visit('d', start)] + Visits(start, top.node), calls, rc)
                && (rc == 0 ==> Counters() == TreeTally(top.node, 1) && Counts(Counters(), calls, Open(top.node)))
                && Filled(curPath, start) && curPathLen == |start|
    {
      if path == "" {
        return -1;
      }
      curType := 'd';
      var startPathLen := PutStart(path);
      if !top.Found? || !top.node.Dir? {
        return -1;
      }
      rc := Walk(startPathLen, top.node, WithoutSlashes(path));
      TreeCounted(WithoutSlashes(path), top.node, 1, Open(top.node));
      assert rc == 0 ==> calls == [Visit('d', WithoutSlashes(path))] + Visits(WithoutSlashes(path), top.node);
    }

    method RestorePath(startPathLen: nat, ghost start: string)
      requires Valid() && startPathLen == |start| < curPathAllocSize && curPath[..|start|] == start
      modifies curPath, `curPathLen
      ensures Filled(curPath, start) && curPathLen == |start|
    {
      forall i | startPathLen <= i < curPathAllocSize { curPath[i] := '\0'; }
      curPathLen := startPathLen;
    }
  }

  lemma FirstCall(proc: Proc, start: string)
    ensures Ran(proc, [], [Visit('d', start)], [Visit('d', start)], if proc(0) < 0 then -1 else 0)
  {
  }

  /** What stat() finds. */
  datatype Stat = Missing | Found(node: Node)

  /** The walk needs a path, and a directory at its end. */
  predicate Walks(path: string, top: Stat) {
    path != "" && top.Found? && top.node.Dir?
  }

  /** A path without trailing separators; one character is always left. */
  function WithoutSlashes(path: string): (start: string)
    ensures |start| <= |path| && (path != "" ==> start != "")
  {
    if |path| > 1 && path[|path| - 1] == '/' then WithoutSlashes(path[..|path| - 1]) else path
  }

  /** Slashes at the end are cut, all but one that is everything. */
  lemma {:induction false} SlashesCut(path: string)
    ensures var t := WithoutSlashes(path);
      && t <= path && (forall i :: |t| <= i < |path| ==> path[i] == '/')
      && (path != "" ==> t != "") && (|t| > 1 ==> t[|t| - 1] != '/')
    decreases |path|
  {
    if |path| > 1 && path[|path| - 1] == '/' {
      SlashesCut(path[..|path| - 1]);
    }
  }

  ghost predicate Joins(done: seq<Visit>, left: seq<Visit>, all: seq<Visit>) {
    done + left == all
  }

  lemma JoinsStep(done: seq<Visit>, visit: seq<Visit>, left: seq<Visit>, all: seq<Visit>)
    requires Joins(done, visit + left, all)
    ensures Joins(done + visit, left, all)
  {
    assert done + (visit + left) == (done + visit) + left;
  }

  lemma PlusAssoc(s: Tally, t: Tally, u: Tally)
    ensures s.Plus(t.Plus(u)) == s.Plus(t).Plus(u)
  {
  }

  lemma PlusNothing(s: Tally)
    ensures s.Plus(NOTHING) == s
  {
  }

  /** A refused callback ends the run. */
  lemma CutShort(proc: Proc, a: seq<Visit>, done: seq<Visit>, b: seq<Visit>, visit: seq<Visit>, others: seq<Visit>, c: seq<Visit>)
    requires Ran(proc, a, done, b, 0) && Ran(proc, b, visit, c, -1)
    ensures Ran(proc, a, (done + visit) + others, c, -1)
  {
    RanThen(proc, a, done, b, visit, c, -1);
    RanCut(proc, a, done + visit, c, others);
  }
}
