/** Directory listings as doubly linked lists and as sorted vectors (linelist.c). */
module FileInfoList {
  // ---- comparators ----

  /** A listing entry; what it is sorted by never changes. */
  class FileInfo {
    const relname: string
    const mdtm: int
    const size: int
    var prev: FileInfo?
    var next: FileInfo?

    constructor (relname: string, mdtm: int, size: int)
      ensures this.relname == relname && this.mdtm == mdtm && this.size == size && next == null
    {
      this.relname, this.mdtm, this.size := relname, mdtm, size;
      prev, next := null, null;
    }
  }

  type Comparator = (FileInfo, FileInfo) -> int
  /** strcmp or strcoll */
  type Collation = (string, string) -> int

  predicate ValidKey(key: char) {
    key == 'n' || key == 't' || key == 's'
  }

  predicate ValidOrder(order: char) {
    order == 'a' || order == 'd'
  }

  function NameCmp(coll: Collation): Comparator {
    (a: FileInfo, b: FileInfo) => coll(a.relname, b.relname)
  }

  function ReverseNameCmp(coll: Collation): Comparator {
    (a: FileInfo, b: FileInfo) => coll(b.relname, a.relname)
  }

  /** Newest first. */
  function TimeCmp(): Comparator {
    (a: FileInfo, b: FileInfo) => if b.mdtm == a.mdtm then 0 else if b.mdtm < a.mdtm then -1 else 1
  }

  function ReverseTimeCmp(): Comparator {
    (a: FileInfo, b: FileInfo) => if a.mdtm == b.mdtm then 0 else if a.mdtm < b.mdtm then -1 else 1
  }

  /** Largest first. */
  function SizeCmp(): Comparator {
    (a: FileInfo, b: FileInfo) => if b.size == a.size then 0 else if b.size < a.size then -1 else 1
  }

  function ReverseSizeCmp(): Comparator {
    (a: FileInfo, b: FileInfo) => if a.size == b.size then 0 else if a.size < b.size then -1 else 1
  }

  /** The comparator a pair of sort tags stands for. */
  function Cmp(coll: Collation, key: char, order: char): Comparator
    requires ValidKey(key) && ValidOrder(order)
  {
    if key == 'n' then (if order == 'a' then NameCmp(coll) else ReverseNameCmp(coll))
    else if key == 't' then (if order == 'a' then TimeCmp() else ReverseTimeCmp())
    else (if order == 'a' then SizeCmp() else ReverseSizeCmp())
  }

  /** How deep a path is. */
  function Depth(s: string): nat {
    if s == "" then 0 else (if s[0] == '/' || s[0] == '\\' then 1 else 0) + Depth(s[1..])
  }

  function BreadthFirstCmp(coll: Collation): Comparator {
    (a: FileInfo, b: FileInfo) =>
      if Depth(a.relname) < Depth(b.relname) then -1
      else if Depth(a.relname) > Depth(b.relname) then 1
      else coll(a.relname, b.relname)
  }

  function Opposite(order: char): char {
    if order == 'a' then 'd' else 'a'
  }

  /** What collation has to be: a total preorder. */
  ghost predicate TotalPreorder<T(!new)>(f: (T, T) -> int) {
    && (forall a, b :: f(a, b) <= 0 || f(b, a) <= 0)
    && (forall a, b, c :: f(a, b) <= 0 && f(b, c) <= 0 ==> f(a, c) <= 0)
  }

  ghost predicate Sorted(v: seq<FileInfo>, cmp: Comparator) {
    forall i, j :: 0 <= i < j < |v| ==> cmp(v[i], v[j]) <= 0
  }

  function Reversed<T>(v: seq<T>): (r: seq<T>)
    ensures |r| == |v| && forall i :: 0 <= i < |v| ==> r[i] == v[|v| - 1 - i]
  {
    seq(|v|, i requires 0 <= i < |v| => v[|v| - 1 - i])
  }

  /** Reversing a vector sorted one way sorts it the other way, and only then. */
  lemma ReversedIsSorted(v: seq<FileInfo>, coll: Collation, key: char, order: char)
    requires ValidKey(key) && ValidOrder(order)
    ensures Sorted(Reversed(v), Cmp(coll, key, Opposite(order))) <==> Sorted(v, Cmp(coll, key, order))
  {
    var r := Reversed(v);
    var down, up := Cmp(coll, key, Opposite(order)), Cmp(coll, key, order);
    assert forall a, b :: down(a, b) <= 0 <==> up(b, a) <= 0;
    if Sorted(v, up) {
      forall i, j | 0 <= i < j < |r| ensures down(r[i], r[j]) <= 0 {
        assert up(v[|v| - 1 - j], v[|v| - 1 - i]) <= 0;
      }
    }
    if Sorted(r, down) {
      forall i, j | 0 <= i < j < |v| ensures up(v[i], v[j]) <= 0 {
        assert down(r[|v| - 1 - j], r[|v| - 1 - i]) <= 0;
      }
    }
  }

  // ---- what sorted comes to, by the fields ----

  /** How many slashes of either kind a path has. */
  ghost function Slashes(s: string): nat {
    multiset(s)['/'] + multiset(s)['\\']
  }

  lemma {:induction false} DepthIsSlashes(s: string)
    ensures Depth(s) == Slashes(s)
  {
    if s != "" {
      DepthIsSlashes(s[1..]);
      assert s == [s[0]] + s[1..];
    }
  }

  /** Names in the order of the collation, newest or largest first, or the other way. */
  ghost predicate ByFields(w: seq<FileInfo>, coll: Collation, key: char, order: char) {
    forall i, j :: 0 <= i < j < |w| ==>
      && (key == 'n' && order == 'a' ==> coll(w[i].relname, w[j].relname) <= 0)
      && (key == 'n' && order == 'd' ==> coll(w[j].relname, w[i].relname) <= 0)
      && (key == 't' && order == 'a' ==> w[i].mdtm >= w[j].mdtm)
      && (key == 't' && order == 'd' ==> w[i].mdtm <= w[j].mdtm)
      && (key == 's' && order == 'a' ==> w[i].size >= w[j].size)
      && (key == 's' && order == 'd' ==> w[i].size <= w[j].size)
  }

  /** Fewer slashes first, and names in order among equals. */
  ghost predicate ByDepth(w: seq<FileInfo>, coll: Collation) {
    forall i, j :: 0 <= i < j < |w| ==>
      && Slashes(w[i].relname) <= Slashes(w[j].relname)
      && (Slashes(w[i].relname) == Slashes(w[j].relname) ==> coll(w[i].relname, w[j].relname) <= 0)
  }

  lemma SortedByFields(w: seq<FileInfo>, coll: Collation, key: char, order: char)
    requires ValidKey(key) && ValidOrder(order)
    ensures Sorted(w, Cmp(coll, key, order)) <==> ByFields(w, coll, key, order)
  {
    var cmp := Cmp(coll, key, order);
    if Sorted(w, cmp) {
      forall i, j | 0 <= i < j < |w|
        ensures && (key == 'n' && order == 'a' ==> coll(w[i].relname, w[j].relname) <= 0)
                && (key == 'n' && order == 'd' ==> coll(w[j].relname, w[i].relname) <= 0)
                && (key == 't' && order == 'a' ==> w[i].mdtm >= w[j].mdtm)
                && (key == 't' && order == 'd' ==> w[i].mdtm <= w[j].mdtm)
                && (key == 's' && order == 'a' ==> w[i].size >= w[j].size)
                && (key == 's' && order == 'd' ==> w[i].size <= w[j].size)
      {
        assert cmp(w[i], w[j]) <= 0;
      }
    }
  }

  lemma SortedByFieldsIfValid(w: seq<FileInfo>, coll: Collation, key: char, order: char)
    ensures ValidKey(key) && ValidOrder(order) ==> (Sorted(w, Cmp(coll, key, order)) <==> ByFields(w, coll, key, order))
  {
    if ValidKey(key) && ValidOrder(order) {
      SortedByFields(w, coll, key, order);
    }
  }

  lemma SortedByDepth(w: seq<FileInfo>, coll: Collation)
    ensures Sorted(w, BreadthFirstCmp(coll)) <==> ByDepth(w, coll)
  {
    var cmp := BreadthFirstCmp(coll);
    forall i, j | 0 <= i < j < |w|
      ensures cmp(w[i], w[j]) <= 0 <==>
              && Slashes(w[i].relname) <= Slashes(w[j].relname)
              && (Slashes(w[i].relname) == Slashes(w[j].relname) ==> coll(w[i].relname, w[j].relname) <= 0)
    {
      DepthIsSlashes(w[i].relname);
      DepthIsSlashes(w[j].relname);
    }
  }

  // ---- qsort, by its contract ----

  ghost predicate Connected(cmp: Comparator, a: FileInfo, b: FileInfo) {
    cmp(a, b) <= 0 || cmp(b, a) <= 0
  }

  ghost predicate Transitive(cmp: Comparator, a: FileInfo, b: FileInfo, c: FileInfo) {
    cmp(a, b) <= 0 && cmp(b, c) <= 0 ==> cmp(a, c) <= 0
  }

  /** The comparator is a total preorder on these entries. */
  ghost predicate Orders(cmp: Comparator, s: set<FileInfo>) {
    && (forall a, b :: a in s && b in s ==> Connected(cmp, a, b))
    && (forall a, b, c {:trigger Transitive(cmp, a, b, c)} :: a in s && b in s && c in s ==> Transitive(cmp, a, b, c))
  }

  lemma CmpOrders(coll: Collation, key: char, order: char, s: set<FileInfo>)
    requires TotalPreorder(coll) && ValidKey(key) && ValidOrder(order)
    ensures Orders(Cmp(coll, key, order), s)
  {
  }

  lemma BreadthFirstOrders(coll: Collation, s: set<FileInfo>)
    requires TotalPreorder(coll)
    ensures Orders(BreadthFirstCmp(coll), s)
  {
  }

  function Insert(x: FileInfo, v: seq<FileInfo>, cmp: Comparator): seq<FileInfo> {
    if v == [] || cmp(x, v[0]) <= 0 then [x] + v else [v[0]] + Insert(x, v[1..], cmp)
  }

  function InsertionSort(v: seq<FileInfo>, cmp: Comparator): seq<FileInfo> {
    if v == [] then [] else Insert(v[0], InsertionSort(v[1..], cmp), cmp)
  }

  ghost predicate Within(v: seq<FileInfo>, s: set<FileInfo>) {
    forall i :: 0 <= i < |v| ==> v[i] in s
  }

  lemma {:induction false} InsertKeeps(x: FileInfo, v: seq<FileInfo>, cmp: Comparator, s: set<FileInfo>)
    requires x in s && Within(v, s)
    ensures multiset(Insert(x, v, cmp)) == multiset{x} + multiset(v)
    ensures Within(Insert(x, v, cmp), s)
  {
    if v != [] && cmp(x, v[0]) > 0 {
      InsertKeeps(x, v[1..], cmp, s);
      assert v == [v[0]] + v[1..];
    }
  }

  /** Everything in `v` comes after `a`. */
  ghost predicate After(a: FileInfo, v: seq<FileInfo>, cmp: Comparator) {
    forall i :: 0 <= i < |v| ==> cmp(a, v[i]) <= 0
  }

  lemma {:induction false} InsertStaysAfter(a: FileInfo, x: FileInfo, v: seq<FileInfo>, cmp: Comparator)
    requires After(a, v, cmp) && cmp(a, x) <= 0
    ensures After(a, Insert(x, v, cmp), cmp)
  {
    if v != [] && cmp(x, v[0]) > 0 {
      InsertStaysAfter(a, x, v[1..], cmp);
    }
  }

  lemma SortedCons(a: FileInfo, v: seq<FileInfo>, cmp: Comparator)
    requires After(a, v, cmp) && Sorted(v, cmp)
    ensures Sorted([a] + v, cmp)
  {
  }

  lemma {:induction false} InsertSorts(x: FileInfo, v: seq<FileInfo>, cmp: Comparator, s: set<FileInfo>)
    requires Sorted(v, cmp) && x in s && Within(v, s) && Orders(cmp, s)
    ensures Sorted(Insert(x, v, cmp), cmp)
  {
    if v == [] {
    } else if cmp(x, v[0]) <= 0 {
      forall i | 0 <= i < |v| ensures cmp(x, v[i]) <= 0 {
        assert Transitive(cmp, x, v[0], v[i]);
      }
      SortedCons(x, v, cmp);
    } else {
      assert Connected(cmp, x, v[0]);
      InsertSorts(x, v[1..], cmp, s);
      InsertStaysAfter(v[0], x, v[1..], cmp);
      SortedCons(v[0], Insert(x, v[1..], cmp), cmp);
    }
  }

  lemma {:induction false} InsertionSortSorts(v: seq<FileInfo>, cmp: Comparator, s: set<FileInfo>)
    requires Within(v, s) && Orders(cmp, s)
    ensures Sorted(InsertionSort(v, cmp), cmp) && Within(InsertionSort(v, cmp), s)
    ensures multiset(InsertionSort(v, cmp)) == multiset(v)
  {
    if v != [] {
      assert v == [v[0]] + v[1..];
      InsertionSortSorts(v[1..], cmp, s);
      InsertSorts(v[0], InsertionSort(v[1..], cmp), cmp, s);
      InsertKeeps(v[0], InsertionSort(v[1..], cmp), cmp, s);
    }
  }

  /** The entries of a vector; one slot more holds the null that ends it. */
  ghost predicate HoldsVector(vec: array<FileInfo?>, v: seq<FileInfo>)
    reads vec
  {
    vec.Length == |v| + 1 && vec[|v|] == null && forall i :: 0 <= i < |v| ==> vec[i] == v[i]
  }

  method Qsort(vec: array<FileInfo?>, n: nat, cmp: Comparator, ghost v: seq<FileInfo>) returns (ghost w: seq<FileInfo>)
    requires HoldsVector(vec, v) && n == |v| && Orders(cmp, set x | x in v)
    modifies vec
    ensures HoldsVector(vec, w) && Sorted(w, cmp) && multiset(w) == multiset(v)
  {
    var s: seq<FileInfo> := [];
    var i := n;
    assert v[n..] == [];
    while i > 0
      invariant 0 <= i <= n && s == InsertionSort(v[i..], cmp)
    {
      i := i - 1;
      assert v[i..] == [v[i]] + v[i + 1..];
      s := Insert(vec[i], s, cmp);
    }
    assert v[0..] == v;
    InsertionSortSorts(v, cmp, set x | x in v);
    assert |s| == |v| by {
      assert |multiset(s)| == |multiset(v)|;
    }
    i := 0;
    while i < n
      invariant 0 <= i <= n && vec.Length == n + 1 && vec[n] == null
      invariant forall j :: 0 <= j < i ==> vec[j] == s[j]
    {
      vec[i] := s[i];
      i := i + 1;
    }
    w := s;
  }

  /** The loop that reverses a vector in place. */
  method ReverseVec(vec: array<FileInfo?>, n: nat, ghost v: seq<FileInfo>)
    requires HoldsVector(vec, v) && n == |v|
    modifies vec
    ensures HoldsVector(vec, Reversed(v))
  {
    var n2 := n / 2;
    var i := 0;
    while i < n2
      invariant 0 <= i <= n2 && vec.Length == n + 1 && vec[n] == null
      invariant forall k :: 0 <= k < i ==> vec[k] == v[n - 1 - k]
      invariant forall k :: n - i <= k < n ==> vec[k] == v[n - 1 - k]
      invariant forall k :: i <= k < n - i ==> vec[k] == v[k]
    {
      var j := n - i - 1;
      var fip := vec[i];
      vec[i] := vec[j];
      vec[j] := fip;
      i := i + 1;
    }
  }

  // ---- the list ----

  ghost predicate Distinct(nodes: seq<FileInfo>) {
    forall i, j :: 0 <= i < j < |nodes| ==> nodes[i] != nodes[j]
  }

  /** The i-th node, null beyond both ends. */
  ghost function NodeAt(nodes: seq<FileInfo>, i: int): FileInfo? {
    if 0 <= i < |nodes| then nodes[i] else null
  }

  /** The i-th node points to its neighbours. */
  ghost predicate Linked(nodes: seq<FileInfo>, i: nat)
    requires i < |nodes|
    reads nodes
  {
    nodes[i].next == NodeAt(nodes, i + 1) && nodes[i].prev == NodeAt(nodes, i - 1)
  }

  /** The i-th node points to its neighbours, with the k-th left out. */
  ghost predicate LinkedPast(nodes: seq<FileInfo>, i: nat, k: nat)
    requires i < |nodes|
    reads nodes
  {
    && nodes[i].next == NodeAt(nodes, if i + 1 == k then k + 1 else i + 1)
    && nodes[i].prev == NodeAt(nodes, if i - 1 == k then k - 1 else i - 1)
  }

  ghost function Without(nodes: seq<FileInfo>, k: nat): (rest: seq<FileInfo>)
    requires k < |nodes|
    ensures |rest| == |nodes| - 1 && forall i :: 0 <= i < |rest| ==> rest[i] == nodes[if i < k then i else i + 1]
  {
    nodes[..k] + nodes[k + 1..]
  }

  lemma WithoutAt(nodes: seq<FileInfo>, k: nat, i: int)
    requires k < |nodes|
    ensures NodeAt(Without(nodes, k), i) == NodeAt(nodes, if i < k then i else i + 1)
  {
  }

  lemma DistinctByMultiset(v: seq<FileInfo>, w: seq<FileInfo>)
    requires Distinct(v) && multiset(v) == multiset(w)
    ensures Distinct(w)
  {
    forall i, j | 0 <= i < j < |w| && w[i] == w[j] ensures false {
      assert w == w[..i] + [w[i]] + w[i + 1..j] + [w[j]] + w[j + 1..];
      assert multiset(w)[w[i]] >= 2;
      AtMostOnce(v, w[i]);
    }
  }

  lemma {:induction false} AtMostOnce(v: seq<FileInfo>, x: FileInfo)
    requires Distinct(v)
    ensures multiset(v)[x] <= 1
  {
    if v != [] {
      AtMostOnce(v[1..], x);
      assert v == [v[0]] + v[1..];
      assert v[0] !in v[1..];
    }
  }

  lemma SortedSnoc(coll: Collation, key: char, order: char, nodes: seq<FileInfo>, lp: FileInfo)
    requires TotalPreorder(coll) && ValidKey(key) && ValidOrder(order) && nodes != []
    requires Sorted(nodes, Cmp(coll, key, order))
    ensures Sorted(nodes + [lp], Cmp(coll, key, order)) <==> Cmp(coll, key, order)(nodes[|nodes| - 1], lp) <= 0
  {
    var cmp, v, n := Cmp(coll, key, order), nodes + [lp], |nodes|;
    assert v[n - 1] == nodes[n - 1] && v[n] == lp;
    if cmp(nodes[n - 1], lp) <= 0 {
      CmpOrders(coll, key, order, set x | x in v);
      SortedBehind(cmp, nodes, lp, set x | x in v);
    }
  }

  lemma SortedBehind(cmp: Comparator, nodes: seq<FileInfo>, lp: FileInfo, s: set<FileInfo>)
    requires Sorted(nodes, cmp) && nodes != [] && cmp(nodes[|nodes| - 1], lp) <= 0
    requires Orders(cmp, s) && lp in s && Within(nodes, s)
    ensures Sorted(nodes + [lp], cmp)
  {
    var last := nodes[|nodes| - 1];
    forall i | 0 <= i < |nodes| ensures cmp(nodes[i], lp) <= 0 {
      assert i < |nodes| - 1 ==> cmp(nodes[i], last) <= 0;
      assert Transitive(cmp, nodes[i], last, lp);
    }
  }

  class List {
    const coll: Collation
    var first: FileInfo?
    var last: FileInfo?
    var vec: array?<FileInfo?>
    var nFileInfos: nat
    var sortKey: char
    var sortOrder: char

    /** The nodes are linked in this order, forwards and backwards. */
    ghost predicate Chain(nodes: seq<FileInfo>)
      reads this, nodes
    {
      && nFileInfos == |nodes| && Distinct(nodes)
      && first == NodeAt(nodes, 0) && last == NodeAt(nodes, |nodes| - 1)
      && (forall i :: 0 <= i < |nodes| ==> Linked(nodes, i))
    }

    /** InitFileInfoList */
    constructor (coll: Collation)
      ensures this.coll == coll && vec == null && Chain([])
      ensures !ValidKey(sortKey)
    {
      this.coll := coll;
      first, last, vec, nFileInfos := null, null, null, 0;
      sortKey, sortOrder := '\0', '\0';
    }

    /** The tags tell the truth about the vector. */
    ghost predicate TagsTrue(v: seq<FileInfo>)
      reads this
    {
      ValidKey(sortKey) && ValidOrder(sortOrder) ==> Sorted(v, Cmp(coll, sortKey, sortOrder))
    }

    method AddFileInfo(src: FileInfo, ghost nodes: seq<FileInfo>) returns (lp: FileInfo)
      requires Chain(nodes)
      modifies this`first, this`last, this`nFileInfos, nodes
      ensures fresh(lp) && lp.relname == src.relname && lp.mdtm == src.mdtm && lp.size == src.size
      ensures Chain(nodes + [lp])
    {
      lp := new FileInfo(src.relname, src.mdtm, src.size);
      if first == null {
        first, last := lp, lp;
        lp.prev := null;
        nFileInfos := 1;
      } else {
        lp.prev := last;
        last.next := lp;
        last := lp;
        nFileInfos := nFileInfos + 1;
      }
      forall i | 0 <= i < |nodes| ensures Linked(nodes + [lp], i) {
        assert old(Linked(nodes, i));
      }
    }

    /** What a caller can look at before adding an entry: the list is empty or not tagged as sorted, or
        the entry does not come before the last one. */
    ghost predicate Appends(nodes: seq<FileInfo>, lp: FileInfo)
      reads this
    {
      nodes == [] || !(ValidKey(sortKey) && ValidOrder(sortOrder)) || Cmp(coll, sortKey, sortOrder)(nodes[|nodes| - 1], lp) <= 0
    }

    /** Adding an entry keeps the tags true exactly when it does not belong further up. */
    lemma AppendKeepsTags(nodes: seq<FileInfo>, lp: FileInfo)
      requires TotalPreorder(coll) && TagsTrue(nodes)
      ensures TagsTrue(nodes + [lp]) <==> Appends(nodes, lp)
    {
      if ValidKey(sortKey) && ValidOrder(sortOrder) && nodes != [] {
        SortedSnoc(coll, sortKey, sortOrder, nodes, lp);
      }
    }

    lemma ChainWithout(nodes: seq<FileInfo>, k: nat)
      requires k < |nodes| && Distinct(nodes) && nFileInfos == |nodes| - 1
      requires first == NodeAt(nodes, if k == 0 then 1 else 0)
      requires last == NodeAt(nodes, if k == |nodes| - 1 then k - 1 else |nodes| - 1)
      requires forall i :: 0 <= i < |nodes| && i != k ==> LinkedPast(nodes, i, k)
      ensures Chain(Without(nodes, k))
    {
      var rest := Without(nodes, k);
      forall i | 0 <= i < |rest| ensures Linked(rest, i) {
        assert LinkedPast(nodes, if i < k then i else i + 1, k);
        WithoutAt(nodes, k, i + 1);
        WithoutAt(nodes, k, i - 1);
      }
      WithoutAt(nodes, k, 0);
      WithoutAt(nodes, k, |rest| - 1);
    }

    /** Unlinks the k-th node and returns the one after it. */
    method RemoveFileInfo(killMe: FileInfo, ghost nodes: seq<FileInfo>, ghost k: nat) returns (nextFileInfo: FileInfo?)
      requires Chain(nodes) && k < |nodes| && nodes[k] == killMe
      modifies this`first, this`last, this`nFileInfos, nodes
      ensures Chain(Without(nodes, k))
      ensures nextFileInfo == NodeAt(nodes, k + 1)
      ensures old(TagsTrue(nodes)) ==> TagsTrue(Without(nodes, k))
    {
      assert Linked(nodes, k);
      nextFileInfo := killMe.next;
      var prevFileInfo := killMe.prev;
      if first == killMe {
        first := nextFileInfo;
      }
      if last == killMe {
        last := prevFileInfo;
      }
      if nextFileInfo != null {
        nextFileInfo.prev := prevFileInfo;
      }
      if prevFileInfo != null {
        prevFileInfo.next := nextFileInfo;
      }
      nFileInfos := nFileInfos - 1;
      forall i | 0 <= i < |nodes| && i != k ensures LinkedPast(nodes, i, k) {
        assert old(Linked(nodes, i));
      }
      ChainWithout(nodes, k);
    }

    method VectorizeFileInfoList(ghost nodes: seq<FileInfo>)
      requires Chain(nodes)
      modifies `vec
      ensures vec != null && fresh(vec) && HoldsVector(vec, nodes) && Chain(nodes)
    {
      var fiv := new FileInfo?[nFileInfos + 1](i => null);
      var i, fip := 0, first;
      while fip != null
        invariant 0 <= i <= |nodes| && fip == NodeAt(nodes, i)
        invariant forall k :: 0 <= k < i ==> fiv[k] == nodes[k]
        invariant forall k :: i <= k <= |nodes| ==> fiv[k] == null
        decreases |nodes| - i
      {
        fiv[i] := fip;
        assert Linked(nodes, i);
        fip := fip.next;
        i := i + 1;
      }
      vec := fiv;
    }

    /** Relinks the nodes in the order of the vector, which is given up. */
    method UnvectorizeFileInfoList(ghost v: seq<FileInfo>)
      requires vec != null ==> HoldsVector(vec, v) && nFileInfos == |v| && Distinct(v) && (v == [] ==> last == null)
      modifies this`first, this`last, this`vec, v
      ensures old(vec) != null ==> vec == null && Chain(v)
    {
      var fiv := vec;
      if fiv != null {
        first := fiv[0];
        var n := nFileInfos;
        if n > 0 {
          last := fiv[n - 1];
          var fip := fiv[0];
          fip.prev := null;
          fip.next := fiv[1];
          var i := 1;
          while i < n
            invariant 1 <= i <= n && HoldsVector(fiv, v)
            invariant forall k :: 0 <= k < i ==> Linked(v, k)
            modifies v
          {
            fip := fiv[i];
            label before:
            fip.prev := fiv[i - 1];
            fip.next := fiv[i + 1];
            forall k | 0 <= k < i ensures Linked(v, k) {
              assert old@before(Linked(v, k)) && v[k] != v[i];
            }
            i := i + 1;
          }
        }
        vec := null;
      }
    }

    /** Sorts the vector, or only reverses it when the tags say that it is sorted by the same key the
        other way. The outcome is sorted as asked exactly when the tags that were relied on were true. */
    method SortFileInfoList(key: char, order: char, ghost v: seq<FileInfo>) returns (ghost w: seq<FileInfo>)
      requires vec != null ==> HoldsVector(vec, v) && nFileInfos == |v|
      requires TotalPreorder(coll)
      requires ValidKey(sortKey) ==> ValidOrder(sortOrder)
      modifies this`sortKey, this`sortOrder, vec
      ensures vec != null ==> HoldsVector(vec, w) && multiset(w) == multiset(v)
      ensures vec != null && key == old(sortKey) ==> w == if order == old(sortOrder) then v else Reversed(v)
      ensures vec != null && key == 'b' && old(sortKey) != 'b' ==> Sorted(w, BreadthFirstCmp(coll)) && ByDepth(w, coll) && sortKey == 'b' && sortOrder == order
      ensures vec == null || (key != old(sortKey) && key != 'b' && !(ValidKey(key) && ValidOrder(order))) ==>
                w == v && sortKey == old(sortKey) && sortOrder == old(sortOrder)
      ensures ValidOrder(order) ==> (ValidKey(sortKey) ==> ValidOrder(sortOrder))
      ensures vec != null && ValidKey(key) && ValidOrder(order) ==>
                && sortKey == key && sortOrder == order
                && (Sorted(w, Cmp(coll, key, order)) <==> (old(sortKey) == key ==> Sorted(v, Cmp(coll, key, old(sortOrder)))))
                && (old(TagsTrue(v)) ==> TagsTrue(w) && Sorted(w, Cmp(coll, key, order)))
                && (old(sortKey) != key || old(TagsTrue(v)) ==> ByFields(w, coll, key, order))
    {
      w := v;
      if vec == null {
        return;
      }
      if sortKey == key {
        if sortOrder == order {
          SortedByFieldsIfValid(v, coll, key, order);
          return;
        }
        var n := nFileInfos;
        if n > 1 {
          ReverseVec(vec, n, v);
          w := Reversed(v);
        }
        ReversedKeeps(v, coll, key, sortOrder);
        sortOrder := order;
      } else if (key == 'n' || key == 't' || key == 's') && (order == 'a' || order == 'd') {
        CmpOrders(coll, key, order, set x | x in v);
        w := Qsort(vec, nFileInfos, Cmp(coll, key, order), v);
        sortKey, sortOrder := key, order;
      } else if key == 'b' {
        sortKey, sortOrder := key, order;
        BreadthFirstOrders(coll, set x | x in v);
        w := Qsort(vec, nFileInfos, BreadthFirstCmp(coll), v);
        SortedByDepth(w, coll);
      }
      SortedByFieldsIfValid(w, coll, key, order);
    }
  }

  // ---- any run of sorts ----

  /** A sort key with an order. */
  datatype Request = Request(key: char, order: char)

  ghost predicate Requests(rs: seq<Request>) {
    forall i :: 0 <= i < |rs| ==> ValidKey(rs[i].key) && ValidOrder(rs[i].order)
  }

  /** Any run of sorts on a list with true tags, from the vector to the list relinked: the nodes are all
      there, linked both ways, and sorted as last asked, and the tags are true. */
  method SortRun(list: List, rs: seq<Request>, ghost nodes: seq<FileInfo>) returns (ghost w: seq<FileInfo>)
    requires list.Chain(nodes) && list.TagsTrue(nodes) && (ValidKey(list.sortKey) ==> ValidOrder(list.sortOrder))
    requires TotalPreorder(list.coll) && Requests(rs) && rs != []
    modifies list, nodes
    ensures list.Chain(w) && multiset(w) == multiset(nodes) && list.vec == null
    ensures Sorted(w, Cmp(list.coll, rs[|rs| - 1].key, rs[|rs| - 1].order))
    ensures ByFields(w, list.coll, rs[|rs| - 1].key, rs[|rs| - 1].order)
    ensures list.sortKey == rs[|rs| - 1].key && list.sortOrder == rs[|rs| - 1].order && list.TagsTrue(w)
  {
    list.VectorizeFileInfoList(nodes);
    w := SortAll(list, rs, nodes);
    SortedByFields(w, list.coll, rs[|rs| - 1].key, rs[|rs| - 1].order);
    assert |multiset(w)| == |multiset(nodes)|;
    DistinctByMultiset(nodes, w);
    SameElements(nodes, w);
    list.UnvectorizeFileInfoList(w);
  }

  /** One request after the other. */
  method SortAll(list: List, rs: seq<Request>, ghost v: seq<FileInfo>) returns (ghost w: seq<FileInfo>)
    requires list.vec != null && HoldsVector(list.vec, v) && list.nFileInfos == |v|
    requires list.TagsTrue(v) && (ValidKey(list.sortKey) ==> ValidOrder(list.sortOrder))
    requires TotalPreorder(list.coll) && Requests(rs) && rs != []
    modifies list`sortKey, list`sortOrder, list.vec
    ensures HoldsVector(list.vec, w) && multiset(w) == multiset(v) && list.TagsTrue(w)
    ensures list.sortKey == rs[|rs| - 1].key && list.sortOrder == rs[|rs| - 1].order
    decreases |rs|
  {
    ghost var u := v;
    if |rs| > 1 {
      u := SortAll(list, rs[..|rs| - 1], v);
    }
    var r := rs[|rs| - 1];
    assert |u| == |v| by {
      assert |multiset(u)| == |multiset(v)|;
    }
    w := list.SortFileInfoList(r.key, r.order, u);
  }

  lemma SameElements(v: seq<FileInfo>, w: seq<FileInfo>)
    requires multiset(v) == multiset(w)
    ensures forall i :: 0 <= i < |w| ==> w[i] in v
  {
    forall i | 0 <= i < |w| ensures w[i] in v {
      assert w[i] in multiset(w);
    }
  }

  /** A list of one entry, sorted by name. */
  method SortedSingleton(coll: Collation, src: FileInfo) returns (list: List, entry: FileInfo)
    requires TotalPreorder(coll)
    ensures fresh(list) && fresh(entry) && entry.relname == src.relname
    ensures list.coll == coll && list.Chain([entry]) && list.vec == null && list.sortKey == 'n' && list.sortOrder == 'a'
  {
    list := new List(coll);
    entry := list.AddFileInfo(src, []);
    assert [] + [entry] == [entry];
    ghost var w := SortRun(list, [Request('n', 'a')], [entry]);
    OneElement(entry, w);
  }

  /** A list the program can make whose tags are wrong: "b" is sorted, "a" is added behind it, and the
      next request to sort by name does nothing. */
  method UnsortedDespiteTags(coll: Collation) returns (list: List, ghost w: seq<FileInfo>)
    requires coll("b", "a") > 0 && TotalPreorder(coll)
    ensures list.vec != null && HoldsVector(list.vec, w) && list.coll == coll
    ensures list.sortKey == 'n' && list.sortOrder == 'a' && !Sorted(w, Cmp(coll, 'n', 'a'))
  {
    var a := new FileInfo("a", 0, 0);
    var b := new FileInfo("b", 0, 0);
    var first;
    list, first := SortedSingleton(coll, b);
    var second := list.AddFileInfo(a, [first]);
    w := [first] + [second];
    list.VectorizeFileInfoList(w);
    w := SortAgain(list, w);
    assert Cmp(coll, 'n', 'a')(w[0], w[1]) > 0;
  }

  /** Asking for the order the tags name does nothing. */
  method SortAgain(list: List, ghost v: seq<FileInfo>) returns (ghost w: seq<FileInfo>)
    requires list.vec != null && HoldsVector(list.vec, v) && list.nFileInfos == |v| && TotalPreorder(list.coll)
    requires ValidKey(list.sortKey) && ValidOrder(list.sortOrder)
    modifies list`sortKey, list`sortOrder, list.vec
    ensures w == v && list.vec == old(list.vec) && HoldsVector(list.vec, w)
    ensures list.sortKey == old(list.sortKey) && list.sortOrder == old(list.sortOrder)
  {
    w := list.SortFileInfoList(list.sortKey, list.sortOrder, v);
  }

  lemma OneElement(x: FileInfo, w: seq<FileInfo>)
    requires multiset(w) == multiset([x])
    ensures w == [x]
  {
    assert |w| == |multiset(w)| == 1;
    assert w[0] in multiset(w);
  }

  lemma ReversedKeeps(v: seq<FileInfo>, coll: Collation, key: char, order: char)
    ensures multiset(Reversed(v)) == multiset(v)
    ensures |v| <= 1 ==> Reversed(v) == v
    ensures ValidKey(key) && ValidOrder(order) ==>
              (Sorted(Reversed(v), Cmp(coll, key, Opposite(order))) <==> Sorted(v, Cmp(coll, key, order)))
  {
    ReversedMultiset(v);
    if ValidKey(key) && ValidOrder(order) {
      ReversedIsSorted(v, coll, key, order);
    }
  }

  lemma {:induction false} ReversedMultiset<T>(v: seq<T>)
    ensures multiset(Reversed(v)) == multiset(v)
  {
    if v == [] {
    } else {
      ReversedMultiset(v[1..]);
      assert v == [v[0]] + v[1..];
      assert Reversed(v) == Reversed(v[1..]) + [v[0]];
    }
  }
}
