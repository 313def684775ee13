/** The command history of gl_getline.c: a ring of 100 slots, the one at histLast always empty. */
module History {
  import opened Basics

  const HIST_SIZE := 100

  // ---- which lines are kept, and how ----

  /** The string from its first character that is not a space, tab or newline. */
  function SkipBlanks(s: string): string {
    if s != "" && (s[0] == ' ' || s[0] == '\t' || s[0] == '\n') then SkipBlanks(s[1..]) else s
  }

  predicate Blank(buf: string) {
    SkipBlanks(buf) == ""
  }

  /** hist_save: a line with a newline or carriage return loses its last character. */
  function Saved(buf: string): string {
    if buf != "" && ('\n' in buf || '\r' in buf) then buf[..|buf| - 1] else buf
  }

  /** What gl_histadd compares with the line before. */
  function Compared(buf: string): string {
    if buf != "" && '\n' in SkipBlanks(buf) then buf[..|buf| - 1] else buf
  }

  /** The lines kept of those offered, oldest first: no blank one, and none that repeats the last. */
  function KeptLines(bufs: seq<string>): seq<string> {
    if bufs == [] then []
    else KeepOne(KeptLines(bufs[..|bufs| - 1]), bufs[|bufs| - 1])
  }

  function KeepOne(lines: seq<string>, buf: string): seq<string> {
    if Blank(buf) || (lines != [] && lines[|lines| - 1] == Compared(buf)) then lines else lines + [Saved(buf)]
  }

  /** A line as it is typed: a newline at the end if anywhere, and no carriage return. */
  predicate Typed(buf: string) {
    '\r' !in buf && (forall i :: 0 <= i < |buf| - 1 ==> buf[i] != '\n')
  }

  function WithoutNewline(buf: string): string {
    if buf != "" && buf[|buf| - 1] == '\n' then buf[..|buf| - 1] else buf
  }

  lemma {:induction false} SkipBlanksKeepsEnd(s: string)
    ensures |SkipBlanks(s)| <= |s| && SkipBlanks(s) == s[|s| - |SkipBlanks(s)|..]
  {
    if s != "" && (s[0] == ' ' || s[0] == '\t' || s[0] == '\n') {
      SkipBlanksKeepsEnd(s[1..]);
    }
  }

  /** On typed lines both ways of stripping the newline agree, so exactly the repeats are dropped. */
  lemma TypedLines(buf: string)
    requires Typed(buf) && !Blank(buf)
    ensures Saved(buf) == Compared(buf) == WithoutNewline(buf)
  {
    SkipBlanksKeepsEnd(buf);
    var p := SkipBlanks(buf);
    assert p[|p| - 1] == buf[|buf| - 1];
    if '\n' in buf {
      assert buf[|buf| - 1] == '\n';
    } else {
      assert forall c :: c in p ==> c in buf;
    }
  }

  /** No blank line and no two equal lines in a row are ever kept. */
  lemma {:induction false} KeptIsClean(bufs: seq<string>)
    requires forall i :: 0 <= i < |bufs| ==> Typed(bufs[i])
    ensures forall i :: 0 <= i < |KeptLines(bufs)| ==> !Blank(KeptLines(bufs)[i])
    ensures forall i :: 0 < i < |KeptLines(bufs)| ==> KeptLines(bufs)[i - 1] != KeptLines(bufs)[i]
    decreases |bufs|
  {
    if bufs != [] {
      var front, buf := bufs[..|bufs| - 1], bufs[|bufs| - 1];
      KeptIsClean(front);
      if !Blank(buf) {
        TypedLines(buf);
        StrippedNotBlank(buf);
      }
    }
  }

  lemma {:induction false} StrippedNotBlank(buf: string)
    requires !Blank(buf)
    ensures !Blank(WithoutNewline(buf))
  {
    if buf[0] == ' ' || buf[0] == '\t' || buf[0] == '\n' {
      StrippedNotBlank(buf[1..]);
      assert WithoutNewline(buf)[1..] == WithoutNewline(buf[1..]);
    }
  }

  predicate OnlyBlanks(buf: string) {
    forall i :: 0 <= i < |buf| ==> buf[i] in " \t\n"
  }

  /** A line is blank when it holds nothing but spaces, tabs and newlines. */
  lemma {:induction false} BlankIff(buf: string)
    ensures Blank(buf) <==> OnlyBlanks(buf)
  {
    if buf != "" && buf[0] in " \t\n" {
      BlankIff(buf[1..]);
      assert forall i :: 0 < i < |buf| ==> buf[i] == buf[1..][i - 1];
    }
  }

  /** The lines offered that are not blank, without their newlines. */
  function Offered(bufs: seq<string>): seq<string> {
    if bufs == [] then []
    else
      var front, buf := Offered(bufs[..|bufs| - 1]), bufs[|bufs| - 1];
      if OnlyBlanks(buf) then front else front + [WithoutNewline(buf)]
  }

  /** Of equal lines in a row, the first. */
  function Collapsed(lines: seq<string>): seq<string> {
    if lines == [] then []
    else
      var n := |lines| - 1;
      if n > 0 && lines[n - 1] == lines[n] then Collapsed(lines[..n]) else Collapsed(lines[..n]) + [lines[n]]
  }

  lemma CollapsedSnoc(lines: seq<string>, line: string)
    ensures Collapsed(lines + [line]) ==
            if lines != [] && lines[|lines| - 1] == line then Collapsed(lines) else Collapsed(lines) + [line]
  {
    assert (lines + [line])[..|lines|] == lines;
  }

  lemma {:induction false} CollapsedLast(lines: seq<string>)
    ensures lines != [] ==> Collapsed(lines) != [] && Collapsed(lines)[|Collapsed(lines)| - 1] == lines[|lines| - 1]
    decreases |lines|
  {
    if |lines| > 1 {
      CollapsedLast(lines[..|lines| - 1]);
    }
  }

  /** The lines kept of those typed are all that are not blank, but for repeats. */
  lemma {:induction false} KeptAreOffered(bufs: seq<string>)
    requires forall i :: 0 <= i < |bufs| ==> Typed(bufs[i])
    ensures KeptLines(bufs) == Collapsed(Offered(bufs))
    decreases |bufs|
  {
    if bufs != [] {
      var front, buf := bufs[..|bufs| - 1], bufs[|bufs| - 1];
      KeptAreOffered(front);
      KeepsOffered(Offered(front), buf);
    }
  }

  lemma KeepsOffered(offered: seq<string>, buf: string)
    requires Typed(buf)
    ensures KeepOne(Collapsed(offered), buf) == Collapsed(if OnlyBlanks(buf) then offered else offered + [WithoutNewline(buf)])
  {
    BlankIff(buf);
    if !Blank(buf) {
      TypedLines(buf);
      CollapsedLast(offered);
      CollapsedSnoc(offered, WithoutNewline(buf));
    }
  }

  // ---- the ring ----

  /** The slot `k` steps back from `last`, and the way back to `k`. */
  function SlotBack(last: nat, k: nat): (i: nat)
    requires last < HIST_SIZE && k < HIST_SIZE
    ensures i < HIST_SIZE && Distance(last, i) == k
  {
    if k <= last then last - k else last + HIST_SIZE - k
  }

  function Distance(last: nat, i: nat): (k: nat)
    requires last < HIST_SIZE && i < HIST_SIZE
    ensures k < HIST_SIZE && (k == 0 <==> i == last)
  {
    if i <= last then last - i else last + HIST_SIZE - i
  }

  /** What is to be found `k` steps back. */
  function Entry(lines: seq<string>, k: nat): Option<string> {
    if k == 0 then Some("") else if k <= |lines| then Some(lines[|lines| - k]) else None
  }

  /** How many of the lines can be recalled. */
  function Recallable(lines: seq<string>): nat {
    Min(|lines|, 99)
  }

  /** How far back the position can get: past the last line, if there is an unused element. */
  function Furthest(lines: seq<string>): nat {
    Min(|lines| + 1, HIST_SIZE - 1)
  }

  /** Adding a line moves every other one a step further back. */
  lemma RingStep(last: nat, k: nat, lines: seq<string>, line: string)
    requires last < HIST_SIZE && k < HIST_SIZE - 1
    ensures var last' := (last + 1) % HIST_SIZE;
      && SlotBack(last', k + 1) == SlotBack(last, k) != last'
      && (k > 0 ==> Entry(lines + [line], k + 1) == Entry(lines, k) && SlotBack(last, k) != last)
      && Entry(lines + [line], 1) == Some(line)
  {
    assert (last + 1) % HIST_SIZE == if last + 1 == HIST_SIZE then 0 else last + 1;
  }

  /** The slot before a position is one step further back, unless that leads all the way round. */
  lemma StepBack(last: nat, pos: nat)
    requires last < HIST_SIZE && pos < HIST_SIZE
    ensures var k, next := Distance(last, pos), (pos + HIST_SIZE - 1) % HIST_SIZE;
      && pos == SlotBack(last, k)
      && (next == last <==> k + 1 == HIST_SIZE)
      && (k + 1 < HIST_SIZE ==> next == SlotBack(last, k + 1))
  {
    assert (pos + HIST_SIZE - 1) % HIST_SIZE == if pos == 0 then HIST_SIZE - 1 else pos - 1;
  }

  lemma StepForward(last: nat, pos: nat)
    requires last < HIST_SIZE && pos < HIST_SIZE && pos != last
    ensures var k := Distance(last, pos); pos == SlotBack(last, k) && (pos + 1) % HIST_SIZE == SlotBack(last, k - 1)
  {
    assert (pos + 1) % HIST_SIZE == if pos + 1 == HIST_SIZE then 0 else pos + 1;
  }

  class Ring {
    const histBuf: array<Option<string>>
    var histPos: nat
    var histLast: nat
    var prev: Option<string>
    ghost var lines: seq<string>  // all the lines ever kept

    /** How many steps back from the empty element the position is. */
    ghost function Back(): nat
      requires histPos < HIST_SIZE && histLast < HIST_SIZE
      reads this
    {
      Distance(histLast, histPos)
    }

    ghost predicate Valid()
      reads this, histBuf
    {
      && histBuf.Length == HIST_SIZE && histPos < HIST_SIZE && histLast < HIST_SIZE
      && (forall k: nat :: k < HIST_SIZE ==> histBuf[SlotBack(histLast, k)] == Entry(lines, k))
      && prev == (if lines == [] then None else Some(lines[|lines| - 1]))
      && Back() <= Recallable(lines) + 1
    }

    /** hist_init */
    constructor ()
      ensures Valid() && lines == [] && Back() == 0 && fresh(histBuf)
    {
      histBuf := new Option<string>[HIST_SIZE](i => if i == 0 then Some("") else None);
      histPos, histLast, prev := 0, 0, None;
      lines := [];
    }

    /** gl_histadd */
    method Add(buf: string)
      requires Valid()
      modifies this, histBuf
      ensures Valid() && lines == KeepOne(old(lines), buf) && Back() == 0
    {
      if !Blank(buf) {
        if prev == None || prev.value != Compared(buf) {
          Push(Saved(buf));
        }
      }
      histPos := histLast;
    }

    /** A new line takes the place of the empty element, which moves on. */
    method Push(line: string)
      requires Valid()
      modifies this`histLast, this`prev, this`lines, histBuf
      ensures histLast < HIST_SIZE && lines == old(lines) + [line] && prev == Some(line)
      ensures forall k: nat :: k < HIST_SIZE ==> histBuf[SlotBack(histLast, k)] == Entry(lines, k)
    {
      ghost var before, last := histBuf[..], histLast;
      histBuf[histLast] := Some(line);
      prev := histBuf[histLast];
      histLast := (histLast + 1) % HIST_SIZE;
      histBuf[histLast] := Some("");
      forall k: nat | 0 < k < HIST_SIZE
        ensures histBuf[SlotBack(histLast, k)] == Entry(lines + [line], k)
      {
        RingStep(last, k - 1, lines, line);
        assert before[SlotBack(last, k - 1)] == Entry(lines, k - 1);
      }
      lines := lines + [line];
    }

    /** hist_prev: one step back, as long as there is a line to recall. */
    method Prev() returns (p: string)
      requires Valid()
      modifies this`histPos
      ensures Valid()
      ensures old(Back()) < Recallable(lines) ==> Back() == old(Back()) + 1 && p == lines[|lines| - Back()]
      ensures old(Back()) >= Recallable(lines) ==> p == ""
      ensures Back() == Min(old(Back()) + 1, Furthest(lines))
    {
      StepBack(histLast, histPos);
      var next := (histPos + HIST_SIZE - 1) % HIST_SIZE;
      var q: Option<string> := None;
      if histBuf[histPos] != None && next != histLast {
        histPos := next;
        q := histBuf[histPos];
      }
      p := if q == None then "" else q.value;
    }

    /** hist_next: one step forward, down to the empty element. */
    method Next() returns (p: string)
      requires Valid()
      modifies this`histPos
      ensures Valid()
      ensures old(Back()) > 0 ==> Back() == old(Back()) - 1 && Some(p) == Entry(lines, Back())
      ensures old(Back()) == 0 ==> Back() == 0 && p == ""
    {
      var q: Option<string> := None;
      if histPos != histLast {
        StepForward(histLast, histPos);
        histPos := (histPos + 1) % HIST_SIZE;
        q := histBuf[histPos];
      }
      p := if q == None then "" else q.value;
    }
  }

  // ---- any run ----

  method AddAll(bufs: seq<string>) returns (ring: Ring)
    ensures fresh(ring) && fresh(ring.histBuf) && ring.Valid() && ring.lines == KeptLines(bufs) && ring.Back() == 0
  {
    ring := new Ring();
    var i := 0;
    while i < |bufs|
      invariant i <= |bufs| && fresh(ring) && fresh(ring.histBuf)
      invariant ring.Valid() && ring.lines == KeptLines(bufs[..i]) && ring.Back() == 0
      modifies ring, ring.histBuf
    {
      assert bufs[..i + 1][..i] == bufs[..i];
      ring.Add(bufs[i]);
      i := i + 1;
    }
    assert bufs[..i] == bufs;
  }

  /** `k` steps back from the empty element. */
  method StepsBack(ring: Ring, k: nat) returns (back: seq<string>)
    requires ring.Valid() && ring.Back() == 0
    modifies ring`histPos
    ensures ring.Valid() && ring.Back() == Min(k, Furthest(ring.lines)) && |back| == k
    ensures forall i :: 0 <= i < k ==> back[i] == if i < Recallable(ring.lines) then ring.lines[|ring.lines| - 1 - i] else ""
  {
    back := [];
    while |back| < k
      invariant ring.Valid() && ring.Back() == Min(|back|, Furthest(ring.lines)) && |back| <= k
      invariant forall i :: 0 <= i < |back| ==> back[i] == if i < Recallable(ring.lines) then ring.lines[|ring.lines| - 1 - i] else ""
    {
      var p := ring.Prev();
      back := back + [p];
    }
  }

  /** `k` steps forward. */
  method StepsForward(ring: Ring, k: nat) returns (forth: seq<string>)
    requires ring.Valid()
    modifies ring`histPos
    ensures ring.Valid() && |forth| == k
    ensures forall i: nat :: i < k ==> Some(forth[i]) == Entry(ring.lines, if i < old(ring.Back()) then old(ring.Back()) - 1 - i else 0)
  {
    forth := [];
    ghost var b := ring.Back();
    while |forth| < k
      invariant ring.Valid() && ring.Back() == (if |forth| < b then b - |forth| else 0) && |forth| <= k
      invariant forall i: nat :: i < |forth| ==> Some(forth[i]) == Entry(ring.lines, if i < b then b - 1 - i else 0)
    {
      var p := ring.Next();
      forth := forth + [p];
    }
  }

  /** After any run of additions, the i-th of `k` steps back recalls the i-th newest line kept, for as many as the ring
      holds, and steps forward from there retrace them down to the empty element. */
  method RecallAfter(bufs: seq<string>, k: nat) returns (back: seq<string>, forth: seq<string>)
    ensures |back| == |forth| == k
    ensures var lines := KeptLines(bufs);
      forall i :: 0 <= i < k ==> back[i] == if i < Recallable(lines) then lines[|lines| - 1 - i] else ""
    ensures var lines := KeptLines(bufs);
      var b := Min(k, Furthest(lines));
      forall i: nat :: i < k ==> Some(forth[i]) == Entry(lines, if i < b then b - 1 - i else 0)
  {
    var ring := AddAll(bufs);
    back := StepsBack(ring, k);
    forth := StepsForward(ring, k);
  }
}
