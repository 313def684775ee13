/** BufferGets (rcmd.c): lines out of a stream that is read in pieces of any size. */
module LineReader {
  import opened Basics
  import opened Bytes
  import opened LocalFiles

  // ---- what one call takes off the stream ----

  /** A line of at most `max` octets, what is left, and whether the stream ended before the line did. */
  datatype Cut = Cut(line: seq<byte>, rest: seq<byte>, eof: bool)

  function NextLine(s: seq<byte>, max: nat): (c: Cut)
    ensures |c.line| <= max && (c.eof ==> c.rest == [])
    decreases |s|
  {
    if max == 0 then Cut([], s, false)
    else if s == [] then Cut([], [], true)
    else if s[0] == CR then NextLine(s[1..], max)
    else if s[0] == LF then Cut([], s[1..], false)
    else var c := NextLine(s[1..], max - 1); c.(line := [s[0]] + c.line)
  }

  /** The lines successive calls return. */
  function Lines(s: seq<byte>, max: nat): seq<seq<byte>>
    requires max > 0
    decreases |s|
  {
    NextLineShrinks(s, max);
    var c := NextLine(s, max);
    if c.eof then (if c.line == [] then [] else [c.line]) else [c.line] + Lines(c.rest, max)
  }

  lemma {:induction false} NextLineShrinks(s: seq<byte>, max: nat)
    ensures |NextLine(s, max).rest| <= |s|
    ensures max > 0 && !NextLine(s, max).eof ==> |NextLine(s, max).rest| < |s|
    decreases |s|
  {
    if max > 0 && s != [] {
      if s[0] == CR {
        NextLineShrinks(s[1..], max);
      } else if s[0] != LF {
        NextLineShrinks(s[1..], max - 1);
      }
    }
  }

  // ---- the reference: a direct split of the stream without its CRs ----

  function StripCR(s: seq<byte>): seq<byte> {
    if s == [] then [] else if s[0] == CR then StripCR(s[1..]) else [s[0]] + StripCR(s[1..])
  }

  /** The octets before the first LF. */
  function UpToLF(t: seq<byte>): (n: nat)
    ensures n <= |t| && (n < |t| ==> t[n] == LF) && LF !in t[..n]
  {
    if t == [] || t[0] == LF then 0 else 1 + UpToLF(t[1..])
  }

  /** Where the first line ends: before an LF, or when it is `max` octets long. */
  function LineEnd(t: seq<byte>, max: nat): nat {
    Min(UpToLF(t), max)
  }

  /** Where the next one starts: the LF is skipped if there was room to read it. */
  function NextStart(t: seq<byte>, max: nat): (r: nat)
    ensures LineEnd(t, max) <= r <= |t| && (t != [] && max > 0 ==> r > 0)
    ensures r > LineEnd(t, max) ==> r == LineEnd(t, max) + 1 && t[r - 1] == LF
  {
    var n := UpToLF(t);
    if n < max && n < |t| then n + 1 else LineEnd(t, max)
  }

  function Split(t: seq<byte>, max: nat): seq<seq<byte>>
    requires max > 0
    decreases |t|
  {
    if t == [] then [] else [t[..LineEnd(t, max)]] + Split(t[NextStart(t, max)..], max)
  }

  /** `c` is one call on a stream that is `t` without its CRs. */
  ghost predicate FirstCut(c: Cut, t: seq<byte>, max: nat) {
    var n := UpToLF(t);
    && c.line == t[..LineEnd(t, max)]
    && (c.eof <==> n == |t| < max)
    && StripCR(c.rest) == t[NextStart(t, max)..]
  }

  /** One call on the stream, and on the stream without CRs. */
  lemma {:induction false} NextLineSplits(s: seq<byte>, max: nat)
    ensures FirstCut(NextLine(s, max), StripCR(s), max)
    decreases |s|
  {
    if max == 0 {
    } else if s == [] {
    } else if s[0] == CR {
      NextLineSplits(s[1..], max);
    } else if s[0] == LF {
      assert StripCR(s)[1..] == StripCR(s[1..]);
    } else {
      NextLineSplits(s[1..], max - 1);
      FirstCutGrows(s[0], NextLine(s[1..], max - 1), StripCR(s[1..]), max);
    }
  }

  lemma FirstCutGrows(octet: byte, c: Cut, u: seq<byte>, max: nat)
    requires octet != LF && max > 0 && FirstCut(c, u, max - 1)
    ensures FirstCut(c.(line := [octet] + c.line), [octet] + u, max)
  {
    UpToLFStep(octet, u);
    SplitStep(octet, u, UpToLF(u), max);
  }

  lemma SplitStep(octet: byte, u: seq<byte>, n: nat, max: nat)
    requires n <= |u| && max > 0
    ensures ([octet] + u)[..Min(1 + n, max)] == [octet] + u[..Min(n, max - 1)]
    ensures ([octet] + u)[Min(1 + n, max)..] == u[Min(n, max - 1)..]
    ensures n < |u| ==> ([octet] + u)[1 + n + 1..] == u[n + 1..]
  {
    Shifted(octet, u, Min(n, max - 1));
    if n < |u| {
      Shifted(octet, u, n + 1);
    }
  }

  lemma UpToLFStep(octet: byte, u: seq<byte>)
    requires octet != LF
    ensures UpToLF([octet] + u) == 1 + UpToLF(u)
  {
    assert ([octet] + u)[1..] == u;
  }

  lemma Shifted(octet: byte, u: seq<byte>, m: nat)
    requires m <= |u|
    ensures ([octet] + u)[..1 + m] == [octet] + u[..m] && ([octet] + u)[1 + m..] == u[m..]
  {
  }

  /** The calls return the direct split of the stream without its CRs. */
  lemma {:induction false} LinesAreSplit(s: seq<byte>, max: nat)
    requires max > 0
    ensures Lines(s, max) == Split(StripCR(s), max)
    decreases |s|
  {
    var c, t := NextLine(s, max), StripCR(s);
    NextLineShrinks(s, max);
    NextLineSplits(s, max);
    if c.eof {
      assert t[..|t|] == t;
      assert c.line == t;
    } else {
      LinesAreSplit(c.rest, max);
      assert Lines(s, max) == [c.line] + Split(StripCR(c.rest), max);
      assert t != [];
    }
  }

  // ---- what the lines hold ----

  function WithoutLFs(t: seq<byte>): seq<byte> {
    if t == [] then [] else if t[0] == LF then WithoutLFs(t[1..]) else [t[0]] + WithoutLFs(t[1..])
  }

  function Concat(lines: seq<seq<byte>>): seq<byte> {
    if lines == [] then [] else lines[0] + Concat(lines[1..])
  }

  /** Whatever the size of the buffer, the lines hold every octet of the stream but CRs and LFs, once
      and in order. */
  lemma {:induction false} NothingLost(t: seq<byte>, max: nat)
    requires max > 0
    ensures Concat(Split(t, max)) == WithoutLFs(t)
    decreases |t|
  {
    if t != [] {
      var m, r := LineEnd(t, max), NextStart(t, max);
      NothingLost(t[r..], max);
      WithoutLFsSplit(t, m, r);
      ConcatCons(t[..m], Split(t[r..], max));
    }
  }

  lemma WithoutLFsSplit(t: seq<byte>, m: nat, r: nat)
    requires m <= r <= |t| && LF !in t[..m] && (r == m || (r == m + 1 && t[m] == LF))
    ensures WithoutLFs(t) == t[..m] + WithoutLFs(t[r..])
  {
    WithoutLFsBehind(t[..m], t[m..]);
    assert t == t[..m] + t[m..];
    if r > m {
      assert t[m..][1..] == t[r..];
    }
  }

  lemma {:induction false} WithoutLFsBehind(line: seq<byte>, rest: seq<byte>)
    requires LF !in line
    ensures WithoutLFs(line + rest) == line + WithoutLFs(rest)
  {
    if line == [] {
      assert line + rest == rest;
    } else {
      assert (line + rest)[1..] == line[1..] + rest;
      WithoutLFsBehind(line[1..], rest);
      assert line == [line[0]] + line[1..];
    }
  }

  lemma ConcatCons(line: seq<byte>, lines: seq<seq<byte>>)
    ensures Concat([line] + lines) == line + Concat(lines)
  {
    assert ([line] + lines)[1..] == lines;
  }

  function WithLFs(lines: seq<seq<byte>>): seq<byte> {
    if lines == [] then [] else lines[0] + [LF] + WithLFs(lines[1..])
  }

  /** The stream with an LF at its end. */
  function Ended(t: seq<byte>): seq<byte> {
    if t == [] || t[|t| - 1] == LF then t else t + [LF]
  }

  /** Every line has room in the buffer, and every one that ends in an LF has an octet to spare. */
  predicate ShortLines(t: seq<byte>, max: nat) {
    var n := UpToLF(t);
    if n == |t| then n <= max else n < max && ShortLines(t[n + 1..], max)
  }

  /** The lines with their LFs are the stream exactly when every line is short enough. */
  lemma LinesRestored(t: seq<byte>, max: nat)
    requires max > 0
    ensures WithLFs(Split(t, max)) == Ended(t) <==> ShortLines(t, max)
  {
    LinesGrow(t, max);
  }

  /** A line that is too long gets an LF too many. */
  lemma {:induction false} LinesGrow(t: seq<byte>, max: nat)
    requires max > 0
    ensures |WithLFs(Split(t, max))| >= |Ended(t)|
    ensures |WithLFs(Split(t, max))| == |Ended(t)| <==> ShortLines(t, max)
    ensures ShortLines(t, max) ==> WithLFs(Split(t, max)) == Ended(t)
    decreases |t|
  {
    if t != [] {
      var m, r := LineEnd(t, max), NextStart(t, max);
      LinesGrow(t[r..], max);
      WithLFsCons(t[..m], Split(t[r..], max));
      EndedSplit(t, m, r);
    }
  }

  lemma EndedSplit(t: seq<byte>, m: nat, r: nat)
    requires m <= r <= |t| && t != [] && LF !in t[..m] && (r == m || (r == m + 1 && t[m] == LF))
    ensures r > m ==> Ended(t) == (t[..m] + [LF]) + Ended(t[r..])
    ensures r == m == |t| ==> Ended(t) == t[..m] + [LF] && Ended(t[r..]) == []
    ensures r == m < |t| ==> |Ended(t)| == m + |Ended(t[r..])|
  {
    if r > m {
      EndedBehindLF(t, m);
    } else if m == |t| {
      assert t[..m] == t && t[m - 1] in t[..m];
    }
  }

  lemma EndedBehindLF(t: seq<byte>, m: nat)
    requires m < |t| && t[m] == LF
    ensures Ended(t) == (t[..m] + [LF]) + Ended(t[m + 1..])
  {
    var front, rest := t[..m] + [LF], t[m + 1..];
    assert t == front + rest;
    assert rest != [] ==> rest[|rest| - 1] == t[|t| - 1];
    assert (front + rest) + [LF] == front + (rest + [LF]);
  }

  lemma WithLFsCons(line: seq<byte>, lines: seq<seq<byte>>)
    ensures WithLFs([line] + lines) == (line + [LF]) + WithLFs(lines)
  {
    assert ([line] + lines)[1..] == lines;
  }

  /** A line that just fills the buffer is followed by an empty one. */
  lemma FullLineQuirk(line: seq<byte>, rest: seq<byte>)
    requires line != [] && LF !in line
    ensures Split(line + [LF] + rest, |line|) == [line, []] + Split(rest, |line|)
  {
    var t, u := line + [LF] + rest, [LF] + rest;
    assert t == line + u;
    FirstLF(line, u);
    assert t[..|line|] == line && t[|line|..] == u;
    EmptyLine(rest, |line|);
    assert [line] + ([[]] + Split(rest, |line|)) == [line, []] + Split(rest, |line|);
  }

  lemma EmptyLine(rest: seq<byte>, max: nat)
    requires max > 0
    ensures Split([LF] + rest, max) == [[]] + Split(rest, max)
  {
    var u := [LF] + rest;
    assert u[..0] == [] && u[1..] == rest;
  }

  lemma {:induction false} FirstLF(line: seq<byte>, rest: seq<byte>)
    requires LF !in line && rest != [] && rest[0] == LF
    ensures UpToLF(line + rest) == |line|
  {
    if line == [] {
      assert line + rest == rest;
    } else {
      assert (line + rest)[1..] == line[1..] + rest;
      FirstLF(line[1..], rest);
    }
  }

  // ---- the reader ----

  class Reader {
    const inStream: InputFile
    const secondaryBuf: array<byte>
    var secBufPtr: nat
    var secBufLimit: nat

    ghost predicate Valid()
      reads this, inStream
    {
      && inStream.Valid() && secondaryBuf.Length > 0
      && secBufPtr <= secBufLimit <= secondaryBuf.Length
    }

    /** What has not been returned yet: what is buffered, and what the stream still holds. */
    ghost function Remaining(): seq<byte>
      requires Valid()
      reads this, inStream, secondaryBuf
    {
      secondaryBuf[secBufPtr..secBufLimit] + inStream.data[inStream.pos..]
    }

    constructor (inStream: InputFile, secBufSize: nat)
      requires inStream.Valid() && secBufSize > 0
      ensures Valid() && this.inStream == inStream && fresh(secondaryBuf)
      ensures Remaining() == inStream.data[inStream.pos..]
    {
      this.inStream := inStream;
      secondaryBuf := new byte[secBufSize](i => 0);
      secBufPtr, secBufLimit := 0, 0;
    }

    /** Refills the empty buffer with one read. */
    method Fill() returns (nr: int)
      requires Valid() && secBufPtr == secBufLimit
      modifies this, inStream, secondaryBuf
      ensures Valid() && Remaining() == old(Remaining())
      ensures nr < 0 ==> !inStream.healthy
      ensures nr == 0 ==> Remaining() == []
      ensures nr > 0 ==> secBufPtr < secBufLimit
      ensures |inStream.data| - inStream.pos <= old(|inStream.data| - inStream.pos)
    {
      var block;
      nr, block := inStream.Read(secondaryBuf.Length);
      if nr > 0 {
        forall i | 0 <= i < nr { secondaryBuf[i] := block[i]; }
        if nr < secondaryBuf.Length {
          secondaryBuf[nr] := 0;
        }
        secBufPtr, secBufLimit := 0, nr;
        assert secondaryBuf[0..nr] == block;
      }
    }

    /** The octet at the buffer pointer, refilling first; -1 at the end of the stream, -2 on an error. */
    method Take() returns (octet: int)
      requires Valid()
      modifies this, inStream, secondaryBuf
      ensures Valid() && -2 <= octet < 256
      ensures octet == -2 ==> !inStream.healthy
      ensures octet == -1 ==> old(Remaining()) == [] == Remaining()
      ensures octet >= 0 ==> old(Remaining()) != [] && octet == old(Remaining())[0] && Remaining() == old(Remaining())[1..]
    {
      if secBufPtr >= secBufLimit {
        var nr := Fill();
        if nr == 0 {
          return -1;
        } else if nr < 0 {
          return -2;
        }
      }
      ghost var s := Remaining();
      octet := secondaryBuf[secBufPtr];
      assert s[0] == octet && s[1..] == secondaryBuf[secBufPtr + 1..secBufLimit] + inStream.data[inStream.pos..];
      secBufPtr := secBufPtr + 1;
    }

    /** `got` is in the buffer, and `left` is to come before the line is the one cut off. */
    ghost predicate Getting(buf: array<byte>, dst: nat, dstlim: nat, got: seq<byte>, left: seq<byte>, c: Cut)
      requires Valid()
      reads this, inStream, secondaryBuf, buf
    {
      && dst == |got| && dst <= dstlim < buf.Length && buf[..dst] == got && got + left == c.line
      && NextLine(Remaining(), dstlim - dst) == Cut(left, c.rest, c.eof)
    }

    /** One turn of the loop: CRs are skipped, and an LF ends the line. */
    method TakeInto(buf: array<byte>, dst: nat, dstlim: nat, ghost got: seq<byte>, ghost left: seq<byte>, ghost c: Cut)
      returns (octet: int, dst': nat, ghost got': seq<byte>, ghost left': seq<byte>)
      requires Valid() && buf != secondaryBuf && dst < dstlim && Getting(buf, dst, dstlim, got, left, c)
      modifies this, inStream, secondaryBuf, buf
      ensures Valid() && -2 <= octet < 256 && dst <= dst' <= dstlim
      ensures octet == -2 ==> !inStream.healthy
      ensures octet == -1 || octet == LF ==> dst' == dst && got' == got == c.line == buf[..dst] && Remaining() == c.rest && (c.eof <==> octet == -1)
      ensures octet >= 0 && octet != LF ==> Getting(buf, dst', dstlim, got', left', c) && |Remaining()| < |old(Remaining())|
    {
      octet := Take();
      dst', got', left' := dst, got, left;
      if octet >= 0 && octet != CR && octet != LF {
        buf[dst] := octet;
        dst' := dst + 1;
        TakeOne(got, left, octet);
        got', left' := got + [octet], left[1..];
      }
      assert octet == -1 || octet == LF ==> left == [] && got + left == got;
    }

    /** Returns the length of the next line, or -1. A line returned is the next one of the stream, and
        nothing of the rest is lost; without read errors -1 means that there is none. */
    method BufferGets(buf: array<byte>, bufsize: nat) returns (len: int)
      requires Valid() && 0 < bufsize <= buf.Length && buf != secondaryBuf
      modifies this, inStream, secondaryBuf, buf
      ensures Valid() && len < bufsize
      ensures len >= 0 || inStream.healthy ==> Gotten(len, if len < 0 then [] else buf[..len], NextLine(old(Remaining()), bufsize - 1), Remaining())
      ensures len >= 0 ==> buf[len] == 0
    {
      var dst: nat, dstlim := 0, bufsize - 1;
      var haveEof, err := false, false;
      ghost var c := NextLine(Remaining(), dstlim);
      ghost var got, left: seq<byte> := [], c.line;
      while dst < dstlim
        invariant Valid() && dst <= dstlim && !haveEof && !err
        invariant Getting(buf, dst, dstlim, got, left, c)
        decreases |Remaining()|
      {
        var octet;
        octet, dst, got, left := TakeInto(buf, dst, dstlim, got, left, c);
        if octet == -1 {
          haveEof := true;
          break;
        } else if octet == -2 {
          err := true;
          break;
        } else if octet == LF {
          break;
        }
      }
      buf[dst] := 0;
      if err {
        return -1;
      }
      assert left == [] ==> got + left == got;
      len := if dst == 0 && haveEof then -1 else dst;
    }
  }

  lemma TakeOne(got: seq<byte>, left: seq<byte>, octet: byte)
    requires left != [] && left[0] == octet
    ensures (got + [octet]) + left[1..] == got + left
  {
  }

  /** What a call on a stream without errors returns and leaves. */
  ghost predicate Gotten(len: int, line: seq<byte>, c: Cut, remaining: seq<byte>) {
    && remaining == c.rest && line == c.line
    && len == (if c.line == [] && c.eof then -1 else |c.line|)
  }

  /** A call returns the first of the lines and leaves the others. */
  lemma CallByCall(s: seq<byte>, max: nat, len: int, line: seq<byte>, remaining: seq<byte>)
    requires max > 0 && Gotten(len, line, NextLine(s, max), remaining)
    ensures Lines(s, max) == if len == -1 then [] else [line] + Lines(remaining, max)
    ensures len == -1 ==> remaining == []
  {
    assert [line] + [] == [line];
  }

  // ---- a listing, read line by line ----

  /** A C string holds nothing behind its first NUL. */
  function CText(line: seq<byte>): seq<byte> {
    if line == [] || line[0] == 0 then [] else [line[0]] + CText(line[1..])
  }

  /** Reading a line as a C string, its NUL included. */
  function At(line: seq<byte>, i: nat): byte {
    if i < |line| then line[i] else 0
  }

  const DOT: byte := 46

  /** "." or "..", the latter also with a control character behind it. */
  predicate DotEntry(line: seq<byte>) {
    At(line, 0) == DOT && (At(line, 1) == 0 || (At(line, 1) == DOT && (At(line, 2) < 32 || At(line, 2) == 127)))
  }

  /** A line without NUL is listed whole; another up to it. */
  lemma {:induction false} ListedWhole(line: seq<byte>)
    ensures 0 !in line ==> CText(line) == line
    ensures CText(line) <= line && 0 !in CText(line) && (CText(line) != line ==> line[|CText(line)|] == 0)
  {
    if line != [] && line[0] != 0 {
      ListedWhole(line[1..]);
      assert line == [line[0]] + line[1..];
    }
  }

  /** What is left out: the names "." and "..", and every name that has a control character after its two dots. */
  lemma LeftOut(line: seq<byte>)
    ensures var t := CText(line);
      DotEntry(line) <==> t == [46] || t == [46, 46] || (|t| > 2 && t[..2] == [46, 46] && (t[2] < 32 || t[2] == 127))
  {
    ListedWhole(line);
    var t := CText(line);
    assert forall i: nat :: i < |t| ==> At(line, i) == t[i] && t[i] in t;
    assert At(line, |t|) == 0;
    if |t| > 1 {
      assert t[..2] == [t[0], t[1]];
    }
  }

  function Listed(lines: seq<seq<byte>>, blankLines: bool): seq<seq<byte>> {
    if lines == [] then []
    else
      var line, others := lines[|lines| - 1], Listed(lines[..|lines| - 1], blankLines);
      if (if line == [] then blankLines else !DotEntry(line)) then others + [CText(line)] else others
  }

  /** The loop of FTPListToMemory2: for every sequence of read sizes the listing holds the lines of a
      direct split of the stream, without "." and "..", and without blank ones unless they are wanted.
      `n` lines were read; a read error ends the listing early. */
  method ListToMemory(reader: Reader, line: array<byte>, blankLines: bool) returns (llines: seq<seq<byte>>, ghost n: nat)
    requires reader.Valid() && line.Length > 1 && line != reader.secondaryBuf
    modifies reader, reader.inStream, reader.secondaryBuf, line
    ensures n <= |Split(StripCR(old(reader.Remaining())), line.Length - 1)|
    ensures llines == Listed(Split(StripCR(old(reader.Remaining())), line.Length - 1)[..n], blankLines)
    ensures reader.inStream.healthy ==> n == |Split(StripCR(old(reader.Remaining())), line.Length - 1)|
  {
    ghost var s, max := reader.Remaining(), line.Length - 1;
    LinesAreSplit(s, max);
    ghost var got: seq<seq<byte>> := [];
    llines := [];
    var more := true;
    while more
      invariant reader.Valid() && llines == Listed(got, blankLines)
      invariant more ==> Reading(got, reader.Remaining(), s, max)
      invariant !more ==> Read(got, Lines(s, max), reader.inStream.healthy)
      decreases if more then |reader.Remaining()| + 1 else 0
    {
      more, llines, got := ListLine(reader, line, blankLines, llines, got, s);
    }
    n := |got|;
    assert Lines(s, max)[..n] == got;
  }

  /** `got` are the first lines of the stream, and `rest` is what is left of it. */
  ghost predicate Reading(got: seq<seq<byte>>, rest: seq<byte>, s: seq<byte>, max: nat)
    requires max > 0
  {
    got + Lines(rest, max) == Lines(s, max)
  }

  /** `got` are the first of the lines, and all of them unless reading failed. */
  ghost predicate Read(got: seq<seq<byte>>, all: seq<seq<byte>>, healthy: bool) {
    got <= all && (healthy ==> got == all)
  }

  /** One turn of that loop. */
  method ListLine(reader: Reader, line: array<byte>, blankLines: bool, llines0: seq<seq<byte>>, ghost got0: seq<seq<byte>>, ghost s: seq<byte>)
    returns (more: bool, llines: seq<seq<byte>>, ghost got: seq<seq<byte>>)
    requires reader.Valid() && line.Length > 1 && line != reader.secondaryBuf
    requires llines0 == Listed(got0, blankLines) && Reading(got0, reader.Remaining(), s, line.Length - 1)
    modifies reader, reader.inStream, reader.secondaryBuf, line
    ensures reader.Valid() && llines == Listed(got, blankLines)
    ensures more ==> Reading(got, reader.Remaining(), s, line.Length - 1) && |reader.Remaining()| < |old(reader.Remaining())|
    ensures !more ==> Read(got, Lines(s, line.Length - 1), reader.inStream.healthy)
  {
    ghost var rest, max := reader.Remaining(), line.Length - 1;
    NextLineShrinks(rest, max);
    llines, got := llines0, got0;
    var nread := reader.BufferGets(line, line.Length);
    more := nread >= 0;
    if nread < 0 {
      if reader.inStream.healthy {
        CallByCall(rest, max, nread, [], reader.Remaining());
        assert got + [] == got;
      }
      return;
    }
    ghost var now := line[..nread];
    CallByCall(rest, max, nread, now, reader.Remaining());
    OneMore(got, now, Lines(reader.Remaining(), max));
    ListedSnoc(got, now, blankLines);
    got := got + [now];
    if nread == 0 {
      if blankLines {
        llines := llines + [CText(line[..nread])];
      }
    } else if !DotEntry(line[..nread]) {
      llines := llines + [CText(line[..nread])];
    }
  }

  lemma OneMore(got: seq<seq<byte>>, now: seq<byte>, rest: seq<seq<byte>>)
    ensures (got + [now]) + rest == got + ([now] + rest)
  {
  }

  lemma ListedSnoc(lines: seq<seq<byte>>, line: seq<byte>, blankLines: bool)
    ensures Listed(lines + [line], blankLines)
         == Listed(lines, blankLines) + (if (if line == [] then blankLines else !DotEntry(line)) then [CText(line)] else [])
  {
    assert (lines + [line])[..|lines|] == lines;
  }
}
