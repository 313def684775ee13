/** The ASCII branch of FTPGetOneF: received blocks are translated through a 512-octet buffer,
    with a trailing CR or CR CR carried from one block to the next. */
module AsciiDownload {
  import opened Bytes
  import opened Eoln
  import opened Errors
  import opened LocalFiles

  const OUTBUF_SIZE := 512

  /** One turn of the receive loop: what waiting for and reading the data socket gave. */
  datatype Event =
    | Received(block: seq<byte>)  // an empty block is the end of the stream
    | Interrupted
    | Lost
    | TimedOut
    | Canceled

  /** The octets that came in before the loop was left. */
  ghost function Arrived(events: seq<Event>): seq<byte> {
    if events == [] then []
    else match events[0]
      case Received(block) => if block == [] then [] else block + Arrived(events[1..])
      case Interrupted => Arrived(events[1..])
      case _ => []
  }

  /** The status with which the receive loop is left. */
  ghost function Ending(events: seq<Event>): int {
    if events == [] then K_NO_ERR
    else match events[0]
      case Received(block) => if block == [] then K_NO_ERR else Ending(events[1..])
      case Interrupted => Ending(events[1..])
      case Lost => K_ERR_SOCKET_READ_FAILED
      case TimedOut => K_ERR_DATA_TIMED_OUT
      case Canceled => K_ERR_DATA_TRANSFER_ABORTED
  }

  /** The octets a carry state stands for. */
  ghost function Carried(cr: bool, crcr: bool): seq<byte> {
    if crcr then [CR, CR] else if cr then [CR] else []
  }

  /** The output buffer of the loop: `outbuf`, its fill pointer `dst`, and the file behind it. */
  class Writer {
    const file: OutputFile
    const outbuf: array<byte>
    const textEOLN: seq<byte>
    var dst: nat

    ghost predicate Valid()
      reads this
    {
      outbuf.Length == OUTBUF_SIZE && dst <= OUTBUF_SIZE && 1 <= |textEOLN| <= 2
    }

    /** All output so far, on disk or still buffered. */
    ghost function Out(): seq<byte>
      requires Valid()
      reads this, outbuf, file
    {
      file.contents + outbuf[..dst]
    }

    /** How much the file can hold in all. */
    ghost function Capacity(): nat
      reads file
    {
      |file.contents| + file.room
    }

    /** The disk filled up while `expected` was being written. */
    ghost predicate Overflowed(expected: seq<byte>)
      reads file
    {
      file.room == 0 && file.contents < expected
    }

    constructor (file: OutputFile, textEOLN: seq<byte>)
      requires 1 <= |textEOLN| <= 2
      ensures Valid() && fresh(this) && fresh(outbuf) && dst == 0
      ensures this.file == file && this.textEOLN == textEOLN
      ensures Out() == file.contents
    {
      this.file, this.textEOLN, this.dst := file, textEOLN, 0;
      outbuf := new byte[OUTBUF_SIZE](i => 0);
    }

    /** Writes out a nonempty buffer. */
    method Flush() returns (ok: bool)
      requires Valid() && dst > 0
      modifies this, file
      ensures Valid() && Capacity() == old(Capacity())
      ensures ok ==> dst == 0 && Out() == old(Out())
      ensures !ok ==> Overflowed(old(Out()))
    {
      var nwrote := file.PWrite(outbuf[..dst]);
      ok := nwrote == dst;
      if ok {
        dst := 0;
      }
    }

    /** One ordinary octet; the caller has made room for it. */
    method Put(c: byte)
      requires Valid() && dst < OUTBUF_SIZE
      modifies this, outbuf
      ensures Valid()
      ensures Out() == old(Out()) + [c]
    {
      outbuf[dst] := c;
      dst := dst + 1;
    }

    /** One line end, after writing out a buffer with no room for two octets. */
    method PutOneEoln() returns (ok: bool)
      requires Valid()
      modifies this, outbuf, file
      ensures Valid() && Capacity() == old(Capacity())
      ensures ok ==> Out() == old(Out()) + textEOLN
      ensures !ok ==> Overflowed(old(Out()))
    {
      if dst + 2 >= OUTBUF_SIZE {
        ok := Flush();
        if !ok {
          return;
        }
      }
      Put(textEOLN[0]);
      if |textEOLN| > 1 {
        Put(textEOLN[1]);
        assert textEOLN == [textEOLN[0]] + [textEOLN[1]];
      } else {
        assert textEOLN == [textEOLN[0]];
      }
      ok := true;
    }

    /** The add_eoln label: a line end, and another one while `addAnotherEoln` is not zero. */
    method PutEoln(again: nat) returns (ok: bool)
      requires Valid() && again <= 1
      modifies this, outbuf, file
      ensures Valid() && Capacity() == old(Capacity())
      ensures ok ==> Out() == old(Out()) + Eolns(textEOLN, 1 + again)
      ensures !ok ==> Overflowed(old(Out()) + Eolns(textEOLN, 1 + again))
    {
      var addAnotherEoln := again;
      ghost var out := Out();
      ghost var expected := out + Eolns(textEOLN, 1 + again);
      while true
        invariant Valid() && Capacity() == old(Capacity())
        invariant 0 <= addAnotherEoln <= again
        invariant Out() == out && out + Eolns(textEOLN, 1 + addAnotherEoln) == expected
        decreases addAnotherEoln
      {
        EolnsStep(out, textEOLN, addAnotherEoln);
        ok := PutOneEoln();
        if !ok {
          return;
        }
        out := out + textEOLN;
        if addAnotherEoln == 0 {
          return;
        }
        addAnotherEoln := addAnotherEoln - 1;
      }
    }
  }

  /** `out` is written; `eolns` line ends, the carried CRs and `rest` are still owed. */
  ghost predicate Owes(out: seq<byte>, textEOLN: seq<byte>, eolns: nat, carried: seq<byte>, rest: seq<byte>, whole: seq<byte>) {
    out + (Eolns(textEOLN, eolns) + Decode(carried + rest, textEOLN)) == whole
  }

  /** A recognised line end moves from the undecoded text to the line ends owed. */
  lemma OwesEolns(out: seq<byte>, textEOLN: seq<byte>, carried: seq<byte>, s: seq<byte>, mark: seq<byte>, n: nat, t: seq<byte>, whole: seq<byte>)
    requires Owes(out, textEOLN, 0, carried, s, whole)
    requires carried + s == mark + t && Spells(mark, n, t)
    ensures Owes(out, textEOLN, n, [], t, whole)
  {
    DecodeMark(mark, t, textEOLN, n);
    assert [] + t == t;
    assert Eolns(textEOLN, 0) + Decode(carried + s, textEOLN) == Decode(carried + s, textEOLN);
  }

  /** The have_char_after_crcr label; `offset` is 1 when the second CR is still in the block. */
  method HaveCharAfterCRCR(block: seq<byte>, src0: nat, offset: nat,
                           ghost rest: seq<byte>, ghost out: seq<byte>, ghost textEOLN: seq<byte>, ghost whole: seq<byte>)
    returns (eoln: bool, src: nat, crcr: bool, addAnotherEoln: nat)
    requires src0 < |block| && offset <= 1
    requires Owes(out, textEOLN, 0, [CR, CR], block[src0 + offset..] + rest, whole)
    ensures src0 <= src <= |block| && addAnotherEoln <= 1 && eoln == !crcr
    ensures crcr ==> src == |block| && Owes(out, textEOLN, 0, [CR, CR], rest, whole)
    ensures eoln ==> Owes(out, textEOLN, 1 + addAnotherEoln, [], block[src..] + rest, whole)
  {
    src, crcr, addAnotherEoln := src0, false, 0;
    ghost var t := block[src + offset..] + rest;
    if src + offset < |block| {
      if block[src + offset] == LF {
        src := src + 1 + offset;
        assert [CR, CR] + t == [CR, CR, LF] + (block[src..] + rest);
        OwesEolns(out, textEOLN, [CR, CR], t, [CR, CR, LF], 1, block[src..] + rest, whole);
      } else {
        addAnotherEoln := addAnotherEoln + 1;
        src := src + offset;
        OwesEolns(out, textEOLN, [CR, CR], t, [CR, CR], 2, t, whole);
      }
    } else {
      crcr := true;
      src := src + 1;
      assert t == rest;
    }
    eoln := !crcr;
  }

  /** The have_char_after_cr label: one CR is taken and block[src0] is the octet after it. */
  method HaveCharAfterCR(block: seq<byte>, src0: nat,
                         ghost rest: seq<byte>, ghost out: seq<byte>, ghost textEOLN: seq<byte>, ghost whole: seq<byte>)
    returns (eoln: bool, src: nat, crcr: bool, addAnotherEoln: nat)
    requires src0 < |block|
    requires Owes(out, textEOLN, 0, [CR], block[src0..] + rest, whole)
    ensures src0 <= src <= |block| && addAnotherEoln <= 1 && eoln == !crcr
    ensures crcr ==> src == |block| && Owes(out, textEOLN, 0, [CR, CR], rest, whole)
    ensures eoln ==> Owes(out, textEOLN, 1 + addAnotherEoln, [], block[src..] + rest, whole)
  {
    src, crcr, addAnotherEoln, eoln := src0, false, 0, true;
    ghost var t := block[src..] + rest;
    if block[src] == LF {
      src := src + 1;
      assert [CR] + t == [CR, LF] + (block[src..] + rest);
      OwesEolns(out, textEOLN, [CR], t, [CR, LF], 1, block[src..] + rest, whole);
    } else if block[src] == CR {
      assert [CR] + t == [CR, CR] + (block[src + 1..] + rest);
      eoln, src, crcr, addAnotherEoln := HaveCharAfterCRCR(block, src, 1, rest, out, textEOLN, whole);
    } else {
      OwesEolns(out, textEOLN, [CR], t, [CR], 1, t, whole);
    }
  }

  /** What the head of the loop decides: add line ends, copy one ordinary octet, or (neither)
      carry a CR over the end of the block. */
  method ScanHead(block: seq<byte>, src0: nat, cr0: bool, crcr0: bool,
                  ghost rest: seq<byte>, ghost out: seq<byte>, ghost textEOLN: seq<byte>, ghost whole: seq<byte>)
    returns (eoln: bool, copy: bool, src: nat, cr: bool, crcr: bool, addAnotherEoln: nat)
    requires src0 < |block| && !(cr0 && crcr0)
    requires Owes(out, textEOLN, 0, Carried(cr0, crcr0), block[src0..] + rest, whole)
    ensures src0 <= src <= |block| && addAnotherEoln <= 1 && !(cr && crcr)
    ensures eoln ==> !copy && !cr && !crcr && (src > src0 || cr0 || crcr0)
                     && Owes(out, textEOLN, 1 + addAnotherEoln, [], block[src..] + rest, whole)
    ensures copy ==> src == src0 && !cr && !crcr && block[src] != CR && block[src] != LF
                     && Owes(out, textEOLN, 0, [], block[src..] + rest, whole)
    ensures !eoln && !copy ==> src == |block| && Owes(out, textEOLN, 0, Carried(cr, crcr), rest, whole)
  {
    eoln, copy, src, cr, crcr, addAnotherEoln := false, false, src0, false, false, 0;
    ghost var s := block[src..] + rest;
    if crcr0 {
      eoln, src, crcr, addAnotherEoln := HaveCharAfterCRCR(block, src, 0, rest, out, textEOLN, whole);
    } else if cr0 {
      eoln, src, crcr, addAnotherEoln := HaveCharAfterCR(block, src, rest, out, textEOLN, whole);
    } else if block[src] == LF {
      src := src + 1;
      eoln := true;
      assert [] + s == [LF] + (block[src..] + rest);
      OwesEolns(out, textEOLN, [], s, [LF], 1, block[src..] + rest, whole);
    } else if block[src] == CR {
      src := src + 1;
      assert [] + s == [CR] + (block[src..] + rest);
      if src < |block| {
        eoln, src, crcr, addAnotherEoln := HaveCharAfterCR(block, src, rest, out, textEOLN, whole);
      } else {
        assert block[src..] + rest == rest;
        cr := true;
      }
    } else {
      copy := true;
    }
  }

  lemma PaidEolns(out: seq<byte>, textEOLN: seq<byte>, n: nat, s: seq<byte>, whole: seq<byte>)
    requires Owes(out, textEOLN, n, [], s, whole)
    ensures Owes(out + Eolns(textEOLN, n), textEOLN, 0, [], s, whole)
    ensures out + Eolns(textEOLN, n) <= whole
  {
    var d := Decode([] + s, textEOLN);
    assert out + (Eolns(textEOLN, n) + d) == (out + Eolns(textEOLN, n)) + d;
    assert Eolns(textEOLN, 0) + d == d;
  }

  lemma PaidChar(out: seq<byte>, textEOLN: seq<byte>, s: seq<byte>, t: seq<byte>, whole: seq<byte>)
    requires s != [] && s[0] != CR && s[0] != LF && s[1..] == t
    requires Owes(out, textEOLN, 0, [], s, whole)
    ensures Owes(out + [s[0]], textEOLN, 0, [], t, whole)
  {
    assert [] + s == s && [] + t == t;
    assert out + ([s[0]] + Decode(t, textEOLN)) == (out + [s[0]]) + Decode(t, textEOLN);
    assert Eolns(textEOLN, 0) + Decode(s, textEOLN) == Decode(s, textEOLN);
    assert Eolns(textEOLN, 0) + Decode(t, textEOLN) == Decode(t, textEOLN);
  }

  /** One turn of the translation loop. */
  method TranslateStep(w: Writer, block: seq<byte>, src0: nat, cr0: bool, crcr0: bool, ghost rest: seq<byte>, ghost whole: seq<byte>)
    returns (ok: bool, src: nat, cr: bool, crcr: bool)
    requires w.Valid() && src0 < |block| && !(cr0 && crcr0)
    requires Owes(w.Out(), w.textEOLN, 0, Carried(cr0, crcr0), block[src0..] + rest, whole)
    modifies w, w.outbuf, w.file
    ensures w.Valid() && w.Capacity() == old(w.Capacity())
    ensures src0 <= src <= |block| && !(cr && crcr)
    ensures ok && src == src0 ==> (cr0 || crcr0) && !cr && !crcr
    ensures ok ==> Owes(w.Out(), w.textEOLN, 0, Carried(cr, crcr), block[src..] + rest, whole)
    ensures !ok ==> w.Overflowed(whole)
  {
    src, cr, crcr := src0, cr0, crcr0;
    ghost var out := w.Out();
    ok := true;
    if w.dst >= OUTBUF_SIZE {
      ok := w.Flush();
      if !ok {
        return;
      }
    }
    var addEoln, copy, again;
    addEoln, copy, src, cr, crcr, again := ScanHead(block, src, cr, crcr, rest, out, w.textEOLN, whole);
    if copy {
      PaidChar(out, w.textEOLN, block[src..] + rest, block[src + 1..] + rest, whole);
      w.Put(block[src]);
      src := src + 1;
    } else if addEoln {
      PaidEolns(out, w.textEOLN, 1 + again, block[src..] + rest, whole);
      ok := w.PutEoln(again);
    } else {
      assert block[src..] + rest == rest;
    }
  }

  /** One block through the translation loop. Whatever follows (`rest`), what is on disk, what
      is carried and what follows still add up to `whole`. */
  method TranslateBlock(w: Writer, block: seq<byte>, cr0: bool, crcr0: bool, ghost rest: seq<byte>, ghost whole: seq<byte>)
    returns (ok: bool, cr: bool, crcr: bool)
    requires w.Valid() && w.dst == 0
    requires !(cr0 && crcr0)
    requires Owes(w.Out(), w.textEOLN, 0, Carried(cr0, crcr0), block + rest, whole)
    modifies w, w.outbuf, w.file
    ensures w.Valid() && w.Capacity() == old(w.Capacity())
    ensures !(cr && crcr)
    ensures ok ==> w.dst == 0 && Owes(w.Out(), w.textEOLN, 0, Carried(cr, crcr), rest, whole)
    ensures !ok ==> w.Overflowed(whole)
  {
    var src: nat := 0;
    ok, cr, crcr := true, cr0, crcr0;
    assert block[src..] + rest == block + rest;
    while src < |block|
      invariant w.Valid() && w.Capacity() == old(w.Capacity())
      invariant src <= |block| && !(cr && crcr)
      invariant Owes(w.Out(), w.textEOLN, 0, Carried(cr, crcr), block[src..] + rest, whole)
      decreases |block| - src, if cr || crcr then 1 else 0
    {
      ok, src, cr, crcr := TranslateStep(w, block, src, cr, crcr, rest, whole);
      if !ok {
        return;
      }
    }
    assert block[src..] + rest == rest;
    if w.dst > 0 {
      ok := w.Flush();
    }
  }

  /** The epilogue: a carried CR is one line end, a carried CR CR two. */
  method WriteCarried(w: Writer, cr0: bool, crcr0: bool, ghost whole: seq<byte>) returns (ok: bool)
    requires w.Valid() && w.dst == 0 && !(cr0 && crcr0)
    requires Owes(w.Out(), w.textEOLN, 0, Carried(cr0, crcr0), [], whole)
    modifies w.file
    ensures w.Valid() && w.Capacity() == old(w.Capacity())
    ensures ok ==> w.file.contents == whole
    ensures !ok ==> w.Overflowed(whole)
  {
    var cr: nat := if crcr0 then 2 else if cr0 then 1 else 0;
    assert Eolns(w.textEOLN, cr) == Decode(Carried(cr0, crcr0) + [], w.textEOLN) by {
      assert Carried(cr0, crcr0) + [] == Carried(cr0, crcr0);
      assert Eolns(w.textEOLN, 0) == [] && Eolns(w.textEOLN, 1) == w.textEOLN;
    }
    ghost var out := w.file.contents;
    assert w.Out() == out && out + Eolns(w.textEOLN, cr) == whole;
    while cr > 0
      invariant w.Valid() && w.dst == 0 && w.Capacity() == old(w.Capacity())
      invariant w.file.contents == out && out + Eolns(w.textEOLN, cr) == whole
    {
      cr := cr - 1;
      EolnsStep(out, w.textEOLN, cr);
      var nwrote := w.file.PWrite(w.textEOLN);
      if nwrote != |w.textEOLN| {
        return false;
      }
      out := out + w.textEOLN;
    }
    ok := true;
  }

  /** The ASCII branch of FTPGetOneF. For every way the stream can be cut into reads, and however
      the receive loop ends, the file receives the decoding of exactly the octets that arrived,
      cut short only by a full disk. */
  method ReceiveAscii(events: seq<Event>, file: OutputFile, textEOLN: seq<byte>) returns (result: int, bytesTransferred: nat)
    requires 1 <= |textEOLN| <= 2
    modifies file
    ensures var text := Decode(Arrived(events), textEOLN);
            if |text| <= old(file.room)
            then result == Ending(events) && file.contents == old(file.contents) + text && bytesTransferred == |Arrived(events)|
            else result == K_ERR_WRITE_FAILED && file.contents == old(file.contents) + text[..old(file.room)]
  {
    var w := new Writer(file, textEOLN);
    ghost var text := Decode(Arrived(events), textEOLN);
    ghost var whole := file.contents + text;
    assert [] + Arrived(events) == Arrived(events) && [] + text == text;
    var cr, crcr, ok;
    ok, cr, crcr, result, bytesTransferred := ReceiveBlocks(w, events, whole);
    if ok {
      ok := WriteCarried(w, cr, crcr, whole);
    }
    if !ok {
      result := K_ERR_WRITE_FAILED;
    }
  }

  /** The receive loop; `ok` is false when the disk is full. */
  method ReceiveBlocks(w: Writer, events: seq<Event>, ghost whole: seq<byte>)
    returns (ok: bool, cr: bool, crcr: bool, result: int, bytesTransferred: nat)
    requires w.Valid() && w.dst == 0 && Owes(w.Out(), w.textEOLN, 0, [], Arrived(events), whole)
    modifies w, w.outbuf, w.file
    ensures w.Valid() && w.Capacity() == old(w.Capacity())
    ensures ok ==> w.dst == 0 && !(cr && crcr) && Owes(w.Out(), w.textEOLN, 0, Carried(cr, crcr), [], whole)
    ensures ok ==> result == Ending(events) && bytesTransferred == |Arrived(events)|
    ensures !ok ==> w.Overflowed(whole)
  {
    ok, cr, crcr := true, false, false;
    result, bytesTransferred := K_NO_ERR, 0;
    var i: nat := 0;
    ghost var todo := events;
    while i < |events|
      invariant i <= |events| && todo == events[i..] && w.Valid() && w.dst == 0 && w.Capacity() == old(w.Capacity())
      invariant ok && !(cr && crcr) && result == K_NO_ERR && Ending(todo) == Ending(events)
      invariant Owes(w.Out(), w.textEOLN, 0, Carried(cr, crcr), Arrived(todo), whole)
      invariant bytesTransferred + |Arrived(todo)| == |Arrived(events)|
    {
      match events[i] {
        case Received(block) =>
          if block == [] {
            break;
          }
          ok, cr, crcr := TranslateBlock(w, block, cr, crcr, Arrived(todo[1..]), whole);
          if !ok {
            return;
          }
          bytesTransferred := bytesTransferred + |block|;
        case Interrupted =>
        case Lost =>
          result := K_ERR_SOCKET_READ_FAILED;
          break;
        case TimedOut =>
          result := K_ERR_DATA_TIMED_OUT;
          break;
        case Canceled =>
          result := K_ERR_DATA_TRANSFER_ABORTED;
          break;
      }
      todo := todo[1..];
      i := i + 1;
    }
    assert Arrived(todo) == [];
  }
}
