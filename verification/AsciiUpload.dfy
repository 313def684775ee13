/** The ASCII branch of FTPPutOneF: blocks of at most 256 octets are read, translated into the
    transfer buffer and sent, holding back a CR that ends a block. */
module AsciiUpload {
  import opened Bytes
  import opened Eoln
  import opened Errors
  import opened LocalFiles

  const INBUF_SIZE := 256

  /** The sending side of a data connection. Waiting for it may time out or end in a cancellation; a
      write may take fewer octets than offered, time out or fail; nothing of that but short writes happens on a
      smooth one. */
  class DataSocket {
    const smooth: bool
    var sent: seq<byte>

    /** WaitForRemoteOutput, and the look at cancelXfer behind it. */
    method WaitForOutput() returns (result: int)
      ensures result == K_NO_ERR || result == K_ERR_DATA_TIMED_OUT || result == K_ERR_DATA_TRANSFER_ABORTED
      ensures smooth ==> result == K_NO_ERR
    {
      var timedOut, canceled := *, *;
      result := if smooth then K_NO_ERR else if timedOut then K_ERR_DATA_TIMED_OUT else if canceled then K_ERR_DATA_TRANSFER_ABORTED else K_NO_ERR;
    }

    constructor (smooth: bool)
      ensures sent == [] && this.smooth == smooth
    {
      this.smooth, sent := smooth, [];
    }

    method SWrite(data: seq<byte>) returns (nwrote: int)
      requires data != []
      modifies this
      ensures nwrote < 0 ==> sent == old(sent) && !smooth
      ensures nwrote >= 0 ==> 0 < nwrote <= |data| && sent == old(sent) + data[..nwrote]
    {
      var broken := *;
      if broken && !smooth {
        return -1;
      }
      var n :| 1 <= n <= |data|;
      sent := sent + data[..n];
      nwrote := n;
    }
  }

  /** What sending a block may come to. */
  predicate Sendable(result: int) {
    result == K_NO_ERR || SendFailure(result)
  }

  predicate SendFailure(result: int) {
    result == K_ERR_SOCKET_WRITE_FAILED || result == K_ERR_DATA_TIMED_OUT || result == K_ERR_DATA_TRANSFER_ABORTED
  }

  /** FTPPutBlock: writes until the whole block is gone, a write fails, time runs out or the user
      cancels. (The caller then aborts the transfer.) */
  method PutBlock(sock: DataSocket, block: seq<byte>) returns (result: int)
    requires block != []
    modifies sock
    ensures Sendable(result) && (sock.smooth ==> result == K_NO_ERR)
    ensures result == K_NO_ERR ==> sock.sent == old(sock.sent) + block
    ensures result != K_NO_ERR ==> old(sock.sent) <= sock.sent < old(sock.sent) + block
  {
    var cp: nat := 0;
    while cp < |block|
      invariant cp <= |block|
      invariant sock.sent == old(sock.sent) + block[..cp]
    {
      result := sock.WaitForOutput();
      if result != K_NO_ERR {
        return;
      }
      var nwrote := sock.SWrite(block[cp..]);
      if nwrote < 0 {
        var timedOut := *;
        return if timedOut then K_ERR_DATA_TIMED_OUT else K_ERR_SOCKET_WRITE_FAILED;
      }
      assert block[..cp] + block[cp..][..nwrote] == block[..cp + nwrote];
      cp := cp + nwrote;
    }
    result := K_NO_ERR;
  }

  /** A text without the CR it may end in. */
  function Held(s: seq<byte>): seq<byte> {
    if s != [] && s[|s| - 1] == CR then s[..|s| - 1] else s
  }

  /** What one block adds to the stream, `prevCR` telling of a CR held back before it. */
  function BlockCode(prevCR: bool, block: seq<byte>): seq<byte>
    requires Held(block) != []
  {
    (if prevCR && block[0] != LF then [CR, LF] else []) + Encode(Held(block))
  }

  lemma HeldSplits(s: seq<byte>)
    ensures EndsInCR(s) ==> s == Held(s) + [CR] && Encode(s) == Encode(Held(s)) + [CR, LF]
    ensures !EndsInCR(s) ==> Held(s) == s
  {
    if EndsInCR(s) {
      EncodeSplit(Held(s), [CR]);
      assert Encode([CR]) == [CR, LF] + Encode([]);
    }
  }

  /** Translating block by block, one CR in hand, is translating the whole. */
  lemma BlockStep(done: seq<byte>, block: seq<byte>)
    requires block != [] && !LoneCR(block)
    ensures Held(block) != []
    ensures Encode(Held(done + block)) == Encode(Held(done)) + BlockCode(EndsInCR(done), block)
  {
    HeldFront(done, block);
    StepCode(done, Held(block));
  }

  lemma HeldFront(done: seq<byte>, block: seq<byte>)
    requires block != [] && !LoneCR(block)
    ensures Held(block) != [] && Held(block)[0] == block[0] && Held(done + block) == done + Held(block)
  {
  }

  lemma StepCode(done: seq<byte>, front: seq<byte>)
    requires front != []
    ensures Encode(done + front)
         == Encode(Held(done)) + ((if EndsInCR(done) && front[0] != LF then [CR, LF] else []) + Encode(front))
  {
    HeldSplits(done);
    var held := Encode(Held(done));
    if !EndsInCR(done) {
      EncodeSplit(done, front);
      assert [] + Encode(front) == Encode(front);
    } else if front[0] != LF {
      EncodeSplit(done, front);
      Associate(held, [CR, LF], Encode(front));
    } else {
      EncodeSplitCRLF(done, front);
      Associate(held, [CR, LF], Encode(front[1..]));
      assert [] + Encode(front) == Encode(front);
    }
  }

  /** An n-octet block needs at most 2n+1 octets of the transfer buffer. */
  lemma BlockCodeBound(prevCR: bool, block: seq<byte>)
    requires Held(block) != []
    ensures |BlockCode(prevCR, block)| <= 2 * |block| + 1
  {
    EncodeAtMostDoubles(Held(block));
  }

  /** ... and the odd octet is needed: twice the block size is not enough. */
  lemma BlockCodeBoundIsTight(n: nat)
    requires n > 0
    ensures exists block :: |block| == n && Held(block) != [] && |BlockCode(true, block)| == 2 * n + 1
  {
    var block := [0] + Eolns([LF], n - 1);
    ManyLFs(n - 1);
    assert block[1..] == Eolns([LF], n - 1);
    assert Held(block) == block;
    assert |BlockCode(true, block)| == 2 * n + 1;
  }

  lemma {:induction false} ManyLFs(n: nat)
    ensures |Eolns([LF], n)| == n && (forall i :: 0 <= i < n ==> Eolns([LF], n)[i] == LF)
    ensures |Encode(Eolns([LF], n))| == 2 * n
  {
    if n > 0 {
      ManyLFs(n - 1);
      assert Eolns([LF], n)[1..] == Eolns([LF], n - 1);
    }
  }

  /** What the next turn of the translation loop has to store at `dst`. */
  lemma EncodeTail(code: seq<byte>, dst: nat, tail: seq<byte>)
    requires dst <= |code| && tail != [] && code[dst..] == Encode(tail)
    ensures tail[0] != CR && tail[0] != LF ==>
              dst < |code| && code[dst] == tail[0] && code[dst + 1..] == Encode(tail[1..])
    ensures tail[0] == CR || tail[0] == LF ==>
              dst + 1 < |code| && code[dst] == CR && code[dst + 1] == LF
              && code[dst + 2..] == Encode(if tail[0] == CR && |tail| > 1 && tail[1] == LF then tail[2..] else tail[1..])
  {
    var rest := code[dst..];
    assert forall i :: 0 <= i < |rest| ==> rest[i] == code[dst + i];
    if tail[0] == CR || tail[0] == LF {
      assert rest[2..] == code[dst + 2..];
    } else {
      assert rest[1..] == code[dst + 1..];
    }
  }

  /** The translation loop proper, from `src0` up to `srclim`. The octet at `srclim` is looked at
      when a CR stands before it, and is not an LF there. */
  method TranslateLoop(inbuf: array<byte>, src0: nat, srclim: nat, buf: array<byte>, dst0: nat, ghost code: seq<byte>)
    returns (dst: nat)
    requires inbuf != buf && src0 <= srclim <= inbuf.Length && dst0 <= |code| <= buf.Length
    requires src0 < srclim && inbuf[srclim - 1] == CR ==> srclim < inbuf.Length && inbuf[srclim] != LF
    requires buf[..dst0] == code[..dst0] && code[dst0..] == Encode(inbuf[src0..srclim])
    modifies buf
    ensures dst == |code| && buf[..dst] == code
  {
    var src := src0;
    dst := dst0;
    ghost var tail := inbuf[src..srclim];
    while src < srclim
      invariant src0 <= src <= srclim && dst <= |code| && buf[..dst] == code[..dst]
      invariant tail == inbuf[src..srclim] && code[dst..] == Encode(tail)
    {
      src, dst, tail := TranslateOne(inbuf, src, srclim, buf, dst, code, tail);
    }
    assert code[..dst] == code;
  }

  /** One turn of the loop. */
  method TranslateOne(inbuf: array<byte>, src0: nat, srclim: nat, buf: array<byte>, dst0: nat, ghost code: seq<byte>, ghost tail0: seq<byte>)
    returns (src: nat, dst: nat, ghost tail: seq<byte>)
    requires inbuf != buf && src0 < srclim <= inbuf.Length && dst0 <= |code| <= buf.Length
    requires inbuf[srclim - 1] == CR ==> srclim < inbuf.Length && inbuf[srclim] != LF
    requires buf[..dst0] == code[..dst0] && tail0 == inbuf[src0..srclim] && code[dst0..] == Encode(tail0)
    modifies buf
    ensures src0 < src <= srclim && dst <= |code| && buf[..dst] == code[..dst]
    ensures tail == inbuf[src..srclim] && code[dst..] == Encode(tail)
  {
    EncodeTail(code, dst0, tail0);
    if inbuf[src0] == CR {
      if inbuf[src0 + 1] == LF {
        dst := StoreTwo(buf, dst0, inbuf[src0], inbuf[src0 + 1], code);
        src, tail := src0 + 2, tail0[2..];
      } else {
        dst := StoreTwo(buf, dst0, inbuf[src0], LF, code);
        src, tail := src0 + 1, tail0[1..];
      }
    } else if inbuf[src0] == LF {
      dst := StoreTwo(buf, dst0, CR, inbuf[src0], code);
      src, tail := src0 + 1, tail0[1..];
    } else {
      buf[dst0] := inbuf[src0];
      assert code[..dst0 + 1] == code[..dst0] + [code[dst0]];
      src, dst, tail := src0 + 1, dst0 + 1, tail0[1..];
    }
  }

  /** *dst++ = x; *dst++ = y; */
  method StoreTwo(buf: array<byte>, dst: nat, x: byte, y: byte, ghost code: seq<byte>) returns (dst': nat)
    requires dst + 1 < |code| <= buf.Length && buf[..dst] == code[..dst] && code[dst] == x && code[dst + 1] == y
    modifies buf
    ensures dst' == dst + 2 && buf[..dst'] == code[..dst']
  {
    buf[dst], buf[dst + 1] := x, y;
    dst' := dst + 2;
    assert code[..dst'] == code[..dst] + [x, y];
  }

  /** Translates inbuf[..nread], whose last octet is overwritten when it is a CR, into `buf`. */
  method TranslateBlock(inbuf: array<byte>, nread: nat, prevCR: bool, buf: array<byte>) returns (ntowrite: nat)
    requires inbuf != buf && 0 < nread <= inbuf.Length && buf.Length >= 2 * nread + 1
    requires !LoneCR(inbuf[..nread])
    modifies inbuf, buf
    ensures Held(old(inbuf[..nread])) != []
    ensures 0 < ntowrite <= buf.Length && buf[..ntowrite] == BlockCode(prevCR, old(inbuf[..nread]))
  {
    ghost var block := inbuf[..nread];
    ghost var front := Held(block);
    ghost var code := BlockCode(prevCR, block);
    BlockCodeBound(prevCR, block);
    var srclim := nread;
    if inbuf[srclim - 1] == CR {
      inbuf[srclim - 1] := 0;
      srclim := srclim - 1;
    }
    assert front == inbuf[..srclim] && 0 < srclim;
    var src, dst := 0, 0;
    if inbuf[0] == LF {
      src := 1;
      buf[0], buf[1] := CR, LF;
      dst := 2;
      assert front[1..] == inbuf[1..srclim];
    } else if prevCR {
      buf[0], buf[1] := CR, LF;
      dst := 2;
    }
    ntowrite := TranslateLoop(inbuf, src, srclim, buf, dst, code);
  }

  // ---- the whole upload ----

  predicate LoneCR(block: seq<byte>) {
    |block| == 1 && block[0] == CR
  }

  /** The loop was left because a read returned nothing but a CR. */
  ghost predicate StoppedEarly(blocks: Blocks) {
    blocks.Then? && LoneCR(blocks.last)
  }

  /** What has been sent when the loop and the final CR LF are done, by the blocks read. */
  ghost function SentFor(blocks: Blocks): seq<byte> {
    if StoppedEarly(blocks) && EndsInCR(blocks.before.Joined())
    then Encode(blocks.before.Joined())
    else Encode(blocks.Joined())
  }

  /** The final CR LF stands for the CR in hand; after an early stop that is one CR at most. */
  lemma LoopLeft(blocks: Blocks)
    ensures var front := if StoppedEarly(blocks) then blocks.before.Joined() else blocks.Joined();
            if StoppedEarly(blocks) || EndsInCR(front) then Encode(Held(front)) + [CR, LF] == SentFor(blocks)
            else Encode(Held(front)) == SentFor(blocks)
  {
    if StoppedEarly(blocks) {
      var front := blocks.before.Joined();
      assert blocks.last == [CR];
      HeldSplits(front);
      if !EndsInCR(front) {
        HeldSplits(front + [CR]);
        assert Held(front + [CR]) == front;
      }
    } else {
      HeldSplits(blocks.Joined());
    }
  }

  lemma SentSoFar(base: seq<byte>, data: seq<byte>, start: nat, pos: nat, done: seq<byte>)
    requires start <= pos <= |data| && done == data[start..pos]
    ensures base + Encode(Held(done)) <= base + Encode(done) <= base + Encode(data[start..])
  {
    HeldSplits(done);
    EncodePrefix(done, data[pos..]);
    assert done + data[pos..] == data[start..];
  }

  lemma WithoutLast(data: seq<byte>, start: nat, pos: nat, front: seq<byte>)
    requires start <= pos <= |data| && data[start..pos] == front + [CR]
    ensures start < pos && front == data[start..pos - 1]
  {
    assert pos - start == |front| + 1;
    assert data[start..pos][..|front|] == data[start..pos - 1];
  }

  lemma SentInTheEnd(base: seq<byte>, data: seq<byte>, start: nat, pos: nat, blocks: Blocks)
    requires ReadAs(data, start, pos, blocks)
    ensures base + SentFor(blocks) <= base + Encode(data[start..])
  {
    if StoppedEarly(blocks) && EndsInCR(blocks.before.Joined()) {
      assert blocks.last == [CR];
      WithoutLast(data, start, pos, blocks.before.Joined());
      SentSoFar(base, data, start, pos - 1, blocks.before.Joined());
    } else {
      SentSoFar(base, data, start, pos, blocks.Joined());
    }
  }

  method CopyIn(block: seq<byte>, inbuf: array<byte>)
    requires |block| <= inbuf.Length
    modifies inbuf
    ensures inbuf[..|block|] == block
  {
    forall i | 0 <= i < |block| { inbuf[i] := block[i]; }
  }

  /** One block: into `inbuf`, through the translation, out to the socket. */
  method SendBlock(block: seq<byte>, prevCR: bool, inbuf: array<byte>, buf: array<byte>, sock: DataSocket,
                   ghost done: seq<byte>, ghost base: seq<byte>)
    returns (result: int, lastCR: bool)
    requires inbuf != buf && inbuf.Length == INBUF_SIZE && buf.Length >= 2 * INBUF_SIZE + 1
    requires 0 < |block| <= INBUF_SIZE && !LoneCR(block) && prevCR == EndsInCR(done)
    modifies inbuf, buf, sock
    ensures Sendable(result) && (sock.smooth ==> result == K_NO_ERR)
    ensures lastCR == EndsInCR(done + block)
    requires sock.sent == base + Encode(Held(done))
    ensures result == K_NO_ERR ==> sock.sent == base + Encode(Held(done + block))
    ensures old(sock.sent) <= sock.sent <= base + Encode(Held(done + block))
  {
    CopyIn(block, inbuf);
    BlockStep(done, block);
    lastCR := block[|block| - 1] == CR;
    var ntowrite := TranslateBlock(inbuf, |block|, prevCR, buf);
    result := PutBlock(sock, buf[..ntowrite]);
    Associate(base, Encode(Held(done)), BlockCode(prevCR, block));
  }

  /** `blocks` is how the octets from `start` to `pos` were read; only the last can be a lone CR. */
  ghost predicate ReadAs(data: seq<byte>, start: nat, pos: nat, blocks: Blocks) {
    && start <= pos <= |data|
    && blocks.Joined() == data[start..pos]
    && ReadSizes(blocks)
  }

  ghost predicate ReadSizes(blocks: Blocks) {
    blocks.Then? ==>
      0 < |blocks.last| <= INBUF_SIZE && ReadSizes(blocks.before) && !StoppedEarly(blocks.before)
  }

  lemma ReadOneMore(data: seq<byte>, start: nat, pos: nat, blocks: Blocks, block: seq<byte>)
    requires ReadAs(data, start, pos, blocks) && !StoppedEarly(blocks)
    requires 0 < |block| <= INBUF_SIZE && pos + |block| <= |data| && block == data[pos..pos + |block|]
    ensures ReadAs(data, start, pos + |block|, Then(blocks, block))
  {
    assert data[start..pos] + block == data[start..pos + |block|];
  }

  /** After the loop: a CR in hand becomes one last CR LF. */
  method SendFinal(prevCR: bool, sock: DataSocket, ghost blocks: Blocks, ghost base: seq<byte>, ghost done: seq<byte>) returns (pbrc: int)
    requires done == (if StoppedEarly(blocks) then blocks.before.Joined() else blocks.Joined())
    requires prevCR == (StoppedEarly(blocks) || EndsInCR(done))
    requires sock.sent == base + Encode(Held(done))
    modifies sock
    ensures Sendable(pbrc) && (sock.smooth ==> pbrc == K_NO_ERR)
    ensures old(sock.sent) <= sock.sent <= base + SentFor(blocks)
    ensures pbrc == K_NO_ERR ==> sock.sent == base + SentFor(blocks)
  {
    LoopLeft(blocks);
    Associate(base, Encode(Held(done)), [CR, LF]);
    pbrc := K_NO_ERR;
    if prevCR {
      pbrc := PutBlock(sock, [CR, LF]);
    }
  }

  /** Where the upload loop stands: the CR-free part of what was read has been sent. */
  ghost predicate Sending(file: InputFile, sock: DataSocket, start: nat, base: seq<byte>, blocks: Blocks, done: seq<byte>, prevCR: bool)
    reads file, sock
  {
    && file.Valid() && ReadAs(file.data, start, file.pos, blocks)
    && done == (if StoppedEarly(blocks) then blocks.before.Joined() else blocks.Joined())
    && prevCR == (StoppedEarly(blocks) || EndsInCR(done))
    && sock.sent == base + Encode(Held(done))
  }

  /** One read, recorded. */
  method ReadBlock(file: InputFile, ghost start: nat, ghost blocks: Blocks) returns (nread: int, block: seq<byte>)
    requires file.Valid() && ReadAs(file.data, start, file.pos, blocks) && !StoppedEarly(blocks)
    modifies file
    ensures file.Valid() && file.pos >= old(file.pos)
    ensures nread < 0 ==> !file.healthy && file.pos == old(file.pos)
    ensures nread == 0 ==> file.pos == old(file.pos) == |file.data|
    ensures nread > 0 ==> 0 < |block| <= INBUF_SIZE && file.pos > old(file.pos) && ReadAs(file.data, start, file.pos, Then(blocks, block))
    ensures nread > 0 ==> BlocksFrom(file, old(file.pos), blocks) ==
                          (if LoneCR(block) then Then(blocks, block) else BlocksFrom(file, file.pos, Then(blocks, block)))
  {
    ghost var pos := file.pos;
    nread, block := file.Read(INBUF_SIZE);
    if nread > 0 {
      ReadOneMore(file.data, start, pos, blocks, block);
      NextBlock(file, pos, blocks, block);
    }
  }

  lemma NextBlock(file: InputFile, pos: nat, acc: Blocks, block: seq<byte>)
    requires pos < |file.data| && |block| == file.Chunk(pos, INBUF_SIZE) && block == file.data[pos..pos + |block|]
    ensures BlocksFrom(file, pos, acc) ==
            if LoneCR(block) then Then(acc, block) else BlocksFrom(file, pos + |block|, Then(acc, block))
  {
  }

  /** The blocks the loop reads from an offset on, those in `acc` having been read before. */
  ghost function BlocksFrom(file: InputFile, pos: nat, acc: Blocks): (blocks: Blocks)
    requires pos <= |file.data|
    ensures pos + |blocks.Joined()| <= |file.data| + |acc.Joined()|
    decreases |file.data| - pos
  {
    if pos == |file.data| then acc
    else
      var n := file.Chunk(pos, INBUF_SIZE);
      var block := file.data[pos..pos + n];
      if LoneCR(block) then Then(acc, block) else BlocksFrom(file, pos + n, Then(acc, block))
  }

  /** They are the file from there on, up to a lone CR; those of a regular file are full. */
  lemma {:induction false} BlocksAreRead(file: InputFile, start: nat, pos: nat, acc: Blocks)
    requires ReadSoFar(file, start, pos, acc) && !StoppedEarly(acc)
    ensures AllRead(file, start, BlocksFrom(file, pos, acc))
    decreases |file.data| - pos
  {
    if pos == |file.data| {
      AllReadNow(file, start, pos, acc);
    } else {
      var n := file.Chunk(pos, INBUF_SIZE);
      var next := Then(acc, file.data[pos..pos + n]);
      ChunkIsRead(file, start, pos, acc, n);
      NextChunk(file, pos, acc);
      if StoppedEarly(next) {
        AllReadNow(file, start, pos + n, next);
      } else {
        BlocksAreRead(file, start, pos + n, next);
      }
    }
  }

  lemma NextChunk(file: InputFile, pos: nat, acc: Blocks)
    requires pos < |file.data|
    ensures var n := file.Chunk(pos, INBUF_SIZE); var next := Then(acc, file.data[pos..pos + n]);
      BlocksFrom(file, pos, acc) == if StoppedEarly(next) then next else BlocksFrom(file, pos + n, next)
  {
  }

  lemma AllReadNow(file: InputFile, start: nat, pos: nat, blocks: Blocks)
    requires ReadSoFar(file, start, pos, blocks) && (StoppedEarly(blocks) || pos == |file.data|)
    ensures AllRead(file, start, blocks)
  {
    assert |blocks.Joined()| == pos - start;
  }

  ghost predicate AllRead(file: InputFile, start: nat, blocks: Blocks) {
    var end := start + |blocks.Joined()|;
    ReadSoFar(file, start, end, blocks) && (StoppedEarly(blocks) || end == |file.data|)
  }

  ghost predicate ReadSoFar(file: InputFile, start: nat, pos: nat, acc: Blocks) {
    ReadAs(file.data, start, pos, acc) && (file.regular ==> RegularReads(file.data, pos, acc))
  }

  lemma ChunkIsRead(file: InputFile, start: nat, pos: nat, acc: Blocks, n: nat)
    requires ReadSoFar(file, start, pos, acc) && !StoppedEarly(acc) && pos < |file.data| && n == file.Chunk(pos, INBUF_SIZE)
    ensures var next := Then(acc, file.data[pos..pos + n]);
      ReadSoFar(file, start, pos + n, next) && |next.Joined()| == pos + n - start
  {
    ReadOneMore(file.data, start, pos, acc, file.data[pos..pos + n]);
  }

  /** Only at the end of a regular file does a read come back short. */
  ghost predicate RegularReads(data: seq<byte>, pos: nat, blocks: Blocks) {
    blocks.Then? ==> AllFull(blocks.before) && (|blocks.last| == INBUF_SIZE || pos == |data|)
  }

  ghost predicate AllFull(blocks: Blocks) {
    blocks.Then? ==> |blocks.last| == INBUF_SIZE && AllFull(blocks.before)
  }

  /** The loop up to the end of the file, an early stop or a failure. */
  method SendBlocks(file: InputFile, sock: DataSocket, buf: array<byte>, ghost base: seq<byte>)
    returns (result: int, lost: bool, prevCR: bool, ghost blocks: Blocks, ghost done: seq<byte>)
    requires file.Valid() && buf.Length >= 2 * INBUF_SIZE + 1 && sock.sent == base
    modifies file, sock, buf
    ensures file.Valid() && ReadAs(file.data, old(file.pos), file.pos, blocks)
    ensures !lost ==> Sending(file, sock, old(file.pos), base, blocks, done, prevCR)
    ensures lost ==> !sock.smooth && SendFailure(result) && !StoppedEarly(blocks) && done == blocks.Joined()
                     && base <= sock.sent <= base + Encode(Held(done))
    ensures !lost ==> result == K_NO_ERR || (result == K_ERR_READ_FAILED && !file.healthy)
    ensures !lost && result == K_NO_ERR ==> blocks == BlocksFrom(file, old(file.pos), Start)
  {
    var inbuf := new byte[INBUF_SIZE](i => 0);
    result, lost, prevCR, blocks, done := K_NO_ERR, false, false, Start, [];
    ghost var start := file.pos;
    assert base + Encode([]) == base;
    while true
      invariant file.Valid() && ReadAs(file.data, start, file.pos, blocks) && !StoppedEarly(blocks)
      invariant done == blocks.Joined() && prevCR == EndsInCR(done) && sock.sent == base + Encode(Held(done))
      invariant result == K_NO_ERR && !lost
      invariant BlocksFrom(file, file.pos, blocks) == BlocksFrom(file, start, Start)
      decreases |file.data| - file.pos
    {
      var nread, block := ReadBlock(file, start, blocks);
      if nread < 0 {
        result := K_ERR_READ_FAILED;
        break;
      }
      if nread == 0 {
        break;
      }
      blocks := Then(blocks, block);
      if LoneCR(block) {
        prevCR := true;
        break;
      }
      result, prevCR := SendBlock(block, prevCR, inbuf, buf, sock, done, base);
      done := done + block;
      lost := result != K_NO_ERR;
      if lost {
        break;
      }
    }
  }

  /** An early stop loses something: the line end of a CR before the lone one, or octets after it other
      than the LF that belongs to it. */
  ghost predicate Lossy(blocks: Blocks, rest: seq<byte>) {
    StoppedEarly(blocks) && (EndsInCR(blocks.before.Joined()) || (rest != [] && rest != [LF]))
  }

  /** What the ASCII loop sends of a file from an offset on. */
  ghost function AsciiDue(file: InputFile, from: nat): seq<byte>
    requires from <= |file.data|
  {
    SentFor(BlocksFrom(file, from, Start))
  }

  /** That is not all there is to send: the reads lead to a lossy stop. */
  ghost predicate LosesText(file: InputFile, from: nat)
    requires from <= |file.data|
  {
    var blocks := BlocksFrom(file, from, Start);
    Lossy(blocks, file.data[from + |blocks.Joined()|..])
  }

  /** The ASCII branch of FTPPutOneF, from the current position of the file; a read that returns a lone CR
      ends the loop. */
  method SendAscii(file: InputFile, sock: DataSocket, buf: array<byte>) returns (result: int)
    requires file.Valid() && buf.Length >= 2 * INBUF_SIZE + 1
    modifies file, sock, buf
    ensures file.Valid()
    ensures result == K_NO_ERR ==> sock.sent == old(sock.sent) + AsciiDue(file, old(file.pos))
    ensures old(sock.sent) <= sock.sent <= old(sock.sent) + Encode(file.data[old(file.pos)..])
    ensures result == K_ERR_READ_FAILED ==> !file.healthy
    ensures result == K_ERR_READ_FAILED || Sendable(result)
    ensures sock.smooth && file.healthy ==> result == K_NO_ERR
  {
    ghost var base, start := sock.sent, file.pos;
    var lost, prevCR;
    ghost var blocks, done;
    result, lost, prevCR, blocks, done := SendBlocks(file, sock, buf, base);
    if lost {
      SentSoFar(base, file.data, start, file.pos, done);
      return;
    }
    var pbrc := SendFinal(prevCR, sock, blocks, base, done);
    SentInTheEnd(base, file.data, start, file.pos, blocks);
    if pbrc != K_NO_ERR {
      result := pbrc;
    }
  }

  /** What the loop sends is everything exactly when the reads do not lead to a lossy stop. */
  lemma AsciiUploadRightIff(file: InputFile, from: nat)
    requires from <= |file.data|
    ensures AsciiDue(file, from) <= Encode(file.data[from..])
    ensures AsciiDue(file, from) == Encode(file.data[from..]) <==> !LosesText(file, from)
  {
    var blocks := BlocksFrom(file, from, Start);
    assert file.data[from..from] == [];
    BlocksAreRead(file, from, from, Start);
    UploadCompleteIff(file.data, from, from + |blocks.Joined()|, blocks);
    SentInTheEnd([], file.data, from, from + |blocks.Joined()|, blocks);
    assert [] + SentFor(blocks) == SentFor(blocks) && [] + Encode(file.data[from..]) == Encode(file.data[from..]);
  }

  /** For a regular file that is a matter of its length and its end; for any file, of its CRs. */
  lemma LosesTextIff(file: InputFile, from: nat)
    requires from <= |file.data|
    ensures file.regular ==> (LosesText(file, from) <==> LosesLineEnd(file.data[from..]))
    ensures LosesText(file, from) ==> CR in file.data[from..]
  {
    var blocks := BlocksFrom(file, from, Start);
    assert file.data[from..from] == [];
    BlocksAreRead(file, from, from, Start);
    var end := from + |blocks.Joined()|;
    if file.regular {
      FullReadsUnique(file.data, from, end, blocks);
      AsciiUploadRightIff(file, from);
      RegularFileUpload(file.data[from..]);
    }
    if StoppedEarly(blocks) {
      assert blocks.last == [CR] && file.data[end - 1] == blocks.Joined()[|blocks.Joined()| - 1] == CR;
      assert file.data[from..][end - 1 - from] == CR;
    }
  }

  /** When a finished upload is complete: unless the loop stopped early after another CR, or with
      more than a single LF still unread. */
  lemma UploadCompleteIff(data: seq<byte>, start: nat, pos: nat, blocks: Blocks)
    requires ReadAs(data, start, pos, blocks)
    requires StoppedEarly(blocks) || pos == |data|
    ensures SentFor(blocks) == Encode(data[start..]) <==> !Lossy(blocks, data[pos..])
  {
    var rest := data[pos..];
    assert data[start..] == blocks.Joined() + rest;
    EncodePrefix(blocks.Joined(), rest);
    if StoppedEarly(blocks) {
      EarlyStop(blocks, rest);
    }
  }

  lemma EarlyStop(blocks: Blocks, rest: seq<byte>)
    requires StoppedEarly(blocks)
    ensures var front := blocks.before.Joined();
      blocks.Joined() == front + [CR] && Encode(front) != Encode(blocks.Joined() + rest)
  {
    var front := blocks.before.Joined();
    assert blocks.Joined() + rest == front + ([CR] + rest);
    assert ([CR] + rest)[0] == CR;
    EncodePrefix(front, [CR] + rest);
  }

  /** Where the last block starts when every read but the last is full. */
  function LastRead(data: seq<byte>): (m: nat)
    requires data != []
    ensures m < |data| <= m + INBUF_SIZE && m % INBUF_SIZE == 0
    ensures m == |data| - 1 <==> |data| % INBUF_SIZE == 1
  {
    (|data| - 1) / INBUF_SIZE * INBUF_SIZE
  }

  /** How a file is read when every read but the last is full. */
  function FullReads(data: seq<byte>): Blocks
    decreases |data|
  {
    if data == [] then Start else Then(FullReads(data[..LastRead(data)]), data[LastRead(data)..])
  }

  /** That is how the upload loop reads a regular file. */
  lemma FullReadsUnique(data: seq<byte>, start: nat, pos: nat, blocks: Blocks)
    requires ReadAs(data, start, pos, blocks) && RegularReads(data, pos, blocks)
    requires StoppedEarly(blocks) || pos == |data|
    ensures blocks == FullReads(data[start..])
  {
    assert pos == |data|;
    assert data[start..pos] == data[start..];
    OnlyFullReads(blocks);
  }

  lemma {:induction false} OnlyFullReads(blocks: Blocks)
    requires ReadSizes(blocks) && (blocks.Then? ==> AllFull(blocks.before))
    ensures blocks == FullReads(blocks.Joined())
    ensures AllFull(blocks) ==> |blocks.Joined()| % INBUF_SIZE == 0
  {
    if blocks.Then? {
      OnlyFullReads(blocks.before);
      var data, m := blocks.Joined(), |blocks.before.Joined()|;
      assert data[..m] == blocks.before.Joined() && data[m..] == blocks.last;
      LastReadUnique(data, m);
    }
  }

  lemma LastReadUnique(data: seq<byte>, m: nat)
    requires m < |data| <= m + INBUF_SIZE && m % INBUF_SIZE == 0
    ensures LastRead(data) == m
  {
  }

  lemma {:induction false} FullReadsShape(data: seq<byte>)
    ensures ReadAs(data, 0, |data|, FullReads(data))
    ensures data != [] ==> AllFull(FullReads(data).before)
    ensures |data| % INBUF_SIZE == 0 ==> AllFull(FullReads(data))
    decreases |data|
  {
    if data != [] {
      var m := LastRead(data);
      FullReadsShape(data[..m]);
      ExtendRead(data, m, FullReads(data[..m]));
    }
  }

  lemma ExtendRead(data: seq<byte>, m: nat, front: Blocks)
    requires m < |data| <= m + INBUF_SIZE && ReadAs(data[..m], 0, m, front) && AllFull(front)
    ensures ReadAs(data, 0, |data|, Then(front, data[m..]))
  {
    assert data[..m][0..m] == data[..m] && data[0..|data|] == data;
    assert data[..m] + data[m..] == data;
  }

  /** Full reads end in a lone CR only when the file is one octet past a full block. */
  lemma FullReadsStop(data: seq<byte>)
    requires data != []
    ensures var blocks := FullReads(data); var n := |data|;
      && (StoppedEarly(blocks) <==> n % INBUF_SIZE == 1 && data[n - 1] == CR)
      && (StoppedEarly(blocks) ==> blocks.before.Joined() == data[..n - 1])
  {
    FullReadsShape(data[..LastRead(data)]);
  }

  /** The texts that lose their last line end when they are read 256 octets at a time. */
  predicate LosesLineEnd(data: seq<byte>) {
    var n := |data|;
    n > 1 && n % INBUF_SIZE == 1 && data[n - 1] == CR && data[n - 2] == CR
  }

  /** A regular file, read 256 octets at a time, is uploaded correctly except when its length is
      1 more than a multiple of 256 and its last two octets are CRs. */
  lemma {:induction false} RegularFileUpload(data: seq<byte>)
    ensures SentFor(FullReads(data)) == Encode(data) <==> !LosesLineEnd(data)
  {
    var blocks := FullReads(data);
    FullReadsShape(data);
    assert data[0..] == data;
    UploadCompleteIff(data, 0, |data|, blocks);
    if data != [] {
      FullReadsStop(data);
      if StoppedEarly(blocks) {
        EndsBefore(data, blocks.before.Joined());
      }
    }
  }

  lemma EndsBefore(data: seq<byte>, front: seq<byte>)
    requires data != [] && front == data[..|data| - 1]
    ensures EndsInCR(front) <==> |data| > 1 && data[|data| - 2] == CR
  {
  }

  /** Such a file: 255 letters and two CRs. Its last line end is not sent. */
  lemma LostLineEnd()
    ensures var data := seq(257, i => if i < 255 then 65 else CR);
      SentFor(FullReads(data)) != Encode(data)
  {
    RegularFileUpload(seq(257, i => if i < 255 then 65 else CR));
  }
}
