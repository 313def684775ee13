/** What resuming an ASCII upload rests on: the network size of a local file (c_size.c) and the
    local offset that matches a network offset (FTPASCIILocalFileSeek in io_put.c). */
module AsciiResume {
  import opened Bytes
  import opened Eoln
  import opened LocalFiles

  // ---- FTPLocalASCIIFileSize ----

  /** No read fails on the way to the end of the file. */
  ghost predicate ReadsThrough(file: InputFile, pos: nat, bufsize: nat)
    requires pos <= |file.data| && bufsize > 0
    decreases |file.data| - pos
  {
    !file.ReadFails(pos) && (pos < |file.data| ==> ReadsThrough(file, pos + file.Chunk(pos, bufsize), bufsize))
  }

  /** The octets a file takes on the network, but for the line ends of its bare CRs; -1 when it cannot be
      opened or read. */
  ghost function AsciiSize(file: InputFile?, bufsize: nat): (n: int)
    requires bufsize > 0
    ensures file != null && file.healthy ==> n == |Encode(file.data)| - CountBareCR(file.data)
  {
    if file == null then -1
    else
      HealthyReads(file, 0, bufsize);
      if ReadsThrough(file, 0, bufsize) then |Encode(file.data)| - CountBareCR(file.data) else -1
  }

  lemma {:induction false} HealthyReads(file: InputFile, pos: nat, bufsize: nat)
    requires pos <= |file.data| && bufsize > 0
    ensures file.healthy ==> ReadsThrough(file, pos, bufsize)
    decreases |file.data| - pos
  {
    if pos < |file.data| {
      HealthyReads(file, pos + file.Chunk(pos, bufsize), bufsize);
    }
  }

  /** Counts a block: its octets, and one more for each LF that no CR precedes. */
  method CountBlock(block: seq<byte>, prev: byte, ghost todo: seq<byte>) returns (count: nat, prevc: byte)
    requires block <= todo
    ensures count + CountBareLF(todo[|block|..], prevc) == |block| + CountBareLF(todo, prev)
  {
    count, prevc := |block|, prev;
    var scp: nat := 0;
    assert todo[0..] == todo;
    while scp < |block|
      invariant scp <= |block| && count + CountBareLF(todo[scp..], prevc) == |block| + CountBareLF(todo, prev)
    {
      var c := block[scp];
      assert c == todo[scp] && todo[scp..][1..] == todo[scp + 1..];
      scp := scp + 1;
      if c == LF && prevc != CR {
        count := count + 1;
      }
      prevc := c;
    }
  }

  lemma Cut(d: seq<byte>, p: nat, q: nat)
    requires p <= q <= |d|
    ensures d[p..q] <= d[p..] && d[p..][q - p..] == d[q..]
  {
  }

  /** What has been counted, and what is left to be. */
  ghost predicate Counting(file: InputFile, pos: nat, bufsize: nat, asize: int, prevc: byte)
    requires bufsize > 0
  {
    && pos <= |file.data|
    && ReadsThrough(file, pos, bufsize) == ReadsThrough(file, 0, bufsize)
    && asize + |file.data| - pos + CountBareLF(file.data[pos..], prevc) == |file.data| + CountBareLF(file.data, 0)
  }

  lemma CountedOn(file: InputFile, pos: nat, bufsize: nat, asize: int, prev: byte, count: nat, prevc: byte)
    requires bufsize > 0 && Counting(file, pos, bufsize, asize, prev) && pos < |file.data| && !file.ReadFails(pos)
    requires var n := file.Chunk(pos, bufsize);
      count + CountBareLF(file.data[pos + n..], prevc) == n + CountBareLF(file.data[pos..], prev)
    ensures Counting(file, pos + file.Chunk(pos, bufsize), bufsize, asize + count, prevc)
  {
  }

  /** At the start, and where it ends. */
  lemma CountingEnds(file: InputFile, pos: nat, bufsize: nat, asize: int, prevc: byte)
    requires bufsize > 0
    ensures Counting(file, 0, bufsize, 0, 0)
    ensures Counting(file, pos, bufsize, asize, prevc) && file.ReadFails(pos) ==> AsciiSize(file, bufsize) == -1
    ensures Counting(file, pos, bufsize, asize, prevc) && !file.ReadFails(pos) && pos == |file.data| ==> AsciiSize(file, bufsize) == asize
  {
    EncodedLength(file.data);
    assert file.data[0..] == file.data;
    if pos == |file.data| {
      assert file.data[pos..] == [];
    }
  }

  /** Reads and counts a block. */
  method CountRead(file: InputFile, bufsize: nat, prev: byte, ghost asize: int) returns (nread: int, count: nat, prevc: byte)
    requires file.Valid() && bufsize > 0 && Counting(file, file.pos, bufsize, asize, prev)
    modifies file
    ensures file.Valid() && file.pos == old(file.pos) + if nread > 0 then nread else 0
    ensures nread < 0 <==> file.ReadFails(old(file.pos))
    ensures nread == 0 ==> file.pos == |file.data|
    ensures nread > 0 ==> Counting(file, file.pos, bufsize, asize + count, prevc)
  {
    ghost var pos := file.pos;
    var block;
    nread, block := file.Read(bufsize);
    count, prevc := 0, prev;
    if nread > 0 {
      Cut(file.data, pos, file.pos);
      count, prevc := CountBlock(block, prev, file.data[pos..]);
      CountedOn(file, pos, bufsize, asize, prev, count, prevc);
    }
  }

  /** The size the file is taken to have on the network: one octet more for each LF that no CR
      precedes. -1 when the file cannot be opened or read. */
  method LocalAsciiFileSize(file: InputFile?, bufsize: nat) returns (asize: int)
    requires file != null ==> file.Valid() && file.pos == 0
    requires bufsize > 0
    modifies file
    ensures asize == AsciiSize(file, bufsize)
  {
    if file == null {
      return -1;
    }
    var prevc: byte := 0;
    asize := 0;
    CountingEnds(file, 0, bufsize, 0, 0);
    while true
      invariant file.Valid() && Counting(file, file.pos, bufsize, asize, prevc)
      decreases |file.data| - file.pos
    {
      CountingEnds(file, file.pos, bufsize, asize, prevc);
      var nread, count, last := CountRead(file, bufsize, prevc, asize);
      if nread < 0 {
        return -1;
      }
      if nread == 0 {
        return;
      }
      asize, prevc := asize + count, last;
    }
  }

  // ---- FTPASCIILocalFileSeek ----

  /** The first `k` octets of `d` hold no CR and are sent as `n` octets. */
  ghost predicate SkipsTo(d: seq<byte>, n: int, k: nat) {
    k <= |d| && CR !in d[..k] && |Encode(d[..k])| == n
  }

  lemma EncodeOneMore(d: seq<byte>, k: nat)
    requires k < |d| && CR !in d[..k]
    ensures d[k] == LF ==> |Encode(d[..k + 1])| == |Encode(d[..k])| + 2
    ensures d[k] != LF && d[k] != CR ==> |Encode(d[..k + 1])| == |Encode(d[..k])| + 1
    ensures d[k] != CR ==> CR !in d[..k + 1]
  {
    assert d[..k + 1] == d[..k] + [d[k]];
    EncodeSplit(d[..k], [d[k]]);
    assert Encode([d[k]]) == (if d[k] == LF || d[k] == CR then [CR, LF] else [d[k]]) + Encode([]);
  }

  lemma EncodedLengthGrows(d: seq<byte>, i: nat, k: nat)
    requires i <= k <= |d|
    ensures |Encode(d[..i])| <= |Encode(d[..k])|
  {
    assert d[..k] == d[..i] + d[i..k];
    EncodePrefix(d[..i], d[i..k]);
  }

  /** The scan has passed `k` octets for less than `n`; the next one settles that no offset fits. */
  lemma NoSuchOffset(d: seq<byte>, n: int, k: nat)
    requires k <= |d| && CR !in d[..k] && |Encode(d[..k])| < n
    requires k == |d| || d[k] == CR || (d[k] == LF && |Encode(d[..k])| == n - 1)
    ensures !exists i :: SkipsTo(d, n, i)
  {
    forall i | 0 <= i <= |d| ensures !SkipsTo(d, n, i) {
      if i <= k {
        EncodedLengthGrows(d, i, k);
      } else if d[k] == CR {
        assert d[..i][k] == CR;
      } else {
        EncodeOneMore(d, k);
        EncodedLengthGrows(d, k + 1, i);
      }
    }
  }

  /** Moves the file past the octets that were already sent as `howMuchToSkip` network octets.
      0: done; -1: not possible, the position is as before; -2: the position is lost. */
  method AsciiLocalFileSeek(file: InputFile, howMuchToSkip: int, bufsize: nat) returns (r: int)
    requires file.Valid() && bufsize > 0
    modifies file
    ensures file.Valid()
    ensures r == 0 || r == -1 || r == -2
    ensures r == 0 ==> old(file.pos) <= file.pos && SkipsTo(file.data[old(file.pos)..], howMuchToSkip, file.pos - old(file.pos))
    ensures r == -1 ==> file.pos == old(file.pos)
    ensures file.healthy ==> (r == 0 <==> exists k :: SkipsTo(file.data[old(file.pos)..], howMuchToSkip, k))
    ensures file.healthy ==> r != -2
  {
    ghost var d := file.data[file.pos..];
    var count := howMuchToSkip;
    if count == 0 {
      assert SkipsTo(d, 0, 0);
      return 0;
    }
    if count < 0 {
      return -1;
    }
    var startpos := file.Lseek(file.pos);
    if startpos == -1 {
      return -1;
    }
    var left: nat := 0;
    ghost var k: nat := 0;
    while count > 0
      invariant file.Valid() && startpos + k + left == file.pos && d == file.data[startpos..] && k <= |d|
      invariant count > 0 ==> left == 0
      invariant count >= 0 ==> CR !in d[..k] && |Encode(d[..k])| == howMuchToSkip - count
      invariant count < 0 && file.healthy ==> !exists i :: SkipsTo(d, howMuchToSkip, i)
      decreases if count > 0 then 1 + |file.data| - file.pos else 0
    {
      var nread, block := file.Read(bufsize);
      if nread <= 0 {
        count := -1;
        if nread == 0 {
          NoSuchOffset(d, howMuchToSkip, k);
        }
        break;
      }
      var src: nat := 0;
      ghost var base := k;
      assert forall i :: 0 <= i < |block| ==> block[i] == d[base + i];
      while src < |block|
        invariant file.pos == startpos + base + |block| <= |file.data|
        invariant src <= |block| && count > 0 && k == base + src <= |d|
        invariant CR !in d[..k] && |Encode(d[..k])| == howMuchToSkip - count
      {
        var c := block[src];
        assert c == d[k];
        EncodeOneMore(d, k);
        if c == CR {
          NoSuchOffset(d, howMuchToSkip, k);
          count := -1;
        } else if c == LF {
          if count == 1 {
            NoSuchOffset(d, howMuchToSkip, k);
          }
          count := count - 2;
        } else {
          count := count - 1;
        }
        src, k := src + 1, k + 1;
        if count <= 0 {
          break;
        }
      }
      left := |block| - src;
    }
    if count < 0 {
      var endpos := file.Lseek(startpos);
      if endpos != startpos {
        return -2;
      }
      return -1;
    }
    assert SkipsTo(d, howMuchToSkip, k);
    if left != 0 {
      var endpos := file.Lseek(file.pos - left);
      if endpos == -1 {
        return -2;
      }
    }
    r := 0;
  }

  /** Nothing is lost and nothing is sent twice: the network octets already there, followed by
      the encoding of what is left of the file, are the encoding of the file. */
  lemma ResumeSplice(d: seq<byte>, n: int, k: nat)
    requires SkipsTo(d, n, k)
    ensures n <= |Encode(d)| && Encode(d)[..n] == Encode(d[..k])
    ensures Encode(d)[..n] + Encode(d[k..]) == Encode(d)
  {
    assert d == d[..k] + d[k..];
    assert k > 0 ==> d[..k][k - 1] in d[..k];
    EncodeSplit(d[..k], d[k..]);
  }

  /** At most one local offset matches a network offset. */
  lemma SkipsToUnique(d: seq<byte>, n: int, k: nat, k': nat)
    requires SkipsTo(d, n, k) && SkipsTo(d, n, k')
    ensures k == k'
    decreases k < k'
  {
    if k < k' {
      SkipsToUnique(d, n, k', k);
    } else if k' < k {
      assert d[..k'] == d[..k][..k'] && d[k'] in d[..k];
      EncodeOneMore(d, k');
      EncodedLengthGrows(d, k' + 1, k);
    }
  }

  /** Network offsets from which a file can be resumed: those that do not fall between the CR and
      the LF of a line end, as long as no CR of the file itself comes before. */
  lemma {:induction false} ResumableOffsets(d: seq<byte>, n: nat)
    requires CR !in d && n <= |Encode(d)|
    ensures (exists k :: SkipsTo(d, n, k)) <==> !(0 < n < |Encode(d)| && Encode(d)[n - 1] == CR)
    decreases |d|
  {
    if n == 0 {
      assert SkipsTo(d, 0, 0);
    } else {
      var w: nat := if d[0] == LF then 2 else 1;
      var e := Encode(d);
      assert e == (if d[0] == LF then [CR, LF] else [d[0]]) + Encode(d[1..]);
      if n < w {
        NoSuchOffset(d, n, 0);
      } else {
        var tail, m: nat := d[1..], n - w;
        ResumableOffsets(tail, m);
        if k: nat :| SkipsTo(tail, m, k) {
          SkipsToShift(d, k);
          assert SkipsTo(d, n, k + 1);
        }
        if k: nat :| SkipsTo(d, n, k) {
          assert Encode(d[..0]) == [];
          SkipsToShift(d, k - 1);
          assert SkipsTo(tail, m, k - 1);
        }
      }
    }
  }

  lemma SkipsToShift(d: seq<byte>, k: nat)
    requires CR !in d && k < |d|
    ensures |Encode(d[..k + 1])| == (if d[0] == LF then 2 else 1) + |Encode(d[1..][..k])|
  {
    assert d[..k + 1][1..] == d[1..][..k];
  }
}
