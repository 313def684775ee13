/** The local file operations the transfer code uses, with every failure the code tests for. */
module LocalFiles {
  import opened Basics
  import opened Bytes

  /** A file open for writing on a disk that takes `room` more octets. */
  class OutputFile {
    var contents: seq<byte>
    var room: nat

    /** Writes what fits; the result is -1 when nothing was written. */
    method PWrite(data: seq<byte>) returns (nwrote: int)
      modifies this
      ensures contents == old(contents) + data[..Min(|data|, old(room))]
      ensures room == old(room) - Min(|data|, old(room))
      ensures nwrote == (if Min(|data|, old(room)) == 0 then -1 else Min(|data|, old(room)))
    {
      var n := Min(|data|, room);
      contents := contents + data[..n];
      room := room - n;
      nwrote := if n == 0 then -1 else n;
    }
  }

  /** A file open for reading. How it behaves is fixed: at each offset a read has so many octets on offer,
      all of them if the file is `regular`, and unless the file is `healthy` there are offsets at which
      reading fails and offsets that cannot be moved to. */
  class InputFile {
    const data: seq<byte>
    const healthy: bool
    const regular: bool
    const onOffer: nat -> nat
    const badRead: nat -> bool
    const badSeek: nat -> bool
    var pos: nat

    ghost predicate Valid()
      reads this
    {
      pos <= |data|
    }

    predicate ReadFails(p: nat) {
      !healthy && badRead(p)
    }

    predicate SeekFails(offset: int) {
      offset < 0 || offset > |data| || (!healthy && badSeek(offset))
    }

    /** How much a read of at most `size` octets gives at an offset. */
    function Chunk(p: nat, size: nat): (n: nat)
      requires p <= |data| && size > 0
      ensures n <= Min(size, |data| - p) && (p < |data| ==> n > 0)
      ensures regular ==> n == Min(size, |data| - p)
    {
      var n := Min(size, |data| - p);
      if regular || n == 0 then n else if onOffer(p) == 0 then 1 else Min(n, onOffer(p))
    }

    constructor (data: seq<byte>, healthy: bool, regular: bool, onOffer: nat -> nat, badRead: nat -> bool, badSeek: nat -> bool)
      ensures Valid() && this.data == data && this.healthy == healthy && this.regular == regular && pos == 0
      ensures this.onOffer == onOffer && this.badRead == badRead && this.badSeek == badSeek
    {
      this.data, this.healthy, this.regular, this.pos := data, healthy, regular, 0;
      this.onOffer, this.badRead, this.badSeek := onOffer, badRead, badSeek;
    }

    /** read(2): a negative `nread` is an error, zero the end of the file. */
    method Read(size: nat) returns (nread: int, block: seq<byte>)
      requires Valid() && size > 0
      modifies this
      ensures Valid()
      ensures nread < 0 <==> ReadFails(old(pos))
      ensures nread < 0 ==> block == [] && pos == old(pos)
      ensures nread >= 0 ==> nread == |block| == Chunk(old(pos), size) && pos == old(pos) + nread && block == data[old(pos)..pos]
    {
      if ReadFails(pos) {
        return -1, [];
      }
      var n := Chunk(pos, size);
      block := data[pos..pos + n];
      pos := pos + n;
      nread := n;
    }

    /** lseek(2) to an absolute offset; -1 is a failure and moves nothing. */
    method Lseek(offset: int) returns (r: int)
      requires Valid()
      modifies this
      ensures Valid()
      ensures SeekFails(offset) ==> r == -1 && pos == old(pos)
      ensures !SeekFails(offset) ==> r == offset == pos
    {
      if SeekFails(offset) {
        return -1;
      }
      pos := offset;
      r := offset;
    }
  }
}
