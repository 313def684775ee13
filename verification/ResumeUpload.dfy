/** The resume decision of FTPPutOneF and the upload that follows it, binary or ASCII. */
module ResumeUpload {
  import opened Bytes
  import opened Eoln
  import opened Errors
  import opened LocalFiles
  import opened AsciiUpload
  import opened AsciiResume
  import opened Connection
  import opened Transfer

  datatype Action = Skip | Resume | Overwrite | Append

  /** kSizeUnknown */
  const SIZE_UNKNOWN := -1

  /** Best guess: what to do with a remote file of size `startPoint`, `newer` telling that the
      remote time is known and the local file is more than a second younger. */
  function BestGuess(newer: bool, localsize: int, startPoint: int): Action {
    if newer then Overwrite
    else if localsize == startPoint then Skip
    else if startPoint != SIZE_UNKNOWN && localsize > startPoint then Resume
    else Overwrite
  }

  /** What the whole local file is on the network. */
  ghost function OnTheWire(ascii: bool, data: seq<byte>): seq<byte> {
    if ascii then Encode(data) else data
  }

  /** There is no remote file, or it holds the beginning of what is being sent. */
  ghost predicate Partial(f: RemoteFile, full: seq<byte>) {
    Octets(f) <= full
  }

  /** The binary loop: blocks go out as they are read. */
  method SendBinary(file: InputFile, sock: DataSocket, bufSize: nat) returns (result: int)
    requires file.Valid() && bufSize > 0
    modifies file, sock
    ensures file.Valid()
    ensures result == K_NO_ERR ==> sock.sent == old(sock.sent) + file.data[old(file.pos)..]
    ensures old(sock.sent) <= sock.sent <= old(sock.sent) + file.data[old(file.pos)..]
    ensures result == K_ERR_READ_FAILED || Sendable(result)
    ensures sock.smooth && file.healthy ==> result == K_NO_ERR
  {
    ghost var start, base := file.pos, sock.sent;
    while true
      invariant file.Valid() && start <= file.pos && sock.sent == base + file.data[start..file.pos]
      decreases |file.data| - file.pos
    {
      var nread, block := file.Read(bufSize);
      if nread < 0 {
        return K_ERR_READ_FAILED;
      }
      if nread == 0 {
        return K_NO_ERR;
      }
      ghost var before := file.data[start..file.pos - nread];
      assert base + file.data[start..file.pos] == (base + before) + block;
      result := PutBlock(sock, block);
      if result != K_NO_ERR {
        assert (base + before) + block <= base + file.data[start..];
        return;
      }
    }
  }

  /** FTPFileSizeAndModificationTime: the size of the remote file, if the server tells it. */
  function RemoteSize(f: RemoteFile, told: bool): int {
    if told && f.Present? then |f.bytes| else SIZE_UNKNOWN
  }

  /** How an upload is asked for: the type passed in is ASCII, the name of the remote file says that it is
      a text file, the local file is the newer one, the server tells the size of the remote one. */
  datatype Upload = Upload(asciiGiven: bool, textName: bool, newer: bool, told: bool) {
    /** AutomaticallyUseASCIIModeDependingOnExtension */
    predicate Ascii() {
      asciiGiven || textName
    }
  }

  /** The local size that is compared with the remote one. It is computed for the type passed in, before
      the name is looked at; `sized` is the local file opened once more to be measured. */
  ghost function LocalSize(u: Upload, file: InputFile, sized: InputFile?, bufSize: nat): int
    requires bufSize > 0
  {
    if u.asciiGiven then AsciiSize(sized, bufSize) else |file.data|
  }

  ghost function Chosen(u: Upload, file: InputFile, sized: InputFile?, bufSize: nat, before: RemoteFile): Action
    requires bufSize > 0
  {
    BestGuess(u.newer, LocalSize(u, file, sized, bufSize), RemoteSize(before, u.told))
  }

  /** "Same as remote" is said of a partial remote file, the local one having been measured: that is right
      exactly for binary files, and for text without bare CRs that was measured as text or has no bare LF. */
  lemma SameIsRightIff(u: Upload, file: InputFile, sized: InputFile?, bufSize: nat, before: RemoteFile)
    requires bufSize > 0 && (sized != null ==> sized.data == file.data)
    requires LocalSize(u, file, sized, bufSize) != SIZE_UNKNOWN
    requires Chosen(u, file, sized, bufSize, before) == Skip && Partial(before, OnTheWire(u.Ascii(), file.data))
    ensures before == Present(OnTheWire(u.Ascii(), file.data)) <==>
            !u.Ascii() || (CountBareCR(file.data) == 0 && (u.asciiGiven || CountBareLF(file.data, 0) == 0))
  {
    EncodedLength(file.data);
  }

  /** A local file that could not be measured is the same as a remote one of unknown size, missing ones
      included. */
  lemma UnmeasuredIsSame(u: Upload, file: InputFile, sized: InputFile?, bufSize: nat, before: RemoteFile)
    requires bufSize > 0 && LocalSize(u, file, sized, bufSize) == SIZE_UNKNOWN
    ensures Chosen(u, file, sized, bufSize, before) == Skip <==> !u.newer && (!u.told || before == Absent)
  {
  }

  /** A text file of one CR is taken for sent when one octet of two has arrived. */
  lemma OneCRLooksComplete(u: Upload, file: InputFile, sized: InputFile, bufSize: nat)
    requires bufSize > 0 && u == Upload(true, true, false, true)
    requires file.data == sized.data == [CR] && sized.healthy
    ensures OnTheWire(true, file.data) == [CR, LF]
    ensures Chosen(u, file, sized, bufSize, Present([CR])) == Skip
  {
    assert Encode([CR]) == [CR, LF] + Encode([]);
    assert CountBareCR([CR]) == 1 + CountBareCR([]);
  }

  /** A file that is text by its name only is measured as it is on the disk: "a LF b LF" is taken for sent
      when four octets of six have arrived. */
  lemma TextByNameLooksComplete(u: Upload, file: InputFile, bufSize: nat)
    requires bufSize > 0 && u == Upload(false, true, false, true) && file.data == [97, LF, 98, LF]
    ensures CR !in file.data && OnTheWire(u.Ascii(), file.data) == [97, CR, LF, 98, CR, LF]
    ensures Chosen(u, file, null, bufSize, Present([97, CR, LF, 98])) == Skip
  {
    var d := file.data;
    assert d[1..] == [LF, 98, LF] && d[2..] == [98, LF] && d[3..] == [LF];
    assert Encode([LF]) == [CR, LF] + Encode([]);
    assert Encode([98, LF]) == [98] + Encode([LF]);
    assert Encode([LF, 98, LF]) == [CR, LF] + Encode([98, LF]);
    assert Encode(d) == [97] + Encode([LF, 98, LF]);
  }

  /** Where an upload starts: the local offset, the command and the restart offset. */
  datatype Origin = Origin(from: nat, cmd: Command, startPoint: nat)

  /** The start for an action when the remote file is `n` octets long. */
  ghost predicate OriginIs(file: InputFile, ascii: bool, action: Action, n: nat, start: Origin) {
    && start.from <= |file.data|
    && match action
       case Overwrite => start == Origin(0, Stor, 0)
       case Resume =>
         if ascii then
           if start.cmd == Appe then start.startPoint == 0 && SkipsTo(file.data, n, start.from)
           else start == Origin(0, Stor, 0) && (file.healthy ==> !exists k :: SkipsTo(file.data, n, k))
         else start == Origin(if file.SeekFails(n) then 0 else n, Stor, n)
       case _ => false
  }

  /** The local file cannot be positioned, and that goes unnoticed: all of it is sent to the restart
      offset. */
  ghost predicate SeekLost(file: InputFile, ascii: bool, action: Action, n: nat) {
    action == Resume && !ascii && n > 0 && file.SeekFails(n)
  }

  /** Positions the local file for the chosen action and chooses the command. */
  method Position(cip: FTPConnection, file: InputFile, ascii: bool, action: Action, startPoint0: int, bufSize: nat, ghost n: nat)
    returns (result: int, cmd: Command, startPoint: int)
    requires file.Valid() && file.pos == 0 && bufSize > 0
    requires action == Resume || action == Overwrite
    requires action == Resume ==> startPoint0 == n
    modifies file, cip`startPoint
    ensures file.Valid() && (result == K_NO_ERR || (Failure(result) && action == Resume && ascii && !file.healthy))
    ensures result == K_NO_ERR ==> startPoint >= 0 && OriginIs(file, ascii, action, n, Origin(file.pos, cmd, startPoint))
  {
    result := K_NO_ERR;
    var zaction := action;
    assert file.data[0..] == file.data;
    startPoint := startPoint0;
    if zaction == Resume {
      if ascii {
        var skiprc := AsciiLocalFileSeek(file, startPoint, bufSize);
        if skiprc == -2 {
          return K_ERR_ASCII_SEEK_ERR, Stor, startPoint;
        } else if skiprc == -1 {
          startPoint := 0;
          cip.startPoint := 0;
        } else {
          zaction := Append;
          cip.startPoint := 0;
          startPoint := 0;
        }
      } else {
        var rc := file.Lseek(startPoint);
        if rc != -1 {
          cip.startPoint := startPoint;
        }
      }
    } else {
      startPoint := 0;
      cip.startPoint := 0;
    }
    cmd := if zaction == Append then Appe else Stor;
  }

  /** An lseek that fails unnoticed: all of a file of two octets is about to be sent to offset 1. */
  method LostSeek(cip: FTPConnection) returns (file: InputFile)
    modifies cip`startPoint
    ensures fresh(file) && file.data == [1, 2] && SeekLost(file, false, BestGuess(false, 2, 1), 1)
    ensures file.pos == 0
  {
    file := new InputFile([1, 2], false, true, p => 0, p => false, p => true);
    var result, cmd, startPoint := Position(cip, file, false, BestGuess(false, 2, 1), 1, 512, 1);
    assert result == K_NO_ERR && Origin(file.pos, cmd, startPoint) == Origin(0, Stor, 1);
  }

  /** What is left to send from a start completes a partial file that is ready, unless a seek was lost. */
  lemma StartCompletes(file: InputFile, ascii: bool, action: Action, n: nat, start: Origin, before: RemoteFile, after: RemoteFile)
    requires OriginIs(file, ascii, action, n, start) && Partial(before, OnTheWire(ascii, file.data))
    requires action == Resume ==> before.Present? && n == |before.bytes|
    requires ReadyToStore(start.cmd, start.startPoint, before, after)
    ensures !SeekLost(file, ascii, action, n) ==>
              after.bytes + OnTheWire(ascii, file.data[start.from..]) == OnTheWire(ascii, file.data)
    ensures SeekLost(file, ascii, action, n) ==> start.from == 0 && after.bytes == before.bytes
  {
    var data := file.data;
    assert data[0..] == data;
    if action == Overwrite {
      assert [] + OnTheWire(ascii, data) == OnTheWire(ascii, data);
    } else if ascii && start.cmd == Appe {
      ResumeSplice(data, n, start.from);
      assert before.bytes == Encode(data)[..n];
    } else if ascii {
      assert [] + Encode(data) == Encode(data);
    } else {
      assert before.bytes == data[..n];
      assert before.bytes[..n] == before.bytes;
      assert data[..n] + data[n..] == data;
      assert [] + data == data;
    }
  }

  /** What the data loop sends from an offset on. */
  ghost function Due(file: InputFile, ascii: bool, from: nat): seq<byte>
    requires from <= |file.data|
  {
    if ascii then AsciiDue(file, from) else file.data[from..]
  }

  /** That is all there is, unless the ASCII loop stops too early. */
  lemma DueIsAllIff(file: InputFile, ascii: bool, from: nat)
    requires from <= |file.data|
    ensures Due(file, ascii, from) <= OnTheWire(ascii, file.data[from..])
    ensures Due(file, ascii, from) == OnTheWire(ascii, file.data[from..]) <==> !(ascii && LosesText(file, from))
  {
    if ascii {
      AsciiUploadRightIff(file, from);
    }
  }

  /** The data loop: ASCII or binary. */
  method SendData(file: InputFile, ascii: bool, buf: array<byte>, smooth: bool) returns (result: int, sent: seq<byte>)
    requires file.Valid() && buf.Length >= 2 * INBUF_SIZE + 1
    modifies file, buf
    ensures result == K_NO_ERR || Failure(result)
    ensures sent <= OnTheWire(ascii, file.data[old(file.pos)..])
    ensures result == K_NO_ERR ==> sent == Due(file, ascii, old(file.pos))
    ensures smooth && file.healthy ==> result == K_NO_ERR
  {
    var sock := new DataSocket(smooth);
    ghost var start := file.pos;
    ghost var wire := OnTheWire(ascii, file.data[start..]);
    assert [] + wire == wire && [] + Due(file, ascii, start) == Due(file, ascii, start);
    if ascii {
      result := SendAscii(file, sock, buf);
    } else {
      result := SendBinary(file, sock, buf.Length);
    }
    sent := sock.sent;
  }

  /** The data loop and the end of the transfer, from what the server made of the command. A user's
      cancellation aborts the transfer. */
  method SendAndEnd(cip: FTPConnection, server: Server, file: InputFile, ascii: bool, buf: array<byte>, smooth: bool, a: Abort)
    returns (result: int)
    requires cip.Valid() && !cip.canceled && file.Valid() && buf.Length >= 2 * INBUF_SIZE + 1 && server.file.Present?
    modifies cip`dataSocket, cip`dataSocketConnected, cip`sockets, cip`canceling, cip`canceled, server`file, server`alive, file, buf
    ensures cip.Valid() && cip.dataSocket == CLOSED && cip.sockets == map[]
    ensures (result == K_NO_ERR || Failure(result)) && (server.alive ==> old(server.alive))
    ensures server.file.Present?
    ensures server.file.bytes <= old(server.file.bytes) + OnTheWire(ascii, file.data[old(file.pos)..])
    ensures result == K_NO_ERR ==> server.file.bytes == old(server.file.bytes) + Due(file, ascii, old(file.pos))
    ensures cip.canceled ==> result == K_ERR_DATA_TRANSFER_ABORTED
    ensures result == K_ERR_DATA_TRANSFER_ABORTED ==>
              (cip.canceled <==> old(cip.dataSocket) != CLOSED && AbortAcknowledged(a, cip.abortTimeout))
    ensures smooth && file.healthy && old(server.alive) ==> result == K_NO_ERR
  {
    var sent;
    result, sent := SendData(file, ascii, buf, smooth);
    if result == K_ERR_DATA_TRANSFER_ABORTED {
      var _ := AbortDataTransfer(cip, a);
    }
    var tmpResult := EndDataCmd(cip, server, true, sent, smooth);
    if tmpResult < 0 && result == K_NO_ERR {
      result := K_ERR_STOR_FAILED;
    }
    SameTail(old(server.file.bytes), sent, OnTheWire(ascii, file.data[old(file.pos)..]));
  }

  lemma SameTail(a: seq<byte>, s: seq<byte>, t: seq<byte>)
    requires s <= t
    ensures a + s <= a + t && (a + s == a + t <==> s == t)
  {
    assert |a + s| == |a| + |s| && |a + t| == |a| + |t|;
  }

  function XType(ascii: bool): char {
    if ascii then TYPE_ASCII else TYPE_BINARY
  }

  /** What a server on a certain footing has opened when it takes the last command of an upload. */
  function OpenedFile(server: Server, f: Footing, ascii: bool, start: Origin, before: RemoteFile): RemoteFile {
    var last := Starting(server, f, XType(ascii), start.cmd, start.startPoint);
    server.Accepted(last.cmd, before, last.marker)
  }

  predicate WellPlaced(server: Server, f: Footing, ascii: bool, start: Origin) {
    Starting(server, f, XType(ascii), start.cmd, start.startPoint).Well(start.startPoint)
  }

  /** Exactly when an upload that finds no marker is misplaced, in terms of the replies to its REST commands:
      the trial offset is stuck and stays so, or STOR at an offset and then REST 0 are refused. It takes a
      server that keeps markers. */
  lemma UploadMisplacedIff(server: Server, f0: Footing, hasREST: Availability, ascii: bool, start: Origin)
    requires f0.marker == 0 && (start.cmd == Stor || (start.cmd == Appe && start.startPoint == 0))
    ensures var f := Tried(server, f0, hasREST); var t0 := Typed(server, f0, TYPE_BINARY).turn; var t := Typed(server, f, XType(ascii)).turn;
      var stuck := hasREST == Unknown && !server.RestRefused(t0) && server.RestRefused(t0 + 1);
      !WellPlaced(server, f, ascii, start) <==>
      server.keepsMarker && if start.startPoint == 0 || server.RestRefused(t) then stuck else server.StoreRefused(t + 1) && server.RestRefused(t + 2)
  {
    var f := Tried(server, f0, hasREST);
    var g := Typed(server, f, XType(ascii));
    TrialStuckIff(server, f0, hasREST);
    MisplacedIff(server, g.turn, g.marker, start.cmd, start.startPoint);
  }

  /** Nothing stands in the way of an upload: the data connection, the transfer type, and the commands from there on. */
  ghost predicate Startable(server: Server, f: Footing, ascii: bool, start: Origin, net: Network, s: Setup) {
    && DataComes(net, s) && TypeAccepted(server, f, XType(ascii))
    && Starts(server, Typed(server, f, XType(ascii)).turn, start.cmd, start.startPoint)
  }

  /** The transfer itself, the local file being positioned: a success adds to what the server opened
      what the data loop sends. */
  method SendFrom(cip: FTPConnection, server: Server, file: InputFile, ascii: bool, cmd: Command, startPoint: nat, buf: array<byte>, net: Network,
                  ghost f: Footing)
    returns (result: int)
    requires cip.Valid() && cip.dataSocket == CLOSED && On(cip, server, f)
    requires file.Valid() && buf.Length >= 2 * INBUF_SIZE + 1
    requires (cmd == Stor || cmd == Appe) && (cmd == Appe ==> startPoint == 0)
    modifies cip, server`file, server`marker, server`alive, server`turn, file, buf
    ensures cip.Valid() && cip.dataSocket == CLOSED && cip.sockets == map[]
    ensures (result == K_NO_ERR || Failure(result)) && (server.alive ==> old(server.alive))
    ensures server.alive && !server.keepsMarker && f.marker == 0 ==> server.marker == 0
    ensures cip.canceled ==> old(cip.canceled) || result == K_ERR_DATA_TRANSFER_ABORTED
    ensures !old(server.alive) ==> Failure(result) && server.file == old(server.file)
    ensures result == K_NO_ERR ==> cip.curTransferType == XType(ascii)
    ensures net.smooth && file.healthy ==>
              var start := Origin(old(file.pos), cmd, startPoint);
              (result == K_NO_ERR <==> old(server.alive) && Startable(server, f, ascii, start, net, old(cip.Settings())))
    ensures var start := Origin(old(file.pos), cmd, startPoint); var begun := OpenedFile(server, f, ascii, start, old(server.file));
      && (result == K_NO_ERR ==> server.file == Present(Octets(begun) + Due(file, ascii, start.from)))
      && (WellPlaced(server, f, ascii, start) ==>
            Shortened(old(server.file), server.file)
            || Octets(server.file) <= Octets(begun) + OnTheWire(ascii, file.data[start.from..]))
  {
    result := StartDataCmd(cip, server, XType(ascii), cmd, startPoint, net, f);
    if result < 0 {
      return;
    }
    if startPoint != 0 && cip.startPoint == 0 {
      // Only a download is answered by starting over; an upload has switched to APPE instead.
      assert false;
    }
    var a: Abort := *;
    result := SendAndEnd(cip, server, file, ascii, buf, net.smooth, a);
  }

  /** What an upload that is not skipped leaves: on success, the opened file and what is due behind it;
      otherwise, as long as the start was well placed, no more than the beginning of that. */
  ghost predicate Uploaded(file: InputFile, ascii: bool, action: Action, server: Server, f: Footing, start: Origin,
                           before: RemoteFile, after: RemoteFile, result: int)
  {
    var begun := OpenedFile(server, f, ascii, start, before);
    && OriginIs(file, ascii, action, |Octets(before)|, start)
    && (result == K_NO_ERR ==> after == Present(Octets(begun) + Due(file, ascii, start.from)))
    && (WellPlaced(server, f, ascii, start) ==>
          Shortened(before, after) || Octets(after) <= Octets(begun) + OnTheWire(ascii, file.data[start.from..]))
  }

  /** What it comes to when the remote file held the beginning of what is sent and the start was well placed.
      With a lost seek, success means that all of the file was added to it. Otherwise it still holds the
      beginning, and success means that it is complete exactly unless the text loop stops at a loss, which for a
      regular file is a matter of its length and end. */
  ghost predicate Meant(file: InputFile, ascii: bool, action: Action, from: nat, before: RemoteFile, after: RemoteFile, result: int) {
    var full := OnTheWire(ascii, file.data);
    if SeekLost(file, ascii, action, |Octets(before)|) then result == K_NO_ERR ==> after == Present(Octets(before) + full)
    else
      && Partial(after, full)
      && (result == K_NO_ERR ==>
            && from <= |file.data|
            && (after == Present(full) <==> !(ascii && LosesText(file, from)))
            && (file.regular ==> (after == Present(full) <==> !(ascii && LosesLineEnd(file.data[from..])))))
  }

  lemma UploadMeans(file: InputFile, ascii: bool, action: Action, server: Server, f: Footing, start: Origin,
                    before: RemoteFile, after: RemoteFile, result: int)
    requires action == Resume ==> before.Present?
    requires Uploaded(file, ascii, action, server, f, start, before, after, result)
    requires Partial(before, OnTheWire(ascii, file.data)) && WellPlaced(server, f, ascii, start)
    ensures Meant(file, ascii, action, start.from, before, after, result)
  {
    var last := Starting(server, f, XType(ascii), start.cmd, start.startPoint);
    var begun := server.Accepted(last.cmd, before, last.marker);
    WellPlacedIsReady(server, last, start.startPoint, before);
    StartCompletes(file, ascii, action, |Octets(before)|, start, before, begun);
    DueIsAllIff(file, ascii, start.from);
    LosesTextIff(file, start.from);
    SameTail(begun.bytes, Due(file, ascii, start.from), OnTheWire(ascii, file.data[start.from..]));
    assert file.data[0..] == file.data;
  }

  /** The upload that was decided on. */
  method PutFrom(cip: FTPConnection, server: Server, file: InputFile, ascii: bool, action: Action, startPoint0: int, buf: array<byte>,
                 net: Network, ghost f: Footing)
    returns (result: int, ghost start: Origin)
    requires cip.Valid() && cip.dataSocket == CLOSED && (server.alive ==> On(cip, server, f))
    requires file.Valid() && file.pos == 0 && buf.Length >= 2 * INBUF_SIZE + 1
    requires action == Resume || action == Overwrite
    requires action == Resume ==> server.file.Present? && startPoint0 == |server.file.bytes|
    modifies cip, server`file, server`marker, server`alive, server`turn, file, buf
    ensures cip.Valid() && cip.dataSocket == CLOSED && cip.sockets == map[]
    ensures (result == K_NO_ERR || Failure(result)) && (server.alive ==> old(server.alive))
    ensures server.alive && !server.keepsMarker && f.marker == 0 ==> server.marker == 0
    ensures cip.canceled ==> old(cip.canceled) || result == K_ERR_DATA_TRANSFER_ABORTED
    ensures result == K_NO_ERR ==> cip.curTransferType == XType(ascii)
    ensures net.smooth && file.healthy ==>
              (result == K_NO_ERR <==> old(server.alive) && Startable(server, f, ascii, start, net, old(cip.Settings())))
    ensures Uploaded(file, ascii, action, server, f, start, old(server.file), server.file, result)
    ensures result == K_NO_ERR && action == Overwrite && WellPlaced(server, f, ascii, start) ==> server.file == Present(Due(file, ascii, 0))
    ensures Partial(old(server.file), OnTheWire(ascii, file.data)) && WellPlaced(server, f, ascii, start) ==>
              Meant(file, ascii, action, start.from, old(server.file), server.file, result)
  {
    ghost var before := server.file;
    var cmd, startPoint;
    start := Origin(0, Stor, 0);
    result, cmd, startPoint := Position(cip, file, ascii, action, startPoint0, buf.Length, |Octets(server.file)|);
    if result >= 0 {
      start := Origin(file.pos, cmd, startPoint);
      result := SendFrom(cip, server, file, ascii, cmd, startPoint, buf, net, Footing(server.turn, server.marker, cip.curTransferType));
    }
    if result == K_NO_ERR && action == Overwrite && WellPlaced(server, f, ascii, start) {
      AfreshLeaves(file, ascii, server, f, start, before, server.file);
    }
    if Partial(before, OnTheWire(ascii, file.data)) && WellPlaced(server, f, ascii, start) {
      UploadMeans(file, ascii, action, server, f, start, before, server.file, result);
    }
  }

  /** Where the trial of REST that an upload begins with leads, if nothing gets lost. */
  ghost function AfterTrial(cip: FTPConnection, server: Server): Footing
    reads cip, server
  {
    Tried(server, Footing(server.turn, server.marker, cip.curTransferType), cip.hasREST)
  }

  /** The size of the remote file that an upload goes by. */
  predicate Knows(u: Upload, before: RemoteFile) {
    u.told && before.Present?
  }

  /** The remote file is to be written afresh: it is the older one, or is larger than the local one or of unknown
      size. */
  predicate Afresh(u: Upload, local: int, before: RemoteFile) {
    u.newer || if Knows(u, before) then local < |before.bytes| else local >= 0
  }

  /** Where an upload starts, said by the sizes: afresh at the beginning; with a smaller remote file, binary where that
      ends, and text behind the octets that are sent as it, if there are such, and else at the beginning. */
  ghost predicate StartsRight(u: Upload, file: InputFile, local: int, before: RemoteFile, start: Origin) {
    && (Afresh(u, local, before) ==> start == Origin(0, Stor, 0))
    && (!u.newer && Knows(u, before) && |before.bytes| < local ==>
          var n := |before.bytes|;
          if !u.asciiGiven && !u.textName then start == Origin(if file.SeekFails(n) then 0 else n, Stor, n)
          else
            && (start == Origin(0, Stor, 0) || (start.cmd == Appe && start.startPoint == 0 && SkipsTo(file.data, n, start.from)))
            && (file.healthy ==> (start.cmd == Appe <==> exists k :: SkipsTo(file.data, n, k))))
  }

  /** Neither newer nor of another size: the upload is skipped. */
  predicate SkipsRight(u: Upload, local: int, before: RemoteFile) {
    !u.newer && local == if Knows(u, before) then |before.bytes| else SIZE_UNKNOWN
  }

  /** That is what is chosen. */
  lemma ChosenRight(u: Upload, file: InputFile, sized: InputFile?, bufSize: nat, before: RemoteFile, start: Origin)
    requires bufSize > 0
    ensures var action, local := Chosen(u, file, sized, bufSize, before), LocalSize(u, file, sized, bufSize);
      && (action == Skip <==> SkipsRight(u, local, before))
      && (Afresh(u, local, before) ==> action == Overwrite)
      && (action != Skip && OriginIs(file, u.Ascii(), action, |Octets(before)|, start) ==> StartsRight(u, file, local, before, start))
  {
  }

  /** An upload afresh leaves what the data loop sends, whatever was there. */
  lemma AfreshLeaves(file: InputFile, ascii: bool, server: Server, f: Footing, start: Origin, before: RemoteFile, after: RemoteFile)
    requires Uploaded(file, ascii, Overwrite, server, f, start, before, after, K_NO_ERR) && WellPlaced(server, f, ascii, start)
    ensures after == Present(Due(file, ascii, 0))
  {
    var due := Due(file, ascii, 0);
    assert [] + due == due;
  }

  /** The sizes, the trial of REST and the decision. */
  method Decide(cip: FTPConnection, server: Server, file: InputFile, sized: InputFile?, u: Upload, bufSize: nat)
    returns (zaction: Action, startPoint: int)
    requires bufSize > 0 && (sized != null ==> sized != file && sized.Valid() && sized.pos == 0)
    modifies cip`hasREST, cip`curTransferType, server`alive, server`marker, server`turn, sized
    ensures zaction == Chosen(u, file, sized, bufSize, server.file) && startPoint == RemoteSize(server.file, u.told)
    ensures server.alive ==> old(server.alive) && On(cip, server, old(AfterTrial(cip, server)))
    ensures old(server.alive) && (forall t: nat :: server.Heard(t)) ==> server.alive
  {
    var localsize := |file.data|;
    if u.asciiGiven {
      localsize := LocalAsciiFileSize(sized, bufSize);
    }
    CheckForRestartModeAvailability(cip, server, Footing(server.turn, server.marker, cip.curTransferType));
    startPoint := RemoteSize(server.file, u.told);
    zaction := BestGuess(u.newer, localsize, startPoint);
  }

  /** FTPPutOneF, resuming by best guess, for every file, server and network. `sized` is the local file
      opened once more to be measured; `start` is where the upload started, if it did. */
  method PutOneF(cip: FTPConnection, server: Server, file: InputFile, sized: InputFile?, u: Upload, buf: array<byte>, net: Network)
    returns (result: int, sameAsRemote: bool, ghost start: Origin)
    requires cip.Valid() && cip.dataSocket == CLOSED
    requires file.Valid() && file.pos == 0 && buf.Length >= 2 * INBUF_SIZE + 1
    requires sized != null ==> sized != file && sized.Valid() && sized.pos == 0 && sized.data == file.data
    modifies cip, server`file, server`marker, server`alive, server`turn, file, sized, buf
    ensures cip.Valid() && cip.dataSocket == CLOSED && cip.sockets == map[]
    ensures server.alive ==> old(server.alive)
    ensures server.alive && !server.keepsMarker && old(server.marker) == 0 ==> server.marker == 0
    ensures cip.canceled ==> old(cip.canceled) || result == K_ERR_DATA_TRANSFER_ABORTED
    // nothing to do
    ensures sameAsRemote <==> Chosen(u, file, sized, buf.Length, old(server.file)) == Skip
    ensures sameAsRemote <==> SkipsRight(u, LocalSize(u, file, sized, buf.Length), old(server.file))
    ensures sameAsRemote <==> result == K_ERR_REMOTE_SAME_AS_LOCAL
    ensures sameAsRemote ==> server.file == old(server.file)
    // where it starts
    ensures !sameAsRemote ==> StartsRight(u, file, LocalSize(u, file, sized, buf.Length), old(server.file), start)
    // what it leaves
    ensures !sameAsRemote ==>
              Uploaded(file, u.Ascii(), Chosen(u, file, sized, buf.Length, old(server.file)), server, old(AfterTrial(cip, server)), start,
                       old(server.file), server.file, result)
    ensures !sameAsRemote && Partial(old(server.file), OnTheWire(u.Ascii(), file.data))
              && WellPlaced(server, old(AfterTrial(cip, server)), u.Ascii(), start) ==>
              Meant(file, u.Ascii(), Chosen(u, file, sized, buf.Length, old(server.file)), start.from, old(server.file), server.file, result)
    ensures Afresh(u, LocalSize(u, file, sized, buf.Length), old(server.file))
              && WellPlaced(server, old(AfterTrial(cip, server)), u.Ascii(), start) && result == K_NO_ERR ==>
              server.file == Present(Due(file, u.Ascii(), 0))
    ensures result == K_NO_ERR ==> cip.curTransferType == if u.asciiGiven || u.textName then 'A' else 'I'
    // when it succeeds
    ensures !sameAsRemote && net.smooth && file.healthy && old(server.alive) && (forall t: nat :: server.Heard(t)) ==>
              (result == K_NO_ERR <==> Startable(server, old(AfterTrial(cip, server)), u.Ascii(), start, net, old(cip.Settings())))
  {
    sameAsRemote, start := false, Origin(0, Stor, 0);
    ghost var f, before := AfterTrial(cip, server), server.file;
    var zaction, startPoint := Decide(cip, server, file, sized, u, buf.Length);
    if zaction == Skip {
      ChosenRight(u, file, sized, buf.Length, server.file, start);
      sameAsRemote := true;
      result := K_ERR_REMOTE_SAME_AS_LOCAL;
      return;
    }
    result, start := PutFrom(cip, server, file, u.Ascii(), zaction, startPoint, buf, net, f);
    ChosenRight(u, file, sized, buf.Length, before, start);
  }
}
