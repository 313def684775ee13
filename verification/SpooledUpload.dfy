/** Uploads from the spool (ncftpbatch.c): an item is tried again, pass after pass, until an attempt
    settles it. */
module SpooledUpload {
  import opened Basics
  import opened Bytes
  import opened Eoln
  import opened Errors
  import opened LocalFiles
  import opened AsciiUpload
  import opened AsciiResume
  import opened Connection
  import opened Transfer
  import opened ResumeUpload

  /** How the local file behaves while it is open. */
  datatype Opening = Opening(healthy: bool, regular: bool, onOffer: nat -> nat, badRead: nat -> bool, badSeek: nat -> bool)

  /** What an attempt meets: the local file to send and, if that can be opened, to measure; what is known of the
      remote file; whether the connection was closed between passes, and if a new one is opened, what
      its server says of REST; the network. */
  datatype Attempt = Attempt(toSend: Opening, toMeasure: Option<Opening>, newer: bool, told: bool, closed: bool,
                             hasREST: Availability, net: Network)

  method Open(data: seq<byte>, o: Opening) returns (file: InputFile)
    ensures fresh(file) && file.Valid() && file.pos == 0 && file.data == data && file.healthy == o.healthy && file.regular == o.regular
  {
    file := new InputFile(data, o.healthy, o.regular, o.onOffer, o.badRead, o.badSeek);
  }

  /** The attempts that take the item out of the spool. */
  predicate Settled(result: int) {
    result == K_NO_ERR || result == K_ERR_REMOTE_SAME_AS_LOCAL || result == K_ERR_COULD_NOT_START_DATA_TRANSFER
  }

  predicate EndsInTwoCRs(data: seq<byte>) {
    |data| > 1 && data[|data| - 1] == CR && data[|data| - 2] == CR
  }

  /** The data loop cannot lose any text, wherever it starts. */
  predicate Sure(ascii: bool, data: seq<byte>, regular: bool) {
    !ascii || CR !in data || (regular && !EndsInTwoCRs(data))
  }

  lemma SureLosesNothing(file: InputFile, ascii: bool, from: nat)
    requires from <= |file.data| && Sure(ascii, file.data, file.regular)
    ensures !(ascii && LosesText(file, from))
  {
    LosesTextIff(file, from);
  }

  /** "Same as remote" is right, for a remote file that holds the beginning of what is sent. */
  predicate SameMeansComplete(u: Upload, data: seq<byte>) {
    !u.Ascii() || (CountBareCR(data) == 0 && (u.asciiGiven || CountBareLF(data, 0) == 0))
  }

  /** A server that takes a marker for the next command only and holds none, with a partial file. */
  ghost predicate Resumable(server: Server, full: seq<byte>)
    reads server
  {
    !server.keepsMarker && (server.alive ==> server.marker == 0) && Partial(server.file, full)
  }

  /** What an attempt makes of such a file. It stays partial. Success means that it is complete, unless the text
      loop may lose something. "Same as remote", if the local file was measured, means that it is complete exactly
      when that message is right. */
  ghost predicate Settles(u: Upload, data: seq<byte>, a: Attempt, after: RemoteFile, result: int) {
    var full := OnTheWire(u.Ascii(), data);
    && Partial(after, full)
    && (result == K_NO_ERR && Sure(u.Ascii(), data, a.toSend.regular) ==> after == Present(full))
    && (result == K_ERR_REMOTE_SAME_AS_LOCAL && (u.asciiGiven ==> a.toMeasure.Some? && a.toMeasure.value.healthy) ==>
          (after == Present(full) <==> SameMeansComplete(u, data)))
  }

  /** That is so whatever PutOneF does, given what it promises, on a server that takes markers for one command only. */
  lemma AttemptSettles(u: Upload, file: InputFile, sized: InputFile?, bufSize: nat, a: Attempt, server: Server, f0: Footing, hasREST: Availability,
                       start: Origin, before: RemoteFile, after: RemoteFile, result: int)
    requires bufSize > 0 && !server.keepsMarker && f0.marker == 0 && Partial(before, OnTheWire(u.Ascii(), file.data))
    requires file.regular == a.toSend.regular && (u.Ascii() || file.healthy)
    requires if a.toMeasure == None then sized == null
             else sized != null && sized.data == file.data && sized.healthy == a.toMeasure.value.healthy
    requires result == K_ERR_REMOTE_SAME_AS_LOCAL ==> after == before && Chosen(u, file, sized, bufSize, before) == Skip
    requires result != K_ERR_REMOTE_SAME_AS_LOCAL ==>
      var action, f := Chosen(u, file, sized, bufSize, before), Tried(server, f0, hasREST);
      && Uploaded(file, u.Ascii(), action, server, f, start, before, after, result)
      && (WellPlaced(server, f, u.Ascii(), start) ==> Meant(file, u.Ascii(), action, start.from, before, after, result))
    ensures Settles(u, file.data, a, after, result)
  {
    var ascii, action := u.Ascii(), Chosen(u, file, sized, bufSize, before);
    if result == K_ERR_REMOTE_SAME_AS_LOCAL {
      EncodedLength(file.data);
      if LocalSize(u, file, sized, bufSize) != SIZE_UNKNOWN {
        SameIsRightIff(u, file, sized, bufSize, before);
      }
    } else {
      UploadMisplacedIff(server, f0, hasREST, ascii, start);
      assert !SeekLost(file, ascii, action, |Octets(before)|);
      if Sure(ascii, file.data, file.regular) {
        SureLosesNothing(file, ascii, start.from);
      }
    }
  }

  /** Every command is heard and taken, every connection comes about, and nothing disturbs the transfer. */
  ghost predicate Unhindered(server: Server, a: Attempt) {
    && (forall t: nat :: server.Heard(t) && server.answers(t).codeType == 2)
    && a.toSend.healthy && a.net.smooth && a.net.socket && a.net.passive(0) == ConnectSucceeded && a.net.passiveName
    && a.net.port == PortAccepted && a.net.accepted && a.net.sameAddress && a.net.port20
  }

  /** Then an upload starts, however the connection is set up. */
  lemma UnhinderedStarts(server: Server, a: Attempt, f: Footing, ascii: bool, start: Origin, s: Setup)
    requires Unhindered(server, a)
    ensures Startable(server, f, ascii, start, a.net, s)
  {
    if s.limit > 0 {
      assert Reaches(a.net, 0);
    }
  }

  /** A new connection, if the old one is closed or lost. */
  method Connect(cip: FTPConnection, server: Server, a: Attempt)
    modifies cip`curTransferType, cip`hasREST, cip`hasPASV, server`alive, server`marker
    ensures server.alive
    ensures server.marker == if a.closed || !old(server.alive) then 0 else old(server.marker)
  {
    if a.closed || !server.alive {
      server.alive, server.marker := true, 0;
      cip.curTransferType, cip.hasREST, cip.hasPASV := TYPE_ASCII, a.hasREST, Unknown;
    }
  }

  /** One attempt, on the connection of the last one if that is still open. */
  method TryItem(cip: FTPConnection, server: Server, data: seq<byte>, u: Upload, a: Attempt, buf: array<byte>)
    returns (result: int)
    requires cip.Valid() && cip.dataSocket == CLOSED && buf.Length >= 2 * INBUF_SIZE + 1
    modifies cip, server`file, server`marker, server`alive, server`turn, buf
    ensures cip.Valid() && cip.dataSocket == CLOSED && cip.sockets == map[]
    ensures Unhindered(server, a) ==> result == K_NO_ERR || result == K_ERR_REMOTE_SAME_AS_LOCAL
    ensures old(Resumable(server, OnTheWire(u.Ascii(), data))) && (u.Ascii() || a.toSend.healthy) ==>
              Resumable(server, OnTheWire(u.Ascii(), data)) && Settles(u, data, a, server.file, result)
  {
    Connect(cip, server, a);
    var file := Open(data, a.toSend);
    var sized: InputFile? := null;
    if a.toMeasure.Some? {
      sized := Open(data, a.toMeasure.value);
    }
    ghost var before, f0, hasREST := server.file, Footing(server.turn, server.marker, cip.curTransferType), cip.hasREST;
    var same;
    ghost var start, f, settings := Origin(0, Stor, 0), AfterTrial(cip, server), cip.Settings();
    result, same, start := PutOneF(cip, server, file, sized, u, buf, a.net);
    if Unhindered(server, a) {
      UnhinderedStarts(server, a, f, u.Ascii(), start, settings);
    }
    if f0.marker == 0 && !server.keepsMarker && Partial(before, OnTheWire(u.Ascii(), data)) && (u.Ascii() || a.toSend.healthy) {
      AttemptSettles(u, file, sized, buf.Length, a, server, f0, hasREST, start, before, server.file, result);
    }
  }

  /** Pass after pass until the item is settled or the spooler is stopped. Against a server that takes markers
      for one command only, however each attempt fails, the remote file stays a beginning of what is sent,
      and what settles the item means what it says. */
  method SpoolUpload(cip: FTPConnection, server: Server, data: seq<byte>, asciiGiven: bool, textName: bool, attempts: seq<Attempt>, buf: array<byte>)
    returns (result: int, passes: nat)
    requires cip.Valid() && cip.dataSocket == CLOSED && buf.Length >= 2 * INBUF_SIZE + 1 && attempts != []
    modifies cip, server`file, server`marker, server`alive, server`turn, buf
    ensures cip.Valid() && cip.dataSocket == CLOSED && cip.sockets == map[]
    ensures 0 < passes <= |attempts| && (passes < |attempts| ==> Settled(result))
    ensures var last := attempts[passes - 1]; var u := Upload(asciiGiven, textName, last.newer, last.told);
      old(Resumable(server, OnTheWire(u.Ascii(), data))) && (u.Ascii() || forall a :: a in attempts ==> a.toSend.healthy) ==>
        Settles(u, data, last, server.file, result)
    ensures Unhindered(server, attempts[passes - 1]) ==> result == K_NO_ERR || result == K_ERR_REMOTE_SAME_AS_LOCAL
    ensures forall i :: 0 <= i < passes - 1 ==> !Unhindered(server, attempts[i])
  {
    ghost var full, healthy := OnTheWire(asciiGiven || textName, data), asciiGiven || textName || forall a :: a in attempts ==> a.toSend.healthy;
    passes := 0;
    while true
      invariant passes < |attempts|
      invariant cip.Valid() && cip.dataSocket == CLOSED
      invariant forall i :: 0 <= i < passes ==> !Unhindered(server, attempts[i])
      invariant old(Resumable(server, full)) && healthy ==> Resumable(server, full)
      decreases |attempts| - passes
    {
      var a := attempts[passes];
      passes := passes + 1;
      result := TryItem(cip, server, data, Upload(asciiGiven, textName, a.newer, a.told), a, buf);
      if Settled(result) || passes == |attempts| {
        return;
      }
    }
  }
}
