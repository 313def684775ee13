/** Starting, aborting and ending a data transfer (rcmd.c), against a server that may support any
    mix of REST, STOR and APPE, refuse or lose any command, and drop the connection at any time. */
module Transfer {
  import opened Bytes
  import opened Errors
  import opened Connection

  datatype Command = Stor | Appe | Other
  /** What comes back for a command: nothing usable, or the first digit of a reply code. */
  datatype Reply = Lost | Code(codeType: int)
  datatype RemoteFile = Absent | Present(bytes: seq<byte>)

  function Octets(f: RemoteFile): seq<byte> {
    match f case Absent => [] case Present(bytes) => bytes
  }

  /** `g` is `f`, or a file holding no more than the beginning of it. */
  ghost predicate Shortened(f: RemoteFile, g: RemoteFile) {
    g == f || (g.Present? && g.bytes <= Octets(f))
  }

  type digit = d: int | 1 <= d <= 5 witness 1

  /** What becomes of a command: whether it gets to the server, the first digit of the reply, whether the
      reply is heard, and, for a refusal, whether it says that the command is not implemented. */
  datatype Answer = Answer(delivered: bool, codeType: digit, heard: bool, unimplemented: bool)

  /** The server as far as one file is concerned (sections 4.1.2 and 4.1.3 of RFC 959, section 5 of
      RFC 3659). It may take or refuse each command as it likes: `answers` tells, command by command. A
      restart marker is meant for the next command only; on a server that `keepsMarker` it stays until a
      transfer command is accepted. What appending at a marker makes of a file is not defined, so each
      server has its own way. */
  class Server {
    const keepsMarker: bool
    const appendAt: (seq<byte>, nat) -> seq<byte>
    const answers: nat -> Answer
    var file: RemoteFile
    var marker: nat
    var alive: bool
    var turn: nat  // how many commands were sent

    constructor (file: RemoteFile, keepsMarker: bool, appendAt: (seq<byte>, nat) -> seq<byte>, answers: nat -> Answer)
      ensures this.file == file && this.keepsMarker == keepsMarker && this.appendAt == appendAt && this.answers == answers
      ensures alive && marker == 0 && turn == 0
    {
      this.file, this.keepsMarker, this.appendAt, this.answers := file, keepsMarker, appendAt, answers;
      alive, marker, turn := true, 0, 0;
    }

    /** The marker after a command that neither set nor used it. */
    function Left(m: nat): nat {
      if keepsMarker then m else 0
    }

    predicate Heard(t: nat) {
      answers(t).delivered && answers(t).heard
    }

    /** The t-th command is refused, if it is REST. */
    predicate RestRefused(t: nat) {
      answers(t).codeType > 3
    }

    /** The t-th command is refused, if it starts a transfer. */
    predicate StoreRefused(t: nat) {
      answers(t).codeType > 2
    }

    /** The next answer. */
    method Answered() returns (reply: Reply)
      modifies `alive, `turn
      ensures turn == old(turn) + 1
      ensures reply == if old(alive) && Heard(old(turn)) then Code(answers(old(turn)).codeType) else Lost
      ensures alive == (reply != Lost)
    {
      alive := alive && Heard(turn);
      reply := if alive then Code(answers(turn).codeType) else Lost;
      turn := turn + 1;
    }

    /** TYPE and other commands that do not touch the file. */
    method Plain() returns (reply: Reply)
      modifies `alive, `marker, `turn
      ensures turn == old(turn) + 1
      ensures reply == if old(alive) && Heard(old(turn)) then Code(answers(old(turn)).codeType) else Lost
      ensures alive == (reply != Lost) && (alive ==> marker == Left(old(marker)))
    {
      marker := Left(marker);
      reply := Answered();
    }

    method Rest(n: nat) returns (reply: Reply)
      modifies `alive, `marker, `turn
      ensures turn == old(turn) + 1
      ensures reply == if old(alive) && Heard(old(turn)) then Code(answers(old(turn)).codeType) else Lost
      ensures alive == (reply != Lost)
      ensures alive ==> marker == if RestRefused(old(turn)) then Left(old(marker)) else n
    {
      marker := if RestRefused(turn) then Left(marker) else n;
      reply := Answered();
    }

    /** What an accepted command makes of the file. */
    function Accepted(cmd: Command, f: RemoteFile, m: nat): RemoteFile {
      match cmd
      case Stor => Present(Octets(f)[..Reach(m, Octets(f))])
      case Appe => Present(if m == 0 then Octets(f) else appendAt(Octets(f), m))
      case Other => f
    }

    /** STOR, APPE and others: accepted with a reply of class 1 or 2, or refused. The reply may get lost
        either way. */
    method Store(cmd: Command) returns (reply: Reply)
      modifies `file, `marker, `alive, `turn
      ensures turn == old(turn) + 1
      ensures reply == if old(alive) && Heard(old(turn)) then Code(answers(old(turn)).codeType) else Lost
      ensures alive == (reply != Lost)
      ensures file == if old(alive) && answers(old(turn)).delivered && !StoreRefused(old(turn)) then Accepted(cmd, old(file), old(marker))
                      else old(file)
      ensures alive ==> marker == if StoreRefused(old(turn)) then Left(old(marker)) else 0
    {
      if alive && answers(turn).delivered && !StoreRefused(turn) {
        file := Accepted(cmd, file, marker);
      }
      marker := if StoreRefused(turn) then Left(marker) else 0;
      reply := Answered();
    }

    /** Some of what was sent has arrived and is stored, all of it on a smooth network. */
    method Arrive(sent: seq<byte>, smooth: bool) returns (n: nat)
      modifies `file
      ensures smooth ==> n == |sent|
      ensures n <= |sent| && Octets(file) == Octets(old(file)) + sent[..n]
      ensures Octets(old(file)) <= Octets(file) <= Octets(old(file)) + sent
      ensures old(file).Present? ==> file.Present?
    {
      n :| 0 <= n <= |sent|;
      n := if smooth then |sent| else n;
      assert Octets(file) + sent[..n] <= Octets(file) + sent;
      if file.Present? || n > 0 {
        file := Present(Octets(file) + sent[..n]);
      }
    }

    /** The end of an upload: the server has stored what arrived of `sent`, and says so (class 2)
        only when that is all of it. */
    method FinishStore(sent: seq<byte>, smooth: bool) returns (reply: Reply)
      modifies `file, `alive
      ensures reply == Lost ==> !alive
      ensures reply != Lost ==> alive && old(alive)
      ensures Octets(old(file)) <= Octets(file) <= Octets(old(file)) + sent
      ensures old(file).Present? ==> file.Present?
      ensures reply == Code(2) ==> Octets(file) == Octets(old(file)) + sent
      ensures smooth && old(alive) ==> reply == Code(2)
    {
      var n := Arrive(sent, smooth);
      var heard := *;
      if !alive || !(heard || smooth) {
        alive := false;
        return Lost;
      }
      reply := Code(if n == |sent| then 2 else 4);
      assert n == |sent| ==> sent[..n] == sent;
    }
  }

  function Reach(n: nat, s: seq<byte>): nat {
    if n < |s| then n else |s|
  }

  /** FTPSetStartOffset; 0 is success. */
  method SetStartOffset(cip: FTPConnection, server: Server, restartPt0: int) returns (result: int)
    requires restartPt0 >= -1
    modifies cip`hasREST, server`alive, server`marker, server`turn
    ensures server.turn == old(server.turn) + (if restartPt0 == 0 then 0 else 1)
    ensures restartPt0 == 0 ==> result == 0 && server.alive == old(server.alive) && server.marker == old(server.marker)
    ensures restartPt0 != 0 ==> server.alive == (old(server.alive) && server.Heard(old(server.turn)))
    ensures restartPt0 != 0 ==> result == (if !server.alive then K_ERR_REMOTE_HOST_CLOSED_CONNECTION
                                           else if server.RestRefused(old(server.turn)) then K_ERR_SET_START_POINT else 0)
    ensures restartPt0 != 0 && server.alive ==>
              server.marker == (if server.RestRefused(old(server.turn)) then server.Left(old(server.marker))
                                else if restartPt0 == -1 then 0 else restartPt0)
    ensures cip.hasREST == if restartPt0 == 0 || !server.alive then old(cip.hasREST)
                           else if !server.RestRefused(old(server.turn)) then Available
                           else if server.answers(old(server.turn)).unimplemented then NotAvailable
                           else old(cip.hasREST)
  {
    result := 0;
    if restartPt0 != 0 {
      var restartPt := if restartPt0 == -1 then 0 else restartPt0;
      var reply := server.Rest(restartPt);
      if reply == Lost {
        return K_ERR_REMOTE_HOST_CLOSED_CONNECTION;
      } else if reply.codeType <= 3 {
        cip.hasREST := Available;
      } else {
        if server.answers(server.turn - 1).unimplemented {
          cip.hasREST := NotAvailable;
        }
        return K_ERR_SET_START_POINT;
      }
    }
  }

  const TYPE_ASCII := 'A'
  const TYPE_BINARY := 'I'
  const TYPE_EBCDIC := 'E'

  /** The letter TYPE is sent with; NUL for a type there is no letter for. */
  function TypeLetter(xtype: char): char {
    if xtype == TYPE_ASCII || xtype == 'a' then TYPE_ASCII
    else if xtype == TYPE_BINARY || xtype == 'i' || xtype == 'b' || xtype == 'B' then TYPE_BINARY
    else if xtype == TYPE_EBCDIC || xtype == 'e' then TYPE_EBCDIC
    else '\0'
  }

  lemma TypeLetters(xtype: char)
    ensures TypeLetter(xtype) == 'A' <==> xtype in "Aa"
    ensures TypeLetter(xtype) == 'I' <==> xtype in "IibB"
    ensures TypeLetter(xtype) == 'E' <==> xtype in "Ee"
    ensures TypeLetter(xtype) == '\0' <==> xtype !in "AaIibBEe"
  {
  }

  /** Whether TYPE has to be sent. */
  predicate SendsType(current: char, xtype: char) {
    current != xtype && TypeLetter(xtype) != '\0'
  }

  /** What the client and the server know of each other between two commands. */
  datatype Footing = Footing(turn: nat, marker: nat, curTransferType: char)

  /** The transfer type is the one wanted, or can be set to it. */
  predicate TypeAccepted(server: Server, f: Footing, xtype: char) {
    f.curTransferType == xtype || (TypeLetter(xtype) != '\0' && server.Heard(f.turn) && server.answers(f.turn).codeType == 2)
  }

  /** After the transfer type was set, if nothing got lost. */
  function Typed(server: Server, f: Footing, xtype: char): Footing {
    if !SendsType(f.curTransferType, xtype) then f
    else Footing(f.turn + 1, server.Left(f.marker), if server.answers(f.turn).codeType == 2 then TypeLetter(xtype) else f.curTransferType)
  }

  ghost predicate On(cip: FTPConnection, server: Server, f: Footing)
    reads cip, server
  {
    f == Footing(server.turn, server.marker, cip.curTransferType)
  }

  /** FTPSetTransferType: TYPE is sent unless it is already set. */
  method SetTransferType(cip: FTPConnection, server: Server, xtype: char) returns (result: int)
    modifies cip`curTransferType, server`alive, server`marker, server`turn
    ensures var f, sends := Footing(old(server.turn), old(server.marker), old(cip.curTransferType)), SendsType(old(cip.curTransferType), xtype);
      && server.turn == f.turn + (if sends then 1 else 0)
      && server.alive == (old(server.alive) && (sends ==> server.Heard(f.turn)))
      && (server.alive || !sends ==> On(cip, server, Typed(server, f, xtype)))
      && (result == K_NO_ERR <==> TypeAccepted(server, f, xtype) && (sends ==> old(server.alive)))
      && cip.curTransferType == (if sends && result == K_NO_ERR then TypeLetter(xtype) else f.curTransferType)
    ensures result == K_NO_ERR || Failure(result)
    ensures result == K_ERR_BAD_TRANSFER_TYPE <==> old(cip.curTransferType) != xtype && TypeLetter(xtype) == '\0'
  {
    if cip.curTransferType != xtype {
      if TypeLetter(xtype) == '\0' {
        return K_ERR_BAD_TRANSFER_TYPE;
      }
      var reply := server.Plain();
      if reply == Lost || reply.codeType != 2 {
        return K_ERR_TYPE_FAILED;
      }
      cip.curTransferType := TypeLetter(xtype);
    }
    result := K_NO_ERR;
  }

  /** After the trial REST, if nothing got lost. */
  function Tried(server: Server, f: Footing, hasREST: Availability): Footing {
    if hasREST != Unknown then f
    else
      var g := Typed(server, f, TYPE_BINARY);
      if server.RestRefused(g.turn) then g.(turn := g.turn + 1, marker := server.Left(g.marker))
      else g.(turn := g.turn + 2, marker := if server.RestRefused(g.turn + 1) then server.Left(1) else 0)
  }

  /** FTPCheckForRestartModeAvailability: sets a restart offset once, to see whether that works, and
      takes it back; whether taking it back is accepted is not looked at. */
  method CheckForRestartModeAvailability(cip: FTPConnection, server: Server, ghost f: Footing)
    requires On(cip, server, f)
    modifies cip`hasREST, cip`curTransferType, server`alive, server`marker, server`turn
    ensures server.alive ==> old(server.alive) && On(cip, server, Tried(server, f, old(cip.hasREST)))
    ensures old(cip.hasREST) != Unknown ==> cip.hasREST == old(cip.hasREST) && server.alive == old(server.alive)
    ensures old(server.alive) && (forall t: nat :: server.Heard(t)) ==> server.alive
  {
    if cip.hasREST == Unknown {
      var _ := SetTransferType(cip, server, TYPE_BINARY);
      var rc := SetStartOffset(cip, server, 1);
      if rc == 0 {
        var _ := SetStartOffset(cip, server, -1);
      }
    }
  }

  /** The trial leaves a marker behind exactly when it is accepted and taking it back is refused, on a
      server that keeps markers. */
  lemma TrialStuckIff(server: Server, f: Footing, hasREST: Availability)
    requires f.marker == 0
    ensures var t := Typed(server, f, TYPE_BINARY).turn;
      Tried(server, f, hasREST).marker != 0 <==>
      server.keepsMarker && hasREST == Unknown && !server.RestRefused(t) && server.RestRefused(t + 1)
  {
  }

  /** FTPEndDataCmd: closes the data connection and, after a transfer, reads the final reply, unless the
      transfer was canceled. */
  method EndDataCmd(cip: FTPConnection, server: Server, didXfer: bool, sent: seq<byte>, smooth: bool) returns (result: int)
    requires cip.Valid()
    modifies cip`dataSocket, cip`dataSocketConnected, cip`sockets, server`file, server`alive
    ensures cip.Valid() && cip.dataSocket == CLOSED && cip.sockets == map[] && !cip.dataSocketConnected
    ensures (result == K_NO_ERR || Failure(result)) && (server.alive ==> old(server.alive))
    ensures Octets(old(server.file)) <= Octets(server.file) <= Octets(old(server.file)) + sent
    ensures old(server.file).Present? ==> server.file.Present?
    ensures !didXfer ==> server.file == old(server.file)
    ensures result == K_NO_ERR && didXfer && !cip.canceled ==> Octets(server.file) == Octets(old(server.file)) + sent
    ensures cip.canceled ==> result == K_NO_ERR
    ensures !didXfer || (smooth && old(server.alive)) ==> result == K_NO_ERR
  {
    if cip.canceled {
      if didXfer {
        var _ := server.Arrive(sent, smooth);
      }
      return K_NO_ERR;
    }
    cip.CloseDataConnection();
    result := K_NO_ERR;
    if didXfer {
      var granted := *;
      if !granted && !smooth {
        var _ := server.Arrive(sent, false);
        return K_ERR_MALLOC_FAILED;
      }
      var reply := server.FinishStore(sent, smooth);
      if reply == Lost {
        return K_ERR_REMOTE_HOST_CLOSED_CONNECTION;
      }
      if reply.codeType != 2 {
        result := K_ERR_DATA_TRANSFER_FAILED;
      }
    }
  }

  /** What FTPStartDataCmd3 promises about the remote file before a single octet is sent. */
  ghost predicate ReadyToStore(cmd: Command, startPoint: int, before: RemoteFile, after: RemoteFile) {
    && after.Present?
    && (cmd == Appe ==> after.bytes == Octets(before))
    && (cmd == Stor && startPoint <= 0 ==> after.bytes == [])
    && (cmd == Stor && startPoint > 0 ==> after.bytes == Octets(before) || after.bytes == Octets(before)[..Reach(startPoint, Octets(before))])
  }

  /** The marker a transfer command needs. */
  function Wanted(cmd: Command, startPoint: nat): nat {
    if cmd == Appe then 0 else startPoint
  }

  /** A transfer command and the marker it meets. */
  datatype Placed = Placed(cmd: Command, marker: nat) {
    /** It is the one the command needs. */
    predicate Well(startPoint: nat) {
      marker == Wanted(cmd, startPoint)
    }
  }

  /** The command that is sent last when `cmd` is the t-th command and meets the marker `m`: STOR refused
      at an offset is followed by REST 0 and APPE. */
  function Last(server: Server, t: nat, m: nat, cmd: Command, startPoint: nat): Placed {
    if cmd == Stor && startPoint != 0 && server.StoreRefused(t)
    then Placed(Appe, if server.RestRefused(t + 1) then server.Left(m) else 0)
    else Placed(cmd, m)
  }

  /** What the attempt to start with `cmd` makes of the file, when `last` is the command sent last: a success is
      that command accepted; whatever happens, unless it is misplaced, the file keeps to the beginning of what
      it was. */
  ghost predicate Outcome(server: Server, last: Placed, cmd: Command, startPoint: nat, before: RemoteFile, after: RemoteFile, result: int) {
    && (result == K_NO_ERR ==> after == server.Accepted(last.cmd, before, last.marker))
    && (cmd != Other && last.Well(startPoint) ==> Shortened(before, after))
  }

  /** That command is accepted, and nothing gets lost on the way to it. */
  predicate Begins(server: Server, t: nat, cmd: Command, startPoint: nat) {
    server.Heard(t) &&
    if cmd == Stor && startPoint != 0 && server.StoreRefused(t)
    then server.Heard(t + 1) && server.Heard(t + 2) && !server.StoreRefused(t + 2)
    else !server.StoreRefused(t)
  }

  /** Sends the transfer command. When STOR is refused at an offset, APPE is tried instead; whether the
      REST 0 before it is accepted is not looked at. */
  method StartCommand(cip: FTPConnection, server: Server, cmd0: Command, startPoint: nat) returns (result: int)
    modifies server`file, server`marker, server`alive, server`turn
    ensures (result == K_NO_ERR || Failure(result)) && (server.alive ==> old(server.alive)) && server.turn > old(server.turn)
    ensures result == K_NO_ERR <==> old(server.alive) && Begins(server, old(server.turn), cmd0, startPoint)
    ensures result == K_NO_ERR ==> server.alive && server.marker == 0
    ensures server.alive && !server.keepsMarker ==> server.marker == 0
    ensures Outcome(server, Last(server, old(server.turn), old(server.marker), cmd0, startPoint), cmd0, startPoint,
                    old(server.file), server.file, result)
    ensures cmd0 == Other || !old(server.alive) ==> server.file == old(server.file)
  {
    var cmd := cmd0;
    var reply := server.Store(cmd);
    if reply == Lost {
      return K_ERR_REMOTE_HOST_CLOSED_CONNECTION;
    }
    var respCode := reply.codeType;
    if respCode > 2 && cmd == Stor && startPoint != 0 {
      var _ := server.Rest(0);
      cmd := Appe;
      reply := server.Store(cmd);
      if reply == Lost {
        return K_ERR_REMOTE_HOST_CLOSED_CONNECTION;
      }
      respCode := reply.codeType;
    }
    if respCode > 2 {
      return K_ERR_COULD_NOT_START_DATA_TRANSFER;
    }
    result := K_NO_ERR;
  }

  function Offset(startPoint: int): nat {
    if startPoint <= 0 then 0 else startPoint
  }

  /** The command that is sent last when REST, if there is an offset, is the t-th command: a server that
      refuses it is sent APPE instead of STOR. */
  function Sending(server: Server, t: nat, m: nat, cmd: Command, startPoint: int): Placed {
    if startPoint <= 0 then Last(server, t, m, cmd, 0)
    else if !server.RestRefused(t) then Last(server, t + 1, startPoint, cmd, startPoint)
    else if cmd == Stor then Last(server, t + 1, server.Left(m), Appe, startPoint)
    else Last(server, t + 1, server.Left(m), cmd, 0)
  }

  /** That command is accepted, and nothing gets lost on the way to it. */
  predicate Starts(server: Server, t: nat, cmd: Command, startPoint: int) {
    if startPoint <= 0 then Begins(server, t, cmd, 0)
    else
      server.Heard(t) &&
      if !server.RestRefused(t) then Begins(server, t + 1, cmd, startPoint)
      else if cmd == Stor then Begins(server, t + 1, Appe, startPoint)
      else Begins(server, t + 1, cmd, 0)
  }

  /** The restart offset and the transfer command. */
  method SendTransferCommand(cip: FTPConnection, server: Server, cmd0: Command, startPoint0: int) returns (result: int)
    requires startPoint0 >= -1 && (cmd0 == Appe ==> startPoint0 == 0)
    modifies cip`hasREST, cip`startPoint, server`file, server`marker, server`alive, server`turn
    ensures (result == K_NO_ERR || Failure(result)) && (server.alive ==> old(server.alive))
    ensures result == K_NO_ERR <==> old(server.alive) && Starts(server, old(server.turn), cmd0, startPoint0)
    ensures cmd0 == Stor && startPoint0 > 0 && old(server.alive) && (forall u: nat :: server.Heard(u)) ==>
              var t := old(server.turn);
              (result == K_NO_ERR <==> !server.StoreRefused(t + 1) || (!server.RestRefused(t) && !server.StoreRefused(t + 3)))
    ensures result == K_NO_ERR ==> server.alive && server.marker == 0
    ensures server.alive && !server.keepsMarker ==> server.marker == 0
    ensures result == K_NO_ERR ==> cip.startPoint == Offset(startPoint0) || (cmd0 == Other && cip.startPoint == 0)
    ensures Outcome(server, Sending(server, old(server.turn), old(server.marker), cmd0, startPoint0), cmd0, Offset(startPoint0),
                    old(server.file), server.file, result)
    ensures cmd0 == Other || !old(server.alive) ==> server.file == old(server.file)
  {
    var cmd, startPoint := cmd0, startPoint0;
    if startPoint != 0 {
      if startPoint == -1 {
        startPoint := 0;
      } else {
        var rc := SetStartOffset(cip, server, startPoint);
        if rc != 0 {
          if cmd == Stor {
            cmd := Appe;
          } else {
            startPoint := 0;
          }
        }
      }
    }
    cip.startPoint := startPoint;
    result := StartCommand(cip, server, cmd, startPoint);
  }

  /** Exactly when the last command of an upload meets another marker than it needs: one is left over and
      the file is not to be resumed, or REST is refused and keeps it; or the server keeps markers, and refuses
      STOR at the offset and then REST 0. */
  lemma MisplacedIff(server: Server, t: nat, m: nat, cmd: Command, startPoint: int)
    requires cmd == Stor || (cmd == Appe && startPoint == 0)
    ensures !Sending(server, t, m, cmd, startPoint).Well(Offset(startPoint)) <==>
      if startPoint <= 0 then m != 0
      else if server.RestRefused(t) then server.keepsMarker && m != 0
      else server.keepsMarker && server.StoreRefused(t + 1) && server.RestRefused(t + 2)
  {
  }

  /** An upload that should overwrite three octets and leaves the first of them in front: the trial offset
      is accepted, taking it back is refused, and the server keeps it. */
  method StuckMarker(cip: FTPConnection) returns (server: Server)
    requires cip.hasREST == Unknown && cip.curTransferType == TYPE_BINARY
    modifies cip`hasREST, cip`curTransferType, cip`startPoint
    ensures fresh(server) && server.alive && server.file == Present([1])
  {
    server := new Server(Present([1, 2, 3]), true, (f, m) => f, t => Answer(true, if t == 0 then 3 else if t == 1 then 5 else 1, true, false));
    CheckForRestartModeAvailability(cip, server, Footing(0, 0, TYPE_BINARY));
    assert server.turn == 2 && server.marker == 1;
    var result := SendTransferCommand(cip, server, Stor, 0);
    assert result == K_NO_ERR && server.file == Present([1]);
  }

  /** A well placed command leaves the file ready to be completed. */
  lemma WellPlacedIsReady(server: Server, last: Placed, startPoint: int, before: RemoteFile)
    requires last.cmd != Other && last.Well(Offset(startPoint))
    ensures ReadyToStore(last.cmd, startPoint, before, server.Accepted(last.cmd, before, last.marker))
  {
  }

  /** The data connection, as far as starting a transfer goes. */
  method OpenData(cip: FTPConnection, net: Network) returns (result: int)
    requires cip.Valid()
    modifies cip`dataSocket, cip`dataSocketConnected, cip`sockets, cip`nextSocket, cip`hasPASV, cip`dataPortMode, cip`pasvSent, cip`portSent
    ensures cip.Tidy() && (result == K_NO_ERR || Failure(result)) && (result == K_NO_ERR <==> cip.dataSocket != CLOSED)
    ensures !cip.dataSocketConnected
    ensures var s := old(cip.Settings());
      DataComes(net, s) <==> result == K_NO_ERR && (cip.dataPortMode == SendPortMode ==> Accepts(net, s))
  {
    result := cip.OpenDataConnection(cip.dataPortMode, net);
  }

  /** The steps of FTPStartDataCmd3 that can fail half-way: data connection, offset and command,
      accept. */
  method TryToStart(cip: FTPConnection, server: Server, cmd0: Command, startPoint0: int, net: Network) returns (result: int)
    requires cip.Valid() && !cip.canceled
    requires startPoint0 >= -1 && (cmd0 == Appe ==> startPoint0 == 0)
    modifies cip, server`file, server`marker, server`alive, server`turn
    ensures cip.Tidy() && !cip.canceled && !cip.dataSocketConnected
    ensures cip.canceling == old(cip.canceling) && cip.curTransferType == old(cip.curTransferType)
    ensures server.alive ==> old(server.alive)
    ensures (result == K_NO_ERR || Failure(result)) && (result == K_NO_ERR ==> cip.dataSocket != CLOSED && server.alive && server.marker == 0)
    ensures server.alive && !server.keepsMarker && old(server.marker) == 0 ==> server.marker == 0
    ensures result == K_NO_ERR ==> cip.startPoint == Offset(startPoint0) || (cmd0 == Other && cip.startPoint == 0)
    ensures Outcome(server, Sending(server, old(server.turn), old(server.marker), cmd0, startPoint0), cmd0, Offset(startPoint0),
                    old(server.file), server.file, result)
    ensures result == K_NO_ERR <==> DataComes(net, old(cip.Settings())) && old(server.alive) && Starts(server, old(server.turn), cmd0, startPoint0)
    ensures cmd0 == Other || !old(server.alive) ==> server.file == old(server.file)
  {
    result := OpenData(cip, net);
    if result < 0 {
      return;
    }
    result := SendTransferCommand(cip, server, cmd0, startPoint0);
    if result < 0 {
      return;
    }
    result := cip.AcceptDataConnection(net);
  }

  /** The command FTPStartDataCmd3 sends last. */
  function Starting(server: Server, f: Footing, xtype: char, cmd: Command, startPoint: int): Placed {
    var g := Typed(server, f, xtype);
    Sending(server, g.turn, g.marker, cmd, startPoint)
  }

  /** Starts with the transfer type set; a failed start ends what it began. */
  method StartTyped(cip: FTPConnection, server: Server, cmd0: Command, startPoint0: int, net: Network) returns (result: int)
    requires cip.Valid() && startPoint0 >= -1 && (cmd0 == Appe ==> startPoint0 == 0)
    modifies cip, server`file, server`marker, server`alive, server`turn
    ensures cip.Valid() && cip.canceling == old(cip.canceling) && !cip.canceled
    ensures cip.curTransferType == old(cip.curTransferType)
    ensures (result == K_NO_ERR || Failure(result)) && (server.alive ==> old(server.alive))
    ensures result == K_NO_ERR ==> cip.dataSocket != CLOSED && cip.dataSocketConnected
    ensures result < 0 ==> cip.dataSocket == CLOSED && !cip.dataSocketConnected && cip.sockets == map[]
    ensures result == K_NO_ERR ==> server.alive && server.marker == 0
    ensures server.alive && !server.keepsMarker && old(server.marker) == 0 ==> server.marker == 0
    ensures result == K_NO_ERR ==> cip.startPoint == Offset(startPoint0) || (cmd0 == Other && cip.startPoint == 0)
    ensures Outcome(server, Sending(server, old(server.turn), old(server.marker), cmd0, startPoint0), cmd0, Offset(startPoint0),
                    old(server.file), server.file, result)
    ensures result == K_NO_ERR <==> DataComes(net, old(cip.Settings())) && old(server.alive) && Starts(server, old(server.turn), cmd0, startPoint0)
    ensures cmd0 == Other || !old(server.alive) ==> server.file == old(server.file)
  {
    cip.canceled := false;
    cip.dataSocketConnected := false;
    result := TryToStart(cip, server, cmd0, startPoint0, net);
    if result < 0 {
      var _ := EndDataCmd(cip, server, false, [], net.smooth);
      return;
    }
    cip.dataSocketConnected := true;
  }

  /** FTPStartDataCmd3: sets the transfer type and starts. */
  method StartDataCmd(cip: FTPConnection, server: Server, xtype: char, cmd0: Command, startPoint0: int, net: Network, ghost f: Footing)
    returns (result: int)
    requires cip.Valid() && On(cip, server, f)
    requires startPoint0 >= -1 && (cmd0 == Appe ==> startPoint0 == 0)
    modifies cip, server`file, server`marker, server`alive, server`turn
    ensures cip.Valid() && cip.canceling == old(cip.canceling)
    ensures (result == K_NO_ERR || Failure(result)) && (cip.canceled ==> old(cip.canceled)) && (server.alive ==> old(server.alive))
    ensures result == K_NO_ERR ==> cip.dataSocket != CLOSED && cip.dataSocketConnected && !cip.canceled
    ensures result < 0 && old(cip.dataSocket) == CLOSED ==> cip.dataSocket == CLOSED && !cip.dataSocketConnected && cip.sockets == map[]
    ensures result == K_NO_ERR ==> server.alive && server.marker == 0 && (cip.curTransferType == xtype || cip.curTransferType == TypeLetter(xtype))
    ensures server.alive && !server.keepsMarker && f.marker == 0 ==> server.marker == 0
    ensures result == K_NO_ERR ==> cip.startPoint == Offset(startPoint0) || (cmd0 == Other && cip.startPoint == 0)
    ensures Outcome(server, Starting(server, f, xtype, cmd0, startPoint0), cmd0, Offset(startPoint0), old(server.file), server.file, result)
    ensures result == K_NO_ERR <==> DataComes(net, old(cip.Settings())) && old(server.alive) && TypeAccepted(server, f, xtype)
                                    && Starts(server, Typed(server, f, xtype).turn, cmd0, startPoint0)
    ensures cmd0 == Other || !old(server.alive) ==> server.file == old(server.file)
  {
    result := SetTransferType(cip, server, xtype);
    if result < 0 {
      return;
    }
    result := StartTyped(cip, server, cmd0, startPoint0, net);
  }

  /** What WaitResponse finds within its timeout. */
  datatype Wait = Failed | Nothing | Something

  /** How the ABOR exchange goes: whether ABOR can be sent, what the two waits find, whether there is memory for a
      response, and the responses. */
  datatype Abort = Abort(sent: bool, first: Wait, second: Wait, mallocOk: bool, reply: Reply, reply2: Reply)

  /** A reply to ABOR comes within the time there is. */
  predicate AbortAnswered(a: Abort, abortTimeout: nat) {
    a.sent && (abortTimeout == 0 || a.first == Something || (a.first == Nothing && a.second == Something))
  }

  /** The transfer is aborted: the reply is usable, and so is the one that follows a reply of class 4. */
  predicate AbortAcknowledged(a: Abort, abortTimeout: nat) {
    AbortAnswered(a, abortTimeout) && a.mallocOk && a.reply != Lost && (a.reply.codeType == 4 ==> a.reply2 != Lost)
  }

  /** FTPAbortDataTransfer, for every course of the ABOR exchange. Unless the response object cannot
      be allocated, the data connection ends up closed; `canceled` is only ever set on a closed one. */
  method AbortDataTransfer(cip: FTPConnection, a: Abort) returns (acknowledged: bool)
    requires cip.Valid()
    modifies cip`dataSocket, cip`dataSocketConnected, cip`sockets, cip`canceling, cip`canceled
    ensures cip.Valid() && !cip.canceling
    ensures cip.dataSocket == CLOSED <==>
              !(old(cip.dataSocket) != CLOSED && a.sent && !a.mallocOk && (cip.abortTimeout == 0 || a.first == Something))
    ensures cip.canceled <==> old(cip.canceled) || acknowledged
    ensures acknowledged <==> old(cip.dataSocket) != CLOSED && AbortAcknowledged(a, cip.abortTimeout)
  {
    acknowledged := false;
    if cip.dataSocket != CLOSED {
      var closed := false;
      cip.canceling := true;
      if !a.sent {
        cip.CloseDataConnection();
        cip.canceling := false;
        return;
      }
      if cip.abortTimeout != 0 {
        if a.first == Failed {
          cip.CloseDataConnection();
          cip.canceling := false;
          return;
        }
        if a.first == Nothing {
          cip.CloseDataConnection();
          closed := true;
          if a.second != Something {
            cip.canceling := false;
            return;
          }
        }
      }
      if !a.mallocOk {
        cip.canceling := false;
        return;
      }
      if a.reply == Lost {
        if !closed {
          cip.CloseDataConnection();
        }
        cip.canceling := false;
        return;
      }
      if a.reply.codeType == 4 {
        if a.reply2 == Lost {
          if !closed {
            cip.CloseDataConnection();
          }
          cip.canceling := false;
          return;
        }
      }
      cip.canceled := true;
      if !closed {
        cip.CloseDataConnection();
      }
      acknowledged := true;
    }
    cip.canceling := false;
  }

  /** Start, perhaps abort, end: the frame in which every transfer runs. However the server and the
      network behave, it leaves no socket behind. */
  method RunTransfer(cip: FTPConnection, server: Server, xtype: char, cmd: Command, startPoint: int, net: Network, abort: bool, a: Abort, sent: seq<byte>)
    returns (result: int)
    requires cip.Valid() && cip.dataSocket == CLOSED && !cip.canceling
    requires startPoint >= -1 && (cmd == Appe ==> startPoint == 0)
    modifies cip, server
    ensures cip.Valid() && cip.dataSocket == CLOSED && cip.sockets == map[] && !cip.dataSocketConnected && !cip.canceling
    ensures var f := Footing(old(server.turn), old(server.marker), old(cip.curTransferType)); var last := Starting(server, f, xtype, cmd, startPoint);
      && (result == K_NO_ERR && !cip.canceled ==> Octets(server.file) == Octets(server.Accepted(last.cmd, old(server.file), last.marker)) + sent)
      && (net.smooth && !abort ==>
            (result == K_NO_ERR <==> DataComes(net, old(cip.Settings())) && old(server.alive) && TypeAccepted(server, f, xtype)
                                     && Starts(server, Typed(server, f, xtype).turn, cmd, startPoint)))
  {
    result := StartDataCmd(cip, server, xtype, cmd, startPoint, net, Footing(server.turn, server.marker, cip.curTransferType));
    if result < 0 {
      return;
    }
    if abort {
      var _ := AbortDataTransfer(cip, a);
    }
    result := EndDataCmd(cip, server, true, sent, net.smooth);
  }
}
