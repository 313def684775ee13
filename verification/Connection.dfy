/** The data connection of an FTP session (ftp.c): opening it passively or with PORT, accepting it,
    closing it. Sockets live in a table, so that one left open would show. */
module Connection {
  import opened Errors

  const CLOSED := -1

  datatype PortMode = SendPortMode | PassiveMode | FallBackToSendPortMode
  datatype Availability = Unknown | Available | NotAvailable

  /** What has been done with a socket. */
  datatype SocketState = Idle | Bound | Listening | Connected

  /** How one turn of the PASV loop goes. */
  datatype PassiveTry = PasvRefused | BindFailed | ConnectTimedOut | ConnectFailed(bogusPort: bool) | ConnectSucceeded

  /** How the PORT branch goes. */
  datatype PortTry = PortBindFailed | PortNameFailed | ListenFailed | PortRefused | PortAccepted

  /** Everything OpenDataConnection asks of the system and of the server. */
  datatype Network = Network(
    socket: bool,              // the first socket()
    passive: nat -> PassiveTry,
    resocket: nat -> bool,     // the socket() after the i-th failed connect
    socketAgain: bool,         // the socket() after falling back to PORT
    passiveName: bool,         // getsockname() after PASV
    port: PortTry,
    accepted: bool,            // accept() after PORT
    sameAddress: bool,         // the server's end has the address of the control connection
    port20: bool,              // and the port before that of the control connection
    smooth: bool)              // nothing disturbs the transfer once it has started

  /** Where the PASV loop leaves to. */
  datatype Exit = Through | Retry | TryPort | TryPort2 | Bad | NoSocket

  /** The i-th PASV attempt gets as far as connecting, and fails there. */
  ghost predicate Fails(net: Network, i: nat) {
    net.passive(i).ConnectTimedOut? || net.passive(i).ConnectFailed?
  }

  /** The i-th PASV attempt is made, and ends the attempts otherwise than by failing to connect. */
  ghost predicate Reaches(net: Network, i: nat) {
    && (forall j: nat :: j < i ==> Fails(net, j) && net.resocket(j))
    && !Fails(net, i)
  }

  /** One of the allowed PASV attempts connects. */
  ghost predicate Connects(net: Network, limit: int) {
    exists i: nat :: i < limit && Reaches(net, i) && net.passive(i).ConnectSucceeded?
  }

  /** The server refuses one of the allowed PASV commands. */
  ghost predicate Refuses(net: Network, limit: int) {
    exists i: nat :: i < limit && Reaches(net, i) && net.passive(i).PasvRefused?
  }

  lemma ReachesOnce(net: Network, i: nat)
    requires Reaches(net, i)
    ensures forall j: nat :: Reaches(net, j) ==> j == i
    ensures forall limit: int :: i < limit ==> (Connects(net, limit) <==> net.passive(i).ConnectSucceeded?)
    ensures forall limit: int :: i < limit ==> (Refuses(net, limit) <==> net.passive(i).PasvRefused?)
  {
    forall j: nat | Reaches(net, j) ensures j == i {
    }
  }

  /** The attempts end at `last`, which fails to connect and is the last allowed or gets no new socket. */
  lemma ReachesNone(net: Network, last: nat, limit: int)
    requires last < limit && (forall j: nat :: j <= last ==> Fails(net, j))
    requires last + 1 == limit || !net.resocket(last)
    ensures forall i: nat :: i < limit ==> !Reaches(net, i)
    ensures !Connects(net, limit) && !Refuses(net, limit)
  {
  }

  /** All of the allowed PASV attempts fail while connecting. */
  ghost predicate Exhausted(net: Network, limit: int) {
    && (forall i: nat :: i < limit ==> Fails(net, i))
    && (forall i: nat :: i < limit - 1 ==> net.resocket(i))
  }

  /** How many PORT commands the PORT branch sends. */
  function PortCommands(net: Network): nat {
    if net.port == PortRefused || net.port == PortAccepted then 1 else 0
  }

  /** Opening gets to the PORT branch: at once, or in fallback mode after a refused PASV, or after all the connects
      have failed if PASV has never worked. */
  ghost predicate TriesPort(net: Network, mode: PortMode, hasPASV: Availability, limit: int) {
    net.socket &&
    (hasPASV == NotAvailable || mode == SendPortMode || (mode == FallBackToSendPortMode &&
     (Refuses(net, limit) || (hasPASV == Unknown && limit > 0 && Exhausted(net, limit) && net.socketAgain))))
  }

  /** Opening is done with PASV and has a socket to name: a connected one, or, where nothing was connected, an
      idle one. */
  ghost predicate HasPassive(net: Network, mode: PortMode, hasPASV: Availability, limit: int) {
    net.socket && hasPASV != NotAvailable && mode != SendPortMode &&
    (limit <= 0 || Connects(net, limit)
     || (mode == FallBackToSendPortMode && hasPASV == Available && Exhausted(net, limit) && net.socketAgain))
  }

  /** Opening succeeds. */
  ghost predicate Opens(net: Network, mode: PortMode, hasPASV: Availability, limit: int) {
    (TriesPort(net, mode, hasPASV, limit) && net.port == PortAccepted) || (HasPassive(net, mode, hasPASV, limit) && net.passiveName)
  }

  /** How a connection is set up, as far as opening data connections goes. */
  datatype Setup = Setup(mode: PortMode, hasPASV: Availability, limit: nat, allowProxyForPORT: bool, require20: bool)

  /** After PORT, the server connects, from its own address unless others are allowed, and from the right port if
      that is asked for. */
  predicate Accepts(net: Network, s: Setup) {
    net.accepted && (s.allowProxyForPORT || net.sameAddress) && (!s.require20 || net.port20)
  }

  /** A data connection can be opened, and accepted if it takes PORT. */
  ghost predicate DataComes(net: Network, s: Setup) {
    Opens(net, s.mode, s.hasPASV, s.limit) && (TriesPort(net, s.mode, s.hasPASV, s.limit) ==> Accepts(net, s))
  }

  /** What is known of PASV afterwards. */
  ghost function PasvAfter(net: Network, mode: PortMode, hasPASV: Availability, limit: int): Availability {
    if !net.socket || mode == SendPortMode || hasPASV == NotAvailable then hasPASV
    else if Refuses(net, limit) then NotAvailable
    else if hasPASV == Unknown && mode == FallBackToSendPortMode && limit > 0 && Exhausted(net, limit) then NotAvailable
    else if HasPassive(net, mode, hasPASV, limit) && net.passiveName then Available
    else hasPASV
  }

  class FTPConnection {
    var dataSocket: int
    var dataSocketConnected: bool
    var canceled: bool
    var canceling: bool
    var hasPASV: Availability
    var hasREST: Availability
    var dataPortMode: PortMode
    var startPoint: int
    var curTransferType: char
    var maxNumberOfSuccessivePASVAttempts: int
    var abortTimeout: nat
    var allowProxyForPORT: bool
    var require20: bool

    var sockets: map<int, SocketState>
    var nextSocket: nat
    ghost var pasvSent: nat
    ghost var portSent: nat

    /** No socket is open but the data socket, and a closed connection is not a connected one. */
    ghost predicate Tidy()
      reads this
    {
      && sockets.Keys == (if dataSocket == CLOSED then {} else {dataSocket})
      && (dataSocket == CLOSED ==> !dataSocketConnected)
      && (dataSocket != CLOSED ==> 0 <= dataSocket < nextSocket)
    }

    ghost predicate Valid()
      reads this
    {
      Tidy() && (canceled ==> dataSocket == CLOSED)
    }

    method Socket(granted: bool) returns (fd: int)
      requires forall s :: s in sockets ==> s < nextSocket
      modifies `sockets, `nextSocket
      ensures granted ==> fd == old(nextSocket) && nextSocket == fd + 1 && sockets == old(sockets)[fd := Idle] && fd !in old(sockets)
      ensures !granted ==> fd == -1 && nextSocket == old(nextSocket) && sockets == old(sockets)
    {
      if !granted {
        return -1;
      }
      fd := nextSocket;
      nextSocket := nextSocket + 1;
      sockets := sockets[fd := Idle];
    }

    method DisposeSocket(fd: int)
      modifies `sockets
      ensures sockets == old(sockets) - {fd}
    {
      sockets := sockets - {fd};
    }

    method CloseDataConnection()
      requires Tidy()
      modifies `dataSocket, `dataSocketConnected, `sockets
      ensures Tidy() && Valid() && dataSocket == CLOSED && sockets == map[] && !dataSocketConnected
    {
      if dataSocket != CLOSED {
        DisposeSocket(dataSocket);
        dataSocket := CLOSED;
      }
      dataSocketConnected := false;
    }

    /** What follows a connect(): success, another attempt, giving up, or falling back to PORT. */
    method JudgeConnect(mode: PortMode, passive: PassiveTry, fd: int, remaining: nat) returns (exit: Exit, result: int)
      requires passive.ConnectTimedOut? || passive.ConnectFailed? || passive.ConnectSucceeded?
      requires sockets == map[fd := Bound]
      modifies `sockets, `hasPASV
      ensures passive.ConnectSucceeded? ==> exit == Through && result == 0 && sockets == map[fd := Connected] && hasPASV == old(hasPASV)
      ensures !passive.ConnectSucceeded? && remaining == 0 && mode == FallBackToSendPortMode ==>
                exit == TryPort2 && sockets == map[] && hasPASV == (if old(hasPASV) == Unknown then NotAvailable else old(hasPASV))
      ensures !passive.ConnectSucceeded? && !(remaining == 0 && mode == FallBackToSendPortMode) ==>
                Failure(result) && sockets == old(sockets) && hasPASV == old(hasPASV) && (exit == Bad || exit == Retry) && (exit == Bad ==> remaining == 0)
    {
      result, exit := 0, Through;
      if passive.ConnectTimedOut? {
        if mode == FallBackToSendPortMode {
          if remaining == 0 {
            DisposeSocket(fd);
            if hasPASV == Unknown {
              hasPASV := NotAvailable;
            }
            return TryPort2, result;
          }
        }
        result := K_ERR_CONNECT_DATA_SOCKET;
        return (if remaining == 0 then Bad else Retry), result;
      } else if passive.ConnectFailed? {
        if passive.bogusPort {
          if mode == FallBackToSendPortMode {
            if remaining == 0 {
              if hasPASV == Unknown {
                hasPASV := NotAvailable;
              }
              DisposeSocket(fd);
              return TryPort2, result;
            }
          }
          result := K_ERR_SERVER_SENT_BOGUS_PORT_NUMBER;
          if remaining == 0 {
            return Bad, result;
          }
        }
        if mode == FallBackToSendPortMode && remaining == 0 {
          DisposeSocket(fd);
          if hasPASV == Unknown {
            hasPASV := NotAvailable;
          }
          return TryPort2, result;
        }
        result := K_ERR_CONNECT_DATA_SOCKET;
        return Retry, result;
      }
      sockets := sockets[fd := Connected];
    }

    /** One turn of the PASV loop on the idle socket `fd0`; a Retry comes with a new idle socket. */
    method PassiveAttempt(mode: PortMode, net: Network, i: nat, fd0: int, remaining: nat) returns (exit: Exit, result: int, fd: int)
      requires sockets == map[fd0 := Idle] && 0 <= fd0 < nextSocket
      requires mode != SendPortMode && hasPASV != NotAvailable
      modifies `sockets, `nextSocket, `hasPASV, `pasvSent
      ensures pasvSent == old(pasvSent) + 1 && nextSocket >= old(nextSocket)
      ensures exit == Through ==> !Fails(net, i) && fd == fd0 && sockets == map[fd := Connected] && hasPASV == old(hasPASV) && result == 0
      ensures exit == Retry ==> Fails(net, i) && net.resocket(i) && 0 <= fd < nextSocket && sockets == map[fd := Idle]
                                && hasPASV == old(hasPASV) && Failure(result) && !(remaining == 0 && mode == FallBackToSendPortMode)
      ensures exit == TryPort ==> !Fails(net, i) && mode == FallBackToSendPortMode && hasPASV == NotAvailable && fd == fd0 && sockets == map[fd := Idle]
      ensures exit == TryPort2 ==> Fails(net, i) && mode == FallBackToSendPortMode && remaining == 0 && sockets == map[]
                                   && hasPASV == (if old(hasPASV) == Unknown then NotAvailable else old(hasPASV))
      ensures exit == Bad ==> Failure(result) && fd == fd0 && sockets.Keys == {fd}
                              && (!Fails(net, i) || (remaining == 0 && mode != FallBackToSendPortMode))
                              && hasPASV == (if net.passive(i).PasvRefused? then NotAvailable else old(hasPASV))
      ensures exit == NoSocket ==> Fails(net, i) && Failure(result) && sockets == map[] && hasPASV == old(hasPASV)
                                   && !net.resocket(i) && !(remaining == 0 && mode == FallBackToSendPortMode)
      ensures exit == Through <==> net.passive(i).ConnectSucceeded?
      ensures exit == TryPort <==> net.passive(i).PasvRefused? && mode == FallBackToSendPortMode
    {
      result, fd := 0, fd0;
      pasvSent := pasvSent + 1;
      var passive := net.passive(i);
      if passive.PasvRefused? {
        hasPASV := NotAvailable;
        if mode == FallBackToSendPortMode {
          return TryPort, result, fd;
        }
        return Bad, K_ERR_PASSIVE_MODE_FAILED, fd;
      }
      if passive.BindFailed? {
        return Bad, K_ERR_BIND_DATA_SOCKET, fd;
      }
      sockets := sockets[fd := Bound];
      exit, result := JudgeConnect(mode, passive, fd, remaining);
      if exit == Retry {
        DisposeSocket(fd);
        fd := Socket(net.resocket(i));
        if fd < 0 {
          return NoSocket, K_ERR_NEW_STREAM_SOCKET, fd;
        }
      }
    }

    /** The PASV loop, from the socket `fd0`, with `remaining0` attempts allowed. */
    method TryPassive(mode: PortMode, net: Network, fd0: int, remaining0: int) returns (exit: Exit, result: int, fd: int)
      requires sockets == map[fd0 := Idle] && 0 <= fd0 < nextSocket
      requires mode != SendPortMode && hasPASV != NotAvailable
      modifies `sockets, `nextSocket, `hasPASV, `pasvSent
      ensures nextSocket >= old(nextSocket) && exit != Retry
      ensures old(pasvSent) <= pasvSent <= old(pasvSent) + (if remaining0 < 0 then 0 else remaining0)
      ensures exit == Through || exit == TryPort || exit == Bad ==> 0 <= fd < nextSocket && sockets.Keys == {fd}
      ensures exit == NoSocket || exit == TryPort2 ==> sockets == map[]
      ensures exit == Bad || exit == NoSocket ==> Failure(result)
      ensures exit == TryPort ==> mode == FallBackToSendPortMode && hasPASV == NotAvailable && sockets[fd] == Idle
      ensures exit == TryPort2 ==> hasPASV == (if old(hasPASV) == Unknown then NotAvailable else old(hasPASV))
      ensures exit == Through || exit == NoSocket ==> hasPASV == old(hasPASV)
      ensures exit == Through ==> sockets[fd] == (if remaining0 <= 0 then Idle else Connected) && (remaining0 > 0 ==> pasvSent > old(pasvSent))
      ensures remaining0 <= 0 ==> exit == Through
      ensures exit == TryPort2 <==> remaining0 > 0 && mode == FallBackToSendPortMode && Exhausted(net, remaining0)
      ensures exit == Through <==> remaining0 <= 0 || Connects(net, remaining0)
      ensures exit == TryPort <==> mode == FallBackToSendPortMode && Refuses(net, remaining0)
      ensures exit == NoSocket ==> !Refuses(net, remaining0)
      ensures exit == TryPort || exit == Bad ==> hasPASV == if Refuses(net, remaining0) then NotAvailable else old(hasPASV)
      ensures forall i: nat :: i < remaining0 && Reaches(net, i) ==> pasvSent == old(pasvSent) + i + 1
    {
      result, fd := 0, fd0;
      var passiveAttemptsRemaining := remaining0;
      var attempt: nat := 0;
      while true
        invariant 0 <= fd < nextSocket && sockets == map[fd := Idle] && nextSocket >= old(nextSocket)
        invariant hasPASV == old(hasPASV) && pasvSent == old(pasvSent) + attempt
        invariant passiveAttemptsRemaining == remaining0 - attempt
        invariant if remaining0 <= 0 then attempt == 0 else attempt <= remaining0
        invariant attempt == remaining0 > 0 ==> mode != FallBackToSendPortMode
        invariant (result == K_NO_ERR || Failure(result)) && (result == 0 <==> attempt == 0)
        invariant forall j: nat :: j < attempt ==> Fails(net, j) && net.resocket(j)
        decreases passiveAttemptsRemaining
      {
        passiveAttemptsRemaining := passiveAttemptsRemaining - 1;
        if passiveAttemptsRemaining < 0 {
          break;
        }
        exit, result, fd := PassiveAttempt(mode, net, attempt, fd, passiveAttemptsRemaining);
        if exit != Retry {
          if Fails(net, attempt) {
            ReachesNone(net, attempt, remaining0);
          } else {
            assert Reaches(net, attempt);
            ReachesOnce(net, attempt);
          }
          return;
        }
        attempt := attempt + 1;
      }
      exit := if result != 0 then Bad else Through;
      if attempt > 0 {
        ReachesNone(net, attempt - 1, remaining0);
      }
    }

    /** The PORT branch on the socket `fd`. */
    method OpenPort(fd: int, net: Network) returns (result: int)
      requires fd in sockets && sockets[fd] == Idle
      modifies `sockets, `dataPortMode, `portSent
      ensures sockets.Keys == old(sockets.Keys)
      ensures portSent == old(portSent) + PortCommands(net)
      ensures result == K_NO_ERR || Failure(result)
      ensures result == K_NO_ERR <==> net.port == PortAccepted
      ensures result == K_NO_ERR ==> sockets[fd] == Listening && dataPortMode == SendPortMode && portSent == old(portSent) + 1
      ensures result < 0 ==> dataPortMode == old(dataPortMode)
    {
      if net.port == PortBindFailed {
        return K_ERR_BIND_DATA_SOCKET;
      }
      sockets := sockets[fd := Bound];
      if net.port == PortNameFailed {
        return K_ERR_GET_SOCK_NAME;
      }
      if net.port == ListenFailed {
        return K_ERR_LISTEN_DATA_SOCKET;
      }
      sockets := sockets[fd := Listening];
      portSent := portSent + 1;
      if net.port == PortRefused {
        return K_ERR_PORT_FAILED;
      }
      dataPortMode := SendPortMode;
      result := K_NO_ERR;
    }

    /** The end of OpenDataConnection: PORT, or the name of the socket PASV connected. */
    method Conclude(port: bool, fd: int, net: Network) returns (result: int)
      requires dataSocket == CLOSED && sockets.Keys == {fd} && 0 <= fd < nextSocket
      requires port ==> sockets[fd] == Idle
      modifies `dataSocket, `sockets, `hasPASV, `dataPortMode, `portSent
      ensures result == K_NO_ERR || Failure(result)
      ensures result < 0 ==> dataSocket == CLOSED && sockets == map[] && dataPortMode == old(dataPortMode)
      ensures result == K_NO_ERR ==> dataSocket == fd && sockets.Keys == {fd}
      ensures portSent == old(portSent) + if port then PortCommands(net) else 0
      ensures port ==> (result == K_NO_ERR <==> net.port == PortAccepted) && hasPASV == old(hasPASV)
      ensures result == K_NO_ERR && port ==> sockets[fd] == Listening && dataPortMode == SendPortMode && portSent == old(portSent) + 1
      ensures !port ==> dataPortMode == old(dataPortMode) && (result == K_NO_ERR <==> net.passiveName)
      ensures !port && result < 0 ==> hasPASV == old(hasPASV)
      ensures result == K_NO_ERR && !port ==> sockets[fd] == old(sockets[fd]) && hasPASV == Available
    {
      if port {
        result := OpenPort(fd, net);
        if result < 0 {
          DisposeSocket(fd);
          return;
        }
      } else {
        if !net.passiveName {
          DisposeSocket(fd);
          return K_ERR_GET_SOCK_NAME;
        }
        hasPASV := Available;
      }
      dataSocket := fd;
      result := K_NO_ERR;
    }

    /** The connection is set up by PASV rather than PORT. */
    ghost predicate GoesPassive(mode: PortMode)
      reads this
    {
      hasPASV != NotAvailable && mode != SendPortMode
    }

    /** The states from which opening can succeed with a socket that is neither connected nor
        listening: no PASV attempt is allowed, or falling back to PORT is but PASV has worked before. */
    ghost predicate Unsound(mode: PortMode)
      reads this
    {
      GoesPassive(mode) && (maxNumberOfSuccessivePASVAttempts <= 0 || (mode == FallBackToSendPortMode && hasPASV == Available))
    }

    /** Opens the data connection, for every behaviour of the network. No socket is leaked, at most
        the allowed number of PASV commands and one PORT are sent, and what a success means is
        known exactly. */
    method OpenDataConnection(mode: PortMode, net: Network) returns (result: int)
      requires Valid()
      modifies `dataSocket, `dataSocketConnected, `sockets, `nextSocket, `hasPASV, `dataPortMode, `pasvSent, `portSent
      ensures result == K_NO_ERR || Failure(result)
      ensures result < 0 ==> dataSocket == CLOSED && sockets == map[]
      ensures result == K_NO_ERR ==> dataSocket != CLOSED && sockets.Keys == {dataSocket} && 0 <= dataSocket < nextSocket
      ensures !dataSocketConnected && nextSocket >= old(nextSocket)
      // commands sent
      ensures old(pasvSent) <= pasvSent <= old(pasvSent) + Limit()
      ensures portSent == old(portSent) + if TriesPort(net, mode, old(hasPASV), old(Limit())) then PortCommands(net) else 0
      ensures net.socket && old(GoesPassive(mode)) ==>
                forall i: nat :: i < Limit() && Reaches(net, i) ==> pasvSent == old(pasvSent) + i + 1
      // when it succeeds
      ensures result == K_NO_ERR <==> Opens(net, mode, old(hasPASV), old(Limit()))
      ensures hasPASV == PasvAfter(net, mode, old(hasPASV), old(Limit()))
      // what success means
      ensures result == K_NO_ERR && TriesPort(net, mode, old(hasPASV), old(Limit())) ==> sockets[dataSocket] == Listening
      ensures result == K_NO_ERR ==> sockets[dataSocket] == Idle || sockets[dataSocket] == Listening || sockets[dataSocket] == Connected
      ensures result == K_NO_ERR && sockets[dataSocket] == Listening ==>
                dataPortMode == SendPortMode && portSent == old(portSent) + 1
      ensures result == K_NO_ERR && sockets[dataSocket] != Listening ==>
                dataPortMode == old(dataPortMode) && hasPASV == Available && old(GoesPassive(mode))
      ensures result == K_NO_ERR && sockets[dataSocket] == Connected ==> pasvSent > old(pasvSent)
      ensures result < 0 ==> dataPortMode == old(dataPortMode)
      // the exact condition under which success means nothing
      ensures result == K_NO_ERR && sockets[dataSocket] == Idle <==>
                old(Unsound(mode)) && net.socket && net.passiveName
                && (Limit() == 0 || (Exhausted(net, Limit()) && net.socketAgain))
    {
      var passiveAttemptsRemaining := maxNumberOfSuccessivePASVAttempts;
      var retry;
      retry, result := OpenOnce(mode, net, net.socket, passiveAttemptsRemaining);
      if retry {
        passiveAttemptsRemaining := 0;
        retry, result := OpenOnce(mode, net, net.socketAgain, passiveAttemptsRemaining);
      }
    }

    /** The pass gets to the PORT branch. */
    ghost predicate GoesToPort(mode: PortMode, net: Network, granted: bool, remaining: int)
      reads this
    {
      granted && (!GoesPassive(mode) || (mode == FallBackToSendPortMode && Refuses(net, remaining)))
    }

    /** The pass ends with PASV, and a socket. */
    ghost predicate StaysPassive(mode: PortMode, net: Network, granted: bool, remaining: int)
      reads this
    {
      granted && GoesPassive(mode) && (remaining <= 0 || Connects(net, remaining))
    }

    /** From the label tryPort2 on; `retry` is a jump back to it, after the last PASV attempt. */
    method OpenOnce(mode: PortMode, net: Network, granted: bool, remaining: int) returns (retry: bool, result: int)
      requires Valid()
      modifies `dataSocket, `dataSocketConnected, `sockets, `nextSocket, `hasPASV, `dataPortMode, `pasvSent, `portSent
      ensures !dataSocketConnected && nextSocket >= old(nextSocket)
      ensures old(pasvSent) <= pasvSent <= old(pasvSent) + (if remaining < 0 then 0 else remaining)
      ensures retry <==> granted && remaining > 0 && old(GoesPassive(mode)) && mode == FallBackToSendPortMode && Exhausted(net, remaining)
      ensures retry ==> Valid() && dataSocket == CLOSED && sockets == map[] && dataPortMode == old(dataPortMode) && portSent == old(portSent)
                        && hasPASV == (if old(hasPASV) == Unknown then NotAvailable else old(hasPASV))
      ensures !retry ==> Concluded(result)
      ensures !retry ==> (result == K_NO_ERR <==> (old(GoesToPort(mode, net, granted, remaining)) && net.port == PortAccepted)
                                                  || (old(StaysPassive(mode, net, granted, remaining)) && net.passiveName))
      ensures !retry ==> portSent == old(portSent) + if old(GoesToPort(mode, net, granted, remaining)) then PortCommands(net) else 0
      ensures !retry && granted && old(GoesPassive(mode)) ==>
                hasPASV == if Refuses(net, remaining) then NotAvailable
                           else if old(StaysPassive(mode, net, granted, remaining)) && net.passiveName then Available else old(hasPASV)
      ensures !granted || !old(GoesPassive(mode)) ==> hasPASV == old(hasPASV) && pasvSent == old(pasvSent)
      ensures granted && old(GoesPassive(mode)) ==> forall i: nat :: i < remaining && Reaches(net, i) ==> pasvSent == old(pasvSent) + i + 1
      ensures !retry && result == K_NO_ERR && old(GoesToPort(mode, net, granted, remaining)) ==> sockets[dataSocket] == Listening
      ensures !retry && result < 0 ==> dataPortMode == old(dataPortMode)
      ensures !retry && result == K_NO_ERR && sockets[dataSocket] == Listening ==>
                dataPortMode == SendPortMode && portSent == old(portSent) + 1
      ensures !retry && result == K_NO_ERR && sockets[dataSocket] != Listening ==>
                dataPortMode == old(dataPortMode) && hasPASV == Available && old(GoesPassive(mode))
                && sockets[dataSocket] == (if remaining <= 0 then Idle else Connected)
                && (remaining > 0 ==> pasvSent > old(pasvSent))
      ensures !retry && remaining <= 0 && old(GoesPassive(mode)) && granted && net.passiveName ==>
                result == K_NO_ERR && sockets[dataSocket] == Idle
      ensures !retry && result == K_NO_ERR && sockets[dataSocket] != Listening ==> granted && net.passiveName
    {
      retry := false;
      CloseDataConnection();
      var fd := Socket(granted);
      if fd < 0 {
        result := K_ERR_NEW_STREAM_SOCKET;
        return;
      }
      if hasPASV == NotAvailable || mode == SendPortMode {
        result := Conclude(true, fd, net);
      } else {
        retry, result := OpenPassive(mode, net, fd, remaining);
      }
    }

    /** The PASV branch, on the idle socket `fd0`. */
    method OpenPassive(mode: PortMode, net: Network, fd0: int, remaining: int) returns (retry: bool, result: int)
      requires GoesPassive(mode) && dataSocket == CLOSED && sockets == map[fd0 := Idle] && 0 <= fd0 < nextSocket
      modifies `dataSocket, `sockets, `nextSocket, `hasPASV, `dataPortMode, `pasvSent, `portSent
      ensures nextSocket >= old(nextSocket)
      ensures old(pasvSent) <= pasvSent <= old(pasvSent) + (if remaining < 0 then 0 else remaining)
      ensures forall i: nat :: i < remaining && Reaches(net, i) ==> pasvSent == old(pasvSent) + i + 1
      ensures retry <==> remaining > 0 && mode == FallBackToSendPortMode && Exhausted(net, remaining)
      ensures retry ==> dataSocket == CLOSED && sockets == map[] && dataPortMode == old(dataPortMode) && portSent == old(portSent)
                        && hasPASV == (if old(hasPASV) == Unknown then NotAvailable else old(hasPASV))
      ensures !retry ==> Concluded(result) && (result < 0 ==> dataPortMode == old(dataPortMode))
      ensures var port := mode == FallBackToSendPortMode && Refuses(net, remaining); var passive := remaining <= 0 || Connects(net, remaining);
        !retry ==>
          && (result == K_NO_ERR <==> (port && net.port == PortAccepted) || (passive && net.passiveName))
          && portSent == old(portSent) + (if port then PortCommands(net) else 0)
          && hasPASV == (if Refuses(net, remaining) then NotAvailable else if passive && net.passiveName then Available else old(hasPASV))
          && (result == K_NO_ERR && port ==> sockets[dataSocket] == Listening && dataPortMode == SendPortMode)
          && (result == K_NO_ERR && !port ==>
                && dataPortMode == old(dataPortMode) && sockets[dataSocket] == (if remaining <= 0 then Idle else Connected)
                && (remaining > 0 ==> pasvSent > old(pasvSent)))
    {
      var exit, fd;
      retry := false;
      exit, result, fd := TryPassive(mode, net, fd0, remaining);
      if exit == TryPort2 {
        retry := true;
        return;
      }
      if exit == NoSocket {
        return;
      }
      if exit == Bad {
        DisposeSocket(fd);
        return;
      }
      result := Conclude(exit == TryPort, fd, net);
    }

    /** No socket is open but the data socket of a success, which has been put to some use or is idle. */
    ghost predicate Concluded(result: int)
      reads this
    {
      && (result == K_NO_ERR || Failure(result))
      && (result < 0 ==> dataSocket == CLOSED && sockets == map[])
      && (result == K_NO_ERR ==> dataSocket != CLOSED && sockets.Keys == {dataSocket} && 0 <= dataSocket < nextSocket && sockets[dataSocket] != Bound)
    }

    /** A success that means nothing: in fallback mode, with PASV known to work, the one attempt allowed
        fails while connecting. */
    method IdleSuccess(net: Network)
      requires Valid() && maxNumberOfSuccessivePASVAttempts == 1 && hasPASV == Available
      requires net.passive(0) == ConnectTimedOut && net.socket && net.socketAgain && net.passiveName
      modifies `dataSocket, `dataSocketConnected, `sockets, `nextSocket, `hasPASV, `dataPortMode, `pasvSent, `portSent
      ensures dataSocket in sockets && sockets[dataSocket] == Idle
    {
      var result := OpenDataConnection(FallBackToSendPortMode, net);
      assert result == K_NO_ERR && sockets[dataSocket] == Idle;
    }

    /** A refused PASV in fallback mode is followed by PORT. */
    method PortAfterRefusal(net: Network)
      requires Valid() && maxNumberOfSuccessivePASVAttempts == 1 && hasPASV == Unknown
      requires net.socket && net.passive(0) == PasvRefused && net.port == PortAccepted
      modifies `dataSocket, `dataSocketConnected, `sockets, `nextSocket, `hasPASV, `dataPortMode, `pasvSent, `portSent
      ensures dataSocket in sockets && sockets[dataSocket] == Listening && portSent == old(portSent) + 1 && hasPASV == NotAvailable
    {
      assert Reaches(net, 0) && Refuses(net, 1);
      var result := OpenDataConnection(FallBackToSendPortMode, net);
      assert result == K_NO_ERR;
    }

    ghost function Limit(): nat
      reads this
    {
      if maxNumberOfSuccessivePASVAttempts < 0 then 0 else maxNumberOfSuccessivePASVAttempts
    }

    /** What opening a data connection goes by. */
    ghost function Settings(): Setup
      reads this
    {
      Setup(dataPortMode, hasPASV, Limit(), allowProxyForPORT, require20)
    }

    /** Whether the server's end of the data connection is an acceptable one. */
    method AcceptDataConnection(net: Network) returns (result: int)
      requires dataSocket in sockets && sockets.Keys == {dataSocket} && 0 <= dataSocket < nextSocket
      modifies `dataSocket, `sockets, `nextSocket
      ensures nextSocket >= old(nextSocket)
      ensures result == K_NO_ERR || Failure(result)
      ensures result == K_NO_ERR <==> (old(dataPortMode) == SendPortMode ==> Accepts(net, old(Settings())))
      ensures result == K_NO_ERR ==> sockets.Keys == {dataSocket} && 0 <= dataSocket < nextSocket
      ensures result == K_NO_ERR ==> sockets[dataSocket] == (if dataPortMode == SendPortMode then Connected else old(sockets[dataSocket]))
      ensures result < 0 ==> dataSocket == CLOSED && sockets == map[]
    {
      if dataPortMode == SendPortMode {
        var newSocket := Socket(net.accepted);
        DisposeSocket(dataSocket);
        if newSocket < 0 {
          dataSocket := CLOSED;
          return K_ERR_ACCEPT_DATA_SOCKET;
        }
        sockets := sockets[newSocket := Connected];
        if !allowProxyForPORT && !net.sameAddress {
          DisposeSocket(newSocket);
          dataSocket := CLOSED;
          return K_ERR_PROXY_DATA_CONNECTIONS_DISABLED;
        }
        if require20 && !net.port20 {
          DisposeSocket(newSocket);
          dataSocket := CLOSED;
          return K_ERR_DATA_CONN_ORIGINATED_FROM_BAD_PORT;
        }
        dataSocket := newSocket;
      }
      result := K_NO_ERR;
    }
  }
}
