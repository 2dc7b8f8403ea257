/** `RPCConnection`: one client socket, a small state machine over the descriptor and the
    connected flag. The results of `socket`, `inet_pton`, `connect`, `send` and `recv` are
    parameters; the descriptors given to `::close` are recorded in order. */
module Connection {
  import opened Bytes

  /** The part of a connection its methods change. */
  datatype ConnState = ConnState(fd: int, connected: bool, closedFds: seq<int>)

  predicate Connected(s: ConnState)
  {
    s.connected && s.fd != -1
  }

  /** What every reachable state satisfies: an open descriptor belongs to a connected socket. */
  predicate Consistent(s: ConnState)
  {
    s.fd != -1 ==> s.connected
  }

  /** `Connect()`: the new state and the result. */
  function ConnectStep(s: ConnState, socketResult: int, ptonResult: int, connectResult: int): (ConnState, bool)
  {
    if s.fd != -1 && s.connected then (s, true)
    else if socketResult == -1 then (s.(fd := -1), false)
    else if ptonResult == -1 || connectResult == -1 then
      (s.(fd := -1, closedFds := s.closedFds + [socketResult]), false)
    else (s.(fd := socketResult, connected := true), true)
  }

  /** `close()`. */
  function CloseStep(s: ConnState): ConnState
  {
    if s.fd != -1 then s.(fd := -1, connected := false, closedFds := s.closedFds + [s.fd]) else s
  }

  /** A fresh connection is not connected, whatever its uninitialised flag holds. */
  lemma FreshNotConnected(connected: bool)
    ensures !Connected(ConnState(-1, connected, [])) && Consistent(ConnState(-1, connected, []))
  {
  }

  /** An already connected socket is kept: true, and nothing changes. */
  lemma ConnectWhenConnected(s: ConnState, socketResult: int, ptonResult: int, connectResult: int)
    requires Connected(s)
    ensures ConnectStep(s, socketResult, ptonResult, connectResult) == (s, true)
  {
  }

  /** Otherwise `Connect` succeeds exactly when all three calls do; a failure leaves no
      descriptor (closing the socket it made, if any) and a success leaves a connected one. */
  lemma ConnectOutcome(s: ConnState, socketResult: int, ptonResult: int, connectResult: int)
    requires !Connected(s)
    ensures var (t, ok) := ConnectStep(s, socketResult, ptonResult, connectResult);
      && (ok <==> socketResult != -1 && ptonResult != -1 && connectResult != -1)
      && (ok ==> t.fd == socketResult && Connected(t) && t.closedFds == s.closedFds)
      && (!ok ==> t.fd == -1 && !Connected(t) && t.connected == s.connected
                  && t.closedFds == s.closedFds + (if socketResult == -1 then [] else [socketResult]))
  {
  }

  /** After `Connect`, the result is whether the connection is usable. */
  lemma ConnectResultIsConnected(s: ConnState, socketResult: int, ptonResult: int, connectResult: int)
    ensures var (t, ok) := ConnectStep(s, socketResult, ptonResult, connectResult);
      ok <==> Connected(t)
  {
  }

  /** `close` takes the connection down and is idempotent: a second close calls nothing. */
  lemma CloseIdempotent(s: ConnState)
    ensures !Connected(CloseStep(s)) && CloseStep(s).fd == -1
    ensures CloseStep(CloseStep(s)) == CloseStep(s)
    ensures s.fd == -1 ==> CloseStep(s) == s
    ensures s.fd != -1 ==> CloseStep(s).closedFds == s.closedFds + [s.fd] && !CloseStep(s).connected
  {
  }

  /** Both operations keep the invariant. */
  lemma StepsKeepConsistent(s: ConnState, socketResult: int, ptonResult: int, connectResult: int)
    requires Consistent(s)
    ensures Consistent(ConnectStep(s, socketResult, ptonResult, connectResult).0)
    ensures Consistent(CloseStep(s))
  {
  }

  /** Under the invariant, being connected is having a descriptor. */
  lemma ConnectedIsOpen(s: ConnState)
    requires Consistent(s)
    ensures Connected(s) <==> s.fd != -1
  {
  }

  class RpcConnection {
    var fd: int
    const ip: string
    const port: uint16
    var connected: bool
    var lastUsed: int
    var closedFds: seq<int>

    function State(): ConnState
      reads this
    {
      ConnState(fd, connected, closedFds)
    }

    /** `m_connected` is not initialised by the constructor; `uninitialized` is whatever it
        happens to hold. */
    constructor (ip: string, port: uint16, now: int, uninitialized: bool)
      ensures this.ip == ip && this.port == port && lastUsed == now
      ensures State() == ConnState(-1, uninitialized, [])
      ensures !IsConnected() && Consistent(State())
    {
      this.ip, this.port := ip, port;
      fd, connected, lastUsed, closedFds := -1, uninitialized, now, [];
    }

    function IsConnected(): (r: bool)
      reads this
      ensures r <==> Connected(State())
    {
      connected && fd != -1
    }

    method Connect(socketResult: int, ptonResult: int, connectResult: int) returns (ok: bool)
      modifies this
      ensures (State(), ok) == ConnectStep(old(State()), socketResult, ptonResult, connectResult)
      ensures lastUsed == old(lastUsed)
    {
      if fd != -1 && connected {
        return true;
      }
      fd := socketResult;
      if fd == -1 {
        return false;
      }
      if ptonResult == -1 {
        closedFds := closedFds + [fd];
        fd := -1;
        return false;
      }
      if connectResult == -1 {
        closedFds := closedFds + [fd];
        fd := -1;
        return false;
      }
      connected := true;
      return true;
    }

    method Close()
      modifies this
      ensures State() == CloseStep(old(State()))
      ensures lastUsed == old(lastUsed)
    {
      if fd != -1 {
        closedFds := closedFds + [fd];
        fd := -1;
        connected := false;
      }
    }

    /** `Send` checks only the flag, not the descriptor; `sendResult` is what `::send` returns. */
    method Send(data: seq<byte>, sendResult: int) returns (r: int)
      ensures !connected ==> r == -1
      ensures connected ==> r == sendResult
    {
      if !connected {
        return -1;
      }
      return sendResult;
    }

    /** `Recv`, with `recvResult` what `::recv` returns. */
    method Recv(bufferSize: nat, recvResult: int) returns (r: int)
      ensures !connected ==> r == -1
      ensures connected ==> r == recvResult
    {
      if !connected {
        return -1;
      }
      return recvResult;
    }

    function GetIp(): string
    {
      ip
    }

    function GetPort(): uint16
    {
      port
    }

    function GetLastUsedTime(): int
      reads this
    {
      lastUsed
    }

    method UpdateLastUsedTime(now: int)
      modifies this
      ensures lastUsed == now && State() == old(State())
    {
      lastUsed := now;
    }
  }
}
