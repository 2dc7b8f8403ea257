/** The client side (`RPCChannel`): the request frame `CallMethod` builds, and the chain of
    early-returning steps of `SendToServer` that resolves the provider through the registry,
    connects, sends, receives and reports on the controller. The socket calls, the registry
    read and the received bytes are inputs (`Network`); what the code does is recorded as a
    trace of `Action`s in order. */
module Channel {
  import opened Bytes
  import opened Text
  import opened Wire
  import opened Controller

  const SERIALIZE_ERROR: string := "SerializeToString() err"

  /** The header `CallMethod` fills in: `argvsize` is the request length as `uint32_t`. */
  function CallHeader(serviceName: string, methodName: string, request: seq<byte>): RpcHeader
  {
    RpcHeader(serviceName, methodName, Wrap32(|request|))
  }

  /** `sendStr`: the header length in big-endian order, the header, then the request. */
  function RequestFrame(header: seq<byte>, request: seq<byte>): (frame: seq<byte>)
    ensures |frame| == 4 + |header| + |request|
  {
    BE32(Wrap32(|header|)) + header + request
  }

  /** What `SendToServer` puts on the socket: the frame behind its own big-endian length. */
  function LengthPrefixed(frame: seq<byte>): (wire: seq<byte>)
    ensures |wire| == 4 + |frame|
  {
    BE32(Wrap32(|frame|)) + frame
  }

  function LookupPath(serviceName: string, methodName: string): string
  {
    "/" + serviceName + "/" + methodName
  }

  /** The registry data split at the first ':' into the ip text and the port text. */
  function SplitAddress(data: string): (r: Option<(string, string)>)
    ensures r.None? <==> ':' !in data
    ensures r.Some? ==> data == r.value.0 + ":" + r.value.1 && ':' !in r.value.0
  {
    match IndexOf(data, ':')
    case None => None
    case Some(pos) =>
      assert data == data[..pos] + ":" + data[pos + 1..];
      Some((data[..pos], data[pos + 1..]))
  }

  /** Splitting `ip + ":" + port` gives back both parts when the ip has no colon. */
  lemma SplitAddressJoin(ip: string, port: string)
    requires ':' !in ip
    ensures SplitAddress(ip + ":" + port) == Some((ip, port))
  {
    var data := ip + ":" + port;
    assert data[|ip|] == ':' && data[..|ip|] == ip && data[|ip| + 1..] == port;
    var pos := IndexOf(data, ':').value;
    assert forall j :: 0 <= j < |ip| ==> data[j] == ip[j] && ip[j] in ip;
    assert forall j :: |ip| < j <= |data| ==> data[..j][|ip|] == ':';
  }

  /** `ZkClient::GetData`: the node's data, or "" when it is missing. */
  function RegistryData(registry: map<string, string>, path: string): string
  {
    if path in registry then registry[path] else ""
  }

  /** The result of the single `recv` into the 65535-byte buffer. */
  datatype RecvResult = RecvFailed | PeerClosed | Received(bytes: seq<byte>)

  /** What the outside world answers: `socket`, the registry, `inet_pton`, `connect`, `send`
      and `recv`. */
  datatype Network = Network(
    socketFd: int,
    registry: map<string, string>,
    ptonResult: int,
    connectResult: int,
    sendResult: int,
    received: RecvResult)

  datatype Action =
    | OpenSocket
    | GetData(path: string)
    | ConvertAddress(ip: string)
    | ConnectTo(ip: string, port: uint16)
    | SendBytes(bytes: seq<byte>)
    | Receive
    | SetFailed(reason: string)
    | ParseResponse(data: seq<byte>)   // response->ParseFromString(wrapper.data())
    | PortThrows                       // std::stoi throws out of SendToServer
    | CloseSocket                      // the unique_ptr deleter closes the socket

  /** The reason of the first `SetFailed` in a trace. */
  function FailureOf(trace: seq<Action>): Option<string>
  {
    if trace == [] then None
    else if trace[0].SetFailed? then Some(trace[0].reason)
    else FailureOf(trace[1..])
  }

  /** A trace has a failure exactly when it contains a `SetFailed`, and then it contains the
      `SetFailed` of that reason. */
  lemma {:induction false} FailureOfFound(trace: seq<Action>)
    ensures FailureOf(trace).None? <==> forall a :: a in trace ==> !a.SetFailed?
    ensures FailureOf(trace).Some? ==> SetFailed(FailureOf(trace).value) in trace
  {
    if trace != [] && !trace[0].SetFailed? {
      assert trace == [trace[0]] + trace[1..];
      FailureOfFound(trace[1..]);
    }
  }

  /** The first failure of two traces in a row is the first trace's, if it has one. */
  lemma {:induction false} FailureOfConcat(a: seq<Action>, b: seq<Action>)
    ensures FailureOf(a + b) == if FailureOf(a).Some? then FailureOf(a) else FailureOf(b)
  {
    if a != [] {
      assert (a + b)[1..] == a[1..] + b;
      FailureOfConcat(a[1..], b);
    } else {
      assert a + b == b;
    }
  }

  /** After the one `recv`: the failure it reports, or the parse of the response data. */
  function ReplySteps(codec: Codec, received: RecvResult): seq<Action>
  {
    match received
    case RecvFailed => [SetFailed("recv() err")]
    case PeerClosed => [SetFailed("连接异常断开")]
    case Received(bytes) =>
      match codec.decodeEnvelope(bytes)
      case None => [SetFailed("ParseFromString() err")]
      case Some(env) =>
        if env.success then [ParseResponse(env.data)] else [SetFailed(env.message)]
  }

  /** From `inet_pton` on, once the registry data has been split into ip and port text. */
  function TransferSteps(codec: Codec, net: Network, ip: string, portText: string, sendStr: seq<byte>): seq<Action>
  {
    [ConvertAddress(ip)] +
    if net.ptonResult == -1 then [SetFailed("inet_pton() err")]
    else
      match Stoi(portText)
      case None => [PortThrows]
      case Some(p) =>
        [ConnectTo(ip, p % 0x1_0000)] +
        if net.connectResult == -1 then [SetFailed("connect() err")]
        else
          [SendBytes(LengthPrefixed(sendStr))] +
          if net.sendResult == -1 then [SetFailed("send() err")]
          else [Receive] + ReplySteps(codec, net.received)
  }

  /** From the registry read on, while the socket is open. */
  function LookupSteps(codec: Codec, net: Network, path: string, sendStr: seq<byte>): seq<Action>
  {
    [GetData(path)] +
    var data := RegistryData(net.registry, path);
    if data == "" then [SetFailed(path + " Not Exit In ZooKeeperServer")]
    else
      match SplitAddress(data)
      case None => [SetFailed(path + " Is Invalid")]
      case Some((ip, portText)) => TransferSteps(codec, net, ip, portText, sendStr)
  }

  /** The trace of `SendToServer(serviceName, methodName, sendStr)`: once the socket exists,
      every way out of the function closes it. */
  function SendToServerTrace(codec: Codec, net: Network, serviceName: string, methodName: string, sendStr: seq<byte>): seq<Action>
  {
    if net.socketFd == -1 then [OpenSocket, SetFailed("send err")]
    else [OpenSocket] + LookupSteps(codec, net, LookupPath(serviceName, methodName), sendStr) + [CloseSocket]
  }

  /** The trace of `CallMethod`: `request` is the serialized request, None when its
      `SerializeToString` fails. */
  function CallTrace(codec: Codec, net: Network, serviceName: string, methodName: string, request: Option<seq<byte>>): seq<Action>
  {
    match request
    case None => [SetFailed(SERIALIZE_ERROR)]
    case Some(req) =>
      match codec.encodeHeader(CallHeader(serviceName, methodName, req))
      case None => [SetFailed(SERIALIZE_ERROR)]
      case Some(header) => SendToServerTrace(codec, net, serviceName, methodName, RequestFrame(header, req))
  }

  /** The controller after a trace: the trace's failure if it has one, otherwise as before. */
  ghost predicate Reported(ctrl: RpcController, failedBefore: bool, textBefore: string, trace: seq<Action>)
    reads ctrl
  {
    match FailureOf(trace)
    case Some(reason) => ctrl.Failed() && ctrl.ErrorText() == reason
    case None => ctrl.Failed() == failedBefore && ctrl.ErrorText() == textBefore
  }

  /** A step that is not a failure leaves the report to the steps after it. */
  lemma ReportedAfter(ctrl: RpcController, failedBefore: bool, textBefore: string, step: Action, steps: seq<Action>)
    requires !step.SetFailed? && Reported(ctrl, failedBefore, textBefore, steps)
    ensures Reported(ctrl, failedBefore, textBefore, [step] + steps)
  {
    FailureOfConcat([step], steps);
  }

  /** The receive phase of `SendToServer`. */
  method Reply(codec: Codec, received: RecvResult, ctrl: RpcController) returns (steps: seq<Action>)
    modifies ctrl
    ensures steps == ReplySteps(codec, received)
    ensures Reported(ctrl, old(ctrl.Failed()), old(ctrl.ErrorText()), steps)
  {
    match received {
      case RecvFailed =>
        ctrl.SetFailed("recv() err");
        steps := [SetFailed("recv() err")];
      case PeerClosed =>
        ctrl.SetFailed("连接异常断开");
        steps := [SetFailed("连接异常断开")];
      case Received(recvStr) =>
        var wrapper := codec.decodeEnvelope(recvStr);
        if wrapper.None? {
          ctrl.SetFailed("ParseFromString() err");
          steps := [SetFailed("ParseFromString() err")];
        } else if wrapper.value.success {
          steps := [ParseResponse(wrapper.value.data)];
        } else {
          ctrl.SetFailed(wrapper.value.message);
          steps := [SetFailed(wrapper.value.message)];
        }
    }
    FailureOfFound(steps);
  }

  /** The phase of `SendToServer` from `inet_pton` to `recv`. */
  method Transfer(codec: Codec, net: Network, ip: string, portText: string, sendStr: seq<byte>, ctrl: RpcController)
    returns (steps: seq<Action>)
    modifies ctrl
    ensures steps == TransferSteps(codec, net, ip, portText, sendStr)
    ensures Reported(ctrl, old(ctrl.Failed()), old(ctrl.ErrorText()), steps)
  {
    var before, textBefore := ctrl.Failed(), ctrl.ErrorText();
    if net.ptonResult == -1 {
      ctrl.SetFailed("inet_pton() err");
      steps := [SetFailed("inet_pton() err")];
    } else {
      var port := Stoi(portText);
      if port.None? {
        steps := [PortThrows];
      } else {
        if net.connectResult == -1 {
          ctrl.SetFailed("connect() err");
          steps := [SetFailed("connect() err")];
        } else {
          var str := BE32(Wrap32(|sendStr|)) + sendStr;
          if net.sendResult == -1 {
            ctrl.SetFailed("send() err");
            steps := [SetFailed("send() err")];
          } else {
            steps := Reply(codec, net.received, ctrl);
            ReportedAfter(ctrl, before, textBefore, Receive, steps);
            steps := [Receive] + steps;
          }
          ReportedAfter(ctrl, before, textBefore, SendBytes(str), steps);
          steps := [SendBytes(str)] + steps;
        }
        ReportedAfter(ctrl, before, textBefore, ConnectTo(ip, port.value % 0x1_0000), steps);
        steps := [ConnectTo(ip, port.value % 0x1_0000)] + steps;
      }
    }
    ReportedAfter(ctrl, before, textBefore, ConvertAddress(ip), steps);
    steps := [ConvertAddress(ip)] + steps;
  }

  method SendToServer(codec: Codec, net: Network, serviceName: string, methodName: string, sendStr: seq<byte>, ctrl: RpcController)
    returns (trace: seq<Action>)
    modifies ctrl
    ensures trace == SendToServerTrace(codec, net, serviceName, methodName, sendStr)
    ensures Reported(ctrl, old(ctrl.Failed()), old(ctrl.ErrorText()), trace)
  {
    var before, textBefore := ctrl.Failed(), ctrl.ErrorText();
    if net.socketFd == -1 {
      ctrl.SetFailed("send err");
      FailureOfConcat([OpenSocket], [SetFailed("send err")]);
      return [OpenSocket, SetFailed("send err")];
    }
    var path := "/" + serviceName + "/" + methodName;
    var data := RegistryData(net.registry, path);
    var steps;
    if data == "" {
      ctrl.SetFailed(path + " Not Exit In ZooKeeperServer");
      steps := [SetFailed(path + " Not Exit In ZooKeeperServer")];
    } else {
      var pos := IndexOf(data, ':');
      if pos.None? {
        ctrl.SetFailed(path + " Is Invalid");
        steps := [SetFailed(path + " Is Invalid")];
      } else {
        steps := Transfer(codec, net, data[..pos.value], data[pos.value + 1..], sendStr, ctrl);
      }
    }
    ReportedAfter(ctrl, before, textBefore, GetData(path), steps);
    steps := [GetData(path)] + steps;
    ReportedAfter(ctrl, before, textBefore, OpenSocket, steps);
    FailureOfConcat([OpenSocket] + steps, [CloseSocket]);
    trace := [OpenSocket] + steps + [CloseSocket];
  }

  /** `RPCChannel::CallMethod`: serialize the request and the header, build the frame and
      hand it to `SendToServer`. */
  method CallMethod(codec: Codec, net: Network, serviceName: string, methodName: string, request: Option<seq<byte>>, ctrl: RpcController)
    returns (trace: seq<Action>)
    modifies ctrl
    ensures trace == CallTrace(codec, net, serviceName, methodName, request)
    ensures Reported(ctrl, old(ctrl.Failed()), old(ctrl.ErrorText()), trace)
  {
    if request.None? {
      ctrl.SetFailed(SERIALIZE_ERROR);
      return [SetFailed(SERIALIZE_ERROR)];
    }
    var requestStr := request.value;
    var header := RpcHeader(serviceName, methodName, Wrap32(|requestStr|));
    var headerStr := codec.encodeHeader(header);
    if headerStr.None? {
      ctrl.SetFailed(SERIALIZE_ERROR);
      return [SetFailed(SERIALIZE_ERROR)];
    }
    var sendStr := BE32(Wrap32(|headerStr.value|)) + headerStr.value + requestStr;
    trace := SendToServer(codec, net, serviceName, methodName, sendStr, ctrl);
  }
}
