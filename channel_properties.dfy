/** What a call leaves on the controller and on the wire, stated about `CallTrace` and
    `SendToServerTrace`. */
module ChannelProperties {
  import opened Bytes
  import opened Text
  import opened Wire
  import opened Channel

  /** Every failure is the last step, but for closing the socket. */
  ghost predicate FailureIsFinal(trace: seq<Action>)
  {
    forall i :: 0 <= i < |trace| && trace[i].SetFailed? ==> trace[i + 1..] == [] || trace[i + 1..] == [CloseSocket]
  }

  ghost predicate FailsLast(steps: seq<Action>)
  {
    forall i :: 0 <= i < |steps| && steps[i].SetFailed? ==> i == |steps| - 1
  }

  ghost predicate NoConnect(trace: seq<Action>)
  {
    forall a :: a in trace ==> !a.ConnectTo?
  }

  lemma ConsFailsLast(step: Action, steps: seq<Action>)
    requires !step.SetFailed? && FailsLast(steps)
    ensures FailsLast([step] + steps)
  {
    forall i | 0 <= i < |[step] + steps| && ([step] + steps)[i].SetFailed?
      ensures i == |steps|
    {
      assert i > 0 && ([step] + steps)[i] == steps[i - 1];
    }
  }

  lemma TransferFailsLast(codec: Codec, net: Network, ip: string, portText: string, sendStr: seq<byte>)
    ensures FailsLast(TransferSteps(codec, net, ip, portText, sendStr))
  {
    if net.ptonResult != -1 && Stoi(portText).Some? {
      var p := Stoi(portText).value;
      if net.connectResult != -1 {
        var tail := if net.sendResult == -1 then [SetFailed("send() err")] else [Receive] + ReplySteps(codec, net.received);
        if net.sendResult != -1 {
          ConsFailsLast(Receive, ReplySteps(codec, net.received));
        }
        ConsFailsLast(SendBytes(LengthPrefixed(sendStr)), tail);
        ConsFailsLast(ConnectTo(ip, p % 0x1_0000), [SendBytes(LengthPrefixed(sendStr))] + tail);
      }
    }
    var t := TransferSteps(codec, net, ip, portText, sendStr);
    ConsFailsLast(ConvertAddress(ip), t[1..]);
    assert t == [ConvertAddress(ip)] + t[1..];
  }

  /** Every path through `CallMethod` calls `SetFailed` at most once and does nothing after
      it except close the socket. */
  lemma FailureEndsCall(codec: Codec, net: Network, serviceName: string, methodName: string, request: Option<seq<byte>>)
    ensures FailureIsFinal(CallTrace(codec, net, serviceName, methodName, request))
  {
    var t := CallTrace(codec, net, serviceName, methodName, request);
    if request.Some? && codec.encodeHeader(CallHeader(serviceName, methodName, request.value)).Some? && net.socketFd != -1 {
      var sendStr := RequestFrame(codec.encodeHeader(CallHeader(serviceName, methodName, request.value)).value, request.value);
      var path := LookupPath(serviceName, methodName);
      var steps := LookupSteps(codec, net, path, sendStr);
      var data := RegistryData(net.registry, path);
      if data != "" && SplitAddress(data).Some? {
        TransferFailsLast(codec, net, SplitAddress(data).value.0, SplitAddress(data).value.1, sendStr);
      }
      ConsFailsLast(GetData(path), steps[1..]);
      assert steps == [GetData(path)] + steps[1..];
      assert t == [OpenSocket] + steps + [CloseSocket];
      forall i | 0 <= i < |t| && t[i].SetFailed?
        ensures t[i + 1..] == [CloseSocket]
      {
        assert 1 <= i <= |steps| && t[i] == steps[i - 1];
      }
    }
  }

  /** Registry data with a colon: the lookup goes on with the two halves. */
  lemma LookupFound(codec: Codec, net: Network, path: string, sendStr: seq<byte>)
    requires RegistryData(net.registry, path) != "" && ':' in RegistryData(net.registry, path)
    ensures var a := SplitAddress(RegistryData(net.registry, path)).value;
      LookupSteps(codec, net, path, sendStr) == [GetData(path)] + TransferSteps(codec, net, a.0, a.1, sendStr)
  {
  }

  /** An address that converts, a port that parses and a connect that succeeds lead to the
      send. */
  lemma TransferPath(codec: Codec, net: Network, ip: string, portText: string, sendStr: seq<byte>)
    requires net.ptonResult != -1 && Stoi(portText).Some? && net.connectResult != -1
    ensures TransferSteps(codec, net, ip, portText, sendStr) ==
      [ConvertAddress(ip), ConnectTo(ip, Stoi(portText).value % 0x1_0000), SendBytes(LengthPrefixed(sendStr))]
        + (if net.sendResult == -1 then [SetFailed("send() err")] else [Receive] + ReplySteps(codec, net.received))
  {
  }

  lemma Reassociate(a: Action, b: Action, c: Action, d: Action, e: Action, tail: seq<Action>, z: Action)
    ensures [a] + ([b] + ([c, d, e] + tail)) + [z] == [a, b, c, d, e] + tail + [z]
  {
  }

  /** The first failure of a trace whose steps before a `SetFailed` are no failures. */
  lemma FailureAt(before: seq<Action>, reason: string, after: seq<Action>)
    requires forall a :: a in before ==> !a.SetFailed?
    ensures FailureOf(before + [SetFailed(reason)] + after) == Some(reason)
  {
    FailureOfFound(before);
    FailureOfConcat(before, [SetFailed(reason)] + after);
    assert before + [SetFailed(reason)] + after == before + ([SetFailed(reason)] + after);
  }

  /** The failure of a trace is the one of its middle part when the parts around it have none. */
  lemma FailureBetween(before: seq<Action>, mid: seq<Action>, after: seq<Action>)
    requires forall a :: a in before ==> !a.SetFailed?
    requires forall a :: a in after ==> !a.SetFailed?
    ensures FailureOf(before + mid + after) == FailureOf(mid)
  {
    FailureOfFound(before);
    FailureOfFound(after);
    FailureOfConcat(before, mid + after);
    FailureOfConcat(mid, after);
    assert before + mid + after == before + (mid + after);
  }

  /** The socket cannot be created: "send err", and no close since no descriptor exists. */
  lemma SocketFailure(codec: Codec, net: Network, serviceName: string, methodName: string, sendStr: seq<byte>)
    requires net.socketFd == -1
    ensures var t := SendToServerTrace(codec, net, serviceName, methodName, sendStr);
      FailureOf(t) == Some("send err") && CloseSocket !in t && NoConnect(t)
  {
  }

  /** No registry data for `/service/method`: the failure names the path, and nothing is
      connected. */
  lemma RegistryMiss(codec: Codec, net: Network, serviceName: string, methodName: string, sendStr: seq<byte>)
    requires net.socketFd != -1 && RegistryData(net.registry, LookupPath(serviceName, methodName)) == ""
    ensures var path := "/" + serviceName + "/" + methodName;
      var t := SendToServerTrace(codec, net, serviceName, methodName, sendStr);
      t == [OpenSocket, GetData(path), SetFailed(path + " Not Exit In ZooKeeperServer"), CloseSocket]
      && FailureOf(t) == Some(path + " Not Exit In ZooKeeperServer") && NoConnect(t)
  {
    var path := "/" + serviceName + "/" + methodName;
    var reason := path + " Not Exit In ZooKeeperServer";
    assert SendToServerTrace(codec, net, serviceName, methodName, sendStr) == [OpenSocket, GetData(path)] + [SetFailed(reason)] + [CloseSocket];
    FailureAt([OpenSocket, GetData(path)], reason, [CloseSocket]);
  }

  /** Registry data without a colon: the failure names the path, and nothing is connected. */
  lemma MalformedAddress(codec: Codec, net: Network, serviceName: string, methodName: string, sendStr: seq<byte>)
    requires net.socketFd != -1
    requires var data := RegistryData(net.registry, LookupPath(serviceName, methodName)); data != "" && ':' !in data
    ensures var path := "/" + serviceName + "/" + methodName;
      var t := SendToServerTrace(codec, net, serviceName, methodName, sendStr);
      FailureOf(t) == Some(path + " Is Invalid") && NoConnect(t)
  {
    var path := "/" + serviceName + "/" + methodName;
    assert SendToServerTrace(codec, net, serviceName, methodName, sendStr) == [OpenSocket, GetData(path)] + [SetFailed(path + " Is Invalid")] + [CloseSocket];
    FailureAt([OpenSocket, GetData(path)], path + " Is Invalid", [CloseSocket]);
  }

  /** The inputs under which `SendToServer` gets as far as `inet_pton`. */
  ghost predicate ReachesAddress(net: Network, serviceName: string, methodName: string)
  {
    && net.socketFd != -1
    && var data := RegistryData(net.registry, LookupPath(serviceName, methodName));
       data != "" && ':' in data
  }

  function Ip(net: Network, serviceName: string, methodName: string): string
    requires ReachesAddress(net, serviceName, methodName)
  {
    SplitAddress(RegistryData(net.registry, LookupPath(serviceName, methodName))).value.0
  }

  function PortText(net: Network, serviceName: string, methodName: string): string
    requires ReachesAddress(net, serviceName, methodName)
  {
    SplitAddress(RegistryData(net.registry, LookupPath(serviceName, methodName))).value.1
  }

  /** With the socket open and an address in the registry, the call reads the registry and
      goes on with the ip and port text of that address. */
  lemma AddressTrace(codec: Codec, net: Network, serviceName: string, methodName: string, sendStr: seq<byte>)
    requires ReachesAddress(net, serviceName, methodName)
    ensures SendToServerTrace(codec, net, serviceName, methodName, sendStr) ==
      [OpenSocket, GetData(LookupPath(serviceName, methodName))]
      + TransferSteps(codec, net, Ip(net, serviceName, methodName), PortText(net, serviceName, methodName), sendStr)
      + [CloseSocket]
  {
    var path := LookupPath(serviceName, methodName);
    var transfer := TransferSteps(codec, net, Ip(net, serviceName, methodName), PortText(net, serviceName, methodName), sendStr);
    LookupFound(codec, net, path, sendStr);
    assert [OpenSocket] + ([GetData(path)] + transfer) + [CloseSocket] == [OpenSocket, GetData(path)] + transfer + [CloseSocket];
  }

  /** `inet_pton` failing, or a port text `std::stoi` rejects: the first sets
      "inet_pton() err"; the second throws out of the call and leaves the controller alone.
      Neither connects; the socket is closed. */
  lemma AddressFailures(codec: Codec, net: Network, serviceName: string, methodName: string, sendStr: seq<byte>)
    requires ReachesAddress(net, serviceName, methodName)
    requires net.ptonResult == -1 || Stoi(PortText(net, serviceName, methodName)).None?
    ensures var t := SendToServerTrace(codec, net, serviceName, methodName, sendStr);
      && NoConnect(t) && t[|t| - 1] == CloseSocket
      && FailureOf(t) == (if net.ptonResult == -1 then Some("inet_pton() err") else None)
      && (net.ptonResult != -1 ==> PortThrows in t)
  {
    var path := LookupPath(serviceName, methodName);
    var ip := Ip(net, serviceName, methodName);
    var transfer := TransferSteps(codec, net, ip, PortText(net, serviceName, methodName), sendStr);
    AddressTrace(codec, net, serviceName, methodName, sendStr);
    var tail := if net.ptonResult == -1 then [SetFailed("inet_pton() err")] else [PortThrows];
    assert transfer == [ConvertAddress(ip)] + tail;
    FailureBetween([OpenSocket, GetData(path)], transfer, [CloseSocket]);
    FailureOfConcat([ConvertAddress(ip)], tail);
  }

  /** `connect` failing: the call has connected to the registered address, sets
      "connect() err", writes nothing and closes the socket. */
  lemma ConnectFailure(codec: Codec, net: Network, serviceName: string, methodName: string, sendStr: seq<byte>)
    requires ReachesAddress(net, serviceName, methodName)
    requires net.ptonResult != -1 && Stoi(PortText(net, serviceName, methodName)).Some?
    requires net.connectResult == -1
    ensures var ip := Ip(net, serviceName, methodName);
      var port := Stoi(PortText(net, serviceName, methodName)).value % 0x1_0000;
      var t := SendToServerTrace(codec, net, serviceName, methodName, sendStr);
      && t == [OpenSocket, GetData(LookupPath(serviceName, methodName)), ConvertAddress(ip), ConnectTo(ip, port),
               SetFailed("connect() err"), CloseSocket]
      && FailureOf(t) == Some("connect() err")
      && (forall a :: a in t ==> !a.SendBytes?)
  {
    var ip := Ip(net, serviceName, methodName);
    var port := Stoi(PortText(net, serviceName, methodName)).value % 0x1_0000;
    var before := [OpenSocket, GetData(LookupPath(serviceName, methodName)), ConvertAddress(ip), ConnectTo(ip, port)];
    AddressTrace(codec, net, serviceName, methodName, sendStr);
    assert SendToServerTrace(codec, net, serviceName, methodName, sendStr) == before + [SetFailed("connect() err")] + [CloseSocket];
    FailureAt(before, "connect() err", [CloseSocket]);
  }

  /** The inputs under which `SendToServer` gets as far as `send`. */
  ghost predicate ReachesSend(net: Network, serviceName: string, methodName: string)
  {
    && ReachesAddress(net, serviceName, methodName)
    && net.ptonResult != -1
    && Stoi(PortText(net, serviceName, methodName)).Some?
    && net.connectResult != -1
  }

  lemma SendSteps(codec: Codec, net: Network, serviceName: string, methodName: string, sendStr: seq<byte>)
    requires ReachesSend(net, serviceName, methodName)
    ensures var ip := Ip(net, serviceName, methodName);
      var port := Stoi(PortText(net, serviceName, methodName)).value % 0x1_0000;
      SendToServerTrace(codec, net, serviceName, methodName, sendStr) ==
        [OpenSocket] + ([GetData(LookupPath(serviceName, methodName))] + ([ConvertAddress(ip), ConnectTo(ip, port),
         SendBytes(LengthPrefixed(sendStr))]
        + (if net.sendResult == -1 then [SetFailed("send() err")] else [Receive] + ReplySteps(codec, net.received))))
        + [CloseSocket]
  {
    LookupFound(codec, net, LookupPath(serviceName, methodName), sendStr);
    TransferPath(codec, net, Ip(net, serviceName, methodName), PortText(net, serviceName, methodName), sendStr);
  }

  /** The whole trace of a call that reaches `send`: it connects to the registered ip on the
      registered port (narrowed to 16 bits by `htons`), sends the frame behind its length and
      closes the socket after the last step. */
  lemma SendPath(codec: Codec, net: Network, serviceName: string, methodName: string, sendStr: seq<byte>)
    requires ReachesSend(net, serviceName, methodName)
    ensures var ip := Ip(net, serviceName, methodName);
      var port := Stoi(PortText(net, serviceName, methodName)).value % 0x1_0000;
      SendToServerTrace(codec, net, serviceName, methodName, sendStr) ==
        [OpenSocket, GetData(LookupPath(serviceName, methodName)), ConvertAddress(ip), ConnectTo(ip, port),
         SendBytes(BE32(Wrap32(|sendStr|)) + sendStr)]
        + (if net.sendResult == -1 then [SetFailed("send() err")] else [Receive] + ReplySteps(codec, net.received))
        + [CloseSocket]
  {
    var ip := Ip(net, serviceName, methodName);
    var port := Stoi(PortText(net, serviceName, methodName)).value % 0x1_0000;
    SendSteps(codec, net, serviceName, methodName, sendStr);
    Reassociate(OpenSocket, GetData(LookupPath(serviceName, methodName)), ConvertAddress(ip), ConnectTo(ip, port),
      SendBytes(LengthPrefixed(sendStr)),
      if net.sendResult == -1 then [SetFailed("send() err")] else [Receive] + ReplySteps(codec, net.received),
      CloseSocket);
  }

  /** A call that reaches `send` writes to the socket once, the frame behind its length. */
  lemma OneWrite(codec: Codec, net: Network, serviceName: string, methodName: string, sendStr: seq<byte>)
    requires ReachesSend(net, serviceName, methodName)
    ensures var t := SendToServerTrace(codec, net, serviceName, methodName, sendStr);
      && SendBytes(LengthPrefixed(sendStr)) in t
      && (forall a :: a in t && a.SendBytes? ==> a == SendBytes(LengthPrefixed(sendStr)))
  {
    var t := SendToServerTrace(codec, net, serviceName, methodName, sendStr);
    SendPath(codec, net, serviceName, methodName, sendStr);
    ReplyIsOneStep(codec, net.received);
    assert t[4] == SendBytes(LengthPrefixed(sendStr));
    assert forall i :: 0 <= i < |t| && i != 4 ==> !t[i].SendBytes?;
    OnlyWriteAt(t, 4);
  }

  /** `t[k]` is the only write of `t` when no other step writes. */
  lemma OnlyWriteAt(t: seq<Action>, k: nat)
    requires k < |t| && forall i :: 0 <= i < |t| && i != k ==> !t[i].SendBytes?
    ensures t[k] in t && forall a :: a in t && a.SendBytes? ==> a == t[k]
  {
  }

  /** Whatever `recv` returns, the reply is handled in one step, and that step is no write. */
  lemma ReplyIsOneStep(codec: Codec, received: RecvResult)
    ensures |ReplySteps(codec, received)| == 1 && !ReplySteps(codec, received)[0].SendBytes?
  {
  }

  /** When the call reaches `send`, the one write on the socket is `BE32(|frame|) ‖ frame`
      with frame `BE32(|header|) ‖ header ‖ request`, `8 + |header| + |request|` bytes. */
  lemma SentFrame(codec: Codec, net: Network, serviceName: string, methodName: string, request: seq<byte>, header: seq<byte>)
    requires ReachesSend(net, serviceName, methodName)
    requires codec.encodeHeader(CallHeader(serviceName, methodName, request)) == Some(header)
    ensures var t := CallTrace(codec, net, serviceName, methodName, Some(request));
      var wire := BE32(Wrap32(4 + |header| + |request|)) + BE32(Wrap32(|header|)) + header + request;
      && |wire| == 8 + |header| + |request|
      && SendBytes(wire) in t
      && (forall a :: a in t && a.SendBytes? ==> a == SendBytes(wire))
  {
    var frame := RequestFrame(header, request);
    assert CallTrace(codec, net, serviceName, methodName, Some(request)) == SendToServerTrace(codec, net, serviceName, methodName, frame);
    FrameOnWire(header, request);
    OneWrite(codec, net, serviceName, methodName, frame);
  }

  /** The frame behind its length is the two lengths, the header and the request. */
  lemma FrameOnWire(header: seq<byte>, request: seq<byte>)
    ensures LengthPrefixed(RequestFrame(header, request)) ==
      BE32(Wrap32(4 + |header| + |request|)) + BE32(Wrap32(|header|)) + header + request
  {
    var a, b := BE32(Wrap32(4 + |header| + |request|)), BE32(Wrap32(|header|));
    var frame := RequestFrame(header, request);
    assert frame == b + header + request;
    assert LengthPrefixed(frame) == a + frame;
    assert a + ((b + header) + request) == ((a + b) + header) + request;
  }

  /** The header `CallMethod` serializes parses back, on the provider, to the service name, the
      method name and the request length, when the request is shorter than 4 GiB. */
  lemma HeaderNamesCall(codec: Codec, serviceName: string, methodName: string, request: seq<byte>, header: seq<byte>)
    requires Sound(codec) && |request| < TWO_32
    requires codec.encodeHeader(CallHeader(serviceName, methodName, request)) == Some(header)
    ensures codec.decodeHeader(header) == Some(RpcHeader(serviceName, methodName, |request|))
  {
  }

  /** A `send` that fails sets "send() err" and nothing is received. */
  lemma SendFailure(codec: Codec, net: Network, serviceName: string, methodName: string, sendStr: seq<byte>)
    requires ReachesSend(net, serviceName, methodName) && net.sendResult == -1
    ensures FailureOf(SendToServerTrace(codec, net, serviceName, methodName, sendStr)) == Some("send() err")
    ensures Receive !in SendToServerTrace(codec, net, serviceName, methodName, sendStr)
  {
    var ip := Ip(net, serviceName, methodName);
    var port := Stoi(PortText(net, serviceName, methodName)).value % 0x1_0000;
    SendPath(codec, net, serviceName, methodName, sendStr);
    FailureBetween([OpenSocket, GetData(LookupPath(serviceName, methodName)), ConvertAddress(ip), ConnectTo(ip, port),
      SendBytes(BE32(Wrap32(|sendStr|)) + sendStr)], [SetFailed("send() err")], [CloseSocket]);
  }

  /** The failure after the `recv`: the texts for a failed call, a closed peer, an envelope
      that does not parse and an envelope that reports an error; none for a successful one. */
  lemma ReplyFailure(codec: Codec, received: RecvResult)
    ensures var wrapper := if received.Received? then codec.decodeEnvelope(received.bytes) else None;
      var f := FailureOf(ReplySteps(codec, received));
      && (received == RecvFailed ==> f == Some("recv() err"))
      && (received == PeerClosed ==> f == Some("连接异常断开"))
      && (received.Received? && wrapper.None? ==> f == Some("ParseFromString() err"))
      && (wrapper.Some? && !wrapper.value.success ==> f == Some(wrapper.value.message))
      && (wrapper.Some? && wrapper.value.success ==> f.None? && ReplySteps(codec, received) == [ParseResponse(wrapper.value.data)])
  {
  }

  /** After a successful `send`, the failure of the call is the failure after the `recv`. */
  lemma ReceivePath(codec: Codec, net: Network, serviceName: string, methodName: string, sendStr: seq<byte>)
    requires ReachesSend(net, serviceName, methodName) && net.sendResult != -1
    ensures var t := SendToServerTrace(codec, net, serviceName, methodName, sendStr);
      FailureOf(t) == FailureOf(ReplySteps(codec, net.received))
      && forall a :: a in ReplySteps(codec, net.received) ==> a in t
  {
    var ip := Ip(net, serviceName, methodName);
    var port := Stoi(PortText(net, serviceName, methodName)).value % 0x1_0000;
    var before := [OpenSocket, GetData(LookupPath(serviceName, methodName)), ConvertAddress(ip), ConnectTo(ip, port),
      SendBytes(BE32(Wrap32(|sendStr|)) + sendStr)];
    var reply := ReplySteps(codec, net.received);
    SendPath(codec, net, serviceName, methodName, sendStr);
    assert before + ([Receive] + reply) + [CloseSocket] == (before + [Receive]) + reply + [CloseSocket];
    FailureBetween(before + [Receive], reply, [CloseSocket]);
  }

  /** The text left on the controller by each outcome of `recv` and of parsing the envelope;
      a successful envelope never fails the call and its data is parsed into the response. */
  lemma ReceiveOutcomes(codec: Codec, net: Network, serviceName: string, methodName: string, sendStr: seq<byte>)
    requires ReachesSend(net, serviceName, methodName) && net.sendResult != -1
    ensures var t := SendToServerTrace(codec, net, serviceName, methodName, sendStr);
      var wrapper := if net.received.Received? then codec.decodeEnvelope(net.received.bytes) else None;
      && (net.received == RecvFailed ==> FailureOf(t) == Some("recv() err"))
      && (net.received == PeerClosed ==> FailureOf(t) == Some("连接异常断开"))
      && (net.received.Received? && wrapper.None? ==> FailureOf(t) == Some("ParseFromString() err"))
      && (wrapper.Some? && !wrapper.value.success ==> FailureOf(t) == Some(wrapper.value.message))
      && (wrapper.Some? && wrapper.value.success ==> FailureOf(t).None? && ParseResponse(wrapper.value.data) in t)
  {
    ReceivePath(codec, net, serviceName, methodName, sendStr);
    ReplyFailure(codec, net.received);
  }

  /** A request or header that cannot be serialized fails the call before any socket exists. */
  lemma SerializeFailure(codec: Codec, net: Network, serviceName: string, methodName: string, request: Option<seq<byte>>)
    requires request.None? || codec.encodeHeader(CallHeader(serviceName, methodName, request.value)).None?
    ensures var t := CallTrace(codec, net, serviceName, methodName, request);
      t == [SetFailed(SERIALIZE_ERROR)] && OpenSocket !in t && FailureOf(t) == Some("SerializeToString() err")
  {
  }
}
