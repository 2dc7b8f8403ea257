/** The two halves of a call put together: what `RPCChannel::CallMethod` writes is what
    `RPCProvider::OnMessage` takes apart, the address `Run` publishes is the one the channel
    connects to, and the envelope the provider sends decides the controller's state. */
module EndToEnd {
  import opened Bytes
  import opened Text
  import opened Wire
  import opened Provider
  import opened ProviderProperties
  import opened Channel
  import opened ChannelProperties

  /** The bytes `CallMethod` writes for a header and a request. */
  function ClientWrite(header: seq<byte>, request: seq<byte>): seq<byte>
  {
    BE32(Wrap32(4 + |header| + |request|)) + BE32(Wrap32(|header|)) + header + request
  }

  /** A length field reads back as the value written, whatever follows it. */
  lemma ReadLength(n: uint32, rest: seq<byte>)
    ensures |BE32(n) + rest| >= 4 && DecodeBE32(BE32(n) + rest) == n
  {
    DecodePrefix(BE32(n), rest);
    DecodeEncode(n);
  }

  lemma WireSlices(header: seq<byte>, request: seq<byte>)
    ensures var data := ClientWrite(header, request);
      var hs := |header|;
      && data[4..] == BE32(Wrap32(|header|)) + (header + request)
      && data[8..8 + hs] == header
      && data[8 + hs..8 + hs + |request|] == request
      && data[8 + hs + |request|..] == []
  {
    var data := ClientWrite(header, request);
    var hs := |header|;
    assert data == BE32(Wrap32(4 + |header| + |request|)) + (BE32(Wrap32(|header|)) + (header + request));
    assert data[8..] == header + request;
  }

  /** The pieces of the client's write, as the provider reads them. */
  lemma WireParts(codec: Codec, header: seq<byte>, request: seq<byte>, h: RpcHeader)
    requires 8 + |header| + |request| < TWO_32
    requires codec.decodeHeader(header) == Some(h) && h.argvSize == |request|
    ensures RoutedFrame(codec, ClientWrite(header, request), h, request, [])
  {
    var data := ClientWrite(header, request);
    assert data == BE32(Wrap32(4 + |header| + |request|)) + (BE32(Wrap32(|header|)) + header + request);
    ReadLength(Wrap32(4 + |header| + |request|), BE32(Wrap32(|header|)) + header + request);
    WireSlices(header, request);
    ReadLength(Wrap32(|header|), header + request);
  }

  /** A call to a registered method whose arguments parse: the provider, given exactly the
      client's write, invokes that method once with the request bytes and drains the buffer. */
  lemma ServerDispatchesClientWrite(services: map<string, ServiceInfo>, codec: Codec,
                                    serviceName: string, methodName: string, request: seq<byte>, header: seq<byte>)
    requires Sound(codec) && 8 + |header| + |request| < TWO_32
    requires codec.encodeHeader(CallHeader(serviceName, methodName, request)) == Some(header)
    requires serviceName in services && methodName in services[serviceName].methodMap
    requires codec.requestParses(serviceName, methodName, request)
    ensures Process(services, codec, ClientWrite(header, request)) ==
      Outcome([], [Invoke(serviceName, methodName, services[serviceName].methodMap[methodName], request)], Drained)
  {
    HeaderNamesCall(codec, serviceName, methodName, request, header);
    var h := RpcHeader(serviceName, methodName, |request|);
    WireParts(codec, header, request, h);
    DispatchContinues(services, codec, ClientWrite(header, request), h, request, []);
    assert Process(services, codec, []) == Outcome([], [], Drained);
  }

  /** The whole path: a call that reaches `send` writes once, and that write is a frame the
      provider dispatches to the named method exactly once. */
  lemma CallReachesMethod(services: map<string, ServiceInfo>, codec: Codec, net: Network,
                          serviceName: string, methodName: string, request: seq<byte>, header: seq<byte>)
    requires ReachesSend(net, serviceName, methodName)
    requires Sound(codec) && 8 + |header| + |request| < TWO_32
    requires codec.encodeHeader(CallHeader(serviceName, methodName, request)) == Some(header)
    requires serviceName in services && methodName in services[serviceName].methodMap
    requires codec.requestParses(serviceName, methodName, request)
    ensures var t := CallTrace(codec, net, serviceName, methodName, Some(request));
      exists wire ::
        && SendBytes(wire) in t
        && (forall a :: a in t && a.SendBytes? ==> a == SendBytes(wire))
        && Process(services, codec, wire) ==
             Outcome([], [Invoke(serviceName, methodName, services[serviceName].methodMap[methodName], request)], Drained)
  {
    SentFrame(codec, net, serviceName, methodName, request, header);
    ServerDispatchesClientWrite(services, codec, serviceName, methodName, request, header);
    var wire := ClientWrite(header, request);
    assert SendBytes(wire) in CallTrace(codec, net, serviceName, methodName, Some(request));
  }

  /** However TCP splits the client's write, every proper prefix of it is left in the buffer
      with nothing done, so the method runs only once the whole write has arrived. */
  lemma PartialWriteWaits(services: map<string, ServiceInfo>, codec: Codec, header: seq<byte>, request: seq<byte>, k: nat)
    requires 4 + |header| + |request| < MAX_FRAME && k < 8 + |header| + |request|
    ensures var wire := ClientWrite(header, request);
      Process(services, codec, wire[..k]) == Outcome(wire[..k], [], if k <= 4 then Drained else Incomplete)
  {
    var wire := ClientWrite(header, request);
    assert wire == BE32(Wrap32(4 + |header| + |request|)) + (BE32(Wrap32(|header|)) + header + request);
    ReadLength(Wrap32(4 + |header| + |request|), BE32(Wrap32(|header|)) + header + request);
    PrefixOfFrameWaits(services, codec, wire, k);
  }

  /** The error the provider sends for an unregistered service, once received, fails the call
      with the provider's text. */
  lemma UnknownServiceFailsCall(services: map<string, ServiceInfo>, codec: Codec, net: Network,
                                serviceName: string, methodName: string, request: seq<byte>, header: seq<byte>)
    requires Sound(codec) && 8 + |header| + |request| < TWO_32
    requires codec.encodeHeader(CallHeader(serviceName, methodName, request)) == Some(header)
    requires serviceName !in services
    requires ReachesSend(net, serviceName, methodName) && net.sendResult != -1
    requires net.received.Received? && Process(services, codec, ClientWrite(header, request)).effects == [Send(net.received.bytes)]
    ensures FailureOf(CallTrace(codec, net, serviceName, methodName, Some(request))) == Some("未注册" + serviceName + "服务")
  {
    HeaderNamesCall(codec, serviceName, methodName, request, header);
    var h := RpcHeader(serviceName, methodName, |request|);
    WireParts(codec, header, request, h);
    UnknownService(services, codec, ClientWrite(header, request), h, request, []);
    var e := SendErrorResponse(codec, SERVICE_NOT_FOUND, "未注册" + serviceName + "服务");
    assert e == [Send(net.received.bytes)];
    ReceiveOutcomes(codec, net, serviceName, methodName, RequestFrame(header, request));
  }

  /** The response the invoked method sends back, once received, completes the call without a
      failure and its data is what the channel parses into the response. */
  lemma ResponseCompletesCall(codec: Codec, net: Network, serviceName: string, methodName: string,
                              request: seq<byte>, header: seq<byte>, response: seq<byte>)
    requires Sound(codec)
    requires codec.encodeHeader(CallHeader(serviceName, methodName, request)) == Some(header)
    requires ReachesSend(net, serviceName, methodName) && net.sendResult != -1
    requires net.received.Received? && SendRpcResponse(codec, Some(response)) == [Send(net.received.bytes)]
    ensures var t := CallTrace(codec, net, serviceName, methodName, Some(request));
      FailureOf(t).None? && ParseResponse(response) in t
  {
    ReceiveOutcomes(codec, net, serviceName, methodName, RequestFrame(header, request));
  }

  /** The method node `Run` publishes lives at the path the channel looks up. */
  lemma MethodNodePublished(services: map<string, ServiceInfo>, ip: string, port: uint16, serviceName: string, methodName: string)
    requires serviceName in services && methodName in services[serviceName].methodMap
    ensures ZNode(LookupPath(serviceName, methodName), Address(ip, port), true) in Publications(services, ip, port)
  {
    assert MethodPath(serviceName, methodName) == LookupPath(serviceName, methodName);
  }

  /** An address in the form `Run` writes is split back into the ip and the port's digits, and
      the channel reaches `send` with them. */
  lemma AddressReadBack(net: Network, serviceName: string, methodName: string, ip: string, port: uint16)
    requires ':' !in ip
    requires RegistryData(net.registry, LookupPath(serviceName, methodName)) == Address(ip, port)
    requires net.socketFd != -1 && net.ptonResult != -1 && net.connectResult != -1
    ensures ReachesSend(net, serviceName, methodName)
    ensures Ip(net, serviceName, methodName) == ip
    ensures Stoi(PortText(net, serviceName, methodName)).value % 0x1_0000 == port
  {
    SplitAddressJoin(ip, Decimal(port));
    StoiDecimal(port);
  }

  /** A registry holding what `Run` published for a method lets the channel find it: the
      channel connects to the provider's ip and port. */
  lemma PublishedAddressConnects(services: map<string, ServiceInfo>, ip: string, port: uint16, codec: Codec, net: Network,
                                 serviceName: string, methodName: string, sendStr: seq<byte>)
    requires serviceName in services && methodName in services[serviceName].methodMap
    requires ':' !in ip
    requires forall n :: n in Publications(services, ip, port) && n.ephemeral ==> n.path in net.registry && net.registry[n.path] == n.data
    requires net.socketFd != -1 && net.ptonResult != -1 && net.connectResult != -1
    ensures ReachesSend(net, serviceName, methodName)
    ensures ConnectTo(ip, port) in SendToServerTrace(codec, net, serviceName, methodName, sendStr)
  {
    MethodNodePublished(services, ip, port, serviceName, methodName);
    assert RegistryData(net.registry, LookupPath(serviceName, methodName)) == Address(ip, port);
    AddressReadBack(net, serviceName, methodName, ip, port);
    SendPath(codec, net, serviceName, methodName, sendStr);
  }
}
