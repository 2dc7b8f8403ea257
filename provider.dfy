/** The provider side (`RPCProvider`): the service table built by `NotifyService`, the nodes
    `Run` publishes, the framing and dispatch loop of `OnMessage` and the two response
    builders. The network server's byte buffer is the class `Buffer`; what the loop asks of
    the connection and of the services (send, close, invoke) is returned as a list of
    effects, in the order the code performs them. */
module Provider {
  import opened Bytes
  import opened Text
  import opened Wire

  /** A frame whose declared length reaches 64 MiB closes the connection (when incomplete). */
  const MAX_FRAME: int := 64 * 1024 * 1024

  /** The message the provider sends with a `PARSE_ERROR` envelope. */
  const PARSE_ERROR_TEXT: string := "反序列化错误"

  /** What the provider learns from a `google::protobuf::Service`: its descriptor's name and the
      names of `method(0)`, ..., `method(method_count() - 1)`. */
  datatype ServiceDescriptor = ServiceDescriptor(name: string, methods: seq<string>)

  /** `ServiceInfo`: the service handle and its method table, method name to the index of
      the method descriptor in the service descriptor. */
  datatype ServiceInfo = ServiceInfo(service: ServiceDescriptor, methodMap: map<string, nat>)

  /** The position of the first occurrence of `x` in `s`. */
  function FirstIndex(s: seq<string>, x: string): (i: nat)
    requires x in s
    ensures i < |s| && s[i] == x && x !in s[..i]
  {
    if s[0] == x then 0
    else
      var j := FirstIndex(s[1..], x);
      assert s[..j + 1] == [s[0]] + s[1..][..j];
      j + 1
  }

  /** The method table `NotifyService` builds: every method name, bound (as `insert` does) to
      the first descriptor that carries it. */
  function MethodTable(methods: seq<string>): (m: map<string, nat>)
    ensures m.Keys == set x | x in methods
    ensures forall x :: x in m ==> m[x] < |methods| && methods[m[x]] == x && x !in methods[..m[x]]
  {
    map x | x in methods :: FirstIndex(methods, x)
  }

  lemma {:induction false} FirstIndexSnoc(p: seq<string>, y: string, x: string)
    requires x in p
    ensures x in p + [y] && FirstIndex(p + [y], x) == FirstIndex(p, x)
  {
    if p[0] != x {
      assert (p + [y])[1..] == p[1..] + [y];
      FirstIndexSnoc(p[1..], y, x);
    }
  }

  lemma MethodTableSnoc(p: seq<string>, y: string)
    ensures MethodTable(p + [y]) == if y in p then MethodTable(p) else MethodTable(p)[y := |p|]
  {
    var a, b := MethodTable(p + [y]), if y in p then MethodTable(p) else MethodTable(p)[y := |p|];
    forall x | x in p
      ensures x in a && x in b && a[x] == b[x]
    {
      FirstIndexSnoc(p, y, x);
    }
    if y !in p {
      assert a[y] == |p| by {
        assert (p + [y])[|p|] == y && (p + [y])[..|p|] == p;
      }
    }
    assert a.Keys == b.Keys;
  }

  /** What one call of `OnMessage` asks of its collaborators. */
  datatype Effect =
    | Send(bytes: seq<byte>)          // pConn->send(wrapperStr)
    | CloseConnection                 // pConn->closeconnection()
    | Invoke(serviceName: string, methodName: string, methodIndex: nat, request: seq<byte>)  // CallMethod

  /** Why a call of `OnMessage` came back. */
  datatype Halt =
    | Drained             // at most 4 readable bytes: the while condition failed
    | Incomplete          // the frame is not all buffered yet
    | Oversized           // incomplete and its length is at least 64 MiB
    | HeaderParseFailed
    | ServiceNotFound
    | MethodNotFound
    | RequestParseFailed
    | Underrun            // the code asks the buffer for more bytes than it holds (see README)

  datatype Outcome = Outcome(rest: seq<byte>, effects: seq<Effect>, halt: Halt)

  /** What `HandleFrame` tells the loop: go on with a call made, or return. */
  datatype FrameResult = Dispatched(rest: seq<byte>, call: Effect) | Stopped(outcome: Outcome)

  function SuccessEnvelope(data: seq<byte>): Envelope
  {
    Envelope(true, SUCCESS, "", data)
  }

  function ErrorEnvelope(code: ErrorCode, message: string): Envelope
  {
    Envelope(false, code, message, [])
  }

  /** `SendRpcResponse`: the completion callback run by the invoked method. `response` is the
      serialized response message, None when its `SerializeToString` fails. */
  function SendRpcResponse(codec: Codec, response: Option<seq<byte>>): (effects: seq<Effect>)
    ensures effects == [] <==> response.None? || codec.encodeEnvelope(SuccessEnvelope(response.value)).None?
    ensures |effects| <= 1
    ensures effects != [] ==> effects[0].Send? && (Sound(codec) ==>
      codec.decodeEnvelope(effects[0].bytes) == Some(Envelope(true, SUCCESS, "", response.value)))
  {
    match response
    case None => []
    case Some(data) =>
      match codec.encodeEnvelope(SuccessEnvelope(data))
      case None => []
      case Some(wire) => [Send(wire)]
  }

  /** `SendErrorResponse`: one failure envelope with the given code and text, unless its
      serialization fails. */
  function SendErrorResponse(codec: Codec, code: ErrorCode, message: string): (effects: seq<Effect>)
    ensures effects == [] <==> codec.encodeEnvelope(ErrorEnvelope(code, message)).None?
    ensures |effects| <= 1
    ensures effects != [] ==> effects[0].Send? && (Sound(codec) ==>
      codec.decodeEnvelope(effects[0].bytes) == Some(Envelope(false, code, message, [])))
  {
    match codec.encodeEnvelope(ErrorEnvelope(code, message))
    case None => []
    case Some(wire) => [Send(wire)]
  }

  /** What the reads of a frame whose length test passed yield, before routing. */
  datatype Parse =
    | Short(rest: seq<byte>)                                      // the buffer ran out (see README)
    | BadHeader(rest: seq<byte>)                                  // `ParseFromString` of the header failed
    | Parsed(header: RpcHeader, argv: seq<byte>, rest: seq<byte>)

  /** Consume the length, the header length, `headerSize` header bytes and `argvSize`
      argument bytes. */
  function ParseFrame(codec: Codec, data: seq<byte>): (p: Parse)
    requires |data| >= 4
    ensures |p.rest| + 4 <= |data|
  {
    var d1 := data[4..];
    if |d1| < 4 then Short(d1)
    else
      var headerSize := DecodeBE32(d1);
      var d2 := d1[4..];
      if |d2| < headerSize then Short(d2)
      else
        var d3 := d2[headerSize..];
        match codec.decodeHeader(d2[..headerSize])
        case None => BadHeader(d3)
        case Some(h) =>
          if |d3| < h.argvSize then Short(d3)
          else Parsed(h, d3[..h.argvSize], d3[h.argvSize..])
  }

  /** The body of the `OnMessage` loop for a frame whose length test passed, and the rest of
      the loop: an error returns, a dispatched call goes on with the bytes after the frame. */
  function Frame(services: map<string, ServiceInfo>, codec: Codec, data: seq<byte>): Outcome
    requires |data| >= 4
    decreases |data|, 0
  {
    match ParseFrame(codec, data)
    case Short(rest) => Outcome(rest, [], Underrun)
    case BadHeader(rest) => Outcome(rest, SendErrorResponse(codec, PARSE_ERROR, PARSE_ERROR_TEXT), HeaderParseFailed)
    case Parsed(h, argv, rest) =>
      if h.serviceName !in services then
        Outcome(rest, SendErrorResponse(codec, SERVICE_NOT_FOUND, "未注册" + h.serviceName + "服务"), ServiceNotFound)
      else if h.methodName !in services[h.serviceName].methodMap then
        Outcome(rest, SendErrorResponse(codec, METHOD_NOT_FOUND, "未定义" + h.methodName + "方法"), MethodNotFound)
      else if !codec.requestParses(h.serviceName, h.methodName, argv) then
        Outcome(rest, SendErrorResponse(codec, PARSE_ERROR, PARSE_ERROR_TEXT), RequestParseFailed)
      else
        Then([Invoke(h.serviceName, h.methodName, services[h.serviceName].methodMap[h.methodName], argv)],
             Process(services, codec, rest))
  }

  function Then(effects: seq<Effect>, o: Outcome): Outcome
  {
    Outcome(o.rest, effects + o.effects, o.halt)
  }

  /** One call of `OnMessage` on a buffer holding `data`: the bytes left in the buffer, the
      effects in order, and the reason it returned. */
  function Process(services: map<string, ServiceInfo>, codec: Codec, data: seq<byte>): Outcome
    decreases |data|, 1
  {
    if |data| <= 4 then Outcome(data, [], Drained)
    else
      var len := DecodeBE32(data);
      if |data| >= Add32(4, len) then Frame(services, codec, data)
      else if len >= MAX_FRAME then Outcome(data, [CloseConnection], Oversized)
      else Outcome(data, [], Incomplete)
  }

  /** A coordination-service node created by `Run`. */
  datatype ZNode = ZNode(path: string, data: string, ephemeral: bool)

  function ServicePath(service: string): string
  {
    "/" + service
  }

  function MethodPath(service: string, methodName: string): string
  {
    ServicePath(service) + "/" + methodName
  }

  /** `ip + ":" + std::to_string(port)`, the data of every method node. */
  function Address(ip: string, port: uint16): string
  {
    ip + ":" + Decimal(port)
  }

  /** The nodes `Run` publishes: a permanent `/service` node with no data per service and an
      ephemeral `/service/method` node holding the address per method. */
  function Publications(services: map<string, ServiceInfo>, ip: string, port: uint16): (nodes: set<ZNode>)
    ensures forall n :: n in nodes && !n.ephemeral ==> n.data == "" && exists s :: s in services && n.path == ServicePath(s)
    ensures forall n :: n in nodes && n.ephemeral ==>
      n.data == Address(ip, port) && exists s, m :: s in services && m in services[s].methodMap && n.path == MethodPath(s, m)
    ensures forall s :: s in services ==> ZNode(ServicePath(s), "", false) in nodes
    ensures forall s, m :: s in services && m in services[s].methodMap ==> ZNode(MethodPath(s, m), Address(ip, port), true) in nodes
  {
    (set s | s in services :: ZNode(ServicePath(s), "", false))
    + (set s, m | s in services && m in services[s].methodMap :: ZNode(MethodPath(s, m), Address(ip, port), true))
  }

  /** The readable part of the network server's input buffer. */
  class Buffer {
    var data: seq<byte>

    constructor (init: seq<byte>)
      ensures data == init
    {
      data := init;
    }

    function ReadableBytes(): nat
      reads this
    {
      |data|
    }

    function PeekInt32(): (n: uint32)
      reads this
      requires |data| >= 4
    {
      DecodeBE32(data)
    }

    method Retrieve(n: nat)
      requires n <= |data|
      modifies this
      ensures data == old(data)[n..]
    {
      data := data[n..];
    }

    method ReadInt32() returns (n: uint32)
      requires |data| >= 4
      modifies this
      ensures n == DecodeBE32(old(data)) && data == old(data)[4..]
    {
      n := DecodeBE32(data);
      data := data[4..];
    }

    method RetrieveAsString(n: nat) returns (s: seq<byte>)
      requires n <= |data|
      modifies this
      ensures s == old(data)[..n] && data == old(data)[n..]
    {
      s := data[..n];
      data := data[n..];
    }
  }

  class RpcProvider {
    var services: map<string, ServiceInfo>

    constructor ()
      ensures services == map[]
    {
      services := map[];
    }

    /** Registers a service: records all of its methods, and stores it under its name unless
        a service of that name is already registered (`insert` keeps the old entry). */
    method NotifyService(svc: ServiceDescriptor)
      modifies this
      ensures services == if svc.name in old(services) then old(services)
                          else old(services)[svc.name := ServiceInfo(svc, MethodTable(svc.methods))]
    {
      var methodMap: map<string, nat> := map[];
      var i := 0;
      while i < |svc.methods|
        invariant 0 <= i <= |svc.methods|
        invariant methodMap == MethodTable(svc.methods[..i])
        invariant services == old(services)
      {
        MethodTableSnoc(svc.methods[..i], svc.methods[i]);
        assert svc.methods[..i + 1] == svc.methods[..i] + [svc.methods[i]];
        if svc.methods[i] !in methodMap {
          methodMap := methodMap[svc.methods[i] := i];
        }
        i := i + 1;
      }
      assert svc.methods[..i] == svc.methods;
      if svc.name !in services {
        services := services[svc.name := ServiceInfo(svc, methodMap)];
      }
    }

    /** The body of the `OnMessage` loop once the length test has passed. */
    method HandleFrame(codec: Codec, buffer: Buffer) returns (r: FrameResult)
      requires |buffer.data| >= 4
      modifies buffer
      ensures r.Dispatched? ==>
                buffer.data == r.rest && |r.rest| < |old(buffer.data)|
                && Frame(services, codec, old(buffer.data)) == Then([r.call], Process(services, codec, r.rest))
      ensures r.Stopped? ==> buffer.data == r.outcome.rest && Frame(services, codec, old(buffer.data)) == r.outcome
    {
      buffer.Retrieve(4);
      // The buffer's behaviour when asked for more than it holds is not modelled: stop.
      if buffer.ReadableBytes() < 4 {
        return Stopped(Outcome(buffer.data, [], Underrun));
      }
      var headerSize := buffer.ReadInt32();
      if buffer.ReadableBytes() < headerSize {
        return Stopped(Outcome(buffer.data, [], Underrun));
      }
      var headerStr := buffer.RetrieveAsString(headerSize);
      var header := codec.decodeHeader(headerStr);
      if header.None? {
        return Stopped(Outcome(buffer.data, SendErrorResponse(codec, PARSE_ERROR, PARSE_ERROR_TEXT), HeaderParseFailed));
      }
      var serviceName, methodName, argvSize := header.value.serviceName, header.value.methodName, header.value.argvSize;
      if buffer.ReadableBytes() < argvSize {
        return Stopped(Outcome(buffer.data, [], Underrun));
      }
      var argvStr := buffer.RetrieveAsString(argvSize);
      if serviceName !in services {
        return Stopped(Outcome(buffer.data, SendErrorResponse(codec, SERVICE_NOT_FOUND, "未注册" + serviceName + "服务"), ServiceNotFound));
      }
      var info := services[serviceName];
      if methodName !in info.methodMap {
        return Stopped(Outcome(buffer.data, SendErrorResponse(codec, METHOD_NOT_FOUND, "未定义" + methodName + "方法"), MethodNotFound));
      }
      if !codec.requestParses(serviceName, methodName, argvStr) {
        return Stopped(Outcome(buffer.data, SendErrorResponse(codec, PARSE_ERROR, PARSE_ERROR_TEXT), RequestParseFailed));
      }
      return Dispatched(buffer.data, Invoke(serviceName, methodName, info.methodMap[methodName], argvStr));
    }

    /** The data-arrival callback: handles every complete frame in the buffer until an error,
        an incomplete frame or at most four bytes remain. */
    method OnMessage(codec: Codec, buffer: Buffer) returns (effects: seq<Effect>, halt: Halt)
      modifies buffer
      ensures Process(services, codec, old(buffer.data)) == Outcome(buffer.data, effects, halt)
    {
      effects := [];
      while buffer.ReadableBytes() > 4
        invariant Process(services, codec, old(buffer.data)) == Then(effects, Process(services, codec, buffer.data))
        decreases |buffer.data|
      {
        var len := buffer.PeekInt32();
        if buffer.ReadableBytes() >= Add32(4, len) {
          var r := HandleFrame(codec, buffer);
          if r.Stopped? {
            effects := effects + r.outcome.effects;
            halt := r.outcome.halt;
            return;
          }
          effects := effects + [r.call];
        } else if len >= MAX_FRAME {
          effects := effects + [CloseConnection];
          halt := Oversized;
          return;
        } else {
          halt := Incomplete;
          return;
        }
      }
      halt := Drained;
    }
  }
}
