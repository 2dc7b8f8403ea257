/** What `OnMessage` does to a buffer, stated about its specification `Process`. */
module ProviderProperties {
  import opened Bytes
  import opened Text
  import opened Wire
  import opened Provider

  /** The frame's declared length has been fully buffered (with `4 + len` in `uint32`). */
  ghost predicate LengthTestPasses(data: seq<byte>)
  {
    |data| > 4 && |data| >= Add32(4, DecodeBE32(data))
  }

  ghost predicate Invocations(effects: seq<Effect>)
  {
    forall i :: 0 <= i < |effects| ==> effects[i].Invoke?
  }

  /** With at most four readable bytes the loop body never runs. */
  lemma ShortBufferUntouched(services: map<string, ServiceInfo>, codec: Codec, data: seq<byte>)
    requires |data| <= 4
    ensures Process(services, codec, data) == Outcome(data, [], Drained)
  {
  }

  /** An incomplete frame below 64 MiB is left in the buffer and nothing is sent. */
  lemma IncompleteFrameWaits(services: map<string, ServiceInfo>, codec: Codec, data: seq<byte>)
    requires |data| > 4 && !LengthTestPasses(data) && DecodeBE32(data) < MAX_FRAME
    ensures Process(services, codec, data) == Outcome(data, [], Incomplete)
  {
  }

  /** An incomplete frame of 64 MiB or more closes the connection, consuming nothing. */
  lemma OversizedFrameCloses(services: map<string, ServiceInfo>, codec: Codec, data: seq<byte>)
    requires |data| > 4 && !LengthTestPasses(data) && DecodeBE32(data) >= MAX_FRAME
    ensures Process(services, codec, data) == Outcome(data, [CloseConnection], Oversized)
  {
  }

  /** A frame that passes the length test is taken apart whatever its length: something is
      consumed and the first effect is not a close. */
  lemma CompleteFrameIsHandled(services: map<string, ServiceInfo>, codec: Codec, data: seq<byte>)
    requires LengthTestPasses(data)
    ensures var o := Process(services, codec, data);
      |o.rest| < |data| && (o.effects == [] || o.effects[0] != CloseConnection)
  {
    FrameRestIsSuffix(services, codec, data);
    FrameCloseShape(services, codec, data);
  }

  /** The reads of a frame consume a prefix of the buffer, at least its length field. */
  lemma ParseRestIsSuffix(codec: Codec, data: seq<byte>)
    requires |data| >= 4
    ensures var rest := ParseFrame(codec, data).rest;
      rest == data[|data| - |rest|..]
  {
    var rest := ParseFrame(codec, data).rest;
    var d1 := data[4..];
    if |d1| >= 4 {
      var d2 := d1[4..];
      assert d2 == data[8..];
      var hs := DecodeBE32(d1);
      if |d2| >= hs {
        var d3 := d2[hs..];
        assert d3 == data[8 + hs..];
        if codec.decodeHeader(d2[..hs]).Some? && |d3| >= codec.decodeHeader(d2[..hs]).value.argvSize {
          assert rest == d3[codec.decodeHeader(d2[..hs]).value.argvSize..];
        }
      }
    }
  }

  /** The bytes left are always a suffix of the bytes given. */
  lemma {:induction false} RestIsSuffix(services: map<string, ServiceInfo>, codec: Codec, data: seq<byte>)
    decreases |data|, 1
    ensures var o := Process(services, codec, data);
      |o.rest| <= |data| && o.rest == data[|data| - |o.rest|..]
  {
    if LengthTestPasses(data) {
      FrameRestIsSuffix(services, codec, data);
    }
  }

  /** What a frame and the rest of the loop leave is a proper suffix of the buffer. */
  lemma {:induction false} FrameRestIsSuffix(services: map<string, ServiceInfo>, codec: Codec, data: seq<byte>)
    requires |data| >= 4
    decreases |data|, 0
    ensures var o := Frame(services, codec, data);
      |o.rest| < |data| && o.rest == data[|data| - |o.rest|..]
  {
    var p := ParseFrame(codec, data);
    ParseRestIsSuffix(codec, data);
    if p.Parsed? {
      RestIsSuffix(services, codec, p.rest);
      var r := Process(services, codec, p.rest).rest;
      assert r == p.rest[|p.rest| - |r|..];
    }
  }

  /** The connection is closed exactly when the call halts on an oversized incomplete frame;
      the close is then the last effect, and the frame that caused it is still buffered. */
  ghost predicate ClosesOnlyWhenOversized(o: Outcome)
  {
    && (CloseConnection in o.effects <==> o.halt == Oversized)
    && (o.halt == Oversized ==>
          && o.effects != [] && o.effects[|o.effects| - 1] == CloseConnection
          && |o.rest| > 4 && !LengthTestPasses(o.rest) && DecodeBE32(o.rest) >= MAX_FRAME)
  }

  lemma {:induction false} CloseOnlyWhenOversized(services: map<string, ServiceInfo>, codec: Codec, data: seq<byte>)
    decreases |data|, 1
    ensures ClosesOnlyWhenOversized(Process(services, codec, data))
  {
    if LengthTestPasses(data) {
      FrameCloseShape(services, codec, data);
    }
  }

  /** A frame never closes the connection itself; only a later oversized frame does. */
  lemma {:induction false} FrameCloseShape(services: map<string, ServiceInfo>, codec: Codec, data: seq<byte>)
    requires |data| >= 4
    decreases |data|, 0
    ensures var o := Frame(services, codec, data);
      ClosesOnlyWhenOversized(o) && (o.effects == [] || o.effects[0] != CloseConnection)
  {
    var p := ParseFrame(codec, data);
    if p.Parsed? {
      CloseOnlyWhenOversized(services, codec, p.rest);
      var o := Process(services, codec, p.rest);
      var h := p.header;
      if h.serviceName in services && h.methodName in services[h.serviceName].methodMap
         && codec.requestParses(h.serviceName, h.methodName, p.argv) {
        var call := Invoke(h.serviceName, h.methodName, services[h.serviceName].methodMap[h.methodName], p.argv);
        assert Frame(services, codec, data).effects == [call] + o.effects;
      }
    }
  }

  /** A successful dispatch goes on to the next frame while every error returns: all effects
      but the last are invocations, a call that stops on an error either sends one envelope as
      its last effect or (when serializing it failed) only invokes, and a call that stops for
      lack of data only invokes. */
  ghost predicate EffectsShaped(o: Outcome)
  {
    && (o.effects != [] ==> Invocations(o.effects[..|o.effects| - 1]))
    && (o.halt == Drained || o.halt == Incomplete || o.halt == Underrun ==> Invocations(o.effects))
    && (o.halt == HeaderParseFailed || o.halt == ServiceNotFound || o.halt == MethodNotFound || o.halt == RequestParseFailed
        ==> Invocations(o.effects) || o.effects[|o.effects| - 1].Send?)
  }

  lemma {:induction false} EffectsShape(services: map<string, ServiceInfo>, codec: Codec, data: seq<byte>)
    decreases |data|, 1
    ensures EffectsShaped(Process(services, codec, data))
  {
    if LengthTestPasses(data) {
      FrameEffectsShape(services, codec, data);
    }
  }

  lemma {:induction false} FrameEffectsShape(services: map<string, ServiceInfo>, codec: Codec, data: seq<byte>)
    requires |data| >= 4
    decreases |data|, 0
    ensures EffectsShaped(Frame(services, codec, data))
  {
    var p := ParseFrame(codec, data);
    var o := Frame(services, codec, data);
    if p.Parsed? {
      var h := p.header;
      if h.serviceName in services && h.methodName in services[h.serviceName].methodMap
         && codec.requestParses(h.serviceName, h.methodName, p.argv) {
        EffectsShape(services, codec, p.rest);
        InvocationThenShaped(Invoke(h.serviceName, h.methodName, services[h.serviceName].methodMap[h.methodName], p.argv),
                             Process(services, codec, p.rest));
      } else {
        ErrorShaped(o);
      }
    } else {
      ErrorShaped(o);
    }
  }

  /** An outcome with at most one effect, a send, that is not a loop exit. */
  lemma ErrorShaped(o: Outcome)
    requires |o.effects| <= 1 && (o.effects != [] ==> o.effects[0].Send?)
    requires o.halt == Underrun ==> o.effects == []
    requires o.halt != Drained && o.halt != Incomplete && o.halt != Oversized
    ensures EffectsShaped(o)
  {
    if o.effects != [] {
      assert o.effects[..|o.effects| - 1] == [];
    }
  }

  /** An invocation in front of a shaped outcome keeps it shaped. */
  lemma InvocationThenShaped(call: Effect, o: Outcome)
    requires call.Invoke? && EffectsShaped(o)
    ensures EffectsShaped(Then([call], o))
  {
    var e := Then([call], o).effects;
    assert e == [call] + o.effects;
    if o.effects != [] {
      assert e[..|e| - 1] == [call] + o.effects[..|o.effects| - 1];
    } else {
      assert e[..|e| - 1] == [];
    }
  }

  /** The header cannot be parsed: the length, the header length and exactly `headerSize`
      header bytes are consumed, one `PARSE_ERROR` envelope is sent and the call returns. */
  lemma HeaderParseFailure(services: map<string, ServiceInfo>, codec: Codec, data: seq<byte>)
    requires LengthTestPasses(data) && |data| >= 8
    requires 8 + DecodeBE32(data[4..]) <= |data|
    requires codec.decodeHeader(data[8..8 + DecodeBE32(data[4..])]).None?
    ensures Process(services, codec, data) ==
      Outcome(data[8 + DecodeBE32(data[4..])..], SendErrorResponse(codec, PARSE_ERROR, PARSE_ERROR_TEXT), HeaderParseFailed)
  {
    var hs := DecodeBE32(data[4..]);
    assert data[4..][4..] == data[8..];
    assert data[8..][..hs] == data[8..8 + hs];
    assert data[8..][hs..] == data[8 + hs..];
  }

  /** The header of a frame whose length test passed, when it parses and its arguments are
      buffered: the header, its arguments and the bytes after them. */
  ghost predicate RoutedFrame(codec: Codec, data: seq<byte>, h: RpcHeader, argv: seq<byte>, rest: seq<byte>)
  {
    && LengthTestPasses(data) && |data| >= 8
    && var hs := DecodeBE32(data[4..]);
       && 8 + hs + h.argvSize <= |data|
       && codec.decodeHeader(data[8..8 + hs]) == Some(h)
       && argv == data[8 + hs..8 + hs + h.argvSize]
       && rest == data[8 + hs + h.argvSize..]
  }

  lemma RoutedFrameParts(services: map<string, ServiceInfo>, codec: Codec, data: seq<byte>, h: RpcHeader, argv: seq<byte>, rest: seq<byte>)
    requires RoutedFrame(codec, data, h, argv, rest)
    ensures var hs := DecodeBE32(data[4..]);
      var d3 := data[4..][4..][hs..];
      && |data[4..]| >= 4 && DecodeBE32(data[4..]) == hs && |data[4..][4..]| >= hs
      && codec.decodeHeader(data[4..][4..][..hs]) == Some(h)
      && |d3| >= h.argvSize && d3[..h.argvSize] == argv && d3[h.argvSize..] == rest
  {
    var hs := DecodeBE32(data[4..]);
    assert data[4..][4..] == data[8..];
    assert data[8..][..hs] == data[8..8 + hs];
    assert data[8..][hs..] == data[8 + hs..];
    assert data[8 + hs..][..h.argvSize] == argv;
    assert data[8 + hs..][h.argvSize..] == rest;
  }

  /** An unregistered service: the arguments are consumed, one `SERVICE_NOT_FOUND` envelope
      naming the service is sent and the call returns. */
  lemma UnknownService(services: map<string, ServiceInfo>, codec: Codec, data: seq<byte>, h: RpcHeader, argv: seq<byte>, rest: seq<byte>)
    requires RoutedFrame(codec, data, h, argv, rest)
    requires h.serviceName !in services
    ensures Process(services, codec, data) ==
      Outcome(rest, SendErrorResponse(codec, SERVICE_NOT_FOUND, "未注册" + h.serviceName + "服务"), ServiceNotFound)
  {
    RoutedFrameParts(services, codec, data, h, argv, rest);
  }

  /** A registered service without the method: the arguments are consumed, one
      `METHOD_NOT_FOUND` envelope naming the method is sent and the call returns. */
  lemma UnknownMethod(services: map<string, ServiceInfo>, codec: Codec, data: seq<byte>, h: RpcHeader, argv: seq<byte>, rest: seq<byte>)
    requires RoutedFrame(codec, data, h, argv, rest)
    requires h.serviceName in services && h.methodName !in services[h.serviceName].methodMap
    ensures Process(services, codec, data) ==
      Outcome(rest, SendErrorResponse(codec, METHOD_NOT_FOUND, "未定义" + h.methodName + "方法"), MethodNotFound)
  {
    RoutedFrameParts(services, codec, data, h, argv, rest);
  }

  /** A registered method whose arguments do not parse: the arguments are consumed, one
      `PARSE_ERROR` envelope is sent and the call returns without invoking the method. */
  lemma RequestParseFailure(services: map<string, ServiceInfo>, codec: Codec, data: seq<byte>, h: RpcHeader, argv: seq<byte>, rest: seq<byte>)
    requires RoutedFrame(codec, data, h, argv, rest)
    requires h.serviceName in services && h.methodName in services[h.serviceName].methodMap
    requires !codec.requestParses(h.serviceName, h.methodName, argv)
    ensures Process(services, codec, data) ==
      Outcome(rest, SendErrorResponse(codec, PARSE_ERROR, PARSE_ERROR_TEXT), RequestParseFailed)
  {
    RoutedFrameParts(services, codec, data, h, argv, rest);
  }

  /** A registered method whose arguments parse is invoked with exactly those argument bytes,
      and the loop goes on with the bytes after them. */
  lemma DispatchContinues(services: map<string, ServiceInfo>, codec: Codec, data: seq<byte>, h: RpcHeader, argv: seq<byte>, rest: seq<byte>)
    requires RoutedFrame(codec, data, h, argv, rest)
    requires h.serviceName in services && h.methodName in services[h.serviceName].methodMap
    requires codec.requestParses(h.serviceName, h.methodName, argv)
    ensures Process(services, codec, data) ==
      Then([Invoke(h.serviceName, h.methodName, services[h.serviceName].methodMap[h.methodName], argv)],
           Process(services, codec, rest))
  {
    RoutedFrameParts(services, codec, data, h, argv, rest);
  }

  /** Partial delivery: every proper prefix of a frame below 64 MiB is left alone, so the
      frame is handled only once all of it is buffered, however it was split. */
  lemma PrefixOfFrameWaits(services: map<string, ServiceInfo>, codec: Codec, frame: seq<byte>, k: nat)
    requires |frame| >= 4 && DecodeBE32(frame) == |frame| - 4 < MAX_FRAME
    requires k < |frame|
    ensures Process(services, codec, frame[..k]) == Outcome(frame[..k], [], if k <= 4 then Drained else Incomplete)
  {
    if k > 4 {
      DecodePrefix(frame[..k], frame[k..]);
      assert frame[..k] + frame[k..] == frame;
    }
  }

  /** `4 + len` wraps for a declared length of 2^32 - 4 or more, so such a frame passes the
      length test with as few as five bytes buffered and the 64 MiB guard is never reached. */
  lemma WrappedLengthSkipsGuard(services: map<string, ServiceInfo>, codec: Codec, data: seq<byte>)
    requires |data| > 4 && DecodeBE32(data) >= TWO_32 - 4
    ensures LengthTestPasses(data)
    ensures var o := Process(services, codec, data);
      |o.rest| < |data| && (o.effects == [] || o.effects[0] != CloseConnection)
  {
    CompleteFrameIsHandled(services, codec, data);
  }

  /** The smallest such buffer: the frame is entered and the code runs out of bytes. */
  lemma WrappedLengthExample(services: map<string, ServiceInfo>, codec: Codec)
    ensures Process(services, codec, [0xFF, 0xFF, 0xFF, 0xFF, 0]) == Outcome([0], [], Underrun)
  {
    assert DecodeBE32([0xFF, 0xFF, 0xFF, 0xFF, 0]) == TWO_32 - 1;
  }
}
