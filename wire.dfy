/** The two protobuf messages the framework itself defines (the request header and the
    response envelope) and the serializers it relies on. Protobuf is not modelled: the
    serializers are supplied as function values and only their round-trip property is
    assumed, by the callers that need it, through `Sound`. */
module Wire {
  import opened Bytes
  import opened Text

  /** `MyRPC::RpcHeader`. */
  datatype RpcHeader = RpcHeader(serviceName: string, methodName: string, argvSize: uint32)

  /** `MyRPC::RPCResponseError` codes. */
  datatype ErrorCode = SUCCESS | PARSE_ERROR | SERVICE_NOT_FOUND | METHOD_NOT_FOUND

  /** `MyRPC::RPCResponseWrapper`: `success`, `error { error_code, error_message }`, `data`. */
  datatype Envelope = Envelope(success: bool, code: ErrorCode, message: string, data: seq<byte>)

  /** `SerializeToString` / `ParseFromString` of the two framework messages, plus whether the
      request prototype of a method accepts a given argument string. None is a failed call. */
  datatype Codec = Codec(
    encodeHeader: RpcHeader -> Option<seq<byte>>,
    decodeHeader: seq<byte> -> Option<RpcHeader>,
    encodeEnvelope: Envelope -> Option<seq<byte>>,
    decodeEnvelope: seq<byte> -> Option<Envelope>,
    requestParses: (string, string, seq<byte>) -> bool)

  /** What protobuf guarantees: whatever it serializes it parses back to the same message. */
  ghost predicate Sound(c: Codec)
  {
    && (forall h :: c.encodeHeader(h).Some? ==> c.decodeHeader(c.encodeHeader(h).value) == Some(h))
    && (forall e :: c.encodeEnvelope(e).Some? ==> c.decodeEnvelope(c.encodeEnvelope(e).value) == Some(e))
  }
}
