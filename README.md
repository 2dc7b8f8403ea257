# MyRPC in Dafny

A model of the core of MyRPC, a small C++ RPC framework built on protobuf services and
a ZooKeeper registry. It covers seven pieces and proves properties about each.

- **Provider** (`RPCProvider`). `NotifyService` builds the service and method tables. `Run`
  publishes the registry nodes. `OnMessage` is the framing and dispatch loop over the
  server's input buffer. The two builders produce the success and error response envelopes.
- **Channel** (`RPCChannel`). `CallMethod` builds the request frame. `SendToServer` resolves
  the provider in the registry, connects, sends one length-prefixed write, does one `recv`,
  and reports on the controller.
- **Connection pool** (`RPCConnectionsPool`). It keeps per-host FIFO queues of idle
  connections, per-host connection counts, a per-host cap, an idle timeout, and two cleaners.
- **Connection** (`RPCConnection`). A socket wrapper with `Connect`, `close`, `Send` and `Recv`.
- **Controller** (`RPCController`). A failed flag and an error text. Cancellation is inert.
- **Configuration** (`RPCConfig`). It reads `key=value` lines with `trim`. The first
  definition of a key wins.
- **End to end**. What the channel writes is what the provider takes apart. The address `Run`
  publishes is the one the channel connects to. The envelope the provider sends decides the
  controller's final state.

Modules and files:

| file | module | what it holds |
|---|---|---|
| `bytes.dfy` | `Bytes` | bytes, `uint32`, the wrapping `uint32_t` sum, the 4-byte big-endian length field |
| `text.dfy` | `Text` | `Option`, C-locale `isspace`, `find`, `std::to_string`, `std::stoi` |
| `wire.dfy` | `Wire` | `RpcHeader`, `RPCResponseWrapper`, error codes, the serializers as a `Codec` value |
| `controller.dfy` | `Controller` | the `RpcController` class |
| `connection.dfy` | `Connection` | the connection state machine and the `RpcConnection` class |
| `provider.dfy` | `Provider` | the method table, responses, `Process`/`Frame` (the specification of `OnMessage`), the `Buffer` and `RpcProvider` classes |
| `provider_properties.dfy` | `ProviderProperties` | what `OnMessage` does to a buffer |
| `channel.dfy` | `Channel` | the request frame, the address split, the `SendToServer` and `CallMethod` traces and the methods proved against them |
| `channel_properties.dfy` | `ChannelProperties` | the failure texts and the write made by each path of a call |
| `pool.dfy` | `Pool` | the pool state, its step functions and the `ConnectionsPool` class |
| `pool_properties.dfy` | `PoolProperties` | the accounting invariant and the behaviour of each pool operation |
| `config.dfy` | `Config` | `trim`, the line rules and the `RpcConfig` class |
| `config_properties.dfy` | `ConfigProperties` | what `trim` and the loader guarantee |
| `endtoend.dfy` | `EndToEnd` | the client write as read by the provider, and the registry round trip |

How the outside world is modelled:

- **Protobuf.** `Codec` is a value of serializer and parser functions. Nothing assumes it
  round-trips, except lemmas that take `Sound(codec)` as a precondition.
- **Sockets, the registry and `recv`.** On the client these answers are a `Network` value.
  `CallMethod` and `SendToServer` return the trace of `Action`s the code performs, in order.
  They also update the controller exactly as `Reported` says: the first `SetFailed` of the
  trace, or nothing.
- **The server's connection.** `OnMessage` returns the list of `Effect`s it asks of the
  connection and the services (send, close, invoke), and the `Halt` reason it returned for.
  `Process` is its specification: a function of the buffered bytes.
- **Time.** Time is integer seconds, passed in as `now`. The pool's connections are values
  that carry their host, their stamp and their liveness.

Where the framework's documented design differs from its code, the model follows the code:

- **Registry miss.** The failure text is `path + " Not Exit In ZooKeeperServer"`.
- **Peer closed.** The failure text is `"连接异常断开"`.
- **Socket creation.** A failed `socket()` in `SendToServer` sets `"send err"`.
- **No pool on the client.** The channel opens its own socket, not a pooled connection.
- **Frame consumption.** `OnMessage` consumes by the header's own `headerSize` and
  `argvSize`, not by the frame's declared length.
- **The 64 MiB guard.** It is only checked for an incomplete frame. A fully buffered frame is
  handled whatever its length.
- **Wrapping length test.** `4 + len` is a `uint32_t` sum. A declared length of 2^32 - 4 or
  more wraps, so the frame passes the length test with five bytes buffered
  (`WrappedLengthSkipsGuard`, `WrappedLengthExample`).
- **Error returns.** After an error envelope `OnMessage` returns, and later frames wait for
  the next data event. After a successful dispatch it loops.
- **Response framing.** Responses are the bare envelope bytes given to `send`. The client
  parses the bytes of its one `recv` as the envelope.

## Model

| member | source | states |
|---|---|---|
| Bytes.Wrap32 | src/RPCChannel.cpp:37 | the `uint32_t` value of a length: unchanged below 2^32, congruent to it modulo 2^32 otherwise |
| Bytes.Add32Wraps | src/RPCProvider.cpp:75 | the `uint32_t` sum `4 + len` is the true sum reduced to 32 bits |
| Bytes.BE32 | src/RPCChannel.cpp:131-132 | `htonl` and the raw 4-byte copy give exactly four bytes |
| Bytes.DecodeEncode | src/RPCChannel.cpp:131-132 | reading back the four bytes written for `n` with `peekInt32`/`readInt32` gives `n` |
| Bytes.EncodeDecode | src/RPCProvider.cpp:74 | any four bytes are the encoding of the value read from them |
| Bytes.DecodePrefix | src/RPCProvider.cpp:74 | reading a length looks only at the first four buffered bytes |
| Text.IndexOf | src/RPCChannel.cpp:99 | `find`: `npos` exactly when the character is absent, otherwise the position of its first occurrence |
| Text.Decimal | src/RPCProvider.cpp:57 | `std::to_string` of a port is a non-empty run of decimal digits |
| Text.DecimalValue | src/RPCProvider.cpp:57 | those digits denote the number printed |
| Text.DropSpacesIsSuffix | src/RPCChannel.cpp:118 | the white space `stoi` skips is a prefix, and what is left starts with a non-space |
| Text.DigitPrefixIsLongest | src/RPCChannel.cpp:118 | the digits `stoi` takes are the longest run of digits at the front |
| Text.Stoi | src/RPCChannel.cpp:118 | a value `stoi` returns fits an `int`; no digit or overflow is the exception |
| Text.StoiDecimal | src/RPCChannel.cpp:118 | `stoi` of what `std::to_string` printed gives the number back |
| Controller.RpcController.constructor | src/RPCController.cpp:3-6 | a fresh controller has not failed and has an empty error text |
| Controller.RpcController.Reset | src/RPCController.cpp:9-13 | the state is that of a fresh controller again |
| Controller.RpcController.StartCancel | src/RPCController.cpp:28-30 | the failed flag and the error text are unchanged |
| Controller.RpcController.SetFailed | src/RPCController.cpp:33-37 | the call has failed with exactly the given reason, whatever text was there |
| Controller.RpcController.IsCanceled | src/RPCController.cpp:40-43 | a call is never reported cancelled |
| Controller.RpcController.NotifyOnCancel | src/RPCController.cpp:46-48 | the failed flag and the error text are unchanged, and the callback is not stored |
| Connection.FreshNotConnected | src/RPCConnection.cpp:6-12 | a new connection is not connected, whatever its uninitialised flag holds |
| Connection.ConnectWhenConnected | src/RPCConnection.cpp:21-24 | `Connect` on a connected socket returns true and changes nothing |
| Connection.ConnectOutcome | src/RPCConnection.cpp:26-54 | otherwise it succeeds iff `socket`, `inet_pton` and `connect` all do; a failure leaves `fd == -1`, closing the socket it made; a success leaves a connected descriptor |
| Connection.ConnectResultIsConnected | src/RPCConnection.cpp:19-60 | the value `Connect` returns is whether `IsConnected` holds afterwards |
| Connection.CloseIdempotent | src/RPCConnection.cpp:62-70 | `close` closes an open descriptor once and disconnects; on `fd == -1` it does nothing, so a second `close` changes nothing |
| Connection.StepsKeepConsistent | src/RPCConnection.cpp:19-70 | `Connect` and `close` keep "an open descriptor is connected" |
| Connection.ConnectedIsOpen | src/RPCConnection.cpp:57-60 | under that invariant, being connected is having a descriptor |
| Connection.RpcConnection.constructor | src/RPCConnection.cpp:6-12 | ip, port and stamp are stored, the descriptor is -1, and the connection is not connected |
| Connection.RpcConnection.IsConnected | src/RPCConnection.cpp:57-60 | connected exactly when the flag is set and the descriptor is open |
| Connection.RpcConnection.Connect | src/RPCConnection.cpp:19-55 | the new fields and the result are those of `ConnectStep`, and the stamp is kept |
| Connection.RpcConnection.Close | src/RPCConnection.cpp:62-70 | the new fields are those of `CloseStep`, and the stamp is kept |
| Connection.RpcConnection.Send | src/RPCConnection.cpp:72-80 | -1 when the flag is clear, otherwise what `::send` returned |
| Connection.RpcConnection.Recv | src/RPCConnection.cpp:82-90 | -1 when the flag is clear, otherwise what `::recv` returned |
| Connection.RpcConnection.UpdateLastUsedTime | src/include/RPCConnection.h:20 | the stamp becomes `now` and nothing else changes |
| Provider.FirstIndex | src/RPCProvider.cpp:21-25 | the index of the first descriptor carrying a name |
| Provider.MethodTable | src/RPCProvider.cpp:20-25 | the table holds exactly the service's method names, each bound to the first descriptor with that name, as `insert` keeps |
| Provider.MethodTableSnoc | src/RPCProvider.cpp:21-25 | one more loop step: a name already taken leaves the table alone, a new name is bound to its index |
| Provider.RpcProvider.NotifyService | src/RPCProvider.cpp:12-32 | a new service name gains an entry with the full method table; an existing name is not overwritten |
| Provider.Publications | src/RPCProvider.cpp:50-59 | every registered service has its permanent `/service` node with no data, and every registered method its ephemeral `/service/method` node holding `ip:port`; there are no other nodes |
| Provider.SendRpcResponse | src/RPCProvider.cpp:148-175 | at most one send; none exactly when the response or the envelope fails to serialize; the bytes sent parse back to success, `SUCCESS`, "" and the response data |
| Provider.SendErrorResponse | src/RPCProvider.cpp:179-195 | at most one send; none exactly when serialization fails; the bytes sent parse back to failure with the given code and text |
| Provider.ParseFrame | src/RPCProvider.cpp:77-92 | reading a frame consumes at least its 4-byte length |
| Provider.RpcProvider.HandleFrame | src/RPCProvider.cpp:77-132 | one loop body agrees with `Frame`: a dispatch leaves the bytes after the arguments, and the loop goes on from there; a stop leaves the outcome's bytes |
| Provider.RpcProvider.OnMessage | src/RPCProvider.cpp:70-145 | the bytes left, the effects in order and the reason for returning are those of `Process` on the initial buffer |
| ProviderProperties.ShortBufferUntouched | src/RPCProvider.cpp:72 | with at most four readable bytes nothing is consumed and nothing is done |
| ProviderProperties.IncompleteFrameWaits | src/RPCProvider.cpp:140-143 | an incomplete frame below 64 MiB is left whole in the buffer and nothing is sent |
| ProviderProperties.OversizedFrameCloses | src/RPCProvider.cpp:134-139 | an incomplete frame of 64 MiB or more closes the connection and nothing is consumed |
| ProviderProperties.CompleteFrameIsHandled | src/RPCProvider.cpp:75-133 | a frame that passes the length test is consumed, whatever its declared length, and is not answered by a close |
| ProviderProperties.CloseOnlyWhenOversized | src/RPCProvider.cpp:134-139 | the connection is closed iff the call halts on an oversized incomplete frame; the close is the last effect and that frame is still buffered |
| ProviderProperties.FrameCloseShape | src/RPCProvider.cpp:75-133 | a handled frame never closes the connection itself |
| ProviderProperties.ParseRestIsSuffix | src/RPCProvider.cpp:77-92 | reading a frame consumes a prefix of the buffer |
| ProviderProperties.RestIsSuffix | src/RPCProvider.cpp:72-144 | what `OnMessage` leaves is a suffix of the buffer: bytes are only consumed from the front |
| ProviderProperties.FrameRestIsSuffix | src/RPCProvider.cpp:76-133 | a handled frame and the rest of the loop leave a proper suffix |
| ProviderProperties.EffectsShape | src/RPCProvider.cpp:72-144 | all effects but the last are invocations; an error halt ends with its one envelope (or only invocations when it could not be serialized); a wait only invokes |
| ProviderProperties.FrameEffectsShape | src/RPCProvider.cpp:76-133 | the same for a handled frame and the rest of the loop |
| ProviderProperties.HeaderParseFailure | src/RPCProvider.cpp:77-86 | a header that does not parse: exactly 8 + `headerSize` bytes are consumed, one `PARSE_ERROR` envelope is sent and the call returns |
| ProviderProperties.UnknownService | src/RPCProvider.cpp:92-102 | an unregistered service: the arguments are consumed, one `SERVICE_NOT_FOUND` envelope naming it is sent and the call returns |
| ProviderProperties.UnknownMethod | src/RPCProvider.cpp:104-112 | an unknown method of a registered service: the arguments are consumed, one `METHOD_NOT_FOUND` envelope naming it is sent and the call returns |
| ProviderProperties.RequestParseFailure | src/RPCProvider.cpp:114-123 | a registered method whose arguments do not parse: the arguments are consumed, one `PARSE_ERROR` envelope with "反序列化错误" is sent, the method is not invoked and the call returns |
| ProviderProperties.DispatchContinues | src/RPCProvider.cpp:114-133 | a registered method whose arguments parse is invoked with exactly those bytes, and the loop goes on with what follows |
| ProviderProperties.PrefixOfFrameWaits | src/RPCProvider.cpp:72-75 | every proper prefix of a frame below 64 MiB is left alone, so a frame runs once however TCP splits it |
| ProviderProperties.WrappedLengthSkipsGuard | src/RPCProvider.cpp:74-75 | a declared length of 2^32 - 4 or more wraps the sum, passes the test with five bytes, and never reaches the 64 MiB guard |
| ProviderProperties.WrappedLengthExample | src/RPCProvider.cpp:74-92 | the five bytes `FF FF FF FF 00` enter the frame and run out of data after one byte |
| Channel.RequestFrame | src/RPCChannel.cpp:55-65 | the frame is four bytes longer than the header and the request together |
| Channel.LengthPrefixed | src/RPCChannel.cpp:128-133 | the write is the frame behind four more bytes |
| Channel.SplitAddress | src/RPCChannel.cpp:99-108 | no split exactly when there is no colon; otherwise the data is ip, ":", port with no colon in the ip (a split at the first colon) |
| Channel.SplitAddressJoin | src/RPCChannel.cpp:107-108 | splitting `ip + ":" + port` for a colon-free ip gives back both parts |
| Channel.Reply | src/RPCChannel.cpp:144-178 | the receive phase performs `ReplySteps` and leaves its failure, if any, on the controller |
| Channel.Transfer | src/RPCChannel.cpp:110-141 | the phase from `inet_pton` to `recv` performs `TransferSteps` and reports its failure |
| Channel.SendToServer | src/RPCChannel.cpp:73-179 | the call performs `SendToServerTrace` and leaves the first failure of that trace on the controller, or the controller unchanged |
| Channel.CallMethod | src/RPCChannel.cpp:12-69 | the call performs `CallTrace` and reports its first failure |
| ChannelProperties.TransferFailsLast | src/RPCChannel.cpp:110-178 | from `inet_pton` on, a failure is the last step |
| ChannelProperties.FailureEndsCall | src/RPCChannel.cpp:29-178 | every path sets a failure at most once and does nothing after it but close the socket |
| ChannelProperties.LookupFound | src/RPCChannel.cpp:90-108 | registry data with a colon lets the call go on with its two halves |
| ChannelProperties.TransferPath | src/RPCChannel.cpp:112-141 | an address that converts, a port that parses and a connect that succeeds lead to the send |
| ChannelProperties.SocketFailure | src/RPCChannel.cpp:75-81 | a failed `socket()` sets "send err", connects nothing and closes nothing |
| ChannelProperties.RegistryMiss | src/RPCChannel.cpp:90-97 | no data at `/service/method`: the whole trace, a failure naming the path, and no connect |
| ChannelProperties.MalformedAddress | src/RPCChannel.cpp:99-105 | data without a colon: a failure naming the path, and no connect |
| ChannelProperties.AddressTrace | src/RPCChannel.cpp:88-108 | with an address in the registry the call reads it and goes on with its ip and port text |
| ChannelProperties.AddressFailures | src/RPCChannel.cpp:112-118 | a failed `inet_pton` sets "inet_pton() err"; a port `stoi` rejects throws without a failure text; neither connects; the socket is closed |
| ChannelProperties.ConnectFailure | src/RPCChannel.cpp:118-125 | a failed `connect` to the registered ip and port: the whole trace, the failure "connect() err", no write, and the socket closed |
| ChannelProperties.SendPath | src/RPCChannel.cpp:112-141 | a call that reaches `send` connects to the registered ip and port (through `htons`) and writes the frame behind its length |
| ChannelProperties.OneWrite | src/RPCChannel.cpp:136-141 | such a call writes to the socket once |
| ChannelProperties.FrameOnWire | src/RPCChannel.cpp:128-133 | the write is the two lengths, the header and the request |
| ChannelProperties.SentFrame | src/RPCChannel.cpp:55-133 | the one write of a call is the frame length, the header length, the header and the request, eight bytes more than header and request |
| ChannelProperties.HeaderNamesCall | src/RPCChannel.cpp:37-47 | the header sent parses back to the service name, the method name and the request length |
| ChannelProperties.SendFailure | src/RPCChannel.cpp:136-141 | a failed `send` sets "send() err" and nothing is received |
| ChannelProperties.ReplyFailure | src/RPCChannel.cpp:145-177 | the failure after `recv`: -1, 0, an envelope that does not parse, an envelope reporting failure (its text); a successful envelope sets none and its data is parsed |
| ChannelProperties.ReceivePath | src/RPCChannel.cpp:143-178 | after a successful send, the failure of the call is the failure after `recv` |
| ChannelProperties.ReceiveOutcomes | src/RPCChannel.cpp:145-177 | the text left on the controller for each outcome of `recv`; a successful envelope never fails the call, even if its data does not parse |
| ChannelProperties.SerializeFailure | src/RPCChannel.cpp:28-52 | a request or header that does not serialize sets "SerializeToString() err" before any socket exists |
| EndToEnd.WireParts | src/RPCProvider.cpp:74-92 | the provider reads the client's write as its header, then exactly the request bytes, with nothing left |
| EndToEnd.ServerDispatchesClientWrite | src/RPCProvider.cpp:72-133 | the client's write for a registered method whose arguments parse is invoked once with the request and drains the buffer |
| EndToEnd.CallReachesMethod | src/RPCChannel.cpp:12-141 | a call that reaches `send` makes one write, and the provider dispatches that write to the named method exactly once |
| EndToEnd.PartialWriteWaits | src/RPCProvider.cpp:140-143 | every proper prefix of the client's write waits in the buffer with nothing done |
| EndToEnd.UnknownServiceFailsCall | src/RPCProvider.cpp:94-102 | the provider's unknown-service envelope, once received, fails the call with the provider's text |
| EndToEnd.ResponseCompletesCall | src/RPCProvider.cpp:148-175 | the success envelope, once received, completes the call with no failure and parses its data into the response |
| EndToEnd.MethodNodePublished | src/RPCProvider.cpp:54-58 | each registered method has an ephemeral node, holding the address, at exactly the path the channel looks up |
| EndToEnd.AddressReadBack | src/RPCChannel.cpp:99-118 | the address `Run` writes splits back into the ip and port digits, and the port through `stoi` and `htons` is the port |
| EndToEnd.PublishedAddressConnects | src/RPCProvider.cpp:50-59 | a registry holding what `Run` published makes the channel connect to the provider's ip and port |
| Pool.KeyEquals | src/include/RPCConnectionsPool.h:39-42 | two keys are equal exactly when their ips and their ports are |
| PoolProperties.EqualKeysHashEqually | src/include/RPCConnectionsPool.h:47-50 | equal keys hash equally |
| Pool.ConnectionsPool.constructor | src/RPCConnectionsPool.cpp:3-9 | no hosts, a 300 s idle limit, 10 connections per host, cleaner not stopped |
| PoolProperties.InitialPool | src/RPCConnectionsPool.cpp:3-6 | the initial pool satisfies the pool invariant, with those limits |
| Pool.ConnectionsPool.SetMaxIdleTime | src/include/RPCConnectionsPool.h:18 | only the idle limit changes |
| Pool.ConnectionsPool.SetMaxConnectionsPerHost | src/include/RPCConnectionsPool.h:19 | only the per-host cap changes |
| Pool.ConnectionsPool.GetConnection | src/RPCConnectionsPool.cpp:40-74 | the new state and the connection handed out are those of `GetStep` |
| Pool.ConnectionsPool.ReturnConnection | src/RPCConnectionsPool.cpp:76-106 | the new state is that of `ReturnStep` |
| Pool.ConnectionsPool.CleanKey | src/RPCConnectionsPool.cpp:114-132 | one host's queue and count become those of the timeout pass, and other hosts are untouched |
| Pool.ConnectionsPool.CleanTimeOutConnections | src/RPCConnectionsPool.cpp:108-134 | the new state is `CleanTimeOut` of the old one |
| Pool.ConnectionsPool.CleanIdleConnections | src/RPCConnectionsPool.cpp:28-38 | the new state is `CleanIdle` of the old one |
| Pool.CleanTimeOutEntries | src/RPCConnectionsPool.cpp:112-133 | the pass treats each host on its own |
| PoolProperties.GetReusesOldest | src/RPCConnectionsPool.cpp:46-55 | a non-empty queue hands out its front, the oldest returned, and counts stay |
| PoolProperties.GetDiscardsDead | src/RPCConnectionsPool.cpp:49-73 | a dead front is dropped without a decrement, and the call goes on as for an empty queue |
| PoolProperties.GetOpens | src/RPCConnectionsPool.cpp:58-73 | with no idle connection, one is opened iff the host is below its cap and `Connect` succeeds; the count rises by exactly one then and stays otherwise |
| PoolProperties.GetOnlyTouchesKey | src/RPCConnectionsPool.cpp:40-74 | other hosts and the limits are untouched |
| PoolProperties.GetKeepsInvariant | src/RPCConnectionsPool.cpp:40-74 | counts cover idle and lent connections, stay within the cap, and queues stay well formed and sorted by stamp |
| PoolProperties.ReturnNothing | src/RPCConnectionsPool.cpp:78-81 | returning `nullptr` changes nothing |
| PoolProperties.ReturnLive | src/RPCConnectionsPool.cpp:85-91 | a live connection goes to the back of its queue stamped `now`, and counts stay |
| PoolProperties.ReturnDead | src/RPCConnectionsPool.cpp:92-105 | a dead one decrements an existing count, erasing both entries at zero; with no count entry nothing changes |
| PoolProperties.ReturnErasesOnlyAtZero | src/RPCConnectionsPool.cpp:95-104 | a count entry disappears only when a dead return decrements it to zero |
| PoolProperties.ReturnKeepsInvariant | src/RPCConnectionsPool.cpp:76-106 | returning a lent connection keeps the pool invariant |
| PoolProperties.CleanQueueFacts | src/RPCConnectionsPool.cpp:114-131 | the pass pops a prefix of expired connections, one count per pop, stopping at a live front or when the count reaches zero |
| PoolProperties.CleanTimeOutHost | src/RPCConnectionsPool.cpp:112-133 | for one host the pass pops `p` expired connections, lowers the count by `p`, and erases the host exactly when that reaches zero |
| PoolProperties.CleanTimeOutOtherHosts | src/RPCConnectionsPool.cpp:112-133 | hosts without a queue keep their counts |
| PoolProperties.CleanTimeOutErasesOnlyAtZero | src/RPCConnectionsPool.cpp:120-126 | a count entry disappears only when the pops bring it to exactly zero |
| PoolProperties.CleanTimeOutEvictsOnlyExpired | src/RPCConnectionsPool.cpp:114-131 | only expired connections are evicted, and with sorted stamps none that remain has expired |
| PoolProperties.CleanTimeOutKeepsInvariant | src/RPCConnectionsPool.cpp:108-134 | the timeout pass keeps the pool invariant |
| PoolProperties.CleanIdleEmpties | src/RPCConnectionsPool.cpp:28-38 | every queue is emptied and no count moves, so counts overstate open connections by the number dropped |
| PoolProperties.CleanIdleKeepsInvariant | src/RPCConnectionsPool.cpp:28-38 | emptying the queues keeps the pool invariant |
| PoolProperties.ReturnThenGet | src/RPCConnectionsPool.cpp:40-106 | a connection handed out, returned alive and asked for again is that connection, stamped when returned, with no new count |
| Config.Trim | src/RPCConfig.cpp:7-23 | the string left by the two erases is `Trimmed` of the input |
| ConfigProperties.DropSpacesDropsSpaces | src/RPCConfig.cpp:10-14 | the first erase removes only white space |
| ConfigProperties.DropTrailingIsPrefix | src/RPCConfig.cpp:17-21 | the second erase leaves a prefix that does not end in white space and removes only white space |
| ConfigProperties.TrimmedEnds | src/RPCConfig.cpp:7-23 | `trim`'s result neither starts nor ends with white space |
| ConfigProperties.TrimmedIsSlice | src/RPCConfig.cpp:10-21 | the result is the slice between the leading and the trailing white space |
| ConfigProperties.TrimIdempotent | src/RPCConfig.cpp:7-23 | trimming twice is trimming once |
| ConfigProperties.TrimEmpty | src/RPCConfig.cpp:7-23 | the result is empty exactly for an all-white-space input |
| ConfigProperties.BlankOrCommentIgnored | src/RPCConfig.cpp:39-42 | empty lines and lines starting with `#` add nothing |
| ConfigProperties.CarriageReturnIgnored | src/RPCConfig.cpp:46-49 | a line ending in `\r` adds nothing, whatever it holds |
| ConfigProperties.NoEqualsIgnored | src/RPCConfig.cpp:51-55 | a line without `=` adds nothing |
| ConfigProperties.SplitAtFirstEquals | src/RPCConfig.cpp:57-63 | otherwise the key and the value are the trimmed text before and after the first `=`, so a value may hold `=` |
| ConfigProperties.WrittenLineRoundTrip | src/RPCConfig.cpp:51-66 | `key=value` for a clean key and value reads back as that pair |
| Config.RpcConfig.LoadConfigFile | src/RPCConfig.cpp:26-69 | the map after the reading loop is `LoadLines` of the map before and the lines |
| ConfigProperties.LoadLinesFirstWins | src/RPCConfig.cpp:66 | a key present before keeps its value; otherwise a key is present iff some line defines it, with the value of the first such line |
| ConfigProperties.FirstDefinitionIsFirst | src/RPCConfig.cpp:36-68 | the first line that defines a key gives its value |
| ConfigProperties.FirstDefinitionNone | src/RPCConfig.cpp:36-68 | a key no line defines is not found |
| ConfigProperties.FirstDefinitionAppend | src/RPCConfig.cpp:36-68 | lines after a definition do not change it |
| ConfigProperties.LoadReturnsFirstDefinition | src/RPCConfig.cpp:72-80 | `Load` after reading a file gives the first definition of the key, or "" when none defines it |
| ConfigProperties.LaterLinesIgnored | src/RPCConfig.cpp:66 | once a line has defined a key, no later line changes its value |

## Specification functions

These functions are the model's reference definitions. They carry no contract of their own;
the methods in "## Model" are proved equal to them, and the lemmas named here state their
properties.

| function | source | defines | properties in |
|---|---|---|---|
| Provider.Process | src/RPCProvider.cpp:70-145 | one call of `OnMessage`: the `readableBytes() > 4` test, the wrapping length test, the 64 MiB guard and the wait | `RpcProvider.OnMessage`, `ShortBufferUntouched`, `IncompleteFrameWaits`, `OversizedFrameCloses`, `RestIsSuffix`, `EffectsShape`, `CloseOnlyWhenOversized` |
| Provider.Frame | src/RPCProvider.cpp:76-133 | the loop body for a frame that passed the length test: the three lookups, the request parse and the dispatch | `RpcProvider.HandleFrame`, `HeaderParseFailure`, `UnknownService`, `UnknownMethod`, `RequestParseFailure`, `DispatchContinues`, `FrameRestIsSuffix`, `FrameEffectsShape` |
| Channel.CallHeader | src/RPCChannel.cpp:37-43 | the header: service name, method name and the `uint32_t` request length | `HeaderNamesCall` |
| Channel.CallTrace | src/RPCChannel.cpp:12-69 | the steps of `CallMethod`: the two serializations and the call of `SendToServer` | `Channel.CallMethod`, `SerializeFailure`, `FailureEndsCall` |
| Channel.SendToServerTrace | src/RPCChannel.cpp:73-85 | the steps of `SendToServer`: the socket, the lookup, and the close by the deleter | `Channel.SendToServer`, `SocketFailure`, `FailureEndsCall` |
| Channel.LookupSteps | src/RPCChannel.cpp:88-108 | the registry read, the empty-data and missing-colon failures, and the split | `RegistryMiss`, `MalformedAddress`, `AddressTrace`, `LookupFound` |
| Channel.TransferSteps | src/RPCChannel.cpp:110-141 | `inet_pton`, `stoi` and `htons`, `connect` and the one `send` | `Channel.Transfer`, `AddressFailures`, `ConnectFailure`, `TransferPath`, `SendPath`, `OneWrite`, `SendFailure`, `TransferFailsLast` |
| Channel.ReplySteps | src/RPCChannel.cpp:143-178 | the outcomes of the one `recv` and of parsing the envelope | `Channel.Reply`, `ReplyFailure`, `ReceivePath`, `ReceiveOutcomes` |
| Pool.GetStep | src/RPCConnectionsPool.cpp:40-74 | `GetConnection`: pop the front, hand it out if live, otherwise open one below the cap | `ConnectionsPool.GetConnection`, `GetReusesOldest`, `GetDiscardsDead`, `GetOpens`, `GetOnlyTouchesKey`, `GetKeepsInvariant` |
| Pool.ReturnStep | src/RPCConnectionsPool.cpp:76-106 | `ReturnConnection`: `nullptr`, a live connection restamped to the back, a dead one decremented | `ConnectionsPool.ReturnConnection`, `ReturnNothing`, `ReturnLive`, `ReturnDead`, `ReturnErasesOnlyAtZero`, `ReturnKeepsInvariant`, `ReturnThenGet` |
| Pool.CleanQueue | src/RPCConnectionsPool.cpp:114-131 | the inner loop over one host's queue | `ConnectionsPool.CleanKey`, `CleanQueueFacts` |
| Pool.CleanTimeOut | src/RPCConnectionsPool.cpp:108-134 | `CleanTimeOutConnections` over every host | `ConnectionsPool.CleanTimeOutConnections`, `CleanTimeOutHost`, `CleanTimeOutOtherHosts`, `CleanTimeOutErasesOnlyAtZero`, `CleanTimeOutEvictsOnlyExpired`, `CleanTimeOutKeepsInvariant` |
| Pool.CleanIdle | src/RPCConnectionsPool.cpp:28-38 | `CleanIdleConnections`: every queue emptied | `ConnectionsPool.CleanIdleConnections`, `CleanIdleEmpties`, `CleanIdleKeepsInvariant` |
| Config.DropTrailing | src/RPCConfig.cpp:17-21 | the trailing erase of `trim` | `DropTrailingIsPrefix`, `TrimmedEnds` |
| Config.Trimmed | src/RPCConfig.cpp:7-23 | `trim`: the leading erase, then the trailing one | `RpcConfig.Trim`, `TrimmedEnds`, `TrimmedIsSlice`, `TrimIdempotent`, `TrimEmpty` |
| Config.ParseLine | src/RPCConfig.cpp:39-63 | what one line contributes: nothing, or the trimmed key and value | `BlankOrCommentIgnored`, `CarriageReturnIgnored`, `NoEqualsIgnored`, `SplitAtFirstEquals`, `WrittenLineRoundTrip` |
| Config.LoadLines | src/RPCConfig.cpp:36-68 | the `getline` loop with `insert` | `RpcConfig.LoadConfigFile`, `LoadLinesFirstWins`, `LaterLinesIgnored`, `LoadReturnsFirstDefinition` |
| Connection.ConnectStep | src/RPCConnection.cpp:19-55 | `Connect`: the early return, `socket`, `inet_pton`, `connect`, and the close on failure | `RpcConnection.Connect`, `ConnectWhenConnected`, `ConnectOutcome`, `ConnectResultIsConnected`, `StepsKeepConsistent` |
| Connection.CloseStep | src/RPCConnection.cpp:62-70 | `close`: one `::close` of an open descriptor, then -1 | `RpcConnection.Close`, `CloseIdempotent`, `StepsKeepConsistent` |
| Bytes.Add32 | src/RPCProvider.cpp:75 | the `uint32_t` sum `4 + len` | `Add32Wraps`, `WrappedLengthSkipsGuard` |
| Bytes.DecodeBE32 | src/RPCProvider.cpp:74-78 | `peekInt32` and `readInt32`: four bytes in network order | `DecodeEncode`, `EncodeDecode`, `DecodePrefix` |
| Text.DropSpaces | src/RPCConfig.cpp:10-14 | the leading white-space skip of `trim` and of `stoi` | `DropSpacesIsSuffix`, `DropSpacesDropsSpaces` |
| Text.DigitPrefix | src/RPCChannel.cpp:118 | the digits `stoi` reads | `DigitPrefixIsLongest`, `Stoi`, `StoiDecimal` |

## Left out

- Sockets, `inet_pton`, `connect`, `send`, `recv` and `::close` are not modelled as system calls. Their results are parameters (`Network` on the client, explicit arguments in `RpcConnection`).
- Protobuf serialization, descriptors and reflective `CallMethod` are not modelled. The serializers are the function values of `Codec`. A method is a service name, a method name and its index. Invoking it is an `Invoke` effect.
- The network server (`TcpServer`, its `Buffer` and `Connection`) is not part of this model. The buffer is the class `Buffer` over the readable bytes, and `send(wrapperStr)` is an effect carrying exactly those bytes.
- Underrun: the code asks the buffer for `headerSize` or `argvSize` bytes without checking that they are there. How the external buffer behaves then is unknown. The model stops with `Underrun` and the bytes it holds.
- The lifetime of `done`, `pRequest` and `pResponse` around an asynchronous service method is not modelled. The response is the serialized message handed to `SendRpcResponse`.
- `ZooKeeperUtil` and `ZkConnectionManager` are not part of this model. The registry is a map from path to data, and `GetData` of a missing node is "". In `Run`, `zk.Start`, `TcpServer` and `tcpServer.start` are left out. Only the published nodes are modelled (`Publications`).
- The 256-byte buffer of `GetData` is not modelled. Registry data is taken whole.
- The single `recv` into 65535 bytes is not modelled as a bound. The received bytes are given.
- `RPCApplication` and the file I/O of `LoadConfigFile` are not modelled. Opening the file and `exit` on failure are left out; the file is its sequence of lines.
- The pool's cleaner thread, condition variable, mutex, singleton and destructor are left out. `RunCleaner` runs one cycle, since it uses `if` rather than `while`, so it is left out too. Only the cleaners' bodies are modelled.
- `std::chrono::steady_clock` is not modelled: time is integer seconds passed as `now`.
- Pool.ConnectionsPool.CleanTimeOutConnections: the source erases the map entry it is iterating over, which is undefined behaviour. The model moves on to the next key.
- Pool.ConnectionsPool.CleanTimeOutConnections: `operator[]` on a host without a count entry creates one, which can make counts negative. The model keeps that, and `PoolInvariant` is what rules it out.
- Pool.KeyHash: `std::hash<std::string>` is a parameter and `std::hash<uint16_t>` is taken as the identity. The model does not argue that different keys seldom collide.
- Connection.RpcConnection.Send: the model does not record whether `::send` was called. It only records that -1 comes back without using the result.
- Connection.RpcConnection.Recv: the same for `::recv`. The buffer contents are not modelled.
- Destructors are not modelled: `~RPCConnection` closes, as `Close` does, and the pool's destructor drains, as `CleanIdleConnections` does.
- Config.RpcConfig.Load has no contract of its own. It is a map lookup, and what it returns after loading a file is stated by `LoadReturnsFirstDefinition`.
- Controller.RpcController.Failed and ErrorText are plain reads of the two fields and have no contract of their own.
- `std::stoi` throwing out of `SendToServer` is the step `PortThrows`. What the caller then does is not modelled.
- Logging is left out.
- Pool.ConnectionsPool.GetConnection: an idle connection is a value that records whether it was live when it was returned. In the source the queue holds a `shared_ptr<RPCConnection>`, and a caller that kept its own copy can `close()` it while it waits, which is why `GetConnection` tests `IsConnected` again. The model does not capture that aliasing. Under `PoolInvariant` every queued connection is live, so the path of `GetDiscardsDead` is not reached from a state the pool's own operations produce.
- Strings are sequences of Unicode characters, and `isspace` and `isdigit` are the C-locale ASCII tests. The source's `std::string` holds bytes, and `isspace` is called on a `char` that may be negative. The two agree on ASCII text; bytes above 127 are not modelled.
