# WebSocket connections middleware, in Dafny

A model of the ASP.NET Core middleware `WebSocketConnectionsMiddleware` from
the demo `Demo.AspNetCore.WebSockets`, with proofs about the model. The
middleware handles one HTTP request:

- It answers a request that is not a WebSocket upgrade with status 400.
- For an upgrade, it negotiates the subprotocol (the server side of
  `Sec-WebSocket-Protocol`, section 4.2.2 of RFC 6455). It accepts the socket
  with the negotiated name, or with null when nothing matched.
- It builds a connection that falls back to the default subprotocol, attaches
  an echo handler and registers the connection with the connections service.
- It reads into one 4096-byte buffer and calls `OnReceive` once per message,
  working through fragmented messages (section 5.4 of RFC 6455).
- On a Close result it echoes the peer's status and description (section
  5.5.1 of RFC 6455) and then deregisters the connection.

The model follows the code as written:

- On the fragmented path the bytes are gathered into an enumerable that is
  never assigned, so `OnReceive` receives null. The code does not deliver the
  concatenated fragments.
- That enumerable is a deferred view of the one reused buffer and is never
  enumerated. The model keeps only the number of bytes it would yield: the
  whole 4096-byte buffer, not its first `Count` bytes, plus each later
  result's `Count`.
- There is no `try`/`finally`, so the connection is deregistered only when the
  loop ends at a Close result. It is not removed when a read or the close
  status fails.

Files:

- `wrappers.dfy`: `Option`.
- `subprotocols.dfy`: subprotocol names, and the first-match search
  (`FirstMatch`) that specifies negotiation, with its lemmas.
- `connections.dfy`: the `Connection` value and the `ConnectionsService`
  class, which holds a map from connection id to connection and is updated in
  place.
- `sessions.dfy`: the socket as the finite sequence of results its reads
  return, and the event log of one invocation. It also holds the reference
  functions `Loop` and `Run`, the registry effect `Apply` of a log, and the
  lemmas about whole runs.
- `middleware.dfy`: the middleware class. `NegotiateSubProtocol` is a loop
  with a `break`. `Invoke` and its receive loop work over an `array<byte>` of
  4096 bytes and the connections service. Each method is proved equal to the
  reference functions, and `Invoke` is proved to leave the registry as `Apply`
  of its log says.

How things end. A read past the last result models a transport failure
(`ReadFailed`). A Close result without a status models the exception thrown by
`CloseStatus.Value` (`CloseStatusMissing`). Neither path removes the
connection.

## Model

| member | source | states |
|---|---|---|
| SubProtocols.NameOf | Demo.AspNetCore.WebSockets/Middlewares/WebSocketConnectionsMiddleware.cs:35 | The name handed to the handshake is present exactly when a subprotocol was negotiated, and it is that subprotocol's name. |
| SubProtocols.FirstMatch | Demo.AspNetCore.WebSockets/Middlewares/WebSocketConnectionsMiddleware.cs:79-93 | The result is null iff no supported name is requested. A non-null result is a supported entry whose name is requested, and no earlier entry's name is requested. An empty request list yields null. |
| SubProtocols.FirstMatchIsUnique | Demo.AspNetCore.WebSockets/Middlewares/WebSocketConnectionsMiddleware.cs:83-89 | Whichever entry is the first requested one is the result, so the first-match property determines the result. |
| SubProtocols.NegotiationIgnoresOrderAndRepetition | Demo.AspNetCore.WebSockets/Middlewares/WebSocketConnectionsMiddleware.cs:85 | Two request lists with the same names, in any order and with any repetition, negotiate the same subprotocol. |
| SubProtocols.ServerPriorityScenario | Demo.AspNetCore.WebSockets/Middlewares/WebSocketConnectionsMiddleware.cs:83-88 | The server's order wins. With chat.v2 and chat.v1 supported and chat.v1 and chat.v3 requested, the result is chat.v1. |
| Connections.ConnectionsService.constructor | Demo.AspNetCore.WebSockets/Middlewares/WebSocketConnectionsMiddleware.cs:17 | A new connections service holds no connections. |
| Connections.ConnectionsService.AddConnection | Demo.AspNetCore.WebSockets/Middlewares/WebSocketConnectionsMiddleware.cs:40 | The registry afterwards maps the connection's id to the connection, and every other entry is as before. |
| Connections.ConnectionsService.RemoveConnection | Demo.AspNetCore.WebSockets/Middlewares/WebSocketConnectionsMiddleware.cs:71 | The registry afterwards lacks the id, and every other entry is as before. Removing an unknown id changes nothing. |
| Middleware.ReceiveInto | Demo.AspNetCore.WebSockets/Middlewares/WebSocketConnectionsMiddleware.cs:43 | A read writes the result's Count bytes at the start of the buffer and leaves the rest of the buffer unchanged. |
| Middleware.CopyPrefix | Demo.AspNetCore.WebSockets/Middlewares/WebSocketConnectionsMiddleware.cs:50-51 | The copy is a fresh array that holds exactly the first Count bytes of the buffer. |
| Middleware.WebSocketConnectionsMiddleware.constructor | Demo.AspNetCore.WebSockets/Middlewares/WebSocketConnectionsMiddleware.cs:21-25 | The middleware keeps the options and the connections service it was given. |
| Middleware.WebSocketConnectionsMiddleware.NegotiateSubProtocol | Demo.AspNetCore.WebSockets/Middlewares/WebSocketConnectionsMiddleware.cs:79-93 | The loop with `break` returns exactly the first match. A non-null result is one of the supported subprotocols and its name was requested. |
| Middleware.WebSocketConnectionsMiddleware.Invoke | Demo.AspNetCore.WebSockets/Middlewares/WebSocketConnectionsMiddleware.cs:29-77 | The log and the outcome are those of the reference run `Run`. The registry afterwards is the old registry with the log applied. A non-upgrade request gives 400, an empty log and an unchanged registry. |
| Middleware.WebSocketConnectionsMiddleware.ReceiveUntilClose | Demo.AspNetCore.WebSockets/Middlewares/WebSocketConnectionsMiddleware.cs:42-71 | The receive loop, with its one reused buffer, produces the reference loop's log and outcome. The registry loses the connection's id only when the loop completes at a Close, and is otherwise unchanged. |
| Middleware.WebSocketConnectionsMiddleware.ReceiveMessage | Demo.AspNetCore.WebSockets/Middlewares/WebSocketConnectionsMiddleware.cs:46-65 | One pass of the outer loop, from a data result already read. When that result ends the message it reads nothing more and delivers a copy of the result's data. Otherwise it reads the remaining fragments and delivers null. On success it continues as the reference loop does, and the buffer starts with the data of the last result read; if a read fails, it stops where the reference loop stops. |
| Middleware.WebSocketConnectionsMiddleware.ReceiveFragments | Demo.AspNetCore.WebSockets/Middlewares/WebSocketConnectionsMiddleware.cs:55-62 | The inner loop reads up to and including the first result that ends the message, one read per result. The accumulated enumerable grows by each result's Count. If none of the remaining results ends the message, the next read fails. |
| Sessions.Loop | Demo.AspNetCore.WebSockets/Middlewares/WebSocketConnectionsMiddleware.cs:43-71 | The reference receive loop always ends in Completed, ReadFailed or CloseStatusMissing. It is never Rejected. |
| Sessions.ConnectionFor | Demo.AspNetCore.WebSockets/Middlewares/WebSocketConnectionsMiddleware.cs:37 | The connection has the new id. It carries the default subprotocol when no supported name was requested. Any other subprotocol it carries is a supported one whose name was requested, and when some supported name was requested it carries the first such entry. |
| Sessions.Registration | Demo.AspNetCore.WebSockets/Middlewares/WebSocketConnectionsMiddleware.cs:33-40 | The steps before the first read are, in order: accept with a name exactly when some supported name was requested, and then with the name of the first such entry; attach the echo handler, and add the connection. None of them reads, delivers, closes or removes. |
| Sessions.Run | Demo.AspNetCore.WebSockets/Middlewares/WebSocketConnectionsMiddleware.cs:29-77 | The reference invocation is rejected iff the request is not an upgrade. A rejection is status 400 with no events, so nothing is added, read or removed. |
| Sessions.Reads | Demo.AspNetCore.WebSockets/Middlewares/WebSocketConnectionsMiddleware.cs:60 | n reads in a row: n events, each a read. |
| Sessions.RegistrationPrecedesReads | Demo.AspNetCore.WebSockets/Middlewares/WebSocketConnectionsMiddleware.cs:33-43 | An upgrade first accepts with the negotiated name or null, then attaches the echo handler, then adds the connection. The connection carries the negotiated subprotocol or else the default. The add and the accept each happen exactly once, and every read comes after the add. |
| Sessions.LoopEndsWithCloseEcho | Demo.AspNetCore.WebSockets/Middlewares/WebSocketConnectionsMiddleware.cs:44-71 | From any point, the loop only reads and delivers until it stops. When it completes, its last two steps are CloseAsync with the status and description of a Close result, and then RemoveConnection of its own id. That Close result is the one at the position of the last read. |
| Sessions.LoopIgnoresLaterResults | Demo.AspNetCore.WebSockets/Middlewares/WebSocketConnectionsMiddleware.cs:44 | Once the loop ends without a read failure, appending further results to the socket changes nothing. The loop stops reading at the first Close it checks. |
| Sessions.FragmentsUpToEnd | Demo.AspNetCore.WebSockets/Middlewares/WebSocketConnectionsMiddleware.cs:58-65 | The inner loop reads each fragment up to the first one that ends the message, then makes one OnReceive call, with null. |
| Sessions.FragmentsUntilReadFails | Demo.AspNetCore.WebSockets/Middlewares/WebSocketConnectionsMiddleware.cs:58-60 | When no remaining result ends the message, the inner loop reads them all and the next read fails. |
| Sessions.OneDeliveryPerMessage | Demo.AspNetCore.WebSockets/Middlewares/WebSocketConnectionsMiddleware.cs:46-65 | Each message is handled in one outer pass. The pass reads all of the message's results up to the first that ends it, then calls OnReceive once. The call gets exactly the result's data when the message is one result, and null when it is fragmented. |
| Sessions.LoopRegistryEffect | Demo.AspNetCore.WebSockets/Middlewares/WebSocketConnectionsMiddleware.cs:44-71 | The loop leaves the registry unchanged unless it completes. When it completes, it removes exactly its own connection's id. |
| Sessions.RemovalIsLastAfterClose | Demo.AspNetCore.WebSockets/Middlewares/WebSocketConnectionsMiddleware.cs:65-71 | CloseAsync and RemoveConnection occur only in a completed run, as its last two steps. So each happens at most once, the removal comes right after the close, and no OnReceive follows either. |
| Sessions.CloseEchoesLastResult | Demo.AspNetCore.WebSockets/Middlewares/WebSocketConnectionsMiddleware.cs:44-71 | A completed run has at least six steps and ends with RemoveConnection of the connection's own id. The CloseAsync before it carries the status and description of the last result read, which is a Close result with a status. |
| Sessions.ApplyEventEffect | Demo.AspNetCore.WebSockets/Middlewares/WebSocketConnectionsMiddleware.cs:40-71 | AddConnection (line 40) maps the connection's id to it and RemoveConnection (line 71) drops the id. Every other step, and every other id, is left alone. |
| Sessions.ApplyOnlyAddsAndRemoves | Demo.AspNetCore.WebSockets/Middlewares/WebSocketConnectionsMiddleware.cs:40-71 | Of the calls at lines 40 and 71: after any log, each entry of the registry is either an old entry or a connection the log added, and an old id is missing only if the log removed it. |
| Sessions.ApplyRegistration | Demo.AspNetCore.WebSockets/Middlewares/WebSocketConnectionsMiddleware.cs:33-40 | The steps before the first read change the registry only by adding the new connection under its id. |
| Sessions.RegistryBeforeLoop | Demo.AspNetCore.WebSockets/Middlewares/WebSocketConnectionsMiddleware.cs:33-43 | After an upgrade, the receive loop starts from the registry that holds the new connection. |
| Sessions.CompletedRunLength | Demo.AspNetCore.WebSockets/Middlewares/WebSocketConnectionsMiddleware.cs:33-71 | A completed run has at least six steps: accept, attach, add, at least one read, close and remove. |
| Sessions.RegistryAfterRun | Demo.AspNetCore.WebSockets/Middlewares/WebSocketConnectionsMiddleware.cs:31-76 | After an invocation, the registry is unchanged if the request was rejected, and lacks the id if the run completed. If a read or the close status failed, the registry still holds the new connection, because there is no cleanup. |
| Sessions.FragmentedMessageDeliversNull | Demo.AspNetCore.WebSockets/Middlewares/WebSocketConnectionsMiddleware.cs:55-65 | Take two fragments "ab" and "cd" followed by a Close. OnReceive is called once with null, not with "abcd", and then the close is echoed and the connection removed. |

## Left out

- The ASP.NET host: `HttpContext`, `RequestDelegate` and the `AcceptWebSocketAsync` handshake. The request is reduced to its upgrade flag and requested names, and accepting is a logged step that records the chosen name.
- async/await, `Task` and `CancellationToken`. Each connection's loop is sequential, so each read takes the next element of the input sequence.
- The bodies of `WebSocketConnection` (`SendAsync`, `OnReceive`, the `Receive` event) and of the connections service implementation. These are not part of this model. OnReceive is a logged event. The echo handler's send is recorded only as being attached, before the connection is added. The service is a map updated in place, with no thread-safety claims.
- The connections service's lookup and enumeration members: `Invoke` does not call them.
- Exceptions other than a read past the last result and a missing close status, such as a failing `CloseAsync` or a throwing receive handler.
- Byte-level WebSocket framing, masking and text encoding. The transport does these, and the model sees only receive results.
- The connection's GUID. It is a parameter of `Invoke`, because it is randomly generated.
- The constructor's null checks. The references are non-null by type, so the argument exceptions cannot occur.
- Sessions.Loop: a Close result met inside the fragment loop only ends the message if it has EndOfMessage set, and reading then goes on. The model follows the code here and does not model how a real transport would reject a read after a close.
- Middleware.WebSocketConnectionsMiddleware.ReceiveMessage: the enumerable of the fragmented path is a deferred view of the reused buffer that is never enumerated and is dropped after the inner loop. Its contents are not modelled; only the number of bytes it would yield is kept, and that number is stated inside the method, not in its contract.
