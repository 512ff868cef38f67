/** The middleware itself: subprotocol negotiation and the per-connection
    receive loop, over a mutable 4096-byte buffer and the connections service. */
module Middleware {
  import opened Wrappers
  import opened SubProtocols
  import opened Connections
  import opened Sessions

  /** A ReceiveAsync into a segment over the whole buffer: the transport writes
      the result's bytes at the start and leaves the rest of the buffer as it was. */
  method ReceiveInto(buffer: array<byte>, result: ReceiveResult)
    requires result.Count() <= buffer.Length
    modifies buffer
    ensures buffer[..result.Count()] == result.data
    ensures forall i | result.Count() <= i < buffer.Length :: buffer[i] == old(buffer[i])
  {
    for i := 0 to result.Count()
      invariant forall j | 0 <= j < i :: buffer[j] == result.data[j]
      invariant forall j | i <= j < buffer.Length :: buffer[j] == old(buffer[j])
    {
      buffer[i] := result.data[i];
    }
  }

  /** `new byte[count]` followed by `Array.Copy(source, copy, count)`. */
  method CopyPrefix(source: array<byte>, count: nat) returns (copy: array<byte>)
    requires count <= source.Length
    ensures fresh(copy) && copy[..] == source[..count]
  {
    copy := new byte[count];
    for i := 0 to count
      invariant forall j | 0 <= j < i :: copy[j] == source[j]
    {
      copy[i] := source[i];
    }
  }

  /** The sum of the Counts of results i until j. */
  ghost function TotalCount(rs: seq<ReceiveResult>, i: nat, j: nat): nat
    requires i <= j <= |rs|
    decreases j - i
  {
    if i == j then 0 else TotalCount(rs, i, j - 1) + rs[j - 1].Count()
  }

  class WebSocketConnectionsMiddleware {
    const options: Options
    const connectionsService: ConnectionsService

    /** Both collaborators are non-null references, so the constructor's null
        checks cannot fail here. */
    constructor (options: Options, connectionsService: ConnectionsService)
      ensures this.options == options && this.connectionsService == connectionsService
    {
      this.options := options;
      this.connectionsService := connectionsService;
    }

    /** Walks the supported subprotocols in order and stops at the first one
        whose name the client requested. */
    method NegotiateSubProtocol(requestedSubProtocols: seq<string>) returns (subProtocol: Option<SubProtocol>)
      ensures subProtocol == FirstMatch(options.supportedSubProtocols, requestedSubProtocols)
      ensures subProtocol.Some? ==>
        subProtocol.value in options.supportedSubProtocols && subProtocol.value.name in requestedSubProtocols
    {
      subProtocol := None;
      var supported := options.supportedSubProtocols;
      var i := 0;
      while i < |supported|
        invariant 0 <= i <= |supported|
        invariant forall j | 0 <= j < i :: supported[j].name !in requestedSubProtocols
      {
        if supported[i].name in requestedSubProtocols {
          subProtocol := Some(supported[i]);
          FirstMatchIsUnique(supported, requestedSubProtocols, i);
          break;
        }
        i := i + 1;
      }
    }

    /** Handles one request. `id` is the new connection's GUID and `results` are
        the results the socket's reads return, in order; a read past the last
        one fails. The log records each call into the socket, the connection and
        the connections service. */
    method Invoke(request: Request, id: ConnectionId, results: seq<ReceiveResult>) returns (outcome: Outcome, log: seq<Event>)
      requires FitsBuffer(results)
      modifies connectionsService
      ensures Trace(log, outcome) == Run(options, request, id, results)
      ensures connectionsService.connections == Apply(old(connectionsService.connections), log)
      ensures !request.isWebSocketRequest ==>
        outcome == Rejected(400) && log == [] && connectionsService.connections == old(connectionsService.connections)
    {
      if !request.isWebSocketRequest {
        outcome, log := Rejected(400), [];
        return;
      }
      RegistryAfterRun(connectionsService.connections, options, request, id, results);

      var subProtocol := NegotiateSubProtocol(request.requestedProtocols);
      log := [Accept(NameOf(subProtocol))];
      var connection := Connection(id, subProtocol.GetOr(options.defaultSubProtocol));
      log := log + [SubscribeEcho(id)];
      connectionsService.AddConnection(connection);
      log := log + [Add(connection)];

      var received;
      outcome, received := ReceiveUntilClose(connection.id, results);
      log := log + received;
      if outcome == Completed {
        assert old(connectionsService.connections)[id := connection] - {id} == old(connectionsService.connections) - {id};
      }
    }

    /** The receive loop of Invoke for the connection `id`, from its first read
        on, over one reused buffer of BufferSize bytes. */
    method ReceiveUntilClose(id: ConnectionId, results: seq<ReceiveResult>) returns (outcome: Outcome, log: seq<Event>)
      requires FitsBuffer(results)
      modifies connectionsService
      ensures Trace(log, outcome) == Loop(id, results, 0, AwaitMessage)
      ensures connectionsService.connections ==
        if outcome == Completed then old(connectionsService.connections) - {id} else old(connectionsService.connections)
    {
      ghost var whole := Loop(id, results, 0, AwaitMessage);
      log := [];
      var buffer := new byte[BufferSize];
      var pos := 0;
      if pos >= |results| {
        outcome := ReadFailed;
        return;
      }
      var result := results[pos];
      ReceiveInto(buffer, result);
      pos := pos + 1;
      log := log + [Read];

      while result.messageType != Close
        invariant 0 < pos <= |results| && result == results[pos - 1]
        invariant whole == Then(log, Loop(id, results, pos - 1, CheckResult))
        invariant connectionsService.connections == old(connectionsService.connections)
        invariant buffer.Length == BufferSize && buffer[..result.Count()] == result.data
        decreases |results| - pos
      {
        var received, readLog, failed;
        received, pos, readLog, failed := ReceiveMessage(id, buffer, results, pos, result);
        if failed {
          log := log + readLog;
          outcome := ReadFailed;
          return;
        }
        ThenThen(log, readLog + [Deliver(received)], Loop(id, results, pos, AwaitMessage));
        log := log + readLog + [Deliver(received)];

        if pos >= |results| {
          outcome := ReadFailed;
          return;
        }
        ThenThen(log, [Read], Loop(id, results, pos, CheckResult));
        result := results[pos];
        ReceiveInto(buffer, result);
        pos := pos + 1;
        log := log + [Read];
      }

      match result.closeStatus {
        case None =>
          outcome := CloseStatusMissing;
        case Some(status) =>
          log := log + [CloseSent(status, result.closeStatusDescription)];
          connectionsService.RemoveConnection(id);
          log := log + [Remove(id)];
          outcome := Completed;
      }
    }

    /** One pass of Invoke's outer loop up to the OnReceive call: `result` is
        the data result just read into the buffer. When it ends the message the
        received bytes are a copy of its Count bytes; otherwise the remaining
        fragments are read and the received bytes stay null. */
    method ReceiveMessage(ghost id: ConnectionId, buffer: array<byte>, results: seq<ReceiveResult>, pos0: nat, result: ReceiveResult)
      returns (received: Option<seq<byte>>, pos: nat, readLog: seq<Event>, failed: bool)
      requires FitsBuffer(results) && buffer.Length == BufferSize
      requires 0 < pos0 <= |results| && result == results[pos0 - 1] && result.messageType != Close
      requires buffer[..result.Count()] == result.data
      modifies buffer
      ensures pos0 <= pos <= |results| && readLog == Reads(pos - pos0)
      ensures received == if result.endOfMessage then Some(result.data) else None
      ensures failed ==> Loop(id, results, pos0 - 1, CheckResult) == Trace(readLog, ReadFailed)
      ensures !failed ==> Loop(id, results, pos0 - 1, CheckResult) ==
                          Then(readLog + [Deliver(received)], Loop(id, results, pos, AwaitMessage))
      ensures !failed ==> buffer[..results[pos - 1].Count()] == results[pos - 1].data
    {
      received, pos, readLog, failed := None, pos0, [], false;
      if result.endOfMessage {
        var bytes := CopyPrefix(buffer, result.Count());
        received := Some(bytes[..]);
      } else {
        // The accumulated enumerable is a deferred view of the reused buffer
        // that is never enumerated and never handed to OnReceive; only the
        // number of bytes it would yield is kept. It starts with the whole
        // buffer, not its first Count bytes.
        var assembledLength := buffer.Length;
        var last;
        last, pos, readLog, assembledLength, failed := ReceiveFragments(buffer, results, pos0, [], assembledLength);
        assert assembledLength == BufferSize + TotalCount(results, pos0, pos);
        if failed {
          FragmentsUntilReadFails(id, results, pos0);
        } else {
          FragmentsUpToEnd(id, results, pos0, pos - 1);
        }
      }
    }

    /** The inner loop of Invoke: reads into the buffer until a result ends the
        message, adding each result's Count to the length of the accumulated
        enumerable. It fails
        when a read finds no further result. */
    method ReceiveFragments(buffer: array<byte>, results: seq<ReceiveResult>, pos0: nat, log0: seq<Event>, assembledLength0: nat)
      returns (result: ReceiveResult, pos: nat, log: seq<Event>, assembledLength: nat, failed: bool)
      requires FitsBuffer(results) && buffer.Length == BufferSize
      requires 0 < pos0 <= |results| && !results[pos0 - 1].endOfMessage
      modifies buffer
      ensures pos0 <= pos <= |results|
      ensures log == log0 + Reads(pos - pos0) && assembledLength == assembledLength0 + TotalCount(results, pos0, pos)
      ensures failed ==> pos == |results| && forall j | pos0 <= j < |results| :: !results[j].endOfMessage
      ensures !failed ==> pos0 < pos && result == results[pos - 1] && result.endOfMessage &&
                          forall j | pos0 <= j < pos - 1 :: !results[j].endOfMessage
      ensures !failed ==> buffer[..result.Count()] == result.data
    {
      result, pos, log, assembledLength, failed := results[pos0 - 1], pos0, log0, assembledLength0, false;
      while !result.endOfMessage
        invariant pos0 <= pos <= |results| && result == results[pos - 1]
        invariant log == log0 + Reads(pos - pos0) && assembledLength == assembledLength0 + TotalCount(results, pos0, pos)
        invariant forall j | pos0 - 1 <= j < pos :: !results[j].endOfMessage || j == pos - 1
        invariant pos0 < pos ==> buffer[..result.Count()] == result.data
        decreases |results| - pos
      {
        if pos >= |results| {
          failed := true;
          return;
        }
        result := results[pos];
        ReceiveInto(buffer, result);
        pos := pos + 1;
        log := log + [Read];
        assembledLength := assembledLength + result.Count();
      }
    }
  }
}
