/** What one invocation of the middleware does, as a value: the log of its
    calls into the socket, the connection and the connections service, and how
    it ends. The socket is the finite sequence of results its reads return. */
module Sessions {
  import opened Wrappers
  import opened SubProtocols
  import opened Connections

  newtype byte = b: int | 0 <= b < 256

  /** The length of the single receive buffer, 1024 * 4 bytes. */
  const BufferSize: nat := 4096

  datatype MessageType = Text | Binary | Close

  /** One result of ReceiveAsync. `data` is what the read wrote at the start
      of the buffer, so its length is the result's Count. */
  datatype ReceiveResult = ReceiveResult(
    messageType: MessageType,
    data: seq<byte>,
    endOfMessage: bool,
    closeStatus: Option<int>,
    closeStatusDescription: Option<string>)
  {
    function Count(): nat { |data| }
  }

  /** A read into a segment of BufferSize bytes never reports more than that. */
  predicate FitsBuffer(results: seq<ReceiveResult>) {
    forall i | 0 <= i < |results| :: results[i].Count() <= BufferSize
  }

  /** The parts of the HTTP request the middleware looks at. */
  datatype Request = Request(isWebSocketRequest: bool, requestedProtocols: seq<string>)

  /** The middleware's options: supported subprotocols in priority order, and the fallback. */
  datatype Options = Options(supportedSubProtocols: seq<SubProtocol>, defaultSubProtocol: SubProtocol)

  /** The observable steps of one invocation, in order. */
  datatype Event =
    | Accept(subProtocol: Option<string>)       // AcceptWebSocketAsync with this name
    | SubscribeEcho(id: ConnectionId)           // the echo handler is attached to Receive
    | Add(connection: Connection)               // AddConnection
    | Read                                      // one ReceiveAsync into the buffer
    | Deliver(payload: Option<seq<byte>>)       // OnReceive, with the bytes or null
    | CloseSent(status: int, description: Option<string>)  // CloseAsync
    | Remove(id: ConnectionId)                  // RemoveConnection

  /** How an invocation ends. ReadFailed: a read found no further result (the
      transport threw). CloseStatusMissing: `CloseStatus.Value` on a Close
      result without a status threw. */
  datatype Outcome = Rejected(statusCode: int) | Completed | ReadFailed | CloseStatusMissing

  datatype Trace = Trace(events: seq<Event>, outcome: Outcome)

  function Then(prefix: seq<Event>, t: Trace): Trace {
    Trace(prefix + t.events, t.outcome)
  }

  lemma ThenThen(a: seq<Event>, b: seq<Event>, t: Trace)
    ensures Then(a, Then(b, t)) == Then(a + b, t)
  {
    assert a + (b + t.events) == (a + b) + t.events;
  }

  /** AwaitMessage: the outer loop is about to read. CheckResult: result k has
      been read and the outer loop tests it. AwaitFragment: the inner loop is
      about to read the next fragment. */
  datatype Phase = AwaitMessage | CheckResult | AwaitFragment

  /** The receive loop from position k of the results in the given phase. */
  function Loop(id: ConnectionId, rs: seq<ReceiveResult>, k: nat, phase: Phase): (t: Trace)
    requires phase == CheckResult ==> k < |rs|
    decreases |rs| - k, if phase == CheckResult then 0 else 1
    ensures t.outcome == Completed || t.outcome == ReadFailed || t.outcome == CloseStatusMissing
  {
    match phase
    case AwaitMessage =>
      if k < |rs| then Then([Read], Loop(id, rs, k, CheckResult)) else Trace([], ReadFailed)
    case CheckResult =>
      var r := rs[k];
      if r.messageType == Close then
        match r.closeStatus
        case None => Trace([], CloseStatusMissing)
        case Some(status) => Trace([CloseSent(status, r.closeStatusDescription), Remove(id)], Completed)
      else if r.endOfMessage then
        Then([Deliver(Some(r.data))], Loop(id, rs, k + 1, AwaitMessage))
      else
        Loop(id, rs, k + 1, AwaitFragment)
    case AwaitFragment =>
      if k < |rs| then
        Then([Read],
             if rs[k].endOfMessage then Then([Deliver(None)], Loop(id, rs, k + 1, AwaitMessage))
             else Loop(id, rs, k + 1, AwaitFragment))
      else Trace([], ReadFailed)
  }

  /** The connection the middleware builds: negotiated subprotocol, or the default. */
  function ConnectionFor(options: Options, request: Request, id: ConnectionId): (c: Connection)
    ensures c.id == id
    ensures (forall j | 0 <= j < |options.supportedSubProtocols| ::
               options.supportedSubProtocols[j].name !in request.requestedProtocols)
            ==> c.subProtocol == options.defaultSubProtocol
    ensures c.subProtocol != options.defaultSubProtocol ==>
              c.subProtocol in options.supportedSubProtocols && c.subProtocol.name in request.requestedProtocols
    ensures forall i | IsFirstMatch(options.supportedSubProtocols, request.requestedProtocols, i) ::
              c.subProtocol == options.supportedSubProtocols[i]
  {
    Connection(id, FirstMatch(options.supportedSubProtocols, request.requestedProtocols).GetOr(options.defaultSubProtocol))
  }

  /** The handshake with the negotiated name (or null), the echo handler, and
      the registration of the connection: three steps, none of them a read,
      a delivery, a close or a removal. */
  function Registration(options: Options, request: Request, id: ConnectionId): (r: seq<Event>)
    ensures |r| == 3 && r[1] == SubscribeEcho(id) && r[2] == Add(ConnectionFor(options, request, id))
    ensures r[0].Accept? && (r[0].subProtocol.Some? <==>
              exists j | 0 <= j < |options.supportedSubProtocols| ::
                options.supportedSubProtocols[j].name in request.requestedProtocols)
    ensures forall i | IsFirstMatch(options.supportedSubProtocols, request.requestedProtocols, i) ::
              r[0] == Accept(Some(options.supportedSubProtocols[i].name))
    ensures forall e | e in r :: !e.Read? && !e.Deliver? && !e.CloseSent? && !e.Remove?
  {
    [Accept(NameOf(FirstMatch(options.supportedSubProtocols, request.requestedProtocols))),
     SubscribeEcho(id), Add(ConnectionFor(options, request, id))]
  }

  /** The reference definition of one invocation. */
  function Run(options: Options, request: Request, id: ConnectionId, rs: seq<ReceiveResult>): (t: Trace)
    ensures t.outcome.Rejected? <==> !request.isWebSocketRequest
    ensures t.outcome.Rejected? ==> t == Trace([], Rejected(400))
  {
    if !request.isWebSocketRequest then Trace([], Rejected(400))
    else Then(Registration(options, request, id), Loop(id, rs, 0, AwaitMessage))
  }

  /** n reads in a row. */
  function Reads(n: nat): (r: seq<Event>)
    ensures |r| == n && forall i | 0 <= i < n :: r[i] == Read
  {
    if n == 0 then [] else Reads(n - 1) + [Read]
  }

  // ---------------------------------------------------------------------------
  // The registry as the log changes it.

  function ApplyEvent(m: map<ConnectionId, Connection>, e: Event): map<ConnectionId, Connection> {
    match e
    case Add(c) => m[c.id := c]
    case Remove(id) => m - {id}
    case _ => m
  }

  /** The registry after the log's AddConnection and RemoveConnection calls. */
  function Apply(m: map<ConnectionId, Connection>, log: seq<Event>): map<ConnectionId, Connection>
    decreases |log|
  {
    if log == [] then m else ApplyEvent(Apply(m, log[..|log| - 1]), log[|log| - 1])
  }

  /** One step: AddConnection maps the connection's id to it, RemoveConnection
      drops the id, and every other step and every other id is left alone. */
  lemma ApplyEventEffect(m: map<ConnectionId, Connection>, e: Event)
    ensures var r := ApplyEvent(m, e);
      (e.Add? ==> r.Keys == m.Keys + {e.connection.id} && r[e.connection.id] == e.connection) &&
      (e.Remove? ==> r.Keys == m.Keys - {e.id}) &&
      (!e.Add? && !e.Remove? ==> r == m) &&
      forall k | k in m && !(e.Add? && k == e.connection.id) && !(e.Remove? && k == e.id) ::
        k in r && r[k] == m[k]
  {
  }

  /** Every entry after a log is either an old one or a connection the log
      added, and an old id is gone only if the log removed it. */
  lemma {:induction false} ApplyOnlyAddsAndRemoves(m: map<ConnectionId, Connection>, log: seq<Event>)
    decreases |log|
    ensures var r := Apply(m, log);
      (forall k | k in r :: (k in m && r[k] == m[k]) || Add(r[k]) in log) &&
      (forall k | k in m && k !in r :: Remove(k) in log)
  {
    if log != [] {
      var front := log[..|log| - 1];
      ApplyOnlyAddsAndRemoves(m, front);
      ApplyEventEffect(Apply(m, front), log[|log| - 1]);
      assert forall e | e in front :: e in log;
    }
  }

  lemma ApplyAppendOne(m: map<ConnectionId, Connection>, log: seq<Event>, e: Event)
    ensures Apply(m, log + [e]) == ApplyEvent(Apply(m, log), e)
  {
    assert (log + [e])[..|log|] == log;
  }

  lemma {:induction false} ApplyConcat(m: map<ConnectionId, Connection>, a: seq<Event>, b: seq<Event>)
    ensures Apply(m, a + b) == Apply(Apply(m, a), b)
    decreases |b|
  {
    if b == [] {
      assert a + b == a;
    } else {
      assert (a + b)[..|a + b| - 1] == a + b[..|b| - 1];
      ApplyConcat(m, a, b[..|b| - 1]);
    }
  }

  // ---------------------------------------------------------------------------
  // Properties of the receive loop.

  /** The loop only reads, delivers, closes and removes its own connection. */
  lemma {:induction false} LoopTouchesOnlyItsConnection(id: ConnectionId, rs: seq<ReceiveResult>, k: nat, phase: Phase)
    requires phase == CheckResult ==> k < |rs|
    decreases |rs| - k, if phase == CheckResult then 0 else 1
    ensures forall e | e in Loop(id, rs, k, phase).events ::
              e.Read? || e.Deliver? || e.CloseSent? || e == Remove(id)
  {
    match phase
    case AwaitMessage =>
      if k < |rs| { LoopTouchesOnlyItsConnection(id, rs, k, CheckResult); }
    case CheckResult =>
      if rs[k].messageType != Close {
        if rs[k].endOfMessage {
          LoopTouchesOnlyItsConnection(id, rs, k + 1, AwaitMessage);
        } else {
          LoopTouchesOnlyItsConnection(id, rs, k + 1, AwaitFragment);
        }
      }
    case AwaitFragment =>
      if k < |rs| {
        LoopTouchesOnlyItsConnection(id, rs, k + 1, AwaitMessage);
        LoopTouchesOnlyItsConnection(id, rs, k + 1, AwaitFragment);
      }
  }

  /** Reads and OnReceive calls, nothing else. */
  predicate OnlyReadsAndDeliveries(log: seq<Event>) {
    forall e | e in log :: e.Read? || e.Deliver?
  }

  /** Reads and deliveries leave the registry alone. */
  lemma {:induction false} ApplyIgnoresReadsAndDeliveries(m: map<ConnectionId, Connection>, log: seq<Event>)
    requires OnlyReadsAndDeliveries(log)
    decreases |log|
    ensures Apply(m, log) == m
  {
    if log != [] {
      assert log[|log| - 1] in log;
      ApplyIgnoresReadsAndDeliveries(m, log[..|log| - 1]);
    }
  }

  /** A trace that does not complete only reads and delivers. One that completes
      reads and delivers, then calls CloseAsync and RemoveConnection(id) and
      stops. The status and description sent are those of a Close result j at
      or after `from`, and j is `base` plus the number of reads before the close. */
  predicate EndsWithCloseEcho(t: Trace, id: ConnectionId, rs: seq<ReceiveResult>, from: nat, base: int) {
    (t.outcome != Completed ==> OnlyReadsAndDeliveries(t.events)) &&
    (t.outcome == Completed ==>
       |t.events| >= 2 && OnlyReadsAndDeliveries(t.events[..|t.events| - 2]) &&
       exists j :: from <= j < |rs| && rs[j].messageType == Close && rs[j].closeStatus.Some? &&
         t.events[|t.events| - 2..] == [CloseSent(rs[j].closeStatus.value, rs[j].closeStatusDescription), Remove(id)] &&
         j == base + multiset(t.events[..|t.events| - 2])[Read])
  }

  /** Reads and deliveries in front of such a trace keep it one. */
  lemma EndsWithCloseEchoAfter(prefix: seq<Event>, u: Trace, id: ConnectionId, rs: seq<ReceiveResult>, from: nat, from': nat, base': int)
    requires OnlyReadsAndDeliveries(prefix) && from <= from'
    requires EndsWithCloseEcho(u, id, rs, from', base')
    ensures EndsWithCloseEcho(Then(prefix, u), id, rs, from, base' - multiset(prefix)[Read])
  {
    var t := Then(prefix, u);
    if u.outcome == Completed {
      var n, m := |t.events| - 2, |u.events| - 2;
      var j :| from' <= j < |rs| && rs[j].messageType == Close && rs[j].closeStatus.Some? &&
        u.events[m..] == [CloseSent(rs[j].closeStatus.value, rs[j].closeStatusDescription), Remove(id)] &&
        j == base' + multiset(u.events[..m])[Read];
      assert t.events[..n] == prefix + u.events[..m];
      assert t.events[n..] == u.events[m..];
      OnlyReadsAndDeliveriesConcat(prefix, u.events[..m]);
      assert multiset(t.events[..n])[Read] == multiset(prefix)[Read] + multiset(u.events[..m])[Read];
      assert j == (base' - multiset(prefix)[Read]) + multiset(t.events[..n])[Read];
    } else {
      OnlyReadsAndDeliveriesConcat(prefix, u.events);
    }
  }

  lemma OnlyReadsAndDeliveriesConcat(a: seq<Event>, b: seq<Event>)
    requires OnlyReadsAndDeliveries(a) && OnlyReadsAndDeliveries(b)
    ensures OnlyReadsAndDeliveries(a + b)
  {
  }

  /** A completed trace of this shape, behind any prefix: it ends with
      RemoveConnection(id) right after the close echo of result j, and j is
      `base` plus the reads after the prefix. */
  lemma CompletedCloseEcho(prefix: seq<Event>, u: Trace, id: ConnectionId, rs: seq<ReceiveResult>, from: nat, base: int)
    requires EndsWithCloseEcho(u, id, rs, from, base) && u.outcome == Completed
    ensures var t := Then(prefix, u);
      |t.events| >= |prefix| + 2 && t.events[|t.events| - 1] == Remove(id) &&
      exists j :: from <= j < |rs| && rs[j].messageType == Close && rs[j].closeStatus.Some? &&
        t.events[|t.events| - 2] == CloseSent(rs[j].closeStatus.value, rs[j].closeStatusDescription) &&
        j == base + multiset(t.events)[Read] - multiset(prefix)[Read]
  {
    var t := Then(prefix, u);
    var m := |u.events| - 2;
    var j :| from <= j < |rs| && rs[j].messageType == Close && rs[j].closeStatus.Some? &&
      u.events[m..] == [CloseSent(rs[j].closeStatus.value, rs[j].closeStatusDescription), Remove(id)] &&
      j == base + multiset(u.events[..m])[Read];
    assert u.events == u.events[..m] + u.events[m..];
    assert t.events == prefix + u.events[..m] + u.events[m..];
    assert multiset(u.events[m..])[Read] == 0;
    assert t.events[|t.events| - 2] == u.events[m..][0];
  }

  /** Reads and OnReceive calls leave the registry alone; a completed trace of
      this shape removes exactly `id`. */
  lemma ApplyEndsWithCloseEcho(m: map<ConnectionId, Connection>, u: Trace, id: ConnectionId, rs: seq<ReceiveResult>, from: nat, base: int)
    requires EndsWithCloseEcho(u, id, rs, from, base)
    ensures Apply(m, u.events) == if u.outcome == Completed then m - {id} else m
  {
    if u.outcome == Completed {
      var n := |u.events| - 2;
      var body := u.events[..n];
      var close := u.events[n];
      assert u.events[n..] == [close, Remove(id)];
      assert u.events == body + [close] + [Remove(id)];
      ApplyAppendOne(m, body + [close], Remove(id));
      ApplyAppendOne(m, body, close);
      ApplyIgnoresReadsAndDeliveries(m, body);
      assert close.CloseSent?;
    } else {
      ApplyIgnoresReadsAndDeliveries(m, u.events);
    }
  }

  /** The receive loop ends as described by EndsWithCloseEcho: no OnReceive
      follows the close, and the close echoes the last result read. */
  lemma {:induction false} LoopEndsWithCloseEcho(id: ConnectionId, rs: seq<ReceiveResult>, k: nat, phase: Phase)
    requires phase == CheckResult ==> k < |rs|
    decreases |rs| - k, if phase == CheckResult then 0 else 1, 1
    ensures EndsWithCloseEcho(Loop(id, rs, k, phase), id, rs, k, if phase == CheckResult then k else k - 1)
  {
    match phase {
    case AwaitMessage =>
      if k < |rs| {
        var u := Loop(id, rs, k, CheckResult);
        assert Loop(id, rs, k, phase) == Then([Read], u);
        CheckedResultEndsWithCloseEcho(id, rs, k);
        EndsWithCloseEchoAfter([Read], u, id, rs, k, k, k);
      }
    case CheckResult =>
      CheckedResultEndsWithCloseEcho(id, rs, k);
    case AwaitFragment =>
      if k < |rs| {
        var next := if rs[k].endOfMessage then AwaitMessage else AwaitFragment;
        var prefix := if rs[k].endOfMessage then [Read, Deliver(None)] else [Read];
        var u := Loop(id, rs, k + 1, next);
        assert Loop(id, rs, k, phase) == Then(prefix, u);
        LoopEndsWithCloseEcho(id, rs, k + 1, next);
        EndsWithCloseEchoAfter(prefix, u, id, rs, k, k + 1, k);
      }
    }
  }

  /** The CheckResult case of LoopEndsWithCloseEcho. */
  lemma {:induction false} CheckedResultEndsWithCloseEcho(id: ConnectionId, rs: seq<ReceiveResult>, k: nat)
    requires k < |rs|
    decreases |rs| - k, 0, 0
    ensures EndsWithCloseEcho(Loop(id, rs, k, CheckResult), id, rs, k, k)
  {
    var t := Loop(id, rs, k, CheckResult);
    if rs[k].messageType == Close {
      if rs[k].closeStatus.Some? {
        assert t.events[..|t.events| - 2] == [];
        assert t.events[|t.events| - 2..] == [CloseSent(rs[k].closeStatus.value, rs[k].closeStatusDescription), Remove(id)];
      }
    } else if rs[k].endOfMessage {
      var u := Loop(id, rs, k + 1, AwaitMessage);
      assert t == Then([Deliver(Some(rs[k].data))], u);
      LoopEndsWithCloseEcho(id, rs, k + 1, AwaitMessage);
      EndsWithCloseEchoAfter([Deliver(Some(rs[k].data))], u, id, rs, k, k + 1, k);
    } else {
      assert t == Loop(id, rs, k + 1, AwaitFragment);
      LoopEndsWithCloseEcho(id, rs, k + 1, AwaitFragment);
    }
  }

  /** Reading stops once the loop has finished: results after the ones it read
      never change what it does. */
  lemma {:induction false} LoopIgnoresLaterResults(id: ConnectionId, rs: seq<ReceiveResult>, more: seq<ReceiveResult>, k: nat, phase: Phase)
    requires phase == CheckResult ==> k < |rs|
    requires Loop(id, rs, k, phase).outcome != ReadFailed
    decreases |rs| - k, if phase == CheckResult then 0 else 1
    ensures Loop(id, rs + more, k, phase) == Loop(id, rs, k, phase)
  {
    match phase
    case AwaitMessage =>
      LoopIgnoresLaterResults(id, rs, more, k, CheckResult);
    case CheckResult =>
      assert (rs + more)[k] == rs[k];
      if rs[k].messageType != Close {
        if rs[k].endOfMessage {
          LoopIgnoresLaterResults(id, rs, more, k + 1, AwaitMessage);
        } else {
          LoopIgnoresLaterResults(id, rs, more, k + 1, AwaitFragment);
        }
      }
    case AwaitFragment =>
      assert (rs + more)[k] == rs[k];
      if rs[k].endOfMessage {
        LoopIgnoresLaterResults(id, rs, more, k + 1, AwaitMessage);
      } else {
        LoopIgnoresLaterResults(id, rs, more, k + 1, AwaitFragment);
      }
  }

  /** The inner loop reads fragments up to and including the one that ends the
      message, then calls OnReceive once with null. */
  lemma {:induction false} FragmentsUpToEnd(id: ConnectionId, rs: seq<ReceiveResult>, k: nat, last: nat)
    requires k <= last < |rs|
    requires forall j | k <= j < last :: !rs[j].endOfMessage
    requires rs[last].endOfMessage
    decreases last - k
    ensures Loop(id, rs, k, AwaitFragment)
         == Then(Reads(last - k + 1) + [Deliver(None)], Loop(id, rs, last + 1, AwaitMessage))
  {
    var rest := Loop(id, rs, last + 1, AwaitMessage);
    if k < last {
      FragmentsUpToEnd(id, rs, k + 1, last);
      assert Loop(id, rs, k, AwaitFragment) == Then([Read], Loop(id, rs, k + 1, AwaitFragment));
      ThenThen([Read], Reads(last - k) + [Deliver(None)], rest);
      assert [Read] + (Reads(last - k) + [Deliver(None)]) == Reads(last - k + 1) + [Deliver(None)];
    } else {
      assert Loop(id, rs, k, AwaitFragment) == Then([Read], Then([Deliver(None)], rest));
      ThenThen([Read], [Deliver(None)], rest);
      assert Reads(1) == [Read];
    }
  }

  /** When no result from k on ends the message, the inner loop reads them all
      and the next read fails. */
  lemma {:induction false} FragmentsUntilReadFails(id: ConnectionId, rs: seq<ReceiveResult>, k: nat)
    requires k <= |rs|
    requires forall j | k <= j < |rs| :: !rs[j].endOfMessage
    decreases |rs| - k
    ensures Loop(id, rs, k, AwaitFragment) == Trace(Reads(|rs| - k), ReadFailed)
  {
    if k < |rs| {
      FragmentsUntilReadFails(id, rs, k + 1);
      assert Reads(|rs| - k) == [Read] + Reads(|rs| - (k + 1));
    }
  }

  /** One iteration of the outer loop: the message starting at result k runs up
      to the first end-of-message result `last`; the loop reads results k..last
      and calls OnReceive once. A single-result message delivers exactly that
      result's Count bytes; a fragmented one delivers null. */
  lemma {:induction false} OneDeliveryPerMessage(id: ConnectionId, rs: seq<ReceiveResult>, k: nat, last: nat)
    requires k <= last < |rs|
    requires rs[k].messageType != Close
    requires forall j | k <= j < last :: !rs[j].endOfMessage
    requires rs[last].endOfMessage
    ensures Loop(id, rs, k, AwaitMessage)
         == Then(Reads(last - k + 1) + [Deliver(if last == k then Some(rs[k].data) else None)],
                 Loop(id, rs, last + 1, AwaitMessage))
  {
    var rest := Loop(id, rs, last + 1, AwaitMessage);
    if k < last {
      var fragments := Loop(id, rs, k + 1, AwaitFragment);
      assert Loop(id, rs, k, AwaitMessage) == Then([Read], fragments);
      FragmentsUpToEnd(id, rs, k + 1, last);
      ThenThen([Read], Reads(last - k) + [Deliver(None)], rest);
      assert [Read] + (Reads(last - k) + [Deliver(None)]) == Reads(last - k + 1) + [Deliver(None)];
    } else {
      assert Loop(id, rs, k, AwaitMessage) == Then([Read], Then([Deliver(Some(rs[k].data))], rest));
      ThenThen([Read], [Deliver(Some(rs[k].data))], rest);
      assert Reads(1) == [Read];
    }
  }

  /** The loop leaves the registry alone unless it completes, and then it
      removes exactly its own connection. */
  lemma LoopRegistryEffect(m: map<ConnectionId, Connection>, id: ConnectionId, rs: seq<ReceiveResult>, k: nat, phase: Phase)
    requires phase == CheckResult ==> k < |rs|
    ensures Apply(m, Loop(id, rs, k, phase).events)
         == if Loop(id, rs, k, phase).outcome == Completed then m - {id} else m
  {
    LoopEndsWithCloseEcho(id, rs, k, phase);
    ApplyEndsWithCloseEcho(m, Loop(id, rs, k, phase), id, rs, k, if phase == CheckResult then k else k - 1);
  }

  // ---------------------------------------------------------------------------
  // Properties of a whole invocation.

  /** An upgrade request is accepted with the negotiated name (or null), the echo
      handler is attached, and the connection, carrying the negotiated subprotocol
      or else the default, is added once, before the first read. */
  lemma RegistrationPrecedesReads(options: Options, request: Request, id: ConnectionId, rs: seq<ReceiveResult>)
    requires request.isWebSocketRequest
    ensures var t := Run(options, request, id, rs);
      var negotiated := FirstMatch(options.supportedSubProtocols, request.requestedProtocols);
      |t.events| >= 3 &&
      t.events[0] == Accept(NameOf(negotiated)) &&
      t.events[1] == SubscribeEcho(id) &&
      t.events[2] == Add(Connection(id, if negotiated.Some? then negotiated.value else options.defaultSubProtocol)) &&
      forall i | 0 <= i < |t.events| ::
        (t.events[i].Add? ==> i == 2) && (t.events[i] == Read ==> i > 2) &&
        (t.events[i].Accept? ==> i == 0)
  {
    var t := Run(options, request, id, rs);
    var u := Loop(id, rs, 0, AwaitMessage);
    LoopTouchesOnlyItsConnection(id, rs, 0, AwaitMessage);
    forall i | 3 <= i < |t.events| ensures !t.events[i].Add? && !t.events[i].Accept? {
      assert t.events[i] == u.events[i - 3];
      assert u.events[i - 3] in u.events;
    }
  }

  /** CloseAsync and RemoveConnection are called only on a completed run, and
      then as its last two steps, so RemoveConnection comes right after CloseAsync
      and no OnReceive follows them. */
  lemma RemovalIsLastAfterClose(options: Options, request: Request, id: ConnectionId, rs: seq<ReceiveResult>)
    requires request.isWebSocketRequest
    ensures var t := Run(options, request, id, rs);
      forall i | 0 <= i < |t.events| ::
        (t.events[i].Remove? ==> t.outcome == Completed && i == |t.events| - 1) &&
        (t.events[i].CloseSent? ==> t.outcome == Completed && i == |t.events| - 2)
  {
    var t := Run(options, request, id, rs);
    var u := Loop(id, rs, 0, AwaitMessage);
    var prefix := Registration(options, request, id);
    assert t.events == prefix + u.events;
    LoopEndsWithCloseEcho(id, rs, 0, AwaitMessage);
    var n := if t.outcome == Completed then |u.events| - 2 else |u.events|;
    assert OnlyReadsAndDeliveries(u.events[..n]) by {
      assert u.outcome != Completed ==> u.events[..n] == u.events;
    }
    forall i | 0 <= i < |t.events|
      ensures (t.events[i].Remove? ==> t.outcome == Completed && i == |t.events| - 1) &&
              (t.events[i].CloseSent? ==> t.outcome == Completed && i == |t.events| - 2)
    {
      if 3 <= i < 3 + n {
        assert t.events[i] == u.events[..n][i - 3];
        assert u.events[..n][i - 3] in u.events[..n];
      } else if i < 3 {
        assert t.events[i] == prefix[i];
      }
    }
  }

  /** A completed run has at least the three registration steps, one read,
      the close and the removal. */
  lemma CompletedRunLength(options: Options, request: Request, id: ConnectionId, rs: seq<ReceiveResult>)
    requires request.isWebSocketRequest
    requires Run(options, request, id, rs).outcome == Completed
    ensures |Run(options, request, id, rs).events| >= 6
  {
    var w := Loop(id, rs, 0, CheckResult);
    assert Run(options, request, id, rs).events == Registration(options, request, id) + ([Read] + w.events);
    CheckedResultEndsWithCloseEcho(id, rs, 0);
  }

  /** A completed run ends with RemoveConnection of the connection's own id,
      and the CloseAsync before it echoes the status and description of the last
      result read, which is a Close result: the one the outer loop stopped at. */
  lemma CloseEchoesLastResult(options: Options, request: Request, id: ConnectionId, rs: seq<ReceiveResult>)
    requires request.isWebSocketRequest
    requires Run(options, request, id, rs).outcome == Completed
    ensures var t := Run(options, request, id, rs);
      |t.events| >= 6 && t.events[|t.events| - 1] == Remove(id) &&
      exists j :: 0 <= j < |rs| && j + 1 == multiset(t.events)[Read] &&
        rs[j].messageType == Close && rs[j].closeStatus.Some? &&
        t.events[|t.events| - 2] == CloseSent(rs[j].closeStatus.value, rs[j].closeStatusDescription)
  {
    var t := Run(options, request, id, rs);
    var u := Loop(id, rs, 0, AwaitMessage);
    var prefix := Registration(options, request, id);
    assert t == Then(prefix, u);
    CompletedRunLength(options, request, id, rs);
    RegistrationReadsNothing(options, request, id);
    LoopEndsWithCloseEcho(id, rs, 0, AwaitMessage);
    CompletedAfterReadlessPrefix(prefix, u, id, rs);
  }

  lemma RegistrationReadsNothing(options: Options, request: Request, id: ConnectionId)
    ensures multiset(Registration(options, request, id))[Read] == 0
  {
    assert Read !in Registration(options, request, id);
  }

  /** The receive loop's completed trace behind steps that read nothing: the
      close echoes the result whose position is the number of reads less one. */
  lemma CompletedAfterReadlessPrefix(prefix: seq<Event>, u: Trace, id: ConnectionId, rs: seq<ReceiveResult>)
    requires multiset(prefix)[Read] == 0
    requires EndsWithCloseEcho(u, id, rs, 0, -1) && u.outcome == Completed
    ensures var t := Then(prefix, u);
      t.events[|t.events| - 1] == Remove(id) &&
      exists j :: 0 <= j < |rs| && j + 1 == multiset(t.events)[Read] &&
        rs[j].messageType == Close && rs[j].closeStatus.Some? &&
        t.events[|t.events| - 2] == CloseSent(rs[j].closeStatus.value, rs[j].closeStatusDescription)
  {
    var t := Then(prefix, u);
    CompletedCloseEcho(prefix, u, id, rs, 0, -1);
    var j :| 0 <= j < |rs| && rs[j].messageType == Close && rs[j].closeStatus.Some? &&
      t.events[|t.events| - 2] == CloseSent(rs[j].closeStatus.value, rs[j].closeStatusDescription) &&
      j == -1 + multiset(t.events)[Read] - multiset(prefix)[Read];
    assert j + 1 == multiset(t.events)[Read];
  }

  /** Accepting and subscribing leave the registry alone; AddConnection adds. */
  lemma ApplyRegistration(m: map<ConnectionId, Connection>, options: Options, request: Request, id: ConnectionId)
    ensures Apply(m, Registration(options, request, id)) == m[id := ConnectionFor(options, request, id)]
  {
    var r := Registration(options, request, id);
    var a, b, c := r[0], r[1], ConnectionFor(options, request, id);
    assert r == [] + [a] + [b] + [Add(c)];
    ApplyAppendOne(m, [], a);
    ApplyAppendOne(m, [a], b);
    ApplyAppendOne(m, [a, b], Add(c));
  }

  /** After an upgrade, the receive loop starts from the registry holding the
      new connection. */
  lemma RegistryBeforeLoop(m: map<ConnectionId, Connection>, options: Options, request: Request, id: ConnectionId, rs: seq<ReceiveResult>)
    requires request.isWebSocketRequest
    ensures Apply(m, Run(options, request, id, rs).events)
         == Apply(m[id := ConnectionFor(options, request, id)], Loop(id, rs, 0, AwaitMessage).events)
  {
    var prefix := Registration(options, request, id);
    var u := Loop(id, rs, 0, AwaitMessage);
    assert Run(options, request, id, rs).events == prefix + u.events;
    ApplyConcat(m, prefix, u.events);
    ApplyRegistration(m, options, request, id);
  }

  /** The registry after an invocation: untouched on a rejected request, without
      the connection's id after a completed run, and still holding the connection
      when a read or the close status failed (there is no cleanup on those paths). */
  lemma RegistryAfterRun(m: map<ConnectionId, Connection>, options: Options, request: Request, id: ConnectionId, rs: seq<ReceiveResult>)
    ensures var t := Run(options, request, id, rs);
      Apply(m, t.events) ==
        match t.outcome
        case Rejected(_) => m
        case Completed => m - {id}
        case _ => m[id := ConnectionFor(options, request, id)]
  {
    if request.isWebSocketRequest {
      var t, u := Run(options, request, id, rs), Loop(id, rs, 0, AwaitMessage);
      var added := m[id := ConnectionFor(options, request, id)];
      RegistryBeforeLoop(m, options, request, id, rs);
      LoopRegistryEffect(added, id, rs, 0, AwaitMessage);
      assert t.outcome == u.outcome;
      if u.outcome == Completed {
        assert Apply(m, t.events) == added - {id};
        assert added - {id} == m - {id};
      } else {
        assert Apply(m, t.events) == added;
      }
    }
  }

  /** The code as written on two fragments "ab", "cd" followed by a close:
      OnReceive is called once, with null, rather than with "abcd". */
  lemma FragmentedMessageDeliversNull(id: ConnectionId, status: int)
    ensures var ab := [97 as byte, 98]; var cd := [99 as byte, 100];
      Loop(id, [ReceiveResult(Text, ab, false, None, None),
                ReceiveResult(Text, cd, true, None, None),
                ReceiveResult(Close, [], true, Some(status), None)], 0, AwaitMessage)
      == Trace([Read, Read, Deliver(None), Read, CloseSent(status, None), Remove(id)], Completed)
  {
    var rs := [ReceiveResult(Text, [97 as byte, 98], false, None, None),
               ReceiveResult(Text, [99 as byte, 100], true, None, None),
               ReceiveResult(Close, [], true, Some(status), None)];
    OneDeliveryPerMessage(id, rs, 0, 1);
    assert Reads(2) == [Read, Read];
    assert Loop(id, rs, 2, AwaitMessage) == Trace([Read, CloseSent(status, None), Remove(id)], Completed);
  }
}
