/** The connection entity and the registry of open connections. */
module Connections {
  import opened SubProtocols

  /** A 128-bit GUID. */
  newtype ConnectionId = x: int | 0 <= x < 0x1_0000_0000_0000_0000_0000_0000_0000_0000

  /** A connection as the registry sees it: its id and the subprotocol it speaks.
      The socket handle and the receive event are not part of this value. */
  datatype Connection = Connection(id: ConnectionId, subProtocol: SubProtocol)

  /** The connections service: open connections keyed by id. */
  class ConnectionsService {
    var connections: map<ConnectionId, Connection>

    constructor ()
      ensures connections == map[]
    {
      connections := map[];
    }

    method AddConnection(connection: Connection)
      modifies this
      ensures connections == old(connections)[connection.id := connection]
    {
      connections := connections[connection.id := connection];
    }

    /** Removing an id that is not registered changes nothing. */
    method RemoveConnection(id: ConnectionId)
      modifies this
      ensures connections == old(connections) - {id}
      ensures id !in old(connections) ==> connections == old(connections)
    {
      connections := connections - {id};
    }
  }
}
