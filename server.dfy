/**
  The process-wide room registry and the acceptance of a new connection:
  validate the pathname, find or create the room it names, give the
  connection a fresh id in that room, and start its liveness flag.
 */
module Server {
  import opened Wrappers
  import opened Protocol
  import opened Relay
  import opened Paths
  import opened Rooms
  import opened Liveness

  /** How a new connection ends up: closed at once for a bad pathname, or
      registered in a room under a fresh id with its own heartbeat. */
  datatype Connection =
    | Rejected
    | Accepted(path: string, room: Room, id: PeerId, heartbeat: Heartbeat)

  /** Every room ever opened, by room key. Rooms are created on first use
      and never removed. */
  class Registry {
    var rooms: map<string, Room>

    /** Every room is valid, and no two keys share a room. */
    ghost predicate Valid()
      reads this, rooms.Values
    {
      && (forall path :: path in rooms ==> rooms[path].Valid())
      && (forall p, q :: p in rooms && q in rooms && p != q ==> rooms[p] != rooms[q])
    }

    /** The ids connected under `path`; none for a path never seen. */
    ghost function SocketsAt(path: string): map<PeerId, Handle>
      reads this, rooms.Values
    {
      if path in rooms then rooms[path].sockets else map[]
    }

    /** The ids joined under `path`; none for a path never seen. */
    ghost function PeersAt(path: string): seq<PeerId>
      reads this, rooms.Values
    {
      if path in rooms then rooms[path].peerIds else []
    }

    /** The messages sent under `path`; none for a path never seen. */
    ghost function OutboxAt(path: string): seq<Delivery>
      reads this, rooms.Values
    {
      if path in rooms then rooms[path].outbox else []
    }

    /** Whether the candidate ids hold one that is free in the room
        `pathname` names, when it names one. */
    ghost predicate CanAllocate(pathname: string, candidates: seq<PeerId>)
      reads this, rooms.Values
    {
      RoomKey(pathname).Some? ==>
        exists k :: 0 <= k < |candidates| && candidates[k] !in SocketsAt(RoomKey(pathname).value)
    }

    /** The registry at process start. */
    constructor ()
      ensures Valid() && rooms == map[]
    {
      rooms := map[];
    }

    /** The room for `path`, created empty if the path is new. Existing
        rooms, this one included, are left as they were. */
    method GetOrCreate(path: string) returns (room: Room)
      requires Valid()
      modifies this
      ensures Valid()
      ensures path in rooms && rooms[path] == room
      ensures path in old(rooms) ==> rooms == old(rooms)
      ensures path !in old(rooms) ==>
                fresh(room) && rooms == old(rooms)[path := room] &&
                room.sockets == map[] && room.peerIds == [] && room.outbox == []
    {
      if path !in rooms {
        var created := new Room();
        rooms := rooms[path := created];
      }
      room := rooms[path];
    }

    /** A new connection on `pathname` with socket `socket`; `candidates`
        are the ids the generator would produce. A pathname that is not
        exactly one segment closes the connection and changes nothing.
        Otherwise the connection gets the first candidate free in its room,
        its socket is registered under it, and no other room changes. */
    method Connect(pathname: string, socket: Handle, candidates: seq<PeerId>) returns (c: Connection)
      requires Valid() && CanAllocate(pathname, candidates)
      modifies this, rooms.Values
      ensures Valid()
      ensures c.Rejected? <==> RoomKey(pathname).None?
      ensures c.Rejected? ==> rooms == old(rooms) && forall path :: path in rooms ==> unchanged(rooms[path])
      ensures c.Accepted? ==>
                var before := old(SocketsAt(RoomKey(pathname).value));
                && Some(c.path) == RoomKey(pathname)
                && c.path in rooms && rooms[c.path] == c.room
                && (c.path in old(rooms) ==> rooms == old(rooms))
                && (c.path !in old(rooms) ==> fresh(c.room) && rooms == old(rooms)[c.path := c.room])
                && c.id !in before
                && c.room.sockets == before[c.id := socket]
                && c.room.peerIds == old(PeersAt(RoomKey(pathname).value))
                && c.room.outbox == old(OutboxAt(RoomKey(pathname).value))
                && (exists k :: 0 <= k < |candidates| && candidates[k] == c.id &&
                                (forall j :: 0 <= j < k ==> candidates[j] in before))
                && (forall path :: path in old(rooms) && path != c.path ==> unchanged(old(rooms)[path]))
                && fresh(c.heartbeat) && c.heartbeat.isAlive
    {
      var parts := Segments(pathname);
      if |parts| != 1 {
        return Rejected;
      }
      var path := parts[0];
      var room := GetOrCreate(path);
      var id := room.AllocateId(candidates, socket);
      var heartbeat := new Heartbeat();
      c := Accepted(path, room, id, heartbeat);
    }
  }
}
