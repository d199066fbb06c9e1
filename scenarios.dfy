/**
  Client code verified against the contracts alone: two peers meet in room
  "lobby", exchange signals, and one leaves; and a connection that stops
  answering pings.
 */
module Scenarios {
  import opened Wrappers
  import opened Protocol
  import opened Relay
  import opened Paths
  import opened Rooms
  import opened Liveness
  import opened Server

  /** The first peer of a room joins alone and is sent nothing but its
      reply. */
  lemma FirstJoin(a: PeerId, b: PeerId, ha: Handle, hb: Handle)
    requires a != b && ha != hb
    ensures Added([], a) == [a]
    ensures Without([a], a) == [] && JoinBroadcast([a], map[a := ha, b := hb], a) == []
  {
    var sockets := map[a := ha, b := hb];
    assert [a][..0] == [];
    assert OtherSockets([a], sockets, ha) == [];
  }

  /** The second peer of a room hears of the first, and the first is told
      of the second. */
  lemma SecondJoin(a: PeerId, b: PeerId, ha: Handle, hb: Handle)
    requires a != b && ha != hb
    ensures Added([a], b) == [a, b] && Added([a, b], b) == [a, b]
    ensures Without([a, b], b) == [a] && JoinBroadcast([a, b], map[a := ha, b := hb], b) == [Delivery(ha, Add(b))]
  {
    var sockets := map[a := ha, b := hb];
    assert [a, b][..1] == [a] && [a][..0] == [];
    assert Without([a], b) == [a];
    assert OtherSockets([a], sockets, hb) == [a];
    assert OtherSockets([a, b], sockets, hb) == [a];
    assert Fanout([a], sockets, Add(b)) == [Delivery(ha, Add(b))];
  }

  /** The pathname "/lobby" names the room "lobby". */
  lemma LobbyKey()
    ensures RoomKey("/lobby") == Some("lobby")
  {
    RoomKeyShape("/lobby", "lobby");
    assert "/lobby" == Slashes(1) + "lobby" + Slashes(0);
    assert '/' !in "lobby";
  }

  /** The first connection on "/lobby" opens the room and takes the first
      candidate id. */
  method OpenLobby(a: PeerId, ha: Handle)
  {
    LobbyKey();
    var registry := new Registry();
    assert [a][0] !in registry.SocketsAt("lobby");
    var first := registry.Connect("/lobby", ha, [a]);
    assert first.path == "lobby" && fresh(first.room);
    assert registry.rooms == map["lobby" := first.room];
    assert first.id == a && first.room.sockets == map[a := ha];
    assert first.room.peerIds == [];
  }

  /** A second connection on "/lobby" lands in the same room, skips the
      taken id and gets the next candidate. */
  method EnterLobby(registry: Registry, room: Room, a: PeerId, b: PeerId, ha: Handle, hb: Handle)
    requires registry.Valid() && registry.rooms == map["lobby" := room]
    requires room.sockets == map[a := ha] && room.peerIds == [] && a != b
    modifies registry, room
  {
    LobbyKey();
    assert [a, b][1] !in registry.SocketsAt("lobby");
    var second := registry.Connect("/lobby", hb, [a, b]);
    assert second.room == room && second.id == b;
    assert room.sockets == map[a := ha, b := hb];
    assert room.peerIds == [];
  }

  /** A joins an empty room and hears of nobody. */
  method FirstArrives(room: Room, a: PeerId, b: PeerId, ha: Handle, hb: Handle)
    requires room.Valid() && a != b && ha != hb
    requires room.sockets == map[a := ha, b := hb] && room.peerIds == [] && room.outbox == []
    modifies room
  {
    FirstJoin(a, b, ha, hb);
    room.OnJoin(a);
    assert room.peerIds == [a];
    assert room.outbox == [] + [Delivery(ha, Join(a, []))] + [];
  }

  /** B then joins, hears of A, and A is told that B arrived. */
  method SecondArrives(room: Room, a: PeerId, b: PeerId, ha: Handle, hb: Handle)
    requires room.Valid() && a != b && ha != hb
    requires room.sockets == map[a := ha, b := hb] && room.peerIds == [a]
    modifies room
  {
    var log := room.outbox;
    SecondJoin(a, b, ha, hb);
    room.OnJoin(b);
    assert room.peerIds == [a, b];
    assert room.outbox == log + [Delivery(hb, Join(b, [a]))] + [Delivery(ha, Add(b))];
  }

  /** B joins a second time: it keeps its place, and both the reply and
      the notice to A go out again. */
  method JoinAgain(room: Room, a: PeerId, b: PeerId, ha: Handle, hb: Handle)
    requires room.Valid() && a != b && ha != hb
    requires room.sockets == map[a := ha, b := hb] && room.peerIds == [a, b]
    modifies room
  {
    var log := room.outbox;
    SecondJoin(a, b, ha, hb);
    room.OnJoin(b);
    assert room.peerIds == [a, b];
    assert room.outbox == log + [Delivery(hb, Join(b, [a]))] + [Delivery(ha, Add(b))];
  }

  /** A signal to a joined peer reaches it with the payload untouched; a
      malformed frame and a signal to an unknown id send nothing. */
  method Exchange(room: Room, a: PeerId, b: PeerId, ha: Handle, hb: Handle)
    requires room.Valid() && a != b
    requires room.sockets == map[a := ha, b := hb] && room.peerIds == [a, b]
    requires "nonexistent" != a && "nonexistent" != b
    modifies room
  {
    var log := room.outbox;
    room.OnMessage(a, Value(Text("signal"), Text(b), Text("offer-sdp")));
    assert room.outbox == log + [Delivery(hb, Signal(a, "offer-sdp"))];
    log := room.outbox;
    room.OnMessage(a, Unparsable);
    room.OnMessage(a, Value(Text("signal"), Text("nonexistent"), Text("x")));
    assert room.outbox == log;
    room.OnSignal(b, a, "answer-sdp");
    assert room.outbox == log + [Delivery(ha, Signal(b, "answer-sdp"))];
  }

  /** When A leaves, B is told. */
  method Leave(room: Room, a: PeerId, b: PeerId, ha: Handle, hb: Handle)
    requires room.Valid() && a != b
    requires room.sockets == map[a := ha, b := hb] && room.peerIds == [a, b]
    modifies room
  {
    var log := room.outbox;
    room.OnClose(a);
    assert [a, b][..1] == [a];
    assert room.peerIds == [b];
    assert room.sockets == map[b := hb];
    assert room.outbox == log + [Delivery(hb, Remove(a))];
  }

  /** A later arrival C, joining after A left, does not hear of A. */
  method ArriveLater(room: Room, b: PeerId, c: PeerId, hb: Handle, hc: Handle)
    requires room.Valid() && b != c
    requires room.sockets == map[b := hb] && room.peerIds == [b]
    modifies room
  {
    var log := room.outbox;
    assert [c][0] !in room.sockets;
    var id := room.AllocateId([c], hc);
    assert id == c;
    room.OnJoin(c);
    assert room.peerIds == [b, c];
    assert [b, c][..1] == [b];
    assert Without([b, c], c) == [b];
    assert room.outbox[|log|] == Delivery(hc, Join(c, [b]));
  }

  /** Two ticks with no pong between them terminate the connection. */
  method Unresponsive()
  {
    var heartbeat := new Heartbeat();
    var probes := heartbeat.OnTick();
    assert probes == [Ping];
    probes := heartbeat.OnTick();
    assert probes == [Terminate, Ping];
  }
}
