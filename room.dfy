/**
  One room of the relay: the sockets of its connected peers, the ids that
  have joined, and the messages sent so far. Each handler runs to completion
  before any other, as the event loop runs them.
 */
module Rooms {
  import opened Protocol
  import opened Relay

  /** The loop of a `join` by `id`: `add(id)` for the socket of each peer
      of `ps`, in joining order, skipping every peer whose socket is the
      sender's. */
  method JoinNotices(ps: seq<PeerId>, sockets: map<PeerId, Handle>, id: PeerId) returns (sent: seq<Delivery>)
    requires AllIn(ps, sockets) && id in sockets
    ensures sent == JoinBroadcast(ps, sockets, id)
  {
    var socket := sockets[id];
    PrefixesAllIn(ps, sockets);
    sent := [];
    for i := 0 to |ps|
      invariant sent == AddsSent(ps[..i], sockets, id)
    {
      var peerId := ps[i];
      assert ps[..i + 1][..i] == ps[..i];
      if sockets[peerId] == socket {
        continue;
      }
      sent := sent + [Delivery(sockets[peerId], Add(id))];
    }
    assert ps[..|ps|] == ps;
    AddsSentIsBroadcast(ps, sockets, id);
  }

  /** The loop of a close of `id`: `remove(id)` for the socket of each
      peer of `ps`, in joining order. */
  method CloseNotices(ps: seq<PeerId>, sockets: map<PeerId, Handle>, id: PeerId) returns (sent: seq<Delivery>)
    requires AllIn(ps, sockets)
    ensures sent == Fanout(ps, sockets, Remove(id))
  {
    sent := [];
    for i := 0 to |ps|
      invariant sent == Fanout(ps[..i], sockets, Remove(id))
    {
      var peerId := ps[i];
      assert ps[..i + 1] == ps[..i] + [peerId];
      FanoutSnoc(ps[..i], peerId, sockets, Remove(id));
      sent := sent + [Delivery(sockets[peerId], Remove(id))];
    }
    assert ps[..|ps|] == ps;
  }

  class Room {
    /** Peer id to socket, for every connected peer of the room. */
    var sockets: map<PeerId, Handle>
    /** The ids that have joined, in the order they joined. */
    var peerIds: seq<PeerId>
    /** Every `send` made in this room so far, oldest first. */
    var outbox: seq<Delivery>

    /** Every joined id is connected, and none is listed twice. */
    ghost predicate Valid()
      reads this
    {
      AllIn(peerIds, sockets) && NoDuplicates(peerIds)
    }

    /** A room as first created for an unseen path. */
    constructor ()
      ensures Valid()
      ensures sockets == map[] && peerIds == [] && outbox == []
    {
      sockets, peerIds, outbox := map[], [], [];
    }

    /** Draws candidate ids until one is not already connected, then
        registers `socket` under it. `candidates` stands for the successive
        values of the random id generator. */
    method AllocateId(candidates: seq<PeerId>, socket: Handle) returns (id: PeerId)
      requires Valid()
      requires exists k :: 0 <= k < |candidates| && candidates[k] !in sockets
      modifies this
      ensures Valid()
      ensures id !in old(sockets)
      ensures exists k :: 0 <= k < |candidates| && candidates[k] == id &&
                          (forall j :: 0 <= j < k ==> candidates[j] in old(sockets))
      ensures sockets == old(sockets)[id := socket]
      ensures peerIds == old(peerIds) && outbox == old(outbox)
      ensures DistinctSockets(old(sockets)) && socket !in old(sockets).Values ==> DistinctSockets(sockets)
    {
      var i := 0;
      id := candidates[0];
      while id in sockets
        invariant 0 <= i < |candidates| && id == candidates[i]
        invariant forall j :: 0 <= j < i ==> candidates[j] in sockets
        invariant exists k :: i <= k < |candidates| && candidates[k] !in sockets
        decreases |candidates| - i
      {
        i := i + 1;
        id := candidates[i];
      }
      sockets := sockets[id := socket];
    }

    /** A `join` from `id`: the id joins, the sender gets the other joined
        ids, and every joined peer on another socket gets `add(id)`. A peer
        that joins again stays where it was and is sent both again. */
    method OnJoin(id: PeerId)
      requires Valid() && id in sockets
      modifies this
      ensures Valid()
      ensures sockets == old(sockets)
      ensures peerIds == Added(old(peerIds), id)
      ensures outbox == old(outbox) + [Delivery(sockets[id], Join(id, Without(peerIds, id)))]
                       + JoinBroadcast(peerIds, sockets, id)
    {
      if id !in peerIds {
        peerIds := peerIds + [id];
      }
      outbox := outbox + [Delivery(sockets[id], Join(id, Without(peerIds, id)))];
      var notices := JoinNotices(peerIds, sockets, id);
      outbox := outbox + notices;
    }

    /** A valid `signal` from `id` to `to`: relayed to the socket of `to`,
        with `from` set to the sender, when `to` has joined; dropped
        otherwise. */
    method OnSignal(id: PeerId, to: PeerId, data: string)
      requires Valid() && id in sockets
      modifies this
      ensures Valid()
      ensures sockets == old(sockets) && peerIds == old(peerIds)
      ensures to in peerIds ==>
                to in sockets && outbox == old(outbox) + [Delivery(sockets[to], Signal(id, data))]
      ensures to !in peerIds ==> outbox == old(outbox)
    {
      if to in peerIds {
        var dest := sockets[to];
        outbox := outbox + [Delivery(dest, Signal(id, data))];
      }
    }

    /** One inbound frame from connected peer `id`. A frame that parses to
        no request, a `signal` with a missing or non-string `to` or `data`,
        and a `signal` to a peer that has not joined change nothing. */
    method OnMessage(id: PeerId, frame: Frame)
      requires Valid() && id in sockets
      modifies this
      ensures Valid()
      ensures sockets == old(sockets)
      ensures Decode(frame).Skip? ==> peerIds == old(peerIds) && outbox == old(outbox)
      ensures Decode(frame).JoinRequest? ==>
        peerIds == Added(old(peerIds), id) &&
        outbox == old(outbox) + [Delivery(sockets[id], Join(id, Without(peerIds, id)))]
                 + JoinBroadcast(peerIds, sockets, id)
      ensures Decode(frame).SignalRequest? ==>
        var to, data := frame.to.s, frame.data.s;
        peerIds == old(peerIds) &&
        outbox == old(outbox) + (if to in peerIds then [Delivery(sockets[to], Signal(id, data))] else [])
    {
      match Decode(frame)
      case Skip =>
      case JoinRequest => OnJoin(id);
      case SignalRequest(to, data) => OnSignal(id, to, data);
    }

    /** The connection of `id` closed: it leaves both collections, then every
        peer still joined gets `remove(id)`, whether or not `id` had joined. */
    method OnClose(id: PeerId)
      requires Valid()
      modifies this
      ensures Valid()
      ensures id !in sockets && id !in peerIds
      ensures sockets == old(sockets) - {id}
      ensures peerIds == Without(old(peerIds), id)
      ensures outbox == old(outbox) + Fanout(peerIds, sockets, Remove(id))
      ensures DistinctSockets(old(sockets)) ==> DistinctSockets(sockets)
    {
      peerIds := Without(peerIds, id);
      sockets := sockets - {id};
      assert DistinctSockets(old(sockets)) ==> DistinctSockets(sockets) by {
        if DistinctSockets(old(sockets)) {
          forall p, q | p in sockets && q in sockets && p != q ensures sockets[p] != sockets[q] {
            assert sockets[p] == old(sockets)[p] && sockets[q] == old(sockets)[q];
          }
        }
      }
      var notices := CloseNotices(peerIds, sockets, id);
      outbox := outbox + notices;
    }
  }
}
