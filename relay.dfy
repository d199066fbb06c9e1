/**
  The fan-out of notifications within a room: which peers a `join` or a
  close notifies, in which order, and how many messages each socket gets.
  The joined peers are kept as a sequence in insertion order, which is the
  order JavaScript's `Set` iterates in.
 */
module Relay {
  import opened Protocol

  predicate NoDuplicates(ps: seq<PeerId>)
  {
    forall i, j :: 0 <= i < j < |ps| ==> ps[i] != ps[j]
  }

  /** Dropping the last peer of a duplicate-free sequence leaves a
      duplicate-free sequence that does not hold that peer. */
  lemma LastIsNew(ps: seq<PeerId>)
    requires ps != []
    ensures ps == ps[..|ps| - 1] + [ps[|ps| - 1]]
    ensures NoDuplicates(ps) ==> NoDuplicates(ps[..|ps| - 1]) && ps[|ps| - 1] !in ps[..|ps| - 1]
  {
    var init, last := ps[..|ps| - 1], ps[|ps| - 1];
    if NoDuplicates(ps) {
      forall i | 0 <= i < |init| ensures init[i] != last {
        assert init[i] == ps[i];
      }
    }
  }

  /** Every peer of `ps` has a socket in `sockets`. */
  predicate AllIn(ps: seq<PeerId>, sockets: map<PeerId, Handle>)
  {
    forall p :: p in ps ==> p in sockets
  }

  /** Every prefix of peers with sockets has sockets. */
  lemma PrefixesAllIn(ps: seq<PeerId>, sockets: map<PeerId, Handle>)
    requires AllIn(ps, sockets)
    ensures forall i :: 0 <= i <= |ps| ==> AllIn(ps[..i], sockets)
  {
    forall i, p | 0 <= i <= |ps| && p in ps[..i] ensures p in sockets {
      var k :| 0 <= k < i && ps[..i][k] == p;
      assert ps[k] == p;
    }
  }

  /** No socket is registered under two ids. */
  predicate DistinctSockets(sockets: map<PeerId, Handle>)
  {
    forall p, q :: p in sockets && q in sockets && p != q ==> sockets[p] != sockets[q]
  }

  /** `Set.prototype.add` on an insertion-ordered set: an id already present
      keeps its place, a new one goes last. */
  function Added(ps: seq<PeerId>, x: PeerId): (r: seq<PeerId>)
    ensures forall y :: y in r <==> y in ps || y == x
    ensures NoDuplicates(ps) ==> NoDuplicates(r)
    ensures ps <= r && |r| <= |ps| + 1
    ensures x in ps ==> r == ps
  {
    if x in ps then ps else ps + [x]
  }

  /** `r` is `ps` with some of its elements dropped and the rest in their
      order. */
  predicate Subsequence(r: seq<PeerId>, ps: seq<PeerId>)
    decreases |ps|
  {
    if r == [] then true
    else if ps == [] then false
    else if r[|r| - 1] == ps[|ps| - 1] then Subsequence(r[..|r| - 1], ps[..|ps| - 1])
    else Subsequence(r, ps[..|ps| - 1])
  }

  /** The peers of `ps` other than `x`, in order: `Set.prototype.delete`,
      and `Array.from(peerIds).filter(peerId => peerId !== id)`. */
  function Without(ps: seq<PeerId>, x: PeerId): (r: seq<PeerId>)
    ensures forall y :: y in r <==> y in ps && y != x
    ensures Subsequence(r, ps)
    ensures NoDuplicates(ps) ==> NoDuplicates(r)
    ensures x !in ps ==> r == ps
    ensures |r| <= |ps|
  {
    if ps == [] then []
    else
      var init, last := ps[..|ps| - 1], ps[|ps| - 1];
      LastIsNew(ps);
      var kept := Without(init, x);
      assert kept != [] ==> kept[|kept| - 1] in kept;
      assert (kept + [last])[..|kept|] == kept && kept + [] == kept;
      kept + (if last == x then [] else [last])
  }

  /** The peers of `ps` whose socket is not `s`, in order. */
  function OtherSockets(ps: seq<PeerId>, sockets: map<PeerId, Handle>, s: Handle): (r: seq<PeerId>)
    requires AllIn(ps, sockets)
    ensures AllIn(r, sockets)
    ensures forall p :: p in r <==> p in ps && sockets[p] != s
    ensures Subsequence(r, ps)
    ensures NoDuplicates(ps) ==> NoDuplicates(r)
    ensures |r| <= |ps|
  {
    if ps == [] then []
    else
      var init, last := ps[..|ps| - 1], ps[|ps| - 1];
      LastIsNew(ps);
      var kept := OtherSockets(init, sockets, s);
      assert kept != [] ==> kept[|kept| - 1] in kept;
      assert (kept + [last])[..|kept|] == kept && kept + [] == kept;
      kept + (if sockets[last] == s then [] else [last])
  }

  /** One delivery of `m` to the socket of each peer of `ps`, in order. */
  function Fanout(ps: seq<PeerId>, sockets: map<PeerId, Handle>, m: Message): (r: seq<Delivery>)
    requires AllIn(ps, sockets)
    ensures |r| == |ps|
  {
    if ps == [] then []
    else
      var init, last := ps[..|ps| - 1], ps[|ps| - 1];
      Fanout(init, sockets, m) + [Delivery(sockets[last], m)]
  }

  /** The i-th delivery of a fan-out goes to the i-th peer's socket. */
  lemma {:induction false} FanoutAt(ps: seq<PeerId>, sockets: map<PeerId, Handle>, m: Message)
    requires AllIn(ps, sockets)
    ensures forall i :: 0 <= i < |ps| ==> Fanout(ps, sockets, m)[i] == Delivery(sockets[ps[i]], m)
  {
    if ps != [] {
      var init := ps[..|ps| - 1];
      FanoutAt(init, sockets, m);
      assert forall i :: 0 <= i < |init| ==> init[i] == ps[i];
    }
  }

  lemma OtherSocketsSnoc(ps: seq<PeerId>, p: PeerId, sockets: map<PeerId, Handle>, s: Handle)
    requires AllIn(ps + [p], sockets)
    ensures OtherSockets(ps + [p], sockets, s) == OtherSockets(ps, sockets, s) + (if sockets[p] == s then [] else [p])
  {
    assert (ps + [p])[..|ps|] == ps;
  }

  lemma FanoutSnoc(ps: seq<PeerId>, p: PeerId, sockets: map<PeerId, Handle>, m: Message)
    requires AllIn(ps + [p], sockets)
    ensures Fanout(ps + [p], sockets, m) == Fanout(ps, sockets, m) + [Delivery(sockets[p], m)]
  {
    assert (ps + [p])[..|ps|] == ps;
  }

  /** The `add` notifications a `join` by `id` sends: one to every joined
      peer whose socket is not the sender's socket. */
  function JoinBroadcast(ps: seq<PeerId>, sockets: map<PeerId, Handle>, id: PeerId): (r: seq<Delivery>)
    requires AllIn(ps, sockets) && id in sockets
    ensures |r| <= |ps|
    ensures forall d :: d in r ==> d.msg == Add(id) && d.to != sockets[id]
  {
    var others := OtherSockets(ps, sockets, sockets[id]);
    FanoutAt(others, sockets, Add(id));
    Fanout(others, sockets, Add(id))
  }

  lemma JoinBroadcastSnoc(ps: seq<PeerId>, p: PeerId, sockets: map<PeerId, Handle>, id: PeerId)
    requires AllIn(ps + [p], sockets) && id in sockets
    ensures sockets[p] == sockets[id] ==> JoinBroadcast(ps + [p], sockets, id) == JoinBroadcast(ps, sockets, id)
    ensures sockets[p] != sockets[id] ==>
      JoinBroadcast(ps + [p], sockets, id) == JoinBroadcast(ps, sockets, id) + [Delivery(sockets[p], Add(id))]
  {
    var s := sockets[id];
    var others := OtherSockets(ps, sockets, s);
    OtherSocketsSnoc(ps, p, sockets, s);
    if sockets[p] == s {
      assert others + [] == others;
      assert OtherSockets(ps + [p], sockets, s) == others;
    } else {
      assert OtherSockets(ps + [p], sockets, s) == others + [p];
      FanoutSnoc(others, p, sockets, Add(id));
    }
  }

  /** The join notices as the loop sends them: peer by peer in joining
      order, skipping each peer on the sender's socket. */
  function AddsSent(ps: seq<PeerId>, sockets: map<PeerId, Handle>, id: PeerId): seq<Delivery>
    requires AllIn(ps, sockets) && id in sockets
  {
    if ps == [] then []
    else
      var init, last := ps[..|ps| - 1], ps[|ps| - 1];
      AddsSent(init, sockets, id) + (if sockets[last] == sockets[id] then [] else [Delivery(sockets[last], Add(id))])
  }

  /** Sending peer by peer gives exactly the join broadcast. */
  lemma {:induction false} AddsSentIsBroadcast(ps: seq<PeerId>, sockets: map<PeerId, Handle>, id: PeerId)
    requires AllIn(ps, sockets) && id in sockets
    ensures AddsSent(ps, sockets, id) == JoinBroadcast(ps, sockets, id)
  {
    if ps != [] {
      var init, last := ps[..|ps| - 1], ps[|ps| - 1];
      assert ps == init + [last];
      AddsSentIsBroadcast(init, sockets, id);
      JoinBroadcastSnoc(init, last, sockets, id);
    }
  }

  /** The sockets of the peers of `ps`. */
  function HandlesOf(ps: seq<PeerId>, sockets: map<PeerId, Handle>): set<Handle>
  {
    set p | p in ps && p in sockets :: sockets[p]
  }

  lemma HandlesOfSnoc(init: seq<PeerId>, last: PeerId, sockets: map<PeerId, Handle>)
    requires AllIn(init + [last], sockets) && last !in init && DistinctSockets(sockets)
    ensures HandlesOf(init + [last], sockets) == HandlesOf(init, sockets) + {sockets[last]}
    ensures sockets[last] !in HandlesOf(init, sockets)
  {
    var ps := init + [last];
    forall h | h in HandlesOf(ps, sockets) ensures h in HandlesOf(init, sockets) || h == sockets[last] {
      var p :| p in ps && p in sockets && sockets[p] == h;
      if p != last { assert p in init; }
    }
    assert last in ps;
    forall p | p in init && p in sockets ensures sockets[p] in HandlesOf(ps, sockets) && sockets[p] != sockets[last] {
      assert p in ps;
    }
  }

  /** The number of deliveries addressed to socket `h`. */
  function Count(ds: seq<Delivery>, h: Handle): (n: nat)
    ensures n == 0 <==> forall i :: 0 <= i < |ds| ==> ds[i].to != h
    ensures n <= |ds|
  {
    if ds == [] then 0
    else
      var init, last := ds[..|ds| - 1], ds[|ds| - 1];
      assert forall i :: 0 <= i < |init| ==> init[i] == ds[i];
      Count(init, h) + (if last.to == h then 1 else 0)
  }

  /** Fanning out over duplicate-free peers with distinct sockets reaches
      the socket of each of them exactly once and no other socket. */
  lemma {:induction false} FanoutCount(ps: seq<PeerId>, sockets: map<PeerId, Handle>, m: Message, h: Handle)
    requires AllIn(ps, sockets) && NoDuplicates(ps) && DistinctSockets(sockets)
    ensures Count(Fanout(ps, sockets, m), h) == if h in HandlesOf(ps, sockets) then 1 else 0
  {
    if ps != [] {
      var init, last := ps[..|ps| - 1], ps[|ps| - 1];
      LastIsNew(ps);
      var ds := Fanout(ps, sockets, m);
      var ds' := Fanout(init, sockets, m);
      assert ds == ds' + [Delivery(sockets[last], m)];
      assert ds[..|ds| - 1] == ds';
      assert Count(ds, h) == Count(ds', h) + (if sockets[last] == h then 1 else 0);
      FanoutCount(init, sockets, m, h);
      HandlesOfSnoc(init, last, sockets);
    }
  }

  /** Excluding the sender by socket is excluding it by id when no socket
      is registered twice. */
  lemma {:induction false} OtherSocketsById(ps: seq<PeerId>, sockets: map<PeerId, Handle>, id: PeerId)
    requires AllIn(ps, sockets) && id in sockets && DistinctSockets(sockets)
    ensures OtherSockets(ps, sockets, sockets[id]) == Without(ps, id)
  {
    if ps != [] {
      OtherSocketsById(ps[..|ps| - 1], sockets, id);
    }
  }

  /** A `join` by `id` sends nothing to the sender's own socket, and, when
      sockets are distinct, exactly one `add(id)` to every other joined peer;
      those notifications are all the `add`s it sends. */
  lemma JoinNotice(ps: seq<PeerId>, sockets: map<PeerId, Handle>, id: PeerId)
    requires AllIn(ps, sockets) && NoDuplicates(ps) && id in sockets
    ensures forall d :: d in JoinBroadcast(ps, sockets, id) ==> d.msg == Add(id)
    ensures Count(JoinBroadcast(ps, sockets, id), sockets[id]) == 0
    ensures DistinctSockets(sockets) ==>
      forall p :: p in ps && p != id ==> Count(JoinBroadcast(ps, sockets, id), sockets[p]) == 1
  {
    var others := OtherSockets(ps, sockets, sockets[id]);
    FanoutAt(others, sockets, Add(id));
    if DistinctSockets(sockets) {
      forall p | p in ps && p != id
        ensures Count(JoinBroadcast(ps, sockets, id), sockets[p]) == 1
      {
        FanoutCount(others, sockets, Add(id), sockets[p]);
        assert p in others;
      }
    }
  }

  /** When `id` leaves, every peer still joined gets exactly one
      `remove(id)`, and the departed socket gets none. */
  lemma RemoveNotice(ps: seq<PeerId>, sockets: map<PeerId, Handle>, id: PeerId)
    requires AllIn(ps, sockets) && NoDuplicates(ps) && DistinctSockets(sockets)
    ensures AllIn(Without(ps, id), sockets - {id})
    ensures forall d :: d in Fanout(Without(ps, id), sockets - {id}, Remove(id)) ==> d.msg == Remove(id)
    ensures forall p :: p in Without(ps, id) ==>
      Count(Fanout(Without(ps, id), sockets - {id}, Remove(id)), sockets[p]) == 1
    ensures id in sockets ==>
      Count(Fanout(Without(ps, id), sockets - {id}, Remove(id)), sockets[id]) == 0
  {
    var rest, remaining := Without(ps, id), sockets - {id};
    assert DistinctSockets(remaining);
    FanoutAt(rest, remaining, Remove(id));
    forall p | p in rest
      ensures Count(Fanout(rest, remaining, Remove(id)), sockets[p]) == 1
    {
      FanoutCount(rest, remaining, Remove(id), sockets[p]);
    }
    if id in sockets {
      FanoutCount(rest, remaining, Remove(id), sockets[id]);
    }
  }
}
