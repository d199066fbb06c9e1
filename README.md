# WebRTC signaling relay — a Dafny model

The relay accepts WebSocket connections on `/<room>`. It gives each
connection a peer id that is unique in its room. It then relays three kinds of
traffic inside the room:

- `join`: the joining client learns the ids that joined before it, and those
  peers are told that it arrived;
- `signal`: an opaque payload addressed to one joined peer;
- `remove`: sent to the remaining joined peers when a connection closes.

A heartbeat terminates connections that stop answering pings. The whole
server is the connection handler in `index.js`.

The model keeps the source's imperative form:

- `Rooms.Room` is a class with the room's `sockets` map, its joined
  `peerIds` and an `outbox` of every `send` made in the room. Each handler
  of the source is one method.
- `Server.Registry` holds the map from room key to room, created lazily.
- `Liveness.Heartbeat` holds one connection's `isAlive` flag.

Pure specification functions sit beside the classes:

- `Paths`: the pathname split and filter;
- `Protocol`: frames, messages and how a frame is read;
- `Relay`: who a broadcast reaches, in which order, and how often.

The lemmas are stated over those functions. `Scenarios` verifies the
two-client "lobby" exchange, a repeated join, a departure and a missed pong
from the method contracts alone.

Modelling choices:

- A socket is a `Handle`. Two handles are the same socket exactly when they
  are equal, standing in for JavaScript's `===` on socket objects.
- `peerIds` is a duplicate-free sequence in insertion order, because a
  JavaScript `Set` iterates in that order. The reply list and the broadcast
  loops follow it.
- Each handler is one atomic method. This matches the single-threaded event
  loop, in which handlers never interleave.
- The code keeps two registries, `socketsPerPath` and `peerIdsPerPath`. Both
  are filled together under the same key and never emptied, so the model
  keeps one map from key to `Room`.
- The two `for…of` loops over `peerIds` are the methods `Rooms.JoinNotices`
  and `Rooms.CloseNotices`. Each collects the deliveries its loop makes, and
  the handler appends them to the outbox. Nothing runs in between, so this
  is the same as sending inside the loop.

## Model

| member | source | states |
|---|---|---|
| `Paths.Split` | index.js:14 | `split("/")` gives at least one part, and no part contains '/' |
| `Paths.JoinSplit` | index.js:14 | joining the parts of a split with '/' gives the pathname back |
| `Paths.SplitJoin` | index.js:14 | splitting the join of '/'-free parts gives the parts back, so split is a bijection onto such part lists |
| `Paths.NonEmpty` | index.js:14 | the filter keeps exactly the non-empty parts, each as often as it occurs, and drops every empty one |
| `Paths.Segments` | index.js:14 | the segments are '/'-free and non-empty, and every non-empty part of the split is among them |
| `Paths.RoomKey` | index.js:14-16 | an accepted room key is non-empty and free of '/' |
| `Paths.RoomKeyShape` | index.js:14-16 | a pathname names room k if and only if it is k, non-empty and '/'-free, between any runs of slashes; every other pathname is rejected |
| `Protocol.Decode` | index.js:47-63 | a frame is a join exactly when its `type` is the string "join"; it is a signal exactly when `type` is "signal" and `to` and `data` are strings, carrying both unchanged; parse failures and every other frame are skipped |
| `Protocol.DecodeAsWritten` | index.js:47-63 | the reading as the code has it throws exactly on the frame `null`, and skips a frame that does not parse |
| `Protocol.NullFrameThrows` | index.js:47-75 | the frame `null` throws out of the message loop as written, where the corrected reading skips it |
| `Protocol.DecodeAgreesOnOtherFrames` | index.js:47-63 | on every frame except `null`, the code as written and the corrected reading agree |
| `Relay.Added` | index.js:55 | `peerIds.add(id)` keeps the old order, contains exactly the old ids and `id`, keeps ids unique, and changes nothing when `id` already joined |
| `Relay.Without` | index.js:56 | the reply list and `peerIds.delete(id)` hold exactly the ids other than `id`, in their old order, and stay duplicate-free |
| `Relay.OtherSockets` | index.js:57-58 | the join loop's targets are exactly the joined peers whose socket is not the sender's, in joining order |
| `Relay.Fanout` | index.js:57-59 | a broadcast sends exactly one message per target |
| `Relay.FanoutAt` | index.js:57-59 | the i-th message of a broadcast goes to the socket of the i-th target, so targets are served in joining order |
| `Relay.JoinBroadcast` | index.js:57-59 | a join sends no more notices than there are joined peers, each an `add(id)`, and none to the sender's socket |
| `Relay.AddsSentIsBroadcast` | index.js:57-59 | sending peer by peer in joining order, skipping peers on the sender's socket, gives exactly the join broadcast |
| `Relay.FanoutCount` | index.js:70-71 | with duplicate-free peers and distinct sockets, every target's socket gets exactly one message and no other socket gets any |
| `Relay.OtherSocketsById` | index.js:58 | excluding the sender by socket identity is the same as excluding it by id when no socket is registered twice |
| `Relay.JoinNotice` | index.js:57-60 | a join sends only `add(id)` notices and none to the sender's socket; with distinct sockets every other joined peer gets exactly one |
| `Relay.RemoveNotice` | index.js:67-72 | with duplicate-free peers and distinct sockets, a close sends only `remove(id)` notices, exactly one to every peer still joined and none to the departed socket |
| `Rooms.Room.constructor` | index.js:18-19 | a new room has no sockets, no joined ids and no messages sent |
| `Rooms.Room.AllocateId` | index.js:24-27 | the id is the first candidate not already connected; the socket is registered under it and every other entry, the joined ids and the outbox are unchanged; `peerIds ⊆ keys(sockets)` is kept |
| `Rooms.Room.OnJoin` | index.js:54-60 | `peerIds` becomes the old ids plus the sender, unchanged on a repeated join; the sender gets the joined ids minus itself; then comes the `add` broadcast; sockets are unchanged and the invariant is kept |
| `Rooms.JoinNotices` | index.js:57-60 | the join loop sends exactly the join broadcast: `add(id)` to every joined peer on another socket, in joining order |
| `Rooms.CloseNotices` | index.js:69-71 | the close loop sends `remove(id)` to the socket of every remaining joined peer, in joining order |
| `Rooms.Room.OnSignal` | index.js:61-63 | a signal to a joined peer appends one `signal(from = sender, data)` to that peer's socket; any other signal changes nothing |
| `Rooms.Room.OnMessage` | index.js:46-64 | dispatches on the decoded frame; a skipped frame leaves sockets, joined ids and outbox unchanged |
| `Rooms.Room.OnClose` | index.js:67-72 | the id is in neither collection afterwards, the others are unchanged, every remaining joined peer is sent `remove(id)` in order, and the invariant and distinct sockets are kept |
| `Liveness.TickProbes` | index.js:33-35 | a tick makes one ping when the flag was set, and a termination followed by one ping when it was clear |
| `Liveness.AliveAfter` | index.js:31-34 | an empty run leaves the flag as it was; after a non-empty run of ticks and pongs it is set exactly when the last event was a pong |
| `Liveness.Probes` | index.js:30-36 | a run pings exactly when it holds a tick, and terminates only then |
| `Liveness.ProbesAppend` | index.js:30-36 | two consecutive runs behave as one run, the second starting from the flag the first left |
| `Liveness.TerminatedIffMissedPong` | index.js:30-36 | a run terminates the connection if and only if two ticks follow each other with no pong between them, or, from a clear flag, the first event is a tick |
| `Liveness.Heartbeat.constructor` | index.js:30 | a connection starts alive |
| `Liveness.Heartbeat.OnPong` | index.js:31 | a pong sets the flag |
| `Liveness.Heartbeat.OnTick` | index.js:32-36 | a tick makes the calls of one step of the run, and leaves the flag cleared |
| `Server.Registry.constructor` | index.js:9-10 | the process starts with no rooms |
| `Server.Registry.GetOrCreate` | index.js:18-21 | an unseen key gets a fresh empty room; a known key returns its room, and the registry is left unchanged |
| `Server.Registry.Connect` | index.js:12-27 | a pathname without exactly one segment is rejected and nothing changes; otherwise the connection joins the room its key names under the first free candidate id, no other room changes, and its heartbeat starts alive |

## Left out

- The WebSocket server, the `connection`, `pong` and `close` event wiring,
  and the `URL` built from the host header are transport plumbing. Only the
  pathname string is modelled.
- `nanoid` is a foreign random generator. It becomes the `candidates`
  sequence. `AllocateId` and `Connect` require that some candidate is free in
  the room. With 21-character ids this always holds in practice; the source
  would loop forever otherwise.
- `JSON.parse` and `JSON.stringify` are the codec. An inbound frame is the
  `Frame` its parse would give. An outbound message is a `Message` value, not
  its text.
- The async iteration of `events.on`, the `AbortController` and the
  `AbortError` test are cancellation mechanics. A close is the explicit
  `Room.OnClose` call. Faults other than the one under Findings are not
  modelled. One of them takes the same path: an `error` event on the
  socket makes the iterator of line 44 throw something other than an
  AbortError, so the cleanup at lines 68-72 is skipped as well.
- `setInterval` and `clearInterval` are not modelled, and neither are the
  effects of `socket.ping()` and `socket.terminate()`. A tick returns the
  calls it makes as `Probe`s. A termination reaches the room as the close it
  causes.
- `console.log` is logging only.
- Strings are Dafny strings of Unicode scalar values. A JSON string with an
  unpaired surrogate, which JavaScript accepts and relays as `data` or `to`,
  cannot be represented as a `Field`, so such frames are outside the model.
- Interleaving across connections is left out, since every handler runs
  atomically on the event loop.
- Send failures on a closed socket are left out; every `send` is a delivery
  in the outbox.
- `Rooms.Room.AllocateId` and `Server.Registry.Connect` do not require the new
  socket to be distinct from the room's sockets. The transport always hands a
  fresh socket object to each connection. Distinct sockets are kept as a
  separate predicate (`DistinctSockets`), preserved when the new handle is
  new. This keeps the join loop's exclusion by socket identity visible.

## Findings

| source | as written | input that shows it | evidently intended | confidence | as-written member | corrected member |
|---|---|---|---|---|---|---|
| index.js:48-54, 66-75 | `JSON.parse` succeeds on the text `null`, and `message.type` then throws a TypeError. The catch at line 66 rethrows it because it is not an AbortError. So the message loop ends, the close cleanup at lines 68-72 never runs for that connection, and its id stays in `sockets` and `peerIds`. The rejection then leaves the connection handler unhandled: `wss.on` ignores the promise of the `async` listener. On Node.js 15 and later an unhandled rejection ends the process, and every room goes with it. | a client sends the text frame `null` | a frame that carries no request is silently skipped and the connection goes on, as for a parse error | high for the TypeError and the skipped cleanup; not executed | `Protocol.DecodeAsWritten`, `Protocol.NullFrameThrows` | `Protocol.Decode` (used by `Rooms.Room.OnMessage`) |
