# Chat relay: membership registry and event handlers

A model of the core of a small socket.io chat server. The server keeps an
in-memory registry, `users`: a JavaScript `Map` from socket id to
`{id, username}`. It handles three events per socket:

- `join(username)` stores the entry, puts the socket in the `"chat"` room,
  tells every other connected socket (`userJoined`) and sends the joiner the
  roster (`users`).
- `message({username, message})` relays the payload to the `"chat"` room,
  with a fresh id and timestamp added.
- `disconnect` drops the entry, if there is one, and tells every remaining
  socket (`userLeft`).

The model is a sequential state machine. Handlers run one at a time and
each runs to completion. A `State` holds the connected sockets, the sockets
in the `"chat"` room and the registry. Each handler is a pure function that
returns the next state and the list of emissions it makes. An emission is a
recipient set, an event name and a payload.

Files:

- `wrappers.dfy`: `Option`, which stands for a lookup that finds nothing.
- `ordered_map.dfy` (module `OrderedMap`): the JavaScript `Map` operations
  the server uses, with insertion order. `Array.from(users.values())` is
  therefore a definite sequence. Re-setting a key keeps its place; deleting a
  key removes its place.
- `chat_server.dfy` (module `ChatServer`): the entities, the four transitions
  and the event dispatcher.
- `chat_laws.dfy` (module `ChatLaws`): properties of one handler run. These
  are the state invariant, what the snapshots contain, and how join and
  disconnect undo or overwrite each other.
- `chat_trace.dfy` (module `ChatTrace`): runs over whole event sequences.
  Here the registry is compared with a definition read off the events alone:
  a socket is registered exactly when it has sent `join` and has not
  disconnected since. This module also has the two-user scenario.

Transport assumptions built into the model:

- `socket.emit` reaches the sender only.
- `socket.broadcast.emit` reaches every connected socket except the sender.
  That includes sockets that have not joined.
- `io.to("chat").emit` reaches exactly the room.
- socket.io removes a disconnecting socket from the namespace and from all
  its rooms before the `disconnect` handler runs. This is library behaviour.
  The model assumes it; nothing here verifies it.

`message` is sent with `io.to("chat")` (server.js:53), so it reaches only
sockets that have joined. A sender that has not joined does not receive its
own message.

## Model

| member | source | states |
|---|---|---|
| `OrderedMap.Empty` | server.js:21 | a new `Map` has size 0 and no key has a value |
| `OrderedMap.Get` | server.js:58 | `get(k)` finds a value exactly when `k` is present, and then it is the value stored under `k`; otherwise it is `undefined` (`None`) |
| `OrderedMap.Set` | server.js:32 | after `set(k, v)`, `k` maps to `v` and every other key keeps its value; the size grows by one only for a new key; a new key goes last in iteration order and an existing key keeps its place |
| `OrderedMap.Delete` | server.js:60 | after `delete(k)`, `k` is absent and every other key keeps its value; the size drops by one only if `k` was present; deleting a missing key changes nothing; only `k`'s slot leaves the iteration order |
| `OrderedMap.Values` | server.js:37 | `Array.from(values())` has one element per entry, in key insertion order; a value appears in it iff some key maps to it |
| `OrderedMap.SetTwice` | server.js:32 | setting the same key twice gives the same map as setting it once to the second value |
| `OrderedMap.DeleteUndoesSet` | server.js:32-60 | deleting a key that was just added gives back the original map, iteration order included |
| `ChatServer.Init` | server.js:21 | at start-up no socket is connected, the room is empty and the registry is empty |
| `ChatServer.OnConnect` | server.js:23-24 | a connection adds exactly its socket to the connected set; room and registry are untouched |
| `ChatServer.OnJoin` | server.js:26-43 | the socket maps to `{id: c, username}` and all other entries are unchanged; the username is not checked; a re-join does not grow the registry; the socket enters the room; `userJoined` goes to every other connected socket and `users` goes to the joiner alone; both carry the same snapshot, which is the post-insert registry and contains the joiner |
| `ChatServer.OnMessage` | server.js:45-55 | state unchanged; one `message` emission to exactly the room; its `username` and `message` are the payload's fields; `id` and `timestamp` are the clock values passed in |
| `ChatServer.OnDisconnect` | server.js:57-67 | the socket leaves the namespace and the room; a socket with no entry leaves the registry unchanged and emits nothing; a registered socket loses exactly its entry, and one `userLeft` with the removed user's name and the post-delete registry goes to every other connected socket |
| `ChatServer.Step` | server.js:23-68 | a connect emits nothing; only a join can add a registry key; only a disconnect can remove one |
| `ChatLaws.InitConsistent` | server.js:21 | the start state satisfies the invariant: the room equals the registry's key set, each entry's id is its key, and the room is inside the connected set |
| `ChatLaws.StepPreservesConsistent` | server.js:26-67 | every handler keeps the room equal to the registry's key set and every entry's id equal to its key |
| `ChatLaws.StepKeepsRoomConnected` | server.js:23-67 | if events only come from connected sockets, the room stays inside the connected set |
| `ChatLaws.SnapshotOnePerConnection` | server.js:37 | in a consistent state a user is in the snapshot iff the registry stores it under its own id, and no id appears twice |
| `ChatLaws.JoinSnapshotHasJoiner` | server.js:32-40 | the join snapshot lists the joiner with the new name, and every other user listed is unchanged from before |
| `ChatLaws.LeaveSnapshotExcludesLeaver` | server.js:58-64 | the `userLeft` snapshot lists exactly the registered users other than the leaver |
| `ChatLaws.RejoinOverwrites` | server.js:27-33 | joining twice from one socket gives the same state as joining once with the second name, and the second join does not grow the registry |
| `ChatLaws.JoinThenDisconnect` | server.js:26-64 | a disconnect after a first join restores the registry exactly and emits one `userLeft` with the joiner's name to the other connected sockets |
| `ChatLaws.MessageIgnoresRegistry` | server.js:45-53 | the relayed message depends only on the room and the payload, never on which names are registered |
| `ChatLaws.SenderHearsOwnMessageIffJoined` | server.js:33-53 | in a consistent state the sender is among the message's recipients iff it is registered |
| `ChatTrace.Replay` | server.js:23-68 | events are handled one at a time, each to completion, with emissions collected in order; no event makes more than two emissions, and connects alone make none |
| `ChatTrace.InPhaseSnoc` | server.js:23-60 | one more event puts a socket in a phase if it starts that phase, takes it out if it is that socket's disconnect, and otherwise changes nothing |
| `ChatTrace.ReplayTracksPhases` | server.js:23-60 | after any event sequence from start-up the state is consistent; a socket is registered iff it sent `join` and has not disconnected since; a socket is connected iff it connected and has not disconnected since |
| `ChatTrace.AdmissibleRegisteredAreConnected` | server.js:23-60 | if every event comes from a connected socket, every socket in the room and every registered socket is connected |
| `ChatTrace.MessageReachesJoined` | server.js:33-53 | after any event sequence, a message reaches exactly the sockets that joined and have not disconnected since |
| `ChatTrace.DisconnectWithoutJoinIsSilent` | server.js:57-59 | a disconnect from a socket that has no current join emits nothing and leaves the registry unchanged |
| `ChatTrace.NeverJoinedNotRegistered` | server.js:32 | a socket that never sent `join` is not registered, whatever else it sent |
| `ChatTrace.DistinctJoinsCount` | server.js:23-32 | over any sequence of connects, joins and messages in which no socket disconnects and no socket joins twice, the registry has one entry per `join` event and every joined socket is registered |
| `ChatTrace.ReplaySnoc` | server.js:23-68 | replaying one more event carries on from the state and emissions of the shorter replay |
| `ChatTrace.BothConnect` | server.js:23-24 | two connections emit nothing and leave both sockets connected, with an empty room and registry |
| `ChatTrace.AliceJoins` | server.js:26-40 | with A and B connected and nobody joined, alice's join sends `userJoined{alice, [alice]}` to B and `users [alice]` to A |
| `ChatTrace.BobJoins` | server.js:26-40 | bob's join then sends `userJoined{bob, [alice, bob]}` to A and `users [alice, bob]` to B |
| `ChatTrace.BobLeaves` | server.js:57-64 | bob's disconnect then sends `userLeft{bob, [alice]}` to A and leaves alice alone in the registry |
| `ChatTrace.AliceThenBobJoin` | server.js:23-43 | two connects and two joins leave both in the room and emit the four join notifications in order |
| `ChatTrace.AliceAndBob` | server.js:23-67 | the whole two-user scenario (connect, join, join, message, disconnect) emits exactly six emissions; the message goes to both A and B |

## Left out

- Express setup, static file serving, the `/` route and the CORS options (server.js:1-19) are HTTP plumbing.
- `console.log` calls (server.js:24, 42, 54, 65) and `server.listen` with the `PORT` lookup (server.js:70-74) are I/O.
- `Date.now().toString()` and `new Date()` (server.js:47, 50) read the clock. They are passed in as parameters of the `Send` event and never inspected.
- The socket.io transport itself is not modelled. Recipient selection is abstracted as sets. Room cleanup on disconnect is an assumption, as stated above.
- Payload shapes: JavaScript accepts any value as `username` or as the `message` payload. The model takes strings. A missing `data` object, which would make the handler throw, is not modelled.
- How socket ids are generated is not modelled. The model does not assume ids are fresh, and a re-used id behaves as the code would treat it.
- Concurrency: none exists. Handlers run one after another, and each emission list is in the order the handler calls `emit`.
