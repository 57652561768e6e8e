# Presence and signalling relay — a Dafny model

This project models the core of a small WebRTC signalling server: the
Socket.IO handlers in `server.js` that keep track of who is in which room and
relay connection-negotiation messages between peers.

The server keeps two in-memory maps:

- `connectedUsers`: socket id → `{username, roomId}`. Here it is `State.users`, the registry.
- `rooms`: room id → the set of socket ids in that room. Here it is `State.rooms`, the directory.

Each socket event handler is modelled as a pure function. It takes the state,
the sending connection and the event, and returns the next state together with
the outbound envelopes it emits. An envelope is a set of recipients plus an
event. The handlers are:

- `join`: `Router.OnJoin`.
- `offer`/`answer`/`iceCandidate`: `Router.OnSignal`.
- `disconnect`: `Router.OnDisconnect`.

`Router.Handle` dispatches over the closed variant type `Events.Inbound`.
`Router.Run` folds `Handle` over a sequence of deliveries. This matches Node,
which runs each handler to completion before it starts the next. The
`/api/rooms` projection is `RoomListing.ListRooms`.

Modules:

| module | file | what it holds |
|---|---|---|
| `Members` | members.dfy | JavaScript `Set` semantics on duplicate-free sequences: `Add` appends if absent, `Remove` filters, insertion order kept |
| `Presence` | presence.dfy | `User`, `State`, the empty state, and the invariant `Valid`: no empty rooms, no duplicates, registry and directory agree both ways |
| `Directory` | directory.dfy | the two mutations of the `rooms` map: add an id, creating the room if needed; remove an id, deleting the room once it is empty |
| `Events` | events.dfy | inbound events, outbound events, roster entries, envelopes |
| `Router` | router.dfy | the handlers, dispatch, and runs |
| `Invariants` | invariants.dfy | what each handler does to `Valid`, idempotence, the rejoin caveat, the whole-run theorem |
| `RoomListing` | listing.dfy | the room report |
| `Scenarios` | scenarios.dfy | short runs from the empty state, for arbitrary distinct ids, each proved through the explicit states it passes through |

Transport rooms are abstract:

- `socket.to(roomId).emit(...)` reaches the members the directory lists for `roomId`, minus the sender.
- `socket.to(target).emit(...)` is modelled as reaching `target` if it is in `live`, the set of open transport connections, and is not the sender. Socket.IO's `to` never delivers back to the sending socket. In Socket.IO the target names a room, which may also be a room clients joined; that case is left out (see below).
- An envelope is only produced when its recipient set is non-empty, because an emit to nobody delivers nothing.

Room member sets are sequences because a JavaScript `Set` iterates in insertion
order. So the roster a joiner receives, `Array.from(rooms.get(roomId))`, has a
definite order, and the model keeps it.

The central invariant, registry and directory agreeing with each other, holds
only while no connection joins a second, different room. A second `join`
overwrites the registry record but never takes the id out of its earlier room
(server.js:38-39). `Invariants.JoinKeepsValid` therefore requires the joiner
to be unregistered or to rejoin the same room. `Invariants.RejoinElsewhereBreaksValidity`
shows that the invariant fails otherwise. `Scenarios.StaleMemberHasNoName`
shows the effect a client can see: a later joiner of the first room receives
a roster entry for the departed id with no username.

Two behaviours of `server.js` that a reader might not expect, and that the model keeps as written:

- The roster does not filter members that are missing from the registry. Each id is mapped to `connectedUsers.get(id)?.username`, which can be `undefined`; the model has `None` (server.js:50-55).
- A relay target is not validated as non-empty or as sharing a room with the sender (server.js:63-82). In the model it is delivered when it names an open connection other than the sender. In the source a target naming a room someone joined also reaches that room's members; that case is not modelled (see Router.OnSignal under Left out).

## Model

| member | source | states |
|---|---|---|
| Members.Add | server.js:38 | `Set.add`: the result holds exactly the old elements plus the new one; adding a present id leaves the set unchanged; adding an absent one appends it; no duplicates are introduced |
| Members.Remove | server.js:50-51 | `filter(id => id !== socket.id)` and `Set.delete`: the result holds exactly the elements other than the removed one; removing an absent id changes nothing; no duplicates are introduced |
| Members.RemoveKeepsOrder | server.js:92 | `Set.delete` of a member at position k leaves the members before it and after it in their insertion order, with just that gap; the same holds for the `filter` at server.js:51 |
| Members.RemoveSize | server.js:92 | deleting a present member from a duplicate-free room shrinks it by exactly one |
| Members.DistinctCount | server.js:119 | for a duplicate-free member sequence, its length is the number of distinct members, which is what `Set.size` reports |
| Presence.EmptyIsValid | server.js:21-22 | the initial state, with both maps empty, satisfies the consistency invariant |
| Presence.ValidMembersAreUsers | server.js:21-22 | in a consistent state, an id is registered exactly when some room lists it |
| Directory.AddMember | server.js:33-38 | the room exists afterwards and holds exactly its previous members plus the id; a room created here holds just the id; re-adding a present id changes nothing; no room other than this one changes |
| Directory.RemoveMember | server.js:91-97 | an unknown room is left alone; otherwise the room keeps exactly its members other than the id; it is deleted exactly when nothing else was in it; a room that survives is non-empty and lists its remaining members in their previous order (see Members.RemoveKeepsOrder); no other room changes |
| Router.Broadcast | server.js:44-47 | `socket.to(roomId).emit`: at most one envelope; it exists exactly when someone other than the sender is listed; it reaches exactly the listed members other than the sender |
| Router.Roster | server.js:52-55 | one entry per id, in the given order, each with the name the registry holds for it, or none when it holds none |
| Router.OnJoin | server.js:29-60 | the joiner is recorded under `{username, roomId}` and no other record changes; the room exists afterwards and holds exactly its previous members plus the joiner (unchanged if already present); other rooms are unchanged; `userJoined {joiner, username}` goes exactly to the other members, never the joiner, and only if there are any; the joiner alone gets a roster naming exactly the other members, each with its looked-up name, one fewer than the room size |
| Router.OnSignal | server.js:63-82 | the state is untouched; at most one envelope; it exists exactly when the target is an open connection other than the sender; it is addressed to the target only and carries the same kind, the unchanged payload and `from` = sender |
| Router.OnDisconnect | server.js:85-108 | an unregistered id changes nothing and emits nothing; otherwise the id's record goes and no other record changes; the id leaves its room; the room is deleted exactly when the id was its last member; no other room changes; `userLeft` goes exactly to the members still in the room, never to the leaver, and only if there are any |
| Router.Handle | server.js:25-108 | no handler touches another connection's record; only `join` can add a record; relay leaves the state alone; every emitted event names its sender as subject, and only the roster is ever delivered back to the sender |
| Invariants.AddKeepsRoomsWellFormed | server.js:33-38 | adding an id to a room keeps every room non-empty and duplicate-free |
| Invariants.AddKeepsUsersInTheirRooms | server.js:38-39 | after add and record, every registered id is listed in the room its record names |
| Invariants.AddKeepsMembersRegistered | server.js:38-39 | after add and record, every listed id is registered under that room, provided the joiner was unregistered or rejoins the same room |
| Invariants.JoinKeepsRoomsWellFormed | server.js:33-39 | join never leaves an empty room and never duplicates a member, whatever the state's consistency |
| Invariants.JoinKeepsValid | server.js:33-39 | a join from an unregistered connection, or a rejoin of the same room, keeps registry and directory consistent |
| Invariants.RejoinElsewhereBreaksValidity | server.js:38-39 | a registered connection joining a different room stays listed in its old room while its record names the new one, so consistency fails |
| Invariants.JoinRosterIsPreviousMembers | server.js:50-55 | when every listed member is registered, a new joiner's roster is exactly the room's previous members in join order, each with a username |
| Invariants.FreshJoin | server.js:33-57 | a joiner not yet in the room is appended to it and recorded; the previous members are announced its arrival; it receives them as its roster |
| Invariants.DisconnectKeepsValid | server.js:88-104 | disconnect preserves consistency and keeps all rooms non-empty |
| Invariants.DisconnectKeepsRoomsWellFormed | server.js:88-97 | disconnect never leaves an empty room and never duplicates a member, whatever the state's consistency: a room the leaver empties is deleted |
| Invariants.RemoveKeepsRoomsWellFormed | server.js:91-97 | removing an id from a room and dropping a record keeps every room non-empty and duplicate-free |
| Invariants.RemoveKeepsUsersInTheirRooms | server.js:91-104 | after the leaver's removal, every remaining registered id is still listed in its room, because that room cannot have been deleted |
| Invariants.RemoveKeepsMembersRegistered | server.js:91-104 | after the leaver's removal, every listed id is still registered under its room |
| Invariants.DisconnectNotifiesRoomMates | server.js:101 | in a consistent state, `userLeft` reaches exactly the leaver's former room mates |
| Invariants.DisconnectTwiceIsNoOp | server.js:86-87 | a second disconnect of the same id leaves the state unchanged and emits nothing |
| Invariants.SignalIgnoresState | server.js:63-82 | relay output does not depend on rooms or registry: there is no room-membership check on the target |
| Invariants.HandleKeepsValid | server.js:29-108 | any dispatched event keeps the state consistent, unless it is a join into a different room from an already-registered connection |
| Invariants.HandleKeepsRoomsWellFormed | server.js:29-108 | every dispatched event, a rejoin into another room included, keeps rooms non-empty and duplicate-free |
| Invariants.RunKeepsRoomsWellFormed | server.js:25-108 | over any run from a state without empty rooms or duplicate members, with no restriction on who joins what, no room is ever empty and no member is listed twice; so in every state the relay can reach from start-up, the room report never shows a zero count |
| Invariants.RunKeepsValid | server.js:25-108 | over a whole run from a consistent state, if no connection joins twice and no joiner is already registered, the state stays consistent and room-garbage-free |
| Invariants.RunOutputAttributed | server.js:25-108 | every envelope emitted during a run concerns the sender of some delivery in the run |
| RoomListing.ListRooms | server.js:116-120 | one entry per room, none repeated, as many entries as rooms; each `userCount` is that room's size, which for duplicate-free rooms is the number of distinct members `Set.size` reports; without empty rooms, no entry reports zero |
| Scenarios.OneJoin | server.js:33-39 | the first join into the empty state creates the room with just the joiner and records it |
| Scenarios.TwoJoin | server.js:33-39 | two joins into one room list the members in join order |
| Scenarios.JoinAfterTwo | server.js:44-57 | a join into a room listing A then B announces the joiner to exactly A and B and hands it the roster A, B with their names |
| Scenarios.ThirdJoinerSeesFirstTwo | server.js:44-57 | with A, B, C joining in order, C's roster is A then B with their names, and `userJoined` for C goes to exactly A and B |
| Scenarios.LeaveFromPair | server.js:91-104 | the disconnect of A from a room listing A then B leaves B alone in the room and sends `userLeft` for A to B only |
| Scenarios.LeaverIsAnnouncedToRoomMate | server.js:88-104 | with A and B in a room, A's disconnect sends one `userLeft` for A to B alone, and the room remains with B |
| Scenarios.MiddleLeaverKeepsOrder | server.js:91-101 | when B leaves a room listing A, B, C, the room lists A then C, which is the order `Array.from` hands the next joiner, and `userLeft` for B goes to exactly A and C |
| Scenarios.LastLeaverDeletesRoom | server.js:91-97 | when the only member leaves, the room disappears, nothing is emitted, and the state is empty again |
| Scenarios.RejoinThenLeave | server.js:38-39 | join r1, join r2, disconnect: r1 still lists the departed id with no record behind it |
| Scenarios.JoinBesideStaleMember | server.js:44-57 | a join into a room whose directory entry lists an unregistered id hands the joiner a roster naming that id with no username; the `userJoined` envelope is addressed to the listed id, per the directory abstraction of room broadcasts |
| Scenarios.StaleMemberHasNoName | server.js:50-55 | after join r1, join r2 and disconnect, the next joiner of r1 receives a roster entry for the departed id whose username is `undefined` |

## Left out

- Express and HTTP setup, CORS, static files, the `/` route and port configuration (server.js:1-18, 112-114, 124-128): I/O plumbing with no state.
- `console.log` calls: side effects only.
- Socket.IO's own room bookkeeping. `socket.join(roomId)` (server.js:41) is not modelled, and room broadcasts go to the directory's member list. The two differ after a rejoin into another room followed by a disconnect: Socket.IO drops the closed socket from every transport room, while the directory keeps the id in the first room. In the source the next joiner's `userJoined` (server.js:44) then reaches nobody; the model addresses it to the departed id (Scenarios.JoinBesideStaleMember, Scenarios.StaleMemberHasNoName). A room id equal to some socket id would also reach that socket; this is not modelled either.
- Delivery itself: an envelope states who is addressed, not that the transport delivered it.
- The set of open connections is a parameter (`live`), not state. The transport issues socket ids and ends connections; only relay consults `live`.
- Router.OnSignal: relays only to a target that names an open connection. In Socket.IO `socket.to(data.target)` addresses a room, so a target naming a room clients joined (say `"lobby"`) reaches every socket in it except the sender; the model emits nothing for it.
- Router.Run: takes `live` as fixed over a run. Connections opening or closing between events only change relay delivery, never the state, so the invariants do not depend on it.
- Malformed payloads: a missing `username`, `roomId` or `target` is `undefined` in the source, and a `join` or relay event sent with no payload object at all throws a TypeError when the handler reads its fields (server.js:30, 64, 71, 78). Socket.IO calls listeners outside any handler of the application, so that exception is uncaught; by Node's default it ends the process, and both maps are lost with it. The model treats every event as carrying a value of each field's type, so it has no such path.
- Payload contents: opaque strings, never inspected.
- Concurrency: Node runs one handler at a time, so each handler is one atomic transition.
- RoomListing.ListRooms: does not fix the order of the entries. The source lists rooms in the insertion order of the `rooms` map, and that order is not modelled.
