# Room registry of the ClevrRemote WebRTC signalling server

The server pairs two peers in a room named by a short code and relays their
WebRTC handshake messages (`offer`, `answer`, `ice-candidate`) between them.
All of its logic lives in one file, `server.js`. It keeps two maps: `rooms`,
from a room code to the set of connections in that room, and `clientRooms`,
from a connection to the code of the room it joined. It also has:

- three operations on these maps, `joinRoom`, `leaveRoom` and `relayToRoom`;
- a dispatcher, `handleMessage`, that routes inbound messages to them;
- a close handler;
- a cleanup that runs every five minutes and drops dead connections and empty
  rooms.

The model is imperative, as the source is:

- **`Registry.Server`** holds the two maps and updates them in place. A room's
  `Set` is a `seq<Conn>` without duplicates, in arrival order. The class has
  two more fields:
  - `open` is the set of connections whose socket is in the OPEN state. It
    stands in for `readyState === WebSocket.OPEN`.
  - `outbox` records every `send` call in order, as (connection, message)
    pairs.
- **Each `Server` method** (`Join`, `Leave`, `Relay`, `Sweep`) and each
  handler in `Handler` is proved equal to a function on a `State` value
  (`AfterJoin`, `AfterLeave`, `AfterRelay`, `AfterSweep`, `Dispatch`,
  `AfterClose`). The method's `ensures` states that equality: the new state is
  the function applied to the old one.
- **The `room.forEach` send loops** are one method, `Broadcast`. It is proved
  against `Members.Fanout`.
- **The cleanup's loops** are `Sweep`, `SweepRoom` and `OpenMembers`. They are
  proved against `SweptRooms` and `Reaped`.
- **The properties** are lemmas about those functions, in
  `RegistryProperties` and `Handler`. They cover error paths, the effects of
  each operation, delivery exactly once, what the sweep leaves behind, and the
  invariant `Inv` that every operation keeps. `Inv` says every room has a
  valid code and one or two distinct members.

Files:

- `messages.dfy`: connections, inbound and outbound messages, error texts.
- `members.dfy`: member-list helpers `Without`, `KeepOpen` and `Fanout`, with
  their lemmas.
- `registry.dfy`: the state, the invariant, the specifying functions and the
  `Server` class.
- `properties.dfy`: the registry lemmas.
- `handler.dfy`: the dispatcher, the close handler and their lemmas.

The model follows the code as written, including its looser behaviour:

- Joining a second room overwrites `clientRooms` but keeps the old membership
  (`JoinElsewhereKeepsOldMembership`).
- `leaveRoom` does not check membership, so a repeated `leave` sends
  `peer-left` again (`LeaveTwiceNotifiesTwice`).
- `relayToRoom` does not require the sender to be a member.
- The sweep never touches `clientRooms`, so a connection whose room was swept
  keeps its entry after it closes (`CloseAfterSweepKeepsRecord`).
- The stale entry can be seen: the sweep may run while a socket is closing,
  before its `close` event. If another connection reopens the room in
  between, the late close sends it `peer-left` although the two never shared
  the room (`LateCloseNotifiesNewcomer`).

The model therefore does not state the following, which the code does not
keep:

- consistency between `rooms` and `clientRooms` in both directions;
- a single `peer-left` for repeated leaves.

In the code, when one of two peers disconnects, the other stays in the room.
The room is deleted only when the last member leaves or is swept.

## Model

| member | source | states |
|---|---|---|
| Members.Without | server.js:144 | `room.delete(ws)`: the result holds exactly the members other than `ws`; never longer; unchanged when `ws` was not a member |
| Members.WithoutNoDup | server.js:144 | deleting from a room without duplicates leaves none, and removes exactly one member when `ws` was a member |
| Members.KeepOpen | server.js:185-189 | the cleanup's filter: the result holds exactly the members whose socket is open; never longer |
| Members.KeepOpenNoDup | server.js:185-189 | filtering a room without duplicates leaves none |
| Members.Fanout | server.js:129-136 | the sends of a notification loop: a (connection, message) pair is sent iff the message is the given one, the connection is a member, not skipped and open; no more sends than the list has entries (one per connection needs a list without duplicates, see `FanoutCount`) |
| Members.FanoutOnce | server.js:173-177 | in a room without duplicates each eligible member receives the message exactly once |
| Members.FanoutCount | server.js:148-155 | in a room without duplicates the number of copies each connection receives is 1 if it is an open, non-skipped member and 0 otherwise |
| Registry.Server.constructor | server.js:33-36 | both maps start empty and the invariant holds |
| Registry.Server.Connect | server.js:38-39 | a new connection is open; nothing else changes |
| Registry.Server.Disconnect | server.js:186 | a socket leaves the OPEN state; nothing else changes. This stands for a transport event that has no line in the source; the cited line is one of those that read the state (also 130, 149, 174) |
| Registry.Server.Broadcast | server.js:148-155 | the `forEach` send loop appends exactly `Fanout(members, skip, open, msg)` to the outbox |
| Registry.Server.Join | server.js:87-138 | `joinRoom` updates the maps and the outbox as `AfterJoin` says: validation error, silent re-join, full-room error, or append with `joined` and `peer-joined` |
| Registry.Server.Leave | server.js:140-163 | `leaveRoom` updates the maps and the outbox as `AfterLeave` says: nothing for an absent room, otherwise remove, notify and delete the empty room |
| Registry.Server.Relay | server.js:165-178 | `relayToRoom` leaves the maps alone and appends what `AfterRelay` says: an error to the sender for an absent room, else the message to the other open members |
| Registry.Server.OpenMembers | server.js:185-189 | the inner cleanup loop returns exactly `KeepOpen` of the room |
| Registry.Server.SweepRoom | server.js:183-194 | one room of the cleanup: it keeps its open members and is deleted exactly when none is left, which the result reports |
| Registry.Server.Sweep | server.js:182-195 | the cleanup sets `rooms` to `SweptRooms` of the old rooms and returns as `cleaned` the number of rooms it deleted, `Reaped`; nothing else changes |
| Registry.SweepStep | server.js:183-194 | visiting one more room turns the partly swept map into the next one: filter that room, delete it if empty |
| Registry.SweptSize | server.js:191-193 | the rooms kept and the rooms deleted by the sweep add up to the rooms there were |
| Registry.SweepEnds | server.js:183-195 | before the sweep nothing is swept; after visiting every room the result is `SweptRooms` |
| RegistryProperties.JoinRejectsInvalidCode | server.js:89-92 | an absent code or one outside 4..8 characters yields one error to the caller and no map change |
| RegistryProperties.JoinAgainIsNoOp | server.js:101-104 | a join by a member of that room changes nothing and sends nothing |
| RegistryProperties.JoinFullRoom | server.js:106-110 | a join to a room with two other members sends "Room is full" to the caller only and changes no map |
| RegistryProperties.JoinSucceeds | server.js:113-137 | a successful join appends the caller and records its room; the caller first gets `joined` with `isHost` iff it is alone and `peerCount` the new size; `peer-joined` is sent iff the room became full, only to open earlier members, never to the joiner |
| RegistryProperties.JoinNotifiesOnce | server.js:128-137 | when the room becomes full, the earlier member gets exactly one `peer-joined` if its socket is open, and nobody else gets one |
| RegistryProperties.JoinKeepsInv | server.js:95-114 | join keeps every room at one or two distinct members with a valid code |
| RegistryProperties.JoinElsewhereKeepsOldMembership | server.js:113-114 | joining a second room records it in `clientRooms` while the caller stays a member of the first |
| RegistryProperties.LeaveAbsentRoom | server.js:141-142 | leaving a room that does not exist changes nothing and sends nothing |
| RegistryProperties.LeaveEffects | server.js:141-160 | leaving removes the caller from the room and `clientRooms`; the room is deleted iff it became empty; other rooms are untouched |
| RegistryProperties.LeaveNotifies | server.js:144-155 | leaving keeps the earlier sends and sends `peer-left` to exactly the members other than the caller whose socket is open |
| RegistryProperties.LeaveNotifiesOnce | server.js:148-155 | each remaining open member gets exactly one `peer-left` |
| RegistryProperties.LeaveKeepsInv | server.js:144-160 | leave keeps every room at one or two distinct members with a valid code |
| RegistryProperties.LeaveTwiceNotifiesTwice | server.js:144-155 | for any room that still has members after a leave, a second leave by the same connection changes no map and appends the same `peer-left` sends to the remaining open members again |
| RegistryProperties.RelayUnknownRoom | server.js:166-170 | relaying to an absent room sends one "Room not found" to the sender and changes nothing else |
| RegistryProperties.RelayDelivers | server.js:172-177 | relaying changes no map; every send carries the message unchanged; each open member other than the sender gets it exactly once and nobody else gets it |
| RegistryProperties.SweepEffects | server.js:182-195 | after the sweep every member is open, no open member was removed, no room is empty, the deleted rooms are exactly those without an open member, and their number is the drop in room count; `clientRooms` and the outbox are unchanged |
| RegistryProperties.SweepKeepsInv | server.js:185-193 | the sweep keeps every room at one or two distinct members with a valid code |
| RegistryProperties.JoinThenLeave | server.js:87-163 | joining a new room and leaving it restores `rooms`, removes only the caller's `clientRooms` entry, and leaves only the `joined` reply sent |
| Handler.HandleMessage | server.js:63-85 | dispatch by `type` updates the server as `Dispatch` says |
| Handler.OnClose | server.js:50-56 | the close handler updates the server as `AfterClose` says: leave the recorded room if a non-empty code is recorded |
| Handler.DispatchIgnoresUnknown | server.js:82-84 | a message of any other type changes nothing and sends nothing |
| Handler.DispatchRelaysHandshakes | server.js:75-80 | `offer`, `answer` and `ice-candidate` are all relayed whole to the message's room, and no map changes |
| Handler.DispatchKeepsInv | server.js:63-85 | every inbound message keeps the invariant |
| Handler.CloseEffects | server.js:50-56 | in a well-formed registry closing leaves exactly the recorded room, does nothing without a record, and keeps the invariant |
| Handler.CloseAfterSweepKeepsRecord | server.js:50-56 | for any room the sweep deletes, a later close of a connection recorded for it changes nothing: no send, and its `clientRooms` entry stays |
| Handler.LateCloseNotifiesNewcomer | server.js:50-56 | if the sweep deletes a room and a new connection opens it again before a dead member's close arrives, that close sends `peer-left` to the newcomer (if open) and leaves the room to it |

## Left out

- The HTTP health endpoint (server.js:14-27) and the creation and start of the servers (server.js:30, 201-204): these are I/O.
- JSON decoding and encoding, and the catch for messages that fail to parse (server.js:42-47). Messages are decoded values. The `payload` and any other fields of an inbound message are one opaque string, forwarded unchanged.
- `room` values that are not strings. For example, a number passes the length test because its `.length` is undefined. Room codes are strings or absent.
- Room-code length: JavaScript's `.length` counts UTF-16 code units; the model counts characters. The two differ for characters outside the Basic Multilingual Plane. Codes holding unpaired surrogates, which `JSON.parse` accepts (e.g. `"\ud800"`) and `.length` counts as one unit each, have no counterpart at all, since a Dafny `char` cannot hold a surrogate.
- Logging (`console.log`, `console.error`) and the socket `error` handler (server.js:58-60): they have no effect on state.
- The `setInterval` timer and its 300000 ms period (server.js:181, 199). Only the body of the cleanup is modelled.
- The WebSocket library: whether a socket is open is the set `open`, changed only by `Connect` and `Disconnect`. `send` is an append to `outbox`. Sends to the caller are recorded whatever the caller's state, as the source makes them without checking `readyState`.
- Concurrency: Node's event loop runs each handler to completion, so every operation is atomic.
- The iteration order of the `rooms` map in the cleanup. Its only effects are the final rooms and the count, which do not depend on that order.
