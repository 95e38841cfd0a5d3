# Grow Chat presence and routing, in Dafny

Grow Chat is a socket.io chat server. Each browser tab holds a socket. A
socket registers a user, joins one chat room besides the room socket.io gives
it under its own id, and exchanges messages and roster notices with the
other sockets. This project models the server's presence and routing state
and proves what its handlers guarantee about that state and about who
receives each outbound event.

The state lives in one class, `Server.ChatServer`, with four fields:

- `rooms`: the membership that socket.io's adapter keeps, from room name to
  member sockets in join order.
- `socketRooms`: each connected socket's own room list (`socket.rooms`), in
  join order. Its keys are the connected sockets.
- `connectedUsers`: the registry, from socket id to user.
- `roomList`: every room name created, starting with "Global".

Every handler is a method that updates these fields. It returns the events it
would emit, each as a recipient set, an event name and a payload, instead of
calling the transport. Each recipient set follows the socket.io call the
handler makes:

- `broadcast.to(r)`: the members of `r` other than the sender.
- `broadcast`: every socket other than the sender.
- `io.emit`: every connected socket.
- `this.emit`: the sender only.

The pure definitions live in module `Routing` (`routing.dfy`):

- membership updates (`Join`, `Leave`, `LeaveRooms`, `LeaveAll`);
- the leave loop's split of a room snapshot into `Departures` and `Stays`;
- the registry (`Register`) and the roster notices (`UserList`,
  `RosterUpdate`, `RosterUpdates`);
- the class invariants:
  - `Consistent`: the two views of membership agree.
  - `SingleRoom`: every socket is in at most one room besides its own.
  - `Registered`: only connected sockets are registered, each under its own
    token.
  - `RoomListStart`: the room list starts with "Global".

Quirks of the code that the model keeps:

- `userConnected` checks the user but not the room.
- A missing room becomes the room key "undefined" when the socket joins it.
- Socket.io records a join or a leave in the socket's own room list only
  after the handler returns. The socket.io adapter's membership, which
  `roomUserList` reads, changes at once. So the leave loop walks the rooms
  the socket had before the join, and leaves each one other than the target
  and its own. It sends each room its roster right after leaving it.
- Without a room in the payload, every earlier room but the socket's own
  departs. The socket ends in its own room and in "undefined", and the final
  roster of "undefined" includes it. The exception is a socket that was
  already in "undefined": the join adds nothing, the loop leaves
  "undefined", and the socket ends in its own room only.
- `roomUserList` yields a missing entry (`None`) for a member that never
  registered.
- `roomList` keeps duplicates.

## Model

| member | source | states |
|---|---|---|
| Server.ChatServer.constructor | server.js:12-13 | the room list starts as ["Global"] and the registry starts empty; the invariants hold |
| Server.ChatServer.Connect | server.js:32-42 | a connecting socket is listed and joined in the room named by its own id, keeping the invariants |
| Server.ChatServer.RegisterUser | server.js:152-158 | the registry becomes `Register` of the old one; an already registered socket leaves it unchanged |
| Routing.Register | server.js:152-158 | the registry gains exactly the socket's key; a new entry keeps the user's name and has the socket id as token |
| Routing.RegisterKeeps | server.js:153-156 | no existing entry changes, and registering twice is the same as registering once |
| Routing.RegisterKeepsRegistered | server.js:152-158 | registering a connected socket keeps every registered socket connected and under its own token |
| Server.ChatServer.RoomUserList | server.js:165-175 | one entry per member socket in member order, `Some` exactly for registered members and holding their entry; an unknown room gives the empty list |
| Server.ChatServer.ServerReceivedMessage | server.js:50-51 | the message reaches exactly the members of its recipient room other than the sender; never the sender, only connected sockets |
| Server.ChatServer.SendPrivateMessage | server.js:61-63 | routed like a chat message to the recipient room's other members: a recipient that is another connected socket's id is reached, so is every other connected socket that lists that room, and the recipients are the promised ones exactly when no other socket lists it |
| Server.ChatServer.CreateRoom | server.js:71-75 | exactly one name is appended to the room list, which still starts with "Global"; every other connected socket is told |
| Server.ChatServer.UserConnected | server.js:84-100 | without a payload or user nothing changes and nothing is sent; otherwise the user is registered, the socket's list is `SwitchedList` of its rooms before, a roster notice goes to each departed room and then one to the target, the invariants hold, and with a named target the socket is in exactly that room and its own, without one in its own and in "undefined" unless it was in "undefined" already |
| Server.ChatServer.SwitchRoom | server.js:88-98 | membership is the join followed by leaving the departures of the rooms listed before the join; the list becomes `SwitchedList`; the notices are one per departed room and then one for the target |
| Server.ChatServer.LeaveOtherRooms | server.js:90-96 | walking the first `shown` rooms (those listed before the join), the list keeps only the staying ones followed by the rest, membership loses the socket from every departing room, and the notices are those rooms' rosters in order |
| Server.ChatServer.LeaveStep | server.js:91-95 | one loop step carries the loop invariant from `i` to `i + 1` |
| Server.ChatServer.JoinRoom | server.js:88 | `socket.join` adds the room to the socket's list and the socket to the room's members, unless it is already there |
| Server.ChatServer.LeaveRoom | server.js:92 | `socket.leave` removes the room from the socket's list and the socket from the room's members |
| Server.ChatServer.RosterNotice | server.js:94 | the notice is the room's roster, reaching only members of the room and never the sender |
| Server.ChatServer.UserDisconnected | server.js:107-111 | the socket leaves every room and the connected set, exactly its registry entry is deleted, the room list is unchanged, and every remaining socket is told |
| Server.ChatServer.GetRoomUserList | server.js:117-119 | the requester alone receives the room's roster |
| Server.ChatServer.GetFullRoomList | server.js:124-126 | the requester alone receives the room list, whose first entry is "Global" |
| Server.ChatServer.GetRoomHistory | server.js:133-135 | the history process is asked for `[room]` and the requester alone receives its records |
| Server.ChatServer.SearchRoomHistory | server.js:141-143 | the history process is asked for `[room, text]` and the requester alone receives its records |
| Routing.SwitchOutcome | server.js:88-96 | joining the target, leaving the departures of the rooms listed before the join and settling the list keeps both views consistent and every socket in at most one room besides its own |
| Routing.SwitchLands | server.js:88-96 | with a named target the socket ends a member of exactly that room and its own; without one, of its own room and of "undefined" exactly when it was not in "undefined" before |
| Routing.SwitchMembers | server.js:90-91 | the rooms left are exactly the snapshot's rooms other than the target and the socket's own; the rooms kept are exactly the others |
| Routing.SwitchStep | server.js:90-92 | the room the loop examines is still listed and has not been left yet |
| Routing.StaysStep | server.js:90-92 | after one step the socket's list is what it kept so far followed by the unexamined rooms, with the examined room removed when it departs |
| Routing.LeavingKeepsConsistent | server.js:90-96 | every prefix of the leave loop keeps the two views of membership consistent |
| Routing.LeaveLoopStep | server.js:91-94 | a departing room joins the rooms left, loses the socket and appends its roster notice; a room that stays changes nothing |
| Routing.SwitchKeepsSingleRoom | server.js:90-96 | cutting a socket's list down to the target's room and its own keeps every socket in at most one other room |
| Routing.JoinMembers | server.js:88 | a join adds the socket at the end of that room's members unless it is there, and changes no other room |
| Routing.JoinListMembers | server.js:88 | a join puts the room in the socket's list, adds nothing else and keeps the list free of duplicates |
| Routing.JoinKeepsConsistent | server.js:88 | a join keeps the two views of membership consistent |
| Routing.LeaveMembers | server.js:92 | a leave removes the socket from that room's members, keeps the others in order and changes no other room |
| Routing.LeaveKeepsConsistent | server.js:92 | leaving any room but the socket's own keeps the two views consistent |
| Routing.LeaveRoomsMembers | server.js:90-96 | after leaving a sequence of rooms the socket is in none of them and every other membership is unchanged |
| Routing.RemoveMembers | server.js:92 | removal drops exactly the removed element and leaves a sequence without it unchanged |
| Routing.RemoveNoDup | server.js:92 | removal keeps a duplicate-free sequence duplicate-free |
| Routing.RemoveSplit | server.js:92 | removing the single occurrence of an element splices out exactly that element |
| Routing.LeaveAllRemoves | server.js:107 | on disconnect every room loses exactly the socket and no room disappears |
| Routing.DropKeepsConsistent | server.js:107-108 | dropping a socket from every room and from the connected set keeps the two views consistent |
| Routing.ConnectKeepsConsistent | server.js:32 | a new socket in its own room keeps the two views consistent |
| Routing.RegisteredUpdate | server.js:88-96 | changing a connected socket's room list keeps the registry's sockets connected |
| Server.ChatServer.SendPrivateMessageToRecipient | server.js:57-63 | the corrected routing: the recipient socket alone, when connected and not the sender, and no one else |
| Routing.PrivateReachesListeners | server.js:62 | a private message to room `r` reaches every connected socket other than the sender that lists `r` |
| Routing.PrivateMessageLeak | server.js:57-62 | from three sockets each in its own room, after "t" joins the room named "a", a private message from "b" to "a" reaches "t" as well as "a" |
| Routing.PrivateRoutingAgrees | server.js:57-62 | routing to room `r` gives the promised recipients exactly when no connected socket other than `r` lists `r` |
| Routing.ThreeSocketsValid | server.js:32-42 | the three-socket state of the leak satisfies the presence invariants |
| Routing.JoinListSplit | server.js:88 | the list after a join is the list before it followed by what the join appended |
| Routing.RosterUpdateContents | server.js:94 | a roster notice reaches exactly the room's other members and carries one registry entry per member, in order |
| Routing.RosterUpdatesAt | server.js:90-96 | the notices for the rooms left are one per room, in the order the rooms were left |
| Routing.RosterUpdatesFrame | server.js:94 | the rosters of rooms whose membership did not change are unchanged |
| Routing.LeaveRosterStep | server.js:92-94 | leaving one more room appends its notice, computed after the leave, and leaves the earlier notices as they were |

## Findings

| source | as written | input that shows it | evidently intended | confidence | as-written member | corrected member |
|---|---|---|---|---|---|---|
| server.js:57-63 | `broadcast.to(message.recipient)` sends a private message to every member of the room named by the recipient's id, and `userConnected` lets any socket join that room | sockets "a", "b", "t" connected; "t" sends 'User Connected To Room' with room "a"; "b" sends a private message to "a": "t" receives it | the message reaches only the socket whose id is the recipient | not executed; medium | Routing.PrivateMessageLeak | Server.ChatServer.SendPrivateMessageToRecipient |

## Left out

- The Express route, the catch-all redirect and `server.listen`
  (server.js:19-29) are I/O with no logic.
- The socket.io wiring (server.js:32-42) is modelled only as one method per
  event, called with the id of the socket that raised it. Every handler
  requires that socket to be connected, since the transport only dispatches
  for live sockets.
- Socket.io's own membership handling is modelled because the handlers depend
  on it, but it is transport behaviour rather than code of this repository:
  - joining a connecting socket to the room named by its id (`Connect`);
  - removing a disconnecting socket from every room and from the connected
    set before `userDisconnected` runs (`UserDisconnected`).
- Socket.io applies a join or a leave to the socket's own room list on the
  next tick. The model applies it at once and has the leave loop walk only
  the rooms listed before the join. No handler reads that list in between,
  so the outcome is the same. What other sockets' events could observe
  between the ticks is not modelled.
- The handlers use `SendPrivateMessage`, the routing as written;
  `SendPrivateMessageToRecipient` is the corrected routing and no handler
  calls it.
- Socket.io deletes a room once it has no members; the model keeps it as a
  key with no members. Every handler reads membership through `Members`,
  which gives the same result either way.
- JavaScript enumerates integer-like object keys before the others. The
  model enumerates rooms and members in join order, ignoring that
  reordering.
- The database log call in `serverReceivedMessage` (server.js:53, database.js)
  is a fire-and-forget foreign call. It is not modelled.
- `getHistory` (server.js:184-209) spawns a Python process (roomhistory.py) and
  collects its output asynchronously. The records it would produce are a
  parameter of `GetRoomHistory` and `SearchRoomHistory`. An error thrown by
  the process is not modelled.
- `createRoom` receives a room object and uses only its `name`. The model
  takes the name.
- A message or room payload without the expected fields, apart from a missing
  connection, user or room in `userConnected`, is not modelled.
- `registerUser` writes the token into the caller's user object. The model
  stores a copy with the token set and does not model that aliasing.
- The timestamps and message persistence of database.js are not part of this
  model.
