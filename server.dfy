/** The chat server's handlers over its presence and routing state. Each
    handler takes the id of the socket that raised the inbound event and
    returns the outbound events it emits, instead of calling the transport. */
module Server {
  import opened Routing

  class ChatServer {
    /** Room membership as the socket.io adapter holds it: room name to the
        member sockets in join order. */
    var rooms: map<RoomName, seq<SocketId>>
    /** Each connected socket's own list of rooms (`socket.rooms`), in join
        order; its keys are the connected sockets. */
    var socketRooms: map<SocketId, seq<RoomName>>
    /** `connectedUsers`: socket id to the registered user. */
    var connectedUsers: map<SocketId, User>
    /** `roomList`: every room name ever created, in order, duplicates kept. */
    var roomList: seq<RoomName>

    /** The presence invariant: the two membership views agree, every socket
        is in at most one room besides its own, and only connected sockets
        are registered. The room list's own invariant, `RoomListStart`, is
        kept apart: only `createRoom` changes that list. */
    ghost predicate Valid()
      reads this
    {
      && Consistent(rooms, socketRooms)
      && SingleRoom(socketRooms)
      && Registered(connectedUsers, socketRooms)
    }

    /** The connected sockets: the recipients of `io.emit`. */
    function Sockets(): set<SocketId>
      reads this
    {
      socketRooms.Keys
    }

    constructor ()
      ensures Valid() && RoomListStart(roomList)
      ensures rooms == map[] && socketRooms == map[] && connectedUsers == map[]
      ensures roomList == [Global]
    {
      rooms, socketRooms, connectedUsers := map[], map[], map[];
      roomList := [Global];
    }

    /** A new socket connects; socket.io puts it in the room named by its
        own id. */
    method Connect(id: SocketId)
      requires Valid() && id !in socketRooms
      modifies this`rooms, this`socketRooms
      ensures Valid()
      ensures socketRooms == old(socketRooms)[id := [id]]
      ensures rooms == Join(old(rooms), id, id)
    {
      ConnectKeepsConsistent(rooms, socketRooms, id);
      rooms := rooms[id := Members(rooms, id) + [id]];
      socketRooms := socketRooms[id := [id]];
    }

    /** `registerUser`. */
    method RegisterUser(socketId: SocketId, user: User)
      modifies this`connectedUsers
      ensures connectedUsers == Register(old(connectedUsers), socketId, user)
      ensures socketId in old(connectedUsers) ==> connectedUsers == old(connectedUsers)
    {
      if socketId !in connectedUsers {
        connectedUsers := connectedUsers[socketId := user.(token := Some(socketId))];
      }
    }

    /** socket.io's `socket.join(r)`: nothing happens when the socket is
        already in `r`, which its own list and the room's members agree on
        while the two views are consistent; the join keeps them consistent
        (`JoinKeepsConsistent`). */
    method JoinRoom(id: SocketId, r: RoomName)
      requires id in socketRooms && (r in socketRooms[id] <==> id in Members(rooms, r))
      modifies this`rooms, this`socketRooms
      ensures socketRooms == old(socketRooms)[id := JoinList(old(socketRooms[id]), r)]
      ensures rooms == Join(old(rooms), id, r)
    {
      if r !in socketRooms[id] {
        socketRooms := socketRooms[id := socketRooms[id] + [r]];
        rooms := rooms[r := Members(rooms, r) + [id]];
      }
    }

    /** socket.io's `socket.leave(r)`: `r` leaves the socket's list and the
        socket leaves `r`'s members; it keeps the two views consistent as long
        as `r` is not the socket's own room (`LeaveKeepsConsistent`). */
    method LeaveRoom(id: SocketId, r: RoomName)
      requires id in socketRooms
      modifies this`rooms, this`socketRooms
      ensures socketRooms == old(socketRooms)[id := Remove(old(socketRooms[id]), r)]
      ensures rooms == Leave(old(rooms), id, r)
    {
      socketRooms := socketRooms[id := Remove(socketRooms[id], r)];
      rooms := Leave(rooms, id, r);
    }

    /** `roomUserList`: one registry entry per member socket of `room`, in
        member order, `None` for a member that never registered; an unknown
        room yields the empty list. */
    method RoomUserList(room: RoomName) returns (list: seq<Option<User>>)
      ensures |list| == |Members(rooms, room)|
      ensures forall i :: 0 <= i < |list| ==>
        (list[i].Some? <==> Members(rooms, room)[i] in connectedUsers) &&
        (list[i].Some? ==> list[i].value == connectedUsers[Members(rooms, room)[i]])
      ensures room !in rooms ==> list == []
      ensures list == UserList(rooms, connectedUsers, room)
    {
      list := [];
      if room in rooms {
        var members := rooms[room];
        var i := 0;
        while i < |members|
          invariant 0 <= i <= |members|
          invariant |list| == i
          invariant forall k :: 0 <= k < i ==> list[k] == Entry(connectedUsers, members[k])
        {
          var socket := members[i];
          var entry := if socket in connectedUsers then Some(connectedUsers[socket]) else None;
          list := list + [entry];
          i := i + 1;
        }
      }
    }

    /** `serverReceivedMessage`: the message goes to every other member of
        its recipient room, never back to the sender. */
    method ServerReceivedMessage(sender: SocketId, message: Message) returns (events: seq<Event>)
      requires Valid() && sender in socketRooms
      ensures |events| == 1
      ensures events[0].name == ReceivedMessageEvent && events[0].payload == MessagePayload(message)
      ensures forall s :: s in events[0].to <==> s in Members(rooms, message.recipient) && s != sender
      ensures sender !in events[0].to && events[0].to <= Sockets()
    {
      events := [Event(ToRoom(rooms, message.recipient, sender), ReceivedMessageEvent, MessagePayload(message))];
    }

    /** `sendPrivateMessage`: routed like a chat message to the recipient
        room. A recipient that is another connected socket's id reaches that
        socket, through the room named by its id. */
    method SendPrivateMessage(sender: SocketId, message: Message) returns (events: seq<Event>)
      requires Valid() && sender in socketRooms
      ensures |events| == 1
      ensures events[0].name == ReceivedPrivateMessageEvent && events[0].payload == MessagePayload(message)
      ensures forall s :: s in events[0].to <==> s in Members(rooms, message.recipient) && s != sender
      ensures sender !in events[0].to && events[0].to <= Sockets()
      ensures message.recipient in Sockets() && message.recipient != sender ==> message.recipient in events[0].to
      ensures forall s :: s in socketRooms && message.recipient in socketRooms[s] && s != sender ==> s in events[0].to
      ensures events[0].to == PrivateRecipients(socketRooms, sender, message.recipient) <==>
        forall s :: s in socketRooms && message.recipient in socketRooms[s] && s != sender ==> s == message.recipient
    {
      PrivateRoutingAgrees(rooms, socketRooms, sender, message.recipient);
      forall s | s in socketRooms && message.recipient in socketRooms[s] && s != sender {
        PrivateReachesListeners(rooms, socketRooms, sender, message.recipient, s);
      }
      events := [Event(ToRoom(rooms, message.recipient, sender), ReceivedPrivateMessageEvent, MessagePayload(message))];
    }

    /** `sendPrivateMessage` as its comment describes it: the message goes to
        the socket whose id is the recipient, when that socket is connected
        and is not the sender, and to no one else. */
    method SendPrivateMessageToRecipient(sender: SocketId, message: Message) returns (events: seq<Event>)
      requires sender in socketRooms
      ensures |events| == 1
      ensures events[0].name == ReceivedPrivateMessageEvent && events[0].payload == MessagePayload(message)
      ensures forall s :: s in events[0].to <==> s == message.recipient && s in Sockets() && s != sender
      ensures events[0].to == PrivateRecipients(socketRooms, sender, message.recipient)
    {
      var to: set<SocketId> := {};
      if message.recipient in socketRooms && message.recipient != sender {
        to := {message.recipient};
      }
      events := [Event(to, ReceivedPrivateMessageEvent, MessagePayload(message))];
    }

    /** `createRoom`: appends the name (duplicates allowed) and tells every
        other socket. */
    method CreateRoom(sender: SocketId, name: RoomName) returns (events: seq<Event>)
      requires RoomListStart(roomList) && sender in socketRooms
      modifies this`roomList
      ensures RoomListStart(roomList)
      ensures roomList == old(roomList) + [name]
      ensures events == [Event(Sockets() - {sender}, RoomAddedEvent, RoomNamePayload(name))]
    {
      roomList := roomList + [name];
      events := [Event(Sockets() - {sender}, RoomAddedEvent, RoomNamePayload(name))];
    }

    /** The "Room User List Updated" notice for `room`: its roster, to every
        member socket except `sender`. */
    method RosterNotice(sender: SocketId, room: RoomName) returns (notice: Event)
      ensures notice == RosterUpdate(rooms, connectedUsers, sender, room)
      ensures notice.to <= set s | s in Members(rooms, room)
      ensures sender !in notice.to
    {
      var list := RoomUserList(room);
      notice := Event(ToRoom(rooms, room, sender), RoomUserListUpdatedEvent, UsersPayload(list));
    }

    /** One step of the leave loop over the snapshot `snap` of the socket's
        rooms taken before the loop (`rooms0`, `socketRooms0`): room `snap[i]`
        is left and its roster appended to the notices `sent` so far, unless
        it is the target or the socket's own room. The step carries the
        loop's invariant from `i` to `i + 1`. */
    method LeaveStep(sender: SocketId, target: Option<RoomName>, snap: seq<RoomName>, i: nat,
                     ghost rooms0: map<RoomName, seq<SocketId>>, ghost socketRooms0: map<SocketId, seq<RoomName>>,
                     sent: seq<Event>)
      returns (events: seq<Event>)
      requires NoDup(snap) && i < |snap|
      requires socketRooms == socketRooms0[sender := Stays(snap[..i], target, sender) + snap[i..]]
      requires rooms == LeaveRooms(rooms0, sender, Departures(snap[..i], target, sender))
      requires sent == RosterUpdates(rooms, connectedUsers, sender, Departures(snap[..i], target, sender))
      modifies this`rooms, this`socketRooms
      ensures socketRooms == socketRooms0[sender := Stays(snap[..i + 1], target, sender) + snap[i + 1..]]
      ensures rooms == LeaveRooms(rooms0, sender, Departures(snap[..i + 1], target, sender))
      ensures events == RosterUpdates(rooms, connectedUsers, sender, Departures(snap[..i + 1], target, sender))
    {
      LeaveLoopStep(rooms0, socketRooms0, connectedUsers, sender, target, snap, i);
      var room := snap[i];
      events := sent;
      if Some(room) != target && room != sender {
        LeaveRoom(sender, room);
        var notice := RosterNotice(sender, room);
        events := events + [notice];
      }
    }

    /** The leave loop of `userConnected`: walks the first `shown` rooms of
        the socket's list and leaves each one other than the target and the
        socket's own, sending that room its roster right after the leave.
        Socket.io records a join or a leave in `socket.rooms` only after the
        handler returns, so the loop sees the rooms the socket had before
        the join (the first `shown` entries) and none of them disappear while
        it runs; the list walked is a snapshot taken at the start. */
    method LeaveOtherRooms(sender: SocketId, target: Option<RoomName>, shown: nat) returns (events: seq<Event>)
      requires sender in socketRooms && NoDup(socketRooms[sender]) && shown <= |socketRooms[sender]|
      modifies this`rooms, this`socketRooms
      ensures var snap := old(socketRooms[sender]);
        && socketRooms == old(socketRooms)[sender := Stays(snap[..shown], target, sender) + snap[shown..]]
        && rooms == LeaveRooms(old(rooms), sender, Departures(snap[..shown], target, sender))
        && events == RosterUpdates(rooms, connectedUsers, sender, Departures(snap[..shown], target, sender))
    {
      events := [];
      var snap := socketRooms[sender];
      var i := 0;
      assert snap[..0] == [] && snap[0..] == snap;
      assert Stays([], target, sender) + snap == snap;
      assert old(socketRooms)[sender := snap] == old(socketRooms);
      while i < shown
        invariant 0 <= i <= shown && NoDup(snap)
        invariant socketRooms == old(socketRooms)[sender := Stays(snap[..i], target, sender) + snap[i..]]
        invariant rooms == LeaveRooms(old(rooms), sender, Departures(snap[..i], target, sender))
        invariant events == RosterUpdates(rooms, connectedUsers, sender, Departures(snap[..i], target, sender))
      {
        events := LeaveStep(sender, target, snap, i, old(rooms), old(socketRooms), events);
        i := i + 1;
      }
    }

    /** The room switch of `userConnected`: joins the target room (the key
        "undefined" when the payload names none), leaves every room the
        socket was in before the join except the target and its own, then
        sends the target room its roster. The socket's list ends as
        `SwitchedList`; `SwitchOutcome` and `SwitchLands` state where the
        socket ends up. */
    method SwitchRoom(sender: SocketId, target: Option<RoomName>) returns (events: seq<Event>)
      requires sender in socketRooms && NoDup(socketRooms[sender])
      requires RoomKey(target) in socketRooms[sender] <==> sender in Members(rooms, RoomKey(target))
      modifies this`rooms, this`socketRooms
      ensures var before := old(socketRooms[sender]);
              var gone := Departures(before, target, sender);
        && socketRooms == old(socketRooms)[sender := SwitchedList(before, target, sender)]
        && rooms == LeaveRooms(Join(old(rooms), sender, RoomKey(target)), sender, gone)
        && events == RosterUpdates(rooms, connectedUsers, sender, gone)
                     + [RosterUpdate(rooms, connectedUsers, sender, RoomKey(target))]
    {
      var shown := |socketRooms[sender]|;
      ghost var before := socketRooms[sender];
      JoinListMembers(before, RoomKey(target));
      JoinRoom(sender, RoomKey(target));
      ghost var snap := socketRooms[sender];
      JoinListSplit(before, RoomKey(target));
      events := LeaveOtherRooms(sender, target, shown);
      UpdateTwice(old(socketRooms), sender, snap, SwitchedList(before, target, sender));
      var notice := RosterNotice(sender, RoomKey(target));
      events := events + [notice];
    }

    /** `userConnected`: registers the user, switches the socket to the
        target room and sends a roster update to each room left and then to
        the target room. Without a payload or without a user it does nothing;
        the room field is not checked. With a named target the socket ends up
        in exactly that room and its own. Without one it joins "undefined"
        and leaves every other room but its own; if it was in "undefined"
        already, the join adds nothing and the loop leaves "undefined" too. */
    method UserConnected(sender: SocketId, connection: Option<Connection>) returns (events: seq<Event>)
      requires Valid() && sender in socketRooms
      modifies this`rooms, this`socketRooms, this`connectedUsers
      ensures Valid()
      ensures connection.None? || connection.value.user.None? ==>
        && rooms == old(rooms) && socketRooms == old(socketRooms)
        && connectedUsers == old(connectedUsers) && events == []
      ensures connection.Some? && connection.value.user.Some? ==>
        var target := connection.value.room;
        var before := old(socketRooms[sender]);
        var gone := Departures(before, target, sender);
        && connectedUsers == Register(old(connectedUsers), sender, connection.value.user.value)
        && socketRooms == old(socketRooms)[sender := SwitchedList(before, target, sender)]
        && rooms == LeaveRooms(Join(old(rooms), sender, RoomKey(target)), sender, gone)
        && events == RosterUpdates(rooms, connectedUsers, sender, gone)
                     + [RosterUpdate(rooms, connectedUsers, sender, RoomKey(target))]
      ensures connection.Some? && connection.value.user.Some? && connection.value.room.Some? ==>
        forall r :: sender in Members(rooms, r) <==> r == connection.value.room.value || r == sender
      ensures connection.Some? && connection.value.user.Some? && connection.value.room.None? ==>
        forall r :: sender in Members(rooms, r) <==> r == sender || (r == Undefined && Undefined !in old(socketRooms[sender]))
    {
      events := [];
      if connection.Some? && connection.value.user.Some? {
        var target := connection.value.room;
        ghost var before := socketRooms[sender];
        RegisterKeepsRegistered(connectedUsers, socketRooms, sender, connection.value.user.value);
        RegisterUser(sender, connection.value.user.value);
        SwitchOutcome(rooms, socketRooms, sender, target);
        RegisteredUpdate(connectedUsers, socketRooms, sender, SwitchedList(before, target, sender));
        events := SwitchRoom(sender, target);
        SwitchLands(rooms, socketRooms, sender, before, target);
      }
    }

    /** `userDisconnected`, after socket.io has taken the socket out of all
        its rooms and out of the connected set: deletes its registry entry
        and tells every remaining socket. */
    method UserDisconnected(id: SocketId) returns (events: seq<Event>)
      requires Valid() && id in socketRooms
      modifies this`rooms, this`socketRooms, this`connectedUsers
      ensures Valid()
      ensures socketRooms == old(socketRooms) - {id}
      ensures forall r :: Members(rooms, r) == Remove(Members(old(rooms), r), id)
      ensures connectedUsers == old(connectedUsers) - {id}
      ensures roomList == old(roomList)
      ensures events == [Event(Sockets(), UserDisconnectedEvent, SocketPayload(id))]
      ensures forall r :: id !in Members(rooms, r)
    {
      DropKeepsConsistent(rooms, socketRooms, id);
      forall r ensures Members(LeaveAll(rooms, id), r) == Remove(Members(rooms, r), id)
                    && id !in Members(LeaveAll(rooms, id), r) {
        LeaveAllRemoves(rooms, id, r);
        RemoveMembers(Members(rooms, r), id);
      }
      rooms := LeaveAll(rooms, id);
      socketRooms := socketRooms - {id};
      connectedUsers := connectedUsers - {id};
      events := [Event(socketRooms.Keys, UserDisconnectedEvent, SocketPayload(id))];
    }

    /** `getRoomUserList`: the roster of `room`, to the requester only. */
    method GetRoomUserList(sender: SocketId, room: RoomName) returns (events: seq<Event>)
      requires sender in socketRooms
      ensures events == [Event({sender}, RoomUserListEvent, UsersPayload(UserList(rooms, connectedUsers, room)))]
    {
      var list := RoomUserList(room);
      events := [Event({sender}, RoomUserListEvent, UsersPayload(list))];
    }

    /** `getFullRoomList`: every room name in creation order, starting with
        the global room, to the requester only. */
    method GetFullRoomList(sender: SocketId) returns (events: seq<Event>)
      requires RoomListStart(roomList) && sender in socketRooms
      ensures events == [Event({sender}, SendFullRoomListEvent, RoomsPayload(roomList))]
      ensures events[0].payload.names[0] == Global
    {
      events := [Event({sender}, SendFullRoomListEvent, RoomsPayload(roomList))];
    }

    /** `getRoomHistory`: asks the history process for `[room]` and sends
        whatever records it produced to the requester only. */
    method GetRoomHistory(sender: SocketId, room: RoomName, records: seq<HistoryRecord>)
      returns (args: seq<string>, events: seq<Event>)
      requires sender in socketRooms
      ensures args == [room]
      ensures events == [Event({sender}, SendRoomHistoryEvent, HistoryPayload(records))]
    {
      args := [room];
      events := [Event({sender}, SendRoomHistoryEvent, HistoryPayload(records))];
    }

    /** `searchRoomHistory`: asks the history process for `[room, text]` and
        sends whatever records it produced to the requester only. */
    method SearchRoomHistory(sender: SocketId, filter: SearchFilter, records: seq<HistoryRecord>)
      returns (args: seq<string>, events: seq<Event>)
      requires sender in socketRooms
      ensures args == [filter.room, filter.text]
      ensures events == [Event({sender}, SendRoomHistoryEvent, HistoryPayload(records))]
    {
      args := [filter.room, filter.text];
      events := [Event({sender}, SendRoomHistoryEvent, HistoryPayload(records))];
    }
  }
}
