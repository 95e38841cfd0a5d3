/** Pure definitions behind the chat server's presence and routing state:
    the values that travel over the socket (users, messages, outbound
    events), room membership as plain maps, the operations socket.io
    performs on that membership, and the invariants the server keeps. */
module Routing {

  type SocketId = string
  type RoomName = string

  datatype Option<T> = None | Some(value: T)

  /** A user object as a client sends it. The server writes `token` when it
      registers the user under a socket id. */
  datatype User = User(name: string, token: Option<SocketId>)

  /** Payload of 'User Connected To Room'. The client may leave out either
      field; a missing payload is `None` at the handler. */
  datatype Connection = Connection(user: Option<User>, room: Option<RoomName>)

  /** A chat or private message. The server reads only `recipient`, and
      forwards the whole message unchanged. */
  datatype Message = Message(user: User, text: string, recipient: RoomName)

  /** Filter sent with 'User Searches Room History'. */
  datatype SearchFilter = SearchFilter(room: RoomName, text: string)

  /** One record produced by the history query process; opaque here. */
  type HistoryRecord = string

  datatype Payload =
    | MessagePayload(message: Message)
    | RoomNamePayload(name: RoomName)
    | UsersPayload(users: seq<Option<User>>)
    | RoomsPayload(names: seq<RoomName>)
    | SocketPayload(id: SocketId)
    | HistoryPayload(records: seq<HistoryRecord>)

  /** One outbound emission: the sockets that receive it, the event name and
      the payload. */
  datatype Event = Event(to: set<SocketId>, name: string, payload: Payload)

  /** The room every room list starts with. */
  const Global: RoomName := "Global"
  /** The property key JavaScript uses when a room name is `undefined`. */
  const Undefined: RoomName := "undefined"

  const ReceivedMessageEvent := "Received Message"
  const ReceivedPrivateMessageEvent := "Received Private Message"
  const RoomAddedEvent := "Room Added"
  const RoomUserListUpdatedEvent := "Room User List Updated"
  const UserDisconnectedEvent := "User Disconnected"
  const RoomUserListEvent := "Room User List"
  const SendFullRoomListEvent := "Send Full Room List"
  const SendRoomHistoryEvent := "Send Room History"

  /** The room key a possibly missing room name turns into. */
  function RoomKey(room: Option<RoomName>): RoomName
  {
    match room
    case Some(r) => r
    case None => Undefined
  }

  predicate NoDup<T(==)>(s: seq<T>)
  {
    forall i, j :: 0 <= i < j < |s| ==> s[i] != s[j]
  }

  /** `s` without any occurrence of `x`, order otherwise kept. */
  function Remove<T(==)>(s: seq<T>, x: T): seq<T>
  {
    if s == [] then []
    else if s[0] == x then Remove(s[1..], x)
    else [s[0]] + Remove(s[1..], x)
  }

  /** Removal drops exactly `x`, and leaves a sequence without `x` as it is. */
  lemma {:induction false} RemoveMembers<T>(s: seq<T>, x: T)
    ensures forall y :: y in Remove(s, x) <==> y in s && y != x
    ensures x !in s ==> Remove(s, x) == s
  {
    if s != [] {
      assert s == [s[0]] + s[1..];
      RemoveMembers(s[1..], x);
    }
  }

  lemma {:induction false} RemoveNoDup<T(!new)>(s: seq<T>, x: T)
    requires NoDup(s)
    ensures NoDup(Remove(s, x))
  {
    if s != [] {
      assert NoDup(s[1..]) by {
        forall i, j | 0 <= i < j < |s| - 1 ensures s[1..][i] != s[1..][j] {
          assert s[1..][i] == s[i + 1] && s[1..][j] == s[j + 1];
        }
      }
      RemoveNoDup(s[1..], x);
      if s[0] != x {
        var rest := Remove(s[1..], x);
        RemoveMembers(s[1..], x);
        assert s[0] !in s[1..];
        forall i, j | 0 <= i < j < |rest| + 1 ensures ([s[0]] + rest)[i] != ([s[0]] + rest)[j] {
          assert ([s[0]] + rest)[j] == rest[j - 1];
          if i > 0 {
            assert ([s[0]] + rest)[i] == rest[i - 1];
          }
        }
      }
    }
  }

  lemma {:induction false} RemoveSplit<T(!new)>(a: seq<T>, x: T, b: seq<T>)
    requires x !in a && x !in b
    ensures Remove(a + [x] + b, x) == a + b
  {
    var s := a + [x] + b;
    if a == [] {
      assert s == [x] + b && s[1..] == b;
      RemoveMembers(b, x);
    } else {
      assert s[0] == a[0] && s[1..] == a[1..] + [x] + b;
      assert a[0] in a;
      RemoveSplit(a[1..], x, b);
      assert Remove(s, x) == [s[0]] + Remove(s[1..], x);
      assert a + b == [a[0]] + (a[1..] + b);
    }
  }

  // ---------------------------------------------------------------------
  // Room membership, as the socket.io adapter keeps it

  /** The sockets in room `r`, in join order; an unknown room has none. */
  function Members(rooms: map<RoomName, seq<SocketId>>, r: RoomName): seq<SocketId>
  {
    if r in rooms then rooms[r] else []
  }

  /** Membership after socket `id` joins room `r`. */
  function Join(rooms: map<RoomName, seq<SocketId>>, id: SocketId, r: RoomName): map<RoomName, seq<SocketId>>
  {
    if id in Members(rooms, r) then rooms else rooms[r := Members(rooms, r) + [id]]
  }

  /** Joining adds `id` at the end of `r`'s members unless it is already
      there, and touches no other room. */
  lemma JoinMembers(rooms: map<RoomName, seq<SocketId>>, id: SocketId, r: RoomName)
    ensures var m := Join(rooms, id, r);
      && (forall k, s :: s in Members(m, k) <==> s in Members(rooms, k) || (k == r && s == id))
      && (forall k :: k != r ==> Members(m, k) == Members(rooms, k))
      && (id in Members(rooms, r) ==> m == rooms)
      && (id !in Members(rooms, r) ==> Members(m, r) == Members(rooms, r) + [id])
  {
  }

  /** Membership after socket `id` leaves room `r`. */
  function Leave(rooms: map<RoomName, seq<SocketId>>, id: SocketId, r: RoomName): map<RoomName, seq<SocketId>>
  {
    if r in rooms then rooms[r := Remove(rooms[r], id)] else rooms
  }

  /** Leaving takes `id` out of `r`'s members, keeping the others in order,
      and touches no other room. */
  lemma LeaveMembers(rooms: map<RoomName, seq<SocketId>>, id: SocketId, r: RoomName)
    ensures var m := Leave(rooms, id, r);
      && (forall k, s :: s in Members(m, k) <==> s in Members(rooms, k) && (k != r || s != id))
      && (forall k :: k != r ==> Members(m, k) == Members(rooms, k))
      && Members(m, r) == Remove(Members(rooms, r), id)
  {
    RemoveMembers(Members(rooms, r), id);
  }

  /** Membership after socket `id` leaves every room of `rs`, in order. */
  function LeaveRooms(rooms: map<RoomName, seq<SocketId>>, id: SocketId, rs: seq<RoomName>): map<RoomName, seq<SocketId>>
    decreases |rs|
  {
    if rs == [] then rooms
    else
      var last := rs[|rs| - 1];
      assert rs == rs[..|rs| - 1] + [last];
      Leave(LeaveRooms(rooms, id, rs[..|rs| - 1]), id, last)
  }

  /** After leaving the rooms of `rs`, `id` is a member of none of them, and
      every other membership is as before. */
  lemma {:induction false} LeaveRoomsMembers(rooms: map<RoomName, seq<SocketId>>, id: SocketId, rs: seq<RoomName>)
    ensures var m := LeaveRooms(rooms, id, rs);
      && (forall k, s :: s in Members(m, k) <==> s in Members(rooms, k) && (k !in rs || s != id))
      && (forall k :: k !in rs ==> Members(m, k) == Members(rooms, k))
    decreases |rs|
  {
    if rs != [] {
      var init, last := rs[..|rs| - 1], rs[|rs| - 1];
      assert rs == init + [last];
      LeaveRoomsMembers(rooms, id, init);
      LeaveMembers(LeaveRooms(rooms, id, init), id, last);
    }
  }

  lemma UpdateTwice<K, V>(m: map<K, V>, k: K, a: V, b: V)
    ensures m[k := a][k := b] == m[k := b]
  {
  }

  lemma LeaveRoomsSnoc(rooms: map<RoomName, seq<SocketId>>, id: SocketId, rs: seq<RoomName>, r: RoomName)
    ensures LeaveRooms(rooms, id, rs + [r]) == Leave(LeaveRooms(rooms, id, rs), id, r)
  {
    assert (rs + [r])[..|rs|] == rs;
  }

  /** Membership after socket `id` leaves every room it is in, as socket.io
      does when the socket disconnects. */
  function LeaveAll(rooms: map<RoomName, seq<SocketId>>, id: SocketId): map<RoomName, seq<SocketId>>
  {
    map r | r in rooms :: Remove(rooms[r], id)
  }

  /** Each room keeps its other members in their order. */
  lemma LeaveAllRemoves(rooms: map<RoomName, seq<SocketId>>, id: SocketId, k: RoomName)
    ensures LeaveAll(rooms, id).Keys == rooms.Keys
    ensures Members(LeaveAll(rooms, id), k) == Remove(Members(rooms, k), id)
  {
  }

  /** A socket's own room list after it joins `r`. */
  function JoinList(rs: seq<RoomName>, r: RoomName): seq<RoomName>
  {
    if r in rs then rs else rs + [r]
  }

  /** Joining puts `r` in the socket's list and adds nothing else, keeping
      the list free of duplicates. */
  lemma JoinListMembers(rs: seq<RoomName>, r: RoomName)
    ensures r in JoinList(rs, r)
    ensures forall k :: k in JoinList(rs, r) <==> k in rs || k == r
    ensures NoDup(rs) ==> NoDup(JoinList(rs, r))
  {
  }

  /** What a join appends to the socket's list: `r`, unless already listed. */
  function Added(rs: seq<RoomName>, r: RoomName): seq<RoomName>
  {
    if r in rs then [] else [r]
  }

  /** The list after a join is the list before it followed by what the join
      appended. */
  lemma JoinListSplit(rs: seq<RoomName>, r: RoomName)
    ensures JoinList(rs, r)[..|rs|] == rs && JoinList(rs, r)[|rs|..] == Added(rs, r)
  {
  }

  // ---------------------------------------------------------------------
  // Switching rooms

  /** Whether socket `id`, asking to be in `target`, leaves room `r`: every
      room other than the target and other than the socket's own. A missing
      target compares unequal to every room name. */
  predicate Departs(r: RoomName, target: Option<RoomName>, id: SocketId)
  {
    Some(r) != target && r != id
  }

  /** The rooms of `snap` that the socket leaves, in order. */
  function Departures(snap: seq<RoomName>, target: Option<RoomName>, id: SocketId): seq<RoomName>
    decreases |snap|
  {
    if snap == [] then []
    else
      var last := snap[|snap| - 1];
      assert snap == snap[..|snap| - 1] + [last];
      Departures(snap[..|snap| - 1], target, id) + (if Departs(last, target, id) then [last] else [])
  }

  /** The rooms of `snap` that the socket stays in, in order. */
  function Stays(snap: seq<RoomName>, target: Option<RoomName>, id: SocketId): seq<RoomName>
    decreases |snap|
  {
    if snap == [] then []
    else
      var last := snap[|snap| - 1];
      assert snap == snap[..|snap| - 1] + [last];
      Stays(snap[..|snap| - 1], target, id) + (if Departs(last, target, id) then [] else [last])
  }

  /** The rooms left are exactly the departing rooms of `snap`, and the rooms
      kept exactly the others. */
  lemma {:induction false} SwitchMembers(snap: seq<RoomName>, target: Option<RoomName>, id: SocketId)
    ensures forall r :: r in Departures(snap, target, id) <==> r in snap && Departs(r, target, id)
    ensures forall r :: r in Stays(snap, target, id) <==> r in snap && !Departs(r, target, id)
    decreases |snap|
  {
    if snap != [] {
      var init := snap[..|snap| - 1];
      assert snap == init + [snap[|snap| - 1]];
      SwitchMembers(init, target, id);
    }
  }

  lemma DeparturesSnoc(snap: seq<RoomName>, i: nat, target: Option<RoomName>, id: SocketId)
    requires i < |snap|
    ensures Departs(snap[i], target, id) ==>
      Departures(snap[..i + 1], target, id) == Departures(snap[..i], target, id) + [snap[i]]
    ensures !Departs(snap[i], target, id) ==>
      Departures(snap[..i + 1], target, id) == Departures(snap[..i], target, id)
  {
    assert snap[..i + 1][..i] == snap[..i];
    var d := Departures(snap[..i], target, id);
    assert d + [] == d;
  }

  lemma StaysSnoc(snap: seq<RoomName>, i: nat, target: Option<RoomName>, id: SocketId)
    requires i < |snap|
    ensures Stays(snap[..i + 1], target, id)
         == Stays(snap[..i], target, id) + (if Departs(snap[i], target, id) then [] else [snap[i]])
  {
    assert snap[..i + 1][..i] == snap[..i];
  }

  lemma NoDupAt<T>(s: seq<T>, i: nat)
    requires NoDup(s) && i < |s|
    ensures s[i] !in s[..i] && s[i] !in s[i + 1..]
    ensures s[i..] == [s[i]] + s[i + 1..]
  {
    assert forall k :: 0 <= k < i ==> s[..i][k] == s[k];
    var rest := s[i + 1..];
    assert forall k :: 0 <= k < |rest| ==> rest[k] == s[i + 1 + k];
  }

  /** One step of the leave loop over the snapshot `snap`: the room
      examined is still listed and has not been left yet. */
  lemma SwitchStep(snap: seq<RoomName>, i: nat, target: Option<RoomName>, id: SocketId)
    requires NoDup(snap) && i < |snap|
    ensures snap[i] in Stays(snap[..i], target, id) + snap[i..]
    ensures snap[i] !in Departures(snap[..i], target, id)
  {
    NoDupAt(snap, i);
    SwitchMembers(snap[..i], target, id);
  }

  /** One step of the leave loop: the socket's list after the step is what
      was kept so far followed by the rooms not yet examined. */
  lemma StaysStep(snap: seq<RoomName>, i: nat, target: Option<RoomName>, id: SocketId)
    requires NoDup(snap) && i < |snap|
    ensures Stays(snap[..i + 1], target, id) + snap[i + 1..]
         == if Departs(snap[i], target, id) then Remove(Stays(snap[..i], target, id) + snap[i..], snap[i])
            else Stays(snap[..i], target, id) + snap[i..]
  {
    var room, rest := snap[i], snap[i + 1..];
    var kept := Stays(snap[..i], target, id);
    StaysSnoc(snap, i, target, id);
    NoDupAt(snap, i);
    SwitchMembers(snap[..i], target, id);
    if Departs(room, target, id) {
      RemoveSplit(kept, room, rest);
      assert kept + snap[i..] == kept + [room] + rest;
    } else {
      assert kept + [room] + rest == kept + snap[i..];
    }
  }

  // ---------------------------------------------------------------------
  // Registry and rosters

  /** `registerUser`: a socket already registered keeps its entry; a new one
      is stored with its token set to the socket id. */
  function Register(users: map<SocketId, User>, id: SocketId, u: User): (r: map<SocketId, User>)
    ensures r.Keys == users.Keys + {id}
    ensures id !in users ==> r[id].name == u.name && r[id].token == Some(id)
  {
    if id in users then users else users[id := u.(token := Some(id))]
  }

  /** Registering never changes an existing entry, so registering twice is
      registering once. */
  lemma RegisterKeeps(users: map<SocketId, User>, id: SocketId, u: User, v: User)
    ensures forall k :: k in users ==> Register(users, id, u)[k] == users[k]
    ensures Register(Register(users, id, u), id, v) == Register(users, id, u)
  {
  }

  /** Registering a connected socket keeps every registered socket connected
      and registered under its own token. */
  lemma RegisterKeepsRegistered(users: map<SocketId, User>, socketRooms: map<SocketId, seq<RoomName>>, id: SocketId, u: User)
    requires Registered(users, socketRooms) && id in socketRooms
    ensures Registered(Register(users, id, u), socketRooms)
  {
  }

  /** A socket's registry entry; missing when it never registered. */
  function Entry(users: map<SocketId, User>, s: SocketId): Option<User>
  {
    if s in users then Some(users[s]) else None
  }

  /** The roster of room `r`: one registry entry per member socket, in
      member order. */
  function UserList(rooms: map<RoomName, seq<SocketId>>, users: map<SocketId, User>, r: RoomName): seq<Option<User>>
  {
    var m := Members(rooms, r);
    seq(|m|, i requires 0 <= i < |m| => Entry(users, m[i]))
  }

  /** `socket.broadcast.to(r)`: the members of `r` other than the sender. */
  function ToRoom(rooms: map<RoomName, seq<SocketId>>, r: RoomName, sender: SocketId): set<SocketId>
  {
    set s | s in Members(rooms, r) && s != sender
  }

  /** The roster-changed notice for room `r`, sent by `sender`. */
  function RosterUpdate(rooms: map<RoomName, seq<SocketId>>, users: map<SocketId, User>, sender: SocketId, r: RoomName): Event
  {
    Event(ToRoom(rooms, r, sender), RoomUserListUpdatedEvent, UsersPayload(UserList(rooms, users, r)))
  }

  /** One roster-changed notice per room of `rs`, in order. */
  function RosterUpdates(rooms: map<RoomName, seq<SocketId>>, users: map<SocketId, User>, sender: SocketId, rs: seq<RoomName>): seq<Event>
    decreases |rs|
  {
    if rs == [] then []
    else RosterUpdates(rooms, users, sender, rs[..|rs| - 1]) + [RosterUpdate(rooms, users, sender, rs[|rs| - 1])]
  }

  /** A roster notice reaches exactly the room's members other than the
      sender and carries one registry entry per member, in member order. */
  lemma RosterUpdateContents(rooms: map<RoomName, seq<SocketId>>, users: map<SocketId, User>, sender: SocketId, r: RoomName)
    ensures var e := RosterUpdate(rooms, users, sender, r);
      && e.name == RoomUserListUpdatedEvent
      && (forall s :: s in e.to <==> s in Members(rooms, r) && s != sender)
      && e.payload.UsersPayload?
      && |e.payload.users| == |Members(rooms, r)|
      && (forall i :: 0 <= i < |e.payload.users| ==> e.payload.users[i] == Entry(users, Members(rooms, r)[i]))
  {
  }

  /** The notices for `rs` are one per room, in the order of `rs`. */
  lemma {:induction false} RosterUpdatesAt(rooms: map<RoomName, seq<SocketId>>, users: map<SocketId, User>, sender: SocketId, rs: seq<RoomName>)
    ensures |RosterUpdates(rooms, users, sender, rs)| == |rs|
    ensures forall i :: 0 <= i < |rs| ==> RosterUpdates(rooms, users, sender, rs)[i] == RosterUpdate(rooms, users, sender, rs[i])
    decreases |rs|
  {
    if rs != [] {
      RosterUpdatesAt(rooms, users, sender, rs[..|rs| - 1]);
    }
  }

  lemma RosterUpdatesSnoc(rooms: map<RoomName, seq<SocketId>>, users: map<SocketId, User>, sender: SocketId,
                          rs: seq<RoomName>, r: RoomName)
    ensures RosterUpdates(rooms, users, sender, rs + [r])
         == RosterUpdates(rooms, users, sender, rs) + [RosterUpdate(rooms, users, sender, r)]
  {
    assert (rs + [r])[..|rs|] == rs;
  }

  /** Rosters of rooms whose membership did not change are unchanged. */
  lemma {:induction false} RosterUpdatesFrame(m1: map<RoomName, seq<SocketId>>, m2: map<RoomName, seq<SocketId>>,
                                              users: map<SocketId, User>, sender: SocketId, rs: seq<RoomName>)
    requires forall r :: r in rs ==> Members(m1, r) == Members(m2, r)
    ensures RosterUpdates(m1, users, sender, rs) == RosterUpdates(m2, users, sender, rs)
    decreases |rs|
  {
    if rs != [] {
      var init, last := rs[..|rs| - 1], rs[|rs| - 1];
      assert rs == init + [last];
      RosterUpdatesFrame(m1, m2, users, sender, init);
      assert last in rs;
    }
  }

  /** Leaving one more room appends that room's notice and leaves the
      notices for the rooms left before it as they were. */
  lemma LeaveRosterStep(rooms: map<RoomName, seq<SocketId>>, users: map<SocketId, User>, sender: SocketId,
                        gone: seq<RoomName>, r: RoomName)
    requires r !in gone
    ensures var m := Leave(rooms, sender, r);
      RosterUpdates(m, users, sender, gone + [r])
      == RosterUpdates(rooms, users, sender, gone) + [RosterUpdate(m, users, sender, r)]
  {
    var m := Leave(rooms, sender, r);
    LeaveMembers(rooms, sender, r);
    RosterUpdatesFrame(rooms, m, users, sender, gone);
    RosterUpdatesSnoc(m, users, sender, gone, r);
  }

  // ---------------------------------------------------------------------
  // Invariants

  /** Neither view lists anything twice, and every connected socket lists
      the room named by its own id. The keys of `socketRooms` are the
      connected sockets. */
  ghost predicate WellFormed(rooms: map<RoomName, seq<SocketId>>, socketRooms: map<SocketId, seq<RoomName>>)
  {
    && (forall s :: s in socketRooms ==> NoDup(socketRooms[s]) && s in socketRooms[s])
    && (forall r :: r in rooms ==> NoDup(rooms[r]))
  }

  /** Every room a socket lists has that socket as a member. */
  ghost predicate ListedAreMembers(rooms: map<RoomName, seq<SocketId>>, socketRooms: map<SocketId, seq<RoomName>>)
  {
    forall s, r :: s in socketRooms && r in socketRooms[s] ==> s in Members(rooms, r)
  }

  /** Every member of a room is a connected socket that lists the room. */
  ghost predicate MembersAreListed(rooms: map<RoomName, seq<SocketId>>, socketRooms: map<SocketId, seq<RoomName>>)
  {
    forall r, s :: s in Members(rooms, r) ==> s in socketRooms && r in socketRooms[s]
  }

  /** The two views of membership agree: socket `s` lists room `r` exactly
      when room `r` lists `s`. */
  ghost predicate Consistent(rooms: map<RoomName, seq<SocketId>>, socketRooms: map<SocketId, seq<RoomName>>)
  {
    WellFormed(rooms, socketRooms) && ListedAreMembers(rooms, socketRooms) && MembersAreListed(rooms, socketRooms)
  }

  /** Every socket is in at most one room besides its own. */
  ghost predicate SingleRoom(socketRooms: map<SocketId, seq<RoomName>>)
  {
    forall s, r1, r2 ::
      s in socketRooms && r1 in socketRooms[s] && r2 in socketRooms[s] && r1 != s && r2 != s ==> r1 == r2
  }

  /** Only connected sockets are registered, each under its own token. */
  ghost predicate Registered(users: map<SocketId, User>, socketRooms: map<SocketId, seq<RoomName>>)
  {
    forall s :: s in users ==> s in socketRooms && users[s].token == Some(s)
  }

  /** Changing a connected socket's room list keeps the registry's sockets
      connected. */
  lemma RegisteredUpdate(users: map<SocketId, User>, socketRooms: map<SocketId, seq<RoomName>>, id: SocketId, rs: seq<RoomName>)
    requires Registered(users, socketRooms) && id in socketRooms
    ensures Registered(users, socketRooms[id := rs])
  {
  }

  lemma NoDupSnoc<T>(s: seq<T>, x: T)
    requires NoDup(s) && x !in s
    ensures NoDup(s + [x])
  {
    assert forall i :: 0 <= i < |s| ==> (s + [x])[i] == s[i];
  }

  /** A new socket joins the room named by its own id. */
  lemma ConnectKeepsConsistent(rooms: map<RoomName, seq<SocketId>>, socketRooms: map<SocketId, seq<RoomName>>, id: SocketId)
    requires Consistent(rooms, socketRooms) && id !in socketRooms
    ensures Consistent(Join(rooms, id, id), socketRooms[id := [id]])
  {
    NoDupSnoc(Members(rooms, id), id);
    JoinMembers(rooms, id, id);
  }

  /** `socket.join(r)` keeps the two views of membership in step. */
  lemma JoinKeepsConsistent(rooms: map<RoomName, seq<SocketId>>, socketRooms: map<SocketId, seq<RoomName>>, id: SocketId, r: RoomName)
    requires Consistent(rooms, socketRooms) && id in socketRooms
    ensures Consistent(Join(rooms, id, r), socketRooms[id := JoinList(socketRooms[id], r)])
  {
    if id in Members(rooms, r) {
      assert r in socketRooms[id];
      assert socketRooms[id := JoinList(socketRooms[id], r)] == socketRooms;
    } else {
      assert r !in socketRooms[id];
      JoinKeepsWellFormed(rooms, socketRooms, id, r);
      JoinKeepsListed(rooms, socketRooms, id, r);
      JoinKeepsMembers(rooms, socketRooms, id, r);
    }
  }

  lemma JoinKeepsWellFormed(rooms: map<RoomName, seq<SocketId>>, socketRooms: map<SocketId, seq<RoomName>>, id: SocketId, r: RoomName)
    requires WellFormed(rooms, socketRooms) && id in socketRooms && id !in Members(rooms, r) && r !in socketRooms[id]
    ensures WellFormed(Join(rooms, id, r), socketRooms[id := JoinList(socketRooms[id], r)])
  {
    NoDupSnoc(Members(rooms, r), id);
    NoDupSnoc(socketRooms[id], r);
  }

  lemma JoinKeepsListed(rooms: map<RoomName, seq<SocketId>>, socketRooms: map<SocketId, seq<RoomName>>, id: SocketId, r: RoomName)
    requires ListedAreMembers(rooms, socketRooms) && id in socketRooms
    ensures ListedAreMembers(Join(rooms, id, r), socketRooms[id := JoinList(socketRooms[id], r)])
  {
    var m, sr := Join(rooms, id, r), socketRooms[id := JoinList(socketRooms[id], r)];
    JoinMembers(rooms, id, r);
    forall s, k | s in sr && k in sr[s] ensures s in Members(m, k) {
      if s != id || k != r {
        assert k in socketRooms[s];
      }
    }
  }

  lemma JoinKeepsMembers(rooms: map<RoomName, seq<SocketId>>, socketRooms: map<SocketId, seq<RoomName>>, id: SocketId, r: RoomName)
    requires MembersAreListed(rooms, socketRooms) && id in socketRooms
    ensures MembersAreListed(Join(rooms, id, r), socketRooms[id := JoinList(socketRooms[id], r)])
  {
    var m, sr := Join(rooms, id, r), socketRooms[id := JoinList(socketRooms[id], r)];
    JoinMembers(rooms, id, r);
    forall k, s | s in Members(m, k) ensures s in sr && k in sr[s] {
      if s != id || k != r {
        assert s in Members(rooms, k);
      }
    }
  }

  /** `socket.leave(r)` keeps the two views of membership in step. */
  lemma LeaveKeepsConsistent(rooms: map<RoomName, seq<SocketId>>, socketRooms: map<SocketId, seq<RoomName>>, id: SocketId, r: RoomName)
    requires Consistent(rooms, socketRooms) && id in socketRooms && r != id
    ensures Consistent(Leave(rooms, id, r), socketRooms[id := Remove(socketRooms[id], r)])
  {
    var m, sr := Leave(rooms, id, r), socketRooms[id := Remove(socketRooms[id], r)];
    RemoveNoDup(socketRooms[id], r);
    RemoveNoDup(Members(rooms, r), id);
    RemoveMembers(socketRooms[id], r);
    LeaveMembers(rooms, id, r);
    assert WellFormed(m, sr) by {
      forall k | k in m ensures NoDup(m[k]) {
        assert m[k] == Members(m, k);
      }
    }
    LeaveKeepsListed(rooms, socketRooms, id, r);
    LeaveKeepsMembers(rooms, socketRooms, id, r);
  }

  lemma LeaveKeepsListed(rooms: map<RoomName, seq<SocketId>>, socketRooms: map<SocketId, seq<RoomName>>, id: SocketId, r: RoomName)
    requires ListedAreMembers(rooms, socketRooms) && id in socketRooms
    ensures ListedAreMembers(Leave(rooms, id, r), socketRooms[id := Remove(socketRooms[id], r)])
  {
    var m, sr := Leave(rooms, id, r), socketRooms[id := Remove(socketRooms[id], r)];
    LeaveMembers(rooms, id, r);
    RemoveMembers(socketRooms[id], r);
    forall s, k | s in sr && k in sr[s] ensures s in Members(m, k) {
      assert k in socketRooms[s];
    }
  }

  lemma LeaveKeepsMembers(rooms: map<RoomName, seq<SocketId>>, socketRooms: map<SocketId, seq<RoomName>>, id: SocketId, r: RoomName)
    requires MembersAreListed(rooms, socketRooms) && id in socketRooms
    ensures MembersAreListed(Leave(rooms, id, r), socketRooms[id := Remove(socketRooms[id], r)])
  {
    var m, sr := Leave(rooms, id, r), socketRooms[id := Remove(socketRooms[id], r)];
    LeaveMembers(rooms, id, r);
    RemoveMembers(socketRooms[id], r);
    forall k, s | s in Members(m, k) ensures s in sr && k in sr[s] {
      assert s in Members(rooms, k);
    }
  }

  /** Taking a socket out of every room and out of the connected set keeps
      the two views of membership in step. */
  lemma DropKeepsConsistent(rooms: map<RoomName, seq<SocketId>>, socketRooms: map<SocketId, seq<RoomName>>, id: SocketId)
    requires Consistent(rooms, socketRooms)
    ensures Consistent(LeaveAll(rooms, id), socketRooms - {id})
  {
    var m, sr := LeaveAll(rooms, id), socketRooms - {id};
    forall k | k in m ensures NoDup(m[k]) {
      LeaveAllRemoves(rooms, id, k);
      RemoveNoDup(Members(rooms, k), id);
      assert m[k] == Members(m, k);
    }
    DropKeepsListed(rooms, socketRooms, id);
    DropKeepsMembers(rooms, socketRooms, id);
  }

  lemma DropKeepsListed(rooms: map<RoomName, seq<SocketId>>, socketRooms: map<SocketId, seq<RoomName>>, id: SocketId)
    requires ListedAreMembers(rooms, socketRooms)
    ensures ListedAreMembers(LeaveAll(rooms, id), socketRooms - {id})
  {
    var m, sr := LeaveAll(rooms, id), socketRooms - {id};
    forall s, k | s in sr && k in sr[s] ensures s in Members(m, k) {
      LeaveAllRemoves(rooms, id, k);
      RemoveMembers(Members(rooms, k), id);
      assert s in Members(rooms, k);
    }
  }

  lemma DropKeepsMembers(rooms: map<RoomName, seq<SocketId>>, socketRooms: map<SocketId, seq<RoomName>>, id: SocketId)
    requires MembersAreListed(rooms, socketRooms)
    ensures MembersAreListed(LeaveAll(rooms, id), socketRooms - {id})
  {
    var m, sr := LeaveAll(rooms, id), socketRooms - {id};
    forall k, s | s in Members(m, k) ensures s in sr && k in sr[s] {
      LeaveAllRemoves(rooms, id, k);
      RemoveMembers(Members(rooms, k), id);
      assert s in Members(rooms, k) && s != id;
      assert s in socketRooms && k in socketRooms[s];
      assert s in sr && sr[s] == socketRooms[s];
    }
  }

  /** Leaving, in order, every room of the socket's list that is neither
      the target nor its own room keeps the two views consistent after each
      step of the leave loop. */
  lemma {:induction false} LeavingKeepsConsistent(rooms: map<RoomName, seq<SocketId>>, socketRooms: map<SocketId, seq<RoomName>>,
                                                  id: SocketId, target: Option<RoomName>, i: nat)
    requires Consistent(rooms, socketRooms) && id in socketRooms && i <= |socketRooms[id]|
    ensures var snap := socketRooms[id];
      Consistent(LeaveRooms(rooms, id, Departures(snap[..i], target, id)),
                 socketRooms[id := Stays(snap[..i], target, id) + snap[i..]])
  {
    var snap := socketRooms[id];
    if i == 0 {
      assert snap[..0] == [] && snap[0..] == snap;
      assert Stays([], target, id) + snap == snap;
      assert socketRooms[id := snap] == socketRooms;
    } else {
      var j := i - 1;
      LeavingKeepsConsistent(rooms, socketRooms, id, target, j);
      var gone, kept := Departures(snap[..j], target, id), Stays(snap[..j], target, id) + snap[j..];
      var m, sr := LeaveRooms(rooms, id, gone), socketRooms[id := kept];
      StaysStep(snap, j, target, id);
      DeparturesSnoc(snap, j, target, id);
      if Departs(snap[j], target, id) {
        LeaveKeepsConsistent(m, sr, id, snap[j]);
        LeaveRoomsSnoc(rooms, id, gone, snap[j]);
        UpdateTwice(socketRooms, id, kept, Remove(kept, snap[j]));
      }
    }
  }

  /** One step of the leave loop over `snap`: when room `snap[i]` departs,
      the socket's list loses it, the rooms left gain it, membership loses the
      socket from it and one notice for it is appended; otherwise nothing
      changes. */
  lemma LeaveLoopStep(rooms: map<RoomName, seq<SocketId>>, socketRooms: map<SocketId, seq<RoomName>>, users: map<SocketId, User>,
                      id: SocketId, target: Option<RoomName>, snap: seq<RoomName>, i: nat)
    requires NoDup(snap) && i < |snap|
    ensures var kept, gone := Stays(snap[..i], target, id) + snap[i..], Departures(snap[..i], target, id);
            var m := LeaveRooms(rooms, id, gone);
      if Departs(snap[i], target, id) then
        && socketRooms[id := Stays(snap[..i + 1], target, id) + snap[i + 1..]]
           == socketRooms[id := kept][id := Remove(kept, snap[i])]
        && Departures(snap[..i + 1], target, id) == gone + [snap[i]]
        && LeaveRooms(rooms, id, gone + [snap[i]]) == Leave(m, id, snap[i])
        && RosterUpdates(Leave(m, id, snap[i]), users, id, gone + [snap[i]])
           == RosterUpdates(m, users, id, gone) + [RosterUpdate(Leave(m, id, snap[i]), users, id, snap[i])]
      else
        && Stays(snap[..i + 1], target, id) + snap[i + 1..] == kept
        && Departures(snap[..i + 1], target, id) == gone
  {
    var kept, gone := Stays(snap[..i], target, id) + snap[i..], Departures(snap[..i], target, id);
    SwitchStep(snap, i, target, id);
    StaysStep(snap, i, target, id);
    DeparturesSnoc(snap, i, target, id);
    if Departs(snap[i], target, id) {
      UpdateTwice(socketRooms, id, kept, Remove(kept, snap[i]));
      LeaveRoomsSnoc(rooms, id, gone, snap[i]);
      LeaveRosterStep(LeaveRooms(rooms, id, gone), users, id, gone, snap[i]);
    }
  }

  /** The socket's room list once socket.io has applied the updates that
      `userConnected` queued: the rooms `before` it that stay, followed by
      the target's room when the join added it. */
  function SwitchedList(before: seq<RoomName>, target: Option<RoomName>, id: SocketId): seq<RoomName>
  {
    Stays(before, target, id) + Added(before, RoomKey(target))
  }

  /** A socket whose rooms are cut down to `key` and its own keeps every
      socket in at most one room besides its own. */
  lemma SwitchKeepsSingleRoom(socketRooms: map<SocketId, seq<RoomName>>, id: SocketId, kept: seq<RoomName>, key: RoomName)
    requires SingleRoom(socketRooms)
    requires forall r :: r in kept ==> r == key || r == id
    ensures SingleRoom(socketRooms[id := kept])
  {
  }

  /** Where the switch leaves a socket whose rooms were `before`, its own
      among them. With a named target it is a member of exactly the target
      and its own room. Without one, every room it was in before departs,
      and it is in its own room and in "undefined", unless it was already in
      "undefined": then the loop left that room, which the join had not
      re-added. */
  lemma SwitchLands(rooms: map<RoomName, seq<SocketId>>, socketRooms: map<SocketId, seq<RoomName>>,
                    id: SocketId, before: seq<RoomName>, target: Option<RoomName>)
    requires Consistent(rooms, socketRooms) && id in socketRooms && id in before
    requires socketRooms[id] == SwitchedList(before, target, id)
    ensures target.Some? ==> forall r :: id in Members(rooms, r) <==> r == target.value || r == id
    ensures target.None? ==> forall r :: id in Members(rooms, r) <==> r == id || (r == Undefined && Undefined !in before)
  {
    SwitchMembers(before, target, id);
  }

  /** The whole room switch on values: joining the target's room, leaving
      every room the socket was in before other than the target and its own,
      and settling its list keeps the two views consistent and every socket
      in at most one room besides its own. */
  lemma SwitchOutcome(rooms: map<RoomName, seq<SocketId>>, socketRooms: map<SocketId, seq<RoomName>>,
                      id: SocketId, target: Option<RoomName>)
    requires Consistent(rooms, socketRooms) && SingleRoom(socketRooms) && id in socketRooms
    ensures var before := socketRooms[id];
            var after := LeaveRooms(Join(rooms, id, RoomKey(target)), id, Departures(before, target, id));
            var listed := socketRooms[id := SwitchedList(before, target, id)];
      Consistent(after, listed) && SingleRoom(listed)
  {
    var before, key := socketRooms[id], RoomKey(target);
    var snap, kept := JoinList(before, key), SwitchedList(before, target, id);
    var joined, listed := Join(rooms, id, key), socketRooms[id := snap];
    JoinKeepsConsistent(rooms, socketRooms, id, key);
    LeavingKeepsConsistent(joined, listed, id, target, |before|);
    JoinListSplit(before, key);
    UpdateTwice(socketRooms, id, snap, kept);
    SwitchMembers(before, target, id);
    SwitchKeepsSingleRoom(socketRooms, id, kept, key);
  }

  // ---------------------------------------------------------------------
  // Private messages

  /** A private message to `r` is routed to room `r`, so it reaches every
      connected socket other than the sender that lists room `r`, not only
      the socket whose id is `r`. */
  lemma PrivateReachesListeners(rooms: map<RoomName, seq<SocketId>>, socketRooms: map<SocketId, seq<RoomName>>,
                                sender: SocketId, r: RoomName, s: SocketId)
    requires Consistent(rooms, socketRooms) && s in socketRooms && r in socketRooms[s] && s != sender
    ensures s in ToRoom(rooms, r, sender)
  {
  }

  /** Sockets "a", "b" and "t" connected, each in its own room only. */
  function ThreeSockets(): map<RoomName, seq<SocketId>>
  {
    map["a" := ["a"], "b" := ["b"], "t" := ["t"]]
  }

  lemma ThreeSocketsValid()
    ensures Consistent(ThreeSockets(), ThreeSockets()) && SingleRoom(ThreeSockets())
  {
    var m := ThreeSockets();
    forall r, s | s in Members(m, r) ensures s in m && r in m[s] {
      assert r in m;
      assert r == "a" || r == "b" || r == "t";
    }
    forall s, r | s in m && r in m[s] ensures s in Members(m, r) {
      assert r == s;
    }
    forall s | s in m ensures NoDup(m[s]) && s in m[s] {
      assert |m[s]| == 1;
    }
  }

  /** From that state, "t" asks to be in the room named "a". The switch
      leaves a state in which a private message from "b" to "a" reaches "t"
      as well as "a". */
  lemma PrivateMessageLeak()
    ensures var after := LeaveRooms(Join(ThreeSockets(), "t", "a"), "t", Departures(["t"], Some("a"), "t"));
      && Consistent(ThreeSockets(), ThreeSockets()) && SingleRoom(ThreeSockets())
      && "t" in ToRoom(after, "a", "b") && "a" in ToRoom(after, "a", "b")
  {
    ThreeSocketsValid();
    assert Departs("t", Some("a"), "t") == false;
    assert ["t"][..0] == [];
    assert Departures(["t"], Some("a"), "t") == [];
    assert Join(ThreeSockets(), "t", "a")["a"] == ["a", "t"];
  }

  /** The recipients the comment on `sendPrivateMessage` promises: the
      socket whose id is `r` alone, when it is connected and is not the
      sender. */
  function PrivateRecipients(socketRooms: map<SocketId, seq<RoomName>>, sender: SocketId, r: RoomName): set<SocketId>
  {
    if r in socketRooms && r != sender then {r} else {}
  }

  /** Routing to room `r` gives the promised recipients exactly when no
      connected socket other than `r` lists room `r`. */
  lemma PrivateRoutingAgrees(rooms: map<RoomName, seq<SocketId>>, socketRooms: map<SocketId, seq<RoomName>>,
                             sender: SocketId, r: RoomName)
    requires Consistent(rooms, socketRooms)
    ensures ToRoom(rooms, r, sender) == PrivateRecipients(socketRooms, sender, r) <==>
      forall s :: s in socketRooms && r in socketRooms[s] && s != sender ==> s == r
  {
    if forall s :: s in socketRooms && r in socketRooms[s] && s != sender ==> s == r {
      forall s ensures s in ToRoom(rooms, r, sender) <==> s in PrivateRecipients(socketRooms, sender, r) {
        if s in Members(rooms, r) {
          assert s in socketRooms && r in socketRooms[s];
        }
        if s == r && r in socketRooms {
          assert r in socketRooms[r];
          assert r in Members(rooms, r);
        }
      }
    } else {
      var s :| s in socketRooms && r in socketRooms[s] && s != sender && s != r;
      assert s in ToRoom(rooms, r, sender);
    }
  }

  /** The room list starts with the global room. */
  ghost predicate RoomListStart(roomList: seq<RoomName>)
  {
    |roomList| >= 1 && roomList[0] == Global
  }
}
