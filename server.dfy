/** The server's session engine (new_server.cpp, class ChatServer): the room
    registry `rooms`, the session table `clients`, and the accept, data and
    close branches of the readiness loop in `run()`. Sockets are handles;
    `recv` results are parameters and every `send`/`closesocket` is appended
    to `outbox`. */
module Server {
  import opened Text
  import opened Room

  /** The result of one `recv`: `bytes <= 0` (error or peer close) or the
      bytes received, taken as one whole frame. */
  datatype RecvResult = Closed | Bytes(data: string)

  /** The result of `accept` on the listening socket, with the first `recv`
      on the new socket. */
  datatype Incoming = AcceptFailed | Accepted(socket: Socket, init: RecvResult)

  // ---------------------------------------------------------------------
  // Frames the server builds

  function JoinFrame(username: string, roomName: string): string
  {
    username + " joined room " + roomName + "!\n"
  }

  function LeaveFrame(username: string, roomName: string): string
  {
    username + " left room " + roomName + "!\n"
  }

  function NotFoundFrame(target: string): string
  {
    "User " + target + " not found.\n"
  }

  /** The private frame relayed to both parties: the target field removed. */
  function RoutedPrivateFrame(sender: string, content: string): string
  {
    "[PM]" + sender + ":" + content
  }

  // ---------------------------------------------------------------------
  // Parsing what the server receives

  /** The connection-init frame `username:room`: split at the first ':'; the
      room keeps any further ':'. None when there is no ':' at all. */
  function ParseInit(data: string): (r: Option<(string, string)>)
    ensures r.None? <==> ':' !in data
    ensures r.Some? ==> data == r.value.0 + ":" + r.value.1 && ':' !in r.value.0
  {
    match FindChar(data, ':', 0)
    case None => None
    case Some(delim) =>
      assert data == data[..delim] + ":" + data[delim + 1..];
      Some((data[..delim], data[delim + 1..]))
  }

  /** `[PM]sender:target:content`: the sender runs from index 4 to the first
      ':' after it, the target to the next ':', the content is the rest.
      None when either ':' is missing. */
  function ParsePrivate(message: string): (r: Option<(string, string, string)>)
    ensures r.None? <==> !exists i, j :: 4 <= i < j < |message| && message[i] == ':' && message[j] == ':'
    ensures r.Some? ==>
      && |message| >= 4 && ':' !in r.value.0 && ':' !in r.value.1
      && message == message[..4] + r.value.0 + ":" + r.value.1 + ":" + r.value.2
  {
    match FindChar(message, ':', 4)
    case None => None
    case Some(first) =>
      match FindChar(message, ':', first + 1)
      case None => None
      case Some(second) =>
        ColonSplit(message, first, second);
        Some((message[4..first], message[first + 1..second], message[second + 1..]))
  }

  /** The frame cut at its first two ':' after the `[PM]` tag. */
  lemma ColonSplit(m: string, first: nat, second: nat)
    requires 4 <= first < second < |m| && m[first] == ':' && m[second] == ':'
    requires forall k :: 4 <= k < first ==> m[k] != ':'
    requires forall k :: first < k < second ==> m[k] != ':'
    ensures m == m[..4] + m[4..first] + ":" + m[first + 1..second] + ":" + m[second + 1..]
    ensures ':' !in m[4..first] && ':' !in m[first + 1..second]
  {
    var sender, target := m[4..first], m[first + 1..second];
    assert forall k :: 0 <= k < |sender| ==> sender[k] == m[4 + k];
    assert forall k :: 0 <= k < |target| ==> target[k] == m[first + 1 + k];
  }

  /** findClientByUsername: the index of the first session with the name. */
  function FirstWithUsername(cs: seq<Client>, username: string): (r: Option<nat>)
    ensures r.Some? ==> r.value < |cs| && cs[r.value].username == username
    ensures r.Some? ==> forall k :: 0 <= k < r.value ==> cs[k].username != username
    ensures r.None? ==> forall k :: 0 <= k < |cs| ==> cs[k].username != username
  {
    if cs == [] then None
    else if cs[0].username == username then Some(0)
    else match FirstWithUsername(cs[1..], username)
      case None => None
      case Some(k) => Some(k + 1)
  }

  /** The sends of the private-message branch for a frame from socket `from`. */
  function PrivateOutputs(cs: seq<Client>, from: Socket, message: string): seq<Output>
  {
    match ParsePrivate(message)
    case None => []
    case Some((sender, target, content)) =>
      match FirstWithUsername(cs, target)
      case Some(k) =>
        [Send(cs[k].socket, RoutedPrivateFrame(sender, content)), Send(from, RoutedPrivateFrame(sender, content))]
      case None => [Send(from, NotFoundFrame(target))]
  }

  /** A private frame built from a colon-free sender and target parses back
      into its three fields. */
  lemma {:induction false} ParsePrivateRoundTrip(sender: string, target: string, content: string)
    requires ':' !in sender && ':' !in target
    ensures ParsePrivate("[PM]" + sender + ":" + target + ":" + content) == Some((sender, target, content))
  {
    var m := "[PM]" + sender + ":" + target + ":" + content;
    var first, second := 4 + |sender|, 4 + |sender| + 1 + |target|;
    assert m[first] == ':' && m[second] == ':';
    forall j | 4 <= j < first ensures m[j] != ':' {
      assert m[j] == sender[j - 4];
    }
    forall j | first + 1 <= j < second ensures m[j] != ':' {
      assert m[j] == target[j - first - 1];
    }
    FindCharIs(m, ':', 4, first);
    FindCharIs(m, ':', first + 1, second);
    assert m[4..first] == sender && m[first + 1..second] == target && m[second + 1..] == content;
  }

  /** A private message reaches the first session named as target and then
      its sender; an unknown target only earns the sender an error frame. */
  lemma {:induction false} PrivateRouting(cs: seq<Client>, from: Socket, sender: string, target: string, content: string)
    requires ':' !in sender && ':' !in target
    ensures var out := PrivateOutputs(cs, from, "[PM]" + sender + ":" + target + ":" + content);
      match FirstWithUsername(cs, target)
      case Some(k) =>
        out == [Send(cs[k].socket, "[PM]" + sender + ":" + content), Send(from, "[PM]" + sender + ":" + content)]
      case None => out == [Send(from, "User " + target + " not found.\n")]
  {
    ParsePrivateRoundTrip(sender, target, content);
  }

  // ---------------------------------------------------------------------
  // The coupled tables

  /** Room `r` is registered and its member list is exactly its sessions,
      in join order, and not empty. */
  predicate RoomHolds(cs: seq<Client>, members: map<string, seq<Client>>, r: string)
  {
    r in members && members[r] == InRoom(cs, r) && members[r] != []
  }

  /** No session other than `k` uses session `k`'s socket. */
  predicate SocketUnique(cs: seq<Client>, k: int)
  {
    0 <= k < |cs| && forall j :: 0 <= j < |cs| && j != k ==> cs[j].socket != cs[k].socket
  }

  /** The session table and the room membership agree: sockets are valid and
      distinct, every session's room is registered, and every registered room
      holds exactly its sessions. */
  predicate Consistent(cs: seq<Client>, members: map<string, seq<Client>>)
  {
    && (forall k :: 0 <= k < |cs| ==> cs[k].socket != InvalidSocket && cs[k].room in members)
    && (forall k {:trigger SocketUnique(cs, k)} :: 0 <= k < |cs| ==> SocketUnique(cs, k))
    && (forall r {:trigger RoomHolds(cs, members, r)} :: r in members ==> RoomHolds(cs, members, r))
  }

  /** Sockets are distinct exactly when each one is unique. */
  lemma {:induction false} DistinctUnique(cs: seq<Client>)
    ensures DistinctSockets(cs) <==> forall k :: 0 <= k < |cs| ==> SocketUnique(cs, k)
  {
    if DistinctSockets(cs) {
      forall k | 0 <= k < |cs| ensures SocketUnique(cs, k) {
        forall j | 0 <= j < |cs| && j != k ensures cs[j].socket != cs[k].socket {
          if j < k {
            assert cs[j].socket != cs[k].socket;
          } else {
            assert cs[k].socket != cs[j].socket;
          }
        }
      }
    }
    if forall k :: 0 <= k < |cs| ==> SocketUnique(cs, k) {
      forall i, j | 0 <= i < j < |cs| ensures cs[i].socket != cs[j].socket {
        assert SocketUnique(cs, i);
      }
    }
  }

  /** Every session is a member of the room it names, and a name is a
      registered room exactly when some session names it. */
  lemma {:induction false} ConsistentMembership(cs: seq<Client>, members: map<string, seq<Client>>, r: string)
    requires Consistent(cs, members)
    ensures forall k :: 0 <= k < |cs| ==> cs[k] in members[cs[k].room]
    ensures r in members <==> exists k :: 0 <= k < |cs| && cs[k].room == r
  {
    forall k | 0 <= k < |cs| ensures cs[k] in members[cs[k].room] {
      assert RoomHolds(cs, members, cs[k].room);
      InRoomMembers(cs, cs[k].room);
      assert cs[k] in cs;
    }
    InRoomEmpty(cs, r);
    if r in members {
      assert RoomHolds(cs, members, r);
    }
  }

  function MembersOf(members: map<string, seq<Client>>, r: string): seq<Client>
  {
    if r in members then members[r] else []
  }

  /** Accept keeps the tables consistent: the session is appended to the
      table and to its room, which is created when absent. */
  lemma {:induction false} AcceptKeepsConsistent(cs: seq<Client>, members: map<string, seq<Client>>, c: Client)
    requires Consistent(cs, members)
    requires c.socket != InvalidSocket && !HasSocket(cs, c.socket)
    ensures MembersOf(members, c.room) == InRoom(cs, c.room)
    ensures Consistent(cs + [c], members[c.room := MembersOf(members, c.room) + [c]])
  {
    var cs', m' := cs + [c], members[c.room := MembersOf(members, c.room) + [c]];
    DistinctUnique(cs);
    InRoomEmpty(cs, c.room);
    if c.room in members {
      assert RoomHolds(cs, members, c.room);
    }
    forall r | r in m' ensures RoomHolds(cs', m', r) {
      InRoomAppend(cs, [c], r);
      InRoomSingle(c, r);
      if r != c.room {
        assert RoomHolds(cs, members, r);
      }
    }
    assert DistinctSockets(cs') by {
      forall i, j | 0 <= i < j < |cs'| ensures cs'[i].socket != cs'[j].socket {
        if j == |cs| {
          assert cs'[i] == cs[i];
        }
      }
    }
    DistinctUnique(cs');
  }

  /** The registry after the close branch: the member removed with
      removeClient's rule, the room dropped once it is empty. */
  function AfterErase(members: map<string, seq<Client>>, c: Client): map<string, seq<Client>>
    requires c.room in members
  {
    var rest := RemoveFirst(members[c.room], c.socket);
    if rest == [] then members - {c.room} else members[c.room := rest]
  }

  /** Close keeps the tables consistent: the session leaves both tables and
      an emptied room leaves the registry. */
  lemma {:induction false} EraseKeepsConsistent(cs: seq<Client>, members: map<string, seq<Client>>, i: nat)
    requires Consistent(cs, members) && i < |cs|
    ensures RemoveFirst(members[cs[i].room], cs[i].socket) == InRoom(cs[..i] + cs[i + 1..], cs[i].room)
    ensures Consistent(cs[..i] + cs[i + 1..], AfterErase(members, cs[i]))
  {
    var c := cs[i];
    var cs' := cs[..i] + cs[i + 1..];
    var m' := AfterErase(members, c);
    DistinctUnique(cs);
    EraseElements(cs, i);
    DistinctUnique(cs');
    assert RoomHolds(cs, members, c.room);
    forall r | r in m' ensures RoomHolds(cs', m', r) {
      InRoomErase(cs, i, r);
      assert RoomHolds(cs, members, r);
    }
    forall k | 0 <= k < |cs'| ensures cs'[k].socket != InvalidSocket && cs'[k].room in m' {
      if cs'[k].room == c.room {
        InRoomErase(cs, i, c.room);
        InRoomMembers(cs', c.room);
        assert cs'[k] in cs';
      }
    }
    InRoomErase(cs, i, c.room);
  }

  /** Erasing index `i` keeps sockets distinct and every other session. */
  lemma {:induction false} EraseElements(cs: seq<Client>, i: nat)
    requires i < |cs| && DistinctSockets(cs)
    ensures DistinctSockets(cs[..i] + cs[i + 1..])
  {
    var cs' := cs[..i] + cs[i + 1..];
    forall k | 0 <= k < |cs'| ensures cs'[k] == cs[if k < i then k else k + 1] {
    }
  }

  /** The sessions that survive one sweep: those whose socket did not report
      a close, in their order. */
  function Survivors(cs: seq<Client>, ready: map<Socket, RecvResult>): seq<Client>
  {
    if cs == [] then []
    else
      var last := cs[|cs| - 1];
      Survivors(cs[..|cs| - 1], ready)
        + (if last.socket in ready && ready[last.socket].Closed? then [] else [last])
  }

  // ---------------------------------------------------------------------
  // The server object

  /** The history of room `r`, empty when the room is not registered. */
  function HistoryOf(histories: map<string, seq<string>>, r: string): seq<string>
  {
    if r in histories then histories[r] else []
  }

  class ChatServer {
    var rooms: map<string, ChatRoom>
    var clients: seq<Client>
    var outbox: seq<Output>
    /** The member list and the history of every registered room, as held
        by the room objects. */
    ghost var members: map<string, seq<Client>>
    ghost var histories: map<string, seq<string>>
    /** Every room object the server has created. */
    ghost var Repr: set<ChatRoom>

    /** Room `r` is registered and its object carries its name, member list
        and history. */
    ghost predicate Mirrors(r: string)
      reads this`rooms, this`members, this`histories, this`Repr, Repr
    {
      && r in rooms && r in members && r in histories && rooms[r] in Repr
      && rooms[r].name == r
      && rooms[r].clients == members[r]
      && rooms[r].messageHistory == histories[r]
    }

    /** The registry mirrors the room objects. Each object carries its own
        name, so distinct names never share an object. */
    ghost predicate Synced()
      reads this`rooms, this`members, this`histories, this`Repr, Repr
    {
      && rooms.Keys == members.Keys && rooms.Keys == histories.Keys
      && (forall r {:trigger Mirrors(r)} :: r in rooms ==> Mirrors(r))
    }

    ghost predicate Valid()
      reads this, Repr
    {
      Synced() && Consistent(clients, members)
    }

    constructor ()
      ensures Valid() && rooms == map[] && clients == [] && outbox == [] && histories == map[]
    {
      rooms := map[];
      clients := [];
      outbox := [];
      members := map[];
      histories := map[];
      Repr := {};
    }

    /** findClientByUsername: scans the session table in order. */
    method FindClientByUsername(username: string) returns (r: Option<nat>)
      ensures r == FirstWithUsername(clients, username)
    {
      var i := 0;
      while i < |clients|
        invariant 0 <= i <= |clients|
        invariant forall k :: 0 <= k < i ==> clients[k].username != username
      {
        if clients[i].username == username {
          FirstWithUsernameIs(clients, username, i);
          return Some(i);
        }
        i := i + 1;
      }
      FirstWithUsernameIs(clients, username, |clients|);
      return None;
    }

    /** The listening-socket branch: parse `username:room`, register the
        session in both tables, replay the history, send the member list,
        then store and broadcast the join frame. */
    method AcceptConnection(socket: Socket, init: RecvResult) returns (registered: bool)
      requires Valid()
      requires socket != InvalidSocket && !HasSocket(clients, socket)
      modifies this, Repr
      ensures Valid()
      ensures fresh(Repr - old(Repr))
      ensures registered <==> init.Bytes? && ':' in init.data
      ensures !registered ==>
        && clients == old(clients) && members == old(members) && histories == old(histories)
        && outbox == old(outbox) + [CloseSocket(socket)]
      ensures registered ==>
        var (username, roomName) := ParseInit(init.data).value;
        var client := Client(socket, username, roomName);
        var join := JoinFrame(username, roomName);
        var before := MembersOf(old(members), roomName);
        var history := HistoryOf(old(histories), roomName);
        && clients == old(clients) + [client]
        && members == old(members)[roomName := before + [client]]
        && histories == old(histories)[roomName := history + [join]]
        && outbox == old(outbox)
             + HistorySends(history, socket)
             + [Send(socket, MemberListFrame(roomName, before + [client]))]
             + BroadcastSends(before, join, socket)
    {
      if init.Closed? {
        outbox := outbox + [CloseSocket(socket)];
        return false;
      }
      var data := init.data;
      var delim := FindChar(data, ':', 0);
      if delim.None? {
        outbox := outbox + [CloseSocket(socket)];
        return false;
      }
      var username := data[..delim.value];
      var roomName := data[delim.value + 1..];
      Register(Client(socket, username, roomName));
      registered := true;
    }

    /** The accepted session `client` joins the session table and its room:
        the history replay and the member list go to the newcomer, the join
        frame is stored and sent to the earlier members. */
    method Register(client: Client)
      requires Valid()
      requires client.socket != InvalidSocket && !HasSocket(clients, client.socket)
      modifies this, Repr
      ensures Valid()
      ensures fresh(Repr - old(Repr))
      ensures
        var roomName := client.room;
        var join := JoinFrame(client.username, roomName);
        var before := MembersOf(old(members), roomName);
        var history := HistoryOf(old(histories), roomName);
        && clients == old(clients) + [client]
        && members == old(members)[roomName := before + [client]]
        && histories == old(histories)[roomName := history + [join]]
        && outbox == old(outbox)
             + HistorySends(history, client.socket)
             + [Send(client.socket, MemberListFrame(roomName, before + [client]))]
             + BroadcastSends(before, join, client.socket)
    {
      AdmitSession(client);
      JoinRoom(client);
    }

    /** The room side of accept: `rooms.find` or `rooms.emplace`, then
        `addClient`, the history replay, the member list, and the join
        frame stored and broadcast. */
    method JoinRoom(client: Client)
      requires Synced()
      modifies this`rooms, this`members, this`histories, this`Repr, this`outbox, Repr
      ensures Synced() && fresh(Repr - old(Repr))
      ensures
        var roomName := client.room;
        var join := JoinFrame(client.username, roomName);
        var before := MembersOf(old(members), roomName);
        var history := HistoryOf(old(histories), roomName);
        && members == old(members)[roomName := before + [client]]
        && histories == old(histories)[roomName := history + [join]]
        && outbox == old(outbox)
             + HistorySends(history, client.socket)
             + [Send(client.socket, MemberListFrame(roomName, before + [client]))]
             + BroadcastSends(before, join, client.socket)
    {
      var roomName := client.room;
      ghost var m0, h0 := members, histories;
      ghost var before := MembersOf(m0, roomName);
      ghost var joined := before + [client];
      OpenRoom(roomName);
      ghost var grown := Repr;
      AddToRoom(roomName, client);
      assert members[roomName] == joined;
      var join := client.username + " joined room " + roomName + "!\n";
      Announce(roomName, join, client.socket);
      BroadcastSkipsSender(before, client, join);
      UpdateTwice(m0, roomName, before, joined);
      UpdateTwice(h0, roomName, HistoryOf(h0, roomName), HistoryOf(h0, roomName) + [join]);
      assert Repr == grown;
    }

    /** The session-table side of accept: `clients.push_back`. */
    method AdmitSession(client: Client)
      requires Consistent(clients, members)
      requires client.socket != InvalidSocket && !HasSocket(clients, client.socket)
      modifies this`clients
      ensures clients == old(clients) + [client]
      ensures Consistent(clients, members[client.room := MembersOf(members, client.room) + [client]])
    {
      AcceptKeepsConsistent(clients, members, client);
      clients := clients + [client];
    }

    /** `rooms.find`, and `rooms.emplace` of an empty room when the name is
        new. */
    method OpenRoom(roomName: string)
      requires Synced()
      modifies this`rooms, this`members, this`histories, this`Repr
      ensures Synced() && fresh(Repr - old(Repr)) && roomName in rooms
      ensures members == old(members)[roomName := MembersOf(old(members), roomName)]
      ensures histories == old(histories)[roomName := HistoryOf(old(histories), roomName)]
    {
      if roomName !in rooms {
        CreateRoom(roomName);
      } else {
        assert members == members[roomName := members[roomName]];
        assert histories == histories[roomName := histories[roomName]];
      }
    }

    /** `rooms.emplace`: a new, empty room registered under its name. */
    method CreateRoom(roomName: string)
      requires Synced() && roomName !in rooms
      modifies this`rooms, this`members, this`histories, this`Repr
      ensures Synced() && fresh(Repr - old(Repr)) && roomName in rooms
      ensures members == old(members)[roomName := []]
      ensures histories == old(histories)[roomName := []]
    {
      var room := new ChatRoom(roomName);
      rooms := rooms[roomName := room];
      members := members[roomName := []];
      histories := histories[roomName := []];
      Repr := Repr + {room};
      forall r | r in rooms ensures Mirrors(r) {
        if r != roomName {
          assert old(Mirrors(r));
        }
      }
    }

    /** `addClient` on the newcomer's room, then the history replay and the
        member list sent to the newcomer alone. */
    method AddToRoom(roomName: string, client: Client)
      requires Synced() && roomName in rooms
      modifies this`members, this`outbox, Repr
      ensures Synced()
      ensures members == old(members)[roomName := old(members)[roomName] + [client]]
      ensures outbox == old(outbox)
        + HistorySends(histories[roomName], client.socket)
        + [Send(client.socket, MemberListFrame(roomName, members[roomName]))]
    {
      var room := rooms[roomName];
      assert Mirrors(roomName);
      room.AddClient(client);
      members := members[roomName := members[roomName] + [client]];
      var replay := room.SendHistory(client.socket);
      outbox := outbox + replay;
      var memberList := room.GetMemberList();
      outbox := outbox + [Send(client.socket, memberList)];
      forall r | r in rooms ensures Mirrors(r) {
        assert old(Mirrors(r));
      }
    }

    /** `addMessage` then `broadcast`: the frame is stored in the room's
        history and sent to every member except `exclude`. */
    method Announce(roomName: string, message: string, exclude: Socket)
      requires Synced() && roomName in rooms
      modifies this`histories, this`outbox, Repr
      ensures Synced()
      ensures histories == old(histories)[roomName := old(histories)[roomName] + [message]]
      ensures outbox == old(outbox) + BroadcastSends(members[roomName], message, exclude)
    {
      var room := rooms[roomName];
      assert Mirrors(roomName);
      room.AddMessage(message);
      histories := histories[roomName := histories[roomName] + [message]];
      var sent := room.Broadcast(message, exclude);
      outbox := outbox + sent;
      forall r | r in rooms ensures Mirrors(r) {
        assert old(Mirrors(r));
      }
    }

    /** The close branch: the socket reported `recv <= 0`. The session leaves
        its room (`removeClient`), its socket is closed, it leaves the table
        (`clients.erase`), the leave frame is stored and sent to the
        remaining members, and an emptied room is dropped from the
        registry. */
    method HandleDisconnect(i: nat)
      requires Valid() && i < |clients|
      modifies this, Repr
      ensures Valid()
      ensures Repr == old(Repr)
      ensures
        var c := old(clients[i]);
        var rest := RemoveFirst(old(members)[c.room], c.socket);
        var leave := LeaveFrame(c.username, c.room);
        && clients == old(clients[..i] + clients[i + 1..])
        && members == AfterErase(old(members), c)
        && histories == (if rest == [] then old(histories) - {c.room}
                         else old(histories)[c.room := old(histories)[c.room] + [leave]])
        && outbox == old(outbox) + [CloseSocket(c.socket)] + BroadcastSends(rest, leave, InvalidSocket)
    {
      var c := clients[i];
      assert Mirrors(c.room);
      EraseSession(i, members);
      LeaveRoom(c);
    }

    /** The room side of the close branch: `removeClient`, `closesocket`,
        the leave frame stored and broadcast to everyone left, and the room
        erased once empty. (The session-table erase in between touches
        neither the rooms nor the outbox.) */
    method LeaveRoom(c: Client)
      requires Synced() && c.room in rooms
      modifies this`rooms, this`members, this`histories, this`outbox, Repr
      ensures Synced()
      ensures
        var rest := RemoveFirst(old(members)[c.room], c.socket);
        var leave := LeaveFrame(c.username, c.room);
        && members == AfterErase(old(members), c)
        && histories == (if rest == [] then old(histories) - {c.room}
                         else old(histories)[c.room := old(histories)[c.room] + [leave]])
        && outbox == old(outbox) + [CloseSocket(c.socket)] + BroadcastSends(rest, leave, InvalidSocket)
    {
      ghost var m0, h0 := members, histories;
      ghost var rest := RemoveFirst(m0[c.room], c.socket);
      RemoveFromRoom(c);
      var leave := c.username + " left room " + c.room + "!\n";
      Announce(c.room, leave, InvalidSocket);
      DropIfEmpty(c.room);
      if rest == [] {
        UpdateThenRemove(m0, c.room, rest);
        UpdateThenRemove(h0, c.room, h0[c.room] + [leave]);
      }
    }

    /** `removeClient` on the session's room, then `closesocket`. */
    method RemoveFromRoom(c: Client)
      requires Synced() && c.room in rooms
      modifies this`members, this`outbox, Repr
      ensures Synced()
      ensures members == old(members)[c.room := RemoveFirst(old(members)[c.room], c.socket)]
      ensures outbox == old(outbox) + [CloseSocket(c.socket)]
    {
      var room := rooms[c.room];
      assert Mirrors(c.room);
      room.RemoveClient(c.socket);
      members := members[c.room := room.clients];
      outbox := outbox + [CloseSocket(c.socket)];
      forall r | r in rooms ensures Mirrors(r) {
        assert old(Mirrors(r));
      }
    }

    /** The session-table side of the close branch: `clients.erase`. The
        table is consistent with the registry `m` as it will be once the
        close branch is done. */
    method EraseSession(i: nat, ghost m: map<string, seq<Client>>)
      requires Consistent(clients, m) && i < |clients|
      modifies this`clients
      ensures clients == old(clients[..i] + clients[i + 1..])
      ensures Consistent(clients, AfterErase(m, old(clients[i])))
    {
      EraseKeepsConsistent(clients, m, i);
      clients := clients[..i] + clients[i + 1..];
    }

    /** The end of the close branch: a room left without members is erased
        from the registry, history and all. */
    method DropIfEmpty(roomName: string)
      requires Synced() && roomName in rooms
      modifies this`rooms, this`members, this`histories
      ensures Synced()
      ensures old(members)[roomName] == [] ==>
        && members == old(members) - {roomName}
        && histories == old(histories) - {roomName}
      ensures old(members)[roomName] != [] ==>
        && rooms == old(rooms) && members == old(members) && histories == old(histories)
    {
      assert Mirrors(roomName);
      if rooms[roomName].clients == [] {
        rooms := rooms - {roomName};
        members := members - {roomName};
        histories := histories - {roomName};
      }
      forall r | r in rooms ensures Mirrors(r) {
        assert old(Mirrors(r));
      }
    }

    /** The data branch: a `[PM]` frame is routed by username across the
        whole session table; anything else is stored in the sender's room and
        sent to the other members. */
    method HandleData(i: nat, message: string)
      requires Valid() && i < |clients|
      modifies this, Repr
      ensures Valid()
      ensures Repr == old(Repr) && rooms == old(rooms)
      ensures clients == old(clients) && members == old(members)
      ensures
        var c := clients[i];
        if IsPrefix("[PM]", message) then
          && histories == old(histories)
          && outbox == old(outbox) + PrivateOutputs(clients, c.socket, message)
        else
          && histories == old(histories)[c.room := old(histories)[c.room] + [message]]
          && outbox == old(outbox) + BroadcastSends(members[c.room], message, c.socket)
    {
      var clientSocket := clients[i].socket;
      var pm := Find(message, "[PM]", 0);
      assert pm == Some(0) <==> IsPrefix("[PM]", message) by {
        if IsPrefix("[PM]", message) {
          FindIs(message, "[PM]", 0, 0);
        }
      }
      if pm == Some(0) {
        RoutePrivate(clientSocket, message);
      } else {
        assert clients[i].room in rooms by {
          assert RoomHolds(clients, members, clients[i].room);
        }
        Announce(clients[i].room, message, clientSocket);
      }
    }

    /** The `[PM]sender:target:content` branch of the data path. */
    method RoutePrivate(clientSocket: Socket, message: string)
      modifies this`outbox
      ensures outbox == old(outbox) + PrivateOutputs(clients, clientSocket, message)
    {
      var firstColon := FindChar(message, ':', 4);
      if firstColon.Some? {
        var secondColon := FindChar(message, ':', firstColon.value + 1);
        if secondColon.Some? {
          var sender := message[4..firstColon.value];
          var targetUser := message[firstColon.value + 1..secondColon.value];
          var pmContent := message[secondColon.value + 1..];
          var target := FindClientByUsername(targetUser);
          if target.Some? {
            var pmMessage := "[PM]" + sender + ":" + pmContent;
            outbox := outbox + [Send(clients[target.value].socket, pmMessage)];
            outbox := outbox + [Send(clientSocket, pmMessage)];
          } else {
            outbox := outbox + [Send(clientSocket, "User " + targetUser + " not found.\n")];
          }
        }
      }
    }

    /** The per-session sweep of one loop iteration: every session whose
        socket is ready is read once, in table order. A closed session is
        erased and the index is not advanced (the source's `--i`). */
    method ServiceReady(ready: map<Socket, RecvResult>)
      requires Valid()
      modifies this, Repr
      ensures Valid()
      ensures Repr == old(Repr)
      ensures clients == Survivors(old(clients), ready)
    {
      ghost var orig, start := clients, Repr;
      var i := 0;
      ghost var j := 0;
      ghost var done: seq<Client> := [];
      while i < |clients|
        invariant Valid() && Repr == start
        invariant Swept(orig, ready, j, done, clients) && i == |done|
        decreases |orig| - j
      {
        ghost var cur := clients;
        var closed := ServiceSession(i, ready);
        done := SweepAdvance(orig, ready, j, done, cur, clients, closed);
        if !closed {
          i := i + 1;
        }
        j := j + 1;
      }
      SweepDone(orig, ready, j, done, clients);
    }

    /** Session `i`'s turn in the sweep: nothing when its socket is not
        ready, the close branch when `recv` reported a close, the data branch
        otherwise. */
    method ServiceSession(i: nat, ready: map<Socket, RecvResult>) returns (closed: bool)
      requires Valid() && i < |clients|
      modifies this, Repr
      ensures Valid() && Repr == old(Repr)
      ensures closed <==> old(clients[i].socket) in ready && ready[old(clients[i].socket)].Closed?
      ensures clients == if closed then old(clients[..i] + clients[i + 1..]) else old(clients)
    {
      var clientSocket := clients[i].socket;
      closed := clientSocket in ready && ready[clientSocket].Closed?;
      if closed {
        HandleDisconnect(i);
      } else if clientSocket in ready {
        HandleData(i, ready[clientSocket].data);
      }
    }

    /** One iteration of `run()` whose `select` reported readiness: the
        listening socket first (a failed accept or a dropped init frame
        `continue`s, skipping the sweep), then the session sweep. */
    method Poll(listener: Option<Incoming>, ready: map<Socket, RecvResult>)
      requires Valid()
      requires listener.Some? && listener.value.Accepted? ==>
        listener.value.socket != InvalidSocket && !HasSocket(clients, listener.value.socket)
      modifies this, Repr
      ensures Valid()
      ensures listener.Some? && listener.value.AcceptFailed? ==> clients == old(clients)
      ensures listener.Some? && listener.value.Accepted? ==>
        var incoming := listener.value;
        if incoming.init.Bytes? && ':' in incoming.init.data then
          var (username, roomName) := ParseInit(incoming.init.data).value;
          clients == Survivors(old(clients) + [Client(incoming.socket, username, roomName)], ready)
        else clients == old(clients)
      ensures listener.None? ==> clients == Survivors(old(clients), ready)
    {
      if listener.Some? {
        match listener.value
        case AcceptFailed =>
          return;
        case Accepted(socket, init) =>
          var registered := AcceptConnection(socket, init);
          if !registered {
            return;
          }
      }
      ServiceReady(ready);
    }
  }

  /** Part way through the sweep: the first `j` sessions have had their
      turn, leaving `done`, and the rest are still to come. */
  predicate Swept(cs: seq<Client>, ready: map<Socket, RecvResult>, j: nat,
                  done: seq<Client>, now: seq<Client>)
  {
    j <= |cs| && done == Survivors(cs[..j], ready) && now == done + cs[j..]
  }

  /** One turn of the sweep: after session `j`'s turn, which erased it
      exactly when its socket reported a close, the first `j + 1` sessions
      have had theirs. */
  lemma SweepAdvance(cs: seq<Client>, ready: map<Socket, RecvResult>, j: nat,
                     done: seq<Client>, cur: seq<Client>, next: seq<Client>, closed: bool)
    returns (swept: seq<Client>)
    requires Swept(cs, ready, j, done, cur) && j < |cs|
      && (closed <==> cs[j].socket in ready && ready[cs[j].socket].Closed?)
      && next == (if closed then cur[..|done|] + cur[|done| + 1..] else cur)
    ensures Swept(cs, ready, j + 1, swept, next)
      && |swept| == |done| + (if closed then 0 else 1)
  {
    SweepShape(done, cs, j);
    SurvivorsSnoc(cs, ready, j);
    swept := Survivors(cs[..j + 1], ready);
    if closed {
      assert swept == done + [] == done;
    } else {
      assert swept == done + [cs[j]];
    }
  }

  /** The sweep stops once every session has had its turn. */
  lemma SweepDone(cs: seq<Client>, ready: map<Socket, RecvResult>, j: nat,
                  done: seq<Client>, now: seq<Client>)
    requires Swept(cs, ready, j, done, now) && |done| >= |now|
    ensures now == Survivors(cs, ready)
  {
    assert cs[..j] == cs;
  }

  lemma SweepShape(done: seq<Client>, cs: seq<Client>, j: nat)
    requires j < |cs|
    ensures (done + cs[j..])[|done|] == cs[j]
    ensures (done + cs[j..])[..|done|] + (done + cs[j..])[|done| + 1..] == done + cs[j + 1..]
    ensures done + cs[j..] == (done + [cs[j]]) + cs[j + 1..]
  {
    assert cs[j..] == [cs[j]] + cs[j + 1..];
    assert (done + cs[j..])[..|done|] == done;
    assert (done + cs[j..])[|done| + 1..] == cs[j + 1..];
  }

  lemma {:induction false} SurvivorsSnoc(cs: seq<Client>, ready: map<Socket, RecvResult>, j: nat)
    requires j < |cs|
    ensures Survivors(cs[..j + 1], ready)
      == Survivors(cs[..j], ready) + (if cs[j].socket in ready && ready[cs[j].socket].Closed? then [] else [cs[j]])
  {
    assert cs[..j + 1][..j] == cs[..j];
  }

  /** The second of two updates of one key wins. */
  lemma UpdateTwice<K, V>(m: map<K, V>, k: K, v: V, w: V)
    ensures m[k := v][k := w] == m[k := w]
  {
  }

  /** A newcomer appended to the room is skipped by the broadcast that
      excludes its own socket. */
  lemma BroadcastSkipsSender(cs: seq<Client>, c: Client, message: string)
    ensures BroadcastSends(cs + [c], message, c.socket) == BroadcastSends(cs, message, c.socket)
  {
    assert (cs + [c])[..|cs|] == cs;
  }

  /** Replacing an entry and then removing its key removes the key. */
  lemma UpdateThenRemove<K, V>(m: map<K, V>, k: K, v: V)
    ensures m[k := v] - {k} == m - {k}
  {
  }

  lemma {:induction false} FirstWithUsernameIs(cs: seq<Client>, username: string, i: nat)
    requires i <= |cs|
    requires forall k :: 0 <= k < i ==> cs[k].username != username
    requires i < |cs| ==> cs[i].username == username
    ensures FirstWithUsername(cs, username) == if i < |cs| then Some(i) else None
  {
    var r := FirstWithUsername(cs, username);
    if r.Some? {
      assert r.value >= i;
    }
  }
}
