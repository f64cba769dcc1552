/** A chat room of the server (new_server.cpp, class ChatRoom): an ordered
    member vector and an append-only message history. Every `send` the room
    performs is returned as an `Output` record instead of touching a socket. */
module Room {
  import opened Text

  /** A socket handle; the source uses -1 for INVALID_SOCKET. */
  type Socket = int
  const InvalidSocket: Socket := -1

  /** One session: a connection bound to a username and a room name. */
  datatype Client = Client(socket: Socket, username: string, room: string)

  /** What the server does to the outside world: `send(socket, frame)` or
      `closesocket(socket)`. */
  datatype Output = Send(to: Socket, frame: string) | CloseSocket(socket: Socket)

  /** The member-list header of new_server.cpp:76. */
  const MemberListHeader: string := "Members in room "

  predicate HasSocket(cs: seq<Client>, socket: Socket)
  {
    exists k :: 0 <= k < |cs| && cs[k].socket == socket
  }

  predicate DistinctSockets(cs: seq<Client>)
  {
    forall i, j :: 0 <= i < j < |cs| ==> cs[i].socket != cs[j].socket
  }

  // ---------------------------------------------------------------------
  // removeClient

  /** The members after erasing the first one whose socket matches. */
  function RemoveFirst(cs: seq<Client>, socket: Socket): seq<Client>
  {
    if cs == [] then []
    else if cs[0].socket == socket then cs[1..]
    else [cs[0]] + RemoveFirst(cs[1..], socket)
  }

  /** removeClient deletes exactly the first member with the socket and keeps
      the others in order. */
  lemma {:induction false} RemoveFirstAt(cs: seq<Client>, socket: Socket, i: nat)
    requires i < |cs| && cs[i].socket == socket
    requires forall k :: 0 <= k < i ==> cs[k].socket != socket
    ensures RemoveFirst(cs, socket) == cs[..i] + cs[i + 1..]
  {
    if i > 0 {
      RemoveFirstAt(cs[1..], socket, i - 1);
      assert cs[1..][..i - 1] == cs[1..i];
      assert cs[1..][i..] == cs[i + 1..];
      assert [cs[0]] + cs[1..i] == cs[..i];
    }
  }

  /** removeClient is a no-op when no member has the socket. */
  lemma {:induction false} RemoveFirstAbsent(cs: seq<Client>, socket: Socket)
    requires forall k :: 0 <= k < |cs| ==> cs[k].socket != socket
    ensures RemoveFirst(cs, socket) == cs
  {
    if cs != [] {
      RemoveFirstAbsent(cs[1..], socket);
    }
  }

  // ---------------------------------------------------------------------
  // broadcast and sendHistory

  /** The sends of `broadcast(message, exclude)`: one per member whose socket
      differs from `exclude`, in membership order. */
  function BroadcastSends(cs: seq<Client>, message: string, exclude: Socket): seq<Output>
  {
    if cs == [] then []
    else
      var last := cs[|cs| - 1];
      BroadcastSends(cs[..|cs| - 1], message, exclude)
        + (if last.socket != exclude then [Send(last.socket, message)] else [])
  }

  /** Number of members before index `i` that a broadcast excluding `exclude`
      reaches: the position of member `i`'s frame in the broadcast. */
  function Rank(cs: seq<Client>, exclude: Socket, i: nat): nat
    requires i <= |cs|
  {
    if i == 0 then 0
    else Rank(cs, exclude, i - 1) + (if cs[i - 1].socket != exclude then 1 else 0)
  }

  /** Number of sends addressed to `socket`. */
  function SendsTo(out: seq<Output>, socket: Socket): nat
  {
    if out == [] then 0
    else
      var last := out[|out| - 1];
      SendsTo(out[..|out| - 1], socket) + (if last.Send? && last.to == socket then 1 else 0)
  }

  lemma {:induction false} SendsToAppend(a: seq<Output>, b: seq<Output>, socket: Socket)
    ensures SendsTo(a + b, socket) == SendsTo(a, socket) + SendsTo(b, socket)
    decreases |b|
  {
    if b == [] {
      assert a + b == a;
    } else {
      assert (a + b)[..|a + b| - 1] == a + b[..|b| - 1];
      assert (a + b)[|a + b| - 1] == b[|b| - 1];
      SendsToAppend(a, b[..|b| - 1], socket);
    }
  }

  /** A broadcast has one send per member it reaches. */
  lemma {:induction false} BroadcastLength(cs: seq<Client>, message: string, exclude: Socket)
    ensures |BroadcastSends(cs, message, exclude)| == Rank(cs, exclude, |cs|)
  {
    if cs != [] {
      var init := cs[..|cs| - 1];
      BroadcastLength(init, message, exclude);
      RankPrefixAt(cs, exclude, |cs| - 1, |cs| - 1);
    }
  }

  /** Every send of a broadcast carries the frame and avoids `exclude`. */
  lemma {:induction false} BroadcastFrames(cs: seq<Client>, message: string, exclude: Socket, k: nat)
    requires k < |BroadcastSends(cs, message, exclude)|
    ensures BroadcastSends(cs, message, exclude)[k].Send?
    ensures BroadcastSends(cs, message, exclude)[k].frame == message
    ensures BroadcastSends(cs, message, exclude)[k].to != exclude
  {
    var init := cs[..|cs| - 1];
    if k < |BroadcastSends(init, message, exclude)| {
      BroadcastFrames(init, message, exclude, k);
    }
  }

  /** Member `i`'s copy sits at position Rank(i) of the broadcast. */
  lemma {:induction false} BroadcastAt(cs: seq<Client>, message: string, exclude: Socket, i: nat)
    requires i < |cs| && cs[i].socket != exclude
    ensures Rank(cs, exclude, i) < Rank(cs, exclude, i + 1)
    ensures Rank(cs, exclude, i) < |BroadcastSends(cs, message, exclude)|
    ensures BroadcastSends(cs, message, exclude)[Rank(cs, exclude, i)] == Send(cs[i].socket, message)
  {
    var init := cs[..|cs| - 1];
    BroadcastLength(init, message, exclude);
    RankPrefixAt(cs, exclude, |cs| - 1, i);
    RankPrefixAt(cs, exclude, |cs| - 1, |cs| - 1);
    if i < |cs| - 1 {
      BroadcastAt(init, message, exclude, i);
      RankPrefixAt(cs, exclude, |cs| - 1, i + 1);
      RankMonotone(cs, exclude, i + 1, |cs| - 1);
    }
  }

  lemma {:induction false} RankMonotone(cs: seq<Client>, exclude: Socket, i: nat, j: nat)
    requires i <= j <= |cs|
    ensures Rank(cs, exclude, i) <= Rank(cs, exclude, j)
    decreases j
  {
    if i < j {
      RankMonotone(cs, exclude, i, j - 1);
    }
  }

  lemma {:induction false} RankPrefixAt(cs: seq<Client>, exclude: Socket, n: nat, i: nat)
    requires i <= n <= |cs|
    ensures Rank(cs[..n], exclude, i) == Rank(cs, exclude, i)
  {
    if i > 0 {
      RankPrefixAt(cs, exclude, n, i - 1);
    }
  }

  /** With distinct sockets, broadcast sends exactly one copy to each member
      whose socket is not `exclude`, and none to anybody else. */
  lemma {:induction false} BroadcastExactlyOnce(cs: seq<Client>, message: string, exclude: Socket, socket: Socket)
    requires DistinctSockets(cs)
    ensures SendsTo(BroadcastSends(cs, message, exclude), socket)
      == if socket != exclude && HasSocket(cs, socket) then 1 else 0
  {
    if cs != [] {
      var init := cs[..|cs| - 1];
      var last := cs[|cs| - 1];
      var tail: seq<Output> := if last.socket != exclude then [Send(last.socket, message)] else [];
      assert DistinctSockets(init);
      BroadcastExactlyOnce(init, message, exclude, socket);
      SendsToAppend(BroadcastSends(init, message, exclude), tail, socket);
      assert SendsTo(tail, socket) == if last.socket != exclude && last.socket == socket then 1 else 0 by {
        if tail != [] { assert tail[..0] == []; }
      }
      HasSocketSnoc(cs, socket);
    }
  }

  /** Membership of a socket in a non-empty member list, split at the last
      member; with distinct sockets the last one is not among the others. */
  lemma {:induction false} HasSocketSnoc(cs: seq<Client>, socket: Socket)
    requires cs != [] && DistinctSockets(cs)
    ensures HasSocket(cs, socket) <==> HasSocket(cs[..|cs| - 1], socket) || cs[|cs| - 1].socket == socket
    ensures cs[|cs| - 1].socket == socket ==> !HasSocket(cs[..|cs| - 1], socket)
  {
    var init := cs[..|cs| - 1];
    if HasSocket(init, socket) {
      var k :| 0 <= k < |init| && init[k].socket == socket;
      assert cs[k] == init[k];
    }
    if HasSocket(cs, socket) && cs[|cs| - 1].socket != socket {
      var k :| 0 <= k < |cs| && cs[k].socket == socket;
      assert init[k] == cs[k];
    }
  }

  /** A broadcast excluding a member reaches N - 1 sockets; one excluding a
      socket no member has (INVALID_SOCKET on leave) reaches all N. */
  lemma {:induction false} BroadcastCount(cs: seq<Client>, message: string, exclude: Socket)
    requires DistinctSockets(cs)
    ensures HasSocket(cs, exclude) ==> |BroadcastSends(cs, message, exclude)| == |cs| - 1
    ensures !HasSocket(cs, exclude) ==> |BroadcastSends(cs, message, exclude)| == |cs|
  {
    BroadcastLength(cs, message, exclude);
    RankCount(cs, exclude, |cs|);
  }

  lemma {:induction false} RankCount(cs: seq<Client>, exclude: Socket, n: nat)
    requires n <= |cs| && DistinctSockets(cs)
    ensures (exists k :: 0 <= k < n && cs[k].socket == exclude) ==> Rank(cs, exclude, n) == n - 1
    ensures (forall k :: 0 <= k < n ==> cs[k].socket != exclude) ==> Rank(cs, exclude, n) == n
  {
    if n > 0 {
      RankCount(cs, exclude, n - 1);
    }
  }

  /** The sends of `sendHistory(socket)`: every history frame, in append
      order, to that one socket. */
  function HistorySends(history: seq<string>, socket: Socket): (out: seq<Output>)
    ensures |out| == |history|
    ensures forall k :: 0 <= k < |history| ==> out[k] == Send(socket, history[k])
  {
    if history == [] then []
    else HistorySends(history[..|history| - 1], socket) + [Send(socket, history[|history| - 1])]
  }

  // ---------------------------------------------------------------------
  // getMemberList

  function Usernames(cs: seq<Client>): (names: seq<string>)
    ensures |names| == |cs|
    ensures forall k :: 0 <= k < |cs| ==> names[k] == cs[k].username
  {
    if cs == [] then [] else Usernames(cs[..|cs| - 1]) + [cs[|cs| - 1].username]
  }

  /** The names separated by ", ". */
  function Join(names: seq<string>): string
  {
    if names == [] then ""
    else if |names| == 1 then names[0]
    else names[0] + ", " + Join(names[1..])
  }

  /** Part way through getMemberList's loop: the header, the first `i`
      names joined, and a separator when more names follow. */
  predicate Listed(result: string, head: string, names: seq<string>, i: nat)
    requires i <= |names|
  {
    result == head + Join(names[..i]) + (if 0 < i < |names| then ", " else "")
  }

  /** One turn of getMemberList's loop: append name `i`, then a separator
      unless it is the last. */
  lemma ListStep(before: string, head: string, names: seq<string>, i: nat, after: string)
    requires i < |names| && Listed(before, head, names, i)
    requires after == before + names[i] + (if i < |names| - 1 then ", " else "")
    ensures Listed(after, head, names, i + 1)
  {
    JoinStep(names, i);
  }

  /** The first `i + 1` names joined: the first `i` joined, then a
      separator unless there were none, then name `i`. */
  lemma JoinStep(names: seq<string>, i: nat)
    requires i < |names|
    ensures Join(names[..i + 1]) == Join(names[..i]) + (if i > 0 then ", " else "") + names[i]
  {
    if i > 0 {
      JoinSnoc(names[..i], names[i]);
      assert names[..i + 1] == names[..i] + [names[i]];
    } else {
      assert names[..1] == [names[0]];
    }
  }

  /** Joining one more name appends a separator and the name. */
  lemma {:induction false} JoinSnoc(names: seq<string>, name: string)
    requires names != []
    ensures Join(names + [name]) == Join(names) + ", " + name
  {
    if |names| == 1 {
      assert (names + [name])[1..] == [name];
    } else {
      assert (names + [name])[1..] == names[1..] + [name];
      JoinSnoc(names[1..], name);
    }
  }

  /** The frame getMemberList produces. */
  function MemberListFrame(roomName: string, cs: seq<Client>): string
  {
    MemberListHeader + roomName + ": " + Join(Usernames(cs)) + "\n"
  }

  /** Splits a member list body at every ", ": the reading a peer would
      apply to the list. */
  function SplitMembers(s: string): seq<string>
    decreases |s|
  {
    match Find(s, ", ", 0)
    case None => [s]
    case Some(k) => [s[..k]] + SplitMembers(s[k + 2..])
  }

  /** The member list can be read back into the usernames in membership
      order when no username contains a comma. */
  lemma {:induction false} SplitJoin(names: seq<string>)
    requires names != []
    requires forall k :: 0 <= k < |names| ==> ',' !in names[k]
    ensures SplitMembers(Join(names)) == names
  {
    var n0 := names[0];
    if |names| == 1 {
      NoCommaNoSeparator(n0, "");
      assert Join(names) == n0;
    } else {
      var rest := Join(names[1..]);
      var s := n0 + ", " + rest;
      assert OccursAt(s, ", ", |n0|);
      forall j | 0 <= j < |n0| ensures !OccursAt(s, ", ", j) {
        assert s[j] == n0[j];
      }
      FindIs(s, ", ", 0, |n0|);
      assert s[..|n0|] == n0;
      assert s[|n0| + 2..] == rest;
      SplitJoin(names[1..]);
    }
  }

  lemma {:induction false} NoCommaNoSeparator(s: string, t: string)
    requires ',' !in s && t == ""
    ensures Find(s, ", ", 0).None?
  {
    forall j ensures !OccursAt(s, ", ", j) {
      if 0 <= j && j + 2 <= |s| {
        assert s[j..j + 2][0] == s[j];
      }
    }
  }

  // ---------------------------------------------------------------------
  // Session bookkeeping shared with the server

  /** The sessions bound to room `r`, in the order they joined. */
  function InRoom(cs: seq<Client>, r: string): seq<Client>
  {
    if cs == [] then []
    else InRoom(cs[..|cs| - 1], r) + (if cs[|cs| - 1].room == r then [cs[|cs| - 1]] else [])
  }

  lemma {:induction false} InRoomAppend(a: seq<Client>, b: seq<Client>, r: string)
    ensures InRoom(a + b, r) == InRoom(a, r) + InRoom(b, r)
    decreases |b|
  {
    if b == [] {
      assert a + b == a;
    } else {
      assert (a + b)[..|a + b| - 1] == a + b[..|b| - 1];
      assert (a + b)[|a + b| - 1] == b[|b| - 1];
      InRoomAppend(a, b[..|b| - 1], r);
    }
  }

  /** Every member of InRoom(cs, r) is one of the sessions. */
  lemma {:induction false} InRoomMembers(cs: seq<Client>, r: string)
    ensures forall x :: x in InRoom(cs, r) <==> x in cs && x.room == r
  {
    if cs != [] {
      InRoomMembers(cs[..|cs| - 1], r);
      assert cs == cs[..|cs| - 1] + [cs[|cs| - 1]];
    }
  }

  /** A room has no members exactly when no session names it. */
  lemma {:induction false} InRoomEmpty(cs: seq<Client>, r: string)
    ensures InRoom(cs, r) == [] <==> forall k :: 0 <= k < |cs| ==> cs[k].room != r
  {
    InRoomMembers(cs, r);
    if InRoom(cs, r) != [] {
      assert InRoom(cs, r)[0] in InRoom(cs, r);
    }
    if InRoom(cs, r) == [] {
      forall k | 0 <= k < |cs| ensures cs[k].room != r {
        assert cs[k] in cs;
      }
    }
  }

  /** Erasing session `i` removes it from its room with removeClient's
      first-match rule and leaves every other room untouched. */
  lemma {:induction false} InRoomErase(cs: seq<Client>, i: nat, r: string)
    requires i < |cs| && DistinctSockets(cs)
    ensures InRoom(cs[..i] + cs[i + 1..], r)
      == if r == cs[i].room then RemoveFirst(InRoom(cs, r), cs[i].socket) else InRoom(cs, r)
  {
    var a, c, b := cs[..i], cs[i], cs[i + 1..];
    var x, y := InRoom(a, r), InRoom(b, r);
    InRoomAround(cs, i, r);
    InRoomSingle(c, r);
    if r == c.room {
      assert InRoom(cs, r) == x + [c] + y;
      InRoomOtherSockets(cs, i, r);
      RemoveFirstMiddle(x, c, y);
    } else {
      assert InRoom(cs, r) == x + y by { assert x + [] == x; }
    }
  }

  /** The sessions of a room split around session `i`. */
  lemma {:induction false} InRoomAround(cs: seq<Client>, i: nat, r: string)
    requires i < |cs|
    ensures InRoom(cs, r) == InRoom(cs[..i], r) + InRoom([cs[i]], r) + InRoom(cs[i + 1..], r)
    ensures InRoom(cs[..i] + cs[i + 1..], r) == InRoom(cs[..i], r) + InRoom(cs[i + 1..], r)
  {
    var a, c, b := cs[..i], cs[i], cs[i + 1..];
    assert InRoom(cs, r) == InRoom(a, r) + InRoom([c], r) + InRoom(b, r) by {
      assert cs == a + ([c] + b);
      InRoomAppend(a, [c] + b, r);
      InRoomAppend([c], b, r);
    }
    InRoomAppend(a, b, r);
  }

  lemma {:induction false} RemoveFirstMiddle(x: seq<Client>, c: Client, y: seq<Client>)
    requires forall k :: 0 <= k < |x| ==> x[k].socket != c.socket
    ensures RemoveFirst(x + [c] + y, c.socket) == x + y
  {
    var s := x + [c] + y;
    RemoveFirstAt(s, c.socket, |x|);
    assert s[..|x|] == x;
    assert s[|x| + 1..] == y;
  }

  lemma {:induction false} InRoomSingle(c: Client, r: string)
    ensures InRoom([c], r) == if c.room == r then [c] else []
  {
    assert [c][..0] == [];
  }

  /** No session before `i` in room `r` shares session `i`'s socket. */
  lemma {:induction false} InRoomOtherSockets(cs: seq<Client>, i: nat, r: string)
    requires i < |cs| && DistinctSockets(cs)
    ensures forall k :: 0 <= k < |InRoom(cs[..i], r)| ==> InRoom(cs[..i], r)[k].socket != cs[i].socket
  {
    var a := cs[..i];
    var x := InRoom(a, r);
    InRoomMembers(a, r);
    forall k | 0 <= k < |x| ensures x[k].socket != cs[i].socket {
      assert x[k] in a;
      var j :| 0 <= j < |a| && a[j] == x[k];
      assert cs[j] == a[j];
    }
  }

  // ---------------------------------------------------------------------
  // The room object

  class ChatRoom {
    const name: string
    var clients: seq<Client>
    var messageHistory: seq<string>

    constructor (name: string)
      ensures this.name == name && clients == [] && messageHistory == []
    {
      this.name := name;
      clients := [];
      messageHistory := [];
    }

    /** addClient: push_back. */
    method AddClient(client: Client)
      modifies this
      ensures clients == old(clients) + [client]
      ensures messageHistory == old(messageHistory)
    {
      clients := clients + [client];
    }

    /** removeClient: erase the first member with the socket, then stop. */
    method RemoveClient(socket: Socket)
      modifies this
      ensures clients == RemoveFirst(old(clients), socket)
      ensures messageHistory == old(messageHistory)
    {
      var i := 0;
      while i < |clients|
        invariant 0 <= i <= |clients|
        invariant forall k :: 0 <= k < i ==> clients[k].socket != socket
      {
        if clients[i].socket == socket {
          RemoveFirstAt(clients, socket, i);
          clients := clients[..i] + clients[i + 1..];
          return;
        }
        i := i + 1;
      }
      RemoveFirstAbsent(clients, socket);
    }

    /** broadcast: the frames sent, in membership order, skipping `exclude`. */
    method Broadcast(message: string, exclude: Socket) returns (sent: seq<Output>)
      ensures sent == BroadcastSends(clients, message, exclude)
    {
      sent := [];
      var i := 0;
      while i < |clients|
        invariant 0 <= i <= |clients|
        invariant sent == BroadcastSends(clients[..i], message, exclude)
      {
        assert clients[..i + 1][..i] == clients[..i];
        if clients[i].socket != exclude {
          sent := sent + [Send(clients[i].socket, message)];
        }
        i := i + 1;
      }
      assert clients[..i] == clients;
    }

    /** addMessage: push_back onto the history. */
    method AddMessage(message: string)
      modifies this
      ensures messageHistory == old(messageHistory) + [message]
      ensures clients == old(clients)
    {
      messageHistory := messageHistory + [message];
    }

    /** sendHistory: every stored frame to one socket, oldest first. */
    method SendHistory(socket: Socket) returns (sent: seq<Output>)
      ensures sent == HistorySends(messageHistory, socket)
    {
      sent := [];
      var i := 0;
      while i < |messageHistory|
        invariant 0 <= i <= |messageHistory|
        invariant sent == HistorySends(messageHistory[..i], socket)
      {
        assert messageHistory[..i + 1][..i] == messageHistory[..i];
        sent := sent + [Send(socket, messageHistory[i])];
        i := i + 1;
      }
      assert messageHistory[..i] == messageHistory;
    }

    /** getMemberList: the header, the usernames joined by ", " in
        membership order, and a newline. */
    method GetMemberList() returns (result: string)
      ensures result == MemberListFrame(name, clients)
    {
      ghost var names := Usernames(clients);
      var head := MemberListHeader + name + ": ";
      result := head;
      var i := 0;
      while i < |clients|
        invariant i <= |clients| && Listed(result, head, names, i)
      {
        ghost var before := result;
        result := result + clients[i].username;
        if i < |clients| - 1 {
          result := result + ", ";
        }
        ListStep(before, head, names, i, result);
        i := i + 1;
      }
      assert names[..i] == names;
      result := result + "\n";
    }
  }
}
