/** The wire protocol seen from both ends: what a client writes is what the
    server parses, and what the server relays or announces is what the
    receiving client's classifier makes of it. */
module Protocol {
  import opened Text
  import Server
  import Room
  import Client

  /** No ':' in the first |p| characters: the first ':' of `p + ":" + q`
      is the one between them. */
  lemma FirstColonAfter(p: string, q: string, from: nat)
    requires ':' !in p && from <= |p|
    ensures FindChar(p + ":" + q, ':', from) == Some(|p|)
  {
    var f := p + ":" + q;
    forall j | from <= j < |p| ensures f[j] != ':' {
      assert f[j] == p[j];
    }
    FindCharIs(f, ':', from, |p|);
  }

  /** The greeting a client sends on connecting is read back by the server
      as that user joining that room. */
  lemma GreetingRoundTrip(username: string, room: string)
    requires ':' !in username
    ensures Server.ParseInit(username + ":" + room) == Some((username, room))
  {
    FirstColonAfter(username, room, 0);
    var f := username + ":" + room;
    assert f[..|username|] == username && f[|username| + 1..] == room;
  }

  /** A private message typed as `@target content` is encoded so that the
      server recovers sender, target and content (with its newline), and
      the frame the server relays is shown by every receiver, the sender's
      own echo included, as a private message from the sender with the
      newline removed. */
  lemma {:induction false} PrivateEndToEnd(username: string, target: string, content: string, receiver: string)
    requires ':' !in username && ':' !in target && ' ' !in target && |content| > 0
    ensures Client.ParseCommand("@" + target + " " + content) == Client.Private(target, content)
    ensures Server.ParsePrivate(Client.PrivateFrame(username, target, content))
      == Some((username, target, content + "\n"))
    ensures Client.Classify(Server.RoutedPrivateFrame(username, content + "\n"), receiver)
      == Client.Event(Client.PrivateReceived, content, username, Some(username))
  {
    Client.TypedPrivate(target, content);
    assert Client.PrivateFrame(username, target, content) == "[PM]" + username + ":" + target + ":" + (content + "\n");
    Server.ParsePrivateRoundTrip(username, target, content + "\n");
    RelayedPrivateShown(username, content, receiver);
  }

  /** The frame the server relays for a private message is shown by any
      receiver as a private message from its sender, newline removed. */
  lemma RelayedPrivateShown(username: string, content: string, receiver: string)
    requires ':' !in username && |content| > 0
    ensures Client.Classify(Server.RoutedPrivateFrame(username, content + "\n"), receiver)
      == Client.Event(Client.PrivateReceived, content, username, Some(username))
  {
    assert Server.RoutedPrivateFrame(username, content + "\n") == "[PM]" + username + ":" + (content + "\n");
    Client.PrivateLine(username, content + "\n", receiver);
  }

  /** A chat line typed by one user reaches another as a Received event
      from that user whose content keeps the space after the colon, as
      long as the frame does not look like a presence notice or a member
      list. */
  lemma ChatEndToEnd(username: string, text: string, receiver: string)
    requires ':' !in username && receiver != username
    requires !IsPrefix("[PM]", Client.ChatFrame(username, text))
    requires !Contains(Client.ChatFrame(username, text), " joined ")
    requires !Contains(Client.ChatFrame(username, text), " left ")
    requires !Contains(Client.ChatFrame(username, text), "Members in room")
    ensures Client.Classify(Client.ChatFrame(username, text), receiver)
      == Client.Event(Client.Received, " " + text, username, Some(username))
  {
    assert Client.ChatFrame(username, text) == username + ":" + (" " + text + "\n");
    Client.ChatLine(username, " " + text + "\n", receiver);
  }

  /** A frame that begins with a name not starting with `[PM]` does not
      start with `[PM]` once a space follows the name. */
  lemma NotPrivate(name: string, rest: string)
    requires !IsPrefix("[PM]", name)
    ensures !IsPrefix("[PM]", name + " " + rest)
  {
    var f := name + " " + rest;
    if |name| >= 4 {
      assert f[..4] == name[..4];
    } else if |f| >= 4 {
      assert f[|name|] == ' ';
      assert f[..4][|name|] == ' ';
    }
  }

  /** The server's join notice is shown as a system event holding the
      frame, for every receiver. */
  lemma JoinFrameIsSystem(username: string, roomName: string, receiver: string)
    requires !IsPrefix("[PM]", username)
    ensures Client.ShownAsSystem(Client.Classify(Server.JoinFrame(username, roomName), receiver),
                                 Server.JoinFrame(username, roomName))
  {
    var n := |username|;
    var join := Server.JoinFrame(username, roomName);
    assert join == username + " " + ("joined room " + roomName + "!\n");
    NotPrivate(username, "joined room " + roomName + "!\n");
    assert OccursAt(join, " joined ", n) by { assert join[n..n + 8] == " joined "; }
    ContainsIff(join, " joined ", n);
    Client.PresenceIsSystem(join, receiver);
  }

  /** Likewise the leave notice. */
  lemma LeaveFrameIsSystem(username: string, roomName: string, receiver: string)
    requires !IsPrefix("[PM]", username)
    ensures Client.ShownAsSystem(Client.Classify(Server.LeaveFrame(username, roomName), receiver),
                                 Server.LeaveFrame(username, roomName))
  {
    var n := |username|;
    var leave := Server.LeaveFrame(username, roomName);
    assert leave == username + " " + ("left room " + roomName + "!\n");
    NotPrivate(username, "left room " + roomName + "!\n");
    assert OccursAt(leave, " left ", n) by { assert leave[n..n + 6] == " left "; }
    ContainsIff(leave, " left ", n);
    Client.PresenceIsSystem(leave, receiver);
  }

  /** The member list a newcomer receives is a system event holding the
      frame, whatever the names in it. */
  lemma MemberListIsSystem(roomName: string, cs: seq<Room.Client>, receiver: string)
    ensures Client.ShownAsSystem(Client.Classify(Room.MemberListFrame(roomName, cs), receiver),
                                 Room.MemberListFrame(roomName, cs))
  {
    var f := Room.MemberListFrame(roomName, cs);
    assert !IsPrefix("[PM]", f) by { assert f[0] == 'M'; }
    assert OccursAt(f, "Members in room", 0) by { assert f[..15] == "Members in room"; }
    ContainsIff(f, "Members in room", 0);
  }

  /** The error for an unknown private-message target is a system event. */
  lemma NotFoundIsSystem(target: string, receiver: string)
    requires ':' !in target
    ensures Client.ShownAsSystem(Client.Classify(Server.NotFoundFrame(target), receiver),
                                 Server.NotFoundFrame(target))
  {
    var f := Server.NotFoundFrame(target);
    assert !IsPrefix("[PM]", f) by { assert f[0] == 'U'; }
    forall j | 0 <= j < |f| ensures f[j] != ':' {
      if 5 <= j < 5 + |target| { assert f[j] == target[j - 5]; }
    }
  }
}
