/** The terminal chat client's protocol handling: the classifier that turns
    each received frame into at most one history event (and may give its
    sender a colour), and the key handler that edits the input line, scrolls
    the history and encodes the line as a chat or private frame on Enter. */
module Client {
  import opened Text

  datatype MessageType = Sent | Received | System | PrivateSent | PrivateReceived

  /** One entry of the client's history (the sender is empty unless given). */
  datatype Message = Message(kind: MessageType, content: string, timestamp: string, sender: string)

  const Cyan: string := "\U{1B}[36m"
  const Yellow: string := "\U{1B}[33m"
  const Magenta: string := "\U{1B}[35m"
  const Blue: string := "\U{1B}[34m"

  /** The colours handed out to other users, in this order. */
  const AvailableColors: seq<string> := [Cyan, Yellow, Magenta, Blue]

  const DisconnectedText: string := "Disconnected from server."

  /** Every colour in the map comes from the palette. */
  predicate Palette(colors: map<string, string>)
  {
    forall u :: u in colors ==> colors[u] in AvailableColors
  }

  // ---------------------------------------------------------------------
  // Receiving

  /** Drops one trailing newline.  The source tests `content.back()`
      without checking for an empty content first; this is the guarded
      version (see PopNewlineAsWritten). */
  function StripNewline(s: string): (r: string)
    ensures |s| > 0 && s[|s| - 1] == '\n' ==> s == r + "\n"
    ensures !(|s| > 0 && s[|s| - 1] == '\n') ==> r == s
  {
    if |s| > 0 && s[|s| - 1] == '\n' then s[..|s| - 1] else s
  }

  /** The newline strip as the source writes it: reading the last character
      of an empty string is undefined behaviour, so the empty case is
      outside its domain. */
  function PopNewlineAsWritten(s: string): (r: string)
    requires |s| > 0
    ensures |r| >= |s| - 1
  {
    if s[|s| - 1] == '\n' then s[..|s| - 1] else s
  }

  /** Wherever the source's strip is defined, the guarded strip agrees. */
  lemma StripAgrees(s: string)
    requires |s| > 0
    ensures StripNewline(s) == PopNewlineAsWritten(s)
  {
  }

  /** Frames that leave nothing after the split: a chat frame ending in its
      first `:` and a private frame ending in the `:` after the sender.  On
      these the source reads the last character of an empty string. */
  lemma EmptyContentFrames()
    ensures var f := "abc:";
      && !IsPrefix("[PM]", f) && !Contains(f, " joined ") && !Contains(f, " left ")
      && !Contains(f, "Members in room") && FindChar(f, ':', 0) == Some(3) && f[4..] == []
    ensures var f := "[PM]a:";
      IsPrefix("[PM]", f) && FindChar(f, ':', 4) == Some(5) && f[6..] == []
  {
    var f := "abc:";
    assert !IsPrefix("[PM]", f) by { assert f[0] != '['; }
    assert Find(f, " joined ", 0).None?;
    assert Find(f, " left ", 0).None?;
    assert Find(f, "Members in room", 0).None?;
    FindCharIs(f, ':', 0, 3);
    var g := "[PM]a:";
    assert g[..4] == "[PM]";
    FindCharIs(g, ':', 4, 5);
  }

  /** With the guard, those frames become events with empty content. */
  lemma EmptyContentClassified(username: string)
    requires username != "abc"
    ensures Classify("abc:", username) == Event(Received, "", "abc", Some("abc"))
    ensures Classify("[PM]a:", username) == Event(PrivateReceived, "", "a", Some("a"))
  {
    EmptyContentFrames();
    assert "abc:"[..3] == "abc";
    assert "[PM]a:"[4..5] == "a";
  }

  /** What one received frame turns into: nothing (a `[PM]` frame with no
      `:` after the tag), or one event together with the user, if any, who
      is to be given a colour when they have none yet. */
  datatype Classified =
    | Dropped
    | Event(kind: MessageType, content: string, sender: string, colorFor: Option<string>)

  /** The receive classifier: private message first, then join/leave
      notices, then `sender:content` chat lines, and anything else is a
      system notice kept verbatim. */
  function Classify(received: string, username: string): Classified
  {
    if IsPrefix("[PM]", received) then
      match FindChar(received, ':', 4)
      case None => Dropped
      case Some(e) =>
        var sender := received[4..e];
        Event(PrivateReceived, StripNewline(received[e + 1..]), sender, Some(sender))
    else if Contains(received, " joined ") || Contains(received, " left ") then
      var colorFor := match FindChar(received, ':', 0)
        case Some(e) => if received[..e] != username then Some(received[..e]) else None
        case None => None;
      Event(System, received, "", colorFor)
    else if FindChar(received, ':', 0).Some? && !Contains(received, "Members in room") then
      var e := FindChar(received, ':', 0).value;
      var sender := received[..e];
      Event(if sender == username then Sent else Received, StripNewline(received[e + 1..]), sender,
            if sender != username then Some(sender) else None)
    else
      Event(System, received, "", None)
  }

  /** The history entries a classified frame appends: none or one. */
  function Appended(c: Classified, timestamp: string): (r: seq<Message>)
    ensures |r| <= 1
    ensures r == [] <==> c.Dropped?
  {
    match c
    case Dropped => []
    case Event(kind, content, sender, _) => [Message(kind, content, timestamp, sender)]
  }

  /** The colour of a user seen for the first time: palette entry
      hash(user) mod 4. */
  function ColorOf(hash: string -> nat, user: string): (r: string)
    ensures r in AvailableColors
  {
    AvailableColors[hash(user) % |AvailableColors|]
  }

  /** The colour map after a classified frame: a user who already has a
      colour keeps it. */
  function Recolor(colors: map<string, string>, c: Classified, hash: string -> nat): map<string, string>
  {
    if c.Event? && c.colorFor.Some? && c.colorFor.value !in colors then
      colors[c.colorFor.value := ColorOf(hash, c.colorFor.value)]
    else colors
  }

  /** Colouring never overwrites, only adds the one user named, and keeps
      every colour inside the palette. */
  lemma RecolorKeeps(colors: map<string, string>, c: Classified, hash: string -> nat)
    requires Palette(colors)
    ensures Palette(Recolor(colors, c, hash))
    ensures forall u :: u in colors ==> u in Recolor(colors, c, hash) && Recolor(colors, c, hash)[u] == colors[u]
    ensures forall u :: u in Recolor(colors, c, hash) && u !in colors ==> c.Event? && c.colorFor == Some(u)
  {
  }

  /** A frame starting with `[PM]` is a private message or nothing, whatever
      else it contains. */
  lemma PrivateFirst(received: string, username: string)
    requires IsPrefix("[PM]", received)
    ensures Classify(received, username).Dropped? <==> FindChar(received, ':', 4).None?
    ensures Classify(received, username).Event? ==> Classify(received, username).kind == PrivateReceived
  {
  }

  /** Outside the private-message path the local user is never given a
      colour (on that path the sender is coloured even when it is the local
      user: see PrivateLine). */
  lemma NeverColorSelf(received: string, username: string)
    requires !IsPrefix("[PM]", received)
    ensures Classify(received, username).Event?
    ensures Classify(received, username).colorFor != Some(username)
  {
  }

  /** The frame is shown verbatim as a system notice. */
  predicate ShownAsSystem(c: Classified, raw: string)
  {
    c.Event? && c.kind == System && c.content == raw && c.sender == ""
  }

  /** Any frame mentioning " joined " or " left " (and not a private message)
      is a system notice holding the frame unchanged, even ordinary chat text
      that happens to contain those words. */
  lemma PresenceIsSystem(received: string, username: string)
    requires !IsPrefix("[PM]", received)
    requires Contains(received, " joined ") || Contains(received, " left ")
    ensures ShownAsSystem(Classify(received, username), received)
  {
  }

  /** The first `:` of `sender:text` is the one after the sender. */
  lemma ColonAfterSender(sender: string, text: string)
    requires ':' !in sender
    ensures FindChar(sender + ":" + text, ':', 0) == Some(|sender|)
    ensures (sender + ":" + text)[..|sender|] == sender
    ensures (sender + ":" + text)[|sender| + 1..] == text
  {
    var f := sender + ":" + text;
    forall j | 0 <= j < |sender| ensures f[j] != ':' {
      assert f[j] == sender[j];
    }
    FindCharIs(f, ':', 0, |sender|);
  }

  /** A chat line `sender:text` from someone else: the sender is the text
      before the first `:`, the content keeps everything after it (its
      leading space included) minus one trailing newline. */
  lemma {:induction false} ChatLine(sender: string, text: string, username: string)
    requires ':' !in sender && sender != username
    requires !IsPrefix("[PM]", sender + ":" + text)
    requires !Contains(sender + ":" + text, " joined ") && !Contains(sender + ":" + text, " left ")
    requires !Contains(sender + ":" + text, "Members in room")
    ensures Classify(sender + ":" + text, username) == Event(Received, StripNewline(text), sender, Some(sender))
  {
    ColonAfterSender(sender, text);
  }

  /** The local user's own chat line, as the server replays it from the
      room history: shown as Sent, and the local user is not coloured. */
  lemma {:induction false} OwnChatLine(sender: string, text: string)
    requires ':' !in sender
    requires !IsPrefix("[PM]", sender + ":" + text)
    requires !Contains(sender + ":" + text, " joined ") && !Contains(sender + ":" + text, " left ")
    requires !Contains(sender + ":" + text, "Members in room")
    ensures Classify(sender + ":" + text, sender) == Event(Sent, StripNewline(text), sender, None)
  {
    ColonAfterSender(sender, text);
  }

  /** A private message `[PM]sender:text` is shown to any user, the sender
      included, as PrivateReceived from the sender with one trailing newline
      removed, and the sender is coloured even when it is the local user. */
  lemma {:induction false} PrivateLine(sender: string, text: string, username: string)
    requires ':' !in sender
    ensures Classify("[PM]" + sender + ":" + text, username)
      == Event(PrivateReceived, StripNewline(text), sender, Some(sender))
    ensures Classify("[PM]" + sender + ":" + text, username).colorFor == Some(sender)
  {
    var f := "[PM]" + sender + ":" + text;
    assert f == ("[PM]" + sender) + ":" + text;
    assert IsPrefix("[PM]", f) by { assert f[..4] == "[PM]"; }
    forall j | 4 <= j < 4 + |sender| ensures f[j] != ':' {
      assert f[j] == sender[j - 4];
    }
    FindCharIs(f, ':', 4, 4 + |sender|);
    assert f[4..4 + |sender|] == sender;
    assert f[4 + |sender| + 1..] == text;
  }

  // ---------------------------------------------------------------------
  // Sending

  /** What Enter does with the input line. */
  datatype Command = Quit | Nothing | Private(target: string, content: string) | Chat(text: string)

  /** `exit` quits, an empty line does nothing, `@target content` is a
      private message (nothing when there is no space or no content), and
      anything else is a chat line. */
  function ParseCommand(input: string): Command
  {
    if input == "exit" then Quit
    else if input == [] then Nothing
    else if input[0] == '@' then
      match FindChar(input, ' ', 0)
      case None => Nothing
      case Some(sp) =>
        if sp + 1 < |input| then Private(input[1..sp], input[sp + 1..]) else Nothing
    else Chat(input)
  }

  function PrivateFrame(username: string, target: string, content: string): string
  {
    "[PM]" + username + ":" + target + ":" + content + "\n"
  }

  function ChatFrame(username: string, text: string): string
  {
    username + ": " + text + "\n"
  }

  /** Typing `@target content` (target without spaces, content non-empty)
      yields exactly that private message: the parse inverts the typing. */
  lemma {:induction false} TypedPrivate(target: string, content: string)
    requires ' ' !in target && |content| > 0
    ensures ParseCommand("@" + target + " " + content) == Private(target, content)
  {
    var line := "@" + target + " " + content;
    var sp := |target| + 1;
    forall j | 0 <= j < sp ensures line[j] != ' ' {
      if j > 0 { assert line[j] == target[j - 1]; }
    }
    FindCharIs(line, ' ', 0, sp);
    assert line[1..sp] == target && line[sp + 1..] == content;
  }

  /** An `@` line without a space, or with nothing after the first space,
      sends nothing. */
  lemma IncompletePrivate(input: string)
    requires |input| > 0 && input[0] == '@'
    requires FindChar(input, ' ', 0).None? || FindChar(input, ' ', 0).value == |input| - 1
    ensures ParseCommand(input) == Nothing
  {
  }

  /** Any other non-empty line is sent as chat, unchanged. */
  lemma TypedChat(input: string)
    requires |input| > 0 && input[0] != '@' && input != "exit"
    ensures ParseCommand(input) == Chat(input)
  {
  }

  // ---------------------------------------------------------------------
  // Editing and scrolling

  predicate Printable(ch: char)
  {
    32 <= ch as int <= 126
  }

  /** The input line after a key other than Enter and ESC: byte 127 deletes
      the last character if there is one, printable bytes are appended,
      everything else is ignored. */
  function EditInput(input: string, ch: char): string
  {
    if ch as int == 127 && input != [] then input[..|input| - 1]
    else if ch as int == 27 then input
    else if Printable(ch) then input + [ch]
    else input
  }

  /** The scroll offset after ESC followed by `following` (fewer than two
      characters when the reads after ESC came back empty): `[A` scrolls up
      only when the history is taller than the message area, `[B` scrolls
      down only while above the bottom. */
  function ScrollAfter(scroll: nat, count: nat, height: int, following: seq<char>): nat
  {
    if |following| >= 2 && following[0] == '[' && following[1] == 'A' && count > height - 3 then scroll + 1
    else if |following| >= 2 && following[0] == '[' && following[1] == 'B' && scroll > 0 then scroll - 1
    else scroll
  }

  /** Backspace undoes a typed character. */
  lemma TypeThenDelete(input: string, ch: char)
    requires Printable(ch)
    ensures EditInput(EditInput(input, ch), 127 as char) == input
  {
    assert (input + [ch])[..|input|] == input;
  }

  /** The input line only ever holds printable characters. */
  lemma EditKeepsPrintable(input: string, ch: char)
    requires forall j :: 0 <= j < |input| ==> Printable(input[j])
    ensures forall j :: 0 <= j < |EditInput(input, ch)| ==> Printable(EditInput(input, ch)[j])
    ensures |EditInput(input, ch)| <= |input| + 1
  {
  }

  /** Scrolling up and then down comes back to the same place, and so does
      down then up once the history overflows the screen. */
  lemma ScrollRoundTrip(scroll: nat, count: nat, height: int)
    requires count > height - 3
    ensures ScrollAfter(ScrollAfter(scroll, count, height, "[A"), count, height, "[B") == scroll
    ensures scroll > 0 ==> ScrollAfter(ScrollAfter(scroll, count, height, "[B"), count, height, "[A") == scroll
  {
  }

  /** While the whole history fits, `[A` does nothing; at the bottom `[B`
      does nothing. */
  lemma ScrollBounds(scroll: nat, count: nat, height: int)
    ensures count <= height - 3 ==> ScrollAfter(scroll, count, height, "[A") == scroll
    ensures ScrollAfter(0, count, height, "[B") == 0
  {
  }

  // ---------------------------------------------------------------------
  // The client state

  class ChatClient {
    const username: string
    const room: string
    /** std::hash<std::string>, whose values the source does not fix. */
    const hash: string -> nat
    var userColors: map<string, string>
    var messages: seq<Message>
    var currentInput: string
    var running: bool
    var terminalHeight: int
    var scrollOffset: nat
    /** Frames written to the server socket, oldest first. */
    var outbox: seq<string>

    predicate Valid()
      reads this
    {
      terminalHeight >= 24 && Palette(userColors)
    }

    /** Connecting sends the `username:room` greeting. */
    constructor (username: string, room: string, hash: string -> nat)
      ensures Valid()
      ensures this.username == username && this.room == room && this.hash == hash
      ensures outbox == [username + ":" + room]
      ensures messages == [] && userColors == map[] && currentInput == ""
      ensures running && scrollOffset == 0 && terminalHeight == 24
    {
      this.username := username;
      this.room := room;
      this.hash := hash;
      userColors := map[];
      messages := [];
      currentInput := "";
      running := true;
      terminalHeight := 24;
      scrollOffset := 0;
      outbox := [username + ":" + room];
    }

    /** A user seen for the first time gets the palette colour of their hash. */
    method GiveColor(sender: string)
      requires Valid()
      modifies this`userColors
      ensures Valid()
      ensures userColors == if sender in old(userColors) then old(userColors)
                            else old(userColors)[sender := ColorOf(hash, sender)]
    {
      if sender !in userColors {
        var colorIndex := hash(sender) % |AvailableColors|;
        userColors := userColors[sender := AvailableColors[colorIndex]];
      }
    }

    /** One frame read from the server, tried against the classifier's
        rules in order. */
    method Receive(received: string, timestamp: string)
      requires Valid()
      modifies this`messages, this`userColors, this`scrollOffset
      ensures Valid()
      ensures messages == old(messages) + Appended(Classify(received, username), timestamp)
      ensures userColors == Recolor(old(userColors), Classify(received, username), hash)
      ensures scrollOffset == 0
    {
      if IsPrefix("[PM]", received) {
        ReceivePrivate(received, timestamp);
      } else if Contains(received, " joined ") || Contains(received, " left ") {
        ReceivePresence(received, timestamp);
      } else if FindChar(received, ':', 0).Some? && !Contains(received, "Members in room") {
        ReceiveChat(received, timestamp);
      } else {
        assert Classify(received, username) == Event(System, received, "", None);
        messages := messages + [Message(System, received, timestamp, "")];
      }
      scrollOffset := 0;
    }

    /** `[PM]sender:content`: a private message, or nothing without a `:`. */
    method ReceivePrivate(received: string, timestamp: string)
      requires Valid() && IsPrefix("[PM]", received)
      modifies this`messages, this`userColors
      ensures Valid()
      ensures messages == old(messages) + Appended(Classify(received, username), timestamp)
      ensures userColors == Recolor(old(userColors), Classify(received, username), hash)
    {
      var senderEnd := FindChar(received, ':', 4);
      if senderEnd.Some? {
        var sender := received[4..senderEnd.value];
        var content := StripNewline(received[senderEnd.value + 1..]);
        ghost var c := Event(PrivateReceived, content, sender, Some(sender));
        assert Classify(received, username) == c;
        assert Appended(c, timestamp) == [Message(PrivateReceived, content, timestamp, sender)];
        GiveColor(sender);
        messages := messages + [Message(PrivateReceived, content, timestamp, sender)];
      } else {
        assert Classify(received, username) == Dropped;
      }
    }

    /** A join or leave notice: kept verbatim; the text before a `:`, if
        any, is coloured unless it is the local user. */
    method ReceivePresence(received: string, timestamp: string)
      requires Valid() && !IsPrefix("[PM]", received)
      requires Contains(received, " joined ") || Contains(received, " left ")
      modifies this`messages, this`userColors
      ensures Valid()
      ensures messages == old(messages) + Appended(Classify(received, username), timestamp)
      ensures userColors == Recolor(old(userColors), Classify(received, username), hash)
    {
      var colon := FindChar(received, ':', 0);
      assert Classify(received, username) == Event(System, received, "",
        if colon.Some? && received[..colon.value] != username then Some(received[..colon.value]) else None);
      if colon.Some? {
        var sender := received[..colon.value];
        if sender != username {
          GiveColor(sender);
        }
      }
      messages := messages + [Message(System, received, timestamp, "")];
    }

    /** `sender:content`: the local user's own line is Sent, anyone else's
        Received and coloured. */
    method ReceiveChat(received: string, timestamp: string)
      requires Valid() && !IsPrefix("[PM]", received)
      requires !Contains(received, " joined ") && !Contains(received, " left ")
      requires FindChar(received, ':', 0).Some? && !Contains(received, "Members in room")
      modifies this`messages, this`userColors
      ensures Valid()
      ensures messages == old(messages) + Appended(Classify(received, username), timestamp)
      ensures userColors == Recolor(old(userColors), Classify(received, username), hash)
    {
      var colon := FindChar(received, ':', 0).value;
      var sender := received[..colon];
      var content := StripNewline(received[colon + 1..]);
      assert Classify(received, username) == Event(if sender == username then Sent else Received, content, sender,
                                                   if sender != username then Some(sender) else None);
      if sender != username {
        GiveColor(sender);
      }
      if sender == username {
        messages := messages + [Message(Sent, content, timestamp, sender)];
      } else {
        messages := messages + [Message(Received, content, timestamp, sender)];
      }
    }

    /** The server closed the connection (or the read failed). */
    method Disconnect(timestamp: string)
      modifies this`messages, this`running
      ensures messages == old(messages) + [Message(System, DisconnectedText, timestamp, "")]
      ensures !running
    {
      messages := messages + [Message(System, DisconnectedText, timestamp, "")];
      running := false;
    }

    /** The state after Enter, as ParseCommand reads the line. */
    twostate predicate Submitted(timestamp: string)
      reads this
    {
      match ParseCommand(old(currentInput))
      case Quit =>
        && !running && outbox == old(outbox) && messages == old(messages)
        && currentInput == old(currentInput) && scrollOffset == old(scrollOffset)
      case Nothing =>
        && running == old(running) && outbox == old(outbox) && messages == old(messages)
        && currentInput == old(currentInput) && scrollOffset == old(scrollOffset)
      case Private(target, content) =>
        && outbox == old(outbox) + [PrivateFrame(username, target, content)]
        && messages == old(messages) + [Message(PrivateSent, content, timestamp, target)]
        && currentInput == "" && scrollOffset == 0 && running == old(running)
      case Chat(text) =>
        && outbox == old(outbox) + [ChatFrame(username, text)]
        && messages == old(messages) + [Message(Sent, text, timestamp, "")]
        && currentInput == "" && scrollOffset == 0 && running == old(running)
    }

    /** Enter: act on the input line. */
    method Submit(timestamp: string)
      modifies this`running, this`outbox, this`messages, this`currentInput, this`scrollOffset
      ensures Submitted(timestamp)
    {
      if currentInput == "exit" {
        running := false;
      } else if currentInput != [] {
        if currentInput[0] == '@' {
          var firstSpace := FindChar(currentInput, ' ', 0);
          if firstSpace.Some? {
            var targetUser := currentInput[1..firstSpace.value];
            var pmContent := currentInput[firstSpace.value + 1..];
            if pmContent != [] {
              outbox := outbox + [PrivateFrame(username, targetUser, pmContent)];
              messages := messages + [Message(PrivateSent, pmContent, timestamp, targetUser)];
              currentInput := "";
              scrollOffset := 0;
            }
          }
        } else {
          outbox := outbox + [ChatFrame(username, currentInput)];
          messages := messages + [Message(Sent, currentInput, timestamp, "")];
          currentInput := "";
          scrollOffset := 0;
        }
      }
    }

    /** One byte from the keyboard; `following` is what the two reads after
        an ESC byte delivered. */
    method HandleKey(ch: char, following: seq<char>, timestamp: string)
      requires Valid()
      modifies this`running, this`outbox, this`messages, this`currentInput, this`scrollOffset
      ensures Valid()
      ensures ch == '\n' ==> Submitted(timestamp)
      ensures ch != '\n' ==>
        && currentInput == EditInput(old(currentInput), ch)
        && scrollOffset == (if ch as int == 27 then ScrollAfter(old(scrollOffset), |messages|, terminalHeight, following)
                            else old(scrollOffset))
        && unchanged(this`running, this`outbox, this`messages)
    {
      if ch == '\n' {
        Submit(timestamp);
      } else if ch as int == 127 && currentInput != [] {
        currentInput := currentInput[..|currentInput| - 1];
      } else if ch as int == 27 {
        if |following| >= 2 {
          if following[0] == '[' && following[1] == 'A' && |messages| > terminalHeight - 3 {
            scrollOffset := scrollOffset + 1;
          } else if following[0] == '[' && following[1] == 'B' && scrollOffset > 0 {
            scrollOffset := scrollOffset - 1;
          }
        }
      } else if Printable(ch) {
        currentInput := currentInput + [ch];
      }
    }
  }
}
