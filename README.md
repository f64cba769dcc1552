# Chat room server and terminal client: a Dafny model

The program is a small TCP chat system. The server (`new_server.cpp`) keeps two tables:

- a registry of named rooms (`std::map<string, ChatRoom>`). Each room has an ordered member list and an append-only message history;
- a session table (`std::vector<Client>`) of connected users and the room each one named.

Its `select` loop handles three kinds of readiness:

- **accept**: reads the `username:room` greeting, registers the session, replays the room's history, sends the member list and announces the join;
- **data**: routes a `[PM]sender:target:text` frame to the first session with that username, or stores a chat frame in the room history and relays it to the other members;
- **close**: removes the session, announces the departure, and drops a room that has become empty.

The client (`new_client.cpp`) has three parts:

- a classifier that turns each received frame into at most one history event and hands out colours to new senders;
- a key handler that edits the input line, scrolls the history, and encodes the line on Enter as a chat or private-message frame;
- a markup formatter that turns `**bold**`, `*italic*` and `__underline__` into ANSI escape codes.

The model has five modules:

- `Text` (text.dfy): `std::string::find` on strings and characters, plus prefix and occurrence tests.
- `Room` (room.dfy): the `ChatRoom` class, whose methods update its `clients` and `messageHistory` fields in place. Alongside it are specification functions for:
  - removing a member (`RemoveFirst`);
  - broadcasting with an excluded socket (`BroadcastSends`);
  - replaying history (`HistorySends`);
  - the member-list frame (`MemberListFrame`);
  - a room's sessions in join order (`InRoom`).
- `Server` (server.dfy): the `ChatServer` class.
  - It holds the room registry `rooms`, the session table `clients` and an `outbox` of sends and socket closes.
  - Ghost fields `members` and `histories` mirror every room object's fields.
  - `Valid()` states the coupled invariant:
    - every session is a member of the room it names, and each room's member list is exactly its sessions in join order;
    - every registered room has at least one member;
    - sockets are distinct.
  - The accept, data and close branches of `run()` are methods that keep this invariant. Each states its full effect on both tables and on the outbox.
  - The sweep over the session table is a loop that erases closed sessions while it iterates.
- `Markup` (markup.dfy): `formatMessage` as a loop method proved equal to a step function that follows the source's else-if chain. `visibleLength` is likewise a loop method proved equal to a scan function.
- `Client` (client.dfy): the classifier as a function plus the `ChatClient` class, whose methods `Receive`, `Disconnect`, `Submit` and `HandleKey` update `messages`, `userColors`, `currentInput`, `scrollOffset`, `running` and an outbox of frames sent to the server.
- `Protocol` (protocol.dfy): the two ends together. A client's greeting, private messages and chat lines are read back by the server and by the receiving client as they were meant. Every frame the server makes up itself is shown as a system notice.

Sockets are integers, and `INVALID_SOCKET` is −1. A `send` becomes an appended `Send(socket, frame)` and `closesocket` becomes `CloseSocket(socket)`. A `recv` result is `Closed` or `Bytes(data)`; as in the source, one read is one frame. `std::hash<std::string>` is a function given to the client's constructor. Timestamps are parameters.

Where the code's behaviour may surprise a reader, the model follows the code:

- **Member list on join.** The member list a newcomer receives already includes the newcomer. The replayed history holds the earlier members' join notices, so it is not empty.
- **Received chat text.** A received chat line keeps the space after the colon, so `A: hello\n` shows as ` hello`.
- **Classifier order.** The code folds "member list" and "contains `:`" into one test. The outcome is the same, a system notice for a member list.
- **Private-message echo.** A private message comes back to its own sender as a `PrivateReceived` event from itself. This is in addition to the local `PrivateSent` entry (`Protocol.PrivateEndToEnd` holds for every receiver).
- **Unchecked sender field.** The server relays the sender field of a `[PM]` frame without checking it against the session's username.
- **Usernames starting with `[PM]`.** Such a user's join and leave notices start with `[PM]` too, so every client takes them for private messages. `Protocol.JoinFrameIsSystem` and `Protocol.LeaveFrameIsSystem` therefore require that the username does not start with `[PM]`.

## Model

| member | source | states |
|---|---|---|
| Text.Find | new_server.cpp:238 | the result is the first occurrence of the pattern at or after the start position, or none when there is none |
| Text.FindChar | new_server.cpp:185 | the result is the first index at or after the start holding the character, or none when there is none |
| Room.ChatRoom.constructor | new_server.cpp:41 | a new room has its name, no members and no history |
| Room.ChatRoom.AddClient | new_server.cpp:44-46 | the member list becomes the old one with the client appended; history unchanged |
| Room.ChatRoom.RemoveClient | new_server.cpp:48-55 | the member list becomes RemoveFirst of the old one; history unchanged |
| Room.RemoveFirstAt | new_server.cpp:48-55 | when member i is the first with the socket, exactly that member is removed and the others keep their order |
| Room.RemoveFirstAbsent | new_server.cpp:48-55 | when no member has the socket, removal changes nothing |
| Room.RemoveFirstMiddle | new_server.cpp:48-55 | a member whose socket no earlier member shares is removed from its place, leaving prefix and suffix joined |
| Room.ChatRoom.Broadcast | new_server.cpp:57-63 | the sends are BroadcastSends of the members, the message and the excluded socket |
| Room.BroadcastFrames | new_server.cpp:57-63 | every broadcast send carries the message and none goes to the excluded socket |
| Room.BroadcastAt | new_server.cpp:57-63 | each non-excluded member i receives the message at position Rank(i), so sends follow membership order |
| Room.BroadcastExactlyOnce | new_server.cpp:57-63 | with distinct sockets, a socket receives exactly one copy if it belongs to a non-excluded member and none otherwise |
| Room.BroadcastCount | new_server.cpp:57-63 | a broadcast makes one send fewer than there are members exactly when the excluded socket is a member |
| Room.ChatRoom.AddMessage | new_server.cpp:65-67 | the history becomes the old one with the message appended; members unchanged |
| Room.HistorySends | new_server.cpp:69-73 | history replay has one send per stored frame, the k-th frame to the given socket at position k |
| Room.ChatRoom.SendHistory | new_server.cpp:69-73 | the sends are HistorySends of the history to the socket |
| Room.ChatRoom.GetMemberList | new_server.cpp:75-83 | the built string is `Members in room <name>: `, the usernames joined by `, ` in membership order, then a newline |
| Room.Usernames | new_server.cpp:77-80 | the names listed are the members' usernames, one per member, in order |
| Room.JoinSnoc | new_server.cpp:77-80 | adding a name to a non-empty list adds a separator and the name at the end |
| Room.SplitJoin | new_server.cpp:75-83 | for a non-empty list, the member list can be read back into the usernames when no username contains a comma |
| Room.InRoomMembers | new_server.cpp:194-201 | a session is among a room's sessions exactly when it is in the table and names that room |
| Room.InRoomEmpty | new_server.cpp:230-232 | a room has no sessions exactly when no session in the table names it |
| Room.InRoomAppend | new_server.cpp:194-201 | a room's sessions in a joined table are those of each part, in order |
| Room.InRoomErase | new_server.cpp:223-225 | erasing session i from the table removes it from its room's member list (the first with its socket) and from no other room's |
| Server.ParseInit | new_server.cpp:184-192 | no result exactly when the greeting has no `:`; otherwise username and room rebuild the greeting around the first `:` and the username has no `:` |
| Server.ParsePrivate | new_server.cpp:238-244 | no result exactly when there are not two `:` after index 4; otherwise sender and target are `:`-free and rebuild the frame after the tag |
| Server.ParsePrivateRoundTrip | new_server.cpp:238-244 | a private frame built from `:`-free sender and target parses back into sender, target and content |
| Server.FirstWithUsername | new_server.cpp:96-103 | the index found holds the username and no earlier session does; none when no session does |
| Server.ChatServer.FindClientByUsername | new_server.cpp:96-103 | the loop returns the index of the first session with the username, as FirstWithUsername |
| Server.PrivateRouting | new_server.cpp:238-255 | a well-formed private message is relayed as `[PM]sender:content` to the first session with the target name and then to the sender; an unknown target only earns the sender `User <t> not found.` |
| Server.ConsistentMembership | new_server.cpp:194-232 | under the table invariant every session is in its room's member list, and a room is registered exactly when some session names it |
| Server.AcceptKeepsConsistent | new_server.cpp:194-201 | appending a new session with a fresh socket to the table and to its room's list (created empty if absent) keeps the invariant |
| Server.EraseKeepsConsistent | new_server.cpp:219-232 | erasing session i from the table and from its room, and dropping that room if emptied, keeps the invariant |
| Server.EraseElements | new_server.cpp:225 | erasing a session keeps the remaining sockets distinct |
| Server.ChatServer.constructor | new_server.cpp:89-90 | a new server has no rooms, no sessions and no output, and satisfies the invariant |
| Server.ChatServer.AcceptConnection | new_server.cpp:167-210 | registered iff the greeting has a `:`; otherwise only the socket is closed; otherwise session appended, room created if needed, then the newcomer gets the history, then the member list including itself, then the join notice is stored and sent to every earlier member |
| Server.ChatServer.Register | new_server.cpp:194-210 | the session joins table and room; outbox gains history replay, member list and join broadcast to the earlier members, in that order |
| Server.ChatServer.AdmitSession | new_server.cpp:194-195 | the session is appended to the table and the invariant holds with it appended to its room |
| Server.ChatServer.OpenRoom | new_server.cpp:197-200 | the room exists afterwards; an existing room keeps its members and history, a new one starts empty |
| Server.ChatServer.CreateRoom | new_server.cpp:197-200 | a new name gets a fresh room object registered under it, with no members and no history; every other room is untouched |
| Server.ChatServer.AddToRoom | new_server.cpp:201-206 | the client is appended to the room's members; the outbox gains the history replay and then the member list |
| Server.ChatServer.Announce | new_server.cpp:208-210 | the frame is appended to the room history and sent to every member but the excluded socket, in membership order |
| Server.BroadcastSkipsSender | new_server.cpp:210 | broadcasting the join notice with the newcomer excluded reaches exactly the members who were there before |
| Server.ChatServer.JoinRoom | new_server.cpp:197-210 | the room side of accept: members, history and outbox as AcceptConnection states them |
| Server.ChatServer.HandleDisconnect | new_server.cpp:219-232 | the session leaves table and room, its socket is closed, the leave notice is stored and sent to all remaining members; an emptied room is erased with its history |
| Server.ChatServer.LeaveRoom | new_server.cpp:223-232 | the room side of close: member removed, socket closed, leave notice stored and broadcast, room erased when empty |
| Server.ChatServer.RemoveFromRoom | new_server.cpp:223-224 | the first member with the socket leaves the room and the socket is closed |
| Server.ChatServer.EraseSession | new_server.cpp:225-226 | the session is erased from the table and the invariant holds for the updated room lists |
| Server.ChatServer.DropIfEmpty | new_server.cpp:230-232 | a room without members is erased from the registry with its history; any other room is kept |
| Server.ChatServer.HandleData | new_server.cpp:233-260 | a frame starting `[PM]` produces PrivateOutputs and touches no history; any other frame is appended to the sender's room history and sent to that room's other members only; tables unchanged |
| Server.ChatServer.RoutePrivate | new_server.cpp:238-255 | the outbox gains exactly PrivateOutputs of the frame |
| Server.ChatServer.ServiceSession | new_server.cpp:214-262 | a session is closed exactly when its read reported `Closed`, and then it is erased from the table; otherwise the table is unchanged |
| Server.SurvivorsSnoc | new_server.cpp:213-226 | the sessions surviving a sweep of one more session are the earlier survivors plus that session unless it closed |
| Server.ChatServer.ServiceReady | new_server.cpp:213-263 | the erase-while-iterating sweep leaves exactly the sessions whose read did not report `Closed`, in order, and keeps the invariant |
| Server.SweepAdvance | new_server.cpp:213-263 | one session's turn moves the sweep on by one: the table is the survivors so far followed by the sessions still to come, and the survivors grow by one exactly when the session was kept |
| Server.ChatServer.Poll | new_server.cpp:166-263 | a failed accept or a dropped greeting skips the sweep; otherwise the table after the iteration is the survivors of the old table plus the newcomer |
| Markup.Step | new_client.cpp:203-228 | each iteration of the formatting loop moves `pos` strictly forward and never past the end |
| Markup.FormatMessage | new_client.cpp:200-230 | the loop's result is the concatenation of the steps from position 0 |
| Markup.FormatTurn | new_client.cpp:203-228 | one pass of the loop body appends exactly one formatting step's output and advances to that step's next position |
| Markup.FormatPlain | new_client.cpp:200-230 | text with no `*` and no `_` comes back unchanged |
| Markup.FormatBold | new_client.cpp:204-210 | `**x**` with no `*` in x becomes BOLD + x + RESET |
| Markup.FormatItalic | new_client.cpp:211-217 | `*x*` with non-empty x free of `*` becomes ITALIC + x + RESET |
| Markup.FormatUnderline | new_client.cpp:218-224 | `__x__` with no `_` in x becomes UNDERLINE + x + RESET |
| Markup.UnmatchedStar | new_client.cpp:211-228 | a `*` with no later `*` is copied literally |
| Markup.UnmatchedUnderscore | new_client.cpp:218-228 | a `_` that opens no closed `__` pair is copied literally: a lone `_` (even before a later closed pair), or a `__` with no `__` after it |
| Markup.UnclosedDoubleStar | new_client.cpp:204-228 | an unclosed `**` copies one `*` and moves on by one |
| Markup.UnclosedBoldFallsThrough | new_client.cpp:204-228 | `**a*` formats as a literal `*` followed by italic `a` |
| Markup.CountVisible | new_client.cpp:260-275 | the escape-skipping count equals the length of the visible characters |
| Markup.VisibleAppend | new_client.cpp:260-275 | scanning a concatenation is scanning the parts in turn, carrying the in-escape flag |
| Markup.VisiblePlain | new_client.cpp:260-275 | text without ESC is shown as it is and leaves the scan outside an escape |
| Markup.VisibleSpan | new_client.cpp:260-275 | a formatted span shows exactly its inner text |
| Markup.FormattedNarrower | new_client.cpp:260-275 | on text without ESC the formatted result is never visibly wider than the raw text |
| Markup.StepVisible | new_client.cpp:203-228 | one formatting step shows at most as many characters as it consumes |
| Client.StripNewline | new_client.cpp:444 | one trailing newline is removed when present, and otherwise the text is kept |
| Client.PopNewlineAsWritten | new_client.cpp:469 | the source's strip, defined only on non-empty text |
| Client.StripAgrees | new_client.cpp:469 | wherever the source's strip is defined, the guarded strip agrees with it |
| Client.EmptyContentFrames | new_client.cpp:465-469 | `abc:` and `[PM]a:` reach the strip with empty content |
| Client.EmptyContentClassified | new_client.cpp:439-479 | with the guard those frames become events with empty content |
| Client.Appended | new_client.cpp:434-483 | a received frame appends at most one event, and none exactly when it is dropped |
| Client.ColorOf | new_client.cpp:446 | a new colour is always drawn from the four-colour palette |
| Client.RecolorKeeps | new_client.cpp:445-473 | colouring keeps every colour inside the palette, never changes an existing user's colour, and adds only the user named by the frame |
| Client.PrivateFirst | new_client.cpp:439-451 | a frame starting `[PM]` is a private message, or nothing exactly when there is no `:` after index 4, whatever else it contains |
| Client.NeverColorSelf | new_client.cpp:453-479 | outside the private-message path the local user is never given a colour |
| Client.PrivateLine | new_client.cpp:439-451 | `[PM]sender:text` is shown to any user, the sender included, as PrivateReceived from the sender with one trailing newline removed, and the sender is coloured even when it is the local user |
| Client.PresenceIsSystem | new_client.cpp:453-463 | any non-private frame mentioning ` joined ` or ` left ` is a system notice holding the frame unchanged |
| Client.ChatLine | new_client.cpp:465-479 | a frame `sender:text` from someone else is Received from that sender, with the content after the first `:` minus one trailing newline |
| Client.OwnChatLine | new_client.cpp:465-476 | the local user's own line `sender:text` (as replayed from the room history) is shown as Sent with the content after the first `:` minus one trailing newline, and the local user gets no colour |
| Client.ChatClient.constructor | new_client.cpp:330-367 | a new client is running, empty, and has sent `username:room` |
| Client.ChatClient.GiveColor | new_client.cpp:445-447 | a user without a colour gets the palette colour of their hash; one who has a colour keeps it |
| Client.ChatClient.Receive | new_client.cpp:434-483 | history gains exactly the classified event (if any); the colour map is updated by Recolor; scroll offset reset to 0; palette invariant kept |
| Client.ChatClient.ReceivePrivate | new_client.cpp:439-451 | a `[PM]` frame appends the private message the classifier yields, or nothing when no `:` follows the tag; colours updated by Recolor |
| Client.ChatClient.ReceivePresence | new_client.cpp:453-463 | a join or leave notice appends the system event holding the frame; colours updated by Recolor |
| Client.ChatClient.ReceiveChat | new_client.cpp:465-479 | a frame with a `:` and no member-list header appends the chat event (Sent or Received) the classifier yields; colours updated by Recolor |
| Client.ChatClient.Disconnect | new_client.cpp:428-431 | a `Disconnected from server.` system event is appended and the client stops running |
| Client.ChatClient.Submit | new_client.cpp:539-563 | `exit` stops the client; an empty or incomplete `@` line changes nothing; a private line sends the private frame and logs PrivateSent; any other line sends the chat frame and logs Sent; both sends clear input and scroll |
| Client.ChatClient.HandleKey | new_client.cpp:537-577 | Enter submits; any other key edits the input as EditInput and, for ESC, scrolls as ScrollAfter, without sending or logging anything |
| Client.TypedPrivate | new_client.cpp:545-556 | typing `@target content` with a space-free target and non-empty content is read as that private message |
| Client.IncompletePrivate | new_client.cpp:545-551 | an `@` line with no space, or nothing after the first space, sends nothing |
| Client.TypedChat | new_client.cpp:557-562 | any other non-empty line not equal to `exit` is sent as chat unchanged |
| Client.TypeThenDelete | new_client.cpp:564-577 | byte 127 undoes a typed printable character |
| Client.EditKeepsPrintable | new_client.cpp:564-577 | the input line only ever holds bytes 32 to 126 and grows by at most one per key |
| Client.ScrollRoundTrip | new_client.cpp:566-574 | once the history overflows the message area, scrolling up then down (or down then up above the bottom) returns to the same offset |
| Client.ScrollBounds | new_client.cpp:566-574 | scrolling up does nothing while the history fits; scrolling down at the bottom does nothing |
| Protocol.GreetingRoundTrip | new_client.cpp:366-367 | the greeting `username:room` is parsed by the server back into that username and room when the username has no `:` |
| Protocol.PrivateEndToEnd | new_server.cpp:238-249 | an `@target content` line is encoded so the server recovers sender, target and content, and the relayed frame is shown by every receiver as a private message from the sender with the content typed |
| Protocol.RelayedPrivateShown | new_server.cpp:246-249 | the frame the server relays for a private message is shown by any receiver as a private message from the sender, newline removed |
| Protocol.ChatEndToEnd | new_client.cpp:465-479 | a chat line reaches another user as Received from the sender, with a leading space, unless it looks like a presence notice or member list |
| Protocol.JoinFrameIsSystem | new_server.cpp:208-210 | the join notice is shown as a system notice holding the frame |
| Protocol.LeaveFrameIsSystem | new_server.cpp:227-229 | the leave notice is shown as a system notice holding the frame |
| Protocol.MemberListIsSystem | new_server.cpp:75-83 | the member list is always shown as a system notice holding the frame, whatever the usernames |
| Protocol.NotFoundIsSystem | new_server.cpp:252-253 | the unknown-target error is shown as a system notice when the target has no `:` |

## Left out

- Sockets, `select`, `accept`, `recv`, `send`, `fcntl`, `WSAStartup` and the client's connect and non-blocking setup are operating-system I/O. They are replaced by the `Incoming`/`RecvResult` parameters and the outboxes. A failed accept is `AcceptFailed`; socket handles are assumed distinct from each other and from −1.
- One `recv` is taken to be exactly one frame of at most 1024 bytes, as the code assumes. Partial reads and reassembly are not modelled.
- Server.ChatServer.Poll: a socket accepted in the same iteration is in the readiness map only if the caller puts it there. The `FD_ISSET` behaviour of a descriptor that was not in the `select` set is not modelled.
- Server.ChatServer.ServiceReady: states only the session table after the sweep. The outbox and histories are stated per session by ServiceSession's callees, HandleData and HandleDisconnect, not folded into one function of the whole sweep.
- Server.ChatServer.ServiceSession: states the table and the closed/kept outcome only; its effect on rooms and the outbox is the one HandleData or HandleDisconnect states.
- Server.ChatServer.Poll: states the session table only, for the same reason as ServiceReady.
- The `--i` after an erase in the sweep is modelled as not advancing the index. The `size_t` wrap to the maximum value and back to 0 is not modelled.
- Server.ChatServer.FindClientByUsername returns an index rather than a pointer into the table.
- Server-side logging to `std::cout`, the listening-socket setup of the constructor, and `main` argument parsing in both programs are console output and process startup.
- Rendering and terminal control are presentation:
  - `render`, `showWelcomeAnimation`, `getTerminalSize`, cursor movement and termios.
  - The client's `terminalHeight` is a field held at 24 or more, which is the clamp `getTerminalSize` applies. Its updates on resize are not modelled, and neither is the scroll-window `size_t` arithmetic of `render`.
- `getTimestamp` reads the wall clock; the timestamp is a parameter.
- `std::hash<std::string>` has no fixed definition; it is the constructor's `hash` parameter, and only palette membership and non-overwrite are proved.
- The Windows key branch duplicates the POSIX one with `\r` and `\b` and is not modelled separately.
- Client.ChatClient.HandleKey: an ESC whose follow-up reads fail is modelled as `following` having fewer than two characters. The `size_t` upper limit of `scrollOffset` is not modelled.
- Markup.FormattedNarrower states a bound on the visible width of formatted text, not the exact visible characters.
- Client.PopNewlineAsWritten states only a length bound; it exists to show where the source's strip is undefined.

## Findings

| source | as written | input that shows it | evidently intended | confidence | as-written member | corrected member |
|---|---|---|---|---|---|---|
| new_client.cpp:444 | `content.back()` is read to strip a trailing newline without checking that `content` is non-empty; on an empty string this is undefined behaviour (also at new_client.cpp:469) | the frames `abc:` (chat path) and `[PM]a:` (private path), whose content after the `:` is empty | strip one trailing newline only when the content is non-empty, giving an event with empty content | high; not executed | Client.PopNewlineAsWritten, Client.EmptyContentFrames | Client.StripNewline, Client.StripAgrees, Client.EmptyContentClassified |
