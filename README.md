# Chat server channel core, modelled in Dafny

This project models the sequential logic of `ChatServer` in `chatserver.py`, a
multi-channel text chat server. Sockets, threads and clocks are abstracted
away. The model covers three groups:

- **The channel table** (`config.dfy`). `load_channels` reads a file of
  `channel <name> <port> <capacity>` lines. It checks each line on its own
  (field count, keyword, name, port, capacity), then checks the name and the
  port against the rows already loaded. The first violation aborts start-up
  with exit status 1. `ParseLine` checks one line, `LoadTable` is the whole
  load as a function, and the method `LoadChannels` is the loop the server
  runs, proved equal to it.
- **The per-channel state** (`membership.dfy`, `server.dfy`). A channel is a
  class with a fixed `port` and `capacity`, and three fields the handlers
  update in place: the admitted `clients`, the waiting `queue`, and the
  per-channel `muted` table. Loading creates no mute table; each new
  connection to the channel installs an empty one (line 230), so the model
  holds it as an `Option`. A session is an `(id, name)` pair. `id` stands
  for the socket and address, which the server compares by identity. The
  class invariant says:
  - the loaded capacity is never exceeded;
  - no session is listed twice in either list;
  - no session is both a member and waiting.

  Its methods are join, one admission poll, kick, teardown, the two halves of
  `/switch`, the mute check and `/empty`. The `ChatServer` class holds the
  table of channel objects in file order. Its methods are `/switch`, `/list`,
  the administrator's `/kick`, `/empty` and `/mute`, and the intake of one
  client message.
- **The text commands** (`commands.dfy`, with the Python string built-ins
  in `pystr.dfy`). These are parsing `/mute`, `/kick`, `/empty`, `/switch`,
  `/send` and `/whisper`, the routing of an administrator line and of a
  client message, and the `/list` reply. The broadcast recipient filter
  `Others` is in `membership.dfy`.

Python's `str.strip`, `str.split()`, `str.split(sep, n)`, `str.join`, `int()`
and `str()` of an integer are written out in `pystr.dfy` with the same
results the model relies on:
- `split()` drops empty words;
- `split(sep)` keeps empty pieces;
- `int()` accepts surrounding blanks and a sign.

Time is an integer millisecond clock. `int(expiry - now)` truncates toward
zero; `TruncSeconds` writes this out.

Behaviour of the code that the model keeps on purpose:
- `/list`, `/switch` and `/send` are also broadcast as chat. The whisper test
  at line 384 is an `if`, not an `elif`, so the `else` at line 408 catches
  them. The one exception is a `/send` whose target is a member and whose
  path exists: it reaches the call of the undefined `send_file` (line 380),
  which raises before the broadcast (see `Commands.RouteMessage` under
  "## Left out"). A `/send` with an absent target or a missing path is
  broadcast.
- A successful `/switch X` rebinds the handler's channel (line 351) before
  the broadcast, so its text goes to the members of `X` (lines 411-413), not
  to those of the channel it was typed in.
- `/kick` without a `:`, and `/empty` without a space, raise an exception
  that nothing catches. This ends the administrator's command loop
  (`Crashed`).
- `/switch` to the session's own channel takes the same lock twice when the
  name is not already there, and deadlocks (`SelfDeadlock`, nothing changes).
- After `/switch` the session is in the new channel's queue, but its handler
  is still in the message loop. It is not admitted again.
- A channel has no mute table until its first connection (line 230). A
  session that switched into a channel nobody has connected to makes the
  mute lookup raise `KeyError` with its next message (line 293). The
  handler catches it and ends its message loop (lines 425-427). `Receive`
  reports this as `Fault`. `/empty` on such a channel would raise at line
  178 after removing the first member; no member can exist there, but the
  model covers it.

Places where the code does less than its own messages, comments or
neighbouring checks announce. The model follows the code:
- Every port from 1024 up is rejected, those above 65535 with a message of
  their own (lines 44-49). Only ports below 1024 load.
- Join checks the name against the members only (line 240), while `/switch`
  checks both the members and the queue (lines 329-330). So two waiting
  sessions may share a name.
- `/empty` announces that the channel "has been emptied" (line 181), but it
  removes the members while iterating over the same list. So it removes only
  those at even positions of the original list, and it leaves the queue as
  it was (lines 173-178).
- Teardown is commented as removing the client from the channel and the
  queue (line 431), but it calls `clients.remove`, which raises when the session is not a
  member (line 433). So a second teardown, or a teardown after a kick, is not
  a no-op. `Leave` reports this as `ok == false` with nothing changed.
- The administrator's `/mute` writes `self.muted` (line 110). The handler
  reads the per-channel `muted` map, which every new connection resets to
  empty (line 230). So an administrator mute never reaches the check, and
  `AdminMute` changes no state.

## Model

| member | source | states |
|---|---|---|
| Config.ParseLine | chatserver.py:27-56 | Accepts a line only when it splits into exactly four words: `channel` in any case, a name whose first character is not a digit, a port below 1024 and a capacity of at least 5. The accepted row holds those fields. The error is `InvalidConfiguration` exactly when the field count or the keyword is wrong, and a single line never yields a duplicate error |
| Config.ParseRender | chatserver.py:27-56 | Every row the format allows is accepted from its own rendering and read back unchanged, so the validator rejects nothing valid |
| Config.RenderSplit | chatserver.py:27 | A rendered row, stripped and split on blanks, gives back its four fields |
| Config.PortRangeRejected | chatserver.py:44-49 | A line whose port parses as at least 1024 is never accepted: it fails as ephemeral, as above 65535, or on an earlier check |
| Config.LoadTableCorrect | chatserver.py:26-73 | Loading succeeds exactly when every line is accepted on its own and no two lines share a name or a port. The table then has one valid row per line, in file order, each equal to its line's fields, with pairwise distinct names and ports |
| Config.LoadRowsCorrect | chatserver.py:58-73 | The same on top of rows already loaded: success exactly when nothing clashes with them or within the new rows, and the old rows stay a prefix |
| Config.AcceptableStep | chatserver.py:58-65 | Accepting one row that clashes with nothing reduces acceptability of the rest to the grown table |
| Config.PortTaken | chatserver.py:62-65 | The loop over the loaded rows reports a port as taken exactly when some row uses it |
| Config.LoadChannels | chatserver.py:18-73 | The imperative loader returns exactly `LoadTable(lines)`: the same table, or the first line's error |
| Server.Boot | chatserver.py:448-450 | Start-up fails exactly when loading fails, with the loader's error. Otherwise the server holds one valid channel per line, named as in the file, in file order, and each channel is exactly as loading creates it from its row: the row's port and capacity, no members, nobody waiting and no mute table |
| Server.ChatServer.constructor | chatserver.py:67-73 | One fresh channel per row, under the row's name and in row order, with the row's port and capacity, no members, nobody waiting and no mute table |
| Server.ChatServer.RowsOf | chatserver.py:313-317 | One `/list` row per channel name, holding the channel's member count, capacity and queue length |
| PyStr.StripSplit | chatserver.py:27 | Splitting a stripped line on blanks gives the same words as splitting the line |
| PyStr.WsSplitJoin | chatserver.py:27 | Words without blanks joined by single spaces split back into the same words |
| PyStr.ParseIntToStr | chatserver.py:39 | `int(str(i)) == i` for every integer |
| PyStr.SplitJoin | chatserver.py:318 | Joining pieces without the separator and splitting at every separator gives the pieces back |
| PyStr.SplitNJoin | chatserver.py:93-94 | `split(sep, n)` of pieces joined by `sep` gives them back when only the last may contain `sep` |
| PyStr.JoinSplitN | chatserver.py:355 | Joining the pieces of `split(sep, n)` with `sep` gives back the original string |
| Membership.HasName | chatserver.py:240 | `any(user[1] == name ...)` holds exactly when some entry has that name |
| Membership.NameIndex | chatserver.py:150-155 | The search stops at the first entry with the name, and finds none exactly when no entry has it |
| Membership.IndexOf | chatserver.py:267 | `list.index`: the first position holding the session, and none exactly when it is absent |
| Membership.RemoveFirst | chatserver.py:433 | `list.remove`: the result's multiset is the old one minus the session, one shorter when present, and unchanged when absent |
| Membership.RemoveFirstAt | chatserver.py:155 | Removing the first occurrence of the entry at `i` cuts out exactly position `i` |
| Membership.RemoveFirstGone | chatserver.py:433-435 | In a list without repeats, removal leaves the session absent, leaves no repeats and adds nothing |
| Membership.Others | chatserver.py:276-278 | The broadcast recipients are exactly the listed sessions whose socket is not the sender's |
| Membership.OthersConcat | chatserver.py:411-413 | Recipients are selected in list order: filtering a concatenation filters each part |
| Membership.OthersOne | chatserver.py:411-413 | When the sender is listed once among the members and no other entry has its socket, every member but the sender receives the message |
| Membership.OthersNone | chatserver.py:276-278 | When nobody shares the sender's socket, every listed session receives the message |
| Membership.Evens | chatserver.py:174-176 | The entries at even positions, in order: the members `/empty` closes |
| Membership.Odds | chatserver.py:174-176 | The entries at odd positions, in order: the members `/empty` leaves behind |
| Membership.EvensOddsPartition | chatserver.py:174-176 | The closed and the remaining members together are exactly the members before `/empty` |
| Membership.OddsKept | chatserver.py:174-176 | The members left by `/empty` are distinct, and each was a member before |
| Membership.EmptyStep | chatserver.py:174-178 | One turn of the `/empty` loop closes the member at the next even position and skips the one after it |
| Membership.EmptyPass | chatserver.py:174-178 | The `/empty` loop closes exactly the members at even original positions and keeps those at odd positions. Each closed name is dropped from the mute table |
| Membership.TruncSeconds | chatserver.py:294 | `int()` of a time difference: whole seconds, truncated toward zero, for both signs |
| Membership.StillMutedIff | chatserver.py:294-295 | The remaining time is positive exactly when at least one full second of the mute is left |
| Membership.OddsAdmissible | chatserver.py:173-178 | `/empty` keeps the channel within capacity and free of repeats |
| Membership.Channel.constructor | chatserver.py:67-73 | A loaded channel: its port and capacity, no members, nobody waiting, and no mute table |
| Membership.Channel.Join | chatserver.py:230-248 | An empty mute table replaces whatever was there. The session is accepted exactly when no member has its name. If accepted it is appended to the queue; the members never change |
| Membership.Channel.AdmitStep | chatserver.py:261-269 | The session moves from the head of the queue to the end of the members exactly when it is at the head and there is room, so capacity is kept. Otherwise neither list changes. An empty queue is reported exactly when the queue is empty, and a session not in a non-empty queue exactly when it is absent (the raising cases of `queue[0]` and `index`). A queued session that is not admitted is reported waiting at its first index in the queue |
| Membership.Channel.FindMember | chatserver.py:150-153 | Finds the first member with the name, or reports that none has it |
| Membership.Channel.Kick | chatserver.py:150-155 | Removes exactly the first member with the name, returning it. Nothing changes when no member has it. The queue and the mute table never change |
| Membership.Channel.Leave | chatserver.py:432-435 | Teardown succeeds exactly when the session is a member. It then leaves both lists without the session. Otherwise `remove` raises and nothing changes |
| Membership.Channel.Withdraw | chatserver.py:334-344 | The leaving half of `/switch`: the session is taken off whichever lists hold it. The result reports whether it was a member |
| Membership.Channel.Enqueue | chatserver.py:346 | The joining half of `/switch`: the session is appended to the queue, and nothing else changes |
| Membership.Channel.CheckMute | chatserver.py:292-300 | Without a mute table the lookup raises and nothing changes. A user without an entry is never suppressed. A user with one is suppressed exactly when the truncated remaining time is positive; otherwise the entry is deleted. Only an expired entry changes the table, and the lists never change |
| Membership.Channel.EmptyMembers | chatserver.py:173-178 | With a mute table: closes the members at even original positions, keeps those at odd positions, and drops the closed names' entries. Without one: the first member is closed and removed, then the mute lookup raises and the loop stops. An empty channel is left as it is. The queue never changes and the channel stays admissible |
| Server.ChatServer.Switch | chatserver.py:320-351 | An unknown target, a name already in the target's members or queue, and a self-switch (deadlock) each change nothing. In every other case the switch happens: the session leaves the current channel's lists and is appended to the target's queue. The mute tables and every other channel are unchanged |
| Server.ChatServer.AdminKick | chatserver.py:139-163 | No `:` crashes the command loop, and an unknown channel changes nothing. Otherwise the first member with the name is removed, or nothing changes. The queue, the mutes and every other channel stay as they were |
| Server.ChatServer.AdminEmpty | chatserver.py:165-181 | No space crashes the command loop, and an unknown channel changes nothing. In a channel with a mute table, the members at even positions are closed, the rest kept, and the closed names' mutes dropped. In a channel without one, an empty channel is reported emptied, and otherwise the first member is removed before the lookup crashes the command loop. Its queue and every other channel stay as they were |
| Server.ChatServer.AdminMute | chatserver.py:91-132 | A malformed command reports its error. An unknown channel, or a user neither a member nor waiting, is reported. Otherwise the mute is reported as taken. No channel state changes |
| Server.ChatServer.List | chatserver.py:311-318 | The reply is one line per channel in table order, joined by newlines. Each line reads back as the channel's name, member count, capacity and queue length |
| Server.ChatServer.Receive | chatserver.py:288-300 | An empty read disconnects. Without a mute table the lookup raises and the message loop ends (`Fault`). A sender without an entry is routed. One with a positive remaining time is suppressed with that time. An expired entry is deleted and the message routed. The mute table changes only in that last case, and the lists never change |
| Commands.ParseMute | chatserver.py:93-98 | Succeeds only with exactly three space-separated parts, a `:` in the middle one and a positive integer last. The channel has no `:`, and neither channel nor user has a space. Wrong arity is reported exactly when `split(" ", 2)` does not give three parts |
| Commands.ParseMuteCommand | chatserver.py:93-98 | A typed `/mute <channel>:<user> <secs>` reads back as typed, or is refused as not positive |
| Commands.ParseMuteNoColon | chatserver.py:94 | Without a `:` between channel and user, the command is refused and nothing is muted |
| Commands.ParseKick | chatserver.py:140-142 | Fails (an uncaught `IndexError`) exactly when the command has no `:`. Neither channel nor user contains a `:` |
| Commands.ParseKickCommand | chatserver.py:140-142 | `/kick <channel>:<user>` reads back as typed |
| Commands.ParseKickExtra | chatserver.py:140-142 | Whatever follows a second `:` is ignored |
| Commands.ParseEmpty | chatserver.py:166-167 | Fails (an uncaught `ValueError`) exactly when the command has no space |
| Commands.ParseEmptyCommand | chatserver.py:166-167 | `/empty <channel>` names the channel typed |
| Commands.AdminRoute | chatserver.py:86-139 | `/shutdown` is taken exactly when the stripped line is `/shutdown`. The line goes to `/mute`, `/empty` or `/kick ` exactly when it starts with that prefix, and that command's parser is given the stripped line |
| Commands.AdminPrefixesExclusive | chatserver.py:88-139 | No line starts with two of the command prefixes, and `/shutdown` starts with none, so the separate `if`s take at most one branch |
| Commands.RouteMessage | chatserver.py:288-413 | Disconnect exactly on an empty read, quit exactly on `/quit`, and every other message is dispatched. A dispatched message is broadcast, unchanged, exactly when it does not start with `/whisper `. It lists channels exactly when it is `/list`, switches exactly when it starts with `/switch `, and sends a file exactly when it starts with `/send ` |
| Commands.CommandsAlsoBroadcast | chatserver.py:311-413 | `/list`, `/switch` and `/send` are also routed to the broadcast, unchanged, as chat (a `/send` that reaches `send_file` raises first; see "## Left out") |
| Commands.SwitchTarget | chatserver.py:321 | The switch target is the text between the first and the second space |
| Commands.SendArgs | chatserver.py:354-356 | The `/send` target is the second piece, and the path is everything after it, spaces included |
| Commands.WhisperArgs | chatserver.py:385-387 | `/whisper <user> <text>` yields that user and the text from its first non-blank character on |
| Commands.WhisperWithoutText | chatserver.py:385-407 | A whisper with no text, trailing blanks or not, does nothing |
| Commands.ListLine | chatserver.py:317 | A `/list` line contains no newline when the channel name has no blanks |
| Commands.ReadListLineOf | chatserver.py:317 | Each `/list` line reads back as its channel's name, member count, capacity and queue length |
| Commands.ReadListText | chatserver.py:318 | The joined reply splits into exactly one line per channel, each reading back as that channel's row |

Helpers without a row of their own:
- `Commands.HeadOf` (lines 302-381) and `Commands.TailOf` (lines 384-413)
  are covered by `Commands.RouteMessage`.
- `Server.ChatServer.CollectRows` (lines 312-317) is covered by
  `Server.ChatServer.List`.
- `Server.NewChannels` (lines 67-73) is covered by
  `Server.ChatServer.constructor`.
- `Membership.Channel.Holds` (lines 329-330 and 105-106) is covered by
  `Server.ChatServer.Switch` and `Server.ChatServer.AdminMute`.

## Left out

- Sockets, `recv`/`send`/`close`, the accept loop and the AFK timeout (lines
  185-214, 283-286, 415-423) are I/O. A received message is a parameter of
  `Receive`. The text of the notices that would be sent is not modelled.
- Threads, the per-channel `threading.Lock` and the one-second polling sleep
  are not modelled. Each lock-guarded block is one atomic method, and the
  admission loop is one `AdmitStep` per poll.
- Timestamps and their formatting are left out. The clock is an integer
  millisecond parameter, so differences below one millisecond are not
  modelled.
- `/send` file transfer relies on `os.path.exists` and on a `send_file`
  method the class does not define (lines 358-380). Only the parsing of
  its target and path is modelled.
- Commands.RouteMessage: routes every `/send ` message to `SendFile` with a
  broadcast tail. When the target is a member of the sender's channel and
  the path exists, the source instead calls the undefined `send_file` (line
  380). The `AttributeError` is caught at lines 425-427, the message loop
  ends, the sender is torn down (lines 432-437), and nothing is broadcast.
  Membership of the target and the file system are outside this pure
  routing function.
- Commands.CommandsAlsoBroadcast: holds for `/send` only when the target is
  not a member or the path does not exist, for the reason given under
  `Commands.RouteMessage`.
- The channel that receives a broadcast is not part of `Route`. After a
  successful `/switch X` it is `X` (line 351).
- `send_server_msg` (lines 219-225) is never called.
- `shutdown` and `sys.exit` (lines 75-81) are left out. `/shutdown` is only
  routed. A failed load exits with status 1; `Server.Boot`'s `Err`
  outcome stands for that exit.
- The outer exception handler (lines 438-445) is left out. It looks a
  channel up by user name.
- The administrator's `/mute` stores into a map the handler never reads
  (line 110). `AdminMute` reports the outcome but changes no state, and no
  method adds a per-channel mute entry.
- Inside `/empty`, `self.channels.pop(username, None)` (line 177) is not
  modelled. It would delete a channel named like a closed user. The channel
  table here is fixed after loading.
- Reading the file and the `isfile` check (lines 19-24) are left out. The
  loader takes the file's lines.
- `int()` is modelled on ASCII digits with an optional sign and surrounding
  blanks. Unicode digits and `_` separators are not accepted.
- PyStr.IsDigit: covers the ASCII digits only. Python's `isdigit()` also
  holds for other Unicode digits such as `'²'`, so the name check at line 34
  rejects a name starting with one of them; the model accepts it.
- PyStr.Lower: folds the ASCII letters only. Its one use is the keyword test
  at line 29, and no other character lowers to a letter of `channel`.
- Server.ChatServer.Switch: `SelfDeadlock` only records that nothing
  changes. In the running server the handler holds the channel's
  non-reentrant lock forever. Every later operation that takes that lock
  then hangs: a new connection joining (line 239), admission polling (line
  261), teardown (line 432), and the administrator's `/kick` (line 151),
  `/empty` (line 173) and `/mute` (line 104) on that channel. The last three
  stall the administrator's command loop.
- Server.ChatServer.Switch: after `Switched` the session sits in the
  target's queue while its handler stays in the message loop, so it is never
  admitted. It blocks every session queued behind it from reaching the head.
  Its teardown calls `clients.remove` on the target (line 433), which raises
  because it is not a member, so line 434 never removes it from the queue.
  In the model this is `Leave` returning `ok == false` with nothing changed.
- `chatclient.py` is not part of this model.
- Membership.Channel.Join: requires that the session is in neither list. A
  freshly accepted socket cannot already be there.
- Membership.Channel.Leave: when the session is a member, the removal from
  the queue is written unconditionally. It cannot be waiting, so the source's
  `if ... in queue` test would be false.
- Server.ChatServer.AdminMute: states only the outcome, not the notices sent
  to the channel.
