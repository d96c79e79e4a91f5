/** The text commands: what the administrator types on standard input
    (`/mute`, `/kick`, `/empty`, `/shutdown`) and what a client sends
    (`/quit`, `/list`, `/switch`, `/send`, `/whisper`, plain chat), sliced
    the way the server slices them, and the text of the `/list` reply. */
module Commands {
  import opened Wrappers
  import opened PyStr

  // ------------------------------------------------------------ /mute

  datatype MuteRequest = MuteRequest(channel: string, user: string, secs: int)

  /** Each case is a `ValueError` the command loop catches and reports. */
  datatype MuteError =
    | WrongArity                  // not exactly three space-separated parts
    | NoColon                     // the middle part has no ':'
    | NotAnInteger(text: string)  // `int()` of the third part fails
    | NotPositive(secs: int)      // "Invalid mute time."

  /** `/mute <channel>:<user> <seconds>`: split on the first two spaces
      into exactly three parts, the middle one at its first ':', and the
      last read as a positive integer. */
  function ParseMute(command: string): (r: Result<MuteRequest, MuteError>)
    ensures r.Ok? ==> r.value.secs > 0
    ensures r.Ok? ==> ':' !in r.value.channel
    ensures r.Ok? ==> ' ' !in r.value.channel + [':'] + r.value.user
    ensures r == Err(WrongArity) <==> |SplitN(command, ' ', 2)| != 3
  {
    var parts := SplitN(command, ' ', 2);
    SplitNPieces(command, ' ', 2);
    if |parts| != 3 then Err(WrongArity)
    else
      var halves := SplitN(parts[1], ':', 1);
      SplitNPieces(parts[1], ':', 1);
      JoinSplitN(parts[1], ':', 1);
      if |halves| != 2 then Err(NoColon)
      else match ParseInt(parts[2])
        case None => Err(NotAnInteger(parts[2]))
        case Some(secs) =>
          if secs <= 0 then Err(NotPositive(secs))
          else Ok(MuteRequest(halves[0], halves[1], secs))
  }

  /** The command an administrator types for `req`. */
  function MuteCommand(req: MuteRequest): string {
    Join(["/mute", req.channel + ":" + req.user, IntToStr(req.secs)], " ")
  }

  /** A well-formed request is read back as typed; a time that is not
      positive is refused with "Invalid mute time." */
  lemma ParseMuteCommand(req: MuteRequest)
    requires ' ' !in req.channel && ':' !in req.channel && ' ' !in req.user
    ensures ParseMute(MuteCommand(req)) ==
      if req.secs > 0 then Ok(req) else Err(NotPositive(req.secs))
  {
    var mid := req.channel + ":" + req.user;
    SplitNJoin(["/mute", mid, IntToStr(req.secs)], ' ');
    assert Join([req.channel, req.user], [':']) == mid;
    SplitNJoin([req.channel, req.user], ':');
    ParseIntToStr(req.secs);
  }

  /** Without a ':' between channel and user nothing is muted. */
  lemma ParseMuteNoColon(target: string, secs: string)
    requires ' ' !in target && ':' !in target
    ensures ParseMute(Join(["/mute", target, secs], " ")) == Err(NoColon)
  {
    SplitNJoin(["/mute", target, secs], ' ');
    SplitOnce(target, ':');
  }

  // ------------------------------------------------------------ /kick

  datatype KickRequest = KickRequest(channel: string, user: string)

  /** Python's `s[k:]`, which is empty when `s` is shorter than `k`. */
  function Drop(s: string, k: nat): string {
    if |s| <= k then "" else s[k..]
  }

  /** `/kick <channel>:<user>`: split at every ':'; the channel is the
      first piece minus the six characters of `/kick `, the user the second
      piece. Without any ':' there is no second piece and the command loop
      dies with an `IndexError` (`None`). */
  function ParseKick(command: string): (r: Option<KickRequest>)
    ensures r.None? <==> ':' !in command
    ensures r.Some? ==> ':' !in r.value.channel && ':' !in r.value.user
  {
    var parts := SplitAll(command, ':');
    SplitAllOne(command, ':');
    if |parts| < 2 then None
    else
      assert forall x :: x in Drop(parts[0], 6) ==> x in parts[0];
      Some(KickRequest(Drop(parts[0], 6), parts[1]))
  }

  /** `/kick <channel>:<user>` is read back as typed. */
  lemma ParseKickCommand(channel: string, user: string)
    requires ':' !in channel && ':' !in user
    ensures ParseKick("/kick " + channel + ":" + user) == Some(KickRequest(channel, user))
  {
    var first := "/kick " + channel;
    assert Join([first, user], [':']) == "/kick " + channel + ":" + user;
    SplitJoin([first, user], ':');
    assert first[6..] == channel;
  }

  /** Whatever follows a second ':' is ignored: the user is only the text
      between the first and the second ':'. */
  lemma ParseKickExtra(channel: string, user: string, extra: string)
    requires ':' !in channel && ':' !in user
    ensures ParseKick("/kick " + channel + ":" + user + ":" + extra)
      == Some(KickRequest(channel, user))
  {
    var first := "/kick " + channel;
    assert "/kick " + channel + ":" + user + ":" + extra == first + [':'] + (user + [':'] + extra);
    SplitAllCons(first, ':', user + [':'] + extra);
    SplitAllCons(user, ':', extra);
    assert first[6..] == channel;
  }

  // ------------------------------------------------------------ /empty

  /** `/empty <channel>`: split once at the first space; the channel is
      the rest, stripped. Without a space the unpacking raises a
      `ValueError` the command loop does not catch (`None`). */
  function ParseEmpty(command: string): (r: Option<string>)
    ensures r.None? <==> ' ' !in command
  {
    var parts := SplitN(command, ' ', 1);
    SplitOnce(command, ' ');
    if |parts| != 2 then None else Some(Strip(parts[1]))
  }

  /** `/empty <channel>` names the channel typed. */
  lemma ParseEmptyCommand(name: string)
    requires IsWord(name)
    ensures ParseEmpty("/empty " + name) == Some(name)
  {
    var s := "/empty " + name;
    assert s[..6] == "/empty" && s[6] == ' ';
    FindAt(s, ' ', 6);
    assert s[7..] == name;
    assert SplitN(s, ' ', 1) == ["/empty", name];
    StripNoSpace(name);
  }

  // ------------------------------------------------------------ administrator input

  /** Which branch of the command loop a line of standard input takes. */
  datatype AdminCommand =
    | Shutdown
    | Mute(mute: Result<MuteRequest, MuteError>)
    | Empty(empty: Option<string>)
    | Kick(kick: Option<KickRequest>)
    | Ignored

  /** The line is stripped, then tested against each command's prefix. The
      source tests them with separate `if`s; the prefixes exclude each
      other, so at most one applies. */
  function AdminRoute(line: string): (r: AdminCommand)
    ensures r == Shutdown <==> Strip(line) == "/shutdown"
    ensures r.Mute? <==> StartsWith(Strip(line), "/mute")
    ensures r.Empty? <==> StartsWith(Strip(line), "/empty")
    ensures r.Kick? <==> StartsWith(Strip(line), "/kick ")
    ensures r.Mute? ==> r.mute == ParseMute(Strip(line))
    ensures r.Empty? ==> r.empty == ParseEmpty(Strip(line))
    ensures r.Kick? ==> r.kick == ParseKick(Strip(line))
  {
    var c := Strip(line);
    AdminPrefixesExclusive(c);
    if c == "/shutdown" then Shutdown
    else if StartsWith(c, "/mute") then Mute(ParseMute(c))
    else if StartsWith(c, "/empty") then Empty(ParseEmpty(c))
    else if StartsWith(c, "/kick ") then Kick(ParseKick(c))
    else Ignored
  }

  /** No line starts with two of the command prefixes. */
  lemma AdminPrefixesExclusive(c: string)
    ensures !(StartsWith(c, "/mute") && StartsWith(c, "/empty"))
    ensures !(StartsWith(c, "/mute") && StartsWith(c, "/kick "))
    ensures !(StartsWith(c, "/empty") && StartsWith(c, "/kick "))
    ensures c == "/shutdown" ==> !StartsWith(c, "/mute") && !StartsWith(c, "/empty") && !StartsWith(c, "/kick ")
  {
    if StartsWith(c, "/mute") {
      assert c[1] == 'm';
    }
    if StartsWith(c, "/empty") {
      assert c[1] == 'e';
    }
  }

  // ------------------------------------------------------------ client messages

  /** The first `if`/`elif` chain after `/quit`. */
  datatype Head =
    | NoHead
    | ListChannels
    | SwitchTo(target: string)
    | SendFile(target: string, path: string)

  /** The separate `if msg.startswith('/whisper ')` ... `else` that every
      message other than `/quit` reaches. */
  datatype Tail =
    | Whisper(target: string, text: string)
    | BadWhisper                // fewer than three parts: nothing happens
    | Broadcast(text: string)   // sent to every other member

  /** What the handler does with one message once the mute check let it
      through (an empty read disconnects before the mute check). */
  datatype Route = Disconnect | Quit | Dispatch(head: Head, tail: Tail)

  function HeadOf(msg: string): Head {
    if msg == "/list" then ListChannels
    else if StartsWith(msg, "/switch ") then
      assert msg[7] == ' ';
      SplitAllOne(msg, ' ');
      SwitchTo(SplitAll(msg, ' ')[1])
    else if StartsWith(msg, "/send ") then
      assert msg[5] == ' ';
      SplitAllOne(msg, ' ');
      var parts := SplitAll(msg, ' ');
      SendFile(parts[1], Join(parts[2..], " "))
    else NoHead
  }

  function TailOf(msg: string): Tail {
    if StartsWith(msg, "/whisper ") then
      var parts := WsSplitN(msg, 2);
      if |parts| >= 3 then Whisper(parts[1], parts[2]) else BadWhisper
    else Broadcast(msg)
  }

  function RouteMessage(msg: string): (r: Route)
    ensures r == Disconnect <==> msg == ""
    ensures r == Quit <==> msg == "/quit"
    ensures r.Dispatch? <==> msg != "" && msg != "/quit"
    ensures r.Dispatch? ==> (r.tail.Broadcast? <==> !StartsWith(msg, "/whisper "))
    ensures r.Dispatch? && r.tail.Broadcast? ==> r.tail.text == msg
    ensures r.Dispatch? ==> (r.head == ListChannels <==> msg == "/list")
    ensures r.Dispatch? ==> (r.head.SwitchTo? <==> StartsWith(msg, "/switch "))
    ensures r.Dispatch? ==> (r.head.SendFile? <==> StartsWith(msg, "/send "))
  {
    if msg == "" then Disconnect
    else if msg == "/quit" then Quit
    else
      SwitchNotSend(msg);
      Dispatch(HeadOf(msg), TailOf(msg))
  }

  /** No message starts with both `/switch ` and `/send `. */
  lemma SwitchNotSend(msg: string)
    ensures !(StartsWith(msg, "/switch ") && StartsWith(msg, "/send "))
  {
    if StartsWith(msg, "/switch ") {
      assert msg[2] == 'w';
    }
  }

  /** `/list`, `/switch` and `/send` are acted on and then broadcast as
      chat as well, since the whisper test is an `if` rather than an
      `elif`. A `/send` that reaches the undefined `send_file` raises
      before the broadcast; the routing here does not see that case. */
  lemma CommandsAlsoBroadcast(msg: string)
    requires RouteMessage(msg).Dispatch? && !RouteMessage(msg).head.NoHead?
    ensures RouteMessage(msg).tail == Broadcast(msg)
  {
  }

  /** The switch target is the text between the first and the second
      space (empty when two spaces follow `/switch`). */
  lemma SwitchTarget(name: string, rest: string)
    requires ' ' !in name
    requires rest == "" || rest[0] == ' '
    ensures HeadOf("/switch " + name + rest) == SwitchTo(name)
  {
    assert "/switch " + name + rest == "/switch" + [' '] + (name + rest);
    SplitAllCons("/switch", ' ', name + rest);
    if rest == "" {
      assert name + rest == name;
      SplitAllOne(name, ' ');
    } else {
      assert name + rest == name + [' '] + rest[1..];
      SplitAllCons(name, ' ', rest[1..]);
    }
  }

  /** `/send <user> <path>`: the path is everything after the second
      space, spaces included. */
  lemma SendArgs(target: string, path: string)
    requires ' ' !in target
    ensures HeadOf("/send " + target + " " + path) == SendFile(target, path)
  {
    var s := "/send " + target + " " + path;
    SendPieces(target, path);
    JoinSplitAll(path, ' ');
    assert s[2] == 'e' && s[..6] == "/send ";
  }

  /** The pieces of `/send <user> <path>` split at every space. */
  lemma SendPieces(target: string, path: string)
    requires ' ' !in target
    ensures SplitAll("/send " + target + " " + path, ' ') == ["/send", target] + SplitAll(path, ' ')
  {
    assert "/send " + target + " " + path == "/send" + [' '] + (target + [' '] + path);
    SplitAllCons("/send", ' ', target + [' '] + path);
    SplitAllCons(target, ' ', path);
  }

  /** `/whisper <user> <text>`: the text is what follows the user, from
      its first non-blank character on. */
  lemma WhisperArgs(user: string, text: string)
    requires IsWord(user) && |text| > 0 && !IsSpace(text[0])
    ensures TailOf("/whisper " + user + " " + text) == Whisper(user, text)
  {
    var rest := " " + user + " " + text;
    assert "/whisper " + user + " " + text == "/whisper" + rest;
    WsSplitWord("/whisper", rest, 2);
    WhisperRest(user, text);
  }

  /** After `/whisper`, the user and the text are the two remaining parts. */
  lemma WhisperRest(user: string, text: string)
    requires IsWord(user) && |text| > 0 && !IsSpace(text[0])
    ensures WsSplitN(" " + user + " " + text, 1) == [user, text]
  {
    var t := user + (" " + text);
    assert " " + user + " " + text == " " + t;
    WsSplitSpace(t, 1);
    WsSplitWordSpace(user, text, 1);
    assert WsSplitN(text, 0) == [text];
  }

  /** A whisper without text does nothing, trailing blanks or not. */
  lemma WhisperWithoutText(user: string, pad: string)
    requires IsWord(user)
    requires forall k :: 0 <= k < |pad| ==> IsSpace(pad[k])
    ensures TailOf("/whisper " + user + pad) == BadWhisper
  {
    var rest := " " + user + pad;
    assert "/whisper " + user + pad == "/whisper" + rest;
    assert WsSplitN("/whisper" + rest, 2) == ["/whisper"] + WsSplitN(rest, 1) by {
      WsSplitWord("/whisper", rest, 2);
    }
    assert WsSplitN(rest, 1) == [user] by {
      assert rest == " " + (user + pad);
      WsSplitSpace(user + pad, 1);
      UserThenBlanks(user, pad);
    }
  }

  lemma UserThenBlanks(user: string, pad: string)
    requires IsWord(user)
    requires forall k :: 0 <= k < |pad| ==> IsSpace(pad[k])
    ensures WsSplitN(user + pad, 1) == [user]
  {
    if pad == "" {
      assert user + pad == user + "";
      WsSplitWord(user, "", 1);
    } else {
      WsSplitWord(user, pad, 1);
      AllSpace(pad, 0);
    }
  }

  // ------------------------------------------------------------ /list

  /** The figures of one channel as `/list` reports them. */
  datatype ListRow = ListRow(name: string, current: int, capacity: int, queued: int)

  /** `[ Channel ] <name> <current>/<capacity>/<queued>`. */
  function ListLine(r: ListRow): (line: string)
    ensures NoSpace(r.name) ==> '\n' !in line
  {
    "[ Channel ] " + r.name + " " + IntToStr(r.current) + "/" + IntToStr(r.capacity) + "/" + IntToStr(r.queued)
  }

  /** The reply to `/list`: one line per channel, in table order, joined
      by newlines. */
  function ListText(rows: seq<ListRow>): string {
    Join(seq(|rows|, i requires 0 <= i < |rows| => ListLine(rows[i])), "\n")
  }

  /** Reads one line of the reply back into its figures. */
  function ReadListLine(line: string): Option<ListRow> {
    var w := WsSplit(line);
    if |w| != 5 || w[0] != "[" || w[1] != "Channel" || w[2] != "]" then None
    else
      var f := SplitAll(w[4], '/');
      if |f| != 3 then None
      else match (ParseInt(f[0]), ParseInt(f[1]), ParseInt(f[2]))
        case (Some(current), Some(capacity), Some(queued)) =>
          Some(ListRow(w[3], current, capacity, queued))
        case _ => None
  }

  /** Every line of the reply carries its channel's figures intact. */
  lemma ReadListLineOf(r: ListRow)
    requires IsWord(r.name)
    ensures ReadListLine(ListLine(r)) == Some(r)
  {
    var a, b, c := IntToStr(r.current), IntToStr(r.capacity), IntToStr(r.queued);
    FiguresSplit(a, b, c);
    ListLineSplit(r);
    ParseIntToStr(r.current);
    ParseIntToStr(r.capacity);
    ParseIntToStr(r.queued);
  }

  /** The figures `<current>/<capacity>/<queued>` split back at '/'. */
  lemma FiguresSplit(a: string, b: string, c: string)
    requires '/' !in a && '/' !in b && '/' !in c
    ensures SplitAll(a + "/" + b + "/" + c, '/') == [a, b, c]
  {
    JoinCons(a, [b, c], "/");
    JoinCons(b, [c], "/");
    assert Join([a, b, c], ['/']) == a + "/" + b + "/" + c;
    SplitJoin([a, b, c], '/');
  }

  /** A line splits on blanks into the bracketed label, the name and the
      figures. */
  lemma ListLineSplit(r: ListRow)
    requires IsWord(r.name)
    ensures WsSplit(ListLine(r)) == ["[", "Channel", "]", r.name,
      IntToStr(r.current) + "/" + IntToStr(r.capacity) + "/" + IntToStr(r.queued)]
  {
    var a, b, c := IntToStr(r.current), IntToStr(r.capacity), IntToStr(r.queued);
    var figures := a + "/" + b + "/" + c;
    assert IsWord(figures) by {
      assert figures == a + ['/'] + b + ['/'] + c;
    }
    ListLineWords(r.name, figures);
    assert ListLine(r) == "[ Channel ] " + r.name + " " + figures;
    WsSplitJoin(["[", "Channel", "]", r.name, figures]);
  }

  lemma ListLineWords(name: string, figures: string)
    ensures Join(["[", "Channel", "]", name, figures], " ") == "[ Channel ] " + name + " " + figures
  {
    JoinCons("[", ["Channel", "]", name, figures], " ");
    JoinCons("Channel", ["]", name, figures], " ");
    JoinCons("]", [name, figures], " ");
    JoinCons(name, [figures], " ");
  }

  /** The reply has one line per channel, in order, and each reads back as
      that channel's figures. */
  lemma ReadListText(rows: seq<ListRow>)
    requires |rows| >= 1
    requires forall i :: 0 <= i < |rows| ==> IsWord(rows[i].name)
    ensures |SplitAll(ListText(rows), '\n')| == |rows|
    ensures forall i :: 0 <= i < |rows| ==>
      ReadListLine(SplitAll(ListText(rows), '\n')[i]) == Some(rows[i])
  {
    var lines := seq(|rows|, i requires 0 <= i < |rows| => ListLine(rows[i]));
    SplitJoin(lines, '\n');
    forall i | 0 <= i < |rows| ensures ReadListLine(lines[i]) == Some(rows[i]) {
      ReadListLineOf(rows[i]);
    }
  }
}
