/** The running server: the channel table built from the configuration
    and the operations that span it (`/switch`, `/list`, the
    administrator's `/kick`, `/empty` and `/mute`, and the intake of one
    client message). */
module Server {
  import opened Wrappers
  import opened PyStr
  import opened Config
  import opened Membership
  import opened Commands

  /** What `/switch <target>` did. */
  datatype SwitchOutcome =
    | NoSuchChannel             // "<target> does not exist."
    | CannotSwitch              // the name is taken in the target channel
    | SelfDeadlock              // target is the current channel: the lock is taken twice
    | Switched(wasMember: bool) // left the members (and announced it) or only the queue

  /** What an administrator command did to the table. */
  datatype AdminOutcome =
    | Crashed                     // uncaught exception: the command loop stops
    | UnknownChannel(name: string)
    | NotHere(user: string)
    | Kicked(session: Session)
    | Emptied(closed: seq<Session>)
    | MuteRejected(error: MuteError)
    | Muted(user: string, secs: int)

  /** One message as the handler takes it in. */
  datatype Intake =
    | Suppressed(secs: int)   // muted: "You are still muted for <secs> seconds."
    | Act(route: Route)
    | Fault                   // no mute table: `KeyError`, the message loop ends

  /** A channel as loading creates it from row `d`: the row's port and
      capacity, no members, nobody waiting, and no mute table yet. */
  predicate StartsAs(c: Channel, d: ChannelDef)
    reads c
  {
    c.port == d.port && c.capacity == d.capacity
    && c.clients == [] && c.queue == [] && c.muted == None
  }

  /** The table order and each channel's row in the `/list` reply. */
  class ChatServer {
    const names: seq<string>
    const table: map<string, Channel>

    function Channels(): set<Channel> {
      set n | n in table :: table[n]
    }

    /** The loaded table: names in file order, one distinct channel object
        per name, every channel admissible. */
    ghost predicate Valid()
      reads this, Channels()
    {
      (forall i, j :: 0 <= i < j < |names| ==> names[i] != names[j])
      && (forall n :: n in table <==> n in names)
      && (forall n :: n in table ==> ValidName(n) && table[n].Valid())
      && (forall m, n :: m in table && n in table && m != n ==> table[m] != table[n])
    }

    /** Position `i` of the table holds row `defs[i]` under its name,
        exactly as loading created it. */
    ghost predicate LoadedFrom(defs: seq<ChannelDef>)
      reads this, Channels()
    {
      |names| == |defs|
      && forall i :: 0 <= i < |defs| ==>
           names[i] == defs[i].name && names[i] in table && StartsAs(table[names[i]], defs[i])
    }

    /** The rows `/list` reports for the channels `ns`. */
    function RowsOf(ns: seq<string>): (rows: seq<ListRow>)
      requires forall n :: n in ns ==> n in table
      reads Channels()
      ensures |rows| == |ns|
      ensures forall i :: 0 <= i < |ns| ==>
        rows[i] == ListRow(ns[i], |table[ns[i]].clients|, table[ns[i]].capacity, |table[ns[i]].queue|)
    {
      if |ns| == 0 then []
      else
        var c := table[ns[0]];
        [ListRow(ns[0], |c.clients|, c.capacity, |c.queue|)] + RowsOf(ns[1..])
    }

    /** The table `load_channels` leaves: one channel per row, in file
        order, each with no members and nobody waiting. */
    constructor (defs: seq<ChannelDef>)
      requires DistinctNames(defs)
      requires forall i :: 0 <= i < |defs| ==> ValidDef(defs[i])
      ensures Valid() && fresh(Channels())
      ensures LoadedFrom(defs)
    {
      var ns, t := NewChannels(defs);
      names := ns;
      table := t;
      new;
      forall i, j | 0 <= i < j < |names| ensures names[i] != names[j] {
        assert names[i] == defs[i].name && names[j] == defs[j].name;
      }
      forall n | n in table ensures ValidName(n) && table[n].Valid() {
        var i :| 0 <= i < |defs| && names[i] == n;
        assert StartsAs(table[n], defs[i]) && ValidDef(defs[i]);
      }
    }

    /** `/switch <target>` from a session handled in channel `cur`. */
    method Switch(cur: string, s: Session, target: string) returns (outcome: SwitchOutcome)
      requires Valid() && cur in table
      modifies Channels()
      ensures Valid()
      ensures target !in table ==> outcome == NoSuchChannel
      ensures target in table && old(table[target].Holds(s.name)) ==> outcome == CannotSwitch
      ensures target == cur && !old(table[target].Holds(s.name)) ==> outcome == SelfDeadlock
      ensures target in table && target != cur && !old(table[target].Holds(s.name)) ==> outcome.Switched?
      ensures !outcome.Switched? ==> unchanged(Channels())
      ensures outcome.Switched? ==>
        target in table && target != cur && !old(table[target].Holds(s.name))
        && outcome.wasMember == (s in old(table[cur].clients))
        && table[cur].clients == RemoveFirst(old(table[cur].clients), s)
        && table[cur].queue == RemoveFirst(old(table[cur].queue), s)
        && s !in table[cur].clients && s !in table[cur].queue
        && table[target].clients == old(table[target].clients)
        && table[target].queue == old(table[target].queue) + [s]
        && table[cur].muted == old(table[cur].muted) && table[target].muted == old(table[target].muted)
      ensures forall n :: n in table && n != cur && n != target ==> unchanged(table[n])
    {
      if target !in table {
        return NoSuchChannel;
      }
      var dst := table[target];
      if HasName(dst.clients, s.name) || HasName(dst.queue, s.name) {
        return CannotSwitch;
      }
      if target == cur {
        return SelfDeadlock;
      }
      var src := table[cur];
      var was := src.Withdraw(s);
      NameAbsent(dst.clients, s);
      NameAbsent(dst.queue, s);
      dst.Enqueue(s);
      return Switched(was);
    }

    /** The administrator's `/kick <channel>:<user>` (the line already
        stripped and starting with `/kick `). */
    method AdminKick(command: string) returns (outcome: AdminOutcome)
      requires Valid()
      modifies Channels()
      ensures Valid()
      ensures outcome == Crashed <==> ':' !in command
      ensures ParseKick(command).Some? && ParseKick(command).value.channel !in table ==>
        outcome == UnknownChannel(ParseKick(command).value.channel)
      ensures ParseKick(command).Some? && ParseKick(command).value.channel in table ==>
        var req := ParseKick(command).value;
        var c := table[req.channel];
        c.queue == old(c.queue) && c.muted == old(c.muted)
        && (NameIndex(old(c.clients), req.user).None? ==>
              outcome == NotHere(req.user) && c.clients == old(c.clients))
        && (NameIndex(old(c.clients), req.user).Some? ==>
              var i := NameIndex(old(c.clients), req.user).value;
              outcome == Kicked(old(c.clients)[i]) && c.clients == old(c.clients)[..i] + old(c.clients)[i + 1..])
      ensures forall n :: n in table && (ParseKick(command).None? || n != ParseKick(command).value.channel) ==>
        unchanged(table[n])
    {
      var req := ParseKick(command);
      if req.None? {
        return Crashed;
      }
      var ch := req.value.channel;
      if ch !in table {
        return UnknownChannel(ch);
      }
      var c := table[ch];
      var kicked := c.Kick(req.value.user);
      if kicked.None? {
        return NotHere(req.value.user);
      }
      return Kicked(kicked.value);
    }

    /** The administrator's `/empty <channel>`. */
    method AdminEmpty(command: string) returns (outcome: AdminOutcome)
      requires Valid()
      modifies Channels()
      ensures Valid()
      ensures ParseEmpty(command).None? <==> ' ' !in command
      ensures ParseEmpty(command).None? ==> outcome == Crashed && unchanged(Channels())
      ensures ParseEmpty(command).Some? && ParseEmpty(command).value !in table ==>
        outcome == UnknownChannel(ParseEmpty(command).value) && unchanged(Channels())
      ensures ParseEmpty(command).Some? && ParseEmpty(command).value in table ==>
        var c := table[ParseEmpty(command).value];
        c.queue == old(c.queue)
        && (old(c.muted).Some? ==>
              outcome == Emptied(Evens(old(c.clients)))
              && c.clients == Odds(old(c.clients))
              && c.muted == Some(old(c.muted).value - NamesOf(Evens(old(c.clients)))))
        && (old(c.muted).None? && old(c.clients) == [] ==>
              outcome == Emptied([]) && c.clients == [] && c.muted == None)
        && (old(c.muted).None? && old(c.clients) != [] ==>
              outcome == Crashed && c.clients == old(c.clients)[1..] && c.muted == None)
      ensures forall n :: n in table && (ParseEmpty(command).None? || n != ParseEmpty(command).value) ==>
        unchanged(table[n])
    {
      var ch := ParseEmpty(command);
      if ch.None? {
        return Crashed;
      }
      if ch.value !in table {
        return UnknownChannel(ch.value);
      }
      var closed, finished := table[ch.value].EmptyMembers();
      if !finished {
        return Crashed;
      }
      return Emptied(closed);
    }

    /** The administrator's `/mute <channel>:<user> <seconds>`: the request
        is checked against the table, which it does not change. */
    method AdminMute(command: string) returns (outcome: AdminOutcome)
      requires Valid()
      ensures ParseMute(command).Err? ==> outcome == MuteRejected(ParseMute(command).error)
      ensures ParseMute(command).Ok? ==>
        var req := ParseMute(command).value;
        (req.channel !in table ==> outcome == UnknownChannel(req.channel))
        && (req.channel in table && table[req.channel].Holds(req.user) ==> outcome == Muted(req.user, req.secs))
        && (req.channel in table && !table[req.channel].Holds(req.user) ==> outcome == NotHere(req.user))
    {
      var req := ParseMute(command);
      if req.Err? {
        return MuteRejected(req.error);
      }
      var r := req.value;
      if r.channel !in table {
        return UnknownChannel(r.channel);
      }
      var c := table[r.channel];
      if HasName(c.clients, r.user) || HasName(c.queue, r.user) {
        return Muted(r.user, r.secs);
      }
      return NotHere(r.user);
    }

    /** The reply to `/list`: one line per channel in table order. */
    method List() returns (text: string)
      requires Valid()
      ensures text == ListText(RowsOf(names))
      ensures |names| >= 1 ==>
        |SplitAll(text, '\n')| == |names|
        && forall i :: 0 <= i < |names| ==> ReadListLine(SplitAll(text, '\n')[i]) == Some(RowsOf(names)[i])
    {
      var rows := CollectRows();
      text := ListText(rows);
      if |names| >= 1 {
        ReadListText(rows);
      }
    }

    /** Each channel's name, member count, capacity and queue length, in
        table order. */
    method CollectRows() returns (rows: seq<ListRow>)
      requires Valid()
      ensures rows == RowsOf(names)
    {
      ghost var want := RowsOf(names);
      rows := [];
      var k := 0;
      while k < |names|
        invariant 0 <= k <= |names|
        invariant rows == want[..k]
      {
        var c := table[names[k]];
        rows := rows + [ListRow(names[k], |c.clients|, c.capacity, |c.queue|)];
        k := k + 1;
      }
      assert rows == want;
    }

    /** One message from a session handled in channel `cur`: an empty read
        disconnects; otherwise the mute check runs first and a muted
        sender's message goes no further. */
    method Receive(cur: string, s: Session, msg: string, nowMs: int) returns (r: Intake)
      requires Valid() && cur in table
      modifies table[cur]
      ensures Valid()
      ensures msg == "" ==> r == Act(Disconnect) && unchanged(table[cur])
      ensures msg != "" && old(table[cur].muted).None? ==> r == Fault && table[cur].muted == None
      ensures msg != "" && old(table[cur].muted).Some? ==>
        var m := old(table[cur].muted).value;
        (s.name !in m ==> r == Act(RouteMessage(msg)) && table[cur].muted == Some(m))
        && (s.name in m && TruncSeconds(m[s.name] - nowMs) > 0 ==>
              r == Suppressed(TruncSeconds(m[s.name] - nowMs)) && table[cur].muted == Some(m))
        && (s.name in m && TruncSeconds(m[s.name] - nowMs) <= 0 ==>
              r == Act(RouteMessage(msg)) && table[cur].muted == Some(m - {s.name}))
      ensures table[cur].clients == old(table[cur].clients) && table[cur].queue == old(table[cur].queue)
    {
      if msg == "" {
        return Act(Disconnect);
      }
      var v := table[cur].CheckMute(s.name, nowMs);
      if v.NoTable? {
        return Fault;
      }
      if v.StillMuted? {
        return Suppressed(v.secs);
      }
      return Act(RouteMessage(msg));
    }
  }

  /** One fresh channel per row, keyed by the row's name, with the names
      in row order. */
  method NewChannels(defs: seq<ChannelDef>) returns (ns: seq<string>, t: map<string, Channel>)
    requires DistinctNames(defs)
    requires forall i :: 0 <= i < |defs| ==> ValidDef(defs[i])
    ensures |ns| == |defs|
    ensures forall i :: 0 <= i < |defs| ==> ns[i] == defs[i].name && ns[i] in t
    ensures forall n :: n in t ==> n in ns
    ensures forall n :: n in t ==> fresh(t[n])
    ensures forall m, n :: m in t && n in t && m != n ==> t[m] != t[n]
    ensures forall i :: 0 <= i < |defs| ==> StartsAs(t[ns[i]], defs[i])
  {
    ns, t := [], map[];
    var k := 0;
    while k < |defs|
      invariant 0 <= k <= |defs| && |ns| == k
      invariant forall i :: 0 <= i < k ==> ns[i] == defs[i].name && ns[i] in t
      invariant forall n :: n in t ==> n in ns
      invariant forall n :: n in t ==> fresh(t[n])
      invariant forall m, n :: m in t && n in t && m != n ==> t[m] != t[n]
      invariant forall i :: 0 <= i < k ==> StartsAs(t[ns[i]], defs[i])
    {
      var d := defs[k];
      var c := new Channel(d.port, d.capacity);
      t := t[d.name := c];
      ns := ns + [d.name];
      k := k + 1;
    }
  }

  /** Start-up: load the table, and on success build the server from it. */
  method Boot(lines: seq<string>) returns (r: Result<ChatServer, ConfigError>)
    ensures r.Err? <==> LoadTable(lines).Err?
    ensures r.Err? ==> r.error == LoadTable(lines).error
    ensures r.Ok? ==> r.value.Valid() && |r.value.names| == |lines|
    ensures r.Ok? ==> forall i :: 0 <= i < |lines| ==>
      ParseLine(lines[i]).Ok? && r.value.names[i] == ParseLine(lines[i]).value.name
    ensures r.Ok? ==> LoadTable(lines).Ok? && r.value.LoadedFrom(LoadTable(lines).value)
  {
    var loaded := LoadChannels(lines);
    if loaded.Err? {
      return Err(loaded.error);
    }
    LoadTableCorrect(lines);
    var server := new ChatServer(loaded.value);
    return Ok(server);
  }
}
