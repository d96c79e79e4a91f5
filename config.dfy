/** The channel table read at start-up (`ChatServer.load_channels`): one
    line per channel, `channel <name> <port> <capacity>`, checked line by
    line; the first violation aborts start-up with exit status 1. */
module Config {
  import opened Wrappers
  import opened PyStr

  /** One row of the channel table. */
  datatype ChannelDef = ChannelDef(name: string, port: int, capacity: int)

  /** Why start-up was aborted; each case is one message the loader prints
      before `sys.exit(1)`. */
  datatype ConfigError =
    | InvalidConfiguration          // wrong field count or keyword
    | NameStartsWithDigit(name: string)
    | InvalidPort(text: string)     // not an integer
    | EphemeralPort(port: int)      // 1024..65535
    | PortTooLarge(port: int)       // above 65535
    | InvalidCapacity(text: string) // not an integer, or below 5
    | DuplicateName(name: string)
    | DuplicatePort(port: int)

  /** A channel name as the table keeps it: a whitespace-free word whose
      first character is not a digit. */
  predicate ValidName(name: string) {
    IsWord(name) && !IsDigit(name[0])
  }

  /** What every accepted row satisfies. */
  predicate ValidDef(d: ChannelDef) {
    ValidName(d.name) && d.port < 1024 && d.capacity >= 5
  }

  /** The keyword test `parts[0].lower() != 'channel'`. */
  predicate IsChannelKeyword(w: string) {
    Lower(w) == "channel"
  }

  /** Checks one line on its own (everything but the duplicate checks). */
  function ParseLine(line: string): (r: Result<ChannelDef, ConfigError>)
    ensures r.Ok? ==> ValidDef(r.value)
    ensures r.Ok? ==> var parts := WsSplit(line);
      |parts| == 4 && IsChannelKeyword(parts[0]) && parts[1] == r.value.name
      && ParseInt(parts[2]) == Some(r.value.port) && ParseInt(parts[3]) == Some(r.value.capacity)
    ensures r.Err? ==> !r.error.DuplicateName? && !r.error.DuplicatePort?
    ensures r == Err(InvalidConfiguration) <==>
      (|WsSplit(line)| != 4 || !IsChannelKeyword(WsSplit(line)[0]))
  {
    var parts := WsSplit(Strip(line));
    StripSplit(line);
    if |parts| != 4 || !IsChannelKeyword(parts[0]) then Err(InvalidConfiguration)
    else if IsDigit(parts[1][0]) then Err(NameStartsWithDigit(parts[1]))
    else match ParseInt(parts[2])
      case None => Err(InvalidPort(parts[2]))
      case Some(port) =>
        if 1024 <= port <= 65535 then Err(EphemeralPort(port))
        else if port > 65535 then Err(PortTooLarge(port))
        else match ParseInt(parts[3])
          case None => Err(InvalidCapacity(parts[3]))
          case Some(capacity) =>
            if capacity < 5 then Err(InvalidCapacity(parts[3]))
            else Ok(ChannelDef(parts[1], port, capacity))
  }

  /** Renders a row the way a configuration file writes it. */
  function Render(d: ChannelDef): string {
    Join(["channel", d.name, IntToStr(d.port), IntToStr(d.capacity)], " ")
  }

  /** Every valid row is accepted from its own rendering and read back
      unchanged: the validator rejects nothing the format allows. */
  lemma ParseRender(d: ChannelDef)
    requires ValidDef(d)
    ensures ParseLine(Render(d)) == Ok(d)
  {
    RenderSplit(d);
    ParseIntToStr(d.port);
    ParseIntToStr(d.capacity);
    assert Lower("channel") == "channel";
  }

  /** The rendered line splits back into its four fields. */
  lemma RenderSplit(d: ChannelDef)
    requires ValidName(d.name)
    ensures WsSplit(Strip(Render(d))) == ["channel", d.name, IntToStr(d.port), IntToStr(d.capacity)]
  {
    var words := ["channel", d.name, IntToStr(d.port), IntToStr(d.capacity)];
    assert IsWord("channel");
    IntToStrWord(d.port);
    IntToStrWord(d.capacity);
    WsSplitJoin(words);
    StripSplit(Render(d));
  }

  lemma IntToStrWord(i: int)
    ensures IsWord(IntToStr(i))
  {
  }

  /** A port in the ephemeral range 1024..65535 or above 65535 is refused,
      whatever the rest of the line says. */
  lemma PortRangeRejected(line: string)
    requires var parts := WsSplit(line);
      |parts| == 4 && ParseInt(parts[2]).Some? && ParseInt(parts[2]).value >= 1024
    ensures ParseLine(line).Err?
    ensures ParseLine(line).error.EphemeralPort? || ParseLine(line).error.PortTooLarge?
      || ParseLine(line) == Err(InvalidConfiguration) || ParseLine(line).error.NameStartsWithDigit?
  {
    StripSplit(line);
  }

  /** `any(existing['port'] == port ...)` over the rows loaded so far. */
  predicate HasPort(table: seq<ChannelDef>, port: int) {
    exists i :: 0 <= i < |table| && table[i].port == port
  }

  /** `name in self.channels`. */
  predicate HasChannel(table: seq<ChannelDef>, name: string) {
    exists i :: 0 <= i < |table| && table[i].name == name
  }

  predicate DistinctNames(table: seq<ChannelDef>) {
    forall i, j :: 0 <= i < j < |table| ==> table[i].name != table[j].name
  }

  predicate DistinctPorts(table: seq<ChannelDef>) {
    forall i, j :: 0 <= i < j < |table| ==> table[i].port != table[j].port
  }

  /** The outcome of checking each line on its own, in file order. */
  function ParseAll(lines: seq<string>): (rows: seq<Result<ChannelDef, ConfigError>>)
    ensures |rows| == |lines|
  {
    seq(|lines|, i requires 0 <= i < |lines| => ParseLine(lines[i]))
  }

  /** The whole load on top of the rows accepted so far: the first rejected
      line decides the error. */
  function LoadRows(table: seq<ChannelDef>, rows: seq<Result<ChannelDef, ConfigError>>): Result<seq<ChannelDef>, ConfigError>
    decreases |rows|
  {
    if |rows| == 0 then Ok(table)
    else match rows[0]
      case Err(e) => Err(e)
      case Ok(d) =>
        if HasChannel(table, d.name) then Err(DuplicateName(d.name))
        else if HasPort(table, d.port) then Err(DuplicatePort(d.port))
        else LoadRows(table + [d], rows[1..])
  }

  /** The loaded table, in file order. */
  function LoadTable(lines: seq<string>): Result<seq<ChannelDef>, ConfigError> {
    LoadRows([], ParseAll(lines))
  }

  /** Every row was accepted on its own, no two share a name or a port, and
      none clashes with `table`. */
  predicate AcceptableAfter(table: seq<ChannelDef>, rows: seq<Result<ChannelDef, ConfigError>>) {
    (forall i :: 0 <= i < |rows| ==> rows[i].Ok?)
    && (forall i, j :: 0 <= i < j < |rows| ==>
          rows[i].value.name != rows[j].value.name && rows[i].value.port != rows[j].value.port)
    && (forall i, k :: 0 <= i < |rows| && 0 <= k < |table| ==>
          rows[i].value.name != table[k].name && rows[i].value.port != table[k].port)
  }

  /** Every line is accepted on its own and no two lines share a name or a
      port. */
  predicate Acceptable(lines: seq<string>) {
    (forall i :: 0 <= i < |lines| ==> ParseLine(lines[i]).Ok?)
    && (forall i, j :: 0 <= i < j < |lines| ==>
          ParseLine(lines[i]).value.name != ParseLine(lines[j]).value.name
          && ParseLine(lines[i]).value.port != ParseLine(lines[j]).value.port)
  }

  /** Loading succeeds exactly on acceptable files, and then yields one
      valid row per line, in order, with distinct names and distinct ports. */
  lemma LoadTableCorrect(lines: seq<string>)
    ensures LoadTable(lines).Ok? <==> Acceptable(lines)
    ensures LoadTable(lines).Ok? ==>
      var t := LoadTable(lines).value;
      |t| == |lines| && DistinctNames(t) && DistinctPorts(t)
      && forall i :: 0 <= i < |t| ==> ValidDef(t[i]) && ParseLine(lines[i]) == Ok(t[i])
  {
    var rows := ParseAll(lines);
    LoadRowsCorrect([], rows);
    assert AcceptableAfter([], rows) <==> Acceptable(lines) by {
      assert forall i :: 0 <= i < |lines| ==> rows[i] == ParseLine(lines[i]);
    }
    if LoadTable(lines).Ok? {
      var t := LoadTable(lines).value;
      forall i | 0 <= i < |t| ensures ValidDef(t[i]) && ParseLine(lines[i]) == Ok(t[i]) {
        assert rows[i] == Ok(t[0 + i]);
      }
    }
  }

  /** The generalisation of `LoadTableCorrect` to a table already holding
      `table`. */
  lemma {:induction false} LoadRowsCorrect(table: seq<ChannelDef>, rows: seq<Result<ChannelDef, ConfigError>>)
    requires DistinctNames(table) && DistinctPorts(table)
    ensures LoadRows(table, rows).Ok? <==> AcceptableAfter(table, rows)
    ensures LoadRows(table, rows).Ok? ==>
      var t := LoadRows(table, rows).value;
      |t| == |table| + |rows| && t[..|table|] == table && DistinctNames(t) && DistinctPorts(t)
      && forall i :: 0 <= i < |rows| ==> rows[i] == Ok(t[|table| + i])
    decreases |rows|
  {
    if |rows| > 0 {
      var p := rows[0];
      if p.Err? {
        assert !AcceptableAfter(table, rows);
      } else if HasChannel(table, p.value.name) {
        var k :| 0 <= k < |table| && table[k].name == p.value.name;
        assert !AcceptableAfter(table, rows);
      } else if HasPort(table, p.value.port) {
        var k :| 0 <= k < |table| && table[k].port == p.value.port;
        assert !AcceptableAfter(table, rows);
      } else {
        var d := p.value;
        var table' := table + [d];
        var rest := rows[1..];
        assert DistinctNames(table') && DistinctPorts(table');
        LoadRowsCorrect(table', rest);
        AcceptableStep(table, d, rows);
        if LoadRows(table, rows).Ok? {
          var t := LoadRows(table, rows).value;
          assert t == LoadRows(table', rest).value;
          assert t[..|table'|] == table';
          assert t[..|table|] == table'[..|table|];
          forall i | 0 <= i < |rows|
            ensures rows[i] == Ok(t[|table| + i])
          {
            if i > 0 {
              assert rest[i - 1] == rows[i];
            }
          }
        }
      }
    }
  }

  lemma AcceptableStep(table: seq<ChannelDef>, d: ChannelDef, rows: seq<Result<ChannelDef, ConfigError>>)
    requires |rows| > 0 && rows[0] == Ok(d)
    requires !HasChannel(table, d.name) && !HasPort(table, d.port)
    ensures AcceptableAfter(table, rows) <==> AcceptableAfter(table + [d], rows[1..])
  {
    var table' := table + [d];
    var rest := rows[1..];
    assert forall i :: 0 < i < |rows| ==> rows[i] == rest[i - 1];
    assert forall k :: 0 <= k < |table| ==> table'[k] == table[k];
    assert table'[|table|] == d;
  }

  /** The loop over `self.channels.values()` looking for a row that
      already uses `port`. */
  method PortTaken(table: seq<ChannelDef>, port: int) returns (taken: bool)
    ensures taken <==> exists i :: 0 <= i < |table| && table[i].port == port
  {
    var k := 0;
    while k < |table|
      invariant 0 <= k <= |table|
      invariant forall i :: 0 <= i < k ==> table[i].port != port
    {
      if table[k].port == port {
        return true;
      }
      k := k + 1;
    }
    return false;
  }

  /** `load_channels`: reads the lines in order into the table, checking
      each line and then the name and the port against the rows already
      loaded. */
  method LoadChannels(lines: seq<string>) returns (r: Result<seq<ChannelDef>, ConfigError>)
    ensures r == LoadTable(lines)
  {
    ghost var rows := ParseAll(lines);
    var table: seq<ChannelDef> := [];
    var n := 0;
    while n < |lines|
      invariant 0 <= n <= |lines|
      invariant LoadRows(table, rows[n..]) == LoadTable(lines)
    {
      assert rows[n..][0] == rows[n] == ParseLine(lines[n]);
      assert rows[n..][1..] == rows[n + 1..];
      var parsed := ParseLine(lines[n]);
      if parsed.Err? {
        return Err(parsed.error);
      }
      var d := parsed.value;
      if HasChannel(table, d.name) {
        return Err(DuplicateName(d.name));
      }
      var taken := PortTaken(table, d.port);
      if taken {
        return Err(DuplicatePort(d.port));
      }
      table := table + [d];
      n := n + 1;
    }
    return Ok(table);
  }
}
