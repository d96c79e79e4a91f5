/** The state each channel keeps while the server runs: the admitted
    members (`clients`), the waiting line (`queue`) and the per-channel mute
    table (`muted`), together with the operations the connection handler and
    the administrator apply to them under the channel's lock. Each
    lock-guarded block is one method. */
module Membership {
  import opened Wrappers

  /** A connection. `id` stands for the socket (and the address), which
      makes the `(client_socket, username, addr)` tuple unique; `name` is
      the username the client sent first. */
  datatype Session = Session(id: nat, name: string)

  /** `any(user[1] == name for user in xs)`. */
  function HasName(xs: seq<Session>, name: string): (b: bool)
    ensures b <==> exists i :: 0 <= i < |xs| && xs[i].name == name
    decreases |xs|
  {
    if |xs| == 0 then false
    else xs[0].name == name || HasName(xs[1..], name)
  }

  /** The position the `for client, user, _ in clients` loop stops at:
      the first entry called `name`. */
  function NameIndex(xs: seq<Session>, name: string): (r: Option<nat>)
    ensures r.None? <==> !HasName(xs, name)
    ensures r.Some? ==> r.value < |xs| && xs[r.value].name == name
    ensures r.Some? ==> forall j :: 0 <= j < r.value ==> xs[j].name != name
    decreases |xs|
  {
    if |xs| == 0 then None
    else if xs[0].name == name then Some(0)
    else match NameIndex(xs[1..], name)
      case None => None
      case Some(i) => Some(i + 1)
  }

  /** `xs.index(x)`; `None` where Python raises `ValueError`. */
  function IndexOf(xs: seq<Session>, x: Session): (r: Option<nat>)
    ensures r.None? <==> x !in xs
    ensures r.Some? ==> r.value < |xs| && xs[r.value] == x && x !in xs[..r.value]
    decreases |xs|
  {
    if |xs| == 0 then None
    else if xs[0] == x then Some(0)
    else match IndexOf(xs[1..], x)
      case None => None
      case Some(i) =>
        assert xs[..i + 1] == [xs[0]] + xs[1..][..i];
        Some(i + 1)
  }

  /** `xs.remove(x)` when `x` is present: the first equal entry goes. When
      `x` is absent Python raises; callers test `x in xs` first. */
  function RemoveFirst(xs: seq<Session>, x: Session): (r: seq<Session>)
    ensures multiset(r) == multiset(xs) - multiset{x}
    ensures x in xs ==> |r| == |xs| - 1
    ensures x !in xs ==> r == xs
  {
    match IndexOf(xs, x)
    case None => xs
    case Some(i) =>
      assert xs == xs[..i] + [x] + xs[i + 1..];
      xs[..i] + xs[i + 1..]
  }

  /** Removing the entry at `i` is `remove` of that entry when no equal
      entry comes before it. */
  lemma RemoveFirstAt(xs: seq<Session>, i: nat)
    requires i < |xs| && xs[i] !in xs[..i]
    ensures RemoveFirst(xs, xs[i]) == xs[..i] + xs[i + 1..]
  {
    var r := IndexOf(xs, xs[i]);
    assert r.Some?;
  }

  /** No session occurs twice. */
  predicate NoDup(xs: seq<Session>) {
    forall i, j :: 0 <= i < j < |xs| ==> xs[i] != xs[j]
  }

  /** In a list without repeats, `remove` takes the session out
      altogether. */
  lemma RemoveFirstGone(xs: seq<Session>, x: Session)
    requires NoDup(xs)
    ensures x !in RemoveFirst(xs, x)
    ensures NoDup(RemoveFirst(xs, x))
    ensures forall y :: y in RemoveFirst(xs, x) ==> y in xs
  {
    if x in xs {
      var i := IndexOf(xs, x).value;
      var r := xs[..i] + xs[i + 1..];
      assert RemoveFirst(xs, x) == r;
      forall a, b | 0 <= a < b < |r| ensures r[a] != r[b] {
        var a' := if a < i then a else a + 1;
        var b' := if b < i then b else b + 1;
        assert r[a] == xs[a'] && r[b] == xs[b'];
      }
      forall y | y in r ensures y in xs {
        assert multiset(r)[y] > 0;
      }
    }
  }

  /** Sessions with the same name are the only ones `HasName` sees. */
  lemma NameAbsent(xs: seq<Session>, s: Session)
    requires !HasName(xs, s.name)
    ensures s !in xs
  {
  }

  /** The recipients of a broadcast from `sender`: every entry whose socket
      is not the sender's, in list order (`if client != client_socket`). */
  function Others(xs: seq<Session>, sender: Session): (r: seq<Session>)
    ensures |r| <= |xs|
    ensures forall x :: x in r <==> x in xs && x.id != sender.id
    decreases |xs|
  {
    if |xs| == 0 then []
    else if xs[0].id == sender.id then Others(xs[1..], sender)
    else [xs[0]] + Others(xs[1..], sender)
  }

  /** Filtering a concatenation filters each part: the recipients keep
      the list's order. */
  lemma {:induction false} OthersConcat(a: seq<Session>, b: seq<Session>, sender: Session)
    ensures Others(a + b, sender) == Others(a, sender) + Others(b, sender)
    decreases |a|
  {
    if |a| == 0 {
      assert a + b == b;
    } else {
      assert (a + b)[0] == a[0];
      assert (a + b)[1..] == a[1..] + b;
      OthersConcat(a[1..], b, sender);
    }
  }

  /** A sender listed once among the members is the only one left out. */
  lemma {:induction false} OthersOne(xs: seq<Session>, sender: Session)
    requires NoDup(xs) && sender in xs
    requires forall x :: x in xs && x.id == sender.id ==> x == sender
    ensures |Others(xs, sender)| == |xs| - 1
    decreases |xs|
  {
    if xs[0] == sender {
      assert sender !in xs[1..];
      OthersNone(xs[1..], sender);
    } else {
      assert xs[0].id != sender.id;
      assert sender in xs[1..];
      assert NoDup(xs[1..]) by {
        forall i, j | 0 <= i < j < |xs[1..]| ensures xs[1..][i] != xs[1..][j] {
          assert xs[1..][i] == xs[i + 1] && xs[1..][j] == xs[j + 1];
        }
      }
      OthersOne(xs[1..], sender);
    }
  }

  /** Nobody shares the sender's socket: everybody hears the message. */
  lemma {:induction false} OthersNone(xs: seq<Session>, sender: Session)
    requires forall x :: x in xs ==> x.id != sender.id
    ensures Others(xs, sender) == xs
    decreases |xs|
  {
    if |xs| > 0 {
      assert xs[0] in xs;
      OthersNone(xs[1..], sender);
      assert xs == [xs[0]] + xs[1..];
    }
  }

  /** The entries at even positions 0, 2, 4, ... */
  function Evens(xs: seq<Session>): (r: seq<Session>)
    ensures |r| == (|xs| + 1) / 2
    ensures forall i :: 0 <= i < |r| ==> r[i] == xs[2 * i]
    decreases |xs|
  {
    if |xs| == 0 then [] else [xs[0]] + Odds(xs[1..])
  }

  /** The entries at odd positions 1, 3, 5, ... */
  function Odds(xs: seq<Session>): (r: seq<Session>)
    ensures |r| == |xs| / 2
    ensures forall i :: 0 <= i < |r| ==> r[i] == xs[2 * i + 1]
    decreases |xs|
  {
    if |xs| == 0 then [] else Evens(xs[1..])
  }

  /** Every entry is at an even or at an odd position. */
  lemma {:induction false} EvensOddsPartition(xs: seq<Session>)
    ensures multiset(Evens(xs)) + multiset(Odds(xs)) == multiset(xs)
    decreases |xs|
  {
    if |xs| > 0 {
      EvensOddsPartition(xs[1..]);
      assert xs == [xs[0]] + xs[1..];
    }
  }

  /** One more entry at an even position goes to `Evens`. */
  lemma EvensGrow(xs: seq<Session>, p: nat)
    requires p < |xs| && p % 2 == 0
    ensures Evens(xs[..p + 1]) == Evens(xs[..p]) + [xs[p]]
    ensures Odds(xs[..p + 1]) == Odds(xs[..p])
  {
    var e, e' := Evens(xs[..p]), Evens(xs[..p + 1]);
    assert |e'| == |e| + 1;
    forall i | 0 <= i < |e'| ensures e'[i] == (e + [xs[p]])[i] {
      if i < |e| {
        assert e[i] == xs[..p][2 * i];
      }
    }
    var o, o' := Odds(xs[..p]), Odds(xs[..p + 1]);
    forall i | 0 <= i < |o'| ensures o'[i] == o[i] {
      assert o[i] == xs[..p][2 * i + 1];
    }
  }

  /** One more entry at an odd position leaves `Evens` as it was. */
  lemma EvensOddGrow(xs: seq<Session>, p: nat)
    requires p < |xs| && p % 2 == 1
    ensures Evens(xs[..p + 1]) == Evens(xs[..p])
  {
    var e, e' := Evens(xs[..p]), Evens(xs[..p + 1]);
    forall i | 0 <= i < |e'| ensures e'[i] == e[i] {
      assert e[i] == xs[..p][2 * i];
    }
  }

  /** One more entry at an odd position goes to `Odds`. */
  lemma OddsGrow(xs: seq<Session>, p: nat)
    requires p < |xs| && p % 2 == 1
    ensures Odds(xs[..p + 1]) == Odds(xs[..p]) + [xs[p]]
  {
    var o, o' := Odds(xs[..p]), Odds(xs[..p + 1]);
    assert |o'| == |o| + 1;
    forall i | 0 <= i < |o'| ensures o'[i] == (o + [xs[p]])[i] {
      if i < |o| {
        assert o[i] == xs[..p][2 * i + 1];
      }
    }
  }

  /** The entries `Odds` keeps are distinct entries of the list. */
  lemma OddsKept(xs: seq<Session>)
    requires NoDup(xs)
    ensures NoDup(Odds(xs))
    ensures forall x :: x in Odds(xs) ==> x in xs
  {
    var o := Odds(xs);
    forall a, b | 0 <= a < b < |o| ensures o[a] != o[b] {
      assert o[a] == xs[2 * a + 1] && o[b] == xs[2 * b + 1];
    }
    forall x | x in o ensures x in xs {
      var k :| 0 <= k < |o| && o[k] == x;
      assert xs[2 * k + 1] == x;
    }
  }

  /** The user names of `xs`. */
  function NamesOf(xs: seq<Session>): set<string> {
    set x | x in xs :: x.name
  }

  lemma NamesOfSnoc(xs: seq<Session>, s: Session)
    ensures NamesOf(xs + [s]) == NamesOf(xs) + {s.name}
  {
    assert s in xs + [s];
    forall n | n in NamesOf(xs) ensures n in NamesOf(xs + [s]) {
      var x :| x in xs && x.name == n;
      assert x in xs + [s];
    }
  }

  /** Where the `/empty` loop stands after `i` turns over the original
      member list `all`: the first `p` entries were visited, those at even
      positions are closed, those at odd positions stay. */
  ghost predicate EmptyInv(all: seq<Session>, p: nat, i: nat, cs: seq<Session>, closed: seq<Session>) {
    p == (if 2 * i <= |all| then 2 * i else |all|)
    && cs == Odds(all[..p]) + all[p..] && closed == Evens(all[..p])
  }

  /** A turn of the loop keeps `EmptyInv`. */
  lemma EmptyStep(all: seq<Session>, p: nat, i: nat, cs: seq<Session>, closed: seq<Session>)
    requires NoDup(all) && EmptyInv(all, p, i, cs, closed) && i < |cs|
    ensures cs[i] == all[p]
    ensures EmptyInv(all, if p + 2 <= |all| then p + 2 else |all|, i + 1,
                     RemoveFirst(cs, cs[i]), closed + [cs[i]])
  {
    assert p == 2 * i && p < |all|;
    assert |Odds(all[..p])| == i;
    assert cs[i] == all[p..][0];
    EmptyRemove(all, p);
    EmptyAdvance(all, p);
  }

  /** When the loop stops, every entry was visited. */
  lemma EmptyDone(all: seq<Session>, p: nat, i: nat, cs: seq<Session>, closed: seq<Session>)
    requires EmptyInv(all, p, i, cs, closed) && i >= |cs|
    ensures cs == Odds(all) && closed == Evens(all)
  {
    assert p == |all|;
    assert all[..p] == all;
  }

  /** The `/empty` loop over the member list `all`, closing and removing
      while iterating forward, and dropping each closed user's mute entry
      from `table`. */
  method EmptyPass(all: seq<Session>, table: map<string, int>)
    returns (kept: seq<Session>, table': map<string, int>, closed: seq<Session>)
    requires NoDup(all)
    ensures closed == Evens(all) && kept == Odds(all)
    ensures table' == table - NamesOf(closed)
  {
    kept, table', closed := all, table, [];
    var i := 0;
    ghost var p := 0;
    while i < |kept|
      invariant EmptyInv(all, p, i, kept, closed)
      invariant table' == table - NamesOf(closed)
      decreases |all| - p
    {
      var s := kept[i];
      EmptyTurn(all, p, i, kept, closed, table, table');
      kept, table', closed := RemoveFirst(kept, s), table' - {s.name}, closed + [s];
      i := i + 1;
      p := if p + 2 <= |all| then p + 2 else |all|;
    }
    EmptyDone(all, p, i, kept, closed);
  }

  /** A turn of the loop keeps both loop invariants and moves `p` on. */
  lemma EmptyTurn(all: seq<Session>, p: nat, i: nat, cs: seq<Session>, closed: seq<Session>,
                  table: map<string, int>, t: map<string, int>)
    requires NoDup(all) && EmptyInv(all, p, i, cs, closed) && i < |cs|
    requires t == table - NamesOf(closed)
    ensures p < |all|
    ensures EmptyInv(all, if p + 2 <= |all| then p + 2 else |all|, i + 1,
                     RemoveFirst(cs, cs[i]), closed + [cs[i]])
    ensures t - {cs[i].name} == table - NamesOf(closed + [cs[i]])
  {
    EmptyStep(all, p, i, cs, closed);
    NamesOfSnoc(closed, cs[i]);
    MapMinus(t, table, NamesOf(closed), cs[i].name);
  }

  lemma MapMinus(m: map<string, int>, m0: map<string, int>, gone: set<string>, name: string)
    requires m == m0 - gone
    ensures m - {name} == m0 - (gone + {name})
  {
  }

  /** One turn of the `/empty` loop on the original member list `all`,
      after `p` entries of it were visited: the entry at `p` is the one
      removed. */
  lemma EmptyRemove(all: seq<Session>, p: nat)
    requires NoDup(all) && p % 2 == 0 && p < |all|
    ensures RemoveFirst(Odds(all[..p]) + all[p..], all[p]) == Odds(all[..p]) + all[p + 1..]
  {
    OddsBefore(all, p);
    RemoveAfter(Odds(all[..p]), all[p..]);
    assert all[p..][1..] == all[p + 1..];
  }

  /** No member visited before position `p` is the one at `p`. */
  lemma OddsBefore(all: seq<Session>, p: nat)
    requires NoDup(all) && p < |all|
    ensures all[p] !in Odds(all[..p])
  {
    var o := Odds(all[..p]);
    forall k | 0 <= k < |o| ensures o[k] != all[p] {
      assert o[k] == all[..p][2 * k + 1] == all[2 * k + 1];
    }
  }

  /** Removing the first entry of `t` from `o + t` when `o` lacks it. */
  lemma RemoveAfter(o: seq<Session>, t: seq<Session>)
    requires |t| > 0 && t[0] !in o
    ensures RemoveFirst(o + t, t[0]) == o + t[1..]
  {
    var c := o + t;
    assert c[|o|] == t[0] && c[..|o|] == o;
    RemoveFirstAt(c, |o|);
    assert c[|o| + 1..] == t[1..];
  }

  /** ... and the entry after it, if any, is skipped. */
  lemma EmptyAdvance(all: seq<Session>, p: nat)
    requires p % 2 == 0 && p < |all|
    ensures var q := if p + 2 <= |all| then p + 2 else |all|;
      Odds(all[..p]) + all[p + 1..] == Odds(all[..q]) + all[q..]
      && Evens(all[..q]) == Evens(all[..p]) + [all[p]]
  {
    EvensGrow(all, p);
    if p + 2 <= |all| {
      OddsGrow(all, p + 1);
      EvensOddGrow(all, p + 1);
      assert all[p + 1..] == [all[p + 1]] + all[p + 2..];
    }
  }

  /** `int(t)` of a time difference given in milliseconds: whole seconds,
      truncated toward zero. */
  function TruncSeconds(ms: int): (secs: int)
    ensures ms >= 0 ==> 0 <= 1000 * secs <= ms < 1000 * secs + 1000
    ensures ms < 0 ==> 1000 * secs - 1000 < ms <= 1000 * secs <= 0
  {
    if ms >= 0 then ms / 1000 else -((-ms) / 1000)
  }

  /** The check `remaining_time > 0` holds exactly when at least one whole
      second of the mute is left; a mute with less than a second to run is
      lifted. */
  lemma StillMutedIff(expiryMs: int, nowMs: int)
    ensures TruncSeconds(expiryMs - nowMs) > 0 <==> expiryMs - nowMs >= 1000
  {
  }

  /** The capacity the loader enforced is never exceeded, and no session
      is listed twice, whether as a member, as a waiter or as both. */
  ghost predicate Admissible(capacity: int, clients: seq<Session>, queue: seq<Session>) {
    5 <= capacity && |clients| <= capacity && NoDup(clients) && NoDup(queue)
    && (forall x :: x in clients ==> x !in queue)
  }

  /** Emptying keeps a channel admissible. */
  lemma OddsAdmissible(capacity: int, clients: seq<Session>, queue: seq<Session>)
    requires Admissible(capacity, clients, queue)
    ensures Admissible(capacity, Odds(clients), queue)
  {
    OddsKept(clients);
  }

  /** Losing the first member keeps a channel admissible. */
  lemma DropHeadAdmissible(capacity: int, clients: seq<Session>, queue: seq<Session>)
    requires Admissible(capacity, clients, queue) && clients != []
    ensures Admissible(capacity, clients[1..], queue)
  {
    forall x | x in clients[1..] ensures x in clients {
      var k :| 0 <= k < |clients[1..]| && clients[1..][k] == x;
      assert clients[k + 1] == x;
    }
  }

  /** What one admission poll (the body of the waiting loop) does. */
  datatype Admission =
    | Admitted             // moved from the head of the queue into the channel
    | Waiting(ahead: nat)  // told how many sessions are ahead of it
    | EmptyQueue           // `queue[0]` on an empty queue raises IndexError
    | NotQueued            // `queue.index` raises ValueError

  /** What the mute check does with an incoming message. */
  datatype MuteVerdict =
    | NotMuted                // no entry for the user
    | Lifted                  // the entry has run out and is deleted
    | StillMuted(secs: int)   // message suppressed, `secs` seconds left
    | NoTable                 // the channel has no mute table yet: `KeyError`

  /** One channel of the table: its fixed port and capacity and the lists
      the lock guards. */
  class Channel {
    const port: int
    const capacity: int
    var clients: seq<Session>
    var queue: seq<Session>
    /** Mute expiry per user name, in milliseconds of the server clock.
        The loader creates no table; the first connection to the channel
        does (`None` until then). */
    var muted: Option<map<string, int>>

    /** The channel's lists are admissible. */
    ghost predicate Valid()
      reads this
    {
      Admissible(capacity, clients, queue)
    }

    /** A freshly loaded channel: nobody in it, nobody waiting, and no
        mute table. */
    constructor (port: int, capacity: int)
      requires capacity >= 5
      ensures Valid()
      ensures this.port == port && this.capacity == capacity
      ensures clients == [] && queue == [] && muted == None
    {
      this.port := port;
      this.capacity := capacity;
      clients := [];
      queue := [];
      muted := None;
    }

    /** Someone in the channel or waiting for it is called `name`. */
    predicate Holds(name: string)
      reads this
    {
      HasName(clients, name) || HasName(queue, name)
    }

    /** A new connection: the mute table is reset, then the username is
        checked against the members only (not the queue) and, if free, the
        session joins the end of the queue. `s` is a new socket, so it is in
        neither list yet. */
    method Join(s: Session) returns (accepted: bool)
      requires Valid() && s !in clients && s !in queue
      modifies this
      ensures Valid()
      ensures muted == Some(map[])
      ensures accepted <==> !HasName(old(clients), s.name)
      ensures clients == old(clients)
      ensures queue == if accepted then old(queue) + [s] else old(queue)
    {
      muted := Some(map[]);
      if HasName(clients, s.name) {
        return false;
      }
      queue := queue + [s];
      return true;
    }

    /** One poll of the waiting loop: the head of the queue enters when
        there is room; anyone else learns its position. */
    method AdmitStep(s: Session) returns (step: Admission)
      requires Valid()
      modifies this
      ensures Valid()
      ensures muted == old(muted)
      ensures step == EmptyQueue <==> old(queue) == []
      ensures step == Admitted <==>
        old(queue) != [] && old(queue)[0] == s && |old(clients)| < capacity
      ensures step == Admitted ==> clients == old(clients) + [s] && queue == old(queue)[1..]
      ensures step != Admitted ==> clients == old(clients) && queue == old(queue)
      ensures step.Waiting? ==> step.ahead < |queue| && queue[step.ahead] == s && s !in queue[..step.ahead]
      ensures step == NotQueued <==> old(queue) != [] && s !in old(queue)
      ensures old(queue) != [] && s in old(queue) && step != Admitted ==>
        step == Waiting(IndexOf(old(queue), s).value)
    {
      if |queue| == 0 {
        return EmptyQueue;
      }
      if queue[0] == s && |clients| < capacity {
        assert s !in clients;
        assert queue == [s] + queue[1..];
        clients := clients + [s];
        queue := queue[1..];
        return Admitted;
      }
      match IndexOf(queue, s)
      case None => step := NotQueued;
      case Some(i) => step := Waiting(i);
    }

    /** The `for client, user, _ in clients` search: the first member
        called `name`. */
    method FindMember(name: string) returns (r: Option<nat>)
      ensures r.None? <==> !HasName(clients, name)
      ensures r.Some? ==> r.value < |clients| && clients[r.value].name == name
      ensures r.Some? ==> forall j :: 0 <= j < r.value ==> clients[j].name != name
    {
      var i := 0;
      while i < |clients|
        invariant 0 <= i <= |clients|
        invariant forall j :: 0 <= j < i ==> clients[j].name != name
      {
        if clients[i].name == name {
          return Some(i);
        }
        i := i + 1;
      }
      return None;
    }

    /** The administrator's `/kick`: the first member with that name is
        removed; the queue and the mute table stay as they are. */
    method Kick(name: string) returns (kicked: Option<Session>)
      requires Valid()
      modifies this
      ensures Valid()
      ensures queue == old(queue) && muted == old(muted)
      ensures kicked.None? <==> !HasName(old(clients), name)
      ensures NameIndex(old(clients), name).Some? ==>
        var i := NameIndex(old(clients), name).value;
        kicked == Some(old(clients)[i]) && clients == old(clients)[..i] + old(clients)[i + 1..]
      ensures kicked.None? ==> clients == old(clients)
    {
      var found := FindMember(name);
      if found.None? {
        return None;
      }
      var i := found.value;
      var s := clients[i];
      assert NameIndex(clients, name) == found by {
        var k := NameIndex(clients, name).value;
        assert !(k < i) && !(i < k);
      }
      assert s !in clients[..i];
      RemoveFirstAt(clients, i);
      RemoveFirstGone(clients, s);
      clients := RemoveFirst(clients, s);
      return Some(s);
    }

    /** Teardown when the handler leaves its message loop: `remove` on the
        members raises when the session is not one (`ok` false, nothing
        changes); otherwise it is taken off the members and, if there, off
        the queue. A second teardown of the same session fails. */
    method Leave(s: Session) returns (ok: bool)
      requires Valid()
      modifies this
      ensures Valid()
      ensures muted == old(muted)
      ensures ok <==> s in old(clients)
      ensures ok ==> clients == RemoveFirst(old(clients), s) && queue == RemoveFirst(old(queue), s)
      ensures ok ==> s !in clients && s !in queue
      ensures !ok ==> clients == old(clients) && queue == old(queue)
    {
      if s !in clients {
        return false;
      }
      RemoveFirstGone(clients, s);
      RemoveFirstGone(queue, s);
      clients := RemoveFirst(clients, s);
      // `if ... in queue: queue.remove(...)`; a member is never also
      // waiting, so this leaves the queue as it was
      queue := RemoveFirst(queue, s);
      return true;
    }

    /** The leaving half of `/switch`: the session is taken off the
        members and off the queue, whichever hold it. */
    method Withdraw(s: Session) returns (wasMember: bool)
      requires Valid()
      modifies this
      ensures Valid()
      ensures muted == old(muted)
      ensures wasMember <==> s in old(clients)
      ensures clients == RemoveFirst(old(clients), s) && queue == RemoveFirst(old(queue), s)
      ensures s !in clients && s !in queue
    {
      RemoveFirstGone(clients, s);
      RemoveFirstGone(queue, s);
      wasMember := s in clients;
      if wasMember {
        clients := RemoveFirst(clients, s);
      }
      if s in queue {
        queue := RemoveFirst(queue, s);
      }
    }

    /** The arriving half of `/switch`: the session waits at the end of
        the queue. */
    method Enqueue(s: Session)
      requires Valid() && s !in clients && s !in queue
      modifies this
      ensures Valid()
      ensures clients == old(clients) && muted == old(muted)
      ensures queue == old(queue) + [s]
    {
      queue := queue + [s];
    }

    /** The mute test applied to each incoming message before it is acted
        on. Without a mute table the lookup raises `KeyError`. */
    method CheckMute(name: string, nowMs: int) returns (v: MuteVerdict)
      modifies this
      ensures clients == old(clients) && queue == old(queue)
      ensures old(muted).None? ==> v == NoTable && muted == old(muted)
      ensures old(muted).Some? && name !in old(muted).value ==> v == NotMuted && muted == old(muted)
      ensures old(muted).Some? && name in old(muted).value ==>
        var secs := TruncSeconds(old(muted).value[name] - nowMs);
        (secs > 0 ==> v == StillMuted(secs) && muted == old(muted))
        && (secs <= 0 ==> v == Lifted && muted == Some(old(muted).value - {name}))
    {
      if muted.None? {
        return NoTable;
      }
      var table := muted.value;
      if name !in table {
        return NotMuted;
      }
      var remaining := TruncSeconds(table[name] - nowMs);
      if remaining > 0 {
        return StillMuted(remaining);
      }
      muted := Some(table - {name});
      return Lifted;
    }

    /** `/empty`: the loop closes and removes members while iterating the
        same list forward, so each removal shifts the next member into the
        slot just visited and it is skipped. The members at even positions
        are closed and removed, those at odd positions stay, the queue is
        untouched, and the closed users' mute entries are dropped. Without a
        mute table the first turn removes the first member and then raises
        `KeyError` (`finished` false). */
    method EmptyMembers() returns (closed: seq<Session>, finished: bool)
      requires Valid()
      modifies this
      ensures Valid()
      ensures queue == old(queue)
      ensures finished <==> old(muted).Some? || old(clients) == []
      ensures finished ==> closed == Evens(old(clients)) && clients == Odds(old(clients))
      ensures old(muted).Some? ==> muted == Some(old(muted).value - NamesOf(closed))
      ensures old(muted).None? ==> muted == None
      ensures !finished ==> closed == [old(clients)[0]] && clients == old(clients)[1..]
    {
      ghost var all := clients;
      if muted.None? {
        if clients == [] {
          return [], true;
        }
        closed := [clients[0]];
        DropHeadAdmissible(capacity, clients, queue);
        clients := clients[1..];
        return closed, false;
      }
      var kept, table;
      kept, table, closed := EmptyPass(clients, muted.value);
      clients, muted := kept, Some(table);
      OddsAdmissible(capacity, all, queue);
      finished := true;
    }
  }
}
