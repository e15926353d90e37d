/** Dialing: which addresses a node connects to, and when. One loop walks the peer table and dials what
    is neither connected nor in backoff. */
module Dialing {
  import opened Types
  import opened Peers
  import opened Handshake
  import opened P2P

  const RECONNECT_BASE_MS: int := 1000
  const RECONNECT_MAX_MS: int := 30000

  /** `dialing` and `nextAttempt` are what the program keeps; `connecting` is the outbound sockets that
      were created and have neither opened nor closed yet. */
  datatype Dialer = Dialer(
    mesh: Mesh, dialing: set<string>, nextAttempt: map<string, int>, connecting: multiset<string>)

  function PowerOfTwo(k: nat): (p: nat)
    ensures p >= 1
  {
    if k == 0 then 1 else 2 * PowerOfTwo(k - 1)
  }

  /** The wait after the given number of failures in a row. */
  function Delay(failures: nat): (d: int)
    requires failures >= 1
    ensures RECONNECT_BASE_MS <= d <= RECONNECT_MAX_MS
  {
    var d := RECONNECT_BASE_MS * PowerOfTwo(failures - 1);
    if d < RECONNECT_MAX_MS then d else RECONNECT_MAX_MS
  }

  /** One second after the first failure, twice as long after each further one, and never more than thirty. */
  lemma DelayDoubles(failures: nat)
    requires failures >= 1
    ensures Delay(1) == 1000
    ensures Delay(failures + 1) == if 2 * Delay(failures) < 30000 then 2 * Delay(failures) else 30000
  {
  }

  // ------------------------------------------------------------------------
  // Steps
  // ------------------------------------------------------------------------

  predicate Connected(sockets: seq<Socket>, a: string) {
    exists s :: s in sockets && Live(s) && s.announced == Some(a)
  }

  predicate ShouldDial(d: Dialer, a: string, now: int) {
    && a in d.mesh.peers.entries
    && a !in d.dialing
    && (a in d.nextAttempt ==> d.nextAttempt[a] <= now)
    && !(d.mesh.peers.entries[a].lastSeen > 0 && Connected(d.mesh.sockets, a))
  }

  function DialFailed(d: Dialer, a: string, now: int): Dialer {
    var t := AfterFailure(d.mesh.peers, a);
    d.(mesh := d.mesh.(peers := t),
       nextAttempt := if Drops(d.mesh.peers, a) then d.nextAttempt - {a}
                      else d.nextAttempt[a := now + Delay(if a in t.entries then t.entries[a].failures else 1)])
  }

  /** One dial. When the socket constructor throws, the failure is counted at once. */
  function Dialed(d: Dialer, a: string, fails: bool, now: int): Dialer {
    if fails then DialFailed(d.(dialing := d.dialing + {a} - {a}), a, now)
    else d.(dialing := d.dialing + {a}, connecting := d.connecting + multiset{a})
  }

  /** The addresses among `visited` that the loop finds due. */
  function Due(d: Dialer, visited: set<string>, now: int): set<string> {
    set a | a in visited && ShouldDial(d, a, now)
  }

  function DialedEntries(t: Table, failed: set<string>): map<string, PeerEntry> {
    map a | a in t.entries && !(a in failed && Drops(t, a)) ::
      if a in failed then t.entries[a].(failures := t.entries[a].failures + 1) else t.entries[a]
  }

  /** The file is written when an entry is dropped. */
  function DialedTable(t: Table, failed: set<string>): Table {
    var u := t.(entries := DialedEntries(t, failed));
    if exists a :: a in failed && Drops(t, a) then Persisted(u) else u
  }

  function DialedAttempts(d: Dialer, failed: set<string>, now: int): map<string, int>
    requires failed <= d.mesh.peers.entries.Keys
  {
    map a | a in d.nextAttempt.Keys + failed && !(a in failed && Drops(d.mesh.peers, a)) ::
      if a in failed then now + Delay(d.mesh.peers.entries[a].failures + 1) else d.nextAttempt[a]
  }

  /** The state after the addresses in `due` have been dialed. An address in `broken` makes the socket
      constructor throw. */
  function DialedAll(d: Dialer, due: set<string>, broken: set<string>, now: int): Dialer
    requires due <= d.mesh.peers.entries.Keys
  {
    d.(mesh := d.mesh.(peers := DialedTable(d.mesh.peers, due * broken)),
       dialing := d.dialing + (due - broken),
       nextAttempt := DialedAttempts(d, due * broken, now),
       connecting := d.connecting + multiset(due - broken))
  }

  /** The loop: every address of the table that is due is dialed. */
  function Maintain(d: Dialer, broken: set<string>, now: int): Dialer {
    DialedAll(d, Due(d, d.mesh.peers.entries.Keys, now), broken, now)
  }

  function Opens(d: Dialer, id: nat, dialAddress: Option<string>): Dialer {
    d.(mesh := d.mesh.(sockets := d.mesh.sockets + [Opened(id, dialAddress)]),
       connecting := if dialAddress.Some? then d.connecting - multiset{dialAddress.value} else d.connecting)
  }

  /** An outbound socket is gone. A failure is counted unless it had been handshaken or was closed on
      purpose. */
  function OutboundClosed(d: Dialer, a: string, excused: bool, now: int): Dialer {
    var e := d.(dialing := d.dialing - {a});
    if excused then e else DialFailed(e, a, now)
  }

  function Closed(d: Dialer, i: nat, now: int): Dialer
    requires i < |d.mesh.sockets|
  {
    var s := d.mesh.sockets[i];
    var e := d.(mesh := SocketClosed(d.mesh, i));
    var f := if s.dialAddress.Some? then OutboundClosed(e, s.dialAddress.value, s.handshaken || s.expectedClose, now)
             else e;
    if Live(s) && s.announced.Some?
    then f.(nextAttempt := f.nextAttempt[s.announced.value := now + RECONNECT_BASE_MS]) else f
  }

  /** A HELLO on a dialed socket that survives it ends the backoff of its address. */
  predicate EndsBackoff(m: Mesh, own: Hello, i: nat, h: Hello, reachable: Option<string>)
    requires i < |m.sockets|
  {
    && JudgeHello(m, own, i, h, reachable) == Resolved
    && m.sockets[i].dialAddress.Some?
    && !Judge(m.nodeId, m.sockets, i, h.nodeId).Duplicate?
  }

  function Heard(d: Dialer, own: Hello, i: nat, h: Hello, reachable: Option<string>, now: int): Dialer
    requires i < |d.mesh.sockets|
  {
    d.(mesh := HandleHello(d.mesh, own, i, h, reachable, now),
       nextAttempt := if EndsBackoff(d.mesh, own, i, h, reachable)
                      then d.nextAttempt - {d.mesh.sockets[i].dialAddress.value} else d.nextAttempt)
  }

  /** An inbound HELLO that survives runs the loop, because the peer it announced is a candidate to dial
      back. */
  predicate StartsLoop(m: Mesh, own: Hello, i: nat, h: Hello, reachable: Option<string>)
    requires i < |m.sockets|
  {
    && JudgeHello(m, own, i, h, reachable) == Resolved
    && m.sockets[i].dialAddress.None?
    && !Judge(m.nodeId, m.sockets, i, h.nodeId).Duplicate?
  }

  function HeardAndMaintained(d: Dialer, own: Hello, i: nat, h: Hello, reachable: Option<string>,
                              broken: set<string>, now: int): Dialer
    requires i < |d.mesh.sockets|
  {
    var e := Heard(d, own, i, h, reachable, now);
    if StartsLoop(d.mesh, own, i, h, reachable) then Maintain(e, broken, now) else e
  }

  /** The end of the HELLO handler, for a peer that can be dialed at `address`. */
  function Admitted(d: Dialer, i: nat, remote: string, address: string, broken: set<string>, now: int): Dialer
    requires i < |d.mesh.sockets|
  {
    var s := d.mesh.sockets[i];
    var survives := !Judge(d.mesh.nodeId, d.mesh.sockets, i, remote).Duplicate?;
    var e := d.(mesh := Settle(d.mesh, i, remote, address, now),
                nextAttempt := if survives && s.dialAddress.Some? then d.nextAttempt - {address} else d.nextAttempt);
    if survives && s.dialAddress.None? then Maintain(e, broken, now) else e
  }

  function Learned(d: Dialer, candidates: seq<Option<string>>): Dialer {
    d.(mesh := d.mesh.(peers := Gossiped(d.mesh.peers, FirstOf(candidates))))
  }

  /** Gossip that brought a new address runs the loop too. */
  function LearnedAndMaintained(d: Dialer, candidates: seq<Option<string>>, broken: set<string>, now: int): Dialer {
    var e := Learned(d, candidates);
    if e.mesh.peers.entries.Keys != d.mesh.peers.entries.Keys then Maintain(e, broken, now) else e
  }

  /** The maintenance loop also runs after an inbound HELLO and after gossip that brought something new;
      both are a `Loops` event of their own. */
  datatype Event =
    | Loops(broken: set<string>)
    | Connects(id: nat, address: string)
    | ConnectFails(address: string)
    | Accepts(id: nat)
    | Closes(i: nat)
    | Hears(i: nat, h: Hello, reachable: Option<string>)
    | Learns(candidates: seq<Option<string>>)

  datatype Tick = Tick(event: Event, now: int)

  predicate Enabled(d: Dialer, e: Event) {
    match e
    case Connects(_, a) => a in d.connecting
    case ConnectFails(a) => a in d.connecting
    case Closes(i) => i < |d.mesh.sockets|
    case Hears(i, _, _) => i < |d.mesh.sockets|
    case _ => true
  }

  function Next(d: Dialer, own: Hello, t: Tick): Dialer
    requires Enabled(d, t.event)
  {
    match t.event
    case Loops(broken) => Maintain(d, broken, t.now)
    case Connects(id, a) => Opens(d, id, Some(a))
    case ConnectFails(a) => OutboundClosed(d.(connecting := d.connecting - multiset{a}), a, false, t.now)
    case Accepts(id) => Opens(d, id, None)
    case Closes(i) => Closed(d, i, t.now)
    case Hears(i, h, reachable) => Heard(d, own, i, h, reachable, t.now)
    case Learns(candidates) => Learned(d, candidates)
  }

  predicate IsRun(dialers: seq<Dialer>, own: Hello, ticks: seq<Tick>) {
    && |dialers| == |ticks| + 1
    && (forall i :: 0 <= i < |ticks| ==>
          Enabled(dialers[i], ticks[i].event) && dialers[i + 1] == Next(dialers[i], own, ticks[i]))
    && (forall i, j :: 0 <= i <= j < |ticks| ==> ticks[i].now <= ticks[j].now)
  }

  /** The two ways through the HELLO handler. */
  lemma HeardCases(d: Dialer, own: Hello, i: nat, h: Hello, reachable: Option<string>, broken: set<string>, now: int)
    requires i < |d.mesh.sockets|
    ensures var e := HeardAndMaintained(d, own, i, h, reachable, broken, now);
            if JudgeHello(d.mesh, own, i, h, reachable) == Resolved
            then e == Admitted(d, i, h.nodeId, AddressOf(d.mesh.sockets[i], reachable).value, broken, now)
            else e == d.(mesh := HandleHello(d.mesh, own, i, h, reachable, now))
  {
    hide Judge, Settle, Maintain, Matches;
  }

  // ------------------------------------------------------------------------
  // The loop
  // ------------------------------------------------------------------------

  lemma NothingDialed(d: Dialer, broken: set<string>, now: int)
    ensures DialedAll(d, {}, broken, now) == d
  {
    hide DialedTable, DialedAttempts;
    assert {} * broken == {} && {} - broken == {};
    NothingFailed(d, now);
  }

  lemma NothingFailed(d: Dialer, now: int)
    ensures DialedTable(d.mesh.peers, {}) == d.mesh.peers
    ensures DialedAttempts(d, {}, now) == d.nextAttempt
  {
    hide Delay, Drops;
    assert DialedEntries(d.mesh.peers, {}) == d.mesh.peers.entries;
  }

  /** What the loop decides at one address depends on nothing it did at the others, so the order in which it
      walks the table does not matter. */
  lemma OthersDoNotMatter(d: Dialer, due: set<string>, a: string, broken: set<string>, now: int)
    requires due <= d.mesh.peers.entries.Keys && a in d.mesh.peers.entries && a !in due
    ensures var m := DialedAll(d, due, broken, now);
            && a in m.mesh.peers.entries && m.mesh.peers.entries[a] == d.mesh.peers.entries[a]
            && (a in m.dialing <==> a in d.dialing)
            && (a in m.nextAttempt <==> a in d.nextAttempt)
            && (a in d.nextAttempt ==> m.nextAttempt[a] == d.nextAttempt[a])
  {
    hide Delay;
  }

  /** Dialing one more address. */
  lemma DialOneMore(d: Dialer, due: set<string>, a: string, broken: set<string>, now: int)
    requires due <= d.mesh.peers.entries.Keys && a in d.mesh.peers.entries && a !in due && a !in d.dialing
    ensures DialedAll(d, due + {a}, broken, now) == Dialed(DialedAll(d, due, broken, now), a, a in broken, now)
  {
    hide DialedTable, DialedAttempts, DialFailed;
    if a in broken {
      assert (due + {a}) * broken == due * broken + {a};
      assert (due + {a}) - broken == due - broken;
      FailOneMore(d, due * broken, a, now);
      var m := DialedAll(d, due, broken, now);
      assert m.dialing + {a} - {a} == m.dialing;
      FailureOf(d, m, due * broken, a, now);
    } else {
      assert (due + {a}) * broken == due * broken;
      assert (due + {a}) - broken == (due - broken) + {a};
      assert d.dialing + ((due - broken) + {a}) == (d.dialing + (due - broken)) + {a};
      assert multiset((due - broken) + {a}) == multiset(due - broken) + multiset{a};
    }
  }

  lemma FailureOf(d: Dialer, m: Dialer, failed: set<string>, a: string, now: int)
    requires failed <= d.mesh.peers.entries.Keys && a in d.mesh.peers.entries && a !in failed
    requires m.mesh.peers == DialedTable(d.mesh.peers, failed)
    requires m.nextAttempt == DialedAttempts(d, failed, now)
    ensures DialFailed(m, a, now)
         == m.(mesh := m.mesh.(peers := AfterFailure(m.mesh.peers, a)),
               nextAttempt := if Drops(d.mesh.peers, a) then m.nextAttempt - {a}
                              else m.nextAttempt[a := now + Delay(d.mesh.peers.entries[a].failures + 1)])
  {
    hide Delay, DialedAttempts;
  }

  lemma FailOneMore(d: Dialer, failed: set<string>, a: string, now: int)
    requires failed <= d.mesh.peers.entries.Keys && a in d.mesh.peers.entries && a !in failed
    ensures DialedTable(d.mesh.peers, failed + {a}) == AfterFailure(DialedTable(d.mesh.peers, failed), a)
    ensures var n := DialedAttempts(d, failed, now);
            DialedAttempts(d, failed + {a}, now)
            == if Drops(d.mesh.peers, a) then n - {a}
               else n[a := now + Delay(d.mesh.peers.entries[a].failures + 1)]
  {
    hide DialedTable, DialedAttempts, AfterFailure, Drops, Delay;
    FailOneMoreEntry(d.mesh.peers, failed, a);
    FailOneMoreAttempt(d, failed, a, now);
  }

  lemma FailOneMoreEntry(t: Table, failed: set<string>, a: string)
    requires a in t.entries && a !in failed
    ensures DialedTable(t, failed + {a}) == AfterFailure(DialedTable(t, failed), a)
  {
    hide RecordsOf;
    var u, v := DialedTable(t, failed), DialedTable(t, failed + {a});
    assert v.entries == AfterFailure(u, a).entries;
    if Drops(t, a) {
      assert a in failed + {a} && Drops(t, a);
    } else {
      assert (exists b :: b in failed && Drops(t, b)) <==> exists b :: b in failed + {a} && Drops(t, b);
      SameRecords(u.entries, v.entries);
    }
  }

  /** The file does not record failures. */
  lemma SameRecords(m: map<string, PeerEntry>, n: map<string, PeerEntry>)
    requires m.Keys == n.Keys && forall a :: a in m ==> m[a].lastSeen == n[a].lastSeen
    ensures RecordsOf(m) == RecordsOf(n)
  {
    assert forall a :: a in m <==> a in n;
  }

  lemma FailOneMoreAttempt(d: Dialer, failed: set<string>, a: string, now: int)
    requires failed <= d.mesh.peers.entries.Keys && a in d.mesh.peers.entries && a !in failed
    ensures var n := DialedAttempts(d, failed, now);
            DialedAttempts(d, failed + {a}, now)
            == if Drops(d.mesh.peers, a) then n - {a}
               else n[a := now + Delay(d.mesh.peers.entries[a].failures + 1)]
  {
    hide Delay, Drops;
  }

  /** Visiting one more address is dialing it if it was due at the start. */
  lemma VisitOne(d: Dialer, visited: set<string>, a: string, broken: set<string>, now: int)
    requires visited <= d.mesh.peers.entries.Keys && a !in visited && a in d.mesh.peers.entries
    ensures var m := DialedAll(d, Due(d, visited, now), broken, now);
            DialedAll(d, Due(d, visited + {a}, now), broken, now)
            == if ShouldDial(d, a, now) then Dialed(m, a, a in broken, now) else m
    ensures var m := DialedAll(d, Due(d, visited, now), broken, now);
            ShouldDial(d, a, now) <==>
              && a !in m.dialing
              && (a in m.nextAttempt ==> m.nextAttempt[a] <= now)
              && !(d.mesh.peers.entries[a].lastSeen > 0 && Connected(d.mesh.sockets, a))
  {
    hide DialedAll, Connected, Dialed;
    OthersDoNotMatter(d, Due(d, visited, now), a, broken, now);
    if ShouldDial(d, a, now) {
      assert Due(d, visited + {a}, now) == Due(d, visited, now) + {a};
      DialOneMore(d, Due(d, visited, now), a, broken, now);
    } else {
      assert Due(d, visited + {a}, now) == Due(d, visited, now);
    }
  }

  // ------------------------------------------------------------------------
  // One outbound socket per address
  // ------------------------------------------------------------------------

  /** How many open sockets were dialed to `a`. */
  function OpenTo(sockets: seq<Socket>, a: string): nat {
    if |sockets| == 0 then 0
    else OpenTo(sockets[..|sockets| - 1], a) + (if sockets[|sockets| - 1].dialAddress == Some(a) then 1 else 0)
  }

  lemma OpenToSnoc(sockets: seq<Socket>, s: Socket, a: string)
    ensures OpenTo(sockets + [s], a) == OpenTo(sockets, a) + (if s.dialAddress == Some(a) then 1 else 0)
  {
    assert (sockets + [s])[..|sockets|] == sockets;
  }

  lemma {:induction false} OpenToWithout(sockets: seq<Socket>, i: nat, a: string)
    requires i < |sockets|
    ensures OpenTo(sockets[..i] + sockets[i + 1..], a)
         == OpenTo(sockets, a) - (if sockets[i].dialAddress == Some(a) then 1 else 0)
  {
    var n := |sockets| - 1;
    if i < n {
      var init := sockets[..n];
      OpenToWithout(init, i, a);
      assert sockets[..i] + sockets[i + 1..] == (init[..i] + init[i + 1..]) + [sockets[n]];
      OpenToSnoc(init[..i] + init[i + 1..], sockets[n], a);
    } else {
      assert sockets[..i] + sockets[i + 1..] == sockets[..n];
    }
  }

  lemma {:induction false} OpenToDependsOnDials(s: seq<Socket>, t: seq<Socket>, a: string)
    requires |s| == |t| && forall i :: 0 <= i < |s| ==> s[i].dialAddress == t[i].dialAddress
    ensures OpenTo(s, a) == OpenTo(t, a)
  {
    if |s| > 0 {
      OpenToDependsOnDials(s[..|s| - 1], t[..|t| - 1], a);
    }
  }

  lemma ResolveKeepsDials(me: string, sockets: seq<Socket>, i: nat, remote: string, announced: string)
    requires i < |sockets|
    ensures var after := Resolve(me, sockets, i, remote, announced);
            |after| == |sockets| && forall j :: 0 <= j < |after| ==> after[j].dialAddress == sockets[j].dialAddress
  {
  }

  /** `dialing` is exactly the addresses with an outbound socket, and none of them has two. */
  ghost predicate OneDialPerAddress(d: Dialer) {
    forall a :: d.connecting[a] + OpenTo(d.mesh.sockets, a) == if a in d.dialing then 1 else 0
  }

  lemma HeardKeepsOneDial(d: Dialer, own: Hello, i: nat, h: Hello, reachable: Option<string>, now: int)
    requires OneDialPerAddress(d) && i < |d.mesh.sockets|
    ensures OneDialPerAddress(Heard(d, own, i, h, reachable, now))
  {
    var after := Heard(d, own, i, h, reachable, now);
    if JudgeHello(d.mesh, own, i, h, reachable) == Resolved {
      ResolveKeepsDials(d.mesh.nodeId, d.mesh.sockets, i, h.nodeId, AddressOf(d.mesh.sockets[i], reachable).value);
    }
    forall a ensures OpenTo(after.mesh.sockets, a) == OpenTo(d.mesh.sockets, a) {
      OpenToDependsOnDials(after.mesh.sockets, d.mesh.sockets, a);
    }
  }

  lemma MaintainKeepsOneDial(d: Dialer, broken: set<string>, now: int)
    requires OneDialPerAddress(d)
    ensures OneDialPerAddress(Maintain(d, broken, now))
  {
    hide DialedTable, DialedAttempts, Connected, OpenTo;
    var dialed := Due(d, d.mesh.peers.entries.Keys, now) - broken;
    assert forall a :: a in dialed ==> a !in d.dialing;
    assert forall a :: multiset(dialed)[a] == if a in dialed then 1 else 0;
  }

  lemma OpeningKeepsOneDial(d: Dialer, id: nat, dial: Option<string>)
    requires OneDialPerAddress(d) && (dial.Some? ==> dial.value in d.connecting)
    ensures OneDialPerAddress(Opens(d, id, dial))
  {
    forall a {
      OpenToSnoc(d.mesh.sockets, Opened(id, dial), a);
    }
  }

  lemma LearningKeepsOneDial(d: Dialer, candidates: seq<Option<string>>)
    requires OneDialPerAddress(d)
    ensures OneDialPerAddress(Learned(d, candidates))
  {
  }

  /** Closing touches `dialing` and the sockets alone. */
  lemma ClosedFrame(d: Dialer, i: nat, now: int)
    requires i < |d.mesh.sockets|
    ensures var after, s := Closed(d, i, now), d.mesh.sockets[i];
            && after.mesh.sockets == d.mesh.sockets[..i] + d.mesh.sockets[i + 1..]
            && after.connecting == d.connecting
            && after.dialing == if s.dialAddress.Some? then d.dialing - {s.dialAddress.value} else d.dialing
  {
    hide AfterFailure, Drops, Delay;
  }

  lemma ClosingKeepsOneDial(d: Dialer, i: nat, now: int)
    requires OneDialPerAddress(d) && i < |d.mesh.sockets|
    ensures OneDialPerAddress(Closed(d, i, now))
  {
    hide Closed, OpenTo;
    ClosedFrame(d, i, now);
    forall a {
      OpenToWithout(d.mesh.sockets, i, a);
    }
  }

  lemma ConnectFailureKeepsOneDial(d: Dialer, a: string, now: int)
    requires OneDialPerAddress(d) && a in d.connecting
    ensures OneDialPerAddress(OutboundClosed(d.(connecting := d.connecting - multiset{a}), a, false, now))
  {
    hide AfterFailure, Drops, Delay;
    assert d.connecting[a] == 1;
  }

  lemma NextKeepsOneDial(d: Dialer, own: Hello, t: Tick)
    requires OneDialPerAddress(d) && Enabled(d, t.event)
    ensures OneDialPerAddress(Next(d, own, t))
  {
    hide OneDialPerAddress, Maintain, Closed, Heard, OutboundClosed, Opens, Learned;
    match t.event {
      case Loops(broken) => MaintainKeepsOneDial(d, broken, t.now);
      case Connects(id, a) => OpeningKeepsOneDial(d, id, Some(a));
      case ConnectFails(a) => ConnectFailureKeepsOneDial(d, a, t.now);
      case Accepts(id) => OpeningKeepsOneDial(d, id, None);
      case Closes(i) => ClosingKeepsOneDial(d, i, t.now);
      case Hears(i, h, reachable) => HeardKeepsOneDial(d, own, i, h, reachable, t.now);
      case Learns(candidates) => LearningKeepsOneDial(d, candidates);
    }
  }

  /** Over every run: no address ever has two outbound sockets, connecting or open, and an address is
      marked as being dialed exactly while it has one. */
  lemma {:induction false} NeverDialedTwice(dialers: seq<Dialer>, own: Hello, ticks: seq<Tick>, i: nat)
    requires IsRun(dialers, own, ticks) && i <= |ticks|
    requires OneDialPerAddress(dialers[0])
    ensures OneDialPerAddress(dialers[i])
  {
    hide OneDialPerAddress, Next, Enabled;
    if i > 0 {
      NeverDialedTwice(dialers, own, ticks, i - 1);
      NextKeepsOneDial(dialers[i - 1], own, ticks[i - 1]);
    }
  }

  // ------------------------------------------------------------------------
  // Dialing and peer safety
  // ------------------------------------------------------------------------

  /** The loop only removes entries or counts their failures. */
  lemma DialedTableKeeps(t: Table, failed: set<string>)
    requires TableInv(t)
    ensures var u := DialedTable(t, failed);
            && TableInv(u) && Credited(u) <= Credited(t)
            && u.(entries := map[], saved := {}) == t.(entries := map[], saved := {})
  {
    var u := t.(entries := DialedEntries(t, failed));
    assert u.entries.Keys <= t.entries.Keys;
    KeysSize(t.entries);
    KeysSize(u.entries);
    SubsetIsSmaller(u.entries.Keys, t.entries.Keys);
    PersistingCreditsNothing(u);
  }

  lemma MaintainKeepsMesh(d: Dialer, broken: set<string>, now: int)
    requires MeshInv(d.mesh)
    ensures MeshInv(Maintain(d, broken, now).mesh) && Extends(d.mesh, Maintain(d, broken, now).mesh)
  {
    hide OneLivePerNode, TableInv, Credited, DialedTable, DialedAttempts, ShouldDial;
    DialedTableKeeps(d.mesh.peers, Due(d, d.mesh.peers.entries.Keys, now) * broken);
  }

  lemma MaintainTouchesPeers(d: Dialer, broken: set<string>, now: int)
    ensures Maintain(d, broken, now).mesh == d.mesh.(peers := Maintain(d, broken, now).mesh.peers)
  {
    hide ShouldDial, Drops, Delay;
  }

  /** What a HELLO does to the sockets is the handler's doing alone. */
  lemma HeardSockets(d: Dialer, own: Hello, i: nat, h: Hello, reachable: Option<string>, broken: set<string>, now: int)
    requires i < |d.mesh.sockets|
    ensures HeardAndMaintained(d, own, i, h, reachable, broken, now).mesh.sockets
         == HandleHello(d.mesh, own, i, h, reachable, now).sockets
  {
    hide Maintain, HandleHello, StartsLoop;
    MaintainTouchesPeers(Heard(d, own, i, h, reachable, now), broken, now);
  }

  lemma FailureKeepsMesh(d: Dialer, a: string, now: int)
    requires MeshInv(d.mesh)
    ensures MeshInv(DialFailed(d, a, now).mesh) && Extends(d.mesh, DialFailed(d, a, now).mesh)
  {
    hide TableInv, Credited, OneLivePerNode;
    FailureKeeps(d.mesh.peers, a);
  }

  lemma NextKeepsMesh(d: Dialer, own: Hello, t: Tick)
    requires MeshInv(d.mesh) && Enabled(d, t.event)
    ensures MeshInv(Next(d, own, t).mesh) && Extends(d.mesh, Next(d, own, t).mesh)
  {
    hide MeshInv, Extends, Maintain, HandleHello, DialFailed, Gossiped;
    match t.event {
      case Loops(broken) => MaintainKeepsMesh(d, broken, t.now);
      case Connects(id, a) => P2P.NextKeeps(d.mesh, own, SocketOpens(id, Some(a)));
      case ConnectFails(a) =>
        FailureKeepsMesh(d.(connecting := d.connecting - multiset{a}, dialing := d.dialing - {a}), a, t.now);
      case Accepts(id) => P2P.NextKeeps(d.mesh, own, SocketOpens(id, None));
      case Closes(i) => ClosedKeepsMesh(d, own, i, t.now);
      case Hears(i, h, reachable) => P2P.HelloKeeps(d.mesh, own, i, h, reachable, t.now);
      case Learns(candidates) => P2P.NextKeeps(d.mesh, own, PeersArrive(candidates));
    }
  }

  lemma ClosedKeepsMesh(d: Dialer, own: Hello, i: nat, now: int)
    requires MeshInv(d.mesh) && i < |d.mesh.sockets|
    ensures MeshInv(Closed(d, i, now).mesh) && Extends(d.mesh, Closed(d, i, now).mesh)
  {
    hide MeshInv, DialFailed;
    P2P.NextKeeps(d.mesh, own, SocketCloses(i));
    var s := d.mesh.sockets[i];
    if s.dialAddress.Some? {
      FailureKeepsMesh(d.(mesh := SocketClosed(d.mesh, i), dialing := d.dialing - {s.dialAddress.value}),
                       s.dialAddress.value, now);
    }
  }

  /** An address once blocked, the node's own among them, is never dialed again. */
  lemma {:induction false} BlockedIsNeverDialed(
      dialers: seq<Dialer>, own: Hello, ticks: seq<Tick>, i: nat, j: nat, a: string)
    requires IsRun(dialers, own, ticks) && i <= j < |ticks| && MeshInv(dialers[i].mesh)
    requires a in dialers[i].mesh.peers.blocked
    ensures MeshInv(dialers[j].mesh) && a in dialers[j].mesh.peers.blocked
    ensures dialers[j + 1].connecting[a] <= dialers[j].connecting[a]
    decreases j
  {
    hide MeshInv, Extends, Next;
    if i < j {
      BlockedIsNeverDialed(dialers, own, ticks, i, j - 1, a);
      NextKeepsMesh(dialers[j - 1], own, ticks[j - 1]);
      BlockedStays(dialers[j - 1].mesh, dialers[j].mesh, a);
    }
    BlockedIsNoEntry(dialers[j].mesh, a);
    OnlyEntriesAreDialed(dialers[j], own, ticks[j], a);
  }

  lemma BlockedStays(m: Mesh, n: Mesh, a: string)
    requires Extends(m, n) && a in m.peers.blocked
    ensures a in n.peers.blocked
  {
  }

  lemma BlockedIsNoEntry(m: Mesh, a: string)
    requires MeshInv(m) && a in m.peers.blocked
    ensures a !in m.peers.entries
  {
    hide Credited, OneLivePerNode;
  }

  lemma OnlyEntriesAreDialed(d: Dialer, own: Hello, t: Tick, a: string)
    requires Enabled(d, t.event) && a !in d.mesh.peers.entries
    ensures Next(d, own, t).connecting[a] <= d.connecting[a]
  {
    hide DialFailed, HandleHello, Gossiped, DialedTable, DialedAttempts;
    match t.event
    case Loops(broken) => assert a !in Due(d, d.mesh.peers.entries.Keys, t.now);
    case Closes(i) => ClosedFrame(d, i, t.now);
    case ConnectFails(b) =>
      FailureTouchesPeers(d.(connecting := d.connecting - multiset{b}, dialing := d.dialing - {b}), b, t.now);
    case _ =>
  }

  /** Everything a step of the mesh and of the dialing keeps. */
  ghost predicate Sound(d: Dialer) {
    MeshInv(d.mesh) && OneDialPerAddress(d)
  }

  lemma FreshIsSound(nodeId: string, bootnodes: seq<Option<string>>, file: seq<Record>, self: Option<string>,
                     maxFailures: int, maxSize: int)
    requires maxFailures >= 1
    ensures Sound(Dialer(P2P.Start(nodeId, bootnodes, file, self, maxFailures, maxSize), {}, map[], multiset{}))
  {
    hide MeshInv;
    StartIsSafe(nodeId, bootnodes, file, self, maxFailures, maxSize);
  }

  lemma {:induction false} RunIsSound(dialers: seq<Dialer>, own: Hello, ticks: seq<Tick>, i: nat)
    requires IsRun(dialers, own, ticks) && i <= |ticks| && Sound(dialers[0])
    ensures Sound(dialers[i])
  {
    hide MeshInv, OneDialPerAddress, Next, Enabled;
    if i > 0 {
      RunIsSound(dialers, own, ticks, i - 1);
      NextKeepsMesh(dialers[i - 1], own, ticks[i - 1]);
      NextKeepsOneDial(dialers[i - 1], own, ticks[i - 1]);
    }
  }

  lemma HelloKeepsSound(d: Dialer, own: Hello, i: nat, h: Hello, reachable: Option<string>,
                        broken: set<string>, now: int)
    requires Sound(d) && i < |d.mesh.sockets|
    ensures Sound(HeardAndMaintained(d, own, i, h, reachable, broken, now))
    ensures Extends(d.mesh, HeardAndMaintained(d, own, i, h, reachable, broken, now).mesh)
  {
    hide MeshInv, OneDialPerAddress, Maintain, HandleHello, StartsLoop, EndsBackoff;
    var e := Heard(d, own, i, h, reachable, now);
    P2P.HelloKeeps(d.mesh, own, i, h, reachable, now);
    HeardKeepsOneDial(d, own, i, h, reachable, now);
    MaintainKeepsMesh(e, broken, now);
    MaintainKeepsOneDial(e, broken, now);
  }

  lemma AnswerKeepsSound(d: Dialer, own: Hello, i: nat, addresses: seq<string>)
    requires Sound(d) && i < |d.mesh.sockets| && IsPeersAnswer(d.mesh, i, addresses)
    ensures var m := P2P.Next(d.mesh, own, AnswerPeers(i, addresses));
            Sound(d.(mesh := m)) && Extends(d.mesh, m)
  {
    hide MeshInv, IsPeersAnswer;
    P2P.NextKeeps(d.mesh, own, AnswerPeers(i, addresses));
  }

  lemma GossipKeepsSound(d: Dialer, own: Hello, candidates: seq<Option<string>>, broken: set<string>, now: int)
    requires Sound(d)
    ensures Sound(LearnedAndMaintained(d, candidates, broken, now))
    ensures Extends(d.mesh, LearnedAndMaintained(d, candidates, broken, now).mesh)
  {
    hide MeshInv, OneDialPerAddress, Maintain, Gossiped;
    var e := Learned(d, candidates);
    P2P.NextKeeps(d.mesh, own, PeersArrive(candidates));
    LearningKeepsOneDial(d, candidates);
    MaintainKeepsMesh(e, broken, now);
    MaintainKeepsOneDial(e, broken, now);
  }

  /** A node that turns out to be this one, or to belong to another network, is never dialed again under the
      address on which it answered. */
  lemma {:induction false} ForeignIsNeverDialedAgain(
      dialers: seq<Dialer>, own: Hello, ticks: seq<Tick>, i: nat, j: nat, a: string)
    requires IsRun(dialers, own, ticks) && i < j < |ticks| && MeshInv(dialers[i].mesh)
    requires var m, e := dialers[i].mesh, ticks[i].event;
             && e.Hears? && m.sockets[e.i].dialAddress == Some(a) && !m.sockets[e.i].handshaken
             && e.h.wellFormed && |e.h.nodeId| > 0
             && (e.h.nodeId == m.nodeId || e.h.genesisHash != own.genesisHash
                 || e.h.slotDurationMs != own.slotDurationMs || e.h.slotWaitMs != own.slotWaitMs)
    ensures a !in dialers[j].mesh.peers.entries
    ensures dialers[j + 1].connecting[a] <= dialers[j].connecting[a]
  {
    hide MeshInv, Next;
    NextKeepsMesh(dialers[i], own, ticks[i]);
    ForeignIsBlocked(dialers[i], own, ticks[i], a);
    BlockedIsNeverDialed(dialers, own, ticks, i + 1, j, a);
    BlockedIsNoEntry(dialers[j].mesh, a);
  }

  lemma ForeignIsBlocked(d: Dialer, own: Hello, t: Tick, a: string)
    requires Enabled(d, t.event) && t.event.Hears?
    requires var s, h := d.mesh.sockets[t.event.i], t.event.h;
             && s.dialAddress == Some(a) && !s.handshaken && h.wellFormed && |h.nodeId| > 0
             && (h.nodeId == d.mesh.nodeId || h.genesisHash != own.genesisHash
                 || h.slotDurationMs != own.slotDurationMs || h.slotWaitMs != own.slotWaitMs)
    ensures a in Next(d, own, t).mesh.peers.blocked
  {
  }

  // ------------------------------------------------------------------------
  // The peers file
  // ------------------------------------------------------------------------

  lemma {:induction false} GossipKeepsFileCurrent(t: Table, addresses: seq<Option<string>>)
    requires FileIsCurrent(t)
    ensures FileIsCurrent(Gossiped(t, addresses))
  {
    hide FileIsCurrent;
    if |addresses| > 0 {
      GossipKeepsFileCurrent(t, addresses[..|addresses| - 1]);
      StepsKeepFileCurrent(Gossiped(t, addresses[..|addresses| - 1]), addresses[|addresses| - 1], "", 0);
    }
  }

  lemma DialingKeepsFileCurrent(t: Table, failed: set<string>)
    requires FileIsCurrent(t)
    ensures FileIsCurrent(DialedTable(t, failed))
  {
    RecordsAreCurrent(t.(entries := DialedEntries(t, failed)));
  }

  lemma HelloKeepsFileCurrent(m: Mesh, own: Hello, i: nat, h: Hello, reachable: Option<string>, now: int)
    requires i < |m.sockets| && FileIsCurrent(m.peers)
    ensures FileIsCurrent(HandleHello(m, own, i, h, reachable, now).peers)
  {
    hide FileIsCurrent, AfterBlock, AfterSuccess, WithCandidate, Judge, Resolve, Matches;
    var s := m.sockets[i];
    StepsKeepFileCurrent(m.peers, s.dialAddress, "", 0);
    if AddressOf(s, reachable).Some? {
      StepsKeepFileCurrent(m.peers, AddressOf(s, reachable), AddressOf(s, reachable).value, now);
    }
  }

  lemma NextKeepsFileCurrent(d: Dialer, own: Hello, t: Tick)
    requires Enabled(d, t.event) && FileIsCurrent(d.mesh.peers)
    ensures FileIsCurrent(Next(d, own, t).mesh.peers)
  {
    hide FileIsCurrent, DialedTable, DialedAttempts, HandleHello, AfterFailure, Gossiped, ShouldDial, Drops, Delay;
    match t.event
    case Loops(broken) =>
      DialingKeepsFileCurrent(d.mesh.peers, Due(d, d.mesh.peers.entries.Keys, t.now) * broken);
    case Connects(_, _) =>
    case ConnectFails(a) => StepsKeepFileCurrent(d.mesh.peers, None, a, t.now);
    case Accepts(_) =>
    case Closes(i) =>
      if d.mesh.sockets[i].dialAddress.Some? {
        StepsKeepFileCurrent(d.mesh.peers, None, d.mesh.sockets[i].dialAddress.value, t.now);
      }
    case Hears(i, h, reachable) => HelloKeepsFileCurrent(d.mesh, own, i, h, reachable, t.now);
    case Learns(candidates) => GossipKeepsFileCurrent(d.mesh.peers, FirstOf(candidates));
  }

  /** Once the peers file lists exactly the table, it does so at every later moment of every run; so the next
      process can restore the table from it. */
  lemma {:induction false} FileMirrorsTable(dialers: seq<Dialer>, own: Hello, ticks: seq<Tick>, i: nat, j: nat)
    requires IsRun(dialers, own, ticks) && i <= j <= |ticks| && FileIsCurrent(dialers[i].mesh.peers)
    ensures FileIsCurrent(dialers[j].mesh.peers)
    decreases j
  {
    hide FileIsCurrent, Next, Enabled;
    if i < j {
      FileMirrorsTable(dialers, own, ticks, i, j - 1);
      NextKeepsFileCurrent(dialers[j - 1], own, ticks[j - 1]);
    }
  }

  // ------------------------------------------------------------------------
  // Gossip
  // ------------------------------------------------------------------------

  /** With room in the table gossip adds exactly the new addresses of its list that are not blocked, as candidates
      without history. */
  lemma {:induction false} GossipAdds(t: Table, addresses: seq<Option<string>>)
    requires |t.entries| + |addresses| <= t.maxSize
    ensures var g := Gossiped(t, addresses);
            && |g.entries| <= |t.entries| + |addresses|
            && g.blocked == t.blocked && g.maxSize == t.maxSize
            && (forall a :: a in g.entries <==> a in t.entries || (a in Addresses(addresses) && a !in t.blocked))
            && forall a :: a in g.entries && a !in t.entries ==> g.entries[a] == PeerEntry(0, 0)
  {
    hide WithCandidate, Addresses;
    if |addresses| == 0 {
      AddressesOfNone();
    } else {
      var n := |addresses| - 1;
      GossipAdds(t, addresses[..n]);
      assert addresses == addresses[..n] + [addresses[n]];
      AddressesSnoc(addresses[..n], addresses[n]);
      CandidateAdds(Gossiped(t, addresses[..n]), addresses[n]);
    }
  }

  lemma CandidateAdds(t: Table, address: Option<string>)
    requires |t.entries| < t.maxSize
    ensures var g, isNew := WithCandidate(t, address), address.Some? && address.value !in t.blocked;
            && |g.entries| <= |t.entries| + 1
            && g.blocked == t.blocked && g.maxSize == t.maxSize
            && (forall a :: a in g.entries <==> a in t.entries || (isNew && a == address.value))
            && (forall a :: a in t.entries ==> g.entries[a] == t.entries[a])
            && forall a :: a in g.entries && a !in t.entries ==> g.entries[a] == PeerEntry(0, 0)
  {
    hide RecordsOf;
    if address.Some? {
      InsertionGrows(t.entries, address.value, PeerEntry(0, 0));
    }
  }

  /** What a peer tells is followed up: of the first fifty addresses of a message, each one that is new, not
      blocked and not failing at once is dialed on the spot. What comes after the first fifty is not even noted. */
  lemma GossipIsDialed(d: Dialer, candidates: seq<Option<string>>, broken: set<string>, now: int, a: string)
    requires |d.mesh.peers.entries| + 50 <= d.mesh.peers.maxSize
    requires a !in d.mesh.peers.entries && a !in d.mesh.peers.blocked && a !in d.dialing && a !in broken
    requires a in d.nextAttempt ==> d.nextAttempt[a] <= now
    ensures var e := LearnedAndMaintained(d, candidates, broken, now);
            if exists k :: 0 <= k < |candidates| && k < 50 && candidates[k] == Some(a) then
              a in e.mesh.peers.entries && a in e.dialing && e.connecting[a] == d.connecting[a] + 1
            else a !in e.mesh.peers.entries && a !in e.dialing
  {
    hide DialedTable, DialedAttempts, Gossiped, Connected, Addresses;
    var first, l := FirstOf(candidates), Learned(d, candidates);
    GossipAdds(d.mesh.peers, first);
    assert a in Addresses(first) <==> exists k :: 0 <= k < |candidates| && k < 50 && candidates[k] == Some(a) by {
      FirstAddresses(candidates, a);
    }
    if a in Addresses(first) {
      var due := Due(l, l.mesh.peers.entries.Keys, now);
      assert a in due;
      assert multiset(due - broken)[a] == 1;
      DialedTableAt(l.mesh.peers, due * broken, a);
    } else if l.mesh.peers.entries.Keys != d.mesh.peers.entries.Keys {
      DialedTableIsPart(l.mesh.peers, Due(l, l.mesh.peers.entries.Keys, now) * broken);
    }
  }

  lemma DialedTableIsPart(t: Table, failed: set<string>)
    ensures DialedTable(t, failed).entries.Keys <= t.entries.Keys
  {
  }

  lemma FirstAddresses(candidates: seq<Option<string>>, a: string)
    ensures a in Addresses(FirstOf(candidates))
       <==> exists k :: 0 <= k < |candidates| && k < 50 && candidates[k] == Some(a)
  {
    var first := FirstOf(candidates);
    if k :| 0 <= k < |candidates| && k < 50 && candidates[k] == Some(a) {
      assert first[k] == Some(a);
    }
    if a in Addresses(first) {
      var k :| 0 <= k < |first| && first[k] == Some(a);
      assert candidates[k] == Some(a);
    }
  }

  /** Being dropped is not being blocked: when the failure that drops an address is followed by gossip of it, the
      address is dialed again at once, with no wait left over and a clean record. */
  lemma DroppedMayComeBack(d: Dialer, broken: set<string>, now: int, later: int, a: string)
    requires a in d.mesh.peers.entries && a !in d.mesh.peers.bootnodes && a !in d.mesh.peers.blocked
    requires d.mesh.peers.entries[a].failures + 1 >= d.mesh.peers.maxFailures
    requires |d.mesh.peers.entries| + 50 <= d.mesh.peers.maxSize && a !in d.dialing && a !in broken
    ensures var e := LearnedAndMaintained(DialFailed(d, a, now), [Some(a)], broken, later);
            a in e.mesh.peers.entries && a in e.dialing && e.connecting[a] == d.connecting[a] + 1
  {
    hide LearnedAndMaintained, RecordsOf;
    var e := DialFailed(d, a, now);
    RemovalShrinks(d.mesh.peers.entries, a);
    assert [Some(a)][0] == Some(a);
    GossipIsDialed(e, [Some(a)], broken, later, a);
  }

  // ------------------------------------------------------------------------
  // Backoff
  // ------------------------------------------------------------------------

  /** An answer wipes the slate: the peer behind a dialed socket that says a compatible HELLO, and to which there
      is no other live connection, counts as seen now and as not failing, its backoff ends, and its socket is
      live. */
  lemma AnswerEndsBackoff(d: Dialer, own: Hello, i: nat, h: Hello, reachable: Option<string>, now: int, a: string)
    requires i < |d.mesh.sockets|
    requires var m, s := d.mesh, d.mesh.sockets[i];
             && s.dialAddress == Some(a) && !s.handshaken && !s.expectedClose
             && h.wellFormed && |h.nodeId| > 0 && h.nodeId != m.nodeId
             && h.genesisHash == own.genesisHash && h.slotDurationMs == own.slotDurationMs
             && h.slotWaitMs == own.slotWaitMs
             && a in m.peers.entries && a !in m.peers.blocked
             && forall j :: 0 <= j < |m.sockets| && Live(m.sockets[j]) ==> m.sockets[j].remoteNodeId != h.nodeId
    ensures var e := Heard(d, own, i, h, reachable, now);
            && e.mesh.peers.entries == d.mesh.peers.entries[a := PeerEntry(now, 0)]
            && a !in e.nextAttempt && a in e.mesh.proven
            && Live(e.mesh.sockets[i]) && e.mesh.sockets[i].announced == Some(a)
            && e.mesh.sockets[i].remoteNodeId == h.nodeId
  {
    hide ShouldReplace, RecordsOf;
    assert FirstLive(d.mesh.sockets, i, h.nodeId).None?;
  }

  /** An inbound peer is not taken at its word: when its HELLO completes a handshake and the address it announces is
      new, that address is dialed back at once, and counts as verified only when that dial is answered. */
  lemma InboundIsDialedBack(d: Dialer, own: Hello, i: nat, h: Hello, broken: set<string>, now: int, a: string)
    requires i < |d.mesh.sockets|
    requires var m, s := d.mesh, d.mesh.sockets[i];
             && s.dialAddress.None? && !s.handshaken
             && h.wellFormed && |h.nodeId| > 0 && h.nodeId != m.nodeId
             && h.genesisHash == own.genesisHash && h.slotDurationMs == own.slotDurationMs
             && h.slotWaitMs == own.slotWaitMs
             && a !in m.peers.entries && a !in m.peers.blocked && |m.peers.entries| < m.peers.maxSize
             && forall j :: 0 <= j < |m.sockets| && Live(m.sockets[j]) ==> m.sockets[j].remoteNodeId != h.nodeId
    requires a !in d.dialing && a !in broken && (a in d.nextAttempt ==> d.nextAttempt[a] <= now)
    ensures var e := HeardAndMaintained(d, own, i, h, Some(a), broken, now);
            && a in e.dialing && e.connecting[a] == d.connecting[a] + 1
            && a in e.mesh.peers.entries && e.mesh.peers.entries[a] == PeerEntry(0, 0)
  {
    hide DialedTable, DialedAttempts, Connected, ShouldReplace, RecordsOf, Drops, Delay;
    assert FirstLive(d.mesh.sockets, i, h.nodeId).None?;
    var l := Heard(d, own, i, h, Some(a), now);
    var due := Due(l, l.mesh.peers.entries.Keys, now);
    assert a in due;
    assert multiset(due - broken)[a] == 1;
    DialedTableAt(l.mesh.peers, due * broken, a);
  }

  /** A healthy connection that drops costs its peer nothing: no failure is counted, and it is due for dialing
      again from exactly one second later on, unless it is connected otherwise. */
  lemma DroppedIsRedialed(d: Dialer, i: nat, now: int, later: int, a: string)
    requires i < |d.mesh.sockets| && d.mesh.sockets[i].announced == Some(a)
    requires var s := d.mesh.sockets[i];
             && s.handshaken && !s.expectedClose && (s.dialAddress.Some? ==> s.dialAddress == Some(a))
             && (a in d.dialing ==> s.dialAddress == Some(a))
    requires a in d.mesh.peers.entries
    ensures Closed(d, i, now).mesh.peers == d.mesh.peers
    ensures ShouldDial(Closed(d, i, now), a, later) <==>
              && later >= now + 1000
              && !(d.mesh.peers.entries[a].lastSeen > 0
                   && exists j :: 0 <= j < |d.mesh.sockets| && j != i && Live(d.mesh.sockets[j])
                                  && d.mesh.sockets[j].announced == Some(a))
  {
    hide Connected, DialFailed;
    ConnectedWithout(d.mesh.sockets, i, a);
  }


  /** The total wait over the first `failures` failures. */
  function Wait(failures: nat): int {
    if failures == 0 then 0 else Wait(failures - 1) + Delay(failures)
  }

  /** Nothing is heard from `a` at this tick: no HELLO on a socket dialed to it or that announces it, and
      no live connection to it that drops. */
  predicate Silent(d: Dialer, t: Tick, a: string)
    requires Enabled(d, t.event)
  {
    match t.event
    case Hears(i, _, reachable) => d.mesh.sockets[i].dialAddress != Some(a) && reachable != Some(a)
    case Closes(i) => d.mesh.sockets[i].announced != Some(a)
    case _ => true
  }

  /** At this tick a dial of `a` fails. */
  predicate Fails(d: Dialer, t: Tick, a: string)
    requires Enabled(d, t.event)
  {
    match t.event
    case Loops(broken) => a in broken && ShouldDial(d, a, t.now)
    case ConnectFails(b) => a == b
    case Closes(i) => d.mesh.sockets[i].dialAddress == Some(a)
    case _ => false
  }

  /** The entry of `a` counts its failures, and the waits between them are being kept: a dial in flight
      started no earlier than they allow, and the next one will not start earlier either. */
  predicate BackoffOk(d: Dialer, a: string, start: int, last: int) {
    && a in d.mesh.peers.entries
    && var f := d.mesh.peers.entries[a].failures;
       && (a in d.dialing ==> last >= start + Wait(f))
       && (a !in d.dialing && f > 0 ==> a in d.nextAttempt && d.nextAttempt[a] >= start + Wait(f))
  }

  /** Open sockets dialed to `a` are still waiting for a HELLO. */
  predicate StillWaiting(d: Dialer, a: string) {
    forall s :: s in d.mesh.sockets && s.dialAddress == Some(a) ==> !s.handshaken && !s.expectedClose
  }

  lemma {:induction false} GossipKeepsEntry(t: Table, addresses: seq<Option<string>>, a: string)
    requires a in t.entries
    ensures a in Gossiped(t, addresses).entries && Gossiped(t, addresses).entries[a] == t.entries[a]
  {
    if |addresses| > 0 {
      GossipKeepsEntry(t, addresses[..|addresses| - 1], a);
    }
  }

  lemma FailureStep(d: Dialer, a: string, start: int, now: int)
    requires a in d.mesh.peers.entries && a !in d.dialing && now >= start + Wait(d.mesh.peers.entries[a].failures)
    ensures var e := DialFailed(d, a, now);
            if Drops(d.mesh.peers, a) then a !in e.mesh.peers.entries
            else BackoffOk(e, a, start, now)
                 && e.mesh.peers.entries[a].failures == d.mesh.peers.entries[a].failures + 1
  {
    hide Delay;
  }

  lemma OtherFailureStep(d: Dialer, a: string, b: string, start: int, now: int)
    requires BackoffOk(d, a, start, now) && a != b
    ensures BackoffOk(DialFailed(d, b, now), a, start, now)
    ensures DialFailed(d, b, now).mesh.peers.entries[a] == d.mesh.peers.entries[a]
  {
    hide Delay, Wait;
  }

  lemma DialedTableAt(t: Table, failed: set<string>, a: string)
    requires a in t.entries
    ensures var u := DialedTable(t, failed);
            if a !in failed then a in u.entries && u.entries[a] == t.entries[a]
            else if Drops(t, a) then a !in u.entries
            else a in u.entries && u.entries[a] == t.entries[a].(failures := t.entries[a].failures + 1)
  {
    hide RecordsOf, Drops;
  }

  lemma DialedAttemptsAt(d: Dialer, failed: set<string>, a: string, now: int)
    requires failed <= d.mesh.peers.entries.Keys && a in d.mesh.peers.entries
    ensures var n := DialedAttempts(d, failed, now);
            && (a !in failed ==> (a in n <==> a in d.nextAttempt))
            && (a !in failed && a in n ==> n[a] == d.nextAttempt[a])
            && (a in failed && !Drops(d.mesh.peers, a) ==>
                  a in n && n[a] == now + Delay(d.mesh.peers.entries[a].failures + 1))
  {
    hide Drops, Delay;
  }

  lemma MaintainStep(d: Dialer, broken: set<string>, a: string, start: int, now: int)
    requires BackoffOk(d, a, start, now) && now >= start
    ensures var e := Maintain(d, broken, now);
            if a in broken && ShouldDial(d, a, now) then
              if Drops(d.mesh.peers, a) then a !in e.mesh.peers.entries
              else BackoffOk(e, a, start, now)
                   && e.mesh.peers.entries[a].failures == d.mesh.peers.entries[a].failures + 1
            else BackoffOk(e, a, start, now) && e.mesh.peers.entries[a] == d.mesh.peers.entries[a]
    ensures a in broken && ShouldDial(d, a, now) ==> now >= start + Wait(d.mesh.peers.entries[a].failures)
  {
    hide Delay, Connected, DialedTable, DialedAttempts, Drops;
    var due := Due(d, d.mesh.peers.entries.Keys, now);
    assert a in due <==> ShouldDial(d, a, now);
    DialedTableAt(d.mesh.peers, due * broken, a);
    DialedAttemptsAt(d, due * broken, a, now);
  }

  lemma HeardStep(d: Dialer, own: Hello, i: nat, h: Hello, reachable: Option<string>, a: string, start: int, now: int)
    requires i < |d.mesh.sockets| && BackoffOk(d, a, start, now) && StillWaiting(d, a)
    requires d.mesh.sockets[i].dialAddress != Some(a) && reachable != Some(a)
    ensures var e := Heard(d, own, i, h, reachable, now);
            BackoffOk(e, a, start, now) && StillWaiting(e, a) && e.mesh.peers.entries[a] == d.mesh.peers.entries[a]
  {
    hide Wait, HandleHello, JudgeHello, Judge;
    HelloKeepsEntry(d.mesh, own, i, h, reachable, now, a);
    HelloKeepsWaiting(d, own, i, h, reachable, now, a);
  }

  lemma HelloKeepsEntry(m: Mesh, own: Hello, i: nat, h: Hello, reachable: Option<string>, now: int, a: string)
    requires i < |m.sockets| && a in m.peers.entries
    requires m.sockets[i].dialAddress != Some(a) && reachable != Some(a)
    ensures var n := HandleHello(m, own, i, h, reachable, now);
            a in n.peers.entries && n.peers.entries[a] == m.peers.entries[a]
  {
    hide Matches, Judge, Resolve, RecordsOf, FirstSuccess;
  }

  lemma HelloKeepsWaiting(
      d: Dialer, own: Hello, i: nat, h: Hello, reachable: Option<string>, now: int, a: string)
    requires i < |d.mesh.sockets| && StillWaiting(d, a) && d.mesh.sockets[i].dialAddress != Some(a)
    ensures StillWaiting(Heard(d, own, i, h, reachable, now), a)
  {
    hide Matches, ShouldReplace, FirstLive, AfterBlock, AfterSuccess, WithCandidate, FirstSuccess;
  }

  /** One tick: either a dial of `a` fails, which counts and may drop it, or its entry stays. */
  lemma QuietStep(d: Dialer, own: Hello, t: Tick, a: string, start: int)
    requires Enabled(d, t.event) && Silent(d, t, a) && OneDialPerAddress(d) && t.now >= start
    requires BackoffOk(d, a, start, t.now) && StillWaiting(d, a)
    ensures var e := Next(d, own, t);
            && StillWaiting(e, a)
            && (if Fails(d, t, a) && Drops(d.mesh.peers, a) then a !in e.mesh.peers.entries
                else BackoffOk(e, a, start, t.now)
                     && e.mesh.peers.entries[a].failures
                     == d.mesh.peers.entries[a].failures + (if Fails(d, t, a) then 1 else 0))
    ensures Fails(d, t, a) ==> t.now >= start + Wait(d.mesh.peers.entries[a].failures)
  {
    hide Maintain, Heard, OutboundClosed, Closed, Wait, Drops, ShouldDial, Gossiped, OneDialPerAddress;
    match t.event {
      case Loops(broken) =>
        MaintainStep(d, broken, a, start, t.now);
        MaintainTouchesPeers(d, broken, t.now);
      case Connects(_, _) =>
      case ConnectFails(b) => ConnectFailsStep(d, b, a, start, t.now);
      case Accepts(_) =>
      case Closes(i) => ClosingStep(d, i, a, start, t.now);
      case Hears(i, h, reachable) => HeardStep(d, own, i, h, reachable, a, start, t.now);
      case Learns(candidates) => GossipKeepsEntry(d.mesh.peers, FirstOf(candidates), a);
    }
  }

  lemma ConnectFailsStep(d: Dialer, b: string, a: string, start: int, now: int)
    requires b in d.connecting && OneDialPerAddress(d)
    requires BackoffOk(d, a, start, now) && StillWaiting(d, a)
    ensures var e := OutboundClosed(d.(connecting := d.connecting - multiset{b}), b, false, now);
            && StillWaiting(e, a)
            && (if a == b && Drops(d.mesh.peers, a) then a !in e.mesh.peers.entries
                else BackoffOk(e, a, start, now)
                     && e.mesh.peers.entries[a].failures
                     == d.mesh.peers.entries[a].failures + (if a == b then 1 else 0))
    ensures a == b ==> now >= start + Wait(d.mesh.peers.entries[a].failures)
  {
    hide DialFailed, Wait, Drops;
    var e := d.(connecting := d.connecting - multiset{b}, dialing := d.dialing - {b});
    assert d.connecting[b] == 1;
    FailureTouchesPeers(e, b, now);
    if a == b {
      FailureStep(e, a, start, now);
    } else {
      OtherFailureStep(e, a, b, start, now);
    }
  }

  lemma FailureTouchesPeers(d: Dialer, a: string, now: int)
    ensures DialFailed(d, a, now).mesh == d.mesh.(peers := DialFailed(d, a, now).mesh.peers)
    ensures DialFailed(d, a, now).dialing == d.dialing && DialFailed(d, a, now).connecting == d.connecting
  {
  }

  lemma OpenSocketIsDialed(d: Dialer, i: nat)
    requires OneDialPerAddress(d) && i < |d.mesh.sockets| && d.mesh.sockets[i].dialAddress.Some?
    ensures d.mesh.sockets[i].dialAddress.value in d.dialing
  {
    OpenToWithout(d.mesh.sockets, i, d.mesh.sockets[i].dialAddress.value);
  }

  lemma ClosingStep(d: Dialer, i: nat, a: string, start: int, now: int)
    requires i < |d.mesh.sockets| && d.mesh.sockets[i].announced != Some(a) && OneDialPerAddress(d)
    requires BackoffOk(d, a, start, now) && StillWaiting(d, a)
    ensures var e, fails := Closed(d, i, now), d.mesh.sockets[i].dialAddress == Some(a);
            && StillWaiting(e, a)
            && (if fails && Drops(d.mesh.peers, a) then a !in e.mesh.peers.entries
                else BackoffOk(e, a, start, now)
                     && e.mesh.peers.entries[a].failures
                     == d.mesh.peers.entries[a].failures + (if fails then 1 else 0))
    ensures d.mesh.sockets[i].dialAddress == Some(a) ==> now >= start + Wait(d.mesh.peers.entries[a].failures)
  {
    hide DialFailed, Wait, Drops, OneDialPerAddress;
    var s := d.mesh.sockets[i];
    var c := SocketClosed(d.mesh, i);
    assert s in d.mesh.sockets;
    assert forall u :: u in c.sockets ==> u in d.mesh.sockets;
    if s.dialAddress.Some? {
      var b := s.dialAddress.value;
      var e := d.(mesh := c, dialing := d.dialing - {b});
      FailureTouchesPeers(e, b, now);
      OpenSocketIsDialed(d, i);
      if a == b {
        FailureStep(e, a, start, now);
      } else {
        OtherFailureStep(e, a, b, start, now);
      }
    }
  }

  /** How many of the first i ticks were failed dials of `a`. */
  function Failures(dialers: seq<Dialer>, ticks: seq<Tick>, a: string, i: nat): nat
    requires i <= |ticks| < |dialers| && forall k :: 0 <= k < |ticks| ==> Enabled(dialers[k], ticks[k].event)
  {
    if i == 0 then 0
    else Failures(dialers, ticks, a, i - 1) + (if Fails(dialers[i - 1], ticks[i - 1], a) then 1 else 0)
  }

  /** A peer that never answers. Starting from an entry without failures, on every run in which nothing is
      heard from `a`: its entry counts its failed dials exactly; it stays in the table until there are
      maxFailures of them, and for ever if it is a bootnode; and when it is dropped, at least the sum of
      the backoff waits has passed since the start. */
  lemma {:induction false} UnreachablePeerIsGivenTime(
      dialers: seq<Dialer>, own: Hello, ticks: seq<Tick>, start: int, a: string, i: nat)
    requires IsRun(dialers, own, ticks) && i <= |ticks| && (|ticks| > 0 ==> start <= ticks[0].now)
    requires MeshInv(dialers[0].mesh) && OneDialPerAddress(dialers[0])
    requires a in dialers[0].mesh.peers.entries && dialers[0].mesh.peers.entries[a].failures == 0
    requires a !in dialers[0].dialing
    requires forall k :: 0 <= k < i ==> a in dialers[k].mesh.peers.entries && Silent(dialers[k], ticks[k], a)
    ensures var peers, count := dialers[i].mesh.peers, Failures(dialers, ticks, a, i);
            if a in peers.entries then
              && peers.entries[a].failures == count && (a in peers.bootnodes || count < peers.maxFailures)
              && BackoffOk(dialers[i], a, start, if i == 0 then start else ticks[i - 1].now)
            else
              && i > 0 && count > 0 && count == peers.maxFailures && a !in peers.bootnodes
              && ticks[i - 1].now >= start + Wait(count - 1)
    ensures MeshInv(dialers[i].mesh) && StillWaiting(dialers[i], a)
  {
    hide Next, Fails, Silent, OneLivePerNode, Wait, Enabled;
    if i == 0 {
      NothingOpenTo(dialers[0], a);
    } else {
      var d, t := dialers[i - 1], ticks[i - 1];
      UnreachablePeerIsGivenTime(dialers, own, ticks, start, a, i - 1);
      NeverDialedTwice(dialers, own, ticks, i - 1);
      NextKeepsMesh(d, own, t);
      QuietStep(d, own, t, a, start);
    }
  }

  lemma NothingOpenTo(d: Dialer, a: string)
    requires OneDialPerAddress(d) && a !in d.dialing
    ensures StillWaiting(d, a)
  {
    forall s | s in d.mesh.sockets ensures s.dialAddress != Some(a) {
      var i :| 0 <= i < |d.mesh.sockets| && d.mesh.sockets[i] == s;
      if s.dialAddress == Some(a) {
        OpenSocketIsDialed(d, i);
      }
    }
  }

  // ------------------------------------------------------------------------
  // Duplicates and redialing
  // ------------------------------------------------------------------------

  /** A dialed socket that lost as a duplicate and then closed. */
  function AfterDuplicate(d: Dialer, own: Hello, i: nat, h: Hello, now: int, closedAt: int): Dialer
    requires i < |d.mesh.sockets|
    requires JudgeHello(d.mesh, own, i, h, None) == Resolved
  {
    Closed(Heard(d, own, i, h, None, now), i, closedAt)
  }

  lemma AfterDuplicateShape(d: Dialer, own: Hello, i: nat, h: Hello, now: int, closedAt: int)
    requires i < |d.mesh.sockets| && d.mesh.sockets[i].dialAddress.Some?
    requires JudgeHello(d.mesh, own, i, h, None) == Resolved
    requires Judge(d.mesh.nodeId, d.mesh.sockets, i, h.nodeId).Duplicate?
    ensures var a := d.mesh.sockets[i].dialAddress.value;
            var e := AfterDuplicate(d, own, i, h, now, closedAt);
            && e.mesh.sockets == d.mesh.sockets[..i] + d.mesh.sockets[i + 1..]
            && e.mesh.peers == AfterSuccess(d.mesh.peers, a, now)
            && e.dialing == d.dialing - {a} && e.nextAttempt == d.nextAttempt
  {
    hide Judge, DialFailed, AfterSuccess, Matches;
  }

  lemma ConnectedWithout(s: seq<Socket>, i: nat, a: string)
    requires i < |s|
    ensures Connected(s[..i] + s[i + 1..], a)
       <==> exists j :: 0 <= j < |s| && j != i && Live(s[j]) && s[j].announced == Some(a)
  {
    var r := s[..i] + s[i + 1..];
    if Connected(r, a) {
      var u :| u in r && Live(u) && u.announced == Some(a);
      var k :| 0 <= k < |r| && r[k] == u;
      assert s[if k < i then k else k + 1] == u;
    }
    if j :| 0 <= j < |s| && j != i && Live(s[j]) && s[j].announced == Some(a) {
      assert r[if j < i then j else j - 1] == s[j];
    }
  }

  /** The comment on the loop says that a connection closed as a duplicate is never dialed again. The loop
      dials its address again at the next visit exactly when no live socket announces that same
      address: a node that is reached under a second address is dialed there again and again. */
  lemma DuplicateIsRedialed(d: Dialer, own: Hello, i: nat, h: Hello, now: int, closedAt: int, later: int)
    requires i < |d.mesh.sockets| && d.mesh.sockets[i].dialAddress.Some?
    requires JudgeHello(d.mesh, own, i, h, None) == Resolved
    requires Judge(d.mesh.nodeId, d.mesh.sockets, i, h.nodeId).Duplicate?
    requires var a := d.mesh.sockets[i].dialAddress.value;
             && a in d.mesh.peers.entries && now > 0
             && (a in d.nextAttempt ==> d.nextAttempt[a] <= later)
    ensures var a := d.mesh.sockets[i].dialAddress.value;
            var e := AfterDuplicate(d, own, i, h, now, closedAt);
            && (ShouldDial(e, a, later) <==> !Connected(e.mesh.sockets, a))
            && (Connected(e.mesh.sockets, a) <==>
                  exists j :: 0 <= j < |d.mesh.sockets| && j != i && Live(d.mesh.sockets[j])
                              && d.mesh.sockets[j].announced == Some(a))
  {
    hide AfterDuplicate, Judge, JudgeHello, Connected;
    AfterDuplicateShape(d, own, i, h, now, closedAt);
    ConnectedWithout(d.mesh.sockets, i, d.mesh.sockets[i].dialAddress.value);
  }
}
