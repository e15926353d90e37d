/** A connection closed as a duplicate is dialed again: a run that shows it. Node "c" has the bootnode "y"; the
    node behind it, "b", dials in at the same time and is reached at "x", the address its socket shows. */
module Redial {
  import opened Types
  import opened Peers
  import opened Handshake
  import opened P2P
  import opened Dialing

  const INBOUND: Socket := Socket(0, None, "b", Some("x"), true, false)
  const LOST: Socket := Socket(1, Some("y"), "b", Some("y"), false, true)

  /** A HELLO of "b" that "c" finds compatible. */
  predicate FromB(own: Hello, h: Hello) {
    Matches(own, h) && h.wellFormed && h.nodeId == "b"
  }

  function FirstPeers(): Table {
    Table(map["y" := PeerEntry(0, 0)], {"y"}, {}, 10, 200, {})
  }

  function WithX(): Table {
    Persisted(FirstPeers().(entries := map["y" := PeerEntry(0, 0), "x" := PeerEntry(0, 0)]))
  }

  function WithYSeen(now: int): Table {
    Persisted(WithX().(entries := map["y" := PeerEntry(now, 0), "x" := PeerEntry(0, 0)]))
  }

  /** The node before each of the six ticks and after the last. */
  function DialerAt(i: nat, now: int): Dialer {
    var peers := if i <= 2 then FirstPeers() else if i <= 4 then WithX() else WithYSeen(now);
    var sockets :=
      if i <= 1 then [] else if i == 2 then [Opened(0, None)] else if i == 4 then [INBOUND, Opened(1, Some("y"))]
      else if i == 5 then [INBOUND, LOST] else [INBOUND];
    Dialer(Mesh("c", sockets, peers, if i <= 4 then {} else {"y"}, {}),
           if 1 <= i <= 5 then {"y"} else {}, map[], if 1 <= i <= 3 then multiset{"y"} else multiset{})
  }

  function TickAt(i: nat, h: Hello, now: int): Tick {
    Tick(if i == 0 then Loops({})
         else if i == 1 then Accepts(0)
         else if i == 2 then Hears(0, h, Some("x"))
         else if i == 3 then Connects(1, "y")
         else if i == 4 then Hears(1, h, None)
         else Closes(1), now)
  }

  predicate Leads(i: nat, own: Hello, h: Hello, now: int) {
    && Dialing.Enabled(DialerAt(i, now), TickAt(i, h, now).event)
    && Dialing.Next(DialerAt(i, now), own, TickAt(i, h, now)) == DialerAt(i + 1, now)
  }

  lemma StartPeers(file: seq<Record>)
    requires file == []
    ensures FreshTable([Some("y")], file, None, 10, 200) == FirstPeers()
    ensures SeenIn(set r | r in file) == {}
  {
    assert WithBootnodes([Some("y")][..0], 10, 200) == Table(map[], {}, {}, 10, 200, {});
    assert WithBootnodes([Some("y")], 10, 200) == FirstPeers();
    assert (set r | r in file) == {};
  }

  lemma BootnodeIsDialed(own: Hello, h: Hello, now: int)
    ensures Leads(0, own, h, now)
  {
    hide DialedTable, DialedAttempts;
    var d := DialerAt(0, now);
    assert ShouldDial(d, "y", now);
    assert Due(d, d.mesh.peers.entries.Keys, now) == {"y"};
    assert {"y"} * {} == {} && {"y"} - {} == {"y"} && {} + {"y"} == {"y"};
    NothingFailed(d, now);
    assert multiset({"y"}) == multiset{"y"};
  }

  lemma InboundIsHeard(own: Hello, h: Hello, now: int)
    requires FromB(own, h)
    ensures Leads(2, own, h, now)
  {
    hide Matches, RecordsOf;
    var d := DialerAt(2, now);
    assert FirstLive(d.mesh.sockets, 0, "b") == None;
    assert FirstPeers().entries["x" := PeerEntry(0, 0)] == WithXEntries();
    assert d.mesh.sockets[0 := INBOUND] == [INBOUND];
    OneEntry();
  }

  function WithXEntries(): map<string, PeerEntry> {
    map["y" := PeerEntry(0, 0), "x" := PeerEntry(0, 0)]
  }

  lemma OneEntry()
    ensures |FirstPeers().entries| == 1
  {
    KeysSize(FirstPeers().entries);
    assert FirstPeers().entries.Keys == {"y"};
  }

  lemma DialIsLost(own: Hello, h: Hello, now: int)
    requires FromB(own, h)
    ensures Leads(4, own, h, now)
    ensures JudgeHello(DialerAt(4, now).mesh, own, 1, h, None) == Resolved
    ensures Judge("c", DialerAt(4, now).mesh.sockets, 1, "b").Duplicate?
  {
    hide Matches, RecordsOf;
    var d := DialerAt(4, now);
    InboundComesFirst(d.mesh.sockets);
    assert !ShouldReplace("c", INBOUND, Opened(1, Some("y")).(remoteNodeId := "b"));
    assert d.mesh.sockets[1 := LOST] == [INBOUND, LOST];
    assert WithX().entries["y" := PeerEntry(now, 0)] == WithYSeen(now).entries;
    assert {} + {"y"} == {"y"};
  }

  lemma InboundComesFirst(sockets: seq<Socket>)
    requires sockets == [INBOUND, Opened(1, Some("y"))]
    ensures FirstLive(sockets, 1, "b") == Some(0)
  {
    assert Live(sockets[0]) && sockets[0].remoteNodeId == "b";
  }

  lemma LostCloses(own: Hello, h: Hello, now: int)
    ensures Leads(5, own, h, now)
  {
    hide RecordsOf, DialFailed;
    var s := DialerAt(5, now).mesh.sockets;
    assert s[..1] + s[2..] == [INBOUND];
    assert {"y"} - {"y"} == {};
  }

  lemma OpensLead(own: Hello, h: Hello, now: int)
    ensures Leads(1, own, h, now) && Leads(3, own, h, now)
  {
    hide RecordsOf;
    assert [INBOUND] + [Opened(1, Some("y"))] == [INBOUND, Opened(1, Some("y"))];
    assert [] + [Opened(0, None)] == [Opened(0, None)];
    assert multiset{"y"} - multiset{"y"} == multiset{};
  }

  lemma EachLeads(i: nat, own: Hello, h: Hello, now: int)
    requires i < 6 && FromB(own, h)
    ensures Leads(i, own, h, now)
  {
    hide Leads;
    BootnodeIsDialed(own, h, now);
    OpensLead(own, h, now);
    InboundIsHeard(own, h, now);
    DialIsLost(own, h, now);
    LostCloses(own, h, now);
    assert i == 0 || i == 1 || i == 2 || i == 3 || i == 4 || i == 5;
  }

  function Dialers(now: int): (dialers: seq<Dialer>)
    ensures |dialers| == 7 && forall i :: 0 <= i < 7 ==> dialers[i] == DialerAt(i, now)
  {
    seq(7, i requires i >= 0 => DialerAt(i, now))
  }

  function Ticks(h: Hello, now: int): (ticks: seq<Tick>)
    ensures |ticks| == 6 && forall i :: 0 <= i < 6 ==> ticks[i] == TickAt(i, h, now)
  {
    seq(6, i requires i >= 0 => TickAt(i, h, now))
  }

  lemma RedialRun(own: Hello, h: Hello, now: int)
    requires FromB(own, h)
    ensures Dialing.IsRun(Dialers(now), own, Ticks(h, now))
  {
    hide Dialing.Enabled, Dialing.Next, DialerAt, TickAt, Dialers, Ticks, FromB;
    forall i | 0 <= i < 6
      ensures Dialing.Enabled(Dialers(now)[i], Ticks(h, now)[i].event)
              && Dialers(now)[i + 1] == Dialing.Next(Dialers(now)[i], own, Ticks(h, now)[i])
    {
      EachLeads(i, own, h, now);
    }
    TicksAreAt(h, now);
  }

  lemma TicksAreAt(h: Hello, now: int)
    ensures forall i :: 0 <= i < 6 ==> Ticks(h, now)[i].now == now
  {
  }

  /** From a fresh start: the bootnode "y" is dialed, "b" dials in and is known as "x", the dial to "y" loses as a
      duplicate and closes, and "y" is due again at once, for the connection it lost to announces "x". */
  lemma SecondAddressIsRedialed(own: Hello, h: Hello, now: int, later: int)
    requires FromB(own, h) && now > 0
    ensures Dialing.IsRun(Dialers(now), own, Ticks(h, now))
    ensures Dialers(now)[0] == Dialer(P2P.Start("c", [Some("y")], [], None, 10, 200), {}, map[], multiset{})
    ensures Ticks(h, now)[4].event == Hears(1, h, None)
    ensures var m := Dialers(now)[4].mesh;
            && |m.sockets| == 2 && m.sockets[1].dialAddress == Some("y")
            && JudgeHello(m, own, 1, h, None) == Resolved && Judge(m.nodeId, m.sockets, 1, "b").Duplicate?
    ensures Sound(Dialers(now)[6]) && ShouldDial(Dialers(now)[6], "y", later)
  {
    hide Dialing.IsRun, P2P.Start, Judge, JudgeHello, Sound, FromB;
    RedialRun(own, h, now);
    StartIs(now);
    DialIsLost(own, h, now);
    FreshIsSound("c", [Some("y")], [], None, 10, 200);
    RunIsSound(Dialers(now), own, Ticks(h, now), 6);
    EndIsDue(now, later);
  }

  lemma StartIs(now: int)
    ensures DialerAt(0, now) == Dialer(P2P.Start("c", [Some("y")], [], None, 10, 200), {}, map[], multiset{})
  {
    hide FreshTable;
    StartPeers([]);
  }

  lemma EndIsDue(now: int, later: int)
    requires now > 0
    ensures ShouldDial(DialerAt(6, now), "y", later)
  {
    hide RecordsOf;
    assert !Connected([INBOUND], "y");
  }
}
