/** Two connections dialed by one side. Each end keeps the one whose HELLO it hears later, and that is local:
    this module shows exactly when the two ends come to lose both. */
module SameSide {
  import opened Types
  import opened Handshake

  /** This end has given up connection c for the other one, which it heard later. */
  predicate GaveUp(e: End, c: nat) {
    c <= 1 && e.order == [c, 1 - c]
  }

  predicate OrderOk(order: seq<nat>) {
    order == [] || order == [FIRST] || order == [SECOND] || order == [FIRST, SECOND] || order == [SECOND, FIRST]
  }

  /** The state of one socket of an end. */
  predicate SocketKept(dialer: Side, side: Side, otherId: string, e: End, s: Socket) {
    && s.id <= 1 && s.dialAddress == DialOf(dialer, side)
    && (PhaseOf(e, s.id) == Waiting || PhaseOf(e, s.id) == Heard)
    && (PhaseOf(e, s.id) == Waiting ==> !s.handshaken && !s.expectedClose)
    && (PhaseOf(e, s.id) == Heard ==>
          && s.handshaken && s.remoteNodeId == otherId
          && (s.expectedClose <==> GaveUp(e, s.id)))
  }

  predicate HasSocket(e: End, c: nat) {
    exists i :: 0 <= i < |e.sockets| && e.sockets[i].id == c
  }

  predicate EndKept(dialer: Side, side: Side, otherId: string, e: End) {
    && OrderOk(e.order)
    && (forall i :: 0 <= i < |e.sockets| ==> SocketKept(dialer, side, otherId, e, e.sockets[i]))
    && (forall i, j :: 0 <= i < j < |e.sockets| ==> e.sockets[i].id != e.sockets[j].id)
    && (forall c: nat :: c <= 1 ==>
          && (PhaseOf(e, c) == NotOpen || PhaseOf(e, c) == Waiting ==> c !in e.order)
          && (PhaseOf(e, c) == Heard ==> c in e.order)
          && (PhaseOf(e, c) == Waiting || PhaseOf(e, c) == Heard ==> HasSocket(e, c)))
  }

  predicate PairKept(p: Pair) {
    && p.firstBy == p.secondBy
    && EndKept(p.firstBy, Low, p.highId, p.low) && EndKept(p.firstBy, High, p.lowId, p.high)
    && (forall c: nat :: c <= 1 && (PhaseOf(p.low, c) == Gone || PhaseOf(p.high, c) == Gone) ==>
          GaveUp(p.low, c) || GaveUp(p.high, c))
  }

  lemma EndsOf(p: Pair, side: Side)
    requires PairKept(p)
    ensures EndKept(p.firstBy, side, IdOf(p, Other(side)), EndOf(p, side))
  {
  }

  // ------------------------------------------------------------------------
  // Moves
  // ------------------------------------------------------------------------

  lemma OpenKeepsEnd(dialer: Side, side: Side, otherId: string, e: End, c: nat)
    requires EndKept(dialer, side, otherId, e) && c <= 1 && PhaseOf(e, c) == NotOpen
    ensures EndKept(dialer, side, otherId,
                    WithPhase(e.(sockets := e.sockets + [Opened(c, DialOf(dialer, side))]), c, Waiting))
  {
    hide SocketKept, HasSocket;
    var s := Opened(c, DialOf(dialer, side));
    var after := WithPhase(e.(sockets := e.sockets + [s]), c, Waiting);
    forall i | 0 <= i < |e.sockets|
      ensures e.sockets[i].id != c && SocketKept(dialer, side, otherId, after, after.sockets[i])
    {
      SocketIds(dialer, side, otherId, e, i);
      OtherSocketKept(dialer, side, otherId, e, after, i, c);
    }
    OpenedIsKept(dialer, side, otherId, after, s);
    OpeningKeepsSockets(e, after, s);
  }

  lemma OpenedIsKept(dialer: Side, side: Side, otherId: string, after: End, s: Socket)
    requires s.id <= 1 && s == Opened(s.id, DialOf(dialer, side)) && PhaseOf(after, s.id) == Waiting
    ensures SocketKept(dialer, side, otherId, after, s)
  {
  }

  lemma OpeningKeepsSockets(e: End, after: End, s: Socket)
    requires after.sockets == e.sockets + [s]
    ensures HasSocket(after, s.id) && forall b: nat :: HasSocket(e, b) ==> HasSocket(after, b)
  {
    assert after.sockets[|e.sockets|].id == s.id;
    forall b: nat | HasSocket(e, b) ensures HasSocket(after, b) {
      var i :| 0 <= i < |e.sockets| && e.sockets[i].id == b;
      assert after.sockets[i].id == b;
    }
  }

  /** Hearing c on a fresh socket: a live other connection loses against it. */
  lemma JudgeOfSameSide(me: string, dialer: Side, side: Side, otherId: string, e: End, i: nat)
    requires EndKept(dialer, side, otherId, e) && i < |e.sockets| && PhaseOf(e, e.sockets[i].id) == Waiting
    ensures match Judge(me, e.sockets, i, otherId)
            case Kept => forall j :: 0 <= j < |e.sockets| && j != i ==> PhaseOf(e, e.sockets[j].id) == Waiting
            case Replaced(j) =>
              j < |e.sockets| && j != i && PhaseOf(e, e.sockets[j].id) == Heard && !e.sockets[j].expectedClose
            case Duplicate => false
  {
    hide FirstLive, Less;
    forall j | 0 <= j < |e.sockets|
      ensures SocketKept(dialer, side, otherId, e, e.sockets[j])
      ensures j != i ==> e.sockets[j].id == 1 - e.sockets[i].id
    {
      assert SocketKept(dialer, side, otherId, e, e.sockets[j]) && SocketKept(dialer, side, otherId, e, e.sockets[i]);
    }
    assert e.sockets[i].id !in e.order;
  }

  lemma HeardSocketKept(
      me: string, dialer: Side, side: Side, otherId: string, e: End, i: nat, announced: string, j: nat)
    requires EndKept(dialer, side, otherId, e) && i < |e.sockets| && j < |e.sockets|
    requires PhaseOf(e, e.sockets[i].id) == Waiting
    ensures var after := Resolve(me, e.sockets, i, otherId, announced);
            && |after| == |e.sockets| && after[j].id == e.sockets[j].id
            && SocketKept(dialer, side, otherId,
                          WithPhase(e.(sockets := after, order := e.order + [e.sockets[i].id]), e.sockets[i].id, Heard),
                          after[j])
  {
    hide Judge, FirstLive, Less, ShouldReplace, HasSocket;
    var c := e.sockets[i].id;
    assert SocketKept(dialer, side, otherId, e, e.sockets[i]) && SocketKept(dialer, side, otherId, e, e.sockets[j]);
    JudgeOfSameSide(me, dialer, side, otherId, e, i);
    assert c !in e.order;
    if j == i {
      assert (e.order + [c])[|e.order|] == c;
      assert e.order + [c] != [c, 1 - c];
    } else {
      assert e.sockets[j].id == 1 - c;
      if PhaseOf(e, 1 - c) == Heard {
        assert e.order == [1 - c];
        assert e.order + [c] == [1 - c, c];
        var loser := Judge(me, e.sockets, i, otherId).loser;
        assert SocketKept(dialer, side, otherId, e, e.sockets[loser]);
        assert loser == j;
      }
    }
  }

  lemma HearKeepsEnd(me: string, dialer: Side, side: Side, otherId: string, e: End, i: nat, announced: string)
    requires EndKept(dialer, side, otherId, e) && i < |e.sockets| && PhaseOf(e, e.sockets[i].id) == Waiting
    ensures var c := e.sockets[i].id;
            EndKept(dialer, side, otherId, WithPhase(
              e.(sockets := Resolve(me, e.sockets, i, otherId, announced), order := e.order + [c]), c, Heard))
  {
    hide Resolve, SocketKept;
    var c := e.sockets[i].id;
    var after := WithPhase(
      e.(sockets := Resolve(me, e.sockets, i, otherId, announced), order := e.order + [c]), c, Heard);
    forall j | 0 <= j < |e.sockets|
      ensures |after.sockets| == |e.sockets| && after.sockets[j].id == e.sockets[j].id
      ensures SocketKept(dialer, side, otherId, after, after.sockets[j])
    {
      HeardSocketKept(me, dialer, side, otherId, e, i, announced, j);
    }
    assert c <= 1 by { SocketIds(dialer, side, otherId, e, i); }
    forall b: nat | b <= 1 && HasSocket(e, b) ensures HasSocket(after, b) {
      var j :| 0 <= j < |e.sockets| && e.sockets[j].id == b;
      assert after.sockets[j].id == b;
    }
  }

  lemma SocketIds(dialer: Side, side: Side, otherId: string, e: End, i: nat)
    requires EndKept(dialer, side, otherId, e) && i < |e.sockets|
    ensures e.sockets[i].id <= 1 && PhaseOf(e, e.sockets[i].id) in {Waiting, Heard}
  {
    assert SocketKept(dialer, side, otherId, e, e.sockets[i]);
  }

  lemma RemovalKeepsIds(sockets: seq<Socket>, i: nat)
    requires i < |sockets| && forall j, k :: 0 <= j < k < |sockets| ==> sockets[j].id != sockets[k].id
    ensures var rest := sockets[..i] + sockets[i + 1..];
            && (forall j, k :: 0 <= j < k < |rest| ==> rest[j].id != rest[k].id)
            && (forall j :: 0 <= j < |rest| ==> rest[j].id != sockets[i].id)
  {
  }

  lemma CloseKeepsEnd(dialer: Side, side: Side, otherId: string, e: End, i: nat)
    requires EndKept(dialer, side, otherId, e) && i < |e.sockets|
    ensures EndKept(dialer, side, otherId,
                    WithPhase(e.(sockets := e.sockets[..i] + e.sockets[i + 1..]), e.sockets[i].id, Gone))
  {
    hide SocketKept, HasSocket;
    var c := e.sockets[i].id;
    var rest := e.sockets[..i] + e.sockets[i + 1..];
    var after := WithPhase(e.(sockets := rest), c, Gone);
    SocketIds(dialer, side, otherId, e, i);
    RemovalKeepsIds(e.sockets, i);
    forall j | 0 <= j < |rest| ensures SocketKept(dialer, side, otherId, after, rest[j]) {
      OtherSocketKept(dialer, side, otherId, e, after, if j < i then j else j + 1, c);
    }
    if HasSocket(e, 1 - c) {
      OtherSocketStays(e, i);
    }
  }

  lemma OtherSocketStays(e: End, i: nat)
    requires i < |e.sockets| && e.sockets[i].id <= 1 && HasSocket(e, 1 - e.sockets[i].id)
    ensures HasSocket(WithPhase(e.(sockets := e.sockets[..i] + e.sockets[i + 1..]), e.sockets[i].id, Gone),
                      1 - e.sockets[i].id)
  {
    var rest := e.sockets[..i] + e.sockets[i + 1..];
    var k :| 0 <= k < |e.sockets| && e.sockets[k].id == 1 - e.sockets[i].id;
    assert rest[if k < i then k else k - 1].id == 1 - e.sockets[i].id;
  }

  lemma OtherSocketKept(dialer: Side, side: Side, otherId: string, e: End, after: End, k: nat, c: nat)
    requires EndKept(dialer, side, otherId, e) && k < |e.sockets| && e.sockets[k].id != c && c <= 1
    requires after.order == e.order && PhaseOf(after, 1 - c) == PhaseOf(e, 1 - c)
    ensures SocketKept(dialer, side, otherId, after, e.sockets[k])
  {
    assert SocketKept(dialer, side, otherId, e, e.sockets[k]);
  }

  lemma FindKept(dialer: Side, side: Side, otherId: string, e: End, c: nat)
    requires EndKept(dialer, side, otherId, e) && c <= 1
    ensures Find(e.sockets, c).Some? <==> PhaseOf(e, c) == Waiting || PhaseOf(e, c) == Heard
    ensures Terminated(e, c) ==> PhaseOf(e, c) == Gone || GaveUp(e, c)
  {
    if Find(e.sockets, c).Some? {
      assert SocketKept(dialer, side, otherId, e, e.sockets[Find(e.sockets, c).value]);
    }
  }

  lemma MoveKeepsPair(p: Pair, m: Move)
    requires PairKept(p) && Possible(p, m)
    ensures PairKept(Play(p, m))
    ensures Play(p, m).lowId == p.lowId && Play(p, m).highId == p.highId && Play(p, m).firstBy == p.firstBy
  {
    hide EndKept, Resolve, Find;
    var e, o, other := EndOf(p, m.side), EndOf(p, Other(m.side)), IdOf(p, Other(m.side));
    EndsOf(p, m.side);
    EndsOf(p, Other(m.side));
    FindKept(p.firstBy, m.side, other, e, m.conn);
    FindKept(p.firstBy, Other(m.side), IdOf(p, m.side), o, m.conn);
    GaveUpStays(p, m);
    match m {
      case Open(side, c) => OpenKeepsEnd(p.firstBy, side, other, e, c);
      case Hear(side, c) =>
        HearKeepsEnd(IdOf(p, side), p.firstBy, side, other, e, Find(e.sockets, c).value, "peer");
      case Close(side, c) => CloseKeepsEnd(p.firstBy, side, other, e, Find(e.sockets, c).value);
    }
  }

  /** What an end has given up stays given up. */
  lemma GaveUpStays(p: Pair, m: Move)
    requires PairKept(p) && Possible(p, m)
    ensures forall c: nat :: GaveUp(p.low, c) ==> GaveUp(Play(p, m).low, c)
    ensures forall c: nat :: GaveUp(p.high, c) ==> GaveUp(Play(p, m).high, c)
  {
    hide Resolve, Find, SocketKept, HasSocket;
    EndsOf(p, m.side);
  }

  lemma {:induction false} PlayKeepsPair(pairs: seq<Pair>, moves: seq<Move>, i: nat, dialer: Side)
    requires IsPlay(pairs, moves) && i <= |moves|
    requires pairs[0] == Start(pairs[0].lowId, pairs[0].highId, dialer, dialer)
    ensures PairKept(pairs[i])
  {
    hide Possible, Play, PairKept;
    if i == 0 {
      StartKept(pairs[0].lowId, pairs[0].highId, dialer);
    } else {
      PlayKeepsPair(pairs, moves, i - 1, dialer);
      MoveKeepsPair(pairs[i - 1], moves[i - 1]);
    }
  }

  lemma StartKept(lowId: string, highId: string, dialer: Side)
    ensures PairKept(Start(lowId, highId, dialer, dialer))
  {
  }

  // ------------------------------------------------------------------------
  // What survives
  // ------------------------------------------------------------------------

  predicate LiveAt(e: End, c: nat) {
    exists i :: 0 <= i < |e.sockets| && e.sockets[i].id == c && Live(e.sockets[i])
  }

  /** Connection c is live at both ends. */
  predicate Survives(p: Pair, c: nat) {
    LiveAt(p.low, c) && LiveAt(p.high, c)
  }

  /** Both ends heard both HELLOs, in opposite orders. */
  predicate OppositeOrders(p: Pair) {
    || (p.low.order == [FIRST, SECOND] && p.high.order == [SECOND, FIRST])
    || (p.low.order == [SECOND, FIRST] && p.high.order == [FIRST, SECOND])
  }

  lemma GivenUpIsNotLive(p: Pair, side: Side, c: nat)
    requires PairKept(p) && GaveUp(EndOf(p, side), c)
    ensures !LiveAt(EndOf(p, side), c)
  {
    EndsOf(p, side);
    var e := EndOf(p, side);
    forall i | 0 <= i < |e.sockets| && e.sockets[i].id == c ensures !Live(e.sockets[i]) {
      assert SocketKept(p.firstBy, side, IdOf(p, Other(side)), e, e.sockets[i]);
    }
  }

  /** In a settled play a connection nobody gave up is open, heard and live. */
  lemma SettledIsLive(p: Pair, side: Side, c: nat)
    requires PairKept(p) && Settled(p) && c <= 1
    requires !GaveUp(p.low, c) && !GaveUp(p.high, c)
    ensures PhaseOf(EndOf(p, side), c) == Heard && LiveAt(EndOf(p, side), c)
  {
    hide EndKept, SocketKept, Find, Resolve;
    var e, other := EndOf(p, side), IdOf(p, Other(side));
    EndsOf(p, side);
    assert !Possible(p, Open(Low, c)) && !Possible(p, Open(High, c)) && !Possible(p, Hear(side, c));
    FindKept(p.firstBy, side, other, e, c);
    HeardIsLive(p.firstBy, side, other, e, c);
  }

  lemma HeardIsLive(dialer: Side, side: Side, otherId: string, e: End, c: nat)
    requires EndKept(dialer, side, otherId, e) && c <= 1 && PhaseOf(e, c) == Heard && !GaveUp(e, c)
    ensures LiveAt(e, c)
  {
    assert HasSocket(e, c);
    var i :| 0 <= i < |e.sockets| && e.sockets[i].id == c;
    assert SocketKept(dialer, side, otherId, e, e.sockets[i]);
  }

  lemma SurvivesIffKept(p: Pair, c: nat)
    requires PairKept(p) && Settled(p) && c <= 1
    ensures Survives(p, c) <==> !GaveUp(p.low, c) && !GaveUp(p.high, c)
  {
    hide PairKept, Settled, LiveAt;
    if GaveUp(p.low, c) {
      GivenUpIsNotLive(p, Low, c);
    } else if GaveUp(p.high, c) {
      GivenUpIsNotLive(p, High, c);
    } else {
      SettledIsLive(p, Low, c);
      SettledIsLive(p, High, c);
    }
  }

  /** The exact condition. When one side dialed twice, then in every settled play, whatever the interleaving of
      openings, HELLOs and closes, exactly one connection survives at both ends, unless both ends heard
      both HELLOs in opposite orders: then, and only then, none does. */
  lemma NothingSurvivesIffOppositeOrders(pairs: seq<Pair>, moves: seq<Move>, i: nat, dialer: Side)
    requires IsPlay(pairs, moves) && i <= |moves| && Settled(pairs[i])
    requires pairs[0] == Start(pairs[0].lowId, pairs[0].highId, dialer, dialer)
    ensures !Survives(pairs[i], FIRST) && !Survives(pairs[i], SECOND) <==> OppositeOrders(pairs[i])
    ensures !(Survives(pairs[i], FIRST) && Survives(pairs[i], SECOND))
  {
    hide Survives, Settled, Possible, Play, SocketKept, HasSocket;
    var p := pairs[i];
    PlayKeepsPair(pairs, moves, i, dialer);
    SurvivesIffKept(p, FIRST);
    SurvivesIffKept(p, SECOND);
    EndsOf(p, Low);
    if Survives(p, FIRST) && Survives(p, SECOND) {
      SettledIsLive(p, Low, FIRST);
      SettledIsLive(p, Low, SECOND);
    }
  }

  /** And every play is short: twelve moves at most. */
  lemma {:induction false} PlayIsShort(pairs: seq<Pair>, moves: seq<Move>, i: nat, dialer: Side)
    requires IsPlay(pairs, moves) && i <= |moves|
    requires pairs[0] == Start(pairs[0].lowId, pairs[0].highId, dialer, dialer)
    ensures i <= Progress(pairs[i]) <= 12
  {
    hide Possible, Play, PairKept;
    if i > 0 {
      PlayIsShort(pairs, moves, i - 1, dialer);
      PlayKeepsPair(pairs, moves, i - 1, dialer);
      MoveIsProgress(pairs[i - 1], moves[i - 1]);
    }
  }

  lemma MoveIsProgress(p: Pair, m: Move)
    requires PairKept(p) && Possible(p, m)
    ensures Progress(Play(p, m)) > Progress(p)
  {
    hide EndKept, Resolve, Find;
    EndsOf(p, m.side);
    FindKept(p.firstBy, m.side, IdOf(p, Other(m.side)), EndOf(p, m.side), m.conn);
  }

  // ------------------------------------------------------------------------
  // Both can be lost
  // ------------------------------------------------------------------------

  lemma OpenStep(p: Pair, side: Side, c: nat)
    requires PairKept(p) && c <= 1 && PhaseOf(EndOf(p, side), c) == NotOpen
    ensures Possible(p, Open(side, c)) && PairKept(Play(p, Open(side, c)))
    ensures var e, f := EndOf(p, side), EndOf(Play(p, Open(side, c)), side);
            && PhaseOf(f, c) == Waiting && PhaseOf(f, 1 - c) == PhaseOf(e, 1 - c) && f.order == e.order
            && EndOf(Play(p, Open(side, c)), Other(side)) == EndOf(p, Other(side))
  {
    hide PairKept;
    MoveKeepsPair(p, Open(side, c));
  }

  lemma HearStep(p: Pair, side: Side, c: nat)
    requires PairKept(p) && c <= 1
    requires PhaseOf(EndOf(p, side), c) == Waiting && PhaseOf(EndOf(p, Other(side)), c) != NotOpen
    ensures Possible(p, Hear(side, c)) && PairKept(Play(p, Hear(side, c)))
    ensures var e, f := EndOf(p, side), EndOf(Play(p, Hear(side, c)), side);
            && PhaseOf(f, c) == Heard && PhaseOf(f, 1 - c) == PhaseOf(e, 1 - c) && f.order == e.order + [c]
            && EndOf(Play(p, Hear(side, c)), Other(side)) == EndOf(p, Other(side))
  {
    hide PairKept, EndKept, Resolve, Find;
    EndsOf(p, side);
    FindKept(p.firstBy, side, IdOf(p, Other(side)), EndOf(p, side), c);
    MoveKeepsPair(p, Hear(side, c));
  }

  lemma AllOpened(lowId: string, highId: string, dialer: Side) returns (a: Pair, b: Pair, c: Pair, d: Pair)
    ensures var s := Start(lowId, highId, dialer, dialer);
            && Possible(s, Open(Low, FIRST)) && a == Play(s, Open(Low, FIRST))
            && Possible(a, Open(Low, SECOND)) && b == Play(a, Open(Low, SECOND))
            && Possible(b, Open(High, FIRST)) && c == Play(b, Open(High, FIRST))
            && Possible(c, Open(High, SECOND)) && d == Play(c, Open(High, SECOND))
    ensures PairKept(d) && d.low.order == [] && d.high.order == []
    ensures forall side: Side, conn: nat :: conn <= 1 ==> PhaseOf(EndOf(d, side), conn) == Waiting
  {
    hide PairKept, Possible, Play;
    var s := Start(lowId, highId, dialer, dialer);
    StartKept(lowId, highId, dialer);
    OpenStep(s, Low, FIRST);
    a := Play(s, Open(Low, FIRST));
    OpenStep(a, Low, SECOND);
    b := Play(a, Open(Low, SECOND));
    OpenStep(b, High, FIRST);
    c := Play(b, Open(High, FIRST));
    OpenStep(c, High, SECOND);
    d := Play(c, Open(High, SECOND));
  }

  /** A play in which both are lost: both ends open both connections, and then one hears them in one order and
      the other in the other. */
  lemma BothCanBeLost(lowId: string, highId: string, dialer: Side) returns (pairs: seq<Pair>, moves: seq<Move>)
    ensures IsPlay(pairs, moves) && pairs[0] == Start(lowId, highId, dialer, dialer)
    ensures OppositeOrders(pairs[|moves|])
    ensures !Survives(pairs[|moves|], FIRST) && !Survives(pairs[|moves|], SECOND)
  {
    hide PairKept, Possible, Play, LiveAt;
    var s := Start(lowId, highId, dialer, dialer);
    var a, b, c, d := AllOpened(lowId, highId, dialer);
    HearStep(d, Low, FIRST);
    var f := Play(d, Hear(Low, FIRST));
    HearStep(f, Low, SECOND);
    var g := Play(f, Hear(Low, SECOND));
    HearStep(g, High, SECOND);
    var h := Play(g, Hear(High, SECOND));
    HearStep(h, High, FIRST);
    var k := Play(h, Hear(High, FIRST));
    pairs := [s, a, b, c, d, f, g, h, k];
    moves := [Open(Low, FIRST), Open(Low, SECOND), Open(High, FIRST), Open(High, SECOND),
              Hear(Low, FIRST), Hear(Low, SECOND), Hear(High, SECOND), Hear(High, FIRST)];
    GivenUpIsNotLive(k, Low, FIRST);
    GivenUpIsNotLive(k, High, SECOND);
  }
}
