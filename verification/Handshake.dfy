/** Duplicate connections. Two nodes may dial each other at the same moment; every node keeps at most
    one live socket per remote node, and the two ends of a pair agree on which one. */
module Handshake {
  import opened Types

  /** Per-socket state. `dialAddress` is set only for sockets this node dialed. */
  datatype Socket = Socket(
    id: nat, dialAddress: Option<string>, remoteNodeId: string, announced: Option<string>,
    handshaken: bool, expectedClose: bool)

  function Opened(id: nat, dialAddress: Option<string>): Socket {
    Socket(id, dialAddress, "", None, false, false)
  }

  predicate Live(s: Socket) {
    s.handshaken && !s.expectedClose
  }

  /** True if `incoming` wins over `existing` for the same remote node. */
  predicate ShouldReplace(me: string, existing: Socket, incoming: Socket) {
    var existingInit := if existing.dialAddress.Some? then me else existing.remoteNodeId;
    var incomingInit := if incoming.dialAddress.Some? then me else incoming.remoteNodeId;
    existingInit == incomingInit || Less(incomingInit, existingInit)
  }

  /** Index of the first live socket to `remote` other than socket i. */
  function FirstLive(sockets: seq<Socket>, i: nat, remote: string): (r: Option<nat>)
    ensures r.Some? ==> r.value < |sockets| && r.value != i
                        && Live(sockets[r.value]) && sockets[r.value].remoteNodeId == remote
    ensures r.None? ==> forall j :: 0 <= j < |sockets| && j != i ==>
                        !(Live(sockets[j]) && sockets[j].remoteNodeId == remote)
  {
    if |sockets| == 0 then None
    else
      var n := |sockets| - 1;
      match FirstLive(sockets[..n], i, remote)
      case Some(j) => Some(j)
      case None => if n != i && Live(sockets[n]) && sockets[n].remoteNodeId == remote then Some(n) else None
  }

  datatype Verdict = Kept | Replaced(loser: nat) | Duplicate

  /** How a compatible HELLO from `remote` on socket i is resolved. */
  function Judge(me: string, sockets: seq<Socket>, i: nat, remote: string): Verdict
    requires i < |sockets|
  {
    match FirstLive(sockets, i, remote)
    case None => Kept
    case Some(j) =>
      if ShouldReplace(me, sockets[j], sockets[i].(remoteNodeId := remote)) then Replaced(j) else Duplicate
  }

  function Resolve(me: string, sockets: seq<Socket>, i: nat, remote: string, announced: string): seq<Socket>
    requires i < |sockets|
  {
    var s := sockets[i].(remoteNodeId := remote, announced := Some(announced));
    match Judge(me, sockets, i, remote)
    case Kept => sockets[i := s.(handshaken := true)]
    case Replaced(j) =>
      sockets[j := sockets[j].(expectedClose := true)][i := s.(handshaken := true)]
    case Duplicate => sockets[i := s.(expectedClose := true)]
  }

  /** At most one live socket per remote node. */
  predicate OneLivePerNode(sockets: seq<Socket>) {
    forall i, j :: 0 <= i < j < |sockets| && Live(sockets[i]) && Live(sockets[j]) ==>
      sockets[i].remoteNodeId != sockets[j].remoteNodeId
  }

  /** Whatever the sockets, a HELLO keeps at most one live socket per remote node. */
  lemma ResolveKeepsOneLive(me: string, sockets: seq<Socket>, i: nat, remote: string, announced: string)
    requires i < |sockets| && OneLivePerNode(sockets) && !sockets[i].handshaken
    ensures OneLivePerNode(Resolve(me, sockets, i, remote, announced))
  {
    var after := Resolve(me, sockets, i, remote, announced);
    forall a, b | 0 <= a < b < |after| && Live(after[a]) && Live(after[b])
      ensures after[a].remoteNodeId != after[b].remoteNodeId
    {
      assert a != i ==> Live(sockets[a]) && after[a] == sockets[a];
      assert b != i ==> Live(sockets[b]) && after[b] == sockets[b];
    }
  }

  lemma RemovalKeepsOneLive(sockets: seq<Socket>, i: nat)
    requires i < |sockets| && OneLivePerNode(sockets)
    ensures OneLivePerNode(sockets[..i] + sockets[i + 1..])
  {
    var r := sockets[..i] + sockets[i + 1..];
    forall a, b | 0 <= a < b < |r| && Live(r[a]) && Live(r[b])
      ensures r[a].remoteNodeId != r[b].remoteNodeId
    {
      assert r[a] == sockets[if a < i then a else a + 1];
      assert r[b] == sockets[if b < i then b else b + 1];
    }
  }

  // ------------------------------------------------------------------------
  // Two nodes, one socket dialed by each
  // ------------------------------------------------------------------------

  /** One end of a connection: not open yet, open and waiting for the other side's HELLO, or having
      handled it; `Gone` once the close event has removed it. */
  datatype Phase = NotOpen | Waiting | Heard | Gone

  datatype Side = Low | High

  /** One node of the pair: its sockets, the phases of the two connections, and the connections in the order
      in which it heard HELLO on them. */
  datatype End = End(sockets: seq<Socket>, first: Phase, second: Phase, order: seq<nat>)

  /** Two nodes and two connections; `firstBy` and `secondBy` are the sides that dialed them. */
  datatype Pair = Pair(lowId: string, highId: string, firstBy: Side, secondBy: Side, low: End, high: End)

  /** The two connections, used as socket ids. */
  const FIRST: nat := 0
  const SECOND: nat := 1

  datatype Move = Open(side: Side, conn: nat) | Hear(side: Side, conn: nat) | Close(side: Side, conn: nat)

  function EndOf(p: Pair, side: Side): End {
    if side == Low then p.low else p.high
  }

  function Other(side: Side): Side {
    if side == Low then High else Low
  }

  function PhaseOf(e: End, conn: nat): Phase {
    if conn == FIRST then e.first else e.second
  }

  function WithEnd(p: Pair, side: Side, e: End): Pair {
    if side == Low then p.(low := e) else p.(high := e)
  }

  function WithPhase(e: End, conn: nat, phase: Phase): End {
    if conn == FIRST then e.(first := phase) else e.(second := phase)
  }

  function IdOf(p: Pair, side: Side): string {
    if side == Low then p.lowId else p.highId
  }

  /** The position of a connection among a node's sockets. */
  function Find(sockets: seq<Socket>, conn: nat): (r: Option<nat>)
    ensures r.Some? ==> r.value < |sockets| && sockets[r.value].id == conn
    ensures r.None? ==> forall i :: 0 <= i < |sockets| ==> sockets[i].id != conn
  {
    if |sockets| == 0 then None
    else if sockets[|sockets| - 1].id == conn then Some(|sockets| - 1)
    else Find(sockets[..|sockets| - 1], conn)
  }

  predicate Terminated(e: End, conn: nat) {
    PhaseOf(e, conn) == Gone
    || (Find(e.sockets, conn).Some? && e.sockets[Find(e.sockets, conn).value].expectedClose)
  }

  /** HELLO is sent on opening, so it can be heard once the other end is or was open. A close event
      follows a termination at either end, and only that. */
  predicate Possible(p: Pair, m: Move) {
    var e, o := EndOf(p, m.side), EndOf(p, Other(m.side));
    && (m.conn == FIRST || m.conn == SECOND)
    && match m
       case Open(_, c) => PhaseOf(e, c) == NotOpen
       case Hear(_, c) => PhaseOf(e, c) == Waiting && PhaseOf(o, c) != NotOpen && Find(e.sockets, c).Some?
       case Close(_, c) =>
         Find(e.sockets, c).Some? && (Terminated(e, c) || Terminated(o, c))
  }

  function DialerOf(p: Pair, conn: nat): Side {
    if conn == FIRST then p.firstBy else p.secondBy
  }

  function DialOf(dialer: Side, side: Side): Option<string> {
    if dialer == side then Some("peer") else None
  }

  function Play(p: Pair, m: Move): Pair
    requires Possible(p, m)
  {
    var e := EndOf(p, m.side);
    match m
    case Open(side, c) =>
      WithEnd(p, side, WithPhase(e.(sockets := e.sockets + [Opened(c, DialOf(DialerOf(p, c), side))]), c, Waiting))
    case Hear(side, c) =>
      var i := Find(e.sockets, c).value;
      WithEnd(p, side, WithPhase(
        e.(sockets := Resolve(IdOf(p, side), e.sockets, i, IdOf(p, Other(side)), "peer"),
           order := e.order + [c]), c, Heard))
    case Close(side, c) =>
      var i := Find(e.sockets, c).value;
      WithEnd(p, side, WithPhase(e.(sockets := e.sockets[..i] + e.sockets[i + 1..]), c, Gone))
  }

  // The nodes have dialed each other: the low node the first connection, the high node the second.

  /** The state of one socket, given the phases of its end. */
  predicate SocketOk(side: Side, otherId: string, e: End, s: Socket) {
    && (s.id == FIRST || s.id == SECOND)
    && s.dialAddress == DialOf(if s.id == FIRST then Low else High, side)
    && (PhaseOf(e, s.id) == Waiting || PhaseOf(e, s.id) == Heard)
    && (PhaseOf(e, s.id) == Waiting ==> !s.handshaken && !s.expectedClose)
    && (PhaseOf(e, s.id) == Heard ==>
          && s.remoteNodeId == otherId
          && if s.id == SECOND && e.first == Heard then s.expectedClose else Live(s))
  }

  predicate EndOk(side: Side, otherId: string, e: End) {
    && e.first != Gone
    && (forall i :: 0 <= i < |e.sockets| ==> SocketOk(side, otherId, e, e.sockets[i]))
    && (forall i, j :: 0 <= i < j < |e.sockets| ==> e.sockets[i].id != e.sockets[j].id)
    && (e.first == Waiting || e.first == Heard ==> exists i :: 0 <= i < |e.sockets| && e.sockets[i].id == FIRST)
    && (e.second == Waiting || e.second == Heard ==> exists i :: 0 <= i < |e.sockets| && e.sockets[i].id == SECOND)
  }

  predicate PairOk(p: Pair) {
    && Less(p.lowId, p.highId) && p.firstBy == Low && p.secondBy == High
    && EndOk(Low, p.highId, p.low)
    && EndOk(High, p.lowId, p.high)
  }

  /** The connection of the lower node wins on both sides, because both sides compare the same two ids. */
  lemma LowerInitiatorWins(p: Pair, side: Side, i: nat, j: nat)
    requires PairOk(p)
    requires var e := EndOf(p, side);
             && i < |e.sockets| && j < |e.sockets|
             && e.sockets[i].id == FIRST && e.sockets[j].id == SECOND
    ensures var e := EndOf(p, side);
            var me, other := IdOf(p, side), IdOf(p, Other(side));
            && (Live(e.sockets[j]) ==> ShouldReplace(me, e.sockets[j], e.sockets[i].(remoteNodeId := other)))
            && (Live(e.sockets[i]) ==> !ShouldReplace(me, e.sockets[i], e.sockets[j].(remoteNodeId := other)))
  {
    hide Less;
    LessIsTotal(p.lowId, p.highId);
    assert SocketOk(side, IdOf(p, Other(side)), EndOf(p, side), EndOf(p, side).sockets[i]);
    assert SocketOk(side, IdOf(p, Other(side)), EndOf(p, side), EndOf(p, side).sockets[j]);
  }

  /** So the second connection never wins against the first, and nothing else competes. */
  lemma JudgeOfPair(p: Pair, side: Side, i: nat)
    requires PairOk(p)
    requires i < |EndOf(p, side).sockets| && PhaseOf(EndOf(p, side), EndOf(p, side).sockets[i].id) == Waiting
    ensures var sockets := EndOf(p, side).sockets;
            match Judge(IdOf(p, side), sockets, i, IdOf(p, Other(side)))
            case Kept => forall j :: 0 <= j < |sockets| && j != i ==> !Live(sockets[j])
            case Replaced(j) =>
              sockets[i].id == FIRST && j < |sockets| && j != i && sockets[j].id == SECOND && Live(sockets[j])
            case Duplicate =>
              sockets[i].id == SECOND && exists j :: 0 <= j < |sockets| && sockets[j].id == FIRST && Live(sockets[j])
  {
    hide Less, ShouldReplace, FirstLive;
    var e, other := EndOf(p, side), IdOf(p, Other(side));
    assert SocketOk(side, other, e, e.sockets[i]);
    forall j | 0 <= j < |e.sockets| && j != i
      ensures SocketOk(side, other, e, e.sockets[j])
      ensures Live(e.sockets[j]) ==> e.sockets[j].remoteNodeId == other
    {
    }
    match FirstLive(e.sockets, i, other) {
      case None =>
      case Some(j) =>
        if e.sockets[i].id == FIRST {
          LowerInitiatorWins(p, side, i, j);
        } else {
          LowerInitiatorWins(p, side, j, i);
        }
    }
  }

  lemma HearKeepsEnd(p: Pair, side: Side, c: nat)
    requires PairOk(p) && Possible(p, Hear(side, c))
    ensures PairOk(Play(p, Hear(side, c)))
  {
    hide Less, ShouldReplace, Judge, FirstLive, Resolve, SocketOk;
    var e, other := EndOf(p, side), IdOf(p, Other(side));
    var i := Find(e.sockets, c).value;
    var after := EndOf(Play(p, Hear(side, c)), side);
    ResolveKeepsIds(IdOf(p, side), e.sockets, i, other, "peer");
    forall j | 0 <= j < |e.sockets| ensures SocketOk(side, other, after, after.sockets[j]) {
      HeardSocketOk(p, side, c, j);
    }
  }

  lemma ResolveKeepsIds(me: string, sockets: seq<Socket>, i: nat, remote: string, announced: string)
    requires i < |sockets|
    ensures var after := Resolve(me, sockets, i, remote, announced);
            |after| == |sockets| && forall j :: 0 <= j < |after| ==> after[j].id == sockets[j].id
  {
  }

  /** The connection that wins, the first one, keeps its live socket when the second one is heard, and takes over
      when it is heard itself. */
  lemma HeardSocketOk(p: Pair, side: Side, c: nat, j: nat)
    requires PairOk(p) && Possible(p, Hear(side, c)) && j < |EndOf(p, side).sockets|
    ensures var after := EndOf(Play(p, Hear(side, c)), side);
            |after.sockets| == |EndOf(p, side).sockets|
            && SocketOk(side, IdOf(p, Other(side)), after, after.sockets[j])
  {
    hide Less, Find, Terminated, Resolve;
    var e, other := EndOf(p, side), IdOf(p, Other(side));
    var i := Find(e.sockets, c).value;
    EndsAreOk(p, side);
    if j == i {
      HeardSelfOk(p, side, i);
    } else {
      HeardOtherOk(p, side, i, j);
    }
  }

  lemma EndsAreOk(p: Pair, side: Side)
    requires PairOk(p)
    ensures EndOk(side, IdOf(p, Other(side)), EndOf(p, side))
  {
    hide Less;
  }

  /** What the end looks like after hearing on socket i. */
  function AfterHearing(p: Pair, side: Side, i: nat): End
    requires i < |EndOf(p, side).sockets|
  {
    var e := EndOf(p, side);
    var c := e.sockets[i].id;
    WithPhase(e.(sockets := Resolve(IdOf(p, side), e.sockets, i, IdOf(p, Other(side)), "peer"),
                 order := e.order + [c]), c, Heard)
  }

  /** The first connection is live if its end has heard it. */
  lemma FirstIsLive(p: Pair, side: Side)
    requires PairOk(p) && EndOf(p, side).first == Heard
    ensures var sockets := EndOf(p, side).sockets;
            exists k :: 0 <= k < |sockets| && sockets[k].id == FIRST && Live(sockets[k])
  {
    hide Less;
    var e := EndOf(p, side);
    var k :| 0 <= k < |e.sockets| && e.sockets[k].id == FIRST;
    assert SocketOk(side, IdOf(p, Other(side)), e, e.sockets[k]);
  }

  lemma HeardSelfOk(p: Pair, side: Side, i: nat)
    requires PairOk(p)
    requires i < |EndOf(p, side).sockets| && PhaseOf(EndOf(p, side), EndOf(p, side).sockets[i].id) == Waiting
    ensures var after := AfterHearing(p, side, i);
            |after.sockets| == |EndOf(p, side).sockets|
            && SocketOk(side, IdOf(p, Other(side)), after, after.sockets[i])
  {
    hide Less, Judge, PairOk;
    var e, other := EndOf(p, side), IdOf(p, Other(side));
    EndsAreOk(p, side);
    JudgeOfPair(p, side, i);
    assert SocketOk(side, other, e, e.sockets[i]);
    if e.first == Heard {
      FirstIsLive(p, side);
    } else {
      NoFirstIsLive(side, other, e);
    }
  }

  lemma NoFirstIsLive(side: Side, otherId: string, e: End)
    requires EndOk(side, otherId, e) && e.first != Heard
    ensures forall k :: 0 <= k < |e.sockets| && e.sockets[k].id == FIRST ==> !Live(e.sockets[k])
  {
    forall k | 0 <= k < |e.sockets| && e.sockets[k].id == FIRST ensures !Live(e.sockets[k]) {
      assert SocketOk(side, otherId, e, e.sockets[k]);
    }
  }

  lemma HeardOtherOk(p: Pair, side: Side, i: nat, j: nat)
    requires PairOk(p) && i < |EndOf(p, side).sockets| && j < |EndOf(p, side).sockets| && j != i
    requires PhaseOf(EndOf(p, side), EndOf(p, side).sockets[i].id) == Waiting
    ensures var after := AfterHearing(p, side, i);
            |after.sockets| == |EndOf(p, side).sockets|
            && SocketOk(side, IdOf(p, Other(side)), after, after.sockets[j])
  {
    hide Less, Judge, PairOk;
    var e, other := EndOf(p, side), IdOf(p, Other(side));
    EndsAreOk(p, side);
    JudgeOfPair(p, side, i);
    assert SocketOk(side, other, e, e.sockets[i]) && SocketOk(side, other, e, e.sockets[j]);
    assert e.sockets[j].id != e.sockets[i].id;
  }

  lemma OpenKeeps(p: Pair, side: Side, c: nat)
    requires PairOk(p) && Possible(p, Open(side, c))
    ensures PairOk(Play(p, Open(side, c)))
  {
    hide Less;
    var e := EndOf(p, side);
    var other := IdOf(p, Other(side));
    var after := EndOf(Play(p, Open(side, c)), side);
    forall j | 0 <= j < |after.sockets| ensures SocketOk(side, other, after, after.sockets[j]) {
      assert j < |e.sockets| ==> SocketOk(side, other, e, e.sockets[j]);
    }
    assert after.sockets[|e.sockets|].id == c;
    assert forall j :: 0 <= j < |e.sockets| ==> after.sockets[j] == e.sockets[j];
  }

  lemma CloseKeeps(p: Pair, side: Side, c: nat)
    requires PairOk(p) && Possible(p, Close(side, c))
    ensures PairOk(Play(p, Close(side, c)))
  {
    hide Less, EndOk;
    FirstIsNeverTerminated(p, Low);
    FirstIsNeverTerminated(p, High);
    RemoveKeepsEnd(side, IdOf(p, Other(side)), EndOf(p, side), Find(EndOf(p, side).sockets, c).value);
  }

  lemma RemoveKeepsEnd(side: Side, otherId: string, e: End, i: nat)
    requires EndOk(side, otherId, e) && i < |e.sockets| && e.sockets[i].id == SECOND
    ensures EndOk(side, otherId, WithPhase(e.(sockets := e.sockets[..i] + e.sockets[i + 1..]), SECOND, Gone))
  {
    hide SocketOk;
    var rest := e.sockets[..i] + e.sockets[i + 1..];
    var after := WithPhase(e.(sockets := rest), SECOND, Gone);
    forall j | 0 <= j < |rest| ensures SocketOk(side, otherId, after, rest[j]) {
      var k := if j < i then j else j + 1;
      assert rest[j] == e.sockets[k] && e.sockets[k].id != e.sockets[i].id;
      assert SocketOk(side, otherId, e, e.sockets[k]);
      OnlySecondMoved(side, otherId, e, after, rest[j]);
    }
    if e.first != NotOpen {
      var k :| 0 <= k < |e.sockets| && e.sockets[k].id == FIRST;
      assert rest[if k < i then k else k - 1].id == FIRST;
    }
  }

  lemma OnlySecondMoved(side: Side, otherId: string, e: End, after: End, s: Socket)
    requires SocketOk(side, otherId, e, s) && s.id != SECOND && after.first == e.first
    ensures SocketOk(side, otherId, after, s)
  {
  }

  lemma FirstIsNeverTerminated(p: Pair, side: Side)
    requires PairOk(p)
    ensures !Terminated(EndOf(p, side), FIRST)
  {
    hide Less;
    var e := EndOf(p, side);
    if Find(e.sockets, FIRST).Some? {
      assert SocketOk(side, IdOf(p, Other(side)), e, e.sockets[Find(e.sockets, FIRST).value]);
    }
  }

  /** The start: the connections have been dialed, nothing has opened. */
  function Start(lowId: string, highId: string, firstBy: Side, secondBy: Side): Pair {
    Pair(lowId, highId, firstBy, secondBy, End([], NotOpen, NotOpen, []), End([], NotOpen, NotOpen, []))
  }

  predicate IsPlay(pairs: seq<Pair>, moves: seq<Move>) {
    && |pairs| == |moves| + 1
    && forall i :: 0 <= i < |moves| ==> Possible(pairs[i], moves[i]) && pairs[i + 1] == Play(pairs[i], moves[i])
  }

  lemma {:induction false} PlayKeepsPairOk(pairs: seq<Pair>, moves: seq<Move>, i: nat)
    requires IsPlay(pairs, moves) && i <= |moves|
    requires Less(pairs[0].lowId, pairs[0].highId) && pairs[0] == Start(pairs[0].lowId, pairs[0].highId, Low, High)
    ensures PairOk(pairs[i]) && pairs[i].lowId == pairs[0].lowId && pairs[i].highId == pairs[0].highId
  {
    hide Less, Possible, Play, EndOk;
    if i == 0 {
      StartOk(pairs[0].lowId, pairs[0].highId);
    } else {
      PlayKeepsPairOk(pairs, moves, i - 1);
      MoveKeeps(pairs[i - 1], moves[i - 1]);
    }
  }

  lemma StartOk(lowId: string, highId: string)
    requires Less(lowId, highId)
    ensures PairOk(Start(lowId, highId, Low, High))
  {
  }

  lemma MoveKeeps(p: Pair, m: Move)
    requires PairOk(p) && Possible(p, m)
    ensures PairOk(Play(p, m)) && Play(p, m).lowId == p.lowId && Play(p, m).highId == p.highId
  {
    hide PairOk;
    match m
    case Open(side, c) => OpenKeeps(p, side, c);
    case Hear(side, c) => HearKeepsEnd(p, side, c);
    case Close(side, c) => CloseKeeps(p, side, c);
  }

  /** Nothing more can happen. */
  ghost predicate Settled(p: Pair) {
    forall m :: !Possible(p, m)
  }

  /** Both ends agree. When two nodes have dialed each other, then however their openings, HELLOs and
      closes interleave, once nothing more can happen each of them holds exactly one socket, it is live,
      and it is the one the node with the lower id initiated. At every moment before that, neither end
      has given up that connection and neither holds two live sockets to the other. */
  lemma TwoEndsAgree(pairs: seq<Pair>, moves: seq<Move>, i: nat, side: Side)
    requires IsPlay(pairs, moves) && i <= |moves|
    requires Less(pairs[0].lowId, pairs[0].highId) && pairs[0] == Start(pairs[0].lowId, pairs[0].highId, Low, High)
    ensures !Terminated(EndOf(pairs[i], side), FIRST)
    ensures OneLivePerNode(EndOf(pairs[i], side).sockets)
    ensures Settled(pairs[i]) ==>
              var e := EndOf(pairs[i], side);
              && |e.sockets| == 1 && Live(e.sockets[0]) && e.sockets[0].id == FIRST
              && e.sockets[0].remoteNodeId == IdOf(pairs[i], Other(side))
  {
    hide Less, Play;
    var p := pairs[i];
    PlayKeepsPairOk(pairs, moves, i);
    FirstIsNeverTerminated(p, side);
    OkIsOneLive(p, side);
    if Settled(p) {
      SettledEnd(p, side);
    }
  }

  lemma OkIsOneLive(p: Pair, side: Side)
    requires PairOk(p)
    ensures OneLivePerNode(EndOf(p, side).sockets)
  {
    hide Less;
  }

  lemma SettledEnd(p: Pair, side: Side)
    requires PairOk(p) && Settled(p)
    ensures var e := EndOf(p, side);
            && |e.sockets| == 1 && Live(e.sockets[0]) && e.sockets[0].id == FIRST
            && e.sockets[0].remoteNodeId == IdOf(p, Other(side))
  {
    hide Less;
    var e, other := EndOf(p, side), IdOf(p, Other(side));
    assert !Possible(p, Open(Low, FIRST)) && !Possible(p, Open(Low, SECOND));
    assert !Possible(p, Open(High, FIRST)) && !Possible(p, Open(High, SECOND));
    assert !Possible(p, Hear(side, FIRST)) && !Possible(p, Hear(side, SECOND));
    assert !Possible(p, Close(side, SECOND));
    var k :| 0 <= k < |e.sockets| && e.sockets[k].id == FIRST;
    assert e.first == Heard;
    forall j | 0 <= j < |e.sockets| ensures e.sockets[j].id == FIRST {
      assert SocketOk(side, other, e, e.sockets[j]);
    }
    DistinctIdsOfOne(e.sockets);
    assert SocketOk(side, other, e, e.sockets[k]);
  }

  lemma DistinctIdsOfOne(sockets: seq<Socket>)
    requires |sockets| > 0
    requires forall i, j :: 0 <= i < j < |sockets| ==> sockets[i].id != sockets[j].id
    requires forall i :: 0 <= i < |sockets| ==> sockets[i].id == FIRST
    ensures |sockets| == 1
  {
    assert sockets[0].id == sockets[|sockets| - 1].id;
  }

  function Rank(phase: Phase): nat {
    match phase
    case NotOpen => 0
    case Waiting => 1
    case Heard => 2
    case Gone => 3
  }

  function Progress(p: Pair): nat {
    Rank(p.low.first) + Rank(p.low.second) + Rank(p.high.first) + Rank(p.high.second)
  }

  lemma MoveIsProgress(p: Pair, m: Move)
    requires PairOk(p) && Possible(p, m)
    ensures Progress(Play(p, m)) > Progress(p)
  {
    hide Less, Resolve, EndOk, Find, Terminated;
    match m
    case Open(_, _) =>
    case Hear(_, _) =>
    case Close(side, c) => FoundIsOpen(side, IdOf(p, Other(side)), EndOf(p, side), c);
  }

  lemma FoundIsOpen(side: Side, otherId: string, e: End, c: nat)
    requires EndOk(side, otherId, e) && Find(e.sockets, c).Some?
    ensures PhaseOf(e, c) == Waiting || PhaseOf(e, c) == Heard
  {
    hide Find;
    assert SocketOk(side, otherId, e, e.sockets[Find(e.sockets, c).value]);
  }

  /** So the pair settles: ten moves at most. */
  lemma {:induction false} PlayIsShort(pairs: seq<Pair>, moves: seq<Move>, i: nat)
    requires IsPlay(pairs, moves) && i <= |moves|
    requires Less(pairs[0].lowId, pairs[0].highId) && pairs[0] == Start(pairs[0].lowId, pairs[0].highId, Low, High)
    ensures i <= Progress(pairs[i]) <= 10
  {
    hide Less, Possible, Play, EndOk;
    PlayKeepsPairOk(pairs, moves, i);
    FirstIsNotGone(pairs[i]);
    if i > 0 {
      PlayIsShort(pairs, moves, i - 1);
      PlayKeepsPairOk(pairs, moves, i - 1);
      MoveIsProgress(pairs[i - 1], moves[i - 1]);
    }
  }

  lemma FirstIsNotGone(p: Pair)
    requires PairOk(p)
    ensures p.low.first != Gone && p.high.first != Gone
  {
  }
}
