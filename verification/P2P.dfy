/** One node's side of the mesh: the HELLO handshake with its duplicate and compatibility rules, peer
    exchange, and the dispatch of messages to the ledger. */
module P2P {
  import opened Types
  import opened Consensus
  import opened Peers
  import opened Handshake

  /** A HELLO as received; `wellFormed` is false when a field has the wrong type or range. */
  datatype Hello = Hello(
    wellFormed: bool, nodeId: string, genesisHash: Hash, slotDurationMs: int, slotWaitMs: int)

  /** Sockets and peer table, with two histories that outlive the process: the addresses this node handshook
      by its own dial or found marked as seen in its first file, and the addresses it ever told others. */
  datatype Mesh = Mesh(
    nodeId: string, sockets: seq<Socket>, peers: Table, proven: set<string>, shared: set<string>)

  const MAX_PEERS_PER_MESSAGE: nat := 50

  predicate Matches(own: Hello, h: Hello) {
    && h.genesisHash == own.genesisHash
    && h.slotDurationMs == own.slotDurationMs
    && h.slotWaitMs == own.slotWaitMs
  }

  function HelloOf(cfg: Config, nodeId: string): Hello {
    Hello(true, nodeId, Genesis(cfg).hash, cfg.slotDurationMs, cfg.slotWaitMs)
  }

  /** The HELLO check is the compatibility of the configurations: two nodes that let each other in judge
      every chain alike, and every other node is turned away. */
  lemma MatchingHelloMeansAgreement(a: Config, b: Config, idA: string, idB: string, clock: int, chain: seq<Block>)
    requires a.Valid() && b.Valid()
    ensures Matches(HelloOf(a, idA), HelloOf(b, idB)) <==> Compatible(a, b)
    ensures Matches(HelloOf(a, idA), HelloOf(b, idB)) ==> Replay(a, clock, chain) == Replay(b, clock, chain)
  {
    if Compatible(a, b) {
      CompatibleNodesAgree(a, b, clock, chain);
    }
  }

  // ------------------------------------------------------------------------
  // Steps
  // ------------------------------------------------------------------------

  datatype HelloOutcome = Ignored | Malformed | SelfDial | Incompatible | Unaddressable | BlockedAddress | Resolved

  /** `reachable` is the address derived from an inbound socket's remote IP and announced port. */
  function AddressOf(s: Socket, reachable: Option<string>): Option<string> {
    if s.dialAddress.Some? then s.dialAddress else reachable
  }

  function JudgeHello(m: Mesh, own: Hello, i: nat, h: Hello, reachable: Option<string>): HelloOutcome
    requires i < |m.sockets|
  {
    var s := m.sockets[i];
    if s.handshaken then Ignored
    else if !h.wellFormed || |h.nodeId| == 0 then Malformed
    else if h.nodeId == m.nodeId then SelfDial
    else if !Matches(own, h) then Incompatible
    else if AddressOf(s, reachable).None? then Unaddressable
    else if AddressOf(s, reachable).value in m.peers.blocked then BlockedAddress
    else Resolved
  }

  function Reject(m: Mesh, i: nat): Mesh
    requires i < |m.sockets|
  {
    m.(sockets := m.sockets[i := m.sockets[i].(expectedClose := true)])
  }

  /** The effect of a resolved HELLO on the peer table: a dialed address is verified, whether the socket
      survives or not; an inbound one becomes a candidate if the socket survives. */
  function PeersAfterHello(t: Table, s: Socket, verdict: Verdict, address: string, now: int): Table {
    if s.dialAddress.Some? then AfterSuccess(t, address, now)
    else if verdict.Duplicate? then t
    else WithCandidate(t, Some(address))
  }

  /** A HELLO that passed every check, resolved against the other sockets to the same node. */
  function Settle(m: Mesh, i: nat, remote: string, address: string, now: int): Mesh
    requires i < |m.sockets|
  {
    var s := m.sockets[i];
    var verdict := Judge(m.nodeId, m.sockets, i, remote);
    m.(sockets := Resolve(m.nodeId, m.sockets, i, remote, address),
       peers := PeersAfterHello(m.peers, s, verdict, address, now),
       proven := if s.dialAddress.Some? then m.proven + {address} else m.proven,
       shared := if s.dialAddress.Some? && !verdict.Duplicate? && FirstSuccess(m.peers, address)
                 then m.shared + {address} else m.shared)
  }

  function HandleHello(m: Mesh, own: Hello, i: nat, h: Hello, reachable: Option<string>, now: int): Mesh
    requires i < |m.sockets|
  {
    var s := m.sockets[i];
    match JudgeHello(m, own, i, h, reachable)
    case Ignored => m
    case SelfDial => Reject(m.(peers := AfterBlock(m.peers, s.dialAddress)), i)
    case Incompatible => Reject(m.(peers := AfterBlock(m.peers, s.dialAddress)), i)
    case Resolved => Settle(m, i, h.nodeId, AddressOf(s, reachable).value, now)
    case _ => Reject(m, i)
  }

  /** When a handshake completes, told from the fields: the HELLO is well formed, comes from another node of the
      same network, the peer's address is known and not blocked, and on every live socket to the same node the
      initiator does not come before this one's. A socket whose HELLO does not complete it is closed. */
  lemma CompletesIff(m: Mesh, own: Hello, i: nat, h: Hello, reachable: Option<string>, now: int)
    requires i < |m.sockets| && !m.sockets[i].handshaken && OneLivePerNode(m.sockets)
    ensures HandleHello(m, own, i, h, reachable, now).sockets[i].handshaken <==>
      var s := m.sockets[i];
      var initiator := if s.dialAddress.Some? then m.nodeId else h.nodeId;
      && h.wellFormed && |h.nodeId| > 0 && h.nodeId != m.nodeId
      && h.genesisHash == own.genesisHash
      && h.slotDurationMs == own.slotDurationMs && h.slotWaitMs == own.slotWaitMs
      && (s.dialAddress.Some? || reachable.Some?)
      && (if s.dialAddress.Some? then s.dialAddress.value else reachable.value) !in m.peers.blocked
      && forall j :: 0 <= j < |m.sockets| && Live(m.sockets[j]) && m.sockets[j].remoteNodeId == h.nodeId ==>
           var other := if m.sockets[j].dialAddress.Some? then m.nodeId else h.nodeId;
           initiator == other || Less(initiator, other)
    ensures var s := HandleHello(m, own, i, h, reachable, now).sockets[i];
            s.handshaken || s.expectedClose
  {
    hide AfterBlock, AfterSuccess, WithCandidate, FirstSuccess, Less;
    var r := FirstLive(m.sockets, i, h.nodeId);
    if r.Some? {
      assert Live(m.sockets[r.value]) && m.sockets[r.value].remoteNodeId == h.nodeId;
    }
  }

  function SocketClosed(m: Mesh, i: nat): Mesh
    requires i < |m.sockets|
  {
    m.(sockets := m.sockets[..i] + m.sockets[i + 1..])
  }

  /** What may be told to the peer on socket i: verified addresses other than its own. */
  function Tellable(m: Mesh, i: nat): set<string>
    requires i < |m.sockets|
  {
    set a | a in Verified(m.peers) && m.sockets[i].announced != Some(a)
  }

  /** An answer to GET_PEERS: tellable addresses, each once, as many as there are up to the limit. */
  predicate IsPeersAnswer(m: Mesh, i: nat, addresses: seq<string>)
    requires i < |m.sockets|
  {
    && (forall a :: a in addresses ==> a in Tellable(m, i))
    && (forall j, k :: 0 <= j < k < |addresses| ==> addresses[j] != addresses[k])
    && |addresses| == if |Tellable(m, i)| < MAX_PEERS_PER_MESSAGE then |Tellable(m, i)| else MAX_PEERS_PER_MESSAGE
  }

  lemma {:induction false} DistinctSize(list: seq<string>)
    requires forall j, k :: 0 <= j < k < |list| ==> list[j] != list[k]
    ensures |set a | a in list| == |list|
  {
    if |list| > 0 {
      var n := |list| - 1;
      DistinctSize(list[..n]);
      assert forall a :: a in list <==> a in list[..n] || a == list[n];
      assert (set a | a in list) == (set a | a in list[..n]) + {list[n]};
    } else {
      assert (set a | a in list) == {};
    }
  }

  /** What a peer is told: only addresses that answered this node, do not fail at present and are not the
      peer's own, at most fifty of them; and if they are fewer than fifty, all of these. */
  lemma AnswerTells(m: Mesh, i: nat, addresses: seq<string>, a: string)
    requires i < |m.sockets| && IsPeersAnswer(m, i, addresses)
    ensures |addresses| <= 50
    ensures var fit := a in m.peers.entries && m.peers.entries[a].lastSeen > 0 && m.peers.entries[a].failures == 0
                       && m.sockets[i].announced != Some(a);
            (a in addresses ==> fit) && (|addresses| < 50 && fit ==> a in addresses)
  {
    if |addresses| < 50 && a in Tellable(m, i) && a !in addresses {
      DistinctSize(addresses);
      SubsetIsSmaller((set b | b in addresses) + {a}, Tellable(m, i));
    }
  }

  function Gossiped(t: Table, addresses: seq<Option<string>>): Table {
    if |addresses| == 0 then t
    else WithCandidate(Gossiped(t, addresses[..|addresses| - 1]), addresses[|addresses| - 1])
  }

  function FirstOf<T>(s: seq<T>): seq<T> {
    if |s| <= MAX_PEERS_PER_MESSAGE then s else s[..MAX_PEERS_PER_MESSAGE]
  }

  datatype Event =
    | HelloArrives(i: nat, h: Hello, reachable: Option<string>, now: int)
    | AnswerPeers(i: nat, addresses: seq<string>)
    | PeersArrive(candidates: seq<Option<string>>)
    | DialFails(address: string)
    | SocketOpens(id: nat, dialAddress: Option<string>)
    | SocketCloses(i: nat)
    | Restarts(nodeId: string, bootnodes: seq<Option<string>>, file: seq<Record>, self: Option<string>)

  predicate Enabled(m: Mesh, e: Event) {
    match e
    case HelloArrives(i, _, _, _) => i < |m.sockets|
    case AnswerPeers(i, addresses) => i < |m.sockets| && IsPeersAnswer(m, i, addresses)
    case SocketCloses(i) => i < |m.sockets|
    case Restarts(_, _, file, _) => forall r :: r in file ==> r in m.peers.saved
    case _ => true
  }

  /** A new process: bootnodes, then the peers file, then the node's own address blocked. */
  function FreshTable(bootnodes: seq<Option<string>>, file: seq<Record>, self: Option<string>,
                      maxFailures: int, maxSize: int): Table
  {
    AfterBlock(FromFile(bootnodes, file, maxFailures, maxSize), self)
  }

  function Next(m: Mesh, own: Hello, e: Event): Mesh
    requires Enabled(m, e)
  {
    match e
    case HelloArrives(i, h, reachable, now) => HandleHello(m, own, i, h, reachable, now)
    case AnswerPeers(_, addresses) => m.(shared := m.shared + set a | a in addresses)
    case PeersArrive(candidates) => m.(peers := Gossiped(m.peers, FirstOf(candidates)))
    case DialFails(a) => m.(peers := AfterFailure(m.peers, a))
    case SocketOpens(id, dial) => m.(sockets := m.sockets + [Opened(id, dial)])
    case SocketCloses(i) => SocketClosed(m, i)
    case Restarts(nodeId, bootnodes, file, self) =>
      m.(nodeId := nodeId, sockets := [],
         peers := FreshTable(bootnodes, file, self, m.peers.maxFailures, m.peers.maxSize))
  }

  // ------------------------------------------------------------------------
  // Peer safety
  // ------------------------------------------------------------------------

  /** The table invariant, one live socket per remote node, and neither the table nor its file nor anything
      told to others goes beyond what this node verified itself. */
  predicate MeshInv(m: Mesh) {
    && TableInv(m.peers) && m.peers.maxFailures >= 1
    && OneLivePerNode(m.sockets)
    && Credited(m.peers) <= m.proven
    && m.shared <= m.proven
  }

  /** What a step within one process never undoes. */
  predicate Extends(m: Mesh, n: Mesh) {
    n.peers.blocked >= m.peers.blocked && n.proven >= m.proven && n.shared >= m.shared
    && n.peers.maxFailures == m.peers.maxFailures && n.peers.maxSize == m.peers.maxSize
    && n.peers.bootnodes == m.peers.bootnodes
  }

  lemma {:induction false} GossipedKeeps(t: Table, addresses: seq<Option<string>>)
    requires TableInv(t) && t.maxFailures >= 1
    ensures var g := Gossiped(t, addresses);
            && TableInv(g) && Verified(g) == Verified(t) && Credited(g) <= Credited(t)
            && g.(entries := map[], saved := {}) == t.(entries := map[], saved := {})
  {
    hide TableInv, Credited, Verified;
    if |addresses| > 0 {
      GossipedKeeps(t, addresses[..|addresses| - 1]);
      CandidateKeeps(Gossiped(t, addresses[..|addresses| - 1]), addresses[|addresses| - 1]);
    }
  }

  lemma RejectKeeps(m: Mesh, i: nat)
    requires MeshInv(m) && i < |m.sockets|
    ensures MeshInv(Reject(m, i)) && Extends(m, Reject(m, i))
  {
    hide TableInv, Credited;
  }

  lemma BlockDialedKeeps(m: Mesh, address: Option<string>)
    requires MeshInv(m)
    ensures var n := m.(peers := AfterBlock(m.peers, address));
            MeshInv(n) && Extends(m, n)
  {
    hide TableInv, Credited, OneLivePerNode;
    BlockKeeps(m.peers, address);
  }

  lemma ResolvedKeeps(m: Mesh, own: Hello, i: nat, h: Hello, reachable: Option<string>, now: int)
    requires MeshInv(m) && i < |m.sockets| && JudgeHello(m, own, i, h, reachable) == Resolved
    ensures MeshInv(HandleHello(m, own, i, h, reachable, now))
    ensures Extends(m, HandleHello(m, own, i, h, reachable, now))
  {
    hide TableInv, Resolve, Judge, Matches, OneLivePerNode, Credited, Verified;
    var address := AddressOf(m.sockets[i], reachable).value;
    ResolveKeepsOneLive(m.nodeId, m.sockets, i, h.nodeId, address);
    SuccessKeeps(m.peers, address, now);
    CandidateKeeps(m.peers, Some(address));
  }

  lemma HelloKeeps(m: Mesh, own: Hello, i: nat, h: Hello, reachable: Option<string>, now: int)
    requires MeshInv(m) && i < |m.sockets|
    ensures MeshInv(HandleHello(m, own, i, h, reachable, now))
    ensures Extends(m, HandleHello(m, own, i, h, reachable, now))
  {
    hide MeshInv, Reject, AfterBlock;
    var blocked := m.(peers := AfterBlock(m.peers, m.sockets[i].dialAddress));
    BlockDialedKeeps(m, m.sockets[i].dialAddress);
    RejectKeeps(m, i);
    RejectKeeps(blocked, i);
    if JudgeHello(m, own, i, h, reachable) == Resolved {
      ResolvedKeeps(m, own, i, h, reachable, now);
    }
  }

  lemma NextKeeps(m: Mesh, own: Hello, e: Event)
    requires MeshInv(m) && Enabled(m, e)
    ensures MeshInv(Next(m, own, e))
    ensures !e.Restarts? ==> Extends(m, Next(m, own, e))
  {
    hide TableInv, HandleHello, OneLivePerNode, Gossiped, Credited, Verified, FreshTable;
    match e
    case HelloArrives(i, h, reachable, now) => HelloKeeps(m, own, i, h, reachable, now);
    case AnswerPeers(_, _) => VerifiedIsCredited(m.peers);
    case PeersArrive(candidates) => GossipedKeeps(m.peers, FirstOf(candidates));
    case DialFails(a) => FailureKeeps(m.peers, a);
    case SocketOpens(id, dial) => OpeningKeepsOneLive(m.sockets, id, dial);
    case SocketCloses(i) => RemovalKeepsOneLive(m.sockets, i);
    case Restarts(_, _, _, _) => RestartKeeps(m, own, e);
  }

  lemma OpeningKeepsOneLive(sockets: seq<Socket>, id: nat, dial: Option<string>)
    requires OneLivePerNode(sockets)
    ensures OneLivePerNode(sockets + [Opened(id, dial)])
  {
  }

  lemma FreshTableIsSafe(bootnodes: seq<Option<string>>, file: seq<Record>, self: Option<string>,
                         maxFailures: int, maxSize: int)
    requires maxFailures >= 1
    ensures var t := FreshTable(bootnodes, file, self, maxFailures, maxSize);
            && TableInv(t) && Credited(t) <= SeenIn(set r | r in file)
            && t.bootnodes == Addresses(bootnodes) && t.blocked == Addresses([self])
            && t.maxFailures == maxFailures && t.maxSize == maxSize
  {
    hide TableInv, Credited, SeenIn, FromFile;
    FromFileEstablishes(bootnodes, file, maxFailures, maxSize);
    BlockKeeps(FromFile(bootnodes, file, maxFailures, maxSize), self);
  }

  /** A process that reads back what the one before it saved credits nothing that one did not. */
  lemma RestartKeeps(m: Mesh, own: Hello, e: Event)
    requires MeshInv(m) && Enabled(m, e) && e.Restarts?
    ensures MeshInv(Next(m, own, e))
  {
    hide TableInv, FreshTable;
    FreshTableIsSafe(e.bootnodes, e.file, e.self, m.peers.maxFailures, m.peers.maxSize);
    assert SeenIn(set r | r in e.file) <= SeenIn(m.peers.saved);
  }

  /** The first start of a node. Of the file, only the records that say "seen" are credited. */
  function Start(nodeId: string, bootnodes: seq<Option<string>>, file: seq<Record>, self: Option<string>,
                 maxFailures: int, maxSize: int): Mesh
  {
    Mesh(nodeId, [], FreshTable(bootnodes, file, self, maxFailures, maxSize), SeenIn(set r | r in file), {})
  }

  predicate IsRun(meshes: seq<Mesh>, own: Hello, events: seq<Event>) {
    && |meshes| == |events| + 1
    && forall i :: 0 <= i < |events| ==>
         Enabled(meshes[i], events[i]) && meshes[i + 1] == Next(meshes[i], own, events[i])
  }

  predicate OneProcess(events: seq<Event>, i: nat, j: nat) {
    forall k :: 0 <= k < |events| && i <= k < j ==> !events[k].Restarts?
  }

  lemma StartIsSafe(nodeId: string, bootnodes: seq<Option<string>>, file: seq<Record>, self: Option<string>,
                    maxFailures: int, maxSize: int)
    requires maxFailures >= 1
    ensures MeshInv(Start(nodeId, bootnodes, file, self, maxFailures, maxSize))
  {
    hide TableInv, FreshTable, Credited, SeenIn;
    FreshTableIsSafe(bootnodes, file, self, maxFailures, maxSize);
  }

  lemma {:induction false} RunKeepsMeshInv(meshes: seq<Mesh>, own: Hello, events: seq<Event>, j: nat)
    requires IsRun(meshes, own, events) && MeshInv(meshes[0]) && j <= |events|
    ensures MeshInv(meshes[j])
  {
    hide Next, Enabled, MeshInv;
    if j > 0 {
      RunKeepsMeshInv(meshes, own, events, j - 1);
      NextKeeps(meshes[j - 1], own, events[j - 1]);
    }
  }

  /** Peer safety over runs. Within one process: a blocked address is not in the table and never comes back,
      the table stays within its limit, a non-bootnode entry is below the failure limit, and there is at
      most one live socket per remote node. */
  lemma {:induction false} PeerSafety(meshes: seq<Mesh>, own: Hello, events: seq<Event>, i: nat, j: nat)
    requires IsRun(meshes, own, events) && MeshInv(meshes[0]) && i <= j <= |events| && OneProcess(events, i, j)
    ensures MeshInv(meshes[j]) && Extends(meshes[i], meshes[j])
    ensures meshes[i].peers.blocked !! meshes[j].peers.entries.Keys
    ensures |meshes[j].peers.entries| <= SizeLimit(meshes[j].peers)
    decreases j
  {
    hide Next, Enabled, OneLivePerNode, Credited, SizeLimit;
    RunKeepsMeshInv(meshes, own, events, j);
    TableIsBounded(meshes[j].peers);
    if i < j {
      PeerSafety(meshes, own, events, i, j - 1);
      NextKeeps(meshes[j - 1], own, events[j - 1]);
    }
  }

  /** A HELLO by which this node verified `a`: it came on a socket this node dialed to `a`, and passed every
      check. */
  predicate Verifies(m: Mesh, own: Hello, e: Event, a: string) {
    && e.HelloArrives? && e.i < |m.sockets|
    && m.sockets[e.i].dialAddress == Some(a)
    && JudgeHello(m, own, e.i, e.h, e.reachable) == Resolved
  }

  lemma ProofIsEarned(m: Mesh, own: Hello, e: Event, a: string)
    requires Enabled(m, e)
    ensures a in Next(m, own, e).proven <==> a in m.proven || Verifies(m, own, e, a)
  {
    hide Judge, Matches, Resolve, FreshTable, Gossiped;
  }

  /** Whatever a node told others, over any run and any number of restarts from its own file: each address was
      verified by an earlier HELLO on this node's own dial, or stood as seen in the file of its first
      start. An address only heard of, saved and read back is never told. */
  lemma {:induction false} ToldWasVerified(
      meshes: seq<Mesh>, own: Hello, events: seq<Event>, j: nat, a: string,
      nodeId: string, bootnodes: seq<Option<string>>, file: seq<Record>, self: Option<string>,
      maxFailures: int, maxSize: int)
    requires IsRun(meshes, own, events) && j <= |events| && maxFailures >= 1
    requires meshes[0] == Start(nodeId, bootnodes, file, self, maxFailures, maxSize)
    requires a in meshes[j].shared || a in Verified(meshes[j].peers)
    ensures || (exists r :: r in file && r.0 == Some(a) && r.1 > 0)
            || (exists k :: 0 <= k < j && Verifies(meshes[k], own, events[k], a))
  {
    hide FreshTable, Next, Enabled, Verifies, JudgeHello, Verified;
    StartIsSafe(nodeId, bootnodes, file, self, maxFailures, maxSize);
    RunKeepsMeshInv(meshes, own, events, j);
    VerifiedIsCredited(meshes[j].peers);
    ProvenWasVerified(meshes, own, events, j, a);
  }

  lemma {:induction false} ProvenWasVerified(
      meshes: seq<Mesh>, own: Hello, events: seq<Event>, j: nat, a: string)
    requires IsRun(meshes, own, events) && j <= |events| && a in meshes[j].proven
    ensures a in meshes[0].proven || exists k :: 0 <= k < j && Verifies(meshes[k], own, events[k], a)
  {
    hide Next, Enabled, Verifies;
    if j > 0 {
      ProofIsEarned(meshes[j - 1], own, events[j - 1], a);
      if a in meshes[j - 1].proven {
        ProvenWasVerified(meshes, own, events, j - 1, a);
      }
    }
  }

  // ------------------------------------------------------------------------
  // The size cap
  // ------------------------------------------------------------------------

  /** The documented cap is exceeded: two bootnodes and a cap of one start with two entries, and with one of
      them being the node's own address, with one. */
  lemma BootnodesExceedTheCap(nodeId: string, maxFailures: int)
    requires maxFailures >= 1
    ensures |Start(nodeId, [Some("a"), Some("b")], [], None, maxFailures, 1).peers.entries| == 2
    ensures |Start(nodeId, [Some("a"), Some("b")], [], Some("a"), maxFailures, 1).peers.entries| == 1
  {
    hide TableInv, Addresses, Start;
    var list := [Some("a"), Some("b")];
    OneAddress(Some("a"));
    OneAddress(None);
    assert list == [Some("a")] + [Some("b")];
    AddressesSnoc([Some("a")], Some("b"));
    StartKeys(nodeId, list, [], None, maxFailures, 1);
    StartKeys(nodeId, list, [], Some("a"), maxFailures, 1);
    assert {"a", "b"} - {} == {"a", "b"} && {"a", "b"} - {"a"} == {"b"};
    KeysSize(Start(nodeId, list, [], None, maxFailures, 1).peers.entries);
    KeysSize(Start(nodeId, list, [], Some("a"), maxFailures, 1).peers.entries);
  }

  lemma OneAddress(a: Option<string>)
    ensures Addresses([a]) == if a.Some? then {a.value} else {}
  {
    assert a in [a];
  }

  /** Bootnodes that fill the table are, but for the node's own address, what it starts with. */
  lemma StartKeys(nodeId: string, bootnodes: seq<Option<string>>, file: seq<Record>, self: Option<string>,
                  maxFailures: int, maxSize: int)
    requires maxFailures >= 1 && |Addresses(bootnodes)| >= maxSize
    ensures Start(nodeId, bootnodes, file, self, maxFailures, maxSize).peers.entries.Keys
         == Addresses(bootnodes) - Addresses([self])
  {
    hide TableInv, Credited, SeenIn, FromFile, Addresses;
    FromFileEstablishes(bootnodes, file, maxFailures, maxSize);
    OneAddress(self);
  }

  /** Exactly when: over any run of one process, some table exceeds the cap if and only if more bootnodes
      than the cap are left after the node's own address. */
  lemma TableExceedsCapIff(
      meshes: seq<Mesh>, own: Hello, events: seq<Event>,
      nodeId: string, bootnodes: seq<Option<string>>, file: seq<Record>, self: Option<string>,
      maxFailures: int, maxSize: int)
    requires IsRun(meshes, own, events) && OneProcess(events, 0, |events|) && maxFailures >= 1
    requires meshes[0] == Start(nodeId, bootnodes, file, self, maxFailures, maxSize)
    ensures (exists j :: 0 <= j <= |events| && |meshes[j].peers.entries| > maxSize)
       <==> |Addresses(bootnodes) - Addresses([self])| > maxSize
  {
    hide Next, Enabled, FreshTable, MeshInv, Addresses;
    StartIsSafe(nodeId, bootnodes, file, self, maxFailures, maxSize);
    FreshTableIsSafe(bootnodes, file, self, maxFailures, maxSize);
    var left := Addresses(bootnodes) - Addresses([self]);
    if j :| 0 <= j <= |events| && |meshes[j].peers.entries| > maxSize {
      PeerSafety(meshes, own, events, 0, j);
      SubsetIsSmaller(UsableBootnodes(meshes[j].peers), left);
    }
    if |left| > maxSize {
      SubsetIsSmaller(left, Addresses(bootnodes));
      StartKeys(nodeId, bootnodes, file, self, maxFailures, maxSize);
      KeysSize(meshes[0].peers.entries);
    }
  }
}
