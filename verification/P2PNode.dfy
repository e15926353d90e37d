/** The running peer-to-peer node: one blockchain, one peer table, the open sockets and what was sent,
    updated in place by the message handlers. */
module PeerToPeer {
  import opened Types
  import Blocks
  import opened Consensus
  import opened Peers
  import opened Handshake
  import opened P2P
  import Dialing
  import opened Gossip
  import opened Ledger
  import opened Chain
  import Mempool

  datatype Message =
    | Greeting(hello: Hello)
    | GetPeers
    | PeerList(addresses: seq<string>)
    | Sync(body: Body)
    | NewTransaction(tx: Transaction)

  /** A sync message as received: blocks may turn out not to be blocks. */
  datatype Received = BlockReceived(raw: RawBlock) | ChainRequested | ChainReceived(list: seq<RawBlock>)

  /** The message it is, if what it carries are blocks. */
  function AsBody(m: Received): Option<Body> {
    match m
    case BlockReceived(raw) => if raw.Plain? then Some(NewBlock(raw.block)) else None
    case ChainRequested => Some(ChainRequest(0))
    case ChainReceived(list) =>
      (match Blocks.Parsed(list)
       case Some(chain) => Some(ChainResponse(chain, 0))
       case None => None)
  }

  /** Reading a null block throws. */
  predicate Throws(m: Received) {
    m.BlockReceived? && m.raw.Null?
  }

  function SyncedTo(n: Node, m: Received, clock: int, now: int): Node
    requires n.cfg.Valid() && |n.chain| > 0
  {
    match AsBody(m)
    case Some(body) => HandleState(n, body, clock, now)
    case None => n
  }

  /** A value that is not a block is refused like a block that does not fit, by asking for the chain; a list
      that holds one is ignored. */
  function ReplyTo(n: Node, m: Received, clock: int): Reply
    requires n.cfg.Valid() && |n.chain| > 0
  {
    match AsBody(m)
    case Some(body) => HandleReply(n, body, clock)
    case None => if m.BlockReceived? && !Throws(m) then Answer(ChainRequest(0)) else Silent
  }

  /** A message as received. `reachable` is the address derived from an inbound socket and the announced
      port; a gossiped address that does not normalise is None. */
  datatype Incoming =
    | Greets(h: Hello, reachable: Option<string>)
    | AsksPeers
    | TellsPeers(candidates: seq<Option<string>>)
    | Syncs(sync: Received)
    | Pays(tx: Transaction)

  /** What a message on a handshaken socket does to the ledger. */
  function LedgerAfter(n: Node, m: Incoming, clock: int, now: int): Node
    requires n.cfg.Valid() && |n.chain| > 0
  {
    match m
    case Syncs(sync) => SyncedTo(n, sync, clock, now)
    case Pays(tx) => Ledger.AddTransaction(n, tx, now)
    case _ => n
  }

  /** A message put on a socket. */
  datatype Sent = Sent(socket: nat, message: Message)

  /** A broadcast reaches every usable socket but the one at `except`. */
  function ToOthers(sockets: seq<Socket>, except: nat, message: Message): seq<Sent> {
    if |sockets| == 0 then []
    else
      var n := |sockets| - 1;
      ToOthers(sockets[..n], except, message)
      + (if n != except && Live(sockets[n]) then [Sent(sockets[n].id, message)] else [])
  }

  /** The sends of a reply to a message that came in on socket i. */
  function Sends(sockets: seq<Socket>, i: nat, reply: Reply): seq<Sent>
    requires i < |sockets|
  {
    match reply
    case Silent => []
    case Answer(body) => [Sent(sockets[i].id, Sync(body))]
    case Broadcast(body) => ToOthers(sockets, i, Sync(body))
  }

  /** What goes out once a HELLO from `remote` on socket i is resolved: nothing if the socket is a
      duplicate; otherwise the first requests, after the news of a newly verified address. */
  function Welcome(m: Mesh, sockets: seq<Socket>, i: nat, remote: string, address: string): seq<Sent>
    requires i < |m.sockets|
  {
    if Judge(m.nodeId, m.sockets, i, remote).Duplicate? then []
    else
      (if m.sockets[i].dialAddress.Some? && FirstSuccess(m.peers, address)
       then ToOthers(sockets, i, PeerList([address])) else [])
      + [Sent(m.sockets[i].id, Sync(ChainRequest(0))), Sent(m.sockets[i].id, GetPeers)]
  }

  /** The messages put on one socket, in order. */
  function SentOn(out: seq<Sent>, socket: nat): seq<Message> {
    if |out| == 0 then []
    else
      var last := out[|out| - 1];
      SentOn(out[..|out| - 1], socket) + (if last.socket == socket then [last.message] else [])
  }

  predicate DistinctIds(sockets: seq<Socket>) {
    forall i, j :: 0 <= i < j < |sockets| ==> sockets[i].id != sockets[j].id
  }

  lemma SentOnSnoc(out: seq<Sent>, s: Sent, socket: nat)
    ensures SentOn(out + [s], socket) == SentOn(out, socket) + (if s.socket == socket then [s.message] else [])
  {
    assert (out + [s])[..|out|] == out;
  }

  lemma SentOnOne(s: Sent, socket: nat)
    ensures SentOn([s], socket) == if s.socket == socket then [s.message] else []
  {
    assert [] + [s] == [s];
    SentOnSnoc([], s, socket);
  }

  lemma {:induction false} NothingOn(sockets: seq<Socket>, except: nat, message: Message, id: nat)
    requires forall k :: 0 <= k < |sockets| ==> sockets[k].id != id
    ensures SentOn(ToOthers(sockets, except, message), id) == []
  {
    if |sockets| > 0 {
      var n := |sockets| - 1;
      var sent := ToOthers(sockets[..n], except, message);
      NothingOn(sockets[..n], except, message, id);
      SentOnSnoc(sent, Sent(sockets[n].id, message), id);
      assert sent + [] == sent;
    }
  }

  /** A broadcast puts the message once on every usable socket but the one it excepts, and nothing on any other. */
  lemma {:induction false} BroadcastOn(sockets: seq<Socket>, except: nat, message: Message, k: nat)
    requires DistinctIds(sockets) && k < |sockets|
    ensures SentOn(ToOthers(sockets, except, message), sockets[k].id)
         == if k != except && sockets[k].handshaken && !sockets[k].expectedClose then [message] else []
  {
    hide SentOn;
    var n := |sockets| - 1;
    var sent := ToOthers(sockets[..n], except, message);
    SentOnSnoc(sent, Sent(sockets[n].id, message), sockets[k].id);
    assert sent + [] == sent;
    if k < n {
      BroadcastOn(sockets[..n], except, message, k);
    } else {
      NothingOn(sockets[..n], except, message, sockets[k].id);
    }
  }

  /** What a sync message makes a node send, socket by socket. NEW_BLOCK that makes the chain longer goes out once
      on every usable socket but the one it came from. One that does not is silently dropped if its index is
      not beyond the tip, and answered with a request otherwise. A request is answered with the chain, a
      response with nothing. */
  lemma SyncSends(n: Node, sockets: seq<Socket>, i: nat, m: Received, clock: int, now: int, k: nat)
    requires n.cfg.Valid() && |n.chain| > 0 && DistinctIds(sockets) && i < |sockets| && k < |sockets|
    ensures var on := SentOn(Sends(sockets, i, ReplyTo(n, m, clock)), sockets[k].id);
            match m
            case BlockReceived(raw) =>
              if |SyncedTo(n, m, clock, now).chain| > |n.chain| then
                && raw.Plain?
                && on == (if k != i && sockets[k].handshaken && !sockets[k].expectedClose
                          then [Sync(NewBlock(raw.block))] else [])
              else if k == i && (raw.Fieldless? || (raw.Plain? && raw.block.data.index > Tip(n).data.index)) then
                |on| == 1 && on[0].Sync? && on[0].body.ChainRequest?
              else on == []
            case ChainRequested => on == (if k == i then [Sync(ChainResponse(n.chain, 0))] else [])
            case ChainReceived(_) => on == []
  {
    hide SentOn, ToOthers, IsValidNewBlock, ApplyBlockTransactions, Mempool.Prune, Blocks.Parsed;
    NothingSentOn(sockets[k].id);
    match ReplyTo(n, m, clock)
    case Silent =>
    case Answer(body) => SentOnOne(Sent(sockets[i].id, Sync(body)), sockets[k].id);
    case Broadcast(body) => BroadcastOn(sockets, i, Sync(body), k);
  }

  /** What a HELLO makes a node send, socket by socket. If it completes the handshake of socket i, that socket gets
      the two first requests, and if the node dialed it and had never verified its address, every other usable
      socket gets the news; otherwise nothing goes out. */
  lemma WelcomeOn(m: Mesh, i: nat, remote: string, address: string, k: nat)
    requires i < |m.sockets| && k < |m.sockets| && DistinctIds(m.sockets) && !m.sockets[i].handshaken
    ensures var after := Resolve(m.nodeId, m.sockets, i, remote, address);
            SentOn(Welcome(m, after, i, remote, address), m.sockets[k].id)
            == if !after[i].handshaken then []
               else if k == i then [Sync(ChainRequest(0)), GetPeers]
               else if m.sockets[i].dialAddress.Some? && address in m.peers.entries
                       && m.peers.entries[address].lastSeen == 0
                       && after[k].handshaken && !after[k].expectedClose
               then [PeerList([address])] else []
  {
    hide SentOn, ToOthers, FirstLive, ShouldReplace;
    var s, after := m.sockets[i], Resolve(m.nodeId, m.sockets, i, remote, address);
    var id := m.sockets[k].id;
    var first, second := Sent(s.id, Sync(ChainRequest(0))), Sent(s.id, GetPeers);
    NothingSentOn(id);
    assert after[k].id == id && DistinctIds(after) by { ResolveKeepsIds(m.nodeId, m.sockets, i, remote, address); }
    BroadcastOn(after, i, PeerList([address]), k);
    var news := if s.dialAddress.Some? && FirstSuccess(m.peers, address)
                then ToOthers(after, i, PeerList([address])) else [];
    SentOnSnoc(news, first, id);
    SentOnSnoc(news + [first], second, id);
    assert news + [first] + [second] == news + [first, second];
  }

  /** The same for any HELLO, all sockets at once. */
  lemma HelloSends(d: Dialing.Dialer, own: Hello, i: nat, h: Hello, reachable: Option<string>,
                   broken: set<string>, now: int)
    requires i < |d.mesh.sockets|
    ensures var m, after := d.mesh, Dialing.HeardAndMaintained(d, own, i, h, reachable, broken, now).mesh.sockets;
            var out := if JudgeHello(m, own, i, h, reachable) == Resolved
                       then Welcome(m, after, i, h.nodeId, AddressOf(m.sockets[i], reachable).value) else [];
            && |after| == |m.sockets|
            && (DistinctIds(m.sockets) ==> forall k :: 0 <= k < |m.sockets| ==>
                  SentOn(out, m.sockets[k].id)
                  == if m.sockets[i].handshaken || !after[i].handshaken then []
                     else if k == i then [Sync(ChainRequest(0)), GetPeers]
                     else if m.sockets[i].dialAddress.Some? && m.sockets[i].dialAddress.value in m.peers.entries
                             && m.peers.entries[m.sockets[i].dialAddress.value].lastSeen == 0
                             && after[k].handshaken && !after[k].expectedClose
                     then [PeerList([m.sockets[i].dialAddress.value])] else [])
  {
    hide SentOn, Welcome, Resolve, DistinctIds, Dialing.HeardAndMaintained, AfterBlock, Matches, Judge;
    var m := d.mesh;
    Dialing.HeardSockets(d, own, i, h, reachable, broken, now);
    if JudgeHello(m, own, i, h, reachable) == Resolved {
      var address := AddressOf(m.sockets[i], reachable).value;
      ResolveKeepsIds(m.nodeId, m.sockets, i, h.nodeId, address);
      forall k | 0 <= k < |m.sockets| && DistinctIds(m.sockets) {
        WelcomeOn(m, i, h.nodeId, address, k);
      }
    } else {
      forall k | 0 <= k < |m.sockets| {
        NothingSentOn(m.sockets[k].id);
      }
    }
  }

  /** The relay of NEW_BLOCK, for all sockets at once. */
  lemma SyncRelays(n: Node, sockets: seq<Socket>, i: nat, m: Received, clock: int, now: int)
    requires n.cfg.Valid() && |n.chain| > 0 && i < |sockets|
    ensures DistinctIds(sockets) && m.BlockReceived? && |SyncedTo(n, m, clock, now).chain| > |n.chain| ==>
              m.raw.Plain? && forall k :: 0 <= k < |sockets| ==>
                SentOn(Sends(sockets, i, ReplyTo(n, m, clock)), sockets[k].id)
                == if k != i && sockets[k].handshaken && !sockets[k].expectedClose
                   then [Sync(NewBlock(m.raw.block))] else []
  {
    hide SentOn, Sends, SyncedTo, ReplyTo;
    if DistinctIds(sockets) && m.BlockReceived? && |SyncedTo(n, m, clock, now).chain| > |n.chain| {
      SyncSends(n, sockets, i, m, clock, now, i);
      forall k | 0 <= k < |sockets|
        ensures SentOn(Sends(sockets, i, ReplyTo(n, m, clock)), sockets[k].id)
             == if k != i && sockets[k].handshaken && !sockets[k].expectedClose
                then [Sync(NewBlock(m.raw.block))] else []
      {
        SyncSends(n, sockets, i, m, clock, now, k);
      }
    }
  }

  lemma BroadcastOnAll(sockets: seq<Socket>, except: nat, message: Message)
    ensures forall id :: SentOn([], id) == []
    ensures DistinctIds(sockets) ==> forall k :: 0 <= k < |sockets| ==>
              SentOn(ToOthers(sockets, except, message), sockets[k].id)
              == if k != except && sockets[k].handshaken && !sockets[k].expectedClose then [message] else []
  {
    if DistinctIds(sockets) {
      forall k | 0 <= k < |sockets| {
        BroadcastOn(sockets, except, message, k);
      }
    }
  }

  lemma NothingSentOn(id: nat)
    ensures SentOn([], id) == []
  {
  }

  class P2PNode {
    const nodeId: string
    const bc: Blockchain
    const table: PeerTable
    var sockets: seq<Socket>
    var dialing: set<string>
    var nextAttempt: map<string, int>
    ghost var connecting: multiset<string>
    var outbox: seq<Sent>
    ghost var proven: set<string>
    ghost var shared: set<string>

    ghost predicate Valid()
      reads this, bc
    {
      bc.Valid()
    }

    ghost function View(): Mesh
      reads this, table
    {
      Mesh(nodeId, sockets, table.View(), proven, shared)
    }

    ghost function DialView(): Dialing.Dialer
      reads this, table
    {
      Dialing.Dialer(View(), dialing, nextAttempt, connecting)
    }

    /** What the table or its file calls seen is what this node has verified so far. */
    constructor (nodeId: string, bc: Blockchain, table: PeerTable, self: Option<string>)
      requires bc.Valid()
      modifies table
      ensures Valid() && this.bc == bc && this.table == table
      ensures DialView() == Dialing.Dialer(
                Mesh(nodeId, [], AfterBlock(old(table.View()), self), Credited(old(table.View())), {}),
                {}, map[], multiset{})
    {
      this.nodeId, this.bc, this.table := nodeId, bc, table;
      sockets, outbox, proven, shared := [], [], Credited(table.View()), {};
      dialing, nextAttempt, connecting := {}, map[], multiset{};
      new;
      table.Block(self);
    }

    function OwnHello(): Hello
      requires Valid()
      reads this, bc
    {
      Hello(true, nodeId, bc.chain[0].hash, bc.cfg.slotDurationMs, bc.cfg.slotWaitMs)
    }

    /** What this node announces is what the compatibility of configurations is about. */
    lemma OwnHelloIsConfig(clock: int)
      requires Valid() && ChainInv(bc.View(), clock)
      ensures OwnHello() == HelloOf(bc.cfg, nodeId)
    {
      TipIndex(bc.cfg, clock, bc.chain);
    }

    // --- dialing ---

    /** Walks the peer table in any order. `broken` is the addresses no socket can be made for. */
    method MaintainConnections(broken: set<string>, now: int)
      requires Valid()
      modifies this`dialing, this`nextAttempt, this`connecting, table
      ensures Valid() && DialView() == Dialing.Maintain(old(DialView()), broken, now)
    {
      hide Dialing.DialedAll, Dialing.Dialed, Dialing.ShouldDial;
      var entries := table.entries;
      var left := entries.Keys;
      ghost var before := DialView();
      assert entries.Keys - left == {} && Dialing.Due(before, {}, now) == {};
      Dialing.NothingDialed(before, broken, now);
      while left != {}
        invariant left <= entries.Keys && entries == before.mesh.peers.entries && sockets == before.mesh.sockets
        invariant DialView() == Dialing.DialedAll(before, Dialing.Due(before, entries.Keys - left, now), broken, now)
        decreases left
      {
        var address :| address in left;
        Dialing.VisitOne(before, entries.Keys - left, address, broken, now);
        assert entries.Keys - (left - {address}) == entries.Keys - left + {address};
        left := left - {address};
        if address in dialing { continue; }
        if address in nextAttempt && nextAttempt[address] > now { continue; }
        if entries[address].lastSeen > 0 && Dialing.Connected(sockets, address) { continue; }
        Dial(address, address in broken, now);
      }
      assert entries.Keys - {} == entries.Keys;
    }

    method Dial(address: string, fails: bool, now: int)
      requires Valid()
      modifies this`dialing, this`nextAttempt, this`connecting, table
      ensures Valid() && DialView() == Dialing.Dialed(old(DialView()), address, fails, now)
    {
      dialing := dialing + {address};
      if fails {
        dialing := dialing - {address};
        OnDialFailed(address, now);
        return;
      }
      connecting := connecting + multiset{address};
    }

    method OnDialFailed(address: string, now: int)
      requires Valid()
      modifies this`nextAttempt, table
      ensures Valid() && DialView() == Dialing.DialFailed(old(DialView()), address, now)
    {
      var dropped := table.RecordFailure(address);
      if dropped {
        nextAttempt := nextAttempt - {address};
        return;
      }
      var failures := if address in table.entries then table.entries[address].failures else 1;
      nextAttempt := nextAttempt[address := now + Dialing.Delay(failures)];
    }

    /** The close event of a socket this node dialed. */
    method OnOutboundClose(address: string, excused: bool, now: int)
      requires Valid()
      modifies this`dialing, this`nextAttempt, table
      ensures Valid() && DialView() == Dialing.OutboundClosed(old(DialView()), address, excused, now)
    {
      dialing := dialing - {address};
      if !excused {
        OnDialFailed(address, now);
      }
    }

    // --- socket lifecycle and handshake ---

    /** A socket opened; the first thing sent on it is this node's HELLO. */
    method RegisterSocket(id: nat, dialAddress: Option<string>)
      requires Valid()
      modifies this`sockets, this`connecting, this`outbox
      ensures Valid()
      ensures DialView() == Dialing.Opens(old(DialView()), id, dialAddress)
      ensures outbox == old(outbox) + [Sent(id, Greeting(OwnHello()))]
    {
      sockets := sockets + [Opened(id, dialAddress)];
      if dialAddress.Some? { connecting := connecting - multiset{dialAddress.value}; }
      outbox := outbox + [Sent(id, Greeting(OwnHello()))];
    }

    method OnClose(i: nat, now: int)
      requires Valid() && i < |sockets|
      modifies this`sockets, this`dialing, this`nextAttempt, table
      ensures Valid() && DialView() == Dialing.Closed(old(DialView()), i, now)
    {
      hide Dialing.DialFailed;
      var s := sockets[i];
      sockets := sockets[..i] + sockets[i + 1..];
      if s.dialAddress.Some? {
        OnOutboundClose(s.dialAddress.value, s.handshaken || s.expectedClose, now);
      }
      if s.handshaken && s.announced.Some? && !s.expectedClose {
        nextAttempt := nextAttempt[s.announced.value := now + Dialing.RECONNECT_BASE_MS];
      }
    }

    method Refuse(i: nat)
      requires Valid() && i < |sockets|
      modifies this`sockets
      ensures Valid() && View() == Reject(old(View()), i)
    {
      sockets := sockets[i := sockets[i].(expectedClose := true)];
    }

    /** Keeps one socket per remote node: socket i or the live one it duplicates. */
    method KeepOne(i: nat, remote: string, address: string) returns (kept: bool)
      requires Valid() && i < |sockets| && !sockets[i].handshaken
      modifies this`sockets
      ensures Valid() && |sockets| == |old(sockets)|
      ensures sockets == Resolve(nodeId, old(sockets), i, remote, address)
      ensures kept == !Judge(nodeId, old(sockets), i, remote).Duplicate?
    {
      hide ShouldReplace, FirstLive, Live;
      var incoming := sockets[i].(remoteNodeId := remote);
      var s := incoming.(announced := Some(address));
      var existing := FirstLive(sockets, i, remote);
      if existing.Some? {
        var winner := sockets[existing.value];
        if !ShouldReplace(nodeId, winner, incoming) {
          sockets := sockets[i := s.(expectedClose := true)];
          return false;
        }
        sockets := sockets[existing.value := winner.(expectedClose := true)];
      }
      sockets := sockets[i := s.(handshaken := true)];
      return true;
    }

    /** Whether or not the socket is kept, its address counts as verified from here on; the others are told about
        a newly verified one only if it is. */
    method ConfirmDialed(i: nat, address: string, kept: bool, now: int)
      requires Valid()
      modifies this`nextAttempt, this`outbox, this`proven, this`shared, table
      ensures Valid() && table.View() == AfterSuccess(old(table.View()), address, now)
      ensures proven == old(proven) + {address}
      ensures nextAttempt == if kept then old(nextAttempt) - {address} else old(nextAttempt)
      ensures var tell := kept && FirstSuccess(old(table.View()), address);
              && shared == (if tell then old(shared) + {address} else old(shared))
              && outbox == old(outbox) + (if tell then ToOthers(sockets, i, PeerList([address])) else [])
    {
      hide ToOthers;
      proven := proven + {address};
      var firstTime := table.RecordSuccess(address, now);
      if !kept { return; }
      nextAttempt := nextAttempt - {address};
      if firstTime {
        shared := shared + {address};
        outbox := outbox + ToOthers(sockets, i, PeerList([address]));
      }
    }

    /** The end of the HELLO handler: duplicates, verification, dial-back, and the first requests. */
    method Admit(i: nat, remote: string, address: string, broken: set<string>, now: int)
      requires Valid() && i < |sockets| && !sockets[i].handshaken
      requires sockets[i].dialAddress.Some? ==> sockets[i].dialAddress.value == address
      modifies this`sockets, this`dialing, this`nextAttempt, this`connecting, this`outbox,
               this`proven, this`shared, table
      ensures Valid() && |sockets| == |old(sockets)|
      ensures DialView() == Dialing.Admitted(old(DialView()), i, remote, address, broken, now)
      ensures outbox == old(outbox) + Welcome(old(View()), sockets, i, remote, address)
    {
      hide Resolve, Judge, ToOthers, AfterSuccess, WithCandidate, FirstSuccess, Addable, Dialing.Maintain;
      var s := sockets[i];
      var kept := KeepOne(i, remote, address);
      if s.dialAddress.Some? {
        ConfirmDialed(i, address, kept, now);
      } else if kept {
        var _ := table.Add(Some(address));
        MaintainConnections(broken, now);
      }
      if kept {
        outbox := outbox + [Sent(s.id, Sync(ChainRequest(0))), Sent(s.id, GetPeers)];
      }
    }

    /** The HELLO handler. */
    method OnHello(i: nat, h: Hello, reachable: Option<string>, broken: set<string>, now: int)
      requires Valid() && i < |sockets|
      modifies this`sockets, this`dialing, this`nextAttempt, this`connecting, this`outbox,
               this`proven, this`shared, table
      ensures Valid() && |sockets| == |old(sockets)|
      ensures DialView() == Dialing.HeardAndMaintained(old(DialView()), OwnHello(), i, h, reachable, broken, now)
      ensures outbox == old(outbox) +
                (if JudgeHello(old(View()), OwnHello(), i, h, reachable) == Resolved
                 then Welcome(old(View()), sockets, i, h.nodeId, AddressOf(old(sockets[i]), reachable).value) else [])
      ensures DistinctIds(old(sockets)) ==> forall k :: 0 <= k < |sockets| ==>
                SentOn(outbox[|old(outbox)|..], old(sockets[k].id))
                == if old(sockets[i].handshaken) || !sockets[i].handshaken then []
                   else if k == i then [Sync(ChainRequest(0)), GetPeers]
                   else if old(sockets[i].dialAddress.Some? && sockets[i].dialAddress.value in table.entries
                               && table.entries[sockets[i].dialAddress.value].lastSeen == 0)
                           && sockets[k].handshaken && !sockets[k].expectedClose
                   then [PeerList([old(sockets[i].dialAddress.value)])] else []
    {
      hide AfterBlock, Judge, Welcome, Dialing.HeardAndMaintained, Dialing.Admitted, Settle, SentOn, DistinctIds,
           Resolve;
      Dialing.HeardCases(DialView(), OwnHello(), i, h, reachable, broken, now);
      HelloSends(DialView(), OwnHello(), i, h, reachable, broken, now);
      var s := sockets[i];
      if s.handshaken { return; }
      if !h.wellFormed || |h.nodeId| == 0 { Refuse(i); return; }
      if h.nodeId == nodeId {
        table.Block(s.dialAddress);
        Refuse(i);
        return;
      }
      if h.genesisHash != bc.chain[0].hash || h.slotDurationMs != bc.cfg.slotDurationMs
         || h.slotWaitMs != bc.cfg.slotWaitMs
      {
        table.Block(s.dialAddress);
        Refuse(i);
        return;
      }
      var announced := if s.dialAddress.Some? then s.dialAddress else reachable;
      if announced.None? { Refuse(i); return; }
      if announced.value in table.blocked { Refuse(i); return; }
      Admit(i, h.nodeId, announced.value, broken, now);
    }

    /** NEW_BLOCK, CHAIN_REQUEST and CHAIN_RESPONSE on a handshaken socket. */
    method OnSync(i: nat, m: Received, clock: int, now: int) returns (threw: bool)
      requires Valid() && i < |sockets|
      modifies this`outbox, bc, bc.state
      ensures Valid() && threw == Throws(m) == (m == BlockReceived(Null))
      ensures bc.View() == SyncedTo(old(bc.View()), m, clock, now)
      ensures outbox == old(outbox) + Sends(sockets, i, ReplyTo(old(bc.View()), m, clock))
      ensures DistinctIds(sockets) && m.BlockReceived? && |bc.chain| > |old(bc.chain)| ==>
                m.raw.Plain? && forall k :: 0 <= k < |sockets| ==>
                  SentOn(outbox[|old(outbox)|..], sockets[k].id)
                  == if k != i && sockets[k].handshaken && !sockets[k].expectedClose
                     then [Sync(NewBlock(m.raw.block))] else []
    {
      hide SentOn, ToOthers;
      SyncRelays(bc.View(), sockets, i, m, clock, now);
      ghost var before := outbox;
      threw := false;
      match m {
        case BlockReceived(raw) =>
          var r := bc.AddBlock(raw, clock, now);
          if r == None {
            threw := true;
          } else if r == Some(Accepted) {
            outbox := outbox + ToOthers(sockets, i, Sync(NewBlock(raw.block)));
          } else if r == Some(AlreadyHave) {
          } else {
            var want := if raw.Plain? then raw.block.data.index else 0;
            outbox := outbox + [Sent(sockets[i].id, Sync(ChainRequest(want)))];
          }
        case ChainRequested =>
          outbox := outbox + [Sent(sockets[i].id, Sync(ChainResponse(bc.chain, 0)))];
        case ChainReceived(list) =>
          var _ := bc.ReplaceChain(list, clock, now);
      }
      assert outbox[|before|..] == Sends(sockets, i, ReplyTo(old(bc.View()), m, clock));
    }

    /** A gossiped transaction goes on to the others only if this node admitted it. */
    method OnTransaction(i: nat, tx: Transaction, now: int)
      requires Valid() && i < |sockets|
      modifies this`outbox, bc
      ensures Valid() && bc.View() == Ledger.AddTransaction(old(bc.View()), tx, now)
      ensures outbox == old(outbox) +
                (if Mempool.Admit(old(bc.state.accounts), bc.opts, old(bc.View()).pool, tx) == Mempool.Added
                 then ToOthers(sockets, i, NewTransaction(tx)) else [])
      ensures DistinctIds(sockets) ==> forall k :: 0 <= k < |sockets| ==>
                SentOn(outbox[|old(outbox)|..], sockets[k].id)
                == if |bc.pending| > |old(bc.pending)| && k != i && sockets[k].handshaken && !sockets[k].expectedClose
                   then [NewTransaction(tx)] else []
    {
      hide SentOn, ToOthers, Mempool.Admit;
      BroadcastOnAll(sockets, i, NewTransaction(tx));
      ghost var before := outbox;
      var r := bc.AddTransaction(tx, now);
      if r == Mempool.Added {
        outbox := outbox + ToOthers(sockets, i, NewTransaction(tx));
      }
      assert outbox[|before|..] == if r == Mempool.Added then ToOthers(sockets, i, NewTransaction(tx)) else [];
    }

    /** Candidates learned from gossip. */
    method OnPeerList(addresses: seq<Option<string>>, broken: set<string>, now: int)
      requires Valid()
      modifies this`dialing, this`nextAttempt, this`connecting, table
      ensures Valid() && DialView() == Dialing.LearnedAndMaintained(old(DialView()), addresses, broken, now)
    {
      hide Dialing.Maintain;
      var first := FirstOf(addresses);
      var added := false;
      for k := 0 to |first|
        modifies table
        invariant table.View() == Gossiped(old(table.View()), first[..k])
        invariant table.entries.Keys >= old(table.entries.Keys)
        invariant added <==> table.entries.Keys != old(table.entries.Keys)
      {
        assert first[..k + 1][..k] == first[..k];
        ghost var known := table.entries.Keys;
        var isNew := table.Add(first[k]);
        assert isNew ==> first[k].value in table.entries.Keys && first[k].value !in known;
        if isNew { added := true; }
      }
      assert first[..|first|] == first;
      if added {
        MaintainConnections(broken, now);
      }
    }

    /** The answer to GET_PEERS. */
    method OnGetPeers(i: nat) returns (addresses: seq<string>)
      requires Valid() && i < |sockets|
      modifies this`outbox, this`shared
      ensures Valid() && IsPeersAnswer(old(View()), i, addresses)
      ensures View() == P2P.Next(old(View()), OwnHello(), AnswerPeers(i, addresses))
      ensures outbox == old(outbox) + [Sent(sockets[i].id, PeerList(addresses))]
    {
      var left := set a | a in table.entries && table.entries[a].lastSeen > 0 && table.entries[a].failures == 0
                          && sockets[i].announced != Some(a);
      ghost var tellable := left;
      assert tellable == Tellable(View(), i);
      addresses := [];
      while left != {} && |addresses| < MAX_PEERS_PER_MESSAGE
        invariant left <= tellable && |addresses| + |left| == |tellable|
        invariant |addresses| <= MAX_PEERS_PER_MESSAGE
        invariant forall a :: a in addresses ==> a in tellable && a !in left
        invariant forall j, k :: 0 <= j < k < |addresses| ==> addresses[j] != addresses[k]
        decreases left
      {
        var a :| a in left;
        left := left - {a};
        addresses := addresses + [a];
      }
      shared := shared + set a | a in addresses;
      outbox := outbox + [Sent(sockets[i].id, PeerList(addresses))];
    }

    // --- dispatch ---

    /** A message on socket i. Before the handshake everything but a HELLO is ignored; and whatever
        arrives, the ledger, the mesh and the dialing keep their invariants. */
    method OnMessage(i: nat, m: Incoming, broken: set<string>, clock: int, now: int) returns (threw: bool)
      requires Valid() && i < |sockets|
      requires NodeInv(bc.View(), clock) && Dialing.Sound(DialView())
      modifies this, table, bc, bc.state
      ensures Valid() && NodeInv(bc.View(), clock) && Dialing.Sound(DialView())
      ensures Extends(old(View()), View())
      ensures threw == (old(sockets[i]).handshaken && m.Syncs? && Throws(m.sync))
      ensures bc.View()
           == if old(sockets[i]).handshaken then LedgerAfter(old(bc.View()), m, clock, now) else old(bc.View())
      ensures old(sockets[i]).handshaken && m.Pays? ==>
                bc.View() == Ledger.AddTransaction(old(bc.View()), m.tx, now)
      ensures !m.Greets? && !old(sockets[i]).handshaken ==> DialView() == old(DialView()) && outbox == old(outbox)
    {
      hide NodeInv, MeshInv, Dialing.OneDialPerAddress, SyncedTo, ReplyTo, Throws, Dialing.HeardAndMaintained,
           Dialing.LearnedAndMaintained, Welcome, JudgeHello;
      ghost var n, d := bc.View(), DialView();
      threw := false;
      if m.Greets? {
        Dialing.HelloKeepsSound(d, OwnHello(), i, m.h, m.reachable, broken, now);
        OnHello(i, m.h, m.reachable, broken, now);
      } else if sockets[i].handshaken {
        match m {
          case AsksPeers =>
            var addresses := OnGetPeers(i);
            Dialing.AnswerKeepsSound(d, OwnHello(), i, addresses);
          case TellsPeers(candidates) =>
            Dialing.GossipKeepsSound(d, OwnHello(), candidates, broken, now);
            OnPeerList(candidates, broken, now);
          case Syncs(sync) =>
            SyncKeepsInv(n, sync, clock, now);
            threw := OnSync(i, sync, clock, now);
          case Pays(tx) =>
            SubmitKeeps(n, tx, clock, now);
            OnTransaction(i, tx, now);
        }
      }
    }
  }

  lemma SyncKeepsInv(n: Node, m: Received, clock: int, now: int)
    requires NodeInv(n, clock) && |n.chain| > 0
    ensures n.cfg.Valid() && NodeInv(SyncedTo(n, m, clock, now), clock)
  {
    hide HandleState, Mempool.PoolInv, Replay;
    if AsBody(m).Some? {
      HandlingKeepsInv(n, AsBody(m).value, clock, now);
    }
  }

  /** Starting the network side of a node: the peer table from bootnodes and file, then the node on top. */
  method Launch(nodeId: string, bc: Blockchain, bootnodes: seq<Option<string>>, file: seq<Record>,
                self: Option<string>, maxFailures: int, maxSize: int) returns (node: P2PNode)
    requires bc.Valid() && maxFailures >= 1
    ensures fresh(node) && fresh(node.table) && node.bc == bc && node.Valid()
    ensures node.DialView() == Dialing.Dialer(
              P2P.Start(nodeId, bootnodes, file, self, maxFailures, maxSize), {}, map[], multiset{})
    ensures Dialing.Sound(node.DialView())
  {
    var table := new PeerTable(bootnodes, file, maxFailures, maxSize);
    FromFileEstablishes(bootnodes, file, maxFailures, maxSize);
    Dialing.FreshIsSound(nodeId, bootnodes, file, self, maxFailures, maxSize);
    node := new P2PNode(nodeId, bc, table, self);
  }
}
