/** Block gossip and chain sync between nodes: the handlers of NEW_BLOCK, CHAIN_REQUEST and
    CHAIN_RESPONSE, and a network of nodes whose messages arrive in any order.

    Requests and responses carry `want`, the height their requester still lacked. It is an annotation
    of the model, not of the message: no handler reads it. */
module Gossip {
  import opened Types
  import opened World
  import opened Consensus
  import opened Mempool
  import opened Ledger

  datatype Body =
    | NewBlock(block: Block)
    | ChainRequest(want: int)
    | ChainResponse(chain: seq<Block>, want: int)

  datatype Packet = Packet(src: nat, dst: nat, body: Body)

  // ------------------------------------------------------------------------
  // The handlers of one node
  // ------------------------------------------------------------------------

  /** What a handler sends: nothing, an answer on the same socket, or a broadcast to the others. */
  datatype Reply = Silent | Answer(body: Body) | Broadcast(body: Body)

  function HandleState(n: Node, body: Body, clock: int, now: int): Node
    requires n.cfg.Valid() && |n.chain| > 0
  {
    match body
    case NewBlock(b) => AddBlock(n, b, clock, now)
    case ChainRequest(_) => n
    case ChainResponse(chain, _) => ReplaceChain(n, chain, clock, now)
  }

  function HandleReply(n: Node, body: Body, clock: int): Reply
    requires n.cfg.Valid() && |n.chain| > 0
  {
    match body
    case NewBlock(b) =>
      (match JudgeBlock(n, b, clock)
       case Accepted => Broadcast(NewBlock(b))
       case AlreadyHave => Silent
       case Rejected => Answer(ChainRequest(b.data.index)))
    case ChainRequest(want) => Answer(ChainResponse(n.chain, want))
    case ChainResponse(_, _) => Silent
  }

  // ------------------------------------------------------------------------
  // The network
  // ------------------------------------------------------------------------

  /** The nodes, the latest reading of each node's own clock, and the packets in flight. A delivery may pick
      any packet. Clocks of different nodes have nothing to do with each other. */
  datatype Net = Net(nodes: seq<Node>, clocks: seq<int>, wire: seq<Packet>)

  function Without(wire: seq<Packet>, i: nat): seq<Packet>
    requires i < |wire|
  {
    wire[..i] + wire[i + 1..]
  }

  /** One packet per recipient. */
  function Fan(src: nat, to: seq<nat>, body: Body): seq<Packet> {
    if |to| == 0 then [] else Fan(src, to[..|to| - 1], body) + [Packet(src, to[|to| - 1], body)]
  }

  function Emit(me: nat, from: nat, reply: Reply, others: seq<nat>): seq<Packet> {
    match reply
    case Silent => []
    case Answer(body) => [Packet(me, from, body)]
    case Broadcast(body) => Fan(me, others, body)
  }

  predicate WellAddressed(net: Net) {
    forall p :: p in net.wire ==> p.src < |net.nodes| && p.dst < |net.nodes|
  }

  predicate Running(net: Net) {
    && |net.clocks| == |net.nodes|
    && forall i :: 0 <= i < |net.nodes| ==> net.nodes[i].cfg.Valid() && |net.nodes[i].chain| > 0
  }

  /** Node `who` becomes m, having read `clock`. */
  function Update(net: Net, who: nat, m: Node, clock: int, wire: seq<Packet>): Net
    requires Running(net) && who < |net.nodes|
  {
    Net(net.nodes[who := m], net.clocks[who := clock], wire)
  }

  /** Deliver packet i, judged at the receiver's clock. `others` is whoever the receiver is connected to at
      that moment, the sender of the packet excepted. */
  function Deliver(net: Net, i: nat, others: seq<nat>, clock: int, now: int): Net
    requires Running(net) && WellAddressed(net) && i < |net.wire|
  {
    var p := net.wire[i];
    var n := net.nodes[p.dst];
    Update(net, p.dst, HandleState(n, p.body, clock, now), clock,
           Without(net.wire, i) + Emit(p.dst, p.src, HandleReply(n, p.body, clock), others))
  }

  datatype Event =
    | Delivery(i: nat, others: seq<nat>)
    | Propose(who: nat, block: Block, others: seq<nat>)     // a block the proposer's own chain accepts
    | Handshake(who: nat, with: nat)                        // a completed HELLO asks for the chain
    | Pool(who: nat, action: Action)                        // a transaction or a sweep
    | Reboot(who: nat)                                      // a node with a data file restarts from it

  /** `clock` and `now` are read by the node that acts. */
  datatype Tick = Tick(event: Event, clock: int, now: int)

  /** The node that acts. */
  function Actor(net: Net, e: Event): nat {
    match e
    case Delivery(i, _) => if i < |net.wire| then net.wire[i].dst else 0
    case Propose(who, _, _) => who
    case Handshake(who, _) => who
    case Pool(who, _) => who
    case Reboot(who) => who
  }

  /** A node's own clock does not run backwards. */
  predicate Enabled(net: Net, t: Tick)
    requires Running(net)
  {
    && Actor(net, t.event) < |net.nodes| && t.clock >= net.clocks[Actor(net, t.event)]
    && match t.event
       case Delivery(i, others) => i < |net.wire| && forall o :: o in others ==> o < |net.nodes|
       case Propose(who, b, others) =>
         && JudgeBlock(net.nodes[who], b, t.clock) == Accepted
         && forall o :: o in others ==> o < |net.nodes|
       case Handshake(_, with) => with < |net.nodes|
       case Pool(_, action) => action.Submit? || action.Sweep?
       case Reboot(who) => net.nodes[who].durable
  }

  /** The request after a HELLO: it wants all that the other side has at that moment. */
  function FirstRequest(net: Net, who: nat, with: nat): Packet
    requires Running(net) && with < |net.nodes|
  {
    Packet(who, with, ChainRequest(|net.nodes[with].chain| - 1))
  }

  function Rebooted(n: Node, clock: int, now: int): Node
    requires n.cfg.Valid()
  {
    Boot(n.cfg, n.opts, n.durable, n.disk, clock, now)
  }

  function Next(net: Net, t: Tick): Net
    requires Running(net) && WellAddressed(net) && Enabled(net, t)
  {
    match t.event
    case Delivery(i, others) => Deliver(net, i, others, t.clock, t.now)
    case Propose(who, b, others) =>
      Update(net, who, AddBlock(net.nodes[who], b, t.clock, t.now), t.clock, net.wire + Fan(who, others, NewBlock(b)))
    case Handshake(who, with) =>
      Update(net, who, net.nodes[who], t.clock, net.wire + [FirstRequest(net, who, with)])
    case Pool(who, action) =>
      Update(net, who, Do(net.nodes[who], Step(action, t.clock, t.now)), t.clock, net.wire)
    case Reboot(who) => Update(net, who, Rebooted(net.nodes[who], t.clock, t.now), t.clock, net.wire)
  }

  predicate CanStep(net: Net, t: Tick) {
    Running(net) && WellAddressed(net) && Enabled(net, t)
  }

  /** A run: a network per moment, one tick between each and the next. */
  predicate IsRun(nets: seq<Net>, ticks: seq<Tick>) {
    && |nets| == |ticks| + 1
    && forall i :: 0 <= i < |ticks| ==> CanStep(nets[i], ticks[i]) && nets[i + 1] == Next(nets[i], ticks[i])
  }

  // ------------------------------------------------------------------------
  // What one node's step keeps
  // ------------------------------------------------------------------------

  /** A node's invariants, its chain on file included. */
  predicate SoundNode(n: Node, clock: int) {
    NodeInv(n, clock) && ChainOnFile(n)
  }

  /** Every node satisfies its invariants at its own clock. */
  predicate NodesInv(net: Net) {
    Running(net) && forall i :: 0 <= i < |net.nodes| ==> SoundNode(net.nodes[i], net.clocks[i])
  }

  /** A node's step never shortens its chain and never changes its configuration. */
  predicate Grows(n: Node, m: Node) {
    m.cfg == n.cfg && |m.chain| >= |n.chain| && |m.chain| > 0
  }

  lemma SoundIsValid(n: Node, clock: int)
    requires SoundNode(n, clock)
    ensures n.cfg.Valid() && NodeInv(n, clock)
  {
    hide PoolInv, Replay;
  }

  lemma HandlingKeepsInv(n: Node, body: Body, clock: int, now: int)
    requires NodeInv(n, clock) && |n.chain| > 0
    ensures NodeInv(HandleState(n, body, clock, now), clock)
  {
    hide PoolInv, ChainInv, JudgeBlock, Prune, ValidChain, AddBlock, ReplaceChain;
    match body
    case NewBlock(b) => ReceiveKeeps(n, b, clock, now);
    case ChainRequest(_) =>
    case ChainResponse(chain, _) => AdoptKeeps(n, chain, clock, now);
  }

  lemma HandlingGrows(n: Node, body: Body, clock: int, now: int)
    requires SoundNode(n, clock) && |n.chain| > 0
    ensures var m := HandleState(n, body, clock, now);
            SoundNode(m, clock) && Grows(n, m) && FileStep(n, m)
  {
    hide NodeInv, HandleState, ChainOnFile, FileStep;
    SoundIsValid(n, clock);
    HandlingKeepsInv(n, body, clock, now);
    HandlingIsFileStep(n, body, clock, now);
    HandlingKeepsLength(n, body, clock, now);
    HandlingKeepsConfig(n, body, clock, now);
  }

  lemma HandlingIsFileStep(n: Node, body: Body, clock: int, now: int)
    requires n.cfg.Valid() && |n.chain| > 0
    ensures var m := HandleState(n, body, clock, now);
            FileStep(n, m) && (ChainOnFile(n) ==> ChainOnFile(m))
  {
    hide AddBlock, ReplaceChain, FileStep, ChainOnFile;
    match body
    case NewBlock(b) => StepIsFileStep(n, Step(Receive(b), clock, now));
    case ChainRequest(_) => StandingStill(n);
    case ChainResponse(chain, _) => StepIsFileStep(n, Step(Adopt(chain), clock, now));
  }

  lemma StandingStill(n: Node)
    ensures FileStep(n, n)
  {
  }

  lemma HandlingKeepsConfig(n: Node, body: Body, clock: int, now: int)
    requires n.cfg.Valid() && |n.chain| > 0
    ensures HandleState(n, body, clock, now).cfg == n.cfg
  {
    hide JudgeBlock, ValidChain, Prune;
  }

  lemma HandlingKeepsLength(n: Node, body: Body, clock: int, now: int)
    requires n.cfg.Valid() && |n.chain| > 0
    ensures |HandleState(n, body, clock, now).chain| >= |n.chain|
  {
    hide JudgeBlock, ValidChain, Prune;
  }

  lemma PoolActionGrows(n: Node, action: Action, clock: int, now: int)
    requires SoundNode(n, clock) && |n.chain| > 0 && (action.Submit? || action.Sweep?)
    ensures var m := Do(n, Step(action, clock, now));
            SoundNode(m, clock) && m.cfg == n.cfg && m.chain == n.chain && FileStep(n, m)
  {
    hide NodeInv, Prune, Admit, Insert, ChainOnFile, FileStep;
    SoundIsValid(n, clock);
    StepKeeps(n, Step(action, clock, now));
    StepIsFileStep(n, Step(action, clock, now));
  }

  lemma RebootGrows(n: Node, clock: int, now: int)
    requires SoundNode(n, clock) && |n.chain| > 0 && n.durable
    ensures SoundNode(Rebooted(n, clock, now), clock) && Grows(n, Rebooted(n, clock, now))
  {
    hide NodeInv, ChainOnFile, Boot;
    RestartKeepsChain(n, clock, now);
  }

  /** The node that acts satisfies its invariants at the clock it has just read. */
  lemma ActorIsSound(net: Net, t: Tick)
    requires NodesInv(net) && CanStep(net, t)
    ensures SoundNode(net.nodes[Actor(net, t.event)], t.clock)
  {
    hide PoolInv, ChainInv, JudgeBlock;
    var who := Actor(net, t.event);
    ChainInvIsMonotone(net.nodes[who], net.clocks[who], t.clock);
  }

  lemma {:induction false} FanMembers(src: nat, to: seq<nat>, body: Body)
    ensures forall p :: p in Fan(src, to, body) ==> p.src == src && p.dst in to && p.body == body
  {
    if |to| > 0 {
      FanMembers(src, to[..|to| - 1], body);
    }
  }

  // ------------------------------------------------------------------------
  // Relay
  // ------------------------------------------------------------------------

  /** A block that comes as NEW_BLOCK, or from the node's own proposer. */
  predicate BringsBlock(net: Net, e: Event, b: Block) {
    || (e.Delivery? && e.i < |net.wire| && net.wire[e.i].body == NewBlock(b))
    || (e.Propose? && e.block == b)
  }

  /** Whoever a block makes longer passes it on: exactly one NEW_BLOCK with it to each of the others, and
      nothing else joins the packets that were in flight. */
  lemma GrowthIsRelayed(net: Net, t: Tick, b: Block)
    requires CanStep(net, t) && BringsBlock(net, t.event, b)
    requires |Next(net, t).nodes[Actor(net, t.event)].chain| > |net.nodes[Actor(net, t.event)].chain|
    ensures var who, others, after := Actor(net, t.event), t.event.others, Next(net, t).wire;
            var rest := if t.event.Delivery? then Without(net.wire, t.event.i) else net.wire;
            && |after| == |rest| + |others| && after[..|rest|] == rest
            && forall k :: 0 <= k < |others| ==> after[|rest| + k] == Packet(who, others[k], NewBlock(b))
    ensures forall o :: o in t.event.others ==>
              Packet(Actor(net, t.event), o, NewBlock(b)) in Next(net, t).wire
  {
    hide AddBlock, HandleReply, HandleState, Fan, Without, Emit;
    match t.event {
      case Delivery(i, others) =>
        var p := net.wire[i];
        GrowthIsBroadcast(net.nodes[p.dst], b, t.clock, t.now);
        BroadcastIsFan(p.dst, p.src, b, others);
        FanAfter(Without(net.wire, i), p.dst, others, NewBlock(b));
      case Propose(who, _, others) => FanAfter(net.wire, who, others, NewBlock(b));
    }
  }

  lemma GrowthIsBroadcast(n: Node, b: Block, clock: int, now: int)
    requires n.cfg.Valid() && |n.chain| > 0
    ensures |HandleState(n, NewBlock(b), clock, now).chain| > |n.chain| ==>
              HandleReply(n, NewBlock(b), clock) == Broadcast(NewBlock(b))
  {
    hide JudgeBlock, Prune;
  }

  lemma BroadcastIsFan(me: nat, from: nat, b: Block, others: seq<nat>)
    ensures Emit(me, from, Broadcast(NewBlock(b)), others) == Fan(me, others, NewBlock(b))
  {
  }

  lemma FanAfter(rest: seq<Packet>, src: nat, to: seq<nat>, body: Body)
    ensures var after := rest + Fan(src, to, body);
            && |after| == |rest| + |to| && after[..|rest|] == rest
            && (forall k :: 0 <= k < |to| ==> after[|rest| + k] == Packet(src, to[k], body))
            && (forall o :: o in to ==> Packet(src, o, body) in after)
  {
    hide Fan;
    var after := rest + Fan(src, to, body);
    FanAt(src, to, body);
    forall o | o in to ensures Packet(src, o, body) in after {
      var k :| 0 <= k < |to| && to[k] == o;
      assert after[|rest| + k] == Packet(src, o, body);
    }
  }

  /** And nothing else is passed on: a NEW_BLOCK that joins the packets in flight is one that has just made its
      sender longer. In particular, a node that catches up by CHAIN_RESPONSE tells nobody. */
  lemma OnlyGrowthIsRelayed(net: Net, t: Tick, q: Packet)
    requires CanStep(net, t) && q in Next(net, t).wire && q !in net.wire && q.body.NewBlock?
    ensures var who := Actor(net, t.event);
            && BringsBlock(net, t.event, q.body.block) && q.src == who && q.dst in t.event.others
            && Next(net, t).nodes[who].chain == net.nodes[who].chain + [q.body.block]
  {
    hide Prune, IsValidNewBlock, ApplyBlockTransactions;
    match t.event {
      case Delivery(i, others) =>
        FanMembers(net.wire[i].dst, others, net.wire[i].body);
        WithoutIsPart(net.wire, i);
      case Propose(who, b, others) => FanMembers(who, others, NewBlock(b));
      case Handshake(_, _) =>
      case Pool(_, _) =>
      case Reboot(_) =>
    }
  }

  lemma WithoutIsPart(wire: seq<Packet>, i: nat)
    requires i < |wire|
    ensures forall q :: q in Without(wire, i) ==> q in wire
  {
  }

  lemma {:induction false} FanAt(src: nat, to: seq<nat>, body: Body)
    ensures |Fan(src, to, body)| == |to|
    ensures forall k :: 0 <= k < |to| ==> Fan(src, to, body)[k] == Packet(src, to[k], body)
  {
    if |to| > 0 {
      FanAt(src, to[..|to| - 1], body);
    }
  }

  // ------------------------------------------------------------------------
  // The network invariant
  // ------------------------------------------------------------------------

  ghost predicate ValidSometime(cfg: Config, chain: seq<Block>)
    requires cfg.Valid()
  {
    exists clock :: ValidChain(cfg, clock, chain)
  }

  /** A packet never promises more than its sender holds, and a chain in flight is valid at some clock: that
      of its sender, which need not be its receiver's. */
  ghost predicate Honest(nodes: seq<Node>, p: Packet) {
    && p.src < |nodes| && p.dst < |nodes|
    && match p.body
       case NewBlock(b) => b.data.index < |nodes[p.src].chain|
       case ChainRequest(want) => want < |nodes[p.dst].chain|
       case ChainResponse(chain, want) =>
         want < |chain| && nodes[p.dst].cfg.Valid() && ValidSometime(nodes[p.dst].cfg, chain)
  }

  predicate AllCompatible(nodes: seq<Node>) {
    forall i, j :: 0 <= i < |nodes| && 0 <= j < |nodes| ==> Compatible(nodes[i].cfg, nodes[j].cfg)
  }

  ghost predicate NetInv(net: Net) {
    && NodesInv(net)
    && AllCompatible(net.nodes)
    && (forall p :: p in net.wire ==> Honest(net.nodes, p))
  }

  /** What a node is started from, and the reading of its clock at that moment. */
  datatype Setup = Setup(cfg: Config, opts: MempoolOptions, durable: bool, disk: Option<Snapshot>, start: int, now: int)
  {
    function Booted(): Node
      requires cfg.Valid()
    {
      Boot(cfg, opts, durable, disk, start, now)
    }
  }

  /** Freshly started compatible nodes, whatever their data files hold and whatever their clocks show, form a
      sound network. */
  lemma FreshNetworkIsSound(setups: seq<Setup>, net: Net)
    requires forall i :: 0 <= i < |setups| ==> setups[i].cfg.Valid()
    requires |net.nodes| == |net.clocks| == |setups| && net.wire == []
    requires forall i :: 0 <= i < |setups| ==> net.nodes[i] == setups[i].Booted() && net.clocks[i] == setups[i].start
    requires forall i, j :: 0 <= i < |setups| && 0 <= j < |setups| ==> Compatible(setups[i].cfg, setups[j].cfg)
    ensures NetInv(net)
  {
    hide Boot, PoolInv, Replay, Compatible, ChainOnFile;
    forall i | 0 <= i < |setups|
      ensures SoundNode(net.nodes[i], net.clocks[i]) && |net.nodes[i].chain| > 0 && net.nodes[i].cfg == setups[i].cfg
    {
      var s := setups[i];
      BootEstablishesInvariants(s.cfg, s.opts, s.durable, s.disk, s.start, s.now);
      TipFacts(net.nodes[i], s.start);
      BootKeepsConfig(s);
    }
  }

  lemma BootKeepsConfig(s: Setup)
    requires s.cfg.Valid()
    ensures s.Booted().cfg == s.cfg && ChainOnFile(s.Booted())
  {
    BootHasChainOnFile(s.cfg, s.opts, s.durable, s.disk, s.start, s.now);
  }

  /** Replacing one node by a grown one keeps a packet honest. */
  lemma HonestyIsKept(nodes: seq<Node>, who: nat, m: Node, p: Packet)
    requires who < |nodes| && Grows(nodes[who], m) && Honest(nodes, p)
    ensures Honest(nodes[who := m], p)
  {
  }

  /** What has to be shown for a step of one node: it grows, and the packets it adds are honest. */
  lemma UpdateKeepsNetInv(net: Net, who: nat, m: Node, clock: int, wire: seq<Packet>)
    requires NetInv(net) && who < |net.nodes|
    requires Grows(net.nodes[who], m) && SoundNode(m, clock)
    requires forall p :: p in wire ==> p in net.wire || Honest(net.nodes[who := m], p)
    ensures NetInv(Update(net, who, m, clock, wire))
  {
    hide PoolInv, ChainInv, Compatible, Honest;
    forall p | p in wire ensures Honest(net.nodes[who := m], p) {
      if p in net.wire {
        HonestyIsKept(net.nodes, who, m, p);
      }
    }
  }

  /** Whatever a handler emits is honest: it broadcasts only blocks it has just accepted, asks only for
      heights the sender has, and answers with a chain valid at its own clock. */
  lemma EmissionIsHonest(net: Net, i: nat, others: seq<nat>, clock: int, now: int, q: Packet)
    requires NetInv(net) && i < |net.wire| && WellAddressed(net)
    requires SoundNode(net.nodes[net.wire[i].dst], clock)
    requires forall o :: o in others ==> o < |net.nodes|
    requires var p := net.wire[i];
             q in Emit(p.dst, p.src, HandleReply(net.nodes[p.dst], p.body, clock), others)
    ensures Honest(Deliver(net, i, others, clock, now).nodes, q)
  {
    hide PoolInv, Replay, Compatible, Prune;
    var p := net.wire[i];
    var n := net.nodes[p.dst];
    assert Honest(net.nodes, p);
    HandlingGrows(n, p.body, clock, now);
    match p.body {
      case NewBlock(b) =>
        AddBlockIsReplay(n, b, clock, now);
        FanMembers(p.dst, others, p.body);
      case ChainRequest(want) =>
        CompatibleNodesAgree(n.cfg, net.nodes[p.src].cfg, clock, n.chain);
        assert ValidChain(net.nodes[p.src].cfg, clock, n.chain);
      case ChainResponse(_, _) =>
    }
  }

  lemma {:induction false} NextKeepsNetInv(net: Net, t: Tick)
    requires NetInv(net) && CanStep(net, t)
    ensures NetInv(Next(net, t))
  {
    hide SoundNode, Honest, AllCompatible, HandleState, HandleReply, AddBlock, JudgeBlock, Do;
    ActorIsSound(net, t);
    match t.event {
      case Delivery(i, others) =>
        var p := net.wire[i];
        var m := HandleState(net.nodes[p.dst], p.body, t.clock, t.now);
        HandlingGrows(net.nodes[p.dst], p.body, t.clock, t.now);
        var after := Next(net, t);
        forall q | q in after.wire ensures q in net.wire || Honest(after.nodes, q) {
          if q !in net.wire {
            EmissionIsHonest(net, i, others, t.clock, t.now, q);
          }
        }
        UpdateKeepsNetInv(net, p.dst, m, t.clock, after.wire);
      case Propose(who, b, others) =>
        ProposalIsHonest(net, who, b, others, t.clock, t.now);
        UpdateKeepsNetInv(net, who, AddBlock(net.nodes[who], b, t.clock, t.now), t.clock,
                          net.wire + Fan(who, others, NewBlock(b)));
      case Handshake(who, with) =>
        var q := FirstRequest(net, who, with);
        assert Honest(net.nodes, q) by { RequestIsHonest(net, who, with); }
        assert net.nodes[who := net.nodes[who]] == net.nodes;
        UpdateKeepsNetInv(net, who, net.nodes[who], t.clock, net.wire + [q]);
      case Pool(who, action) =>
        PoolActionGrows(net.nodes[who], action, t.clock, t.now);
        UpdateKeepsNetInv(net, who, Do(net.nodes[who], Step(action, t.clock, t.now)), t.clock, net.wire);
      case Reboot(who) =>
        RebootGrows(net.nodes[who], t.clock, t.now);
        UpdateKeepsNetInv(net, who, Rebooted(net.nodes[who], t.clock, t.now), t.clock, net.wire);
    }
  }

  lemma RequestIsHonest(net: Net, who: nat, with: nat)
    requires Running(net) && who < |net.nodes| && with < |net.nodes|
    ensures Honest(net.nodes, FirstRequest(net, who, with))
  {
  }

  lemma ProposalIsHonest(net: Net, who: nat, b: Block, others: seq<nat>, clock: int, now: int)
    requires NetInv(net) && who < |net.nodes| && (forall o :: o in others ==> o < |net.nodes|)
    requires SoundNode(net.nodes[who], clock) && JudgeBlock(net.nodes[who], b, clock) == Accepted
    ensures var m := AddBlock(net.nodes[who], b, clock, now);
            && Grows(net.nodes[who], m) && SoundNode(m, clock)
            && forall q :: q in Fan(who, others, NewBlock(b)) ==> Honest(net.nodes[who := m], q)
  {
    hide PoolInv, Replay, Compatible, Prune;
    var n := net.nodes[who];
    ReceiveKeeps(n, b, clock, now);
    AddBlockIsReplay(n, b, clock, now);
    FanMembers(who, others, NewBlock(b));
  }

  lemma {:induction false} RunKeepsNetInv(nets: seq<Net>, ticks: seq<Tick>, i: nat)
    requires IsRun(nets, ticks) && NetInv(nets[0]) && i <= |ticks|
    ensures NetInv(nets[i])
  {
    hide NetInv, Next, CanStep;
    if i > 0 {
      RunKeepsNetInv(nets, ticks, i - 1);
      NextKeepsNetInv(nets[i - 1], ticks[i - 1]);
    }
  }

  // ------------------------------------------------------------------------
  // First come
  // ------------------------------------------------------------------------

  /** The chain stays or is left for a longer one. (A node without a block yet may restart with the block 0 of
      its file.) */
  predicate StaysOrGrows(n: Node, m: Node) {
    m.chain == n.chain || |m.chain| > |n.chain| || |m.chain| == |n.chain| == 1
  }

  lemma HandlingStaysOrGrows(n: Node, body: Body, clock: int, now: int)
    requires n.cfg.Valid() && |n.chain| > 0
    ensures StaysOrGrows(n, HandleState(n, body, clock, now))
  {
    hide JudgeBlock, ValidChain, Prune;
  }

  lemma AddingStaysOrGrows(n: Node, b: Block, clock: int, now: int)
    requires n.cfg.Valid() && |n.chain| > 0
    ensures StaysOrGrows(n, AddBlock(n, b, clock, now))
  {
    hide JudgeBlock, Prune;
  }

  lemma NextStaysOrGrows(net: Net, t: Tick, who: nat)
    requires NodesInv(net) && CanStep(net, t) && who < |net.nodes|
    ensures |Next(net, t).nodes| == |net.nodes| && StaysOrGrows(net.nodes[who], Next(net, t).nodes[who])
  {
    hide SoundNode, HandleState, HandleReply, StaysOrGrows, Do, Boot, AddBlock;
    Unmoved(net.nodes[who]);
    ActorIsSound(net, t);
    match t.event {
      case Delivery(i, _) =>
        HandlingStaysOrGrows(net.nodes[net.wire[i].dst], net.wire[i].body, t.clock, t.now);
      case Propose(actor, b, _) => AddingStaysOrGrows(net.nodes[actor], b, t.clock, t.now);
      case Handshake(_, _) =>
      case Pool(actor, action) =>
        PoolActionGrows(net.nodes[actor], action, t.clock, t.now);
        SameChain(net.nodes[actor], Do(net.nodes[actor], Step(action, t.clock, t.now)));
      case Reboot(actor) => RebootStaysOrGrows(net.nodes[actor], t.clock, t.now);
    }
  }

  lemma Unmoved(n: Node)
    ensures StaysOrGrows(n, n)
  {
  }

  lemma SameChain(n: Node, m: Node)
    requires m.chain == n.chain
    ensures StaysOrGrows(n, m)
  {
  }

  lemma RebootStaysOrGrows(n: Node, clock: int, now: int)
    requires SoundNode(n, clock) && |n.chain| > 0 && n.durable
    ensures StaysOrGrows(n, Rebooted(n, clock, now))
  {
    hide NodeInv, ChainOnFile, Boot;
    SoundIsValid(n, clock);
    RestartKeepsChain(n, clock, now);
  }

  /** First come, first kept: on every run, as long as a node with a block does not get longer its chain stays
      what it is. No chain of equal length displaces another, whoever sends it and however often. */
  lemma {:induction false} FirstChainStays(nets: seq<Net>, ticks: seq<Tick>, i: nat, j: nat, who: nat)
    requires IsRun(nets, ticks) && NetInv(nets[0]) && i <= j <= |ticks| && who < |nets[i].nodes|
    ensures who < |nets[j].nodes| && StaysOrGrows(nets[i].nodes[who], nets[j].nodes[who])
    decreases j
  {
    hide NetInv, Next, CanStep, StaysOrGrows;
    if i < j {
      FirstChainStays(nets, ticks, i, j - 1, who);
      RunKeepsNetInv(nets, ticks, j - 1);
      NetInvGivesNodesInv(nets[j - 1]);
      NextStaysOrGrows(nets[j - 1], ticks[j - 1], who);
      GrowthAddsUp(nets[i].nodes[who], nets[j - 1].nodes[who], nets[j].nodes[who]);
    } else {
      Unmoved(nets[i].nodes[who]);
    }
  }

  lemma GrowthAddsUp(n: Node, m: Node, l: Node)
    requires StaysOrGrows(n, m) && StaysOrGrows(m, l)
    ensures StaysOrGrows(n, l)
  {
  }

  // ------------------------------------------------------------------------
  // The sync guarantee
  // ------------------------------------------------------------------------

  predicate Covers(p: Packet, who: nat, k: int) {
    match p.body
    case NewBlock(_) => false
    case ChainRequest(want) => p.src == who && want >= k
    case ChainResponse(_, want) => p.dst == who && want >= k
  }

  /** Node `who` has a chain longer than k, or is owed one by a request or response still in flight. */
  predicate Synced(net: Net, who: nat, k: int) {
    && who < |net.nodes|
    && (|net.nodes[who].chain| > k || exists p :: p in net.wire && Covers(p, who, k))
  }

  /** Handling NEW_BLOCK of index k puts the receiver in sync up to k, whichever way it goes. */
  lemma NewBlockSyncs(net: Net, i: nat, others: seq<nat>, clock: int, now: int)
    requires NetInv(net) && WellAddressed(net) && i < |net.wire| && net.wire[i].body.NewBlock?
    requires SoundNode(net.nodes[net.wire[i].dst], clock)
    ensures Synced(Deliver(net, i, others, clock, now), net.wire[i].dst, net.wire[i].body.block.data.index)
  {
    hide PoolInv, Replay, Honest, AllCompatible, Prune;
    var p := net.wire[i];
    var b := p.body.block;
    var n := net.nodes[p.dst];
    AddBlockIsReplay(n, b, clock, now);
    if JudgeBlock(n, b, clock) == Rejected {
      var q := Packet(p.dst, p.src, ChainRequest(b.data.index));
      assert q in Deliver(net, i, others, clock, now).wire && Covers(q, p.dst, b.data.index);
    }
  }

  /** The last block of a chain is further in the future of `clock` than the drift allowance. */
  predicate TooEarly(chain: seq<Block>, clock: int) {
    |chain| > 0 && chain[|chain| - 1].data.timestamp > clock + MAX_FUTURE_DRIFT_MS
  }

  /** Exactly when a response delivers what it was asked for: once it has been handled, the receiver is
      longer than k if and only if it already was, or the last block of the response is not too early for
      the receiver's own clock. */
  lemma ResponseCatchesUp(net: Net, i: nat, others: seq<nat>, clock: int, now: int, k: int)
    requires NetInv(net) && WellAddressed(net) && i < |net.wire|
    requires net.wire[i].body.ChainResponse? && Covers(net.wire[i], net.wire[i].dst, k)
    ensures var who := net.wire[i].dst;
            |Deliver(net, i, others, clock, now).nodes[who].chain| > k
            <==> |net.nodes[who].chain| > k || !TooEarly(net.wire[i].body.chain, clock)
  {
    hide PoolInv, Replay, AllCompatible, Prune;
    var p := net.wire[i];
    var cfg := net.nodes[p.dst].cfg;
    assert Honest(net.nodes, p);
    var some :| ValidChain(cfg, some, p.body.chain);
    ValidityIsDrift(cfg, some, clock, p.body.chain);
    TipIndex(cfg, some, p.body.chain);
  }

  /** At this tick node `who`, still short of k, handles a response that would have brought it there, and
      refuses it because its clock is behind. */
  predicate RefusedEarly(net: Net, t: Tick, who: nat, k: int) {
    && t.event.Delivery? && t.event.i < |net.wire|
    && var p := net.wire[t.event.i];
       && p.dst == who && p.body.ChainResponse? && Covers(p, who, k)
       && who < |net.nodes| && |net.nodes[who].chain| <= k && TooEarly(p.body.chain, t.clock)
  }

  lemma OthersStay(wire: seq<Packet>, i: nat, p: Packet)
    requires i < |wire| && p in wire && p != wire[i]
    ensures p in Without(wire, i)
  {
    var j :| 0 <= j < |wire| && wire[j] == p;
    assert Without(wire, i)[if j < i then j else j - 1] == p;
  }

  /** No later event takes that away, except handling such a response too early. */
  lemma DeliveryKeepsSynced(net: Net, t: Tick, who: nat, k: int)
    requires NetInv(net) && CanStep(net, t) && t.event.Delivery? && Synced(net, who, k)
    requires !RefusedEarly(net, t, who, k)
    ensures Synced(Next(net, t), who, k)
  {
    hide PoolInv, Replay, AllCompatible, Prune, JudgeBlock, Honest;
    var i := t.event.i;
    var p := net.wire[i];
    var n := net.nodes[p.dst];
    var after := Next(net, t);
    ActorIsSound(net, t);
    HandlingGrows(n, p.body, t.clock, t.now);
    assert |after.nodes[who].chain| >= |net.nodes[who].chain|;
    if |net.nodes[who].chain| <= k {
      var q :| q in net.wire && Covers(q, who, k);
      if q != p {
        OthersStay(net.wire, i, q);
        assert q in after.wire;
      } else if p.body.ChainRequest? {
        var r := Packet(p.dst, p.src, ChainResponse(n.chain, p.body.want));
        assert Honest(net.nodes, p);
        assert r in after.wire && Covers(r, who, k);
      } else {
        ResponseCatchesUp(net, i, t.event.others, t.clock, t.now, k);
      }
    }
  }

  lemma NextKeepsSynced(net: Net, t: Tick, who: nat, k: int)
    requires NetInv(net) && CanStep(net, t) && Synced(net, who, k) && !RefusedEarly(net, t, who, k)
    ensures Synced(Next(net, t), who, k)
  {
    hide SoundNode, Honest, AllCompatible, HandleState, HandleReply, AddBlock, JudgeBlock, Do, Covers, RefusedEarly;
    ActorIsSound(net, t);
    match t.event {
      case Delivery(_, _) => DeliveryKeepsSynced(net, t, who, k);
      case Propose(w, b, others) => ProposalIsHonest(net, w, b, others, t.clock, t.now);
      case Handshake(_, _) =>
      case Pool(w, action) => PoolActionGrows(net.nodes[w], action, t.clock, t.now);
      case Reboot(w) => RebootGrows(net.nodes[w], t.clock, t.now);
    }
  }

  /** A tick from which node `who` is owed height k: it handles NEW_BLOCK of that index, or completes a
      handshake with a node whose chain reaches that far. */
  predicate Starts(net: Net, t: Tick, who: nat, k: int) {
    match t.event
    case Delivery(i, _) =>
      i < |net.wire| && net.wire[i].dst == who && net.wire[i].body.NewBlock? && net.wire[i].body.block.data.index == k
    case Handshake(w, with) => w == who && with < |net.nodes| && |net.nodes[with].chain| - 1 == k
    case _ => false
  }

  /** The sync guarantee over all interleavings and all clocks. In any run, once a node has handled NEW_BLOCK
      of index k, or completed a handshake with a node that has block k, then at every later moment, unless
      it refused a response as too early in between, its chain is longer than k or a request or response
      that answers it is still in flight; so when nothing is in flight, it has caught up. */
  lemma {:induction false} SyncGuarantee(nets: seq<Net>, ticks: seq<Tick>, i: nat, j: nat, who: nat, k: int)
    requires IsRun(nets, ticks) && i < j <= |ticks| && NetInv(nets[0])
    requires Starts(nets[i], ticks[i], who, k)
    requires forall m :: i < m < j ==> !RefusedEarly(nets[m], ticks[m], who, k)
    ensures Synced(nets[j], who, k) && (nets[j].wire == [] ==> |nets[j].nodes[who].chain| > k)
    decreases j
  {
    hide NetInv, Next, CanStep, Synced, RefusedEarly, Starts;
    RunKeepsNetInv(nets, ticks, j - 1);
    if j == i + 1 {
      StartSyncs(nets[i], ticks[i], who, k);
    } else {
      SyncGuarantee(nets, ticks, i, j - 1, who, k);
      NextKeepsSynced(nets[j - 1], ticks[j - 1], who, k);
    }
    QuietIsCaughtUp(nets[j], who, k);
  }

  lemma QuietIsCaughtUp(net: Net, who: nat, k: int)
    requires Synced(net, who, k)
    ensures who < |net.nodes| && (net.wire == [] ==> |net.nodes[who].chain| > k)
  {
  }

  lemma StartSyncs(net: Net, t: Tick, who: nat, k: int)
    requires NetInv(net) && CanStep(net, t) && Starts(net, t, who, k)
    ensures Synced(Next(net, t), who, k)
  {
    hide NetInv, Deliver, SoundNode;
    NetInvGivesNodesInv(net);
    ActorIsSound(net, t);
    match t.event {
      case Delivery(i, others) => NewBlockSyncs(net, i, others, t.clock, t.now);
      case Handshake(w, with) =>
        var q := FirstRequest(net, w, with);
        assert q in Next(net, t).wire && Covers(q, who, k);
    }
  }

  lemma NetInvGivesNodesInv(net: Net)
    requires NetInv(net)
    ensures NodesInv(net)
  {
  }

  // ------------------------------------------------------------------------
  // Clocks that are close
  // ------------------------------------------------------------------------

  predicate ChainStampedBy(chain: seq<Block>, h: int) {
    |chain| > 1 ==> chain[|chain| - 1].data.timestamp <= h
  }

  predicate NodeStampedBy(n: Node, h: int) {
    ChainStampedBy(n.chain, h) && (n.durable && n.disk.Some? ==> ChainStampedBy(n.disk.value.chain, h))
  }

  /** No timestamp at the end of a chain, on file or in flight is later than h. Block 0 aside: its timestamp is never
      judged. */
  predicate StampedBy(net: Net, h: int) {
    && (forall i :: 0 <= i < |net.nodes| ==> NodeStampedBy(net.nodes[i], h))
    && (forall p :: p in net.wire ==> PacketStampedBy(p, h))
  }

  predicate PacketStampedBy(p: Packet, h: int) {
    match p.body
    case NewBlock(b) => b.data.timestamp <= h
    case ChainRequest(_) => true
    case ChainResponse(chain, _) => ChainStampedBy(chain, h)
  }

  lemma FileStepIsStamped(n: Node, m: Node, h: int)
    requires NodeStampedBy(n, h) && FileStep(n, m) && ChainStampedBy(m.chain, h)
    ensures NodeStampedBy(m, h)
  {
    hide ChainStampedBy;
  }

  /** Whatever is handled, the receiver's new tip is its old one or came with the packet. */
  lemma HandledIsStamped(n: Node, p: Packet, clock: int, now: int, h: int)
    requires SoundNode(n, clock) && |n.chain| > 0 && NodeStampedBy(n, h) && PacketStampedBy(p, h)
    ensures NodeStampedBy(HandleState(n, p.body, clock, now), h)
  {
    hide NodeInv, ChainOnFile, FileStep, NodeStampedBy, Prune, ValidChain, JudgeBlock;
    SoundIsValid(n, clock);
    HandlingIsFileStep(n, p.body, clock, now);
    HandledChainIsStamped(n, p, clock, now, h);
    FileStepIsStamped(n, HandleState(n, p.body, clock, now), h);
  }

  lemma HandledChainIsStamped(n: Node, p: Packet, clock: int, now: int, h: int)
    requires SoundNode(n, clock) && |n.chain| > 0 && NodeStampedBy(n, h) && PacketStampedBy(p, h)
    ensures ChainStampedBy(HandleState(n, p.body, clock, now).chain, h)
  {
    hide PoolInv, Replay, Prune, ChainOnFile;
    if p.body.NewBlock? {
      AddBlockIsReplay(n, p.body.block, clock, now);
    }
  }

  lemma EmittedIsStamped(n: Node, p: Packet, clock: int, others: seq<nat>, h: int)
    requires n.cfg.Valid() && |n.chain| > 0 && NodeStampedBy(n, h) && PacketStampedBy(p, h)
    ensures forall q :: q in Emit(p.dst, p.src, HandleReply(n, p.body, clock), others) ==> PacketStampedBy(q, h)
  {
    hide JudgeBlock;
    if p.body.NewBlock? {
      FanIsStamped(p.dst, others, p.body.block, h);
    }
  }

  lemma DeliveryKeepsStamped(net: Net, t: Tick, h: int)
    requires NodesInv(net) && CanStep(net, t) && t.event.Delivery? && StampedBy(net, h)
    ensures StampedBy(Next(net, t), h)
  {
    hide SoundNode, NodeStampedBy, PacketStampedBy, HandleState, HandleReply, Emit;
    var p := net.wire[t.event.i];
    var n := net.nodes[p.dst];
    var out := Emit(p.dst, p.src, HandleReply(n, p.body, t.clock), t.event.others);
    ActorIsSound(net, t);
    HandledIsStamped(n, p, t.clock, t.now, h);
    EmittedIsStamped(n, p, t.clock, t.event.others, h);
    assert forall q :: q in Next(net, t).wire ==> q in net.wire || q in out;
  }

  lemma RebootIsStamped(n: Node, clock: int, now: int, h: int)
    requires SoundNode(n, clock) && |n.chain| > 0 && n.durable && NodeStampedBy(n, h)
    ensures NodeStampedBy(Rebooted(n, clock, now), h)
  {
    hide NodeInv, ChainOnFile, Boot;
    RestartKeepsChain(n, clock, now);
  }

  lemma ProposedIsStamped(n: Node, b: Block, clock: int, now: int, h: int)
    requires SoundNode(n, clock) && |n.chain| > 0 && JudgeBlock(n, b, clock) == Accepted
    requires NodeStampedBy(n, h) && b.data.timestamp <= h
    ensures NodeStampedBy(AddBlock(n, b, clock, now), h)
  {
    hide SoundNode, NodeStampedBy, JudgeBlock, AddBlock;
    HandledIsStamped(n, Packet(0, 0, NewBlock(b)), clock, now, h);
  }

  lemma PooledIsStamped(n: Node, action: Action, clock: int, now: int, h: int)
    requires SoundNode(n, clock) && |n.chain| > 0 && (action.Submit? || action.Sweep?) && NodeStampedBy(n, h)
    ensures NodeStampedBy(Do(n, Step(action, clock, now)), h)
  {
    hide SoundNode, FileStep, ChainStampedBy, Do;
    SoundIsValid(n, clock);
    PoolActionGrows(n, action, clock, now);
    FileStepIsStamped(n, Do(n, Step(action, clock, now)), h);
  }

  lemma NextKeepsStamped(net: Net, t: Tick, h: int)
    requires NodesInv(net) && CanStep(net, t) && StampedBy(net, h)
    requires t.event.Propose? ==> t.event.block.data.timestamp <= h
    ensures StampedBy(Next(net, t), h)
  {
    hide SoundNode, NodeStampedBy, PacketStampedBy, Do, Deliver, AddBlock, JudgeBlock, Rebooted;
    ActorIsSound(net, t);
    match t.event {
      case Delivery(_, _) => DeliveryKeepsStamped(net, t, h);
      case Propose(who, b, others) =>
        ProposedIsStamped(net.nodes[who], b, t.clock, t.now, h);
        FanIsStamped(who, others, b, h);
      case Handshake(who, with) => RequestIsStamped(net, who, with, h);
      case Pool(who, action) => PooledIsStamped(net.nodes[who], action, t.clock, t.now, h);
      case Reboot(who) => RebootIsStamped(net.nodes[who], t.clock, t.now, h);
    }
  }

  lemma FanIsStamped(src: nat, to: seq<nat>, b: Block, h: int)
    requires b.data.timestamp <= h
    ensures forall p :: p in Fan(src, to, NewBlock(b)) ==> PacketStampedBy(p, h)
  {
    FanMembers(src, to, NewBlock(b));
  }

  lemma RequestIsStamped(net: Net, who: nat, with: nat, h: int)
    requires Running(net) && with < |net.nodes|
    ensures PacketStampedBy(FirstRequest(net, who, with), h)
  {
  }

  /** Clocks within the drift allowance of each other, as far as the run reads them: no reading is further
      ahead of a later one, by whichever node, than the allowance. Blocks are stamped with the proposer's
      own time. */
  predicate CloseClocks(ticks: seq<Tick>) {
    && (forall p, m :: 0 <= p <= m < |ticks| ==> ticks[p].clock <= ticks[m].clock + MAX_FUTURE_DRIFT_MS)
    && (forall p :: 0 <= p < |ticks| && ticks[p].event.Propose? ==>
          ticks[p].event.block.data.timestamp <= ticks[p].clock)
  }

  lemma {:induction false} RunIsStamped(nets: seq<Net>, ticks: seq<Tick>, i: nat, m: nat)
    requires IsRun(nets, ticks) && NetInv(nets[0]) && CloseClocks(ticks) && i <= m < |ticks|
    requires StampedBy(nets[0], ticks[m].clock + MAX_FUTURE_DRIFT_MS)
    ensures StampedBy(nets[i], ticks[m].clock + MAX_FUTURE_DRIFT_MS)
  {
    hide NetInv, Next, StampedBy, CanStep;
    if i > 0 {
      RunIsStamped(nets, ticks, i - 1, m);
      RunKeepsNetInv(nets, ticks, i - 1);
      NetInvGivesNodesInv(nets[i - 1]);
      NextKeepsStamped(nets[i - 1], ticks[i - 1], ticks[m].clock + MAX_FUTURE_DRIFT_MS);
    }
  }

  lemma StampedIsNotEarly(net: Net, t: Tick, who: nat, k: int)
    requires NetInv(net) && StampedBy(net, t.clock + MAX_FUTURE_DRIFT_MS)
    ensures !RefusedEarly(net, t, who, k)
  {
    hide NodesInv, AllCompatible, ValidSometime;
    if RefusedEarly(net, t, who, k) {
      var p := net.wire[t.event.i];
      assert Honest(net.nodes, p) && PacketStampedBy(p, t.clock + MAX_FUTURE_DRIFT_MS);
      RunningChainIsLonger(net, who);
      assert false;
    }
  }

  lemma RunningChainIsLonger(net: Net, who: nat)
    requires NodesInv(net) && who < |net.nodes|
    ensures |net.nodes[who].chain| >= 1
  {
  }

  /** So the drift allowance does what it is for: when clocks differ by no more than it, the guarantee holds
      without exception. */
  lemma CloseClocksSync(nets: seq<Net>, ticks: seq<Tick>, h: int, i: nat, j: nat, who: nat, k: int)
    requires IsRun(nets, ticks) && i < j <= |ticks| && NetInv(nets[0]) && CloseClocks(ticks)
    requires StampedBy(nets[0], h) && forall m :: 0 <= m < |ticks| ==> h <= ticks[m].clock + MAX_FUTURE_DRIFT_MS
    requires Starts(nets[i], ticks[i], who, k)
    ensures Synced(nets[j], who, k) && (nets[j].wire == [] ==> |nets[j].nodes[who].chain| > k)
  {
    hide NetInv, Next, RefusedEarly, Synced, StampedBy, CloseClocks, Starts;
    forall m | i < m < j ensures !RefusedEarly(nets[m], ticks[m], who, k) {
      StampedLater(nets[0], h, ticks[m].clock + MAX_FUTURE_DRIFT_MS);
      RunIsStamped(nets, ticks, m, m);
      RunKeepsNetInv(nets, ticks, m);
      StampedIsNotEarly(nets[m], ticks[m], who, k);
    }
    SyncGuarantee(nets, ticks, i, j, who, k);
  }

  lemma StampedLater(net: Net, early: int, late: int)
    requires StampedBy(net, early) && early <= late
    ensures StampedBy(net, late)
  {
  }

  // ------------------------------------------------------------------------
  // Quiescence
  // ------------------------------------------------------------------------

  function PacketWeight(p: Packet): nat {
    match p.body
    case NewBlock(_) => 3
    case ChainRequest(_) => 2
    case ChainResponse(_, _) => 1
  }

  function Weight(wire: seq<Packet>): nat {
    if |wire| == 0 then 0 else Weight(wire[..|wire| - 1]) + PacketWeight(wire[|wire| - 1])
  }

  /** How much the chains could still grow, up to height `top`. */
  function Gap(nodes: seq<Node>, top: int): int {
    if |nodes| == 0 then 0 else Gap(nodes[..|nodes| - 1], top) + top - |nodes[|nodes| - 1].chain|
  }

  predicate PacketBelow(p: Packet, top: int) {
    match p.body
    case NewBlock(b) => b.data.index < top
    case ChainRequest(_) => true
    case ChainResponse(chain, _) => |chain| <= top
  }

  predicate NodeBelow(n: Node, top: int) {
    |n.chain| <= top && (n.durable && n.disk.Some? ==> |n.disk.value.chain| <= top)
  }

  /** No chain, no chain on file, no block and no chain in flight goes beyond `top`. Contents are arbitrary. */
  predicate Below(net: Net, top: int) {
    && (forall i :: 0 <= i < |net.nodes| ==> NodeBelow(net.nodes[i], top))
    && (forall p :: p in net.wire ==> PacketBelow(p, top))
  }

  /** The potential when a broadcast goes to at most `fan` peers. */
  function Potential(net: Net, top: int, fan: nat): int {
    Weight(net.wire) + (3 * fan + 1) * Gap(net.nodes, top)
  }

  lemma {:induction false} WeightConcat(a: seq<Packet>, b: seq<Packet>)
    ensures Weight(a + b) == Weight(a) + Weight(b)
  {
    if |b| == 0 {
      assert a + b == a;
    } else {
      assert (a + b)[..|a + b| - 1] == a + b[..|b| - 1];
      WeightConcat(a, b[..|b| - 1]);
    }
  }

  lemma WeightWithout(wire: seq<Packet>, i: nat)
    requires i < |wire|
    ensures Weight(Without(wire, i)) == Weight(wire) - PacketWeight(wire[i])
  {
    hide Weight, PacketWeight;
    assert wire == wire[..i] + ([wire[i]] + wire[i + 1..]);
    WeightConcat(wire[..i], [wire[i]] + wire[i + 1..]);
    WeightConcat([wire[i]], wire[i + 1..]);
    WeightConcat(wire[..i], wire[i + 1..]);
    SingletonWeight(wire[i]);
  }

  lemma {:induction false} WeightOfFan(src: nat, to: seq<nat>, b: Block)
    ensures Weight(Fan(src, to, NewBlock(b))) == 3 * |to|
  {
    if |to| > 0 {
      var f := Fan(src, to[..|to| - 1], NewBlock(b));
      WeightOfFan(src, to[..|to| - 1], b);
      assert (f + [Packet(src, to[|to| - 1], NewBlock(b))])[..|f|] == f;
    }
  }

  lemma {:induction false} GapUpdate(nodes: seq<Node>, who: nat, m: Node, top: int)
    requires who < |nodes|
    ensures Gap(nodes[who := m], top) == Gap(nodes, top) - (|m.chain| - |nodes[who].chain|)
  {
    var n := |nodes| - 1;
    if who < n {
      assert nodes[who := m][..n] == nodes[..n][who := m];
      GapUpdate(nodes[..n], who, m, top);
    } else {
      assert nodes[who := m][..n] == nodes[..n];
    }
  }

  lemma {:induction false} GapIsNonNegative(nodes: seq<Node>, top: int)
    requires forall i :: 0 <= i < |nodes| ==> |nodes[i].chain| <= top
    ensures Gap(nodes, top) >= 0
  {
    if |nodes| > 0 {
      GapIsNonNegative(nodes[..|nodes| - 1], top);
    }
  }

  /** What one delivery does to its receiver and to the wire: either the receiver grows, within the
      bound, and at most a broadcast goes out; or it stays and the answer is lighter than the message. */
  lemma HandlerProgress(n: Node, p: Packet, others: seq<nat>, clock: int, now: int, top: int)
    requires SoundNode(n, clock) && |n.chain| > 0 && PacketBelow(p, top) && NodeBelow(n, top)
    ensures var m := HandleState(n, p.body, clock, now);
            var out := Emit(p.dst, p.src, HandleReply(n, p.body, clock), others);
            && NodeBelow(m, top)
            && (forall q :: q in out ==> PacketBelow(q, top))
            && (if |m.chain| > |n.chain| then Weight(out) <= 3 * |others|
                else |m.chain| == |n.chain| && Weight(out) < PacketWeight(p))
  {
    hide PoolInv, Replay, Prune, ChainOnFile, FileStep, NodeBelow;
    HandlingIsFileStep(n, p.body, clock, now);
    HandledChainIsBelow(n, p, clock, now, top);
    FileStepIsBelow(n, HandleState(n, p.body, clock, now), top);
    match p.body {
      case NewBlock(b) =>
        AddBlockIsReplay(n, b, clock, now);
        FanMembers(p.dst, others, p.body);
        WeightOfFan(p.dst, others, b);
        SingletonWeight(Packet(p.dst, p.src, ChainRequest(b.data.index)));
      case ChainRequest(want) =>
        SingletonWeight(Packet(p.dst, p.src, ChainResponse(n.chain, want)));
      case ChainResponse(_, _) =>
    }
  }

  lemma HandledChainIsBelow(n: Node, p: Packet, clock: int, now: int, top: int)
    requires SoundNode(n, clock) && |n.chain| > 0 && PacketBelow(p, top) && NodeBelow(n, top)
    ensures |HandleState(n, p.body, clock, now).chain| <= top
  {
    hide PoolInv, Replay, Prune, ChainOnFile;
    if p.body.NewBlock? {
      AddBlockIsReplay(n, p.body.block, clock, now);
    }
  }

  lemma SingletonWeight(p: Packet)
    ensures Weight([p]) == PacketWeight(p)
  {
    assert [p][..0] == [];
  }

  /** Every delivery, of any packet whatever its content, lowers the potential, and the bound `top` is
      never exceeded. */
  lemma DeliveryLowersPotential(net: Net, i: nat, others: seq<nat>, clock: int, now: int, top: int, fan: nat)
    requires NodesInv(net) && WellAddressed(net) && i < |net.wire|
    requires SoundNode(net.nodes[net.wire[i].dst], clock)
    requires Below(net, top) && |others| <= fan
    ensures var after := Deliver(net, i, others, clock, now);
            Below(after, top) && 0 <= Potential(after, top, fan) < Potential(net, top, fan)
  {
    hide SoundNode, HandleState, HandleReply, Emit, PacketBelow, PacketWeight, Gap, Weight;
    var p := net.wire[i];
    var n := net.nodes[p.dst];
    var m := HandleState(n, p.body, clock, now);
    var out := Emit(p.dst, p.src, HandleReply(n, p.body, clock), others);
    var after := Deliver(net, i, others, clock, now);
    HandlerProgress(n, p, others, clock, now, top);
    WeightWithout(net.wire, i);
    WeightConcat(Without(net.wire, i), out);
    GapUpdate(net.nodes, p.dst, m, top);
    assert forall q :: q in after.wire ==> q in net.wire || q in out;
    GapIsNonNegative(after.nodes, top);
    PotentialArithmetic(3 * fan + 1, Gap(net.nodes, top), Gap(after.nodes, top));
  }

  lemma PotentialArithmetic(c: nat, before: int, after: int)
    requires c > 0 && after >= 0
    ensures c * after >= 0
    ensures after < before ==> c * after + c <= c * before
  {
    var d := before - after - 1;
    assert d >= 0 ==> c * d >= 0;
    assert c * before == c * after + c + c * d;
  }

  /** Transactions and sweeps in between leave the potential as it is. */
  lemma PoolActionKeepsPotential(net: Net, t: Tick, top: int, fan: nat)
    requires NodesInv(net) && CanStep(net, t) && t.event.Pool? && Below(net, top)
    ensures Below(Next(net, t), top) && Potential(Next(net, t), top, fan) == Potential(net, top, fan)
  {
    hide SoundNode, Do, PacketBelow, Gap, Weight, FileStep, NodeBelow;
    ActorIsSound(net, t);
    var who := t.event.who;
    var m := Do(net.nodes[who], Step(t.event.action, t.clock, t.now));
    PoolActionGrows(net.nodes[who], t.event.action, t.clock, t.now);
    FileStepIsBelow(net.nodes[who], m, top);
    GapUpdate(net.nodes, who, m, top);
  }

  lemma FileStepIsBelow(n: Node, m: Node, top: int)
    requires NodeBelow(n, top) && FileStep(n, m) && (m.chain == n.chain || |m.chain| <= top)
    ensures NodeBelow(m, top)
  {
  }

  lemma RebootIsBelow(n: Node, clock: int, now: int, top: int)
    requires SoundNode(n, clock) && |n.chain| > 0 && n.durable && NodeBelow(n, top)
    ensures NodeBelow(Rebooted(n, clock, now), top)
  {
    hide NodeInv, ChainOnFile, Boot;
    SoundIsValid(n, clock);
    RestartKeepsChain(n, clock, now);
  }

  /** A restart sends nothing and shortens no chain. */
  lemma RebootAddsNothing(net: Net, t: Tick, top: int, fan: nat)
    requires NodesInv(net) && CanStep(net, t) && t.event.Reboot? && Below(net, top)
    ensures Below(Next(net, t), top) && Potential(Next(net, t), top, fan) <= Potential(net, top, fan)
  {
    hide SoundNode, Rebooted, PacketBelow, Gap, Weight, NodeBelow;
    ActorIsSound(net, t);
    var who := t.event.who;
    RebootGrows(net.nodes[who], t.clock, t.now);
    RebootIsBelow(net.nodes[who], t.clock, t.now, top);
    GapUpdate(net.nodes, who, Rebooted(net.nodes[who], t.clock, t.now), top);
    GapFactor(3 * fan + 1, Gap(Next(net, t).nodes, top), Gap(net.nodes, top));
  }

  lemma GapFactor(c: nat, a: int, b: int)
    requires a <= b
    ensures c * a <= c * b
  {
  }

  /** A reconnection asks for the chain, which weighs two. */
  lemma HandshakeAddsTwo(net: Net, t: Tick, top: int, fan: nat)
    requires CanStep(net, t) && t.event.Handshake? && Below(net, top)
    ensures Below(Next(net, t), top) && Potential(Next(net, t), top, fan) == Potential(net, top, fan) + 2
  {
    hide Gap, Weight;
    var q := FirstRequest(net, t.event.who, t.event.with);
    assert net.nodes[t.event.who := net.nodes[t.event.who]] == net.nodes;
    WeightConcat(net.wire, [q]);
    SingletonWeight(q);
  }

  /** No proposals, and no broadcast to more than `fan` peers. */
  predicate NoProposals(ticks: seq<Tick>, fan: nat) {
    forall i :: 0 <= i < |ticks| ==>
      && !ticks[i].event.Propose?
      && (ticks[i].event.Delivery? ==> |ticks[i].event.others| <= fan)
  }

  function CountDeliveries(ticks: seq<Tick>): nat {
    if |ticks| == 0 then 0
    else CountDeliveries(ticks[..|ticks| - 1]) + (if ticks[|ticks| - 1].event.Delivery? then 1 else 0)
  }

  function CountHandshakes(ticks: seq<Tick>): nat {
    if |ticks| == 0 then 0
    else CountHandshakes(ticks[..|ticks| - 1]) + (if ticks[|ticks| - 1].event.Handshake? then 1 else 0)
  }

  lemma NextKeepsNodesInv(net: Net, t: Tick)
    requires NodesInv(net) && CanStep(net, t) && !t.event.Propose?
    ensures NodesInv(Next(net, t))
  {
    hide PoolInv, ChainInv, HandleState, HandleReply, Do;
    ActorIsSound(net, t);
    match t.event {
      case Delivery(i, _) =>
        HandlingGrows(net.nodes[net.wire[i].dst], net.wire[i].body, t.clock, t.now);
      case Pool(who, action) =>
        PoolActionGrows(net.nodes[who], action, t.clock, t.now);
      case Handshake(_, _) =>
      case Reboot(who) => RebootGrows(net.nodes[who], t.clock, t.now);
    }
  }

  /** Quiescence, with a bound: without new proposals, a network whose chains, blocks and chains in flight
      stay below `top` delivers at most Potential(start) messages plus two for every handshake, whatever the
      order, the clocks and the contents, and however many transactions, sweeps and restarts come in between. */
  lemma {:induction false} Quiescence(nets: seq<Net>, ticks: seq<Tick>, top: int, fan: nat, i: nat)
    requires IsRun(nets, ticks) && NoProposals(ticks, fan) && i <= |ticks|
    requires NodesInv(nets[0]) && Below(nets[0], top)
    ensures NodesInv(nets[i]) && Below(nets[i], top)
    ensures CountDeliveries(ticks[..i]) + Potential(nets[i], top, fan)
         <= Potential(nets[0], top, fan) + 2 * CountHandshakes(ticks[..i])
    ensures CountDeliveries(ticks[..i]) <= Potential(nets[0], top, fan) + 2 * CountHandshakes(ticks[..i])
  {
    hide NodesInv, Below, Next, Potential, CanStep;
    if i > 0 {
      Quiescence(nets, ticks, top, fan, i - 1);
      var net, t := nets[i - 1], ticks[i - 1];
      assert ticks[..i][..i - 1] == ticks[..i - 1];
      NextKeepsNodesInv(net, t);
      match t.event {
        case Pool(_, _) => PoolActionKeepsPotential(net, t, top, fan);
        case Handshake(_, _) => HandshakeAddsTwo(net, t, top, fan);
        case Delivery(_, _) => TickLowersPotential(net, t, top, fan);
        case Reboot(_) => RebootAddsNothing(net, t, top, fan);
      }
    }
    PotentialIsNonNegative(nets[i], top, fan);
  }

  lemma TickLowersPotential(net: Net, t: Tick, top: int, fan: nat)
    requires NodesInv(net) && CanStep(net, t) && t.event.Delivery?
    requires Below(net, top) && |t.event.others| <= fan
    ensures Below(Next(net, t), top) && Potential(Next(net, t), top, fan) < Potential(net, top, fan)
  {
    hide NodesInv, SoundNode, Below, Potential, Deliver;
    ActorIsSound(net, t);
    DeliveryLowersPotential(net, t.event.i, t.event.others, t.clock, t.now, top, fan);
  }

  lemma PotentialIsNonNegative(net: Net, top: int, fan: nat)
    requires Below(net, top)
    ensures Potential(net, top, fan) >= 0
  {
    GapIsNonNegative(net.nodes, top);
    PotentialArithmetic(3 * fan + 1, 0, Gap(net.nodes, top));
  }
}
