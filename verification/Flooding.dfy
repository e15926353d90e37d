/** How far a block travels by relay alone: between nodes that hold one chain, a new block reaches everyone
    connected to its proposer, whatever the order of deliveries. */
module Flooding {
  import opened Types
  import opened World
  import opened Consensus
  import opened Mempool
  import opened Ledger
  import opened Gossip

  /** links[u] is the set of nodes that u has a usable socket to. */
  type Links = seq<set<nat>>

  /** Every node passes a block on to all it is connected to but the one it came from. The clock that judges a
      block is not behind the block's time by more than the drift allowance. Transactions and sweeps may
      come in between. */
  predicate Relays(links: Links, net: Net, t: Tick, b: Block)
    requires CanStep(net, t)
  {
    match t.event
    case Delivery(i, others) =>
      var p := net.wire[i];
      && p.dst < |links| && (forall o :: o in links[p.dst] && o != p.src ==> o in others)
      && b.data.timestamp <= t.clock + MAX_FUTURE_DRIFT_MS
    case Pool(_, _) => true
    case _ => false
  }

  /** While block b travels among nodes that held `chain`: every node holds that chain with or without b;
      only b is in flight, sent by nodes that have it; and whoever has it has told its neighbours, unless they
      have it too. */
  ghost predicate Travelling(links: Links, net: Net, chain: seq<Block>, b: Block) {
    && NodesInv(net) && |links| == |net.nodes|
    && (forall u :: 0 <= u < |net.nodes| ==>
          && (net.nodes[u].chain == chain || net.nodes[u].chain == chain + [b])
          && ValidSometime(net.nodes[u].cfg, chain + [b]))
    && (forall p :: p in net.wire ==>
          p.src < |net.nodes| && p.dst < |net.nodes| && p.body == NewBlock(b) && net.nodes[p.src].chain == chain + [b])
    && (forall u, v :: 0 <= u < |net.nodes| && v in links[u] && net.nodes[u].chain == chain + [b] ==>
          Told(net, v, chain, b))
  }

  predicate Told(net: Net, v: nat, chain: seq<Block>, b: Block) {
    v < |net.nodes| && (net.nodes[v].chain == chain + [b] || exists p :: p in net.wire && p.dst == v)
  }

  /** A node that holds the chain accepts the block, one that has it ignores it. */
  lemma TravellerIsAccepted(n: Node, chain: seq<Block>, b: Block, clock: int, now: int)
    requires SoundNode(n, clock) && |n.chain| > 0 && n.cfg.Valid() && ValidSometime(n.cfg, chain + [b])
    requires n.chain == chain || n.chain == chain + [b]
    requires b.data.timestamp <= clock + MAX_FUTURE_DRIFT_MS
    ensures var m := AddBlock(n, b, clock, now);
            && m.chain == chain + [b] && m.cfg == n.cfg
            && HandleReply(n, NewBlock(b), clock) == if n.chain == chain then Broadcast(NewBlock(b)) else Silent
  {
    hide PoolInv, Prune, Replay, IsValidNewBlock, ApplyBlockTransactions, ChainOnFile;
    var some :| ValidChain(n.cfg, some, chain + [b]);
    ValidityIsDrift(n.cfg, some, clock, chain + [b]);
    TipIndex(n.cfg, some, chain + [b]);
    AddBlockIsReplay(n, b, clock, now);
    HandlingKeepsConfig(n, NewBlock(b), clock, now);
  }

  /** Whoever had told its neighbours before a packet to v was handled has still told them. */
  lemma ToldStays(net: Net, after: Net, i: nat, v: nat, chain: seq<Block>, b: Block)
    requires Told(net, v, chain, b) && i < |net.wire| && |after.nodes| == |net.nodes|
    requires forall w :: 0 <= w < |net.nodes| && net.nodes[w].chain == chain + [b] ==>
               after.nodes[w].chain == chain + [b]
    requires net.wire[i].dst < |net.nodes| && after.nodes[net.wire[i].dst].chain == chain + [b]
    requires forall q :: q in Without(net.wire, i) ==> q in after.wire
    ensures Told(after, v, chain, b)
  {
    hide Without;
    if net.nodes[v].chain != chain + [b] {
      var q :| q in net.wire && q.dst == v;
      if q != net.wire[i] {
        OthersStay(net.wire, i, q);
      }
    }
  }

  lemma DeliveryTravels(links: Links, net: Net, t: Tick, chain: seq<Block>, b: Block)
    requires Travelling(links, net, chain, b) && CanStep(net, t) && t.event.Delivery? && Relays(links, net, t, b)
    ensures Travelling(links, Next(net, t), chain, b)
  {
    hide SoundNode, AddBlock, HandleReply, ValidSometime, Fan, Without;
    var i, others := t.event.i, t.event.others;
    var p := net.wire[i];
    assert p in net.wire;
    var v := p.dst;
    var n, m, after := net.nodes[v], AddBlock(net.nodes[v], b, t.clock, t.now), Next(net, t);
    NextKeepsNodesInv(net, t);
    ActorIsSound(net, t);
    TravellerIsAccepted(n, chain, b, t.clock, t.now);
    assert after.nodes == net.nodes[v := m];
    var out := if n.chain == chain then Fan(v, others, NewBlock(b)) else [];
    assert after.wire == Without(net.wire, i) + out by { ShortIsNotLong(chain, b); }
    FanMembers(v, others, NewBlock(b));
    WithoutIsPart(net.wire, i);
    forall u, w | 0 <= u < |net.nodes| && w in links[u] && after.nodes[u].chain == chain + [b]
      ensures Told(after, w, chain, b)
    {
      if net.nodes[u].chain == chain + [b] {
        ToldStays(net, after, i, w, chain, b);
      } else if w != p.src {
        FanAt(v, others, NewBlock(b));
        var k :| 0 <= k < |others| && others[k] == w;
        assert Fan(v, others, NewBlock(b))[k].dst == w;
        assert Fan(v, others, NewBlock(b))[k] in after.wire;
      }
    }
  }

  lemma ShortIsNotLong(chain: seq<Block>, b: Block)
    ensures chain != chain + [b]
  {
    assert |chain| != |chain + [b]|;
  }

  lemma PoolActionTravels(links: Links, net: Net, t: Tick, chain: seq<Block>, b: Block)
    requires Travelling(links, net, chain, b) && CanStep(net, t) && t.event.Pool?
    ensures Travelling(links, Next(net, t), chain, b)
  {
    hide SoundNode, Do, ValidSometime;
    ActorIsSound(net, t);
    NextKeepsNodesInv(net, t);
    PoolActionGrows(net.nodes[t.event.who], t.event.action, t.clock, t.now);
    var after := Next(net, t);
    forall u, w | 0 <= u < |net.nodes| && w in links[u] && after.nodes[u].chain == chain + [b]
      ensures Told(after, w, chain, b)
    {
      assert Told(net, w, chain, b);
    }
  }

  /** The proposal that starts it, in a quiet network in which all nodes hold one chain. */
  lemma ProposalTravels(links: Links, net: Net, t: Tick, chain: seq<Block>)
    requires NetInv(net) && CanStep(net, t) && net.wire == [] && |links| == |net.nodes|
    requires forall u :: 0 <= u < |net.nodes| ==> net.nodes[u].chain == chain
    requires t.event.Propose? && forall o :: o in links[t.event.who] ==> o in t.event.others
    ensures Travelling(links, Next(net, t), chain, t.event.block)
  {
    hide SoundNode, AddBlock, Fan, Honest, Compatible, JudgeBlock, ValidSometime;
    var who, b, others := t.event.who, t.event.block, t.event.others;
    var after := Next(net, t);
    NextKeepsNetInv(net, t);
    NetInvGivesNodesInv(after);
    ActorIsSound(net, t);
    ProposedChain(net, t, chain);
    FanMembers(who, others, NewBlock(b));
    ShortIsNotLong(chain, b);
    forall u, w | 0 <= u < |net.nodes| && w in links[u] && after.nodes[u].chain == chain + [b]
      ensures Told(after, w, chain, b)
    {
      FanAt(who, others, NewBlock(b));
      var k :| 0 <= k < |others| && others[k] == w;
      assert Fan(who, others, NewBlock(b))[k].dst == w;
      assert Fan(who, others, NewBlock(b))[k] in after.wire;
    }
  }

  lemma ProposedChain(net: Net, t: Tick, chain: seq<Block>)
    requires NetInv(net) && CanStep(net, t) && t.event.Propose?
    requires forall u :: 0 <= u < |net.nodes| ==> net.nodes[u].chain == chain
    ensures var m := AddBlock(net.nodes[t.event.who], t.event.block, t.clock, t.now);
            m.chain == chain + [t.event.block] && m.cfg == net.nodes[t.event.who].cfg
    ensures forall u :: 0 <= u < |net.nodes| ==> ValidSometime(net.nodes[u].cfg, chain + [t.event.block])
  {
    hide PoolInv, Prune, Replay, Honest, Compatible, IsValidNewBlock;
    var who, b := t.event.who, t.event.block;
    ActorIsSound(net, t);
    SoundIsValid(net.nodes[who], t.clock);
    AddBlockIsReplay(net.nodes[who], b, t.clock, t.now);
    HandlingKeepsConfig(net.nodes[who], NewBlock(b), t.clock, t.now);
    forall u | 0 <= u < |net.nodes| ensures ValidSometime(net.nodes[u].cfg, chain + [b]) {
      CompatibleNodesAgree(net.nodes[who].cfg, net.nodes[u].cfg, t.clock, chain + [b]);
      assert ValidChain(net.nodes[u].cfg, t.clock, chain + [b]);
    }
  }

  /** A run that starts with a proposal of b and from there on only relays. */
  ghost predicate IsFlood(links: Links, nets: seq<Net>, ticks: seq<Tick>, chain: seq<Block>, b: Block) {
    && IsRun(nets, ticks) && |ticks| > 0 && NetInv(nets[0]) && nets[0].wire == [] && |links| == |nets[0].nodes|
    && (forall u :: 0 <= u < |nets[0].nodes| ==> nets[0].nodes[u].chain == chain)
    && ticks[0].event.Propose? && ticks[0].event.block == b
    && (forall o :: o in links[ticks[0].event.who] ==> o in ticks[0].event.others)
    && (forall k :: 0 < k < |ticks| ==> Relays(links, nets[k], ticks[k], b))
  }

  lemma {:induction false} FloodTravels(
      links: Links, nets: seq<Net>, ticks: seq<Tick>, chain: seq<Block>, b: Block, j: nat)
    requires IsFlood(links, nets, ticks, chain, b) && 0 < j <= |ticks|
    ensures Travelling(links, nets[j], chain, b)
    ensures ticks[0].event.who < |nets[j].nodes| && nets[j].nodes[ticks[0].event.who].chain == chain + [b]
  {
    hide NetInv, Next, Relays, Travelling, CanStep;
    if j == 1 {
      ProposalTravels(links, nets[0], ticks[0], chain);
      NextOfProposal(nets[0], ticks[0], chain);
    } else {
      FloodTravels(links, nets, ticks, chain, b, j - 1);
      FloodStep(links, nets[j - 1], ticks[j - 1], chain, b, ticks[0].event.who);
    }
  }

  lemma NextOfProposal(net: Net, t: Tick, chain: seq<Block>)
    requires NetInv(net) && CanStep(net, t) && t.event.Propose?
    requires forall u :: 0 <= u < |net.nodes| ==> net.nodes[u].chain == chain
    ensures t.event.who < |Next(net, t).nodes| && Next(net, t).nodes[t.event.who].chain == chain + [t.event.block]
  {
    hide NetInv, AddBlock, JudgeBlock;
    ProposedChain(net, t, chain);
  }

  lemma FloodStep(links: Links, net: Net, t: Tick, chain: seq<Block>, b: Block, who: nat)
    requires CanStep(net, t) && Travelling(links, net, chain, b) && Relays(links, net, t, b)
    requires who < |net.nodes| && net.nodes[who].chain == chain + [b]
    ensures Travelling(links, Next(net, t), chain, b)
    ensures who < |Next(net, t).nodes| && Next(net, t).nodes[who].chain == chain + [b]
  {
    hide SoundNode, ValidSometime, HandleState, HandleReply, Do, Told;
    if t.event.Delivery? {
      DeliveryTravels(links, net, t, chain, b);
    } else {
      PoolActionTravels(links, net, t, chain, b);
    }
    NextStaysOrGrows(net, t, who);
    ShortIsNotLong(chain, b);
  }

  predicate IsPath(links: Links, path: seq<nat>) {
    && |path| > 0 && (forall k :: 0 <= k < |path| ==> path[k] < |links|)
    && forall k :: 0 < k < |path| ==> path[k] in links[path[k - 1]]
  }

  /** The block reaches everyone: once nothing is in flight any more, every node to which a path of
      connections leads from the proposer has it. */
  lemma {:induction false} BlockReachesEveryone(
      links: Links, nets: seq<Net>, ticks: seq<Tick>, chain: seq<Block>, b: Block, j: nat, path: seq<nat>)
    requires IsFlood(links, nets, ticks, chain, b) && 0 < j <= |ticks| && nets[j].wire == []
    requires IsPath(links, path) && path[0] == ticks[0].event.who
    ensures |nets[j].nodes| == |links| && nets[j].nodes[path[|path| - 1]].chain == chain + [b]
    decreases |path|
  {
    hide NetInv, CanStep, Next, Relays, NodesInv, ValidSometime;
    FloodTravels(links, nets, ticks, chain, b, j);
    if |path| > 1 {
      var n := |path| - 1;
      assert IsPath(links, path[..n]);
      BlockReachesEveryone(links, nets, ticks, chain, b, j, path[..n]);
      assert path[n] in links[path[..n][n - 1]];
      assert Told(nets[j], path[n], chain, b);
    }
  }
}
