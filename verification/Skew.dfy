/** The sync guarantee needs clocks that are close: a run of two compatible nodes, one of which reads a clock
    three seconds behind the other's. */
module Skew {
  import opened Types
  import opened Transactions
  import opened World
  import opened Blocks
  import opened Consensus
  import opened Mempool
  import opened Ledger
  import opened Gossip

  const KEY: PrivateKey := PrivateKey(Pem(0, "validator"))
  const CONFIG: Config := Config([KEY.public], 1, 0, [])
  const OPTIONS: MempoolOptions := MempoolOptions(1, 1, 1, 1)

  /** The ahead node's block, stamped with its own time. */
  function EarlyBlock(): Block {
    ProposeBlock(BlockData(1, 3000, [], true, Genesis(CONFIG).hash, KEY.public), KEY, 0)
  }

  function FreshNode(): (n: Node)
    ensures n.cfg == CONFIG && n.chain == [Genesis(CONFIG)]
  {
    Node(CONFIG, OPTIONS, false, [Genesis(CONFIG)], GenesisAccounts([]), Mempool.Pool.Pool([], map[]), None)
  }

  lemma FreshNodeBoots(clock: int)
    ensures Setup(CONFIG, OPTIONS, false, None, clock, 0).Booted() == FreshNode()
  {
  }

  lemma EarlyBlockJudged(clock: int)
    ensures IsValidNewBlock(CONFIG, clock, EarlyBlock(), Genesis(CONFIG)) <==> clock >= 1000
    ensures JudgeBlock(FreshNode(), EarlyBlock(), clock) == if clock >= 1000 then Accepted else Rejected
    ensures clock >= 1000 ==> AddBlock(FreshNode(), EarlyBlock(), clock, 0).chain == [Genesis(CONFIG), EarlyBlock()]
  {
    hide Prune;
    assert Verify(EarlyBlock().hash, EarlyBlock().signature, KEY.public);
    assert SlotOwner(CONFIG, GetSlot(CONFIG, 3000)) == KEY.public;
    assert Tip(FreshNode()) == Genesis(CONFIG);
  }

  lemma EarlyChainRefused()
    ensures !ValidChain(CONFIG, 0, [Genesis(CONFIG), EarlyBlock()])
  {
    hide IsValidNewBlock;
    EarlyBlockJudged(0);
    var chain := [Genesis(CONFIG), EarlyBlock()];
    assert chain[..1] == [Genesis(CONFIG)];
  }

  function Ahead(): (a: Node)
    ensures a.cfg == CONFIG && a.chain == [Genesis(CONFIG), EarlyBlock()]
  {
    EarlyBlockJudged(3000);
    AddBlock(FreshNode(), EarlyBlock(), 3000, 0)
  }

  /** The network after each of the four ticks. */
  function Moment(i: nat): Net {
    if i == 0 then Net([FreshNode(), FreshNode()], [0, 0], [])
    else Net([Ahead(), FreshNode()], [3000, 0],
             if i == 1 then [Packet(0, 1, NewBlock(EarlyBlock()))]
             else if i == 2 then [Packet(1, 0, ChainRequest(1))]
             else if i == 3 then [Packet(0, 1, ChainResponse(Ahead().chain, 1))]
             else [])
  }

  function TickAt(i: nat): Tick {
    if i == 0 then Tick(Propose(0, EarlyBlock(), [1]), 3000, 0)
    else Tick(Delivery(0, []), if i == 2 then 3000 else 0, 0)
  }

  predicate Leads(i: nat) {
    CanStep(Moment(i), TickAt(i)) && Next(Moment(i), TickAt(i)) == Moment(i + 1)
  }

  lemma ProposalLeads()
    ensures Leads(0)
  {
    hide AddBlock, JudgeBlock, EarlyBlock;
    EarlyBlockJudged(3000);
    assert Fan(0, [1], NewBlock(EarlyBlock())) == [Packet(0, 1, NewBlock(EarlyBlock()))] by {
      FanOfOne(0, 1, NewBlock(EarlyBlock()));
    }
  }

  lemma RefusalLeads()
    ensures Leads(1)
  {
    hide JudgeBlock, Ahead, FreshNode;
    EarlyBlockJudged(0);
    assert Without(Moment(1).wire, 0) == [];
  }

  lemma AnswerLeads()
    ensures Leads(2)
  {
    hide Ahead, FreshNode;
    assert Without(Moment(2).wire, 0) == [];
  }

  lemma SecondRefusalLeads()
    ensures Leads(3)
  {
    hide Ahead, FreshNode, ValidChain, EarlyBlock, Genesis;
    EarlyChainRefused();
    assert Without(Moment(3).wire, 0) == [];
  }

  function Nets(): (nets: seq<Net>)
    ensures |nets| == 5 && forall i :: 0 <= i < 5 ==> nets[i] == Moment(i)
  {
    seq(5, i requires i >= 0 => Moment(i))
  }

  function Ticks(): (ticks: seq<Tick>)
    ensures |ticks| == 4 && forall i :: 0 <= i < 4 ==> ticks[i] == TickAt(i)
  {
    seq(4, i requires i >= 0 => TickAt(i))
  }

  lemma EachLeads(i: nat)
    requires i < 4
    ensures Leads(i)
  {
    hide Leads;
    ProposalLeads();
    RefusalLeads();
    AnswerLeads();
    SecondRefusalLeads();
    assert i == 0 || i == 1 || i == 2 || i == 3;
  }

  lemma SkewedRun()
    ensures IsRun(Nets(), Ticks())
  {
    hide Running, WellAddressed, Enabled, Next, Moment, TickAt, Nets, Ticks;
    forall i | 0 <= i < 4
      ensures CanStep(Nets()[i], Ticks()[i]) && Nets()[i + 1] == Next(Nets()[i], Ticks()[i])
    {
      EachLeads(i);
    }
  }

  /** Node 0 proposes at its own time 3000; node 1, at its own time 0, refuses the block, asks for the chain,
      refuses the chain, and is still short of it when nothing is left in flight. */
  lemma SkewedClocksBreakSync()
    ensures IsRun(Nets(), Ticks()) && NetInv(Nets()[0]) && Nets()[0].wire == []
    ensures Ticks()[0] == Tick(Propose(0, EarlyBlock(), [1]), EarlyBlock().data.timestamp, 0)
    ensures Ticks()[1] == Tick(Delivery(0, []), 0, 0)
    ensures Nets()[1].wire == [Packet(0, 1, NewBlock(EarlyBlock()))]
    ensures Nets()[4].wire == [] && |Nets()[4].nodes| == 2
    ensures |Nets()[4].nodes[1].chain| == EarlyBlock().data.index == 1
    ensures RefusedEarly(Nets()[3], Ticks()[3], 1, 1)
  {
    hide NetInv, IsRun, EarlyBlock, Moment, TickAt, RefusedEarly, Nets, Ticks;
    StartIsSound();
    EarlyBlockData();
    MomentData();
    SkewedRun();
  }

  lemma MomentData()
    ensures Moment(0).wire == [] && Moment(1).wire == [Packet(0, 1, NewBlock(EarlyBlock()))]
    ensures Moment(4).wire == [] && |Moment(4).nodes| == 2 && |Moment(4).nodes[1].chain| == 1
    ensures TickAt(0) == Tick(Propose(0, EarlyBlock(), [1]), 3000, 0) && TickAt(1) == Tick(Delivery(0, []), 0, 0)
    ensures RefusedEarly(Moment(3), TickAt(3), 1, 1)
  {
    hide Ahead, FreshNode;
  }

  lemma StartIsSound()
    ensures NetInv(Moment(0))
  {
    hide NetInv, Boot, FreshNode;
    var setups := [Setup(CONFIG, OPTIONS, false, None, 0, 0), Setup(CONFIG, OPTIONS, false, None, 0, 0)];
    FreshNodeBoots(0);
    EarlyBlockData();
    FreshNetworkIsSound(setups, Moment(0));
  }

  lemma EarlyBlockData()
    ensures EarlyBlock().data.index == 1 && EarlyBlock().data.timestamp == 3000
    ensures CONFIG.Valid()
  {
  }

  lemma FanOfOne(src: nat, dst: nat, body: Body)
    ensures Fan(src, [dst], body) == [Packet(src, dst, body)]
  {
  }
}
