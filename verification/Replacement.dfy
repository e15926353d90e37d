/** A chain replacement can leave a pending transaction beyond the nonce window: a run from an empty start
    that shows it. */
module Replacement {
  import opened Types
  import opened Transactions
  import opened World
  import opened Blocks
  import opened Consensus
  import opened Mempool
  import opened Pruning
  import opened Ledger
  import opened Window

  const VALIDATOR: PrivateKey := PrivateKey(Pem(0, "validator"))
  const OPTIONS: MempoolOptions := MempoolOptions(10, 1, 10, 1000)
  const CLOCK: int := 100

  /** Slots of ten, no wait, one validator, and one account with two units. */
  function ConfigFor(a: string): Config {
    Config([VALIDATOR.public], 10, 0, [(a, 2)])
  }

  function Signed(data: BlockData): Block {
    ProposeBlock(data, VALIDATOR, 0)
  }

  /** The first block of the node's own chain: it confirms nonce 0 of `a`. */
  function Confirming(a: string): Block
    requires IsAddress(a)
  {
    Signed(BlockData(1, 10, [Payment(a, 1, 0)], true, Genesis(ConfigFor(a)).hash, VALIDATOR.public))
  }

  /** The longer chain: two blocks without transactions. */
  function EmptyFirst(a: string): Block {
    Signed(BlockData(1, 10, [], true, Genesis(ConfigFor(a)).hash, VALIDATOR.public))
  }

  function EmptySecond(a: string): Block {
    Signed(BlockData(2, 20, [], true, EmptyFirst(a).hash, VALIDATOR.public))
  }

  function LongerChain(a: string): seq<Block> {
    [Genesis(ConfigFor(a)), EmptyFirst(a), EmptySecond(a)]
  }

  function StepsFor(a: string): seq<Step>
    requires IsAddress(a)
  {
    [Step(Receive(Confirming(a)), CLOCK, 0), Step(Submit(Payment(a, 1, 1)), CLOCK, 0),
     Step(Adopt(LongerChain(a)), CLOCK, 0)]
  }

  lemma OneAllocation(a: string)
    ensures GenesisAccounts([(a, 2)]) == map[a := Account(2, 0)]
  {
    assert GenesisAccounts([(a, 2)][..0]) == map[];
  }

  function Fresh(a: string): (n: Node)
    ensures n.cfg == ConfigFor(a) && n.cfg.Valid() && n.chain == [Genesis(ConfigFor(a))] && n.opts == OPTIONS
    ensures !n.durable && n.pool == Pool.Pool([], map[]) && n.accounts == map[a := Account(2, 0)]
  {
    OneAllocation(a);
    Boot(ConfigFor(a), OPTIONS, false, None, 0, 0)
  }

  /** Structural validity of a block signed by the only validator. */
  lemma SignedIsValid(a: string, data: BlockData, prev: Block)
    requires data.index == prev.data.index + 1 && data.index > 0 && data.previousHash == prev.hash
    requires data.validatorPublicKey == VALIDATOR.public
    requires (data.timestamp == 10 && prev.data.timestamp == 0) || (data.timestamp == 20 && prev.data.timestamp == 10)
    ensures ConfigFor(a).Valid() && IsValidNewBlock(ConfigFor(a), CLOCK, Signed(data), prev)
  {
    assert SlotOwner(ConfigFor(a), GetSlot(ConfigFor(a), data.timestamp)) == VALIDATOR.public;
  }

  /** After the first block `a` has one unit left and its confirmed nonce is 1. */
  lemma AfterConfirming(a: string)
    requires IsAddress(a)
    ensures var n := Do(Fresh(a), StepsFor(a)[0]);
            && n.chain == [Genesis(ConfigFor(a)), Confirming(a)] && n.opts == OPTIONS && n.cfg == ConfigFor(a)
            && !n.durable && n.pool == Pool.Pool([], map[]) && Nonce(n.accounts, a) == 1 && Balance(n.accounts, a) == 1
  {
    hide Verified;
    var b := Confirming(a);
    PaymentIsVerified(a, 1, 0);
    SignedIsValid(a, b.data, Genesis(ConfigFor(a)));
    assert b.data.transactions[..0] == [];
    ApplyOne(Fresh(a).accounts, Payment(a, 1, 0));
    assert Tip(Fresh(a)) == Genesis(ConfigFor(a));
    EmptyPoolPrunes(ApplyBlockTransactions(Fresh(a).accounts, b).value);
  }

  lemma EmptyPoolPrunes(s: Accounts)
    ensures Prune(s, OPTIONS, Pool.Pool([], map[]), 0) == Pool.Pool([], map[])
  {
  }

  /** The second transaction is admitted and is in the window. */
  lemma AfterSubmitting(a: string, n: Node)
    requires IsAddress(a) && n.opts == OPTIONS && n.cfg.Valid() && |n.chain| > 0 && !n.durable
    requires n.pool == Pool.Pool([], map[]) && Nonce(n.accounts, a) == 1 && Balance(n.accounts, a) == 1
    ensures var m := Do(n, StepsFor(a)[1]);
            && m == n.(pool := Pool.Pool([Payment(a, 1, 1)], map[Payment(a, 1, 1).hash := 0]))
            && InWindow(m.accounts, OPTIONS, m.pool.pending)
  {
    hide Verified;
    PaymentIsVerified(a, 1, 1);
    assert SentBy([], a) == [] && SumFrom([], a) == 0;
    assert [] + [Payment(a, 1, 1)] == [Payment(a, 1, 1)];
  }

  lemma LongerChainReplays(a: string)
    ensures ConfigFor(a).Valid() && Replay(ConfigFor(a), CLOCK, LongerChain(a)) == Some(map[a := Account(2, 0)])
  {
    hide IsValidNewBlock, EmptyFirst, EmptySecond, Genesis;
    var cfg := ConfigFor(a);
    var g, first, second := Genesis(cfg), EmptyFirst(a), EmptySecond(a);
    EmptyFirstIsValid(a);
    EmptySecondIsValid(a);
    OneAllocation(a);
    GenesisIndex(cfg);
    ReplayExtends(cfg, CLOCK, [g], first);
    ReplayExtends(cfg, CLOCK, [g] + [first], second);
    assert LongerChain(a) == [g] + [first] + [second];
  }

  lemma GenesisIndex(cfg: Config)
    ensures Genesis(cfg).data.index == 0
  {
  }

  lemma EmptyFirstIsValid(a: string)
    ensures ConfigFor(a).Valid() && IsValidNewBlock(ConfigFor(a), CLOCK, EmptyFirst(a), Genesis(ConfigFor(a)))
    ensures EmptyFirst(a).data.isArray && EmptyFirst(a).data.transactions == []
  {
    SignedIsValid(a, EmptyFirst(a).data, Genesis(ConfigFor(a)));
  }

  lemma EmptySecondIsValid(a: string)
    ensures ConfigFor(a).Valid() && IsValidNewBlock(ConfigFor(a), CLOCK, EmptySecond(a), EmptyFirst(a))
    ensures EmptySecond(a).data.isArray && EmptySecond(a).data.transactions == []
  {
    SignedIsValid(a, EmptySecond(a).data, EmptyFirst(a));
  }

  /** The replacement takes the confirmed nonce back to 0; the pending transaction with nonce 1 survives. */
  lemma AfterAdopting(a: string, n: Node)
    requires IsAddress(a) && n.opts == OPTIONS && n.cfg == ConfigFor(a) && |n.chain| == 2 && !n.durable
    requires n.pool == Pool.Pool([Payment(a, 1, 1)], map[Payment(a, 1, 1).hash := 0])
    ensures n.cfg.Valid()
    ensures var m := Do(n, StepsFor(a)[2]);
            && m.chain == LongerChain(a) && m.accounts == map[a := Account(2, 0)] && m.pool == n.pool
            && !InWindow(m.accounts, OPTIONS, m.pool.pending)
  {
    hide Verified, Replay, Prune, LongerChain;
    LongerChainReplays(a);
    var t := map[a := Account(2, 0)];
    PaymentIsVerified(a, 1, 1);
    SingletonPool(t, Payment(a, 1, 1), 0);
    PruneIsIdentity(t, OPTIONS, n.pool, 0);
    assert Payment(a, 1, 1) in n.pool.pending;
    assert |LongerChain(a)| == 3 by { LongerChainHasThree(a); }
  }

  lemma LongerChainHasThree(a: string)
    ensures |LongerChain(a)| == 3
  {
  }

  /** The window is lost: from an empty start, a block, a transaction and a longer chain leave a pending
      transaction beyond the window that it was in before the chain was replaced. */
  lemma ReplacementBreaksWindow(a: string)
    requires IsAddress(a)
    ensures ConfigFor(a).Valid() && Ordered(0, StepsFor(a))
    ensures var n := Run(Boot(ConfigFor(a), OPTIONS, false, None, 0, 0), StepsFor(a)[..2]);
            var m := Run(Boot(ConfigFor(a), OPTIONS, false, None, 0, 0), StepsFor(a));
            && InWindow(n.accounts, OPTIONS, n.pool.pending)
            && m.chain == LongerChain(a) && m.pool == n.pool
            && !InWindow(m.accounts, OPTIONS, m.pool.pending)
  {
    hide Do, InWindow, LongerChain;
    var steps := StepsFor(a);
    AfterConfirming(a);
    var n1 := Do(Fresh(a), steps[0]);
    AfterSubmitting(a, n1);
    AfterAdopting(a, Do(n1, steps[1]));
    ThreeSteps(Fresh(a), steps);
  }

  lemma ThreeSteps(n: Node, steps: seq<Step>)
    requires n.cfg.Valid() && |n.chain| > 0 && |steps| == 3
    requires forall i :: 0 <= i < 3 ==> steps[i].clock == CLOCK
    ensures Ordered(0, steps)
    ensures Run(n, steps[..2]) == Do(Do(n, steps[0]), steps[1])
    ensures Run(n, steps) == Do(Do(Do(n, steps[0]), steps[1]), steps[2])
  {
    hide Do;
    var two, one := steps[..2], steps[..1];
    assert two[..1] == one && one[..0] == [];
    assert Run(n, one) == Do(n, steps[0]);
    assert Ordered(0, one) && Ordered(0, two);
  }
}
