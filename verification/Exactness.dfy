/** Along every run the program's arithmetic on doubles is exact, given a safe genesis total. */
module Exactness {
  import opened Types
  import opened Transactions
  import opened World
  import opened Consensus
  import opened Mempool
  import opened Pruning
  import opened Ledger
  import opened SafeIntegers

  /** With non-negative allocations totalling at most 2^53 - 1: every balance of a node that satisfies the
      invariant is a safe integer, and applying any verified transactions to its state in doubles gives
      the verdict and the state of the integer model. */
  lemma StateArithmeticIsExact(n: Node, clock: int, txs: seq<Transaction>, a: string)
    requires NodeInv(n, clock) && NonNegativeAllocations(n.cfg)
    requires Total(GenesisAccounts(n.cfg.allocations)) <= MAX_SAFE && AllVerified(txs)
    ensures 0 <= Balance(n.accounts, a) <= MAX_SAFE
    ensures ApplyTxsDouble(n.accounts, txs) == ApplyTxs(n.accounts, txs)
  {
    hide Verified, PoolInv, Replay, Total, ApplyTxs, ApplyTxsDouble, NonNegative;
    ChainConserves(n.cfg, clock, n.chain, a);
    ApplyAllIsExact(n.accounts, txs);
  }

  /** And so is the admission test: folding a sender's pending amounts in doubles and comparing with the
      balance decides as the integers do. */
  lemma AdmissionArithmeticIsExact(n: Node, clock: int, a: string, amount: int)
    requires NodeInv(n, clock) && NonNegativeAllocations(n.cfg)
    requires Total(GenesisAccounts(n.cfg.allocations)) <= MAX_SAFE && 0 < amount <= MAX_SAFE
    ensures Balance(n.accounts, a) < Round(SumFromDouble(n.pool.pending, a) + amount)
       <==> Balance(n.accounts, a) < SumFrom(n.pool.pending, a) + amount
  {
    hide Verified, Replay, Total, Unspent, Round, SumFromDouble, Balance;
    var pending := n.pool.pending;
    assert AllVerified([]);
    StateArithmeticIsExact(n, clock, [], a);
    ReceivedIsNonNegative(pending, a);
    if forall t :: t in pending ==> t.from != a {
      NoneSent(pending, a);
    } else {
      var t :| t in pending && t.from == a;
      assert SumFrom(pending, t.from) <= Balance(n.accounts, t.from);
    }
    PendingSumIsExact(pending, a, Balance(n.accounts, a), amount);
  }

  lemma {:induction false} NoneSent(txs: seq<Transaction>, a: string)
    requires forall t :: t in txs ==> t.from != a
    ensures SumFrom(txs, a) == 0
  {
    if |txs| > 0 {
      assert txs[|txs| - 1] in txs && forall t :: t in txs[..|txs| - 1] ==> t in txs;
      NoneSent(txs[..|txs| - 1], a);
    }
  }

  /** And so is pruning: each affordability test against what was kept before it. */
  lemma PruningArithmeticIsExact(n: Node, clock: int, now: int, candidates: seq<Transaction>, a: string, amount: int)
    requires NodeInv(n, clock) && NonNegativeAllocations(n.cfg) && AllVerified(candidates)
    requires Total(GenesisAccounts(n.cfg.allocations)) <= MAX_SAFE && 0 < amount <= MAX_SAFE
    ensures var kept := Keep(n.accounts, n.pool.received, n.opts, now, candidates);
            Round(SumFromDouble(kept, a) + amount) > Balance(n.accounts, a)
            <==> SumFrom(kept, a) + amount > Balance(n.accounts, a)
  {
    hide Verified, Replay, Total, PoolInv, Round, SumFromDouble, Balance, Keep, Expired;
    var kept := Keep(n.accounts, n.pool.received, n.opts, now, candidates);
    assert AllVerified([]);
    StateArithmeticIsExact(n, clock, [], a);
    KeepMembers(n.accounts, n.pool.received, n.opts, now, candidates);
    KeepIsAffordable(n.accounts, n.pool.received, n.opts, now, candidates);
    VerifiedMembers(candidates, kept);
    ReceivedIsNonNegative(kept, a);
    if forall t :: t in kept ==> t.from != a {
      NoneSent(kept, a);
    } else {
      var t :| t in kept && t.from == a;
      assert SumFrom(kept, t.from) <= Balance(n.accounts, t.from);
    }
    PendingSumIsExact(kept, a, Balance(n.accounts, a), amount);
  }
}
