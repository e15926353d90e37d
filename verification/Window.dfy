/** The nonce window: every pending nonce stays less than maxPendingPerSender above the confirmed one, as long
    as no chain replacement lowers a confirmed nonce that matters. */
module Window {
  import opened Types
  import opened Transactions
  import opened World
  import opened Blocks
  import opened Consensus
  import opened Mempool
  import opened Pruning
  import opened Ledger

  // ------------------------------------------------------------------------
  // Exactly when pruning keeps the window
  // ------------------------------------------------------------------------

  /** A pending transaction of `a`, in the window at s, could survive pruning at t and be beyond the window
      there, if the confirmed nonce fell: `a` can pay one unit in both states, and the nonces concerned are
      ones a transaction can carry. */
  predicate Exposed(s: Accounts, t: Accounts, opts: MempoolOptions, a: string) {
    && IsAddress(a)
    && Balance(s, a) >= 1 && Balance(t, a) >= 1
    && opts.maxPendingPerSender >= 1
    && Nonce(s, a) <= MAX_SAFE && Nonce(s, a) + opts.maxPendingPerSender >= 1
    && Nonce(t, a) + opts.maxPendingPerSender <= MAX_SAFE
  }

  /** No exposed address has a lower nonce in t. */
  ghost predicate NoncesHold(s: Accounts, t: Accounts, opts: MempoolOptions) {
    forall a :: Exposed(s, t, opts, a) ==> Nonce(t, a) >= Nonce(s, a)
  }

  /** The same for the senders of one pool. */
  predicate NoncesHoldFor(s: Accounts, t: Accounts, opts: MempoolOptions, pending: seq<Transaction>) {
    forall tx :: tx in pending && Exposed(s, t, opts, tx.from) ==> Nonce(t, tx.from) >= Nonce(s, tx.from)
  }

  ghost predicate KeepsWindow(s: Accounts, t: Accounts, opts: MempoolOptions, pool: Pool, now: int) {
    PoolInv(s, pool) && InWindow(s, opts, pool.pending) ==> InWindow(t, opts, Prune(t, opts, pool, now).pending)
  }

  lemma {:induction false} MemberAmount(txs: seq<Transaction>, tx: Transaction)
    requires AllVerified(txs) && tx in txs
    ensures 1 <= tx.amount <= SumFrom(txs, tx.from)
  {
    hide Verify, IsAddress;
    var n := |txs| - 1;
    ReceivedIsNonNegative(txs[..n], tx.from);
    if tx != txs[n] {
      MemberAmount(txs[..n], tx);
    }
  }

  /** One pool: nonces that hold for its senders keep it in the window. */
  lemma SurvivorsStayInWindow(s: Accounts, t: Accounts, opts: MempoolOptions, pool: Pool, now: int)
    requires PoolInv(s, pool) && InWindow(s, opts, pool.pending) && NoncesHoldFor(s, t, opts, pool.pending)
    ensures InWindow(t, opts, Prune(t, opts, pool, now).pending)
  {
    hide Prune, Verify, IsAddress, Balance, Nonce, SumFrom, UniqueHashes, Hashes;
    var left := Prune(t, opts, pool, now).pending;
    PruneEstablishesInvariant(t, opts, pool, now);
    forall tx | tx in left ensures tx.nonce < Nonce(t, tx.from) + opts.maxPendingPerSender {
      assert tx in pool.pending;
      MemberAmount(left, tx);
      MemberAmount(pool.pending, tx);
      var i :| 0 <= i < |left| && left[i] == tx;
      assert Verified(left[i]);
    }
  }

  /** A pool of one transaction. */
  lemma SingletonPool(s: Accounts, tx: Transaction, arrived: int)
    requires Verified(tx) && tx.nonce >= Nonce(s, tx.from) && tx.amount <= Balance(s, tx.from)
    ensures PoolInv(s, Pool([tx], map[tx.hash := arrived]))
  {
    hide Verified, Balance, Nonce;
    assert [] + [tx] == [tx];
    SumFromSnoc([], tx, tx.from);
    HashesSnoc([], tx);
    assert Hashes([]) == {};
  }

  /** An exposed address whose nonce falls has a pool that leaves the window. */
  lemma ExposedBreaksWindow(s: Accounts, t: Accounts, opts: MempoolOptions, now: int, a: string) returns (pool: Pool)
    requires Exposed(s, t, opts, a) && Nonce(t, a) < Nonce(s, a)
    ensures !KeepsWindow(s, t, opts, pool, now)
  {
    hide IsAddress, Verified, Balance, Nonce, Prune, PoolInv;
    var w := opts.maxPendingPerSender;
    var nonce := if Nonce(t, a) + w > Nonce(s, a) then Nonce(t, a) + w else Nonce(s, a);
    if nonce < 0 { nonce := 0; }
    var tx := Payment(a, 1, nonce);
    PaymentIsVerified(a, 1, nonce);
    pool := Pool([tx], map[tx.hash := now - opts.txTtlMs]);
    SingletonPool(s, tx, now - opts.txTtlMs);
    SingletonPool(t, tx, now - opts.txTtlMs);
    PruneIsIdentity(t, opts, pool, now);
    assert tx in pool.pending;
  }

  /** The window survives a change of the confirmed accounts from s to t, for every pool that satisfies the
      invariant, if and only if no exposed address has a lower nonce in t. */
  lemma WindowSurvivesIff(s: Accounts, t: Accounts, opts: MempoolOptions, now: int)
    ensures (forall pool :: KeepsWindow(s, t, opts, pool, now)) <==> NoncesHold(s, t, opts)
  {
    hide Exposed, PoolInv, InWindow, Prune;
    if NoncesHold(s, t, opts) {
      forall pool ensures KeepsWindow(s, t, opts, pool, now) {
        if PoolInv(s, pool) && InWindow(s, opts, pool.pending) {
          SurvivorsStayInWindow(s, t, opts, pool, now);
        }
      }
    } else {
      var a :| Exposed(s, t, opts, a) && Nonce(t, a) < Nonce(s, a);
      var pool := ExposedBreaksWindow(s, t, opts, now, a);
    }
  }

  // ------------------------------------------------------------------------
  // Over runs
  // ------------------------------------------------------------------------

  /** Blocks only raise confirmed nonces. */
  lemma BlocksRaiseNonces(s: Accounts, b: Block, a: string)
    requires ApplyBlockTransactions(s, b).Some?
    ensures Nonce(ApplyBlockTransactions(s, b).value, a) >= Nonce(s, a)
  {
    NonceExact(s, b.data.transactions, a);
  }

  lemma ReceiveKeepsWindow(n: Node, b: Block, clock: int, now: int)
    requires NodeInv(n, clock) && |n.chain| > 0 && InWindow(n.accounts, n.opts, n.pool.pending)
    ensures InWindow(AddBlock(n, b, clock, now).accounts, n.opts, AddBlock(n, b, clock, now).pool.pending)
  {
    hide InWindow, PoolInv, Prune, Replay, Nonce, Exposed;
    if JudgeBlock(n, b, clock) == Accepted {
      var t := ApplyBlockTransactions(n.accounts, b).value;
      forall tx | tx in n.pool.pending ensures Nonce(t, tx.from) >= Nonce(n.accounts, tx.from) {
        BlocksRaiseNonces(n.accounts, b, tx.from);
      }
      SurvivorsStayInWindow(n.accounts, t, n.opts, n.pool, now);
    }
  }

  lemma AdoptKeepsWindow(n: Node, chain: seq<Block>, clock: int, now: int)
    requires NodeInv(n, clock) && InWindow(n.accounts, n.opts, n.pool.pending)
    requires NoncesHoldFor(n.accounts, ReplaceChain(n, chain, clock, now).accounts, n.opts, n.pool.pending)
    ensures var m := ReplaceChain(n, chain, clock, now);
            InWindow(m.accounts, n.opts, m.pool.pending)
  {
    hide InWindow, PoolInv, Prune, Replay, NoncesHoldFor;
    if Replaces(n, chain, clock) {
      SurvivorsStayInWindow(n.accounts, Replay(n.cfg, clock, chain).value, n.opts, n.pool, now);
    }
  }

  lemma SweepKeepsWindow(n: Node, clock: int, now: int)
    requires NodeInv(n, clock) && InWindow(n.accounts, n.opts, n.pool.pending)
    ensures InWindow(n.accounts, n.opts, SweepMempool(n, now).pool.pending)
    ensures SweepMempool(n, now).accounts == n.accounts
  {
    hide InWindow, PoolInv, Prune, Replay, Nonce, Exposed;
    SurvivorsStayInWindow(n.accounts, n.accounts, n.opts, n.pool, now);
  }

  lemma RestartKeepsWindow(n: Node, clock: int, now: int)
    requires NodeInv(n, clock) && CleanHistory(n) && InWindow(n.accounts, n.opts, n.pool.pending)
    ensures var r := Boot(n.cfg, n.opts, n.durable, n.disk, clock, now);
            InWindow(r.accounts, n.opts, r.pool.pending)
  {
    hide RestorePending, PoolInv, Replay, WithinLimits, UniqueNonces;
    if n.durable && n.opts.txTtlMs >= 0 {
      RestartIsLossless(n, clock, clock, now);
    } else if n.durable && Restorable(n.cfg, n.disk, clock) {
      RestoredPoolIsClean(Replay(n.cfg, clock, n.disk.value.chain).value, n.opts, n.disk.value.pending, now);
    }
  }

  /** A step that is not a replacement, or a replacement under which the nonces of the pending senders hold. */
  predicate Steady(n: Node, s: Step)
    requires n.cfg.Valid() && |n.chain| > 0
  {
    s.action.Adopt? ==> NoncesHoldFor(n.accounts, Do(n, s).accounts, n.opts, n.pool.pending)
  }

  lemma StepKeepsWindow(n: Node, s: Step)
    requires NodeInv(n, s.clock) && |n.chain| > 0 && CleanHistory(n) && InWindow(n.accounts, n.opts, n.pool.pending)
    requires Steady(n, s)
    ensures InWindow(Do(n, s).accounts, n.opts, Do(n, s).pool.pending)
  {
    hide InWindow, PoolInv, Prune, ChainInv, CleanHistory, Boot, AddBlock, ReplaceChain, SweepMempool, NoncesHoldFor;
    match s.action
    case Submit(tx) =>
      if Admit(n.accounts, n.opts, n.pool, tx) == Added {
        AdmissionKeepsInvariant(n.accounts, n.opts, n.pool, tx, s.now);
      }
    case Sweep => SweepKeepsWindow(n, s.clock, s.now);
    case Receive(b) => ReceiveKeepsWindow(n, b, s.clock, s.now);
    case Adopt(chain) => AdoptKeepsWindow(n, chain, s.clock, s.now);
    case Restart => RestartKeepsWindow(n, s.clock, s.now);
  }

  predicate SteadyRun(n: Node, steps: seq<Step>)
    requires n.cfg.Valid() && |n.chain| > 0
  {
    |steps| > 0 ==>
      SteadyRun(n, steps[..|steps| - 1]) && Steady(Run(n, steps[..|steps| - 1]), steps[|steps| - 1])
  }

  /** On every run of a node that started without a file, replacements included as long as each of them is
      steady, every pending nonce stays within the window above the confirmed one; and then the
      per-sender cap decides nothing that the window does not. */
  lemma {:induction false} WindowHoldsOnSteadyRuns(
      cfg: Config, opts: MempoolOptions, durable: bool, start: int, now: int, steps: seq<Step>, tx: Transaction)
    requires cfg.Valid() && Ordered(start, steps)
    requires SteadyRun(Boot(cfg, opts, durable, None, start, now), steps)
    ensures var n := Run(Boot(cfg, opts, durable, None, start, now), steps);
            && InWindow(n.accounts, opts, n.pool.pending)
            && (opts.maxPendingPerSender >= 0 && Admit(n.accounts, opts, n.pool, tx) == TooManyPending ==>
                  tx.nonce >= Nonce(n.accounts, tx.from) + opts.maxPendingPerSender)
  {
    hide InWindow, NodeInv, CleanHistory, Do, Admit, Nonce, Steady;
    var n0 := Boot(cfg, opts, durable, None, start, now);
    var n := Run(n0, steps);
    if |steps| == 0 {
      NothingPendingIsInWindow(n0.accounts, opts);
    } else {
      var init, last := steps[..|steps| - 1], steps[|steps| - 1];
      WindowHoldsOnSteadyRuns(cfg, opts, durable, start, now, init, tx);
      InvariantsHoldOnEveryRun(cfg, opts, durable, None, start, now, init, last.clock);
      StepKeepsWindow(Run(n0, init), last);
    }
    InvariantsHoldOnEveryRun(cfg, opts, durable, None, start, now, steps, LastClock(start, steps));
    if opts.maxPendingPerSender >= 0 && Admit(n.accounts, opts, n.pool, tx) == TooManyPending {
      CapDecidesNothing(n, LastClock(start, steps), tx);
    }
  }

  /** And on such a run admission is sound and complete: a transaction is admitted exactly when the pool with it
      satisfies the invariant, the uniqueness of nonces, the window and the limits. */
  lemma AdmissionOnSteadyRuns(
      cfg: Config, opts: MempoolOptions, durable: bool, start: int, now: int, steps: seq<Step>, tx: Transaction,
      later: int)
    requires cfg.Valid() && Ordered(start, steps)
    requires SteadyRun(Boot(cfg, opts, durable, None, start, now), steps)
    ensures var n := Run(Boot(cfg, opts, durable, None, start, now), steps);
            var q := Insert(n.pool, tx, later);
            Admit(n.accounts, opts, n.pool, tx) == Added <==>
              && PoolInv(n.accounts, q) && UniqueNonces(q.pending)
              && InWindow(n.accounts, opts, q.pending) && WithinLimits(opts, q.pending)
  {
    hide InWindow, PoolInv, ChainInv, Admit, Insert, Run, Boot, UniqueNonces, WithinLimits;
    BootKeepsSettings(cfg, opts, durable, None, start, now);
    WindowHoldsOnSteadyRuns(cfg, opts, durable, start, now, steps, tx);
    InvariantsHoldOnEveryRun(cfg, opts, durable, None, start, now, steps, LastClock(start, steps));
    var n := Run(Boot(cfg, opts, durable, None, start, now), steps);
    AdmissionIsComplete(n.accounts, opts, n.pool, tx, later);
  }

  lemma NothingPendingIsInWindow(s: Accounts, opts: MempoolOptions)
    ensures InWindow(s, opts, [])
  {
  }

  lemma CapDecidesNothing(n: Node, clock: int, tx: Transaction)
    requires NodeInv(n, clock) && CleanHistory(n) && InWindow(n.accounts, n.opts, n.pool.pending)
    requires n.opts.maxPendingPerSender >= 0 && Admit(n.accounts, n.opts, n.pool, tx) == TooManyPending
    ensures tx.nonce >= Nonce(n.accounts, tx.from) + n.opts.maxPendingPerSender
  {
    hide Admit, InWindow, Unspent, UniqueNonces, WellKept, Affordable, ChainInv, WithinLimits;
    CapNeverDecides(n.accounts, n.opts, n.pool, tx);
  }
}
