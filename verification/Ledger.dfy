/** One node's ledger as a value, the steps it can take, and what holds after any run of them. */
module Ledger {
  import opened Types
  import opened Transactions
  import opened World
  import opened Blocks
  import opened Consensus
  import opened Mempool
  import opened Pruning
  import opened Selection

  /** What is written to the data file. */
  datatype Snapshot = Snapshot(chain: seq<Block>, pending: seq<Transaction>)

  /** `durable` is false for a node without a data file; `disk` is what the file holds. */
  datatype Node = Node(
    cfg: Config, opts: MempoolOptions, durable: bool,
    chain: seq<Block>, accounts: Accounts, pool: Pool, disk: Option<Snapshot>)

  function Tip(n: Node): Block
    requires |n.chain| > 0
  {
    n.chain[|n.chain| - 1]
  }

  function Persist(n: Node): Node {
    if n.durable then n.(disk := Some(Snapshot(n.chain, n.pool.pending))) else n
  }

  // ------------------------------------------------------------------------
  // Steps. `clock` is the wall clock, `now` the clock of the mempool.
  // ------------------------------------------------------------------------

  function AddTransaction(n: Node, tx: Transaction, now: int): Node {
    if Admit(n.accounts, n.opts, n.pool, tx) == Added
    then Persist(n.(pool := Insert(n.pool, tx, now))) else n
  }

  function PruneMempool(n: Node, now: int): Node {
    n.(pool := Prune(n.accounts, n.opts, n.pool, now))
  }

  function SweepMempool(n: Node, now: int): Node {
    var p := PruneMempool(n, now);
    if |p.pool.pending| < |n.pool.pending| then Persist(p) else p
  }

  datatype Outcome = Accepted | AlreadyHave | Rejected

  function JudgeBlock(n: Node, b: Block, clock: int): Outcome
    requires n.cfg.Valid() && |n.chain| > 0
  {
    if b.data.index <= Tip(n).data.index then AlreadyHave
    else if IsValidNewBlock(n.cfg, clock, b, Tip(n)) && ApplyBlockTransactions(n.accounts, b).Some?
    then Accepted else Rejected
  }

  function AddBlock(n: Node, b: Block, clock: int, now: int): Node
    requires n.cfg.Valid() && |n.chain| > 0
  {
    if JudgeBlock(n, b, clock) == Accepted then
      Persist(PruneMempool(
        n.(chain := n.chain + [b], accounts := ApplyBlockTransactions(n.accounts, b).value), now))
    else n
  }

  predicate Replaces(n: Node, chain: seq<Block>, clock: int)
    requires n.cfg.Valid()
  {
    |chain| > |n.chain| && ValidChain(n.cfg, clock, chain)
  }

  function ReplaceChain(n: Node, chain: seq<Block>, clock: int, now: int): Node
    requires n.cfg.Valid()
  {
    if Replaces(n, chain, clock) then
      Persist(PruneMempool(n.(chain := chain, accounts := Replay(n.cfg, clock, chain).value), now))
    else n
  }

  /** The first verified occurrence of every hash. */
  function FirstVerified(raw: seq<Transaction>): seq<Transaction> {
    if |raw| == 0 then []
    else
      var kept := FirstVerified(raw[..|raw| - 1]);
      var tx := raw[|raw| - 1];
      if Verified(tx) && tx.hash !in Hashes(kept) then kept + [tx] else kept
  }

  function RestorePending(s: Accounts, opts: MempoolOptions, raw: seq<Transaction>, now: int): Pool {
    var kept := FirstVerified(raw);
    Prune(s, opts, Pool(kept, map h | h in Hashes(kept) :: now), now)
  }

  predicate Restorable(cfg: Config, file: Option<Snapshot>, clock: int)
    requires cfg.Valid()
  {
    file.Some? && ValidChain(cfg, clock, file.value.chain)
  }

  /** Starting a node from whatever its data file holds. */
  function Boot(cfg: Config, opts: MempoolOptions, durable: bool, disk: Option<Snapshot>, clock: int, now: int): Node
    requires cfg.Valid()
  {
    if durable && Restorable(cfg, disk, clock) then
      var s := Replay(cfg, clock, disk.value.chain).value;
      Node(cfg, opts, durable, disk.value.chain, s, RestorePending(s, opts, disk.value.pending, now), disk)
    else
      Node(cfg, opts, durable, [Genesis(cfg)], GenesisAccounts(cfg.allocations), Pool([], map[]), disk)
  }

  // ------------------------------------------------------------------------
  // Invariants
  // ------------------------------------------------------------------------

  /** Incremental equals replay: the live state is the one a full replay computes. */
  predicate ChainInv(n: Node, clock: int) {
    n.cfg.Valid() && Replay(n.cfg, clock, n.chain) == Some(n.accounts)
  }

  predicate NodeInv(n: Node, clock: int) {
    ChainInv(n, clock) && PoolInv(n.accounts, n.pool)
  }

  /** The file of a durable node is exactly what it holds in memory, or nothing yet happened. */
  predicate DiskInv(n: Node) {
    n.durable ==>
      if n.disk.Some? then n.disk.value == Snapshot(n.chain, n.pool.pending)
      else n.chain == [Genesis(n.cfg)] && n.pool == Pool([], map[])
  }

  lemma TipFacts(n: Node, clock: int)
    requires ChainInv(n, clock)
    ensures |n.chain| > 0 && Tip(n).data.index == |n.chain| - 1
  {
    TipIndex(n.cfg, clock, n.chain);
  }

  lemma ChainInvIsMonotone(n: Node, early: int, late: int)
    requires ChainInv(n, early) && early <= late
    ensures ChainInv(n, late)
  {
    ReplayIsMonotone(n.cfg, early, late, n.chain);
  }

  /** The judgement of addBlock is sound and complete for extending the chain: a block is accepted
      exactly when the extended chain replays, and the state it leaves is the replayed one. */
  lemma AddBlockIsReplay(n: Node, b: Block, clock: int, now: int)
    requires ChainInv(n, clock) && |n.chain| > 0
    ensures JudgeBlock(n, b, clock) == Accepted <==> ValidChain(n.cfg, clock, n.chain + [b])
    ensures ChainInv(AddBlock(n, b, clock, now), clock)
    ensures JudgeBlock(n, b, clock) == Accepted ==>
              AddBlock(n, b, clock, now).chain == n.chain + [b] && b.data.index == |n.chain|
    ensures JudgeBlock(n, b, clock) == AlreadyHave <==> b.data.index < |n.chain|
    ensures JudgeBlock(n, b, clock) != Accepted ==> AddBlock(n, b, clock, now) == n
  {
    TipFacts(n, clock);
    ReplayExtends(n.cfg, clock, n.chain, b);
  }

  lemma {:induction false} FirstVerifiedProperties(raw: seq<Transaction>)
    ensures AllVerified(FirstVerified(raw)) && UniqueHashes(FirstVerified(raw))
  {
    if |raw| > 0 {
      FirstVerifiedProperties(raw[..|raw| - 1]);
      var kept := FirstVerified(raw[..|raw| - 1]);
      assert (kept + [raw[|raw| - 1]])[..|kept|] == kept;
    }
  }

  /** Of the verified entries with one hash the first is kept, and nothing else is. */
  lemma {:induction false} FirstVerifiedIff(raw: seq<Transaction>, t: Transaction)
    ensures t in FirstVerified(raw) <==>
      Verified(t) && exists i :: 0 <= i < |raw| && raw[i] == t
                                && forall j :: 0 <= j < i && Verified(raw[j]) ==> raw[j].hash != t.hash
  {
    hide Verified, Hashes;
    if |raw| > 0 {
      var n := |raw| - 1;
      FirstVerifiedIff(raw[..n], t);
      FirstVerifiedHashes(raw[..n], t.hash);
      assert forall i :: 0 <= i < n ==> raw[..n][i] == raw[i];
    }
  }

  lemma {:induction false} FirstVerifiedHashes(raw: seq<Transaction>, h: Hash)
    ensures h in Hashes(FirstVerified(raw)) <==> exists j :: 0 <= j < |raw| && Verified(raw[j]) && raw[j].hash == h
  {
    hide Verified;
    if |raw| > 0 {
      var n := |raw| - 1;
      FirstVerifiedHashes(raw[..n], h);
      HashesSnoc(FirstVerified(raw[..n]), raw[n]);
      assert forall i :: 0 <= i < n ==> raw[..n][i] == raw[i];
    }
  }

  lemma {:induction false} FirstVerifiedIsIdentity(raw: seq<Transaction>)
    requires AllVerified(raw) && UniqueHashes(raw)
    ensures FirstVerified(raw) == raw
  {
    hide Verified, Hashes;
    if |raw| > 0 {
      FirstVerifiedIsIdentity(raw[..|raw| - 1]);
      assert raw == raw[..|raw| - 1] + [raw[|raw| - 1]];
    }
  }

  /** The file is untrusted: whatever it lists as pending, what is restored satisfies the invariant. */
  lemma RestoredPoolIsClean(s: Accounts, opts: MempoolOptions, raw: seq<Transaction>, now: int)
    ensures PoolInv(s, RestorePending(s, opts, raw, now))
    ensures opts.txTtlMs < 0 ==> RestorePending(s, opts, raw, now).pending == []
  {
    hide Verified, AllVerified, UniqueHashes, Prune, Affordable, Unspent;
    var kept := FirstVerified(raw);
    var pool := Pool(kept, map h | h in Hashes(kept) :: now);
    FirstVerifiedProperties(raw);
    PruneEstablishesInvariant(s, opts, pool, now);
    var out := Prune(s, opts, pool, now).pending;
    assert opts.txTtlMs < 0 ==> forall t :: t in kept ==> Expired(pool.received, opts, now, t);
    assert |out| > 0 ==> out[0] in out;
  }

  /** Whatever the data file holds, a started node satisfies both invariants. */
  lemma BootEstablishesInvariants(
      cfg: Config, opts: MempoolOptions, durable: bool, disk: Option<Snapshot>, clock: int, now: int)
    requires cfg.Valid()
    ensures NodeInv(Boot(cfg, opts, durable, disk, clock, now), clock)
  {
    hide RestorePending, Verified;
    if durable && Restorable(cfg, disk, clock) {
      RestoredPoolIsClean(Replay(cfg, clock, disk.value.chain).value, opts, disk.value.pending, now);
    } else {
      assert Hashes([]) == {};
    }
  }

  /** A pool that satisfies the invariant survives being written and read back, exactly when the time
      to live is not negative (or it was empty). Only the arrival times are renewed. */
  lemma RestoringIsLossless(s: Accounts, opts: MempoolOptions, pool: Pool, now: int)
    requires PoolInv(s, pool)
    ensures RestorePending(s, opts, pool.pending, now).pending == pool.pending
       <==> opts.txTtlMs >= 0 || pool.pending == []
    ensures opts.txTtlMs >= 0 ==>
              RestorePending(s, opts, pool.pending, now).received == map h | h in pool.received :: now
  {
    hide Verified, AllVerified, UniqueHashes, Prune, Affordable, Unspent;
    FirstVerifiedIsIdentity(pool.pending);
    if opts.txTtlMs >= 0 {
      var renewed := Pool(pool.pending, map h | h in Hashes(pool.pending) :: now);
      assert renewed.received.Keys == Hashes(renewed.pending);
      PruneIsIdentity(s, opts, renewed, now);
    } else {
      RestoredPoolIsClean(s, opts, pool.pending, now);
    }
  }

  /** Restart is lossless: a node rebuilt from its own file at any later time has the same chain, an
      equal state and the same pending list in the same order. */
  lemma RestartIsLossless(n: Node, clock: int, later: int, now: int)
    requires NodeInv(n, clock) && DiskInv(n) && n.durable && clock <= later
    ensures var r := Boot(n.cfg, n.opts, n.durable, n.disk, later, now);
            && r.chain == n.chain && r.accounts == n.accounts && r.disk == n.disk
            && (r.pool.pending == n.pool.pending <==> n.opts.txTtlMs >= 0 || n.pool.pending == [])
            && (n.opts.txTtlMs >= 0 ==> r.pool.received == map h | h in n.pool.received :: now)
  {
    hide RestorePending, PoolInv;
    if n.disk.Some? {
      ReplayIsMonotone(n.cfg, clock, later, n.chain);
      RestoringIsLossless(n.accounts, n.opts, n.pool, now);
    }
  }

  // ------------------------------------------------------------------------
  // Runs
  // ------------------------------------------------------------------------

  datatype Action =
    | Submit(tx: Transaction)
    | Sweep
    | Receive(b: Block)
    | Adopt(chain: seq<Block>)
    | Restart

  datatype Step = Step(action: Action, clock: int, now: int)

  function Do(n: Node, s: Step): Node
    requires n.cfg.Valid() && |n.chain| > 0
  {
    match s.action
    case Submit(tx) => AddTransaction(n, tx, s.now)
    case Sweep => SweepMempool(n, s.now)
    case Receive(b) => AddBlock(n, b, s.clock, s.now)
    case Adopt(chain) => ReplaceChain(n, chain, s.clock, s.now)
    case Restart => Boot(n.cfg, n.opts, n.durable, n.disk, s.clock, s.now)
  }

  /** The wall clock never runs backwards. */
  predicate Ordered(start: int, steps: seq<Step>) {
    |steps| > 0 ==>
      && Ordered(start, steps[..|steps| - 1])
      && LastClock(start, steps[..|steps| - 1]) <= steps[|steps| - 1].clock
  }

  function LastClock(start: int, steps: seq<Step>): int {
    if |steps| == 0 then start else steps[|steps| - 1].clock
  }

  function Run(n: Node, steps: seq<Step>): (r: Node)
    requires n.cfg.Valid() && |n.chain| > 0
    ensures r.cfg == n.cfg && r.opts == n.opts && r.durable == n.durable && |r.chain| > 0
  {
    if |steps| == 0 then n
    else Do(Run(n, steps[..|steps| - 1]), steps[|steps| - 1])
  }

  /** What holds in addition when the node started without a data file: no two pending transactions
      share a sender and nonce, the size limits hold, and memory and file agree. */
  predicate CleanHistory(n: Node) {
    && UniqueNonces(n.pool.pending)
    && WithinLimits(n.opts, n.pool.pending)
    && (n.opts.txTtlMs >= 0 ==> DiskInv(n))
  }

  lemma PruneKeepsLimits(s: Accounts, opts: MempoolOptions, pool: Pool, now: int)
    ensures WithinLimits(opts, pool.pending) ==> WithinLimits(opts, Prune(s, opts, pool, now).pending)
  {
    hide WithinLimits;
    if WithinLimits(opts, pool.pending) {
      FilterKeepsLimits(opts, pool.pending, Hashes(Kept(s, opts, pool, now)));
    }
  }

  lemma SubmitKeeps(n: Node, tx: Transaction, clock: int, now: int)
    requires NodeInv(n, clock)
    ensures NodeInv(AddTransaction(n, tx, now), clock)
    ensures CleanHistory(n) ==> CleanHistory(AddTransaction(n, tx, now))
  {
    if Admit(n.accounts, n.opts, n.pool, tx) == Added {
      AdmissionKeepsInvariant(n.accounts, n.opts, n.pool, tx, now);
      if WithinLimits(n.opts, n.pool.pending) {
        AdmissionKeepsLimits(n.accounts, n.opts, n.pool, tx, now);
      }
    }
  }

  /** A sweep that removes nothing changes nothing, so skipping the write is right. */
  lemma QuietSweepIsIdentity(n: Node, clock: int, now: int)
    requires NodeInv(n, clock)
    ensures SweepMempool(n, now) == n || |SweepMempool(n, now).pool.pending| < |n.pool.pending|
  {
    PruneOfSameSize(n.accounts, n.opts, n.pool, now);
  }

  lemma SweepKeeps(n: Node, clock: int, now: int)
    requires NodeInv(n, clock)
    ensures NodeInv(SweepMempool(n, now), clock)
    ensures CleanHistory(n) ==> CleanHistory(SweepMempool(n, now))
  {
    hide Prune, Replay, WellKept, Affordable, Unspent;
    PruneEstablishesInvariant(n.accounts, n.opts, n.pool, now);
    PruneKeepsLimits(n.accounts, n.opts, n.pool, now);
    QuietSweepIsIdentity(n, clock, now);
  }

  lemma ReceiveKeeps(n: Node, b: Block, clock: int, now: int)
    requires NodeInv(n, clock) && |n.chain| > 0
    ensures NodeInv(AddBlock(n, b, clock, now), clock)
    ensures CleanHistory(n) ==> CleanHistory(AddBlock(n, b, clock, now))
  {
    AddBlockIsReplay(n, b, clock, now);
    if JudgeBlock(n, b, clock) == Accepted {
      PruneEstablishesInvariant(ApplyBlockTransactions(n.accounts, b).value, n.opts, n.pool, now);
      PruneKeepsLimits(ApplyBlockTransactions(n.accounts, b).value, n.opts, n.pool, now);
    }
  }

  lemma AdoptKeeps(n: Node, chain: seq<Block>, clock: int, now: int)
    requires NodeInv(n, clock)
    ensures NodeInv(ReplaceChain(n, chain, clock, now), clock)
    ensures CleanHistory(n) ==> CleanHistory(ReplaceChain(n, chain, clock, now))
  {
    if Replaces(n, chain, clock) {
      PruneEstablishesInvariant(Replay(n.cfg, clock, chain).value, n.opts, n.pool, now);
      PruneKeepsLimits(Replay(n.cfg, clock, chain).value, n.opts, n.pool, now);
    }
  }

  lemma RestartKeeps(n: Node, clock: int, now: int)
    requires NodeInv(n, clock)
    ensures NodeInv(Boot(n.cfg, n.opts, n.durable, n.disk, clock, now), clock)
    ensures CleanHistory(n) ==> CleanHistory(Boot(n.cfg, n.opts, n.durable, n.disk, clock, now))
  {
    hide RestorePending, PoolInv, Replay;
    BootEstablishesInvariants(n.cfg, n.opts, n.durable, n.disk, clock, now);
    if n.opts.txTtlMs >= 0 && DiskInv(n) && n.durable {
      RestartIsLossless(n, clock, clock, now);
    }
    if n.opts.txTtlMs < 0 && n.durable && Restorable(n.cfg, n.disk, clock) {
      RestoredPoolIsClean(Replay(n.cfg, clock, n.disk.value.chain).value, n.opts, n.disk.value.pending, now);
    }
  }

  /** The main theorem on one node. Start it from any data file whatsoever and let it take any steps
      (transactions, sweeps, blocks and chains from anyone, restarts) under a clock that does not run
      backwards: at every later clock the live state is the one a full replay of its chain computes,
      and the pool satisfies the mempool invariant. Started without a file, it also never holds two
      transactions with one sender and nonce, and its file mirrors its memory. */
  lemma {:induction false} InvariantsHoldOnEveryRun(
      cfg: Config, opts: MempoolOptions, durable: bool, disk: Option<Snapshot>, start: int, now: int,
      steps: seq<Step>, later: int)
    requires cfg.Valid() && Ordered(start, steps) && LastClock(start, steps) <= later
    ensures var n := Run(Boot(cfg, opts, durable, disk, start, now), steps);
            && NodeInv(n, later)
            && Tip(n).data.index == |n.chain| - 1
            && (disk.None? ==> CleanHistory(n))
    decreases |steps|
  {
    var n0 := Boot(cfg, opts, durable, disk, start, now);
    var n := Run(n0, steps);
    if |steps| == 0 {
      BootEstablishesInvariants(cfg, opts, durable, disk, start, now);
      ChainInvIsMonotone(n0, start, later);
    } else {
      var init, last := steps[..|steps| - 1], steps[|steps| - 1];
      InvariantsHoldOnEveryRun(cfg, opts, durable, disk, start, now, init, last.clock);
      StepKeeps(Run(n0, init), last);
      ChainInvIsMonotone(n, last.clock, later);
    }
    TipFacts(n, later);
  }

  /** One step of any kind keeps the invariants. */
  lemma StepKeeps(n: Node, s: Step)
    requires NodeInv(n, s.clock) && |n.chain| > 0
    ensures NodeInv(Do(n, s), s.clock)
    ensures CleanHistory(n) ==> CleanHistory(Do(n, s))
  {
    match s.action
    case Submit(tx) => SubmitKeeps(n, tx, s.clock, s.now);
    case Sweep => SweepKeeps(n, s.clock, s.now);
    case Receive(b) => ReceiveKeeps(n, b, s.clock, s.now);
    case Adopt(chain) => AdoptKeeps(n, chain, s.clock, s.now);
    case Restart => RestartKeeps(n, s.clock, s.now);
  }

  /** A sweep of a node drops exactly what has waited longer than the time to live, and then writes the file. */
  lemma SweepDropsTheOverdue(n: Node, clock: int, now: int)
    requires NodeInv(n, clock)
    ensures var m := SweepMempool(n, now);
            && m.pool.pending == Timely(n.pool.pending, n.pool.received, n.opts.txTtlMs, now)
            && m.chain == n.chain && m.accounts == n.accounts
            && m.disk == (if n.durable && Overdue(n.pool.pending, n.pool.received, n.opts.txTtlMs, now) > 0
                          then Some(Snapshot(m.chain, m.pool.pending)) else n.disk)
  {
    hide Prune, Timely, Overdue, PoolInv, Replay;
    OnlyExpiryPrunes(n.accounts, n.opts, n.pool, now);
  }

  /** The time to live, from submission on: a transaction admitted at one moment is still pending after a sweep at
      another exactly when no more than the time to live lies between them. */
  lemma WaitsItsTime(n: Node, tx: Transaction, clock: int, now: int, later: int)
    requires NodeInv(n, clock) && Admit(n.accounts, n.opts, n.pool, tx) == Added
    ensures tx in AddTransaction(n, tx, now).pool.pending
    ensures tx in SweepMempool(AddTransaction(n, tx, now), later).pool.pending <==> later - now <= n.opts.txTtlMs
  {
    hide Prune, PoolInv, Replay, Admit;
    var m := AddTransaction(n, tx, now);
    assert m.pool.pending[|n.pool.pending|] == tx;
    SubmitKeeps(n, tx, clock, now);
    OnlyExpiryPrunes(m.accounts, m.opts, m.pool, later);
  }

  /** A node leaves its chain exactly for a strictly longer valid one; the first of equal length stays. */
  lemma OnlyLongerReplaces(n: Node, chain: seq<Block>, clock: int, now: int)
    requires ChainInv(n, clock)
    ensures ReplaceChain(n, chain, clock, now).chain
         == if |chain| > |n.chain| && ValidChain(n.cfg, clock, chain) then chain else n.chain
    ensures ReplaceChain(n, chain, clock, now).accounts
         == if |chain| > |n.chain| && ValidChain(n.cfg, clock, chain) then Replay(n.cfg, clock, chain).value
            else n.accounts
  {
    hide Prune, Replay;
  }

  /** Nothing a node holds is there without its author's word, from any data file and after any steps: every
      pending transaction, and every one the chain has applied, is authorised by its sender, and every block
      after block 0 is signed by the validator in turn. */
  lemma NothingIsForged(
      cfg: Config, opts: MempoolOptions, durable: bool, disk: Option<Snapshot>, start: int, now: int, steps: seq<Step>)
    requires cfg.Valid() && Ordered(start, steps)
    ensures var n := Run(Boot(cfg, opts, durable, disk, start, now), steps);
            && (forall t :: t in n.pool.pending || t in ChainTxs(n.chain) ==> Authorised(t) && t.from != t.to)
            && n.cfg == cfg && forall i :: 0 < i < |n.chain| ==> SignedInTurn(cfg, n.chain[i])
  {
    hide Run, Boot, Replay, Verified, Authorised, SignedInTurn, Unspent, Affordable;
    BootKeepsSettings(cfg, opts, durable, disk, start, now);
    var n := Run(Boot(cfg, opts, durable, disk, start, now), steps);
    InvariantsHoldOnEveryRun(cfg, opts, durable, disk, start, now, steps, LastClock(start, steps));
    ReplayMeansValid(n, LastClock(start, steps));
    ChainIsAuthorised(cfg, LastClock(start, steps), n.chain);
    forall t | t in n.pool.pending ensures Authorised(t) && t.from != t.to {
      PendingIsVerified(n.pool, t);
      VerifiedIffSignedBySender(t);
    }
  }

  lemma ReplayMeansValid(n: Node, clock: int)
    requires NodeInv(n, clock)
    ensures n.cfg.Valid() && ValidChain(n.cfg, clock, n.chain)
    ensures WellKept(n.pool)
  {
    hide Replay, WellKept;
  }

  lemma PendingIsVerified(pool: Pool, t: Transaction)
    requires WellKept(pool) && t in pool.pending
    ensures Verified(t) && t.from != t.to
  {
  }

  /** No (sender, nonce) is ever both pending and on the chain. */
  lemma PendingIsNotConfirmed(n: Node, clock: int, t: Transaction)
    requires NodeInv(n, clock) && t in n.pool.pending
    ensures !UsesNonce(ChainTxs(n.chain), t.from, t.nonce)
  {
    ChainNoncesAreExact(n.cfg, clock, n.chain, t.from);
  }

  // ------------------------------------------------------------------------
  // Memory and file
  // ------------------------------------------------------------------------

  /** A step that writes the data file. */
  predicate Writes(n: Node, s: Step)
    requires n.cfg.Valid() && |n.chain| > 0
  {
    && n.durable
    && match s.action
       case Submit(tx) => Admit(n.accounts, n.opts, n.pool, tx) == Added
       case Sweep => |PruneMempool(n, s.now).pool.pending| < |n.pool.pending|
       case Receive(b) => JudgeBlock(n, b, s.clock) == Accepted
       case Adopt(chain) => Replaces(n, chain, s.clock)
       case Restart => false
  }

  predicate HasWritten(n: Node, steps: seq<Step>)
    requires n.cfg.Valid() && |n.chain| > 0
  {
    |steps| > 0 && (HasWritten(n, steps[..|steps| - 1]) || Writes(Run(n, steps[..|steps| - 1]), steps[|steps| - 1]))
  }

  lemma StepKeepsDiskInv(n: Node, s: Step)
    requires NodeInv(n, s.clock) && |n.chain| > 0 && n.opts.txTtlMs >= 0
    requires Writes(n, s) || DiskInv(n)
    ensures DiskInv(Do(n, s))
  {
    hide Prune, Replay, PoolInv, Admit, RestorePending;
    match s.action
    case Submit(_) =>
    case Sweep => SweepMirrors(n, s.clock, s.now);
    case Receive(_) =>
    case Adopt(_) =>
    case Restart =>
      if n.durable {
        RestartIsLossless(n, s.clock, s.clock, s.now);
      }
  }

  lemma SweepMirrors(n: Node, clock: int, now: int)
    requires NodeInv(n, clock)
    requires |PruneMempool(n, now).pool.pending| < |n.pool.pending| || DiskInv(n)
    ensures DiskInv(SweepMempool(n, now))
  {
    hide Prune, Replay, PoolInv;
    QuietSweepIsIdentity(n, clock, now);
  }

  /** Started from any data file, once a node has written it for the first time, file and memory agree at
      every later moment of every run, restarts included; so every restart from a node's own file is
      lossless. */
  lemma {:induction false} FileMirrorsMemory(
      cfg: Config, opts: MempoolOptions, durable: bool, disk: Option<Snapshot>, start: int, now: int,
      steps: seq<Step>, later: int, laterNow: int)
    requires cfg.Valid() && Ordered(start, steps) && LastClock(start, steps) <= later && opts.txTtlMs >= 0
    requires HasWritten(Boot(cfg, opts, durable, disk, start, now), steps)
    ensures var n := Run(Boot(cfg, opts, durable, disk, start, now), steps);
            var r := Boot(cfg, opts, n.durable, n.disk, later, laterNow);
            && DiskInv(n)
            && (n.durable ==> r.chain == n.chain && r.accounts == n.accounts && r.pool.pending == n.pool.pending)
    decreases |steps|
  {
    hide Boot, NodeInv, Writes, DiskInv, Do;
    var n0 := Boot(cfg, opts, durable, disk, start, now);
    BootKeepsSettings(cfg, opts, durable, disk, start, now);
    var init, last := steps[..|steps| - 1], steps[|steps| - 1];
    InvariantsHoldOnEveryRun(cfg, opts, durable, disk, start, now, init, last.clock);
    if HasWritten(n0, init) {
      FileMirrorsMemory(cfg, opts, durable, disk, start, now, init, last.clock, laterNow);
    }
    StepKeepsDiskInv(Run(n0, init), last);
    InvariantsHoldOnEveryRun(cfg, opts, durable, disk, start, now, steps, later);
    var n := Run(n0, steps);
    if n.durable {
      RestartIsLossless(n, later, later, laterNow);
    }
  }

  lemma BootKeepsSettings(
      cfg: Config, opts: MempoolOptions, durable: bool, disk: Option<Snapshot>, clock: int, now: int)
    requires cfg.Valid()
    ensures var n := Boot(cfg, opts, durable, disk, clock, now);
            n.cfg == cfg && n.opts == opts && n.durable == durable && |n.chain| > 0
  {
  }

  // ------------------------------------------------------------------------
  // The chain on file
  // ------------------------------------------------------------------------

  /** What makes a restart keep the chain: a durable node that has more than the genesis block has it on file. */
  predicate ChainOnFile(n: Node) {
    n.durable ==> |n.chain| == 1 || (n.disk.Some? && n.disk.value.chain == n.chain)
  }

  /** A step either leaves chain and file alone or leaves the new chain on file. */
  predicate FileStep(n: Node, m: Node) {
    && m.cfg == n.cfg && m.durable == n.durable
    && ( || (m.chain == n.chain && m.disk == n.disk)
         || (n.durable && m.disk.Some? && m.disk.value.chain == m.chain)
         || (!n.durable && m.disk == n.disk))
  }

  lemma StepIsFileStep(n: Node, s: Step)
    requires n.cfg.Valid() && |n.chain| > 0 && !s.action.Restart?
    ensures FileStep(n, Do(n, s))
    ensures ChainOnFile(n) ==> ChainOnFile(Do(n, s))
  {
    hide Prune, Replay, Admit, JudgeBlock, Replaces;
  }

  lemma BootHasChainOnFile(
      cfg: Config, opts: MempoolOptions, durable: bool, disk: Option<Snapshot>, clock: int, now: int)
    requires cfg.Valid()
    ensures ChainOnFile(Boot(cfg, opts, durable, disk, clock, now))
    ensures Boot(cfg, opts, durable, disk, clock, now).disk == disk
  {
    hide RestorePending, Replay;
  }

  /** So a durable node's restart never shortens its chain. */
  lemma RestartKeepsChain(n: Node, clock: int, now: int)
    requires NodeInv(n, clock) && ChainOnFile(n) && n.durable && |n.chain| > 0
    ensures var r := Boot(n.cfg, n.opts, n.durable, n.disk, clock, now);
            && NodeInv(r, clock) && ChainOnFile(r) && |r.chain| >= |n.chain| && r.cfg == n.cfg && r.disk == n.disk
            && r.durable
            && (|n.chain| > 1 ==> r.chain == n.chain)
            && (r.chain == [Genesis(n.cfg)] || (n.disk.Some? && r.chain == n.disk.value.chain))
  {
    hide RestorePending, PoolInv, Replay, Genesis;
    BootEstablishesInvariants(n.cfg, n.opts, n.durable, n.disk, clock, now);
    BootHasChainOnFile(n.cfg, n.opts, n.durable, n.disk, clock, now);
    BootKeepsSettings(n.cfg, n.opts, n.durable, n.disk, clock, now);
  }
}
