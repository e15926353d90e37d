/** The ledger as the program keeps it: fields updated in place by methods and loops, each method
    proved against its step in module Ledger. */
module Chain {
  import opened Types
  import opened Transactions
  import opened World
  import opened Blocks
  import opened Consensus
  import opened Mempool
  import opened Ledger
  import opened Pruning
  import opened Selection

  class Blockchain {
    const cfg: Config
    const opts: MempoolOptions
    const durable: bool

    var chain: seq<Block>
    var state: WorldState
    var pending: seq<Transaction>
    var received: map<Hash, int>
    var disk: Option<Snapshot>

    ghost predicate Valid()
      reads this
    {
      cfg.Valid() && |chain| > 0
    }

    /** The value this object stands for. */
    ghost function View(): Node
      reads this, state
    {
      Node(cfg, opts, durable, chain, state.accounts, Pool(pending, received), disk)
    }

    constructor (cfg: Config, opts: MempoolOptions, durable: bool, file: Option<Snapshot>, clock: int, now: int)
      requires cfg.Valid()
      ensures Valid() && fresh(state)
      ensures View() == Boot(cfg, opts, durable, file, clock, now)
    {
      this.cfg, this.opts, this.durable, this.disk := cfg, opts, durable, file;
      this.chain := [Genesis(cfg)];
      this.pending, this.received := [], map[];
      this.state := new WorldState(cfg.allocations);
      new;
      if durable && file.Some? {
        var ok, blocks, restored := ValidateChain(Blocks.Sent(file.value.chain), clock);
        if ok {
          chain, state := blocks, restored;
          RestorePending(file.value.pending, now);
        }
      }
    }

    method Persist()
      requires Valid()
      modifies this`disk
      ensures Valid() && View() == Ledger.Persist(old(View()))
    {
      if durable {
        disk := Some(Snapshot(chain, pending));
      }
    }

    method GetNextNonce(address: string) returns (next: int)
      requires Valid()
      ensures next == NextNonce(state.accounts, pending, address)
    {
      next := Nonce(state.accounts, address);
      ghost var start := next;
      while UsesNonce(pending, address, next)
        invariant start <= next
        invariant forall u :: start <= u < next ==> UsesNonce(pending, address, u)
        decreases |NoncesAbove(pending, address, next)|
      {
        assert next in NoncesAbove(pending, address, next);
        assert NoncesAbove(pending, address, next + 1) <= NoncesAbove(pending, address, next) - {next};
        SubsetIsSmaller(NoncesAbove(pending, address, next + 1), NoncesAbove(pending, address, next) - {next});
        next := next + 1;
      }
      NextNonceIsLeast(pending, address, start, next);
    }

    /** The fold over one sender's pending transactions. */
    static method SumOf(mine: seq<Transaction>, a: string) returns (total: int)
      requires forall t :: t in mine ==> t.from == a
      ensures total == SumFrom(mine, a)
    {
      total := 0;
      for i := 0 to |mine|
        invariant total == SumFrom(mine[..i], a)
      {
        assert mine[..i + 1] == mine[..i] + [mine[i]];
        SumFromSnoc(mine[..i], mine[i], a);
        total := total + mine[i].amount;
      }
      assert mine[..|mine|] == mine;
    }

    method AddTransaction(tx: Transaction, now: int) returns (r: AddResult)
      requires Valid()
      modifies this`pending, this`received, this`disk
      ensures Valid() && r == Admit(old(state.accounts), opts, old(View()).pool, tx)
      ensures View() == Ledger.AddTransaction(old(View()), tx, now)
      ensures pending == old(pending) + (if r == Added then [tx] else [])
      ensures received == if r == Added then old(received)[tx.hash := now] else old(received)
    {
      hide Verified, SumFrom, SentBy;
      if |pending| >= opts.maxPoolSize { return PoolFull; }
      if exists t :: t in pending && t.hash == tx.hash { return DuplicateTx; }
      if !Verified(tx) { return InvalidTx; }
      var confirmed := Nonce(state.accounts, tx.from);
      if tx.nonce < confirmed { return NonceUsed; }
      var mine := SentBy(pending, tx.from);
      SentByMembers(pending, tx.from);
      if exists t :: t in mine && t.nonce == tx.nonce { return NoncePending; }
      if |mine| >= opts.maxPendingPerSender { return TooManyPending; }
      if tx.nonce >= confirmed + opts.maxPendingPerSender { return NonceTooFar; }
      var total := SumOf(mine, tx.from);
      SentBySum(pending, tx.from);
      if Balance(state.accounts, tx.from) < total + tx.amount { return Insufficient; }
      pending := pending + [tx];
      received := received[tx.hash := now];
      Persist();
      return Added;
    }

    method SelectTransactionsForBlock() returns (selected: seq<Transaction>)
      requires Valid()
      ensures selected == SelectForBlock(state.accounts, opts, pending)
    {
      hide SortTxs, Select, ApplyTxs;
      var sim := state.Clone();
      var sorted := SortTxs(pending);
      selected := [];
      assert sorted[..0] == [];
      NothingSelected(state.accounts, opts.maxTxsPerBlock);
      for i := 0 to |sorted|
        invariant selected == Select(state.accounts, sorted[..i], opts.maxTxsPerBlock)
        invariant ApplyTxs(state.accounts, selected) == Some(sim.accounts)
        invariant fresh(sim)
      {
        if |selected| >= opts.maxTxsPerBlock {
          FullSelectionIsFinal(state.accounts, sorted, i, opts.maxTxsPerBlock);
          return;
        }
        var tx := sorted[i];
        SelectionStep(state.accounts, sorted, i, opts.maxTxsPerBlock, sim.accounts);
        var ok := sim.ApplyAll([tx]);
        if ok {
          selected := selected + [tx];
        }
      }
      assert sorted[..|sorted|] == sorted;
    }

    method PruneMempool(now: int)
      requires Valid()
      modifies this`pending, this`received
      ensures Valid() && View() == Ledger.PruneMempool(old(View()), now)
    {
      NothingSpent();
      hide SortTxs, SumFrom, WithHash, Balance, Nonce;
      var sorted := SortTxs(pending);
      var spent: map<string, int> := map[];
      var keep: seq<Transaction> := [];
      for i := 0 to |sorted|
        invariant keep == Keep(state.accounts, received, opts, now, sorted[..i])
        invariant forall a :: (if a in spent then spent[a] else 0) == SumFrom(keep, a)
        invariant pending == old(pending) && received == old(received)
      {
        var t := sorted[i];
        assert sorted[..i + 1][..i] == sorted[..i];
        if t.nonce < Nonce(state.accounts, t.from) { continue; }
        var arrived := if t.hash in received then received[t.hash] else now;
        if now - arrived > opts.txTtlMs { continue; }
        var total := (if t.from in spent then spent[t.from] else 0) + t.amount;
        if total > Balance(state.accounts, t.from) { continue; }
        spent := spent[t.from := total];
        SpentSnoc(keep, t);
        keep := keep + [t];
      }
      assert sorted[..|sorted|] == sorted;
      var hashes := Hashes(keep);
      received := map h | h in received && h in hashes :: received[h];
      pending := WithHash(pending, hashes);
    }

    method SweepMempool(now: int) returns (removed: int)
      requires Valid()
      modifies this`pending, this`received, this`disk
      ensures Valid() && View() == Ledger.SweepMempool(old(View()), now)
      ensures removed == |old(pending)| - |pending|
      ensures PoolInv(state.accounts, old(View()).pool) ==>
                && pending == Timely(old(pending), old(received), opts.txTtlMs, now)
                && removed == Overdue(old(pending), old(received), opts.txTtlMs, now)
      ensures disk == if durable && removed > 0 then Some(Snapshot(chain, pending)) else old(disk)
    {
      hide Prune, PoolInv, Timely, Overdue;
      if PoolInv(state.accounts, View().pool) {
        OnlyExpiryPrunes(state.accounts, opts, View().pool, now);
      }
      var before := |pending|;
      PruneMempool(now);
      removed := before - |pending|;
      if removed > 0 {
        Persist();
      }
    }

    method RestorePending(raw: seq<Transaction>, now: int)
      requires Valid() && received == map[]
      modifies this`pending, this`received
      ensures Valid()
      ensures Pool(pending, received) == Ledger.RestorePending(state.accounts, opts, raw, now)
    {
      var seen: set<Hash> := {};
      var kept: seq<Transaction> := [];
      for i := 0 to |raw|
        invariant kept == FirstVerified(raw[..i])
        invariant seen == Hashes(kept)
        invariant received == map h | h in Hashes(kept) :: now
      {
        var tx := raw[i];
        assert raw[..i + 1][..i] == raw[..i];
        if !Verified(tx) { continue; }
        if tx.hash in seen { continue; }
        HashesSnoc(kept, tx);
        seen := seen + {tx.hash};
        kept := kept + [tx];
        received := received[tx.hash := now];
      }
      assert raw[..|raw|] == raw;
      pending := kept;
      PruneMempool(now);
    }

    method ApplyTransactionsOf(b: Block, target: WorldState) returns (ok: bool)
      modifies target
      ensures ok == ApplyBlockTransactions(old(target.accounts), b).Some?
      ensures target.accounts
           == if ok then ApplyBlockTransactions(old(target.accounts), b).value else old(target.accounts)
    {
      if !b.data.isArray { return false; }
      for i := 0 to |b.data.transactions|
        invariant forall k :: 0 <= k < i ==> Verified(b.data.transactions[k])
      {
        if !Verified(b.data.transactions[i]) { return false; }
      }
      ok := target.ApplyAll(b.data.transactions);
    }

    /** None when reading the received value throws. */
    method AddBlock(raw: RawBlock, clock: int, now: int) returns (r: Option<Outcome>)
      requires Valid()
      modifies this`chain, this`pending, this`received, this`disk, state
      ensures Valid() && r == JudgeRaw(old(View()), raw, clock)
      ensures View() == if raw.Plain? then Ledger.AddBlock(old(View()), raw.block, clock, now) else old(View())
    {
      if raw.Null? { return None; }
      if raw.Fieldless? { return Some(Rejected); }
      var b := raw.block;
      var latest := chain[|chain| - 1];
      if b.data.index <= latest.data.index { return Some(AlreadyHave); }
      if !IsValidNewBlock(cfg, clock, b, latest) { return Some(Rejected); }
      var ok := ApplyTransactionsOf(b, state);
      if !ok { return Some(Rejected); }
      chain := chain + [b];
      PruneMempool(now);
      Persist();
      return Some(Accepted);
    }

    method ValidateChain(raw: seq<RawBlock>, clock: int)
      returns (ok: bool, blocks: seq<Block>, replayed: WorldState)
      requires cfg.Valid()
      ensures ok == (Parsed(raw).Some? && ValidChain(cfg, clock, Parsed(raw).value))
      ensures ok ==> blocks == Parsed(raw).value
      ensures ok ==> fresh(replayed) && replayed.accounts == Replay(cfg, clock, blocks).value
    {
      hide IsValidNewBlock, ApplyBlockTransactions, Genesis, Parsed;
      blocks := [];
      replayed := new WorldState(cfg.allocations);
      if |raw| == 0 { return false, blocks, replayed; }
      for i := 0 to |raw| {
        if raw[i].Null? { return false, blocks, replayed; }
      }
      if !raw[0].Plain? { return false, blocks, replayed; }
      blocks := [raw[0].block];
      if blocks[0].data.index != 0 || blocks[0].hash != Genesis(cfg).hash {
        InvalidStart(cfg, clock, raw, blocks);
        return false, blocks, replayed;
      }
      for i := 1 to |raw|
        invariant |blocks| == i && forall k :: 0 <= k < i ==> raw[k] == Plain(blocks[k])
        invariant fresh(replayed)
        invariant Replay(cfg, clock, blocks) == Some(replayed.accounts)
      {
        if !raw[i].Plain? { return false, blocks, replayed; }
        var b := raw[i].block;
        ReplayExtends(cfg, clock, blocks, b);
        var applied := false;
        if IsValidNewBlock(cfg, clock, b, blocks[i - 1]) {
          applied := ApplyTransactionsOf(b, replayed);
        }
        blocks := blocks + [b];
        if !applied {
          InvalidStart(cfg, clock, raw, blocks);
          return false, blocks, replayed;
        }
      }
      SameBlocks(raw, blocks);
      ok := true;
    }

    method ReplaceChain(raw: seq<RawBlock>, clock: int, now: int) returns (replaced: bool)
      requires Valid()
      modifies this
      ensures Valid() && replaced == (Parsed(raw).Some? && Replaces(old(View()), Parsed(raw).value, clock))
      ensures View() == if Parsed(raw).Some? then Ledger.ReplaceChain(old(View()), Parsed(raw).value, clock, now)
                        else old(View())
      ensures state == old(state) || fresh(state)
    {
      if |raw| <= |chain| { return false; }
      var ok, blocks, replayed := ValidateChain(raw, clock);
      if !ok { return false; }
      chain, state := blocks, replayed;
      PruneMempool(now);
      Persist();
      return true;
    }
  }

  /** A null block throws, a value without fields has no index that fits, a block is judged. */
  function JudgeRaw(n: Node, raw: RawBlock, clock: int): Option<Outcome>
    requires n.cfg.Valid() && |n.chain| > 0
  {
    match raw
    case Null => None
    case Fieldless => Some(Rejected)
    case Plain(b) => Some(JudgeBlock(n, b, clock))
  }

  /** Blocks that do not replay spoil every list that starts with them. */
  lemma InvalidStart(cfg: Config, clock: int, raw: seq<RawBlock>, blocks: seq<Block>)
    requires cfg.Valid() && 0 < |blocks| <= |raw| && forall k :: 0 <= k < |blocks| ==> raw[k] == Plain(blocks[k])
    requires !ValidChain(cfg, clock, blocks)
    ensures Parsed(raw).Some? ==> !ValidChain(cfg, clock, Parsed(raw).value)
  {
    hide ValidChain;
    if Parsed(raw).Some? {
      assert Parsed(raw).value[..|blocks|] == blocks;
      InvalidPrefix(cfg, clock, Parsed(raw).value, |blocks|);
    }
  }

  lemma SameBlocks(raw: seq<RawBlock>, blocks: seq<Block>)
    requires |raw| == |blocks| && forall k :: 0 <= k < |raw| ==> raw[k] == Plain(blocks[k])
    ensures Parsed(raw) == Some(blocks)
  {
    assert Parsed(raw).value == blocks;
  }

  lemma {:induction false} InvalidPrefix(cfg: Config, clock: int, raw: seq<Block>, k: nat)
    requires cfg.Valid() && 0 < k <= |raw| && !ValidChain(cfg, clock, raw[..k])
    ensures !ValidChain(cfg, clock, raw)
  {
    if ValidChain(cfg, clock, raw) {
      ValidPrefix(cfg, clock, raw, k);
    }
  }

  /** One turn of the selection loop: trying the transaction on the simulated state is what decides. */
  lemma SelectionStep(s: Accounts, txs: seq<Transaction>, i: nat, cap: int, sim: Accounts)
    requires i < |txs| && |Select(s, txs[..i], cap)| < cap
    requires ApplyTxs(s, Select(s, txs[..i], cap)) == Some(sim)
    ensures var k := Select(s, txs[..i], cap);
            && (ApplyTxs(sim, [txs[i]]).None? ==> Select(s, txs[..i + 1], cap) == k)
            && (ApplyTxs(sim, [txs[i]]).Some? ==>
                  && Select(s, txs[..i + 1], cap) == k + [txs[i]]
                  && ApplyTxs(s, k + [txs[i]]) == ApplyTxs(sim, [txs[i]]))
  {
    hide Select, ApplyTxs, Applicable;
    assert txs[..i + 1] == txs[..i] + [txs[i]];
    SelectSnoc(s, txs[..i], txs[i], cap);
    ApplySnoc(s, Select(s, txs[..i], cap), txs[i]);
    ApplyOne(sim, txs[i]);
  }

  lemma NothingSpent()
    ensures forall a :: SumFrom([], a) == 0
  {
  }

  lemma SpentSnoc(txs: seq<Transaction>, t: Transaction)
    ensures forall a :: SumFrom(txs + [t], a) == SumFrom(txs, a) + (if t.from == a then t.amount else 0)
  {
    forall a {
      SumFromSnoc(txs, t, a);
    }
  }

  lemma {:induction false} FullSelectionIsFinal(s: Accounts, txs: seq<Transaction>, i: nat, cap: int)
    requires i <= |txs| && |Select(s, txs[..i], cap)| >= cap
    ensures Select(s, txs, cap) == Select(s, txs[..i], cap)
    decreases |txs|
  {
    hide Select, Applicable, ApplyTxs;
    if i == |txs| {
      assert txs[..i] == txs;
    } else {
      var n := |txs| - 1;
      assert txs[..n][..i] == txs[..i];
      FullSelectionIsFinal(s, txs[..n], i, cap);
      assert txs == txs[..n] + [txs[n]];
      SelectSnoc(s, txs[..n], txs[n], cap);
    }
  }

  /** Filtering by sender first does not change the sum. */
  lemma {:induction false} SentBySum(txs: seq<Transaction>, a: string)
    ensures SumFrom(SentBy(txs, a), a) == SumFrom(txs, a)
  {
    if |txs| == 0 {
      NothingSent(a);
    } else {
      hide SentBy, SumFrom;
      var n := |txs| - 1;
      SentBySum(txs[..n], a);
      assert txs == txs[..n] + [txs[n]];
      SentBySnoc(txs[..n], txs[n], a);
      SumFromSnoc(txs[..n], txs[n], a);
      SumFromSnoc(SentBy(txs[..n], a), txs[n], a);
    }
  }

  lemma NothingSent(a: string)
    ensures SentBy([], a) == [] && SumFrom([], a) == 0
  {
  }
}
