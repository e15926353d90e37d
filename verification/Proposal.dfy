/** Proposing a block: the timer tick and the API call, which check the same guards in a different
    order and end in the same local addBlock. */
module Proposal {
  import opened Types
  import opened Transactions
  import opened World
  import opened Blocks
  import opened Consensus
  import opened Mempool
  import opened Selection
  import opened Ledger
  import opened Chain
  import Validators

  /** The block a validator builds on its own tip at time `now`. */
  function BuildBlock(n: Node, key: PrivateKey, now: int, salt: nat): Block
    requires |n.chain| > 0
  {
    ProposeBlock(
      BlockData(Tip(n).data.index + 1, now, SelectForBlock(n.accounts, n.opts, n.pool.pending), true,
                Tip(n).hash, key.public),
      key, salt)
  }

  /** The wait is over, the slot is unused, and it is ours. */
  predicate MayPropose(n: Node, key: PrivateKey, now: int)
    requires n.cfg.Valid() && |n.chain| > 0
  {
    && GetSlotWaitRemaining(n.cfg, now) <= 0
    && GetSlot(n.cfg, now) > BlockSlot(n.cfg, Tip(n))
    && SlotOwner(n.cfg, GetSlot(n.cfg, now)) == key.public
  }

  predicate ShouldPropose(n: Node, key: PrivateKey, now: int)
    requires n.cfg.Valid() && |n.chain| > 0
  {
    MayPropose(n, key, now) && SelectForBlock(n.accounts, n.opts, n.pool.pending) != []
  }

  /** The guards are exact: the local chain accepts the block built at `now`, whenever after `now` it
      gets to judge it, if and only if the guards held. Its transactions always apply. */
  lemma GuardsAreExact(n: Node, key: PrivateKey, now: int, clock: int, salt: nat)
    requires NodeInv(n, clock) && |n.chain| > 0 && now <= clock && key.public.Pem?
    ensures JudgeBlock(n, BuildBlock(n, key, now, salt), clock) == Accepted <==> MayPropose(n, key, now)
    ensures ApplyBlockTransactions(n.accounts, BuildBlock(n, key, now, salt))
         == Some(AfterSelection(n.accounts, n.opts, n.pool.pending))
  {
    hide Verified, SelectForBlock, Unspent, Affordable, GetSlot, SlotOwner, ApplyTxs, Replay;
    var selected := SelectForBlock(n.accounts, n.opts, n.pool.pending);
    TipFacts(n, clock);
    SelectionIsVerified(n.accounts, n.opts, n.pool);
  }

  /** When a node proposes, told from the fields: the time is at least the wait into a slot later than the tip's,
      the slot belongs to the key's place in the list, and some sender's next transaction is pending. */
  lemma ProposesIff(n: Node, key: PrivateKey, now: int, clock: int)
    requires NodeInv(n, clock) && |n.chain| > 0
    ensures ShouldPropose(n, key, now) <==>
      var d := n.cfg.slotDurationMs;
      && now % d >= n.cfg.slotWaitMs
      && now / d > Tip(n).data.timestamp / d
      && n.cfg.validators[(now / d) % |n.cfg.validators|] == key.public
      && n.opts.maxTxsPerBlock > 0 && exists t :: t in n.pool.pending && t.nonce == Nonce(n.accounts, t.from)
  {
    hide SelectForBlock, PoolInv, Replay;
    var slot, m := GetSlot(n.cfg, now), |n.cfg.validators|;
    SomethingToSelect(n.accounts, n.opts, n.pool);
    TimeIntoSlotIsRemainder(now, n.cfg.slotDurationMs);
    Validators.TurnsFollowTheList(n.cfg.validators, slot / m, slot % m);
  }

  lemma SelectionIsVerified(s: Accounts, opts: MempoolOptions, pool: Pool)
    requires AllVerified(pool.pending)
    ensures AllVerified(SelectForBlock(s, opts, pool.pending))
    ensures ApplyTxs(s, SelectForBlock(s, opts, pool.pending)).Some?
  {
    SelectMembers(s, SortTxs(pool.pending), opts.maxTxsPerBlock);
    SortTxsProperties(pool.pending);
    VerifiedMembers(pool.pending, SelectForBlock(s, opts, pool.pending));
  }

  /** What an accepted proposal leaves: the unexpired transactions whose nonce the block did not confirm, in
      their order. Nothing but the selected and the expired is gone exactly when no unexpired transaction
      lost to a selected one with its sender and nonce. With no expiry no sender's next nonce moves. */
  lemma ProposalEffect(n: Node, key: PrivateKey, now: int, clock: int, poolNow: int, salt: nat, a: string)
    requires NodeInv(n, clock) && |n.chain| > 0 && now <= clock && key.public.Pem?
    requires MayPropose(n, key, now)
    ensures var after := AddBlock(n, BuildBlock(n, key, now, salt), clock, poolNow);
            var selected := SelectForBlock(n.accounts, n.opts, n.pool.pending);
            && after.chain == n.chain + [BuildBlock(n, key, now, salt)]
            && after.pool.pending == Left(n.pool.pending, after.accounts, n.pool.received, n.opts, poolNow)
            && (after.pool.pending == Remaining(n.pool.pending, selected, n.pool.received, n.opts, poolNow)
                <==> forall t :: t in n.pool.pending && !Expired(n.pool.received, n.opts, poolNow, t) ==>
                       !HasSelectedRival(selected, t))
            && ((forall t :: t in n.pool.pending ==> !Expired(n.pool.received, n.opts, poolNow, t)) ==>
                  NextNonce(after.accounts, after.pool.pending, a) == NextNonce(n.accounts, n.pool.pending, a))
  {
    hide SelectForBlock, PoolInv, ApplyTxs, Replay, NextNonce, Prune, MayPropose, Left, Remaining, HasSelectedRival,
         Expired, BuildBlock, AfterSelection;
    GuardsAreExact(n, key, now, clock, salt);
    ProposalLeavesUnconsumed(n.accounts, n.opts, n.pool, poolNow);
    ProposalDropsOnlySelectedIff(n.accounts, n.opts, n.pool, poolNow);
    if forall t :: t in n.pool.pending ==> !Expired(n.pool.received, n.opts, poolNow, t) {
      ProposalKeepsNextNonces(n.accounts, n.opts, n.pool, poolNow, a);
    }
  }

  datatype ProposeResult =
    | NoKeys | NothingPending | Waiting | SlotUsed | NotMyTurn | NothingValid | Refused
    | Proposed(block: Block)

  /** One tick of the automatic proposer. `clock` and `poolNow` are read when the block is added. */
  method Tick(bc: Blockchain, key: PrivateKey, now: int, clock: int, poolNow: int, salt: nat)
    returns (r: ProposeResult)
    requires bc.Valid() && NodeInv(bc.View(), clock) && now <= clock && key.public.Pem?
    modifies bc, bc.state
    ensures bc.Valid()
    ensures r.Proposed? <==> ShouldPropose(old(bc.View()), key, now)
    ensures r.Proposed? ==>
              && r.block == BuildBlock(old(bc.View()), key, now, salt)
              && bc.View() == AddBlock(old(bc.View()), r.block, clock, poolNow)
              && bc.chain == old(bc.chain) + [r.block]
    ensures !r.Proposed? ==> bc.View() == old(bc.View())
  {
    hide Verified, Unspent, Affordable, ApplyTxs, Replay, Select, SortTxs, PoolInv, GetSlot, SlotOwner;
    var currentSlot := GetSlot(bc.cfg, now);
    if |bc.pending| == 0 {
      NothingToSelect(bc.state.accounts, bc.opts);
      return NothingPending;
    }
    if GetSlotWaitRemaining(bc.cfg, now) > 0 { return Waiting; }
    var latest := bc.chain[|bc.chain| - 1];
    if currentSlot <= GetSlot(bc.cfg, latest.data.timestamp) { return SlotUsed; }
    if SlotOwner(bc.cfg, currentSlot) != key.public { return NotMyTurn; }
    var txs := bc.SelectTransactionsForBlock();
    if |txs| == 0 { return NothingValid; }
    var block := ProposeBlock(
      BlockData(latest.data.index + 1, now, txs, true, latest.hash, key.public), key, salt);
    GuardsAreExact(bc.View(), key, now, clock, salt);
    var outcome := bc.AddBlock(Plain(block), clock, poolNow);
    if outcome == Some(Accepted) { return Proposed(block); }
    return Refused;
  }

  lemma NothingToSelect(s: Accounts, opts: MempoolOptions)
    ensures SelectForBlock(s, opts, []) == []
  {
  }

  /** The API's `propose` call. Whenever it does not propose it reports why and changes nothing, and it
      proposes in exactly the situations in which the timer would. */
  method ProposeNow(bc: Blockchain, keys: Option<PrivateKey>, now: int, clock: int, poolNow: int, salt: nat)
    returns (r: ProposeResult)
    requires bc.Valid() && NodeInv(bc.View(), clock) && now <= clock
    requires keys.Some? ==> keys.value.public.Pem?
    modifies bc, bc.state
    ensures bc.Valid()
    ensures r.Proposed? <==> keys.Some? && ShouldPropose(old(bc.View()), keys.value, now)
    ensures r.Proposed? ==>
              && r.block == BuildBlock(old(bc.View()), keys.value, now, salt)
              && bc.View() == AddBlock(old(bc.View()), r.block, clock, poolNow)
              && bc.chain == old(bc.chain) + [r.block]
    ensures !r.Proposed? ==> bc.View() == old(bc.View())
  {
    hide Verified, Unspent, Affordable, ApplyTxs, Replay, Select, SortTxs, PoolInv, GetSlot, SlotOwner;
    if keys.None? { return NoKeys; }
    var key := keys.value;
    if GetSlotWaitRemaining(bc.cfg, now) > 0 { return Waiting; }
    var latest := bc.chain[|bc.chain| - 1];
    var nextIndex := latest.data.index + 1;
    var currentSlot := GetSlot(bc.cfg, now);
    if currentSlot <= GetSlot(bc.cfg, latest.data.timestamp) { return SlotUsed; }
    if SlotOwner(bc.cfg, currentSlot) != key.public { return NotMyTurn; }
    var transactions := bc.SelectTransactionsForBlock();
    if |transactions| == 0 { return NothingValid; }
    var block := ProposeBlock(
      BlockData(nextIndex, now, transactions, true, latest.hash, key.public), key, salt);
    GuardsAreExact(bc.View(), key, now, clock, salt);
    var outcome := bc.AddBlock(Plain(block), clock, poolNow);
    if outcome != Some(Accepted) { return Refused; }
    return Proposed(block);
  }
}
