/** The consensus rules: slots, block validity, and the replay of a whole chain from genesis. */
module Consensus {
  import opened Types
  import opened Transactions
  import opened World
  import opened Blocks
  import Validators

  /** Everything two nodes must share to agree on which chains are valid. */
  datatype Config = Config(
    validators: seq<PublicKey>, slotDurationMs: int, slotWaitMs: int, allocations: seq<Entry>)
  {
    /** What the constructors of ValidatorSet and Blockchain demand, and that allocation keys are
        the keys of an object. */
    predicate Valid() {
      && |validators| > 0
      && 0 <= slotWaitMs < slotDurationMs
      && DistinctKeys(allocations)
    }
  }

  const MAX_FUTURE_DRIFT_MS: int := 2000

  function Genesis(cfg: Config): Block {
    CreateGenesisBlock(cfg.allocations, cfg.validators)
  }

  function GetSlot(cfg: Config, t: int): int
    requires cfg.Valid()
  {
    t / cfg.slotDurationMs
  }

  function GetSlotStart(cfg: Config, t: int): int
    requires cfg.Valid()
  {
    GetSlot(cfg, t) * cfg.slotDurationMs
  }

  function GetTimeIntoSlot(cfg: Config, t: int): int
    requires cfg.Valid()
  {
    t - GetSlotStart(cfg, t)
  }

  function GetSlotWaitRemaining(cfg: Config, t: int): int
    requires cfg.Valid()
  {
    var left := cfg.slotWaitMs - GetTimeIntoSlot(cfg, t);
    if left > 0 then left else 0
  }

  function SlotOwner(cfg: Config, slot: int): PublicKey
    requires cfg.Valid()
  {
    Validators.GetValidatorForSlot(cfg.validators, slot)
  }

  /** The structural rules for `b` on top of `prev`, judged at local time `clock`. */
  predicate IsValidNewBlock(cfg: Config, clock: int, b: Block, prev: Block)
    requires cfg.Valid()
  {
    && b.data.index == prev.data.index + 1
    && b.data.previousHash == prev.hash
    && IsHashValid(b)
    && IsSignatureValid(b)
    && GetSlot(cfg, b.data.timestamp) > GetSlot(cfg, prev.data.timestamp)
    && GetTimeIntoSlot(cfg, b.data.timestamp) >= cfg.slotWaitMs
    && b.data.timestamp <= clock + MAX_FUTURE_DRIFT_MS
    && b.data.validatorPublicKey == SlotOwner(cfg, GetSlot(cfg, b.data.timestamp))
  }

  function ApplyBlockTransactions(s: Accounts, b: Block): Option<Accounts> {
    if b.data.isArray && AllVerified(b.data.transactions) then ApplyTxs(s, b.data.transactions) else None
  }

  /** The state a chain leads to, or None when the chain is not valid at `clock`. Block 0 is judged
      by its index and its stored hash alone, and its transactions are not applied. */
  function Replay(cfg: Config, clock: int, chain: seq<Block>): Option<Accounts>
    requires cfg.Valid()
  {
    var n := |chain|;
    if n == 0 then None
    else if n == 1 then
      if chain[0].data.index == 0 && chain[0].hash == Genesis(cfg).hash
      then Some(GenesisAccounts(cfg.allocations)) else None
    else match Replay(cfg, clock, chain[..n - 1])
      case None => None
      case Some(s) =>
        if IsValidNewBlock(cfg, clock, chain[n - 1], chain[n - 2])
        then ApplyBlockTransactions(s, chain[n - 1]) else None
  }

  predicate ValidChain(cfg: Config, clock: int, chain: seq<Block>)
    requires cfg.Valid()
  {
    Replay(cfg, clock, chain).Some?
  }

  /** Every prefix of a valid chain is valid, every block sits at its index, and consecutive blocks
      satisfy the structural rules. */
  lemma {:induction false} ValidPrefix(cfg: Config, clock: int, chain: seq<Block>, k: nat)
    requires cfg.Valid() && ValidChain(cfg, clock, chain) && 0 < k <= |chain|
    ensures ValidChain(cfg, clock, chain[..k])
    ensures chain[k - 1].data.index == k - 1
    ensures k > 1 ==> IsValidNewBlock(cfg, clock, chain[k - 1], chain[k - 2])
    decreases |chain|
  {
    hide IsHashValid, IsSignatureValid, ApplyBlockTransactions, GetSlot, GetTimeIntoSlot, SlotOwner, Genesis;
    var n := |chain|;
    if k < n {
      ValidPrefix(cfg, clock, chain[..n - 1], k);
      assert chain[..n - 1][..k] == chain[..k];
    } else {
      assert chain[..k] == chain;
      if n > 1 {
        ValidPrefix(cfg, clock, chain[..n - 1], n - 1);
      }
    }
  }

  /** Time only makes chains valid: what replays at one clock replays to the same state later. */
  lemma {:induction false} ReplayIsMonotone(cfg: Config, early: int, late: int, chain: seq<Block>)
    requires cfg.Valid() && early <= late && ValidChain(cfg, early, chain)
    ensures Replay(cfg, late, chain) == Replay(cfg, early, chain)
  {
    if |chain| > 1 {
      ReplayIsMonotone(cfg, early, late, chain[..|chain| - 1]);
    }
  }

  /** One accepted block extends the replay by one step. */
  lemma ReplayExtends(cfg: Config, clock: int, chain: seq<Block>, b: Block)
    requires cfg.Valid() && ValidChain(cfg, clock, chain)
    ensures Replay(cfg, clock, chain + [b])
         == if IsValidNewBlock(cfg, clock, b, chain[|chain| - 1])
            then ApplyBlockTransactions(Replay(cfg, clock, chain).value, b) else None
  {
    assert (chain + [b])[..|chain|] == chain;
  }

  /** Block 0 is only judged by its index, its stored hash and its slot: any other block with the genesis
      index and hash can stand in its place, whatever it contains, exactly when its slot is before that of
      block 1, and the resulting state is the same. */
  lemma {:induction false} BlockZeroContentIsUnchecked(cfg: Config, clock: int, chain: seq<Block>, zero: Block)
    requires cfg.Valid() && ValidChain(cfg, clock, chain)
    requires zero.data.index == 0 && zero.hash == Genesis(cfg).hash
    ensures ValidChain(cfg, clock, chain[0 := zero])
       <==> (|chain| > 1 ==> GetSlot(cfg, chain[1].data.timestamp) > GetSlot(cfg, zero.data.timestamp))
    ensures ValidChain(cfg, clock, chain[0 := zero]) ==>
              Replay(cfg, clock, chain[0 := zero]) == Replay(cfg, clock, chain)
  {
    hide IsHashValid, IsSignatureValid, GetSlot, GetTimeIntoSlot, SlotOwner, ApplyBlockTransactions, Genesis;
    var n := |chain|;
    if n > 1 {
      ValidPrefix(cfg, clock, chain, 1);
      BlockZeroContentIsUnchecked(cfg, clock, chain[..n - 1], zero);
      assert chain[0 := zero][..n - 1] == chain[..n - 1][0 := zero];
      assert n > 2 ==> chain[..n - 1][1] == chain[1];
    }
  }

  // ------------------------------------------------------------------------
  // The tip hash determines history
  // ------------------------------------------------------------------------

  /** Two valid chains with one tip hash have the same length, carry the same hashed content in every
      block after block 0, and lead to equal states. (Block signatures are outside the hash.) */
  lemma {:induction false} TipHashDeterminesHistory(
      cfg: Config, c1: int, c2: int, a: seq<Block>, b: seq<Block>)
    requires cfg.Valid() && ValidChain(cfg, c1, a) && ValidChain(cfg, c2, b)
    requires a[|a| - 1].hash == b[|b| - 1].hash
    ensures |a| == |b|
    ensures forall i :: 0 < i < |a| ==> a[i].data == b[i].data
    ensures Replay(cfg, c1, a) == Replay(cfg, c2, b)
    decreases |a|
  {
    hide Genesis, IsValidNewBlock, AllVerified, ApplyTxs;
    TipIndex(cfg, c1, a);
    TipIndex(cfg, c2, b);
    var m, n := |a|, |b|;
    if m > 1 || n > 1 {
      assert m == n;
      assert a[m - 1].data == b[n - 1].data;
      TipHashDeterminesHistory(cfg, c1, c2, a[..m - 1], b[..n - 1]);
      forall i | 0 < i < m ensures a[i].data == b[i].data {
        if i < m - 1 {
          assert a[..m - 1][i].data == b[..n - 1][i].data;
        }
      }
    }
  }

  /** The tip's index is the height, and its hash commits to that index. */
  lemma TipIndex(cfg: Config, clock: int, chain: seq<Block>)
    requires cfg.Valid() && ValidChain(cfg, clock, chain)
    ensures |chain| > 0 && chain[|chain| - 1].data.index == |chain| - 1
    ensures chain[0].hash == Genesis(cfg).hash
    ensures chain[|chain| - 1].hash.BlockHash? && chain[|chain| - 1].hash.data.index == |chain| - 1
    ensures |chain| > 1 ==>
              && chain[|chain| - 1].hash.data == chain[|chain| - 1].data
              && chain[|chain| - 1].data.previousHash == chain[|chain| - 2].hash
  {
    ValidPrefix(cfg, clock, chain, |chain|);
    ValidPrefix(cfg, clock, chain, 1);
  }

  // ------------------------------------------------------------------------
  // Slots over whole chains
  // ------------------------------------------------------------------------

  function BlockSlot(cfg: Config, b: Block): int
    requires cfg.Valid()
  {
    GetSlot(cfg, b.data.timestamp)
  }

  /** Slots strictly increase along a valid chain. */
  lemma {:induction false} SlotsIncrease(cfg: Config, clock: int, chain: seq<Block>, i: nat, j: nat)
    requires cfg.Valid() && ValidChain(cfg, clock, chain) && i <= j < |chain|
    ensures BlockSlot(cfg, chain[j]) >= BlockSlot(cfg, chain[i]) + (j - i)
    decreases j
  {
    if i < j {
      SlotsIncrease(cfg, clock, chain, i, j - 1);
      ValidPrefix(cfg, clock, chain, j + 1);
    }
  }

  lemma DivisionIsMonotone(a: int, b: int, d: int)
    requires d > 0 && a <= b
    ensures a / d <= b / d
  {
    var qa, qb := a / d, b / d;
    assert qa >= qb + 1 ==> qa * d >= (qb + 1) * d;
  }

  /** Height is bounded by time: a chain holds at most one block per slot between block 0 and now
      (plus the drift allowance). */
  lemma HeightIsBoundedByTime(cfg: Config, clock: int, chain: seq<Block>)
    requires cfg.Valid() && ValidChain(cfg, clock, chain)
    ensures |chain| == 1 ||
            |chain| - 1 <= GetSlot(cfg, clock + MAX_FUTURE_DRIFT_MS) - BlockSlot(cfg, chain[0])
  {
    var n := |chain|;
    if n > 1 {
      SlotsIncrease(cfg, clock, chain, 0, n - 1);
      DivisionIsMonotone(chain[n - 1].data.timestamp, clock + MAX_FUTURE_DRIFT_MS, cfg.slotDurationMs);
    }
  }

  /** Two clocks disagree about a chain in one way only: a chain valid at some clock is valid at another one
      if and only if its last block is not too far in that clock's future, and then the state is the
      same. Later blocks have later timestamps, so the last one decides. */
  lemma {:induction false} ValidityIsDrift(cfg: Config, some: int, clock: int, chain: seq<Block>)
    requires cfg.Valid() && ValidChain(cfg, some, chain)
    ensures ValidChain(cfg, clock, chain)
       <==> (|chain| > 1 ==> chain[|chain| - 1].data.timestamp <= clock + MAX_FUTURE_DRIFT_MS)
    ensures ValidChain(cfg, clock, chain) ==> Replay(cfg, clock, chain) == Replay(cfg, some, chain)
  {
    hide IsHashValid, IsSignatureValid, ApplyBlockTransactions, GetTimeIntoSlot, SlotOwner, Genesis;
    var n := |chain|;
    if n > 1 {
      ValidityIsDrift(cfg, some, clock, chain[..n - 1]);
      LaterSlotIsLater(cfg, chain[n - 2].data.timestamp, chain[n - 1].data.timestamp);
    }
  }

  lemma LaterSlotIsLater(cfg: Config, a: int, b: int)
    requires cfg.Valid()
    ensures GetSlot(cfg, a) < GetSlot(cfg, b) ==> a < b
  {
    if b <= a {
      DivisionIsMonotone(b, a, cfg.slotDurationMs);
    }
  }

  predicate DistinctValidators(cfg: Config) {
    forall i, j :: 0 <= i < j < |cfg.validators| ==> cfg.validators[i] != cfg.validators[j]
  }

  lemma SlotGap(early: int, late: int, n: int, d: int, wait: int)
    requires n > 0 && d > 0 && late / d >= early / d + n && late - (late / d) * d >= wait
    ensures late - early > (n - 1) * d + wait
  {
    var si, sj := early / d, late / d;
    assert early < si * d + d;
    assert (sj - si - n) * d >= 0;
    assert sj * d - si * d - n * d >= 0;
  }

  /** Turn spacing: with distinct keys, two blocks of one validator are more than
      (n - 1) slots plus the wait time apart. */
  lemma SameValidatorSpacing(cfg: Config, clock: int, chain: seq<Block>, i: nat, j: nat)
    requires cfg.Valid() && ValidChain(cfg, clock, chain) && 0 < i < j < |chain|
    requires DistinctValidators(cfg)
    requires chain[i].data.validatorPublicKey == chain[j].data.validatorPublicKey
    ensures chain[j].data.timestamp - chain[i].data.timestamp
          > (|cfg.validators| - 1) * cfg.slotDurationMs + cfg.slotWaitMs
  {
    hide ValidChain, IsHashValid, IsSignatureValid;
    var n, d := |cfg.validators|, cfg.slotDurationMs;
    ValidPrefix(cfg, clock, chain, i + 1);
    ValidPrefix(cfg, clock, chain, j + 1);
    SlotsIncrease(cfg, clock, chain, i, j);
    var si, sj := BlockSlot(cfg, chain[i]), BlockSlot(cfg, chain[j]);
    assert Validators.GetIndexForSlot(si, n) == Validators.GetIndexForSlot(sj, n);
    Validators.SameTurnIsFarApart(si, sj, n);
    SlotGap(chain[i].data.timestamp, chain[j].data.timestamp, n, d, cfg.slotWaitMs);
  }

  // ------------------------------------------------------------------------
  // Whole-chain accounting
  // ------------------------------------------------------------------------

  /** Every transaction a chain applies, in order. Block 0 applies none. */
  function ChainTxs(chain: seq<Block>): seq<Transaction> {
    if |chain| <= 1 then []
    else ChainTxs(chain[..|chain| - 1]) + chain[|chain| - 1].data.transactions
  }

  /** Replaying block by block is applying the whole history to the genesis accounts. */
  lemma {:induction false} ReplayIsHistory(cfg: Config, clock: int, chain: seq<Block>)
    requires cfg.Valid() && ValidChain(cfg, clock, chain)
    ensures ApplyTxs(GenesisAccounts(cfg.allocations), ChainTxs(chain)) == Replay(cfg, clock, chain)
    ensures AllVerified(ChainTxs(chain))
  {
    var n := |chain|;
    if n > 1 {
      ReplayIsHistory(cfg, clock, chain[..n - 1]);
      ApplyConcat(GenesisAccounts(cfg.allocations), ChainTxs(chain[..n - 1]), chain[n - 1].data.transactions);
    }
  }

  lemma {:induction false} GenesisNonceIsZero(entries: seq<Entry>, a: string)
    ensures Nonce(GenesisAccounts(entries), a) == 0
  {
    if |entries| > 0 {
      GenesisNonceIsZero(entries[..|entries| - 1], a);
    }
  }

  /** Nonce exactness over a chain: the transactions of one sender, in chain order, carry nonces
      0, 1, 2, ... and the confirmed nonce is how many there are. */
  lemma ChainNoncesAreExact(cfg: Config, clock: int, chain: seq<Block>, a: string)
    requires cfg.Valid() && ValidChain(cfg, clock, chain)
    ensures Nonce(Replay(cfg, clock, chain).value, a) == |SentBy(ChainTxs(chain), a)|
    ensures forall i :: 0 <= i < |SentBy(ChainTxs(chain), a)| ==> SentBy(ChainTxs(chain), a)[i].nonce == i
    ensures forall v :: UsesNonce(ChainTxs(chain), a, v) <==> 0 <= v < Nonce(Replay(cfg, clock, chain).value, a)
  {
    var g := GenesisAccounts(cfg.allocations);
    ReplayIsHistory(cfg, clock, chain);
    GenesisNonceIsZero(cfg.allocations, a);
    NonceExact(g, ChainTxs(chain), a);
    forall v ensures UsesNonce(ChainTxs(chain), a, v) <==> 0 <= v < Nonce(Replay(cfg, clock, chain).value, a) {
      NonceRange(g, ChainTxs(chain), a, v);
    }
  }

  predicate NonNegativeAllocations(cfg: Config) {
    forall i :: 0 <= i < |cfg.allocations| ==> cfg.allocations[i].1 >= 0
  }

  lemma {:induction false} GenesisIsNonNegative(entries: seq<Entry>)
    requires forall i :: 0 <= i < |entries| ==> entries[i].1 >= 0
    ensures NonNegative(GenesisAccounts(entries))
  {
    if |entries| > 0 {
      GenesisIsNonNegative(entries[..|entries| - 1]);
    }
  }

  /** Conservation over a chain: the total is the genesis total, each balance is the starting
      balance plus what was received minus what was sent, and it stays between 0 and the total. */
  lemma ChainConserves(cfg: Config, clock: int, chain: seq<Block>, a: string)
    requires cfg.Valid() && ValidChain(cfg, clock, chain) && NonNegativeAllocations(cfg)
    ensures var g, s := GenesisAccounts(cfg.allocations), Replay(cfg, clock, chain).value;
            && Total(s) == Total(g)
            && NonNegative(s)
            && Balance(s, a) == Balance(g, a) + SumTo(ChainTxs(chain), a) - SumFrom(ChainTxs(chain), a)
            && 0 <= Balance(s, a) <= Total(g)
  {
    var g := GenesisAccounts(cfg.allocations);
    ReplayIsHistory(cfg, clock, chain);
    GenesisIsNonNegative(cfg.allocations);
    Conservation(g, ChainTxs(chain));
    BalanceAccounting(g, ChainTxs(chain), a);
  }

  // ------------------------------------------------------------------------
  // What a valid chain proves
  // ------------------------------------------------------------------------

  /** What a block after block 0 owes the protocol, told from the fields: its place and link, its hash, a slot of
      its own after the wait time, the turn and the signature of the validator of that slot, and a list of
      verified transactions. */
  predicate KeepsToProtocol(cfg: Config, clock: int, b: Block, prev: Block)
    requires cfg.Valid()
  {
    var t, d := b.data.timestamp, cfg.slotDurationMs;
    var owner := cfg.validators[(t / d) % |cfg.validators|];
    && b.data.index == prev.data.index + 1 && b.data.previousHash == prev.hash
    && b.hash == BlockHash(b.data)
    && prev.data.timestamp / d < t / d && cfg.slotWaitMs <= t % d && t <= clock + 2000
    && b.data.validatorPublicKey == owner && owner.Pem?
    && b.signature.Signed? && b.signature.hash == b.hash && b.signature.key == owner
    && b.data.isArray && forall i :: 0 <= i < |b.data.transactions| ==> Verified(b.data.transactions[i])
  }

  lemma TimeIntoSlotIsRemainder(t: int, d: int)
    requires d > 0
    ensures t - (t / d) * d == t % d
  {
  }

  /** One block on a chain: what the code checks is what the protocol asks, as long as the index is not 0. */
  lemma BlockKeepsToProtocol(cfg: Config, clock: int, b: Block, prev: Block)
    requires cfg.Valid() && prev.data.index >= 0
    ensures IsValidNewBlock(cfg, clock, b, prev) && b.data.isArray && AllVerified(b.data.transactions)
       <==> KeepsToProtocol(cfg, clock, b, prev)
  {
    hide Verified;
    TimeIntoSlotIsRemainder(b.data.timestamp, cfg.slotDurationMs);
    Validators.TurnsFollowTheList(cfg.validators, GetSlot(cfg, b.data.timestamp) / |cfg.validators|,
                                  GetSlot(cfg, b.data.timestamp) % |cfg.validators|);
  }

  /** A chain is valid exactly when it starts with the genesis index and hash, every later block keeps to the
      protocol on top of the one before, and the history as a whole applies to the genesis accounts. */
  lemma {:induction false} ValidChainIff(cfg: Config, clock: int, chain: seq<Block>)
    requires cfg.Valid()
    ensures ValidChain(cfg, clock, chain) <==>
      && |chain| > 0 && chain[0].data.index == 0 && chain[0].hash == Genesis(cfg).hash
      && (forall i :: 0 < i < |chain| ==> KeepsToProtocol(cfg, clock, chain[i], chain[i - 1]))
      && ApplyTxs(GenesisAccounts(cfg.allocations), ChainTxs(chain)).Some?
  {
    hide KeepsToProtocol, IsValidNewBlock, AllVerified, ApplyTxs, Genesis;
    var g, n := GenesisAccounts(cfg.allocations), |chain|;
    if n == 1 {
      ApplyNothing(g);
    } else if n > 1 {
      var init := chain[..n - 1];
      ValidChainIff(cfg, clock, init);
      ApplyConcat(g, ChainTxs(init), chain[n - 1].data.transactions);
      if ValidChain(cfg, clock, init) {
        ReplayIsHistory(cfg, clock, init);
        TipIndex(cfg, clock, init);
        BlockKeepsToProtocol(cfg, clock, chain[n - 1], chain[n - 2]);
      } else if |init| > 0 && ApplyTxs(g, ChainTxs(chain)).Some? {
        assert ApplyTxs(g, ChainTxs(init)).Some?;
        SharedRules(cfg, clock, chain, n - 1);
      }
    }
  }

  lemma SharedRules(cfg: Config, clock: int, chain: seq<Block>, k: nat)
    requires cfg.Valid() && k <= |chain|
    ensures (forall i :: 0 < i < |chain| ==> KeepsToProtocol(cfg, clock, chain[i], chain[i - 1])) ==>
              forall i :: 0 < i < k ==> KeepsToProtocol(cfg, clock, chain[..k][i], chain[..k][i - 1])
  {
    hide KeepsToProtocol;
  }

  lemma ApplyNothing(s: Accounts)
    ensures ApplyTxs(s, []) == Some(s)
  {
  }

  /** The key of the validator at the place of the block's slot, and a signature by it over the block's hash. */
  predicate SignedInTurn(cfg: Config, b: Block)
    requires cfg.Valid()
  {
    && b.data.validatorPublicKey == cfg.validators[(b.data.timestamp / cfg.slotDurationMs) % |cfg.validators|]
    && b.signature.Signed? && b.signature.hash == b.hash && b.signature.key == b.data.validatorPublicKey
  }

  lemma ProtocolMeansSigned(cfg: Config, clock: int, b: Block, prev: Block)
    requires cfg.Valid() && KeepsToProtocol(cfg, clock, b, prev)
    ensures SignedInTurn(cfg, b)
  {
    hide Verified;
  }

  /** Who wrote a chain: every block after block 0 was signed, over its hash, with the key that stands in the
      configuration at the place of its slot, and every transaction in it was authorised by its sender. */
  lemma ChainIsAuthorised(cfg: Config, clock: int, chain: seq<Block>)
    requires cfg.Valid() && ValidChain(cfg, clock, chain)
    ensures forall i :: 0 < i < |chain| ==> SignedInTurn(cfg, chain[i])
    ensures forall t :: t in ChainTxs(chain) ==> Authorised(t) && t.from != t.to
  {
    hide ValidChain, KeepsToProtocol, SignedInTurn, Authorised, Verified, ApplyTxs;
    ValidChainIff(cfg, clock, chain);
    ReplayIsHistory(cfg, clock, chain);
    forall i | 0 < i < |chain| ensures SignedInTurn(cfg, chain[i]) {
      ProtocolMeansSigned(cfg, clock, chain[i], chain[i - 1]);
    }
    forall t | t in ChainTxs(chain) ensures Authorised(t) && t.from != t.to {
      VerifiedIffSignedBySender(t);
    }
  }

  // ------------------------------------------------------------------------
  // The HELLO compatibility check
  // ------------------------------------------------------------------------

  /** What a node compares when it receives a HELLO. */
  predicate Compatible(a: Config, b: Config) {
    && Genesis(a).hash == Genesis(b).hash
    && a.slotDurationMs == b.slotDurationMs
    && a.slotWaitMs == b.slotWaitMs
  }

  /** Two nodes that pass the compatibility check judge every chain alike, down to the state. */
  lemma {:induction false} CompatibleNodesAgree(a: Config, b: Config, clock: int, chain: seq<Block>)
    requires a.Valid() && b.Valid() && Compatible(a, b)
    ensures Replay(a, clock, chain) == Replay(b, clock, chain)
  {
    GenesisCommitsToConfig(a.allocations, a.validators, b.allocations, b.validators);
    if |chain| > 1 {
      CompatibleNodesAgree(a, b, clock, chain[..|chain| - 1]);
    }
  }
}
