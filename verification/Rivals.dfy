/** A pool restored from a file may list two transactions with one sender and nonce: a node on which a proposal
    drops a transaction that it did not select. */
module Rivals {
  import opened Types
  import opened Transactions
  import opened World
  import opened Blocks
  import opened Consensus
  import opened Mempool
  import opened Pruning
  import opened Selection
  import opened Ledger

  const OPTIONS: MempoolOptions := MempoolOptions(10, 10, 10, 1000)

  /** One validator, and one account with three units. */
  function ConfigFor(a: string): Config {
    Config([Pem(0, "validator")], 10, 0, [(a, 3)])
  }

  /** Two payments of `a` with nonce 0, of one and of two units. */
  function Listed(a: string): seq<Transaction>
    requires IsAddress(a)
  {
    [Payment(a, 1, 0), Payment(a, 2, 0)]
  }

  function File(a: string): Snapshot
    requires IsAddress(a)
  {
    Snapshot([Genesis(ConfigFor(a))], Listed(a))
  }

  function Restored(a: string): Node
    requires IsAddress(a)
  {
    Boot(ConfigFor(a), OPTIONS, true, Some(File(a)), 0, 0)
  }

  function Rich(a: string): Accounts {
    map[a := Account(3, 0)]
  }

  lemma PoolOfTwo(s: Accounts, first: Transaction, second: Transaction, arrived: int)
    requires Verified(first) && Verified(second) && first.from == second.from && first.hash != second.hash
    requires first.nonce >= Nonce(s, first.from) && second.nonce >= Nonce(s, first.from)
    requires first.amount + second.amount <= Balance(s, first.from)
    ensures PoolInv(s, Pool([first, second], map h | h in Hashes([first, second]) :: arrived))
  {
    hide Verified, SumFrom, Hashes, UniqueHashes, Balance, Nonce;
    var txs := [first, second];
    assert ([] + [first]) + [second] == txs;
    NothingListed(first.from);
    HashesSnoc([], first);
    HashesSnoc([] + [first], second);
    SumFromSnoc([], first, first.from);
    SumFromSnoc([] + [first], second, first.from);
    assert forall t :: t in txs ==> t == first || t == second;
  }

  lemma NothingListed(a: string)
    ensures Hashes([]) == {} && UniqueHashes([]) && SumFrom([], a) == 0
  {
  }

  lemma ListedPool(a: string, arrived: int)
    requires IsAddress(a)
    ensures PoolInv(Rich(a), Pool(Listed(a), map h | h in Hashes(Listed(a)) :: arrived))
  {
    hide Verified, IsAddress, Hashes, PoolInv;
    PaymentIsVerified(a, 1, 0);
    PaymentIsVerified(a, 2, 0);
    PoolOfTwo(Rich(a), Payment(a, 1, 0), Payment(a, 2, 0), arrived);
  }

  /** The file is accepted as it is: both transactions are pending. */
  lemma BothAreRestored(a: string)
    requires IsAddress(a)
    ensures var n := Restored(a);
            && n.cfg == ConfigFor(a) && n.cfg.Valid() && n.opts == OPTIONS && n.accounts == Rich(a)
            && n.chain == [Genesis(ConfigFor(a))]
            && n.pool == Pool(Listed(a), map h | h in Hashes(Listed(a)) :: 0)
            && NodeInv(n, 0) && !UniqueNonces(n.pool.pending)
  {
    hide RestorePending, PoolInv, Verified, IsAddress, Hashes, UniqueNonces;
    var pool := Pool(Listed(a), map h | h in Hashes(Listed(a)) :: 0);
    assert GenesisAccounts([(a, 3)][..0]) == map[];
    assert GenesisAccounts([(a, 3)]) == Rich(a);
    ListedPool(a, 0);
    RestoringIsLossless(Rich(a), OPTIONS, pool, 0);
    assert pool.received.Keys == Hashes(Listed(a));
    RivalsAreNotUnique(a);
    BootEstablishesInvariants(ConfigFor(a), OPTIONS, true, Some(File(a)), 0, 0);
  }

  lemma RivalsAreNotUnique(a: string)
    requires IsAddress(a)
    ensures !UniqueNonces(Listed(a))
  {
    assert Listed(a)[..1] == [Payment(a, 1, 0)] && Payment(a, 1, 0) in Listed(a)[..1];
  }

  /** The selector takes the first and cannot take the second. */
  lemma FirstIsSelected(a: string)
    requires IsAddress(a)
    ensures SelectForBlock(Rich(a), OPTIONS, Listed(a)) == [Payment(a, 1, 0)]
    ensures Nonce(AfterSelection(Rich(a), OPTIONS, Listed(a)), a) == 1
  {
    hide IsAddress, Select, SortTxs, ApplyTxs;
    var first, second := Payment(a, 1, 0), Payment(a, 2, 0);
    SortedAlready(first, second);
    NothingSelected(Rich(a), 10);
    ApplyOne(Rich(a), first);
    SelectSnoc(Rich(a), [], first, 10);
    SelectSnoc(Rich(a), [] + [first], second, 10);
    assert [] + [first] == [first] && [first] + [second] == Listed(a);
  }

  lemma SortedAlready(first: Transaction, second: Transaction)
    requires !Before(second, first)
    ensures SortTxs([first, second]) == [first, second]
  {
    assert [first, second][..1] == [first] && [first][..0] == [];
    assert SortTxs([first]) == [first];
  }

  /** The second transaction goes without having been selected, and without having expired. */
  lemma RivalIsDropped(a: string)
    requires IsAddress(a)
    ensures var n := Restored(a);
            var selected := SelectForBlock(n.accounts, n.opts, n.pool.pending);
            var second := Payment(a, 2, 0);
            && NodeInv(n, 0) && !UniqueNonces(n.pool.pending)
            && second in n.pool.pending && second !in selected && !Expired(n.pool.received, n.opts, 0, second)
            && HasSelectedRival(selected, second)
            && Prune(AfterSelection(n.accounts, n.opts, n.pool.pending), n.opts, n.pool, 0).pending == []
            && Remaining(n.pool.pending, selected, n.pool.received, n.opts, 0) == [second]
  {
    hide PoolInv, Boot, IsAddress, Prune, SelectForBlock, AfterSelection, Verified, UniqueNonces;
    var n := Restored(a);
    var first, second := Payment(a, 1, 0), Payment(a, 2, 0);
    BothAreRestored(a);
    FirstIsSelected(a);
    ProposalLeavesUnconsumed(Rich(a), OPTIONS, n.pool, 0);
    var m := AfterSelection(Rich(a), OPTIONS, Listed(a));
    assert Listed(a)[..1] == [first] && [first][..0] == [];
    assert first in Listed(a) && second in Listed(a) && first != second;
    assert first in [first];
    OnlyFirstGoes(n.pool, first, second, m);
  }

  lemma OnlyFirstGoes(pool: Pool, first: Transaction, second: Transaction, m: Accounts)
    requires pool.pending == [first, second] && first != second && first.from == second.from
    requires first.nonce < Nonce(m, first.from) && second.nonce < Nonce(m, second.from)
    requires forall h :: h in pool.received ==> pool.received[h] == 0
    ensures Left(pool.pending, m, pool.received, OPTIONS, 0) == []
    ensures Remaining(pool.pending, [first], pool.received, OPTIONS, 0) == [second]
  {
    hide Left, Remaining, IsLeft, Nonce;
    NothingLeft(m, pool.received, OPTIONS, 0);
    NothingRemaining([first], pool.received);
    LeftSnoc([], first, m, pool.received, OPTIONS, 0);
    LeftSnoc([] + [first], second, m, pool.received, OPTIONS, 0);
    RemainingSnoc([], first, [first], pool.received, OPTIONS, 0);
    RemainingSnoc([] + [first], second, [first], pool.received, OPTIONS, 0);
    ConfirmedIsNotLeft(m, pool.received, first);
    ConfirmedIsNotLeft(m, pool.received, second);
    assert [] + [first] + [second] == pool.pending;
    assert first in [first] && second !in [first];
  }

  lemma NothingRemaining(gone: seq<Transaction>, received: map<Hash, int>)
    ensures Remaining([], gone, received, OPTIONS, 0) == []
  {
  }

  lemma ConfirmedIsNotLeft(m: Accounts, received: map<Hash, int>, t: Transaction)
    requires t.nonce < Nonce(m, t.from)
    ensures !IsLeft(m, received, OPTIONS, 0, t)
  {
  }
}
