/** What pruning guarantees: it establishes the mempool invariant from any well-kept pool, changes
    nothing in a pool that already satisfies it, and keeps arrival order. */
module Pruning {
  import opened Types
  import opened Transactions
  import opened World
  import opened Mempool

  lemma {:induction false} KeepMembers(
      s: Accounts, received: map<Hash, int>, opts: MempoolOptions, now: int, txs: seq<Transaction>)
    ensures forall t :: t in Keep(s, received, opts, now, txs) ==>
              t in txs && t.nonce >= Nonce(s, t.from) && !Expired(received, opts, now, t)
  {
    if |txs| > 0 {
      KeepMembers(s, received, opts, now, txs[..|txs| - 1]);
    }
  }

  lemma {:induction false} KeepIsAffordable(
      s: Accounts, received: map<Hash, int>, opts: MempoolOptions, now: int, txs: seq<Transaction>)
    ensures Affordable(s, Keep(s, received, opts, now, txs))
  {
    if |txs| > 0 {
      var n := |txs| - 1;
      var k := Keep(s, received, opts, now, txs[..n]);
      KeepIsAffordable(s, received, opts, now, txs[..n]);
      if Retain(s, received, opts, now, k, txs[n]) {
        var r := k + [txs[n]];
        assert r[..|k|] == k;
        forall t | t in r ensures SumFrom(r, t.from) <= Balance(s, t.from) {
          assert t in k || t == txs[n];
        }
      }
    }
  }

  lemma SortIsVerified(txs: seq<Transaction>)
    requires AllVerified(txs)
    ensures AllVerified(SortTxs(txs))
  {
    SortTxsProperties(txs);
    VerifiedMembers(txs, SortTxs(txs));
  }

  lemma FilterIsVerified(txs: seq<Transaction>, hashes: set<Hash>)
    requires AllVerified(txs)
    ensures AllVerified(WithHash(txs, hashes))
  {
    WithHashMembers(txs, hashes);
    VerifiedMembers(txs, WithHash(txs, hashes));
  }

  /** With unique hashes the survivors are the list filtered by their own hashes. */
  lemma {:induction false} KeepIsFilter(
      s: Accounts, received: map<Hash, int>, opts: MempoolOptions, now: int, txs: seq<Transaction>)
    requires UniqueHashes(txs)
    ensures WithHash(txs, Hashes(Keep(s, received, opts, now, txs))) == Keep(s, received, opts, now, txs)
  {
    if |txs| > 0 {
      var n := |txs| - 1;
      var k := Keep(s, received, opts, now, txs[..n]);
      var r := Keep(s, received, opts, now, txs);
      KeepIsFilter(s, received, opts, now, txs[..n]);
      KeepMembers(s, received, opts, now, txs[..n]);
      assert Hashes(k) <= Hashes(txs[..n]);
      if Retain(s, received, opts, now, k, txs[n]) {
        assert forall t :: t in r <==> t in k || t == txs[n];
        assert Hashes(r) == Hashes(k) + {txs[n].hash};
        WithHashDependsOnMembers(txs[..n], Hashes(k), Hashes(r));
      }
    }
  }

  /** The survivors of pruning, in sorted order. */
  function Kept(s: Accounts, opts: MempoolOptions, pool: Pool, now: int): seq<Transaction> {
    Keep(s, pool.received, opts, now, SortTxs(pool.pending))
  }

  /** The pruned pool holds exactly the survivors, whatever the order. */
  lemma PruneHoldsKept(s: Accounts, opts: MempoolOptions, pool: Pool, now: int)
    requires UniqueHashes(pool.pending)
    ensures forall t :: t in Prune(s, opts, pool, now).pending <==> t in Kept(s, opts, pool, now)
    ensures Hashes(Prune(s, opts, pool, now).pending) == Hashes(Kept(s, opts, pool, now))
    ensures forall a :: SumFrom(Prune(s, opts, pool, now).pending, a) == SumFrom(Kept(s, opts, pool, now), a)
  {
    hide Keep, UniqueHashes, SortTxs, WithHash, SumFrom;
    var sorted := SortTxs(pool.pending);
    var kept := Kept(s, opts, pool, now);
    SortTxsProperties(pool.pending);
    SortKeepsUniqueness(pool.pending);
    KeepMembers(s, pool.received, opts, now, sorted);
    KeepIsFilter(s, pool.received, opts, now, sorted);
    WithHashMembers(pool.pending, Hashes(kept));
    WithHashMembers(sorted, Hashes(kept));
    forall a ensures SumFrom(Prune(s, opts, pool, now).pending, a) == SumFrom(kept, a) {
      SortKeepsSums(pool.pending, Hashes(kept), a);
    }
  }

  /** Pruning establishes the invariant whatever the confirmed accounts have become, keeps the
      survivors in arrival order, and lets no expired transaction survive. */
  lemma PruneEstablishesInvariant(s: Accounts, opts: MempoolOptions, pool: Pool, now: int)
    requires WellKept(pool)
    ensures PoolInv(s, Prune(s, opts, pool, now))
    ensures UniqueNonces(pool.pending) ==> UniqueNonces(Prune(s, opts, pool, now).pending)
    ensures Prune(s, opts, pool, now).pending
         == WithHash(pool.pending, Hashes(Prune(s, opts, pool, now).pending))
    ensures forall t :: t in Prune(s, opts, pool, now).pending ==>
              t in pool.pending && !Expired(pool.received, opts, now, t)
    ensures forall h :: h in Prune(s, opts, pool, now).received ==>
              h in pool.received && Prune(s, opts, pool, now).received[h] == pool.received[h]
  {
    hide Verified, AllVerified, Keep, SortTxs, WithHash, UniqueNonces, UniqueHashes;
    var out := Prune(s, opts, pool, now);
    var kept := Kept(s, opts, pool, now);
    PruneHoldsKept(s, opts, pool, now);
    KeepMembers(s, pool.received, opts, now, SortTxs(pool.pending));
    KeepIsAffordable(s, pool.received, opts, now, SortTxs(pool.pending));
    WithHashMembers(pool.pending, Hashes(kept));
    FilterIsVerified(pool.pending, Hashes(kept));
    assert out.received.Keys == Hashes(out.pending);
  }

  /** Keeping drops nothing from a list that is unspent, unexpired and affordable as a whole. */
  lemma {:induction false} KeepsEverything(
      s: Accounts, received: map<Hash, int>, opts: MempoolOptions, now: int,
      txs: seq<Transaction>, whole: seq<Transaction>)
    requires AllVerified(whole) && |txs| <= |whole| && txs == whole[..|txs|]
    requires Unspent(s, whole) && Affordable(s, whole)
    requires forall t :: t in whole ==> !Expired(received, opts, now, t)
    ensures Keep(s, received, opts, now, txs) == txs
    decreases |txs|
  {
    hide Verified, AllVerified, Expired, SumFrom;
    if |txs| > 0 {
      var n := |txs| - 1;
      assert txs[..n] == whole[..n];
      KeepsEverything(s, received, opts, now, txs[..n], whole);
      assert txs[n] in whole;
      assert whole[..n + 1] == txs;
      PrefixSum(whole, n + 1, txs[n].from);
      assert txs == txs[..n] + [txs[n]];
      SumFromSnoc(txs[..n], txs[n], txs[n].from);
    }
  }

  lemma SortedPoolIsKept(s: Accounts, opts: MempoolOptions, pool: Pool, now: int)
    requires AllVerified(pool.pending) && Unspent(s, pool.pending) && Affordable(s, pool.pending)
    requires forall t :: t in pool.pending ==> !Expired(pool.received, opts, now, t)
    ensures Kept(s, opts, pool, now) == SortTxs(pool.pending)
  {
    hide Verified;
    var sorted := SortTxs(pool.pending);
    SortIsVerified(pool.pending);
    SortIsAffordable(s, pool.pending);
    SortTxsProperties(pool.pending);
    assert sorted[..|sorted|] == sorted;
    KeepsEverything(s, pool.received, opts, now, sorted, sorted);
  }

  /** Pruning is the identity on a pool that satisfies the invariant and holds nothing expired. */
  lemma PruneIsIdentity(s: Accounts, opts: MempoolOptions, pool: Pool, now: int)
    requires PoolInv(s, pool)
    requires forall t :: t in pool.pending ==> !Expired(pool.received, opts, now, t)
    ensures Prune(s, opts, pool, now) == pool
  {
    SortedPoolIsKept(s, opts, pool, now);
    SortTxsProperties(pool.pending);
    var hashes := Hashes(Kept(s, opts, pool, now));
    assert hashes == Hashes(pool.pending);
    FilterByOwnHashes(pool, hashes);
  }

  lemma FilterByOwnHashes(pool: Pool, hashes: set<Hash>)
    requires pool.received.Keys == Hashes(pool.pending) == hashes
    ensures WithHash(pool.pending, hashes) == pool.pending
    ensures (map h | h in pool.received && h in hashes :: pool.received[h]) == pool.received
  {
    WithAllHashes(pool.pending, hashes);
  }

  lemma SortedSum(txs: seq<Transaction>, a: string)
    ensures SumFrom(SortTxs(txs), a) == SumFrom(txs, a)
  {
    SortTxsProperties(txs);
    SortKeepsSums(txs, Hashes(txs), a);
    WithAllHashes(txs, Hashes(txs));
    WithAllHashes(SortTxs(txs), Hashes(txs));
  }

  lemma SortIsAffordable(s: Accounts, txs: seq<Transaction>)
    requires Affordable(s, txs)
    ensures Affordable(s, SortTxs(txs))
  {
    SortTxsProperties(txs);
    forall t | t in SortTxs(txs) ensures SumFrom(SortTxs(txs), t.from) <= Balance(s, t.from) {
      SortedSum(txs, t.from);
    }
  }

  /** Pruning twice at one moment is pruning once. */
  lemma PruneIsIdempotent(s: Accounts, opts: MempoolOptions, pool: Pool, now: int)
    requires WellKept(pool)
    ensures Prune(s, opts, Prune(s, opts, pool, now), now) == Prune(s, opts, pool, now)
  {
    var out := Prune(s, opts, pool, now);
    PruneEstablishesInvariant(s, opts, pool, now);
    forall t | t in out.pending ensures !Expired(out.received, opts, now, t) {
      assert t.hash in Hashes(out.pending);
    }
    PruneIsIdentity(s, opts, out, now);
  }

  lemma {:induction false} SameLengthFilter(txs: seq<Transaction>, hashes: set<Hash>)
    requires |WithHash(txs, hashes)| == |txs|
    ensures WithHash(txs, hashes) == txs
  {
    hide UniqueHashes, UniqueNonces;
    if |txs| > 0 {
      var n := |txs| - 1;
      WithHashMembers(txs[..n], hashes);
      SameLengthFilter(txs[..n], hashes);
      assert txs == txs[..n] + [txs[n]];
    }
  }

  lemma PruneSize(s: Accounts, opts: MempoolOptions, pool: Pool, now: int)
    ensures |Prune(s, opts, pool, now).pending| <= |pool.pending|
  {
    WithHashMembers(pool.pending, Hashes(Kept(s, opts, pool, now)));
  }

  /** Pruning that does not shrink the list changes nothing, arrival times included. */
  lemma PruneOfSameSize(s: Accounts, opts: MempoolOptions, pool: Pool, now: int)
    requires WellKept(pool)
    ensures Prune(s, opts, pool, now) == pool || |Prune(s, opts, pool, now).pending| < |pool.pending|
  {
    var out := Prune(s, opts, pool, now);
    PruneSize(s, opts, pool, now);
    if |out.pending| == |pool.pending| {
      PruneEstablishesInvariant(s, opts, pool, now);
      SameLengthFilter(pool.pending, Hashes(out.pending));
      SamePool(out, pool);
    }
  }

  lemma SamePool(out: Pool, pool: Pool)
    requires out.pending == pool.pending
    requires out.received.Keys == Hashes(out.pending) && pool.received.Keys == Hashes(pool.pending)
    requires forall h :: h in out.received ==> h in pool.received && out.received[h] == pool.received[h]
    ensures out == pool
  {
    assert out.received == pool.received;
  }

  // ------------------------------------------------------------------------
  // Who survives
  // ------------------------------------------------------------------------

  lemma {:induction false} FilterTwice(txs: seq<Transaction>, wide: set<Hash>, narrow: set<Hash>)
    requires narrow <= wide
    ensures WithHash(WithHash(txs, wide), narrow) == WithHash(txs, narrow)
  {
    if |txs| > 0 {
      var n := |txs| - 1;
      FilterTwice(txs[..n], wide, narrow);
      var w := WithHash(txs[..n], wide);
      assert (w + [txs[n]])[..|w|] == w;
      assert w + [] == w && WithHash(txs[..n], narrow) + [] == WithHash(txs[..n], narrow);
    }
  }

  lemma {:induction false} PartSum(txs: seq<Transaction>, hashes: set<Hash>, a: string)
    requires AllVerified(txs)
    ensures 0 <= SumFrom(WithHash(txs, hashes), a) <= SumFrom(txs, a)
  {
    if |txs| > 0 {
      hide Verified, WithHash, SumFrom;
      var n := |txs| - 1;
      PartSum(txs[..n], hashes, a);
      assert txs == txs[..n] + [txs[n]];
      WithHashSnoc(txs[..n], txs[n], hashes, a);
      SumFromSnoc(txs[..n], txs[n], a);
      PositiveAmount(txs[n]);
    }
  }

  lemma PositiveAmount(t: Transaction)
    requires Verified(t)
    ensures t.amount > 0
  {
  }

  /** One more hash adds the amount of its transaction. */
  lemma {:induction false} OneMoreSum(txs: seq<Transaction>, t: Transaction, hashes: set<Hash>)
    requires UniqueHashes(txs) && t in txs && t.hash !in hashes
    ensures SumFrom(WithHash(txs, hashes + {t.hash}), t.from) == SumFrom(WithHash(txs, hashes), t.from) + t.amount
  {
    hide WithHash, SumFrom;
    var n := |txs| - 1;
    assert txs == txs[..n] + [txs[n]];
    WithHashSnoc(txs[..n], txs[n], hashes, t.from);
    WithHashSnoc(txs[..n], txs[n], hashes + {t.hash}, t.from);
    if t == txs[n] {
      WithHashDependsOnMembers(txs[..n], hashes, hashes + {t.hash});
    } else {
      assert t.hash in Hashes(txs[..n]);
      OneMoreSum(txs[..n], t, hashes);
    }
  }

  /** What comes before t among `txs` for its sender's money: everything else that has no higher nonce. */
  function Ahead(txs: seq<Transaction>, t: Transaction): set<Hash> {
    set u | u in txs && u.nonce <= t.nonce && u.hash != t.hash :: u.hash
  }

  lemma {:induction false} LaterKeepingAdds(
      s: Accounts, received: map<Hash, int>, opts: MempoolOptions, now: int,
      txs: seq<Transaction>, i: nat, hashes: set<Hash>, a: string)
    requires i <= |txs| && AllVerified(txs)
    requires Hashes(Keep(s, received, opts, now, txs[..i])) <= hashes
    ensures SumFrom(WithHash(Keep(s, received, opts, now, txs), hashes), a)
         >= SumFrom(Keep(s, received, opts, now, txs[..i]), a)
    decreases |txs|
  {
    hide Verified, WithHash, SumFrom, Retain, Hashes;
    var n := |txs| - 1;
    if i == |txs| {
      assert txs[..i] == txs;
      WithAllHashes(Keep(s, received, opts, now, txs), hashes);
    } else {
      assert txs[..n][..i] == txs[..i];
      LaterKeepingAdds(s, received, opts, now, txs[..n], i, hashes, a);
      WithHashSnoc(Keep(s, received, opts, now, txs[..n]), txs[n], hashes, a);
      PositiveAmount(txs[n]);
    }
  }

  lemma {:induction false} KeepAt(
      s: Accounts, received: map<Hash, int>, opts: MempoolOptions, now: int, txs: seq<Transaction>, i: nat)
    requires i < |txs| && UniqueHashes(txs)
    ensures txs[i] in Keep(s, received, opts, now, txs)
       <==> Retain(s, received, opts, now, Keep(s, received, opts, now, txs[..i]), txs[i])
    decreases |txs|
  {
    hide Retain;
    var n := |txs| - 1;
    KeepIsPart(s, received, opts, now, txs[..n]);
    if i < n {
      assert txs[..n][..i] == txs[..i];
      KeepAt(s, received, opts, now, txs[..n], i);
      assert txs[..n][i].hash in Hashes(txs[..n]);
    } else {
      assert txs[n] !in txs[..n];
    }
  }

  lemma {:induction false} KeepIsPart(
      s: Accounts, received: map<Hash, int>, opts: MempoolOptions, now: int, txs: seq<Transaction>)
    ensures forall t :: t in Keep(s, received, opts, now, txs) ==> t in txs
  {
    hide Retain;
    if |txs| > 0 {
      KeepIsPart(s, received, opts, now, txs[..|txs| - 1]);
    }
  }

  /** Everything kept before t in the sorted pass is ahead of it. */
  lemma EarlierIsAhead(
      s: Accounts, received: map<Hash, int>, opts: MempoolOptions, now: int, txs: seq<Transaction>, i: nat)
    requires i < |txs| && Sorted(txs) && UniqueHashes(txs)
    ensures Hashes(Keep(s, received, opts, now, txs[..i])) <= Ahead(Keep(s, received, opts, now, txs), txs[i])
  {
    hide Retain, Keep;
    var k := Keep(s, received, opts, now, txs[..i]);
    KeepIsPart(s, received, opts, now, txs[..i]);
    KeptEarly(s, received, opts, now, txs, i);
    forall u | u in k ensures u.hash in Ahead(Keep(s, received, opts, now, txs), txs[i]) {
      var j :| 0 <= j < i && txs[j] == u;
      assert !Before(txs[i], txs[j]);
      DistinctHashes(txs, j, i);
    }
  }

  lemma {:induction false} KeptEarly(
      s: Accounts, received: map<Hash, int>, opts: MempoolOptions, now: int, txs: seq<Transaction>, i: nat)
    requires i <= |txs|
    ensures forall u :: u in Keep(s, received, opts, now, txs[..i]) ==> u in Keep(s, received, opts, now, txs)
    decreases |txs|
  {
    hide Retain;
    if i == |txs| {
      assert txs[..i] == txs;
    } else {
      assert txs[..|txs| - 1][..i] == txs[..i];
      KeptEarly(s, received, opts, now, txs[..|txs| - 1], i);
    }
  }

  lemma {:induction false} DistinctHashes(txs: seq<Transaction>, i: nat, j: nat)
    requires i < j < |txs| && UniqueHashes(txs)
    ensures txs[i].hash != txs[j].hash
  {
    if j < |txs| - 1 {
      DistinctHashes(txs[..|txs| - 1], i, j);
    } else {
      assert txs[i] in txs[..j];
    }
  }

  /** The sorted pass, told from the outside: a transaction stays exactly when its nonce is not used up, it has
      not waited longer than the time to live, and its amount fits on top of what stays ahead of it. */
  lemma KeptIff(s: Accounts, opts: MempoolOptions, pool: Pool, now: int, t: Transaction)
    requires WellKept(pool) && t in pool.pending
    ensures var kept := Kept(s, opts, pool, now);
            t in kept <==>
              && Nonce(s, t.from) <= t.nonce
              && now - pool.received[t.hash] <= opts.txTtlMs
              && SumFrom(WithHash(kept, Ahead(kept, t)), t.from) + t.amount <= Balance(s, t.from)
  {
    hide Verified, AllVerified, UniqueHashes, WithHash, SumFrom, SortTxs, Keep, Hashes, Sorted, Nonce, Balance, Ahead;
    var sorted, kept := SortTxs(pool.pending), Kept(s, opts, pool, now);
    SortTxsProperties(pool.pending);
    SortKeepsUniqueness(pool.pending);
    SortIsVerified(pool.pending);
    HashOf(pool.pending, t);
    var i :| 0 <= i < |sorted| && sorted[i] == t;
    var k := Keep(s, pool.received, opts, now, sorted[..i]);
    KeepAt(s, pool.received, opts, now, sorted, i);
    EarlierIsAhead(s, pool.received, opts, now, sorted, i);
    LaterKeepingAdds(s, pool.received, opts, now, sorted, i, Ahead(kept, t), t.from);
    if t in kept {
      KeptFits(s, opts, pool, now, t);
    }
  }

  lemma HashOf(txs: seq<Transaction>, t: Transaction)
    requires t in txs
    ensures t.hash in Hashes(txs)
  {
  }

  lemma NotAheadOfItself(txs: seq<Transaction>, t: Transaction)
    ensures t.hash !in Ahead(txs, t)
  {
  }

  lemma KeptFits(s: Accounts, opts: MempoolOptions, pool: Pool, now: int, t: Transaction)
    requires WellKept(pool) && t in Kept(s, opts, pool, now)
    ensures var kept := Kept(s, opts, pool, now);
            SumFrom(WithHash(kept, Ahead(kept, t)), t.from) + t.amount <= Balance(s, t.from)
  {
    hide Verified, AllVerified, UniqueHashes, WithHash, SumFrom, SortTxs, Keep, Hashes, Nonce, Balance, Ahead;
    var sorted, kept := SortTxs(pool.pending), Kept(s, opts, pool, now);
    SortKeepsUniqueness(pool.pending);
    SortIsVerified(pool.pending);
    KeepIsAffordable(s, pool.received, opts, now, sorted);
    KeepIsPart(s, pool.received, opts, now, sorted);
    VerifiedMembers(sorted, kept);
    KeepIsFilter(s, pool.received, opts, now, sorted);
    WithHashMembers(sorted, Hashes(kept));
    NotAheadOfItself(kept, t);
    OneMoreSum(kept, t, Ahead(kept, t));
    PartSum(kept, Ahead(kept, t) + {t.hash}, t.from);
  }

  lemma AheadIsPart(txs: seq<Transaction>, t: Transaction)
    ensures Ahead(txs, t) <= Hashes(txs)
  {
  }

  lemma SameAhead(a: seq<Transaction>, b: seq<Transaction>, t: Transaction)
    requires forall u :: u in a <==> u in b
    ensures Ahead(a, t) == Ahead(b, t)
  {
  }

  /** Who survives pruning, whatever the confirmed accounts have become: a pending transaction stays exactly
      when its nonce is not used up, it has not waited longer than the time to live, and its amount fits on
      top of those of its sender that stay and have no higher nonce. So nothing is dropped that could have
      stayed, and lower nonces have the first claim. */
  lemma SurvivesIff(s: Accounts, opts: MempoolOptions, pool: Pool, now: int, t: Transaction)
    requires WellKept(pool) && t in pool.pending
    ensures var left := Prune(s, opts, pool, now).pending;
            t in left <==>
              && Nonce(s, t.from) <= t.nonce
              && now - pool.received[t.hash] <= opts.txTtlMs
              && SumFrom(WithHash(left, Ahead(left, t)), t.from) + t.amount <= Balance(s, t.from)
  {
    hide Verified, AllVerified, UniqueHashes, WithHash, SumFrom, SortTxs, Keep, Hashes, Nonce, Balance, Ahead;
    var sorted, kept := SortTxs(pool.pending), Kept(s, opts, pool, now);
    var left, ahead := Prune(s, opts, pool, now).pending, Ahead(kept, t);
    HashOf(pool.pending, t);
    KeptIff(s, opts, pool, now, t);
    PruneHoldsKept(s, opts, pool, now);
    SameAhead(left, kept, t);
    AheadIsPart(kept, t);
    SortKeepsUniqueness(pool.pending);
    KeepIsFilter(s, pool.received, opts, now, sorted);
    FilterTwice(pool.pending, Hashes(kept), ahead);
    FilterTwice(sorted, Hashes(kept), ahead);
    SortKeepsSums(pool.pending, ahead, t.from);
  }

  /** The transactions that have waited no longer than the time to live, in their order. */
  function Timely(txs: seq<Transaction>, received: map<Hash, int>, ttl: int, now: int): seq<Transaction>
    requires Hashes(txs) <= received.Keys
  {
    if |txs| == 0 then []
    else
      var n := |txs| - 1;
      assert forall u :: u in txs[..n] ==> u.hash in Hashes(txs);
      assert txs[n].hash in Hashes(txs);
      Timely(txs[..n], received, ttl, now) + (if now - received[txs[n].hash] <= ttl then [txs[n]] else [])
  }

  /** How many have waited longer. */
  function Overdue(txs: seq<Transaction>, received: map<Hash, int>, ttl: int, now: int): nat
    requires Hashes(txs) <= received.Keys
  {
    if |txs| == 0 then 0
    else
      var n := |txs| - 1;
      assert forall u :: u in txs[..n] ==> u.hash in Hashes(txs);
      assert txs[n].hash in Hashes(txs);
      Overdue(txs[..n], received, ttl, now) + (if now - received[txs[n].hash] > ttl then 1 else 0)
  }

  lemma {:induction false} FilterIsTimely(
      txs: seq<Transaction>, received: map<Hash, int>, ttl: int, now: int, hashes: set<Hash>)
    requires Hashes(txs) <= received.Keys
    requires forall t :: t in txs ==> t.hash in Hashes(txs) && (t.hash in hashes <==> now - received[t.hash] <= ttl)
    ensures WithHash(txs, hashes) == Timely(txs, received, ttl, now)
    ensures |WithHash(txs, hashes)| + Overdue(txs, received, ttl, now) == |txs|
  {
    if |txs| > 0 {
      hide Hashes;
      var n := |txs| - 1;
      assert txs == txs[..n] + [txs[n]];
      HashesSnoc(txs[..n], txs[n]);
      forall u | u in txs[..n] ensures u.hash in Hashes(txs[..n]) {
        HashOf(txs[..n], u);
      }
      FilterIsTimely(txs[..n], received, ttl, now, hashes);
      assert txs[n] in txs;
    }
  }

  /** Under the invariant the time to live alone decides: exactly those are left that have not waited longer,
      in their order. */
  lemma OnlyExpiryPrunes(s: Accounts, opts: MempoolOptions, pool: Pool, now: int)
    requires PoolInv(s, pool)
    ensures Prune(s, opts, pool, now).pending == Timely(pool.pending, pool.received, opts.txTtlMs, now)
    ensures |Prune(s, opts, pool, now).pending| + Overdue(pool.pending, pool.received, opts.txTtlMs, now)
         == |pool.pending|
    ensures forall t :: t in Prune(s, opts, pool, now).pending <==>
              t in pool.pending && t.hash in pool.received && now - pool.received[t.hash] <= opts.txTtlMs
  {
    hide Verified, AllVerified, UniqueHashes, WithHash, SumFrom, SortTxs, Prune, Hashes, Nonce, Balance, Timely,
         Overdue, Ahead;
    var left := Prune(s, opts, pool, now).pending;
    PruneEstablishesInvariant(s, opts, pool, now);
    WithHashMembers(pool.pending, Hashes(left));
    forall t | t in pool.pending
      ensures t.hash in Hashes(pool.pending)
      ensures t in left <==> now - pool.received[t.hash] <= opts.txTtlMs
      ensures t.hash in Hashes(left) <==> t in left
    {
      HashOf(pool.pending, t);
      SurvivesIff(s, opts, pool, now, t);
      AheadFits(s, opts, pool, now, t);
      if t in left {
        HashOf(left, t);
      }
    }
    FilterIsTimely(pool.pending, pool.received, opts.txTtlMs, now, Hashes(left));
  }

  /** What stays ahead fits, because all of it did before. */
  lemma AheadFits(s: Accounts, opts: MempoolOptions, pool: Pool, now: int, t: Transaction)
    requires PoolInv(s, pool) && t in pool.pending
    ensures var left := Prune(s, opts, pool, now).pending;
            SumFrom(WithHash(left, Ahead(left, t)), t.from) + t.amount <= Balance(s, t.from)
  {
    hide Verified, AllVerified, UniqueHashes, WithHash, SumFrom, SortTxs, Prune, Hashes, Nonce, Balance, Ahead;
    var left := Prune(s, opts, pool, now).pending;
    PruneEstablishesInvariant(s, opts, pool, now);
    AheadIsPart(left, t);
    FilterTwice(pool.pending, Hashes(left), Ahead(left, t));
    NotAheadOfItself(left, t);
    OneMoreSum(pool.pending, t, Ahead(left, t));
    PartSum(pool.pending, Ahead(left, t) + {t.hash}, t.from);
  }
}
