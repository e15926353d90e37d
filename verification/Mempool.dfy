/** The mempool rules, as functions of the confirmed accounts and the pool. */
module Mempool {
  import opened Types
  import opened Transactions
  import opened World

  datatype MempoolOptions = MempoolOptions(
    maxPoolSize: int, maxPendingPerSender: int, maxTxsPerBlock: int, txTtlMs: int)

  /** Pending transactions in arrival order, and the local arrival time of each hash. */
  datatype Pool = Pool(pending: seq<Transaction>, received: map<Hash, int>)

  // ------------------------------------------------------------------------
  // Lists of transactions
  // ------------------------------------------------------------------------

  function Hashes(txs: seq<Transaction>): set<Hash> {
    set t | t in txs :: t.hash
  }

  predicate UniqueHashes(txs: seq<Transaction>) {
    |txs| > 0 ==>
      UniqueHashes(txs[..|txs| - 1]) && txs[|txs| - 1].hash !in Hashes(txs[..|txs| - 1])
  }

  /** No sender has two pending transactions with one nonce. */
  predicate UniqueNonces(txs: seq<Transaction>) {
    |txs| > 0 ==>
      && UniqueNonces(txs[..|txs| - 1])
      && !UsesNonce(txs[..|txs| - 1], txs[|txs| - 1].from, txs[|txs| - 1].nonce)
  }

  /** The transactions whose hash is in `hashes`, in their order. */
  function WithHash(txs: seq<Transaction>, hashes: set<Hash>): seq<Transaction> {
    if |txs| == 0 then []
    else WithHash(txs[..|txs| - 1], hashes) + (if txs[|txs| - 1].hash in hashes then [txs[|txs| - 1]] else [])
  }

  /** The comparator of the two sorts: by nonce, then by timestamp. */
  predicate Before(a: Transaction, b: Transaction) {
    a.nonce < b.nonce || (a.nonce == b.nonce && a.timestamp < b.timestamp)
  }

  function InsertTx(sorted: seq<Transaction>, t: Transaction): seq<Transaction> {
    if |sorted| == 0 || !Before(t, sorted[|sorted| - 1]) then sorted + [t]
    else InsertTx(sorted[..|sorted| - 1], t) + [sorted[|sorted| - 1]]
  }

  /** A stable sort by the comparator. */
  function SortTxs(txs: seq<Transaction>): seq<Transaction> {
    if |txs| == 0 then [] else InsertTx(SortTxs(txs[..|txs| - 1]), txs[|txs| - 1])
  }

  predicate Sorted(txs: seq<Transaction>) {
    forall i, j :: 0 <= i < j < |txs| ==> !Before(txs[j], txs[i])
  }

  lemma {:induction false} InsertTxMembers(l: seq<Transaction>, t: Transaction)
    ensures forall u :: u in InsertTx(l, t) <==> u in l || u == t
  {
    if |l| > 0 {
      InsertTxMembers(l[..|l| - 1], t);
      assert forall u :: u in l <==> u in l[..|l| - 1] || u == l[|l| - 1];
    }
  }

  lemma SortedSnoc(l: seq<Transaction>, t: Transaction)
    ensures Sorted(l + [t]) <==> Sorted(l) && forall u :: u in l ==> !Before(t, u)
  {
    hide Before;
    var r := l + [t];
    if Sorted(r) {
      forall u | u in l ensures !Before(t, u) {
        var i :| 0 <= i < |l| && l[i] == u;
        assert !Before(r[|l|], r[i]);
      }
      assert forall i :: 0 <= i < |l| ==> r[i] == l[i];
    }
  }

  lemma {:induction false} InsertTxProperties(sorted: seq<Transaction>, t: Transaction)
    requires Sorted(sorted)
    ensures Sorted(InsertTx(sorted, t))
    ensures multiset(InsertTx(sorted, t)) == multiset(sorted) + multiset{t}
  {
    hide Sorted;
    if |sorted| == 0 {
      SortedSnoc([], t);
    } else {
      var n := |sorted| - 1;
      assert sorted == sorted[..n] + [sorted[n]];
      SortedSnoc(sorted[..n], sorted[n]);
      if Before(t, sorted[n]) {
        InsertTxProperties(sorted[..n], t);
        InsertTxMembers(sorted[..n], t);
        SortedSnoc(InsertTx(sorted[..n], t), sorted[n]);
      } else {
        assert forall u :: u in sorted ==> u in sorted[..n] || u == sorted[n];
        SortedSnoc(sorted, t);
      }
    }
  }

  /** The order, told from the fields: nonces do not decrease, and among equal nonces timestamps do not. */
  lemma SortedByNonceThenTime(txs: seq<Transaction>, i: nat, j: nat)
    requires i <= j < |SortTxs(txs)|
    ensures var r := SortTxs(txs);
            r[i].nonce < r[j].nonce || (r[i].nonce == r[j].nonce && r[i].timestamp <= r[j].timestamp)
  {
    SortTxsProperties(txs);
  }

  /** Sorting orders the list and neither drops nor invents a transaction. */
  lemma {:induction false} SortTxsProperties(txs: seq<Transaction>)
    ensures Sorted(SortTxs(txs))
    ensures multiset(SortTxs(txs)) == multiset(txs)
    ensures forall t :: t in SortTxs(txs) <==> t in txs
  {
    if |txs| > 0 {
      var n := |txs| - 1;
      SortTxsProperties(txs[..n]);
      InsertTxProperties(SortTxs(txs[..n]), txs[n]);
      assert txs == txs[..n] + [txs[n]];
    }
    forall t ensures t in SortTxs(txs) <==> t in txs {
      assert t in SortTxs(txs) <==> t in multiset(SortTxs(txs));
      assert t in txs <==> t in multiset(txs);
    }
  }

  lemma HashesSnoc(l: seq<Transaction>, t: Transaction)
    ensures Hashes(l + [t]) == Hashes(l) + {t.hash}
    ensures UniqueHashes(l + [t]) <==> UniqueHashes(l) && t.hash !in Hashes(l)
  {
    assert (l + [t])[..|l|] == l;
    assert forall u :: u in l + [t] <==> u in l || u == t;
  }

  /** The transactions the comparator does not distinguish from t, in their order. */
  function Ties(txs: seq<Transaction>, t: Transaction): seq<Transaction> {
    if |txs| == 0 then []
    else
      var u := txs[|txs| - 1];
      Ties(txs[..|txs| - 1], t) + (if !Before(u, t) && !Before(t, u) then [u] else [])
  }

  lemma TiesSnoc(txs: seq<Transaction>, u: Transaction, t: Transaction)
    ensures Ties(txs + [u], t) == if !Before(u, t) && !Before(t, u) then Ties(txs, t) + [u] else Ties(txs, t)
  {
    hide Before;
    assert (txs + [u])[..|txs|] == txs;
    assert Ties(txs, t) + [] == Ties(txs, t);
  }

  lemma {:induction false} InsertTxTies(l: seq<Transaction>, u: Transaction, t: Transaction)
    ensures Ties(InsertTx(l, u), t) == Ties(l + [u], t)
  {
    hide Ties;
    if |l| > 0 && Before(u, l[|l| - 1]) {
      var n := |l| - 1;
      InsertTxTies(l[..n], u, t);
      TiesSnoc(InsertTx(l[..n], u), l[n], t);
      TiesSnoc(l[..n], u, t);
      assert l == l[..n] + [l[n]];
      TiesSnoc(l[..n], l[n], t);
      TiesSnoc(l, u, t);
    } else {
      assert InsertTx(l, u) == l + [u];
    }
  }

  /** The sort is stable: transactions with equal keys keep their arrival order. */
  lemma {:induction false} SortIsStable(txs: seq<Transaction>, t: Transaction)
    ensures Ties(SortTxs(txs), t) == Ties(txs, t)
  {
    if |txs| > 0 {
      hide InsertTx, Ties, Before;
      var n := |txs| - 1;
      SortIsStable(txs[..n], t);
      InsertTxTies(SortTxs(txs[..n]), txs[n], t);
      TiesSnoc(SortTxs(txs[..n]), txs[n], t);
      assert txs == txs[..n] + [txs[n]];
      TiesSnoc(txs[..n], txs[n], t);
    }
  }

  lemma {:induction false} InsertTxUnique(l: seq<Transaction>, t: Transaction)
    ensures Hashes(InsertTx(l, t)) == Hashes(l) + {t.hash}
    ensures UniqueHashes(InsertTx(l, t)) <==> UniqueHashes(l) && t.hash !in Hashes(l)
  {
    hide Hashes, UniqueHashes, Before;
    HashesSnoc(l, t);
    if |l| > 0 && Before(t, l[|l| - 1]) {
      var n := |l| - 1;
      assert l == l[..n] + [l[n]];
      InsertTxUnique(l[..n], t);
      HashesSnoc(l[..n], l[n]);
      HashesSnoc(InsertTx(l[..n], t), l[n]);
    }
  }

  lemma {:induction false} InsertTxUniqueNonces(l: seq<Transaction>, t: Transaction)
    requires UniqueNonces(l) && !UsesNonce(l, t.from, t.nonce)
    ensures UniqueNonces(InsertTx(l, t))
  {
    if |l| > 0 && Before(t, l[|l| - 1]) {
      var n := |l| - 1;
      assert forall u :: u in l <==> u in l[..n] || u == l[n];
      InsertTxUniqueNonces(l[..n], t);
      InsertTxMembers(l[..n], t);
    }
  }

  lemma {:induction false} SortKeepsUniqueness(txs: seq<Transaction>)
    ensures UniqueHashes(txs) ==> UniqueHashes(SortTxs(txs))
    ensures UniqueNonces(txs) ==> UniqueNonces(SortTxs(txs))
  {
    hide InsertTx;
    if |txs| > 0 {
      var n := |txs| - 1;
      SortKeepsUniqueness(txs[..n]);
      SortTxsProperties(txs[..n]);
      assert Hashes(SortTxs(txs[..n])) == Hashes(txs[..n]);
      InsertTxUnique(SortTxs(txs[..n]), txs[n]);
      if UniqueNonces(txs) {
        InsertTxUniqueNonces(SortTxs(txs[..n]), txs[n]);
      }
    }
  }

  lemma {:induction false} InsertTxSum(l: seq<Transaction>, t: Transaction, hashes: set<Hash>, a: string)
    ensures SumFrom(WithHash(InsertTx(l, t), hashes), a)
         == SumFrom(WithHash(l, hashes), a) + (if t.hash in hashes && t.from == a then t.amount else 0)
  {
    hide SumFrom, WithHash, Before;
    if |l| > 0 && Before(t, l[|l| - 1]) {
      var n := |l| - 1;
      InsertTxSum(l[..n], t, hashes, a);
      WithHashSnoc(InsertTx(l[..n], t), l[n], hashes, a);
    } else {
      WithHashSnoc(l, t, hashes, a);
    }
    if |l| > 0 {
      assert l == l[..|l| - 1] + [l[|l| - 1]];
      WithHashSnoc(l[..|l| - 1], l[|l| - 1], hashes, a);
    }
  }

  lemma WithHashSnoc(l: seq<Transaction>, t: Transaction, hashes: set<Hash>, a: string)
    ensures SumFrom(WithHash(l + [t], hashes), a)
         == SumFrom(WithHash(l, hashes), a) + (if t.hash in hashes && t.from == a then t.amount else 0)
  {
    assert (l + [t])[..|l|] == l;
    var w := WithHash(l, hashes);
    assert (w + [t])[..|w|] == w;
    assert w + [] == w;
  }

  /** Sorting does not change what a sender spends, on any selection of hashes. */
  lemma {:induction false} SortKeepsSums(txs: seq<Transaction>, hashes: set<Hash>, a: string)
    ensures SumFrom(WithHash(SortTxs(txs), hashes), a) == SumFrom(WithHash(txs, hashes), a)
  {
    hide InsertTx;
    if |txs| > 0 {
      var n := |txs| - 1;
      SortKeepsSums(txs[..n], hashes, a);
      InsertTxSum(SortTxs(txs[..n]), txs[n], hashes, a);
      assert txs == txs[..n] + [txs[n]];
      WithHashSnoc(txs[..n], txs[n], hashes, a);
    }
  }

  lemma {:induction false} WithHashMembers(txs: seq<Transaction>, hashes: set<Hash>)
    ensures forall t :: t in WithHash(txs, hashes) <==> t in txs && t.hash in hashes
    ensures UniqueHashes(txs) ==> UniqueHashes(WithHash(txs, hashes))
    ensures UniqueNonces(txs) ==> UniqueNonces(WithHash(txs, hashes))
    ensures |WithHash(txs, hashes)| <= |txs|
  {
    if |txs| > 0 {
      hide UniqueHashes, UniqueNonces, Hashes, UsesNonce;
      var n := |txs| - 1;
      WithHashMembers(txs[..n], hashes);
      assert forall t :: t in txs <==> t in txs[..n] || t == txs[n];
      var w := WithHash(txs[..n], hashes);
      assert w + [] == w && txs == txs[..n] + [txs[n]];
      UniqueSnoc(txs[..n], txs[n]);
      UniqueSnoc(w, txs[n]);
      SublistUses(w, txs[..n], txs[n]);
    }
  }

  lemma UniqueSnoc(l: seq<Transaction>, t: Transaction)
    ensures UniqueHashes(l + [t]) <==> UniqueHashes(l) && t.hash !in Hashes(l)
    ensures UniqueNonces(l + [t]) <==> UniqueNonces(l) && !UsesNonce(l, t.from, t.nonce)
  {
    hide Hashes, UsesNonce;
    assert (l + [t])[..|l|] == l;
  }

  lemma SublistUses(l: seq<Transaction>, whole: seq<Transaction>, t: Transaction)
    requires forall u :: u in l ==> u in whole
    ensures Hashes(l) <= Hashes(whole)
    ensures UsesNonce(l, t.from, t.nonce) ==> UsesNonce(whole, t.from, t.nonce)
  {
  }

  lemma {:induction false} WithAllHashes(txs: seq<Transaction>, hashes: set<Hash>)
    requires Hashes(txs) <= hashes
    ensures WithHash(txs, hashes) == txs
  {
    hide Hashes;
    if |txs| > 0 {
      var n := |txs| - 1;
      assert txs == txs[..n] + [txs[n]];
      HashesSnoc(txs[..n], txs[n]);
      WithAllHashes(txs[..n], hashes);
    }
  }

  lemma {:induction false} WithHashDependsOnMembers(txs: seq<Transaction>, h1: set<Hash>, h2: set<Hash>)
    requires forall t :: t in txs ==> (t.hash in h1 <==> t.hash in h2)
    ensures WithHash(txs, h1) == WithHash(txs, h2)
  {
    if |txs| > 0 {
      assert forall t :: t in txs[..|txs| - 1] ==> t in txs;
      WithHashDependsOnMembers(txs[..|txs| - 1], h1, h2);
    }
  }

  /** With unique hashes a hash names one transaction; with unique nonces so does a sender and nonce. */
  lemma {:induction false} Identified(txs: seq<Transaction>, t: Transaction, u: Transaction)
    requires t in txs && u in txs
    ensures UniqueHashes(txs) && t.hash == u.hash ==> t == u
    ensures UniqueNonces(txs) && t.from == u.from && t.nonce == u.nonce ==> t == u
  {
    var n := |txs| - 1;
    if t in txs[..n] && u in txs[..n] {
      Identified(txs[..n], t, u);
    }
  }

  lemma {:induction false} PrefixSum(txs: seq<Transaction>, k: nat, a: string)
    requires AllVerified(txs) && k <= |txs|
    ensures 0 <= SumFrom(txs[..k], a) <= SumFrom(txs, a)
    decreases |txs|
  {
    if k == |txs| {
      assert txs[..k] == txs;
      ReceivedIsNonNegative(txs, a);
    } else {
      assert txs[..|txs| - 1][..k] == txs[..k];
      PrefixSum(txs[..|txs| - 1], k, a);
    }
  }

  // ------------------------------------------------------------------------
  // Next nonce
  // ------------------------------------------------------------------------

  ghost function NoncesAbove(pending: seq<Transaction>, a: string, n: int): set<int> {
    set t | t in pending && t.from == a && t.nonce >= n :: t.nonce
  }

  /** Counts up from `n` while a pending transaction of `a` uses the nonce. */
  function NextFrom(pending: seq<Transaction>, a: string, n: int): (v: int)
    ensures v >= n
    ensures !UsesNonce(pending, a, v)
    ensures forall u :: n <= u < v ==> UsesNonce(pending, a, u)
    decreases |NoncesAbove(pending, a, n)|
  {
    if UsesNonce(pending, a, n) then
      assert n in NoncesAbove(pending, a, n);
      assert NoncesAbove(pending, a, n + 1) <= NoncesAbove(pending, a, n) - {n};
      SubsetIsSmaller(NoncesAbove(pending, a, n + 1), NoncesAbove(pending, a, n) - {n});
      NextFrom(pending, a, n + 1)
    else n
  }

  function NextNonce(s: Accounts, pending: seq<Transaction>, a: string): int {
    NextFrom(pending, a, Nonce(s, a))
  }

  /** The next nonce is determined by being the least unused one. */
  lemma NextNonceIsLeast(pending: seq<Transaction>, a: string, n: int, v: int)
    requires v >= n && !UsesNonce(pending, a, v)
    requires forall u :: n <= u < v ==> UsesNonce(pending, a, u)
    ensures NextFrom(pending, a, n) == v
  {
    var w := NextFrom(pending, a, n);
    assert !UsesNonce(pending, a, w) && !UsesNonce(pending, a, v);
    assert w < v ==> UsesNonce(pending, a, w);
    assert v < w ==> UsesNonce(pending, a, v);
  }

  /** Pigeonhole: k distinct used nonces need k pending transactions. */
  lemma {:induction false} UsedNoncesNeedTxs(pending: seq<Transaction>, a: string, n: int, k: nat)
    requires forall u :: n <= u < n + k ==> UsesNonce(pending, a, u)
    ensures |SentBy(pending, a)| >= k
  {
    var used := set t | t in SentBy(pending, a) :: t.nonce;
    var range := Range(n, k);
    SentByMembers(pending, a);
    forall u | u in range ensures u in used {
      assert UsesNonce(pending, a, u);
      var t :| t in pending && t.from == a && t.nonce == u;
      assert t in SentBy(pending, a);
    }
    SubsetIsSmaller(range, used);
    ImageSize(SentBy(pending, a));
  }

  ghost function Range(n: int, k: nat): (r: set<int>)
    ensures |r| == k
    ensures forall u :: u in r <==> n <= u < n + k
  {
    if k == 0 then {} else Range(n, k - 1) + {n + k - 1}
  }

  lemma {:induction false} ImageSize(txs: seq<Transaction>)
    ensures |set t | t in txs :: t.nonce| <= |txs|
  {
    if |txs| > 0 {
      var n := |txs| - 1;
      ImageSize(txs[..n]);
      assert forall t :: t in txs <==> t in txs[..n] || t == txs[n];
      assert (set t | t in txs :: t.nonce) == (set t | t in txs[..n] :: t.nonce) + {txs[n].nonce};
    } else {
      assert (set t | t in txs :: t.nonce) == {};
    }
  }

  lemma {:induction false} SentByMembers(txs: seq<Transaction>, a: string)
    ensures forall t :: t in SentBy(txs, a) <==> t in txs && t.from == a
    ensures UniqueNonces(txs) ==> UniqueNonces(SentBy(txs, a))
  {
    if |txs| > 0 {
      var n := |txs| - 1;
      SentByMembers(txs[..n], a);
      assert forall t :: t in txs <==> t in txs[..n] || t == txs[n];
      var w := SentBy(txs[..n], a);
      assert (w + [txs[n]])[..|w|] == w;
      assert w + [] == w;
    }
  }

  // ------------------------------------------------------------------------
  // Selection
  // ------------------------------------------------------------------------

  /** Greedy selection over a sorted list: a transaction joins when there is room and it applies on
      top of what was selected before it. */
  function Select(s: Accounts, txs: seq<Transaction>, cap: int): (r: seq<Transaction>)
    ensures ApplyTxs(s, r).Some?
    ensures |r| <= |txs| && (r == [] || |r| <= cap)
  {
    if |txs| == 0 then []
    else
      var k := Select(s, txs[..|txs| - 1], cap);
      var t := txs[|txs| - 1];
      assert (k + [t])[..|k|] == k;
      if |k| < cap && Applicable(ApplyTxs(s, k).value, t) then k + [t] else k
  }

  function SelectForBlock(s: Accounts, opts: MempoolOptions, pending: seq<Transaction>): seq<Transaction> {
    Select(s, SortTxs(pending), opts.maxTxsPerBlock)
  }

  // ------------------------------------------------------------------------
  // Pruning
  // ------------------------------------------------------------------------

  /** Pending for longer than the time to live, counted from local arrival. */
  predicate Expired(received: map<Hash, int>, opts: MempoolOptions, now: int, t: Transaction) {
    now - (if t.hash in received then received[t.hash] else now) > opts.txTtlMs
  }

  predicate Retain(s: Accounts, received: map<Hash, int>, opts: MempoolOptions, now: int,
                   kept: seq<Transaction>, t: Transaction)
  {
    && t.nonce >= Nonce(s, t.from)
    && !Expired(received, opts, now, t)
    && SumFrom(kept, t.from) + t.amount <= Balance(s, t.from)
  }

  /** The survivors of a sorted list: lower nonces have first claim on the sender's balance. */
  function Keep(s: Accounts, received: map<Hash, int>, opts: MempoolOptions, now: int,
                txs: seq<Transaction>): seq<Transaction>
  {
    if |txs| == 0 then []
    else
      var k := Keep(s, received, opts, now, txs[..|txs| - 1]);
      if Retain(s, received, opts, now, k, txs[|txs| - 1]) then k + [txs[|txs| - 1]] else k
  }

  function Prune(s: Accounts, opts: MempoolOptions, pool: Pool, now: int): Pool {
    var hashes := Hashes(Keep(s, pool.received, opts, now, SortTxs(pool.pending)));
    Pool(WithHash(pool.pending, hashes), map h | h in pool.received && h in hashes :: pool.received[h])
  }

  // ------------------------------------------------------------------------
  // Admission
  // ------------------------------------------------------------------------

  datatype AddResult =
    | Added | PoolFull | DuplicateTx | InvalidTx | NonceUsed | NoncePending
    | TooManyPending | NonceTooFar | Insufficient

  function Admit(s: Accounts, opts: MempoolOptions, pool: Pool, tx: Transaction): AddResult {
    if |pool.pending| >= opts.maxPoolSize then PoolFull
    else if tx.hash in Hashes(pool.pending) then DuplicateTx
    else if !Verified(tx) then InvalidTx
    else if tx.nonce < Nonce(s, tx.from) then NonceUsed
    else if UsesNonce(pool.pending, tx.from, tx.nonce) then NoncePending
    else if |SentBy(pool.pending, tx.from)| >= opts.maxPendingPerSender then TooManyPending
    else if tx.nonce >= Nonce(s, tx.from) + opts.maxPendingPerSender then NonceTooFar
    else if Balance(s, tx.from) < SumFrom(pool.pending, tx.from) + tx.amount then Insufficient
    else Added
  }

  function Insert(pool: Pool, tx: Transaction, now: int): Pool {
    Pool(pool.pending + [tx], pool.received[tx.hash := now])
  }

  // ------------------------------------------------------------------------
  // The mempool invariant
  // ------------------------------------------------------------------------

  predicate Affordable(s: Accounts, pending: seq<Transaction>) {
    forall t :: t in pending ==> SumFrom(pending, t.from) <= Balance(s, t.from)
  }

  predicate Unspent(s: Accounts, pending: seq<Transaction>) {
    forall t :: t in pending ==> t.nonce >= Nonce(s, t.from)
  }

  /** Independent of the confirmed accounts. */
  predicate WellKept(pool: Pool) {
    AllVerified(pool.pending) && UniqueHashes(pool.pending) && pool.received.Keys == Hashes(pool.pending)
  }

  predicate PoolInv(s: Accounts, pool: Pool) {
    WellKept(pool) && Unspent(s, pool.pending) && Affordable(s, pool.pending)
  }

  /** The nonce window: holds while the confirmed accounts only advance. */
  predicate InWindow(s: Accounts, opts: MempoolOptions, pending: seq<Transaction>) {
    forall t :: t in pending ==> t.nonce < Nonce(s, t.from) + opts.maxPendingPerSender
  }

  /** The size limits: the whole pool, and each sender's share of it. */
  predicate WithinLimits(opts: MempoolOptions, pending: seq<Transaction>) {
    && (|pending| > 0 ==> |pending| <= opts.maxPoolSize)
    && forall t :: t in pending ==> |SentBy(pending, t.from)| <= opts.maxPendingPerSender
  }

  lemma SentBySnoc(txs: seq<Transaction>, t: Transaction, a: string)
    ensures SentBy(txs + [t], a) == if t.from == a then SentBy(txs, a) + [t] else SentBy(txs, a)
  {
    assert (txs + [t])[..|txs|] == txs;
    assert SentBy(txs, a) + [] == SentBy(txs, a);
  }

  lemma {:induction false} FilterShrinksShares(txs: seq<Transaction>, hashes: set<Hash>, a: string)
    ensures |SentBy(WithHash(txs, hashes), a)| <= |SentBy(txs, a)|
  {
    if |txs| > 0 {
      var n := |txs| - 1;
      FilterShrinksShares(txs[..n], hashes, a);
      SentBySnoc(WithHash(txs[..n], hashes), txs[n], a);
      assert WithHash(txs[..n], hashes) + [] == WithHash(txs[..n], hashes);
    }
  }

  /** Filtering keeps the limits, so pruning does. */
  lemma FilterKeepsLimits(opts: MempoolOptions, txs: seq<Transaction>, hashes: set<Hash>)
    requires WithinLimits(opts, txs)
    ensures WithinLimits(opts, WithHash(txs, hashes))
  {
    WithHashMembers(txs, hashes);
    forall t | t in WithHash(txs, hashes)
      ensures |SentBy(WithHash(txs, hashes), t.from)| <= opts.maxPendingPerSender
    {
      FilterShrinksShares(txs, hashes, t.from);
    }
  }

  /** Admission keeps the limits. */
  lemma AdmissionKeepsLimits(s: Accounts, opts: MempoolOptions, pool: Pool, tx: Transaction, now: int)
    requires WithinLimits(opts, pool.pending) && Admit(s, opts, pool, tx) == Added
    ensures WithinLimits(opts, Insert(pool, tx, now).pending)
  {
    hide SentBy, Verified, SumFrom, UsesNonce;
    var q := pool.pending + [tx];
    forall t | t in q ensures |SentBy(q, t.from)| <= opts.maxPendingPerSender {
      assert t in pool.pending || t == tx;
      SentBySnoc(pool.pending, tx, t.from);
    }
  }

  /** An admitted transaction keeps the invariant, the uniqueness of nonces and the window. */
  lemma AdmissionKeepsInvariant(s: Accounts, opts: MempoolOptions, pool: Pool, tx: Transaction, now: int)
    requires PoolInv(s, pool) && Admit(s, opts, pool, tx) == Added
    ensures PoolInv(s, Insert(pool, tx, now))
    ensures UniqueNonces(pool.pending) ==> UniqueNonces(Insert(pool, tx, now).pending)
    ensures InWindow(s, opts, pool.pending) ==> InWindow(s, opts, Insert(pool, tx, now).pending)
  {
    hide SumFrom, UniqueHashes, UniqueNonces, UsesNonce, Hashes, SentBy, Verified;
    var p := pool.pending;
    var q := p + [tx];
    assert forall t :: t in q <==> t in p || t == tx;
    HashesSnoc(p, tx);
    UniqueSnoc(p, tx);
    forall t | t in q ensures SumFrom(q, t.from) <= Balance(s, t.from) {
      SumFromSnoc(p, tx, t.from);
    }
  }

  /** Admission is sound and complete, on any pool that satisfies the invariant: a transaction is admitted
      exactly when the pool with it satisfies the invariant and the pool size limit, and its sender keeps to
      one transaction per nonce, to its share and to the window. */
  lemma AdmittedIff(s: Accounts, opts: MempoolOptions, pool: Pool, tx: Transaction, now: int)
    requires PoolInv(s, pool)
    ensures Admit(s, opts, pool, tx) == Added <==>
      && PoolInv(s, Insert(pool, tx, now))
      && |Insert(pool, tx, now).pending| <= opts.maxPoolSize
      && (forall t :: t in pool.pending && t.from == tx.from ==> t.nonce != tx.nonce)
      && |SentBy(Insert(pool, tx, now).pending, tx.from)| <= opts.maxPendingPerSender
      && tx.nonce < Nonce(s, tx.from) + opts.maxPendingPerSender
  {
    hide Verified, SumFrom, SentBy, Hashes, UniqueHashes;
    var p, q := pool.pending, pool.pending + [tx];
    HashesSnoc(p, tx);
    SentBySnoc(p, tx, tx.from);
    SumFromSnoc(p, tx, tx.from);
    assert q[|p|] == tx && tx in q;
    if Admit(s, opts, pool, tx) == Added {
      AdmissionKeepsInvariant(s, opts, pool, tx, now);
    } else if PoolInv(s, Insert(pool, tx, now)) {
      assert Verified(q[|p|]);
      assert SumFrom(q, tx.from) <= Balance(s, tx.from);
    }
  }

  /** So, where the uniqueness of nonces, the window and the limits hold as well, a transaction is admitted
      exactly when the pool with it satisfies all four again. */
  lemma AdmissionIsComplete(s: Accounts, opts: MempoolOptions, pool: Pool, tx: Transaction, now: int)
    requires PoolInv(s, pool) && UniqueNonces(pool.pending)
    requires InWindow(s, opts, pool.pending) && WithinLimits(opts, pool.pending)
    ensures Admit(s, opts, pool, tx) == Added <==>
      var q := Insert(pool, tx, now);
      && PoolInv(s, q) && UniqueNonces(q.pending) && InWindow(s, opts, q.pending) && WithinLimits(opts, q.pending)
  {
    hide PoolInv, SentBy, Admit;
    var p, q := pool.pending, pool.pending + [tx];
    AdmittedIff(s, opts, pool, tx, now);
    UniqueSnoc(p, tx);
    assert q[|p|] == tx && tx in q;
    if Admit(s, opts, pool, tx) == Added {
      AdmissionKeepsInvariant(s, opts, pool, tx, now);
      AdmissionKeepsLimits(s, opts, pool, tx, now);
    }
  }

  /** Uniqueness and the window alone imply the per-sender cap, so between chain replacements the
      cap never refuses a transaction the window would let in. */
  lemma WindowImpliesCap(s: Accounts, opts: MempoolOptions, pending: seq<Transaction>, a: string)
    requires UniqueNonces(pending) && Unspent(s, pending) && InWindow(s, opts, pending)
    requires opts.maxPendingPerSender >= 0
    ensures |SentBy(pending, a)| <= opts.maxPendingPerSender
    ensures |SentBy(pending, a)| == opts.maxPendingPerSender ==>
              forall v :: Nonce(s, a) <= v < Nonce(s, a) + opts.maxPendingPerSender ==> UsesNonce(pending, a, v)
  {
    var mine := SentBy(pending, a);
    SentByMembers(pending, a);
    var used := set t | t in mine :: t.nonce;
    var range := Range(Nonce(s, a), opts.maxPendingPerSender);
    assert used <= range;
    DistinctImageSize(mine, a);
    SubsetIsSmaller(used, range);
    if |mine| == opts.maxPendingPerSender {
      SubsetOfEqualSize(used, range);
      forall v | Nonce(s, a) <= v < Nonce(s, a) + opts.maxPendingPerSender
        ensures UsesNonce(pending, a, v)
      {
        assert v in used;
        var t :| t in mine && t.nonce == v;
        assert t in pending;
      }
    }
  }

  /** So, between chain replacements, "too many pending" is only ever answered to a transaction that
      is also too far ahead. */
  lemma CapNeverDecides(s: Accounts, opts: MempoolOptions, pool: Pool, tx: Transaction)
    requires UniqueNonces(pool.pending) && Unspent(s, pool.pending) && InWindow(s, opts, pool.pending)
    requires opts.maxPendingPerSender >= 0 && Admit(s, opts, pool, tx) == TooManyPending
    ensures tx.nonce >= Nonce(s, tx.from) + opts.maxPendingPerSender
  {
    WindowImpliesCap(s, opts, pool.pending, tx.from);
  }

  lemma {:induction false} DistinctImageSize(txs: seq<Transaction>, a: string)
    requires UniqueNonces(txs) && forall t :: t in txs ==> t.from == a
    ensures |set t | t in txs :: t.nonce| == |txs|
  {
    if |txs| > 0 {
      var n := |txs| - 1;
      assert forall t :: t in txs <==> t in txs[..n] || t == txs[n];
      DistinctImageSize(txs[..n], a);
      var init := set t | t in txs[..n] :: t.nonce;
      assert txs[n].nonce !in init;
      assert (set t | t in txs :: t.nonce) == init + {txs[n].nonce};
    } else {
      assert (set t | t in txs :: t.nonce) == {};
    }
  }

  lemma {:induction false} SubsetOfEqualSize<T>(small: set<T>, big: set<T>)
    requires small <= big && |small| == |big|
    ensures small == big
  {
    if small != big {
      var x :| x in big && x !in small;
      SubsetIsSmaller(small, big - {x});
    }
  }

  /** The advertised next nonce always gets through the nonce rules: a transaction carrying it is
      never refused as already used, as clashing with a pending one, or as too far ahead. */
  lemma NextNonceIsAdmissible(s: Accounts, opts: MempoolOptions, pool: Pool, tx: Transaction)
    requires tx.nonce == NextNonce(s, pool.pending, tx.from)
    ensures Admit(s, opts, pool, tx) !in {NonceUsed, NoncePending, NonceTooFar}
  {
    var c := Nonce(s, tx.from);
    UsedNoncesNeedTxs(pool.pending, tx.from, c, tx.nonce - c);
  }
}
