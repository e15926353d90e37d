/** Block building: which pending transactions are selected, how many, and what including them does
    to the pool they came from. */
module Selection {
  import opened Types
  import opened Transactions
  import opened World
  import opened Mempool
  import opened Pruning

  /** The transactions of `txs` below their sender's next nonce: those with no nonce gap before them. */
  function Includable(s: Accounts, pending: seq<Transaction>, txs: seq<Transaction>): seq<Transaction> {
    if |txs| == 0 then []
    else
      var t := txs[|txs| - 1];
      Includable(s, pending, txs[..|txs| - 1]) + (if t.nonce < NextNonce(s, pending, t.from) then [t] else [])
  }

  /** t is below its sender's next nonce, and nothing in `before` has its sender and nonce. */
  predicate IsFirst(s: Accounts, pending: seq<Transaction>, before: seq<Transaction>, t: Transaction) {
    t.nonce < NextNonce(s, pending, t.from) && !UsesNonce(before, t.from, t.nonce)
  }

  /** Of the includable transactions, the first of every sender and nonce. A pool restored from a file may
      list several. */
  function Firsts(s: Accounts, pending: seq<Transaction>, txs: seq<Transaction>): seq<Transaction> {
    if |txs| == 0 then []
    else
      var init, t := txs[..|txs| - 1], txs[|txs| - 1];
      Firsts(s, pending, init) + (if IsFirst(s, pending, init, t) then [t] else [])
  }

  lemma FirstsSnoc(s: Accounts, pending: seq<Transaction>, txs: seq<Transaction>, t: Transaction)
    ensures Firsts(s, pending, txs + [t])
         == if IsFirst(s, pending, txs, t) then Firsts(s, pending, txs) + [t] else Firsts(s, pending, txs)
  {
    hide IsFirst;
    assert (txs + [t])[..|txs|] == txs;
    assert Firsts(s, pending, txs) + [] == Firsts(s, pending, txs);
  }

  /** With unique nonces every includable transaction is the first of its kind. */
  lemma {:induction false} UniqueFirsts(s: Accounts, pending: seq<Transaction>, txs: seq<Transaction>)
    requires UniqueNonces(txs)
    ensures Firsts(s, pending, txs) == Includable(s, pending, txs)
  {
    if |txs| > 0 {
      UniqueFirsts(s, pending, txs[..|txs| - 1]);
    }
  }

  lemma NothingSelected(s: Accounts, cap: int)
    ensures Select(s, [], cap) == [] && ApplyTxs(s, []) == Some(s)
  {
  }

  lemma SelectSnoc(s: Accounts, txs: seq<Transaction>, t: Transaction, cap: int)
    ensures var k := Select(s, txs, cap);
            Select(s, txs + [t], cap)
            == if |k| < cap && Applicable(ApplyTxs(s, k).value, t) then k + [t] else k
  {
    hide Applicable;
    assert (txs + [t])[..|txs|] == txs;
  }

  function Take<T>(s: seq<T>, cap: int): seq<T> {
    if cap <= 0 then [] else if cap >= |s| then s else s[..cap]
  }

  /** Firsts drops no nonce below the next one. */
  lemma {:induction false} FirstsNonces(
      s: Accounts, pending: seq<Transaction>, txs: seq<Transaction>, a: string, v: int)
    ensures UsesNonce(Firsts(s, pending, txs), a, v) <==> UsesNonce(txs, a, v) && v < NextNonce(s, pending, a)
  {
    if |txs| > 0 {
      hide UsesNonce, NextFrom;
      var n := |txs| - 1;
      FirstsNonces(s, pending, txs[..n], a, v);
      assert txs == txs[..n] + [txs[n]];
      FirstsSnoc(s, pending, txs[..n], txs[n]);
      UsesNonceSnoc(txs[..n], txs[n], a, v);
      UsesNonceSnoc(Firsts(s, pending, txs[..n]), txs[n], a, v);
    } else {
      assert Firsts(s, pending, txs) == txs;
    }
  }

  lemma {:induction false} FirstsMembers(s: Accounts, pending: seq<Transaction>, txs: seq<Transaction>)
    ensures forall t :: t in Firsts(s, pending, txs) ==> t in txs
  {
    if |txs| > 0 {
      FirstsMembers(s, pending, txs[..|txs| - 1]);
    }
  }

  lemma {:induction false} FirstsSum(s: Accounts, pending: seq<Transaction>, txs: seq<Transaction>, a: string)
    requires forall t :: t in txs ==> t.amount > 0
    ensures SumFrom(Firsts(s, pending, txs), a) <= SumFrom(txs, a)
  {
    if |txs| > 0 {
      hide SumFrom, Firsts, IsFirst;
      var n := |txs| - 1;
      assert txs[n] in txs && forall t :: t in txs[..n] ==> t in txs;
      FirstsSum(s, pending, txs[..n], a);
      assert txs == txs[..n] + [txs[n]];
      FirstsSnoc(s, pending, txs[..n], txs[n]);
      SumFromSnoc(Firsts(s, pending, txs[..n]), txs[n], a);
      SumFromSnoc(txs[..n], txs[n], a);
    } else {
      assert Firsts(s, pending, txs) == txs;
    }
  }

  /** What the sorted order gives: before position i stand all pending transactions of the same sender
      with a lower nonce. */
  ghost predicate SortedView(s: Accounts, pending: seq<Transaction>, sorted: seq<Transaction>) {
    && Sorted(sorted)
    && (forall t :: t in sorted <==> t in pending)
    && Unspent(s, sorted)
  }

  /** The pending transactions before position i are those with a lower nonce, and perhaps some with the
      same one. */
  lemma BeforePosition(s: Accounts, pending: seq<Transaction>, sorted: seq<Transaction>, i: nat, v: int)
    requires SortedView(s, pending, sorted) && i < |sorted|
    ensures v < sorted[i].nonce ==>
              (UsesNonce(sorted[..i], sorted[i].from, v) <==> UsesNonce(pending, sorted[i].from, v))
    ensures v > sorted[i].nonce ==> !UsesNonce(sorted[..i], sorted[i].from, v)
  {
    var t, p := sorted[i], sorted[..i];
    if v < t.nonce && UsesNonce(pending, t.from, v) {
      var u :| u in pending && u.from == t.from && u.nonce == v;
      var j :| 0 <= j < |sorted| && sorted[j] == u;
      assert j < i;
      assert p[j] == u;
    }
    forall u | u in p ensures u.nonce <= t.nonce && u in pending {
      var j :| 0 <= j < i && sorted[j] == u;
      assert !Before(sorted[i], sorted[j]);
      assert u in sorted;
    }
  }

  /** When the greedy pass reaches t, its sender's simulated nonce has passed all pending nonces before t's
      own, up to the first gap; and t's own if a rival with the same nonce came first. */
  lemma ReachedNonce(s: Accounts, pending: seq<Transaction>, sorted: seq<Transaction>, i: nat)
    requires SortedView(s, pending, sorted) && i < |sorted|
    requires ApplyTxs(s, Firsts(s, pending, sorted[..i])).Some?
    ensures var t, p := sorted[i], sorted[..i];
            var next := NextNonce(s, pending, t.from);
            Nonce(ApplyTxs(s, Firsts(s, pending, p)).value, t.from)
            == if t.nonce >= next then next else if UsesNonce(p, t.from, t.nonce) then t.nonce + 1 else t.nonce
  {
    hide ApplyTxs, NextFrom, SentBy, Firsts, Nonce, UsesNonce, SortedView;
    var t, p := sorted[i], sorted[..i];
    var k := Firsts(s, pending, p);
    var a, next := t.from, NextNonce(s, pending, t.from);
    var start, reached := Nonce(s, a), Nonce(ApplyTxs(s, k).value, a);
    var goal := if t.nonce >= next then next else if UsesNonce(p, a, t.nonce) then t.nonce + 1 else t.nonce;
    NonceExact(s, k, a);
    OwnNonce(s, pending, sorted, i);
    FirstsNonces(s, pending, p, a, goal);
    BeforePosition(s, pending, sorted, i, goal);
    NonceRange(s, k, a, goal);
    assert reached <= goal;
    FirstsNonces(s, pending, p, a, reached);
    BeforePosition(s, pending, sorted, i, reached);
    NonceRange(s, k, a, reached);
    assert reached < next ==> UsesNonce(pending, a, reached);
  }

  /** t's own nonce is used by a pending transaction and not spent. */
  lemma OwnNonce(s: Accounts, pending: seq<Transaction>, sorted: seq<Transaction>, i: nat)
    requires SortedView(s, pending, sorted) && i < |sorted|
    ensures sorted[i].nonce >= Nonce(s, sorted[i].from) && UsesNonce(pending, sorted[i].from, sorted[i].nonce)
  {
    assert sorted[i] in sorted;
  }

  /** And what its sender has spent so far leaves enough for it. */
  lemma ReachedBalance(s: Accounts, pending: seq<Transaction>, sorted: seq<Transaction>, i: nat)
    requires AllVerified(sorted) && Affordable(s, sorted) && i < |sorted|
    requires ApplyTxs(s, Firsts(s, pending, sorted[..i])).Some?
    ensures Balance(ApplyTxs(s, Firsts(s, pending, sorted[..i])).value, sorted[i].from) >= sorted[i].amount
  {
    hide Verified, Firsts, NextNonce, SumFrom, SumTo, ApplyTxs, AllVerified;
    var t, p, k := sorted[i], sorted[..i], Firsts(s, pending, sorted[..i]);
    FirstsMembers(s, pending, p);
    VerifiedMembers(sorted, p);
    VerifiedMembers(p, k);
    BalanceAccounting(s, k, t.from);
    ReceivedIsNonNegative(k, t.from);
    FirstsSum(s, pending, p, t.from);
    PrefixSum(sorted, i + 1, t.from);
    assert sorted[..i + 1] == p + [t];
    SumFromSnoc(p, t, t.from);
    assert t in sorted;
  }

  /** So t applies exactly when it has no gap before it and is the first of its sender and nonce. */
  lemma AppliesIffFirst(s: Accounts, pending: seq<Transaction>, sorted: seq<Transaction>, i: nat)
    requires SortedView(s, pending, sorted) && i < |sorted|
    requires AllVerified(sorted) && Affordable(s, sorted)
    requires ApplyTxs(s, Firsts(s, pending, sorted[..i])).Some?
    ensures Applicable(ApplyTxs(s, Firsts(s, pending, sorted[..i])).value, sorted[i])
       <==> IsFirst(s, pending, sorted[..i], sorted[i])
  {
    hide SortedView, AllVerified, Affordable, ApplyTxs, Firsts, UsesNonce, NextFrom;
    ReachedNonce(s, pending, sorted, i);
    ReachedBalance(s, pending, sorted, i);
    OwnNonce(s, pending, sorted, i);
  }

  lemma {:induction false} GreedyIsFirsts(
      s: Accounts, pending: seq<Transaction>, sorted: seq<Transaction>, i: nat, cap: int)
    requires SortedView(s, pending, sorted) && i <= |sorted|
    requires AllVerified(sorted) && Affordable(s, sorted)
    ensures Select(s, sorted[..i], cap) == Take(Firsts(s, pending, sorted[..i]), cap)
    ensures ApplyTxs(s, Firsts(s, pending, sorted[..i])).Some?
    decreases i
  {
    hide SortedView, AllVerified, Affordable, Select, Firsts, IsFirst, ApplyTxs, Take;
    if i == 0 {
      assert sorted[..i] == [];
      GreedyOnNothing(s, pending, cap);
    } else {
      var p, t := sorted[..i - 1], sorted[i - 1];
      var k := Firsts(s, pending, p);
      GreedyIsFirsts(s, pending, sorted, i - 1, cap);
      AppliesIffFirst(s, pending, sorted, i - 1);
      assert sorted[..i] == p + [t];
      SelectSnoc(s, p, t, cap);
      FirstsSnoc(s, pending, p, t);
      ApplySnoc(s, k, t);
      TakeSnoc(k, t, cap);
    }
  }

  lemma GreedyOnNothing(s: Accounts, pending: seq<Transaction>, cap: int)
    ensures Select(s, [], cap) == Take(Firsts(s, pending, []), cap)
    ensures ApplyTxs(s, Firsts(s, pending, [])).Some?
  {
  }

  /** One more candidate joins a capped prefix only while the cap has room. */
  lemma TakeSnoc<T>(k: seq<T>, t: T, cap: int)
    ensures |Take(k, cap)| < cap ==> Take(k, cap) == k && Take(k + [t], cap) == k + [t]
    ensures |Take(k, cap)| >= cap ==> Take(k + [t], cap) == Take(k, cap)
  {
  }

  lemma PoolIsSortedView(s: Accounts, pool: Pool)
    requires PoolInv(s, pool)
    ensures SortedView(s, pool.pending, SortTxs(pool.pending))
    ensures AllVerified(SortTxs(pool.pending)) && Affordable(s, SortTxs(pool.pending))
  {
    hide Verified, Affordable, SortTxs, UniqueHashes;
    SortTxsProperties(pool.pending);
    SortIsVerified(pool.pending);
    SortIsAffordable(s, pool.pending);
  }

  /** Selection is complete: under the mempool invariant the greedy selector returns, in nonce order, the first
      maxTxsPerBlock of the transactions that are first of their sender and nonce and have no gap before
      them; and all of those apply. */
  lemma SelectionIsComplete(s: Accounts, opts: MempoolOptions, pool: Pool)
    requires PoolInv(s, pool)
    ensures SelectForBlock(s, opts, pool.pending)
         == Take(Firsts(s, pool.pending, SortTxs(pool.pending)), opts.maxTxsPerBlock)
    ensures ApplyTxs(s, Firsts(s, pool.pending, SortTxs(pool.pending))).Some?
  {
    hide PoolInv, SortedView, Firsts, SortTxs, Select, Take, ApplyTxs, AllVerified, Affordable;
    var sorted := SortTxs(pool.pending);
    PoolIsSortedView(s, pool);
    assert sorted[..|sorted|] == sorted;
    GreedyIsFirsts(s, pool.pending, sorted, |sorted|, opts.maxTxsPerBlock);
  }

  /** When no sender has two pending transactions with one nonce, that is every includable transaction. */
  lemma UniqueSelectionIsComplete(s: Accounts, opts: MempoolOptions, pool: Pool)
    requires PoolInv(s, pool) && UniqueNonces(pool.pending)
    ensures SelectForBlock(s, opts, pool.pending)
         == Take(Includable(s, pool.pending, SortTxs(pool.pending)), opts.maxTxsPerBlock)
    ensures ApplyTxs(s, Includable(s, pool.pending, SortTxs(pool.pending))).Some?
  {
    hide PoolInv, UniqueNonces, UniqueHashes, SortTxs, SelectForBlock, Take, ApplyTxs, Firsts, Includable;
    SelectionIsComplete(s, opts, pool);
    SortKeepsUniqueness(pool.pending);
    UniqueFirsts(s, pool.pending, SortTxs(pool.pending));
  }

  // ------------------------------------------------------------------------
  // How many are selected
  // ------------------------------------------------------------------------

  /** Over the given senders, how far the next nonce runs ahead of the confirmed one. */
  ghost function Backlog(s: Accounts, pending: seq<Transaction>, senders: set<string>): int {
    if senders == {} then 0
    else
      var a :| a in senders;
      NextNonce(s, pending, a) - Nonce(s, a) + Backlog(s, pending, senders - {a})
  }

  function Senders(txs: seq<Transaction>): set<string> {
    set t | t in txs :: t.from
  }

  /** Per sender: applying all of them brings the nonce exactly to the next nonce. */
  lemma FirstsPerSender(s: Accounts, pool: Pool, a: string)
    requires PoolInv(s, pool)
    ensures |SentBy(Firsts(s, pool.pending, SortTxs(pool.pending)), a)|
         == NextNonce(s, pool.pending, a) - Nonce(s, a)
  {
    hide PoolInv, SortedView, Firsts, SortTxs, SelectForBlock, ApplyTxs, UsesNonce, SentBy, NextFrom;
    var sorted := SortTxs(pool.pending);
    var k := Firsts(s, pool.pending, sorted);
    var next := NextNonce(s, pool.pending, a);
    SelectionIsComplete(s, MempoolOptions(0, 0, 0, 0), pool);
    NonceExact(s, k, a);
    var reached := Nonce(ApplyTxs(s, k).value, a);
    NonceRange(s, k, a, reached);
    NonceRange(s, k, a, next);
    FirstsNonces(s, pool.pending, sorted, a, reached);
    FirstsNonces(s, pool.pending, sorted, a, next);
    SortedUses(pool.pending, a, reached);
    assert reached < next ==> UsesNonce(pool.pending, a, reached);
  }

  lemma SortedUses(txs: seq<Transaction>, a: string, v: int)
    ensures UsesNonce(SortTxs(txs), a, v) <==> UsesNonce(txs, a, v)
  {
    SortTxsProperties(txs);
  }

  function Others(txs: seq<Transaction>, a: string): seq<Transaction> {
    if |txs| == 0 then []
    else Others(txs[..|txs| - 1], a) + (if txs[|txs| - 1].from != a then [txs[|txs| - 1]] else [])
  }

  lemma {:induction false} SplitBySender(txs: seq<Transaction>, a: string)
    ensures |txs| == |SentBy(txs, a)| + |Others(txs, a)|
    ensures forall t :: t in Others(txs, a) <==> t in txs && t.from != a
  {
    if |txs| > 0 {
      SplitBySender(txs[..|txs| - 1], a);
      assert forall t :: t in txs <==> t in txs[..|txs| - 1] || t == txs[|txs| - 1];
    }
  }

  lemma {:induction false} OthersKeepsSentBy(txs: seq<Transaction>, a: string, b: string)
    requires a != b
    ensures SentBy(Others(txs, a), b) == SentBy(txs, b)
  {
    if |txs| > 0 {
      var n := |txs| - 1;
      OthersKeepsSentBy(txs[..n], a, b);
      var o := Others(txs[..n], a);
      assert (o + [txs[n]])[..|o|] == o && o + [] == o;
      assert SentBy(o, b) + [] == SentBy(o, b);
    }
  }

  lemma {:induction false} CountBySender(
      s: Accounts, pending: seq<Transaction>, txs: seq<Transaction>, senders: set<string>)
    requires Senders(txs) <= senders
    requires forall a :: a in senders ==> |SentBy(txs, a)| == NextNonce(s, pending, a) - Nonce(s, a)
    ensures |txs| == Backlog(s, pending, senders)
    decreases senders
  {
    if senders == {} {
      assert forall t :: t in txs ==> t.from in Senders(txs);
      assert txs == [];
    } else {
      var a :| a in senders && Backlog(s, pending, senders)
            == NextNonce(s, pending, a) - Nonce(s, a) + Backlog(s, pending, senders - {a});
      SplitBySender(txs, a);
      forall b | b in Senders(Others(txs, a)) ensures b in senders - {a} {
        var t :| t in Others(txs, a) && t.from == b;
        assert t.from in Senders(txs);
      }
      forall b | b in senders - {a} ensures SentBy(Others(txs, a), b) == SentBy(txs, b) {
        OthersKeepsSentBy(txs, a, b);
      }
      CountBySender(s, pending, Others(txs, a), senders - {a});
    }
  }

  /** The size of a block: the backlog over all senders, capped at maxTxsPerBlock. */
  lemma SelectionSize(s: Accounts, opts: MempoolOptions, pool: Pool)
    requires PoolInv(s, pool) && opts.maxTxsPerBlock >= 0
    ensures var backlog := Backlog(s, pool.pending, Senders(pool.pending));
            |SelectForBlock(s, opts, pool.pending)|
            == if backlog < opts.maxTxsPerBlock then backlog else opts.maxTxsPerBlock
  {
    hide NextNonce, SelectForBlock, PoolInv, Firsts, SortTxs, ApplyTxs, Backlog;
    var sorted := SortTxs(pool.pending);
    var k := Firsts(s, pool.pending, sorted);
    SelectionIsComplete(s, opts, pool);
    SortTxsProperties(pool.pending);
    FirstsMembers(s, pool.pending, sorted);
    forall a | a in Senders(k) ensures a in Senders(pool.pending) {
      var t :| t in k && t.from == a;
      assert t in pool.pending;
    }
    forall a | a in Senders(pool.pending)
      ensures |SentBy(k, a)| == NextNonce(s, pool.pending, a) - Nonce(s, a)
    {
      FirstsPerSender(s, pool, a);
    }
    CountBySender(s, pool.pending, k, Senders(pool.pending));
  }

  /** There is something to put into a block exactly when there is room for one transaction and some pending
      transaction carries its sender's confirmed nonce. */
  lemma SomethingToSelect(s: Accounts, opts: MempoolOptions, pool: Pool)
    requires PoolInv(s, pool)
    ensures SelectForBlock(s, opts, pool.pending) != []
       <==> opts.maxTxsPerBlock > 0 && exists t :: t in pool.pending && t.nonce == Nonce(s, t.from)
  {
    hide SelectForBlock, PoolInv, Firsts, SortTxs, ApplyTxs, SentBy, NextFrom;
    var k := Firsts(s, pool.pending, SortTxs(pool.pending));
    SelectionIsComplete(s, opts, pool);
    forall a ensures SentBy(k, a) != [] <==> UsesNonce(pool.pending, a, Nonce(s, a)) {
      FirstsPerSender(s, pool, a);
    }
    if k != [] {
      SentByMembers(k, k[0].from);
      assert k[0] in SentBy(k, k[0].from);
      assert UsesNonce(pool.pending, k[0].from, Nonce(s, k[0].from));
    }
    if t :| t in pool.pending && t.nonce == Nonce(s, t.from) {
      assert UsesNonce(pool.pending, t.from, Nonce(s, t.from));
      SentByMembers(k, t.from);
      assert SentBy(k, t.from)[0] in k;
    }
  }

  // ------------------------------------------------------------------------
  // What including the selection does to the pool
  // ------------------------------------------------------------------------

  /** The accounts after a block made of the selection. */
  function AfterSelection(s: Accounts, opts: MempoolOptions, pending: seq<Transaction>): Accounts {
    ApplyTxs(s, SelectForBlock(s, opts, pending)).value
  }

  /** Neither expired nor with a nonce that m has confirmed. */
  predicate IsLeft(m: Accounts, received: map<Hash, int>, opts: MempoolOptions, now: int, t: Transaction) {
    t.nonce >= Nonce(m, t.from) && !Expired(received, opts, now, t)
  }

  /** Those transactions, in their order. */
  function Left(txs: seq<Transaction>, m: Accounts, received: map<Hash, int>, opts: MempoolOptions, now: int)
    : seq<Transaction>
  {
    if |txs| == 0 then []
    else
      var t := txs[|txs| - 1];
      Left(txs[..|txs| - 1], m, received, opts, now) + (if IsLeft(m, received, opts, now, t) then [t] else [])
  }

  /** The transactions of `txs` that are neither in `gone` nor expired, in their order. */
  function Remaining(txs: seq<Transaction>, gone: seq<Transaction>, received: map<Hash, int>,
                     opts: MempoolOptions, now: int): seq<Transaction>
  {
    if |txs| == 0 then []
    else
      var t := txs[|txs| - 1];
      Remaining(txs[..|txs| - 1], gone, received, opts, now)
      + (if t !in gone && !Expired(received, opts, now, t) then [t] else [])
  }

  lemma LeftSnoc(
      txs: seq<Transaction>, t: Transaction, m: Accounts, received: map<Hash, int>, opts: MempoolOptions, now: int)
    ensures var r := Left(txs, m, received, opts, now);
            Left(txs + [t], m, received, opts, now) == if IsLeft(m, received, opts, now, t) then r + [t] else r
  {
    hide IsLeft;
    assert (txs + [t])[..|txs|] == txs;
    assert Left(txs, m, received, opts, now) + [] == Left(txs, m, received, opts, now);
  }

  lemma RemainingSnoc(
      txs: seq<Transaction>, t: Transaction, gone: seq<Transaction>, received: map<Hash, int>,
      opts: MempoolOptions, now: int)
    ensures var r := Remaining(txs, gone, received, opts, now);
            Remaining(txs + [t], gone, received, opts, now)
            == if t !in gone && !Expired(received, opts, now, t) then r + [t] else r
  {
    hide Expired;
    assert (txs + [t])[..|txs|] == txs;
    assert Remaining(txs, gone, received, opts, now) + [] == Remaining(txs, gone, received, opts, now);
  }

  lemma {:induction false} LeftMembers(
      txs: seq<Transaction>, m: Accounts, received: map<Hash, int>, opts: MempoolOptions, now: int)
    ensures forall t :: t in Left(txs, m, received, opts, now) <==> t in txs && IsLeft(m, received, opts, now, t)
  {
    hide IsLeft;
    if |txs| > 0 {
      LeftMembers(txs[..|txs| - 1], m, received, opts, now);
      assert forall t :: t in txs <==> t in txs[..|txs| - 1] || t == txs[|txs| - 1];
    }
  }

  lemma {:induction false} RemainingMembers(
      txs: seq<Transaction>, gone: seq<Transaction>, received: map<Hash, int>, opts: MempoolOptions, now: int)
    ensures forall t :: t in Remaining(txs, gone, received, opts, now)
                   <==> t in txs && t !in gone && !Expired(received, opts, now, t)
  {
    hide Expired;
    if |txs| > 0 {
      RemainingMembers(txs[..|txs| - 1], gone, received, opts, now);
      assert forall t :: t in txs <==> t in txs[..|txs| - 1] || t == txs[|txs| - 1];
    }
  }

  lemma {:induction false} SelectMembers(s: Accounts, txs: seq<Transaction>, cap: int)
    ensures forall t :: t in Select(s, txs, cap) ==> t in txs
  {
    if |txs| > 0 {
      SelectMembers(s, txs[..|txs| - 1], cap);
    }
  }

  /** What is selected and what is left share out the sender's total between them. */
  lemma {:induction false} SumSplit(
      s: Accounts, txs: seq<Transaction>, cap: int, m: Accounts, received: map<Hash, int>,
      opts: MempoolOptions, now: int, a: string)
    requires forall t :: t in txs ==> t.amount > 0
    requires forall t :: t in Select(s, txs, cap) ==> !IsLeft(m, received, opts, now, t)
    ensures SumFrom(Left(txs, m, received, opts, now), a) + SumFrom(Select(s, txs, cap), a) <= SumFrom(txs, a)
  {
    hide SumFrom, Left, Select, IsLeft, Applicable;
    if |txs| > 0 {
      var n := |txs| - 1;
      var k, r := Select(s, txs[..n], cap), Left(txs[..n], m, received, opts, now);
      assert txs[n] in txs && forall t :: t in txs[..n] ==> t in txs;
      assert txs == txs[..n] + [txs[n]];
      SelectSnoc(s, txs[..n], txs[n], cap);
      assert forall t :: t in k ==> t in Select(s, txs, cap);
      assert Select(s, txs, cap) == k + [txs[n]] ==> txs[n] in Select(s, txs, cap);
      SumSplit(s, txs[..n], cap, m, received, opts, now, a);
      LeftSnoc(txs[..n], txs[n], m, received, opts, now);
      SumFromSnoc(k, txs[n], a);
      SumFromSnoc(r, txs[n], a);
      SumFromSnoc(txs[..n], txs[n], a);
    } else {
      NothingToSplit(s, txs, cap, m, received, opts, now, a);
    }
  }

  lemma NothingToSplit(
      s: Accounts, txs: seq<Transaction>, cap: int, m: Accounts, received: map<Hash, int>,
      opts: MempoolOptions, now: int, a: string)
    requires txs == []
    ensures SumFrom(Left(txs, m, received, opts, now), a) == SumFrom(Select(s, txs, cap), a) == SumFrom(txs, a) == 0
  {
  }

  lemma {:induction false} LeftPrefixSum(
      txs: seq<Transaction>, i: nat, m: Accounts, received: map<Hash, int>, opts: MempoolOptions, now: int, a: string)
    requires (forall t :: t in txs ==> t.amount > 0) && i <= |txs|
    ensures SumFrom(Left(txs[..i], m, received, opts, now), a) <= SumFrom(Left(txs, m, received, opts, now), a)
  {
    hide SumFrom, Left, IsLeft;
    if i == |txs| {
      assert txs[..i] == txs;
    } else {
      var n := |txs| - 1;
      assert txs[..n][..i] == txs[..i] && txs == txs[..n] + [txs[n]];
      assert txs[n] in txs && forall t :: t in txs[..n] ==> t in txs;
      LeftPrefixSum(txs[..n], i, m, received, opts, now, a);
      LeftSnoc(txs[..n], txs[n], m, received, opts, now);
      SumFromSnoc(Left(txs[..n], m, received, opts, now), txs[n], a);
    }
  }

  /** The nonces the selection consumes are those of the selected transactions. */
  lemma ConsumedIffNonceSelected(s: Accounts, opts: MempoolOptions, pool: Pool, t: Transaction)
    requires PoolInv(s, pool) && t in pool.pending
    ensures t.nonce < Nonce(AfterSelection(s, opts, pool.pending), t.from)
       <==> UsesNonce(SelectForBlock(s, opts, pool.pending), t.from, t.nonce)
  {
    hide WellKept, Affordable, UsesNonce, Select, SortTxs;
    NonceRange(s, SelectForBlock(s, opts, pool.pending), t.from, t.nonce);
  }

  lemma SelectedIsConsumed(s: Accounts, opts: MempoolOptions, pool: Pool, t: Transaction)
    requires PoolInv(s, pool) && t in SelectForBlock(s, opts, pool.pending)
    ensures t in pool.pending && t.nonce < Nonce(AfterSelection(s, opts, pool.pending), t.from)
  {
    hide PoolInv, AfterSelection, Select, SortTxs;
    SelectMembers(s, SortTxs(pool.pending), opts.maxTxsPerBlock);
    SortTxsProperties(pool.pending);
    ConsumedIffNonceSelected(s, opts, pool, t);
  }

  /** With unique nonces the selected transactions are exactly those whose nonce the block confirms. */
  lemma SelectedIffConsumed(s: Accounts, opts: MempoolOptions, pool: Pool, t: Transaction)
    requires PoolInv(s, pool) && UniqueNonces(pool.pending) && t in pool.pending
    ensures t in SelectForBlock(s, opts, pool.pending)
       <==> t.nonce < Nonce(AfterSelection(s, opts, pool.pending), t.from)
  {
    hide PoolInv, AfterSelection, SelectForBlock, UniqueNonces, UniqueHashes;
    ConsumedIffNonceSelected(s, opts, pool, t);
    var k := SelectForBlock(s, opts, pool.pending);
    if UsesNonce(k, t.from, t.nonce) {
      var u :| u in k && u.from == t.from && u.nonce == t.nonce;
      SelectedIsConsumed(s, opts, pool, u);
      Identified(pool.pending, t, u);
    }
  }

  /** After the block the rule of affordability has nothing to drop. */
  lemma {:induction false} KeepsLeft(s: Accounts, opts: MempoolOptions, pool: Pool, now: int, i: nat)
    requires PoolInv(s, pool) && i <= |SortTxs(pool.pending)|
    ensures var m := AfterSelection(s, opts, pool.pending);
            Keep(m, pool.received, opts, now, SortTxs(pool.pending)[..i])
            == Left(SortTxs(pool.pending)[..i], m, pool.received, opts, now)
  {
    hide PoolInv, SortTxs, AfterSelection, Balance, Nonce, SumFrom, Expired, Left;
    var m := AfterSelection(s, opts, pool.pending);
    if i > 0 {
      var sorted := SortTxs(pool.pending);
      var p, t := sorted[..i - 1], sorted[i - 1];
      assert sorted[..i] == p + [t] && sorted[..i][..i - 1] == p;
      KeepsLeft(s, opts, pool, now, i - 1);
      LeftSnoc(p, t, m, pool.received, opts, now);
      LeftIsAffordable(s, opts, pool, now, i);
      SumFromSnoc(Left(p, m, pool.received, opts, now), t, t.from);
    } else {
      assert SortTxs(pool.pending)[..0] == [];
      NothingLeft(m, pool.received, opts, now);
    }
  }

  lemma NothingLeft(m: Accounts, received: map<Hash, int>, opts: MempoolOptions, now: int)
    ensures Left([], m, received, opts, now) == []
  {
  }

  lemma LeftIsAffordable(s: Accounts, opts: MempoolOptions, pool: Pool, now: int, i: nat)
    requires PoolInv(s, pool) && 0 < i <= |SortTxs(pool.pending)|
    ensures var sorted, m := SortTxs(pool.pending), AfterSelection(s, opts, pool.pending);
            SumFrom(Left(sorted[..i], m, pool.received, opts, now), sorted[i - 1].from)
            <= Balance(m, sorted[i - 1].from)
  {
    hide Verified, SumFrom, SumTo, SortTxs, Left, Select, Balance, Unspent, UniqueHashes;
    var sorted, m := SortTxs(pool.pending), AfterSelection(s, opts, pool.pending);
    var a := sorted[i - 1].from;
    var k := SelectForBlock(s, opts, pool.pending);
    SortIsVerified(pool.pending);
    SortIsAffordable(s, pool.pending);
    SelectMembers(s, sorted, opts.maxTxsPerBlock);
    VerifiedMembers(sorted, k);
    LeftPrefixSum(sorted, i, m, pool.received, opts, now, a);
    forall t | t in k ensures !IsLeft(m, pool.received, opts, now, t) {
      SelectedIsConsumed(s, opts, pool, t);
    }
    SumSplit(s, sorted, opts.maxTxsPerBlock, m, pool.received, opts, now, a);
    BalanceAccounting(s, k, a);
    ReceivedIsNonNegative(k, a);
    assert sorted[i - 1] in sorted;
  }

  lemma {:induction false} FilterIsLeft(
      txs: seq<Transaction>, hashes: set<Hash>, m: Accounts, received: map<Hash, int>, opts: MempoolOptions, now: int)
    requires forall t :: t in txs ==> (t.hash in hashes <==> IsLeft(m, received, opts, now, t))
    ensures WithHash(txs, hashes) == Left(txs, m, received, opts, now)
  {
    hide IsLeft, Left;
    if |txs| > 0 {
      var n := |txs| - 1;
      assert txs[n] in txs && forall t :: t in txs[..n] ==> t in txs;
      FilterIsLeft(txs[..n], hashes, m, received, opts, now);
      assert txs == txs[..n] + [txs[n]];
      LeftSnoc(txs[..n], txs[n], m, received, opts, now);
      assert WithHash(txs[..n], hashes) + [] == WithHash(txs[..n], hashes);
    } else {
      NothingLeft(m, received, opts, now);
    }
  }

  /** Proposing from one's own pool leaves exactly the unexpired transactions whose nonce the block does not
      confirm, in arrival order: the affordability rule drops nothing. */
  lemma ProposalLeavesUnconsumed(s: Accounts, opts: MempoolOptions, pool: Pool, now: int)
    requires PoolInv(s, pool)
    ensures var m := AfterSelection(s, opts, pool.pending);
            Prune(m, opts, pool, now).pending == Left(pool.pending, m, pool.received, opts, now)
  {
    hide PoolInv, SortTxs, AfterSelection, UniqueHashes, Keep, IsLeft, Left, WithHash;
    var sorted := SortTxs(pool.pending);
    var m := AfterSelection(s, opts, pool.pending);
    var rest := Left(sorted, m, pool.received, opts, now);
    KeepsLeft(s, opts, pool, now, |sorted|);
    assert sorted[..|sorted|] == sorted;
    LeftMembers(sorted, m, pool.received, opts, now);
    SortTxsProperties(pool.pending);
    InvariantHasUniqueHashes(s, pool);
    forall t | t in pool.pending ensures t.hash in Hashes(rest) <==> IsLeft(m, pool.received, opts, now, t) {
      if t.hash in Hashes(rest) {
        var u :| u in rest && u.hash == t.hash;
        Identified(pool.pending, t, u);
      } else {
        assert t !in rest;
      }
    }
    FilterIsLeft(pool.pending, Hashes(rest), m, pool.received, opts, now);
  }

  lemma InvariantHasUniqueHashes(s: Accounts, pool: Pool)
    requires PoolInv(s, pool)
    ensures UniqueHashes(pool.pending)
  {
  }

  lemma {:induction false} SameFilter(
      txs: seq<Transaction>, gone: seq<Transaction>, m: Accounts, received: map<Hash, int>,
      opts: MempoolOptions, now: int)
    requires forall t :: t in txs && !Expired(received, opts, now, t) ==> (t in gone <==> t.nonce < Nonce(m, t.from))
    ensures Left(txs, m, received, opts, now) == Remaining(txs, gone, received, opts, now)
  {
    hide Expired, Nonce;
    if |txs| > 0 {
      assert txs[|txs| - 1] in txs && forall t :: t in txs[..|txs| - 1] ==> t in txs;
      SameFilter(txs[..|txs| - 1], gone, m, received, opts, now);
    }
  }

  /** t lost its place to a selected transaction with its sender and nonce. */
  predicate HasSelectedRival(selected: seq<Transaction>, t: Transaction) {
    t !in selected && UsesNonce(selected, t.from, t.nonce)
  }

  /** Exactly when nothing but the selected and the expired goes: no unexpired transaction shares sender and
      nonce with a selected one without being selected itself. */
  lemma ProposalDropsOnlySelectedIff(s: Accounts, opts: MempoolOptions, pool: Pool, now: int)
    requires PoolInv(s, pool)
    ensures var selected := SelectForBlock(s, opts, pool.pending);
            Prune(AfterSelection(s, opts, pool.pending), opts, pool, now).pending
            == Remaining(pool.pending, selected, pool.received, opts, now)
            <==> forall t :: t in pool.pending && !Expired(pool.received, opts, now, t) ==>
                   !HasSelectedRival(selected, t)
  {
    hide PoolInv, SelectForBlock, AfterSelection, UsesNonce, Expired, Prune, Left, Remaining, Nonce;
    var selected, m := SelectForBlock(s, opts, pool.pending), AfterSelection(s, opts, pool.pending);
    ProposalLeavesUnconsumed(s, opts, pool, now);
    LeftMembers(pool.pending, m, pool.received, opts, now);
    RemainingMembers(pool.pending, selected, pool.received, opts, now);
    forall t | t in pool.pending
      ensures t.nonce < Nonce(m, t.from) <==> UsesNonce(selected, t.from, t.nonce)
      ensures t in selected ==> t.nonce < Nonce(m, t.from)
    {
      ConsumedIffNonceSelected(s, opts, pool, t);
      if t in selected {
        SelectedIsConsumed(s, opts, pool, t);
      }
    }
    if forall t :: t in pool.pending && !Expired(pool.received, opts, now, t) ==> !HasSelectedRival(selected, t) {
      SameFilter(pool.pending, selected, m, pool.received, opts, now);
    }
  }

  /** With unique nonces that is always so. */
  lemma ProposalDropsOnlySelected(s: Accounts, opts: MempoolOptions, pool: Pool, now: int)
    requires PoolInv(s, pool) && UniqueNonces(pool.pending)
    ensures Prune(AfterSelection(s, opts, pool.pending), opts, pool, now).pending
         == Remaining(pool.pending, SelectForBlock(s, opts, pool.pending), pool.received, opts, now)
  {
    hide PoolInv, SelectForBlock, AfterSelection, UsesNonce, Expired, Prune, Remaining, Nonce, UniqueNonces;
    ProposalDropsOnlySelectedIff(s, opts, pool, now);
    forall t | t in pool.pending ensures !HasSelectedRival(SelectForBlock(s, opts, pool.pending), t) {
      SelectedIffConsumed(s, opts, pool, t);
      ConsumedIffNonceSelected(s, opts, pool, t);
    }
  }

  /** And with nothing expired, no wallet sees its next nonce move. */
  lemma ProposalKeepsNextNonces(s: Accounts, opts: MempoolOptions, pool: Pool, now: int, a: string)
    requires PoolInv(s, pool)
    requires forall t :: t in pool.pending ==> !Expired(pool.received, opts, now, t)
    ensures var m := AfterSelection(s, opts, pool.pending);
            NextNonce(m, Prune(m, opts, pool, now).pending, a) == NextNonce(s, pool.pending, a)
  {
    hide PoolInv, SelectForBlock, Prune, Left, Nonce, NextFrom, ApplyTxs, Expired;
    var k := SelectForBlock(s, opts, pool.pending);
    var m := AfterSelection(s, opts, pool.pending);
    var left := Prune(m, opts, pool, now).pending;
    var next := NextNonce(s, pool.pending, a);
    ProposalLeavesUnconsumed(s, opts, pool, now);
    LeftMembers(pool.pending, m, pool.received, opts, now);
    forall v ensures UsesNonce(left, a, v) <==> UsesNonce(pool.pending, a, v) && v >= Nonce(m, a) {
    }
    SelectionUsesPending(s, opts, pool, a, next);
    NextNonceIsLeast(left, a, Nonce(m, a), next);
  }

  /** The confirmed nonce after the block lies between the one before it and the next nonce. */
  lemma SelectionUsesPending(s: Accounts, opts: MempoolOptions, pool: Pool, a: string, next: int)
    requires PoolInv(s, pool) && next == NextNonce(s, pool.pending, a)
    ensures Nonce(s, a) <= Nonce(AfterSelection(s, opts, pool.pending), a) <= next
  {
    hide PoolInv, SortTxs, Select, Nonce, ApplyTxs;
    var k := SelectForBlock(s, opts, pool.pending);
    SelectMembers(s, SortTxs(pool.pending), opts.maxTxsPerBlock);
    SortTxsProperties(pool.pending);
    NonceExact(s, k, a);
    NonceRange(s, k, a, next);
    assert UsesNonce(k, a, next) ==> UsesNonce(pool.pending, a, next);
  }
}
