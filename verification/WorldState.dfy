/** Balances and nonces: the ordered, all-or-nothing application of transfers. */
module World {
  import opened Types
  import opened Transactions

  datatype Account = Account(balance: int, nonce: int)

  type Accounts = map<string, Account>

  function Get(s: Accounts, a: string): Account {
    if a in s then s[a] else Account(0, 0)
  }

  function Balance(s: Accounts, a: string): int {
    Get(s, a).balance
  }

  function Nonce(s: Accounts, a: string): int {
    Get(s, a).nonce
  }

  predicate Applicable(s: Accounts, tx: Transaction) {
    tx.nonce == Nonce(s, tx.from) && Balance(s, tx.from) >= tx.amount
  }

  function Credit(s: Accounts, tx: Transaction): Accounts {
    s[tx.to := Account(Balance(s, tx.to) + tx.amount, Nonce(s, tx.to))]
  }

  function Debit(s: Accounts, tx: Transaction): Accounts {
    s[tx.from := Account(Balance(s, tx.from) - tx.amount, Nonce(s, tx.from) + 1)]
  }

  /** One transfer. The receiver is read after the sender was written. */
  function ApplyTx(s: Accounts, tx: Transaction): Option<Accounts> {
    if Applicable(s, tx) then Some(Credit(Debit(s, tx), tx)) else None
  }

  /** Transfers in order; None as soon as one does not apply. */
  function ApplyTxs(s: Accounts, txs: seq<Transaction>): Option<Accounts> {
    if |txs| == 0 then Some(s)
    else match ApplyTxs(s, txs[..|txs| - 1])
      case None => None
      case Some(m) => ApplyTx(m, txs[|txs| - 1])
  }

  /** The accounts a fresh state holds: one per allocation entry, later entries winning. */
  function GenesisAccounts(allocations: seq<(string, int)>): Accounts {
    if |allocations| == 0 then map[]
    else
      var last := allocations[|allocations| - 1];
      GenesisAccounts(allocations[..|allocations| - 1])[last.0 := Account(last.1, 0)]
  }

  class WorldState {
    var accounts: Accounts

    constructor (genesis: seq<(string, int)>)
      ensures accounts == GenesisAccounts(genesis)
    {
      accounts := map[];
      new;
      for i := 0 to |genesis|
        invariant accounts == GenesisAccounts(genesis[..i])
      {
        accounts := accounts[genesis[i].0 := Account(genesis[i].1, 0)];
        assert genesis[..i + 1][..i] == genesis[..i];
      }
      assert genesis[..|genesis|] == genesis;
    }

    method Clone() returns (copy: WorldState)
      ensures fresh(copy) && copy.accounts == accounts
    {
      copy := new WorldState([]);
      copy.accounts := accounts;
    }

    /** Applies all of `txs`, or leaves the state as it was. */
    method ApplyAll(txs: seq<Transaction>) returns (ok: bool)
      modifies this
      ensures ok == ApplyTxs(old(accounts), txs).Some?
      ensures accounts == if ok then ApplyTxs(old(accounts), txs).value else old(accounts)
    {
      var working := accounts;
      for i := 0 to |txs|
        invariant ApplyTxs(accounts, txs[..i]) == Some(working)
        invariant accounts == old(accounts)
      {
        var tx := txs[i];
        assert txs[..i + 1][..i] == txs[..i];
        var sender := Get(working, tx.from);
        if tx.nonce != sender.nonce || sender.balance < tx.amount {
          FailureIsFinal(accounts, txs, i + 1);
          return false;
        }
        working := working[tx.from := Account(sender.balance - tx.amount, sender.nonce + 1)];
        var receiver := Get(working, tx.to);
        working := working[tx.to := Account(receiver.balance + tx.amount, receiver.nonce)];
      }
      assert txs[..|txs|] == txs;
      accounts := working;
      return true;
    }
  }

  lemma {:induction false} FailureIsFinal(s: Accounts, txs: seq<Transaction>, k: nat)
    requires k <= |txs| && ApplyTxs(s, txs[..k]).None?
    ensures ApplyTxs(s, txs).None?
    decreases |txs|
  {
    if k == |txs| {
      assert txs[..k] == txs;
    } else {
      var init := txs[..|txs| - 1];
      assert init[..k] == txs[..k];
      FailureIsFinal(s, init, k);
    }
  }

  /** Applying a list in two parts is applying it whole: the incremental form and the replay agree. */
  lemma {:induction false} ApplyConcat(s: Accounts, a: seq<Transaction>, b: seq<Transaction>)
    ensures ApplyTxs(s, a + b)
         == match ApplyTxs(s, a) { case None => None case Some(m) => ApplyTxs(m, b) }
    decreases |b|
  {
    if |b| == 0 {
      assert a + b == a;
    } else {
      var n := |b| - 1;
      assert (a + b)[..|a + b| - 1] == a + b[..n];
      ApplyConcat(s, a, b[..n]);
    }
  }

  // ------------------------------------------------------------------------
  // What a list of transfers does to one account
  // ------------------------------------------------------------------------

  /** Total sent by `a` in `txs`. */
  function SumFrom(txs: seq<Transaction>, a: string): int {
    if |txs| == 0 then 0
    else SumFrom(txs[..|txs| - 1], a) + (if txs[|txs| - 1].from == a then txs[|txs| - 1].amount else 0)
  }

  /** Total received by `a` in `txs`. */
  function SumTo(txs: seq<Transaction>, a: string): int {
    if |txs| == 0 then 0
    else SumTo(txs[..|txs| - 1], a) + (if txs[|txs| - 1].to == a then txs[|txs| - 1].amount else 0)
  }

  /** The transactions of `txs` sent by `a`, in their order. */
  function SentBy(txs: seq<Transaction>, a: string): seq<Transaction> {
    if |txs| == 0 then []
    else SentBy(txs[..|txs| - 1], a) + (if txs[|txs| - 1].from == a then [txs[|txs| - 1]] else [])
  }

  lemma SumFromSnoc(txs: seq<Transaction>, t: Transaction, a: string)
    ensures SumFrom(txs + [t], a) == SumFrom(txs, a) + (if t.from == a then t.amount else 0)
  {
    assert (txs + [t])[..|txs|] == txs;
  }

  lemma ApplySnoc(s: Accounts, txs: seq<Transaction>, t: Transaction)
    ensures ApplyTxs(s, txs + [t])
         == match ApplyTxs(s, txs) { case None => None case Some(m) => ApplyTx(m, t) }
  {
    assert (txs + [t])[..|txs|] == txs;
  }

  lemma ApplyOne(s: Accounts, t: Transaction)
    ensures ApplyTxs(s, [t]) == ApplyTx(s, t)
  {
    assert [] + [t] == [t];
    ApplySnoc(s, [], t);
  }

  /** A balance moves by what was received minus what was sent. */
  lemma {:induction false} BalanceAccounting(s: Accounts, txs: seq<Transaction>, a: string)
    requires ApplyTxs(s, txs).Some?
    ensures Balance(ApplyTxs(s, txs).value, a) == Balance(s, a) + SumTo(txs, a) - SumFrom(txs, a)
  {
    if |txs| > 0 {
      BalanceAccounting(s, txs[..|txs| - 1], a);
    }
  }

  /** Nonce exactness: what one sender sent, in order, carries consecutive nonces starting at the
      account's own, with no gap and no repeat, and the new nonce is one past the last of them. */
  lemma {:induction false} NonceExact(s: Accounts, txs: seq<Transaction>, a: string)
    requires ApplyTxs(s, txs).Some?
    ensures Nonce(ApplyTxs(s, txs).value, a) == Nonce(s, a) + |SentBy(txs, a)|
    ensures forall i :: 0 <= i < |SentBy(txs, a)| ==>
              SentBy(txs, a)[i].from == a && SentBy(txs, a)[i].nonce == Nonce(s, a) + i
  {
    if |txs| > 0 {
      NonceExact(s, txs[..|txs| - 1], a);
    }
  }

  /** Some transaction of `txs` is sent by `a` and carries the nonce `v`. */
  predicate UsesNonce(txs: seq<Transaction>, a: string, v: int) {
    exists t :: t in txs && t.from == a && t.nonce == v
  }

  lemma UsesNonceSnoc(txs: seq<Transaction>, t: Transaction, a: string, v: int)
    ensures UsesNonce(txs + [t], a, v) <==> UsesNonce(txs, a, v) || (t.from == a && t.nonce == v)
  {
    assert forall u :: u in txs + [t] <==> u in txs || u == t;
  }

  lemma ApplyMovesNonce(s: Accounts, tx: Transaction, a: string)
    requires ApplyTx(s, tx).Some?
    ensures tx.nonce == Nonce(s, tx.from)
    ensures Nonce(ApplyTx(s, tx).value, a) == Nonce(s, a) + (if tx.from == a then 1 else 0)
  {
  }

  /** The same by membership: the nonces used are exactly those between the old and the new one. */
  lemma {:induction false} NonceRange(s: Accounts, txs: seq<Transaction>, a: string, v: int)
    requires ApplyTxs(s, txs).Some?
    ensures UsesNonce(txs, a, v) <==> Nonce(s, a) <= v < Nonce(ApplyTxs(s, txs).value, a)
  {
    if |txs| > 0 {
      hide UsesNonce, ApplyTx, Nonce, SentBy;
      var n := |txs| - 1;
      NonceRange(s, txs[..n], a, v);
      NonceExact(s, txs[..n], a);
      assert txs == txs[..n] + [txs[n]];
      UsesNonceSnoc(txs[..n], txs[n], a, v);
      ApplyMovesNonce(ApplyTxs(s, txs[..n]).value, txs[n], a);
    }
  }

  // ------------------------------------------------------------------------
  // Conservation
  // ------------------------------------------------------------------------

  ghost function Total(s: Accounts): int {
    if s == map[] then 0
    else
      var k :| k in s;
      s[k].balance + Total(s - {k})
  }

  ghost predicate NonNegative(s: Accounts) {
    forall a :: a in s ==> s[a].balance >= 0 && s[a].nonce >= 0
  }

  /** The total does not depend on the order in which accounts are visited. */
  lemma {:induction false} TotalWithout(s: Accounts, a: string)
    requires a in s
    ensures Total(s) == s[a].balance + Total(s - {a})
    decreases |s|
  {
    var k :| k in s && Total(s) == s[k].balance + Total(s - {k});
    if k != a {
      TotalWithout(s - {k}, a);
      TotalWithout(s - {a}, k);
      assert s - {k} - {a} == s - {a} - {k};
    }
  }

  lemma TotalUpdate(s: Accounts, a: string, v: Account)
    ensures Total(s[a := v]) == Total(s) - Balance(s, a) + v.balance
  {
    TotalWithout(s[a := v], a);
    if a in s {
      TotalWithout(s, a);
      assert s[a := v] - {a} == s - {a};
    } else {
      assert s[a := v] - {a} == s;
    }
  }

  lemma {:induction false} TotalBoundsBalance(s: Accounts, a: string)
    requires NonNegative(s)
    ensures 0 <= Balance(s, a) <= Total(s)
    decreases |s|
  {
    if s != map[] {
      var k :| k in s && Total(s) == s[k].balance + Total(s - {k});
      TotalBoundsBalance(s - {k}, a);
    }
  }

  lemma ApplyConserves(s: Accounts, tx: Transaction)
    requires ApplyTx(s, tx).Some?
    ensures Total(ApplyTx(s, tx).value) == Total(s)
  {
    TotalUpdate(s, tx.from, Account(Balance(s, tx.from) - tx.amount, Nonce(s, tx.from) + 1));
    var d := Debit(s, tx);
    TotalUpdate(d, tx.to, Account(Balance(d, tx.to) + tx.amount, Nonce(d, tx.to)));
  }

  lemma ApplyKeepsNonNegative(s: Accounts, tx: Transaction)
    requires NonNegative(s) && tx.amount > 0 && ApplyTx(s, tx).Some?
    ensures NonNegative(ApplyTx(s, tx).value)
  {
  }

  /** Conservation: no list of verified transfers creates or destroys value, makes a balance
      negative, or lets one exceed the total. */
  lemma {:induction false} Conservation(s: Accounts, txs: seq<Transaction>)
    requires ApplyTxs(s, txs).Some? && NonNegative(s) && AllVerified(txs)
    ensures Total(ApplyTxs(s, txs).value) == Total(s)
    ensures NonNegative(ApplyTxs(s, txs).value)
    ensures forall a :: 0 <= Balance(ApplyTxs(s, txs).value, a) <= Total(s)
  {
    hide Verified, ApplyTx, Total, NonNegative;
    if |txs| > 0 {
      var n := |txs| - 1;
      VerifiedMembers(txs, [txs[n]]);
      assert txs[n] in txs;
      Conservation(s, txs[..n]);
      ApplyConserves(ApplyTxs(s, txs[..n]).value, txs[n]);
      ApplyKeepsNonNegative(ApplyTxs(s, txs[..n]).value, txs[n]);
    }
    var r := ApplyTxs(s, txs).value;
    forall a ensures 0 <= Balance(r, a) <= Total(r) {
      TotalBoundsBalance(r, a);
    }
  }

  /** A receiver only gains, so spending is bounded by the balance one started with. */
  lemma {:induction false} ReceivedIsNonNegative(txs: seq<Transaction>, a: string)
    requires AllVerified(txs)
    ensures SumTo(txs, a) >= 0 && SumFrom(txs, a) >= 0
  {
    if |txs| > 0 {
      ReceivedIsNonNegative(txs[..|txs| - 1], a);
    }
  }
}
