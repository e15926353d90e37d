/** JavaScript numbers. Every sum and difference of the ledger is computed in binary64; this module
    shows that, below the safe-integer bound, that arithmetic and the integer model coincide. */
module SafeIntegers {
  import opened Types
  import opened Transactions
  import opened World

  const TWO_53: int := 0x20_0000_0000_0000

  /** Spacing of the doubles around an integer x >= 0. */
  function Ulp(x: nat): (u: nat)
    ensures u >= 1
  {
    if x <= TWO_53 then 1 else 2 * Ulp((x + 1) / 2)
  }

  /** The multiple of u nearest to x, ties to the even multiple. */
  function Nearest(x: nat, u: int): int
    requires u > 0
  {
    var q, r := x / u, x % u;
    if 2 * r < u || (2 * r == u && q % 2 == 0) then q * u else (q + 1) * u
  }

  function RoundNat(x: nat): int {
    if x <= TWO_53 then x else Nearest(x, Ulp(x))
  }

  /** Round to nearest, ties to even. */
  function Round(x: int): int {
    if x < 0 then 0 - RoundNat(-x) else RoundNat(x)
  }

  /** A comparison against a safe balance survives rounding even when the sum itself does not. */
  lemma ComparisonIsExact(balance: int, sum: int)
    requires 0 <= balance <= MAX_SAFE && 0 <= sum <= 2 * MAX_SAFE
    ensures balance < Round(sum) <==> balance < sum
  {
    if sum > TWO_53 {
      assert Ulp((sum + 1) / 2) == 1;
      assert Round(sum) == Nearest(sum, 2) >= TWO_53;
    }
  }

  /** One transfer as the program computes it. */
  function ApplyTxDouble(s: Accounts, tx: Transaction): Option<Accounts> {
    var sender := Get(s, tx.from);
    if tx.nonce != sender.nonce || sender.balance < tx.amount then None
    else
      var d := s[tx.from := Account(Round(sender.balance - tx.amount), Round(sender.nonce + 1))];
      var receiver := Get(d, tx.to);
      Some(d[tx.to := Account(Round(receiver.balance + tx.amount), receiver.nonce)])
  }

  function ApplyTxsDouble(s: Accounts, txs: seq<Transaction>): Option<Accounts> {
    if |txs| == 0 then Some(s)
    else match ApplyTxsDouble(s, txs[..|txs| - 1])
      case None => None
      case Some(m) => ApplyTxDouble(m, txs[|txs| - 1])
  }

  lemma ApplyIsExact(s: Accounts, tx: Transaction)
    requires NonNegative(s) && Total(s) <= TWO_53 && Verified(tx)
    ensures ApplyTxDouble(s, tx) == ApplyTx(s, tx)
  {
    hide Verify, IsAddress, Total, Nearest, Ulp;
    if Applicable(s, tx) {
      TotalBoundsBalance(s, tx.from);
      ApplyOne(s, tx);
      Conservation(s, [tx]);
      assert Balance(ApplyTx(s, tx).value, tx.to) <= Total(s);
    }
  }

  /** With a total of at most 2^53, applying verified transfers in doubles is exact: same
      verdict, same balances, same nonces, however many transfers there are. */
  lemma {:induction false} ApplyAllIsExact(s: Accounts, txs: seq<Transaction>)
    requires NonNegative(s) && Total(s) <= TWO_53 && AllVerified(txs)
    ensures ApplyTxsDouble(s, txs) == ApplyTxs(s, txs)
  {
    if |txs| > 0 {
      var n := |txs| - 1;
      ApplyAllIsExact(s, txs[..n]);
      if ApplyTxs(s, txs[..n]).Some? {
        Conservation(s, txs[..n]);
        ApplyIsExact(ApplyTxs(s, txs[..n]).value, txs[n]);
      }
    }
  }

  /** The bound is needed: two units above it, a transfer of one unit is accepted and lost. */
  lemma TransferIsLostAboveTheBound(a: string, b: string, tx: Transaction)
    requires a != b && tx.from == a && tx.to == b && tx.amount == 1 && tx.nonce == 0
    ensures var s := map[a := Account(1, 0), b := Account(TWO_53, 0)];
            && Total(s) == MAX_SAFE + 2
            && ApplyTxDouble(s, tx).Some?
            && Total(ApplyTxDouble(s, tx).value) == Total(s) - 1
  {
    var e: Accounts := map[];
    TotalUpdate(e, a, Account(1, 0));
    TotalUpdate(e[a := Account(1, 0)], b, Account(TWO_53, 0));
    var s := map[a := Account(1, 0), b := Account(TWO_53, 0)];
    assert s == e[a := Account(1, 0)][b := Account(TWO_53, 0)];
    assert Ulp((TWO_53 + 2) / 2) == 1;
    assert Round(TWO_53 + 1) == Nearest(TWO_53 + 1, 2) == TWO_53;
    var r := ApplyTxDouble(s, tx).value;
    assert r == s[a := Account(0, 1)][b := Account(TWO_53, 0)];
    TotalUpdate(s, a, Account(0, 1));
    TotalUpdate(s[a := Account(0, 1)], b, Account(TWO_53, 0));
  }

  /** The running total of a sender's amounts, as the program folds it. */
  function SumFromDouble(txs: seq<Transaction>, a: string): int {
    if |txs| == 0 then 0
    else if txs[|txs| - 1].from == a then
      Round(SumFromDouble(txs[..|txs| - 1], a) + txs[|txs| - 1].amount)
    else SumFromDouble(txs[..|txs| - 1], a)
  }

  /** While a sender's pending amounts fit a safe balance, the fold is exact, and adding one more
      verified amount leaves the affordability test right in both directions. */
  lemma {:induction false} PendingSumIsExact(txs: seq<Transaction>, a: string, balance: int, amount: int)
    requires AllVerified(txs) && 0 <= SumFrom(txs, a) <= balance <= MAX_SAFE && 0 < amount <= MAX_SAFE
    ensures SumFromDouble(txs, a) == SumFrom(txs, a)
    ensures balance < Round(SumFromDouble(txs, a) + amount) <==> balance < SumFrom(txs, a) + amount
  {
    if |txs| > 0 {
      var n := |txs| - 1;
      ReceivedIsNonNegative(txs[..n], a);
      PendingSumIsExact(txs[..n], a, balance, amount);
    }
    ComparisonIsExact(balance, SumFrom(txs, a) + amount);
  }

  // ------------------------------------------------------------------------
  // Exactly up to which total
  // ------------------------------------------------------------------------

  /** Balances that doubles can hold. */
  predicate Representable(s: Accounts) {
    forall a :: a in s ==> Round(s[a].balance) == s[a].balance
  }

  ghost predicate HoldsTotal(s: Accounts, total: int) {
    NonNegative(s) && Representable(s) && Total(s) == total
  }

  ghost predicate TransfersExact(s: Accounts, txs: seq<Transaction>) {
    AllVerified(txs) ==> ApplyTxsDouble(s, txs) == ApplyTxs(s, txs)
  }

  /** The affordability test of one more amount on top of an affordable list. */
  ghost predicate ComparisonExact(s: Accounts, txs: seq<Transaction>, a: string, amount: int) {
    AllVerified(txs) && SumFrom(txs, a) <= Balance(s, a) && 0 < amount <= MAX_SAFE ==>
      (Balance(s, a) < Round(SumFromDouble(txs, a) + amount) <==> Balance(s, a) < SumFrom(txs, a) + amount)
  }

  ghost predicate TransfersExactAt(total: int) {
    forall s, txs :: HoldsTotal(s, total) ==> TransfersExact(s, txs)
  }

  ghost predicate ComparisonsExactAt(total: int) {
    forall s, txs, a, amount :: HoldsTotal(s, total) ==> ComparisonExact(s, txs, a, amount)
  }

  function FillerKey(k: nat): (key: string)
    ensures |key| == k + 1 && key[0] == 'z'
  {
    seq(k + 1, _ => 'z')
  }

  /** Accounts that hold `rest` units between them, none more than 2^53. */
  function Filler(rest: nat, k: nat): Accounts
    decreases rest
  {
    if rest == 0 then map[]
    else
      var chunk := if rest <= TWO_53 then rest else TWO_53;
      Filler(rest - chunk, k + 1)[FillerKey(k) := Account(chunk, 0)]
  }

  lemma {:induction false} FillerHolds(rest: nat, k: nat)
    ensures HoldsTotal(Filler(rest, k), rest)
    ensures forall a :: a in Filler(rest, k) ==> |a| > k && a[0] == 'z'
    decreases rest
  {
    if rest > 0 {
      var chunk := if rest <= TWO_53 then rest else TWO_53;
      FillerHolds(rest - chunk, k + 1);
      AddAccount(Filler(rest - chunk, k + 1), rest - chunk, FillerKey(k), chunk);
    }
  }

  /** One more account joins the total. */
  lemma AddAccount(s: Accounts, total: int, a: string, balance: int)
    requires HoldsTotal(s, total) && a !in s && 0 <= balance <= TWO_53
    ensures HoldsTotal(s[a := Account(balance, 0)], total + balance)
  {
    hide Total;
    TotalUpdate(s, a, Account(balance, 0));
  }

  /** Above 2^53 a state can hold an account of 2^53 units next to one unit that is paid to it and lost. */
  lemma TransferInexactAbove(total: int) returns (s: Accounts, txs: seq<Transaction>)
    requires total > TWO_53
    ensures HoldsTotal(s, total) && !TransfersExact(s, txs)
  {
    hide HoldsTotal, Verified, IsAddress, Nearest, Ulp, RoundNat, Round;
    var a := SomeAddress();
    var b := OtherAddress(a);
    var rest := Filler(total - TWO_53 - 1, 0);
    FillerHolds(total - TWO_53 - 1, 0);
    AddressIsNoFiller(a);
    AddressIsNoFiller(b);
    AddAccount(rest, total - TWO_53 - 1, b, TWO_53);
    s := rest[b := Account(TWO_53, 0)];
    AddAccount(s, total - 1, a, 1);
    s := s[a := Account(1, 0)];
    var tx := Payment(a, 1, 0);
    PaymentIsVerified(a, 1, 0);
    RoundAtTheBound();
    ApplyOne(s, tx);
    txs := [tx];
    assert txs[..0] == [] && ApplyTxsDouble(s, []) == Some(s);
    assert Balance(ApplyTx(s, tx).value, b) == TWO_53 + 1;
    assert Balance(ApplyTxDouble(s, tx).value, b) == TWO_53;
  }

  lemma AddressIsNoFiller(a: string)
    requires IsAddress(a)
    ensures a[0] != 'z'
  {
  }

  lemma RoundAtTheBound()
    ensures Round(TWO_53 + 1) == TWO_53 == Round(TWO_53) && Round(0) == 0 && Round(1) == 1
    ensures Round(MAX_SAFE) == MAX_SAFE
  {
    assert Ulp((TWO_53 + 2) / 2) == 1;
    assert Round(TWO_53 + 1) == Nearest(TWO_53 + 1, 2);
  }

  /** At 2^53 and above a balance of 2^53 with all of it pending seems to afford one unit more. */
  lemma ComparisonInexactFrom(total: int)
    returns (s: Accounts, txs: seq<Transaction>, a: string, amount: int)
    requires total >= TWO_53
    ensures HoldsTotal(s, total) && !ComparisonExact(s, txs, a, amount)
  {
    hide HoldsTotal, Verified, IsAddress, Nearest, Ulp, RoundNat, Round;
    a, amount := SomeAddress(), 1;
    var rest := Filler(total - TWO_53, 0);
    FillerHolds(total - TWO_53, 0);
    AddressIsNoFiller(a);
    AddAccount(rest, total - TWO_53, a, TWO_53);
    s := rest[a := Account(TWO_53, 0)];
    var first, second := Payment(a, MAX_SAFE, 0), Payment(a, 1, 1);
    PaymentIsVerified(a, MAX_SAFE, 0);
    PaymentIsVerified(a, 1, 1);
    RoundAtTheBound();
    txs := [first, second];
    PaymentSums(a);
  }

  lemma PaymentSums(a: string)
    requires IsAddress(a)
    ensures var txs := [Payment(a, MAX_SAFE, 0), Payment(a, 1, 1)];
            SumFrom(txs, a) == TWO_53 && SumFromDouble(txs, a) == TWO_53
  {
    hide IsAddress, Nearest, Ulp, RoundNat, Round;
    var first, second := Payment(a, MAX_SAFE, 0), Payment(a, 1, 1);
    var txs := [first, second];
    RoundAtTheBound();
    assert txs[..1] == [first];
    assert [first][..0] == [];
    assert SumFrom([first], a) == MAX_SAFE;
    assert SumFromDouble([first], a) == MAX_SAFE;
    assert SumFrom(txs, a) == SumFrom(txs[..1], a) + 1;
    assert SumFromDouble(txs, a) == Round(SumFromDouble(txs[..1], a) + 1);
  }

  /** The exact thresholds: transfers in doubles are exact in every state of a given total, for every list, if
      and only if the total is at most 2^53; transfers and affordability tests together, if and only if it
      is at most 2^53 - 1. */
  lemma ExactnessThresholds(total: int)
    ensures TransfersExactAt(total) <==> total <= TWO_53
    ensures TransfersExactAt(total) && ComparisonsExactAt(total) <==> total <= MAX_SAFE
  {
    hide TransfersExact, ComparisonExact, HoldsTotal;
    if total <= TWO_53 {
      forall s, txs | HoldsTotal(s, total) ensures TransfersExact(s, txs) {
        TransfersExactBelow(s, txs, total);
      }
    } else {
      var s, txs := TransferInexactAbove(total);
    }
    if total <= MAX_SAFE {
      forall s, txs, a, amount | HoldsTotal(s, total) ensures ComparisonExact(s, txs, a, amount) {
        ComparisonExactBelow(s, txs, a, amount, total);
      }
    } else {
      var s, txs, a, amount := ComparisonInexactFrom(total);
    }
  }

  lemma TransfersExactBelow(s: Accounts, txs: seq<Transaction>, total: int)
    requires HoldsTotal(s, total) && total <= TWO_53
    ensures TransfersExact(s, txs)
  {
    if AllVerified(txs) {
      ApplyAllIsExact(s, txs);
    }
  }

  lemma ComparisonExactBelow(s: Accounts, txs: seq<Transaction>, a: string, amount: int, total: int)
    requires HoldsTotal(s, total) && total <= MAX_SAFE
    ensures ComparisonExact(s, txs, a, amount)
  {
    hide Total, SumFrom, SumFromDouble, Round, Verified;
    TotalBoundsBalance(s, a);
    if AllVerified(txs) && SumFrom(txs, a) <= Balance(s, a) && 0 < amount <= MAX_SAFE {
      ReceivedIsNonNegative(txs, a);
      PendingSumIsExact(txs, a, Balance(s, a), amount);
    }
  }
}
