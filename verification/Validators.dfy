/** Rotation of the validators over time slots. */
module Validators {
  import opened Types

  /** JavaScript's `%` on integers: the remainder takes the sign of the dividend. */
  function TruncatedRemainder(a: int, n: int): int
    requires n > 0
  {
    if a >= 0 then a % n else -((-a) % n)
  }

  function GetIndexForSlot(slot: int, n: int): (i: int)
    requires n > 0
    ensures 0 <= i < n && i == slot % n
  {
    NonNegativeRemainder(slot, n);
    TruncatedRemainder(TruncatedRemainder(slot, n) + n, n)
  }

  function GetValidatorForSlot(validators: seq<PublicKey>, slot: int): PublicKey
    requires |validators| > 0
  {
    validators[GetIndexForSlot(slot, |validators|)]
  }

  lemma UniqueRemainder(a: int, n: int, q: int, r: int)
    requires n > 0 && 0 <= r < n && a == q * n + r
    ensures a % n == r && a / n == q
  {
    var d := a / n - q;
    assert d * n == (a / n) * n - q * n;
    assert d >= 1 ==> d * n >= n;
    assert d <= -1 ==> d * n <= -n;
  }

  /** Adding n before the second remainder makes the result the mathematical residue, for negative
      slots as well. */
  lemma NonNegativeRemainder(a: int, n: int)
    requires n > 0
    ensures TruncatedRemainder(TruncatedRemainder(a, n) + n, n) == a % n
  {
    var t := TruncatedRemainder(a, n);
    if a >= 0 {
      UniqueRemainder(t + n, n, 1, t);
    } else {
      var m := (-a) % n;
      if m == 0 {
        UniqueRemainder(a, n, -((-a) / n), 0);
        UniqueRemainder(n, n, 1, 0);
      } else {
        UniqueRemainder(a, n, -((-a) / n) - 1, n - m);
        UniqueRemainder(n - m, n, 0, n - m);
      }
    }
  }

  /** The order of the rotation: in every round of slots, negative rounds included, the turn passes through
      the list from its first validator to its last. */
  lemma TurnsFollowTheList(validators: seq<PublicKey>, round: int, r: int)
    requires 0 <= r < |validators|
    ensures GetValidatorForSlot(validators, round * |validators| + r) == validators[r]
  {
    UniqueRemainder(round * |validators| + r, |validators|, round, r);
  }

  /** Any n consecutive slots, wherever they start, give each of the n validators exactly one turn. */
  lemma EachTurnOnce(start: int, n: int, i: int) returns (slot: int)
    requires n > 0 && 0 <= i < n
    ensures start <= slot < start + n && GetIndexForSlot(slot, n) == i
    ensures forall other :: start <= other < start + n && GetIndexForSlot(other, n) == i ==> other == slot
  {
    slot := start + (i - start) % n;
    var q := (i - start) / n;
    assert i - start == q * n + (i - start) % n;
    assert slot == (-q) * n + i;
    UniqueRemainder(slot, n, -q, i);
    forall other | start <= other < start + n && GetIndexForSlot(other, n) == i
      ensures other == slot
    {
      SameTurnIsFarApart(if other < slot then other else slot, if other < slot then slot else other, n);
    }
  }

  /** Two different slots of one index are at least n slots apart. */
  lemma SameTurnIsFarApart(a: int, b: int, n: int)
    requires n > 0 && a <= b && GetIndexForSlot(a, n) == GetIndexForSlot(b, n)
    ensures a == b || b >= a + n
  {
    hide GetIndexForSlot, TruncatedRemainder;
    var d := b / n - a / n;
    assert b - a == d * n;
    assert d >= 1 ==> d * n >= n;
    assert d <= -1 ==> d * n <= -n;
  }
}
