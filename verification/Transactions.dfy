/** The stateless transaction rules. */
module Transactions {
  import opened Types

  predicate IsHexDigit(c: char) {
    '0' <= c <= '9' || 'a' <= c <= 'f'
  }

  /** Matches ^0x[0-9a-f]{40}$. */
  predicate IsAddress(s: string) {
    |s| == 42 && s[0] == '0' && s[1] == 'x' && forall i :: 2 <= i < 42 ==> IsHexDigit(s[i])
  }

  function Body(tx: Transaction): TxBody {
    TxBody(tx.from, tx.to, tx.amount, tx.nonce, tx.timestamp)
  }

  function ComputeTxHash(tx: Transaction): Hash {
    TxHash(Body(tx))
  }

  function CreateSigned(body: TxBody, key: PrivateKey, salt: nat): Transaction {
    Transaction(body.from, body.to, body.amount, body.nonce, body.timestamp,
                key.public, Sign(TxHash(body), key, salt), TxHash(body), true)
  }

  predicate Verified(tx: Transaction) {
    && tx.wellTyped
    && IsAddress(tx.from)
    && IsAddress(tx.to)
    && IsSafeInteger(tx.amount) && tx.amount > 0
    && IsSafeInteger(tx.nonce) && tx.nonce >= 0
    && IsSafeInteger(tx.timestamp)
    && tx.from != tx.to
    && tx.publicKey.Pem? && tx.publicKey.address == tx.from
    && ComputeTxHash(tx) == tx.hash
    && Verify(tx.hash, tx.signature, tx.publicKey)
  }

  /** The sender's word: the signature covers the fields as they stand, it was made with the attached key, and
      that key is one that hashes to the sender's address. */
  predicate Authorised(tx: Transaction) {
    && tx.signature.Signed?
    && tx.signature.hash == TxHash(TxBody(tx.from, tx.to, tx.amount, tx.nonce, tx.timestamp))
    && tx.signature.key == tx.publicKey
    && tx.publicKey.Pem? && tx.publicKey.address == tx.from
  }

  /** An address is 0x and forty lower-case hexadecimal digits. */
  lemma AddressForm(s: string)
    ensures IsAddress(s) <==> exists digits: string :: s == "0x" + digits && |digits| == 40
                                && forall c :: c in digits ==> c in "0123456789abcdef"
  {
    hide IsHexDigit;
    if IsAddress(s) {
      var digits := s[2..];
      assert s == "0x" + digits;
      forall c | c in digits ensures c in "0123456789abcdef" {
        var i :| 0 <= i < |digits| && digits[i] == c;
        assert IsHexDigit(s[i + 2]);
        HexDigits(c);
      }
    }
    if digits: string :| s == "0x" + digits && |digits| == 40 && forall c :: c in digits ==> c in "0123456789abcdef" {
      forall i | 2 <= i < 42 ensures IsHexDigit(s[i]) {
        assert s[i] == digits[i - 2] && digits[i - 2] in digits;
        HexDigits(s[i]);
      }
    }
  }

  lemma HexDigits(c: char)
    ensures IsHexDigit(c) <==> c in "0123456789abcdef"
  {
    var l := "0123456789abcdef";
    assert l[0] == '0' && l[1] == '1' && l[2] == '2' && l[3] == '3' && l[4] == '4' && l[5] == '5';
    assert l[6] == '6' && l[7] == '7' && l[8] == '8' && l[9] == '9' && l[10] == 'a' && l[11] == 'b';
    assert l[12] == 'c' && l[13] == 'd' && l[14] == 'e' && l[15] == 'f';
  }

  /** The check passes exactly for what the owner of the sender's address could have made: a transfer between
      two different addresses of a positive amount, with numbers that are safe, signed with a key that hashes
      to the sender. */
  lemma VerifiedIffSignedBySender(tx: Transaction)
    ensures Verified(tx) <==>
      && tx.wellTyped && IsAddress(tx.from) && IsAddress(tx.to) && tx.from != tx.to
      && 0 < tx.amount <= MAX_SAFE && 0 <= tx.nonce <= MAX_SAFE && -MAX_SAFE <= tx.timestamp <= MAX_SAFE
      && exists key: PrivateKey, salt: nat ::
           && key.public.Pem? && key.public.address == tx.from
           && tx == CreateSigned(TxBody(tx.from, tx.to, tx.amount, tx.nonce, tx.timestamp), key, salt)
    ensures Verified(tx) ==> Authorised(tx)
  {
    hide IsAddress;
    if Verified(tx) {
      var key, salt := PrivateKey(tx.publicKey), tx.signature.salt;
      assert tx == CreateSigned(TxBody(tx.from, tx.to, tx.amount, tx.nonce, tx.timestamp), key, salt);
    }
  }

  predicate AllVerified(txs: seq<Transaction>) {
    forall i :: 0 <= i < |txs| ==> Verified(txs[i])
  }

  function SomeAddress(): (a: string)
    ensures IsAddress(a)
  {
    seq(42, i => if i == 1 then 'x' else '0')
  }

  /** The same address with another first digit. */
  function OtherAddress(a: string): (b: string)
    requires IsAddress(a)
    ensures IsAddress(b) && b != a
  {
    var b := a[2 := if a[2] == '0' then '1' else '0'];
    assert forall i :: 0 <= i < 42 && i != 2 ==> b[i] == a[i];
    assert b[2] != a[2];
    b
  }

  /** A payment that `a` could make: signed with a key that hashes to that address. */
  function Payment(a: string, amount: int, nonce: int): Transaction
    requires IsAddress(a)
  {
    CreateSigned(TxBody(a, OtherAddress(a), amount, nonce, 0), PrivateKey(Pem(0, a)), 0)
  }

  lemma PaymentIsVerified(a: string, amount: int, nonce: int)
    requires IsAddress(a) && 0 < amount <= MAX_SAFE && 0 <= nonce <= MAX_SAFE
    ensures Verified(Payment(a, amount, nonce))
  {
    hide IsAddress;
    assert ComputeTxHash(Payment(a, amount, nonce)) == Payment(a, amount, nonce).hash;
  }

  /** What every transaction of a verified list gives its sublists. */
  lemma VerifiedMembers(txs: seq<Transaction>, sub: seq<Transaction>)
    requires AllVerified(txs) && forall t :: t in sub ==> t in txs
    ensures AllVerified(sub)
    ensures forall t :: t in txs ==> t.amount > 0
  {
    forall i | 0 <= i < |sub| ensures Verified(sub[i]) {
      assert sub[i] in txs;
    }
  }
}
