/** Values shared by every module: keys, signatures, hashes, transactions and blocks.

    SHA-256 is modelled by a free term: the hash of a piece of content is a constructor applied
    to that content, so distinct contents have distinct hashes. A hash field that arrives from
    the network or the disk may hold anything, which is what `RawHash` is for. */
module Types {

  datatype Option<+T> = None | Some(value: T)

  /** A PEM text: a usable secp256k1 key, together with the address it hashes to, or a text that
      the crypto library refuses. */
  datatype PublicKey = Pem(material: nat, address: string) | BadPem(text: string)

  datatype PrivateKey = PrivateKey(public: PublicKey)

  /** ECDSA signing is randomised: one hash and one key have many signatures (`salt`). */
  datatype Signature = Signed(hash: Hash, key: PublicKey, salt: nat) | RawSignature(text: string)

  datatype Hash =
    | TxHash(body: TxBody)
    | BlockHash(data: BlockData)
    | ConfigHash(allocations: seq<(string, int)>, validators: seq<PublicKey>)
    | RawHash(text: string)

  /** The fields a sender commits to. */
  datatype TxBody = TxBody(from: string, to: string, amount: int, nonce: int, timestamp: int)

  /** A transaction as received. `wellTyped` is false when the value is not an object, or one of
      its fields does not have the expected JSON type; the other fields then carry no meaning. */
  datatype Transaction = Transaction(
    from: string, to: string, amount: int, nonce: int, timestamp: int,
    publicKey: PublicKey, signature: Signature, hash: Hash, wellTyped: bool)

  /** The hashed content of a block. `isArray` is false when `transactions` is not an array. */
  datatype BlockData = BlockData(
    index: int, timestamp: int, transactions: seq<Transaction>, isArray: bool,
    previousHash: Hash, validatorPublicKey: PublicKey)

  datatype Block = Block(data: BlockData, hash: Hash, signature: Signature)

  /** A block as it arrives: null, on which reading a field throws; a value without a block's fields, such as a
      number; or a block, whatever its fields hold. */
  datatype RawBlock = Null | Fieldless | Plain(block: Block)

  function Sign(hash: Hash, key: PrivateKey, salt: nat): Signature {
    Signed(hash, key.public, salt)
  }

  predicate Verify(hash: Hash, signature: Signature, key: PublicKey) {
    key.Pem? && signature.Signed? && signature.hash == hash && signature.key == key
  }

  /** Number.MAX_SAFE_INTEGER. */
  const MAX_SAFE: int := 0x1F_FFFF_FFFF_FFFF

  predicate IsSafeInteger(n: int) {
    -MAX_SAFE <= n <= MAX_SAFE
  }

  /** String comparison with `<`: lexicographic on characters. */
  predicate Less(a: string, b: string) {
    |b| > 0 && (|a| == 0 || a[0] < b[0] || (a[0] == b[0] && Less(a[1..], b[1..])))
  }

  /** A proper prefix comes first, and otherwise the first difference decides. */
  lemma {:induction false} LessIsLexicographic(a: string, b: string)
    ensures Less(a, b) <==>
      exists k :: 0 <= k <= |a| && k < |b| && a[..k] == b[..k] && (k == |a| || a[k] < b[k])
  {
    if |a| > 0 && |b| > 0 {
      LessIsLexicographic(a[1..], b[1..]);
      if Less(a, b) {
        if a[0] < b[0] {
          assert a[..0] == b[..0];
        } else {
          var k :| 0 <= k <= |a[1..]| && k < |b[1..]| && a[1..][..k] == b[1..][..k]
                   && (k == |a[1..]| || a[1..][k] < b[1..][k]);
          assert a[..k + 1] == [a[0]] + a[1..][..k] && b[..k + 1] == [b[0]] + b[1..][..k];
        }
      }
      if k :| 0 <= k <= |a| && k < |b| && a[..k] == b[..k] && (k == |a| || a[k] < b[k]) {
        if k > 0 {
          assert a[0] == a[..k][0] == b[..k][0] == b[0];
          assert a[1..][..k - 1] == a[..k][1..] && b[1..][..k - 1] == b[..k][1..];
        }
      }
    } else if |b| > 0 {
      assert a[..0] == b[..0];
    }
  }

  lemma {:induction false} LessIsTotal(a: string, b: string)
    ensures Less(a, b) || a == b || Less(b, a)
    ensures !(Less(a, b) && Less(b, a))
    ensures a == b ==> !Less(a, b)
  {
    if |a| > 0 && |b| > 0 {
      LessIsTotal(a[1..], b[1..]);
      if a[0] == b[0] && a[1..] == b[1..] {
        assert a == [a[0]] + a[1..] && b == [b[0]] + b[1..];
      }
    }
  }

  lemma {:induction false} LessIsTransitive(a: string, b: string, c: string)
    requires Less(a, b) && Less(b, c)
    ensures Less(a, c)
  {
    if |a| > 0 && a[0] == b[0] == c[0] {
      LessIsTransitive(a[1..], b[1..], c[1..]);
    }
  }

  lemma {:induction false} SubsetIsSmaller<T>(small: set<T>, big: set<T>)
    requires small <= big
    ensures |small| <= |big|
  {
    if small != {} {
      var x :| x in small;
      SubsetIsSmaller(small - {x}, big - {x});
    }
  }
}
