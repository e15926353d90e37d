/** Block hashing, signing, and the genesis block that commits to the network's configuration. */
module Blocks {
  import opened Types
  import opened World

  function ComputeHash(data: BlockData): Hash {
    BlockHash(data)
  }

  function ProposeBlock(data: BlockData, key: PrivateKey, salt: nat): Block {
    Block(data, ComputeHash(data), Sign(ComputeHash(data), key, salt))
  }

  predicate IsHashValid(b: Block) {
    ComputeHash(b.data) == b.hash
  }

  predicate IsSignatureValid(b: Block) {
    b.data.index == 0 || Verify(b.hash, b.signature, b.data.validatorPublicKey)
  }

  /** The blocks of a received list, if all of them are blocks. */
  function Parsed(raw: seq<RawBlock>): (p: Option<seq<Block>>)
    ensures p.Some? <==> forall i :: 0 <= i < |raw| ==> raw[i].Plain?
    ensures p.Some? ==> |p.value| == |raw| && forall i :: 0 <= i < |raw| ==> raw[i] == Plain(p.value[i])
  {
    if forall i :: 0 <= i < |raw| ==> raw[i].Plain? then
      Some(seq(|raw|, i requires 0 <= i < |raw| => raw[i].block))
    else None
  }

  /** A list of blocks as it is sent. */
  function Sent(chain: seq<Block>): (raw: seq<RawBlock>)
    ensures |raw| == |chain| && Parsed(raw) == Some(chain)
  {
    var raw := seq(|chain|, i requires 0 <= i < |chain| => Plain(chain[i]));
    assert forall i :: 0 <= i < |raw| ==> raw[i].Plain?;
    assert Parsed(raw).value == chain;
    raw
  }

  type Entry = (string, int)

  /** The keys of a JavaScript object are distinct. */
  predicate DistinctKeys(entries: seq<Entry>) {
    forall i, j :: 0 <= i < j < |entries| ==> entries[i].0 != entries[j].0
  }

  function InsertEntry(sorted: seq<Entry>, e: Entry): seq<Entry> {
    if |sorted| == 0 || !Less(e.0, sorted[|sorted| - 1].0) then sorted + [e]
    else InsertEntry(sorted[..|sorted| - 1], e) + [sorted[|sorted| - 1]]
  }

  /** Object.entries(...) sorted by address. */
  function SortEntries(entries: seq<Entry>): seq<Entry> {
    if |entries| == 0 then []
    else InsertEntry(SortEntries(entries[..|entries| - 1]), entries[|entries| - 1])
  }

  function CreateGenesisBlock(allocations: seq<Entry>, validators: seq<PublicKey>): Block {
    var data := BlockData(0, 0, [], true, ConfigHash(SortEntries(allocations), validators), BadPem("genesis"));
    Block(data, ComputeHash(data), RawSignature("genesis-signature"))
  }

  predicate StrictlySorted(entries: seq<Entry>) {
    forall i, j :: 0 <= i < j < |entries| ==> Less(entries[i].0, entries[j].0)
  }

  lemma {:induction false} InsertEntryKeeps(sorted: seq<Entry>, e: Entry)
    ensures multiset(InsertEntry(sorted, e)) == multiset(sorted) + multiset{e}
  {
    if |sorted| > 0 {
      assert sorted == sorted[..|sorted| - 1] + [sorted[|sorted| - 1]];
      InsertEntryKeeps(sorted[..|sorted| - 1], e);
    }
  }

  lemma StrictlySortedSnoc(l: seq<Entry>, e: Entry)
    ensures StrictlySorted(l + [e]) <==> StrictlySorted(l) && forall x :: x in l ==> Less(x.0, e.0)
  {
    hide Less;
    var r := l + [e];
    if StrictlySorted(r) {
      forall x | x in l ensures Less(x.0, e.0) {
        var i :| 0 <= i < |l| && l[i] == x;
        assert Less(r[i].0, r[|l|].0);
      }
      assert forall i :: 0 <= i < |l| ==> r[i] == l[i];
    }
  }

  lemma {:induction false} InsertEntrySorts(sorted: seq<Entry>, e: Entry)
    requires StrictlySorted(sorted)
    requires forall x :: x in sorted ==> x.0 != e.0
    ensures StrictlySorted(InsertEntry(sorted, e))
    ensures forall x :: x in InsertEntry(sorted, e) <==> x in sorted || x == e
  {
    hide StrictlySorted, Less;
    if |sorted| == 0 {
      StrictlySortedSnoc(sorted, e);
    } else {
      var n := |sorted| - 1;
      var last := sorted[n];
      assert sorted == sorted[..n] + [last];
      StrictlySortedSnoc(sorted[..n], last);
      LessIsTotal(e.0, last.0);
      if Less(e.0, last.0) {
        InsertEntrySorts(sorted[..n], e);
        StrictlySortedSnoc(InsertEntry(sorted[..n], e), last);
      } else {
        forall x | x in sorted ensures Less(x.0, e.0) {
          if x != last {
            LessIsTransitive(x.0, last.0, e.0);
          }
        }
        StrictlySortedSnoc(sorted, e);
      }
    }
  }

  /** Sorting keeps the entries, and puts distinct keys in strictly increasing order. */
  lemma {:induction false} SortEntriesSorts(entries: seq<Entry>)
    requires DistinctKeys(entries)
    ensures StrictlySorted(SortEntries(entries))
    ensures multiset(SortEntries(entries)) == multiset(entries)
  {
    if |entries| > 0 {
      var n := |entries| - 1;
      assert entries == entries[..n] + [entries[n]];
      SortEntriesSorts(entries[..n]);
      InsertEntryKeeps(SortEntries(entries[..n]), entries[n]);
      forall x | x in SortEntries(entries[..n]) ensures x.0 != entries[n].0 {
        assert x in multiset(entries[..n]);
      }
      InsertEntrySorts(SortEntries(entries[..n]), entries[n]);
    }
  }

  /** The accounts created from distinct entries are those entries. */
  lemma {:induction false} GenesisAccountsAt(entries: seq<Entry>, a: string)
    requires DistinctKeys(entries)
    ensures a in GenesisAccounts(entries) <==> exists i :: 0 <= i < |entries| && entries[i].0 == a
    ensures forall i :: 0 <= i < |entries| && entries[i].0 == a ==>
              GenesisAccounts(entries)[a] == Account(entries[i].1, 0)
  {
    if |entries| > 0 {
      GenesisAccountsAt(entries[..|entries| - 1], a);
      assert entries[|entries| - 1] == entries[|entries| - 1];
    }
  }

  /** Two strictly sorted lists over the same accounts are the same list. */
  lemma {:induction false} SortedIsCanonical(a: seq<Entry>, b: seq<Entry>)
    requires StrictlySorted(a) && StrictlySorted(b)
    requires forall e :: e in a <==> e in b
    ensures a == b
  {
    assert |a| > 0 ==> a[0] in b;
    assert |b| > 0 ==> b[0] in a;
    if |a| > 0 {
      var i :| 0 <= i < |a| && a[i] == b[0];
      var j :| 0 <= j < |b| && b[j] == a[0];
      if i > 0 && j > 0 {
        LessIsTotal(a[0].0, b[0].0);
      }
      assert a[0] == b[0];
      forall e ensures e in a[1..] <==> e in b[1..] {
        TailMembership(a, e);
        TailMembership(b, e);
      }
      SortedIsCanonical(a[1..], b[1..]);
      assert a == [a[0]] + a[1..] && b == [b[0]] + b[1..];
    }
  }

  lemma TailMembership(a: seq<Entry>, e: Entry)
    requires StrictlySorted(a) && |a| > 0
    ensures e in a[1..] <==> e in a && e != a[0]
  {
    LessIsTotal(a[0].0, a[0].0);
    if e in a && e != a[0] {
      var i :| 0 <= i < |a| && a[i] == e;
      assert a[1..][i - 1] == e;
    }
    if e in a[1..] {
      var i :| 0 <= i < |a[1..]| && a[1..][i] == e;
      assert a[i + 1] == e && Less(a[0].0, a[i + 1].0);
    }
  }

  /** The genesis commitment is canonical and sufficient: two configurations have the same genesis
      hash exactly when they give every account the same starting balance and list the same
      validators in the same order. The order in which allocations were written does not matter. */
  lemma GenesisCommitsToConfig(a: seq<Entry>, va: seq<PublicKey>, b: seq<Entry>, vb: seq<PublicKey>)
    requires DistinctKeys(a) && DistinctKeys(b)
    ensures CreateGenesisBlock(a, va).hash == CreateGenesisBlock(b, vb).hash
       <==> GenesisAccounts(a) == GenesisAccounts(b) && va == vb
  {
    SortEntriesSorts(a);
    SortEntriesSorts(b);
    if GenesisAccounts(a) == GenesisAccounts(b) {
      forall e ensures e in SortEntries(a) <==> e in SortEntries(b) {
        SortedMembership(a, e);
        SortedMembership(b, e);
      }
      SortedIsCanonical(SortEntries(a), SortEntries(b));
    }
    if SortEntries(a) == SortEntries(b) {
      forall x ensures x in GenesisAccounts(a) <==> x in GenesisAccounts(b)
               ensures x in GenesisAccounts(a) ==> GenesisAccounts(a)[x] == GenesisAccounts(b)[x]
      {
        SortedLookup(a, x);
        SortedLookup(b, x);
      }
    }
    assert SortEntries(a) == SortEntries(b) <==> GenesisAccounts(a) == GenesisAccounts(b);
  }

  lemma SortedMembership(a: seq<Entry>, e: Entry)
    requires DistinctKeys(a)
    ensures e in SortEntries(a) <==> e.0 in GenesisAccounts(a) && GenesisAccounts(a)[e.0] == Account(e.1, 0)
  {
    SortEntriesSorts(a);
    GenesisAccountsAt(a, e.0);
    assert e in SortEntries(a) <==> e in multiset(SortEntries(a));
    assert e in a <==> e in multiset(a);
    if e.0 in GenesisAccounts(a) && GenesisAccounts(a)[e.0] == Account(e.1, 0) {
      var i :| 0 <= i < |a| && a[i].0 == e.0;
      assert a[i] == e;
    }
  }

  lemma SortedLookup(a: seq<Entry>, x: string)
    requires DistinctKeys(a)
    ensures x in GenesisAccounts(a) <==> exists v :: (x, v) in SortEntries(a)
    ensures x in GenesisAccounts(a) ==> (x, GenesisAccounts(a)[x].balance) in SortEntries(a)
    ensures forall v :: (x, v) in SortEntries(a) ==> x in GenesisAccounts(a) && GenesisAccounts(a)[x] == Account(v, 0)
    ensures x in GenesisAccounts(a) ==> GenesisAccounts(a)[x].nonce == 0
  {
    forall v ensures (x, v) in SortEntries(a) <==> x in GenesisAccounts(a) && GenesisAccounts(a)[x] == Account(v, 0) {
      SortedMembership(a, (x, v));
    }
    GenesisAccountsAt(a, x);
  }
}
