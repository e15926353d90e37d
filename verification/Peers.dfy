/** The peer table: which addresses a node knows, which of them it may tell others, which it refuses.
    Addresses are canonical; a text that does not normalise is None. */
module Peers {
  import opened Types

  datatype PeerEntry = PeerEntry(lastSeen: int, failures: nat)

  /** One record of the peers file: an address and its last-seen time. */
  type Record = (Option<string>, int)

  /** `saved` is what the peers file holds. */
  datatype Table = Table(
    entries: map<string, PeerEntry>, bootnodes: set<string>, blocked: set<string>,
    maxFailures: int, maxSize: int, saved: set<Record>)

  // ------------------------------------------------------------------------
  // Steps
  // ------------------------------------------------------------------------

  function RecordsOf(entries: map<string, PeerEntry>): set<Record> {
    set a | a in entries :: (Some(a), entries[a].lastSeen)
  }

  function Persisted(t: Table): Table {
    t.(saved := RecordsOf(t.entries))
  }

  /** The usable addresses of a list. */
  function Addresses(list: seq<Option<string>>): set<string> {
    set a | a in list && a.Some? :: a.value
  }

  function WithBootnodes(bootnodes: seq<Option<string>>, maxFailures: int, maxSize: int): Table {
    if |bootnodes| == 0 then Table(map[], {}, {}, maxFailures, maxSize, {})
    else
      var t := WithBootnodes(bootnodes[..|bootnodes| - 1], maxFailures, maxSize);
      match bootnodes[|bootnodes| - 1]
      case None => t
      case Some(a) => t.(entries := t.entries[a := PeerEntry(0, 0)], bootnodes := t.bootnodes + {a})
  }

  function MergeRecord(t: Table, address: Option<string>, lastSeen: int): Table {
    match address
    case None => t
    case Some(a) =>
      if a in t.blocked then t
      else if a in t.entries then t.(entries := t.entries[a := t.entries[a].(lastSeen := lastSeen)])
      else if |t.entries| < t.maxSize then t.(entries := t.entries[a := PeerEntry(lastSeen, 0)])
      else t
  }

  function Loaded(t: Table, file: seq<Record>): Table {
    if |file| == 0 then t
    else MergeRecord(Loaded(t, file[..|file| - 1]), file[|file| - 1].0, file[|file| - 1].1)
  }

  /** A table at the start of a process: bootnodes, then the file merged in. */
  function FromFile(bootnodes: seq<Option<string>>, file: seq<Record>, maxFailures: int, maxSize: int): Table {
    Loaded(WithBootnodes(bootnodes, maxFailures, maxSize), file).(saved := set r | r in file)
  }

  predicate Addable(t: Table, address: Option<string>) {
    && address.Some? && address.value !in t.blocked && address.value !in t.entries
    && |t.entries| < t.maxSize
  }

  function WithCandidate(t: Table, address: Option<string>): Table {
    if Addable(t, address) then Persisted(t.(entries := t.entries[address.value := PeerEntry(0, 0)])) else t
  }

  function AfterSuccess(t: Table, a: string, now: int): Table {
    if a in t.entries then Persisted(t.(entries := t.entries[a := PeerEntry(now, 0)])) else t
  }

  predicate FirstSuccess(t: Table, a: string) {
    a in t.entries && t.entries[a].lastSeen == 0
  }

  predicate Drops(t: Table, a: string) {
    a in t.entries && t.entries[a].failures + 1 >= t.maxFailures && a !in t.bootnodes
  }

  /** A failure that drops nothing is not written to the file. */
  function AfterFailure(t: Table, a: string): Table {
    if a !in t.entries then t
    else if Drops(t, a) then Persisted(t.(entries := t.entries - {a}))
    else t.(entries := t.entries[a := t.entries[a].(failures := t.entries[a].failures + 1)])
  }

  function AfterBlock(t: Table, address: Option<string>): Table {
    match address
    case None => t
    case Some(a) =>
      var b := t.(blocked := t.blocked + {a}, entries := t.entries - {a});
      if a in t.entries then Persisted(b) else b
  }

  /** What may be told to others: handshaken before, and not currently failing. */
  function Verified(t: Table): set<string> {
    set a | a in t.entries && t.entries[a].lastSeen > 0 && t.entries[a].failures == 0
  }

  class PeerTable {
    const maxFailures: int
    const maxSize: int
    var entries: map<string, PeerEntry>
    var bootnodes: set<string>
    var blocked: set<string>
    var saved: set<Record>

    ghost function View(): Table
      reads this
    {
      Table(entries, bootnodes, blocked, maxFailures, maxSize, saved)
    }

    constructor (bootnodeList: seq<Option<string>>, file: seq<Record>, maxFailures: int, maxSize: int)
      ensures View() == FromFile(bootnodeList, file, maxFailures, maxSize)
    {
      this.maxFailures, this.maxSize := maxFailures, maxSize;
      entries, bootnodes, blocked, saved := map[], {}, {}, {};
      new;
      for i := 0 to |bootnodeList|
        invariant View() == WithBootnodes(bootnodeList[..i], maxFailures, maxSize)
      {
        assert bootnodeList[..i + 1][..i] == bootnodeList[..i];
        match bootnodeList[i] {
          case None =>
          case Some(a) =>
            bootnodes := bootnodes + {a};
            entries := entries[a := PeerEntry(0, 0)];
        }
      }
      assert bootnodeList[..|bootnodeList|] == bootnodeList;
      Load(file);
      saved := set r | r in file;
    }

    method Persist()
      modifies this`saved
      ensures View() == Persisted(old(View()))
    {
      saved := RecordsOf(entries);
    }

    method Load(file: seq<Record>)
      modifies this`entries
      ensures View() == Loaded(old(View()), file)
    {
      for i := 0 to |file|
        invariant View() == Loaded(old(View()), file[..i])
      {
        assert file[..i + 1][..i] == file[..i];
        var (address, lastSeen) := file[i];
        if address.None? || address.value in blocked { continue; }
        var a := address.value;
        if a in entries {
          entries := entries[a := entries[a].(lastSeen := lastSeen)];
        } else if |entries| < maxSize {
          entries := entries[a := PeerEntry(lastSeen, 0)];
        }
      }
      assert file[..|file|] == file;
    }

    method Add(address: Option<string>) returns (added: bool)
      modifies this`entries, this`saved
      ensures View() == WithCandidate(old(View()), address) && added == Addable(old(View()), address)
    {
      if address.None? || address.value in blocked || address.value in entries { return false; }
      if |entries| >= maxSize { return false; }
      entries := entries[address.value := PeerEntry(0, 0)];
      Persist();
      return true;
    }

    method RecordSuccess(address: string, now: int) returns (firstTime: bool)
      modifies this`entries, this`saved
      ensures View() == AfterSuccess(old(View()), address, now)
      ensures firstTime == FirstSuccess(old(View()), address)
    {
      if address !in entries { return false; }
      firstTime := entries[address].lastSeen == 0;
      entries := entries[address := PeerEntry(now, 0)];
      Persist();
    }

    method RecordFailure(address: string) returns (dropped: bool)
      modifies this`entries, this`saved
      ensures View() == AfterFailure(old(View()), address)
      ensures dropped == Drops(old(View()), address)
    {
      if address !in entries { return false; }
      var entry := entries[address].(failures := entries[address].failures + 1);
      if entry.failures >= maxFailures && address !in bootnodes {
        entries := entries - {address};
        Persist();
        return true;
      }
      entries := entries[address := entry];
      return false;
    }

    method Block(address: Option<string>)
      modifies this`entries, this`blocked, this`saved
      ensures View() == AfterBlock(old(View()), address)
    {
      if address.None? { return; }
      blocked := blocked + {address.value};
      if address.value in entries {
        entries := entries - {address.value};
        Persist();
      }
    }
  }

  // ------------------------------------------------------------------------
  // The table invariant
  // ------------------------------------------------------------------------

  /** The bootnodes that are not refused. */
  function UsableBootnodes(t: Table): set<string> {
    t.bootnodes - t.blocked
  }

  function SizeLimit(t: Table): int {
    if t.maxSize > |UsableBootnodes(t)| then t.maxSize else |UsableBootnodes(t)|
  }

  /** Blocked addresses are out; a table above its cap holds bootnodes only; and an entry that is not a
      bootnode is dropped before its failures reach the limit. */
  predicate TableInv(t: Table) {
    && t.entries.Keys !! t.blocked
    && (|t.entries| <= t.maxSize || t.entries.Keys <= t.bootnodes)
    && (forall a :: a in t.entries && a !in t.bootnodes ==> t.entries[a].failures < t.maxFailures)
  }

  lemma TableIsBounded(t: Table)
    requires TableInv(t)
    ensures |t.entries| <= SizeLimit(t)
  {
    KeysSize(t.entries);
    if t.entries.Keys <= t.bootnodes {
      SubsetIsSmaller(t.entries.Keys, UsableBootnodes(t));
    }
  }

  /** The addresses the table or its file calls seen, failing ones included: the file forgets failures. */
  function Credited(t: Table): set<string> {
    (set a | a in t.entries && t.entries[a].lastSeen > 0) + SeenIn(t.saved)
  }

  function SeenIn(records: set<Record>): set<string> {
    set r | r in records && r.0.Some? && r.1 > 0 :: r.0.value
  }

  lemma VerifiedIsCredited(t: Table)
    ensures Verified(t) <= Credited(t)
  {
  }

  /** Writing the file credits nothing new. */
  lemma PersistingCreditsNothing(t: Table)
    ensures Credited(Persisted(t)) <= Credited(t)
    ensures TableInv(Persisted(t)) <==> TableInv(t)
  {
  }

  lemma {:induction false} BootnodesEstablish(bootnodes: seq<Option<string>>, maxFailures: int, maxSize: int)
    ensures var t := WithBootnodes(bootnodes, maxFailures, maxSize);
            && TableInv(t) && t.entries.Keys == t.bootnodes == Addresses(bootnodes)
            && t.blocked == {} && t.saved == {} && t.maxFailures == maxFailures && t.maxSize == maxSize
    ensures forall a :: a in WithBootnodes(bootnodes, maxFailures, maxSize).entries ==>
              WithBootnodes(bootnodes, maxFailures, maxSize).entries[a].lastSeen == 0
  {
    hide Addresses, TableInv;
    var t := WithBootnodes(bootnodes, maxFailures, maxSize);
    if |bootnodes| > 0 {
      var n := |bootnodes| - 1;
      BootnodesEstablish(bootnodes[..n], maxFailures, maxSize);
      assert bootnodes == bootnodes[..n] + [bootnodes[n]];
      AddressesSnoc(bootnodes[..n], bootnodes[n]);
      assert t.entries.Keys == t.bootnodes;
    } else {
      AddressesOfNone();
    }
    OnlyBootnodes(t);
  }

  lemma AddressesOfNone()
    ensures Addresses([]) == {}
  {
  }

  lemma AddressesSnoc(list: seq<Option<string>>, a: Option<string>)
    ensures Addresses(list + [a]) == Addresses(list) + (if a.Some? then {a.value} else {})
  {
    assert forall b :: b in list + [a] <==> b in list || b == a;
  }

  lemma OnlyBootnodes(t: Table)
    requires t.entries.Keys == t.bootnodes && t.blocked == {}
    ensures TableInv(t)
  {
  }

  lemma KeysSize<K, V>(m: map<K, V>)
    ensures |m.Keys| == |m|
  {
  }

  // Every step of the table keeps the invariant, and credits at most the address it was about.

  lemma MergeKeeps(t: Table, address: Option<string>, lastSeen: int)
    requires TableInv(t) && t.maxFailures >= 1
    ensures var m := MergeRecord(t, address, lastSeen);
            && TableInv(m) && m.(entries := map[]) == t.(entries := map[])
            && Credited(m) <= Credited(t) + (if address.Some? && lastSeen > 0 then {address.value} else {})
            && (|t.entries| >= t.maxSize ==> m.entries.Keys == t.entries.Keys)
  {
    if address.Some? {
      InsertionGrows(t.entries, address.value, PeerEntry(lastSeen, 0));
      if address.value in t.entries {
        InsertionGrows(t.entries, address.value, t.entries[address.value].(lastSeen := lastSeen));
      }
    }
  }

  lemma CandidateKeeps(t: Table, address: Option<string>)
    requires TableInv(t) && t.maxFailures >= 1
    ensures TableInv(WithCandidate(t, address)) && Verified(WithCandidate(t, address)) == Verified(t)
    ensures Credited(WithCandidate(t, address)) <= Credited(t)
  {
    if address.Some? {
      InsertionGrows(t.entries, address.value, PeerEntry(0, 0));
      PersistingCreditsNothing(t.(entries := t.entries[address.value := PeerEntry(0, 0)]));
    }
  }

  lemma SuccessKeeps(t: Table, a: string, now: int)
    requires TableInv(t) && t.maxFailures >= 1
    ensures TableInv(AfterSuccess(t, a, now)) && Verified(AfterSuccess(t, a, now)) <= Verified(t) + {a}
    ensures Credited(AfterSuccess(t, a, now)) <= Credited(t) + {a}
  {
    InsertionGrows(t.entries, a, PeerEntry(now, 0));
    PersistingCreditsNothing(t.(entries := t.entries[a := PeerEntry(now, 0)]));
  }

  lemma FailureKeeps(t: Table, a: string)
    requires TableInv(t)
    ensures TableInv(AfterFailure(t, a)) && Verified(AfterFailure(t, a)) <= Verified(t)
    ensures Credited(AfterFailure(t, a)) <= Credited(t)
  {
    RemovalShrinks(t.entries, a);
    PersistingCreditsNothing(t.(entries := t.entries - {a}));
    if a in t.entries {
      InsertionGrows(t.entries, a, t.entries[a].(failures := t.entries[a].failures + 1));
    }
  }

  lemma BlockKeeps(t: Table, address: Option<string>)
    requires TableInv(t)
    ensures TableInv(AfterBlock(t, address)) && t.blocked <= AfterBlock(t, address).blocked
    ensures address.Some? ==> address.value in AfterBlock(t, address).blocked
    ensures Verified(AfterBlock(t, address)) <= Verified(t)
    ensures Credited(AfterBlock(t, address)) <= Credited(t)
  {
    if address.Some? {
      RemovalShrinks(t.entries, address.value);
      PersistingCreditsNothing(t.(blocked := t.blocked + {address.value}, entries := t.entries - {address.value}));
    }
  }

  lemma InsertionGrows(m: map<string, PeerEntry>, a: string, e: PeerEntry)
    ensures |m[a := e]| == if a in m then |m| else |m| + 1
  {
    KeysSize(m);
    KeysSize(m[a := e]);
    assert m[a := e].Keys == m.Keys + {a};
  }

  lemma RemovalShrinks(m: map<string, PeerEntry>, a: string)
    ensures |m - {a}| <= |m|
  {
    KeysSize(m);
    KeysSize(m - {a});
    assert (m - {a}).Keys == m.Keys - {a};
  }

  /** Loading credits only the records of the file that say "seen", and adds nothing to a full table. */
  lemma {:induction false} LoadKeeps(t: Table, file: seq<Record>)
    requires TableInv(t) && t.maxFailures >= 1
    ensures var l := Loaded(t, file);
            && TableInv(l) && l.(entries := map[]) == t.(entries := map[])
            && Credited(l) <= Credited(t) + SeenIn(set r | r in file)
            && (|t.entries| >= t.maxSize ==> l.entries.Keys == t.entries.Keys)
  {
    if |file| > 0 {
      var n := |file| - 1;
      LoadKeeps(t, file[..n]);
      MergeKeeps(Loaded(t, file[..n]), file[n].0, file[n].1);
      KeysSize(t.entries);
      KeysSize(Loaded(t, file[..n]).entries);
      assert forall r :: r in file <==> r in file[..n] || r == file[n];
      assert (set r | r in file) == (set r | r in file[..n]) + {file[n]};
      SeenInUnion((set r | r in file[..n]), file[n]);
    }
  }

  lemma SeenInUnion(records: set<Record>, r: Record)
    ensures SeenIn(records + {r}) == SeenIn(records) + (if r.0.Some? && r.1 > 0 then {r.0.value} else {})
  {
    forall a ensures a in SeenIn(records + {r})
                <==> a in SeenIn(records) + (if r.0.Some? && r.1 > 0 then {r.0.value} else {}) {
      if a in SeenIn(records) {
        var q :| q in records && q.0.Some? && q.1 > 0 && q.0.value == a;
        assert q in records + {r};
      }
      if r.0.Some? && r.1 > 0 && r.0.value == a {
        assert r in records + {r};
      }
    }
  }

  /** What a process starts with: the invariant, and credit for exactly the records that say "seen". A list
      of bootnodes that fills the table leaves no room for the file. */
  lemma FromFileEstablishes(bootnodes: seq<Option<string>>, file: seq<Record>, maxFailures: int, maxSize: int)
    requires maxFailures >= 1
    ensures var t := FromFile(bootnodes, file, maxFailures, maxSize);
            && TableInv(t) && t.bootnodes == Addresses(bootnodes) && t.blocked == {}
            && t.maxFailures == maxFailures && t.maxSize == maxSize
            && Credited(t) == SeenIn(set r | r in file)
            && (|Addresses(bootnodes)| >= maxSize ==> t.entries.Keys == Addresses(bootnodes))
  {
    hide TableInv, Addresses, SeenIn, Credited, Loaded;
    var b := WithBootnodes(bootnodes, maxFailures, maxSize);
    var records := set r | r in file;
    BootnodesEstablish(bootnodes, maxFailures, maxSize);
    KeysSize(b.entries);
    LoadKeeps(b, file);
    NothingCredited(b);
    SavedIsApart(Loaded(b, file), records);
  }

  lemma NothingCredited(t: Table)
    requires t.saved == {} && forall a :: a in t.entries ==> t.entries[a].lastSeen == 0
    ensures Credited(t) == {}
  {
  }

  lemma SavedIsApart(t: Table, saved: set<Record>)
    requires TableInv(t) && Credited(t) <= SeenIn(saved)
    ensures TableInv(t.(saved := saved)) && Credited(t.(saved := saved)) == SeenIn(saved)
  {
    hide SeenIn;
  }

  // ------------------------------------------------------------------------
  // The peers file
  // ------------------------------------------------------------------------

  /** The file lists exactly the addresses of the table, with their last-seen times. */
  ghost predicate FileIsCurrent(t: Table) {
    forall r :: r in t.saved <==> r.0.Some? && r.0.value in t.entries && r.1 == t.entries[r.0.value].lastSeen
  }

  /** Every step of the table keeps the file current, and so does the write alone. Only counting a failure does
      without it, because failures are not in the file. */
  lemma StepsKeepFileCurrent(t: Table, address: Option<string>, a: string, now: int)
    ensures FileIsCurrent(Persisted(t))
    ensures FileIsCurrent(t) ==>
              && FileIsCurrent(WithCandidate(t, address)) && FileIsCurrent(AfterBlock(t, address))
              && FileIsCurrent(AfterSuccess(t, a, now)) && FileIsCurrent(AfterFailure(t, a))
  {
    RecordsAreCurrent(t);
    RecordsAreCurrent(t.(entries := t.entries[a := PeerEntry(now, 0)]));
    RecordsAreCurrent(t.(entries := t.entries - {a}));
    if address.Some? {
      RecordsAreCurrent(t.(entries := t.entries[address.value := PeerEntry(0, 0)]));
      RecordsAreCurrent(t.(blocked := t.blocked + {address.value}, entries := t.entries - {address.value}));
    }
  }

  lemma RecordsAreCurrent(t: Table)
    ensures FileIsCurrent(t.(saved := RecordsOf(t.entries)))
  {
  }

  // ------------------------------------------------------------------------
  // Reading back
  // ------------------------------------------------------------------------

  /** A file with at most one record per address, as the program writes it. */
  predicate OneRecordEach(file: seq<Record>) {
    forall i, j :: 0 <= i < j < |file| && file[i].0.Some? ==> file[i].0 != file[j].0
  }

  predicate Listed(file: seq<Record>, a: string, lastSeen: int) {
    exists i :: 0 <= i < |file| && file[i] == (Some(a), lastSeen)
  }

  lemma MergeAdds(t: Table, address: Option<string>, lastSeen: int)
    requires t.blocked == {} && |t.entries| < t.maxSize
    ensures var m := MergeRecord(t, address, lastSeen);
            && m.blocked == {} && m.maxSize == t.maxSize && |m.entries| <= |t.entries| + 1
            && (forall a :: a in m.entries <==> a in t.entries || Some(a) == address)
            && (forall a :: a in t.entries && Some(a) != address ==> m.entries[a] == t.entries[a])
            && (address.Some? ==>
                  m.entries[address.value]
                  == PeerEntry(lastSeen, if address.value in t.entries then t.entries[address.value].failures else 0))
  {
    if address.Some? {
      InsertionGrows(t.entries, address.value, PeerEntry(lastSeen, 0));
      if address.value in t.entries {
        InsertionGrows(t.entries, address.value, t.entries[address.value].(lastSeen := lastSeen));
      }
    }
  }

  lemma ListedSnoc(file: seq<Record>, r: Record, a: string, lastSeen: int)
    ensures Listed(file + [r], a, lastSeen) <==> Listed(file, a, lastSeen) || r == (Some(a), lastSeen)
  {
    var whole := file + [r];
    assert whole[|file|] == r && forall i :: 0 <= i < |file| ==> whole[i] == file[i];
  }

  /** With room in the table a file is read in full: what is listed is there, with the last-seen time of its record. */
  lemma {:induction false} LoadedInFull(t: Table, file: seq<Record>)
    requires t.blocked == {} && |t.entries| + |file| <= t.maxSize && OneRecordEach(file)
    ensures var l := Loaded(t, file);
            && l.blocked == {} && l.maxSize == t.maxSize && |l.entries| <= |t.entries| + |file|
            && (forall a :: a in l.entries <==> a in t.entries || exists seen :: Listed(file, a, seen))
            && (forall a, seen :: Listed(file, a, seen) ==>
                  a in l.entries
                  && l.entries[a] == PeerEntry(seen, if a in t.entries then t.entries[a].failures else 0))
            && (forall a :: a in t.entries && !(exists seen :: Listed(file, a, seen)) ==> l.entries[a] == t.entries[a])
  {
    hide MergeRecord, Listed;
    if |file| == 0 {
      forall a, seen ensures !Listed(file, a, seen) {
        NothingListed(a, seen);
      }
    } else {
      var n := |file| - 1;
      LoadedInFull(t, file[..n]);
      assert file == file[..n] + [file[n]];
      forall a, seen ensures Listed(file, a, seen) <==> Listed(file[..n], a, seen) || file[n] == (Some(a), seen)
                     ensures Listed(file[..n], a, seen) ==> Some(a) != file[n].0
      {
        ListedSnoc(file[..n], file[n], a, seen);
        ListedEarlier(file, a, seen);
      }
      MergeAdds(Loaded(t, file[..n]), file[n].0, file[n].1);
    }
  }

  lemma NothingListed(a: string, lastSeen: int)
    ensures !Listed([], a, lastSeen)
  {
  }

  lemma ListedEarlier(file: seq<Record>, a: string, lastSeen: int)
    requires |file| > 0 && OneRecordEach(file)
    ensures Listed(file[..|file| - 1], a, lastSeen) ==> Some(a) != file[|file| - 1].0
  {
  }

  /** Writing and reading back: a process that starts from what another one wrote knows the same addresses, its own
      bootnodes in addition, with the same last-seen times and no failures. */
  lemma ReadingBackRestores(t: Table, bootnodes: seq<Option<string>>, file: seq<Record>, maxFailures: int, maxSize: int)
    requires OneRecordEach(file) && forall r :: r in file <==> r in Persisted(t).saved
    requires |Addresses(bootnodes)| + |file| <= maxSize
    ensures var u := FromFile(bootnodes, file, maxFailures, maxSize);
            && (forall a :: a in u.entries <==> a in t.entries || Some(a) in bootnodes)
            && (forall a :: a in t.entries ==> u.entries[a] == PeerEntry(t.entries[a].lastSeen, 0))
            && (forall a :: a in u.entries && a !in t.entries ==> u.entries[a] == PeerEntry(0, 0))
  {
    hide Loaded, OneRecordEach, TableInv, Addresses, Listed, WithBootnodes, RecordsOf;
    var b := WithBootnodes(bootnodes, maxFailures, maxSize);
    BootnodesEstablish(bootnodes, maxFailures, maxSize);
    BootnodesAreNew(bootnodes, maxFailures, maxSize);
    KeysSize(b.entries);
    LoadedInFull(b, file);
    var u := FromFile(bootnodes, file, maxFailures, maxSize);
    forall a
      ensures a in u.entries <==> a in t.entries || Some(a) in bootnodes
      ensures a in t.entries ==> u.entries[a] == PeerEntry(t.entries[a].lastSeen, 0)
      ensures a in u.entries && a !in t.entries ==> u.entries[a] == PeerEntry(0, 0)
    {
      ListedIsSaved(t, file, a);
      if a in t.entries {
        assert Listed(file, a, t.entries[a].lastSeen);
      }
    }
  }

  lemma ListedIsSaved(t: Table, file: seq<Record>, a: string)
    requires forall r :: r in file <==> r in RecordsOf(t.entries)
    ensures forall seen :: Listed(file, a, seen) <==> a in t.entries && t.entries[a].lastSeen == seen
  {
    forall seen ensures Listed(file, a, seen) <==> a in t.entries && t.entries[a].lastSeen == seen {
      var r := (Some(a), seen);
      assert r in RecordsOf(t.entries) <==> a in t.entries && t.entries[a].lastSeen == seen;
      assert Listed(file, a, seen) <==> r in file;
    }
  }

  lemma {:induction false} BootnodesAreNew(bootnodes: seq<Option<string>>, maxFailures: int, maxSize: int)
    ensures var t := WithBootnodes(bootnodes, maxFailures, maxSize);
            && (forall a :: a in t.entries <==> Some(a) in bootnodes)
            && forall a :: a in t.entries ==> t.entries[a] == PeerEntry(0, 0)
  {
    if |bootnodes| > 0 {
      var n := |bootnodes| - 1;
      BootnodesAreNew(bootnodes[..n], maxFailures, maxSize);
      assert forall a :: a in bootnodes <==> a in bootnodes[..n] || a == bootnodes[n];
    }
  }
}
