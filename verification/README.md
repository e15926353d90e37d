# A verified model of the replicated ledger

A Dafny model of a proof-of-authority ledger node and of the network such nodes form, with proofs of what
holds on every run. The program keeps a chain of blocks, the account state the chain leads to, and a pool of
pending transactions; validators take turns in fixed time slots; nodes gossip blocks and transactions and copy
longer chains from each other. Run `dafny verify dfyconfig.toml` in this directory to check everything.

## What is modelled

One module per component of the program:

- `Types`, `Transactions`, `Blocks`: keys, signatures, hashes; the stateless transaction rules; block hashing,
  signing and the genesis block.
- `World` (`src/state.ts`) and `SafeIntegers`: balances and nonces, the all-or-nothing application of transfers,
  conservation, and the same computation in binary64.
- `Validators`, `Consensus`: rotation, slots, the rules for a new block, replay of a chain from genesis.
- `Mempool`, `Pruning`, `Selection`: admission, pruning and block building, as functions of the confirmed
  accounts and the pool. `Rivals` is a restored pool with two transactions of one sender and nonce.
- `Ledger`: one node as a value, its steps, and the theorems over runs. `Exactness` adds that the arithmetic
  of every reachable state is exact. `Window` says exactly when the nonce window survives, `Replacement` shows a
  run on which it does not.
- `Chain`: `class Blockchain`, with the program's fields, loops and early returns; every method is proved equal
  to its step in `Ledger`, so all theorems about runs are about what these methods do.
- `Proposal`: the auto-propose tick and the API's `propose`.
- `Gossip`: a network of nodes, each with its own clock, whose NEW_BLOCK, CHAIN_REQUEST and CHAIN_RESPONSE
  packets are delivered in any order. `Skew` is a run on which clocks are too far apart. `Flooding` says how far a
  block travels by relay alone.
- `Peers`, `Handshake`, `SameSide`, `P2P`, `Dialing`: the peer table and its file, duplicate connections, the
  HELLO handler, and the loop that decides whom to dial and when. `Redial` is a run on which a duplicate is
  dialed again.
- `PeerToPeer`: `class P2PNode`, with its sockets, dialing set and backoff times, whose handlers are proved
  equal to the steps of the modules before.

The main results are `Ledger.InvariantsHoldOnEveryRun`, `Ledger.NothingIsForged`, `Consensus.ValidChainIff`,
`Consensus.TipHashDeterminesHistory`, `Blocks.GenesisCommitsToConfig`, `Mempool.AdmittedIff`, `Pruning.SurvivesIff`,
`Selection.SelectionIsComplete`, `Selection.ProposalLeavesUnconsumed`, `Gossip.SyncGuarantee`, `Gossip.Quiescence`,
`Gossip.FirstChainStays`, `Flooding.BlockReachesEveryone`, `Handshake.TwoEndsAgree`, `P2P.PeerSafety`,
`P2P.ToldWasVerified`, `Dialing.NeverDialedTwice` and `Dialing.UnreachablePeerIsGivenTime`.

Where a property fails for some inputs, there is an input and the exact condition: `Skew.SkewedClocksBreakSync` with
`Gossip.ResponseCatchesUp`, `Rivals.RivalIsDropped` with `Selection.ProposalDropsOnlySelectedIff`,
`Replacement.ReplacementBreaksWindow` with `Window.WindowSurvivesIff`, `SafeIntegers.TransferIsLostAboveTheBound`
with `SafeIntegers.ExactnessThresholds`, and those listed below under the differences between code and documentation.

## Assumptions

- A hash is a term over the hashed content, so different contents have different hashes. A hash field from the
  network or the disk may hold anything (`RawHash`).
- A signature verifies exactly when it was made over that hash with that key. A public key is a PEM text that the
  crypto library accepts, with the address it hashes to, or one that it refuses.
- Timestamps, amounts, nonces and slots are integers. What double-precision arithmetic would do to the ledger's
  sums is the subject of `SafeIntegers` and `Exactness`.
- The wall clock, the mempool's clock and the salt of a signature are parameters. A node's own wall clock never runs
  backwards; the clocks of different nodes are independent. One clock reading serves one event.
- A JSON value of the wrong shape is a flag: `wellTyped` of a transaction, `isArray` of a block's list,
  `wellFormed` of a HELLO. A received block may be null or a value without a block's fields (`RawBlock`); a received
  chain that is not an array behaves as the empty one, and a data file whose chain lists something else than
  blocks as one whose chain does not replay.
- A peer table without a file is one whose file is never read back.
- Dialable addresses are canonical; a text that does not normalise is `None`.
- The requirements of the constructors (`slotWaitMs` within the slot, at least one validator), where the program
  throws and leaves no object, are preconditions. So is a usable own key where a block is proposed.
- Sockets are distinct objects; the statements about what goes out on each of them take the ids that stand for them
  to be distinct (`PeerToPeer.DistinctIds`).
- In the network, sockets hold their packets until delivery. `want` on a request or response is an annotation of
  the proof: no handler reads it.

## Where the code and its documentation differ

- `docs/PROTOCOL.md:73-82` lists what every new block must satisfy, and `docs/PROTOCOL.md:67` what block 0 contains.
  The code judges block 0 of a received chain by its index and stored hash alone.
  `Consensus.BlockZeroContentIsUnchecked` gives the exact condition: another block 0 passes if and only if its
  slot is before that of block 1, and the state is the same.
- `src/p2p.ts:105-107` says that a connection closed as a duplicate is never dialed again.
  `Dialing.DuplicateIsRedialed`: its address is dialed again at the next visit of the loop if and only if no live
  socket announces that same address, so a node that is known under two addresses is dialed again and again;
  `Redial.SecondAddressIsRedialed` is a run from a fresh start on which that happens.
- `src/p2p.ts:301-303` says that both sides close the same socket. This is proved for connections dialed by
  different sides (`Handshake.TwoEndsAgree`). For two connections dialed by one side,
  `SameSide.NothingSurvivesIffOppositeOrders`: under every interleaving both are lost if and only if both ends heard
  both HELLOs in opposite orders, and otherwise exactly one survives; `SameSide.BothCanBeLost` is such a play.
- `docs/PROTOCOL.md:157` caps the peer table at 200 entries. The code admits every bootnode first
  (`P2P.BootnodesExceedTheCap`). `P2P.TableExceedsCapIff`: some table of a run exceeds the cap if and only if more
  bootnodes than the cap are left after the node's own address.

## Model

| member | source | states |
|---|---|---|
| World.WorldState.constructor | src/state.ts:18-22 | A fresh state holds one account per allocation entry with nonce 0; of entries for one address the last wins. |
| World.WorldState.Clone | src/state.ts:36-42 | The copy is a new object with equal accounts. |
| World.WorldState.ApplyAll | src/state.ts:48-72 | Succeeds exactly when all transfers apply one after the other; then the state is the result of all of them, otherwise it is what it was. |
| World.ApplyConcat | src/state.ts:48-72 | Applying a list in two parts equals applying it whole, failures included. |
| World.BalanceAccounting | src/state.ts:58-68 | A balance moves by exactly what was received minus what was sent, over any list. |
| World.NonceExact | src/state.ts:51-65 | One sender's transactions in an applied list carry consecutive nonces from the account's own, and the new nonce is one past the last. |
| World.NonceRange | src/state.ts:51-65 | A nonce of a sender is used by an applied list if and only if it lies between the old and the new confirmed nonce. |
| World.Conservation | src/state.ts:48-72 | Verified transfers neither create nor destroy value, no balance becomes negative, none exceeds the total. |
| SafeIntegers.ComparisonIsExact | src/blockchain.ts:195-196 | Comparing a safe balance with a rounded sum of two safe amounts decides as the exact sum does, even when the sum itself is rounded. |
| SafeIntegers.ApplyAllIsExact | src/state.ts:48-72 | With a total of at most 2^53, applying verified transfers in doubles gives the verdict and the state of exact arithmetic, for any list. |
| SafeIntegers.TransferIsLostAboveTheBound | src/state.ts:65-68 | At a total of 2^53+1 a transfer of one unit is accepted and the unit disappears. |
| SafeIntegers.ExactnessThresholds | src/state.ts:48-72 | Transfers in doubles are exact in every state of a given total if and only if the total is at most 2^53; transfers and affordability tests together if and only if it is at most 2^53-1. |
| SafeIntegers.PendingSumIsExact | src/blockchain.ts:195-196 | The fold over a sender's pending amounts in doubles is exact while they fit a safe balance, and so is the test of one more amount. |
| Transactions.AddressForm | src/transaction.ts:4 | An address is 0x followed by exactly forty lower-case hexadecimal digits. |
| Transactions.VerifiedIffSignedBySender | src/transaction.ts:20-77 | A transaction passes if and only if it is what signing with a key that hashes to the sender makes of a body with two different addresses, a positive amount and safe numbers; so its signature covers its fields as they stand. |
| Validators.GetIndexForSlot | src/validatorSet.ts:27-30 | The two truncated remainders give the mathematical residue, for negative slots too. |
| Validators.TurnsFollowTheList | src/validatorSet.ts:22-30 | In every round of slots the turn passes through the list from its first validator to its last: slot q*n + r belongs to validator r. |
| Validators.EachTurnOnce | src/validatorSet.ts:27-30 | Any n consecutive slots, wherever they start, give each of the n validators exactly one turn. |
| Validators.SameTurnIsFarApart | src/validatorSet.ts:27-30 | Two different slots of one validator index are at least n slots apart. |
| Types.LessIsLexicographic | src/p2p.ts:348 | Node ids and addresses are compared as strings: a proper prefix comes first, otherwise the first difference decides. |
| Blocks.SortEntriesSorts | src/block.ts:51-55 | Sorting the allocations keeps the entries and puts distinct addresses in strictly increasing order. |
| Blocks.SortedIsCanonical | src/block.ts:51-55 | Two sorted allocation lists with the same entries are the same list, whatever order they were written in. |
| Blocks.GenesisCommitsToConfig | src/block.ts:44-69 | Two configurations have one genesis hash if and only if they give every account the same balance and list the same validators in the same order. |
| Consensus.ValidPrefix | src/blockchain.ts:434-450 | Every prefix of a valid chain is valid, every block sits at its index, and consecutive blocks satisfy the structural rules. |
| Consensus.ReplayIsMonotone | src/blockchain.ts:349-356 | A chain valid at one clock is valid at every later clock and leads to the same state. |
| Consensus.ValidityIsDrift | src/blockchain.ts:349-356 | A chain valid at some clock is valid at another one, later or earlier, if and only if its last block is not beyond that clock plus the drift allowance; the state is the same. |
| Consensus.ReplayExtends | src/blockchain.ts:441-449 | Replaying a chain with one more block is judging that block on top of the replayed state. |
| Consensus.BlockZeroContentIsUnchecked | src/blockchain.ts:434-438 | A block with the genesis index and stored hash but any other content can replace block 0 if and only if its slot is before that of block 1; the state is the same. |
| Consensus.TipIndex | src/blockchain.ts:303-319 | The tip's index is the height, and its hash commits to that index, to its content and to the previous block's hash. |
| Consensus.TipHashDeterminesHistory | src/blockchain.ts:422-451 | Two valid chains with one tip hash have equal length, equal hashed content in every block after block 0, and equal states. |
| Consensus.SlotsIncrease | src/blockchain.ts:325-333 | Slots strictly increase along a valid chain, by at least one per block. |
| Consensus.HeightIsBoundedByTime | src/blockchain.ts:325-356 | The height of a chain of more than one block is at most the number of slots from block 0 to the clock plus the drift allowance; block 0 alone may have any timestamp. |
| Consensus.SameValidatorSpacing | src/blockchain.ts:325-365 | With distinct keys, two blocks of one validator are more than (n-1) slot widths plus the wait time apart. |
| Consensus.ReplayIsHistory | src/blockchain.ts:440-450 | Replaying block by block equals applying the whole transaction history to the genesis accounts, all of it verified. |
| Consensus.ChainNoncesAreExact | src/state.ts:51-65 | In a valid chain each sender's transactions carry nonces 0, 1, 2, ... in chain order, and the confirmed nonce is their number. |
| Consensus.ChainConserves | src/state.ts:48-72 | In a valid chain the total is the genesis total, and every balance is genesis plus received minus sent, between 0 and the total. |
| Consensus.ValidChainIff | src/blockchain.ts:303-451 | A chain is valid if and only if it starts with the genesis index and hash, every later block keeps each protocol rule on top of the one before (index, link, hash, own slot, wait, drift, the key at the slot's place in the list, its signature, verified transactions), and the history as a whole applies. |
| Consensus.ChainIsAuthorised | src/blockchain.ts:358-388 | Every block after block 0 of a valid chain is signed over its hash with the key at the place of its slot in the list, and every transaction in it is authorised by its sender. |
| Consensus.CompatibleNodesAgree | src/p2p.ts:280-290 | Two nodes with one genesis hash and one pair of slot parameters replay every chain to the same verdict and state. |
| Mempool.SortTxsProperties | src/blockchain.ts:236-238 | The sort orders by nonce, then timestamp, and neither drops nor invents a transaction. |
| Mempool.SortedByNonceThenTime | src/blockchain.ts:236-238 | Of two positions the earlier one has the lower nonce, or the same nonce and no later timestamp. |
| Mempool.SortIsStable | src/blockchain.ts:236-238 | Transactions the comparator does not distinguish keep their arrival order. |
| Mempool.NextFrom | src/blockchain.ts:129-139 | The search ends at an unused nonce with every nonce below it used. |
| Mempool.NextNonceIsLeast | src/blockchain.ts:129-139 | That makes it unique: any nonce with these two properties is the answer. |
| Mempool.NextNonceIsAdmissible | src/blockchain.ts:174-192 | A transaction carrying the advertised next nonce is never refused as used, as clashing, or as too far ahead. |
| Mempool.UsedNoncesNeedTxs | src/blockchain.ts:129-139 | k consecutive used nonces need k pending transactions of the sender. |
| Mempool.AdmissionKeepsInvariant | src/blockchain.ts:162-208 | An admitted transaction keeps the mempool invariant, the uniqueness of (sender, nonce) and the nonce window. |
| Mempool.AdmissionKeepsLimits | src/blockchain.ts:162-188 | An admitted transaction keeps the pool size limit and the limit per sender. |
| Mempool.AdmittedIff | src/blockchain.ts:162-208 | On any pool that satisfies the invariant, a transaction is admitted if and only if the pool with it satisfies the invariant and the size limit, and its sender keeps to one transaction per nonce, to its share and to the window. |
| Mempool.AdmissionIsComplete | src/blockchain.ts:162-208 | Where uniqueness of nonces, window and limits hold as well, it is admitted if and only if the pool with it satisfies all four again. |
| Mempool.WindowImpliesCap | src/blockchain.ts:186-192 | Uniqueness and the window alone bound a sender's share by the cap; a full share means every nonce of the window is used. |
| Mempool.CapNeverDecides | src/blockchain.ts:186-192 | With the window in force, a transaction refused for the cap is also beyond the window. |
| Pruning.PruneEstablishesInvariant | src/blockchain.ts:234-261 | Whatever the confirmed accounts have become, pruning leaves a pool that satisfies the invariant, in arrival order, with nothing expired and arrival times kept. |
| Pruning.PruneHoldsKept | src/blockchain.ts:252-260 | Filtering by the survivors' hashes keeps exactly the survivors of the sorted pass. |
| Pruning.PruneIsIdentity | src/blockchain.ts:234-261 | Pruning changes nothing in a pool that satisfies the invariant and holds nothing expired. |
| Pruning.PruneIsIdempotent | src/blockchain.ts:234-261 | Pruning twice at one moment is pruning once. |
| Pruning.PruneOfSameSize | src/blockchain.ts:267-276 | Pruning either shrinks the list or changes nothing at all, arrival times included. |
| Pruning.SurvivesIff | src/blockchain.ts:240-250 | Whatever the confirmed accounts have become, a pending transaction survives if and only if its nonce is not used up, it has waited no longer than the time to live, and its amount fits on top of the survivors of its sender with no higher nonce. |
| Pruning.OnlyExpiryPrunes | src/blockchain.ts:244-245 | Under the invariant exactly the transactions that have waited no longer than the time to live are left, in their order. |
| Selection.AppliesIffFirst | src/blockchain.ts:221-224 | When the greedy pass reaches a transaction, it applies to the simulated state if and only if its sender has no nonce gap below it and no transaction of that sender and nonce came before it. |
| Selection.SelectionIsComplete | src/blockchain.ts:215-226 | Under the mempool invariant the selection is exactly the first maxTxsPerBlock, in nonce order, of the transactions that are first of their sender and nonce and have no gap below them, and all of those together apply. |
| Selection.UniqueSelectionIsComplete | src/blockchain.ts:215-226 | When no sender has two pending transactions with one nonce, those are all transactions without a gap below them. |
| Selection.FirstsPerSender | src/blockchain.ts:215-226 | Under the invariant, each sender's such transactions are as many as its next nonce is ahead of its confirmed one. |
| Selection.SelectionSize | src/blockchain.ts:215-226 | Under the invariant the size of the selection is the smaller of maxTxsPerBlock and the sum over senders of next minus confirmed nonce. |
| Selection.SomethingToSelect | src/blockchain.ts:215-226 | There is something to select if and only if a block may hold a transaction and some pending one carries its sender's confirmed nonce. |
| Selection.ConsumedIffNonceSelected | src/blockchain.ts:215-261 | Under the invariant a pending transaction's nonce is consumed by the block if and only if a selected one has its sender and nonce. |
| Selection.SelectedIffConsumed | src/blockchain.ts:215-261 | With unique nonces a pending transaction's nonce is consumed if and only if it was selected. |
| Selection.ProposalLeavesUnconsumed | src/blockchain.ts:234-261 | Under the invariant, pruning after one's own block leaves exactly the unexpired transactions whose nonce the block did not confirm, in arrival order; the affordability rule drops nothing. |
| Selection.ProposalDropsOnlySelectedIff | src/blockchain.ts:234-261 | It removes exactly the selected and the expired if and only if no unexpired transaction that was not selected shares sender and nonce with a selected one. |
| Selection.ProposalDropsOnlySelected | src/blockchain.ts:234-261 | With unique nonces it always removes exactly the selected and the expired. |
| Rivals.BothAreRestored | src/blockchain.ts:147-160 | A data file with two transactions of one sender and nonce is restored as it is, to a node that satisfies all invariants. |
| Rivals.RivalIsDropped | src/blockchain.ts:234-261 | On that node a block removes a transaction that was neither selected nor expired. |
| Selection.ProposalKeepsNextNonces | src/blockchain.ts:129-139 | Under the invariant and with nothing expired, the block leaves every address's next nonce as it was. |
| Ledger.AddBlockIsReplay | src/blockchain.ts:390-419 | A block is accepted if and only if the extended chain replays; the live state is then the replayed one, and otherwise nothing changes. |
| Ledger.RestoredPoolIsClean | src/blockchain.ts:147-160 | Whatever the file lists as pending, the restored pool satisfies the mempool invariant. |
| Ledger.FirstVerifiedIff | src/blockchain.ts:150-157 | Of the verified entries of the file with one hash exactly the first is kept. |
| Ledger.BootEstablishesInvariants | src/blockchain.ts:77-95 | Whatever the data file holds, a started node satisfies the chain and mempool invariants. |
| Ledger.RestoringIsLossless | src/blockchain.ts:147-160 | A pool satisfying the invariant is restored unchanged, in order, if and only if the time to live is not negative or the pool is empty; arrival times are renewed. |
| Ledger.RestartIsLossless | src/blockchain.ts:77-95 | A node rebuilt from its own file at any later clock has the same chain, an equal state and, under that condition, the same pending list. |
| Ledger.QuietSweepIsIdentity | src/blockchain.ts:267-276 | A sweep that removes nothing changes nothing, so not writing the file is right. |
| Ledger.SweepDropsTheOverdue | src/blockchain.ts:267-276 | A sweep of a node drops exactly what has waited longer than the time to live, and writes the file exactly if that is something. |
| Ledger.WaitsItsTime | src/blockchain.ts:203-204 | A transaction admitted at one moment is still pending after a sweep at another if and only if no more than the time to live lies between them. |
| Ledger.OnlyLongerReplaces | src/blockchain.ts:457-478 | A node leaves its chain exactly for a strictly longer valid one, with the state of its replay. |
| Ledger.StepKeeps | src/blockchain.ts:162-478 | Each transaction, sweep, block, chain or restart keeps the invariants. |
| Ledger.InvariantsHoldOnEveryRun | src/blockchain.ts:77-478 | From any data file and after any steps, at every later clock the live state is the replayed one, the tip index is length - 1 and the pool satisfies the invariant; started without a file, (sender, nonce) is unique, the limits hold and the file mirrors memory. |
| Ledger.PendingIsNotConfirmed | src/blockchain.ts:174-177 | No (sender, nonce) is ever both pending and on the chain. |
| Ledger.NothingIsForged | src/blockchain.ts:147-169 | From any data file and after any steps, every pending and every applied transaction is authorised by its sender, and every block after block 0 is signed by the validator in turn. |
| Ledger.FileMirrorsMemory | src/blockchain.ts:105-111 | Started from any data file, once a node has written it, file and memory agree at every later moment of every run, so every restart from its own file restores chain, state and pending list. |
| Ledger.RestartKeepsChain | src/blockchain.ts:77-95 | A node with a data file that has more than the genesis block on it keeps its chain over a restart, and one that has only the genesis block never loses by it. |
| Window.SurvivorsStayInWindow | src/blockchain.ts:234-261 | After a change of the confirmed accounts and pruning, a pool is still in the window if no exposed sender of it has a lower confirmed nonce. |
| Window.WindowSurvivesIff | src/blockchain.ts:234-261 | A change of the confirmed accounts keeps every pool in the window if and only if no exposed address has a lower nonce: one that can pay a unit before and after, with nonces a transaction can carry. |
| Window.BlocksRaiseNonces | src/blockchain.ts:410-415 | A block never lowers a confirmed nonce. |
| Window.StepKeepsWindow | src/blockchain.ts:189-192 | Every step keeps pending nonces within the window, a chain replacement when it meets that condition for the pending senders. |
| Window.WindowHoldsOnSteadyRuns | src/blockchain.ts:186-192 | On every run from an empty start, replacements that meet the condition included, the window holds, and a refusal for the cap is always also one for the window. |
| Window.AdmissionOnSteadyRuns | src/blockchain.ts:162-208 | And on every such run a transaction is admitted if and only if the pool with it satisfies the invariant, the uniqueness of nonces, the window and the limits. |
| Replacement.ReplacementBreaksWindow | src/blockchain.ts:472-474 | A run from an empty start on which a longer chain leaves a pending transaction beyond the window it was in. |
| Exactness.StateArithmeticIsExact | src/state.ts:48-72 | With a safe genesis total, every balance of a node is a safe integer and applying transactions in doubles is exact. |
| Exactness.AdmissionArithmeticIsExact | src/blockchain.ts:194-201 | And the admission test in doubles decides as exact arithmetic does. |
| Exactness.PruningArithmeticIsExact | src/blockchain.ts:246-248 | And so does every affordability test of a pruning pass. |
| Chain.Blockchain.constructor | src/blockchain.ts:54-96 | Starts from the data file if its chain replays, restoring the pending list, and from genesis otherwise. |
| Chain.Blockchain.Persist | src/blockchain.ts:105-111 | Writes chain and pending list when there is a data file, and nothing else changes. |
| Chain.Blockchain.GetNextNonce | src/blockchain.ts:129-139 | The loop ends with the least unused nonce from the confirmed one on. |
| Chain.Blockchain.AddTransaction | src/blockchain.ts:162-208 | Answers with the first rule that refuses, in the program's order; on admission appends the transaction, records its arrival time and persists, and otherwise changes nothing. |
| Chain.Blockchain.SelectTransactionsForBlock | src/blockchain.ts:215-226 | The loop over a simulated copy returns the greedy selection and leaves the ledger alone. |
| Chain.Blockchain.PruneMempool | src/blockchain.ts:234-261 | The pass with a map of running totals equals pruning as specified. |
| Chain.Blockchain.SweepMempool | src/blockchain.ts:267-276 | Returns how many pending transactions had waited longer than the time to live, leaves exactly the others in their order, and writes the file only if some went. |
| Chain.Blockchain.RestorePending | src/blockchain.ts:147-160 | Keeps the first verified occurrence of each hash, then prunes. |
| Chain.Blockchain.ApplyTransactionsOf | src/blockchain.ts:371-388 | All transactions are verified and applied, or the given state is left as it was. |
| Chain.Blockchain.AddBlock | src/blockchain.ts:390-419 | Tells thrown, accepted, already known and rejected apart, for any received value; appends, applies, prunes and persists, or changes nothing. |
| Chain.Blockchain.ValidateChain | src/blockchain.ts:422-451 | Succeeds exactly when all received values are blocks and the chain of them replays, and then returns it with a new state equal to the replayed one. |
| Chain.Blockchain.ReplaceChain | src/blockchain.ts:457-478 | Adopts a received list exactly when it consists of blocks, is strictly longer and replays; prunes and persists, or changes nothing. |
| Proposal.GuardsAreExact | src/node.ts:171-227 | The local chain accepts the block built at a moment if and only if the wait is over, the slot is unused and the slot is one's own; its transactions always apply. |
| Proposal.ProposesIff | src/node.ts:171-211 | A node proposes if and only if the wait is over, the slot is later than the tip's, the slot's place in the list holds its key, and some sender's next transaction is pending. |
| Proposal.ProposalEffect | src/node.ts:212-227 | After an accepted proposal exactly the unexpired transactions with unconfirmed nonces are left, in their order; the exact condition for nothing but the selected and expired to be gone holds; and without expiry no next nonce moves. |
| Proposal.Tick | src/node.ts:171-243 | The timer proposes exactly when guards hold and the selection is not empty, its block is then always accepted, and otherwise nothing changes. |
| Proposal.ProposeNow | src/api.ts:164-217 | The API call proposes in exactly the same situations, with its own order of guards, and otherwise changes nothing. |
| Gossip.FreshNetworkIsSound | src/node.ts:129-139 | Freshly started compatible nodes, from any data files and with any clocks, satisfy the network invariant. |
| Gossip.EmissionIsHonest | src/p2p.ts:379-411 | A handler broadcasts only blocks it accepted, asks only for heights the sender has, and answers only with a chain valid at its own clock. |
| Gossip.GrowthIsRelayed | src/p2p.ts:391-403 | Whoever a block makes longer, by NEW_BLOCK or by its own proposal, puts exactly one NEW_BLOCK with it on the wire to each of the others, and nothing else. |
| Gossip.OnlyGrowthIsRelayed | src/p2p.ts:379-411 | A NEW_BLOCK that joins the wire is one that has just made its sender longer; a node that catches up by CHAIN_RESPONSE tells nobody. |
| Gossip.FirstChainStays | src/blockchain.ts:457-478 | On every run a node that has a block keeps its chain as long as it gets no longer; no chain of equal length displaces another. |
| Gossip.NextKeepsNetInv | src/p2p.ts:379-411 | Every event of the network keeps every node's invariants at its own clock and the honesty of every packet in flight. |
| Gossip.NewBlockSyncs | src/p2p.ts:391-411 | A node that handles NEW_BLOCK of index k has a longer chain than k or has a request for it on the way. |
| Gossip.ResponseCatchesUp | src/p2p.ts:383-389 | Once a response that answers for height k is handled, the receiver is longer than k if and only if it already was or the last block of the response is within the drift allowance of the receiver's own clock. |
| Gossip.NextKeepsSynced | src/p2p.ts:379-411 | No other event takes that away. |
| Gossip.SyncGuarantee | src/p2p.ts:336-411 | In every run with any clocks, restarts included, after a node handled NEW_BLOCK of index k or completed a handshake with a node that has block k, at every later moment, unless it refused such a response as too early in between, it is longer than k or a packet that answers for k is in flight; with nothing in flight it is longer. |
| Gossip.CloseClocksSync | src/blockchain.ts:349-356 | When no clock reading is more than the drift allowance ahead of a later one and blocks carry their proposer's time, that holds without exception. |
| Skew.SkewedClocksBreakSync | src/blockchain.ts:349-356 | A run of two compatible nodes with clocks three seconds apart on which one stays short of a block it was sent, with nothing left in flight. |
| Flooding.ProposalTravels | src/p2p.ts:422-438 | A proposal in a quiet network of nodes with one chain leaves every neighbour of the proposer with the block on its way. |
| Flooding.DeliveryTravels | src/p2p.ts:391-403 | Every delivery keeps it so: whoever has the block has told its neighbours, unless they have it too. |
| Flooding.BlockReachesEveryone | src/p2p.ts:391-438 | In every order of deliveries, once nothing is in flight any more, every node to which a path of connections leads from the proposer has the new block. |
| Gossip.HandlerProgress | src/p2p.ts:379-411 | One delivery lets its receiver grow within the bound and broadcast at most once, or leaves its chain alone and sends less than it consumed. |
| Gossip.DeliveryLowersPotential | src/p2p.ts:379-411 | Every delivery of any packet lowers the potential and respects the height bound. |
| Gossip.Quiescence | src/p2p.ts:379-411 | Without new proposals the number of deliveries is bounded by the initial potential plus two for every handshake, in every order, with any clocks and contents and any transactions, sweeps and restarts in between. |
| Peers.PeerTable.constructor | src/peerTable.ts:67-79 | Bootnodes first, then the file merged in; the file itself stays as it was. |
| Peers.PeerTable.Persist | src/peerTable.ts:178-186 | The file then lists exactly the entries with their last-seen times. |
| Peers.PeerTable.Load | src/peerTable.ts:157-176 | A known address gets its history back, a new one is added while there is room, a blocked or unusable one is skipped. |
| Peers.PeerTable.Add | src/peerTable.ts:114-121 | Adds an unverified candidate unless unusable, blocked, known or the table is full, and says which. |
| Peers.PeerTable.RecordSuccess | src/peerTable.ts:124-132 | Marks a known address seen and clears its failures; tells the first time. |
| Peers.PeerTable.RecordFailure | src/peerTable.ts:135-145 | Counts a failure; drops a non-bootnode at the limit, and says so. |
| Peers.PeerTable.Block | src/peerTable.ts:148-153 | Blocks the address and removes its entry. |
| Peers.BootnodesEstablish | src/peerTable.ts:72-77 | The initial table satisfies the table invariant, holds exactly the usable bootnodes, and nothing in it is verified. |
| Peers.LoadKeeps | src/peerTable.ts:157-176 | Loading any file keeps the invariant, credits only records with a positive last-seen time, and adds nothing to a full table. |
| Peers.FromFileEstablishes | src/peerTable.ts:67-79 | A table read from any file satisfies the invariant and credits exactly the addresses that file marks as seen. |
| Peers.StepsKeepFileCurrent | src/peerTable.ts:113-153 | Every step keeps the file listing exactly the table's addresses with their last-seen times. |
| Peers.LoadedInFull | src/peerTable.ts:157-176 | With room in the table every listed address is there, with the last-seen time of its record. |
| Peers.ReadingBackRestores | src/peerTable.ts:157-186 | A table read from what another one wrote has its addresses and last-seen times, its own bootnodes in addition, and no failures. |
| Peers.TableIsBounded | src/peerTable.ts:113-121 | A table satisfying the invariant has at most as many entries as the cap or, if that is more, as there are bootnodes not refused. |
| Peers.CandidateKeeps | src/peerTable.ts:114-121 | A candidate keeps the invariant, is not verified, and being saved to the file does not credit it. |
| Peers.SuccessKeeps | src/peerTable.ts:124-132 | A success keeps the invariant and verifies and credits at most its own address. |
| Peers.FailureKeeps | src/peerTable.ts:135-145 | A failure keeps the invariant and verifies and credits nothing. |
| Peers.BlockKeeps | src/peerTable.ts:148-153 | Blocking keeps the invariant, is never undone, and verifies and credits nothing. |
| Handshake.FirstLive | src/p2p.ts:304-306 | The search finds a live socket to that node other than the given one, or there is none. |
| Handshake.ResolveKeepsOneLive | src/p2p.ts:301-319 | With any number of sockets, resolving a HELLO keeps at most one live socket per remote node. |
| Handshake.LowerInitiatorWins | src/p2p.ts:343-349 | At either end the connection of the node with the lower id wins against the other one and never loses to it. |
| Handshake.TwoEndsAgree | src/p2p.ts:264-349 | When both sides dialed, under every interleaving of openings, HELLOs and closes both ends come to hold exactly the socket the lower node initiated, and neither ever gives it up on the way. |
| Handshake.PlayIsShort | src/p2p.ts:264-349 | And that takes at most ten moves. |
| SameSide.NothingSurvivesIffOppositeOrders | src/p2p.ts:301-349 | When one side dialed twice, under every interleaving of openings, HELLOs and closes, no connection survives at both ends if and only if both ends heard both HELLOs in opposite orders; otherwise exactly one does. |
| SameSide.PlayIsShort | src/p2p.ts:264-349 | And that takes at most twelve moves. |
| SameSide.BothCanBeLost | src/p2p.ts:301-349 | A play on which both connections are lost. |
| P2P.MatchingHelloMeansAgreement | src/p2p.ts:280-290 | The HELLO check passes if and only if the configurations are compatible, and then both nodes return the same result on every chain. |
| P2P.CompletesIff | src/p2p.ts:264-349 | A HELLO completes the handshake if and only if it is well formed, from another node of the same network, at a known address that is not blocked, and no live socket to that node has the lower initiator; otherwise the socket is closed. |
| P2P.HelloKeeps | src/p2p.ts:264-340 | Every outcome of the HELLO handler keeps the mesh invariant and undoes no block. |
| P2P.StartIsSafe | src/p2p.ts:48-56 | A fresh node, its own address blocked, satisfies the mesh invariant whatever its peers file holds, and is credited only with what that file marks as seen. |
| P2P.PeerSafety | src/p2p.ts:294-377 | Within a process, over every run, a blocked address never comes back, the table stays within the larger of the cap and the number of bootnodes not refused, non-bootnodes stay below the failure limit, and there is at most one live socket per remote node. |
| P2P.RestartKeeps | src/peerTable.ts:157-186 | A process that reads back what the one before it saved satisfies the mesh invariant again: an address only heard of is not credited by being saved. |
| P2P.ToldWasVerified | src/p2p.ts:322-328 | Over every run and any restarts, every address told to others was verified by an earlier HELLO on this node's own dial to it, or stood as seen in the file of its first start. |
| P2P.AnswerTells | src/p2p.ts:357-364 | An answer to GET_PEERS lists at most fifty addresses, each seen, not failing and not the asker's own, and all of these if they are fewer. |
| P2P.BootnodesExceedTheCap | src/peerTable.ts:72-77 | Two bootnodes and a cap of one start with two entries; with one of them being the node's own address, with one. |
| P2P.TableExceedsCapIff | src/peerTable.ts:72-121 | Over every run of a process some table exceeds the cap if and only if more bootnodes than the cap are left after the node's own address. |
| Dialing.Delay | src/p2p.ts:162-163 | The backoff is always between one and thirty seconds. |
| Dialing.DelayDoubles | src/p2p.ts:162-163 | The first wait is one second, and each further failure doubles it up to thirty. |
| Dialing.VisitOne | src/p2p.ts:112-121 | What the loop decides at one address does not depend on what it did at the others, so the order of the walk does not matter. |
| Dialing.NeverDialedTwice | src/p2p.ts:129-153 | Over every run no address has two outbound sockets, connecting or open, and it is marked as being dialed exactly while it has one. |
| Dialing.NextKeepsMesh | src/p2p.ts:112-166 | Dialing, its failures and closes keep the mesh invariant. |
| Dialing.BlockedIsNeverDialed | src/p2p.ts:53-55 | An address once blocked, the node's own among them, is never dialed again on any run. |
| Dialing.ForeignIsNeverDialedAgain | src/p2p.ts:271-290 | On every run, an address that answered as this node itself or as one of another network is never dialed again. |
| Dialing.FileMirrorsTable | src/peerTable.ts:113-153 | On every run, once the peers file lists exactly the table it always does. |
| Dialing.GossipIsDialed | src/p2p.ts:366-377 | Of the first fifty addresses of PEERS each one that is new, not blocked and not failing at once is dialed on the spot; a later one is not even noted. |
| Dialing.DroppedMayComeBack | src/p2p.ts:155-159 | An address dropped for its failures and then told by a peer is dialed again at once, with no wait left over. |
| Dialing.AnswerEndsBackoff | src/p2p.ts:321-325 | A compatible HELLO on the only connection to a node wipes the failures of the dialed address, ends its backoff and makes the socket live. |
| Dialing.InboundIsDialedBack | src/p2p.ts:329-335 | A new address announced by an inbound peer is dialed back at once, and is not verified by that. |
| Dialing.DroppedIsRedialed | src/p2p.ts:245-253 | A healthy connection that drops costs no failure, and its address is due again from exactly one second later on unless connected otherwise. |
| Dialing.FreshIsSound | src/p2p.ts:48-56 | A fresh node has one outbound socket per address, none, and satisfies the mesh invariant. |
| Dialing.RunIsSound | src/p2p.ts:112-153 | Every run keeps the mesh invariant and one outbound socket per address together. |
| Dialing.HelloKeepsSound | src/p2p.ts:264-340 | The HELLO handler with the dial-back it starts keeps the mesh invariant and one outbound socket per address. |
| Dialing.UnreachablePeerIsGivenTime | src/p2p.ts:155-166 | On every run in which a peer stays silent its failures are counted exactly, it is kept until the limit (a bootnode for ever), and it is dropped no earlier than the sum of the backoff waits. |
| Dialing.DuplicateIsRedialed | src/p2p.ts:112-121 | The address of a connection closed as a duplicate is dialed again if and only if no live socket announces it. |
| Redial.SecondAddressIsRedialed | src/p2p.ts:112-121 | A run from a fresh start on which a bootnode's connection loses as a duplicate and its address is due again at once. |
| PeerToPeer.P2PNode.constructor | src/p2p.ts:48-56 | A fresh node has no sockets, has blocked its own address, and is credited with what its table and file call seen. |
| PeerToPeer.Launch | src/node.ts:135-139 | Building the peer table from bootnodes and file and the node on top yields the start state of all theorems about runs, with all invariants. |
| PeerToPeer.P2PNode.OwnHelloIsConfig | src/p2p.ts:197-206 | What a node announces is its configuration's genesis hash and slot parameters. |
| PeerToPeer.P2PNode.MaintainConnections | src/p2p.ts:112-121 | The loop dials exactly the addresses that are due at its start, in any order. |
| PeerToPeer.P2PNode.Dial | src/p2p.ts:129-153 | Marks the address and makes a socket, or counts the failure at once. |
| PeerToPeer.P2PNode.OnDialFailed | src/p2p.ts:155-166 | Counts the failure; forgets a dropped address, otherwise sets the next attempt by its failures. |
| PeerToPeer.P2PNode.OnOutboundClose | src/p2p.ts:149-152 | The address may be dialed again; a failure counts only if the socket was neither handshaken nor closed on purpose. |
| PeerToPeer.P2PNode.RegisterSocket | src/p2p.ts:208-256 | The socket joins the list unhandshaken and HELLO goes out on it. |
| PeerToPeer.P2PNode.OnClose | src/p2p.ts:149-152 | Both close handlers: the socket leaves the list, its address may be dialed again, and a healthy connection that dropped is redialed after one second. |
| PeerToPeer.P2PNode.KeepOne | src/p2p.ts:301-319 | Of the sockets to one node exactly the winner is kept; the loser is closed on purpose. |
| PeerToPeer.P2PNode.ConfirmDialed | src/p2p.ts:307-328 | A dialed address that answered is verified even if its socket is a duplicate; a newly verified one on a kept socket is told to the others. |
| PeerToPeer.P2PNode.OnHello | src/p2p.ts:264-340 | The handler does what the specification of a HELLO says to sockets, table, backoff and dialing; on the socket whose handshake it completes it sends the two first requests, to every other usable one the news of a first verified dial, and otherwise nothing. |
| PeerToPeer.HelloSends | src/p2p.ts:321-340 | Socket by socket: completing a handshake sends CHAIN_REQUEST and GET_PEERS on that socket, and the news of a first verified dial once on every other usable one; any other HELLO sends nothing. |
| PeerToPeer.P2PNode.OnMessage | src/p2p.ts:228-243 | Before the handshake everything but a HELLO is ignored, and the ledger moves only for messages on a handshaken socket; any message keeps the ledger, mesh and dialing invariants; it throws exactly for a null block. |
| PeerToPeer.P2PNode.OnSync | src/p2p.ts:379-411 | NEW_BLOCK, CHAIN_REQUEST and CHAIN_RESPONSE, whatever values they carry, change the ledger and send exactly as the network model's handlers do when they carry blocks; another value throws, is refused with a request, or is ignored. When NEW_BLOCK makes the chain longer, exactly one NEW_BLOCK with that block goes out on every usable socket but the one it came from. |
| PeerToPeer.SyncSends | src/p2p.ts:379-411 | Socket by socket: a NEW_BLOCK that makes the chain longer goes out once on every usable socket but its own; one beyond the tip that does not is answered with one request; CHAIN_REQUEST is answered with the chain; nothing else goes out. |
| PeerToPeer.BroadcastOn | src/p2p.ts:431-438 | A broadcast puts its message exactly once on every usable socket but the excepted one, and on no other. |
| PeerToPeer.P2PNode.OnTransaction | src/p2p.ts:413-419 | A gossiped transaction goes out exactly once on every usable socket but the one it came from when it was admitted, and on none otherwise. |
| PeerToPeer.P2PNode.OnPeerList | src/p2p.ts:366-377 | At most fifty gossiped addresses become candidates, and the loop runs exactly if one was new. |
| PeerToPeer.P2PNode.OnGetPeers | src/p2p.ts:357-364 | The answer lists verified addresses other than the asker's, each once, as many as there are up to fifty. |

## Left out

- Cryptography (`src/crypto.ts`): ECDSA, SHA-256, PBKDF2, AES-GCM and PEM handling are library calls; see Assumptions.
- JSON text: key order, extra fields and non-integer numbers; hashed content is a value and malformed values are flags.
- Files (`src/storage.ts`, `src/walletStore.ts`): a data file or peers file is the value last written; failed or partial writes are not modelled.
- Sockets and timers: the `ws` library, pings, heartbeats and the handshake timeout appear as close events that may happen at any time; a socket this node terminates counts as unusable at once.
- Flooding.BlockReachesEveryone: is about a network in which nobody has to catch up. A node that gets a block by CHAIN_RESPONSE tells nobody (`Gossip.OnlyGrowthIsRelayed`), so its neighbours learn of it from others, or by their own requests.
- Peers.ReadingBackRestores: requires room for the bootnodes and the whole file; a table that fills up while reading drops the rest of the file.
- Lost packets: a packet in flight is delivered or waits; a broken connection that loses packets is not a step of the network, so the sync guarantee speaks of packets that are still in flight.
- Restarts of nodes without a data file inside the network of module `Gossip`: such a node starts over with the genesis block. Packets to a node that restarts stay in flight.
- Global convergence, fork choice among chains of equal length, finality: the program does not provide them.
- NEW_TRANSACTION in the network model: a gossiped transaction is a `Pool` event at its receiver; the forwarding itself is stated on `P2PNode`.
- URL parsing in `normalizeAddress` and `addressFromRemote`: an address is canonical or `None`.
- Reason strings, events and logging: rejections are an enumeration.
- Order of the peer table: the walk of the dialing loop and the choice of the fifty addresses told to a peer are arbitrary in the model, which covers the program's insertion order.
- WebSocket API plumbing, subscriptions, `NodeClient`, CLI, wallet, scripts and frontend: nothing beyond `propose` is modelled.
- PeerToPeer.P2PNode.constructor: does not draw the random node id; distinct ids are an assumption where two ends are compared.
- Exceptions: `PeerToPeer.P2PNode.OnSync` says when handling a message throws; what becomes of the process then is not modelled.
- P2P.TableExceedsCapIff: is about one process; a restart may come with other bootnodes.
- Consensus.SameValidatorSpacing: assumes distinct validator keys, which the program does not check.
- Exactness.StateArithmeticIsExact: assumes non-negative allocations with a total of at most 2^53-1, which the program does not check.
- P2P.StartIsSafe: assumes a failure limit of at least 1.
