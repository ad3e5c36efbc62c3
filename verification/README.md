# COIN_NET node core in Dafny

COIN_NET is a small proof-of-work coin written in Rust. A node keeps the
following:

- a fee-ordered mempool of pending transactions;
- a chain of blocks with their headers and height;
- a UTXO set;
- a wallet.

It builds candidate blocks from the ten best-paying valid transactions plus
a reward transaction. It serves a small web interface through which a user
asks for a payment. This project models the sequential core of that node:

- `messages.dfy`, module `Messages`: the de-duplicating max-heap
  `HeapSet<TransactionWithFee>` and the `Mempool` built on it. Entries are
  equal when their transactions are equal, and they are ordered by fee.
- `miner.dfy`, module `Miner`: `Block::new`, `BlockHeader::new`,
  `update_nonce`, the recursive Merkle root and the leading-zeros
  difficulty test.
- `network.dfy`, module `Network`: the bookkeeping in `Node` for the
  chain, headers and height (`add_block`, `update_blocks`,
  `get_prev_hash`), the pruning candidate selection
  (`get_next_transactions`), `get_next_block`, and the reply the network
  handler gives to a `Verack`.
- `ui.dfy`, module `Ui`: how `submit_transaction` turns a request into a
  total, outputs, a response and the transaction it sends, and the
  read-and-clear of the save flag in `check_save_request`.
- `decimal.dfy`, module `Decimal`: how `format!` renders a number in the
  failure message, with the reading that inverts it.
- `transactions.dfy` and `wrappers.dfy`: the transaction types of
  src/transactions.rs, and `Option`.

Several things the node calls are not defined in this model. Each one is a
function-valued field of a parameter record and stays uninterpreted:

- SHA-256;
- `String::from_utf8_lossy`;
- the JSON and transaction serialisations;
- the UTXO set (`add_block`, `validate_transaction`);
- the wallet (`update`, `get_inputs`);
- `Transaction::reward`.

Three more inputs become plain parameters: the clock reading in a header,
the node's own key, and the wallet's value.

Some modelling choices:

- The heap is a sequence whose order stands for the binary heap's layout.
- `pop` takes the first entry of maximal fee. The standard library leaves
  the choice among equal fees unspecified, and nothing here depends on it.
- Each HeapSet invariant has its own name:
  - `Coherent` means the set equals the transactions present in the heap.
    `from_vec` establishes it even when it is handed duplicates.
  - `Inv` adds that no transaction appears twice in the heap.
- `UTXOS::add_block` takes `&mut self` and answers a verdict. Its model
  returns the verdict and the UTXO set afterwards, so the set may change
  even when it rejects the block. A rejection changes nothing else in the
  node.
- The pop loop of `get_next_transactions` is `Drain`, which is `Pops`
  applied to `HeapSet::pop`. `Pops` takes the pop operation as a
  parameter. Its properties are proved for any pop that keeps four one-step
  promises: size, content, priority and set. `PopSteps` shows that
  `HeapSet::pop` keeps all four.

## Model

| member | source | states |
|---|---|---|
| Messages.Empty | src/messages.rs:40-45 | a new HeapSet is empty and satisfies the invariant |
| Messages.Push | src/messages.rs:46-52 | returns true exactly when no entry with an equal transaction is held; then the entry joins the heap and its transaction joins the set; otherwise nothing changes |
| Messages.PushKeepsInv | src/messages.rs:34-52 | push preserves both set/heap agreement and the no-duplicates invariant |
| Messages.MaxIndex | src/messages.rs:192-197 | picks an entry whose fee no other entry exceeds (ordering by fee only) |
| Messages.Pop | src/messages.rs:53-60 | returns None exactly when the heap is empty, and then changes nothing |
| Messages.PopTakesMax | src/messages.rs:53-60 | on a non-empty heap, the popped entry was held and has maximal fee; the rest of the heap is the old heap minus that one entry; its transaction leaves the set |
| Messages.PopKeepsInv | src/messages.rs:34-60 | pop preserves the invariant |
| Messages.FilterMembers | src/messages.rs:75-77 | the drain-and-filter keeps exactly the entries whose transaction differs from the removed one, and shrinks the heap when one was there |
| Messages.FilterKeys | src/messages.rs:75-78 | after filtering, the heap holds the old transactions minus the removed one, and stays free of duplicates |
| Messages.Remove | src/messages.rs:72-80 | a no-op when the transaction is not in the set; otherwise it drops the transaction from the set and every heap entry equal to it, keeping all others |
| Messages.RemoveKeepsInv | src/messages.rs:34-81 | remove preserves both invariants and strictly shrinks the heap when it removes something |
| Messages.GetVec | src/messages.rs:61-63 | the vector holds the heap's entries as a multiset |
| Messages.FromVec | src/messages.rs:65-70 | the heap holds the given entries as a multiset, the set holds their transactions, and the two agree |
| Messages.FromVecInvIff | src/messages.rs:65-70 | the rebuilt HeapSet is free of duplicates exactly when the vector was; with duplicates the set is smaller than the heap |
| Messages.NewMempool | src/messages.rs:88-90 | a new mempool is empty and satisfies the invariant |
| Messages.Size | src/messages.rs:124-126 | size is zero exactly when no transaction is held, and under the invariant it is the number of heap entries |
| Messages.SizeCountsTransactions | src/messages.rs:124-126 | size is the number of distinct transactions held, and under the invariant the number of heap entries |
| Messages.Add | src/messages.rs:98-100 | returns push's verdict: true exactly when the transaction is new, in which case the heap is the old entries plus the new one and the set is the old transactions plus the new one, so size grows by one; otherwise nothing changes |
| Messages.Update | src/messages.rs:101-105 | afterwards the set holds the old transactions plus those of every given entry |
| Messages.UpdateSkipsDuplicates | src/messages.rs:101-105 | no entry is lost; every new entry comes from the batch; the invariant holds; with the set and heap agreeing, a transaction already held keeps its old entry and fee, so later duplicates are skipped |
| Messages.UpdateKeepsFirst | src/messages.rs:101-105 | with the set and heap agreeing, for a transaction new to the mempool, the entry kept is the first one the batch offers for it, so later duplicates in the same batch are skipped |
| Messages.RemoveTx | src/messages.rs:128-130 | removing by transaction drops it from the set, and it does so whatever fee the probe carries, because equality ignores the fee |
| Messages.RemoveTxDropsEntries | src/messages.rs:176-190 | every heap entry of that transaction goes, whatever its fee; all other entries stay; the invariants hold |
| Messages.ToVec | src/messages.rs:132-134 | the serialised vector holds the heap's entries as a multiset |
| Messages.SerialiseRoundTrip | src/messages.rs:132-159 | from_vec of to_vec gives back the same entries and the same set, with set and heap agreeing, and keeps a mempool free of duplicates free of them |
| Messages.GetInv | src/messages.rs:91-96 | one transaction per heap entry: the i-th is the transaction of the i-th entry |
| Messages.GetInvListsElements | src/messages.rs:91-96 | the inventory names exactly the transactions in the set, each once under the invariant |
| Messages.PopSteps | src/messages.rs:53-60 | pop keeps four promises: it takes nothing exactly when the heap is empty, and then changes nothing; otherwise one entry leaves; taken and left entries together are the old entries; no entry left pays more than the one taken; from a valid heap-set it takes a member of the set and removes it, leaving a valid heap-set |
| Messages.PopsLength | src/messages.rs:109-119 | any pop keeping the size promise takes min(k, size) entries in k attempts, stopping early on an empty heap |
| Messages.PopsSplit | src/messages.rs:109-119 | any pop keeping the content promise splits the heap between the entries taken and those left |
| Messages.PopsTakeTopFees | src/messages.rs:109-119 | any pop keeping the content and priority promises takes entries in non-increasing fee order, none paying less than an entry left behind |
| Messages.PopsKeepInv | src/messages.rs:109-119 | any pop keeping the set promise leaves a valid heap-set and takes distinct transactions of its set |
| Messages.Drain | src/messages.rs:107-122 | k pops of a clone take min(k, heap size) entries |
| Messages.DrainMultiset | src/messages.rs:107-122 | the popped entries and the remaining clone together are exactly the original entries |
| Messages.DrainSplits | src/messages.rs:107-122 | the popped entries and the remaining clone together are the original heap, and both hold only original entries |
| Messages.DrainTakesTopFees | src/messages.rs:107-122 | popped entries come in non-increasing fee order and none has a lower fee than an entry left behind |
| Messages.DrainKeepsInv | src/messages.rs:107-122 | repeated pops keep the invariant and yield distinct transactions from the set |
| Messages.DrainIsTopK | src/messages.rs:107-122 | k pops are sorted by fee and every entry not taken has a fee no larger than any taken |
| Messages.DrainStep | src/messages.rs:111-114 | a pop that yields an entry appends it to what was taken, and the rest of the drain continues from the popped clone |
| Messages.DrainStops | src/messages.rs:115-117 | when the pop yields nothing, or no pops are left, the drain takes nothing more |
| Messages.PopTransactions | src/messages.rs:107-122 | the loop of up to k pops over a clone, with its early return on an empty clone, collects the transactions of the k-pop drain in order |
| Messages.NextTransactions | src/messages.rs:107-122 | min(10, heap size) transactions, all held in the mempool |
| Messages.NextTransactionsAreTopFees | src/messages.rs:107-122 | the candidates are the transactions of a sub-multiset of the heap, listed in non-increasing fee order, none paying less than an entry not chosen |
| Messages.NextTransactionsDistinct | src/messages.rs:107-122 | under the invariant, min(10, size) pairwise distinct transactions |
| Messages.GetNextTransactions | src/messages.rs:107-122 | the loop with TX_PER_BLOCK = 10 yields the top-10 selection; the mempool is a value and is not changed |
| Miner.NewHeader | src/miner.rs:175-185 | a new header carries the given previous hash, Merkle root, version, difficulty, height and timestamp, and a zero nonce |
| Miner.NewHeaderInverse | src/miner.rs:175-185 | a header is one `BlockHeader::new` can build exactly when its nonce is zero, and a new header determines every argument it was built from |
| Miner.NextLevel | src/miner.rs:141-153 | one level has ceil(n/2) entries; entry i is the lossy text of the hash of pair i, and a trailing odd entry is paired with itself |
| Miner.MerkleRoot | src/miner.rs:127-158 | the root of no entries is the hash of "0000" and of one entry is the hash of that entry doubled |
| Miner.LevelsShrinking | src/miner.rs:140-155 | from two or more entries, every level has at least two entries, fewer than the one before, and the last has exactly two |
| Miner.RootOfLastLevel | src/miner.rs:127-155 | from two or more entries, the root is the hash of the two entries of the level the recursion stops at |
| Miner.LevelsNeverSingle | src/miner.rs:140-155 | from two or more entries, every level has at least two entries and fewer than the one before, so the recursion terminates and never reaches the one-entry case; the root hashes the final pair |
| Miner.MerkleRootCases | src/miner.rs:127-155 | beyond two entries the next level has between 2 and n-1 entries, so the recursion terminates; the rest repeats the branches of `rec_merkle_root`: the hash of "0000" for no entries, of the entry doubled for one, of the concatenation for two, and otherwise the root of the next level |
| Miner.HashPairs | src/miner.rs:141-153 | the `chunks(2)` loop builds exactly the next level |
| Miner.RecMerkleRoot | src/miner.rs:127-158 | the loop-and-recursion code computes the root defined level by level |
| Miner.Serialized | src/miner.rs:72-74 | the Merkle leaves are the transactions' serialisations in order |
| Miner.GetMerkleRoot | src/miner.rs:72-74 | a block of no transactions has the hash of "0000" as root, one of one transaction the hash of its serialisation doubled, one of two the hash of the two serialisations concatenated |
| Miner.NewBlock | src/miner.rs:55-70 | the block holds the given transactions and their count; the header carries the given previous hash, difficulty, version and height, a zero nonce, and the Merkle root of the transactions |
| Miner.UpdateNonce | src/miner.rs:80-82 | only the header's nonce changes |
| Miner.UpdateNonceKeepsWellFormed | src/miner.rs:80-82 | changing the nonce keeps the block's count and Merkle root consistent |
| Miner.Repeat | src/miner.rs:85 | `"0".repeat(n)` is n zeros |
| Miner.MeetsDifficultyIff | src/miner.rs:84-86 | a hash meets a target exactly when it starts with that many '0' characters |
| Miner.MeetsDifficultyMonotone | src/miner.rs:84-86 | target 0 is always met, and meeting a target means meeting every smaller one |
| Miner.IsMined | src/miner.rs:113-114 | a block is mined exactly when the lossy text of its hash starts with as many '0' characters as its header's difficulty |
| Miner.IsMinedMonotone | src/miner.rs:113-114 | difficulty 0 is always mined, and a block mined at one difficulty is mined at every lower one with the same hash text |
| Network.NewNode | src/network.rs:21-53 | a new node has height 0, empty chain and headers, difficulty 3, reward 10, version 0, an empty mempool, and satisfies the node invariant |
| Network.RemoveSpent | src/network.rs:106-110 | only a block's transactions that spend inputs leave the mempool |
| Network.RemoveSpentKeepsCoherent | src/network.rs:106-110 | dropping them keeps the mempool invariants, and the heap keeps exactly the entries, with their fees, whose transaction the block does not spend |
| Network.Accept | src/network.rs:79-92 | the UTXO set becomes the one add_block leaves; if it rejects the block, nothing else changes; if it accepts, the block and its header are appended, the height grows by one, the UTXO set and wallet advance, spending transactions leave the mempool, and nothing else changes; chain, headers and height stay in step |
| Network.AddBlock | src/network.rs:98-114 | the answer is true exactly when the header's height is the next one; a wrong height changes nothing; a right height does the accept step, even when the UTXO set rejects the block |
| Network.PrevHash | src/network.rs:129-138 | the hash of "00" on an empty chain, otherwise the hash of the last block's JSON text |
| Network.AddBlockKeepsInvariants | src/network.rs:98-114 | add_block preserves the chain/headers/height invariant and the rule that a block's header height is its position; the height grows by one exactly when the height is right and the UTXO set accepts |
| Network.AddBlockLinksPrevHash | src/network.rs:129-138 | the previous hash is that of "00" on an empty chain, and that of the block just accepted afterwards |
| Network.Accepted | src/network.rs:78-93 | the blocks a UTXO set accepts in turn, each offered to the set left by the previous offer, are no more than, and drawn from, the blocks offered |
| Network.UpdateBlocks | src/network.rs:76-96 | a batch that does not start at the next height changes nothing; any batch keeps the node invariant |
| Network.AcceptAllAppendsAccepted | src/network.rs:78-93 | offering a batch appends exactly the accepted blocks in order with their headers, and raises the height by their number |
| Network.UpdateBlocksAppendsAccepted | src/network.rs:76-96 | update_blocks appends the accepted blocks in order and skips the rejected ones; its height grows by the number accepted; it is a no-op at any other start height |
| Network.UpdateBlocksAgreesWithAddBlock | src/network.rs:76-114 | a one-block batch at the next height, for a block claiming that height, has add_block's effect |
| Network.UpdateBlocksIgnoresHeaderHeight | src/network.rs:76-99 | update_blocks appends an accepted block whose header claims the wrong height, breaking the height-equals-position rule, where add_block answers false |
| Network.RemoveInvalid | src/network.rs:119-124 | one pruning round removes from the mempool exactly the candidates the UTXO set rejects |
| Network.RemoveInvalidShrinks | src/network.rs:116-127 | a round keeps the mempool coherent, keeps exactly the heap entries, with their fees, that are not rejected candidates, and strictly shrinks its heap when it rejects a held candidate, which makes the recursion terminate |
| Network.NextValid | src/network.rs:116-127 | every returned transaction is valid; the result is the top-10 selection of the pruned mempool; only the mempool changes; it loses only invalid transactions |
| Network.NextValidKeepsEntries | src/network.rs:116-127 | pruning drops whole transactions only: an entry of the original heap survives, with its fee, exactly when its transaction stays in the set |
| Network.ValidEntriesSurvive | src/network.rs:116-127 | every entry of the original heap whose transaction the UTXO set accepts is still held after pruning |
| Network.NextValidTakesTopValidFees | src/network.rs:116-127 | the selected transactions are those of entries of the original heap, in non-increasing fee order, and no valid entry left out pays more than a selected one |
| Network.TopOfPruned | src/messages.rs:107-122 | when pruning keeps only original entries and every eligible one, the top picks of the pruned heap come from the original heap and pay at least as much as any eligible entry left out |
| Network.GetNextBlock | src/network.rs:140-144 | the block is well formed at height+1 on the previous hash with the node's difficulty and version; its transactions are exactly the validated selection followed by the reward transaction, so at most 10 validated mempool transactions and the reward last |
| Network.VerackReplies | src/network.rs:380-394 | a Verack at index 0 is answered with a Verack at index 1 carrying our version and height; a peer higher than us is sent GetBlocks from our height+1; nothing else is sent, and the Verack comes first |
| Ui.SumBounds | src/ui.rs:110 | no single amount, and no prefix sum, exceeds the sum of the amounts |
| Ui.TotalSpend | src/ui.rs:110-111 | the total is at least the fee, and at least any single amount plus the fee |
| Ui.TotalSpendCountsEveryAmount | src/ui.rs:110-111 | the total is the paired amounts, plus the unpaired amounts, plus the fee; each amount plus the fee is within it |
| Ui.Zip | src/ui.rs:113 | zip has min(\|to\|, \|to_amount\|) outputs, the i-th pairing the i-th recipient with the i-th amount |
| Ui.Submit | src/ui.rs:102-136 | success happens exactly when the wallet returns inputs; then one transaction is sent with those inputs, the zipped outputs and a change output to our own key worth excess minus total, and the reply is "Transaction being broadcasted"; otherwise nothing is sent and the message reports the total and the wallet value |
| Ui.SubmitOutputs | src/ui.rs:105-114 | a successful submission has min(\|to\|, \|to_amount\|)+1 outputs: the pairs in order, then the change to our own key, whose amount makes up the excess |
| Ui.SubmitConservesIff | src/ui.rs:105-114 | outputs, fee and unpaired amounts together make up the inputs, so outputs plus fee make up the inputs exactly when the unpaired amounts are zero |
| Ui.SubmitLosesUnpairedAmount | src/ui.rs:105-114 | on one recipient with amounts 5 and 7 and fee 1, 13 is spent but only 5 is paid out |
| Ui.SubmitPaired | src/ui.rs:102-136 | the corrected handler refuses mismatched recipient and amount lists and otherwise behaves like submit_transaction |
| Ui.SubmitPairedConserves | src/ui.rs:110-114 | every transaction the corrected handler sends pays each amount to its recipient, and its outputs plus fee equal its inputs |
| Ui.CheckSaveRequest | src/ui.rs:71-74 | reports the flag as it was and leaves it cleared |
| Ui.CheckSaveRequestReportsOnce | src/ui.rs:71-74 | a second check with no request in between reports false and leaves the same state |
| Ui.ShortfallMessage | src/ui.rs:128 | the failure message starts with "Amount larger: " and is longer than its fixed words |
| Ui.ShortfallMessageNamesAmounts | src/ui.rs:128 | two failure messages are equal exactly when they report the same total and the same wallet value |
| Decimal.Show | src/ui.rs:128 | the decimal text is non-empty, all digits, and has no leading zero unless it is "0" |
| Decimal.ValueOfShow | src/ui.rs:128 | reading back the decimal text gives the number |
| Decimal.ShowInjective | src/ui.rs:128 | different amounts are reported differently |

## Left out

- Async networking is not modelled: tokio tasks, channels, TCP, `PeerManager` and the `GetBlocks` sleep loop. Of the network handler, only the pure `Verack` reply rule is modelled.
- Mining threads are not modelled, nor the stop flags, the random nonce or the system clock. The timestamp is a parameter, and `IsMined` states the test a mining thread applies.
- SHA-256, `from_utf8_lossy`, serde JSON, `Node::load`/`store` and `AddressBook` file I/O are library calls or I/O. The hash functions are uninterpreted parameters.
- `UTXOS`, `Wallet`, `User` and `Transaction::reward` are not part of this model. src/transactions.rs declares only types, and `validate_script` there has an empty body.
- Integer width is not modelled: all counts, heights and amounts are unbounded naturals.
  - A release build would wrap `usize` where `total_spend` is summed and where heights are incremented.
  - A debug build would panic on an overflowing sum, and on `excess - total_spend` if a wallet ever returned too little.
  - `Ui.Submit` instead requires the wallet to cover the total it is asked for.
- `get_fee(..).unwrap()` is not modelled. network.rs calls it before each mempool removal, and it panics when the UTXO set does not know the transaction. The fee only builds a probe whose fee equality ignores, so the removal is modelled as removing the transaction.
- `Mempool::remove` takes a `Transaction`, but network.rs passes it a `TransactionWithFee` as written. The model removes the transaction, which is the only reading consistent with the `HeapSet::remove` underneath.
- Messages.Pop: the binary heap's choice among equal fees is left unspecified in the source. The model always takes the first such entry, so its contract says only that the popped fee is maximal.
- The heap's internal layout after `BinaryHeap::from` and `into_vec` is not modelled. `GetVec`, `ToVec` and `FromVec` are stated up to the multiset of entries.
- The `NetMessage` framing and the handlers for other messages are not modelled. The handler's `Verack` handling reads a cloned node and changes nothing.
- The copies of `HeapSet` and `Mempool` in the net_tester programs are not modelled. Neither are the input_testing stubs, signing_test or the entry points.
- Axum routing, static files and the browser launch are not modelled.
- The browser's flat `{from, to, amount, fee}` form does not match `TransactionRequest`. Rejecting that body at deserialisation is framework behaviour.
- The other axum handlers are not modelled: `get_node_status`, `get_user_status` and the address-book endpoints.

## Findings

| source | as written | input that shows it | evidently intended | confidence | as-written member | corrected member |
|---|---|---|---|---|---|---|
| src/ui.rs:105-114 | the outputs are `to` zipped with `to_amount`, so they stop at the shorter list, while `total_spend` sums every amount; amounts without a recipient are charged to the user, paid to nobody, and left to the miner as extra fee | to = ["a"], to_amount = [5, 7], fee = 1, wallet funding exactly 13: outputs ("a", 5) and (own key, 0), so 8 goes to the miner instead of 1 | refuse a request whose recipient and amount lists differ in length, so that outputs plus fee equal the inputs | medium (the browser front end always sends lists of equal length; a hand-written request exposes it); not executed | Ui.SubmitLosesUnpairedAmount | Ui.SubmitPairedConserves |
