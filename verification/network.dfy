/**
 The chain and height bookkeeping of `Node` in src/network.rs, and the reply
 the network handler gives to a `Verack`. The UTXO set, the wallet and
 `Transaction::reward` are not part of this model: their operations arrive
 as the fields of a `Ledger` value and are uninterpreted.
 */
module Network {
  import opened Wrappers
  import opened Transactions
  import opened Miner
  import opened Messages

  /** `DIFFICULTY`. */
  const Difficulty: nat := 3

  /** The block reward a fresh node starts with. */
  const InitialReward: nat := 10

  /** The ledger operations the node calls, over a UTXO-set state `U` and a
      wallet state `W`. */
  datatype Ledger<!U, !W> = Ledger(
    addBlock: (U, Block) -> (bool, U),           // `UTXOS::add_block`: the verdict and the set afterwards
    validate: (U, Transaction) -> bool,          // `UTXOS::validate_transaction`
    updateWallet: (W, Block) -> W,               // `Wallet::update`
    reward: (nat, PubKey, nat) -> Transaction)   // `Transaction::reward(amount, key, version)`

  datatype Node<U, W> = Node(
    userKey: PubKey,
    height: nat,
    version: nat,
    mempool: Mempool,
    headers: seq<BlockHeader>,
    blockChain: seq<Block>,
    difficulty: nat,
    reward: nat,
    utxos: U,
    wallet: W)

  /** Chain, headers and height move together: one header per block, the
      block's own, and the height is their number. */
  predicate ChainInv<U, W>(n: Node<U, W>)
  {
    && |n.blockChain| == n.height
    && |n.headers| == n.height
    && forall i :: 0 <= i < n.height ==> n.headers[i] == n.blockChain[i].header
  }

  /** The node invariant: the chain invariant and a mempool whose set
      agrees with its heap. */
  predicate Valid<U, W>(n: Node<U, W>)
  {
    ChainInv(n) && Coherent(n.mempool)
  }

  /** Every block sits at the position its header claims. */
  predicate HeightsMatch<U, W>(n: Node<U, W>)
  {
    forall i :: 0 <= i < |n.blockChain| ==> n.blockChain[i].header.height == i + 1
  }

  /** `Node::new`; the freshly generated key, the empty UTXO set and the new
      wallet are parameters. */
  function NewNode<U, W>(userKey: PubKey, utxos: U, wallet: W): (n: Node<U, W>)
    ensures n.height == 0 && n.blockChain == [] && n.headers == []
    ensures n.difficulty == Difficulty && n.reward == InitialReward && n.version == 0
    ensures Size(n.mempool) == 0
    ensures Valid(n) && Inv(n.mempool) && HeightsMatch(n)
  {
    Node(userKey, 0, 0, NewMempool(), [], [], Difficulty, InitialReward, utxos, wallet)
  }

  /** The transactions of a block that spend inputs; a reward transaction
      has none and is never in the mempool. */
  function Spending(txs: seq<Transaction>): set<Transaction>
  {
    set t | t in txs && t.inputCount != 0
  }

  /** Removes from the mempool every transaction of a block that spends
      inputs. */
  function RemoveSpent(m: Mempool, txs: seq<Transaction>): (r: Mempool)
    ensures r.elements == m.elements - Spending(txs)
    decreases |txs|
  {
    if txs == [] then m
    else
      var m' := if txs[0].inputCount != 0 then RemoveTx(m, txs[0]) else m;
      assert Spending(txs) == Spending(txs[1..]) + (if txs[0].inputCount != 0 then {txs[0]} else {});
      RemoveSpent(m', txs[1..])
  }

  /** Lemma: removing a block's spending transactions keeps the mempool's
      set and heap in agreement, keeps its keys distinct, and keeps every
      other heap entry with its fee. */
  lemma {:induction false} RemoveSpentKeepsCoherent(m: Mempool, txs: seq<Transaction>)
    ensures Coherent(m) ==> Coherent(RemoveSpent(m, txs))
    ensures Inv(m) ==> Inv(RemoveSpent(m, txs))
    ensures Coherent(m) ==> forall x :: x in RemoveSpent(m, txs).heap <==>
      x in m.heap && x.transaction !in Spending(txs)
    decreases |txs|
  {
    if txs != [] && Coherent(m) {
      var m' := if txs[0].inputCount != 0 then RemoveTx(m, txs[0]) else m;
      if txs[0].inputCount != 0 {
        RemoveTxDropsEntries(m, txs[0]);
      }
      RemoveSpentKeepsCoherent(m', txs[1..]);
      assert Spending(txs) == Spending(txs[1..]) + (if txs[0].inputCount != 0 then {txs[0]} else {});
    }
  }

  /** The body shared by `add_block` and `update_blocks`: offer the block to
      the UTXO set and, if it is accepted, append it and its header, raise
      the height, update the wallet and drop the block's spending
      transactions from the mempool. */
  function Accept<U, W>(l: Ledger<U, W>, n: Node<U, W>, b: Block): (r: Node<U, W>)
    ensures r.utxos == l.addBlock(n.utxos, b).1
    ensures !l.addBlock(n.utxos, b).0 ==> r == n.(utxos := r.utxos)
    ensures l.addBlock(n.utxos, b).0 ==>
      && r.blockChain == n.blockChain + [b]
      && r.headers == n.headers + [b.header]
      && r.height == n.height + 1
      && r.wallet == l.updateWallet(n.wallet, b)
      && r.mempool.elements == n.mempool.elements - Spending(b.transactions)
      && (Coherent(n.mempool) ==> forall x :: x in r.mempool.heap <==>
            x in n.mempool.heap && x.transaction !in Spending(b.transactions))
      && r.(blockChain := n.blockChain, headers := n.headers, height := n.height,
            utxos := n.utxos, wallet := n.wallet, mempool := n.mempool) == n
    ensures Valid(n) ==> Valid(r)
  {
    var (ok, u) := l.addBlock(n.utxos, b);
    if !ok then n.(utxos := u)
    else
      RemoveSpentKeepsCoherent(n.mempool, b.transactions);
      n.(blockChain := n.blockChain + [b],
         headers := n.headers + [b.header],
         height := n.height + 1,
         utxos := u,
         wallet := l.updateWallet(n.wallet, b),
         mempool := RemoveSpent(n.mempool, b.transactions))
  }

  /** `Node::add_block`: a block at any height but the next is refused with
      nothing changed; a block at the next height is answered `true` whether
      or not the UTXO set accepts it. */
  function AddBlock<U, W>(l: Ledger<U, W>, n: Node<U, W>, b: Block): (r: (Node<U, W>, bool))
    ensures r.1 <==> b.header.height == n.height + 1
    ensures !r.1 ==> r.0 == n
    ensures r.1 ==> r.0 == Accept(l, n, b)
  {
    if b.header.height != n.height + 1 then (n, false)
    else (Accept(l, n, b), true)
  }

  /** Lemma: `add_block` keeps the node invariant and keeps every block at
      the position its header claims. */
  lemma AddBlockKeepsInvariants<U, W>(l: Ledger<U, W>, n: Node<U, W>, b: Block)
    requires Valid(n)
    ensures Valid(AddBlock(l, n, b).0)
    ensures HeightsMatch(n) ==> HeightsMatch(AddBlock(l, n, b).0)
    ensures AddBlock(l, n, b).0.height ==
      n.height + (if AddBlock(l, n, b).1 && l.addBlock(n.utxos, b).0 then 1 else 0)
  {
  }

  /** `Node::get_prev_hash`: the hash of the last block, or the hash of
      "00" on an empty chain. */
  function PrevHash<U, W>(p: Primitives, n: Node<U, W>): (d: Digest)
    ensures |n.blockChain| == 0 ==> d == p.sha256("00")
    ensures |n.blockChain| > 0 ==> d == p.sha256(p.blockString(n.blockChain[|n.blockChain| - 1]))
  {
    if |n.blockChain| == 0 then p.sha256("00") else CalculateHash(p, n.blockChain[|n.blockChain| - 1])
  }

  /** Lemma: once a block is accepted, the next block is built on its hash;
      an empty chain is built on the hash of "00". */
  lemma AddBlockLinksPrevHash<U, W>(p: Primitives, l: Ledger<U, W>, n: Node<U, W>, b: Block)
    ensures |n.blockChain| == 0 ==> PrevHash(p, n) == p.sha256("00")
    ensures AddBlock(l, n, b).1 && l.addBlock(n.utxos, b).0 ==>
      PrevHash(p, AddBlock(l, n, b).0) == CalculateHash(p, b)
  {
  }

  /** The blocks a UTXO set in state `u` accepts when offered `bs` in order,
      each acceptance moving it to its next state. */
  function Accepted<U>(addBlock: (U, Block) -> (bool, U), u: U, bs: seq<Block>): (acc: seq<Block>)
    ensures |acc| <= |bs|
    ensures forall b :: b in acc ==> b in bs
    decreases |bs|
  {
    if bs == [] then []
    else
      assert forall b :: b in bs[1..] ==> b in bs;
      var (ok, u') := addBlock(u, bs[0]);
      if ok then [bs[0]] + Accepted(addBlock, u', bs[1..]) else Accepted(addBlock, u', bs[1..])
  }

  /** The headers of some blocks, in order. */
  function HeadersOf(bs: seq<Block>): (hs: seq<BlockHeader>)
    ensures |hs| == |bs|
    ensures forall i :: 0 <= i < |bs| ==> hs[i] == bs[i].header
  {
    seq(|bs|, i requires 0 <= i < |bs| => bs[i].header)
  }

  /** The loop of `update_blocks`: every block offered in turn. */
  function AcceptAll<U, W>(l: Ledger<U, W>, n: Node<U, W>, bs: seq<Block>): Node<U, W>
    decreases |bs|
  {
    if bs == [] then n else AcceptAll(l, Accept(l, n, bs[0]), bs[1..])
  }

  /** `Node::update_blocks`: does nothing unless the batch starts at the next
      height; then offers each block in order, appending the accepted ones
      and skipping the rejected ones. Unlike `add_block` it does not look at
      the blocks' own header heights. */
  function UpdateBlocks<U, W>(l: Ledger<U, W>, n: Node<U, W>, msg: Blocks): (r: Node<U, W>)
    ensures msg.startHeight != n.height + 1 ==> r == n
    ensures Valid(n) ==> Valid(r)
  {
    if msg.startHeight != n.height + 1 then n
    else
      AcceptAllKeepsValid(l, n, msg.blockchain);
      AcceptAll(l, n, msg.blockchain)
  }

  lemma {:induction false} AcceptAllKeepsValid<U, W>(l: Ledger<U, W>, n: Node<U, W>, bs: seq<Block>)
    ensures Valid(n) ==> Valid(AcceptAll(l, n, bs))
    decreases |bs|
  {
    if bs != [] {
      AcceptAllKeepsValid(l, Accept(l, n, bs[0]), bs[1..]);
    }
  }

  /** `r` is `n` with the blocks `acc` and their headers appended and the
      height raised by their number. */
  predicate Extends<U, W>(n: Node<U, W>, r: Node<U, W>, acc: seq<Block>)
  {
    && r.blockChain == n.blockChain + acc
    && r.headers == n.headers + HeadersOf(acc)
    && r.height == n.height + |acc|
  }

  /** Lemma: appending one block and then `acc` appends `[b] + acc`. */
  lemma ExtendsCons<U, W>(n: Node<U, W>, n': Node<U, W>, r: Node<U, W>, b: Block, acc: seq<Block>)
    requires Extends(n, n', [b])
    requires Extends(n', r, acc)
    ensures Extends(n, r, [b] + acc)
  {
    assert n'.blockChain + acc == n.blockChain + ([b] + acc);
    assert HeadersOf([b] + acc) == HeadersOf([b]) + HeadersOf(acc);
    assert n'.headers + HeadersOf(acc) == n.headers + HeadersOf([b] + acc);
  }

  /** Lemma: after the offered batch, the chain is the old chain followed by
      exactly the blocks the UTXO set accepted, in order, with their headers,
      and the height has grown by their number. */
  lemma {:induction false} AcceptAllAppendsAccepted<U, W>(l: Ledger<U, W>, n: Node<U, W>, bs: seq<Block>)
    ensures Extends(n, AcceptAll(l, n, bs), Accepted(l.addBlock, n.utxos, bs))
    decreases |bs|
  {
    if bs != [] {
      var n' := Accept(l, n, bs[0]);
      AcceptAllAppendsAccepted(l, n', bs[1..]);
      if l.addBlock(n.utxos, bs[0]).0 {
        assert Extends(n, n', [bs[0]]);
        ExtendsCons(n, n', AcceptAll(l, n', bs[1..]), bs[0], Accepted(l.addBlock, n'.utxos, bs[1..]));
      } else {
        assert Extends(n, n', []);
        assert Extends(n', AcceptAll(l, n', bs[1..]), Accepted(l.addBlock, n'.utxos, bs[1..]));
      }
    }
  }

  /** Lemma: `update_blocks` on a batch starting at the next height appends
      the accepted blocks and their headers and grows the height by their
      number; on any other start height it does nothing. */
  lemma UpdateBlocksAppendsAccepted<U, W>(l: Ledger<U, W>, n: Node<U, W>, msg: Blocks)
    ensures var r := UpdateBlocks(l, n, msg);
      var acc := Accepted(l.addBlock, n.utxos, msg.blockchain);
      if msg.startHeight == n.height + 1 then
        && r.blockChain == n.blockChain + acc
        && r.headers == n.headers + HeadersOf(acc)
        && r.height == n.height + |acc|
      else r == n
  {
    AcceptAllAppendsAccepted(l, n, msg.blockchain);
  }

  /** Lemma: a one-block batch at the next height for a block that claims
      that height has the same effect as `add_block`. */
  lemma UpdateBlocksAgreesWithAddBlock<U, W>(l: Ledger<U, W>, n: Node<U, W>, b: Block)
    requires b.header.height == n.height + 1
    ensures UpdateBlocks(l, n, Blocks(n.height + 1, [b])) == AddBlock(l, n, b).0
  {
    assert [b][1..] == [];
    assert AcceptAll(l, Accept(l, n, b), []) == Accept(l, n, b);
  }

  /** Lemma: `update_blocks` appends a block the UTXO set accepts whatever
      height its header claims, so a block whose header disagrees with its
      position enters the chain, where `add_block` refuses it. */
  lemma UpdateBlocksIgnoresHeaderHeight<U, W>(l: Ledger<U, W>, n: Node<U, W>, b: Block)
    requires l.addBlock(n.utxos, b).0
    requires b.header.height != n.height + 1
    ensures UpdateBlocks(l, n, Blocks(n.height + 1, [b])).blockChain == n.blockChain + [b]
    ensures Valid(n) ==> !HeightsMatch(UpdateBlocks(l, n, Blocks(n.height + 1, [b])))
    ensures AddBlock(l, n, b) == (n, false)
  {
    assert [b][1..] == [];
    assert AcceptAll(l, Accept(l, n, b), []) == Accept(l, n, b);
    if Valid(n) {
      var r := UpdateBlocks(l, n, Blocks(n.height + 1, [b]));
      assert r.blockChain[n.height] == b;
    }
  }

  /** The mempool after one round of `get_next_transactions`: every
      candidate the UTXO set rejects is removed. */
  function RemoveInvalid<U>(validate: (U, Transaction) -> bool, u: U, m: Mempool,
                            txs: seq<Transaction>): (r: Mempool)
    ensures r.elements == m.elements - (set t | t in txs && !validate(u, t))
    decreases |txs|
  {
    if txs == [] then m
    else
      var m' := if validate(u, txs[0]) then m else RemoveTx(m, txs[0]);
      assert (set t | t in txs && !validate(u, t)) ==
        (set t | t in txs[1..] && !validate(u, t)) + (if validate(u, txs[0]) then {} else {txs[0]});
      RemoveInvalid(validate, u, m', txs[1..])
  }

  /** Lemma: removing rejected candidates keeps the mempool coherent, never
      grows its heap, and strictly shrinks it when some rejected candidate
      is held. */
  lemma {:induction false} RemoveInvalidShrinks<U>(validate: (U, Transaction) -> bool, u: U,
                                                   m: Mempool, txs: seq<Transaction>)
    requires Coherent(m)
    ensures Coherent(RemoveInvalid(validate, u, m, txs))
    ensures |RemoveInvalid(validate, u, m, txs).heap| <= |m.heap|
    ensures (exists t :: t in txs && !validate(u, t) && t in m.elements) ==>
      |RemoveInvalid(validate, u, m, txs).heap| < |m.heap|
    ensures forall x :: x in RemoveInvalid(validate, u, m, txs).heap <==>
      x in m.heap && !(x.transaction in txs && !validate(u, x.transaction))
    decreases |txs|
  {
    if txs != [] {
      var m' := if validate(u, txs[0]) then m else RemoveTx(m, txs[0]);
      if !validate(u, txs[0]) {
        RemoveTxDropsEntries(m, txs[0]);
      }
      RemoveInvalidShrinks(validate, u, m', txs[1..]);
      assert forall t :: t in txs <==> t == txs[0] || t in txs[1..];
      if exists t :: t in txs && !validate(u, t) && t in m.elements {
        var t :| t in txs && !validate(u, t) && t in m.elements;
        if t != txs[0] {
          assert t in txs[1..];
        }
      }
    }
  }

  /** `Node::get_next_transactions`: take the mempool's candidates; if the
      UTXO set rejects any, remove the rejected ones and start again. */
  function NextValid<U, W>(l: Ledger<U, W>, n: Node<U, W>): (r: (Node<U, W>, seq<Transaction>))
    requires Coherent(n.mempool)
    ensures forall t :: t in r.1 ==> l.validate(n.utxos, t)
    ensures r.1 == NextTransactions(r.0.mempool)
    ensures r.0 == n.(mempool := r.0.mempool)
    ensures Coherent(r.0.mempool)
    ensures r.0.mempool.elements <= n.mempool.elements
    ensures forall t :: t in n.mempool.elements && t !in r.0.mempool.elements ==>
      !l.validate(n.utxos, t)
    decreases |n.mempool.heap|
  {
    var txs := NextTransactions(n.mempool);
    if forall t :: t in txs ==> l.validate(n.utxos, t) then (n, txs)
    else
      var m' := RemoveInvalid(l.validate, n.utxos, n.mempool, txs);
      RemoveInvalidShrinks(l.validate, n.utxos, n.mempool, txs);
      NextValid(l, n.(mempool := m'))
  }

  /** Lemma: pruning only drops whole transactions: an entry of the original
      heap survives, with its fee, exactly when its transaction does. */
  lemma {:induction false} NextValidKeepsEntries<U, W>(l: Ledger<U, W>, n: Node<U, W>)
    requires Coherent(n.mempool)
    ensures forall x :: x in NextValid(l, n).0.mempool.heap <==>
      x in n.mempool.heap && x.transaction in NextValid(l, n).0.mempool.elements
    decreases |n.mempool.heap|
  {
    var txs := NextTransactions(n.mempool);
    if forall t :: t in txs ==> l.validate(n.utxos, t) {
      assert forall x :: x in n.mempool.heap ==> x.transaction in Keys(n.mempool.heap);
    } else {
      var m' := RemoveInvalid(l.validate, n.utxos, n.mempool, txs);
      RemoveInvalidShrinks(l.validate, n.utxos, n.mempool, txs);
      NextValidKeepsEntries(l, n.(mempool := m'));
    }
  }

  /** `taken` comes from `heap` in non-increasing fee order, and no entry of
      `heap` left out whose transaction is `eligible` pays more than one
      taken. */
  predicate TopEligible(taken: seq<TxWithFee>, heap: seq<TxWithFee>, eligible: Transaction -> bool)
  {
    && (forall a :: a in taken ==> a in heap)
    && (forall i, j :: 0 <= i < j < |taken| ==> taken[i].fee >= taken[j].fee)
    && (forall a, b :: a in taken && b in heap && b !in taken && eligible(b.transaction) ==> a.fee >= b.fee)
  }

  /** The transactions the UTXO set in state `u` accepts. */
  function ValidIn<U, W>(l: Ledger<U, W>, u: U): Transaction -> bool
  {
    t => l.validate(u, t)
  }

  /** Lemma: `get_next_transactions` picks the best-paying valid entries of
      the original mempool: the picks come from its heap in non-increasing
      fee order, and no valid entry left out pays more than a pick. */
  lemma NextValidTakesTopValidFees<U, W>(l: Ledger<U, W>, n: Node<U, W>)
    requires Coherent(n.mempool)
    ensures exists taken ::
      && NextValid(l, n).1 == TxsOf(taken)
      && TopEligible(taken, n.mempool.heap, ValidIn(l, n.utxos))
  {
    var r := NextValid(l, n);
    var taken := Drain(r.0.mempool, TxPerBlock).0;
    assert r.1 == TxsOf(taken);
    NextValidKeepsEntries(l, n);
    ValidEntriesSurvive(l, n);
    TopOfPruned(n.mempool.heap, r.0.mempool, ValidIn(l, n.utxos));
  }

  /** Lemma: when pruning keeps only original entries and keeps every
      eligible one, the top picks of the pruned mempool come from the
      original heap and pay at least as much as any eligible entry left out. */
  lemma TopOfPruned(orig: seq<TxWithFee>, pruned: Mempool, eligible: Transaction -> bool)
    requires forall x :: x in pruned.heap ==> x in orig
    requires forall b :: b in orig && eligible(b.transaction) ==> b in pruned.heap
    ensures TopEligible(Drain(pruned, TxPerBlock).0, orig, eligible)
  {
    DrainIsTopK(pruned, TxPerBlock);
    DrainSplits(pruned, TxPerBlock);
  }

  /** Lemma: every valid entry of the original heap is still held after
      pruning. */
  lemma ValidEntriesSurvive<U, W>(l: Ledger<U, W>, n: Node<U, W>)
    requires Coherent(n.mempool)
    ensures forall b :: b in n.mempool.heap && l.validate(n.utxos, b.transaction) ==>
      b in NextValid(l, n).0.mempool.heap
  {
    NextValidKeepsEntries(l, n);
    forall b | b in n.mempool.heap && l.validate(n.utxos, b.transaction)
      ensures b.transaction in NextValid(l, n).0.mempool.elements
    {
      assert b.transaction in Keys(n.mempool.heap);
    }
  }

  /** `Node::get_next_block`: the validated candidates followed by the
      reward transaction, at the next height, on the previous block's hash;
      the clock reading is a parameter. */
  function GetNextBlock<U, W>(p: Primitives, l: Ledger<U, W>, n: Node<U, W>, timestamp: nat)
    : (r: (Node<U, W>, Block))
    requires Coherent(n.mempool)
    ensures var b := r.1; var txs := b.transactions;
      && WellFormed(p, b)
      && b.header.height == n.height + 1
      && b.header.prevHash == PrevHash(p, n)
      && b.header.difficulty == n.difficulty && b.header.version == n.version
      && 1 <= |txs| <= TxPerBlock + 1
      && txs[|txs| - 1] == l.reward(n.reward, n.userKey, n.version)
      && (forall i :: 0 <= i < |txs| - 1 ==>
            l.validate(n.utxos, txs[i]) && txs[i] in n.mempool.elements)
    ensures r.0 == NextValid(l, n).0
    ensures r.1.transactions == NextValid(l, n).1 + [l.reward(n.reward, n.userKey, n.version)]
  {
    var (n', txs) := NextValid(l, n);
    var all := WithReward(txs, l.reward(n.reward, n.userKey, n.version));
    assert forall t :: t in txs ==> t in n.mempool.elements;
    (n', NewBlock(p, all, PrevHash(p, n), n.difficulty, n.version, n.height + 1, timestamp))
  }

  /** The candidates followed by the reward transaction. */
  function WithReward(txs: seq<Transaction>, reward: Transaction): (all: seq<Transaction>)
    ensures |all| == |txs| + 1 && all[|txs|] == reward
    ensures forall i :: 0 <= i < |txs| ==> all[i] in txs
  {
    txs + [reward]
  }

  /** The messages the handler sends back on a `Verack`. */
  datatype NetMessage =
    | VerackMessage(verack: Verack)
    | GetBlocksMessage(getBlocks: GetBlocks)

  /** The `Verack` rule of `start_network_handler`: a first handshake
      message (index 0) is answered with our own `Verack` at index 1; a peer
      that is ahead of us is asked for the blocks after our height. */
  function VerackReplies<U, W>(n: Node<U, W>, v: Verack): (out: seq<NetMessage>)
    ensures VerackMessage(Verack(1, n.version, n.height)) in out <==> v.index == 0
    ensures GetBlocksMessage(GetBlocks(n.height + 1)) in out <==> v.height > n.height
    ensures forall msg :: msg in out ==>
      msg == VerackMessage(Verack(1, n.version, n.height)) ||
      msg == GetBlocksMessage(GetBlocks(n.height + 1))
    ensures |out| == (if v.index == 0 then 1 else 0) + (if v.height > n.height then 1 else 0)
    ensures |out| == 2 ==> out[0].VerackMessage?
  {
    (if v.index == 0 then [VerackMessage(Verack(1, n.version, n.height))] else [])
    + (if v.height > n.height then [GetBlocksMessage(GetBlocks(n.height + 1))] else [])
  }

}
