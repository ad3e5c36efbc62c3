/**
 The fee-priority mempool of src/messages.rs and the protocol records the
 node logic below uses.

 `HeapSet` is instantiated at `TransactionWithFee`, whose equality and hash
 look at the transaction only while its ordering looks at the fee only. The
 element set is therefore modelled as the set of transactions it holds, and
 the binary heap as the sequence of its entries; the order of that sequence
 stands for the heap's internal layout and is never promised to anyone.
 */
module Messages {
  import opened Wrappers
  import opened Transactions
  import Miner

  /** `TX_PER_BLOCK`: how many mempool entries a block candidate takes. */
  const TxPerBlock: nat := 10

  datatype Verack = Verack(index: nat, version: nat, height: nat)

  datatype GetBlocks = GetBlocks(startHeight: nat)

  datatype Blocks = Blocks(startHeight: nat, blockchain: seq<Miner.Block>)

  datatype TxWithFee = TxWithFee(transaction: Transaction, fee: nat)

  /** The transactions of some heap entries, i.e. the entries up to the
      `TransactionWithFee` equality. */
  function Keys(h: seq<TxWithFee>): set<Transaction>
  {
    set x | x in h :: x.transaction
  }

  /** No two entries are equal as `TransactionWithFee`s. */
  predicate DistinctKeys(h: seq<TxWithFee>)
  {
    forall i, j :: 0 <= i < j < |h| ==> h[i].transaction != h[j].transaction
  }

  datatype HeapSet = HeapSet(heap: seq<TxWithFee>, elements: set<Transaction>)

  /** The element set is exactly the set of heap entries. Every constructor
      establishes this, `from_vec` included. */
  predicate Coherent(hs: HeapSet)
  {
    hs.elements == Keys(hs.heap)
  }

  /** The representation invariant: heap and set agree and the heap holds no
      two equal entries. */
  predicate Inv(hs: HeapSet)
  {
    Coherent(hs) && DistinctKeys(hs.heap)
  }

  lemma KeysConcat(a: seq<TxWithFee>, b: seq<TxWithFee>)
    ensures Keys(a + b) == Keys(a) + Keys(b)
  {
    assert forall x :: x in a + b <==> x in a || x in b;
  }

  /** Lemma: a sequence with distinct keys after its head is distinct exactly
      when the head's key does not reappear. */
  lemma DistinctCons(a: TxWithFee, h: seq<TxWithFee>)
    ensures DistinctKeys([a] + h) <==> a.transaction !in Keys(h) && DistinctKeys(h)
  {
    var s := [a] + h;
    assert forall j :: 0 <= j < |h| ==> s[j + 1] == h[j];
    if DistinctKeys(s) {
      forall x | x in h ensures x.transaction != a.transaction {
        var j :| 0 <= j < |h| && h[j] == x;
        assert s[0].transaction != s[j + 1].transaction;
      }
    }
    if a.transaction !in Keys(h) && DistinctKeys(h) {
      forall i, j | 0 <= i < j < |s| ensures s[i].transaction != s[j].transaction {
        assert s[j] in h;
      }
    }
  }

  /** Lemma: with distinct keys there are as many keys as entries. */
  lemma {:induction false} KeysSize(h: seq<TxWithFee>)
    requires DistinctKeys(h)
    ensures |Keys(h)| == |h|
  {
    if h != [] {
      assert h == [h[0]] + h[1..];
      DistinctCons(h[0], h[1..]);
      KeysConcat([h[0]], h[1..]);
      assert Keys([h[0]]) == {h[0].transaction};
      KeysSize(h[1..]);
    }
  }

  /** `HeapSet::new`. */
  function Empty(): (hs: HeapSet)
    ensures Inv(hs) && |hs.heap| == 0 && hs.elements == {}
  {
    HeapSet([], {})
  }

  /** `HeapSet::push`: succeeds exactly when no equal entry is present; a
      refused push changes nothing. */
  function Push(hs: HeapSet, item: TxWithFee): (r: (HeapSet, bool))
    ensures r.1 <==> item.transaction !in hs.elements
    ensures r.1 ==> multiset(r.0.heap) == multiset(hs.heap) + multiset{item}
    ensures r.1 ==> r.0.elements == hs.elements + {item.transaction}
    ensures !r.1 ==> r.0 == hs
  {
    if item.transaction in hs.elements then (hs, false)
    else (HeapSet(hs.heap + [item], hs.elements + {item.transaction}), true)
  }

  /** Lemma: `push` keeps the set in step with the heap and admits no
      duplicate. */
  lemma PushKeepsInv(hs: HeapSet, item: TxWithFee)
    ensures Coherent(hs) ==> Coherent(Push(hs, item).0)
    ensures Inv(hs) ==> Inv(Push(hs, item).0)
  {
    if item.transaction !in hs.elements {
      var s := hs.heap + [item];
      KeysConcat(hs.heap, [item]);
      assert Keys([item]) == {item.transaction};
      if Inv(hs) {
        forall i, j | 0 <= i < j < |s| ensures s[i].transaction != s[j].transaction {
          assert s[i] == hs.heap[i] && s[i] in hs.heap;
        }
      }
    }
  }

  /** The position of the first entry of maximal fee. */
  function MaxIndex(h: seq<TxWithFee>): (i: nat)
    requires |h| > 0
    ensures i < |h|
    ensures forall j :: 0 <= j < |h| ==> h[j].fee <= h[i].fee
  {
    if |h| == 1 then 0
    else
      var k := MaxIndex(h[1..]) + 1;
      assert forall j :: 1 <= j < |h| ==> h[j] == h[1..][j - 1];
      if h[0].fee >= h[k].fee then 0 else k
  }

  /** The entries without the one at position `i`. */
  function RemoveAt(h: seq<TxWithFee>, i: nat): seq<TxWithFee>
    requires i < |h|
  {
    h[..i] + h[i + 1..]
  }

  lemma RemoveAtMultiset(h: seq<TxWithFee>, i: nat)
    requires i < |h|
    ensures multiset(RemoveAt(h, i)) + multiset{h[i]} == multiset(h)
  {
    assert h == h[..i] + [h[i]] + h[i + 1..];
  }

  lemma RemoveAtIndex(h: seq<TxWithFee>, i: nat)
    requires i < |h|
    ensures |RemoveAt(h, i)| == |h| - 1
    ensures forall j :: 0 <= j < i ==> RemoveAt(h, i)[j] == h[j]
    ensures forall j :: i <= j < |h| - 1 ==> RemoveAt(h, i)[j] == h[j + 1]
  {
  }

  lemma RemoveAtDistinct(h: seq<TxWithFee>, i: nat)
    requires i < |h|
    ensures DistinctKeys(h) ==> DistinctKeys(RemoveAt(h, i))
    ensures DistinctKeys(h) ==> Keys(RemoveAt(h, i)) == Keys(h) - {h[i].transaction}
  {
    if DistinctKeys(h) {
      RemoveAtDistinctCase(h, i);
    }
  }

  lemma RemoveAtDistinctCase(h: seq<TxWithFee>, i: nat)
    requires i < |h| && DistinctKeys(h)
    ensures DistinctKeys(RemoveAt(h, i))
    ensures Keys(RemoveAt(h, i)) == Keys(h) - {h[i].transaction}
  {
    var r := RemoveAt(h, i);
    RemoveAtIndex(h, i);
    forall a, b | 0 <= a < b < |r| ensures r[a].transaction != r[b].transaction {
      var a' := if a < i then a else a + 1;
      var b' := if b < i then b else b + 1;
      assert r[a] == h[a'] && r[b] == h[b'];
    }
    RemoveAtKeys(h, i);
  }

  lemma RemoveAtKeys(h: seq<TxWithFee>, i: nat)
    requires i < |h| && DistinctKeys(h)
    ensures Keys(RemoveAt(h, i)) == Keys(h) - {h[i].transaction}
  {
    var r := RemoveAt(h, i);
    RemoveAtIndex(h, i);
    forall t | t in Keys(r) ensures t in Keys(h) - {h[i].transaction} {
      var x :| x in r && x.transaction == t;
      var j :| 0 <= j < |r| && r[j] == x;
      var j' := if j < i then j else j + 1;
      assert h[j'] == x;
    }
    forall t | t in Keys(h) - {h[i].transaction} ensures t in Keys(r) {
      var x :| x in h && x.transaction == t;
      var j :| 0 <= j < |h| && h[j] == x;
      var j' := if j < i then j else j - 1;
      assert r[j'] == x;
    }
  }

  /** `HeapSet::pop`: on an empty heap returns nothing and changes nothing,
      otherwise removes one entry (see `PopTakesMax`). Among entries of equal
      fee the model takes the first; the standard binary heap leaves that
      choice to its layout. */
  function Pop(hs: HeapSet): (r: (HeapSet, Option<TxWithFee>))
    ensures r.1.None? <==> |hs.heap| == 0
    ensures r.1.None? ==> r.0 == hs
  {
    if |hs.heap| == 0 then (hs, None)
    else
      var i := MaxIndex(hs.heap);
      (HeapSet(RemoveAt(hs.heap, i), hs.elements - {hs.heap[i].transaction}), Some(hs.heap[i]))
  }

  /** Lemma: a successful `pop` returns an entry of maximal fee and removes
      it from both the heap and the set. */
  lemma PopTakesMax(hs: HeapSet)
    requires |hs.heap| > 0
    ensures var (rest, top) := Pop(hs);
      && top.Some?
      && top.value in hs.heap
      && (forall x :: x in hs.heap ==> x.fee <= top.value.fee)
      && multiset(rest.heap) + multiset{top.value} == multiset(hs.heap)
      && rest.elements == hs.elements - {top.value.transaction}
      && (forall x :: x in rest.heap ==> x in hs.heap && x.fee <= top.value.fee)
  {
    var i := MaxIndex(hs.heap);
    RemoveAtMultiset(hs.heap, i);
    RemoveAtIndex(hs.heap, i);
  }

  /** Lemma: `pop` keeps the representation invariant. */
  lemma PopKeepsInv(hs: HeapSet)
    requires Inv(hs)
    ensures Inv(Pop(hs).0)
  {
    if |hs.heap| > 0 {
      RemoveAtDistinct(hs.heap, MaxIndex(hs.heap));
    }
  }

  /** The entries whose transaction differs from `tx`, in order. */
  function Filter(h: seq<TxWithFee>, tx: Transaction): seq<TxWithFee>
  {
    if h == [] then []
    else if h[0].transaction == tx then Filter(h[1..], tx)
    else [h[0]] + Filter(h[1..], tx)
  }

  /** Lemma: filtering keeps exactly the entries of other transactions. */
  lemma {:induction false} FilterMembers(h: seq<TxWithFee>, tx: Transaction)
    ensures forall x :: x in Filter(h, tx) <==> x in h && x.transaction != tx
    ensures multiset(Filter(h, tx)) <= multiset(h)
    ensures |Filter(h, tx)| <= |h|
    ensures tx in Keys(h) ==> |Filter(h, tx)| < |h|
  {
    if h != [] {
      FilterMembers(h[1..], tx);
      assert h == [h[0]] + h[1..];
      assert forall x :: x in h <==> x == h[0] || x in h[1..];
      assert tx in Keys(h) ==> h[0].transaction == tx || tx in Keys(h[1..]);
    }
  }

  /** Lemma: filtering drops exactly the key `tx` and keeps keys distinct. */
  lemma {:induction false} FilterKeys(h: seq<TxWithFee>, tx: Transaction)
    ensures Keys(Filter(h, tx)) == Keys(h) - {tx}
    ensures DistinctKeys(h) ==> DistinctKeys(Filter(h, tx))
  {
    if h != [] {
      var rest := Filter(h[1..], tx);
      FilterKeys(h[1..], tx);
      assert h == [h[0]] + h[1..];
      KeysConcat([h[0]], h[1..]);
      assert Keys([h[0]]) == {h[0].transaction};
      DistinctCons(h[0], h[1..]);
      if h[0].transaction != tx {
        KeysConcat([h[0]], rest);
        DistinctCons(h[0], rest);
      }
    }
  }

  /** `HeapSet::remove`: when an equal entry is in the set, every equal heap
      entry goes; otherwise nothing changes. */
  function Remove(hs: HeapSet, item: TxWithFee): (r: HeapSet)
    ensures item.transaction !in hs.elements ==> r == hs
    ensures item.transaction in hs.elements ==>
      && r.elements == hs.elements - {item.transaction}
      && (forall x :: x in r.heap <==> x in hs.heap && x.transaction != item.transaction)
    ensures multiset(r.heap) <= multiset(hs.heap)
  {
    if item.transaction in hs.elements then
      FilterMembers(hs.heap, item.transaction);
      HeapSet(Filter(hs.heap, item.transaction), hs.elements - {item.transaction})
    else hs
  }

  /** Lemma: `remove` keeps the invariant and, on a present item, shrinks
      the heap. */
  lemma RemoveKeepsInv(hs: HeapSet, item: TxWithFee)
    ensures Coherent(hs) ==> Coherent(Remove(hs, item))
    ensures Inv(hs) ==> Inv(Remove(hs, item))
    ensures Coherent(hs) && item.transaction in hs.elements ==>
      |Remove(hs, item).heap| < |hs.heap|
  {
    FilterMembers(hs.heap, item.transaction);
    FilterKeys(hs.heap, item.transaction);
  }

  /** `HeapSet::get_vec`: the heap's entries. */
  function GetVec(hs: HeapSet): (v: seq<TxWithFee>)
    ensures multiset(v) == multiset(hs.heap)
  {
    hs.heap
  }

  /** `HeapSet::from_vec`: the heap keeps every entry given, duplicates
      included, while the set keeps one per transaction. */
  function FromVec(v: seq<TxWithFee>): (hs: HeapSet)
    ensures multiset(hs.heap) == multiset(v)
    ensures hs.elements == Keys(v)
    ensures Coherent(hs)
  {
    HeapSet(v, Keys(v))
  }

  /** Lemma: `from_vec` yields a valid heap-set exactly when the vector holds
      no two equal entries; with duplicates the set is smaller than the heap. */
  lemma FromVecInvIff(v: seq<TxWithFee>)
    ensures Inv(FromVec(v)) <==> DistinctKeys(v)
    ensures !DistinctKeys(v) ==> |FromVec(v).elements| < |v|
  {
    if !DistinctKeys(v) {
      var i, j :| 0 <= i < j < |v| && v[i].transaction == v[j].transaction;
      var w := RemoveAt(v, j);
      assert w == v[..j] + v[j + 1..];
      assert v == v[..j] + [v[j]] + v[j + 1..];
      KeysConcat(v[..j] + [v[j]], v[j + 1..]);
      KeysConcat(v[..j], [v[j]]);
      KeysConcat(v[..j], v[j + 1..]);
      assert v[i] in v[..j];
      assert Keys([v[j]]) == {v[j].transaction} <= Keys(v[..j]);
      assert Keys(v) == Keys(w);
      KeysAtMost(w);
    }
  }

  /** Lemma: never more keys than entries. */
  lemma {:induction false} KeysAtMost(h: seq<TxWithFee>)
    ensures |Keys(h)| <= |h|
  {
    if h != [] {
      assert h == [h[0]] + h[1..];
      KeysConcat([h[0]], h[1..]);
      assert Keys([h[0]]) == {h[0].transaction};
      KeysAtMost(h[1..]);
    }
  }

  /** The mempool is a heap-set of transactions with their fees. */
  type Mempool = HeapSet

  /** `Mempool::new`. */
  function NewMempool(): (m: Mempool)
    ensures Inv(m) && Size(m) == 0
  {
    Empty()
  }

  /** `Mempool::size`: the number of distinct transactions held. */
  function Size(m: Mempool): (n: nat)
    ensures n == 0 <==> m.elements == {}
    ensures Inv(m) ==> n == |m.heap|
  {
    if Inv(m) then KeysSize(m.heap); |m.elements| else |m.elements|
  }

  /** Lemma: the size counts the distinct transactions of the heap, which
      under the invariant is the number of heap entries. */
  lemma SizeCountsTransactions(m: Mempool)
    ensures Coherent(m) ==> Size(m) == |Keys(m.heap)|
    ensures Inv(m) ==> Size(m) == |m.heap|
  {
    if Inv(m) {
      KeysSize(m.heap);
    }
  }

  /** `Mempool::add`: the outcome of pushing the transaction with its fee. */
  function Add(m: Mempool, tx: Transaction, fee: nat): (r: (Mempool, bool))
    ensures r.1 <==> tx !in m.elements
    ensures r.1 ==> TxWithFee(tx, fee) in r.0.heap && Size(r.0) == Size(m) + 1
    ensures r.1 ==> multiset(r.0.heap) == multiset(m.heap) + multiset{TxWithFee(tx, fee)}
    ensures r.1 ==> r.0.elements == m.elements + {tx}
    ensures !r.1 ==> r.0 == m
  {
    var r := Push(m, TxWithFee(tx, fee));
    assert r.1 ==> TxWithFee(tx, fee) in multiset(r.0.heap);
    r
  }

  /** `Mempool::update`: pushes every entry in order, ignoring refusals. */
  function Update(m: Mempool, txs: seq<TxWithFee>): (r: Mempool)
    ensures r.elements == m.elements + Keys(txs)
    decreases |txs|
  {
    if txs == [] then m
    else
      var r := Update(Push(m, txs[0]).0, txs[1..]);
      assert txs == [txs[0]] + txs[1..];
      KeysConcat([txs[0]], txs[1..]);
      assert Keys([txs[0]]) == {txs[0].transaction};
      r
  }

  /** Lemma: `update` keeps every entry it had, adds only entries it was
      given, keeps the invariant, and leaves an already present transaction
      at the fee it had. */
  lemma {:induction false} UpdateSkipsDuplicates(m: Mempool, txs: seq<TxWithFee>)
    ensures multiset(m.heap) <= multiset(Update(m, txs).heap)
    ensures forall x :: x in Update(m, txs).heap ==> x in m.heap || x in txs
    ensures Inv(m) ==> Inv(Update(m, txs))
    ensures Coherent(m) ==>
      forall x :: x in Update(m, txs).heap && x.transaction in m.elements ==> x in m.heap
    decreases |txs|
  {
    if txs != [] {
      var m' := Push(m, txs[0]).0;
      UpdateSkipsDuplicates(m', txs[1..]);
      PushKeepsInv(m, txs[0]);
      var r := Update(m, txs);
      assert r == Update(m', txs[1..]);
      assert forall x :: x in txs[1..] ==> x in txs;
      forall x | x in m'.heap ensures x in m.heap || x == txs[0] {
        assert x in multiset(m'.heap);
      }
      forall x | x in m.heap ensures x in m'.heap {
        assert x in multiset(m.heap);
      }
    }
  }

  /** The first entry of `txs` for transaction `t`, if any. */
  function FirstEntry(txs: seq<TxWithFee>, t: Transaction): (r: Option<TxWithFee>)
    ensures r.Some? ==> r.value in txs && r.value.transaction == t
    ensures r.None? <==> t !in Keys(txs)
  {
    if txs == [] then None
    else if txs[0].transaction == t then Some(txs[0])
    else
      assert forall x :: x in txs <==> x == txs[0] || x in txs[1..];
      FirstEntry(txs[1..], t)
  }

  /** Lemma: for a transaction not held before, `update` keeps the first
      entry of the batch that carries it; later duplicates are refused by
      `push`. */
  lemma {:induction false} UpdateKeepsFirst(m: Mempool, txs: seq<TxWithFee>)
    requires Coherent(m)
    ensures forall x :: x in Update(m, txs).heap && x.transaction !in m.elements ==>
      FirstEntry(txs, x.transaction) == Some(x)
    decreases |txs|
  {
    if txs != [] {
      var m' := Push(m, txs[0]).0;
      PushKeepsInv(m, txs[0]);
      UpdateKeepsFirst(m', txs[1..]);
      UpdateSkipsDuplicates(m', txs[1..]);
      var r := Update(m, txs);
      assert r == Update(m', txs[1..]);
      forall x | x in r.heap && x.transaction !in m.elements
        ensures FirstEntry(txs, x.transaction) == Some(x)
      {
        if x.transaction == txs[0].transaction {
          assert x.transaction in m'.elements;
          assert x in m'.heap;
          assert x in multiset(m'.heap);
          assert x !in m.heap;
        }
      }
    }
  }

  /** `Mempool::remove`: removes the transaction under whatever fee it is
      held, because the probe's fee takes no part in equality. */
  function RemoveTx(m: Mempool, tx: Transaction): (r: Mempool)
    ensures r.elements == m.elements - {tx}
    ensures forall fee :: r == Remove(m, TxWithFee(tx, fee))
  {
    Remove(m, TxWithFee(tx, 0))
  }

  /** Lemma: under the set-and-heap agreement, removing a transaction drops
      every entry of it, keeps the others, keeps the invariant, and shrinks
      the heap when the transaction was held. */
  lemma RemoveTxDropsEntries(m: Mempool, tx: Transaction)
    requires Coherent(m)
    ensures forall x :: x in RemoveTx(m, tx).heap <==> x in m.heap && x.transaction != tx
    ensures Coherent(RemoveTx(m, tx))
    ensures Inv(m) ==> Inv(RemoveTx(m, tx))
    ensures tx in m.elements ==> |RemoveTx(m, tx).heap| < |m.heap|
  {
    RemoveKeepsInv(m, TxWithFee(tx, 0));
  }

  /** `Mempool::to_vec`, the serialised form. */
  function ToVec(m: Mempool): (v: seq<TxWithFee>)
    ensures multiset(v) == multiset(m.heap)
  {
    GetVec(m)
  }

  /** Lemma: serialising with `to_vec` and reading back with `from_vec`
      keeps the same entries and the same set, and keeps the invariant. */
  lemma SerialiseRoundTrip(m: Mempool)
    requires Coherent(m)
    ensures var m' := FromVec(ToVec(m));
      multiset(m'.heap) == multiset(m.heap) && m'.elements == m.elements && Coherent(m')
    ensures Inv(m) ==> Inv(FromVec(ToVec(m)))
  {
  }

  /** The transactions of some entries, in order. */
  function TxsOf(h: seq<TxWithFee>): (txs: seq<Transaction>)
    ensures |txs| == |h|
    ensures forall i :: 0 <= i < |h| ==> txs[i] == h[i].transaction
  {
    seq(|h|, i requires 0 <= i < |h| => h[i].transaction)
  }

  /** `Mempool::get_inv`: the transactions held, one per heap entry, in heap
      order. */
  function GetInv(m: Mempool): (txs: seq<Transaction>)
    ensures |txs| == |m.heap|
    ensures forall i :: 0 <= i < |txs| ==> txs[i] == m.heap[i].transaction
  {
    TxsOf(GetVec(m))
  }

  /** Lemma: the inventory names exactly the transactions in the set, and
      under the invariant each of them once. */
  lemma GetInvListsElements(m: Mempool)
    ensures Coherent(m) ==> forall t :: t in GetInv(m) <==> t in m.elements
    ensures Inv(m) ==> forall i, j :: 0 <= i < j < |GetInv(m)| ==> GetInv(m)[i] != GetInv(m)[j]
  {
    var v := GetVec(m);
    assert forall x :: x in v <==> x in m.heap by {
      forall x ensures x in v <==> x in m.heap {
        assert x in v <==> x in multiset(v);
      }
    }
  }

  /** Lemma: the parts of a split multiset hold only members of the whole. */
  lemma SplitMembers(a: seq<TxWithFee>, b: seq<TxWithFee>, c: seq<TxWithFee>)
    requires multiset(a) + multiset(b) == multiset(c)
    ensures forall x :: x in a ==> x in c
    ensures forall x :: x in b ==> x in c
  {
    forall x | x in a ensures x in c {
      assert multiset(a)[x] > 0;
      assert multiset(c)[x] > 0;
    }
    forall x | x in b ensures x in c {
      assert multiset(b)[x] > 0;
      assert multiset(c)[x] > 0;
    }
  }

  /** What a `pop` returns: the heap-set afterwards and the entry taken. */
  type PopResult = (HeapSet, Option<TxWithFee>)

  /** Applies `pop` up to `k` times, stopping early when it yields nothing:
      the entries taken, in order, and the heap-set left. */
  function Pops(pop: HeapSet -> PopResult, hs: HeapSet, k: nat): (r: (seq<TxWithFee>, HeapSet))
    decreases k
  {
    if k == 0 then ([], hs)
    else match pop(hs).1
      case None => ([], hs)
      case Some(top) =>
        var d := Pops(pop, pop(hs).0, k - 1);
        ([top] + d.0, d.1)
  }

  /** The size promise of one pop: nothing is taken exactly when the heap
      is empty, and then nothing changes; otherwise one entry leaves. */
  predicate StepSize(hs: HeapSet, r: PopResult)
  {
    && (r.1.None? <==> |hs.heap| == 0)
    && (r.1.None? ==> r.0 == hs)
    && (r.1.Some? ==> |r.0.heap| == |hs.heap| - 1)
  }

  /** The content promise of one pop: the entry taken and the entries left
      are exactly the entries before. */
  predicate StepSplits(hs: HeapSet, r: PopResult)
  {
    r.1.Some? ==> multiset(r.0.heap) + multiset{r.1.value} == multiset(hs.heap)
  }

  /** The priority promise of one pop: no entry left pays more than the one
      taken. */
  predicate StepTakesMax(hs: HeapSet, r: PopResult)
  {
    r.1.Some? ==> forall x :: x in r.0.heap ==> x.fee <= r.1.value.fee
  }

  /** The set promise of one pop: from a valid heap-set it takes a member
      of the set, removes it from the set and leaves a valid heap-set. */
  predicate StepKeepsInv(hs: HeapSet, r: PopResult)
  {
    r.1.Some? && Inv(hs) ==>
      && Inv(r.0)
      && r.1.value.transaction in hs.elements
      && r.0.elements == hs.elements - {r.1.value.transaction}
  }

  /** Lemma: `HeapSet::pop` keeps all four promises. */
  lemma PopSteps()
    ensures forall hs :: StepSize(hs, Pop(hs)) && StepSplits(hs, Pop(hs))
    ensures forall hs :: StepTakesMax(hs, Pop(hs)) && StepKeepsInv(hs, Pop(hs))
  {
    forall hs
      ensures StepSize(hs, Pop(hs)) && StepSplits(hs, Pop(hs))
      ensures StepTakesMax(hs, Pop(hs)) && StepKeepsInv(hs, Pop(hs))
    {
      if |hs.heap| > 0 {
        PopTakesMax(hs);
        RemoveAtIndex(hs.heap, MaxIndex(hs.heap));
        if Inv(hs) {
          PopKeepsInv(hs);
        }
      }
    }
  }

  /** The entries of `a` and `b` together are exactly those of `c`. */
  predicate Splits(a: seq<TxWithFee>, b: seq<TxWithFee>, c: seq<TxWithFee>)
  {
    multiset(a) + multiset(b) == multiset(c)
  }

  /** Entries listed in non-increasing fee order. */
  predicate SortedByFee(t: seq<TxWithFee>)
  {
    forall i, j :: 0 <= i < j < |t| ==> t[i].fee >= t[j].fee
  }

  /** No entry of `left` pays more than an entry of `taken`. */
  predicate Dominates(taken: seq<TxWithFee>, left: seq<TxWithFee>)
  {
    forall a, b :: a in taken && b in left ==> a.fee >= b.fee
  }

  /** Lemma: a pop that keeps its size promise takes `min(k, size)` entries
      in `k` attempts. */
  lemma {:induction false} PopsLength(pop: HeapSet -> PopResult, hs: HeapSet, k: nat)
    requires forall h :: StepSize(h, pop(h))
    ensures |Pops(pop, hs, k).0| == (if k < |hs.heap| then k else |hs.heap|)
    decreases k
  {
    if k != 0 {
      assert StepSize(hs, pop(hs));
      if pop(hs).1.Some? {
        PopsLength(pop, pop(hs).0, k - 1);
      }
    }
  }

  /** Lemma: one step of the multiset bookkeeping of `Pops`. */
  lemma ConsSplit(item: TxWithFee, t: seq<TxWithFee>, left: seq<TxWithFee>,
                  rest: seq<TxWithFee>, whole: seq<TxWithFee>)
    requires Splits(t, left, rest)
    requires multiset(rest) + multiset{item} == multiset(whole)
    ensures Splits([item] + t, left, whole)
  {
    calc {
      multiset([item] + t) + multiset(left);
      multiset{item} + multiset(t) + multiset(left);
      multiset{item} + (multiset(t) + multiset(left));
      multiset{item} + multiset(rest);
    }
  }

  /** Lemma: a pop that keeps its content promise splits the heap between
      the entries taken and those left. */
  lemma {:induction false} PopsSplit(pop: HeapSet -> PopResult, hs: HeapSet, k: nat)
    requires forall h :: StepSplits(h, pop(h))
    ensures Splits(Pops(pop, hs, k).0, Pops(pop, hs, k).1.heap, hs.heap)
    decreases k
  {
    if k != 0 && pop(hs).1.Some? {
      var p := pop(hs);
      var d := Pops(pop, p.0, k - 1);
      assert StepSplits(hs, p);
      PopsSplit(pop, p.0, k - 1);
      ConsSplit(p.1.value, d.0, d.1.heap, p.0.heap, hs.heap);
    }
  }

  /** Lemma: putting in front of a split of `rest` an entry that pays at
      least as much as all of `rest` keeps the split sorted and dominant. */
  lemma ConsTop(item: TxWithFee, t: seq<TxWithFee>, left: seq<TxWithFee>, rest: seq<TxWithFee>)
    requires SortedByFee(t) && Dominates(t, left)
    requires Splits(t, left, rest)
    requires forall x :: x in rest ==> x.fee <= item.fee
    ensures SortedByFee([item] + t) && Dominates([item] + t, left)
  {
    SplitMembers(t, left, rest);
    var r := [item] + t;
    forall i, j | 0 <= i < j < |r| ensures r[i].fee >= r[j].fee {
      assert r[j] == t[j - 1];
      if i > 0 {
        assert r[i] == t[i - 1];
      } else {
        assert r[j] in t;
      }
    }
    forall a, b | a in r && b in left ensures a.fee >= b.fee {
      if a != item {
        assert a in t;
      }
    }
  }

  /** Lemma: the inductive step of `PopsTakeTopFees`. */
  lemma TopFeesStep(pop: HeapSet -> PopResult, hs: HeapSet, k: nat)
    requires k != 0 && pop(hs).1.Some?
    requires forall h :: StepSplits(h, pop(h))
    requires StepTakesMax(hs, pop(hs))
    requires SortedByFee(Pops(pop, pop(hs).0, k - 1).0)
    requires Dominates(Pops(pop, pop(hs).0, k - 1).0, Pops(pop, pop(hs).0, k - 1).1.heap)
    ensures SortedByFee(Pops(pop, hs, k).0)
    ensures Dominates(Pops(pop, hs, k).0, Pops(pop, hs, k).1.heap)
  {
    var p := pop(hs);
    var d := Pops(pop, p.0, k - 1);
    assert Pops(pop, hs, k) == ([p.1.value] + d.0, d.1);
    assert forall x :: x in p.0.heap ==> x.fee <= p.1.value.fee;
    PopsSplit(pop, p.0, k - 1);
    ConsTop(p.1.value, d.0, d.1.heap, p.0.heap);
  }

  /** Lemma: a pop that keeps its content and priority promises takes
      entries in non-increasing fee order, none paying less than an entry
      left behind. */
  lemma {:induction false} PopsTakeTopFees(pop: HeapSet -> PopResult, hs: HeapSet, k: nat)
    requires forall h :: StepSplits(h, pop(h))
    requires forall h :: StepTakesMax(h, pop(h))
    ensures SortedByFee(Pops(pop, hs, k).0)
    ensures Dominates(Pops(pop, hs, k).0, Pops(pop, hs, k).1.heap)
    decreases k
  {
    if k != 0 && pop(hs).1.Some? {
      PopsTakeTopFees(pop, pop(hs).0, k - 1);
      TopFeesStep(pop, hs, k);
    }
  }

  /** Lemma: one step of the key bookkeeping of `Pops`. */
  lemma ConsDistinct(item: TxWithFee, t: seq<TxWithFee>, elements: set<Transaction>)
    requires DistinctKeys(t) && Keys(t) <= elements - {item.transaction}
    requires item.transaction in elements
    ensures DistinctKeys([item] + t) && Keys([item] + t) <= elements
  {
    DistinctCons(item, t);
    KeysConcat([item], t);
    assert Keys([item]) == {item.transaction};
  }

  /** Lemma: a pop that keeps its set promise leaves a valid heap-set and
      takes distinct transactions of the set. */
  lemma {:induction false} PopsKeepInv(pop: HeapSet -> PopResult, hs: HeapSet, k: nat)
    requires forall h :: StepKeepsInv(h, pop(h))
    requires Inv(hs)
    ensures Inv(Pops(pop, hs, k).1)
    ensures DistinctKeys(Pops(pop, hs, k).0)
    ensures Keys(Pops(pop, hs, k).0) <= hs.elements
    decreases k
  {
    if k != 0 && pop(hs).1.Some? {
      var p := pop(hs);
      var d := Pops(pop, p.0, k - 1);
      assert StepKeepsInv(hs, p);
      PopsKeepInv(pop, p.0, k - 1);
      ConsDistinct(p.1.value, d.0, hs.elements);
    }
  }

  /** Pops up to `k` entries with `HeapSet::pop`: the entries taken, in
      order, and the heap-set left. */
  function Drain(hs: HeapSet, k: nat): (r: (seq<TxWithFee>, HeapSet))
    ensures |r.0| == (if k < |hs.heap| then k else |hs.heap|)
  {
    PopSteps();
    PopsLength(Pop, hs, k);
    Pops(Pop, hs, k)
  }

  /** Lemma: draining splits the heap's entries between those taken and
      those left. */
  lemma DrainMultiset(hs: HeapSet, k: nat)
    ensures Splits(Drain(hs, k).0, Drain(hs, k).1.heap, hs.heap)
  {
    PopSteps();
    PopsSplit(Pop, hs, k);
  }

  /** Lemma: what draining takes and what it leaves were all in the heap. */
  lemma DrainSplits(hs: HeapSet, k: nat)
    ensures multiset(Drain(hs, k).0) + multiset(Drain(hs, k).1.heap) == multiset(hs.heap)
    ensures forall x :: x in Drain(hs, k).0 ==> x in hs.heap
    ensures forall x :: x in Drain(hs, k).1.heap ==> x in hs.heap
  {
    DrainMultiset(hs, k);
    SplitMembers(Drain(hs, k).0, Drain(hs, k).1.heap, hs.heap);
  }

  /** Lemma: the entries come out in non-increasing fee order and none left
      behind has a higher fee than one taken. */
  lemma DrainTakesTopFees(hs: HeapSet, k: nat)
    ensures SortedByFee(Drain(hs, k).0)
    ensures Dominates(Drain(hs, k).0, Drain(hs, k).1.heap)
  {
    PopSteps();
    PopsTakeTopFees(Pop, hs, k);
  }

  /** Lemma: draining a valid heap-set leaves a valid one and takes distinct
      transactions of its set. */
  lemma DrainKeepsInv(hs: HeapSet, k: nat)
    requires Inv(hs)
    ensures Inv(Drain(hs, k).1)
    ensures DistinctKeys(Drain(hs, k).0)
    ensures Keys(Drain(hs, k).0) <= hs.elements
  {
    PopSteps();
    PopsKeepInv(Pop, hs, k);
  }

  /** `Mempool::get_next_transactions`: the transactions of the (at most)
      ten highest-fee entries, taken from a copy. */
  function NextTransactions(m: Mempool): (txs: seq<Transaction>)
    ensures |txs| == (if TxPerBlock < |m.heap| then TxPerBlock else |m.heap|)
    ensures forall t :: t in txs ==> t in Keys(m.heap)
  {
    var d := Drain(m, TxPerBlock);
    DrainSplits(m, TxPerBlock);
    SplitMembers(d.0, d.1.heap, m.heap);
    TxsOf(d.0)
  }

  /** Lemma: what `k` pops take is in non-increasing fee order and no entry
      they leave behind has a higher fee. */
  lemma DrainIsTopK(hs: HeapSet, k: nat)
    ensures var taken := Drain(hs, k).0;
      && (forall i, j :: 0 <= i < j < |taken| ==> taken[i].fee >= taken[j].fee)
      && (forall a, b :: a in taken && b in hs.heap && b !in taken ==> a.fee >= b.fee)
  {
    var d := Drain(hs, k);
    DrainTakesTopFees(hs, k);
    DrainSplits(hs, k);
    forall b | b in hs.heap && b !in d.0 ensures b in d.1.heap {
      assert multiset(hs.heap)[b] > 0;
      assert multiset(d.0)[b] == 0;
    }
  }

  /** Lemma: the candidates come in non-increasing fee order and no entry
      left behind has a higher fee than a candidate. */
  lemma NextTransactionsAreTopFees(m: Mempool)
    ensures exists taken: seq<TxWithFee> ::
      && NextTransactions(m) == TxsOf(taken)
      && multiset(taken) <= multiset(m.heap)
      && (forall i, j :: 0 <= i < j < |taken| ==> taken[i].fee >= taken[j].fee)
      && (forall a, b :: a in taken && b in m.heap && b !in taken ==> a.fee >= b.fee)
  {
    var taken := Drain(m, TxPerBlock).0;
    DrainIsTopK(m, TxPerBlock);
    DrainSplits(m, TxPerBlock);
    assert NextTransactions(m) == TxsOf(taken);
  }

  /** Lemma: under the invariant the candidates are distinct transactions,
      `min(10, size)` of them. */
  lemma NextTransactionsDistinct(m: Mempool)
    requires Inv(m)
    ensures |NextTransactions(m)| == (if TxPerBlock < Size(m) then TxPerBlock else Size(m))
    ensures forall i, j :: 0 <= i < j < |NextTransactions(m)| ==>
      NextTransactions(m)[i] != NextTransactions(m)[j]
  {
    SizeCountsTransactions(m);
    DrainKeepsInv(m, TxPerBlock);
  }

  /** Lemma: one pop of a non-empty heap-set is the first step of a drain,
      stated after a prefix `taken` already popped. */
  lemma DrainStep(hs: HeapSet, k: nat, taken: seq<TxWithFee>)
    requires k != 0 && Pop(hs).1.Some?
    ensures taken + Drain(hs, k).0 == (taken + [Pop(hs).1.value]) + Drain(Pop(hs).0, k - 1).0
  {
    assert Drain(hs, k).0 == [Pop(hs).1.value] + Drain(Pop(hs).0, k - 1).0;
  }

  /** Lemma: a drain of an empty heap-set, or with no pops left, takes
      nothing. */
  lemma DrainStops(hs: HeapSet, k: nat, taken: seq<TxWithFee>)
    requires k == 0 || Pop(hs).1.None?
    ensures taken + Drain(hs, k).0 == taken
  {
    assert Drain(hs, k).0 == [];
  }

  /** Lemma: listing the transactions commutes with appending an entry. */
  lemma TxsOfSnoc(h: seq<TxWithFee>, x: TxWithFee)
    ensures TxsOf(h + [x]) == TxsOf(h) + [x.transaction]
  {
  }

  /** The loop of `Mempool::get_next_transactions`: pop from a clone until
      `k` are taken or the clone is empty. */
  method PopTransactions(m: Mempool, k: nat) returns (txs: seq<Transaction>)
    ensures txs == TxsOf(Drain(m, k).0)
  {
    var clone := m;
    txs := [];
    ghost var taken: seq<TxWithFee> := [];
    for i := 0 to k
      invariant Drain(m, k).0 == taken + Drain(clone, k - i).0
      invariant txs == TxsOf(taken)
    {
      var popped := Pop(clone);
      match popped.1 {
        case None =>
          DrainStops(clone, k - i, taken);
          return;
        case Some(item) =>
          DrainStep(clone, k - i, taken);
          TxsOfSnoc(taken, item);
          txs := txs + [item.transaction];
          taken := taken + [item];
          clone := popped.0;
      }
    }
    DrainStops(clone, 0, taken);
  }

  /** `Mempool::get_next_transactions` as the source writes it, a bounded
      loop of pops on a copy of the mempool. */
  method GetNextTransactions(m: Mempool) returns (txs: seq<Transaction>)
    ensures txs == NextTransactions(m)
  {
    txs := PopTransactions(m, TxPerBlock);
  }

}
