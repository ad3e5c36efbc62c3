/**
 Block construction, the Merkle root and the difficulty test of src/miner.rs.
 SHA-256, `String::from_utf8_lossy` and the serialisations are uninterpreted:
 they arrive as the fields of a `Primitives` value.
 */
module Miner {
  import opened Transactions

  /** The functions the miner uses but this model does not define. */
  datatype Primitives = Primitives(
    sha256: string -> Digest,          // `sha256` over the UTF-8 bytes of a string
    utf8Lossy: Digest -> string,       // `String::from_utf8_lossy` of a digest
    txString: Transaction -> string,   // `Transaction::serialize`
    blockString: Block -> string)      // `Block::to_string` (serde JSON)

  datatype BlockHeader = BlockHeader(
    prevHash: Digest,
    merkleRoot: Digest,
    timestamp: nat,
    difficulty: nat,
    nonce: Nonce,
    version: nat,
    height: nat)

  datatype Block = Block(
    header: BlockHeader,
    transactions: seq<Transaction>,
    transactionCount: nat)

  /** `BlockHeader::new`; the clock reading is a parameter. The arguments
      come in a different order from the fields, version before difficulty. */
  function NewHeader(prevHash: Digest, merkleRoot: Digest, version: nat, difficulty: nat,
                     height: nat, timestamp: nat): (h: BlockHeader)
    ensures h.prevHash == prevHash && h.merkleRoot == merkleRoot
    ensures h.version == version && h.difficulty == difficulty
    ensures h.height == height && h.timestamp == timestamp
    ensures h.nonce == ZeroNonce
  {
    BlockHeader(prevHash, merkleRoot, timestamp, difficulty, ZeroNonce, version, height)
  }

  /** Lemma: a header built by `BlockHeader::new` determines its arguments,
      and every header with a zero nonce is built that way. */
  lemma NewHeaderInverse(h: BlockHeader)
    ensures h.nonce == ZeroNonce <==>
      h == NewHeader(h.prevHash, h.merkleRoot, h.version, h.difficulty, h.height, h.timestamp)
    ensures forall prevHash, merkleRoot, version, difficulty, height, timestamp ::
      h == NewHeader(prevHash, merkleRoot, version, difficulty, height, timestamp) ==>
        && prevHash == h.prevHash && merkleRoot == h.merkleRoot
        && version == h.version && difficulty == h.difficulty
        && height == h.height && timestamp == h.timestamp
  {
  }

  /** The message hashed for the `i`-th pair of a level: the two entries
      concatenated, or a trailing odd entry concatenated with itself. */
  function PairMessage(xs: seq<string>, i: nat): string
    requires 2 * i < |xs|
  {
    if 2 * i + 1 < |xs| then xs[2 * i] + xs[2 * i + 1] else xs[2 * i] + xs[2 * i]
  }

  /** One level of the tree: the entries taken two at a time in order, each
      pair hashed and turned back into a string. */
  function NextLevel(p: Primitives, xs: seq<string>): (r: seq<string>)
    ensures |r| == (|xs| + 1) / 2
    ensures forall i :: 0 <= i < |r| ==> r[i] == p.utf8Lossy(p.sha256(PairMessage(xs, i)))
    decreases |xs|
  {
    if |xs| == 0 then []
    else if |xs| == 1 then [p.utf8Lossy(p.sha256(xs[0] + xs[0]))]
    else
      var rest := NextLevel(p, xs[2..]);
      assert forall i :: 1 <= i < |rest| + 1 ==> PairMessage(xs[2..], i - 1) == PairMessage(xs, i);
      [p.utf8Lossy(p.sha256(xs[0] + xs[1]))] + rest
  }

  /** `rec_merkle_root`: exact cases for zero, one and two entries; longer
      lists are reduced level by level. */
  function MerkleRoot(p: Primitives, xs: seq<string>): (r: Digest)
    ensures |xs| == 0 ==> r == p.sha256("0000")
    ensures |xs| == 1 ==> r == p.sha256(xs[0] + xs[0])
    decreases |xs|
  {
    if |xs| == 0 then p.sha256("0000")
    else if |xs| == 1 then p.sha256(xs[0] + xs[0])
    else if |xs| == 2 then p.sha256(xs[0] + xs[1])
    else MerkleRoot(p, NextLevel(p, xs))
  }

  /** The levels `rec_merkle_root` walks through, from its argument to the
      list it finally hashes without recursing. */
  function Levels(p: Primitives, xs: seq<string>): (ls: seq<seq<string>>)
    ensures |ls| >= 1 && ls[0] == xs
    decreases |xs|
  {
    if |xs| <= 2 then [xs] else [xs] + Levels(p, NextLevel(p, xs))
  }

  /** Every level has at least two entries, each has fewer than the one
      before, and the last has exactly two. */
  predicate Shrinking(ls: seq<seq<string>>)
  {
    && |ls| >= 1
    && (forall k :: 0 <= k < |ls| ==> |ls[k]| >= 2)
    && (forall k :: 0 <= k < |ls| - 1 ==> |ls[k + 1]| < |ls[k]|)
    && |ls[|ls| - 1]| == 2
  }

  /** Lemma: a longer level in front of a shrinking list keeps it shrinking. */
  lemma ShrinkingCons(xs: seq<string>, ls: seq<seq<string>>)
    requires Shrinking(ls) && |xs| > |ls[0]|
    ensures Shrinking([xs] + ls)
  {
    var r := [xs] + ls;
    forall k | 0 <= k < |r| - 1
      ensures |r[k + 1]| < |r[k]|
    {
      if k > 0 {
        assert r[k] == ls[k - 1];
      }
    }
  }

  /** Lemma: the levels from two or more entries are shrinking. */
  lemma {:induction false} LevelsShrinking(p: Primitives, xs: seq<string>)
    requires |xs| >= 2
    ensures Shrinking(Levels(p, xs))
    decreases |xs|
  {
    if |xs| > 2 {
      var next := NextLevel(p, xs);
      LevelsShrinking(p, next);
      ShrinkingCons(xs, Levels(p, next));
    }
  }

  /** The list `rec_merkle_root` finally hashes without recursing. */
  function LastLevel(p: Primitives, xs: seq<string>): (last: seq<string>)
    ensures |xs| >= 2 ==> |last| == 2
    decreases |xs|
  {
    if |xs| <= 2 then xs else LastLevel(p, NextLevel(p, xs))
  }

  /** Lemma: the last of the levels is the list finally hashed. */
  lemma {:induction false} LevelsEndInLast(p: Primitives, xs: seq<string>)
    ensures Levels(p, xs)[|Levels(p, xs)| - 1] == LastLevel(p, xs)
    decreases |xs|
  {
    if |xs| > 2 {
      var next := NextLevel(p, xs);
      LevelsEndInLast(p, next);
      var ls := Levels(p, next);
      assert Levels(p, xs) == [xs] + ls;
    }
  }

  /** Lemma: from two or more entries the root is the hash of the two
      entries of the list finally hashed. */
  lemma {:induction false} RootOfLastLevel(p: Primitives, xs: seq<string>)
    requires |xs| >= 2
    ensures MerkleRoot(p, xs) == p.sha256(LastLevel(p, xs)[0] + LastLevel(p, xs)[1])
    decreases |xs|
  {
    if |xs| > 2 {
      RootOfLastLevel(p, NextLevel(p, xs));
    }
  }

  /** Lemma: started on two or more entries, every level has at least two
      entries and strictly fewer than the one before, so the recursion never
      re-enters the one-entry case; the last level has exactly two entries and
      the root is the hash of their concatenation. */
  lemma LevelsNeverSingle(p: Primitives, xs: seq<string>)
    requires |xs| >= 2
    ensures var ls := Levels(p, xs);
      && (forall k :: 0 <= k < |ls| ==> |ls[k]| >= 2)
      && (forall k :: 0 <= k < |ls| - 1 ==> |ls[k + 1]| < |ls[k]|)
      && |ls[|ls| - 1]| == 2
      && MerkleRoot(p, xs) == p.sha256(ls[|ls| - 1][0] + ls[|ls| - 1][1])
  {
    LevelsShrinking(p, xs);
    LevelsEndInLast(p, xs);
    RootOfLastLevel(p, xs);
  }

  /** Lemma: the three base cases of `rec_merkle_root` and the reduction step. */
  lemma MerkleRootCases(p: Primitives, xs: seq<string>)
    ensures |xs| == 0 ==> MerkleRoot(p, xs) == p.sha256("0000")
    ensures |xs| == 1 ==> MerkleRoot(p, xs) == p.sha256(xs[0] + xs[0])
    ensures |xs| == 2 ==> MerkleRoot(p, xs) == p.sha256(xs[0] + xs[1])
    ensures |xs| >= 3 ==>
      && 2 <= |NextLevel(p, xs)| < |xs|
      && MerkleRoot(p, xs) == MerkleRoot(p, NextLevel(p, xs))
  {
  }

  /** The loop of `rec_merkle_root` over `chunks(2)`, filling `stack`. */
  method HashPairs(p: Primitives, xs: seq<string>) returns (stack: seq<string>)
    ensures |stack| == (|xs| + 1) / 2
    ensures forall i :: 0 <= i < |stack| ==> stack[i] == p.utf8Lossy(p.sha256(PairMessage(xs, i)))
  {
    stack := [];
    var k := 0;
    while k < |xs|
      invariant 0 <= k <= |xs| + 1
      invariant k % 2 == 0
      invariant |stack| == k / 2
      invariant k < |xs| ==> k <= |xs| - 1
      invariant k > |xs| ==> k == |xs| + 1
      invariant forall i :: 0 <= i < |stack| ==> stack[i] == p.utf8Lossy(p.sha256(PairMessage(xs, i)))
    {
      var message: string;
      if k + 1 < |xs| {
        message := xs[k] + xs[k + 1];
      } else {
        message := xs[k] + xs[k];
      }
      stack := stack + [p.utf8Lossy(p.sha256(message))];
      k := k + 2;
    }
  }

  /** `rec_merkle_root` as the source writes it, a loop inside a recursion. */
  method RecMerkleRoot(p: Primitives, xs: seq<string>) returns (r: Digest)
    ensures r == MerkleRoot(p, xs)
    decreases |xs|
  {
    if |xs| == 0 {
      r := p.sha256("0000");
    } else if |xs| == 1 {
      r := p.sha256(xs[0] + xs[0]);
    } else if |xs| == 2 {
      r := p.sha256(xs[0] + xs[1]);
    } else {
      var stack := HashPairs(p, xs);
      assert stack == NextLevel(p, xs);
      r := RecMerkleRoot(p, stack);
    }
  }

  /** The serialisations of the transactions, in order. */
  function Serialized(p: Primitives, txs: seq<Transaction>): (ss: seq<string>)
    ensures |ss| == |txs|
    ensures forall i :: 0 <= i < |txs| ==> ss[i] == p.txString(txs[i])
  {
    seq(|txs|, i requires 0 <= i < |txs| => p.txString(txs[i]))
  }

  /** `Block::get_merkle_root`. */
  function GetMerkleRoot(p: Primitives, txs: seq<Transaction>): (r: Digest)
    ensures |txs| == 0 ==> r == p.sha256("0000")
    ensures |txs| == 1 ==> r == p.sha256(p.txString(txs[0]) + p.txString(txs[0]))
    ensures |txs| == 2 ==> r == p.sha256(p.txString(txs[0]) + p.txString(txs[1]))
  {
    MerkleRoot(p, Serialized(p, txs))
  }

  /** What `Block::new` guarantees about a block and what mining keeps: the
      count field is the number of transactions and the header commits to
      them through the Merkle root. */
  predicate WellFormed(p: Primitives, b: Block)
  {
    && b.transactionCount == |b.transactions|
    && b.header.merkleRoot == GetMerkleRoot(p, b.transactions)
  }

  /** `Block::new`; the clock reading is a parameter. */
  function NewBlock(p: Primitives, txs: seq<Transaction>, prevHash: Digest, difficulty: nat,
                    version: nat, height: nat, timestamp: nat): (b: Block)
    ensures WellFormed(p, b)
    ensures b.transactions == txs
    ensures b.header.prevHash == prevHash && b.header.difficulty == difficulty
    ensures b.header.version == version && b.header.height == height
    ensures b.header.nonce == ZeroNonce && b.header.timestamp == timestamp
  {
    Block(NewHeader(prevHash, GetMerkleRoot(p, txs), version, difficulty, height, timestamp),
          txs, |txs|)
  }

  /** `Block::update_nonce`: the nonce is the only thing that changes. */
  function UpdateNonce(b: Block, nonce: Nonce): (r: Block)
    ensures r.header.nonce == nonce
    ensures r.header.(nonce := b.header.nonce) == b.header
    ensures r.transactions == b.transactions && r.transactionCount == b.transactionCount
  {
    b.(header := b.header.(nonce := nonce))
  }

  /** Lemma: changing the nonce keeps a block well formed (mining only ever
      changes the nonce). */
  lemma UpdateNonceKeepsWellFormed(p: Primitives, b: Block, nonce: Nonce)
    requires WellFormed(p, b)
    ensures WellFormed(p, UpdateNonce(b, nonce))
  {
  }

  /** `n` copies of `c`, as `"0".repeat(n)`. */
  function Repeat(c: char, n: nat): (r: string)
    ensures |r| == n
    ensures forall i :: 0 <= i < n ==> r[i] == c
  {
    if n == 0 then "" else [c] + Repeat(c, n - 1)
  }

  /** `Block::meets_difficulty`: the hash text starts with `target` zeros. */
  predicate MeetsDifficulty(hash: string, target: nat)
  {
    Repeat('0', target) <= hash
  }

  /** Lemma: meeting a target means exactly that the first `target`
      characters exist and are all '0'. */
  lemma MeetsDifficultyIff(hash: string, target: nat)
    ensures MeetsDifficulty(hash, target) <==>
      target <= |hash| && forall i :: 0 <= i < target ==> hash[i] == '0'
  {
    var z := Repeat('0', target);
    if target <= |hash| && forall i :: 0 <= i < target ==> hash[i] == '0' {
      assert z == hash[..target];
    }
  }

  /** Lemma: a zero target is always met, and meeting a target means
      meeting every smaller one. */
  lemma MeetsDifficultyMonotone(hash: string, target: nat, smaller: nat)
    requires smaller <= target
    ensures MeetsDifficulty(hash, 0)
    ensures MeetsDifficulty(hash, target) ==> MeetsDifficulty(hash, smaller)
  {
    MeetsDifficultyIff(hash, target);
    MeetsDifficultyIff(hash, smaller);
    MeetsDifficultyIff(hash, 0);
  }

  /** `Block::calculate_hash`: SHA-256 of the block's JSON text. */
  function CalculateHash(p: Primitives, b: Block): (d: Digest)
    ensures forall c :: p.blockString(c) == p.blockString(b) ==> d == p.sha256(p.blockString(c))
  {
    p.sha256(p.blockString(b))
  }

  /** The test a mining thread applies after each nonce: the lossy text of
      the block hash meets the header's difficulty. */
  predicate IsMined(p: Primitives, b: Block)
    ensures IsMined(p, b) <==>
      var h := p.utf8Lossy(CalculateHash(p, b));
      b.header.difficulty <= |h| && forall i :: 0 <= i < b.header.difficulty ==> h[i] == '0'
  {
    MeetsDifficultyIff(p.utf8Lossy(CalculateHash(p, b)), b.header.difficulty);
    MeetsDifficulty(p.utf8Lossy(CalculateHash(p, b)), b.header.difficulty)
  }

  /** Lemma: at difficulty zero every nonce mines the block, and a block
      mined at some difficulty would also be mined at any lower one if its
      hash text stayed the same. */
  lemma IsMinedMonotone(p: Primitives, b: Block, c: Block)
    requires p.utf8Lossy(CalculateHash(p, b)) == p.utf8Lossy(CalculateHash(p, c))
    requires c.header.difficulty <= b.header.difficulty
    ensures b.header.difficulty == 0 ==> IsMined(p, b)
    ensures IsMined(p, b) ==> IsMined(p, c)
  {
  }

}
