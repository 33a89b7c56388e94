/** Tamper evidence: the hash of the newest block commits to the whole history.

    "Or a collision" always means two different byte strings, each hashed while
    validating one of the two chains, with the same digest.
 */
module Tamper {
  import opened Prelude
  import opened Encoding
  import opened Crypto
  import opened Transactions
  import opened Ledger
  import opened Blocks
  import opened Validation
  import Codec
  import Merkle

  ghost function InputsAt(cr: Suite, blocks: seq<Block>, i: nat): set<Bytes> {
    BlockInputs(cr, if i < |blocks| then blocks[i] else Genesis(cr))
  }

  // Everything Validate hashes: every block, and the canonical genesis block.
  ghost function ChainInputs(cr: Suite, blocks: seq<Block>): set<Bytes> {
    set i, x | 0 <= i <= |blocks| && x in InputsAt(cr, blocks, i) :: x
  }

  lemma BlockInputsInChain(cr: Suite, blocks: seq<Block>, i: nat)
    requires i < |blocks|
    ensures BlockInputs(cr, blocks[i]) <= ChainInputs(cr, blocks)
    ensures HashPreimage(blocks[i].Fields()) in ChainInputs(cr, blocks)
  {
    assert HashPreimage(blocks[i].Fields()) in BlockInputs(cr, blocks[i]);
    forall x | x in BlockInputs(cr, blocks[i]) ensures x in ChainInputs(cr, blocks) {
      assert x in InputsAt(cr, blocks, i);
    }
  }

  lemma GenesisIsHashed(cr: Suite, blocks: seq<Block>)
    ensures HashPreimage(Genesis(cr).Fields()) in ChainInputs(cr, blocks)
  {
    assert HashPreimage(Genesis(cr).Fields()) in InputsAt(cr, blocks, |blocks|);
  }

  lemma HexHasNoSeparator(s: Bytes)
    requires forall i :: 0 <= i < |s| ==> IsLowerHex(s[i])
    ensures PIPE !in s
  {
  }

  // The condition under which a preimage can be read back holds in every
  // validated block.
  lemma ValidFieldsHaveNoSeparator(cr: Suite, blocks: seq<Block>, i: nat)
    requires ValidChain(cr, blocks) && i < |blocks|
    ensures PIPE !in blocks[i].prevHash && PIPE !in blocks[i].merkleRoot
  {
    assert BlockValid(cr, blocks, i);
    assert Holds(cr, blocks, i, MerkleRootRule);
    HexHasNoSeparator(Merkle.Root(cr, blocks[i].transactions));
    if i == 0 {
      assert Holds(cr, blocks, 0, GenesisRule);
    } else {
      assert BlockValid(cr, blocks, i - 1);
      assert Holds(cr, blocks, i, LinkRule) && Holds(cr, blocks, i - 1, HashRule);
      HexHasNoSeparator(ComputeHash(cr, blocks[i - 1]));
    }
  }

  lemma GenesisHasNoSeparator(cr: Suite)
    ensures PIPE !in Genesis(cr).prevHash && PIPE !in Genesis(cr).merkleRoot
  {
  }

  // Equal hashes mean equal header fields, or the two preimages collide.
  lemma HashBindsFields(cr: Suite, x: Block, y: Block, xs: set<Bytes>, ys: set<Bytes>)
    requires ComputeHash(cr, x) == ComputeHash(cr, y)
    requires PIPE !in x.prevHash && PIPE !in x.merkleRoot && PIPE !in y.prevHash && PIPE !in y.merkleRoot
    requires HashPreimage(x.Fields()) in xs && HashPreimage(y.Fields()) in ys
    ensures x.Fields() == y.Fields() || Collide(cr, xs, ys)
  {
    var p, q := HashPreimage(x.Fields()), HashPreimage(y.Fields());
    HexInjective(Sha256(cr, p), Sha256(cr, q));
    EqualDigests(cr, p, q, xs, ys);
    if p == q {
      Codec.PreimageInjective(x.Fields(), y.Fields());
    }
  }

  // ---------------------------------------------------------------- genesis

  // Block 0 is compared with the canonical genesis in two fields only, but that
  // pins all of them.
  lemma GenesisPinned(cr: Suite, blocks: seq<Block>, ys: set<Bytes>)
    requires ValidChain(cr, blocks) && HashPreimage(Genesis(cr).Fields()) in ys
    ensures blocks[0].Fields() == Genesis(cr).Fields() || Collide(cr, ChainInputs(cr, blocks), ys)
    ensures blocks[0].Fields() == Genesis(cr).Fields() || Collide(cr, ys, ChainInputs(cr, blocks))
  {
    assert BlockValid(cr, blocks, 0);
    assert Holds(cr, blocks, 0, GenesisRule) && Holds(cr, blocks, 0, HashRule);
    ValidFieldsHaveNoSeparator(cr, blocks, 0);
    GenesisHasNoSeparator(cr);
    BlockInputsInChain(cr, blocks, 0);
    assert ComputeHash(cr, Genesis(cr)) == Genesis(cr).hash;
    HashBindsFields(cr, blocks[0], Genesis(cr), ChainInputs(cr, blocks), ys);
    HashBindsFields(cr, Genesis(cr), blocks[0], ys, ChainInputs(cr, blocks));
  }

  lemma {:induction false} RootIsHashed(cr: Suite, level: seq<Digest>)
    requires |level| > 1
    ensures exists x :: x in Merkle.LoopInputs(cr, level) && Sha256(cr, x) == Merkle.Fold(cr, level)
    decreases |level|
  {
    var next := Merkle.NextLevel(cr, level);
    if |level| == 2 {
      assert Merkle.PairBytes(level, 0) in Merkle.LevelInputs(level);
      assert Merkle.Fold(cr, level) == next[0];
      assert Merkle.PairBytes(level, 0) in Merkle.LoopInputs(cr, level);
    } else {
      RootIsHashed(cr, next);
    }
  }

  ghost predicate HashesToZeros(cr: Suite, xs: set<Bytes>) {
    exists x :: x in xs && Hex(Sha256(cr, x)) == Zeros(64)
  }

  // Only the empty list has the empty root, unless an input hashed on the way
  // gives all zeros.
  lemma EmptyRootMeansEmpty(cr: Suite, txs: seq<Transaction>)
    requires Merkle.Root(cr, txs) == Merkle.EMPTY_MERKLE_ROOT
    ensures txs == [] || HashesToZeros(cr, Merkle.RootInputs(cr, txs))
  {
    if txs != [] {
      var level := Merkle.Leaves(cr, txs);
      if |level| == 1 {
        var x := CanonicalBytes(txs[0]);
        assert x in Merkle.RootInputs(cr, txs) && Sha256(cr, x) == Merkle.Fold(cr, level);
      } else {
        RootIsHashed(cr, level);
        var x :| x in Merkle.LoopInputs(cr, level) && Sha256(cr, x) == Merkle.Fold(cr, level);
        assert x in Merkle.RootInputs(cr, txs);
      }
    }
  }

  lemma {:induction false} HeightIsPosition(cr: Suite, blocks: seq<Block>, i: nat)
    requires ValidChain(cr, blocks) && i < |blocks|
    requires blocks[0].height == 0
    ensures blocks[i].height == WrapUint64(i)
  {
    if i > 0 {
      HeightIsPosition(cr, blocks, i - 1);
      assert BlockValid(cr, blocks, i);
      assert Holds(cr, blocks, i, HeightRule);
      WrapUint64Add(i - 1, 1);
    }
  }

  // A validated chain starts with the canonical genesis block, empty, and counts
  // its heights from zero; otherwise a digest collision or an all-zero digest
  // has been found.
  lemma GenesisTheorem(cr: Suite, blocks: seq<Block>)
    requires ValidChain(cr, blocks)
    ensures
      || Collide(cr, ChainInputs(cr, blocks), {HashPreimage(Genesis(cr).Fields())})
      || HashesToZeros(cr, ChainInputs(cr, blocks))
      || (&& blocks[0] == Genesis(cr)
          && (forall i :: 0 <= i < |blocks| ==> blocks[i].height == i % TWO_64)
          && blocks[0].timestamp == 1767225600 && blocks[0].transactions == []
          && blocks[0].prevHash == blocks[0].merkleRoot == Zeros(64)
          && blocks[0].difficulty == 0 && blocks[0].nonce == 0)
  {
    GenesisPinned(cr, blocks, {HashPreimage(Genesis(cr).Fields())});
    if blocks[0].Fields() == Genesis(cr).Fields() {
      assert BlockValid(cr, blocks, 0);
      assert Holds(cr, blocks, 0, MerkleRootRule) && Holds(cr, blocks, 0, GenesisRule);
      EmptyRootMeansEmpty(cr, blocks[0].transactions);
      BlockInputsInChain(cr, blocks, 0);
      forall i | 0 <= i < |blocks| ensures blocks[i].height == WrapUint64(i) {
        HeightIsPosition(cr, blocks, i);
      }
      if blocks[0].transactions != [] {
        var x :| x in Merkle.RootInputs(cr, blocks[0].transactions) && Hex(Sha256(cr, x)) == Zeros(64);
        assert x in ChainInputs(cr, blocks);
      }
    }
  }

  // ----------------------------------------------------------- transactions

  lemma ValidTransactions(cr: Suite, blocks: seq<Block>, i: nat)
    requires ValidChain(cr, blocks) && i < |blocks|
    ensures forall t :: t in blocks[i].transactions ==> Transactions.Validate(cr, t).None?
  {
    assert BlockValid(cr, blocks, i);
    assert Holds(cr, blocks, i, LedgerRule);
    assert blocks[..i + 1][..i] == blocks[..i];
    AppliedAreValid(cr, ReplayChain(cr, blocks[..i]).value, blocks[i].transactions);
  }

  // Equal leaf digests mean equal transactions, or two encodings collide.
  lemma LeavesBindTransactions(cr: Suite, a: seq<Transaction>, b: seq<Transaction>, xs: set<Bytes>, ys: set<Bytes>)
    requires Merkle.Leaves(cr, a) == Merkle.Leaves(cr, b)
    requires forall t :: t in a ==> CanonicalBytes(t) in xs && Transactions.Validate(cr, t).None?
    requires forall t :: t in b ==> CanonicalBytes(t) in ys && Transactions.Validate(cr, t).None?
    ensures a == b || Collide(cr, xs, ys)
  {
    assert |Merkle.Leaves(cr, a)| == |a| && |Merkle.Leaves(cr, b)| == |b|;
    if !Collide(cr, xs, ys) {
      forall i | 0 <= i < |a| ensures a[i] == b[i] {
        assert Merkle.Leaves(cr, a)[i] == Merkle.Leaves(cr, b)[i];
        EqualDigests(cr, CanonicalBytes(a[i]), CanonicalBytes(b[i]), xs, ys);
        ValidPubKeyHasNoSeparator(cr, a[i]);
        ValidPubKeyHasNoSeparator(cr, b[i]);
        Codec.CanonicalInjective(a[i], b[i]);
      }
    }
  }

  // A 64-byte encoding is that of a coinbase: the signature of a transfer alone
  // is longer.
  lemma TransfersAreLong(cr: Suite, t: Transaction)
    requires Transactions.Validate(cr, t).None? && |CanonicalBytes(t)| == 64
    ensures t.IsCoinbase()
  {
  }

  // The encoding of the first transaction is one of the pairs hashed for another
  // list.
  ghost predicate FirstIsPair(cr: Suite, a: seq<Transaction>, b: seq<Transaction>)
    requires a != []
  {
    a[0].IsCoinbase() && CanonicalBytes(a[0]) in Merkle.LoopInputs(cr, Merkle.Leaves(cr, b))
  }

  ghost predicate Shallower(a: seq<Transaction>, b: seq<Transaction>) {
    a != [] && b != [] && Merkle.Depth(|a|) < Merkle.Depth(|b|)
  }

  // What equal Merkle roots say about two transaction lists: the same list when
  // they are equally long, the same expanded leaves when their trees are equally
  // deep, and otherwise a coinbase posing as a pair or an all-zero digest.
  ghost predicate SamePayload(cr: Suite, a: seq<Transaction>, b: seq<Transaction>) {
    && (|a| == |b| ==> a == b)
    && (a != [] && b != [] && Merkle.Depth(|a|) == Merkle.Depth(|b|) ==>
          Merkle.Expand(Merkle.Leaves(cr, a)) == Merkle.Expand(Merkle.Leaves(cr, b)))
    && (Shallower(a, b) ==> FirstIsPair(cr, a, b))
    && (Shallower(b, a) ==> FirstIsPair(cr, b, a))
    && (a == [] ==> b == [] || HashesToZeros(cr, Merkle.RootInputs(cr, b)))
    && (b == [] ==> a == [] || HashesToZeros(cr, Merkle.RootInputs(cr, a)))
  }

  // Equal roots at different depths.
  lemma ShallowerBinding(cr: Suite, a: seq<Transaction>, b: seq<Transaction>, xs: set<Bytes>, ys: set<Bytes>)
    requires Shallower(a, b) && Merkle.Root(cr, a) == Merkle.Root(cr, b)
    requires Transactions.Validate(cr, a[0]).None?
    requires Merkle.RootInputs(cr, a) <= xs && Merkle.RootInputs(cr, b) <= ys
    ensures FirstIsPair(cr, a, b) || Collide(cr, xs, ys)
  {
    var p, q := Merkle.Leaves(cr, a), Merkle.Leaves(cr, b);
    HexInjective(Merkle.Fold(cr, p), Merkle.Fold(cr, q));
    Merkle.RootBindsDepth(cr, p, q);
    CollideGrows(cr, Merkle.LoopInputs(cr, p), Merkle.LoopInputs(cr, q), xs, ys);
    if !Collide(cr, xs, ys) {
      var pair :| pair in Merkle.LoopInputs(cr, q) && |pair| == 64 && Sha256(cr, pair) == p[0];
      assert CanonicalBytes(a[0]) in Merkle.RootInputs(cr, a);
      EqualDigests(cr, CanonicalBytes(a[0]), pair, xs, ys);
      TransfersAreLong(cr, a[0]);
    }
  }

  // Equal roots of lists whose trees are equally deep.
  lemma EqualDepthBinding(cr: Suite, a: seq<Transaction>, b: seq<Transaction>, xs: set<Bytes>, ys: set<Bytes>)
    requires a != [] && b != [] && Merkle.Depth(|a|) == Merkle.Depth(|b|) && Merkle.Root(cr, a) == Merkle.Root(cr, b)
    requires forall t :: t in a || t in b ==> Transactions.Validate(cr, t).None?
    requires Merkle.RootInputs(cr, a) <= xs && Merkle.RootInputs(cr, b) <= ys
    ensures SamePayload(cr, a, b) || Collide(cr, xs, ys)
  {
    var p, q := Merkle.Leaves(cr, a), Merkle.Leaves(cr, b);
    HexInjective(Merkle.Fold(cr, p), Merkle.Fold(cr, q));
    Merkle.RootBindsExpansion(cr, p, q);
    CollideGrows(cr, Merkle.LoopInputs(cr, p), Merkle.LoopInputs(cr, q), xs, ys);
    if |p| == |q| {
      Merkle.RootBindsLeaves(cr, p, q);
      if p == q {
        LeavesBindTransactions(cr, a, b, xs, ys);
      }
    }
  }

  lemma RootBindsPayload(cr: Suite, a: seq<Transaction>, b: seq<Transaction>, xs: set<Bytes>, ys: set<Bytes>)
    requires Merkle.Root(cr, a) == Merkle.Root(cr, b)
    requires forall t :: t in a || t in b ==> Transactions.Validate(cr, t).None?
    requires Merkle.RootInputs(cr, a) <= xs && Merkle.RootInputs(cr, b) <= ys
    ensures SamePayload(cr, a, b) || Collide(cr, xs, ys)
  {
    if a == [] {
      EmptyRootMeansEmpty(cr, b);
    } else if b == [] {
      EmptyRootMeansEmpty(cr, a);
    } else if Shallower(a, b) {
      ShallowerBinding(cr, a, b, xs, ys);
    } else if Shallower(b, a) {
      ShallowerBinding(cr, b, a, ys, xs);
      CollideSymmetric(cr, ys, xs);
    } else {
      EqualDepthBinding(cr, a, b, xs, ys);
    }
  }

  // ------------------------------------------------------------ whole chains

  ghost predicate SameBlock(cr: Suite, a: Block, b: Block) {
    a.Fields() == b.Fields() && a.hash == b.hash && SamePayload(cr, a.transactions, b.transactions)
  }

  ghost predicate SameHistory(cr: Suite, a: seq<Block>, b: seq<Block>) {
    |a| == |b| && forall i :: 0 <= i < |a| ==> SameBlock(cr, a[i], b[i])
  }

  // Two validated blocks with the same hash.
  lemma HeadersAgree(cr: Suite, a: seq<Block>, b: seq<Block>, i: nat, j: nat)
    requires ValidChain(cr, a) && ValidChain(cr, b) && i < |a| && j < |b|
    requires a[i].hash == b[j].hash
    ensures a[i].Fields() == b[j].Fields() || Collide(cr, ChainInputs(cr, a), ChainInputs(cr, b))
  {
    assert BlockValid(cr, a, i) && BlockValid(cr, b, j);
    assert Holds(cr, a, i, HashRule) && Holds(cr, b, j, HashRule);
    ValidFieldsHaveNoSeparator(cr, a, i);
    ValidFieldsHaveNoSeparator(cr, b, j);
    BlockInputsInChain(cr, a, i);
    BlockInputsInChain(cr, b, j);
    HashBindsFields(cr, a[i], b[j], ChainInputs(cr, a), ChainInputs(cr, b));
  }

  lemma BlocksAgree(cr: Suite, a: seq<Block>, b: seq<Block>, i: nat, j: nat)
    requires ValidChain(cr, a) && ValidChain(cr, b) && i < |a| && j < |b|
    requires a[i].hash == b[j].hash
    ensures SameBlock(cr, a[i], b[j]) || Collide(cr, ChainInputs(cr, a), ChainInputs(cr, b))
  {
    HeadersAgree(cr, a, b, i, j);
    if a[i].Fields() == b[j].Fields() {
      assert BlockValid(cr, a, i) && BlockValid(cr, b, j);
      assert Holds(cr, a, i, MerkleRootRule) && Holds(cr, b, j, MerkleRootRule);
      ValidTransactions(cr, a, i);
      ValidTransactions(cr, b, j);
      BlockInputsInChain(cr, a, i);
      BlockInputsInChain(cr, b, j);
      assert a[i].merkleRoot == a[i].Fields().merkleRoot;
      RootBindsPayload(cr, a[i].transactions, b[j].transactions, ChainInputs(cr, a), ChainInputs(cr, b));
    }
  }

  lemma LinkedBack(cr: Suite, blocks: seq<Block>, i: nat)
    requires ValidChain(cr, blocks) && 0 < i < |blocks|
    ensures blocks[i].Fields().prevHash == blocks[i - 1].hash
  {
    assert BlockValid(cr, blocks, i);
    assert Holds(cr, blocks, i, LinkRule);
  }

  // Agreement travels from the tip down the links.
  lemma {:induction false} AgreeAt(cr: Suite, a: seq<Block>, b: seq<Block>, i: nat)
    requires ValidChain(cr, a) && ValidChain(cr, b) && i < |a| == |b|
    requires a[|a| - 1].hash == b[|b| - 1].hash
    ensures SameBlock(cr, a[i], b[i]) || Collide(cr, ChainInputs(cr, a), ChainInputs(cr, b))
    decreases |a| - i
  {
    if i < |a| - 1 {
      AgreeAt(cr, a, b, i + 1);
      LinkedBack(cr, a, i + 1);
      LinkedBack(cr, b, i + 1);
    }
    if a[i].hash == b[i].hash {
      BlocksAgree(cr, a, b, i, i);
    }
  }

  // Heights count from the pinned genesis. Go slices are shorter than 2^63, so
  // they do not wrap.
  lemma TipHeight(cr: Suite, blocks: seq<Block>, others: seq<Block>)
    requires ValidChain(cr, blocks) && |blocks| <= MAX_INT64
    ensures blocks[|blocks| - 1].Fields().height == |blocks| - 1
         || Collide(cr, ChainInputs(cr, blocks), ChainInputs(cr, others))
    ensures blocks[|blocks| - 1].Fields().height == |blocks| - 1
         || Collide(cr, ChainInputs(cr, others), ChainInputs(cr, blocks))
  {
    GenesisIsHashed(cr, others);
    GenesisPinned(cr, blocks, ChainInputs(cr, others));
    if blocks[0].Fields() == Genesis(cr).Fields() {
      assert blocks[0].Fields().height == 0;
      HeightIsPosition(cr, blocks, |blocks| - 1);
    }
  }

  lemma EqualTipsEqualLengths(cr: Suite, a: seq<Block>, b: seq<Block>)
    requires ValidChain(cr, a) && ValidChain(cr, b)
    requires |a| <= MAX_INT64 && |b| <= MAX_INT64
    requires a[|a| - 1].hash == b[|b| - 1].hash
    ensures |a| == |b| || Collide(cr, ChainInputs(cr, a), ChainInputs(cr, b))
  {
    TipHeight(cr, a, b);
    TipHeight(cr, b, a);
    HeadersAgree(cr, a, b, |a| - 1, |b| - 1);
  }

  // Tamper evidence: equal tip hashes mean the same history, or a collision.
  lemma TamperEvidence(cr: Suite, a: seq<Block>, b: seq<Block>)
    requires ValidChain(cr, a) && ValidChain(cr, b)
    requires |a| <= MAX_INT64 && |b| <= MAX_INT64
    requires a[|a| - 1].hash == b[|b| - 1].hash
    ensures SameHistory(cr, a, b) || Collide(cr, ChainInputs(cr, a), ChainInputs(cr, b))
  {
    EqualTipsEqualLengths(cr, a, b);
    if |a| == |b| && !SameHistory(cr, a, b) {
      var i :| 0 <= i < |a| && !SameBlock(cr, a[i], b[i]);
      AgreeAt(cr, a, b, i);
    }
  }

  // Every block hash, not just the tip's, commits to all that came before it.
  lemma BlockEvidence(cr: Suite, a: seq<Block>, b: seq<Block>, i: nat, j: nat)
    requires ValidChain(cr, a) && ValidChain(cr, b)
    requires i < |a| <= MAX_INT64 && j < |b| <= MAX_INT64
    requires a[i].hash == b[j].hash
    ensures SameHistory(cr, a[..i + 1], b[..j + 1])
         || Collide(cr, ChainInputs(cr, a[..i + 1]), ChainInputs(cr, b[..j + 1]))
  {
    ValidPrefix(cr, a, i + 1);
    ValidPrefix(cr, b, j + 1);
    TamperEvidence(cr, a[..i + 1], b[..j + 1]);
  }

  // Same tip and same number of transactions everywhere: the same chain, and so
  // the same balances.
  lemma EqualTipsEqualChains(cr: Suite, a: seq<Block>, b: seq<Block>)
    requires ValidChain(cr, a) && ValidChain(cr, b)
    requires |a| <= MAX_INT64 && |b| <= MAX_INT64
    requires a[|a| - 1].hash == b[|b| - 1].hash
    requires forall i :: 0 <= i < |a| && i < |b| ==> |a[i].transactions| == |b[i].transactions|
    ensures a == b || Collide(cr, ChainInputs(cr, a), ChainInputs(cr, b))
  {
    TamperEvidence(cr, a, b);
    if SameHistory(cr, a, b) {
      forall i | 0 <= i < |a| ensures a[i] == b[i] {
        assert SameBlock(cr, a[i], b[i]);
        FieldsAndRest(a[i], b[i]);
      }
    }
  }

  lemma FieldsAndRest(a: Block, b: Block)
    requires a.Fields() == b.Fields() && a.hash == b.hash && a.transactions == b.transactions
    ensures a == b
  {
  }
}
