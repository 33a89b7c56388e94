/** What Validate accepts and what it reports, said without its list of rules:
    links between neighbours, commitments, proof of work read as a number, and one
    replay of the whole history.
 */
module Rules {
  import opened Prelude
  import opened Encoding
  import opened Crypto
  import opened Ledger
  import opened Blocks
  import opened Validation
  import opened ChainAccounting
  import opened Difficulty
  import Merkle

  // b may stand behind the blocks of `before`.
  ghost predicate Placed(cr: Suite, before: seq<Block>, b: Block) {
    if before == [] then
      b.hash == Genesis(cr).hash && b.prevHash == Zeros(64)
    else
      var prev := before[|before| - 1];
      b.height == (prev.height + 1) % TWO_64 && b.timestamp >= prev.timestamp && b.prevHash == prev.hash
  }

  // The root commits to the transactions and the hash to the header.
  ghost predicate Committed(cr: Suite, b: Block) {
    b.merkleRoot == Merkle.Root(cr, b.transactions) && b.hash == Hex(Sha256(cr, HashPreimage(b.Fields())))
  }

  // Everything asked of b but that its transactions can be applied.
  ghost predicate Sound(cr: Suite, before: seq<Block>, b: Block) {
    Placed(cr, before, b) && Committed(cr, b) && HasWork(b.hash, b.difficulty)
  }

  lemma PlacedPasses(cr: Suite, blocks: seq<Block>, i: nat)
    requires i < |blocks| && Placed(cr, blocks[..i], blocks[i])
    ensures Passes(cr, blocks, i, Rank(MerkleRootRule))
  {
    assert i > 0 ==> blocks[..i][i - 1] == blocks[i - 1];
    LinkedPasses(cr, blocks, i);
  }

  lemma PassesPlaced(cr: Suite, blocks: seq<Block>, i: nat)
    requires i < |blocks| && BlockValid(cr, blocks, i)
    ensures Placed(cr, blocks[..i], blocks[i])
  {
    assert Holds(cr, blocks, i, GenesisRule) && Holds(cr, blocks, i, HeightRule);
    assert Holds(cr, blocks, i, TimestampRule) && Holds(cr, blocks, i, LinkRule);
    assert i > 0 ==> blocks[..i][i - 1] == blocks[i - 1];
  }

  lemma WorkMeans(cr: Suite, blocks: seq<Block>, i: nat)
    requires i < |blocks| && blocks[i].difficulty >= 0 && HasValidHash(cr, blocks[i])
    ensures Holds(cr, blocks, i, DifficultyRule) <==> HasWork(blocks[i].hash, blocks[i].difficulty)
  {
    WorkExact(blocks[i].hash, blocks[i].difficulty);
  }

  lemma SoundPasses(cr: Suite, blocks: seq<Block>, i: nat)
    requires i < |blocks| && Sound(cr, blocks[..i], blocks[i])
    ensures Passes(cr, blocks, i, Rank(LedgerRule))
  {
    PlacedPasses(cr, blocks, i);
    WorkMeans(cr, blocks, i);
    PassOne(cr, blocks, i, MerkleRootRule);
    PassOne(cr, blocks, i, HashRule);
    PassOne(cr, blocks, i, NegativeTarget);
    PassOne(cr, blocks, i, DifficultyRule);
  }

  lemma ValidIsSound(cr: Suite, blocks: seq<Block>, i: nat)
    requires i < |blocks| && BlockValid(cr, blocks, i)
    ensures Sound(cr, blocks[..i], blocks[i])
  {
    assert Holds(cr, blocks, i, MerkleRootRule) && Holds(cr, blocks, i, HashRule);
    assert Holds(cr, blocks, i, NegativeTarget) && Holds(cr, blocks, i, DifficultyRule);
    PassesPlaced(cr, blocks, i);
    WorkMeans(cr, blocks, i);
  }

  lemma {:induction false} ReplaysBefore(cr: Suite, blocks: seq<Block>, n: nat)
    requires n <= |blocks| && ReplayChain(cr, blocks).Some?
    ensures ReplayChain(cr, blocks[..n]).Some?
  {
    if n < |blocks| {
      ReplaysBefore(cr, blocks[..|blocks| - 1], n);
      assert blocks[..|blocks| - 1][..n] == blocks[..n];
    } else {
      assert blocks[..n] == blocks;
    }
  }

  lemma {:induction false} SoundIsValid(cr: Suite, blocks: seq<Block>, n: nat)
    requires n <= |blocks| && ReplayChain(cr, blocks).Some?
    requires forall i :: 0 <= i < |blocks| ==> Sound(cr, blocks[..i], blocks[i])
    ensures ValidUpTo(cr, blocks, n)
  {
    if n > 0 {
      SoundIsValid(cr, blocks, n - 1);
      ReplaysBefore(cr, blocks, n);
      SoundPasses(cr, blocks, n - 1);
      ValidNext(cr, blocks, n - 1);
    }
  }

  // Validate accepts exactly the chains that start from genesis, whose blocks
  // follow one another, commit to what they hold and carry their proof of work,
  // and whose transactions, taken together, can be applied from nothing.
  lemma AcceptedExactly(cr: Suite, blocks: seq<Block>)
    ensures ValidChain(cr, blocks) <==>
      && blocks != []
      && (forall i :: 0 <= i < |blocks| ==> Sound(cr, blocks[..i], blocks[i]))
      && Replay(cr, map[], History(blocks)).Applied?
  {
    ReplayFlattens(cr, blocks);
    if ValidChain(cr, blocks) {
      ValidReplays(cr, blocks);
      forall i | 0 <= i < |blocks| ensures Sound(cr, blocks[..i], blocks[i]) {
        assert BlockValid(cr, blocks, i);
        ValidIsSound(cr, blocks, i);
      }
    } else if ReplayChain(cr, blocks).Some? && forall i :: 0 <= i < |blocks| ==> Sound(cr, blocks[..i], blocks[i]) {
      SoundIsValid(cr, blocks, |blocks|);
    }
  }

  // No block is accepted without proof of work.
  lemma AcceptedHasWork(cr: Suite, blocks: seq<Block>, i: nat)
    requires ValidChain(cr, blocks) && i < |blocks|
    ensures
      var b := blocks[i];
      && 0 <= b.difficulty <= 64 && |b.hash| == 64 && IsHexText(b.hash)
      && HexValue(b.hash) < Pow16(64 - b.difficulty)
  {
    AcceptedExactly(cr, blocks);
    assert Sound(cr, blocks[..i], blocks[i]);
  }

  // ------------------------------------------------- what is reported, exactly

  // v names block b and the rule.
  ghost predicate Blames(v: Verdict, b: Block, rule: Rule) {
    v == Rejected(ValidationError(b.height, b.hash, rule))
  }

  lemma FirstFaultReported(cr: Suite, blocks: seq<Block>, i: nat, rule: Rule, v: Verdict)
    requires FirstFault(cr, blocks, i, rule) && Reports(cr, blocks, v)
    ensures if rule == NegativeTarget then v == Panics else Blames(v, blocks[i], rule)
  {
    FaultReported(cr, blocks, i, rule);
    OneVerdict(cr, blocks, v, Fail(blocks[i], rule));
  }

  // The verdict when the blocks before i are valid and block i is not where it
  // should be, whatever comes after it.
  lemma MisplacedVerdict(cr: Suite, blocks: seq<Block>, i: nat, v: Verdict)
    requires i < |blocks| && ValidUpTo(cr, blocks, i) && Reports(cr, blocks, v)
    ensures i == 0 && (blocks[0].hash != Genesis(cr).hash || blocks[0].prevHash != Zeros(64)) ==>
      Blames(v, blocks[0], GenesisRule)
    ensures i > 0 ==>
      var b, prev := blocks[i], blocks[i - 1];
      if b.height != (prev.height + 1) % TWO_64 then Blames(v, b, HeightRule)
      else if b.timestamp < prev.timestamp then Blames(v, b, TimestampRule)
      else b.prevHash != prev.hash ==> Blames(v, b, LinkRule)
  {
    assert Passes(cr, blocks, i, Rank(GenesisRule));
    if !Holds(cr, blocks, i, GenesisRule) {
      FirstFaultReported(cr, blocks, i, GenesisRule, v);
    } else {
      PassOne(cr, blocks, i, GenesisRule);
      if !Holds(cr, blocks, i, HeightRule) {
        FirstFaultReported(cr, blocks, i, HeightRule, v);
      } else {
        PassOne(cr, blocks, i, HeightRule);
        if !Holds(cr, blocks, i, TimestampRule) {
          FirstFaultReported(cr, blocks, i, TimestampRule, v);
        } else {
          PassOne(cr, blocks, i, TimestampRule);
          if !Holds(cr, blocks, i, LinkRule) {
            FirstFaultReported(cr, blocks, i, LinkRule, v);
          }
        }
      }
    }
  }

  // The verdict when block i is where it should be, but does not commit to what
  // it holds.
  lemma UncommittedVerdict(cr: Suite, blocks: seq<Block>, i: nat, v: Verdict)
    requires i < |blocks| && ValidUpTo(cr, blocks, i) && Reports(cr, blocks, v)
    requires Placed(cr, blocks[..i], blocks[i])
    ensures
      var b := blocks[i];
      if b.merkleRoot != Merkle.Root(cr, b.transactions) then Blames(v, b, MerkleRootRule)
      else b.hash != Hex(Sha256(cr, HashPreimage(b.Fields()))) ==> Blames(v, b, HashRule)
  {
    PlacedPasses(cr, blocks, i);
    if !Holds(cr, blocks, i, MerkleRootRule) {
      FirstFaultReported(cr, blocks, i, MerkleRootRule, v);
    } else if !Holds(cr, blocks, i, HashRule) {
      PassOne(cr, blocks, i, MerkleRootRule);
      FirstFaultReported(cr, blocks, i, HashRule, v);
    }
  }

  // The verdict when block i is in its place and commits to what it holds: a
  // negative target panics, a hash that is too large is refused.
  lemma WorkVerdict(cr: Suite, blocks: seq<Block>, i: nat, v: Verdict)
    requires i < |blocks| && ValidUpTo(cr, blocks, i) && Reports(cr, blocks, v)
    requires Placed(cr, blocks[..i], blocks[i]) && Committed(cr, blocks[i])
    ensures
      var b := blocks[i];
      && IsHexText(b.hash)
      && if b.difficulty < 0 then v == Panics
         else b.difficulty > 64 || HexValue(b.hash) >= Pow16(64 - b.difficulty) ==> Blames(v, b, DifficultyRule)
  {
    PlacedPasses(cr, blocks, i);
    PassOne(cr, blocks, i, MerkleRootRule);
    PassOne(cr, blocks, i, HashRule);
    if !Holds(cr, blocks, i, NegativeTarget) {
      FirstFaultReported(cr, blocks, i, NegativeTarget, v);
    } else {
      WorkMeans(cr, blocks, i);
      if !Holds(cr, blocks, i, DifficultyRule) {
        PassOne(cr, blocks, i, NegativeTarget);
        FirstFaultReported(cr, blocks, i, DifficultyRule, v);
      }
    }
  }

  // The verdict when only the ledger is left to ask.
  lemma LedgerVerdict(cr: Suite, blocks: seq<Block>, i: nat, v: Verdict)
    requires i < |blocks| && ValidUpTo(cr, blocks, i) && Reports(cr, blocks, v)
    requires Sound(cr, blocks[..i], blocks[i])
    ensures if Replay(cr, map[], History(blocks[..i + 1])).Failed? then Blames(v, blocks[i], LedgerRule)
            else ValidUpTo(cr, blocks, i + 1)
  {
    SoundPasses(cr, blocks, i);
    ReplayFlattens(cr, blocks[..i + 1]);
    if Holds(cr, blocks, i, LedgerRule) {
      ValidNext(cr, blocks, i);
    } else {
      FirstFaultReported(cr, blocks, i, LedgerRule, v);
    }
  }
}
