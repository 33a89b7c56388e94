/** Re-checking a whole chain from genesis and naming the first fault. */
module Validation {
  import opened Prelude
  import opened Encoding
  import opened Crypto
  import opened Ledger
  import opened Blocks

  // The rules in the order they are applied to a block. NegativeTarget is the
  // panic of strings.Repeat, which comes just before the difficulty test.
  datatype Rule =
    | GenesisRule
    | HeightRule
    | TimestampRule
    | LinkRule
    | MerkleRootRule
    | HashRule
    | NegativeTarget
    | DifficultyRule
    | LedgerRule

  function Rank(r: Rule): nat {
    match r
    case GenesisRule => 0
    case HeightRule => 1
    case TimestampRule => 2
    case LinkRule => 3
    case MerkleRootRule => 4
    case HashRule => 5
    case NegativeTarget => 6
    case DifficultyRule => 7
    case LedgerRule => 8
  }

  // The balances implied by the blocks, recomputed from nothing.
  function ReplayChain(cr: Suite, blocks: seq<Block>): Option<Balances> {
    if blocks == [] then Some(map[])
    else
      var m :- ReplayChain(cr, blocks[..|blocks| - 1]);
      match Replay(cr, m, blocks[|blocks| - 1].transactions)
      case Applied(m') => Some(m')
      case Failed(_, _) => None
  }

  // What each rule demands of block i, on its own.
  ghost predicate Holds(cr: Suite, blocks: seq<Block>, i: nat, rule: Rule)
    requires i < |blocks|
  {
    var b := blocks[i];
    match rule
    case GenesisRule => i == 0 ==> b.hash == Genesis(cr).hash && b.prevHash == GENESIS_PREV_HASH
    case HeightRule => i > 0 ==> b.height == WrapUint64(blocks[i - 1].height + 1)
    case TimestampRule => i > 0 ==> b.timestamp >= blocks[i - 1].timestamp
    case LinkRule => i > 0 ==> b.prevHash == blocks[i - 1].hash
    case MerkleRootRule => HasValidMerkleRoot(cr, b)
    case HashRule => HasValidHash(cr, b)
    case NegativeTarget => b.difficulty >= 0
    case DifficultyRule => b.difficulty >= 0 ==> MeetsDifficulty(b.hash, b.difficulty)
    case LedgerRule => ReplayChain(cr, blocks[..i + 1]).Some?
  }

  // Block i keeps every rule ranked below n.
  ghost predicate Passes(cr: Suite, blocks: seq<Block>, i: nat, n: nat)
    requires i < |blocks|
  {
    forall rule :: Rank(rule) < n ==> Holds(cr, blocks, i, rule)
  }

  const ALL_RULES := 9

  ghost predicate BlockValid(cr: Suite, blocks: seq<Block>, i: nat)
    requires i < |blocks|
  {
    Passes(cr, blocks, i, ALL_RULES)
  }

  ghost predicate ValidUpTo(cr: Suite, blocks: seq<Block>, n: nat)
    requires n <= |blocks|
  {
    forall i :: 0 <= i < n ==> BlockValid(cr, blocks, i)
  }

  ghost predicate ValidChain(cr: Suite, blocks: seq<Block>) {
    blocks != [] && ValidUpTo(cr, blocks, |blocks|)
  }

  // Block i breaks the rule, and nothing is broken before it.
  ghost predicate FirstFault(cr: Suite, blocks: seq<Block>, i: nat, rule: Rule) {
    && i < |blocks|
    && !Holds(cr, blocks, i, rule)
    && Passes(cr, blocks, i, Rank(rule))
    && ValidUpTo(cr, blocks, i)
  }

  datatype ValidationError = ValidationError(height: uint64, hash: Bytes, check: Rule)

  datatype Verdict = Accepted | Rejected(error: ValidationError) | Panics

  // What is returned for a block that breaks a rule.
  function Fail(b: Block, check: Rule): Verdict {
    if check == NegativeTarget then Panics else Rejected(ValidationError(b.height, b.hash, check))
  }

  ghost predicate Reports(cr: Suite, blocks: seq<Block>, v: Verdict) {
    if blocks == [] then v == Rejected(ValidationError(0, [], GenesisRule))
    else
      || (v == Accepted && ValidChain(cr, blocks))
      || (exists i: nat, rule :: FirstFault(cr, blocks, i, rule) && v == Fail(blocks[i], rule))
  }

  lemma ReplayChainNext(cr: Suite, blocks: seq<Block>, i: nat)
    requires i < |blocks| && ReplayChain(cr, blocks[..i]).Some?
    ensures
      var r := Replay(cr, ReplayChain(cr, blocks[..i]).value, blocks[i].transactions);
      && ReplayChain(cr, blocks[..i + 1]) == (if r.Applied? then Some(r.balances) else None)
      && (Holds(cr, blocks, i, LedgerRule) <==> r.Applied?)
  {
    assert blocks[..i + 1][..i] == blocks[..i];
  }

  lemma PassOne(cr: Suite, blocks: seq<Block>, i: nat, rule: Rule)
    requires i < |blocks| && Passes(cr, blocks, i, Rank(rule)) && Holds(cr, blocks, i, rule)
    ensures Passes(cr, blocks, i, Rank(rule) + 1)
  {
    forall r | Rank(r) < Rank(rule) + 1 ensures Holds(cr, blocks, i, r) {
      assert Rank(r) == Rank(rule) ==> r == rule;
    }
  }

  // Rules 1 to 3, which compare a block with its predecessor.
  lemma LinkedPasses(cr: Suite, blocks: seq<Block>, i: nat)
    requires i < |blocks| && Holds(cr, blocks, i, GenesisRule) && Holds(cr, blocks, i, HeightRule)
    requires Holds(cr, blocks, i, TimestampRule) && Holds(cr, blocks, i, LinkRule)
    ensures Passes(cr, blocks, i, Rank(MerkleRootRule))
  {
  }

  lemma FaultReported(cr: Suite, blocks: seq<Block>, i: nat, rule: Rule)
    requires FirstFault(cr, blocks, i, rule)
    ensures Reports(cr, blocks, Fail(blocks[i], rule))
  {
  }

  lemma ValidNext(cr: Suite, blocks: seq<Block>, i: nat)
    requires i < |blocks| && ValidUpTo(cr, blocks, i)
    requires Passes(cr, blocks, i, Rank(LedgerRule)) && Holds(cr, blocks, i, LedgerRule)
    ensures ValidUpTo(cr, blocks, i + 1)
  {
    PassOne(cr, blocks, i, LedgerRule);
  }

  method Validate(cr: Suite, blocks: seq<Block>) returns (v: Verdict)
    ensures Reports(cr, blocks, v)
  {
    if |blocks| == 0 {
      return Rejected(ValidationError(0, [], GenesisRule));
    }
    if blocks[0].hash != Genesis(cr).hash || blocks[0].prevHash != GENESIS_PREV_HASH {
      FaultReported(cr, blocks, 0, GenesisRule);
      return Fail(blocks[0], GenesisRule);
    }
    var state := new State();
    for i := 0 to |blocks|
      invariant ReplayChain(cr, blocks[..i]) == Some(state.balances)
      invariant ValidUpTo(cr, blocks, i)
      invariant Holds(cr, blocks, 0, GenesisRule)
    {
      var rule := CheckLinks(cr, blocks, i);
      if rule.Some? {
        FaultReported(cr, blocks, i, rule.value);
        return Fail(blocks[i], rule.value);
      }
      rule := CheckProof(cr, blocks, i);
      if rule.Some? {
        FaultReported(cr, blocks, i, rule.value);
        return Fail(blocks[i], rule.value);
      }
      ReplayChainNext(cr, blocks, i);
      var r := state.ApplyAll(cr, blocks[i].transactions);
      if r.Failed? {
        FaultReported(cr, blocks, i, LedgerRule);
        return Fail(blocks[i], LedgerRule);
      }
      ValidNext(cr, blocks, i);
    }
    return Accepted;
  }

  // The comparisons with the previous block.
  method CheckLinks(cr: Suite, blocks: seq<Block>, i: nat) returns (broken: Option<Rule>)
    requires i < |blocks| && Holds(cr, blocks, i, GenesisRule)
    ensures broken.None? ==> Passes(cr, blocks, i, Rank(MerkleRootRule))
    ensures broken.Some? ==>
      && broken.value in {HeightRule, TimestampRule, LinkRule}
      && !Holds(cr, blocks, i, broken.value) && Passes(cr, blocks, i, Rank(broken.value))
  {
    PassOne(cr, blocks, i, GenesisRule);
    if i > 0 {
      var b, prev := blocks[i], blocks[i - 1];
      if b.height != WrapUint64(prev.height + 1) {
        return Some(HeightRule);
      }
      PassOne(cr, blocks, i, HeightRule);
      if b.timestamp < prev.timestamp {
        return Some(TimestampRule);
      }
      PassOne(cr, blocks, i, TimestampRule);
      if b.prevHash != prev.hash {
        return Some(LinkRule);
      }
    }
    LinkedPasses(cr, blocks, i);
    return None;
  }

  // The commitments of the block itself.
  method CheckProof(cr: Suite, blocks: seq<Block>, i: nat) returns (broken: Option<Rule>)
    requires i < |blocks| && Passes(cr, blocks, i, Rank(MerkleRootRule))
    ensures broken.None? ==> Passes(cr, blocks, i, Rank(LedgerRule))
    ensures broken.Some? ==>
      && broken.value in {MerkleRootRule, HashRule, NegativeTarget, DifficultyRule}
      && !Holds(cr, blocks, i, broken.value) && Passes(cr, blocks, i, Rank(broken.value))
  {
    var b := blocks[i];
    if !HasValidMerkleRoot(cr, b) {
      return Some(MerkleRootRule);
    }
    PassOne(cr, blocks, i, MerkleRootRule);
    if !HasValidHash(cr, b) {
      return Some(HashRule);
    }
    PassOne(cr, blocks, i, HashRule);
    if b.difficulty < 0 {
      return Some(NegativeTarget);
    }
    PassOne(cr, blocks, i, NegativeTarget);
    if !MeetsDifficulty(b.hash, b.difficulty) {
      return Some(DifficultyRule);
    }
    PassOne(cr, blocks, i, DifficultyRule);
    return None;
  }

  lemma OneFirstFault(cr: Suite, blocks: seq<Block>, i: nat, r: Rule, j: nat, q: Rule)
    requires FirstFault(cr, blocks, i, r) && FirstFault(cr, blocks, j, q)
    ensures i == j && r == q
  {
    FaultBreaksBlock(cr, blocks, i, r);
    FaultBreaksBlock(cr, blocks, j, q);
  }

  lemma FaultBreaksBlock(cr: Suite, blocks: seq<Block>, i: nat, rule: Rule)
    requires FirstFault(cr, blocks, i, rule)
    ensures !BlockValid(cr, blocks, i) && !ValidChain(cr, blocks)
  {
  }

  // Every chain has exactly one verdict, so Validate accepts the valid chains
  // and no others, and what it reports is determined by the rules alone.
  lemma OneVerdict(cr: Suite, blocks: seq<Block>, v: Verdict, w: Verdict)
    requires Reports(cr, blocks, v) && Reports(cr, blocks, w)
    ensures v == w
    ensures v == Accepted <==> ValidChain(cr, blocks)
  {
    if blocks != [] {
      forall i: nat, r | FirstFault(cr, blocks, i, r) ensures !ValidChain(cr, blocks) {
        FaultBreaksBlock(cr, blocks, i, r);
      }
      forall i: nat, r, j: nat, q | FirstFault(cr, blocks, i, r) && FirstFault(cr, blocks, j, q)
        ensures i == j && r == q
      {
        OneFirstFault(cr, blocks, i, r, j, q);
      }
    }
  }

  // A rule at block j looks at nothing after block j.
  lemma HoldsOnPrefix(cr: Suite, blocks: seq<Block>, other: seq<Block>, n: nat, j: nat, rule: Rule)
    requires j < n <= |blocks| && n <= |other| && blocks[..n] == other[..n]
    ensures Holds(cr, blocks, j, rule) == Holds(cr, other, j, rule)
  {
    assert blocks[..n][j] == other[..n][j];
    if j > 0 {
      assert blocks[..n][j - 1] == other[..n][j - 1];
    }
    assert blocks[..j + 1] == blocks[..n][..j + 1] == other[..j + 1];
  }

  lemma BlockValidOnPrefix(cr: Suite, blocks: seq<Block>, other: seq<Block>, n: nat)
    requires n <= |blocks| && n <= |other| && blocks[..n] == other[..n]
    ensures forall j :: 0 <= j < n ==> BlockValid(cr, blocks, j) == BlockValid(cr, other, j)
  {
    forall j, rule | 0 <= j < n ensures Holds(cr, blocks, j, rule) == Holds(cr, other, j, rule) {
      HoldsOnPrefix(cr, blocks, other, n, j, rule);
    }
  }

  // What follows the first faulty block cannot change the report, and the blocks
  // before it form a valid chain of their own.
  lemma FaultIsLocal(cr: Suite, blocks: seq<Block>, i: nat, rule: Rule, other: seq<Block>)
    requires FirstFault(cr, blocks, i, rule)
    requires |other| > i && other[..i + 1] == blocks[..i + 1]
    ensures FirstFault(cr, other, i, rule)
    ensures i > 0 ==> ValidChain(cr, blocks[..i])
  {
    BlockValidOnPrefix(cr, blocks, other, i + 1);
    forall r ensures Holds(cr, blocks, i, r) == Holds(cr, other, i, r) {
      HoldsOnPrefix(cr, blocks, other, i + 1, i, r);
    }
    BlockValidOnPrefix(cr, blocks, blocks[..i], i);
  }

  // Every non-empty prefix of a valid chain is valid.
  lemma ValidPrefix(cr: Suite, blocks: seq<Block>, n: nat)
    requires ValidChain(cr, blocks) && 0 < n <= |blocks|
    ensures ValidChain(cr, blocks[..n])
  {
    BlockValidOnPrefix(cr, blocks, blocks[..n], n);
  }

  lemma ValidReplays(cr: Suite, blocks: seq<Block>)
    requires ValidChain(cr, blocks)
    ensures ReplayChain(cr, blocks).Some?
  {
    assert BlockValid(cr, blocks, |blocks| - 1);
    assert Holds(cr, blocks, |blocks| - 1, LedgerRule);
    assert blocks[..|blocks|] == blocks;
  }

  // A chain with one more block is valid exactly when the old one is and the new
  // block passes every rule.
  lemma ValidExtension(cr: Suite, blocks: seq<Block>, b: Block)
    requires blocks != []
    ensures ValidChain(cr, blocks + [b]) <==> ValidChain(cr, blocks) && BlockValid(cr, blocks + [b], |blocks|)
  {
    assert (blocks + [b])[..|blocks|] == blocks == blocks[..|blocks|];
    BlockValidOnPrefix(cr, blocks, blocks + [b], |blocks|);
  }
}
