/** Whole runs of the chain: any sequence of submissions, faucet calls and mining
    attempts, each with any clock readings and any outcome the miner may give.
 */
module Runs {
  import opened Prelude
  import opened Encoding
  import opened Crypto
  import opened Transactions
  import opened Ledger
  import opened Pool
  import opened Blocks
  import opened Miner
  import opened MinerProofs
  import opened Validation
  import opened Chains
  import opened Difficulty
  import Merkle

  datatype Event =
    | Submit(tx: Transaction)
    | Mint(to: Bytes, amount: int64, at: int64)
    | Attempt(rewardAt: int64, blockAt: int64, numCPU: int64, report: MineReport, callerCancelled: bool)

  // The state after an event, as the methods of Chain leave it.
  function After(cr: Suite, cfg: Config, v: Snapshot, e: Event): Snapshot
    requires cfg.Valid()
  {
    match e
    case Submit(tx) => v.(pending := Offer(cr, v.balances, v.pending, tx))
    case Mint(to, amount, at) => v.(pending := Offer(cr, v.balances, v.pending, NewCoinbase(to, amount, at)))
    case Attempt(_, _, _, report, _) => if report.Mined? then Appended(cr, cfg, v, report.block) else v
  }

  ghost predicate Possible(cr: Suite, cfg: Config, v: Snapshot, e: Event)
    requires cfg.Valid() && v.blocks != []
  {
    e.Attempt? ==> Explains(cr, cfg, v, e.rewardAt, e.blockAt, e.numCPU, e.report, e.callerCancelled)
  }

  ghost predicate IsRun(cr: Suite, cfg: Config, v: Snapshot, es: seq<Event>, u: Snapshot)
    requires cfg.Valid() && v.blocks != []
    decreases |es|
  {
    if es == [] then v == u
    else Possible(cr, cfg, v, es[0]) && IsRun(cr, cfg, After(cr, cfg, v, es[0]), es[1..], u)
  }

  function Fresh(cr: Suite): Snapshot {
    Snapshot([Genesis(cr)], map[], [])
  }

  // ------------------------------------------- cached balances are replayed ones

  ghost predicate Consistent(cr: Suite, v: Snapshot) {
    v.blocks != [] && ReplayChain(cr, v.blocks) == Some(v.balances)
  }

  ghost predicate IsMined(cr: Suite, cfg: Config, v: Snapshot, e: Event)
    requires cfg.Valid() && v.blocks != []
  {
    e.Attempt? && e.report.Mined? && Possible(cr, cfg, v, e)
  }

  // A mined block is the template with a nonce that meets the target.
  lemma MinedIsFilled(cr: Suite, cfg: Config, v: Snapshot, e: Event)
    requires cfg.Valid() && v.blocks != [] && IsMined(cr, cfg, v, e)
    ensures
      var b, body := e.report.block, Body(cfg, v.pending, e.rewardAt);
      var c := Template(cr, cfg, v.Tip(), body, e.blockAt);
      && b == Filled(cr, c, b.nonce) && Solves(cr, c, b.nonce)
      && b.transactions == body && Replay(cr, v.balances, body).Applied?
  {
    var c := Template(cr, cfg, v.Tip(), Body(cfg, v.pending, e.rewardAt), e.blockAt);
    ResultJustified(cr, c, if e.numCPU < 1 then 1 else e.numCPU,
                    Found(e.report.block, e.report.hashes), e.callerCancelled);
  }

  // Every field of a mined block, and its proof of work at the configured
  // difficulty read as a number.
  lemma MinedBlockMeans(cr: Suite, cfg: Config, v: Snapshot, e: Event)
    requires cfg.Valid() && v.blocks != [] && IsMined(cr, cfg, v, e)
    ensures
      var b, tip := e.report.block, v.blocks[|v.blocks| - 1];
      && b.height == (tip.height + 1) % TWO_64 && b.prevHash == tip.hash && b.timestamp == e.blockAt
      && b.transactions == Body(cfg, v.pending, e.rewardAt)
      && b.merkleRoot == Merkle.Root(cr, b.transactions)
      && b.hash == Hex(Sha256(cr, HashPreimage(b.Fields())))
      && b.difficulty == cfg.difficulty && HasWork(b.hash, cfg.difficulty)
  {
    MinedIsFilled(cr, cfg, v, e);
    FilledMeans(cr, cfg, v.Tip(), Body(cfg, v.pending, e.rewardAt), e.blockAt, e.report.block.nonce);
  }

  lemma FilledMeans(cr: Suite, cfg: Config, tip: Block, body: seq<Transaction>, at: int64, n: uint64)
    requires cfg.Valid() && Solves(cr, Template(cr, cfg, tip, body, at), n)
    ensures
      var b := Filled(cr, Template(cr, cfg, tip, body, at), n);
      && b.height == (tip.height + 1) % TWO_64 && b.prevHash == tip.hash && b.timestamp == at
      && b.transactions == body && b.merkleRoot == Merkle.Root(cr, body)
      && b.hash == Hex(Sha256(cr, HashPreimage(b.Fields())))
      && b.difficulty == cfg.difficulty && HasWork(b.hash, cfg.difficulty)
  {
    var b := Filled(cr, Template(cr, cfg, tip, body, at), n);
    assert b.Fields() == b.(hash := []).Fields();
    WorkExact(b.hash, cfg.difficulty);
  }

  // The count reported with a block is that of the hashes all workers computed.
  lemma MinedCountExact(cr: Suite, cfg: Config, v: Snapshot, e: Event) returns (acts: seq<Action>, t: Search)
    requires cfg.Valid() && v.blocks != [] && IsMined(cr, cfg, v, e)
    ensures
      var c := Template(cr, cfg, v.Tip(), Body(cfg, v.pending, e.rewardAt), e.blockAt);
      var stride := if e.numCPU < 1 then 1 else e.numCPU;
      && CompleteRun(cr, c, stride, acts, t)
      && e.report.hashes == WrapUint64(Total(TicksPerWorker(cr, c, Start(c, stride), acts, t)))
  {
    var c := Template(cr, cfg, v.Tip(), Body(cfg, v.pending, e.rewardAt), e.blockAt);
    var stride := if e.numCPU < 1 then 1 else e.numCPU;
    acts, t :| CompleteRun(cr, c, stride, acts, t) && Found(e.report.block, e.report.hashes) == Collect(t);
    CountIsExact(cr, c, stride, acts, t);
  }

  ghost predicate MinedWhen(cr: Suite, cfg: Config, v: Snapshot, rewardAt: int64, blockAt: int64, e: Event)
    requires cfg.Valid() && v.blocks != []
  {
    IsMined(cr, cfg, v, e) && e.rewardAt == rewardAt && e.blockAt == blockAt
  }

  ghost predicate Solvable(cr: Suite, c: Block)
    requires c.difficulty >= 0
  {
    exists n: uint64 :: Solves(cr, c, n)
  }

  lemma SolvedIsMined(cr: Suite, cfg: Config, v: Snapshot, rewardAt: int64, blockAt: int64) returns (e: Event)
    requires cfg.Valid() && v.blocks != [] && CanMine(cr, cfg, v, rewardAt)
    requires Solvable(cr, Template(cr, cfg, v.Tip(), Body(cfg, v.pending, rewardAt), blockAt))
    ensures MinedWhen(cr, cfg, v, rewardAt, blockAt, e)
  {
    var c := Template(cr, cfg, v.Tip(), Body(cfg, v.pending, rewardAt), blockAt);
    InvStart(cr, c, 1);
    var acts, t := CompletesFrom(cr, c, Start(c, 1));
    EveryScheduleJustified(cr, c, 1, acts, t);
    assert CompleteRun(cr, c, 1, acts, t);
    e := Attempt(rewardAt, blockAt, 1, Reported(Collect(t)), false);
  }

  // At given clock readings an attempt can succeed exactly when the check before
  // mining passes and some nonce solves the template.
  lemma AttemptCanSucceed(cr: Suite, cfg: Config, v: Snapshot, rewardAt: int64, blockAt: int64)
    requires cfg.Valid() && v.blocks != []
    ensures (exists e :: MinedWhen(cr, cfg, v, rewardAt, blockAt, e)) <==>
      && CanMine(cr, cfg, v, rewardAt)
      && Solvable(cr, Template(cr, cfg, v.Tip(), Body(cfg, v.pending, rewardAt), blockAt))
  {
    forall e | MinedWhen(cr, cfg, v, rewardAt, blockAt, e)
      ensures Solvable(cr, Template(cr, cfg, v.Tip(), Body(cfg, v.pending, rewardAt), blockAt))
    {
      MinedIsFilled(cr, cfg, v, e);
    }
    if CanMine(cr, cfg, v, rewardAt)
       && Solvable(cr, Template(cr, cfg, v.Tip(), Body(cfg, v.pending, rewardAt), blockAt)) {
      var e := SolvedIsMined(cr, cfg, v, rewardAt, blockAt);
    }
  }

  lemma ReplayChainSnoc(cr: Suite, blocks: seq<Block>, b: Block)
    requires ReplayChain(cr, blocks).Some?
    ensures
      var r := Replay(cr, ReplayChain(cr, blocks).value, b.transactions);
      ReplayChain(cr, blocks + [b]) == if r.Applied? then Some(r.balances) else None
  {
    assert (blocks + [b])[..|blocks|] == blocks;
  }

  lemma ConsistentAfter(cr: Suite, cfg: Config, v: Snapshot, e: Event)
    requires cfg.Valid() && Consistent(cr, v) && Possible(cr, cfg, v, e)
    ensures Consistent(cr, After(cr, cfg, v, e))
  {
    if IsMined(cr, cfg, v, e) {
      MinedIsFilled(cr, cfg, v, e);
      ReplayChainSnoc(cr, v.blocks, e.report.block);
    }
  }

  // On every run the balances kept from block to block are the ones obtained by
  // replaying all blocks from genesis, whatever the clock does.
  lemma {:induction false} CachedIsReplayed(cr: Suite, cfg: Config, v: Snapshot, es: seq<Event>, u: Snapshot)
    requires cfg.Valid() && Consistent(cr, v) && IsRun(cr, cfg, v, es, u)
    ensures Consistent(cr, u)
    decreases |es|
  {
    if es != [] {
      ConsistentAfter(cr, cfg, v, es[0]);
      CachedIsReplayed(cr, cfg, After(cr, cfg, v, es[0]), es[1..], u);
    }
  }

  // ---------------------------------------------------------- runs stay valid

  // Every rule that does not involve the ledger or the clock.
  ghost predicate Sealed(cr: Suite, tip: Block, b: Block) {
    && b.height == WrapUint64(tip.height + 1)
    && b.prevHash == tip.hash
    && HasValidMerkleRoot(cr, b) && HasValidHash(cr, b)
    && b.difficulty >= 0 && MeetsDifficulty(b.hash, b.difficulty)
  }

  lemma FilledIsSealed(cr: Suite, cfg: Config, tip: Block, body: seq<Transaction>, at: int64, n: uint64)
    requires cfg.Valid() && Solves(cr, Template(cr, cfg, tip, body, at), n)
    ensures Sealed(cr, tip, Filled(cr, Template(cr, cfg, tip, body, at), n))
  {
    var c := Template(cr, cfg, tip, body, at);
    assert Filled(cr, c, n).Fields() == c.(nonce := n).Fields();
  }

  lemma SealedBlockValid(cr: Suite, blocks: seq<Block>, b: Block)
    requires blocks != [] && Sealed(cr, blocks[|blocks| - 1], b)
    requires ReplayChain(cr, blocks + [b]).Some?
    ensures BlockValid(cr, blocks + [b], |blocks|) <==> b.timestamp >= blocks[|blocks| - 1].timestamp
  {
    var n, longer := |blocks|, blocks + [b];
    assert longer[n - 1] == blocks[n - 1] && longer[n] == b;
    assert longer[..n + 1] == longer;
    assert Holds(cr, longer, n, TimestampRule) <==> b.timestamp >= blocks[n - 1].timestamp;
    if b.timestamp >= blocks[n - 1].timestamp {
      forall rule ensures Holds(cr, longer, n, rule) {
      }
    }
  }

  lemma MinedIsSealed(cr: Suite, cfg: Config, v: Snapshot, e: Event)
    requires cfg.Valid() && Consistent(cr, v) && IsMined(cr, cfg, v, e)
    ensures Sealed(cr, v.Tip(), e.report.block) && e.report.block.timestamp == e.blockAt
    ensures ReplayChain(cr, v.blocks + [e.report.block]).Some?
  {
    MinedIsFilled(cr, cfg, v, e);
    FilledIsSealed(cr, cfg, v.Tip(), Body(cfg, v.pending, e.rewardAt), e.blockAt, e.report.block.nonce);
    ReplayChainSnoc(cr, v.blocks, e.report.block);
  }

  // Appending a mined block to a valid chain gives a valid chain exactly when the
  // clock has not run behind the tip: Mine never looks, Validate does.
  lemma MinedBlockValid(cr: Suite, cfg: Config, v: Snapshot, e: Event)
    requires cfg.Valid() && Consistent(cr, v) && ValidChain(cr, v.blocks) && IsMined(cr, cfg, v, e)
    ensures ValidChain(cr, After(cr, cfg, v, e).blocks) <==> e.blockAt >= v.Tip().timestamp
  {
    MinedIsSealed(cr, cfg, v, e);
    SealedBlockValid(cr, v.blocks, e.report.block);
    ValidExtension(cr, v.blocks, e.report.block);
  }

  lemma InvalidStaysInvalid(cr: Suite, blocks: seq<Block>, longer: seq<Block>)
    requires blocks != [] && blocks <= longer && !ValidChain(cr, blocks)
    ensures !ValidChain(cr, longer)
  {
    assert longer[..|blocks|] == blocks;
    if ValidChain(cr, longer) {
      ValidPrefix(cr, longer, |blocks|);
    }
  }

  // Each successful mine of the run read a clock no older than the tip it saw.
  ghost predicate ClockNeverBehind(cr: Suite, cfg: Config, v: Snapshot, es: seq<Event>)
    requires cfg.Valid() && v.blocks != []
    decreases |es|
  {
    es == [] || (
      && (es[0].Attempt? && es[0].report.Mined? ==> es[0].blockAt >= v.Tip().timestamp)
      && ClockNeverBehind(cr, cfg, After(cr, cfg, v, es[0]), es[1..])
    )
  }

  lemma {:induction false} BlocksOnlyGrow(cr: Suite, cfg: Config, v: Snapshot, es: seq<Event>, u: Snapshot)
    requires cfg.Valid() && v.blocks != [] && IsRun(cr, cfg, v, es, u)
    ensures v.blocks <= u.blocks
    decreases |es|
  {
    if es != [] {
      BlocksOnlyGrow(cr, cfg, After(cr, cfg, v, es[0]), es[1..], u);
    }
  }

  // A run from a valid chain ends in a chain that Validate accepts if and only
  // if the clock was never behind the tip when a block was mined.
  lemma {:induction false} RunValid(cr: Suite, cfg: Config, v: Snapshot, es: seq<Event>, u: Snapshot)
    requires cfg.Valid() && Consistent(cr, v) && ValidChain(cr, v.blocks) && IsRun(cr, cfg, v, es, u)
    ensures ValidChain(cr, u.blocks) <==> ClockNeverBehind(cr, cfg, v, es)
    decreases |es|
  {
    if es != [] {
      var v' := After(cr, cfg, v, es[0]);
      ConsistentAfter(cr, cfg, v, es[0]);
      if IsMined(cr, cfg, v, es[0]) {
        MinedBlockValid(cr, cfg, v, es[0]);
      }
      if ValidChain(cr, v'.blocks) {
        RunValid(cr, cfg, v', es[1..], u);
      } else {
        BlocksOnlyGrow(cr, cfg, v', es[1..], u);
        InvalidStaysInvalid(cr, v'.blocks, u.blocks);
      }
    }
  }

  // The block clock never goes backwards from t on.
  ghost predicate Monotone(es: seq<Event>, t: int) {
    es == [] || (
      if es[0].Attempt? then es[0].blockAt >= t && Monotone(es[1..], es[0].blockAt)
      else Monotone(es[1..], t)
    )
  }

  lemma {:induction false} MonotoneIsNeverBehind(cr: Suite, cfg: Config, v: Snapshot, es: seq<Event>, u: Snapshot, t: int)
    requires cfg.Valid() && v.blocks != [] && IsRun(cr, cfg, v, es, u)
    requires Monotone(es, t) && v.Tip().timestamp <= t
    ensures ClockNeverBehind(cr, cfg, v, es)
    decreases |es|
  {
    if es != [] {
      var e := es[0];
      if IsMined(cr, cfg, v, e) {
        MinedIsFilled(cr, cfg, v, e);
      }
      MonotoneIsNeverBehind(cr, cfg, After(cr, cfg, v, e), es[1..], u, if e.Attempt? then e.blockAt else t);
    }
  }

  lemma FreshIsValid(cr: Suite)
    ensures Consistent(cr, Fresh(cr)) && ValidChain(cr, Fresh(cr).blocks)
  {
    var g := Genesis(cr);
    assert [g][..0] == [];
    assert Replay(cr, map[], []) == Applied(map[]);
    assert [g][..1] == [g];
    assert ReplayChain(cr, [g]) == Some(map[]);
    assert g.Fields() == g.(hash := []).Fields();
    assert HasValidHash(cr, g);
    forall rule ensures Holds(cr, [g], 0, rule) {
    }
  }
}
