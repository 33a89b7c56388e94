/** The chain: its blocks, the balances they imply and the pool, and the steps
    that change them.

    Snapshot is the abstract value of a Chain object; the functions on it say what
    each operation does, and class Chain performs the operations in place.
 */
module Chains {
  import opened Prelude
  import opened Encoding
  import opened Crypto
  import opened Transactions
  import opened Ledger
  import opened Pool
  import opened Blocks
  import opened Miner
  import opened Validation
  import MinerProofs

  const MAX_DIFFICULTY := 8

  datatype Config = Config(difficulty: int64, maxTxPerBlock: int64, minerAddress: Bytes, miningReward: int64) {
    // config.Validate, for the settings a chain reads.
    predicate Valid() {
      && 1 <= difficulty <= MAX_DIFFICULTY
      && maxTxPerBlock >= 1
      && minerAddress != []
      && miningReward >= 0
    }

    // How many queued transactions fit beside the reward.
    function Room(): int {
      if miningReward > 0 then maxTxPerBlock - 1 else maxTxPerBlock
    }
  }

  datatype Snapshot = Snapshot(blocks: seq<Block>, balances: Balances, pending: seq<Transaction>) {
    function Tip(): Block
      requires blocks != []
    {
      blocks[|blocks| - 1]
    }
  }

  function Reward(cfg: Config, at: int64): seq<Transaction> {
    if cfg.miningReward > 0 then [NewCoinbase(cfg.minerAddress, cfg.miningReward, at)] else []
  }

  function FromPool(cfg: Config, pending: seq<Transaction>): nat
    requires cfg.Valid()
  {
    if cfg.Room() > |pending| then |pending| else cfg.Room()
  }

  // The reward first, then the front of the queue.
  function Body(cfg: Config, pending: seq<Transaction>, at: int64): seq<Transaction>
    requires cfg.Valid()
  {
    Reward(cfg, at) + pending[..FromPool(cfg, pending)]
  }

  // The block handed to the miner.
  function Template(cr: Suite, cfg: Config, tip: Block, body: seq<Transaction>, blockAt: int64): Block {
    Candidate(cr, WrapUint64(tip.height + 1), tip.hash, body, cfg.difficulty, blockAt)
  }

  // The check made before paying for the search.
  predicate CanMine(cr: Suite, cfg: Config, v: Snapshot, rewardAt: int64)
    requires cfg.Valid()
  {
    Replay(cr, v.balances, Body(cfg, v.pending, rewardAt)).Applied?
  }

  function Restored(cr: Suite, blocks: seq<Block>, pending: seq<Transaction>): Snapshot
    requires ReplayChain(cr, blocks).Some?
  {
    var m := ReplayChain(cr, blocks).value;
    Snapshot(blocks, m, Greedy(cr, m, pending))
  }

  // The chain after appending a block found for the current template.
  function Appended(cr: Suite, cfg: Config, v: Snapshot, b: Block): Snapshot
    requires cfg.Valid()
  {
    var r := Replay(cr, v.balances, b.transactions);
    Snapshot(
      v.blocks + [b],
      if r.Applied? then r.balances else v.balances,
      v.pending[FromPool(cfg, v.pending)..]
    )
  }

  datatype MineReport =
    | Mined(block: Block, hashes: uint64)
    | RejectedBeforeMining(index: nat, error: LedgerError)
    | NotMined(outcome: SearchOutcome)

  // rewardAt and blockAt are the two clock readings of Mine, in nanoseconds and in
  // seconds. What each report of Mine means for the chain it was asked of. Its last case,
  // a failure to apply the mined block, has no report: it cannot happen.
  ghost predicate Explains(cr: Suite, cfg: Config, v: Snapshot, rewardAt: int64, blockAt: int64, numCPU: int64,
                           report: MineReport, callerCancelled: bool)
    requires cfg.Valid() && v.blocks != []
  {
    var stride := if numCPU < 1 then 1 else numCPU;
    var c := Template(cr, cfg, v.Tip(), Body(cfg, v.pending, rewardAt), blockAt);
    match report
    case RejectedBeforeMining(i, e) =>
      Replay(cr, v.balances, Body(cfg, v.pending, rewardAt)) == Failed(i, e)
    case NotMined(o) =>
      CanMine(cr, cfg, v, rewardAt) && !o.Found? && MinerProofs.IsResult(cr, c, stride, o, callerCancelled)
    case Mined(b, hashes) =>
      CanMine(cr, cfg, v, rewardAt) && MinerProofs.IsResult(cr, c, stride, Found(b, hashes), callerCancelled)
  }

  // How Mine reports the end of a search.
  function Reported(o: SearchOutcome): MineReport {
    if o.Found? then Mined(o.block, o.hashes) else NotMined(o)
  }

  class Chain {
    const cr: Suite
    const cfg: Config
    const state: State
    const pool: Mempool
    var blocks: seq<Block>

    ghost predicate Ready()
      reads this
    {
      cfg.Valid() && blocks != []
    }

    function Current(): Snapshot
      reads this, state, pool
    {
      Snapshot(blocks, state.balances, pool.pending)
    }

    constructor (cr: Suite, cfg: Config)
      requires cfg.Valid()
      ensures Ready() && this.cr == cr && this.cfg == cfg
      ensures fresh(state) && fresh(pool)
      ensures Current() == Snapshot([Genesis(cr)], map[], [])
    {
      this.cr := cr;
      this.cfg := cfg;
      this.blocks := [Genesis(cr)];
      this.state := new State();
      this.pool := new Mempool([]);
    }

    static method Load(cr: Suite, cfg: Config, blocks: seq<Block>, pending: seq<Transaction>)
      returns (c: Chain?, verdict: Verdict)
      requires cfg.Valid()
      ensures Reports(cr, blocks, verdict)
      ensures c != null <==> verdict == Accepted
      ensures c != null ==>
        && fresh(c) && fresh(c.state) && fresh(c.pool)
        && c.Ready() && c.cr == cr && c.cfg == cfg
        && ReplayChain(cr, blocks).Some?
        && c.Current() == Restored(cr, blocks, pending)
    {
      verdict := Validation.Validate(cr, blocks);
      if verdict != Accepted {
        return null, verdict;
      }
      OneVerdict(cr, blocks, verdict, verdict);
      ValidReplays(cr, blocks);
      var chain := new Chain(cr, cfg);
      chain.blocks := blocks;
      for i := 0 to |blocks|
        invariant chain.blocks == blocks && chain.pool.pending == []
        invariant ReplayChain(cr, blocks[..i]) == Some(chain.state.balances)
      {
        LedgerHolds(cr, blocks, i);
        ReplayChainNext(cr, blocks, i);
        var r := chain.state.ApplyAll(cr, blocks[i].transactions);
        if r.Failed? {
          assert false; // Validate has replayed these very blocks
        }
      }
      assert blocks[..|blocks|] == blocks;
      for i := 0 to |pending|
        invariant chain.blocks == blocks && ReplayChain(cr, blocks) == Some(chain.state.balances)
        invariant chain.pool.pending == Greedy(cr, chain.state.balances, pending[..i])
      {
        assert pending[..i + 1][..i] == pending[..i];
        var dropped := chain.pool.Add(cr, pending[i], chain.state);
      }
      assert pending[..|pending|] == pending;
      return chain, verdict;
    }

    method AddTransaction(tx: Transaction) returns (fault: Option<PoolError>)
      modifies pool
      ensures fault == AddFault(cr, state.balances, old(pool.pending), tx)
      ensures Current() == old(Current()).(pending := Offer(cr, state.balances, old(pool.pending), tx))
    {
      fault := pool.Add(cr, tx, state);
    }

    method Faucet(to: Bytes, amount: int64, at: int64) returns (fault: Option<PoolError>)
      modifies pool
      ensures fault == AddFault(cr, state.balances, old(pool.pending), NewCoinbase(to, amount, at))
      ensures Current() == old(Current()).(pending := Offer(cr, state.balances, old(pool.pending), NewCoinbase(to, amount, at)))
    {
      fault := pool.Add(cr, NewCoinbase(to, amount, at), state);
    }

    method BuildBody(at: int64) returns (body: seq<Transaction>, fromPool: nat)
      requires Ready()
      ensures body == Body(cfg, pool.pending, at) && fromPool == FromPool(cfg, pool.pending)
    {
      var room := cfg.maxTxPerBlock;
      body := [];
      if cfg.miningReward > 0 {
        body := body + [NewCoinbase(cfg.minerAddress, cfg.miningReward, at)];
        room := room - 1;
      }
      var queued := pool.Peek(room);
      return body + queued, |queued|;
    }

    // The part of Mine that only looks: everything before the chain changes.
    method FindBlock(rewardAt: int64, blockAt: int64, numCPU: int64)
      returns (report: MineReport, callerCancelled: bool, fromPool: nat)
      requires Ready()
      ensures Explains(cr, cfg, Current(), rewardAt, blockAt, numCPU, report, callerCancelled)
      ensures report.Mined? ==> Replay(cr, state.balances, report.block.transactions).Applied?
      ensures fromPool == FromPool(cfg, pool.pending)
    {
      var body;
      body, fromPool := BuildBody(rewardAt);
      var r := state.DryRun(cr, body);
      if r.Failed? {
        return RejectedBeforeMining(r.index, r.error), false, fromPool;
      }
      var o, cancelled, _, _ := MinerProofs.MineWith(cr, Template(cr, cfg, Tip(), body, blockAt), numCPU);
      return Reported(o), cancelled, fromPool;
    }

    method Mine(rewardAt: int64, blockAt: int64, numCPU: int64) returns (report: MineReport, callerCancelled: bool)
      requires Ready()
      modifies this, state, pool
      ensures Ready()
      ensures Explains(cr, cfg, old(Current()), rewardAt, blockAt, numCPU, report, callerCancelled)
      ensures Current() == if report.Mined? then Appended(cr, cfg, old(Current()), report.block) else old(Current())
    {
      var fromPool;
      report, callerCancelled, fromPool := FindBlock(rewardAt, blockAt, numCPU);
      if report.Mined? {
        var applied := state.ApplyAll(cr, report.block.transactions);
        if applied.Failed? {
          assert false; // the same transactions applied to the same state above
        }
        blocks := blocks + [report.block];
        pool.Remove(fromPool);
      }
    }

    function Tip(): Block
      requires Ready()
      reads this
    {
      blocks[|blocks| - 1]
    }

    method Validate() returns (verdict: Verdict)
      ensures Reports(cr, blocks, verdict)
    {
      verdict := Validation.Validate(cr, blocks);
    }
  }

  lemma LedgerHolds(cr: Suite, blocks: seq<Block>, i: nat)
    requires ValidChain(cr, blocks) && i < |blocks|
    ensures Holds(cr, blocks, i, LedgerRule)
  {
    assert BlockValid(cr, blocks, i);
  }
}
