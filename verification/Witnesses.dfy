/** Inputs on which the program does not do what one might expect of it, each the
    reason for a condition in Runs or PoolRuns.
 */
module Witnesses {
  import opened Prelude
  import opened Encoding
  import opened Crypto
  import opened Transactions
  import opened Ledger
  import opened Accounting
  import opened Pool
  import opened Blocks
  import opened Miner
  import opened Validation
  import opened Chains
  import opened Runs
  import opened PoolRuns

  // ---------------------------------------------------- a negative difficulty

  // A block that any suite can seal, with a difficulty of -1.
  function NegativeBlock(cr: Suite): Block {
    var b := Candidate(cr, 1, Genesis(cr).hash, [], -1, GENESIS_TIMESTAMP);
    b.(hash := ComputeHash(cr, b))
  }

  // Validate panics instead of returning an error.
  lemma NegativeTargetPanics(cr: Suite)
    ensures Reports(cr, [Genesis(cr), NegativeBlock(cr)], Panics)
  {
    var g, b := Genesis(cr), NegativeBlock(cr);
    var blocks := [g, b];
    FreshIsValid(cr);
    assert blocks[..1] == [g] == [g][..1];
    BlockValidOnPrefix(cr, blocks, [g], 1);
    assert b.Fields() == b.(hash := []).Fields();
    forall rule | Rank(rule) < Rank(NegativeTarget) ensures Holds(cr, blocks, 1, rule) {
    }
    assert FirstFault(cr, blocks, 1, NegativeTarget);
    FaultReported(cr, blocks, 1, NegativeTarget);
  }

  // ------------------------------------------------------ a clock that is late

  const ZERO_DIGEST: Digest := seq(32, _ => 0)

  // Under this suite every nonce solves every template.
  const ZERO_SUITE: Suite := Suite(_ => ZERO_DIGEST, (_, _, _) => false, (_, _) => [])

  lemma {:induction false} HexOfZeros(d: Bytes)
    requires forall i :: 0 <= i < |d| ==> d[i] == 0
    ensures Hex(d) == Zeros(2 * |d|)
  {
    if d != [] {
      HexOfZeros(d[1..]);
      assert Zeros(2 * |d|) == [ZERO] + ([ZERO] + Zeros(2 * |d[1..]|));
    }
  }

  lemma EveryNonceSolves(c: Block, n: uint64)
    requires 0 <= c.difficulty <= 64
    ensures Solves(ZERO_SUITE, c, n)
  {
    HexOfZeros(ZERO_DIGEST);
    assert Filled(ZERO_SUITE, c, n).hash == Zeros(64);
    forall i | 0 <= i < c.difficulty ensures Zeros(c.difficulty)[i] == Zeros(64)[i] {
    }
  }

  // On any valid chain, any clock reading behind the tip can be mined, and the
  // chain that Mine leaves behind is one that Validate and Load refuse, although
  // its balances and its queue are as they should be.
  lemma LateClockIsMined(cfg: Config, v: Snapshot, rewardAt: int64, blockAt: int64) returns (e: Event)
    requires cfg.Valid() && Consistent(ZERO_SUITE, v) && ValidChain(ZERO_SUITE, v.blocks)
    requires CanMine(ZERO_SUITE, cfg, v, rewardAt) && blockAt < v.Tip().timestamp
    ensures IsMined(ZERO_SUITE, cfg, v, e) && e.blockAt == blockAt
    ensures var u := After(ZERO_SUITE, cfg, v, e);
      Consistent(ZERO_SUITE, u) && !ValidChain(ZERO_SUITE, u.blocks)
  {
    EveryNonceSolves(Template(ZERO_SUITE, cfg, v.Tip(), Body(cfg, v.pending, rewardAt), blockAt), 0);
    e := SolvedIsMined(ZERO_SUITE, cfg, v, rewardAt, blockAt);
    MinedBlockValid(ZERO_SUITE, cfg, v, e);
    ConsistentAfter(ZERO_SUITE, cfg, v, e);
  }

  // The smallest such run: a new chain without rewards, and a clock at zero. Its
  // empty queue fits and it restores to itself, but Load returns an error.
  lemma LateClockIsNotLoaded(cfg: Config) returns (e: Event, u: Snapshot)
    requires cfg.Valid() && cfg.miningReward == 0
    ensures IsRun(ZERO_SUITE, cfg, Fresh(ZERO_SUITE), [e], u)
    ensures Fits(ZERO_SUITE, u.balances, u.pending)
    ensures ReplayChain(ZERO_SUITE, u.blocks).Some? && Restored(ZERO_SUITE, u.blocks, u.pending) == u
    ensures !ValidChain(ZERO_SUITE, u.blocks)
  {
    var v := Fresh(ZERO_SUITE);
    FreshIsValid(ZERO_SUITE);
    assert Body(cfg, [], 0) == [];
    e := LateClockIsMined(cfg, v, 0, 0);
    u := After(ZERO_SUITE, cfg, v, e);
    assert u.pending == [] && [e][1..] == [];
  }

  // ------------------------------------------- a reward in front of the queue

  // The first queued transaction pays the miner more than fits beside the reward.
  ghost predicate Blocked(cfg: Config, v: Snapshot) {
    && Positive(v.balances) && v.pending != []
    && v.pending[0].to == cfg.minerAddress
    && Get(v.balances, cfg.minerAddress) + cfg.miningReward + v.pending[0].amount > MAX_INT64
  }

  lemma BlockedCannotMine(cr: Suite, cfg: Config, v: Snapshot, at: int64)
    requires cfg.Valid() && cfg.miningReward > 0 && cfg.Room() >= 1 && Blocked(cfg, v)
    ensures !CanMine(cr, cfg, v, at)
  {
    var body := Body(cfg, v.pending, at);
    ReplayExact(cr, v.balances, body);
    assert body[1] == v.pending[0] && body[..0] == [];
    RunningNext(v.balances, body, 0, cfg.minerAddress);
    assert !Admissible(cr, v.balances, body, 1);
  }

  // From there on every attempt of every run is turned down, whatever is
  // submitted in between: the queue only grows and no block is ever added.
  lemma {:induction false} BlockedForever(cr: Suite, cfg: Config, v: Snapshot, es: seq<Event>, u: Snapshot)
    requires cfg.Valid() && cfg.miningReward > 0 && cfg.Room() >= 1 && Blocked(cfg, v)
    requires v.blocks != [] && IsRun(cr, cfg, v, es, u)
    ensures u.blocks == v.blocks && u.balances == v.balances && v.pending <= u.pending
    ensures forall i :: 0 <= i < |es| && es[i].Attempt? ==> es[i].report.RejectedBeforeMining?
    decreases |es|
  {
    if es != [] {
      if es[0].Attempt? {
        BlockedCannotMine(cr, cfg, v, es[0].rewardAt);
      }
      BlockedForever(cr, cfg, After(cr, cfg, v, es[0]), es[1..], u);
    }
  }

  // One faucet call on a new chain is accepted, leaves a queue that fits, and
  // stops mining for good.
  lemma FaucetCanBlockMining(cr: Suite, cfg: Config, at: int64, es: seq<Event>, w: Snapshot)
    requires cfg.Valid() && cfg.Room() >= 1 && cfg.miningReward > 0 && IsAddress(cfg.minerAddress)
    requires IsRun(cr, cfg, After(cr, cfg, Fresh(cr), Mint(cfg.minerAddress, MAX_INT64, at)), es, w)
    ensures
      var u := After(cr, cfg, Fresh(cr), Mint(cfg.minerAddress, MAX_INT64, at));
      && u.pending == [NewCoinbase(cfg.minerAddress, MAX_INT64, at)]
      && Fits(cr, u.balances, u.pending)
      && w.blocks == u.blocks && u.pending <= w.pending
    ensures forall i :: 0 <= i < |es| && es[i].Attempt? ==> es[i].report.RejectedBeforeMining?
  {
    MintExact(cr, cfg, Fresh(cr), cfg.minerAddress, MAX_INT64, at);
    BlockedForever(cr, cfg, After(cr, cfg, Fresh(cr), Mint(cfg.minerAddress, MAX_INT64, at)), es, w);
  }

  // Two faucet calls on a new chain whose blocks have room for one of them.
  function TwoMints(cr: Suite, cfg: Config, to: Bytes, at: int64): Snapshot
    requires cfg.Valid()
  {
    After(cr, cfg, After(cr, cfg, Fresh(cr), Mint(to, 1, at)), Mint(cfg.minerAddress, MAX_INT64, at))
  }

  // Offering tx is refused because the queue itself no longer applies.
  ghost predicate StaleFault(cr: Suite, v: Snapshot, tx: Transaction) {
    var fault := AddFault(cr, v.balances, v.pending, tx);
    fault.Some? && fault.value.Stale?
  }

  lemma TwoMintsQueued(cr: Suite, cfg: Config, to: Bytes, at: int64)
    requires cfg.Valid() && IsAddress(cfg.minerAddress) && IsAddress(to) && to != cfg.minerAddress
    ensures
      var queue := [NewCoinbase(to, 1, at), NewCoinbase(cfg.minerAddress, MAX_INT64, at)];
      TwoMints(cr, cfg, to, at) == Fresh(cr).(pending := queue) && Fits(cr, map[], queue)
  {
    var first, v := NewCoinbase(to, 1, at), After(cr, cfg, Fresh(cr), Mint(to, 1, at));
    MintExact(cr, cfg, Fresh(cr), to, 1, at);
    RunningNext(map[], [first], 0, cfg.minerAddress);
    assert [first][..1] == [first] == v.pending && [first][..0] == [];
    MintExact(cr, cfg, v, cfg.minerAddress, MAX_INT64, at);
  }

  // The check before mining passes, yet the reward has used up the room that the
  // second payment needs.
  lemma TwoMintsOverflow(cr: Suite, cfg: Config, to: Bytes, at: int64, rewardAt: int64)
    requires cfg.Valid() && cfg.Room() == 1 && cfg.miningReward > 0
    requires IsAddress(cfg.minerAddress) && IsAddress(to) && to != cfg.minerAddress
    ensures
      var u := TwoMints(cr, cfg, to, at);
      && CanMine(cr, cfg, u, rewardAt)
      && !Fits(cr, Replay(cr, u.balances, Body(cfg, u.pending, rewardAt)).balances, u.pending[FromPool(cfg, u.pending)..])
  {
    var u := TwoMints(cr, cfg, to, at);
    TwoMintsQueued(cr, cfg, to, at);
    PreCheckExact(cr, cfg, u, rewardAt);
    RestFitsExact(cr, cfg, u, rewardAt);
    assert u.pending[1].to == cfg.minerAddress && u.pending[..1 + 1] == u.pending;
    RunningNext(map[], u.pending, 0, cfg.minerAddress);
    RunningNext(map[], u.pending, 1, cfg.minerAddress);
  }

  // So whatever block is mined there, the rest of the queue no longer fits, the
  // pool turns down everything as stale, and no block is ever mined again.
  lemma MiningCanStalePool(cr: Suite, cfg: Config, to: Bytes, at: int64, e: Event, tx: Transaction,
                           es: seq<Event>, x: Snapshot)
    requires cfg.Valid() && cfg.Room() == 1 && cfg.miningReward > 0
    requires IsAddress(cfg.minerAddress) && IsAddress(to) && to != cfg.minerAddress
    requires IsMined(cr, cfg, TwoMints(cr, cfg, to, at), e)
    requires IsRun(cr, cfg, After(cr, cfg, TwoMints(cr, cfg, to, at), e), es, x)
    ensures Fits(cr, map[], TwoMints(cr, cfg, to, at).pending)
    ensures
      var w := After(cr, cfg, TwoMints(cr, cfg, to, at), e);
      !Fits(cr, w.balances, w.pending) && StaleFault(cr, w, tx) && x.blocks == w.blocks
  {
    var u := TwoMints(cr, cfg, to, at);
    var w := After(cr, cfg, u, e);
    TwoMintsQueued(cr, cfg, to, at);
    TwoMintsOverflow(cr, cfg, to, at, e.rewardAt);
    MinedIsFilled(cr, cfg, u, e);
    ReplayBalances(cr, map[], Body(cfg, u.pending, e.rewardAt));
    assert w.pending[0] == u.pending[1] && Positive(w.balances);
    BlockedForever(cr, cfg, w, es, x);
  }
}
