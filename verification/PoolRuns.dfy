/** The pending pool over whole runs: nothing is lost, nothing goes stale, and a
    saved chain loads back as it was.
 */
module PoolRuns {
  import opened Prelude
  import opened Encoding
  import opened Crypto
  import opened Transactions
  import opened Ledger
  import opened Accounting
  import opened Pool
  import opened Blocks
  import opened Validation
  import opened Chains
  import opened Runs
  import opened Difficulty

  // ------------------------------------------------------- FIFO conservation

  // The transactions a step added to the queue.
  ghost function AcceptedBy(cr: Suite, v: Snapshot, e: Event): seq<Transaction> {
    match e
    case Submit(tx) => if AddFault(cr, v.balances, v.pending, tx).None? then [tx] else []
    case Mint(to, amount, at) =>
      var tx := NewCoinbase(to, amount, at);
      if AddFault(cr, v.balances, v.pending, tx).None? then [tx] else []
    case Attempt(_, _, _, _, _) => []
  }

  ghost function AcceptedInRun(cr: Suite, cfg: Config, v: Snapshot, es: seq<Event>): seq<Transaction>
    requires cfg.Valid()
    decreases |es|
  {
    if es == [] then []
    else AcceptedBy(cr, v, es[0]) + AcceptedInRun(cr, cfg, After(cr, cfg, v, es[0]), es[1..])
  }

  // The transactions of mined blocks without the rewards in front.
  ghost function Payload(cfg: Config, blocks: seq<Block>): seq<Transaction> {
    if blocks == [] then []
    else
      var txs := blocks[0].transactions;
      (if cfg.miningReward > 0 && txs != [] then txs[1..] else txs) + Payload(cfg, blocks[1..])
  }

  // The blocks a step appended.
  ghost function MinedBy(e: Event): seq<Block> {
    if e.Attempt? && e.report.Mined? then [e.report.block] else []
  }

  lemma AppendConserves(cr: Suite, cfg: Config, v: Snapshot, b: Block, at: int64)
    requires cfg.Valid() && b.transactions == Body(cfg, v.pending, at)
    ensures v.pending == Payload(cfg, [b]) + Appended(cr, cfg, v, b).pending
    ensures |b.transactions| <= cfg.maxTxPerBlock
  {
    BodyPayload(cfg, b, v.pending, at);
    var k := FromPool(cfg, v.pending);
    assert v.pending == v.pending[..k] + v.pending[k..];
  }

  lemma MinedConserves(cr: Suite, cfg: Config, v: Snapshot, e: Event)
    requires cfg.Valid() && v.blocks != [] && IsMined(cr, cfg, v, e)
    ensures v.pending == Payload(cfg, [e.report.block]) + After(cr, cfg, v, e).pending
  {
    MinedIsFilled(cr, cfg, v, e);
    AppendConserves(cr, cfg, v, e.report.block, e.rewardAt);
  }

  lemma StepConserves(cr: Suite, cfg: Config, v: Snapshot, e: Event)
    requires cfg.Valid() && v.blocks != [] && Possible(cr, cfg, v, e)
    ensures After(cr, cfg, v, e).blocks == v.blocks + MinedBy(e)
    ensures v.pending + AcceptedBy(cr, v, e) == Payload(cfg, MinedBy(e)) + After(cr, cfg, v, e).pending
  {
    if e.Attempt? && e.report.Mined? {
      MinedConserves(cr, cfg, v, e);
      assert v.pending + [] == v.pending;
    } else {
      var left := After(cr, cfg, v, e).pending;
      assert Payload(cfg, []) + left == left;
    }
  }

  lemma BodyPayload(cfg: Config, b: Block, pending: seq<Transaction>, at: int64)
    requires cfg.Valid() && b.transactions == Body(cfg, pending, at)
    ensures Payload(cfg, [b]) == pending[..FromPool(cfg, pending)]
    ensures |b.transactions| <= cfg.maxTxPerBlock
  {
    assert [b][1..] == [];
    assert Payload(cfg, [b]) == (if cfg.miningReward > 0 && b.transactions != [] then b.transactions[1..] else b.transactions);
  }

  // A block is full or takes the whole queue: the reward to the miner, if there is
  // one, and then the front of the queue.
  lemma BodyExact(cfg: Config, pending: seq<Transaction>, at: int64)
    requires cfg.Valid()
    ensures
      var body, first := Body(cfg, pending, at), if cfg.miningReward > 0 then 1 else 0;
      && |body| == (if first + |pending| < cfg.maxTxPerBlock then first + |pending| else cfg.maxTxPerBlock)
      && body[first..] == pending[..|body| - first]
      && (first == 1 ==> body[0] == Transaction([], cfg.minerAddress, cfg.miningReward, at, [], []))
  {
  }

  lemma BodyTakes(cfg: Config, pending: seq<Transaction>, at: int64)
    requires cfg.Valid()
    ensures
      var body, left := Body(cfg, pending, at), pending[FromPool(cfg, pending)..];
      var first := if cfg.miningReward > 0 then 1 else 0;
      && |body| <= cfg.maxTxPerBlock && (|body| == cfg.maxTxPerBlock || left == [])
      && first <= |body| && pending == body[first..] + left
  {
    BodyExact(cfg, pending, at);
    var k := FromPool(cfg, pending);
    assert pending == pending[..k] + pending[k..];
  }

  // So a mined block is full or leaves nothing queued, and what it took from the
  // queue is gone from it.
  lemma MinedBlockIsFilled(cr: Suite, cfg: Config, v: Snapshot, e: Event)
    requires cfg.Valid() && v.blocks != [] && IsMined(cr, cfg, v, e)
    ensures
      var txs, left := e.report.block.transactions, After(cr, cfg, v, e).pending;
      var first := if cfg.miningReward > 0 then 1 else 0;
      && |txs| <= cfg.maxTxPerBlock && (|txs| == cfg.maxTxPerBlock || left == [])
      && first <= |txs| && v.pending == txs[first..] + left
      && (first == 1 ==> txs[0] == Transaction([], cfg.minerAddress, cfg.miningReward, e.rewardAt, [], []))
  {
    MinedIsFilled(cr, cfg, v, e);
    BodyExact(cfg, v.pending, e.rewardAt);
    BodyTakes(cfg, v.pending, e.rewardAt);
  }

  // What the configuration asks of a block.
  ghost predicate AsConfigured(cfg: Config, b: Block) {
    && b.difficulty == cfg.difficulty && HasWork(b.hash, cfg.difficulty)
    && |b.transactions| <= cfg.maxTxPerBlock
    && (cfg.miningReward > 0 ==>
          && b.transactions != [] && b.transactions[0].from == []
          && b.transactions[0].to == cfg.minerAddress && b.transactions[0].amount == cfg.miningReward)
  }

  lemma FilledAsConfigured(cfg: Config, b: Block, pending: seq<Transaction>, at: int64)
    requires cfg.Valid() && b.transactions == Body(cfg, pending, at)
    requires b.difficulty == cfg.difficulty && HasWork(b.hash, cfg.difficulty)
    ensures AsConfigured(cfg, b)
  {
    BodyExact(cfg, pending, at);
  }

  lemma MinedAsConfigured(cr: Suite, cfg: Config, v: Snapshot, e: Event)
    requires cfg.Valid() && v.blocks != [] && IsMined(cr, cfg, v, e)
    ensures AsConfigured(cfg, e.report.block)
  {
    MinedBlockMeans(cr, cfg, v, e);
    FilledAsConfigured(cfg, e.report.block, v.pending, e.rewardAt);
  }

  lemma StepAdds(cr: Suite, cfg: Config, v: Snapshot, e: Event)
    requires cfg.Valid() && v.blocks != [] && Possible(cr, cfg, v, e)
    ensures After(cr, cfg, v, e).blocks == v.blocks + MinedBy(e)
    ensures forall b :: b in MinedBy(e) ==> AsConfigured(cfg, b)
  {
    if IsMined(cr, cfg, v, e) {
      MinedAsConfigured(cr, cfg, v, e);
    }
  }

  // A run adds one block for each successful attempt, and each is as configured.
  lemma {:induction false} RunAddsConfigured(cr: Suite, cfg: Config, v: Snapshot, es: seq<Event>, u: Snapshot)
    requires cfg.Valid() && v.blocks != [] && IsRun(cr, cfg, v, es, u)
    ensures v.blocks <= u.blocks && |u.blocks| == |v.blocks| + MinedCount(es)
    ensures forall i :: |v.blocks| <= i < |u.blocks| ==> AsConfigured(cfg, u.blocks[i])
    decreases |es|
  {
    if es != [] {
      var v' := After(cr, cfg, v, es[0]);
      StepAdds(cr, cfg, v, es[0]);
      RunAddsConfigured(cr, cfg, v', es[1..], u);
      forall i | |v.blocks| <= i < |v'.blocks| ensures AsConfigured(cfg, u.blocks[i]) {
        assert u.blocks[i] == v'.blocks[i] == MinedBy(es[0])[i - |v.blocks|];
      }
    }
  }

  lemma {:induction false} PayloadConcat(cfg: Config, a: seq<Block>, b: seq<Block>)
    ensures Payload(cfg, a + b) == Payload(cfg, a) + Payload(cfg, b)
  {
    if a == [] {
      assert a + b == b;
    } else {
      assert (a + b)[1..] == a[1..] + b;
      PayloadConcat(cfg, a[1..], b);
    }
  }

  lemma ChainEqualities<T>(p: seq<T>, a: seq<T>, m: seq<T>, p': seq<T>, more: seq<T>, mined: seq<T>, left: seq<T>)
    requires p + a == m + p' && p' + more == mined + left
    ensures p + (a + more) == (m + mined) + left
  {
    assert p + (a + more) == (m + p') + more;
    assert (m + p') + more == m + (p' + more);
  }

  lemma SuffixSplits<T>(base: seq<T>, added: seq<T>, all: seq<T>)
    requires base + added <= all
    ensures base <= all && all[|base|..] == added + all[|base + added|..]
  {
    assert all[..|base + added|] == base + added;
    assert all == base + added + all[|base + added|..];
  }

  // Nothing is lost, duplicated or reordered: what was queued, followed by what
  // was accepted, is what was mined, followed by what is still queued.
  lemma {:induction false} FifoConservation(cr: Suite, cfg: Config, v: Snapshot, es: seq<Event>, u: Snapshot)
    requires cfg.Valid() && v.blocks != [] && IsRun(cr, cfg, v, es, u)
    ensures v.blocks <= u.blocks
    ensures v.pending + AcceptedInRun(cr, cfg, v, es) == Payload(cfg, u.blocks[|v.blocks|..]) + u.pending
    decreases |es|
  {
    if es != [] {
      var v' := After(cr, cfg, v, es[0]);
      StepConserves(cr, cfg, v, es[0]);
      FifoConservation(cr, cfg, v', es[1..], u);
      var later := u.blocks[|v'.blocks|..];
      SuffixSplits(v.blocks, MinedBy(es[0]), u.blocks);
      PayloadConcat(cfg, MinedBy(es[0]), later);
      ChainEqualities(v.pending, AcceptedBy(cr, v, es[0]), Payload(cfg, MinedBy(es[0])), v'.pending,
                      AcceptedInRun(cr, cfg, v', es[1..]), Payload(cfg, later), u.pending);
    }
  }

  ghost function MinedCount(es: seq<Event>): nat {
    if es == [] then 0
    else (if es[0].Attempt? && es[0].report.Mined? then 1 else 0) + MinedCount(es[1..])
  }

  ghost function Drained(queued: nat, room: nat, mines: nat): nat {
    if mines == 0 then queued
    else Drained(if queued > room then queued - room else 0, room, mines - 1)
  }

  lemma {:induction false} DrainedClosedForm(queued: nat, room: nat, mines: nat)
    ensures Drained(queued, room, mines) == if queued > mines * room then queued - mines * room else 0
  {
    if mines > 0 {
      var left := if queued > room then queued - room else 0;
      DrainedClosedForm(left, room, mines - 1);
      assert mines * room == (mines - 1) * room + room;
    }
  }

  lemma DrainOne(cr: Suite, cfg: Config, v: Snapshot, e: Event)
    requires cfg.Valid() && v.blocks != [] && e.Attempt?
    ensures |After(cr, cfg, v, e).pending| == Drained(|v.pending|, cfg.Room(), if e.report.Mined? then 1 else 0)
  {
    assert Drained(if |v.pending| > cfg.Room() then |v.pending| - cfg.Room() else 0, cfg.Room(), 0)
        == if |v.pending| > cfg.Room() then |v.pending| - cfg.Room() else 0;
  }

  lemma {:induction false} DrainedSteps(cr: Suite, cfg: Config, v: Snapshot, es: seq<Event>, u: Snapshot)
    requires cfg.Valid() && v.blocks != [] && IsRun(cr, cfg, v, es, u)
    requires forall i :: 0 <= i < |es| ==> es[i].Attempt?
    ensures |u.pending| == Drained(|v.pending|, cfg.Room(), MinedCount(es))
    decreases |es|
  {
    if es != [] {
      var v' := After(cr, cfg, v, es[0]);
      DrainOne(cr, cfg, v, es[0]);
      DrainedSteps(cr, cfg, v', es[1..], u);
      if !es[0].report.Mined? {
        assert v' == v;
      } else {
        assert MinedCount(es) == 1 + MinedCount(es[1..]);
        DrainedAdd(|v.pending|, cfg.Room(), MinedCount(es[1..]));
      }
    }
  }

  lemma DrainedAdd(queued: nat, room: nat, mines: nat)
    ensures Drained(queued, room, 1 + mines) == Drained(Drained(queued, room, 1), room, mines)
  {
    assert Drained(queued, room, 1) == if queued > room then queued - room else 0;
  }

  // k successful mines and no additions leave max(0, n - k*room) queued.
  lemma MiningDrains(cr: Suite, cfg: Config, v: Snapshot, es: seq<Event>, u: Snapshot)
    requires cfg.Valid() && v.blocks != [] && IsRun(cr, cfg, v, es, u)
    requires forall i :: 0 <= i < |es| ==> es[i].Attempt?
    ensures |u.pending| ==
      var room := if cfg.miningReward > 0 then cfg.maxTxPerBlock - 1 else cfg.maxTxPerBlock;
      var left := |v.pending| - MinedCount(es) * room;
      if left > 0 then left else 0
  {
    var room: nat := if cfg.miningReward > 0 then cfg.maxTxPerBlock - 1 else cfg.maxTxPerBlock;
    assert cfg.Room() == room;
    DrainedSteps(cr, cfg, v, es, u);
    DrainedClosedForm(|v.pending|, room, MinedCount(es));
  }

  // ------------------------------------------------- the pool is never stale

  // A faucet call on a fitting queue, exactly.
  lemma MintExact(cr: Suite, cfg: Config, v: Snapshot, to: Bytes, amount: int64, at: int64)
    requires cfg.Valid() && Fits(cr, v.balances, v.pending) && Positive(v.balances)
    ensures
      var u, tx := After(cr, cfg, v, Mint(to, amount, at)), Transaction([], to, amount, at, [], []);
      && u.blocks == v.blocks && u.balances == v.balances && Fits(cr, u.balances, u.pending)
      && u.pending ==
           if amount > 0 && IsAddress(to) && Running(v.balances, v.pending, to) + amount <= MAX_INT64
           then v.pending + [tx] else v.pending
  {
    OfferExact(cr, v.balances, v.pending, NewCoinbase(to, amount, at));
    OfferKeepsFit(cr, v.balances, v.pending, NewCoinbase(to, amount, at));
    CoinbaseVerdict(cr, NewCoinbase(to, amount, at));
  }

  lemma {:induction false} ReplayChainPositive(cr: Suite, blocks: seq<Block>)
    requires ReplayChain(cr, blocks).Some?
    ensures Positive(ReplayChain(cr, blocks).value)
  {
    if blocks != [] {
      var init := blocks[..|blocks| - 1];
      ReplayChainPositive(cr, init);
      ReplayBalances(cr, ReplayChain(cr, init).value, blocks[|blocks| - 1].transactions);
    }
  }

  // Everything minted already or waiting to be.
  ghost function Committed(v: Snapshot): int {
    Sum(v.balances) + Minted(v.pending)
  }

  ghost predicate MinerCanBePaid(cfg: Config) {
    cfg.miningReward > 0 ==> IsAddress(cfg.minerAddress)
  }

  lemma RewardApplies(cr: Suite, cfg: Config, m: Balances, at: int64)
    requires Positive(m) && cfg.miningReward > 0
    ensures Replay(cr, m, Reward(cfg, at)).Applied? <==>
      IsAddress(cfg.minerAddress) && Get(m, cfg.minerAddress) + cfg.miningReward <= MAX_INT64
    ensures Replay(cr, m, Reward(cfg, at)).Applied? ==>
      Replay(cr, m, Reward(cfg, at)) == Applied(Credit(m, cfg.minerAddress, cfg.miningReward))
  {
    var tx := NewCoinbase(cfg.minerAddress, cfg.miningReward, at);
    assert Reward(cfg, at) == [tx] && [tx][..0] == [];
    PostExact(cr, m, tx);
  }

  // Queued payments lo to hi to the miner still fit int64 when the reward has been
  // put in front of the queue.
  ghost predicate LeavesRoom(cfg: Config, v: Snapshot, lo: nat, hi: nat)
    requires hi <= |v.pending|
  {
    forall i :: lo <= i < hi && v.pending[i].to == cfg.minerAddress ==>
      Running(v.balances, v.pending[..i + 1], cfg.minerAddress) + cfg.miningReward <= MAX_INT64
  }

  // The pre-check of Mine on a pool that fits, exactly: a positive reward needs an
  // address to go to, and takes its room ahead of every queued payment to it.
  lemma PreCheckExact(cr: Suite, cfg: Config, v: Snapshot, at: int64)
    requires cfg.Valid() && Positive(v.balances) && Fits(cr, v.balances, v.pending)
    ensures CanMine(cr, cfg, v, at) <==> (cfg.miningReward > 0 ==>
      && IsAddress(cfg.minerAddress)
      && Get(v.balances, cfg.minerAddress) + cfg.miningReward <= MAX_INT64
      && LeavesRoom(cfg, v, 0, FromPool(cfg, v.pending)))
  {
    var a, r, m := cfg.minerAddress, cfg.miningReward, v.balances;
    var front := v.pending[..FromPool(cfg, v.pending)];
    PrefixFits(cr, m, v.pending, |front|);
    if r == 0 {
      assert Body(cfg, v.pending, at) == front;
    } else {
      RewardApplies(cr, cfg, m, at);
      ReplayConcat(cr, m, Reward(cfg, at), front);
      if IsAddress(a) && Get(m, a) + r <= MAX_INT64 {
        Shift(cr, m, front, a, r);
        forall i | 0 <= i < |front| ensures front[..i + 1] == v.pending[..i + 1] && front[i] == v.pending[i] {
        }
      }
    }
  }

  // What is left in the queue still fits after a mine exactly when the reward left
  // room for every payment to the miner that stayed behind.
  lemma RestFitsExact(cr: Suite, cfg: Config, v: Snapshot, at: int64)
    requires cfg.Valid() && Positive(v.balances) && Fits(cr, v.balances, v.pending) && CanMine(cr, cfg, v, at)
    ensures Fits(cr, Replay(cr, v.balances, Body(cfg, v.pending, at)).balances, v.pending[FromPool(cfg, v.pending)..])
       <==> (cfg.miningReward > 0 ==> LeavesRoom(cfg, v, FromPool(cfg, v.pending), |v.pending|))
  {
    var m, k := v.balances, FromPool(cfg, v.pending);
    var front, rest := v.pending[..k], v.pending[k..];
    assert v.pending == front + rest;
    PreCheckExact(cr, cfg, v, at);
    if cfg.miningReward == 0 {
      assert Body(cfg, v.pending, at) == front;
      PrefixFits(cr, m, v.pending, k);
    } else {
      RewardApplies(cr, cfg, m, at);
      ReplayConcat(cr, m, Reward(cfg, at), front);
      ReplayConcat(cr, Credit(m, cfg.minerAddress, cfg.miningReward), front, rest);
      Shift(cr, m, v.pending, cfg.minerAddress, cfg.miningReward);
    }
  }

  // A bound that a node can watch: while the supply leaves room for one more
  // reward, a pool that fits can be mined and the rest of it fits.
  lemma MiningKeepsFit(cr: Suite, cfg: Config, v: Snapshot, at: int64)
    requires cfg.Valid() && MinerCanBePaid(cfg)
    requires Positive(v.balances) && Fits(cr, v.balances, v.pending)
    requires Committed(v) + cfg.miningReward <= MAX_INT64
    ensures CanMine(cr, cfg, v, at)
    ensures Fits(cr, Replay(cr, v.balances, Body(cfg, v.pending, at)).balances, v.pending[FromPool(cfg, v.pending)..])
  {
    var k := FromPool(cfg, v.pending);
    var front := v.pending[..k];
    if cfg.miningReward > 0 {
      ShiftWithinSupply(cr, v.balances, v.pending, cfg.minerAddress, cfg.miningReward);
      RewardApplies(cr, cfg, v.balances, at);
      ReplayConcat(cr, v.balances, Reward(cfg, at), front);
      PrefixFits(cr, Credit(v.balances, cfg.minerAddress, cfg.miningReward), v.pending, k);
    } else {
      assert Body(cfg, v.pending, at) == front;
      PrefixFits(cr, v.balances, v.pending, k);
    }
  }

  lemma MintedOne(tx: Transaction)
    ensures Minted([tx]) == if tx.IsCoinbase() then tx.amount else 0
  {
    assert [tx][..0] == [];
  }

  lemma RewardMints(cfg: Config, at: int64)
    requires cfg.Valid()
    ensures Minted(Reward(cfg, at)) == cfg.miningReward
  {
    MintedOne(NewCoinbase(cfg.minerAddress, cfg.miningReward, at));
  }

  lemma OfferCommits(cr: Suite, m: Balances, pending: seq<Transaction>, tx: Transaction)
    ensures Minted(Offer(cr, m, pending, tx)) >= Minted(pending)
  {
    MintedConcat(pending, [tx]);
    MintedOne(tx);
  }

  lemma MiningCommits(cr: Suite, cfg: Config, v: Snapshot, at: int64)
    requires cfg.Valid() && Positive(v.balances) && CanMine(cr, cfg, v, at)
    ensures Sum(Replay(cr, v.balances, Body(cfg, v.pending, at)).balances)
          + Minted(v.pending[FromPool(cfg, v.pending)..]) == Committed(v) + cfg.miningReward
  {
    Conservation(cr, v.balances, Body(cfg, v.pending, at));
    BodyMints(cfg, v.pending, at);
  }

  lemma BodyMints(cfg: Config, pending: seq<Transaction>, at: int64)
    requires cfg.Valid()
    ensures Minted(Body(cfg, pending, at)) + Minted(pending[FromPool(cfg, pending)..]) == Minted(pending) + cfg.miningReward
  {
    var k := FromPool(cfg, pending);
    var front, rest := pending[..k], pending[k..];
    MintedConcat(Reward(cfg, at), front);
    RewardMints(cfg, at);
    MintedConcat(front, rest);
    assert pending == front + rest;
  }

  // The committed supply grows by each accepted mint and each reward, and
  // otherwise stays: mining moves coins from pending to confirmed.
  lemma CommittedGrows(cr: Suite, cfg: Config, v: Snapshot, e: Event)
    requires cfg.Valid() && Consistent(cr, v) && Possible(cr, cfg, v, e)
    ensures Committed(After(cr, cfg, v, e)) >= Committed(v)
    ensures e.Attempt? ==> Committed(After(cr, cfg, v, e)) == Committed(v) + if e.report.Mined? then cfg.miningReward else 0
  {
    if IsMined(cr, cfg, v, e) {
      MinedIsFilled(cr, cfg, v, e);
      ReplayChainPositive(cr, v.blocks);
      MiningCommits(cr, cfg, v, e.rewardAt);
    } else if e.Submit? {
      OfferCommits(cr, v.balances, v.pending, e.tx);
    } else if e.Mint? {
      OfferCommits(cr, v.balances, v.pending, NewCoinbase(e.to, e.amount, e.at));
    }
  }

  lemma {:induction false} CommittedGrowsInRun(cr: Suite, cfg: Config, v: Snapshot, es: seq<Event>, u: Snapshot)
    requires cfg.Valid() && Consistent(cr, v) && IsRun(cr, cfg, v, es, u)
    ensures Committed(v) <= Committed(u)
    decreases |es|
  {
    if es != [] {
      CommittedGrows(cr, cfg, v, es[0]);
      ConsistentAfter(cr, cfg, v, es[0]);
      CommittedGrowsInRun(cr, cfg, After(cr, cfg, v, es[0]), es[1..], u);
    }
  }

  lemma FitAfter(cr: Suite, cfg: Config, v: Snapshot, e: Event)
    requires cfg.Valid() && MinerCanBePaid(cfg) && Consistent(cr, v) && Possible(cr, cfg, v, e)
    requires Fits(cr, v.balances, v.pending) && Committed(v) + cfg.miningReward <= MAX_INT64
    ensures Fits(cr, After(cr, cfg, v, e).balances, After(cr, cfg, v, e).pending)
    ensures e.Attempt? ==> !e.report.RejectedBeforeMining?
  {
    ReplayChainPositive(cr, v.blocks);
    match e
    case Submit(tx) => OfferKeepsFit(cr, v.balances, v.pending, tx);
    case Mint(to, amount, at) => OfferKeepsFit(cr, v.balances, v.pending, NewCoinbase(to, amount, at));
    case Attempt(rewardAt, _, _, report, _) =>
      MiningKeepsFit(cr, cfg, v, rewardAt);
      if report.Mined? {
        MinedIsFilled(cr, cfg, v, e);
      }
  }

  // The queue fits the confirmed balances in every state of the run.
  ghost predicate FitsThroughout(cr: Suite, cfg: Config, v: Snapshot, es: seq<Event>)
    requires cfg.Valid()
    decreases |es|
  {
    Fits(cr, v.balances, v.pending) && (es != [] ==> FitsThroughout(cr, cfg, After(cr, cfg, v, es[0]), es[1..]))
  }

  // No successful mine of the run pays a reward in room that the payments left
  // behind in the queue need.
  ghost predicate RewardsLeaveRoom(cr: Suite, cfg: Config, v: Snapshot, es: seq<Event>)
    requires cfg.Valid()
    decreases |es|
  {
    es == [] || (
      && (es[0].Attempt? && es[0].report.Mined? && cfg.miningReward > 0 ==>
            LeavesRoom(cfg, v, FromPool(cfg, v.pending), |v.pending|))
      && RewardsLeaveRoom(cr, cfg, After(cr, cfg, v, es[0]), es[1..])
    )
  }

  lemma FitAfterExact(cr: Suite, cfg: Config, v: Snapshot, e: Event)
    requires cfg.Valid() && Consistent(cr, v) && Possible(cr, cfg, v, e) && Fits(cr, v.balances, v.pending)
    ensures Fits(cr, After(cr, cfg, v, e).balances, After(cr, cfg, v, e).pending) <==>
      (e.Attempt? && e.report.Mined? && cfg.miningReward > 0 ==>
         LeavesRoom(cfg, v, FromPool(cfg, v.pending), |v.pending|))
  {
    ReplayChainPositive(cr, v.blocks);
    match e
    case Submit(tx) => OfferKeepsFit(cr, v.balances, v.pending, tx);
    case Mint(to, amount, at) => OfferKeepsFit(cr, v.balances, v.pending, NewCoinbase(to, amount, at));
    case Attempt(rewardAt, _, _, report, _) =>
      if report.Mined? {
        MinedIsFilled(cr, cfg, v, e);
        RestFitsExact(cr, cfg, v, rewardAt);
      }
  }

  // A run from a queue that fits never sees a stale one if and only if every
  // reward left room for what stayed behind.
  lemma {:induction false} NeverStaleExact(cr: Suite, cfg: Config, v: Snapshot, es: seq<Event>, u: Snapshot)
    requires cfg.Valid() && Consistent(cr, v) && IsRun(cr, cfg, v, es, u) && Fits(cr, v.balances, v.pending)
    ensures FitsThroughout(cr, cfg, v, es) <==> RewardsLeaveRoom(cr, cfg, v, es)
    decreases |es|
  {
    if es != [] {
      var v' := After(cr, cfg, v, es[0]);
      FitAfterExact(cr, cfg, v, es[0]);
      ConsistentAfter(cr, cfg, v, es[0]);
      if Fits(cr, v'.balances, v'.pending) {
        NeverStaleExact(cr, cfg, v', es[1..], u);
      }
    }
  }

  // On every run that ends with room for one more reward, the queue has fitted
  // the confirmed balances throughout: no mining attempt was turned down before
  // the search, and none will be now.
  lemma {:induction false} PoolNeverStale(cr: Suite, cfg: Config, v: Snapshot, es: seq<Event>, u: Snapshot)
    requires cfg.Valid() && MinerCanBePaid(cfg) && Consistent(cr, v) && IsRun(cr, cfg, v, es, u)
    requires Fits(cr, v.balances, v.pending) && Committed(u) + cfg.miningReward <= MAX_INT64
    ensures Fits(cr, u.balances, u.pending)
    ensures forall at :: CanMine(cr, cfg, u, at)
    ensures forall i :: 0 <= i < |es| && es[i].Attempt? ==> !es[i].report.RejectedBeforeMining?
    decreases |es|
  {
    CommittedGrowsInRun(cr, cfg, v, es, u);
    if es == [] {
      ReplayChainPositive(cr, v.blocks);
      forall at ensures CanMine(cr, cfg, u, at) {
        MiningKeepsFit(cr, cfg, v, at);
      }
    } else {
      FitAfter(cr, cfg, v, es[0]);
      ConsistentAfter(cr, cfg, v, es[0]);
      PoolNeverStale(cr, cfg, After(cr, cfg, v, es[0]), es[1..], u);
    }
  }

  // -------------------------------------------------------- save and restore

  // Load takes back what a run left behind, balances and queue included, exactly
  // when the clock was never behind the tip and the queue fits.
  lemma LoadRoundTrip(cr: Suite, cfg: Config, v: Snapshot, es: seq<Event>, u: Snapshot)
    requires cfg.Valid() && Consistent(cr, v) && ValidChain(cr, v.blocks) && IsRun(cr, cfg, v, es, u)
    ensures ReplayChain(cr, u.blocks) == Some(u.balances)
    ensures ValidChain(cr, u.blocks) && Restored(cr, u.blocks, u.pending) == u
       <==> ClockNeverBehind(cr, cfg, v, es) && Fits(cr, u.balances, u.pending)
  {
    RunValid(cr, cfg, v, es, u);
    CachedIsReplayed(cr, cfg, v, es, u);
    GreedyKeepsAll(cr, u.balances, u.pending);
  }

  // A restored chain is consistent and its queue fits, whatever was stored as
  // pending, so runs may start from it.
  lemma RestoredIsReady(cr: Suite, blocks: seq<Block>, pending: seq<Transaction>)
    requires ValidChain(cr, blocks)
    ensures ReplayChain(cr, blocks).Some?
    ensures
      var v := Restored(cr, blocks, pending);
      && Consistent(cr, v)
      && Fits(cr, v.balances, v.pending)
      && Restored(cr, v.blocks, v.pending) == v
      && v.blocks == blocks && v.pending == Survivors(cr, v.balances, pending, |pending|)
  {
    ValidReplays(cr, blocks);
    var m := ReplayChain(cr, blocks).value;
    GreedyIsSurvivors(cr, m, pending, |pending|);
    assert pending[..|pending|] == pending;
    GreedyFits(cr, m, pending);
    GreedyIdempotent(cr, m, pending);
  }

  // The whole story of a node: with a clock that never goes back and a supply
  // within int64, whatever it does from a valid chain with a fitting queue ends in
  // a chain that Validate accepts, that Load reproduces and that can be mined.
  lemma NodeRun(cr: Suite, cfg: Config, v: Snapshot, es: seq<Event>, u: Snapshot)
    requires cfg.Valid() && MinerCanBePaid(cfg) && Consistent(cr, v) && ValidChain(cr, v.blocks)
    requires Fits(cr, v.balances, v.pending) && IsRun(cr, cfg, v, es, u)
    requires Monotone(es, v.Tip().timestamp)
    requires Committed(u) + cfg.miningReward <= MAX_INT64
    ensures ValidChain(cr, u.blocks)
    ensures ReplayChain(cr, u.blocks).Some? && Restored(cr, u.blocks, u.pending) == u
    ensures forall at :: CanMine(cr, cfg, u, at)
  {
    MonotoneIsNeverBehind(cr, cfg, v, es, u, v.Tip().timestamp);
    PoolNeverStale(cr, cfg, v, es, u);
    LoadRoundTrip(cr, cfg, v, es, u);
  }

  // A node started fresh.
  lemma FreshRun(cr: Suite, cfg: Config, es: seq<Event>, u: Snapshot)
    requires cfg.Valid() && MinerCanBePaid(cfg) && IsRun(cr, cfg, Fresh(cr), es, u)
    requires Monotone(es, GENESIS_TIMESTAMP)
    requires Committed(u) + cfg.miningReward <= MAX_INT64
    ensures ValidChain(cr, u.blocks)
    ensures ReplayChain(cr, u.blocks).Some? && Restored(cr, u.blocks, u.pending) == u
    ensures forall at :: CanMine(cr, cfg, u, at)
  {
    FreshIsValid(cr);
    NodeRun(cr, cfg, Fresh(cr), es, u);
  }

  // A node started by Load from a stored chain and any stored queue.
  lemma LoadedRun(cr: Suite, cfg: Config, blocks: seq<Block>, pending: seq<Transaction>, es: seq<Event>, u: Snapshot)
    requires cfg.Valid() && MinerCanBePaid(cfg) && ValidChain(cr, blocks) && ReplayChain(cr, blocks).Some?
    requires IsRun(cr, cfg, Restored(cr, blocks, pending), es, u)
    requires Monotone(es, blocks[|blocks| - 1].timestamp)
    requires Committed(u) + cfg.miningReward <= MAX_INT64
    ensures ValidChain(cr, u.blocks)
    ensures ReplayChain(cr, u.blocks).Some? && Restored(cr, u.blocks, u.pending) == u
    ensures forall at :: CanMine(cr, cfg, u, at)
  {
    RestoredIsReady(cr, blocks, pending);
    NodeRun(cr, cfg, Restored(cr, blocks, pending), es, u);
  }
}
