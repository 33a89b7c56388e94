# A verified model of the toy blockchain core

This project models the ledger, the pending pool, the block and transaction
encodings, the Merkle tree, the concurrent miner and the chain of the toy
blockchain, and proves what they promise: over every input, every sequence of
operations and every interleaving of the mining workers.

`dafny verify dfyconfig.toml` checks the whole project (Dafny 4.11).

## How it is built

* **Opaque cryptography.** `Crypto.Suite` holds SHA-256 (FIPS 180-4) and Ed25519
  (section 5.1 of RFC 8032) as arbitrary total functions, passed to every
  definition. Nothing assumes that the hash is injective. Binding theorems end in
  `Collide(cr, xs, ys)`: two different byte strings, one out of each finite set of
  strings that the two sides really hash, with the same digest. Only
  `SignedTransferValid` assumes something about Ed25519: that what a key signs
  verifies under it.
* **Machine integers.** `int64` and `uint64` are subset types over unbounded
  integers. Wherever Go's result can leave the range it goes through `WrapInt64`
  or `WrapUint64`, and the proofs show where wrapping cannot happen: balances, the
  overflow guard, the stride guard of the miner.
* **State in place, specifications on values.** `State`, `Mempool`, `Chain` and
  `Builder` are classes whose methods change their fields, with the loops the
  source has. Each method is tied to a function on plain values (`Replay`, `Offer`,
  `Appended`, ...), and the theorems are about those functions, so they speak
  about the methods.
* **Runs.** `Runs.IsRun` is any sequence of submissions, faucet calls and mining
  attempts, each with arbitrary clock readings and any outcome that `Chain.Mine`
  can report. `Miner.IsSchedule` is any interleaving of the workers with the
  caller's cancellation.

| file | contents |
|---|---|
| `Prelude.dfy`, `Encoding.dfy`, `Crypto.dfy`, `TextBuilder.dfy` | integers, byte text (decimal, hex, joining and cutting fields), the opaque suite, the byte buffer |
| `Transactions.dfy`, `Blocks.dfy`, `Codec.dfy` | transactions, signatures, blocks, genesis; reading both encodings back |
| `Ledger.dfy`, `Accounting.dfy`, `Pool.dfy` | balances in place, their closed form and conservation, the pool |
| `Merkle.dfy`, `Difficulty.dfy` | the level-by-level loop and the tree it computes; the target as a number |
| `Validation.dfy`, `Rules.dfy` | first-fault validation, and what it accepts and reports said independently of its rules |
| `Tamper.dfy`, `ChainAccounting.dfy` | tamper evidence, balances of a chain |
| `Miner.dfy`, `MinerProofs.dfy` | the search as a step relation, the guarantees of every schedule, the loops |
| `Chains.dfy`, `Runs.dfy`, `PoolRuns.dfy` | the chain object; validity, conservation and freshness over whole runs |
| `Witnesses.dfy` | inputs on which the code falls short, each the reason for a condition in the runs |

## Where the code is subtler than its comments

* `Mine` never compares the clock with the tip, `Validate` does. A mined block
  keeps the chain valid exactly when the clock is not behind the tip
  (`MinedBlockValid`, `RunValid`). `LateClockIsMined` mines such a block on any
  valid chain, under a suite whose digests are all zeros; `LateClockIsNotLoaded`
  is a chain left behind that way that `Load` refuses.
* The reward goes in front of the queue, and uses headroom below 2^63 that
  `Mempool.Add` did not set aside. `PreCheckExact` says exactly when the check
  before mining passes, `RestFitsExact` when what is left in the queue still fits,
  and `NeverStaleExact` when it fits throughout a run. `FaucetCanBlockMining` is
  an accepted faucet call after which no block is ever mined, and
  `MiningCanStalePool` a successful mine that leaves the pool stale for good.
  `PoolNeverStale` shows that a bound on the committed supply rules both out.
* Block 0 is said to be compared byte for byte; two fields are. `GenesisTheorem`
  shows what that pins, and what else would have to be found.
* `|` is said never to appear inside a hashed field. That holds in validated
  blocks and transactions; `DecodePreimage` and `DecodeCanonical` give the exact
  condition, and `SeparatorInKeyIsAmbiguous` shows it is needed.
* A Merkle root commits to the expanded leaf list, not to the list
  (`RootBindsExpansion`); `RepeatedLastLeaf` is the ambiguity. Between lists whose
  trees differ in depth only a coinbase of exactly 64 encoded bytes can pose as a
  pair of digests (`RootBindsPayload`).
* A block with a negative difficulty that passes the six earlier rules makes
  `Validate` panic in `strings.Repeat`; the verdict `Panics` models this, and
  `NegativeTargetPanics` is such a chain.

## Model

| member | source | states |
|---|---|---|
| Tamper.TamperEvidence | internal/chain/validate.go:40-94 | two chains that validate and whose tips carry the same hash have the same length, the same header fields and hash in every block, and in every block the same transactions where the counts agree, the same expanded Merkle leaves where the depths agree, and otherwise a 64-byte coinbase equal to a pair of digests or an input hashing to all zeros; or two strings hashed while validating them collide |
| Tamper.RootBindsPayload | internal/block/merkle.go:34-59 | that case analysis for any two lists of valid transactions with equal roots, whatever their lengths |
| Tamper.BlockEvidence | internal/block/block.go:3-6 | the same for any pair of blocks with equal hashes: each commits to everything before it |
| Tamper.EqualTipsEqualChains | internal/chain/validate.go:40-94 | with equal transaction counts, equal tip hashes make the two chains identical, or there is a collision |
| Tamper.GenesisTheorem | internal/chain/validate.go:53-57 | a validated chain starts with the canonical genesis block, every field of which is spelled out, and block i has height i mod 2^64; or a collision with the genesis preimage, or an input hashing to all zeros, has been found |
| Tamper.ValidFieldsHaveNoSeparator | internal/block/block.go:62-63 | in a validated block neither the previous hash nor the Merkle root contains the separator |
| Runs.CachedIsReplayed | internal/chain/chain.go:127-147 | on every run the balances kept incrementally equal a replay of all blocks from genesis, whatever the clock does |
| Runs.MinedBlockValid | internal/chain/chain.go:135-144 | appending a mined block to a valid chain gives a chain Validate accepts iff the clock reading is at least the old tip's timestamp |
| Runs.RunValid | internal/chain/chain.go:127-150 | a run from a valid chain ends in a chain Validate accepts iff no successful mine read a clock behind the tip it saw |
| Runs.MonotoneIsNeverBehind | internal/chain/chain.go:135 | a clock that never goes back and starts no earlier than the tip is never behind |
| Runs.MinedBlockMeans | internal/chain/chain.go:135-144 | every field of a mined block: it follows the tip, carries the body and the clock reading, has the configured difficulty, and its hash, read as a number, is below 16^(64 - difficulty) |
| Runs.MinedCountExact | internal/miner/miner.go:122-127 | the hash count reported with a mined block is the number of hashes all workers computed, mod 2^64, in a complete interleaving that returns it |
| Runs.AttemptCanSucceed | internal/chain/chain.go:128-139 | at given clock readings an attempt can end in a mined block iff the check before mining passes and some nonce solves the template |
| Runs.FreshIsValid | internal/chain/chain.go:43-55 | a new chain is valid and its empty balances are the replayed ones |
| PoolRuns.NodeRun | internal/chain/chain.go:65-147 | from any valid chain with a fitting queue, with a clock that never goes back and a committed supply with room for one reward, every run ends in a chain that validates, that Load reproduces exactly, and that can be mined |
| PoolRuns.FreshRun | internal/chain/chain.go:43-55 | the same from a new chain |
| PoolRuns.LoadedRun | internal/chain/chain.go:65-80 | the same from a loaded chain, whatever was stored as pending |
| PoolRuns.PoolNeverStale | internal/ledger/mempool.go:33-45 | on every run whose final committed supply leaves room for one reward the queue fits the confirmed balances, no attempt was rejected before mining and the next cannot be |
| PoolRuns.NeverStaleExact | internal/chain/chain.go:127-147 | a run from a fitting queue keeps it fitting in every state iff each successful mine left room for every payment to the miner that stayed behind |
| PoolRuns.PreCheckExact | internal/chain/chain.go:130-133 | for a fitting queue, the check before mining passes iff the reward is zero, or the miner has an address and the reward, and every balance of the miner along the mined front of the queue plus the reward, stays within int64 |
| PoolRuns.RestFitsExact | internal/chain/chain.go:141-145 | after a mine the rest of the queue fits the new balances iff the reward is zero or every balance of the miner along that rest plus the reward stays within int64 |
| PoolRuns.MiningKeepsFit | internal/chain/chain.go:127-147 | with room for the reward, the front of a fitting queue can be mined and the rest fits the new balances |
| PoolRuns.CommittedGrows | internal/ledger/state.go:108-109 | confirmed supply plus pending mints never shrinks; an attempt changes it by exactly the reward if it mines, else not at all |
| PoolRuns.FifoConservation | internal/ledger/mempool.go:47-63 | initial queue followed by everything accepted equals the non-reward transactions of the blocks mined in the run followed by the current queue: none lost, duplicated or reordered |
| PoolRuns.RunAddsConfigured | internal/chain/chain.go:127-163 | a run adds one block per successful attempt, each with the configured difficulty, its proof of work, at most MaxTxPerBlock transactions, and the configured reward to the miner in front |
| PoolRuns.BodyExact | internal/chain/chain.go:156-163 | a body holds the smaller of MaxTxPerBlock and the queue plus the reward: the reward to the miner, if positive, and then the front of the queue |
| PoolRuns.MinedBlockIsFilled | internal/chain/chain.go:141-145 | a mined block is full or leaves nothing queued, and what it took is exactly what left the queue |
| PoolRuns.MiningDrains | internal/chain/chain.go:156-163 | k successful mines without additions leave max(0, n - k*room) of n queued transactions, room being MaxTxPerBlock, less one if there is a reward |
| PoolRuns.LoadRoundTrip | internal/chain/chain.go:65-80 | after any run from a valid chain, Load accepts the blocks and gives back the same blocks, balances and queue iff no successful mine read a clock behind the tip and the queue fits the balances |
| PoolRuns.RestoredIsReady | internal/chain/chain.go:57-80 | whatever was stored as pending, a loaded chain has the given blocks, replayed balances and exactly the survivors of the stored queue, which fit; loading it again changes nothing |
| PoolRuns.MintExact | internal/chain/chain.go:117-119 | a faucet call on a fitting queue appends an unsigned coinbase with the given recipient, amount and clock reading iff the amount is positive, the recipient is an address and its balance after the queue has room; otherwise it changes nothing |
| Witnesses.NegativeTargetPanics | internal/block/block.go:98-106 | under every suite, genesis followed by a sealed block of difficulty -1 makes Validate panic |
| Witnesses.LateClockIsMined | internal/chain/chain.go:135 | on any valid chain a clock reading behind the tip can be mined, and leaves a chain Validate refuses with balances that are the replayed ones |
| Witnesses.LateClockIsNotLoaded | internal/chain/chain.go:65-69 | one such attempt on a new chain: its queue fits and it restores to itself, but Load refuses it |
| Witnesses.BlockedForever | internal/chain/chain.go:130-133 | while the first queued transaction pays the miner more than fits beside the reward, every attempt of every run is rejected before mining, and blocks, balances and the front of the queue stay |
| Witnesses.FaucetCanBlockMining | internal/chain/chain.go:117-119 | one accepted faucet call on a new chain leaves a fitting queue, and no run from there ever adds a block |
| Witnesses.TwoMintsOverflow | internal/chain/chain.go:156-163 | two accepted faucet calls on a new chain with one free slot: the check before mining passes, and the rest of the queue does not fit the balances it leads to |
| Witnesses.MiningCanStalePool | internal/ledger/mempool.go:33-41 | from there any mined block leaves a pool that refuses every transaction as stale, and no run from there adds a block |
| Pool.GreedyIsSurvivors | internal/chain/chain.go:76-78 | restoring keeps, in order, exactly the positions that apply after the survivors before them |
| Pool.GreedyKeepsAll | internal/chain/chain.go:76-78 | restoring drops nothing iff the whole queue fits |
| Pool.GreedyIdempotent | internal/chain/chain.go:76-78 | restoring a restored queue drops nothing more |
| Pool.OfferKeepsFit | internal/ledger/mempool.go:26-45 | a fitting pool accepts a transaction iff the longer queue fits, never calls itself stale, and still fits afterwards |
| Pool.OfferExact | internal/ledger/mempool.go:33-45 | what a fitting pool answers to an offer, error by error, from what sender and recipient would hold once the queue is mined; an accepted one goes to the end |
| Pool.StaleExact | internal/ledger/mempool.go:34-38 | a pool that does not fit refuses everything, naming the first queued transaction that no longer applies and why |
| Pool.PrefixFits | internal/ledger/mempool.go:47-63 | the front of a fitting queue fits, and the rest fits the balances it leaves |
| Pool.Mempool.Add | internal/ledger/mempool.go:33-45 | reports staleness, rejection or success by replaying the queue, and appends only on success |
| Pool.Mempool.Peek | internal/ledger/mempool.go:49-54 | the longest front of at most n transactions |
| Pool.Mempool.Remove | internal/ledger/mempool.go:58-63 | drops the first n, or everything when there are fewer |
| Chains.Chain.Mine | internal/chain/chain.go:127-147 | every report is explained by the dry run or by a complete interleaving of the search for the template; rejected and unfinished attempts leave blocks, balances and pool as they were; success appends the block, replays its body and drains what came off the pool; applying the mined block cannot fail |
| Chains.Chain.FindBlock | internal/chain/chain.go:128-139 | the half of Mine that only looks: every report it gives is explained and a block it finds still applies to the confirmed balances |
| Chains.Chain.Load | internal/chain/chain.go:65-80 | returns a chain iff Validate accepts, holding the given blocks, their replayed balances and the greedy applicable part of the stored queue; the replay after validation cannot fail |
| Chains.Chain.constructor | internal/chain/chain.go:43-55 | a fresh chain holds the genesis block, no balances and an empty pool |
| Chains.Chain.AddTransaction | internal/chain/chain.go:110-112 | offers a transaction to the pool and touches nothing else |
| Chains.Chain.Faucet | internal/chain/chain.go:117-119 | offers a coinbase to the pool and touches nothing else |
| Chains.Chain.BuildBody | internal/chain/chain.go:156-164 | the reward, if positive, then as much of the front of the queue as fits beside it, with the number taken |
| Validation.Validate | internal/chain/validate.go:48-94 | accepts only valid chains; otherwise names the first block that breaks a rule and the first rule it breaks, or panics where the negative target comes first |
| Validation.OneVerdict | internal/chain/validate.go:38-94 | every chain has exactly one verdict, which is acceptance iff all rules hold for all blocks |
| Rules.AcceptedExactly | internal/chain/validate.go:24-94 | Validate accepts iff the chain starts from genesis, each block follows the one before it, commits to its transactions and header and carries its proof of work as a number, and all transactions together apply from nothing |
| Rules.AcceptedHasWork | internal/chain/validate.go:85-88 | in an accepted chain every difficulty is 0 to 64 and every hash, read as a number, is below 16^(64 - difficulty) |
| Rules.MisplacedVerdict | internal/chain/validate.go:53-76 | behind valid blocks, the exact error for a block 0 that is not genesis, and for a wrong height, an older timestamp or a wrong link, in that order |
| Rules.UncommittedVerdict | internal/chain/validate.go:77-84 | for a block in its place, the exact error for a wrong Merkle root and then for a wrong hash |
| Rules.WorkVerdict | internal/chain/validate.go:85-88 | for a block that commits to what it holds, a negative difficulty panics and a hash that is too large is reported under the difficulty rule |
| Rules.LedgerVerdict | internal/chain/validate.go:89-91 | for a block with nothing else wrong, the ledger error iff the history up to it cannot be applied |
| Validation.FaultIsLocal | internal/chain/validate.go:38-39 | nothing after the first faulty block can change the report, and the blocks before it form a valid chain |
| Validation.ValidPrefix | internal/chain/validate.go:38-94 | every non-empty prefix of a valid chain is valid |
| Validation.ValidExtension | internal/chain/validate.go:60-92 | one more block keeps a chain valid iff that block passes every rule |
| MinerProofs.EveryScheduleJustified | internal/miner/miner.go:65-127 | in every complete interleaving a returned block is the candidate except for nonce and hash, meets the target, and has the smallest solution of its residue class; a context error implies the caller cancelled; "no nonce" implies there is none; without cancellation a block is returned iff a solution exists |
| MinerProofs.NoncePartition | internal/miner/miner.go:59-61 | no nonce is hashed twice in any run, by any workers, and an exhausted search has hashed every uint64 exactly once |
| MinerProofs.NeverBlocks | internal/miner/miner.go:77 | in every reachable state each unfinished worker can step: the channel has room for whoever is about to send |
| MinerProofs.SendsAtMostOnce | internal/miner/miner.go:96-100 | the channel never holds more than one block per worker, nor two from one residue class |
| MinerProofs.RunsAreFinite | internal/miner/miner.go:91-107 | the length of a run plus the measure it ends in is at most the measure it starts in |
| MinerProofs.CancelIsPrompt | internal/miner/miner.go:26-28 | once the context is cancelled each worker computes at most 4096 more hashes, however it is scheduled |
| MinerProofs.CountIsExact | internal/miner/miner.go:108-127 | the count returned with a block is the number of hashes all workers computed, mod 2^64, whatever the interleaving |
| MinerProofs.OutcomeExact | internal/miner/miner.go:111-127 | a block is returned iff some worker stopped at a solution, even if the caller cancelled meanwhile; otherwise a context error iff the caller cancelled, and "no nonce" iff not |
| MinerProofs.WinnerIsFirst | internal/miner/miner.go:96-122 | the block returned is the first one sent |
| MinerProofs.WinnerStopsSearch | internal/miner/miner.go:96-99 | once a block is found the context is cancelled, or the worker that sent it is about to cancel it |
| MinerProofs.NoEarlyExit | internal/miner/miner.go:96-106 | a worker ends only at a solution, at the end of its class, or after a multiple of 4096 nonces in a cancelled search |
| MinerProofs.CompletesFrom | internal/miner/miner.go:91-111 | from every reachable state the search can be run to its end without the caller cancelling |
| MinerProofs.MineWith | internal/miner/miner.go:65-128 | under an arbitrary scheduler and cancellation at any moment the search follows a complete interleaving to a justified outcome, with the count of all hashes computed in it; with one worker the nonce is the smallest solution and the count is nonce + 1 mod 2^64 |
| MinerProofs.SearchAlone | internal/miner/miner.go:84-107 | one worker's loop returns the smallest solution of its class, or stops after a miss, at the end of the class or at the first multiple of 4096 nonces at which ctx is done; when ctx is never done it stops without a solution only if its class has none |
| MinerProofs.InvNext | internal/miner/miner.go:91-108 | every step of any worker or the caller keeps the search invariant |
| Miner.GuardIsWraparound | internal/miner/miner.go:104-106 | the guard fires exactly when nonce + stride leaves uint64 |
| Merkle.MerkleRoot | internal/block/merkle.go:34-59 | the nested loops compute the fold of the leaf digests, or 64 zeros for no transactions |
| Merkle.FoldIsTreeHash | internal/block/merkle.go:18-28 | the loop computes the top-down hash tree over the leaves expanded to 2^ceil(log2 n) by repeating the last node of odd levels, and hashes every pair of that tree |
| Merkle.RootIsTreeHash | internal/block/merkle.go:34-59 | the root is the hexadecimal of that tree over the digests of the transactions' encodings, and 64 zeros for no transactions |
| Merkle.ExpandExtends | internal/block/merkle.go:27-28 | expansion only appends to the list |
| Merkle.DepthIsCeilLog2 | internal/block/merkle.go:44-57 | the number of levels is the least d with n <= 2^d |
| Merkle.RootBindsExpansion | internal/block/merkle.go:30-33 | for equally deep trees equal expansions give equal roots, and equal roots give equal expansions or a collision between pairs the two loops hashed |
| Merkle.RootBindsLeaves | internal/block/merkle.go:30-33 | for equally long lists equal roots give equal leaf digests, or a collision |
| Merkle.RootBindsDepth | internal/block/merkle.go:44-58 | equal roots of trees of different depth: the first leaf of the shallower one has the digest of a 64-byte pair hashed in the other, or hashed pairs collide |
| Merkle.RepeatedLastLeaf | internal/block/merkle.go:27-28 | repeating the last leaf of any odd list of three or more leaves the root unchanged |
| Merkle.PathReachesRoot | internal/block/merkle.go:30-33 | every leaf has a path of exactly ceil(log2 n) sibling digests that folds to the root |
| Merkle.PathIsSound | internal/block/merkle.go:30-33 | a path of that length that folds to the root from position i starts at leaf i and is its path, or two hashed pairs collide |
| Codec.DecodeCanonical | internal/ledger/transaction.go:90-127 | the hashed encoding of a transaction can be read back, for any addresses, amounts and signature, iff the key holds no separator |
| Codec.CanonicalInjective | internal/ledger/transaction.go:94-96 | two transactions with such keys and equal encodings are equal |
| Codec.SigningBytesInjective | internal/ledger/transaction.go:90-99 | equal signing bytes mean equal transactions but for the signature, whatever the fields hold |
| Codec.SeparatorInKeyIsAmbiguous | internal/ledger/transaction.go:94-96 | with a separator in the key, moving it into the signature changes the transaction but not its bytes |
| Codec.DecodePreimage | internal/block/block.go:49-80 | the preimage of a block hash can be read back iff neither text field holds the separator |
| Codec.PreimageInjective | internal/block/block.go:62-63 | two headers without separators in their texts and with equal preimages are equal |
| Codec.TagsDiffer | internal/block/block.go:49-51 | a transaction encoding is never a block preimage |
| Transactions.WriteSigningBytes | internal/ledger/transaction.go:100-113 | the builder writes the tag and the five fields joined by separators |
| Transactions.WriteCanonicalBytes | internal/ledger/transaction.go:122-124 | the signing bytes, a separator and the signature |
| Transactions.WriteLenPrefixed | internal/ledger/transaction.go:144-148 | appends the decimal length, a colon and the text |
| Transactions.ValidAddress | internal/ledger/transaction.go:153-168 | the loop reports an empty text, one over 64 characters or one with a character outside the alphabet, in that order, and none iff the text is 1 to 64 allowed characters |
| Transactions.AddressAlphabet | internal/ledger/transaction.go:160-166 | the alphabet is the ASCII letters, digits, hyphen and underscore |
| Transactions.CoinbaseVerdict | internal/ledger/transaction.go:63-78 | a coinbase validates iff its amount is positive, its recipient is an address, and both key and signature are empty; which error otherwise |
| Transactions.TransferVerdict | internal/ledger/transaction.go:63-88 | a transfer validates iff its amount is positive, its recipient is an address other than the sender, and a 32-byte key whose digest spells the sender verifies the 64-byte signature |
| Transactions.TransferFault | internal/ledger/transaction.go:63-88 | the error of a refused transfer, up to the missing signature |
| Transactions.SignatureFault | internal/ledger/signature.go:89-109 | the error of a refused signature, in order: key encoding, signature encoding, owner, verification |
| Transactions.SignedTransferValid | internal/ledger/signature.go:69-79 | with a sound key, a signed transfer validates iff its amount is positive, its recipient is an address and is not the signer, whatever sender it started with; recipient, amount and timestamp are kept, and sender, key and signature are those of the key |
| Transactions.ValidTransferIsSigned | internal/ledger/signature.go:81-109 | a valid transfer carries a signature on its bytes by a 32-byte key whose digest spells the sender |
| Transactions.ValidPubKeyHasNoSeparator | internal/ledger/signature.go:94-97 | a valid transaction's key never contains the separator |
| Transactions.AddressOfIsAddress | internal/ledger/signature.go:64-67 | a key-derived address is 16 characters that validAddress accepts |
| Transactions.AddressIsDigest | internal/ledger/signature.go:64-67 | an address is the first 8 bytes of the digest of the key, in hexadecimal |
| Transactions.AddressesAgree | internal/ledger/signature.go:64-67 | two keys share an address iff those 8 bytes agree |
| Blocks.WriteHashPreimage | internal/block/block.go:65-80 | the builder writes the tag and the six fields joined by separators |
| Difficulty.TargetIsBound | internal/block/block.go:98-106 | an n-digit hex digest meets target d iff its value is below 16^(n-d) |
| Difficulty.QualifyingCount | internal/bench/bench.go:27-30 | exactly 16^(n-d) of the n-digit hex digests meet target d |
| Difficulty.TargetsNest | internal/block/block.go:98-106 | meeting a target implies meeting every lower one |
| Ledger.State.Apply | internal/ledger/state.go:77-89 | moves the money and drops an emptied sender, or reports the fault and changes nothing |
| Ledger.State.ApplyAll | internal/ledger/state.go:97-106 | commits the whole batch, or reports its first failure and changes nothing |
| Ledger.State.Clone | internal/ledger/state.go:44-50 | a new object with the same balances |
| Ledger.State.Supply | internal/ledger/state.go:110-116 | in any map order, the sum of the balances wrapped once |
| Ledger.SupplyExact | internal/ledger/state.go:108-116 | on positive balances that is the true total iff the total fits int64 |
| Ledger.ReplayConcat | internal/ledger/state.go:91-106 | a concatenation applies iff its parts apply in order, with the same result or the same failure |
| Ledger.FailureIsFinal | internal/ledger/state.go:91-106 | the first failure of a prefix is the first failure of the batch |
| Accounting.PostExact | internal/ledger/state.go:57-89 | on positive balances the int64 guard is exact, nothing wraps, and each account changes by its net amount |
| Accounting.FaultExact | internal/ledger/state.go:57-73 | on positive balances, which of the three errors is reported, or none, from what sender and recipient hold |
| Accounting.ReplayExact | internal/ledger/state.go:91-106 | a batch applies iff every transaction is valid, affordable on paper at its position and does not overflow its recipient; otherwise the reported one is the first that is not |
| Accounting.BatchFaultExact | internal/ledger/state.go:91-106 | the error of a refused batch is the one its balances on paper call for at the first bad position |
| Accounting.ReplayBalances | internal/ledger/state.go:77-106 | afterwards each balance is the initial one plus credits minus debits, and no empty entries are kept |
| Accounting.Conservation | internal/ledger/state.go:108-109 | the total grows by exactly what the batch's coinbases mint |
| Accounting.SpendingNeedsSignature | internal/ledger/signature.go:81-109 | an account loses at most what it signed away, each such transfer is signed by a key hashing to it, and it loses nothing without one |
| Accounting.Shift | internal/ledger/state.go:57-106 | extra coins for one account keep an applicable batch applicable iff its running balance plus the extra never overflows, and then they are simply there at the end |
| Accounting.ShiftWithinSupply | internal/ledger/state.go:57-106 | room in the total supply is room for the extra coins at every point |
| ChainAccounting.ReplayFlattens | internal/chain/chain.go:71-75 | replaying block by block is replaying all transactions in order |
| ChainAccounting.ClosedForm | internal/chain/chain.go:61-62 | after a replay each balance is credits minus debits within 0..MaxInt64, the balances sum to what was minted, and every transfer is signed by its sender's key |
| ChainAccounting.NoTheft | internal/ledger/signature.go:81-88 | however a chain continues, an account's balance falls only if one of the added blocks holds a transfer signed by a key of that account |

## Left out

- The HTTP server, command line, file store, JSON, keystore and `.env` parsing: input and output around the core; persistence appears only as the arguments of `Load`.
- Key generation, `KeyPairFromHex` and the insides of SHA-256 and Ed25519: kept opaque.
- `State.Accounts`: copying the map into a slice sorted by a library call would add only an easy member.
- Error texts and `shortHash`: an error keeps its kind, the position in the batch, and for a validation error the height, hash and rule.
- Elapsed time, hash rates and benchmark averages: wall clock and floating point.
- Slice sharing: sequences are values here, so the copies made by `Blocks`, `Pending`, `Peek` and `Remove` have nothing to protect.
- Chains.Chain.Mine: its first half, which changes nothing, is `FindBlock`; the two clock readings, the number of CPUs and the moment of cancellation are parameters or arbitrary choices; the configuration satisfies `config.Validate`, whose file and address settings are not modelled.
- Validation.Validate: the body of its loop is split into `CheckLinks` and `CheckProof`.
- Tamper.TamperEvidence: chain lengths are below 2^63, as Go slice lengths are.
- MinerProofs.MineWith: the part up to the join is `RunWorkers`, and the choice of the next step is `Schedule`; one step is one access to shared memory, in a total order; the Go memory model and the allocation of the channel are not modelled.
- MinerProofs.SearchAlone: the loop body is run on its own against an arbitrary answer of `ctx.Err()` at each poll; the interleaved form is the step relation.
- Replay protection, a limit on coinbase amounts and the choice between competing chains: the program makes no such claims.
