/** The concurrent nonce search.

    Workers run as an interleaved step relation: one action is one worker's next
    access to shared state, together with the local work before it, or the caller
    cancelling its context. MineWith executes the relation under an arbitrary
    scheduler; SearchAlone is one worker's loop as written.
 */
module Miner {
  import opened Prelude
  import opened Crypto
  import opened Blocks

  const CANCEL_CHECK_INTERVAL := 4096

  // The candidate with a nonce tried on it.
  function Filled(cr: Suite, c: Block, n: uint64): Block {
    var b := c.(nonce := n);
    b.(hash := ComputeHash(cr, b))
  }

  predicate Solves(cr: Suite, c: Block, n: uint64)
    requires c.difficulty >= 0
  {
    MeetsDifficulty(Filled(cr, c, n).hash, c.difficulty)
  }

  // ------------------------------------------------------------------ workers

  datatype Phase =
    | Hashing   // about to hash nonce
    | Sending   // found a solution, about to send it on the channel
    | Stopping  // sent it, about to call stop()
    | Polling   // about to read ctx.Err()
    | Adding    // left the loop, about to add its count
    | Done

  datatype Worker = Worker(phase: Phase, nonce: uint64, tried: uint64, block: Block)

  datatype Search = Search(
    workers: seq<Worker>,
    found: seq<Block>,       // contents of the channel, oldest first
    hashes: uint64,          // the atomic counter
    stopped: bool,           // a worker called stop()
    callerCancelled: bool    // the caller's own context is done
  ) {
    predicate Cancelled() {
      stopped || callerCancelled
    }
  }

  datatype Action = Tick(w: nat) | CallerCancels

  function Start(c: Block, stride: nat): Search
    requires stride <= MAX_INT64
  {
    Search(seq(stride, w requires 0 <= w < stride => Worker(Hashing, w, 0, c)), [], 0, false, false)
  }

  // nonce += stride, unless that wraps around.
  function Advance(k: Worker, stride: nat): Worker {
    var next := WrapUint64(k.nonce + stride);
    if next < k.nonce then k.(phase := Adding) else k.(phase := Hashing, nonce := next)
  }

  function HashOne(cr: Suite, c: Block, k: Worker, stride: nat): Worker
    requires c.difficulty >= 0
  {
    var k' := k.(block := Filled(cr, c, k.nonce), tried := WrapUint64(k.tried + 1));
    if Solves(cr, c, k.nonce) then k'.(phase := Sending)
    else if k'.tried % CANCEL_CHECK_INTERVAL == 0 then k'.(phase := Polling)
    else Advance(k', stride)
  }

  // A send blocks while the channel is full.
  predicate Enabled(s: Search, a: Action) {
    match a
    case CallerCancels => !s.callerCancelled
    case Tick(w) =>
      && w < |s.workers|
      && s.workers[w].phase != Done
      && (s.workers[w].phase == Sending ==> |s.found| < |s.workers|)
  }

  function Next(cr: Suite, c: Block, s: Search, a: Action): Search
    requires c.difficulty >= 0 && Enabled(s, a)
  {
    match a
    case CallerCancels => s.(callerCancelled := true)
    case Tick(w) =>
      var k, stride := s.workers[w], |s.workers|;
      match k.phase
      case Hashing => s.(workers := s.workers[w := HashOne(cr, c, k, stride)])
      case Sending => s.(workers := s.workers[w := k.(phase := Stopping)], found := s.found + [k.block])
      case Stopping => s.(workers := s.workers[w := k.(phase := Adding)], stopped := true)
      case Polling => s.(workers := s.workers[w := if s.Cancelled() then k.(phase := Adding) else Advance(k, stride)])
      case Adding => s.(workers := s.workers[w := k.(phase := Done)], hashes := WrapUint64(s.hashes + k.tried))
  }

  predicate AllDone(s: Search) {
    forall w :: 0 <= w < |s.workers| ==> s.workers[w].phase == Done
  }

  datatype SearchOutcome = Found(block: Block, hashes: uint64) | ContextError | NoNonce

  // What the caller reads after the join.
  function Collect(s: Search): SearchOutcome {
    if s.found != [] then Found(s.found[0], s.hashes)
    else if s.Cancelled() then ContextError
    else NoNonce
  }

  ghost predicate IsSchedule(cr: Suite, c: Block, s: Search, acts: seq<Action>, t: Search)
    requires c.difficulty >= 0
    decreases |acts|
  {
    if acts == [] then s == t
    else Enabled(s, acts[0]) && IsSchedule(cr, c, Next(cr, c, s, acts[0]), acts[1..], t)
  }

  // ---------------------------------------------------------------- invariant

  // Every nonce of residue class w below n fails.
  ghost predicate MissedBelow(cr: Suite, c: Block, stride: nat, w: nat, n: int)
    requires c.difficulty >= 0 && stride > 0
  {
    forall m: uint64 :: m < n && m % stride == w ==> !Solves(cr, c, m)
  }

  // n is a solution and the smallest one of its residue class.
  ghost predicate FirstOfClass(cr: Suite, c: Block, stride: nat, n: uint64)
    requires c.difficulty >= 0 && stride > 0
  {
    Solves(cr, c, n) && MissedBelow(cr, c, stride, n % stride, n)
  }

  // How many whole strides lie below n.
  ghost function Strides(stride: nat, n: nat): nat
    requires stride > 0
  {
    if n < stride then 0 else 1 + Strides(stride, n - stride)
  }

  // How many nonces a worker has hashed, counted without wrapping: one for each
  // stride behind it, and the current one once it is past Hashing.
  ghost function HashesBy(stride: nat, k: Worker): nat
    requires stride > 0
  {
    Strides(stride, k.nonce) + if k.phase == Hashing then 0 else 1
  }

  // The worker was told to stop, at a nonce at which it asks.
  ghost predicate GaveUp(k: Worker, cancelled: bool) {
    cancelled && k.tried % CANCEL_CHECK_INTERVAL == 0
  }

  ghost predicate WorkerOk(cr: Suite, c: Block, stride: nat, w: nat, k: Worker, cancelled: bool)
    requires c.difficulty >= 0 && stride > 0
  {
    && k.nonce % stride == w
    && MissedBelow(cr, c, stride, w, k.nonce)
    && k.tried == WrapUint64(HashesBy(stride, k))
    && match k.phase
       case Hashing => true
       case Sending => Solves(cr, c, k.nonce) && k.block == Filled(cr, c, k.nonce)
       case Stopping => Solves(cr, c, k.nonce)
       case Polling => !Solves(cr, c, k.nonce) && k.tried % CANCEL_CHECK_INTERVAL == 0
       case Adding => Solves(cr, c, k.nonce) || k.nonce + stride >= TWO_64 || GaveUp(k, cancelled)
       case Done => Solves(cr, c, k.nonce) || k.nonce + stride >= TWO_64 || GaveUp(k, cancelled)
  }

  // The worker has put its solution on the channel.
  ghost predicate HasSent(cr: Suite, c: Block, k: Worker)
    requires c.difficulty >= 0
  {
    k.phase == Stopping || ((k.phase == Adding || k.phase == Done) && Solves(cr, c, k.nonce))
  }

  // Blocks on the channel come from different workers, each in its final nonce.
  ghost predicate ChannelOk(cr: Suite, c: Block, s: Search)
    requires c.difficulty >= 0 && |s.workers| > 0
  {
    var stride := |s.workers|;
    && (forall i :: 0 <= i < |s.found| ==>
          var n := s.found[i].nonce;
          && s.found[i] == Filled(cr, c, n)
          && HasSent(cr, c, s.workers[n % stride])
          && s.workers[n % stride].nonce == n)
    && (forall i, j :: 0 <= i < j < |s.found| ==> s.found[i].nonce % stride != s.found[j].nonce % stride)
    && (forall w :: 0 <= w < stride && HasSent(cr, c, s.workers[w]) ==> Filled(cr, c, s.workers[w].nonce) in s.found)
    && (s.stopped ==> s.found != [])
  }

  ghost function Total(xs: seq<nat>): nat {
    if xs == [] then 0 else Total(xs[..|xs| - 1]) + xs[|xs| - 1]
  }

  ghost function FinishedHashes(ws: seq<Worker>): seq<nat>
  {
    seq(|ws|, w requires 0 <= w < |ws| => if ws[w].phase == Done then HashesBy(|ws|, ws[w]) else 0)
  }

  ghost predicate WorkersOk(cr: Suite, c: Block, s: Search)
    requires c.difficulty >= 0
  {
    && 0 < |s.workers| <= MAX_INT64
    && forall w :: 0 <= w < |s.workers| ==> WorkerOk(cr, c, |s.workers|, w, s.workers[w], s.Cancelled())
  }

  lemma ResidueAtMost(n: nat, stride: nat)
    requires stride > 0
    ensures n % stride <= n
  {
  }

  ghost predicate CountOk(s: Search) {
    s.hashes == WrapUint64(Total(FinishedHashes(s.workers)))
  }

  ghost predicate Inv(cr: Suite, c: Block, s: Search)
    requires c.difficulty >= 0
  {
    WorkersOk(cr, c, s) && ChannelOk(cr, c, s) && CountOk(s)
  }

  // ------------------------------------------------------- stride arithmetic

  lemma StrideStep(n: nat, w: nat, stride: nat)
    requires w < stride && n % stride == w
    ensures (n + stride) % stride == w
    ensures Strides(stride, n + stride) == Strides(stride, n) + 1
    ensures forall m :: n < m < n + stride ==> m % stride != w
  {
    var q := n / stride;
    assert n == q * stride + w;
    DivModOf(q, stride, w);
    DivModOf(q + 1, stride, w);
    assert (q + 1) * stride + w == n + stride;
    forall m | n < m < n + stride ensures m % stride != w {
      if m % stride == w {
        var p := m / stride;
        assert m == p * stride + w;
        if p <= q {
          MulAtMost(p, q, stride);
        } else {
          MulAtMost(q + 1, p, stride);
        }
      }
    }
  }

  // The guard nonce+stride < nonce fires exactly when the sum leaves uint64.
  lemma GuardIsWraparound(n: uint64, stride: nat)
    requires 0 < stride < TWO_64
    ensures WrapUint64(n + stride) < n <==> n + stride >= TWO_64
    ensures n + stride < TWO_64 ==> WrapUint64(n + stride) == n + stride
  {
  }

  lemma MissExtends(cr: Suite, c: Block, stride: nat, w: nat, n: uint64)
    requires c.difficulty >= 0 && w < stride && n % stride == w
    requires MissedBelow(cr, c, stride, w, n) && !Solves(cr, c, n)
    ensures MissedBelow(cr, c, stride, w, n + stride)
  {
    StrideStep(n, w, stride);
  }

  lemma StartMissed(cr: Suite, c: Block, stride: nat, w: nat)
    requires c.difficulty >= 0 && w < stride
    ensures MissedBelow(cr, c, stride, w, w)
  {
    forall m: uint64 | m < w ensures m % stride != w {
      DivModOf(0, stride, m);
    }
  }

  // After a miss at nonce, either the class goes on at nonce+stride or it is
  // used up.
  lemma AdvanceOk(cr: Suite, c: Block, stride: nat, w: nat, k: Worker, cancelled: bool)
    requires c.difficulty >= 0 && 0 < stride <= MAX_INT64 && w < stride
    requires k.nonce % stride == w && MissedBelow(cr, c, stride, w, k.nonce) && !Solves(cr, c, k.nonce)
    requires k.phase == Hashing || k.phase == Polling
    requires k.tried == WrapUint64(Strides(stride, k.nonce) + 1)
    ensures WorkerOk(cr, c, stride, w, Advance(k, stride), cancelled)
    ensures !HasSent(cr, c, Advance(k, stride))
  {
    GuardIsWraparound(k.nonce, stride);
    if k.nonce + stride < TWO_64 {
      assert Advance(k, stride) == k.(phase := Hashing, nonce := k.nonce + stride);
      MoveOnOk(cr, c, stride, w, k, cancelled);
    } else {
      assert Advance(k, stride) == k.(phase := Adding);
    }
  }

  lemma MoveOnOk(cr: Suite, c: Block, stride: nat, w: nat, k: Worker, cancelled: bool)
    requires c.difficulty >= 0 && 0 < stride && w < stride && k.nonce + stride < TWO_64
    requires k.nonce % stride == w && MissedBelow(cr, c, stride, w, k.nonce) && !Solves(cr, c, k.nonce)
    requires k.tried == WrapUint64(Strides(stride, k.nonce) + 1)
    ensures WorkerOk(cr, c, stride, w, k.(phase := Hashing, nonce := k.nonce + stride), cancelled)
  {
    StrideStep(k.nonce, w, stride);
    MissExtends(cr, c, stride, w, k.nonce);
  }

  lemma HashOneOk(cr: Suite, c: Block, stride: nat, w: nat, k: Worker, cancelled: bool)
    requires c.difficulty >= 0 && 0 < stride <= MAX_INT64 && w < stride
    requires WorkerOk(cr, c, stride, w, k, cancelled) && k.phase == Hashing
    ensures WorkerOk(cr, c, stride, w, HashOne(cr, c, k, stride), cancelled)
    ensures !HasSent(cr, c, HashOne(cr, c, k, stride))
  {
    WrapUint64Add(Strides(stride, k.nonce), 1);
    StrideStep(k.nonce, w, stride);
    var k' := k.(block := Filled(cr, c, k.nonce), tried := WrapUint64(k.tried + 1));
    if !Solves(cr, c, k.nonce) && k'.tried % CANCEL_CHECK_INTERVAL != 0 {
      AdvanceOk(cr, c, stride, w, k', cancelled);
    }
  }
}
