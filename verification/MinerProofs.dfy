/** What every interleaving of the nonce search guarantees. */
module MinerProofs {
  import opened Prelude
  import opened Crypto
  import opened Blocks
  import opened Miner

  // ------------------------------------------------------------ preservation

  lemma {:induction false} TotalUpdate(xs: seq<nat>, i: nat, v: nat)
    requires i < |xs|
    ensures Total(xs[i := v]) == Total(xs) - xs[i] + v
  {
    var last := |xs| - 1;
    if i == last {
      assert xs[i := v][..last] == xs[..last];
    } else {
      TotalUpdate(xs[..last], i, v);
      assert xs[i := v][..last] == xs[..last][i := v];
    }
  }

  // Changing a worker without changing whether it has sent.
  lemma ChannelKept(cr: Suite, c: Block, s: Search, w: nat, k: Worker, t: Search)
    requires c.difficulty >= 0 && w < |s.workers| && ChannelOk(cr, c, s)
    requires HasSent(cr, c, k) == HasSent(cr, c, s.workers[w])
    requires HasSent(cr, c, k) ==> k.nonce == s.workers[w].nonce
    requires t.workers == s.workers[w := k] && t.found == s.found && (t.stopped ==> s.found != [])
    ensures ChannelOk(cr, c, t)
  {
  }

  lemma CountKept(s: Search, w: nat, k: Worker, t: Search)
    requires w < |s.workers| && CountOk(s)
    requires k.phase != Done && s.workers[w].phase != Done
    requires t.workers == s.workers[w := k] && t.hashes == s.hashes
    ensures CountOk(t)
  {
    assert FinishedHashes(s.workers[w := k]) == FinishedHashes(s.workers);
  }

  lemma WorkersKept(cr: Suite, c: Block, s: Search, w: nat, k: Worker, t: Search)
    requires c.difficulty >= 0 && w < |s.workers| && WorkersOk(cr, c, s)
    requires t.workers == s.workers[w := k] && (s.Cancelled() ==> t.Cancelled())
    requires WorkerOk(cr, c, |s.workers|, w, k, t.Cancelled())
    ensures WorkersOk(cr, c, t)
  {
    forall v | 0 <= v < |t.workers| ensures WorkerOk(cr, c, |t.workers|, v, t.workers[v], t.Cancelled()) {
      assert WorkerOk(cr, c, |s.workers|, v, s.workers[v], s.Cancelled());
    }
  }

  lemma SendKeepsChannel(cr: Suite, c: Block, s: Search, w: nat, t: Search)
    requires c.difficulty >= 0 && w < |s.workers| && ChannelOk(cr, c, s)
    requires s.workers[w].phase == Sending && s.workers[w].nonce % |s.workers| == w
    requires s.workers[w].block == Filled(cr, c, s.workers[w].nonce)
    requires t == s.(workers := s.workers[w := s.workers[w].(phase := Stopping)], found := s.found + [s.workers[w].block])
    ensures ChannelOk(cr, c, t)
  {
    var stride, sent := |s.workers|, s.found;
    forall i | 0 <= i < |sent| ensures t.found[i] == sent[i] && sent[i].nonce % stride != w {
      assert HasSent(cr, c, s.workers[sent[i].nonce % stride]);
    }
    assert t.found[|sent|] == s.workers[w].block;
    forall v | 0 <= v < stride && HasSent(cr, c, t.workers[v])
      ensures Filled(cr, c, t.workers[v].nonce) in t.found
    {
      assert v != w ==> HasSent(cr, c, s.workers[v]);
    }
  }

  lemma TickHashing(cr: Suite, c: Block, s: Search, w: nat)
    requires c.difficulty >= 0 && Inv(cr, c, s) && Enabled(s, Tick(w)) && s.workers[w].phase == Hashing
    ensures Inv(cr, c, Next(cr, c, s, Tick(w)))
  {
    var k' := HashOne(cr, c, s.workers[w], |s.workers|);
    assert WorkerOk(cr, c, |s.workers|, w, s.workers[w], s.Cancelled());
    HashOneOk(cr, c, |s.workers|, w, s.workers[w], s.Cancelled());
    WorkersKept(cr, c, s, w, k', Next(cr, c, s, Tick(w)));
    ChannelKept(cr, c, s, w, k', Next(cr, c, s, Tick(w)));
    CountKept(s, w, k', Next(cr, c, s, Tick(w)));
  }

  lemma TickPolling(cr: Suite, c: Block, s: Search, w: nat)
    requires c.difficulty >= 0 && Inv(cr, c, s) && Enabled(s, Tick(w)) && s.workers[w].phase == Polling
    ensures Inv(cr, c, Next(cr, c, s, Tick(w)))
  {
    var k := s.workers[w];
    assert WorkerOk(cr, c, |s.workers|, w, k, s.Cancelled());
    AdvanceOk(cr, c, |s.workers|, w, k, s.Cancelled());
    var k' := if s.Cancelled() then k.(phase := Adding) else Advance(k, |s.workers|);
    WorkersKept(cr, c, s, w, k', Next(cr, c, s, Tick(w)));
    ChannelKept(cr, c, s, w, k', Next(cr, c, s, Tick(w)));
    CountKept(s, w, k', Next(cr, c, s, Tick(w)));
  }

  lemma TickSending(cr: Suite, c: Block, s: Search, w: nat)
    requires c.difficulty >= 0 && Inv(cr, c, s) && Enabled(s, Tick(w)) && s.workers[w].phase == Sending
    ensures Inv(cr, c, Next(cr, c, s, Tick(w)))
  {
    var k, t := s.workers[w], Next(cr, c, s, Tick(w));
    SendOk(cr, c, |s.workers|, w, k, s.Cancelled());
    WorkersKept(cr, c, s, w, k.(phase := Stopping), t);
    SendKeepsChannel(cr, c, s, w, t);
    CountKept(s, w, k.(phase := Stopping), t);
  }

  lemma SendOk(cr: Suite, c: Block, stride: nat, w: nat, k: Worker, cancelled: bool)
    requires c.difficulty >= 0 && stride > 0 && k.phase == Sending
    requires WorkerOk(cr, c, stride, w, k, cancelled)
    ensures WorkerOk(cr, c, stride, w, k.(phase := Stopping), cancelled)
    ensures k.nonce % stride == w && k.block == Filled(cr, c, k.nonce)
  {
  }

  lemma TickStopping(cr: Suite, c: Block, s: Search, w: nat)
    requires c.difficulty >= 0 && Inv(cr, c, s) && Enabled(s, Tick(w)) && s.workers[w].phase == Stopping
    ensures Inv(cr, c, Next(cr, c, s, Tick(w)))
  {
    var k, t := s.workers[w], Next(cr, c, s, Tick(w));
    StopOk(cr, c, |s.workers|, w, k);
    assert HasSent(cr, c, k);
    WorkersKept(cr, c, s, w, k.(phase := Adding), t);
    assert Filled(cr, c, k.nonce) in s.found;
    ChannelKept(cr, c, s, w, k.(phase := Adding), t);
    CountKept(s, w, k.(phase := Adding), t);
  }

  lemma StopOk(cr: Suite, c: Block, stride: nat, w: nat, k: Worker)
    requires c.difficulty >= 0 && stride > 0 && k.phase == Stopping
    requires WorkerOk(cr, c, stride, w, k, true) || WorkerOk(cr, c, stride, w, k, false)
    ensures WorkerOk(cr, c, stride, w, k.(phase := Adding), true)
    ensures HasSent(cr, c, k.(phase := Adding))
  {
  }

  lemma DoneOk(cr: Suite, c: Block, stride: nat, w: nat, k: Worker, cancelled: bool)
    requires c.difficulty >= 0 && stride > 0 && WorkerOk(cr, c, stride, w, k, cancelled) && k.phase == Adding
    ensures WorkerOk(cr, c, stride, w, k.(phase := Done), cancelled)
    ensures HasSent(cr, c, k.(phase := Done)) == HasSent(cr, c, k)
    ensures k.tried == WrapUint64(HashesBy(stride, k))
  {
  }

  lemma TickAdding(cr: Suite, c: Block, s: Search, w: nat)
    requires c.difficulty >= 0 && Inv(cr, c, s) && Enabled(s, Tick(w)) && s.workers[w].phase == Adding
    ensures Inv(cr, c, Next(cr, c, s, Tick(w)))
  {
    var k, t := s.workers[w], Next(cr, c, s, Tick(w));
    assert WorkerOk(cr, c, |s.workers|, w, k, s.Cancelled());
    DoneOk(cr, c, |s.workers|, w, k, s.Cancelled());
    WorkersKept(cr, c, s, w, k.(phase := Done), t);
    ChannelKept(cr, c, s, w, k.(phase := Done), t);
    AddingCounts(s, w, t);
  }

  lemma FinishedNext(s: Search, w: nat, k: Worker)
    requires w < |s.workers| && CountOk(s)
    requires s.workers[w].phase == Adding && k == s.workers[w].(phase := Done)
    ensures FinishedHashes(s.workers[w := k]) == FinishedHashes(s.workers)[w := HashesBy(|s.workers|, k)]
    ensures FinishedHashes(s.workers)[w] == 0
  {
  }

  lemma CountAdded(xs: seq<nat>, w: nat, n: nat, hashes: uint64, tried: uint64)
    requires w < |xs| && xs[w] == 0
    requires hashes == WrapUint64(Total(xs)) && tried == WrapUint64(n)
    ensures WrapUint64(hashes + tried) == WrapUint64(Total(xs[w := n]))
  {
    TotalUpdate(xs, w, n);
    WrapUint64Sum(Total(xs), n);
  }

  lemma AddingCounts(s: Search, w: nat, t: Search)
    requires w < |s.workers| && CountOk(s) && s.workers[w].phase == Adding
    requires s.workers[w].tried == WrapUint64(HashesBy(|s.workers|, s.workers[w]))
    requires t.workers == s.workers[w := s.workers[w].(phase := Done)]
    requires t.hashes == WrapUint64(s.hashes + s.workers[w].tried)
    ensures CountOk(t)
  {
    FinishedNext(s, w, t.workers[w]);
    CountAdded(FinishedHashes(s.workers), w, HashesBy(|s.workers|, t.workers[w]), s.hashes, s.workers[w].tried);
  }

  lemma InvNext(cr: Suite, c: Block, s: Search, a: Action)
    requires c.difficulty >= 0 && Inv(cr, c, s) && Enabled(s, a)
    ensures Inv(cr, c, Next(cr, c, s, a))
  {
    match a
    case CallerCancels =>
      var t := Next(cr, c, s, a);
      forall v | 0 <= v < |t.workers| ensures WorkerOk(cr, c, |t.workers|, v, t.workers[v], t.Cancelled()) {
        assert WorkerOk(cr, c, |s.workers|, v, s.workers[v], s.Cancelled());
      }
    case Tick(w) =>
      match s.workers[w].phase
      case Hashing => TickHashing(cr, c, s, w);
      case Sending => TickSending(cr, c, s, w);
      case Stopping => TickStopping(cr, c, s, w);
      case Polling => TickPolling(cr, c, s, w);
      case Adding => TickAdding(cr, c, s, w);
  }

  lemma {:induction false} TotalOfZeros(xs: seq<nat>)
    requires forall i :: 0 <= i < |xs| ==> xs[i] == 0
    ensures Total(xs) == 0
  {
    if xs != [] {
      TotalOfZeros(xs[..|xs| - 1]);
    }
  }

  lemma InvStart(cr: Suite, c: Block, stride: nat)
    requires c.difficulty >= 0 && 0 < stride <= MAX_INT64
    ensures Inv(cr, c, Start(c, stride))
  {
    var s := Start(c, stride);
    forall w | 0 <= w < stride ensures WorkerOk(cr, c, stride, w, s.workers[w], s.Cancelled()) {
      StartMissed(cr, c, stride, w);
      DivModOf(0, stride, w);
    }
    assert WorkersOk(cr, c, s);
    TotalOfZeros(FinishedHashes(s.workers));
  }

  lemma {:induction false} InvRun(cr: Suite, c: Block, s: Search, acts: seq<Action>, t: Search)
    requires c.difficulty >= 0 && Inv(cr, c, s) && IsSchedule(cr, c, s, acts, t)
    ensures Inv(cr, c, t) && |t.workers| == |s.workers|
    decreases |acts|
  {
    if acts != [] {
      InvNext(cr, c, s, acts[0]);
      InvRun(cr, c, Next(cr, c, s, acts[0]), acts[1..], t);
    }
  }

  // ----------------------------------------------- the channel never blocks

  lemma DistinctBelow(xs: seq<nat>, n: nat, missing: nat)
    requires forall i :: 0 <= i < |xs| ==> xs[i] < n && xs[i] != missing
    requires forall i, j :: 0 <= i < j < |xs| ==> xs[i] != xs[j]
    ensures |xs| <= n && (missing < n ==> |xs| < n)
  {
    var members := set i | 0 <= i < |xs| :: xs[i];
    var range := Below(n);
    SizeOfDistinct(xs);
    assert members <= range;
    if missing < n {
      assert members <= range - {missing};
      SubsetSize(members, range - {missing});
    }
    SubsetSize(members, range);
  }

  lemma SubsetSize(a: set<nat>, b: set<nat>)
    requires a <= b
    ensures |a| <= |b|
  {
    assert b == a + (b - a);
  }

  ghost function Below(n: nat): (r: set<nat>)
    ensures |r| == n && forall i: nat :: i in r <==> i < n
  {
    if n == 0 then {} else Below(n - 1) + {n - 1}
  }

  lemma {:induction false} SizeOfDistinct(xs: seq<nat>)
    requires forall i, j :: 0 <= i < j < |xs| ==> xs[i] != xs[j]
    ensures |set i | 0 <= i < |xs| :: xs[i]| == |xs|
  {
    if xs != [] {
      var init := xs[..|xs| - 1];
      SizeOfDistinct(init);
      var a, b := (set i | 0 <= i < |init| :: init[i]), (set i | 0 <= i < |xs| :: xs[i]);
      assert b == a + {xs[|xs| - 1]} by {
        forall x ensures x in b <==> x in a + {xs[|xs| - 1]} {
          if x in a {
            var i :| 0 <= i < |init| && init[i] == x;
            assert xs[i] == x;
          }
          if x in b {
            var i :| 0 <= i < |xs| && xs[i] == x;
            assert i < |init| ==> init[i] == x;
          }
        }
      }
    }
  }

  // In every reachable state a worker that has not finished can take its next
  // step: whoever is about to send finds room, so the join is reached.
  lemma NeverBlocks(cr: Suite, c: Block, s: Search, w: nat)
    requires c.difficulty >= 0 && Inv(cr, c, s)
    requires w < |s.workers| && s.workers[w].phase != Done
    ensures Enabled(s, Tick(w))
    ensures |s.found| <= |s.workers|
  {
    var stride := |s.workers|;
    var residues := seq(|s.found|, i requires 0 <= i < |s.found| => s.found[i].nonce % stride);
    if s.workers[w].phase == Sending {
      DistinctBelow(residues, stride, w);
    } else {
      DistinctBelow(residues, stride, stride);
    }
  }

  // ------------------------------------------------------------- termination

  ghost function Rank(k: Worker): nat {
    match k.phase
    case Done => 0
    case Adding => 1
    case Stopping => 2
    case Sending => 3
    case Polling => 8 * (TWO_64 - k.nonce) + 4
    case Hashing => 8 * (TWO_64 - k.nonce) + 5
  }

  ghost function Ranks(ws: seq<Worker>): seq<nat> {
    seq(|ws|, w requires 0 <= w < |ws| => Rank(ws[w]))
  }

  ghost function Measure(s: Search): nat {
    Total(Ranks(s.workers)) + if s.callerCancelled then 0 else 1
  }

  lemma MeasureDrops(cr: Suite, c: Block, s: Search, a: Action)
    requires c.difficulty >= 0 && 0 < |s.workers| <= MAX_INT64 && Enabled(s, a)
    ensures Measure(Next(cr, c, s, a)) < Measure(s)
  {
    if a.Tick? {
      var w := a.w;
      var k' := Next(cr, c, s, a).workers[w];
      RankDrops(cr, c, s, w);
      assert Ranks(s.workers[w := k']) == Ranks(s.workers)[w := Rank(k')];
      TotalUpdate(Ranks(s.workers), w, Rank(k'));
    }
  }

  lemma RankDrops(cr: Suite, c: Block, s: Search, w: nat)
    requires c.difficulty >= 0 && 0 < |s.workers| <= MAX_INT64 && Enabled(s, Tick(w))
    ensures Next(cr, c, s, Tick(w)).workers == s.workers[w := Next(cr, c, s, Tick(w)).workers[w]]
    ensures Next(cr, c, s, Tick(w)).callerCancelled == s.callerCancelled
    ensures Rank(Next(cr, c, s, Tick(w)).workers[w]) < Rank(s.workers[w])
  {
    GuardIsWraparound(s.workers[w].nonce, |s.workers|);
  }

  // No infinite runs: the length of a run is bounded by where it starts.
  lemma {:induction false} RunsAreFinite(cr: Suite, c: Block, s: Search, acts: seq<Action>, t: Search)
    requires c.difficulty >= 0 && 0 < |s.workers| <= MAX_INT64 && IsSchedule(cr, c, s, acts, t)
    ensures |acts| + Measure(t) <= Measure(s)
    decreases |acts|
  {
    if acts != [] {
      MeasureDrops(cr, c, s, acts[0]);
      RunsAreFinite(cr, c, Next(cr, c, s, acts[0]), acts[1..], t);
    }
  }

  // ----------------------------------------------------------------- outcome

  // What the search promises its caller.
  ghost predicate Justified(cr: Suite, c: Block, stride: nat, o: SearchOutcome, callerCancelled: bool)
    requires c.difficulty >= 0 && stride > 0
  {
    match o
    case Found(b, hashes) =>
      && b == Filled(cr, c, b.nonce)
      && FirstOfClass(cr, c, stride, b.nonce)
      && (stride == 1 ==> hashes == WrapUint64(b.nonce + 1))
    case ContextError => callerCancelled
    case NoNonce => forall n: uint64 :: !Solves(cr, c, n)
  }

  lemma SentIsFirst(cr: Suite, c: Block, s: Search)
    requires c.difficulty >= 0 && Inv(cr, c, s) && s.found != []
    ensures FirstOfClass(cr, c, |s.workers|, s.found[0].nonce)
    ensures s.found[0] == Filled(cr, c, s.found[0].nonce)
  {
    var stride, n := |s.workers|, s.found[0].nonce;
    assert WorkerOk(cr, c, stride, n % stride, s.workers[n % stride], s.Cancelled());
  }

  lemma {:induction false} StridesOfOne(n: nat)
    ensures Strides(1, n) == n
  {
    if n > 0 {
      StridesOfOne(n - 1);
    }
  }

  lemma SingleWorkerCount(cr: Suite, c: Block, s: Search)
    requires c.difficulty >= 0 && Inv(cr, c, s) && AllDone(s) && s.found != [] && |s.workers| == 1
    ensures s.hashes == WrapUint64(s.found[0].nonce + 1)
  {
    var k := s.workers[0];
    var n := s.found[0].nonce;
    assert n % 1 == 0 && s.workers[n % 1].nonce == n;
    var xs := FinishedHashes(s.workers);
    assert xs == [HashesBy(1, k)];
    StridesOfOne(n);
    assert xs[..0] == [];
    assert Total(xs) == (n as int) + 1;
  }

  lemma EverythingMissed(cr: Suite, c: Block, s: Search, n: uint64)
    requires c.difficulty >= 0 && Inv(cr, c, s) && AllDone(s) && s.found == [] && !s.Cancelled()
    ensures !Solves(cr, c, n)
  {
    var stride := |s.workers|;
    var w := n % stride;
    var k := s.workers[w];
    assert WorkerOk(cr, c, stride, w, k, false);
    assert !HasSent(cr, c, k);
    StrideStep(k.nonce, w, stride);
  }

  lemma OutcomeJustified(cr: Suite, c: Block, s: Search)
    requires c.difficulty >= 0 && Inv(cr, c, s) && AllDone(s)
    ensures Justified(cr, c, |s.workers|, Collect(s), s.callerCancelled)
  {
    if s.found != [] {
      SentIsFirst(cr, c, s);
      if |s.workers| == 1 {
        SingleWorkerCount(cr, c, s);
      }
    } else if !s.Cancelled() {
      forall n: uint64 ensures !Solves(cr, c, n) {
        EverythingMissed(cr, c, s, n);
      }
    }
  }

  // A schedule from the start until every worker has finished.
  ghost predicate CompleteRun(cr: Suite, c: Block, stride: nat, acts: seq<Action>, t: Search)
    requires c.difficulty >= 0
  {
    0 < stride <= MAX_INT64 && IsSchedule(cr, c, Start(c, stride), acts, t) && AllDone(t)
  }

  // Some schedule makes the search return o.
  ghost predicate IsResult(cr: Suite, c: Block, stride: nat, o: SearchOutcome, callerCancelled: bool)
    requires c.difficulty >= 0
  {
    exists acts, t :: CompleteRun(cr, c, stride, acts, t) && o == Collect(t) && callerCancelled == t.callerCancelled
  }

  lemma ResultJustified(cr: Suite, c: Block, stride: nat, o: SearchOutcome, callerCancelled: bool)
    requires c.difficulty >= 0 && stride > 0 && IsResult(cr, c, stride, o, callerCancelled)
    ensures Justified(cr, c, stride, o, callerCancelled)
  {
    var acts, t :| CompleteRun(cr, c, stride, acts, t) && o == Collect(t) && callerCancelled == t.callerCancelled;
    EveryScheduleJustified(cr, c, stride, acts, t);
  }

  // Which of the three outcomes it is: a block whenever some worker stopped at a
  // solution, even if the caller cancelled meanwhile; otherwise the caller's
  // cancellation decides.
  lemma OutcomeExact(cr: Suite, c: Block, stride: nat, acts: seq<Action>, t: Search)
    requires c.difficulty >= 0 && CompleteRun(cr, c, stride, acts, t)
    ensures
      var solved := exists w :: 0 <= w < |t.workers| && Solves(cr, c, t.workers[w].nonce);
      && (Collect(t).Found? <==> solved)
      && (Collect(t) == ContextError <==> !solved && t.callerCancelled)
      && (Collect(t) == NoNonce <==> !solved && !t.callerCancelled)
  {
    InvStart(cr, c, stride);
    InvRun(cr, c, Start(c, stride), acts, t);
    if t.found != [] {
      SentIsFirst(cr, c, t);
      var w := t.found[0].nonce % |t.workers|;
      assert HasSent(cr, c, t.workers[w]) && t.workers[w].nonce == t.found[0].nonce;
    }
    if w :| 0 <= w < |t.workers| && Solves(cr, c, t.workers[w].nonce) {
      assert HasSent(cr, c, t.workers[w]);
    }
  }

  // The block returned is the first one sent: nothing that happens later takes its
  // place.
  lemma {:induction false} WinnerIsFirst(cr: Suite, c: Block, s: Search, acts: seq<Action>, t: Search)
    requires c.difficulty >= 0 && s.found != [] && IsSchedule(cr, c, s, acts, t)
    ensures Collect(t).Found? && Collect(t).block == s.found[0]
    decreases |acts|
  {
    if acts != [] {
      WinnerIsFirst(cr, c, Next(cr, c, s, acts[0]), acts[1..], t);
    }
  }

  // The search has been stopped, or is about to be by the worker that sent.
  ghost predicate StopIsDue(s: Search) {
    s.found == [] || s.stopped || exists w :: 0 <= w < |s.workers| && s.workers[w].phase == Stopping
  }

  lemma StopIsDueNext(cr: Suite, c: Block, s: Search, a: Action)
    requires c.difficulty >= 0 && StopIsDue(s) && Enabled(s, a)
    ensures StopIsDue(Next(cr, c, s, a))
  {
    var t := Next(cr, c, s, a);
    if s.found != [] && !s.stopped {
      var w :| 0 <= w < |s.workers| && s.workers[w].phase == Stopping;
      assert a == Tick(w) || t.workers[w] == s.workers[w];
    }
    if a.Tick? {
      assert s.workers[a.w].phase == Sending ==> t.workers[a.w].phase == Stopping;
    }
  }

  // A winner stops the others: from any reachable state on, a found block means
  // that the search is stopped or that a worker is about to stop it.
  lemma {:induction false} WinnerStopsSearch(cr: Suite, c: Block, s: Search, acts: seq<Action>, t: Search)
    requires c.difficulty >= 0 && StopIsDue(s) && IsSchedule(cr, c, s, acts, t)
    ensures t.found != [] ==> t.stopped || exists w :: 0 <= w < |t.workers| && t.workers[w].phase == Stopping
    decreases |acts|
  {
    if acts != [] {
      StopIsDueNext(cr, c, s, acts[0]);
      WinnerStopsSearch(cr, c, Next(cr, c, s, acts[0]), acts[1..], t);
    }
  }

  // No worker gives up early: it ends at a solution, at the end of its class, or
  // after a multiple of 4096 nonces in a search that was cancelled.
  lemma NoEarlyExit(cr: Suite, c: Block, stride: nat, acts: seq<Action>, t: Search, w: nat)
    requires c.difficulty >= 0 && CompleteRun(cr, c, stride, acts, t) && w < |t.workers|
    ensures
      var k := t.workers[w];
      Solves(cr, c, k.nonce) || k.nonce + stride >= TWO_64 || ((t.stopped || t.callerCancelled) && k.tried % 4096 == 0)
  {
    InvStart(cr, c, stride);
    InvRun(cr, c, Start(c, stride), acts, t);
    assert WorkerOk(cr, c, stride, w, t.workers[w], t.Cancelled());
  }

  // Every complete run of every schedule gives a justified outcome, and when the
  // caller does not cancel a block is returned exactly when one exists.
  lemma EveryScheduleJustified(cr: Suite, c: Block, stride: nat, acts: seq<Action>, t: Search)
    requires c.difficulty >= 0 && 0 < stride <= MAX_INT64
    requires IsSchedule(cr, c, Start(c, stride), acts, t) && AllDone(t)
    ensures Justified(cr, c, stride, Collect(t), t.callerCancelled)
    ensures !t.callerCancelled ==> (Collect(t).Found? <==> exists n: uint64 :: Solves(cr, c, n))
  {
    InvStart(cr, c, stride);
    InvRun(cr, c, Start(c, stride), acts, t);
    OutcomeJustified(cr, c, t);
  }

  // The channel holds at most one block per worker in every reachable state, and
  // two blocks never come from the same residue class.
  lemma SendsAtMostOnce(cr: Suite, c: Block, stride: nat, acts: seq<Action>, t: Search)
    requires c.difficulty >= 0 && 0 < stride <= MAX_INT64
    requires IsSchedule(cr, c, Start(c, stride), acts, t)
    ensures |t.found| <= stride
    ensures forall i, j :: 0 <= i < j < |t.found| ==> t.found[i].nonce % stride != t.found[j].nonce % stride
  {
    InvStart(cr, c, stride);
    InvRun(cr, c, Start(c, stride), acts, t);
    var residues := seq(|t.found|, i requires 0 <= i < |t.found| => t.found[i].nonce % stride);
    DistinctBelow(residues, stride, stride);
  }

  // --------------------------------------------------- every nonce just once

  // The worker that owns nonce n has hashed it.
  ghost predicate Visited(s: Search, n: uint64)
    requires |s.workers| > 0
  {
    var k := s.workers[n % |s.workers|];
    n < k.nonce || (n == k.nonce && k.phase != Hashing)
  }

  // How many times a run hashes nonce n, over all workers.
  ghost function TimesHashed(cr: Suite, c: Block, s: Search, acts: seq<Action>, t: Search, n: uint64): nat
    requires c.difficulty >= 0 && IsSchedule(cr, c, s, acts, t)
    decreases |acts|
  {
    if acts == [] then 0
    else
      var a := acts[0];
      (if a.Tick? && s.workers[a.w].phase == Hashing && s.workers[a.w].nonce == n then 1 else 0)
      + TimesHashed(cr, c, Next(cr, c, s, a), acts[1..], t, n)
  }

  // A worker moving past its own nonce visits it and nothing else.
  lemma VisitedTick(cr: Suite, c: Block, stride: nat, w: nat, k: Worker, k': Worker, n: uint64)
    requires c.difficulty >= 0 && 0 < stride <= MAX_INT64 && w < stride && k.nonce % stride == w && n % stride == w
    requires k' == HashOne(cr, c, k, stride) || (k.phase == Polling && k' == Advance(k, stride))
    requires k.phase == Hashing || k.phase == Polling
    ensures (n < k'.nonce || (n == k'.nonce && k'.phase != Hashing)) <==> n <= k.nonce
  {
    StrideStep(k.nonce, w, stride);
    GuardIsWraparound(k.nonce, stride);
  }

  lemma VisitedNext(cr: Suite, c: Block, s: Search, a: Action, n: uint64)
    requires c.difficulty >= 0 && Inv(cr, c, s) && Enabled(s, a)
    ensures var hashed := a.Tick? && s.workers[a.w].phase == Hashing && s.workers[a.w].nonce == n;
      && |Next(cr, c, s, a).workers| == |s.workers|
      && (Visited(Next(cr, c, s, a), n) <==> Visited(s, n) || hashed)
      && (hashed ==> !Visited(s, n))
  {
    if a.Tick? {
      var w, stride := a.w, |s.workers|;
      var k := s.workers[w];
      assert WorkerOk(cr, c, stride, w, k, s.Cancelled());
      if n % stride == w {
        if k.phase == Hashing {
          VisitedTick(cr, c, stride, w, k, HashOne(cr, c, k, stride), n);
        } else if k.phase == Polling {
          VisitedTick(cr, c, stride, w, k, Advance(k, stride), n);
        }
      }
    }
  }

  lemma {:induction false} HashedAtMostOnce(cr: Suite, c: Block, s: Search, acts: seq<Action>, t: Search, n: uint64)
    requires c.difficulty >= 0 && Inv(cr, c, s) && IsSchedule(cr, c, s, acts, t)
    ensures |t.workers| == |s.workers|
    ensures TimesHashed(cr, c, s, acts, t, n) == (if Visited(t, n) then 1 else 0) - (if Visited(s, n) then 1 else 0)
    decreases |acts|
  {
    if acts != [] {
      InvNext(cr, c, s, acts[0]);
      VisitedNext(cr, c, s, acts[0], n);
      HashedAtMostOnce(cr, c, Next(cr, c, s, acts[0]), acts[1..], t, n);
    }
  }

  // From the start of a search no nonce is ever hashed twice, by any workers;
  // an exhausted search has hashed every uint64 exactly once.
  lemma NoncePartition(cr: Suite, c: Block, stride: nat, acts: seq<Action>, t: Search, n: uint64)
    requires c.difficulty >= 0 && 0 < stride <= MAX_INT64
    requires IsSchedule(cr, c, Start(c, stride), acts, t)
    ensures TimesHashed(cr, c, Start(c, stride), acts, t, n) <= 1
    ensures AllDone(t) && Collect(t) == NoNonce ==> TimesHashed(cr, c, Start(c, stride), acts, t, n) == 1
  {
    var s := Start(c, stride);
    InvStart(cr, c, stride);
    InvRun(cr, c, s, acts, t);
    HashedAtMostOnce(cr, c, s, acts, t, n);
    ResidueAtMost(n, stride);
    assert !Visited(s, n);
    if AllDone(t) && Collect(t) == NoNonce {
      var w := n % stride;
      assert WorkerOk(cr, c, stride, w, t.workers[w], false);
      assert !HasSent(cr, c, t.workers[w]);
      StrideStep(t.workers[w].nonce, w, stride);
    }
  }

  // ---------------------------------------------------------- cancellation

  // How many more nonces a worker can hash before it reads the context.
  ghost function Budget(k: Worker): nat {
    if k.phase == Hashing then CANCEL_CHECK_INTERVAL - k.tried % CANCEL_CHECK_INTERVAL else 0
  }

  ghost function HashTicks(cr: Suite, c: Block, s: Search, acts: seq<Action>, t: Search, w: nat): nat
    requires c.difficulty >= 0 && IsSchedule(cr, c, s, acts, t) && w < |s.workers|
    decreases |acts|
  {
    if acts == [] then 0
    else
      (if acts[0] == Tick(w) && s.workers[w].phase == Hashing then 1 else 0)
      + HashTicks(cr, c, Next(cr, c, s, acts[0]), acts[1..], t, w)
  }

  lemma HashesByNext(cr: Suite, c: Block, s: Search, a: Action, w: nat)
    requires c.difficulty >= 0 && WorkersOk(cr, c, s) && Enabled(s, a) && w < |s.workers|
    ensures |Next(cr, c, s, a).workers| == |s.workers|
    ensures HashesBy(|s.workers|, Next(cr, c, s, a).workers[w]) ==
      HashesBy(|s.workers|, s.workers[w]) + if a == Tick(w) && s.workers[w].phase == Hashing then 1 else 0
  {
    var k, k' := s.workers[w], Next(cr, c, s, a).workers[w];
    if a == Tick(w) {
      assert WorkerOk(cr, c, |s.workers|, w, k, s.Cancelled());
      if k.phase == Hashing {
        assert k' == HashOne(cr, c, k, |s.workers|);
        HashesByTick(cr, c, |s.workers|, w, k);
      } else if k.phase == Polling && !s.Cancelled() {
        assert k' == Advance(k, |s.workers|);
        HashesByTick(cr, c, |s.workers|, w, k);
      } else {
        assert k'.nonce == k.nonce && k'.phase != Hashing;
      }
    } else {
      assert k' == k;
    }
  }

  lemma HashesByTick(cr: Suite, c: Block, stride: nat, w: nat, k: Worker)
    requires c.difficulty >= 0 && 0 < stride <= MAX_INT64 && w < stride && k.nonce % stride == w
    ensures k.phase == Hashing ==> HashesBy(stride, HashOne(cr, c, k, stride)) == HashesBy(stride, k) + 1
    ensures k.phase == Polling ==> HashesBy(stride, Advance(k, stride)) == HashesBy(stride, k)
  {
    GuardIsWraparound(k.nonce, stride);
    StrideStep(k.nonce, w, stride);
  }

  lemma {:induction false} TicksAreHashes(cr: Suite, c: Block, s: Search, acts: seq<Action>, t: Search, w: nat)
    requires c.difficulty >= 0 && Inv(cr, c, s) && IsSchedule(cr, c, s, acts, t) && w < |s.workers|
    ensures |t.workers| == |s.workers|
    ensures HashTicks(cr, c, s, acts, t, w) == HashesBy(|s.workers|, t.workers[w]) - HashesBy(|s.workers|, s.workers[w])
    decreases |acts|
  {
    if acts != [] {
      HashesByNext(cr, c, s, acts[0], w);
      InvNext(cr, c, s, acts[0]);
      TicksAreHashes(cr, c, Next(cr, c, s, acts[0]), acts[1..], t, w);
    }
  }

  ghost function TicksPerWorker(cr: Suite, c: Block, s: Search, acts: seq<Action>, t: Search): seq<nat>
    requires c.difficulty >= 0 && IsSchedule(cr, c, s, acts, t)
  {
    seq(|s.workers|, w requires 0 <= w < |s.workers| => HashTicks(cr, c, s, acts, t, w))
  }

  // The count returned with a block is the number of hashes all workers computed,
  // mod 2^64.
  lemma CountIsExact(cr: Suite, c: Block, stride: nat, acts: seq<Action>, t: Search)
    requires c.difficulty >= 0 && CompleteRun(cr, c, stride, acts, t)
    ensures Collect(t).Found? ==>
      Collect(t).hashes == WrapUint64(Total(TicksPerWorker(cr, c, Start(c, stride), acts, t)))
  {
    var s := Start(c, stride);
    InvStart(cr, c, stride);
    InvRun(cr, c, s, acts, t);
    forall w | 0 <= w < stride
      ensures HashTicks(cr, c, s, acts, t, w) == HashesBy(stride, t.workers[w])
    {
      TicksAreHashes(cr, c, s, acts, t, w);
    }
    assert TicksPerWorker(cr, c, s, acts, t) == FinishedHashes(t.workers);
  }

  lemma BudgetNext(cr: Suite, c: Block, s: Search, a: Action, w: nat)
    requires c.difficulty >= 0 && w < |s.workers| && Enabled(s, a) && s.Cancelled()
    ensures var t := Next(cr, c, s, a);
      && t.Cancelled() && |t.workers| == |s.workers|
      && Budget(t.workers[w]) + (if a == Tick(w) && s.workers[w].phase == Hashing then 1 else 0) <= Budget(s.workers[w])
  {
    if a == Tick(w) && s.workers[w].phase == Hashing {
      CycleStep(s.workers[w].tried);
    }
  }

  lemma CycleStep(tried: uint64)
    ensures WrapUint64(tried + 1) % CANCEL_CHECK_INTERVAL == (tried + 1) % CANCEL_CHECK_INTERVAL
    ensures (tried + 1) % CANCEL_CHECK_INTERVAL ==
      if tried % CANCEL_CHECK_INTERVAL == CANCEL_CHECK_INTERVAL - 1 then 0 else tried % CANCEL_CHECK_INTERVAL + 1
  {
  }

  // Once the context is cancelled, by the caller or by a winner, each worker
  // hashes at most 4096 more nonces, however the rest is scheduled.
  lemma {:induction false} CancelIsPrompt(cr: Suite, c: Block, s: Search, acts: seq<Action>, t: Search, w: nat)
    requires c.difficulty >= 0 && w < |s.workers| && s.Cancelled() && IsSchedule(cr, c, s, acts, t)
    ensures HashTicks(cr, c, s, acts, t, w) <= Budget(s.workers[w]) <= 4096
    decreases |acts|
  {
    if acts != [] {
      BudgetNext(cr, c, s, acts[0], w);
      CancelIsPrompt(cr, c, Next(cr, c, s, acts[0]), acts[1..], t, w);
    }
  }

  // --------------------------------------------------------------- execution

  // Until every worker is done, one of them can take a step.
  lemma SomeStep(cr: Suite, c: Block, s: Search) returns (w: nat)
    requires c.difficulty >= 0 && Inv(cr, c, s) && !AllDone(s)
    ensures Enabled(s, Tick(w))
  {
    w :| w < |s.workers| && s.workers[w].phase != Done;
    NeverBlocks(cr, c, s, w);
  }

  // A search left alone by its caller always comes to an end.
  lemma {:induction false} CompletesFrom(cr: Suite, c: Block, s: Search) returns (acts: seq<Action>, t: Search)
    requires c.difficulty >= 0 && Inv(cr, c, s)
    ensures IsSchedule(cr, c, s, acts, t) && AllDone(t) && t.callerCancelled == s.callerCancelled
    decreases Measure(s)
  {
    if AllDone(s) {
      return [], s;
    }
    var w := SomeStep(cr, c, s);
    InvNext(cr, c, s, Tick(w));
    MeasureDrops(cr, c, s, Tick(w));
    var s' := Next(cr, c, s, Tick(w));
    acts, t := CompletesFrom(cr, c, s');
    Prepend(cr, c, s, Tick(w), acts, t);
    acts := [Tick(w)] + acts;
  }

  lemma Prepend(cr: Suite, c: Block, s: Search, a: Action, acts: seq<Action>, t: Search)
    requires c.difficulty >= 0 && Enabled(s, a) && IsSchedule(cr, c, Next(cr, c, s, a), acts, t)
    ensures IsSchedule(cr, c, s, [a] + acts, t)
  {
    assert ([a] + acts)[1..] == acts;
  }

  lemma {:induction false} OneMoreAction(cr: Suite, c: Block, s: Search, acts: seq<Action>, t: Search, a: Action)
    requires c.difficulty >= 0 && IsSchedule(cr, c, s, acts, t) && Enabled(t, a)
    ensures IsSchedule(cr, c, s, acts + [a], Next(cr, c, t, a))
    decreases |acts|
  {
    var longer := acts + [a];
    if acts == [] {
      assert longer[1..] == [];
    } else {
      OneMoreAction(cr, c, Next(cr, c, s, acts[0]), acts[1..], t, a);
      assert longer[0] == acts[0] && longer[1..] == acts[1..] + [a];
    }
  }

  lemma CompleteRunResult(cr: Suite, c: Block, stride: nat, acts: seq<Action>, t: Search)
    requires c.difficulty >= 0 && CompleteRun(cr, c, stride, acts, t)
    ensures IsResult(cr, c, stride, Collect(t), t.callerCancelled)
    ensures Justified(cr, c, stride, Collect(t), t.callerCancelled)
    ensures Collect(t).Found? ==> Collect(t).block.transactions == c.transactions
    ensures Collect(t).Found? ==>
      Collect(t).hashes == WrapUint64(Total(TicksPerWorker(cr, c, Start(c, stride), acts, t)))
  {
    EveryScheduleJustified(cr, c, stride, acts, t);
    CountIsExact(cr, c, stride, acts, t);
  }

  // The scheduler: any worker that is not done, or the caller's cancellation.
  method Schedule(cr: Suite, candidate: Block, s: Search) returns (a: Action)
    requires candidate.difficulty >= 0 && Inv(cr, candidate, s) && !AllDone(s)
    ensures Enabled(s, a)
  {
    var cancelNow: bool := *;
    if !s.callerCancelled && cancelNow {
      return CallerCancels;
    }
    var w: nat :| w < |s.workers| && s.workers[w].phase != Done;
    NeverBlocks(cr, candidate, s, w);
    return Tick(w);
  }

  // The workers up to the join, under a scheduler that may pick any of them at any
  // point and cancel the caller's context at any point. The ghost result is the
  // schedule that was followed.
  method RunWorkers(cr: Suite, candidate: Block, stride: nat) returns (s: Search, ghost acts: seq<Action>)
    requires candidate.difficulty >= 0 && 0 < stride <= MAX_INT64
    ensures CompleteRun(cr, candidate, stride, acts, s)
  {
    s := Start(candidate, stride);
    acts := [];
    InvStart(cr, candidate, stride);
    while !AllDone(s)
      invariant Inv(cr, candidate, s)
      invariant IsSchedule(cr, candidate, Start(candidate, stride), acts, s)
      decreases Measure(s)
    {
      var a := Schedule(cr, candidate, s);
      InvNext(cr, candidate, s, a);
      MeasureDrops(cr, candidate, s, a);
      OneMoreAction(cr, candidate, Start(candidate, stride), acts, s, a);
      acts := acts + [a];
      s := Next(cr, candidate, s, a);
    }
  }

  // MineWith, in which the caller may also cancel between the join and the last
  // read. The ghost results are the whole schedule and where it led.
  method MineWith(cr: Suite, candidate: Block, workers: int64)
    returns (o: SearchOutcome, callerCancelled: bool, ghost acts: seq<Action>, ghost t: Search)
    requires candidate.difficulty >= 0
    ensures CompleteRun(cr, candidate, if workers < 1 then 1 else workers, acts, t)
    ensures o == Collect(t) && callerCancelled == t.callerCancelled
    ensures IsResult(cr, candidate, if workers < 1 then 1 else workers, o, callerCancelled)
    ensures Justified(cr, candidate, if workers < 1 then 1 else workers, o, callerCancelled)
    ensures
      var start := Start(candidate, if workers < 1 then 1 else workers);
      o.Found? ==> o.hashes == WrapUint64(Total(TicksPerWorker(cr, candidate, start, acts, t)))
    ensures o.Found? ==> o.block.transactions == candidate.transactions
  {
    var stride := if workers < 1 then 1 else workers;
    var s;
    s, acts := RunWorkers(cr, candidate, stride);
    var cancelLate: bool := *;
    if !s.callerCancelled && cancelLate {
      OneMoreAction(cr, candidate, Start(candidate, stride), acts, s, CallerCancels);
      acts := acts + [CallerCancels];
      s := Next(cr, candidate, s, CallerCancels);
    }
    t := s;
    CompleteRunResult(cr, candidate, stride, acts, t);
    return Collect(s), s.callerCancelled, acts, t;
  }

  lemma {:induction false} StridesAtMost(stride: nat, n: nat)
    requires stride > 0
    ensures Strides(stride, n) <= n
  {
    if n >= stride {
      StridesAtMost(stride, n - stride);
    }
  }

  // Each multiple of 4096 up to n found the context still live.
  ghost predicate NotToldBy(ctxErr: nat -> bool, n: nat) {
    forall k :: 0 < k <= n && k % 4096 == 0 ==> !ctxErr(k)
  }

  lemma NotToldNext(ctxErr: nat -> bool, n: nat)
    requires NotToldBy(ctxErr, n) && ((n + 1) % 4096 == 0 ==> !ctxErr(n + 1))
    ensures NotToldBy(ctxErr, n + 1)
  {
  }

  // One worker's loop. ctxErr(k) is whether ctx.Err() is non-nil when read after
  // k nonces.
  method SearchAlone(cr: Suite, candidate: Block, offset: uint64, stride: uint64, ctxErr: nat -> bool)
    returns (sent: Option<Block>, tried: uint64, nonce: uint64)
    requires candidate.difficulty >= 0 && offset < stride <= MAX_INT64
    ensures nonce % stride == offset && MissedBelow(cr, candidate, stride, offset, nonce)
    ensures tried == WrapUint64(Strides(stride, nonce) + 1)
    ensures sent.Some? ==> sent.value == Filled(cr, candidate, nonce) && Solves(cr, candidate, nonce)
    ensures sent.None? ==> !Solves(cr, candidate, nonce)
    ensures sent.None? ==> nonce + stride >= TWO_64 || (tried % 4096 == 0 && ctxErr(tried))
    ensures NotToldBy(ctxErr, Strides(stride, nonce))
    ensures sent.None? && (forall k :: !ctxErr(k)) ==>
      forall n: uint64 :: n % stride == offset ==> !Solves(cr, candidate, n)
  {
    var b := candidate;
    nonce := offset;
    tried := 0;
    StartMissed(cr, candidate, stride, offset);
    DivModOf(0, stride, offset);
    while true
      invariant nonce % stride == offset && MissedBelow(cr, candidate, stride, offset, nonce)
      invariant b.(nonce := 0, hash := []) == candidate.(nonce := 0, hash := [])
      invariant tried == WrapUint64(Strides(stride, nonce))
      invariant NotToldBy(ctxErr, Strides(stride, nonce))
      decreases TWO_64 - nonce
    {
      StrideStep(nonce, offset, stride);
      GuardIsWraparound(nonce, stride);
      WrapUint64Add(Strides(stride, nonce), 1);
      b := b.(nonce := nonce);
      b := b.(hash := ComputeHash(cr, b));
      tried := WrapUint64(tried + 1);
      assert b == Filled(cr, candidate, nonce);
      if MeetsDifficulty(b.hash, b.difficulty) {
        return Some(b), tried, nonce;
      }
      MissExtends(cr, candidate, stride, offset, nonce);
      if tried % CANCEL_CHECK_INTERVAL == 0 && ctxErr(tried) {
        return None, tried, nonce;
      }
      if WrapUint64(nonce + stride) < nonce {
        return None, tried, nonce;
      }
      StridesAtMost(stride, nonce + stride);
      NotToldNext(ctxErr, Strides(stride, nonce));
      nonce := WrapUint64(nonce + stride);
    }
  }
}
