/** The queue of accepted but unmined transactions. */
module Pool {
  import opened Prelude
  import opened Crypto
  import opened Transactions
  import opened Ledger
  import opened Accounting

  datatype PoolError =
    | Stale(index: nat, error: LedgerError)  // the queue no longer fits the state
    | Rejected(error: LedgerError)

  // The whole queue can be applied to the confirmed balances.
  ghost predicate Fits(cr: Suite, m: Balances, pending: seq<Transaction>) {
    Replay(cr, m, pending).Applied?
  }

  function AddFault(cr: Suite, m: Balances, pending: seq<Transaction>, tx: Transaction): Option<PoolError> {
    match Replay(cr, m, pending)
    case Failed(i, e) => Some(Stale(i, e))
    case Applied(projected) =>
      match Fault(cr, projected, tx)
      case Some(e) => Some(Rejected(e))
      case None => None
  }

  // The queue after offering tx to it.
  function Offer(cr: Suite, m: Balances, pending: seq<Transaction>, tx: Transaction): seq<Transaction> {
    if AddFault(cr, m, pending, tx).None? then pending + [tx] else pending
  }

  // The queue after offering each transaction in turn to an empty pool.
  function Greedy(cr: Suite, m: Balances, offered: seq<Transaction>): seq<Transaction> {
    if offered == [] then []
    else Offer(cr, m, Greedy(cr, m, offered[..|offered| - 1]), offered[|offered| - 1])
  }

  class Mempool {
    var pending: seq<Transaction>

    constructor (restored: seq<Transaction>)
      ensures pending == restored
    {
      pending := restored;
    }

    method Add(cr: Suite, tx: Transaction, confirmed: State) returns (fault: Option<PoolError>)
      modifies this
      ensures fault == AddFault(cr, confirmed.balances, old(pending), tx)
      ensures pending == Offer(cr, confirmed.balances, old(pending), tx)
    {
      var projected := confirmed.Clone();
      var r := projected.ApplyAll(cr, pending);
      if r.Failed? {
        return Some(Stale(r.index, r.error));
      }
      var e := projected.CanApply(cr, tx);
      if e.Some? {
        return Some(Rejected(e.value));
      }
      pending := pending + [tx];
      return None;
    }

    // The slice expression panics on a negative n.
    function Peek(n: int): (batch: seq<Transaction>)
      requires n >= 0
      reads this
      ensures batch <= pending && |batch| <= n && (|batch| < n ==> batch == pending)
    {
      pending[..if n > |pending| then |pending| else n]
    }

    method Remove(n: int)
      requires n >= 0
      modifies this
      ensures pending == if n > |old(pending)| then [] else old(pending)[n..]
    {
      var k := if n > |pending| then |pending| else n;
      pending := pending[k..];
    }
  }

  // A pool that fits accepts a transaction exactly when the longer queue fits,
  // never calls itself stale, and still fits afterwards.
  lemma OfferKeepsFit(cr: Suite, m: Balances, pending: seq<Transaction>, tx: Transaction)
    requires Fits(cr, m, pending)
    ensures AddFault(cr, m, pending, tx).None? <==> Fits(cr, m, pending + [tx])
    ensures AddFault(cr, m, pending, tx).Some? ==> AddFault(cr, m, pending, tx).value.Rejected?
    ensures Fits(cr, m, Offer(cr, m, pending, tx))
  {
    assert (pending + [tx])[..|pending|] == pending;
  }

  // What a pool that fits does with an offer, and why, in terms of what the
  // accounts would hold once the queue is mined.
  lemma OfferExact(cr: Suite, m: Balances, pending: seq<Transaction>, tx: Transaction)
    requires Positive(m) && Fits(cr, m, pending)
    ensures
      var senderHas, recipientHas := Running(m, pending, tx.from), Running(m, pending, tx.to);
      && (AddFault(cr, m, pending, tx) == None <==> FaultOf(cr, tx, senderHas, recipientHas, None))
      && (forall e :: AddFault(cr, m, pending, tx) == Some(Rejected(e)) <==> FaultOf(cr, tx, senderHas, recipientHas, Some(e)))
    ensures Offer(cr, m, pending, tx) == if AddFault(cr, m, pending, tx) == None then pending + [tx] else pending
  {
    ReplayBalances(cr, m, pending);
    FaultExact(cr, Replay(cr, m, pending).balances, tx);
  }

  // A pool that does not fit refuses everything, naming the first transaction of
  // the queue that no longer applies.
  lemma StaleExact(cr: Suite, m: Balances, pending: seq<Transaction>, tx: Transaction)
    requires Positive(m) && !Fits(cr, m, pending)
    ensures Offer(cr, m, pending, tx) == pending
    ensures AddFault(cr, m, pending, tx).Some? && AddFault(cr, m, pending, tx).value.Stale?
    ensures
      var i, e := AddFault(cr, m, pending, tx).value.index, AddFault(cr, m, pending, tx).value.error;
      && i < |pending| && !Admissible(cr, m, pending, i)
      && (forall j :: 0 <= j < i ==> Admissible(cr, m, pending, j))
      && FaultOf(cr, pending[i], Running(m, pending[..i], pending[i].from), Running(m, pending[..i], pending[i].to), Some(e))
  {
    ReplayExact(cr, m, pending);
    BatchFaultExact(cr, m, pending);
  }

  // A prefix of a queue that fits also fits.
  lemma PrefixFits(cr: Suite, m: Balances, txs: seq<Transaction>, n: nat)
    requires n <= |txs| && Fits(cr, m, txs)
    ensures Fits(cr, m, txs[..n])
    ensures Fits(cr, Replay(cr, m, txs[..n]).balances, txs[n..])
  {
    assert txs == txs[..n] + txs[n..];
    ReplayConcat(cr, m, txs[..n], txs[n..]);
  }

  lemma {:induction false} GreedyFits(cr: Suite, m: Balances, offered: seq<Transaction>)
    ensures Fits(cr, m, Greedy(cr, m, offered))
  {
    if offered != [] {
      var init := offered[..|offered| - 1];
      GreedyFits(cr, m, init);
      OfferKeepsFit(cr, m, Greedy(cr, m, init), offered[|offered| - 1]);
    }
  }

  // Nothing is dropped exactly when everything fits together.
  lemma {:induction false} GreedyKeepsAll(cr: Suite, m: Balances, offered: seq<Transaction>)
    ensures Greedy(cr, m, offered) == offered <==> Fits(cr, m, offered)
  {
    if Fits(cr, m, offered) {
      if offered != [] {
        var last := |offered| - 1;
        PrefixFits(cr, m, offered, last);
        GreedyKeepsAll(cr, m, offered[..last]);
        OfferKeepsFit(cr, m, offered[..last], offered[last]);
        assert offered[..last] + [offered[last]] == offered;
      }
    } else {
      GreedyFits(cr, m, offered);
    }
  }

  // Restoring a restored queue drops nothing more.
  lemma GreedyIdempotent(cr: Suite, m: Balances, offered: seq<Transaction>)
    ensures Greedy(cr, m, Greedy(cr, m, offered)) == Greedy(cr, m, offered)
  {
    GreedyFits(cr, m, offered);
    GreedyKeepsAll(cr, m, Greedy(cr, m, offered));
  }

  // The positions kept: i survives iff it applies after the survivors before it.
  ghost predicate Survives(cr: Suite, m: Balances, offered: seq<Transaction>, i: nat)
    requires i < |offered|
  {
    Fits(cr, m, Greedy(cr, m, offered[..i]) + [offered[i]])
  }

  ghost function Survivors(cr: Suite, m: Balances, offered: seq<Transaction>, n: nat): seq<Transaction>
    requires n <= |offered|
  {
    if n == 0 then []
    else Survivors(cr, m, offered, n - 1) + if Survives(cr, m, offered, n - 1) then [offered[n - 1]] else []
  }

  // Restoring keeps, in order, exactly the surviving positions.
  lemma {:induction false} GreedyIsSurvivors(cr: Suite, m: Balances, offered: seq<Transaction>, n: nat)
    requires n <= |offered|
    ensures Greedy(cr, m, offered[..n]) == Survivors(cr, m, offered, n)
  {
    if n > 0 {
      GreedyIsSurvivors(cr, m, offered, n - 1);
      assert offered[..n][..n - 1] == offered[..n - 1];
      GreedyFits(cr, m, offered[..n - 1]);
      OfferKeepsFit(cr, m, Greedy(cr, m, offered[..n - 1]), offered[n - 1]);
    }
  }
}
