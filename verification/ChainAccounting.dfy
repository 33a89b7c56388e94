/** What a replayed chain says about each account and about the supply. */
module ChainAccounting {
  import opened Prelude
  import opened Encoding
  import opened Crypto
  import opened Transactions
  import opened Ledger
  import opened Accounting
  import opened Blocks
  import opened Validation

  // The transactions of all blocks in order.
  ghost function History(blocks: seq<Block>): seq<Transaction> {
    if blocks == [] then []
    else History(blocks[..|blocks| - 1]) + blocks[|blocks| - 1].transactions
  }

  // Replaying block by block, committing each block as a whole, is replaying the
  // transactions one after the other.
  lemma {:induction false} ReplayFlattens(cr: Suite, blocks: seq<Block>)
    ensures ReplayChain(cr, blocks) ==
      match Replay(cr, map[], History(blocks))
      case Applied(m) => Some(m)
      case Failed(_, _) => None
  {
    if blocks != [] {
      var init := blocks[..|blocks| - 1];
      ReplayFlattens(cr, init);
      ReplayConcat(cr, map[], History(init), blocks[|blocks| - 1].transactions);
    }
  }

  // After any successful replay each account holds what it received minus what
  // it sent, within int64 and with no empty entries; the balances add up to what
  // was minted; and every coin sent was signed away by the key of its sender.
  lemma ClosedForm(cr: Suite, blocks: seq<Block>)
    requires ReplayChain(cr, blocks).Some?
    ensures
      var m, txs := ReplayChain(cr, blocks).value, History(blocks);
      && Positive(m)
      && (forall a :: Get(m, a) == Credits(txs, a) - Debits(txs, a))
      && (forall a :: 0 <= Get(m, a) <= MAX_INT64)
      && Sum(m) == Minted(txs)
      && (forall i :: 0 <= i < |txs| && !txs[i].IsCoinbase() ==> SignedByOwner(cr, txs[i].from, txs[i]))
  {
    var txs := History(blocks);
    ReplayFlattens(cr, blocks);
    ReplayBalances(cr, map[], txs);
    Conservation(cr, map[], txs);
    AppliedAreValid(cr, map[], txs);
    var m := ReplayChain(cr, blocks).value;
    forall a ensures 0 <= Get(m, a) <= MAX_INT64 && Get(m, a) == Credits(txs, a) - Debits(txs, a) {
      assert Get(m, a) == Running(map[], txs, a);
    }
    forall i | 0 <= i < |txs| && !txs[i].IsCoinbase() ensures SignedByOwner(cr, txs[i].from, txs[i]) {
      ValidTransferIsSigned(cr, txs[i]);
    }
  }

  // No chain, however it continues, takes coins from an account without a
  // signature under a key of that account in one of the added blocks.
  lemma NoTheft(cr: Suite, blocks: seq<Block>, more: seq<Block>, a: Bytes)
    requires ReplayChain(cr, blocks + more).Some?
    ensures ReplayChain(cr, blocks).Some?
    ensures Get(ReplayChain(cr, blocks + more).value, a) < Get(ReplayChain(cr, blocks).value, a) ==>
      exists i, t :: 0 <= i < |more| && t in more[i].transactions && !t.IsCoinbase() && t.from == a && SignedByOwner(cr, a, t)
    decreases |more|
  {
    if more == [] {
      assert blocks + more == blocks;
    } else {
      var init, last := more[..|more| - 1], more[|more| - 1];
      assert (blocks + more)[..|blocks + more| - 1] == blocks + init;
      assert (blocks + more)[|blocks + more| - 1] == last;
      NoTheft(cr, blocks, init, a);
      var m1 := ReplayChain(cr, blocks + init).value;
      ReplayFlattens(cr, blocks + init);
      ReplayBalances(cr, map[], History(blocks + init));
      SpendingNeedsSignature(cr, m1, last.transactions, a);
      if Get(ReplayChain(cr, blocks + more).value, a) < Get(m1, a) {
        var i :| 0 <= i < |last.transactions| && !last.transactions[i].IsCoinbase() && last.transactions[i].from == a;
        assert last.transactions[i] in more[|more| - 1].transactions;
      } else if Get(m1, a) < Get(ReplayChain(cr, blocks).value, a) {
        var i, t :| 0 <= i < |init| && t in init[i].transactions && !t.IsCoinbase() && t.from == a && SignedByOwner(cr, a, t);
        assert t in more[i].transactions;
      }
    }
  }
}
