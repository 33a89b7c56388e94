/** What a replayed batch means for each account and for the total supply. */
module Accounting {
  import opened Prelude
  import opened Encoding
  import opened Crypto
  import opened Transactions
  import opened Ledger

  // Coins received, coins sent and coins created by a batch.
  ghost function Credits(txs: seq<Transaction>, a: Bytes): int {
    if txs == [] then 0
    else
      var tx := txs[|txs| - 1];
      Credits(txs[..|txs| - 1], a) + if tx.to == a then tx.amount else 0
  }

  ghost function Debits(txs: seq<Transaction>, a: Bytes): int {
    if txs == [] then 0
    else
      var tx := txs[|txs| - 1];
      Debits(txs[..|txs| - 1], a) + if !tx.IsCoinbase() && tx.from == a then tx.amount else 0
  }

  ghost function Minted(txs: seq<Transaction>): int {
    if txs == [] then 0
    else
      var tx := txs[|txs| - 1];
      Minted(txs[..|txs| - 1]) + if tx.IsCoinbase() then tx.amount else 0
  }

  // The balance of a on paper, with no map and no machine arithmetic.
  ghost function Running(m: Balances, txs: seq<Transaction>, a: Bytes): int {
    Get(m, a) + Credits(txs, a) - Debits(txs, a)
  }

  // What one transaction adds to account a.
  ghost function Net(tx: Transaction, a: Bytes): int {
    (if tx.to == a then tx.amount else 0) - (if !tx.IsCoinbase() && tx.from == a then tx.amount else 0)
  }

  // Transaction i is well formed, its sender can pay for it out of what it holds
  // at that point, and its recipient has room for it.
  ghost predicate Admissible(cr: Suite, m: Balances, txs: seq<Transaction>, i: nat)
    requires i < |txs|
  {
    var tx := txs[i];
    && Validate(cr, tx).None?
    && (tx.IsCoinbase() || tx.amount <= Running(m, txs[..i], tx.from))
    && Running(m, txs[..i], tx.to) + tx.amount <= MAX_INT64
  }

  // On a Positive map neither the guard nor the update leaves int64.
  lemma PostExact(cr: Suite, m: Balances, tx: Transaction)
    requires Positive(m)
    ensures Fault(cr, m, tx).None? <==>
      && Validate(cr, tx).None?
      && (tx.IsCoinbase() || tx.amount <= Get(m, tx.from))
      && Get(m, tx.to) + tx.amount <= MAX_INT64
    ensures Fault(cr, m, tx).None? ==>
      && Positive(Post(m, tx))
      && forall a :: Get(Post(m, tx), a) == Get(m, a) + Net(tx, a)
  {
    if Fault(cr, m, tx).None? {
      var m1 := if tx.IsCoinbase() then m else Debit(m, tx.from, tx.amount);
      assert Positive(m1) && Get(m1, tx.to) == Get(m, tx.to);
      forall a ensures Get(Post(m, tx), a) == Get(m, a) + Net(tx, a) {
        assert Get(m1, a) == if !tx.IsCoinbase() && tx.from == a then Get(m, a) - tx.amount else Get(m, a);
      }
    }
  }

  // Which fault is reported, in terms of what the accounts hold.
  ghost predicate FaultOf(cr: Suite, tx: Transaction, senderHas: int, recipientHas: int, fault: Option<LedgerError>) {
    match fault
    case Some(Malformed(e)) => Validate(cr, tx) == Some(e)
    case Some(InsufficientFunds) => Validate(cr, tx).None? && tx.from != [] && senderHas < tx.amount
    case Some(WouldOverflow) =>
      && Validate(cr, tx).None? && (tx.from == [] || senderHas >= tx.amount)
      && recipientHas + tx.amount > MAX_INT64
    case None =>
      && Validate(cr, tx).None? && (tx.from == [] || senderHas >= tx.amount)
      && recipientHas + tx.amount <= MAX_INT64
  }

  lemma FaultExact(cr: Suite, m: Balances, tx: Transaction)
    requires Positive(m)
    ensures forall fault :: fault == Fault(cr, m, tx) <==> FaultOf(cr, tx, Get(m, tx.from), Get(m, tx.to), fault)
  {
  }

  lemma RunningNext(m: Balances, txs: seq<Transaction>, i: nat, a: Bytes)
    requires i < |txs|
    ensures Running(m, txs[..i + 1], a) == Running(m, txs[..i], a) + Net(txs[i], a)
  {
    assert txs[..i + 1][..i] == txs[..i];
  }

  // Accepted batches leave each account with its paper balance, and no empty
  // entries.
  lemma {:induction false} ReplayBalances(cr: Suite, m: Balances, txs: seq<Transaction>)
    requires Positive(m) && Replay(cr, m, txs).Applied?
    ensures Positive(Replay(cr, m, txs).balances)
    ensures forall a :: Get(Replay(cr, m, txs).balances, a) == Running(m, txs, a)
  {
    if txs != [] {
      var last := |txs| - 1;
      ReplayBalances(cr, m, txs[..last]);
      var m1 := Replay(cr, m, txs[..last]).balances;
      PostExact(cr, m1, txs[last]);
      assert txs[..last + 1] == txs;
      forall a ensures Get(Post(m1, txs[last]), a) == Running(m, txs, a) {
        RunningNext(m, txs, last, a);
      }
    }
  }

  lemma LastAdmissible(cr: Suite, m: Balances, txs: seq<Transaction>)
    requires Positive(m) && txs != [] && Replay(cr, m, txs[..|txs| - 1]).Applied?
    ensures Replay(cr, m, txs).Applied? <==> Admissible(cr, m, txs, |txs| - 1)
    ensures Replay(cr, m, txs).Failed? ==> Replay(cr, m, txs).index == |txs| - 1
  {
    ReplayBalances(cr, m, txs[..|txs| - 1]);
    PostExact(cr, Replay(cr, m, txs[..|txs| - 1]).balances, txs[|txs| - 1]);
  }

  lemma PrefixAdmissible(cr: Suite, m: Balances, txs: seq<Transaction>, n: nat)
    requires n <= |txs|
    ensures forall i :: 0 <= i < n ==> (Admissible(cr, m, txs[..n], i) <==> Admissible(cr, m, txs, i))
  {
    forall i | 0 <= i < n
      ensures Admissible(cr, m, txs[..n], i) <==> Admissible(cr, m, txs, i)
    {
      assert txs[..n][..i] == txs[..i];
    }
  }

  // A batch is accepted exactly when every transaction is admissible at its
  // position; otherwise the reported one is the first that is not.
  lemma {:induction false} ReplayExact(cr: Suite, m: Balances, txs: seq<Transaction>)
    requires Positive(m)
    ensures Replay(cr, m, txs).Applied? <==> forall i :: 0 <= i < |txs| ==> Admissible(cr, m, txs, i)
    ensures Replay(cr, m, txs).Failed? ==>
      var bad := Replay(cr, m, txs).index;
      !Admissible(cr, m, txs, bad) && forall i :: 0 <= i < bad ==> Admissible(cr, m, txs, i)
  {
    if txs != [] {
      var last := |txs| - 1;
      ReplayExact(cr, m, txs[..last]);
      PrefixAdmissible(cr, m, txs, last);
      if Replay(cr, m, txs[..last]).Applied? {
        LastAdmissible(cr, m, txs);
      }
    }
  }

  // The error of a refused batch is the one its paper balances call for.
  lemma BatchFaultExact(cr: Suite, m: Balances, txs: seq<Transaction>)
    requires Positive(m) && Replay(cr, m, txs).Failed?
    ensures
      var i, e := Replay(cr, m, txs).index, Replay(cr, m, txs).error;
      FaultOf(cr, txs[i], Running(m, txs[..i], txs[i].from), Running(m, txs[..i], txs[i].to), Some(e))
  {
    var i := Replay(cr, m, txs).index;
    ReplayExact(cr, m, txs);
    ReplayExact(cr, m, txs[..i]);
    PrefixAdmissible(cr, m, txs, i);
    ReplayBalances(cr, m, txs[..i]);
    var m1 := Replay(cr, m, txs[..i]).balances;
    FaultExact(cr, m1, txs[i]);
    assert Fault(cr, m1, txs[i]).Some?;
    ReplayNext(cr, m, txs, i);
    FailureIsFinal(cr, m, txs, i + 1);
  }

  // Balances have one representation: equal amounts, equal maps.
  lemma PositiveExtensional(m: Balances, n: Balances)
    requires Positive(m) && Positive(n)
    requires forall a :: Get(m, a) == Get(n, a)
    ensures m == n
  {
    forall a ensures a in m <==> a in n {
      assert Get(m, a) == Get(n, a);
    }
    forall a | a in m ensures m[a] == n[a] {
      assert Get(m, a) == Get(n, a);
    }
  }

  // ------------------------------------------------------------ conservation

  lemma PostTotal(cr: Suite, m: Balances, tx: Transaction)
    requires Positive(m) && Fault(cr, m, tx).None?
    ensures Sum(Post(m, tx)) == Sum(m) + if tx.IsCoinbase() then tx.amount else 0
  {
    PostExact(cr, m, tx);
    var m1 := if tx.IsCoinbase() then m else Debit(m, tx.from, tx.amount);
    if !tx.IsCoinbase() {
      DebitTotal(m, tx.from, tx.amount);
    }
    CreditTotal(m1, tx.to, tx.amount);
  }

  lemma DebitTotal(m: Balances, a: Bytes, amount: int64)
    requires Positive(m) && 0 < amount <= Get(m, a)
    ensures Positive(Debit(m, a, amount)) && Sum(Debit(m, a, amount)) == Sum(m) - amount
    ensures forall b :: b != a ==> Get(Debit(m, a, amount), b) == Get(m, b)
  {
    SumWith(m, a, Get(m, a) - amount);
    SumWithout(m, a);
  }

  lemma CreditTotal(m: Balances, a: Bytes, amount: int64)
    requires Positive(m) && amount > 0 && Get(m, a) + amount <= MAX_INT64
    ensures Positive(Credit(m, a, amount)) && Sum(Credit(m, a, amount)) == Sum(m) + amount
  {
    SumWith(m, a, Get(m, a) + amount);
  }

  // Coins appear only through coinbases: transfers conserve the total.
  lemma {:induction false} Conservation(cr: Suite, m: Balances, txs: seq<Transaction>)
    requires Positive(m) && Replay(cr, m, txs).Applied?
    ensures Sum(Replay(cr, m, txs).balances) == Sum(m) + Minted(txs)
    ensures Minted(txs) >= 0
  {
    if txs != [] {
      var init := txs[..|txs| - 1];
      Conservation(cr, m, init);
      ReplayBalances(cr, m, init);
      PostTotal(cr, Replay(cr, m, init).balances, txs[|txs| - 1]);
    }
  }

  lemma {:induction false} MintedConcat(a: seq<Transaction>, b: seq<Transaction>)
    ensures Minted(a + b) == Minted(a) + Minted(b)
  {
    if b == [] {
      assert a + b == a;
    } else {
      MintedConcat(a, b[..|b| - 1]);
      assert (a + b)[..|a + b| - 1] == a + b[..|b| - 1];
    }
  }

  // An account loses at most what it signed away, and every coin it sent was
  // sent under a key that hashes to it.
  lemma SpendingNeedsSignature(cr: Suite, m: Balances, txs: seq<Transaction>, a: Bytes)
    requires Positive(m) && Replay(cr, m, txs).Applied?
    ensures Get(Replay(cr, m, txs).balances, a) >= Get(m, a) - Debits(txs, a)
    ensures forall i :: 0 <= i < |txs| && !txs[i].IsCoinbase() && txs[i].from == a ==> SignedByOwner(cr, a, txs[i])
    ensures Get(Replay(cr, m, txs).balances, a) < Get(m, a) ==>
      exists i :: 0 <= i < |txs| && !txs[i].IsCoinbase() && txs[i].from == a
  {
    ReplayExact(cr, m, txs);
    ReplayBalances(cr, m, txs);
    CreditsNonNegative(cr, m, txs, a);
    forall i | 0 <= i < |txs| && !txs[i].IsCoinbase() && txs[i].from == a
      ensures SignedByOwner(cr, a, txs[i])
    {
      assert Admissible(cr, m, txs, i);
      ValidTransferIsSigned(cr, txs[i]);
    }
    if forall i :: 0 <= i < |txs| ==> txs[i].IsCoinbase() || txs[i].from != a {
      NoDebits(txs, a);
    }
  }

  lemma {:induction false} CreditsNonNegative(cr: Suite, m: Balances, txs: seq<Transaction>, a: Bytes)
    requires forall i :: 0 <= i < |txs| ==> Admissible(cr, m, txs, i)
    ensures Credits(txs, a) >= 0
  {
    if txs != [] {
      var init := txs[..|txs| - 1];
      forall i | 0 <= i < |init| ensures Admissible(cr, m, init, i) {
        assert Admissible(cr, m, txs, i) && init[..i] == txs[..i];
      }
      CreditsNonNegative(cr, m, init, a);
      assert Admissible(cr, m, txs, |txs| - 1);
    }
  }

  lemma {:induction false} NoDebits(txs: seq<Transaction>, a: Bytes)
    requires forall i :: 0 <= i < |txs| ==> txs[i].IsCoinbase() || txs[i].from != a
    ensures Debits(txs, a) == 0
  {
    if txs != [] {
      NoDebits(txs[..|txs| - 1], a);
    }
  }

  // ------------------------------------------------------------------- shift

  lemma RunningShift(m: Balances, txs: seq<Transaction>, a: Bytes, r: int64, b: Bytes)
    requires Positive(m) && r > 0 && Get(m, a) + r <= MAX_INT64
    ensures Positive(Credit(m, a, r))
    ensures Running(Credit(m, a, r), txs, b) == Running(m, txs, b) + if a == b then r else 0
  {
  }

  // Giving a extra coins beforehand keeps an acceptable batch acceptable exactly
  // when a never overflows on the way, and then the extra coins are simply there
  // at the end.
  lemma Shift(cr: Suite, m: Balances, txs: seq<Transaction>, a: Bytes, r: int64)
    requires Positive(m) && r > 0 && Get(m, a) + r <= MAX_INT64
    requires Replay(cr, m, txs).Applied?
    ensures Replay(cr, Credit(m, a, r), txs).Applied? <==>
      forall i :: 0 <= i < |txs| && txs[i].to == a ==> Running(m, txs[..i + 1], a) + r <= MAX_INT64
    ensures Replay(cr, Credit(m, a, r), txs).Applied? ==>
      && Get(Replay(cr, m, txs).balances, a) + r <= MAX_INT64
      && Replay(cr, Credit(m, a, r), txs).balances == Credit(Replay(cr, m, txs).balances, a, r)
  {
    var m2 := Credit(m, a, r);
    RunningShift(m, txs, a, r, a);
    ReplayExact(cr, m, txs);
    ReplayExact(cr, m2, txs);
    forall i | 0 <= i < |txs|
      ensures Admissible(cr, m2, txs, i) <==> (txs[i].to == a ==> Running(m, txs[..i + 1], a) + r <= MAX_INT64)
    {
      assert Admissible(cr, m, txs, i);
      RunningShift(m, txs[..i], a, r, txs[i].from);
      RunningShift(m, txs[..i], a, r, txs[i].to);
      RunningNext(m, txs, i, a);
    }
    if Replay(cr, m2, txs).Applied? {
      ReplayBalances(cr, m, txs);
      ReplayBalances(cr, m2, txs);
      var n, n2 := Replay(cr, m, txs).balances, Replay(cr, m2, txs).balances;
      forall b ensures Get(n2, b) == Get(n, b) + if a == b then r else 0 {
        RunningShift(m, txs, a, r, b);
      }
      assert Get(n2, a) == Get(n, a) + r;
      PositiveExtensional(n2, Credit(n, a, r));
    }
  }

  // The supply bounds every balance, so headroom in the total is headroom for
  // the extra coins at every point of the batch.
  lemma ShiftWithinSupply(cr: Suite, m: Balances, txs: seq<Transaction>, a: Bytes, r: int64)
    requires Positive(m) && r > 0 && Replay(cr, m, txs).Applied?
    requires Sum(m) + Minted(txs) + r <= MAX_INT64
    ensures Get(m, a) + r <= MAX_INT64
    ensures Replay(cr, Credit(m, a, r), txs).Applied?
  {
    SumBounds(m, a);
    Conservation(cr, m, txs);
    forall i | 0 <= i < |txs| && txs[i].to == a ensures Running(m, txs[..i + 1], a) + r <= MAX_INT64 {
      var head, tail := txs[..i + 1], txs[i + 1..];
      assert txs == head + tail;
      ReplayConcat(cr, m, head, tail);
      ReplayBalances(cr, m, head);
      Conservation(cr, m, head);
      Conservation(cr, Replay(cr, m, head).balances, tail);
      MintedConcat(head, tail);
      SumBounds(Replay(cr, m, head).balances, a);
    }
    Shift(cr, m, txs, a, r);
  }
}
