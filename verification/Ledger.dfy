/** Account balances: the map that blocks imply, and how a transaction moves it.

    The functions on Balances say what one transaction or one batch does; class
    State is the object that holds the map and changes it in place.
 */
module Ledger {
  import opened Prelude
  import opened Encoding
  import opened Crypto
  import opened Transactions

  type Balances = map<Bytes, int64>

  function Get(m: Balances, a: Bytes): int64 {
    if a in m then m[a] else 0
  }

  // What every reachable state satisfies: an account is listed only while it
  // holds coins.
  ghost predicate Positive(m: Balances) {
    forall a :: a in m ==> m[a] > 0
  }

  datatype LedgerError =
    | Malformed(error: TxError)
    | InsufficientFunds
    | WouldOverflow

  // CanApply. The subtraction is int64 arithmetic, so it is wrapped; on a
  // Positive map it never wraps.
  function Fault(cr: Suite, m: Balances, tx: Transaction): Option<LedgerError> {
    var malformed := Validate(cr, tx);
    if malformed.Some? then Some(Malformed(malformed.value))
    else if !tx.IsCoinbase() && Get(m, tx.from) < tx.amount then Some(InsufficientFunds)
    else if WrapInt64(MAX_INT64 - Get(m, tx.to)) < tx.amount then Some(WouldOverflow)
    else None
  }

  function Debit(m: Balances, a: Bytes, amount: int64): Balances {
    var left := WrapInt64(Get(m, a) - amount);
    if left == 0 then m - {a} else m[a := left]
  }

  function Credit(m: Balances, a: Bytes, amount: int64): Balances {
    m[a := WrapInt64(Get(m, a) + amount)]
  }

  // Writing a zero balance and then deleting it, or never writing it.
  lemma DebitTidied(m: Balances, a: Bytes, amount: int64)
    ensures
      var m1 := m[a := WrapInt64(Get(m, a) - amount)];
      Debit(m, a, amount) == if m1[a] == 0 then m1 - {a} else m1
  {
    var m1 := m[a := WrapInt64(Get(m, a) - amount)];
    assert m1 - {a} == m - {a};
  }

  // The effect of an accepted transaction.
  function Post(m: Balances, tx: Transaction): Balances {
    Credit(if tx.IsCoinbase() then m else Debit(m, tx.from, tx.amount), tx.to, tx.amount)
  }

  datatype Outcome = Applied(balances: Balances) | Failed(index: nat, error: LedgerError)

  // A batch applied in order, or the position and reason of its first failure.
  function Replay(cr: Suite, m: Balances, txs: seq<Transaction>): (r: Outcome)
    ensures r.Failed? ==> r.index < |txs|
  {
    if txs == [] then Applied(m)
    else
      var last := |txs| - 1;
      match Replay(cr, m, txs[..last])
      case Failed(i, e) => Failed(i, e)
      case Applied(m1) =>
        var fault := Fault(cr, m1, txs[last]);
        if fault.Some? then Failed(last, fault.value) else Applied(Post(m1, txs[last]))
  }

  lemma ReplayNext(cr: Suite, m: Balances, txs: seq<Transaction>, i: nat)
    requires i < |txs|
    ensures Replay(cr, m, txs[..i]).Applied? ==>
      var m1 := Replay(cr, m, txs[..i]).balances;
      var fault := Fault(cr, m1, txs[i]);
      Replay(cr, m, txs[..i + 1]) == if fault.Some? then Failed(i, fault.value) else Applied(Post(m1, txs[i]))
  {
    assert txs[..i + 1][..i] == txs[..i];
  }

  // The first failure of a prefix is the first failure of the whole batch.
  lemma {:induction false} FailureIsFinal(cr: Suite, m: Balances, txs: seq<Transaction>, i: nat)
    requires i <= |txs| && Replay(cr, m, txs[..i]).Failed?
    ensures Replay(cr, m, txs) == Replay(cr, m, txs[..i])
  {
    if i < |txs| {
      var last := |txs| - 1;
      assert txs[..last][..i] == txs[..i];
      FailureIsFinal(cr, m, txs[..last], i);
    } else {
      assert txs[..i] == txs;
    }
  }

  // A concatenation applies exactly when its two parts apply in order, and then
  // with the same result.
  lemma {:induction false} ReplayConcat(cr: Suite, m: Balances, a: seq<Transaction>, b: seq<Transaction>)
    ensures Replay(cr, m, a + b) ==
      match Replay(cr, m, a)
      case Failed(i, e) => Failed(i, e)
      case Applied(m1) =>
        match Replay(cr, m1, b)
        case Failed(i, e) => Failed(|a| + i, e)
        case Applied(m2) => Applied(m2)
  {
    if b == [] {
      assert a + b == a;
    } else {
      var last := |b| - 1;
      ReplayConcat(cr, m, a, b[..last]);
      assert (a + b)[..|a + b| - 1] == a + b[..last];
    }
  }

  lemma {:induction false} AppliedAreValid(cr: Suite, m: Balances, txs: seq<Transaction>)
    requires Replay(cr, m, txs).Applied?
    ensures forall i :: 0 <= i < |txs| ==> Validate(cr, txs[i]).None?
  {
    if txs != [] {
      var last := |txs| - 1;
      AppliedAreValid(cr, m, txs[..last]);
      FaultlessIsValid(cr, Replay(cr, m, txs[..last]).balances, txs[last]);
      forall i | 0 <= i < |txs| ensures Validate(cr, txs[i]).None? {
        assert i < last ==> txs[..last][i] == txs[i];
      }
    }
  }

  lemma FaultlessIsValid(cr: Suite, m: Balances, tx: Transaction)
    ensures Fault(cr, m, tx).None? ==> Validate(cr, tx).None?
  {
  }

  // ------------------------------------------------------------------ total

  ghost function Sum(m: Balances): int
    decreases |m|
  {
    if m == map[] then 0
    else
      var a :| a in m;
      m[a] + Sum(m - {a})
  }

  // The total does not depend on the order in which accounts are visited.
  lemma {:induction false} SumWithout(m: Balances, a: Bytes)
    ensures Sum(m - {a}) == Sum(m) - Get(m, a)
    decreases |m|
  {
    if a !in m {
      assert m - {a} == m;
    } else {
      var b :| b in m && Sum(m) == m[b] + Sum(m - {b});
      if a != b {
        SumWithout(m - {b}, a);
        SumWithout(m - {a}, b);
        assert m - {a} - {b} == m - {b} - {a};
      }
    }
  }

  lemma SumWith(m: Balances, a: Bytes, v: int64)
    ensures Sum(m[a := v]) == Sum(m) - Get(m, a) + v
  {
    SumWithout(m, a);
    SumWithout(m[a := v], a);
    assert m[a := v] - {a} == m - {a};
  }

  lemma {:induction false} SumBounds(m: Balances, a: Bytes)
    requires Positive(m)
    ensures 0 <= Get(m, a) <= Sum(m)
    decreases |m|
  {
    if m != map[] {
      var b :| b in m && Sum(m) == m[b] + Sum(m - {b});
      SumBounds(m - {b}, a);
    }
  }

  // A wrapping total that lacks exactly the accounts in rest.
  ghost predicate Lacks(m: Balances, total: int64, rest: Balances) {
    WrapInt64(total + Sum(rest)) == WrapInt64(Sum(m))
  }

  // Moving one account from the uncounted rest into the total.
  lemma CountedOnce(m: Balances, total: int64, rest: Balances, a: Bytes)
    requires a in rest && Lacks(m, total, rest)
    ensures Lacks(m, WrapInt64(total + rest[a]), rest - {a})
  {
    SumWithout(rest, a);
    WrapInt64Add(total + rest[a], Sum(rest - {a}));
  }

  // What Supply returns is the true total whenever that fits int64.
  lemma SupplyExact(m: Balances)
    requires Positive(m)
    ensures WrapInt64(Sum(m)) == Sum(m) <==> Sum(m) <= MAX_INT64
  {
    SumBounds(m, COINBASE);
  }

  // ------------------------------------------------------------------ state

  class State {
    var balances: Balances

    constructor ()
      ensures balances == map[]
    {
      balances := map[];
    }

    function Balance(a: Bytes): int64
      reads this
    {
      Get(balances, a)
    }

    method Clone() returns (c: State)
      ensures fresh(c) && c.balances == balances
    {
      c := new State();
      var rest := balances.Keys;
      while rest != {}
        invariant rest <= balances.Keys
        invariant c.balances == map a | a in balances && a !in rest :: balances[a]
        decreases |rest|
      {
        var a :| a in rest;
        c.balances := c.balances[a := balances[a]];
        rest := rest - {a};
      }
    }

    function CanApply(cr: Suite, tx: Transaction): Option<LedgerError>
      reads this
    {
      Fault(cr, balances, tx)
    }

    method Apply(cr: Suite, tx: Transaction) returns (fault: Option<LedgerError>)
      modifies this
      ensures fault == Fault(cr, old(balances), tx)
      ensures balances == if fault.None? then Post(old(balances), tx) else old(balances)
    {
      fault := CanApply(cr, tx);
      if fault.Some? {
        return;
      }
      if !tx.IsCoinbase() {
        balances := balances[tx.from := WrapInt64(Balance(tx.from) - tx.amount)];
        DebitTidied(old(balances), tx.from, tx.amount);
        if balances[tx.from] == 0 {
          balances := balances - {tx.from};
        }
      }
      balances := balances[tx.to := WrapInt64(Balance(tx.to) + tx.amount)];
    }

    method ApplyAll(cr: Suite, txs: seq<Transaction>) returns (r: Outcome)
      modifies this
      ensures r == Replay(cr, old(balances), txs)
      ensures balances == if r.Applied? then r.balances else old(balances)
    {
      var next := Clone();
      for i := 0 to |txs|
        invariant Replay(cr, balances, txs[..i]) == Applied(next.balances)
        invariant balances == old(balances)
      {
        ReplayNext(cr, balances, txs, i);
        var fault := next.Apply(cr, txs[i]);
        if fault.Some? {
          FailureIsFinal(cr, balances, txs, i + 1);
          return Failed(i, fault.value);
        }
      }
      assert txs[..|txs|] == txs;
      balances := next.balances;
      return Applied(balances);
    }

    // Clone().ApplyAll(txs): the outcome without the effect.
    method DryRun(cr: Suite, txs: seq<Transaction>) returns (r: Outcome)
      ensures r == Replay(cr, balances, txs)
    {
      var copy := Clone();
      r := copy.ApplyAll(cr, txs);
    }

    // Accounts come out of a Go map in any order; the total is the same.
    method Supply() returns (total: int64)
      ensures total == WrapInt64(Sum(balances))
    {
      total := 0;
      var rest := balances;
      while rest != map[]
        invariant Lacks(balances, total, rest)
        decreases |rest|
      {
        var a :| a in rest;
        CountedOnce(balances, total, rest, a);
        total := WrapInt64(total + rest[a]);
        rest := rest - {a};
      }
    }
  }
}
