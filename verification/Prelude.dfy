/** Machine integers and the option type shared by every module. */
module Prelude {

  datatype Option<+T> = None | Some(value: T) {
    predicate IsFailure() {
      None?
    }

    function PropagateFailure<U>(): Option<U>
      requires None?
    {
      None
    }

    function Extract(): T
      requires Some?
    {
      value
    }
  }

  const TWO_63 := 0x8000_0000_0000_0000
  const TWO_64 := 0x1_0000_0000_0000_0000
  const MAX_INT64 := TWO_63 - 1
  const MIN_INT64 := -TWO_63

  // Arithmetic on these is unbounded; every place where Go's result can leave
  // the machine range goes through one of the two Wrap functions.
  type int64 = x: int | MIN_INT64 <= x <= MAX_INT64
  type uint64 = x: int | 0 <= x < TWO_64

  function WrapInt64(x: int): (r: int64)
    ensures (r - x) % TWO_64 == 0
    ensures MIN_INT64 <= x <= MAX_INT64 ==> r == x
  {
    (x + TWO_63) % TWO_64 - TWO_63
  }

  function WrapUint64(x: int): (r: uint64)
    ensures 0 <= x < TWO_64 ==> r == x
  {
    x % TWO_64
  }

  // Wrapping after every addition or once at the end is the same.
  lemma WrapInt64Add(a: int, b: int)
    ensures WrapInt64(WrapInt64(a) + b) == WrapInt64(a + b)
  {
  }

  lemma WrapUint64Add(a: int, b: int)
    ensures WrapUint64(WrapUint64(a) + b) == WrapUint64(a + b)
  {
  }

  lemma MulAtMost(a: int, b: int, c: nat)
    requires a <= b
    ensures a * c <= b * c
  {
  }

  // Quotient and remainder read off a product plus a small rest.
  lemma DivModOf(q: nat, p: nat, r: nat)
    requires r < p
    ensures (q * p + r) / p == q && (q * p + r) % p == r
  {
    var v := q * p + r;
    assert v == p * (v / p) + v % p;
    if v / p < q {
      MulAtMost(v / p + 1, q, p);
    } else if v / p > q {
      MulAtMost(q + 1, v / p, p);
    }
  }

  lemma WrapUint64Sum(a: int, b: int)
    ensures WrapUint64(WrapUint64(a) + WrapUint64(b)) == WrapUint64(a + b)
  {
    WrapUint64Add(a, WrapUint64(b));
    WrapUint64Add(b, a);
  }
}
