/** The proof-of-work target as a bound on the digest read as a number. */
module Difficulty {
  import opened Prelude
  import opened Encoding
  import opened Blocks

  function Pow16(k: nat): (p: nat)
    ensures p >= 1
  {
    if k == 0 then 1 else 16 * Pow16(k - 1)
  }

  predicate IsHexText(s: Bytes) {
    forall i :: 0 <= i < |s| ==> IsLowerHex(s[i])
  }

  function DigitValue(c: byte): int
    requires IsLowerHex(c)
  {
    if c <= 57 then c - 48 else c - 87
  }

  // Big-endian value of a lowercase hex text.
  function HexValue(s: Bytes): nat
    requires IsHexText(s)
  {
    if s == [] then 0 else DigitValue(s[0]) * Pow16(|s| - 1) + HexValue(s[1..])
  }

  lemma {:induction false} HexValueBound(s: Bytes)
    requires IsHexText(s)
    ensures HexValue(s) < Pow16(|s|)
  {
    if s != [] {
      HexValueBound(s[1..]);
      MulAtMost(DigitValue(s[0]), 15, Pow16(|s| - 1));
    }
  }

  lemma {:induction false} Pow16Monotone(a: nat, b: nat)
    requires a <= b
    ensures Pow16(a) <= Pow16(b)
  {
    if a < b {
      Pow16Monotone(a, b - 1);
    }
  }

  // A digest meets target d exactly when its value is below 16^(n-d).
  lemma {:induction false} TargetIsBound(s: Bytes, d: nat)
    requires IsHexText(s) && d <= |s|
    ensures MeetsDifficulty(s, d) <==> HexValue(s) < Pow16(|s| - d)
  {
    if d == 0 {
      HexValueBound(s);
    } else {
      TargetIsBound(s[1..], d - 1);
      if s[0] == ZERO {
        assert s == [ZERO] + s[1..];
        assert Zeros(d) == [ZERO] + Zeros(d - 1);
        assert Zeros(d) <= s <==> Zeros(d - 1) <= s[1..];
      } else {
        assert Zeros(d)[0] == ZERO;
        MulAtMost(1, DigitValue(s[0]), Pow16(|s| - 1));
        Pow16Monotone(|s| - d, |s| - 1);
      }
    }
  }

  // Proof of work, read off the number alone.
  ghost predicate HasWork(hash: Bytes, difficulty: int) {
    && |hash| == 64 && IsHexText(hash)
    && 0 <= difficulty <= 64 && HexValue(hash) < Pow16(64 - difficulty)
  }

  lemma WorkExact(hash: Bytes, d: nat)
    requires |hash| == 64 && IsHexText(hash)
    ensures MeetsDifficulty(hash, d) <==> HasWork(hash, d)
  {
    if d <= 64 {
      TargetIsBound(hash, d);
    }
  }

  // A harder target implies every easier one, for any text at all.
  lemma {:induction false} TargetsNest(s: Bytes, d: nat, e: nat)
    requires e <= d && MeetsDifficulty(s, d)
    ensures MeetsDifficulty(s, e)
  {
    forall i | 0 <= i < e ensures Zeros(e)[i] == s[i] {
      assert Zeros(d)[i] == s[i];
    }
  }

  // -------------------------------------------------- how many digests qualify

  function HexText(v: nat, n: nat): (s: Bytes)
    requires v < Pow16(n)
    ensures |s| == n && IsHexText(s)
  {
    if n == 0 then []
    else
      TopDigit(v, n);
      [HexDigit(v / Pow16(n - 1))] + HexText(v % Pow16(n - 1), n - 1)
  }

  lemma TopDigit(v: nat, n: nat)
    requires n > 0 && v < Pow16(n)
    ensures 0 <= v / Pow16(n - 1) < 16
    ensures 0 <= v % Pow16(n - 1) < Pow16(n - 1)
  {
    var p := Pow16(n - 1);
    DivBelow(v, p, 16);
  }

  lemma DivBelow(v: nat, p: nat, k: nat)
    requires p > 0 && v < k * p
    ensures v / p < k
  {
    if v / p >= k {
      MulAtMost(k, v / p, p);
    }
  }

  lemma DivModSum(v: nat, p: nat)
    requires p > 0
    ensures v / p * p + v % p == v
  {
  }

  lemma {:induction false} HexTextValue(v: nat, n: nat)
    requires v < Pow16(n)
    ensures HexValue(HexText(v, n)) == v
  {
    if n > 0 {
      TopDigit(v, n);
      var p, s := Pow16(n - 1), HexText(v, n);
      var d, rest := v / p, v % p;
      DivModSum(v, p);
      HexTextValue(rest, n - 1);
      assert s == [HexDigit(d)] + HexText(rest, n - 1);
      assert s[1..] == HexText(rest, n - 1);
      assert DigitValue(HexDigit(d)) == d;
    }
  }

  lemma {:induction false} HexValueText(s: Bytes)
    requires IsHexText(s)
    ensures HexValue(s) < Pow16(|s|) && HexText(HexValue(s), |s|) == s
  {
    HexValueBound(s);
    if s != [] {
      var p, d, rest := Pow16(|s| - 1), DigitValue(s[0]), s[1..];
      HexValueBound(rest);
      HexValueText(rest);
      DivModOf(d, p, HexValue(rest));
      assert s == [s[0]] + rest;
    }
  }

  // The texts of the first `count` values.
  ghost function FirstTexts(count: nat, n: nat): set<Bytes>
    requires count <= Pow16(n)
  {
    if count == 0 then {} else FirstTexts(count - 1, n) + {HexText(count - 1, n)}
  }

  lemma {:induction false} InFirstTexts(count: nat, n: nat, s: Bytes)
    requires count <= Pow16(n)
    ensures s in FirstTexts(count, n) <==> |s| == n && IsHexText(s) && HexValue(s) < count
  {
    if count > 0 {
      InFirstTexts(count - 1, n, s);
      HexTextValue(count - 1, n);
      if |s| == n && IsHexText(s) && HexValue(s) == count - 1 {
        HexValueText(s);
      }
    }
  }

  lemma {:induction false} FirstTextsSize(count: nat, n: nat)
    requires count <= Pow16(n)
    ensures |FirstTexts(count, n)| == count
  {
    if count > 0 {
      FirstTextsSize(count - 1, n);
      HexTextValue(count - 1, n);
      InFirstTexts(count - 1, n, HexText(count - 1, n));
    }
  }

  // Exactly 16^(n-d) of the 16^n texts of n digits meet target d.
  lemma QualifyingCount(n: nat, d: nat, qualifying: set<Bytes>)
    requires d <= n
    requires forall s :: s in qualifying <==> |s| == n && IsHexText(s) && MeetsDifficulty(s, d)
    ensures |qualifying| == Pow16(n - d)
  {
    var count := Pow16(n - d);
    Pow16Monotone(n - d, n);
    FirstTextsSize(count, n);
    forall s ensures s in FirstTexts(count, n) <==> s in qualifying {
      InFirstTexts(count, n, s);
      if |s| == n && IsHexText(s) {
        TargetIsBound(s, d);
      }
    }
    assert FirstTexts(count, n) == qualifying;
  }
}
