/** Byte strings: decimal and hexadecimal text, and splitting at a separator. */
module Encoding {
  import opened Prelude

  type byte = b: int | 0 <= b < 256
  type Bytes = seq<byte>

  const COLON: byte := 58
  const MINUS: byte := 45
  const PIPE: byte := 124
  const ZERO: byte := 48

  // ---------------------------------------------------------------- decimal

  predicate IsDigit(c: byte) {
    48 <= c <= 57
  }

  // strconv.FormatUint(n, 10)
  function Digits(n: nat): (s: Bytes)
    ensures |s| >= 1
    ensures forall i :: 0 <= i < |s| ==> IsDigit(s[i])
  {
    if n < 10 then [48 + n] else Digits(n / 10) + [48 + n % 10]
  }

  // strconv.FormatInt(x, 10) and strconv.Itoa
  function FormatInt(x: int): (s: Bytes)
    ensures forall i :: 0 <= i < |s| ==> IsDigit(s[i]) || s[i] == MINUS
  {
    if x < 0 then [MINUS] + Digits(-x) else Digits(x)
  }

  function ParseNat(s: Bytes): Option<nat> {
    if |s| == 0 || !IsDigit(s[|s| - 1]) then
      None
    else if |s| == 1 then
      Some(s[0] - 48)
    else
      var high :- ParseNat(s[..|s| - 1]);
      Some(10 * high + (s[|s| - 1] - 48))
  }

  function ParseInt(s: Bytes): Option<int> {
    if |s| > 0 && s[0] == MINUS then
      match ParseNat(s[1..])
      case None => None
      case Some(v) => Some(-(v as int))
    else
      ParseNat(s)
  }

  lemma {:induction false} ParseNatDigits(n: nat)
    ensures ParseNat(Digits(n)) == Some(n)
  {
    if n >= 10 {
      ParseNatDigits(n / 10);
      assert Digits(n)[..|Digits(n)| - 1] == Digits(n / 10);
    }
  }

  lemma ParseIntFormatInt(x: int)
    ensures ParseInt(FormatInt(x)) == Some(x)
  {
    if x < 0 {
      ParseNatDigits(-x);
      assert FormatInt(x)[1..] == Digits(-x);
    } else {
      ParseNatDigits(x);
    }
  }

  // ------------------------------------------------------------ hexadecimal

  predicate IsLowerHex(c: byte) {
    48 <= c <= 57 || 97 <= c <= 102
  }

  function HexDigit(v: int): (c: byte)
    requires 0 <= v < 16
    ensures IsLowerHex(c)
  {
    if v < 10 then 48 + v else 87 + v
  }

  // hex.EncodeToString
  function Hex(d: Bytes): (h: Bytes)
    ensures |h| == 2 * |d|
    ensures forall i :: 0 <= i < |h| ==> IsLowerHex(h[i])
  {
    if d == [] then [] else [HexDigit(d[0] / 16), HexDigit(d[0] % 16)] + Hex(d[1..])
  }

  function UnhexDigit(c: byte): Option<int> {
    if 48 <= c <= 57 then Some(c - 48)
    else if 97 <= c <= 102 then Some(c - 87)
    else if 65 <= c <= 70 then Some(c - 55)
    else None
  }

  // hex.DecodeString: None when the length is odd or a character is not hex.
  function Unhex(s: Bytes): (r: Option<Bytes>)
    ensures r.Some? ==> |s| == 2 * |r.value| && PIPE !in s
  {
    if |s| == 0 then
      Some([])
    else if |s| == 1 then
      None
    else
      var hi :- UnhexDigit(s[0]);
      var lo :- UnhexDigit(s[1]);
      var rest :- Unhex(s[2..]);
      assert s == [s[0], s[1]] + s[2..];
      Some([16 * hi + lo] + rest)
  }

  lemma {:induction false} UnhexHex(d: Bytes)
    ensures Unhex(Hex(d)) == Some(d)
  {
    if d != [] {
      UnhexHex(d[1..]);
      assert Hex(d)[2..] == Hex(d[1..]);
      assert UnhexDigit(Hex(d)[0]) == Some(d[0] / 16);
      assert UnhexDigit(Hex(d)[1]) == Some(d[0] % 16);
      assert [d[0]] + d[1..] == d;
    }
  }

  lemma HexInjective(a: Bytes, b: Bytes)
    requires Hex(a) == Hex(b)
    ensures a == b
  {
    UnhexHex(a);
    UnhexHex(b);
  }

  // The digits of a prefix are a prefix of the digits.
  lemma {:induction false} HexPrefix(d: Bytes, n: nat)
    requires n <= |d|
    ensures Hex(d)[..2 * n] == Hex(d[..n])
  {
    if n > 0 {
      HexPrefix(d[1..], n - 1);
      assert d[..n][1..] == d[1..][..n - 1];
      assert Hex(d)[2..] == Hex(d[1..]);
      assert Hex(d)[..2 * n] == Hex(d)[..2] + Hex(d[1..])[..2 * (n - 1)];
    }
  }

  // strings.Repeat("0", n)
  function Zeros(n: nat): (s: Bytes)
    ensures |s| == n && forall i :: 0 <= i < n ==> s[i] == ZERO
  {
    if n == 0 then [] else [ZERO] + Zeros(n - 1)
  }

  // -------------------------------------------------------------- splitting

  // The text before and after the first occurrence of c.
  function Cut(s: Bytes, c: byte): (r: Option<(Bytes, Bytes)>)
    ensures r.None? <==> c !in s
    ensures r.Some? ==> c !in r.value.0 && s == r.value.0 + [c] + r.value.1
  {
    if s == [] then
      None
    else if s[0] == c then
      Some(([], s[1..]))
    else
      var (before, after) :- Cut(s[1..], c);
      Some(([s[0]] + before, after))
  }

  lemma {:induction false} CutAt(a: Bytes, c: byte, rest: Bytes)
    requires c !in a
    ensures Cut(a + ([c] + rest), c) == Some((a, rest))
  {
    var s := a + ([c] + rest);
    if a == [] {
      assert s == [c] + rest && s[1..] == rest;
    } else {
      assert a[0] != c && s[0] == a[0];
      assert s[1..] == a[1..] + ([c] + rest);
      CutAt(a[1..], c, rest);
      assert [a[0]] + a[1..] == a;
    }
  }

  // ---------------------------------------------------------------- joining

  // Fields with a separator between each two.
  function JoinFields(fields: seq<Bytes>): Bytes {
    if |fields| == 0 then []
    else if |fields| == 1 then fields[0]
    else JoinFields(fields[..|fields| - 1]) + ([PIPE] + fields[|fields| - 1])
  }

  // Writing a separator and one more field.
  lemma JoinOneMore(tag: Bytes, fields: seq<Bytes>, f: Bytes)
    requires fields != []
    ensures tag + JoinFields(fields) + [PIPE] + f == tag + JoinFields(fields + [f])
  {
    assert (fields + [f])[..|fields|] == fields;
    var joined := JoinFields(fields);
    assert tag + joined + [PIPE] + f == tag + (joined + ([PIPE] + f));
  }

  // The same for the writers, which keep the list of fields written so far.
  lemma Wrote(tag: Bytes, before: seq<Bytes>, field: Bytes) returns (after: seq<Bytes>)
    requires before != []
    ensures after == before + [field]
    ensures tag + JoinFields(before) + [PIPE] + field == tag + JoinFields(after)
  {
    JoinOneMore(tag, before, field);
    return before + [field];
  }

  // The first field comes off the front.
  lemma {:induction false} JoinFirst(f: Bytes, rest: seq<Bytes>)
    requires rest != []
    ensures JoinFields([f] + rest) == f + ([PIPE] + JoinFields(rest))
  {
    var last := |rest| - 1;
    assert ([f] + rest)[..|rest|] == [f] + rest[..last];
    if last > 0 {
      JoinFirst(f, rest[..last]);
      var mid := JoinFields(rest[..last]);
      assert (f + ([PIPE] + mid)) + ([PIPE] + rest[last]) == f + ([PIPE] + (mid + ([PIPE] + rest[last])));
    } else {
      assert rest[..last] == [] && [f] + [] == [f];
    }
  }
}
