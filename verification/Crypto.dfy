/** SHA-256 and Ed25519 as opaque total functions.

    Every definition and theorem takes the suite as a parameter, so each holds
    whatever the three functions compute. Nothing assumes that the hash is
    injective: binding theorems end in "or these two inputs collide".
 */
module Crypto {
  import opened Encoding

  type Digest = d: Bytes | |d| == 32 witness seq(32, _ => 0)

  datatype Suite = Suite(
    sha256: Bytes -> Digest,
    verify: (Bytes, Bytes, Bytes) -> bool, // public key, message, signature
    sign: (Bytes, Bytes) -> Bytes          // private key, message
  )

  // The 64 bytes of two digests side by side.
  function Join(left: Digest, right: Digest): (pair: Bytes)
    ensures |pair| == 64 && pair[..32] == left && pair[32..] == right
  {
    var l: Bytes := left;
    l + right
  }

  lemma JoinInjective(a: Digest, b: Digest, c: Digest, d: Digest)
    requires Join(a, b) == Join(c, d)
    ensures a == c && b == d
  {
    assert Join(a, b)[..32] == Join(c, d)[..32];
    assert Join(a, b)[32..] == Join(c, d)[32..];
  }

  function Sha256(cr: Suite, input: Bytes): Digest {
    cr.sha256(input)
  }

  ghost predicate Clash(cr: Suite, xs: set<Bytes>, ys: set<Bytes>, x: Bytes, y: Bytes) {
    x in xs && y in ys && x != y && Sha256(cr, x) == Sha256(cr, y)
  }

  // Some input from each side, different but with the same digest.
  ghost predicate Collide(cr: Suite, xs: set<Bytes>, ys: set<Bytes>) {
    exists x, y :: Clash(cr, xs, ys, x, y)
  }

  lemma CollideGrows(cr: Suite, xs: set<Bytes>, ys: set<Bytes>, xs': set<Bytes>, ys': set<Bytes>)
    requires xs <= xs' && ys <= ys'
    ensures Collide(cr, xs, ys) ==> Collide(cr, xs', ys')
  {
    if Collide(cr, xs, ys) {
      var x, y :| Clash(cr, xs, ys, x, y);
      assert Clash(cr, xs', ys', x, y);
    }
  }

  lemma CollideSymmetric(cr: Suite, xs: set<Bytes>, ys: set<Bytes>)
    ensures Collide(cr, xs, ys) ==> Collide(cr, ys, xs)
  {
    if Collide(cr, xs, ys) {
      var x, y :| Clash(cr, xs, ys, x, y);
      assert Clash(cr, ys, xs, y, x);
    }
  }

  // Two hashed inputs with equal digests are equal or are a collision.
  lemma EqualDigests(cr: Suite, x: Bytes, y: Bytes, xs: set<Bytes>, ys: set<Bytes>)
    requires x in xs && y in ys && Sha256(cr, x) == Sha256(cr, y)
    ensures x == y || Collide(cr, xs, ys)
  {
    assert x != y ==> Clash(cr, xs, ys, x, y);
  }
}
