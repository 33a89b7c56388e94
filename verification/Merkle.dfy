/** The Merkle root of a transaction list: the level-by-level reduction, and what
    it computes.
 */
module Merkle {
  import opened Encoding
  import opened Crypto
  import opened Transactions

  const EMPTY_MERKLE_ROOT: Bytes := Zeros(64)

  // ------------------------------------------------------- the reduction loop

  // An odd node out is paired with itself.
  function RightOf<T>(level: seq<T>, j: nat): T
    requires 2 * j < |level|
  {
    if 2 * j + 1 < |level| then level[2 * j + 1] else level[2 * j]
  }

  function PairBytes(level: seq<Digest>, j: nat): Bytes
    requires 2 * j < |level|
  {
    Join(level[2 * j], RightOf(level, j))
  }

  function NextLevel(cr: Suite, level: seq<Digest>): (next: seq<Digest>)
    ensures |next| == (|level| + 1) / 2
  {
    seq((|level| + 1) / 2, j requires 0 <= j < (|level| + 1) / 2 => Sha256(cr, PairBytes(level, j)))
  }

  function Fold(cr: Suite, level: seq<Digest>): Digest
    requires level != []
    decreases |level|
  {
    if |level| == 1 then level[0] else Fold(cr, NextLevel(cr, level))
  }

  function Leaves(cr: Suite, txs: seq<Transaction>): seq<Digest> {
    seq(|txs|, i requires 0 <= i < |txs| => Hash(cr, txs[i]))
  }

  function Root(cr: Suite, txs: seq<Transaction>): (root: Bytes)
    ensures |root| == 64 && forall i :: 0 <= i < |root| ==> IsLowerHex(root[i])
  {
    if txs == [] then EMPTY_MERKLE_ROOT else Hex(Fold(cr, Leaves(cr, txs)))
  }

  method MerkleRoot(cr: Suite, txs: seq<Transaction>) returns (root: Bytes)
    ensures root == Root(cr, txs)
  {
    if |txs| == 0 {
      return EMPTY_MERKLE_ROOT;
    }
    var level: seq<Digest> := [];
    for i := 0 to |txs|
      invariant level == Leaves(cr, txs)[..i]
    {
      level := level + [Hash(cr, txs[i])];
    }
    assert level == Leaves(cr, txs);
    while |level| > 1
      invariant level != [] && Fold(cr, level) == Fold(cr, Leaves(cr, txs))
      decreases |level|
    {
      var next: seq<Digest> := [];
      var i := 0;
      while i < |level|
        invariant 0 <= i && i % 2 == 0 && i <= |level| + 1
        invariant next == NextLevel(cr, level)[..i / 2]
      {
        var right := level[i];
        if i + 1 < |level| {
          right := level[i + 1];
        }
        assert Join(level[i], right) == PairBytes(level, i / 2);
        next := next + [Sha256(cr, Join(level[i], right))];
        i := i + 2;
      }
      assert next == NextLevel(cr, level);
      level := next;
    }
    return Hex(level[0]);
  }

  // ------------------------------------------------------------ tree geometry

  function Pow2(k: nat): (p: nat)
    ensures p >= 1
  {
    if k == 0 then 1 else 2 * Pow2(k - 1)
  }

  // How often a list of n nodes is halved before one is left.
  function Depth(n: nat): nat {
    if n <= 1 then 0 else 1 + Depth((n + 1) / 2)
  }

  lemma {:induction false} DepthIsCeilLog2(n: nat)
    requires n >= 1
    ensures n <= Pow2(Depth(n))
    ensures n > 1 ==> Pow2(Depth(n) - 1) < n
  {
    if n > 1 {
      DepthIsCeilLog2((n + 1) / 2);
    }
  }

  // The same pairing as NextLevel, joining lists instead of hashing.
  function PairBlocks<T>(blocks: seq<seq<T>>): (next: seq<seq<T>>)
    ensures |next| == (|blocks| + 1) / 2
  {
    seq((|blocks| + 1) / 2, j requires 0 <= j < (|blocks| + 1) / 2 => blocks[2 * j] + RightOf(blocks, j))
  }

  function Collapse<T>(blocks: seq<seq<T>>): seq<T>
    requires blocks != []
    decreases |blocks|
  {
    if |blocks| == 1 then blocks[0] else Collapse(PairBlocks(blocks))
  }

  function Singletons<T>(s: seq<T>): seq<seq<T>> {
    seq(|s|, i requires 0 <= i < |s| => [s[i]])
  }

  // The leaf list with the last node of every odd level written out twice.
  function Expand<T>(leaves: seq<T>): seq<T>
    requires leaves != []
  {
    Collapse(Singletons(leaves))
  }

  // A plain binary hash tree over 2^k leaves, from the root down.
  function TreeHash(cr: Suite, leaves: seq<Digest>, k: nat): Digest
    requires |leaves| == Pow2(k)
  {
    if k == 0 then leaves[0]
    else
      var half := Pow2(k - 1);
      Sha256(cr, Join(TreeHash(cr, leaves[..half], k - 1), TreeHash(cr, leaves[half..], k - 1)))
  }

  // Every byte string the loop hashes on the way from this level to the root.
  ghost function LoopInputs(cr: Suite, level: seq<Digest>): set<Bytes>
    decreases |level|
  {
    if |level| <= 1 then {} else LevelInputs(level) + LoopInputs(cr, NextLevel(cr, level))
  }

  // Every byte string hashed to find the root of a transaction list.
  ghost function RootInputs(cr: Suite, txs: seq<Transaction>): set<Bytes> {
    (set t | t in txs :: CanonicalBytes(t)) + LoopInputs(cr, Leaves(cr, txs))
  }

  ghost function LevelInputs(level: seq<Digest>): set<Bytes> {
    set j | 0 <= j < (|level| + 1) / 2 :: PairBytes(level, j)
  }

  ghost predicate LoopWithin(cr: Suite, level: seq<Digest>, inputs: set<Bytes>)
    decreases |level|
  {
    |level| > 1 ==>
      && (forall j :: 0 <= j < (|level| + 1) / 2 ==> PairBytes(level, j) in inputs)
      && LoopWithin(cr, NextLevel(cr, level), inputs)
  }

  lemma {:induction false} LoopInputsSuffice(cr: Suite, level: seq<Digest>, inputs: set<Bytes>)
    requires LoopInputs(cr, level) <= inputs
    ensures LoopWithin(cr, level, inputs)
    decreases |level|
  {
    if |level| > 1 {
      LoopInputsSuffice(cr, NextLevel(cr, level), inputs);
      forall j | 0 <= j < (|level| + 1) / 2 ensures PairBytes(level, j) in inputs {
        assert PairBytes(level, j) in LevelInputs(level);
      }
    }
  }

  // Every pair hashed in the tree over these leaves belongs to `inputs`.
  ghost predicate TreeWithin(cr: Suite, leaves: seq<Digest>, k: nat, inputs: set<Bytes>)
    requires |leaves| == Pow2(k)
  {
    k > 0 ==>
      var half := Pow2(k - 1);
      var left, right := leaves[..half], leaves[half..];
      && Join(TreeHash(cr, left, k - 1), TreeHash(cr, right, k - 1)) in inputs
      && TreeWithin(cr, left, k - 1, inputs)
      && TreeWithin(cr, right, k - 1, inputs)
  }

  // The node d is the hash of the tree over `leaves`.
  ghost predicate IsTree(cr: Suite, d: Digest, leaves: seq<Digest>, k: nat, inputs: set<Bytes>) {
    |leaves| == Pow2(k) && d == TreeHash(cr, leaves, k) && TreeWithin(cr, leaves, k, inputs)
  }

  ghost predicate AreTrees(cr: Suite, level: seq<Digest>, blocks: seq<seq<Digest>>, k: nat, inputs: set<Bytes>) {
    |level| == |blocks| && forall j :: 0 <= j < |level| ==> IsTree(cr, level[j], blocks[j], k, inputs)
  }

  lemma JoinTrees(cr: Suite, d: Digest, e: Digest, a: seq<Digest>, b: seq<Digest>, k: nat, inputs: set<Bytes>)
    requires IsTree(cr, d, a, k, inputs) && IsTree(cr, e, b, k, inputs) && Join(d, e) in inputs
    ensures IsTree(cr, Sha256(cr, Join(d, e)), a + b, k + 1, inputs)
  {
    assert (a + b)[..Pow2(k)] == a && (a + b)[Pow2(k)..] == b;
  }

  lemma NextTrees(cr: Suite, level: seq<Digest>, blocks: seq<seq<Digest>>, k: nat, inputs: set<Bytes>)
    requires AreTrees(cr, level, blocks, k, inputs)
    requires |level| > 1 && LoopWithin(cr, level, inputs)
    ensures AreTrees(cr, NextLevel(cr, level), PairBlocks(blocks), k + 1, inputs)
  {
    forall j | 0 <= j < (|level| + 1) / 2
      ensures IsTree(cr, NextLevel(cr, level)[j], PairBlocks(blocks)[j], k + 1, inputs)
    {
      assert PairBytes(level, j) in inputs;
      JoinTrees(cr, level[2 * j], RightOf(level, j), blocks[2 * j], RightOf(blocks, j), k, inputs);
    }
  }

  lemma {:induction false} FoldTrees(cr: Suite, level: seq<Digest>, blocks: seq<seq<Digest>>, k: nat, inputs: set<Bytes>)
    requires level != [] && AreTrees(cr, level, blocks, k, inputs)
    requires LoopWithin(cr, level, inputs)
    ensures IsTree(cr, Fold(cr, level), Collapse(blocks), k + Depth(|level|), inputs)
    decreases |level|
  {
    if |level| > 1 {
      NextTrees(cr, level, blocks, k, inputs);
      FoldTrees(cr, NextLevel(cr, level), PairBlocks(blocks), k + 1, inputs);
    }
  }

  // The loop computes the top-down tree hash of the expanded list, which has
  // exactly 2^ceil(log2 n) leaves, and hashes every pair of that tree.
  lemma FoldIsTreeHash(cr: Suite, level: seq<Digest>)
    requires level != []
    ensures |Expand(level)| == Pow2(Depth(|level|))
    ensures Fold(cr, level) == TreeHash(cr, Expand(level), Depth(|level|))
    ensures TreeWithin(cr, Expand(level), Depth(|level|), LoopInputs(cr, level))
  {
    var inputs := LoopInputs(cr, level);
    LoopInputsSuffice(cr, level, inputs);
    FoldTrees(cr, level, Singletons(level), 0, inputs);
  }

  // The root as text: zeros for no transactions, and otherwise the hash tree over
  // the digests of the transactions' encodings.
  lemma RootIsTreeHash(cr: Suite, txs: seq<Transaction>, leaves: seq<Digest>)
    requires |leaves| == |txs| && forall i :: 0 <= i < |txs| ==> leaves[i] == Sha256(cr, CanonicalBytes(txs[i]))
    ensures txs == [] ==> Root(cr, txs) == Zeros(64)
    ensures txs != [] ==>
      && |Expand(leaves)| == Pow2(Depth(|txs|))
      && Root(cr, txs) == Hex(TreeHash(cr, Expand(leaves), Depth(|txs|)))
  {
    assert leaves == Leaves(cr, txs);
    if txs != [] {
      FoldIsTreeHash(cr, leaves);
    }
  }

  // ------------------------------------------- expansion only appends copies

  function Flatten<T>(blocks: seq<seq<T>>): seq<T> {
    if blocks == [] then [] else blocks[0] + Flatten(blocks[1..])
  }

  lemma {:induction false} PairingExtends<T>(blocks: seq<seq<T>>)
    ensures Flatten(blocks) <= Flatten(PairBlocks(blocks))
  {
    if |blocks| == 1 {
      assert blocks[1..] == [];
      assert PairBlocks(blocks) == [blocks[0] + blocks[0]];
      assert Flatten(PairBlocks(blocks)) == blocks[0] + blocks[0];
    } else if |blocks| >= 2 {
      var rest := blocks[2..];
      PairingExtends(rest);
      assert PairBlocks(blocks)[1..] == PairBlocks(rest);
      assert blocks[1..][1..] == rest;
      assert Flatten(blocks) == (blocks[0] + blocks[1]) + Flatten(rest);
    }
  }

  lemma {:induction false} CollapseExtends<T>(blocks: seq<seq<T>>)
    requires blocks != []
    ensures Flatten(blocks) <= Collapse(blocks)
    decreases |blocks|
  {
    if |blocks| == 1 {
      assert blocks[1..] == [];
    } else {
      PairingExtends(blocks);
      CollapseExtends(PairBlocks(blocks));
    }
  }

  lemma {:induction false} FlattenSingletons<T>(s: seq<T>)
    ensures Flatten(Singletons(s)) == s
  {
    if s != [] {
      FlattenSingletons(s[1..]);
      assert Singletons(s)[1..] == Singletons(s[1..]);
    }
  }

  lemma ExpandExtends<T>(leaves: seq<T>)
    requires leaves != []
    ensures leaves <= Expand(leaves)
  {
    CollapseExtends(Singletons(leaves));
    FlattenSingletons(leaves);
  }

  // ----------------------------------------------------------------- binding

  lemma {:induction false} TreeBinding(cr: Suite, s: seq<Digest>, t: seq<Digest>, k: nat, xs: set<Bytes>, ys: set<Bytes>)
    requires |s| == |t| == Pow2(k)
    requires TreeWithin(cr, s, k, xs) && TreeWithin(cr, t, k, ys)
    requires TreeHash(cr, s, k) == TreeHash(cr, t, k)
    ensures s == t || Collide(cr, xs, ys)
  {
    if k > 0 {
      var half := Pow2(k - 1);
      var s1, s2, t1, t2 := s[..half], s[half..], t[..half], t[half..];
      NodeBinding(cr, TreeHash(cr, s1, k - 1), TreeHash(cr, s2, k - 1), TreeHash(cr, t1, k - 1), TreeHash(cr, t2, k - 1), xs, ys);
      if !Collide(cr, xs, ys) {
        TreeBinding(cr, s1, t1, k - 1, xs, ys);
        TreeBinding(cr, s2, t2, k - 1, xs, ys);
        assert s == s1 + s2 && t == t1 + t2;
      }
    }
  }

  lemma NodeBinding(cr: Suite, a: Digest, b: Digest, c: Digest, d: Digest, xs: set<Bytes>, ys: set<Bytes>)
    requires Join(a, b) in xs && Join(c, d) in ys
    requires Sha256(cr, Join(a, b)) == Sha256(cr, Join(c, d))
    ensures (a == c && b == d) || Collide(cr, xs, ys)
  {
    EqualDigests(cr, Join(a, b), Join(c, d), xs, ys);
    if Join(a, b) == Join(c, d) {
      JoinInjective(a, b, c, d);
    }
  }

  // For lists of the same depth the root commits to the expanded list and to
  // nothing less: equal expansions give equal roots, and equal roots give equal
  // expansions unless two of the pairs the loop hashed collide.
  lemma RootBindsExpansion(cr: Suite, a: seq<Digest>, b: seq<Digest>)
    requires a != [] && b != [] && Depth(|a|) == Depth(|b|)
    ensures Expand(a) == Expand(b) ==> Fold(cr, a) == Fold(cr, b)
    ensures Fold(cr, a) == Fold(cr, b) ==>
      Expand(a) == Expand(b) || Collide(cr, LoopInputs(cr, a), LoopInputs(cr, b))
  {
    FoldIsTreeHash(cr, a);
    FoldIsTreeHash(cr, b);
    if Fold(cr, a) == Fold(cr, b) {
      var k := Depth(|a|);
      TreeBinding(cr, Expand(a), Expand(b), k, LoopInputs(cr, a), LoopInputs(cr, b));
    }
  }

  lemma RootBindsLeaves(cr: Suite, a: seq<Digest>, b: seq<Digest>)
    requires a != [] && |a| == |b| && Fold(cr, a) == Fold(cr, b)
    ensures a == b || Collide(cr, LoopInputs(cr, a), LoopInputs(cr, b))
  {
    RootBindsExpansion(cr, a, b);
    ExpandExtends(a);
    ExpandExtends(b);
  }

  // Going down the left edges of two trees with the same root, the shallower one
  // ends first: in a leaf whose digest some pair of the deeper one also has.
  lemma {:induction false} ShallowLeafIsPair(cr: Suite, s: seq<Digest>, k: nat, t: seq<Digest>, n: nat, xs: set<Bytes>, ys: set<Bytes>)
    requires |s| == Pow2(k) && |t| == Pow2(n) && k < n
    requires TreeWithin(cr, s, k, xs) && TreeWithin(cr, t, n, ys)
    requires TreeHash(cr, s, k) == TreeHash(cr, t, n)
    ensures Collide(cr, xs, ys) || exists p :: p in ys && |p| == 64 && Sha256(cr, p) == s[0]
  {
    var t1, t2 := t[..Pow2(n - 1)], t[Pow2(n - 1)..];
    var p := Join(TreeHash(cr, t1, n - 1), TreeHash(cr, t2, n - 1));
    assert p in ys && Sha256(cr, p) == TreeHash(cr, t, n);
    if k > 0 {
      var s1, s2 := s[..Pow2(k - 1)], s[Pow2(k - 1)..];
      NodeBinding(cr, TreeHash(cr, s1, k - 1), TreeHash(cr, s2, k - 1), TreeHash(cr, t1, n - 1), TreeHash(cr, t2, n - 1), xs, ys);
      if !Collide(cr, xs, ys) {
        ShallowLeafIsPair(cr, s1, k - 1, t1, n - 1, xs, ys);
      }
    }
  }

  // Equal roots at different depths: the first leaf of the shallower tree has the
  // digest of a 64-byte pair of the deeper one, or two pairs collide.
  lemma RootBindsDepth(cr: Suite, a: seq<Digest>, b: seq<Digest>)
    requires a != [] && b != [] && Depth(|a|) < Depth(|b|) && Fold(cr, a) == Fold(cr, b)
    ensures Collide(cr, LoopInputs(cr, a), LoopInputs(cr, b))
         || exists p :: p in LoopInputs(cr, b) && |p| == 64 && Sha256(cr, p) == a[0]
  {
    FoldIsTreeHash(cr, a);
    FoldIsTreeHash(cr, b);
    ExpandExtends(a);
    assert Expand(a)[0] == a[0];
    ShallowLeafIsPair(cr, Expand(a), Depth(|a|), Expand(b), Depth(|b|), LoopInputs(cr, a), LoopInputs(cr, b));
  }

  // Without equal lengths the binding is false: repeating the last leaf of any
  // odd list of three or more leaves the root unchanged.
  lemma RepeatedLastLeaf(cr: Suite, level: seq<Digest>)
    requires |level| >= 3 && |level| % 2 == 1
    ensures Fold(cr, level + [level[|level| - 1]]) == Fold(cr, level)
  {
    var longer := level + [level[|level| - 1]];
    forall j | 0 <= j < |NextLevel(cr, level)|
      ensures NextLevel(cr, longer)[j] == NextLevel(cr, level)[j]
    {
      assert PairBytes(longer, j) == PairBytes(level, j);
    }
    assert NextLevel(cr, longer) == NextLevel(cr, level);
  }

  // -------------------------------------------------------- inclusion proofs

  ghost function SiblingOf(level: seq<Digest>, i: nat): Digest
    requires i < |level|
  {
    if i % 2 == 0 then RightOf(level, i / 2) else level[i - 1]
  }

  // The sibling digests on the way from position i to the root.
  ghost function Path(cr: Suite, level: seq<Digest>, i: nat): (path: seq<Digest>)
    requires i < |level|
    ensures |path| == Depth(|level|)
    decreases |level|
  {
    if |level| == 1 then []
    else
      [SiblingOf(level, i)] + Path(cr, NextLevel(cr, level), i / 2)
  }

  // Hashing a digest upwards past its siblings.
  ghost function Climb(cr: Suite, x: Digest, i: nat, path: seq<Digest>): Digest
    decreases |path|
  {
    if path == [] then x
    else Climb(cr, Sha256(cr, JoinAt(x, i, path[0])), i / 2, path[1..])
  }

  ghost function JoinAt(x: Digest, i: nat, sibling: Digest): Bytes {
    if i % 2 == 0 then Join(x, sibling) else Join(sibling, x)
  }

  ghost function ClimbInputs(cr: Suite, x: Digest, i: nat, path: seq<Digest>): set<Bytes>
    decreases |path|
  {
    if path == [] then {}
    else {JoinAt(x, i, path[0])} + ClimbInputs(cr, Sha256(cr, JoinAt(x, i, path[0])), i / 2, path[1..])
  }

  lemma {:induction false} PathReachesRoot(cr: Suite, level: seq<Digest>, i: nat)
    requires i < |level|
    ensures Climb(cr, level[i], i, Path(cr, level, i)) == Fold(cr, level)
    decreases |level|
  {
    if |level| > 1 {
      var path := Path(cr, level, i);
      PathReachesRoot(cr, NextLevel(cr, level), i / 2);
      assert path[1..] == Path(cr, NextLevel(cr, level), i / 2);
      assert path[0] == SiblingOf(level, i);
      SiblingCompletesPair(level, i);
      assert NextLevel(cr, level)[i / 2] == Sha256(cr, PairBytes(level, i / 2));
    }
  }

  lemma SiblingCompletesPair(level: seq<Digest>, i: nat)
    requires 1 < |level| && i < |level|
    ensures JoinAt(level[i], i, SiblingOf(level, i)) == PairBytes(level, i / 2)
  {
  }

  // Conversely a path of the right length that reaches the root from position i
  // starts at leaf i and is that leaf's path, unless two hashed pairs collide.
  lemma {:induction false} PathIsSound(cr: Suite, level: seq<Digest>, i: nat, x: Digest, path: seq<Digest>)
    requires i < |level| && |path| == Depth(|level|)
    requires Climb(cr, x, i, path) == Fold(cr, level)
    ensures (x == level[i] && path == Path(cr, level, i))
         || Collide(cr, ClimbInputs(cr, x, i, path), LoopInputs(cr, level))
    decreases |level|
  {
    if |level| > 1 {
      var next := NextLevel(cr, level);
      var up := Sha256(cr, JoinAt(x, i, path[0]));
      PathIsSound(cr, next, i / 2, up, path[1..]);
      CollideGrows(cr, ClimbInputs(cr, up, i / 2, path[1..]), LoopInputs(cr, next),
                   ClimbInputs(cr, x, i, path), LoopInputs(cr, level));
      if up == next[i / 2] {
        StepIsSound(cr, level, i, x, path[0]);
        CollideGrows(cr, {JoinAt(x, i, path[0])}, LevelInputs(level),
                     ClimbInputs(cr, x, i, path), LoopInputs(cr, level));
        assert path == [path[0]] + path[1..];
      }
    }
  }

  // One step of a climb that arrives at the right parent.
  lemma StepIsSound(cr: Suite, level: seq<Digest>, i: nat, x: Digest, sibling: Digest)
    requires 1 < |level| && i < |level|
    requires Sha256(cr, JoinAt(x, i, sibling)) == NextLevel(cr, level)[i / 2]
    ensures (x == level[i] && sibling == Path(cr, level, i)[0])
         || Collide(cr, {JoinAt(x, i, sibling)}, LevelInputs(level))
  {
    var joined, pair := JoinAt(x, i, sibling), PairBytes(level, i / 2);
    assert pair in LevelInputs(level);
    EqualDigests(cr, joined, pair, {joined}, LevelInputs(level));
    var left, right := level[2 * (i / 2)], RightOf(level, i / 2);
    if joined == pair {
      if i % 2 == 0 {
        JoinInjective(x, sibling, left, right);
      } else {
        JoinInjective(sibling, x, left, right);
      }
    }
  }
}
