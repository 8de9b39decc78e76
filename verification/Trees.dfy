/** Binary folds. The circuit library reduces neighbours level by level
    (`mapreduce`, `get_root_from_hashed_leaves`), and so does the off-chain
    `get_merkle_root` (circuits/input/mod.rs); proofs use the fold by halves. */
module Trees {
  import opened Basics

  predicate IsPow2(n: nat) {
    n == 1 || (n > 0 && n % 2 == 0 && IsPow2(n / 2))
  }

  /** Fold by halves. */
  function TreeFold<T>(op: (T, T) -> T, xs: seq<T>): T
    requires IsPow2(|xs|)
    decreases |xs|
  {
    if |xs| == 1 then xs[0]
    else op(TreeFold(op, xs[..|xs| / 2]), TreeFold(op, xs[|xs| / 2..]))
  }

  /** One level: neighbours 2i and 2i + 1 combined. */
  function Level<T>(op: (T, T) -> T, xs: seq<T>): (ys: seq<T>)
    ensures |ys| == |xs| / 2
    ensures forall i | 0 <= i < |ys| :: ys[i] == op(xs[2 * i], xs[2 * i + 1])
  {
    seq(|xs| / 2, i requires 0 <= i < |xs| / 2 => op(xs[2 * i], xs[2 * i + 1]))
  }

  /** Fold level by level. */
  function LevelFold<T>(op: (T, T) -> T, xs: seq<T>): T
    requires IsPow2(|xs|)
    decreases |xs|
  {
    if |xs| == 1 then xs[0] else LevelFold(op, Level(op, xs))
  }

  lemma {:induction false} LevelOfHalves<T>(op: (T, T) -> T, xs: seq<T>, m: nat)
    requires |xs| == 2 * m && m % 2 == 0
    ensures Level(op, xs)[..m / 2] == Level(op, xs[..m])
    ensures Level(op, xs)[m / 2..] == Level(op, xs[m..])
  {
  }

  lemma {:induction false} LevelKeepsTree<T>(op: (T, T) -> T, xs: seq<T>)
    requires IsPow2(|xs|) && |xs| >= 2
    ensures TreeFold(op, Level(op, xs)) == TreeFold(op, xs)
    decreases |xs|
  {
    if |xs| == 2 {
    } else {
      var m := |xs| / 2;
      assert IsPow2(m) && m % 2 == 0;
      hide IsPow2;
      LevelKeepsTree(op, xs[..m]);
      LevelKeepsTree(op, xs[m..]);
      LevelOfHalves(op, xs, m);
    }
  }

  lemma {:induction false} LevelFoldIsTreeFold<T>(op: (T, T) -> T, xs: seq<T>)
    requires IsPow2(|xs|)
    ensures LevelFold(op, xs) == TreeFold(op, xs)
    decreases |xs|
  {
    if |xs| == 1 {
    } else {
      LevelKeepsTree(op, xs);
      LevelFoldIsTreeFold(op, Level(op, xs));
    }
  }

  /** Chunk j of eight elements has the value f gives it; the second argument of f is the
      position of the piece. */
  ghost predicate ChunkValues<A, T>(f: (seq<A>, nat) -> T, xs: seq<A>, start: nat, chunks: seq<T>)
    requires |xs| == 8 * |chunks|
  {
    forall j | 0 <= j < |chunks| :: chunks[j] == f(xs[8 * j..8 * j + 8], start + 8 * j)
  }

  /** op joins the values of neighbouring pieces of equal length into the value of the whole. */
  ghost predicate JoinsPieces<A(!new), T>(op: (T, T) -> T, f: (seq<A>, nat) -> T, bound: nat) {
    forall a: seq<A>, b: seq<A>, s: nat, t: nat |
      |a| == |b| && IsPow2(|a|) && t == s + |a| < bound :: op(f(a, s), f(b, t)) == f(a + b, s)
  }

  lemma {:induction false} ChunkValuesOfHalves<A, T>(f: (seq<A>, nat) -> T, xs: seq<A>, start: nat, chunks: seq<T>,
                                                     h: nat)
    requires |xs| == 8 * |chunks| && h <= |chunks| && ChunkValues(f, xs, start, chunks)
    ensures ChunkValues(f, xs[..8 * h], start, chunks[..h])
    ensures ChunkValues(f, xs[8 * h..], start + 8 * h, chunks[h..])
  {
    var a, b, mid := xs[..8 * h], xs[8 * h..], start + 8 * h;
    forall j | 0 <= j < h
      ensures chunks[..h][j] == f(a[8 * j..8 * j + 8], start + 8 * j)
    {
      assert a[8 * j..8 * j + 8] == xs[8 * j..8 * j + 8];
    }
    forall j | 0 <= j < |chunks| - h
      ensures chunks[h..][j] == f(b[8 * j..8 * j + 8], mid + 8 * j)
    {
      assert b[8 * j..8 * j + 8] == xs[8 * (h + j)..8 * (h + j) + 8];
      assert mid + 8 * j == start + 8 * (h + j);
    }
  }

  lemma {:induction false} JoinPiece<A(!new), T>(op: (T, T) -> T, f: (seq<A>, nat) -> T, bound: nat,
                                                 a: seq<A>, b: seq<A>, s: nat, t: nat)
    requires JoinsPieces(op, f, bound) && |a| == |b| && IsPow2(|a|) && t == s + |a| < bound
    ensures op(f(a, s), f(b, t)) == f(a + b, s)
  {
  }

  lemma {:induction false} FoldOne<A, T>(op: (T, T) -> T, f: (seq<A>, nat) -> T, xs: seq<A>, start: nat, chunks: seq<T>)
    requires |chunks| == 1 && |xs| == 8 && ChunkValues(f, xs, start, chunks)
    ensures IsPow2(8) && TreeFold(op, chunks) == f(xs, start)
  {
    assert chunks[0] == f(xs[8 * 0..8 * 0 + 8], start + 8 * 0);
    assert xs[0..8] == xs;
  }

  lemma {:induction false} FoldSplits<T>(op: (T, T) -> T, xs: seq<T>, h: nat)
    requires IsPow2(h) && |xs| == 2 * h
    ensures IsPow2(|xs|) && TreeFold(op, xs) == op(TreeFold(op, xs[..h]), TreeFold(op, xs[h..]))
  {
  }

  lemma {:induction false} FoldHalves<A(!new), T>(op: (T, T) -> T, f: (seq<A>, nat) -> T, bound: nat,
                                                  xs: seq<A>, start: nat, chunks: seq<T>, h: nat)
    requires IsPow2(h) && |chunks| == 2 * h && |xs| == 16 * h && IsPow2(8 * h) && start + 8 * h < bound
    requires JoinsPieces(op, f, bound)
    requires TreeFold(op, chunks[..h]) == f(xs[..8 * h], start)
    requires TreeFold(op, chunks[h..]) == f(xs[8 * h..], start + 8 * h)
    ensures IsPow2(|xs|) && IsPow2(|chunks|) && TreeFold(op, chunks) == f(xs, start)
  {
    hide JoinsPieces, IsPow2, TreeFold;
    FoldSplits(op, chunks, h);
    TwicePow2(8 * h);
    assert xs[..8 * h] + xs[8 * h..] == xs;
    JoinPiece(op, f, bound, xs[..8 * h], xs[8 * h..], start, start + 8 * h);
  }

  lemma {:induction false} TwicePow2(n: nat)
    requires IsPow2(n)
    ensures IsPow2(2 * n)
  {
  }

  /** Folding the values of the chunks of eight gives the value of everything. */
  lemma {:induction false} FoldOfChunks<A(!new), T>(op: (T, T) -> T, f: (seq<A>, nat) -> T, bound: nat,
                                                    xs: seq<A>, start: nat, chunks: seq<T>)
    requires IsPow2(|chunks|) && |xs| == 8 * |chunks| && start + |xs| - 8 < bound
    requires ChunkValues(f, xs, start, chunks) && JoinsPieces(op, f, bound)
    ensures IsPow2(|xs|) && TreeFold(op, chunks) == f(xs, start)
    decreases |chunks|
  {
    if |chunks| == 1 {
      FoldOne(op, f, xs, start, chunks);
    } else {
      var h := |chunks| / 2;
      assert IsPow2(h);
      ChunkValuesOfHalves(f, xs, start, chunks, h);
      hide *;
      FoldOfChunks(op, f, bound, xs[..8 * h], start, chunks[..h]);
      FoldOfChunks(op, f, bound, xs[8 * h..], start + 8 * h, chunks[h..]);
      FoldHalves(op, f, bound, xs, start, chunks, h);
    }
  }

  // ----- SHA-256 trees with unhashed leaves

  function ShaPair(c: Crypto): (Bytes32, Bytes32) -> Bytes32 {
    (l: Bytes32, r: Bytes32) => c.sha256(l + r)
  }

  /** Root of a power of two of leaves. */
  function MerkleRoot(c: Crypto, leaves: seq<Bytes32>): Bytes32
    requires IsPow2(|leaves|)
  {
    TreeFold(ShaPair(c), leaves)
  }

  lemma {:induction false} RootOfHalves(c: Crypto, a: seq<Bytes32>, b: seq<Bytes32>)
    requires |a| == |b| && IsPow2(|a|)
    ensures IsPow2(|a + b|)
    ensures MerkleRoot(c, a + b) == c.sha256(MerkleRoot(c, a) + MerkleRoot(c, b))
  {
    assert (a + b)[..|a|] == a && (a + b)[|a|..] == b;
  }

  /** At some place of the two trees, two different pairs of nodes have one hash. */
  ghost predicate NodesCollide(c: Crypto, xs: seq<Bytes32>, ys: seq<Bytes32>)
    requires |xs| == |ys| && IsPow2(|xs|)
    decreases |xs|
  {
    |xs| > 1 &&
    var h := |xs| / 2;
    var x, y := MerkleRoot(c, xs[..h]) + MerkleRoot(c, xs[h..]), MerkleRoot(c, ys[..h]) + MerkleRoot(c, ys[h..]);
    || (x != y && c.sha256(x) == c.sha256(y))
    || NodesCollide(c, xs[..h], ys[..h])
    || NodesCollide(c, xs[h..], ys[h..])
  }

  /** A root binds its leaves: trees of one size with one root have the same leaves, or two pairs of
      nodes collide. */
  lemma {:induction false} RootBinds(c: Crypto, xs: seq<Bytes32>, ys: seq<Bytes32>)
    requires |xs| == |ys| && IsPow2(|xs|)
    ensures MerkleRoot(c, xs) == MerkleRoot(c, ys) ==> xs == ys || NodesCollide(c, xs, ys)
    decreases |xs|
  {
    if |xs| == 1 {
    } else {
      var h := |xs| / 2;
      RootBinds(c, xs[..h], ys[..h]);
      RootBinds(c, xs[h..], ys[h..]);
      RootOfHalves(c, xs[..h], xs[h..]);
      RootOfHalves(c, ys[..h], ys[h..]);
      hide MerkleRoot;
      assert xs[..h] + xs[h..] == xs && ys[..h] + ys[h..] == ys;
      var xl: Bytes, xr: Bytes, yl: Bytes, yr: Bytes := MerkleRoot(c, xs[..h]), 
        MerkleRoot(c, xs[h..]), MerkleRoot(c, ys[..h]), MerkleRoot(c, ys[h..]);
      if xl + xr == yl + yr {
        assert (xl + xr)[..32] == xl && (xl + xr)[32..] == xr && (yl + yr)[..32] == yl && (yl + yr)[32..] == yr;
      }
    }
  }

  /** Leaves from index n on replaced by zero bytes. */
  function Masked(leaves: seq<Bytes32>, n: nat): (r: seq<Bytes32>)
    ensures |r| == |leaves|
    ensures forall i | 0 <= i < |leaves| :: r[i] == if i < n then leaves[i] else ZERO32
  {
    seq(|leaves|, i requires 0 <= i < |leaves| => if i < n then leaves[i] else ZERO32)
  }

  /** The `get_root_from_hashed_leaves` gadget. */
  function RootFromHashedLeaves(c: Crypto, leaves: seq<Bytes32>, enabled: nat): Bytes32
    requires IsPow2(|leaves|)
  {
    LevelFold(ShaPair(c), Masked(leaves, enabled))
  }

  function ZeroLeaves(n: nat): (z: seq<Bytes32>)
    ensures |z| == n && forall i | 0 <= i < n :: z[i] == ZERO32
  {
    seq(n, _ => ZERO32)
  }

  // ----- get_merkle_root

  function CountOnes(n: nat): nat {
    if n == 0 then 0 else n % 2 + CountOnes(n / 2)
  }

  lemma {:induction false} OneBitIsPow2(n: nat)
    ensures CountOnes(n) == 1 <==> IsPow2(n)
    ensures CountOnes(n) == 0 <==> n == 0
  {
    if n == 0 {
    } else {
      OneBitIsPow2(n / 2);
    }
  }

  /** The least power of two that is at least n. */
  function NextPow2(n: nat): (p: nat)
    requires n > 0
    ensures n <= p && IsPow2(p)
    ensures forall q | n <= q < p :: !IsPow2(q)
  {
    if n == 1 then 1
    else
      var p := 2 * NextPow2((n + 1) / 2);
      assert p / 2 == NextPow2((n + 1) / 2) && p % 2 == 0;
      assert forall q | n <= q < p && q % 2 == 0 :: (n + 1) / 2 <= q / 2 < p / 2 && !IsPow2(q / 2);
      p
  }

  lemma {:induction false} PowerNeedsNoPadding(p: nat)
    requires IsPow2(p)
    ensures NextPow2(p) == p
  {
    assert p <= NextPow2(p);
  }

  /** Root of the leaves after zero leaves are added up to a power of two; None (the empty
      vector) when there are no leaves. */
  function SimpleRoot(c: Crypto, leaves: seq<Bytes32>): Option<Bytes32> {
    if leaves == [] then None
    else Some(MerkleRoot(c, leaves + ZeroLeaves(NextPow2(|leaves|) - |leaves|)))
  }

  lemma {:induction false} SmallRoots(c: Crypto, x: Bytes32, y: Bytes32)
    ensures IsPow2(1) && IsPow2(2)
    ensures MerkleRoot(c, [x]) == x && MerkleRoot(c, [x, y]) == c.sha256(x + y)
  {
    RootOfHalves(c, [x], [y]);
    assert [x] + [y] == [x, y];
  }

  lemma {:induction false} SmallPowers()
    ensures NextPow2(1) == 1 && NextPow2(2) == 2 && NextPow2(3) == 4 && IsPow2(4)
  {
    assert IsPow2(1) && IsPow2(2) && IsPow2(4) && !IsPow2(3);
    PowerNeedsNoPadding(1);
    PowerNeedsNoPadding(2);
    PowerNeedsNoPadding(4);
  }

  /** The smallest trees, written out: neighbours are hashed left before right, and three leaves are
      filled up with one zero leaf. */
  lemma {:induction false} SmallTrees(c: Crypto, x: Bytes32, y: Bytes32, z: Bytes32)
    ensures SimpleRoot(c, []) == None
    ensures SimpleRoot(c, [x]) == Some(x)
    ensures SimpleRoot(c, [x, y]) == Some(c.sha256(x + y))
    ensures SimpleRoot(c, [x, y, z]) == Some(c.sha256(c.sha256(x + y) + c.sha256(z + Zeros(32))))
  {
    hide MerkleRoot, NextPow2, IsPow2, SimpleRoot;
    SmallPowers();
    SmallRoots(c, x, y);
    FullTree(c, [x]);
    FullTree(c, [x, y]);
    ThreeLeaves(c, x, y, z);
    NoLeaves(c);
  }

  lemma {:induction false} NoLeaves(c: Crypto)
    ensures SimpleRoot(c, []) == None
  {
  }

  lemma {:induction false} ThreeLeaves(c: Crypto, x: Bytes32, y: Bytes32, z: Bytes32)
    ensures SimpleRoot(c, [x, y, z]) == Some(c.sha256(c.sha256(x + y) + c.sha256(z + Zeros(32))))
  {
    hide MerkleRoot, NextPow2, IsPow2;
    SmallPowers();
    SmallRoots(c, x, y);
    SmallRoots(c, z, ZERO32);
    RootOfHalves(c, [x, y], [z, ZERO32]);
    assert [x, y, z] + ZeroLeaves(1) == [x, y] + [z, ZERO32];
  }

  /** A power of two of leaves needs no more padding. */
  lemma {:induction false} FullTree(c: Crypto, leaves: seq<Bytes32>)
    requires IsPow2(|leaves|)
    ensures SimpleRoot(c, leaves) == Some(MerkleRoot(c, leaves))
  {
    PowerNeedsNoPadding(|leaves|);
    assert leaves + ZeroLeaves(0) == leaves;
  }

  method GetMerkleRoot(c: Crypto, leaves: seq<Bytes32>) returns (root: Option<Bytes32>)
    ensures root == SimpleRoot(c, leaves)
  {
    if leaves == [] {
      return None;
    }
    var nodes := leaves;
    var p := NextPow2(|leaves|);
    OneBitIsPow2(|nodes|);
    while CountOnes(|nodes|) != 1
      invariant |leaves| <= |nodes| <= p
      invariant nodes == leaves + ZeroLeaves(|nodes| - |leaves|)
      invariant CountOnes(|nodes|) == 1 <==> IsPow2(|nodes|)
      decreases p - |nodes|
    {
      nodes := nodes + [ZERO32];
      OneBitIsPow2(|nodes|);
    }
    assert |nodes| == p;
    while |nodes| > 1
      invariant IsPow2(|nodes|)
      invariant Some(MerkleRoot(c, nodes)) == SimpleRoot(c, leaves)
      decreases |nodes|
    {
      LevelKeepsTree(ShaPair(c), nodes);
      nodes := Level(ShaPair(c), nodes);
    }
    root := Some(nodes[0]);
  }
}
