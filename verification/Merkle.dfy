/** The Merkle root: the level-by-level loop, and what the root commits to. */
module Merkle {
  import opened Models

  // ---------- Reference definition: a balanced tree over a padded list ----------

  /** The tree over `s`, split in halves from the top. */
  function TreeRoot(s: seq<Digest>): Digest
    requires s != []
  {
    if |s| == 1 then s[0]
    else NodeHash(TreeRoot(s[..|s| / 2]), TreeRoot(s[|s| / 2..]))
  }

  /**
   * Odd levels repeat their last node. On the leaves this repeats the last `w` of them, where `w` leaves hang
   * under each of the level's `m` nodes.
   */
  function PadFrom<T>(s: seq<T>, w: nat, m: nat): seq<T>
    requires w >= 1 && m >= 1 && |s| == m * w
    decreases m
  {
    if m == 1 then s
    else if m % 2 == 1 then
      assert |s| >= w by { LastChunkFits(s, w, m); }
      assert (m + 1) * w == (m + 1) / 2 * (2 * w) by { HalfOfEven(m + 1, w); }
      PadFrom(s + s[|s| - w..], 2 * w, (m + 1) / 2)
    else
      assert m * w == m / 2 * (2 * w) by { HalfOfEven(m, w); }
      PadFrom(s, 2 * w, m / 2)
  }

  /** The leaf list with every duplication the levels make. */
  function Padding<T>(s: seq<T>): seq<T> {
    if s == [] then [] else PadFrom(s, 1, |s|)
  }

  function Leaves(payloads: seq<Payload>): (r: seq<Digest>)
    ensures |r| == |payloads|
  {
    seq(|payloads|, i requires 0 <= i < |payloads| => LeafHash(payloads[i]))
  }

  function MerkleRoot(payloads: seq<Payload>): Digest {
    if payloads == [] then EmptyHash
    else
      PadFromExtends(Leaves(payloads), 1, |payloads|);
      TreeRoot(Padding(Leaves(payloads)))
  }

  lemma HalfOfEven(m: nat, w: nat)
    requires m % 2 == 0
    ensures m * w == m / 2 * (2 * w)
  {
    var h := m / 2;
    assert m == 2 * h;
    assert 2 * h * w == h * (2 * w);
  }

  lemma LastChunkFits<T>(s: seq<T>, w: nat, m: nat)
    requires m >= 1 && |s| == m * w
    ensures |s| >= w
  {
    assert m * w == (m - 1) * w + w;
    assert (m - 1) * w >= 0;
  }

  lemma {:induction false} PadFromExtends<T>(s: seq<T>, w: nat, m: nat)
    requires w >= 1 && m >= 1 && |s| == m * w
    ensures s <= PadFrom(s, w, m)
    decreases m
  {
    if m == 1 {
    } else if m % 2 == 1 {
      LastChunkFits(s, w, m);
      HalfOfEven(m + 1, w);
      PadFromExtends(s + s[|s| - w..], 2 * w, (m + 1) / 2);
    } else {
      HalfOfEven(m, w);
      PadFromExtends(s, 2 * w, m / 2);
    }
  }

  // ---------- The loop ----------

  /** One level up: each pair of neighbours is hashed together. */
  function PairUp(level: seq<Digest>): (r: seq<Digest>)
    requires |level| % 2 == 0
    ensures |r| == |level| / 2
  {
    seq(|level| / 2, i requires 0 <= i < |level| / 2 => NodeHash(level[2 * i], level[2 * i + 1]))
  }

  /** The `m` subtree roots over consecutive chunks of `w` leaves. */
  function ChunkRoots(s: seq<Digest>, w: nat, m: nat): (r: seq<Digest>)
    requires w >= 1 && |s| == m * w
    ensures |r| == m
  {
    if m == 0 then []
    else
      LastChunkFits(s, w, m);
      assert |s[w..]| == (m - 1) * w by { assert m * w == (m - 1) * w + w; }
      [TreeRoot(s[..w])] + ChunkRoots(s[w..], w, m - 1)
  }

  lemma {:induction false} ChunkRootsSingletons(s: seq<Digest>)
    ensures |s| == |s| * 1 && ChunkRoots(s, 1, |s|) == s
  {
    if s != [] {
      ChunkRootsSingletons(s[1..]);
      assert s == [s[0]] + s[1..];
    }
  }

  /** Repeating the last chunk repeats the last root. */
  lemma {:induction false} ChunkRootsRepeatLast(s: seq<Digest>, w: nat, m: nat)
    requires w >= 1 && m >= 1 && |s| == m * w
    ensures |s| >= w && |s + s[|s| - w..]| == (m + 1) * w
    ensures ChunkRoots(s + s[|s| - w..], w, m + 1) == ChunkRoots(s, w, m) + [ChunkRoots(s, w, m)[m - 1]]
  {
    LastChunkFits(s, w, m);
    assert (m + 1) * w == m * w + w;
    var t := s + s[|s| - w..];
    assert t[..w] == s[..w];
    if m == 1 {
      assert t[w..] == s;
      assert ChunkRoots(s[w..], w, 0) == [];
      assert t[w..][w..] == [];
      assert s[..w] == s;
    } else {
      assert |s[w..]| == (m - 1) * w by { assert m * w == (m - 1) * w + w; }
      LastChunkFits(s[w..], w, m - 1);
      ChunkRootsRepeatLast(s[w..], w, m - 1);
      assert t[w..] == s[w..] + s[w..][|s[w..]| - w..];
    }
  }

  lemma TreeRootOfTwo(s: seq<Digest>, w: nat)
    requires w >= 1 && |s| == 2 * w
    ensures TreeRoot(s) == NodeHash(TreeRoot(s[..w]), TreeRoot(s[w..]))
  {
  }

  lemma PairUpCons(a: Digest, b: Digest, rest: seq<Digest>)
    requires |rest| % 2 == 0
    ensures PairUp([a, b] + rest) == [NodeHash(a, b)] + PairUp(rest)
  {
  }

  lemma {:induction false} PairUpChunkRoots(s: seq<Digest>, w: nat, m: nat)
    requires w >= 1 && |s| == m * (2 * w)
    ensures |s| == (2 * m) * w && PairUp(ChunkRoots(s, w, 2 * m)) == ChunkRoots(s, 2 * w, m)
  {
    HalfOfEven(2 * m, w);
    if m != 0 {
      LastChunkFits(s, 2 * w, m);
      assert |s[2 * w..]| == (m - 1) * (2 * w) by { assert m * (2 * w) == (m - 1) * (2 * w) + 2 * w; }
      PairUpChunkRoots(s[2 * w..], w, m - 1);
      var rest := ChunkRoots(s[2 * w..], w, 2 * m - 2);
      TwoChunks(s, w, m);
      FirstTwoChunks(s, w);
      PairUpCons(TreeRoot(s[..w]), TreeRoot(s[w..][..w]), rest);
    }
  }

  lemma FirstTwoChunks(s: seq<Digest>, w: nat)
    requires w >= 1 && |s| >= 2 * w
    ensures TreeRoot(s[..2 * w]) == NodeHash(TreeRoot(s[..w]), TreeRoot(s[w..][..w]))
  {
    TreeRootOfTwo(s[..2 * w], w);
    assert s[..2 * w][..w] == s[..w] && s[..2 * w][w..] == s[w..][..w];
  }

  lemma TwoChunks(s: seq<Digest>, w: nat, m: nat)
    requires w >= 1 && m >= 1 && |s| == (2 * m) * w && |s| >= 2 * w && |s[2 * w..]| == (2 * m - 2) * w
    ensures ChunkRoots(s, w, 2 * m)
         == [TreeRoot(s[..w]), TreeRoot(s[w..][..w])] + ChunkRoots(s[2 * w..], w, 2 * m - 2)
  {
    assert |s[w..]| == (2 * m - 1) * w by { assert (2 * m) * w == (2 * m - 1) * w + w; }
    assert s[w..][w..] == s[2 * w..];
  }

  /** Repeating the last node of an odd level, and the leaves under it, changes neither the chunks nor the padding. */
  lemma RepeatLast(s: seq<Digest>, w: nat, m: nat)
    requires w >= 1 && m > 1 && m % 2 == 1 && |s| == m * w
    ensures |s| >= w && |s + s[|s| - w..]| == (m + 1) * w
    ensures ChunkRoots(s + s[|s| - w..], w, m + 1) == ChunkRoots(s, w, m) + [ChunkRoots(s, w, m)[m - 1]]
    ensures PadFrom(s + s[|s| - w..], w, m + 1) == PadFrom(s, w, m)
  {
    ChunkRootsRepeatLast(s, w, m);
    HalfOfEven(m + 1, w);
  }

  /** Pairing an even level is the level of chunks twice as long. */
  lemma PairLevel(s: seq<Digest>, w: nat, m: nat)
    requires w >= 1 && m >= 1 && m % 2 == 0 && |s| == m * w
    ensures |s| == m / 2 * (2 * w)
    ensures PairUp(ChunkRoots(s, w, m)) == ChunkRoots(s, 2 * w, m / 2)
    ensures PadFrom(s, 2 * w, m / 2) == PadFrom(s, w, m)
  {
    HalfOfEven(m, w);
    PairUpChunkRoots(s, w, m / 2);
  }

  /** One round of the loop: the last node repeated if need be, then neighbours hashed in pairs. */
  method NextLevel(level: seq<Digest>, ghost s: seq<Digest>, ghost w: nat)
    returns (next: seq<Digest>, ghost t: seq<Digest>)
    requires w >= 1 && |level| > 1 && |s| == |level| * w && level == ChunkRoots(s, w, |level|)
    ensures 1 <= |next| < |level| && |t| == |next| * (2 * w)
    ensures next == ChunkRoots(t, 2 * w, |next|)
    ensures PadFrom(t, 2 * w, |next|) == PadFrom(s, w, |level|)
  {
    var even := level;
    t := s;
    if |level| % 2 == 1 {
      RepeatLast(s, w, |level|);
      t := s + s[|s| - w..];
      even := level + [level[|level| - 1]];
    }
    PairLevel(t, w, |even|);
    next := PairUp(even);
  }

  /** `_compute_merkle_root`: hash the leaves, then pair levels until one digest is left. */
  method ComputeMerkleRoot(prims: Primitives, txs: seq<Transaction>) returns (root: Digest)
    ensures root == MerkleRoot(Payloads(prims, txs))
  {
    if txs == [] {
      return EmptyHash;
    }
    var leaves := Leaves(Payloads(prims, txs));
    var level := leaves;
    ghost var padded, w := leaves, 1;
    ChunkRootsSingletons(leaves);
    while |level| > 1
      invariant w >= 1 && |level| >= 1 && |padded| == |level| * w
      invariant level == ChunkRoots(padded, w, |level|)
      invariant PadFrom(padded, w, |level|) == Padding(leaves)
      decreases |level|
    {
      level, padded := NextLevel(level, padded, w);
      w := 2 * w;
    }
    assert padded[..w] == padded;
    root := level[0];
  }

  // ---------- What the root commits to ----------

  /** The leaves of a digest read as a tree, left to right. */
  function Fringe(d: Digest): seq<Digest> {
    if d.NodeHash? then Fringe(d.left) + Fringe(d.right) else [d]
  }

  predicate NoInnerNodes(s: seq<Digest>) { forall i :: 0 <= i < |s| ==> !s[i].NodeHash? }

  lemma FringeOfNode(l: Digest, r: Digest)
    ensures Fringe(NodeHash(l, r)) == Fringe(l) + Fringe(r)
  {
  }

  lemma SplitTree(s: seq<Digest>)
    requires |s| > 1
    ensures TreeRoot(s) == NodeHash(TreeRoot(s[..|s| / 2]), TreeRoot(s[|s| / 2..]))
  {
  }

  lemma {:induction false} FringeOfTree(s: seq<Digest>)
    requires s != [] && NoInnerNodes(s)
    ensures Fringe(TreeRoot(s)) == s
    decreases |s|
  {
    if |s| == 1 {
      assert s == [s[0]];
    } else {
      var l, r := s[..|s| / 2], s[|s| / 2..];
      assert s == l + r;
      FringeOfTree(l);
      FringeOfTree(r);
      var x, y := TreeRoot(l), TreeRoot(r);
      SplitTree(s);
      FringeOfNode(x, y);
      assert Fringe(NodeHash(x, y)) == s;
    }
  }

  /** Padding only repeats elements already there, so it commutes with hashing each leaf. */
  lemma {:induction false} PadFromLeaves(p: seq<Payload>, w: nat, m: nat)
    requires w >= 1 && m >= 1 && |p| == m * w
    ensures PadFrom(Leaves(p), w, m) == Leaves(PadFrom(p, w, m))
    decreases m
  {
    if m == 1 {
    } else if m % 2 == 1 {
      LastChunkFits(p, w, m);
      HalfOfEven(m + 1, w);
      var q := p + p[|p| - w..];
      assert Leaves(q) == Leaves(p) + Leaves(p)[|p| - w..];
      PadFromLeaves(q, 2 * w, (m + 1) / 2);
    } else {
      HalfOfEven(m, w);
      PadFromLeaves(p, 2 * w, m / 2);
    }
  }

  lemma RootFringe(p: seq<Payload>)
    requires p != []
    ensures Fringe(MerkleRoot(p)) == Leaves(Padding(p))
  {
    PadFromExtends(p, 1, |p|);
    PadFromLeaves(p, 1, |p|);
    FringeOfTree(Leaves(Padding(p)));
  }

  /** Exactly the padded leaf lists are committed to: equal roots, equal paddings, and conversely. */
  lemma RootsEqualIffPaddingsEqual(a: seq<Payload>, b: seq<Payload>)
    ensures MerkleRoot(a) == MerkleRoot(b) <==> Padding(a) == Padding(b)
  {
    if a != [] { RootFringe(a); PadFromExtends(a, 1, |a|); PadFromLeaves(a, 1, |a|); }
    if b != [] { RootFringe(b); PadFromExtends(b, 1, |b|); PadFromLeaves(b, 1, |b|); }
    if a != [] && b != [] && MerkleRoot(a) == MerkleRoot(b) {
      var x, y := Padding(a), Padding(b);
      assert Leaves(x) == Leaves(y);
      assert |x| == |y|;
      assert forall i :: 0 <= i < |x| ==> Leaves(x)[i].payload == x[i] && Leaves(y)[i].payload == y[i];
    }
    EmptyRootIffEmpty(a);
    EmptyRootIffEmpty(b);
  }

  /** Only the empty list has the empty root. */
  lemma EmptyRootIffEmpty(p: seq<Payload>)
    ensures MerkleRoot(p) == EmptyHash <==> p == []
  {
    if p != [] {
      RootFringe(p);
      PadFromExtends(p, 1, |p|);
      assert Leaves(Padding(p))[0] == LeafHash(p[0]);
      assert Fringe(EmptyHash) == [EmptyHash];
    }
  }

  /** Lists of one length with one root agree leaf for leaf. */
  lemma SameLengthRootsInjective(a: seq<Payload>, b: seq<Payload>)
    requires |a| == |b| && MerkleRoot(a) == MerkleRoot(b)
    ensures a == b
  {
    RootsEqualIffPaddingsEqual(a, b);
    if a != [] {
      PadFromExtends(a, 1, |a|);
      PadFromExtends(b, 1, |b|);
      assert a == Padding(a)[..|a|] && b == Padding(b)[..|b|];
    }
  }

  /** The length matters: an odd list of three or more shares its root with the list that repeats its last leaf. */
  lemma OddListSharesRoot(a: seq<Payload>)
    requires |a| >= 3 && |a| % 2 == 1
    ensures MerkleRoot(a) == MerkleRoot(a + [a[|a| - 1]])
  {
    var b := a + [a[|a| - 1]];
    assert a + a[|a| - 1..] == b;
    assert PadFrom(a, 1, |a|) == PadFrom(b, 2, (|a| + 1) / 2) == PadFrom(b, 1, |b|);
    RootsEqualIffPaddingsEqual(a, b);
  }
}
