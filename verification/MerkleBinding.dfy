/**
 What a Merkle root binds, for lists of any two lengths: the tree over the leaves,
 the last node of an odd level paired with itself. Nodes and leaves are hashed
 alike, so a leaf as long as two digests can pass for a node.
*/
module MerkleBinding {
  import opened Merkle

  datatype Tree = Leaf(data: seq<byte>) | Pair(left: Tree, right: Tree)

  const NODE_SIZE: nat := 2 * DIGEST_SIZE

  function HashTree(h: seq<byte> -> Digest, t: Tree): Digest {
    match t
    case Leaf(data) => h(data)
    case Pair(left, right) => HashPair(h, HashTree(h, left), HashTree(h, right))
  }

  function Leaves(a: seq<seq<byte>>): (r: seq<Tree>)
    ensures |r| == |a| && forall i :: 0 <= i < |r| ==> r[i] == Leaf(a[i])
  {
    seq(|a|, i requires 0 <= i < |a| => Leaf(a[i]))
  }

  /** The partner of tree i. */
  function Partner(ts: seq<Tree>, i: nat): Tree
    requires 2 * i < |ts|
  {
    if 2 * i + 1 < |ts| then ts[2 * i + 1] else ts[2 * i]
  }

  function PairUp(ts: seq<Tree>): (r: seq<Tree>)
    ensures |r| == (|ts| + 1) / 2
    ensures forall k :: 0 <= k < |r| ==> r[k] == Pair(ts[2 * k], Partner(ts, k))
  {
    seq((|ts| + 1) / 2, k requires 0 <= k < (|ts| + 1) / 2 => Pair(ts[2 * k], Partner(ts, k)))
  }

  function Fold(ts: seq<Tree>): Tree
    requires |ts| > 0
    decreases |ts|
  {
    if |ts| == 1 then ts[0] else Fold(PairUp(ts))
  }

  /** The tree over a list of leaves. */
  function TreeOf(a: seq<seq<byte>>): Tree
    requires |a| > 0
  {
    Fold(Leaves(a))
  }

  // ---------- the root is the hash of the tree ----------

  function Hashes(h: seq<byte> -> Digest, ts: seq<Tree>): (r: seq<Digest>)
    ensures |r| == |ts| && forall i :: 0 <= i < |r| ==> r[i] == HashTree(h, ts[i])
  {
    seq(|ts|, i requires 0 <= i < |ts| => HashTree(h, ts[i]))
  }

  lemma UpHashes(h: seq<byte> -> Digest, ts: seq<Tree>)
    ensures Up(h, Hashes(h, ts)) == Hashes(h, PairUp(ts))
  {
    forall k | 0 <= k < (|ts| + 1) / 2 ensures Up(h, Hashes(h, ts))[k] == Hashes(h, PairUp(ts))[k] {
      assert Sibling(Hashes(h, ts), 2 * k) == HashTree(h, Partner(ts, k));
    }
  }

  lemma {:induction false} RootHashes(h: seq<byte> -> Digest, ts: seq<Tree>)
    requires |ts| > 0
    ensures Root(h, Hashes(h, ts)) == HashTree(h, Fold(ts))
    decreases |ts|
  {
    if |ts| > 1 {
      UpHashes(h, ts);
      RootHashes(h, PairUp(ts));
    }
  }

  lemma RootIsTree(h: seq<byte> -> Digest, a: seq<seq<byte>>)
    requires |a| > 0
    ensures RootOf(h, a) == HashTree(h, TreeOf(a))
  {
    RootHashes(h, Leaves(a));
    assert LeafLevel(h, a) == Hashes(h, Leaves(a));
  }

  // ---------- leaves and height ----------

  predicate HasLeaf(t: Tree, d: seq<byte>) {
    match t
    case Leaf(data) => data == d
    case Pair(left, right) => HasLeaf(left, d) || HasLeaf(right, d)
  }

  lemma {:induction false} FoldHasLeaf(ts: seq<Tree>, d: seq<byte>)
    requires |ts| > 0
    ensures HasLeaf(Fold(ts), d) <==> exists i :: 0 <= i < |ts| && HasLeaf(ts[i], d)
    decreases |ts|
  {
    if |ts| > 1 {
      var us := PairUp(ts);
      FoldHasLeaf(us, d);
      if i :| 0 <= i < |ts| && HasLeaf(ts[i], d) {
        assert us[i / 2] == Pair(ts[2 * (i / 2)], Partner(ts, i / 2)) && HasLeaf(us[i / 2], d);
      }
      if k :| 0 <= k < |us| && HasLeaf(us[k], d) {
        assert us[k] == Pair(ts[2 * k], Partner(ts, k));
      }
    }
  }

  lemma TreeHasLeaf(a: seq<seq<byte>>, d: seq<byte>)
    requires |a| > 0
    ensures HasLeaf(TreeOf(a), d) <==> d in a
  {
    FoldHasLeaf(Leaves(a), d);
    if d in a {
      var i :| 0 <= i < |a| && a[i] == d;
      assert HasLeaf(Leaves(a)[i], d);
    }
  }

  /** Every leaf is k steps below the top. */
  predicate Perfect(t: Tree, k: nat) {
    match t
    case Leaf(_) => k == 0
    case Pair(left, right) => k > 0 && Perfect(left, k - 1) && Perfect(right, k - 1)
  }

  lemma {:induction false} FoldPerfect(h: seq<byte> -> Digest, ts: seq<Tree>, k: nat)
    requires |ts| > 0 && forall i :: 0 <= i < |ts| ==> Perfect(ts[i], k)
    ensures Perfect(Fold(ts), k + |Levels(h, Hashes(h, ts))| - 1)
    decreases |ts|
  {
    if |ts| > 1 {
      UpHashes(h, ts);
      var us := PairUp(ts);
      forall i | 0 <= i < |us| ensures Perfect(us[i], k + 1) {
        assert us[i] == Pair(ts[2 * i], Partner(ts, i));
      }
      FoldPerfect(h, us, k + 1);
    }
  }

  /** The tree is as high as the stored levels say. */
  lemma TreeIsPerfect(h: seq<byte> -> Digest, a: seq<seq<byte>>)
    requires |a| > 0
    ensures Perfect(TreeOf(a), |Levels(h, LeafLevel(h, a))| - 1)
  {
    FoldPerfect(h, Leaves(a), 0);
    assert LeafLevel(h, a) == Hashes(h, Leaves(a));
  }

  // ---------- when two lists share a root ----------

  /** No leaf can be mistaken for the two digests of a node. */
  ghost predicate Plain(a: seq<seq<byte>>) {
    forall i :: 0 <= i < |a| ==> |a[i]| != NODE_SIZE
  }

  ghost predicate PlainTree(t: Tree) {
    forall d :: HasLeaf(t, d) ==> |d| != NODE_SIZE
  }

  lemma PlainParts(t: Tree)
    requires t.Pair? && PlainTree(t)
    ensures PlainTree(t.left) && PlainTree(t.right)
  {
    forall d | HasLeaf(t.left, d) || HasLeaf(t.right, d) ensures |d| != NODE_SIZE {
      assert HasLeaf(t, d);
    }
  }

  lemma PlainLists(a: seq<seq<byte>>)
    requires |a| > 0
    ensures PlainTree(TreeOf(a)) <==> Plain(a)
  {
    forall d ensures HasLeaf(TreeOf(a), d) <==> d in a {
      TreeHasLeaf(a, d);
    }
    forall i | 0 <= i < |a| ensures HasLeaf(TreeOf(a), a[i]) {
      assert a[i] in a;
    }
  }

  lemma HashTreeIsDigest(h: seq<byte> -> Digest, t: Tree)
    requires IsHash(h)
    ensures |HashTree(h, t)| == DIGEST_SIZE
  {
  }

  /** What the top of a tree hashes. */
  function TopInput(h: seq<byte> -> Digest, t: Tree): seq<byte> {
    match t
    case Leaf(data) => data
    case Pair(left, right) => HashTree(h, left) + HashTree(h, right)
  }

  lemma {:induction false} TreesBind(h: seq<byte> -> Digest, s: Tree, t: Tree) returns (x: seq<byte>, y: seq<byte>)
    requires IsHash(h) && PlainTree(s) && PlainTree(t) && s != t && HashTree(h, s) == HashTree(h, t)
    ensures Collision(h, x, y)
    decreases s
  {
    x, y := TopInput(h, s), TopInput(h, t);
    if s.Leaf? || t.Leaf? {
      assert s.Leaf? ==> HasLeaf(s, s.data);
      assert t.Leaf? ==> HasLeaf(t, t.data);
    } else {
      HashTreeIsDigest(h, s.left);
      HashTreeIsDigest(h, t.left);
      PlainParts(s);
      PlainParts(t);
      if HashTree(h, s.left) != HashTree(h, t.left) || HashTree(h, s.right) != HashTree(h, t.right) {
        PairsDiffer(HashTree(h, s.left), HashTree(h, s.right), HashTree(h, t.left), HashTree(h, t.right));
      } else if s.left != t.left {
        x, y := TreesBind(h, s.left, t.left);
      } else {
        x, y := TreesBind(h, s.right, t.right);
      }
    }
  }

  /** Two lists, of whatever lengths, without leaves as long as a node share a root if
      and only if they have the same tree, or else here is a collision. */
  lemma SameRootExactly(h: seq<byte> -> Digest, a: seq<seq<byte>>, b: seq<seq<byte>>) returns (x: seq<byte>, y: seq<byte>)
    requires IsHash(h) && |a| > 0 && |b| > 0 && Plain(a) && Plain(b)
    ensures TreeOf(a) == TreeOf(b) ==> RootOf(h, a) == RootOf(h, b)
    ensures RootOf(h, a) == RootOf(h, b) ==> TreeOf(a) == TreeOf(b) || Collision(h, x, y)
  {
    RootIsTree(h, a);
    RootIsTree(h, b);
    PlainLists(a);
    PlainLists(b);
    x, y := [], [];
    if RootOf(h, a) == RootOf(h, b) && TreeOf(a) != TreeOf(b) {
      x, y := TreesBind(h, TreeOf(a), TreeOf(b));
    }
  }

  lemma {:induction false} FoldInjective(ts: seq<Tree>, us: seq<Tree>)
    requires |ts| == |us| > 0 && Fold(ts) == Fold(us)
    ensures ts == us
    decreases |ts|
  {
    if |ts| > 1 {
      FoldInjective(PairUp(ts), PairUp(us));
      forall i | 0 <= i < |ts| ensures ts[i] == us[i] {
        assert PairUp(ts)[i / 2] == PairUp(us)[i / 2];
        assert PairUp(ts)[i / 2] == Pair(ts[2 * (i / 2)], Partner(ts, i / 2));
        assert PairUp(us)[i / 2] == Pair(us[2 * (i / 2)], Partner(us, i / 2));
      }
    }
  }

  /** Lists of one length have the same tree only if they are the same. */
  lemma SameLengthSameTree(a: seq<seq<byte>>, b: seq<seq<byte>>)
    requires |a| == |b| > 0
    ensures TreeOf(a) == TreeOf(b) <==> a == b
  {
    if TreeOf(a) == TreeOf(b) {
      FoldInjective(Leaves(a), Leaves(b));
      forall i | 0 <= i < |a| ensures a[i] == b[i] {
        assert Leaves(a)[i] == Leaves(b)[i];
      }
    }
  }

  /** Repeating the last leaf of any odd list longer than one keeps the tree, and so the root. */
  lemma RepeatedLeafSameRoot(h: seq<byte> -> Digest, a: seq<seq<byte>>)
    requires |a| > 1 && |a| % 2 == 1
    ensures TreeOf(a) == TreeOf(a + [a[|a| - 1]]) && RootOf(h, a) == RootOf(h, a + [a[|a| - 1]])
  {
    var b := a + [a[|a| - 1]];
    assert PairUp(Leaves(a)) == PairUp(Leaves(b));
    RootIsTree(h, a);
    RootIsTree(h, b);
  }

  /** The length of the leaves matters: the two digests of a node, as a single leaf,
      have the node's root, although the trees differ. */
  lemma NodeAsLeafSameRoot(h: seq<byte> -> Digest, a: seq<byte>, b: seq<byte>)
    requires IsHash(h)
    ensures RootOf(h, [a, b]) == RootOf(h, [h(a) + h(b)]) && TreeOf([a, b]) != TreeOf([h(a) + h(b)])
    ensures !Plain([h(a) + h(b)])
  {
    assert PairUp([Leaf(a), Leaf(b)]) == [Pair(Leaf(a), Leaf(b))];
    assert Fold([Pair(Leaf(a), Leaf(b))]) == Pair(Leaf(a), Leaf(b));
    assert Leaves([a, b]) == [Leaf(a), Leaf(b)];
    assert TreeOf([a, b]) == Pair(Leaf(a), Leaf(b));
    assert TreeOf([h(a) + h(b)]) == Leaf(h(a) + h(b));
    RootIsTree(h, [a, b]);
    RootIsTree(h, [h(a) + h(b)]);
    assert |[h(a) + h(b)][0]| == NODE_SIZE;
  }

  // ---------- accepted proofs ----------

  lemma {:induction false} ClimbLast(h: seq<byte> -> Digest, current: Digest, siblings: seq<(Digest, bool)>)
    requires siblings != []
    ensures var k := |siblings| - 1;
      Climb(h, current, siblings) == Combine(h, Climb(h, current, siblings[..k]), siblings[k].0, siblings[k].1)
    decreases |siblings|
  {
    if |siblings| > 1 {
      var next := Combine(h, current, siblings[0].0, siblings[0].1);
      ClimbLast(h, next, siblings[1..]);
      assert siblings[1..][..|siblings| - 2] == siblings[..|siblings| - 1][1..];
    } else {
      assert siblings[1..] == [] && siblings[..0] == [];
    }
  }

  lemma ClimbIsDigest(h: seq<byte> -> Digest, current: Digest, siblings: seq<(Digest, bool)>)
    requires IsHash(h) && |current| == DIGEST_SIZE
    ensures |Climb(h, current, siblings)| == DIGEST_SIZE
  {
    if siblings != [] { ClimbLast(h, current, siblings); }
  }

  ghost predicate DigestSiblings(siblings: seq<(Digest, bool)>) {
    forall k :: 0 <= k < |siblings| ==> |siblings[k].0| == DIGEST_SIZE
  }

  /** Walking from the top down against the siblings ends in a leaf, or at a collision. */
  lemma {:induction false} Descend(h: seq<byte> -> Digest, t: Tree, d: seq<byte>, siblings: seq<(Digest, bool)>)
    returns (x: seq<byte>, y: seq<byte>)
    requires IsHash(h) && DigestSiblings(siblings) && Climb(h, h(d), siblings) == HashTree(h, t)
    requires Perfect(t, |siblings|) || (|d| != NODE_SIZE && PlainTree(t))
    ensures HasLeaf(t, d) || Collision(h, x, y)
    decreases |siblings|
  {
    if t.Pair? {
      HashTreeIsDigest(h, t.left);
      HashTreeIsDigest(h, t.right);
    } else {
      assert HasLeaf(t, t.data);
    }
    if siblings == [] {
      x, y := d, TopInput(h, t);
    } else {
      var k := |siblings| - 1;
      var below, s, isRight := Climb(h, h(d), siblings[..k]), siblings[k].0, siblings[k].1;
      ClimbLast(h, h(d), siblings);
      ClimbIsDigest(h, h(d), siblings[..k]);
      x, y := Input(below, s, isRight), TopInput(h, t);
      if t.Pair? && x == y {
        if PlainTree(t) { PlainParts(t); }
        if isRight {
          SamePairs(s, below, HashTree(h, t.left), HashTree(h, t.right));
          x, y := Descend(h, t.right, d, siblings[..k]);
        } else {
          SamePairs(below, s, HashTree(h, t.left), HashTree(h, t.right));
          x, y := Descend(h, t.left, d, siblings[..k]);
        }
      }
    }
  }

  lemma SamePairs(a: Digest, b: Digest, c: Digest, d: Digest)
    requires |a| == |c| == DIGEST_SIZE && a + b == c + d
    ensures a == c && b == d
  {
    if a != c || b != d { PairsDiffer(a, b, c, d); }
  }

  /** `verify_proof` looks neither at the number of siblings nor at the index. Data that
      it accepts under a tree's root are some leaf, or there is a collision, when the
      proof has as many siblings as the tree is high, or when neither the data nor any
      leaf is as long as a node. */
  lemma AcceptedIsLeaf(h: seq<byte> -> Digest, t: MerkleTree, proof: MerkleProof, leafData: seq<byte>)
    returns (x: seq<byte>, y: seq<byte>)
    requires IsHash(h) && IsTree(h, t) && proof.root == t.root && Accepts(h, proof, leafData)
    requires DigestSiblings(proof.siblings)
    requires |proof.siblings| == |t.tree| - 1 || (|leafData| != NODE_SIZE && Plain(t.leaves))
    ensures leafData in t.leaves || Collision(h, x, y)
  {
    RootIsTree(h, t.leaves);
    TreeIsPerfect(h, t.leaves);
    PlainLists(t.leaves);
    x, y := Descend(h, TreeOf(t.leaves), leafData, proof.siblings);
    TreeHasLeaf(t.leaves, leafData);
  }

  /** A caller must check the number of siblings: without any, the two digests under the
      root of [a, b] are accepted, and they are no leaf. */
  lemma NodeIsAccepted(h: seq<byte> -> Digest, a: seq<byte>, b: seq<byte>)
    requires IsHash(h) && |a| != NODE_SIZE && |b| != NODE_SIZE
    ensures var d := h(a) + h(b);
      Accepts(h, MerkleProof(0, h(d), [], RootOf(h, [a, b])), d) && d !in [a, b]
  {
    NodeAsLeafSameRoot(h, a, b);
    RootIsTree(h, [h(a) + h(b)]);
    assert |h(a) + h(b)| == NODE_SIZE;
  }
}
