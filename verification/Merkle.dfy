/**
 The Merkle tree of prog3/crypto_primitives.py over any hash with digests of one
 length: proofs verify, and two different lists with one root give a collision.
*/
module Merkle {
  import opened Wrappers

  type byte = bv8
  type Digest = seq<byte>

  const DIGEST_SIZE: nat := 32

  ghost predicate IsHash(h: seq<byte> -> Digest) {
    forall x: seq<byte> :: |h(x)| == DIGEST_SIZE
  }

  ghost predicate Collision(h: seq<byte> -> Digest, x: seq<byte>, y: seq<byte>) {
    x != y && h(x) == h(y)
  }

  ghost predicate AreDigests(level: seq<Digest>) {
    forall i :: 0 <= i < |level| ==> |level[i]| == DIGEST_SIZE
  }

  function HashPair(h: seq<byte> -> Digest, left: Digest, right: Digest): Digest {
    h(left + right)
  }

  /** The partner of node i in its level; the last node of an odd level is its own. */
  function Sibling(level: seq<Digest>, i: nat): Digest
    requires i < |level|
  {
    if i % 2 == 1 then level[i - 1]
    else if i + 1 < |level| then level[i + 1]
    else level[i]
  }

  /** The level above, pair by pair. */
  function Up(h: seq<byte> -> Digest, level: seq<Digest>): (r: seq<Digest>)
    ensures |r| == (|level| + 1) / 2
    ensures forall k :: 0 <= k < |r| ==> r[k] == HashPair(h, level[2 * k], Sibling(level, 2 * k))
  {
    seq((|level| + 1) / 2, k requires 0 <= k < (|level| + 1) / 2 => HashPair(h, level[2 * k], Sibling(level, 2 * k)))
  }

  /** The levels of the tree, root first. */
  function Levels(h: seq<byte> -> Digest, level: seq<Digest>): (r: seq<seq<Digest>>)
    requires |level| > 0
    ensures |r| > 0 && |r[0]| == 1 && r[|r| - 1] == level
    decreases |level|
  {
    if |level| == 1 then [level] else Levels(h, Up(h, level)) + [level]
  }

  function Root(h: seq<byte> -> Digest, level: seq<Digest>): Digest
    requires |level| > 0
    decreases |level|
  {
    if |level| == 1 then level[0] else Root(h, Up(h, level))
  }

  lemma {:induction false} RootOfLevels(h: seq<byte> -> Digest, level: seq<Digest>)
    requires |level| > 0
    ensures Levels(h, level)[0][0] == Root(h, level)
    decreases |level|
  {
    if |level| > 1 { RootOfLevels(h, Up(h, level)); }
  }

  function LeafLevel(h: seq<byte> -> Digest, leaves: seq<seq<byte>>): (r: seq<Digest>)
    ensures |r| == |leaves| && forall i :: 0 <= i < |r| ==> r[i] == h(leaves[i])
  {
    seq(|leaves|, i requires 0 <= i < |leaves| => h(leaves[i]))
  }

  /** The root over a list of leaves. */
  function RootOf(h: seq<byte> -> Digest, leaves: seq<seq<byte>>): Digest
    requires |leaves| > 0
  {
    Root(h, LeafLevel(h, leaves))
  }

  // ---------- building, proving, verifying ----------

  datatype MerkleTree = MerkleTree(leaves: seq<seq<byte>>, tree: seq<seq<Digest>>, root: Digest)

  datatype MerkleProof = MerkleProof(leafIndex: nat, leafHash: Digest, siblings: seq<(Digest, bool)>, root: Digest)

  datatype Error = EmptyLeaves | InvalidIndex

  ghost predicate IsTree(h: seq<byte> -> Digest, t: MerkleTree) {
    |t.leaves| > 0 && t.tree == Levels(h, LeafLevel(h, t.leaves)) && t.root == RootOf(h, t.leaves)
  }

  /** The constructor, which rejects an empty list. */
  method Create(h: seq<byte> -> Digest, leaves: seq<seq<byte>>) returns (r: Result<MerkleTree, Error>)
    ensures r.Err? <==> leaves == []
    ensures r.Ok? ==> r.value.leaves == leaves && IsTree(h, r.value)
  {
    if |leaves| == 0 { return Err(EmptyLeaves); }
    var tree := BuildTree(h, leaves);
    RootOfLevels(h, LeafLevel(h, leaves));
    return Ok(MerkleTree(leaves, tree, tree[0][0]));
  }

  /** `_build_tree`. */
  method BuildTree(h: seq<byte> -> Digest, leaves: seq<seq<byte>>) returns (tree: seq<seq<Digest>>)
    requires |leaves| > 0
    ensures tree == Levels(h, LeafLevel(h, leaves))
  {
    var current := HashLeaves(h, leaves);
    tree := [current];
    while |current| > 1
      invariant |current| > 0 && |tree| > 0 && tree[0] == current
      invariant Levels(h, LeafLevel(h, leaves)) == Levels(h, current) + tree[1..]
      decreases |current|
    {
      var next := NextLevel(h, current);
      tree := [next] + tree;
      current := next;
    }
  }

  method HashLeaves(h: seq<byte> -> Digest, leaves: seq<seq<byte>>) returns (level: seq<Digest>)
    ensures level == LeafLevel(h, leaves)
  {
    level := [];
    for i := 0 to |leaves|
      invariant |level| == i && forall k :: 0 <= k < i ==> level[k] == h(leaves[k])
    {
      level := level + [h(leaves[i])];
    }
  }

  /** The inner loop of `_build_tree`, two nodes a turn. */
  method NextLevel(h: seq<byte> -> Digest, current: seq<Digest>) returns (next: seq<Digest>)
    ensures next == Up(h, current)
  {
    next := [];
    var i := 0;
    while i < |current|
      invariant 0 <= i && i == 2 * |next| && |next| <= (|current| + 1) / 2
      invariant forall k :: 0 <= k < |next| ==> next[k] == HashPair(h, current[2 * k], Sibling(current, 2 * k))
      decreases |current| - i
    {
      var left := current[i];
      var right := if i + 1 < |current| then current[i + 1] else left;
      next := next + [HashPair(h, left, right)];
      i := i + 2;
    }
  }

  /** The siblings from the leaf to the root, and on which side the node is. */
  function Path(h: seq<byte> -> Digest, level: seq<Digest>, i: nat): seq<(Digest, bool)>
    requires i < |level|
    decreases |level|
  {
    if |level| == 1 then [] else [(Sibling(level, i), i % 2 == 1)] + Path(h, Up(h, level), i / 2)
  }

  lemma PathStep(h: seq<byte> -> Digest, level: seq<Digest>, i: nat)
    requires i < |level| && |level| > 1
    ensures Path(h, level, i) == [(Sibling(level, i), i % 2 == 1)] + Path(h, Up(h, level), i / 2)
    ensures Path(h, level, i)[0] == (Sibling(level, i), i % 2 == 1)
    ensures Path(h, level, i)[1..] == Path(h, Up(h, level), i / 2)
  {
  }

  /** The proof for a leaf. */
  function ProofOf(h: seq<byte> -> Digest, t: MerkleTree, i: nat): MerkleProof
    requires i < |t.leaves|
  {
    MerkleProof(i, h(t.leaves[i]), Path(h, LeafLevel(h, t.leaves), i), t.root)
  }

  /** `get_proof`: walks the levels from the leaves up. */
  method GetProof(h: seq<byte> -> Digest, t: MerkleTree, leafIndex: int) returns (r: Result<MerkleProof, Error>)
    requires IsTree(h, t)
    ensures r.Err? <==> leafIndex < 0 || leafIndex >= |t.leaves|
    ensures r.Ok? ==> r.value.leafIndex == leafIndex && r.value.leafHash == h(t.leaves[leafIndex]) && r.value.root == t.root
    ensures r.Ok? ==> r.value == ProofOf(h, t, leafIndex)
  {
    if leafIndex < 0 || leafIndex >= |t.leaves| { return Err(InvalidIndex); }
    var siblings := Siblings(h, LeafLevel(h, t.leaves), t.tree, leafIndex);
    return Ok(MerkleProof(leafIndex, t.tree[|t.tree| - 1][leafIndex], siblings, t.root));
  }

  /** The loop of `get_proof`, from the leaves up. */
  method Siblings(h: seq<byte> -> Digest, ghost leafLevel: seq<Digest>, tree: seq<seq<Digest>>, leafIndex: nat)
    returns (siblings: seq<(Digest, bool)>)
    requires leafIndex < |leafLevel| && tree == Levels(h, leafLevel)
    ensures siblings == Path(h, leafLevel, leafIndex)
  {
    hide Path, Up, Levels;
    siblings := [];
    var currentIndex := leafIndex;
    var level := |tree| - 1;
    ghost var data := leafLevel;
    assert tree[..level + 1] == tree;
    while level > 0
      invariant 0 <= level < |tree| && |data| > 0 && tree[..level + 1] == Levels(h, data)
      invariant 0 <= currentIndex < |data|
      invariant Path(h, leafLevel, leafIndex) == siblings + Path(h, data, currentIndex)
      decreases level
    {
      LevelsStep(h, data, tree, level);
      PathStep(h, data, currentIndex);
      var levelData := tree[level];
      var isRight := currentIndex % 2 == 1;
      var siblingIndex := if isRight then currentIndex - 1 else currentIndex + 1;
      var sibling := if siblingIndex < |levelData| then levelData[siblingIndex] else levelData[currentIndex];
      Append(siblings, (sibling, isRight), Path(h, Up(h, data), currentIndex / 2));
      siblings := siblings + [(sibling, isRight)];
      data := Up(h, data);
      currentIndex := currentIndex / 2;
      level := level - 1;
    }
    PathOfRoot(h, data, currentIndex, tree[..1]);
  }

  lemma Append<T>(a: seq<T>, x: T, b: seq<T>)
    ensures a + ([x] + b) == (a + [x]) + b
  {
  }

  lemma LevelsStep(h: seq<byte> -> Digest, data: seq<Digest>, tree: seq<seq<Digest>>, level: nat)
    requires 0 < level < |tree| && |data| > 0 && tree[..level + 1] == Levels(h, data)
    ensures tree[level] == data && |data| > 1 && tree[..level] == Levels(h, Up(h, data))
  {
    assert tree[..level + 1][level] == tree[level];
    assert tree[..level + 1][..level] == tree[..level];
  }

  lemma PathOfRoot(h: seq<byte> -> Digest, data: seq<Digest>, i: nat, top: seq<seq<Digest>>)
    requires i < |data| && |top| == 1 && top == Levels(h, data)
    ensures Path(h, data, i) == []
  {
  }

  /** One step of `verify_proof`. */
  function Combine(h: seq<byte> -> Digest, current: Digest, sibling: Digest, isRight: bool): Digest {
    if isRight then HashPair(h, sibling, current) else HashPair(h, current, sibling)
  }

  function Climb(h: seq<byte> -> Digest, current: Digest, siblings: seq<(Digest, bool)>): Digest
    decreases |siblings|
  {
    if siblings == [] then current
    else Climb(h, Combine(h, current, siblings[0].0, siblings[0].1), siblings[1..])
  }

  /** What a proof must satisfy to be accepted for the leaf data. */
  predicate Accepts(h: seq<byte> -> Digest, proof: MerkleProof, leafData: seq<byte>) {
    h(leafData) == proof.leafHash && Climb(h, h(leafData), proof.siblings) == proof.root
  }

  /** Each digest is the hash of the one before and its sibling, the sibling first when the
      node is on the right. */
  ghost predicate IsClimb(h: seq<byte> -> Digest, chain: seq<Digest>, siblings: seq<(Digest, bool)>) {
    |chain| == |siblings| + 1
    && forall k :: 0 <= k < |siblings| ==>
         chain[k + 1] == h(if siblings[k].1 then siblings[k].0 + chain[k] else chain[k] + siblings[k].0)
  }

  lemma {:induction false} ClimbEnds(h: seq<byte> -> Digest, chain: seq<Digest>, siblings: seq<(Digest, bool)>)
    requires IsClimb(h, chain, siblings)
    ensures Climb(h, chain[0], siblings) == chain[|siblings|]
    decreases |siblings|
  {
    if siblings != [] { ClimbEnds(h, chain[1..], siblings[1..]); }
  }

  lemma {:induction false} SomeClimb(h: seq<byte> -> Digest, current: Digest, siblings: seq<(Digest, bool)>)
    returns (chain: seq<Digest>)
    ensures IsClimb(h, chain, siblings) && chain[0] == current
    decreases |siblings|
  {
    if siblings == [] {
      chain := [current];
    } else {
      var rest := SomeClimb(h, Combine(h, current, siblings[0].0, siblings[0].1), siblings[1..]);
      chain := [current] + rest;
      forall k | 0 <= k < |siblings|
        ensures chain[k + 1] == h(if siblings[k].1 then siblings[k].0 + chain[k] else chain[k] + siblings[k].0)
      {
        if k > 0 { assert siblings[1..][k - 1] == siblings[k]; }
      }
    }
  }

  /** Data are accepted if and only if they have the proof's leaf hash, and hashing up along
      the siblings from there ends in the proof's root. */
  lemma AcceptedExactly(h: seq<byte> -> Digest, proof: MerkleProof, leafData: seq<byte>)
    ensures Accepts(h, proof, leafData) <==>
      h(leafData) == proof.leafHash
      && exists chain :: IsClimb(h, chain, proof.siblings) && chain[0] == h(leafData) && chain[|proof.siblings|] == proof.root
  {
    var chain := SomeClimb(h, h(leafData), proof.siblings);
    forall chain | IsClimb(h, chain, proof.siblings) && chain[0] == h(leafData)
      ensures chain[|proof.siblings|] == Climb(h, h(leafData), proof.siblings)
    {
      ClimbEnds(h, chain, proof.siblings);
    }
  }

  /** `verify_proof`. */
  method VerifyProof(h: seq<byte> -> Digest, proof: MerkleProof, leafData: seq<byte>) returns (ok: bool)
    ensures h(leafData) != proof.leafHash ==> !ok
    ensures h(leafData) == proof.leafHash ==> (ok <==>
      exists chain :: IsClimb(h, chain, proof.siblings) && chain[0] == h(leafData) && chain[|proof.siblings|] == proof.root)
    ensures ok <==> Accepts(h, proof, leafData)
  {
    AcceptedExactly(h, proof, leafData);
    hide IsClimb;
    var current := h(leafData);
    if current != proof.leafHash { return false; }
    for k := 0 to |proof.siblings|
      invariant Climb(h, h(leafData), proof.siblings) == Climb(h, current, proof.siblings[k..])
    {
      var (s, isRight) := proof.siblings[k];
      assert proof.siblings[k..][1..] == proof.siblings[k + 1..];
      current := if isRight then HashPair(h, s, current) else HashPair(h, current, s);
    }
    return current == proof.root;
  }

  // ---------- completeness ----------

  /** The parent of node i. */
  lemma ParentOf(h: seq<byte> -> Digest, level: seq<Digest>, i: nat)
    requires i < |level|
    ensures i / 2 < |Up(h, level)|
    ensures Up(h, level)[i / 2] == Combine(h, level[i], Sibling(level, i), i % 2 == 1)
  {
    var k := i / 2;
    assert Up(h, level)[k] == HashPair(h, level[2 * k], Sibling(level, 2 * k));
  }

  /** Climbing along its own path leads any node to the root. */
  lemma {:induction false} PathClimbs(h: seq<byte> -> Digest, level: seq<Digest>, i: nat)
    requires i < |level|
    ensures Climb(h, level[i], Path(h, level, i)) == Root(h, level)
    decreases |level|
  {
    if |level| > 1 {
      hide Up, Path, Combine, Sibling;
      PathStep(h, level, i);
      ParentOf(h, level, i);
      PathClimbs(h, Up(h, level), i / 2);
    }
  }

  /** The node k levels above node i. */
  function Ancestor(i: nat, k: nat): nat {
    if k == 0 then i else Ancestor(i / 2, k - 1)
  }

  /** What stands beside node j of a row: the node paired with it, or itself, and whether j is on the right. */
  predicate Beside(row: seq<Digest>, j: nat, entry: (Digest, bool)) {
    j < |row| && entry == (row[if j % 2 == 1 then j - 1 else if j + 1 < |row| then j + 1 else j], j % 2 == 1)
  }

  /** Entry k of the path of leaf i is what stands beside the node above it on the k-th level from below. */
  lemma {:induction false} PathEntry(h: seq<byte> -> Digest, level: seq<Digest>, i: nat, k: nat)
    requires i < |level| && k < |Levels(h, level)| - 1
    ensures |Path(h, level, i)| == |Levels(h, level)| - 1
    ensures Beside(Levels(h, level)[|Levels(h, level)| - 1 - k], Ancestor(i, k), Path(h, level, i)[k])
    decreases |level|
  {
    hide Up, Path, Beside;
    PathStep(h, level, i);
    PathLength(h, level, i);
    if k > 0 {
      PathEntry(h, Up(h, level), i / 2, k - 1);
    } else {
      SiblingBeside(level, i);
    }
  }

  lemma SiblingBeside(level: seq<Digest>, i: nat)
    requires i < |level|
    ensures Beside(level, i, (Sibling(level, i), i % 2 == 1))
  {
  }

  lemma {:induction false} PathLength(h: seq<byte> -> Digest, level: seq<Digest>, i: nat)
    requires i < |level|
    ensures |Path(h, level, i)| == |Levels(h, level)| - 1
    decreases |level|
  {
    if |level| > 1 { PathLength(h, Up(h, level), i / 2); }
  }

  /** The proof of every leaf of every tree is accepted. */
  lemma ProofsVerify(h: seq<byte> -> Digest, t: MerkleTree, i: nat)
    requires IsTree(h, t) && i < |t.leaves|
    ensures Accepts(h, ProofOf(h, t, i), t.leaves[i])
  {
    PathClimbs(h, LeafLevel(h, t.leaves), i);
  }

  // ---------- binding ----------

  lemma PairsDiffer(a: Digest, b: Digest, c: Digest, d: Digest)
    requires |a| == |c| == DIGEST_SIZE && (a != c || b != d)
    ensures a + b != c + d
  {
    assert (a + b)[..DIGEST_SIZE] == a && (c + d)[..DIGEST_SIZE] == c;
    assert (a + b)[DIGEST_SIZE..] == b && (c + d)[DIGEST_SIZE..] == d;
  }

  lemma SingleNodes(a: seq<Digest>, b: seq<Digest>)
    requires |a| == |b| == 1 && a != b
    ensures a[0] != b[0]
  {
    assert a == [a[0]] && b == [b[0]];
  }

  lemma SomeDifference<T>(a: seq<T>, b: seq<T>) returns (i: nat)
    requires |a| == |b| && a != b
    ensures i < |a| && a[i] != b[i]
  {
    i :| 0 <= i < |a| && a[i] != b[i];
  }

  /** Two different levels of one size with one root contain a collision. */
  lemma {:induction false} LevelBinds(h: seq<byte> -> Digest, a: seq<Digest>, b: seq<Digest>) returns (x: seq<byte>, y: seq<byte>)
    requires IsHash(h) && AreDigests(a) && AreDigests(b)
    requires |a| == |b| > 0 && a != b && Root(h, a) == Root(h, b)
    ensures Collision(h, x, y)
    decreases |a|
  {
    if |a| == 1 {
      SingleNodes(a, b);
    } else if Up(h, a) != Up(h, b) {
      x, y := LevelBinds(h, Up(h, a), Up(h, b));
    } else {
      x, y := ParentsCollide(h, a, b);
    }
  }

  lemma ParentsCollide(h: seq<byte> -> Digest, a: seq<Digest>, b: seq<Digest>) returns (x: seq<byte>, y: seq<byte>)
    requires AreDigests(a) && AreDigests(b) && |a| == |b| && a != b && Up(h, a) == Up(h, b)
    ensures Collision(h, x, y)
  {
    var i := SomeDifference(a, b);
    x, y := Input(a[i], Sibling(a, i), i % 2 == 1), Input(b[i], Sibling(b, i), i % 2 == 1);
    ParentOf(h, a, i);
    ParentOf(h, b, i);
    InputsDiffer(a[i], Sibling(a, i), b[i], Sibling(b, i), i % 2 == 1);
  }

  /** What is hashed for a node and its sibling. */
  function Input(current: Digest, sibling: Digest, isRight: bool): seq<byte> {
    if isRight then sibling + current else current + sibling
  }

  lemma InputsDiffer(a: Digest, s: Digest, b: Digest, t: Digest, isRight: bool)
    requires |a| == |b| == |s| == |t| == DIGEST_SIZE && a != b
    ensures Input(a, s, isRight) != Input(b, t, isRight)
  {
    if isRight { PairsDiffer(s, a, t, b); } else { PairsDiffer(a, s, b, t); }
  }

  /** Binding: two different lists of the same length under one root give a collision.
      Lists of different lengths are treated in MerkleBinding. */
  lemma RootBinds(h: seq<byte> -> Digest, a: seq<seq<byte>>, b: seq<seq<byte>>) returns (x: seq<byte>, y: seq<byte>)
    requires IsHash(h) && |a| == |b| > 0 && a != b && RootOf(h, a) == RootOf(h, b)
    ensures Collision(h, x, y)
  {
    if LeafLevel(h, a) != LeafLevel(h, b) {
      x, y := LevelBinds(h, LeafLevel(h, a), LeafLevel(h, b));
    } else {
      var i :| 0 <= i < |a| && a[i] != b[i];
      x, y := a[i], b[i];
      assert LeafLevel(h, a)[i] == LeafLevel(h, b)[i];
    }
  }

  /** The sides a proof for index i names, level by level. */
  ghost predicate SidesMatch(siblings: seq<(Digest, bool)>, path: seq<(Digest, bool)>) {
    |siblings| == |path| && forall k :: 0 <= k < |path| ==> siblings[k].1 == path[k].1 && |siblings[k].0| == DIGEST_SIZE
  }

  /** Whatever climbs to the root on index i's side of every level starts from node i, or there is a collision. */
  lemma {:induction false} ClimbBinds(h: seq<byte> -> Digest, level: seq<Digest>, i: nat, current: Digest,
                                      siblings: seq<(Digest, bool)>)
    returns (x: seq<byte>, y: seq<byte>)
    requires IsHash(h) && AreDigests(level) && i < |level| && |current| == DIGEST_SIZE
    requires SidesMatch(siblings, Path(h, level, i)) && Climb(h, current, siblings) == Root(h, level)
    ensures current == level[i] || Collision(h, x, y)
    decreases |level|
  {
    x, y := [], [];
    if |level| > 1 {
      hide Up, Path, Sibling;
      PathStep(h, level, i);
      ParentOf(h, level, i);
      var (s, isRight) := siblings[0];
      assert isRight == (i % 2 == 1) && |s| == DIGEST_SIZE;
      SidesTail(siblings, Path(h, level, i));
      UpDigests(h, level);
      x, y := ClimbBinds(h, Up(h, level), i / 2, Combine(h, current, s, isRight), siblings[1..]);
      if current != level[i] && Combine(h, current, s, isRight) == Up(h, level)[i / 2] {
        SiblingIsDigest(level, i);
        InputsDiffer(current, s, level[i], Sibling(level, i), isRight);
        x, y := Input(current, s, isRight), Input(level[i], Sibling(level, i), isRight);
      }
    }
  }

  lemma SidesTail(siblings: seq<(Digest, bool)>, path: seq<(Digest, bool)>)
    requires SidesMatch(siblings, path) && |path| > 0
    ensures SidesMatch(siblings[1..], path[1..])
  {
  }

  lemma UpDigests(h: seq<byte> -> Digest, level: seq<Digest>)
    requires IsHash(h)
    ensures AreDigests(Up(h, level))
  {
  }

  lemma SiblingIsDigest(level: seq<Digest>, i: nat)
    requires AreDigests(level) && i < |level|
    ensures |Sibling(level, i)| == DIGEST_SIZE
  {
  }

  /** Soundness: data accepted under a tree's root, on the path of index i, are that leaf, or there is a collision. */
  lemma AcceptedAtIndex(h: seq<byte> -> Digest, t: MerkleTree, i: nat, proof: MerkleProof, leafData: seq<byte>)
    returns (x: seq<byte>, y: seq<byte>)
    requires IsHash(h) && IsTree(h, t) && i < |t.leaves| && proof.root == t.root && Accepts(h, proof, leafData)
    requires SidesMatch(proof.siblings, Path(h, LeafLevel(h, t.leaves), i))
    ensures leafData == t.leaves[i] || Collision(h, x, y)
  {
    x, y := ClimbBinds(h, LeafLevel(h, t.leaves), i, h(leafData), proof.siblings);
    if leafData != t.leaves[i] && h(leafData) == h(t.leaves[i]) { x, y := leafData, t.leaves[i]; }
  }
}
