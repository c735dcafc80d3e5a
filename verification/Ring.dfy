/**
 The consistent-hash ring of prog2/pkg/cluster/ring.go, with the hashes of
 virtual nodes and of keys as parameters.
*/
module Ring {
  import opened SortedHashes
  import opened RingWalk

  datatype Node = Node(id: string, addr: string)

  /** The hash of id#i. */
  type PointHash = (string, nat) -> nat

  // ---------- the ring's invariant ----------

  /** Every node is filed under its id and has all its points on the ring; every
      point belongs to a node; the hashes are the points, in increasing order. */
  ghost predicate IsRing(nodes: map<string, Node>, vnodes: map<nat, string>, hashes: seq<nat>, count: nat, point: PointHash) {
    Increasing(hashes)
    && (forall h :: h in vnodes <==> h in hashes)
    && (forall h :: h in vnodes ==> vnodes[h] in nodes && IsPoint(h, vnodes[h], count, point))
    && (forall id, i: nat :: id in nodes && i < count ==> point(id, i) in vnodes && vnodes[point(id, i)] == id)
    && (forall id :: id in nodes ==> nodes[id].id == id)
  }

  ghost predicate IsPoint(h: nat, id: string, count: nat, point: PointHash) {
    exists i: nat :: i < count && point(id, i) == h
  }

  /** The new node's points are new, and distinct. */
  ghost predicate NoCollision(vnodes: map<nat, string>, id: string, count: nat, point: PointHash) {
    (forall i: nat :: i < count ==> point(id, i) !in vnodes)
    && forall i: nat, j: nat :: i < j < count ==> point(id, i) != point(id, j)
  }

  function Points(id: string, count: nat, point: PointHash): (r: seq<nat>)
    ensures |r| == count && forall i :: 0 <= i < count ==> r[i] == point(id, i)
  {
    if count == 0 then [] else Points(id, count - 1, point) + [point(id, count - 1)]
  }

  function AddPoints(vnodes: map<nat, string>, id: string, count: nat, point: PointHash): map<nat, string> {
    if count == 0 then vnodes else AddPoints(vnodes, id, count - 1, point)[point(id, count - 1) := id]
  }

  lemma {:induction false} AddedPoints(vnodes: map<nat, string>, id: string, count: nat, point: PointHash)
    ensures forall h :: h in AddPoints(vnodes, id, count, point) <==> h in vnodes || IsPoint(h, id, count, point)
    ensures forall h :: IsPoint(h, id, count, point) ==> AddPoints(vnodes, id, count, point)[h] == id
    ensures forall h :: h in vnodes && !IsPoint(h, id, count, point) ==> AddPoints(vnodes, id, count, point)[h] == vnodes[h]
  {
    if count > 0 {
      AddedPoints(vnodes, id, count - 1, point);
      forall h ensures IsPoint(h, id, count, point) <==> IsPoint(h, id, count - 1, point) || h == point(id, count - 1) {
        if IsPoint(h, id, count, point) {
          var i: nat :| i < count && point(id, i) == h;
          assert i < count - 1 ==> IsPoint(h, id, count - 1, point);
        }
        if IsPoint(h, id, count - 1, point) {
          var i: nat :| i < count - 1 && point(id, i) == h;
          assert i < count;
        }
      }
    }
  }

  /** The ring with a node added. */
  lemma AddKeepsRing(nodes: map<string, Node>, vnodes: map<nat, string>, hashes: seq<nat>, count: nat, point: PointHash, node: Node)
    requires IsRing(nodes, vnodes, hashes, count, point)
    requires node.id !in nodes && NoCollision(vnodes, node.id, count, point)
    ensures IsRing(nodes[node.id := node], AddPoints(vnodes, node.id, count, point),
                   Sorted(hashes + Points(node.id, count, point)), count, point)
  {
    hide Points, AddPoints, Insert, Sorted;
    var id := node.id;
    var added := Points(id, count, point);
    AddedPoints(vnodes, id, count, point);
    forall h ensures h in added <==> IsPoint(h, id, count, point) {
      if IsPoint(h, id, count, point) {
        var i: nat :| i < count && point(id, i) == h;
        assert added[i] == h;
      }
    }
    forall i, j | 0 <= i < j < |hashes + added| ensures (hashes + added)[i] != (hashes + added)[j] {
      if i < |hashes| <= j { assert hashes[i] in vnodes; }
    }
    SortedIncreasing(hashes + added);
    var nodes', vnodes' := nodes[id := node], AddPoints(vnodes, id, count, point);
    forall h | h in vnodes' ensures vnodes'[h] in nodes' && IsPoint(h, vnodes'[h], count, point) {
    }
    forall other, i: nat | other in nodes' && i < count ensures point(other, i) in vnodes' && vnodes'[point(other, i)] == other {
      if other == id { assert IsPoint(point(id, i), id, count, point); }
    }
  }

  /** The loop of `RemoveNode`, on a list without repeats. */
  function Others(vnodes: map<nat, string>, hashes: seq<nat>, id: string): (r: seq<nat>)
    ensures forall h :: h in r <==> h in hashes && Owner(vnodes, h) != id
  {
    if hashes == [] then []
    else
      var init, last := hashes[..|hashes| - 1], hashes[|hashes| - 1];
      assert hashes == init + [last];
      if Owner(vnodes, last) != id then Others(vnodes, init, id) + [last] else Others(vnodes, init, id)
  }

  lemma {:induction false} OthersIncreasing(vnodes: map<nat, string>, hashes: seq<nat>, id: string)
    requires Increasing(hashes)
    ensures Increasing(Others(vnodes, hashes, id))
  {
    if hashes != [] {
      OthersIncreasing(vnodes, hashes[..|hashes| - 1], id);
      ElementsButLast(hashes);
      LastIsLargest(hashes);
      if Owner(vnodes, hashes[|hashes| - 1]) != id {
        AppendIncreasing(Others(vnodes, hashes[..|hashes| - 1], id), hashes[|hashes| - 1]);
      }
    }
  }

  /** The points that do not belong to the node. */
  function OtherPoints(vnodes: map<nat, string>, id: string): map<nat, string> {
    map h | h in vnodes && vnodes[h] != id :: vnodes[h]
  }

  lemma RemoveKeepsRing(nodes: map<string, Node>, vnodes: map<nat, string>, hashes: seq<nat>, count: nat, point: PointHash, id: string)
    requires IsRing(nodes, vnodes, hashes, count, point)
    ensures IsRing(nodes - {id}, OtherPoints(vnodes, id), Others(vnodes, hashes, id), count, point)
  {
    OthersIncreasing(vnodes, hashes, id);
  }

  function Min(a: nat, b: nat): nat {
    if a < b then a else b
  }

  // ---------- the ring ----------

  class Ring {
    const vnodeCount: nat
    const replication: nat
    const point: PointHash
    var nodes: map<string, Node>
    var vnodes: map<nat, string>
    var sortedHashes: seq<nat>

    ghost predicate Valid()
      reads this
    {
      IsRing(nodes, vnodes, sortedHashes, vnodeCount, point)
    }

    constructor (count: nat, copies: nat, hash: PointHash)
      ensures Valid() && nodes == map[] && vnodes == map[] && sortedHashes == []
      ensures vnodeCount == count && replication == copies && point == hash
    {
      vnodeCount, replication, point := count, copies, hash;
      nodes, vnodes, sortedHashes := map[], map[], [];
    }

    method AddNode(id: string, addr: string)
      modifies this
      ensures nodes == old(nodes)[id := Node(id, addr)]
      ensures vnodes == AddPoints(old(vnodes), id, vnodeCount, point)
      ensures sortedHashes == Sorted(old(sortedHashes) + Points(id, vnodeCount, point))
      ensures old(Valid()) && id !in old(nodes) && NoCollision(old(vnodes), id, vnodeCount, point) ==> Valid()
    {
      if Valid() && id !in nodes && NoCollision(vnodes, id, vnodeCount, point) {
        AddKeepsRing(nodes, vnodes, sortedHashes, vnodeCount, point, Node(id, addr));
      }
      nodes := nodes[id := Node(id, addr)];
      for i := 0 to vnodeCount
        invariant nodes == old(nodes)[id := Node(id, addr)]
        invariant vnodes == AddPoints(old(vnodes), id, i, point)
        invariant sortedHashes == old(sortedHashes) + Points(id, i, point)
      {
        var hash := point(id, i);
        vnodes := vnodes[hash := id];
        sortedHashes := sortedHashes + [hash];
      }
      sortedHashes := Sorted(sortedHashes);
    }

    method RemoveNode(id: string)
      requires Valid()
      modifies this
      ensures Valid() && nodes == old(nodes) - {id}
      ensures vnodes == OtherPoints(old(vnodes), id) && sortedHashes == Others(old(vnodes), old(sortedHashes), id)
    {
      RemoveKeepsRing(nodes, vnodes, sortedHashes, vnodeCount, point, id);
      if id !in nodes {
        assert nodes - {id} == nodes && OtherPoints(vnodes, id) == vnodes;
        OthersIncreasing(vnodes, sortedHashes, id);
        IncreasingUnique(Others(vnodes, sortedHashes, id), sortedHashes);
        return;
      }
      nodes := nodes - {id};
      DropPoints(id);
    }

    /** The loop of `RemoveNode`. */
    method DropPoints(id: string)
      requires Increasing(sortedHashes) && forall h :: h in vnodes <==> h in sortedHashes
      modifies `vnodes, `sortedHashes
      ensures vnodes == OtherPoints(old(vnodes), id) && sortedHashes == Others(old(vnodes), old(sortedHashes), id)
    {
      hide Increasing, Others, OtherPoints, DroppedUpTo;
      var newHashes: seq<nat> := [];
      DropNothing(vnodes, sortedHashes, id);
      for k := 0 to |sortedHashes|
        invariant sortedHashes == old(sortedHashes) && newHashes == Others(old(vnodes), sortedHashes[..k], id)
        invariant DroppedUpTo(old(vnodes), vnodes, sortedHashes, k, id)
      {
        var h := sortedHashes[k];
        OthersNext(old(vnodes), sortedHashes, k, id);
        DropStep(old(vnodes), vnodes, sortedHashes, k, id);
        if Owner(vnodes, h) != id {
          newHashes := newHashes + [h];
        } else {
          vnodes := vnodes - {h};
        }
      }
      assert sortedHashes[..|sortedHashes|] == sortedHashes;
      AllDropped(old(vnodes), vnodes, sortedHashes, id);
      sortedHashes := newHashes;
    }

    /** `sort.Search` for the first hash at or after the key. */
    method Search(key: nat) returns (idx: nat)
      requires Valid()
      ensures idx == Below(sortedHashes, key)
    {
      var lo, hi := 0, |sortedHashes|;
      BelowSplits(sortedHashes, key);
      while lo < hi
        invariant 0 <= lo <= Below(sortedHashes, key) <= hi <= |sortedHashes|
      {
        var mid := (lo + hi) / 2;
        if sortedHashes[mid] >= key { hi := mid; } else { lo := mid + 1; }
      }
      return lo;
    }

    /** `GetNodes`: the nodes clockwise from the key, as many as the replication asks for. The
        first one owns the least hash at or above the key, or the least of all; the others
        follow in the order of their nearest points, and those left out are further away. */
    method GetNodes(key: nat) returns (found: seq<Node>)
      requires Valid()
      ensures sortedHashes != [] ==>
        found != [] && exists h :: Responsible(sortedHashes, key, h) && found[0].id == Owner(vnodes, h)
      ensures forall a, b :: 0 <= a < b < |found| ==> Nearer(vnodes, sortedHashes, key, found[a].id, found[b].id)
      ensures forall a, id :: 0 <= a < |found| && id in nodes && id !in Ids(found) ==>
        Nearer(vnodes, sortedHashes, key, found[a].id, id)
      ensures vnodeCount > 0 ==> |found| == Min(if replication == 0 then 1 else replication, |nodes|) && NoRepeats(Ids(found))
      ensures forall k :: 0 <= k < |found| ==> found[k].id in nodes && found[k] == nodes[found[k].id]
      ensures Ids(found) == Chosen(vnodes, sortedHashes, key, replication)
    {
      hide Responsible, Nearer, IsRing, Chosen;
      ChosenOrder(nodes, vnodes, sortedHashes, vnodeCount, point, key, replication);
      if vnodeCount > 0 { ChosenCount(nodes, vnodes, sortedHashes, vnodeCount, point, key, replication); }
      if |nodes| == 0 {
        NothingToFind(nodes, vnodes, sortedHashes, vnodeCount, point, key, replication);
        return [];
      }
      var idx := Search(key);
      found := Walk(idx, key);
    }

    /** One turn of the loop of `GetNodes`. */
    method Visit(currIdx: nat, found0: seq<Node>, seen0: set<string>, ghost owners: seq<string>, ghost i: nat, ghost key: nat)
      returns (found: seq<Node>, seen: set<string>)
      requires Valid() && owners == Owners(vnodes, Clockwise(sortedHashes, key)) && i < |sortedHashes|
      requires currIdx == (Below(sortedHashes, key) + i) % |sortedHashes|
      requires |owners| == |sortedHashes| && WalkedTo(nodes, found0, seen0, owners, i)
      ensures WalkedTo(nodes, found, seen, owners, i + 1) && |found| <= |found0| + 1
    {
      hide Clockwise, IsRing, WalkedTo;
      PointsOwned(nodes, vnodes, sortedHashes, vnodeCount, point);
      ClockwiseAt(sortedHashes, key, i);
      found, seen := found0, seen0;
      var nodeId := Owner(vnodes, sortedHashes[currIdx]);
      WalkStep(nodes, found, seen, owners, i);
      if nodeId !in seen {
        found := found + [nodes[nodeId]];
        seen := seen + {nodeId};
      }
    }

    /** The loop of `GetNodes`. */
    method Walk(idx: nat, ghost key: nat) returns (found: seq<Node>)
      requires Valid() && idx == Below(sortedHashes, key)
      ensures Ids(found) == Chosen(vnodes, sortedHashes, key, replication)
      ensures forall k :: 0 <= k < |found| ==> found[k].id in nodes && found[k] == nodes[found[k].id]
    {
      hide Clockwise, IsRing, Firsts, WalkedTo;
      found := [];
      var seen: set<string> := {};
      var n := |sortedHashes|;
      ghost var owners := Owners(vnodes, Clockwise(sortedHashes, key));
      ClockwiseLength(sortedHashes, key);
      WalkStart(nodes, owners);
      var i := 0;
      while i < n
        invariant 0 <= i <= n && |owners| == n && WalkedTo(nodes, found, seen, owners, i)
        invariant |found| <= i && (i > 0 ==> |found| < (if replication == 0 then 1 else replication))
      {
        found, seen := Visit((idx + i) % n, found, seen, owners, i, key);
        i := i + 1;
        if |found| >= replication { break; }
      }
      WalkEnd(nodes, found, seen, owners, i, replication);
    }
  }

  /** The loop has collected the first occurrences among the first i owners. */
  ghost predicate WalkedTo(nodes: map<string, Node>, found: seq<Node>, seen: set<string>, owners: seq<string>, i: nat)
    requires i <= |owners|
  {
    Ids(found) == Firsts(owners[..i]) && (forall x :: x in seen <==> x in owners[..i])
    && forall k :: 0 <= k < |found| ==> found[k].id in nodes && found[k] == nodes[found[k].id]
  }

  lemma WalkStart(nodes: map<string, Node>, owners: seq<string>)
    ensures WalkedTo(nodes, [], {}, owners, 0)
  {
  }

  lemma WalkStep(nodes: map<string, Node>, found: seq<Node>, seen: set<string>, owners: seq<string>, i: nat)
    requires i < |owners| && WalkedTo(nodes, found, seen, owners, i)
    requires owners[i] in nodes && nodes[owners[i]].id == owners[i]
    ensures if owners[i] in seen then WalkedTo(nodes, found, seen, owners, i + 1)
            else WalkedTo(nodes, found + [nodes[owners[i]]], seen + {owners[i]}, owners, i + 1)
  {
    FirstsNext(owners, i);
    IdsAppend(found, nodes[owners[i]]);
  }

  lemma WalkEnd(nodes: map<string, Node>, found: seq<Node>, seen: set<string>, owners: seq<string>, i: nat, replication: nat)
    requires i <= |owners| && WalkedTo(nodes, found, seen, owners, i)
    requires i == |owners| || |found| >= replication
    requires i > 0 || i == |owners|
    requires |found| <= (if replication == 0 then 1 else replication)
    ensures Ids(found) == Take(Firsts(owners), if replication == 0 then 1 else replication)
    ensures forall k :: 0 <= k < |found| ==> found[k].id in nodes && found[k] == nodes[found[k].id]
  {
    FirstsPrefix(owners, i);
    assert i == |owners| ==> owners[..i] == owners;
    if i > 0 { FirstsSome(owners[..i]); }
  }

  lemma {:induction false} FirstsSome(s: seq<string>)
    requires s != []
    ensures Firsts(s) != []
  {
    assert s[0] in Firsts(s);
  }

  /** The hashes before k have lost the points of the node. */
  ghost predicate DroppedUpTo(before: map<nat, string>, after: map<nat, string>, hashes: seq<nat>, k: nat, id: string)
    requires k <= |hashes|
  {
    (forall h :: h in after <==> h in before && (before[h] != id || h in hashes[k..]))
    && forall h :: h in after ==> after[h] == before[h]
  }

  lemma DropNothing(vnodes: map<nat, string>, hashes: seq<nat>, id: string)
    requires forall h :: h in vnodes <==> h in hashes
    ensures DroppedUpTo(vnodes, vnodes, hashes, 0, id) && Others(vnodes, hashes[..0], id) == []
  {
  }

  lemma OthersNext(vnodes: map<nat, string>, hashes: seq<nat>, k: nat, id: string)
    requires k < |hashes|
    ensures Others(vnodes, hashes[..k + 1], id) ==
      Others(vnodes, hashes[..k], id) + if Owner(vnodes, hashes[k]) != id then [hashes[k]] else []
  {
    assert hashes[..k + 1][..k] == hashes[..k];
  }

  lemma DropStep(before: map<nat, string>, after: map<nat, string>, hashes: seq<nat>, k: nat, id: string)
    requires k < |hashes| && Increasing(hashes) && DroppedUpTo(before, after, hashes, k, id) && hashes[k] in before
    ensures Owner(after, hashes[k]) == Owner(before, hashes[k])
    ensures DroppedUpTo(before, if Owner(after, hashes[k]) != id then after else after - {hashes[k]}, hashes, k + 1, id)
  {
    var h := hashes[k];
    assert hashes[k..] == [h] + hashes[k + 1..];
    assert h in hashes[k..] && h !in hashes[k + 1..];
  }

  lemma AllDropped(before: map<nat, string>, after: map<nat, string>, hashes: seq<nat>, id: string)
    requires DroppedUpTo(before, after, hashes, |hashes|, id)
    ensures after == OtherPoints(before, id)
  {
  }

  lemma NothingToFind(nodes: map<string, Node>, vnodes: map<nat, string>, hashes: seq<nat>, count: nat, point: PointHash,
                      key: nat, replication: nat)
    requires IsRing(nodes, vnodes, hashes, count, point) && |nodes| == 0
    ensures Chosen(vnodes, hashes, key, replication) == []
  {
    if hashes != [] { var h := SomeHash(hashes); }
  }

  lemma SomeHash(hashes: seq<nat>) returns (h: nat)
    requires hashes != []
    ensures h in hashes
  {
    h := hashes[0];
  }

  lemma PointsOwned(nodes: map<string, Node>, vnodes: map<nat, string>, hashes: seq<nat>, count: nat, point: PointHash)
    requires IsRing(nodes, vnodes, hashes, count, point)
    ensures forall i :: 0 <= i < |hashes| ==>
      Owner(vnodes, hashes[i]) in nodes && nodes[Owner(vnodes, hashes[i])].id == Owner(vnodes, hashes[i])
  {
    forall i | 0 <= i < |hashes|
      ensures Owner(vnodes, hashes[i]) in nodes && nodes[Owner(vnodes, hashes[i])].id == Owner(vnodes, hashes[i])
    {
      assert hashes[i] in vnodes;
    }
  }

  lemma FirstsNext(s: seq<string>, i: nat)
    requires i < |s|
    ensures Firsts(s[..i + 1]) == if s[i] in s[..i] then Firsts(s[..i]) else Firsts(s[..i]) + [s[i]]
    ensures forall x :: x in s[..i + 1] <==> x in s[..i] || x == s[i]
  {
    assert s[..i + 1][..i] == s[..i];
  }

  function Ids(ns: seq<Node>): (r: seq<string>)
    ensures |r| == |ns| && forall k :: 0 <= k < |r| ==> r[k] == ns[k].id
  {
    if ns == [] then [] else Ids(ns[..|ns| - 1]) + [ns[|ns| - 1].id]
  }

  lemma IdsAppend(ns: seq<Node>, n: Node)
    ensures Ids(ns + [n]) == Ids(ns) + [n.id]
  {
  }

  lemma ClockwiseAt(hashes: seq<nat>, key: nat, i: nat)
    requires i < |hashes|
    ensures |Clockwise(hashes, key)| == |hashes|
    ensures Clockwise(hashes, key)[i] == hashes[(Below(hashes, key) + i) % |hashes|]
  {
    WrapAround(Below(hashes, key) + i, |hashes|);
  }

  lemma WrapAround(x: nat, n: nat)
    requires n > 0 && x < 2 * n
    ensures x % n == if x < n then x else x - n
  {
  }

  lemma {:induction false} FirstsPrefix(s: seq<string>, k: nat)
    requires k <= |s|
    ensures Firsts(s[..k]) <= Firsts(s)
    decreases |s|
  {
    if k < |s| {
      FirstsPrefix(s[..|s| - 1], k);
      assert s[..|s| - 1][..k] == s[..k];
    } else {
      assert s[..k] == s;
    }
  }

  // ---------- what users of the ring see ----------

  /** How many nodes `GetNodes` returns: the replication (at least one), or all nodes. */
  lemma ChosenCount(nodes: map<string, Node>, vnodes: map<nat, string>, hashes: seq<nat>, count: nat, point: PointHash,
                    key: nat, replication: nat)
    requires IsRing(nodes, vnodes, hashes, count, point) && count > 0
    ensures var n := if replication == 0 then 1 else replication;
      |Chosen(vnodes, hashes, key, replication)| == Min(n, |nodes|)
    ensures NoRepeats(Chosen(vnodes, hashes, key, replication))
    ensures forall id :: id in Chosen(vnodes, hashes, key, replication) ==> id in nodes
  {
    hide IsRing, Preference;
    PreferenceIsAll(nodes, vnodes, hashes, count, point, key);
    var all := Preference(vnodes, hashes, key);
    forall id | id in Chosen(vnodes, hashes, key, replication) ensures id in nodes {
      assert id in all;
    }
  }

  /** The chosen nodes in the order in which they are reached from the key, before all others. */
  lemma ChosenOrder(nodes: map<string, Node>, vnodes: map<nat, string>, hashes: seq<nat>, count: nat, point: PointHash,
                    key: nat, replication: nat)
    requires IsRing(nodes, vnodes, hashes, count, point)
    ensures var found := Chosen(vnodes, hashes, key, replication);
      && (hashes != [] ==> found != [] && exists h :: Responsible(hashes, key, h) && found[0] == Owner(vnodes, h))
      && (forall a, b :: 0 <= a < b < |found| ==> Nearer(vnodes, hashes, key, found[a], found[b]))
      && (forall a, id :: 0 <= a < |found| && id in nodes && id !in found ==> Nearer(vnodes, hashes, key, found[a], id))
  {
    hide Preference, Responsible, Nearer;
    var found, all := Chosen(vnodes, hashes, key, replication), Preference(vnodes, hashes, key);
    if hashes != [] {
      FirstIsResponsible(vnodes, hashes, key);
      forall a, b | 0 <= a < b < |all| ensures Nearer(vnodes, hashes, key, all[a], all[b]) {
        PreferenceOrder(vnodes, hashes, key, a, b);
      }
      assert hashes[0] in vnodes && count > 0;
      PreferenceIsAll(nodes, vnodes, hashes, count, point, key);
    } else {
      NothingPreferred(vnodes, hashes, key);
    }
    forall a, id | 0 <= a < |found| && id in nodes && id !in found ensures Nearer(vnodes, hashes, key, found[a], id) {
      var b :| 0 <= b < |all| && all[b] == id;
      LeftOut(all, found, b);
    }
  }

  lemma LeftOut(all: seq<string>, found: seq<string>, b: nat)
    requires found <= all && b < |all| && all[b] !in found
    ensures |found| <= b
  {
  }

  lemma NothingPreferred(vnodes: map<nat, string>, hashes: seq<nat>, key: nat)
    requires hashes == []
    ensures Preference(vnodes, hashes, key) == []
  {
  }

  /** The order of preference names every node, once. */
  lemma PreferenceIsAll(nodes: map<string, Node>, vnodes: map<nat, string>, hashes: seq<nat>, count: nat, point: PointHash, key: nat)
    requires IsRing(nodes, vnodes, hashes, count, point) && count > 0
    ensures var all := Preference(vnodes, hashes, key);
      NoRepeats(all) && |all| == |nodes| && forall id :: id in all <==> id in nodes
  {
    hide IsRing;
    var all := Preference(vnodes, hashes, key);
    FirstsNoRepeats(Owners(vnodes, Clockwise(hashes, key)));
    forall id ensures id in all <==> id in nodes {
      OwnersAreNodes(nodes, vnodes, hashes, count, point, key, id);
    }
    NamesCounted(all, nodes.Keys);
    assert |nodes.Keys| == |nodes|;
  }

  lemma OwnersAreNodes(nodes: map<string, Node>, vnodes: map<nat, string>, hashes: seq<nat>, count: nat, point: PointHash,
                       key: nat, id: string)
    requires IsRing(nodes, vnodes, hashes, count, point) && count > 0
    ensures id in Owners(vnodes, Clockwise(hashes, key)) <==> id in nodes
  {
    var walk := Clockwise(hashes, key);
    ClockwiseHolds(hashes, key);
    if id in nodes {
      assert point(id, 0) in vnodes && point(id, 0) in walk;
      var i :| 0 <= i < |walk| && walk[i] == point(id, 0);
      assert Owners(vnodes, walk)[i] == id;
    }
    if id in Owners(vnodes, walk) {
      var i :| 0 <= i < |walk| && Owners(vnodes, walk)[i] == id;
      assert walk[i] in walk && walk[i] in hashes;
    }
  }

  lemma {:induction false} NamesCounted(s: seq<string>, names: set<string>)
    requires NoRepeats(s) && forall x :: x in s <==> x in names
    ensures |s| == |names|
  {
    if s == [] {
      NoNames(names);
    } else {
      var init, last := s[..|s| - 1], s[|s| - 1];
      assert s == init + [last] && last in s;
      forall x ensures x in init <==> x in names - {last} {
        assert x in s <==> x in names;
      }
      NamesCounted(init, names - {last});
    }
  }

  lemma NoNames(names: set<string>)
    requires forall x :: x !in names
    ensures |names| == 0
  {
    assert names == {};
  }

  /** The walk of the larger ring, without the new node's points, is the walk of the smaller. */
  lemma WalkWithout(vnodes: map<nat, string>, hashes: seq<nat>, vnodes': map<nat, string>, hashes': seq<nat>, id: string, key: nat)
    requires Increasing(hashes) && Increasing(hashes')
    requires forall h :: h in hashes <==> h in hashes' && Owner(vnodes', h) != id
    requires forall h :: h in hashes ==> Owner(vnodes', h) == Owner(vnodes, h)
    ensures Drop(Owners(vnodes', Clockwise(hashes', key)), id) == Owners(vnodes, Clockwise(hashes, key))
  {
    var b, b' := Below(hashes, key), Below(hashes', key);
    BelowSplits(hashes, key);
    BelowSplits(hashes', key);
    IncreasingParts(hashes, b);
    IncreasingParts(hashes', b');
    PartWithout(vnodes, hashes[b..], vnodes', hashes'[b'..], id) by { SameSide(vnodes', hashes, b, hashes', b', id, key); }
    PartWithout(vnodes, hashes[..b], vnodes', hashes'[..b'], id) by { SameSide(vnodes', hashes, b, hashes', b', id, key); }
    OwnersSplit(vnodes, hashes[b..], hashes[..b]);
    OwnersSplit(vnodes', hashes'[b'..], hashes'[..b']);
    DropSplit(Owners(vnodes', hashes'[b'..]), Owners(vnodes', hashes'[..b']), id);
  }

  lemma SameSide(vnodes': map<nat, string>, hashes: seq<nat>, b: nat, hashes': seq<nat>, b': nat, id: string, key: nat)
    requires b <= |hashes| && b' <= |hashes'|
    requires forall h :: h in hashes <==> h in hashes' && Owner(vnodes', h) != id
    requires forall i :: 0 <= i < b ==> hashes[i] < key
    requires forall i :: b <= i < |hashes| ==> hashes[i] >= key
    requires forall i :: 0 <= i < b' ==> hashes'[i] < key
    requires forall i :: b' <= i < |hashes'| ==> hashes'[i] >= key
    ensures forall h :: h in hashes[b..] <==> h in hashes'[b'..] && Owner(vnodes', h) != id
    ensures forall h :: h in hashes[..b] <==> h in hashes'[..b'] && Owner(vnodes', h) != id
  {
    var low, high, low', high' := hashes[..b], hashes[b..], hashes'[..b'], hashes'[b'..];
    assert hashes == low + high && hashes' == low' + high';
    forall h ensures (h in low <==> h in hashes && h < key) && (h in high <==> h in hashes && h >= key) {
    }
    forall h ensures (h in low' <==> h in hashes' && h < key) && (h in high' <==> h in hashes' && h >= key) {
    }
    assert forall h :: h in high <==> h in high' && Owner(vnodes', h) != id;
    assert forall h :: h in low <==> h in low' && Owner(vnodes', h) != id;
  }

  /** Dropping one owner from an increasing list of points keeps the order of the others. */
  lemma PartWithout(vnodes: map<nat, string>, part: seq<nat>, vnodes': map<nat, string>, part': seq<nat>, id: string)
    requires Increasing(part) && Increasing(part')
    requires forall h :: h in part <==> h in part' && Owner(vnodes', h) != id
    requires forall h :: h in part ==> Owner(vnodes', h) == Owner(vnodes, h)
    ensures Drop(Owners(vnodes', part'), id) == Owners(vnodes, part)
  {
    OthersIncreasing(vnodes', part', id);
    IncreasingUnique(Others(vnodes', part', id), part);
    DropOwners(vnodes', part', id);
    SameOwners(vnodes', vnodes, part);
  }

  lemma {:induction false} DropOwners(vnodes: map<nat, string>, hashes: seq<nat>, id: string)
    ensures Drop(Owners(vnodes, hashes), id) == Owners(vnodes, Others(vnodes, hashes, id))
  {
    if hashes != [] {
      var init := hashes[..|hashes| - 1];
      DropOwners(vnodes, init, id);
      assert Owners(vnodes, hashes)[..|hashes| - 1] == Owners(vnodes, init);
      var others := Others(vnodes, init, id);
      assert (others + [hashes[|hashes| - 1]])[..|others|] == others;
    }
  }

  lemma {:induction false} SameOwners(a: map<nat, string>, b: map<nat, string>, hashes: seq<nat>)
    requires forall h :: h in hashes ==> Owner(a, h) == Owner(b, h)
    ensures Owners(a, hashes) == Owners(b, hashes)
  {
    if hashes != [] {
      assert hashes[|hashes| - 1] in hashes;
      SameOwners(a, b, hashes[..|hashes| - 1]);
    }
  }

  lemma {:induction false} OwnersSplit(vnodes: map<nat, string>, s: seq<nat>, t: seq<nat>)
    ensures Owners(vnodes, s + t) == Owners(vnodes, s) + Owners(vnodes, t)
  {
    if t == [] {
      assert s + t == s;
    } else {
      OwnersSplit(vnodes, s, t[..|t| - 1]);
      assert (s + t)[..|s + t| - 1] == s + t[..|t| - 1];
    }
  }

  /** Adding a node only inserts it: without it, the new order of preference is the
      old one, and the new choice is a beginning of the old choice. */
  lemma AddOnlyInserts(nodes: map<string, Node>, vnodes: map<nat, string>, hashes: seq<nat>, count: nat, point: PointHash,
                       id: string, key: nat, replication: nat)
    requires IsRing(nodes, vnodes, hashes, count, point) && id !in nodes && NoCollision(vnodes, id, count, point)
    ensures var vnodes', hashes' := AddPoints(vnodes, id, count, point), Sorted(hashes + Points(id, count, point));
      Drop(Preference(vnodes', hashes', key), id) == Preference(vnodes, hashes, key)
      && Drop(Chosen(vnodes', hashes', key, replication), id) <= Chosen(vnodes, hashes, key, replication)
  {
    var vnodes', hashes' := AddPoints(vnodes, id, count, point), Sorted(hashes + Points(id, count, point));
    AddKeepsRing(nodes, vnodes, hashes, count, point, Node(id, ""));
    NewPointsOnly(nodes, vnodes, hashes, count, point, id);
    WalkWithout(vnodes, hashes, vnodes', hashes', id, key);
    FirstsDrop(Owners(vnodes', Clockwise(hashes', key)), id);
    FirstsNoRepeats(Owners(vnodes', Clockwise(hashes', key)));
    ChoicePrefix(Preference(vnodes', hashes', key), if replication == 0 then 1 else replication, id);
  }

  lemma NewPointsOnly(nodes: map<string, Node>, vnodes: map<nat, string>, hashes: seq<nat>, count: nat, point: PointHash, id: string)
    requires IsRing(nodes, vnodes, hashes, count, point) && id !in nodes && NoCollision(vnodes, id, count, point)
    ensures var vnodes', hashes' := AddPoints(vnodes, id, count, point), Sorted(hashes + Points(id, count, point));
      Increasing(hashes) && Increasing(hashes')
      && (forall h :: h in hashes <==> h in hashes' && Owner(vnodes', h) != id)
      && (forall h :: h in hashes ==> Owner(vnodes', h) == Owner(vnodes, h))
  {
    var vnodes', hashes' := AddPoints(vnodes, id, count, point), Sorted(hashes + Points(id, count, point));
    AddKeepsRing(nodes, vnodes, hashes, count, point, Node(id, ""));
    AddedPoints(vnodes, id, count, point);
    forall h ensures h in hashes <==> h in hashes' && Owner(vnodes', h) != id {
      if h in hashes { assert h in vnodes && vnodes[h] in nodes && !IsPoint(h, id, count, point); }
    }
  }

  lemma ChoicePrefix(all: seq<string>, n: nat, id: string)
    requires NoRepeats(all)
    ensures Drop(Take(all, n), id) <= Take(Drop(all, id), n)
  {
    DropShorter(all, id);
    if n < |all| {
      DropPrefix(all, n, id);
      DropShorter(all[..n], id);
      ShortPrefix(Drop(all[..n], id), Drop(all, id), n);
    }
  }

  lemma ShortPrefix(a: seq<string>, b: seq<string>, n: nat)
    requires a <= b && |a| <= n
    ensures a <= Take(b, n)
  {
  }

  /** Adding a node and removing it again restores the ring. */
  lemma AddThenRemove(nodes: map<string, Node>, vnodes: map<nat, string>, hashes: seq<nat>, count: nat, point: PointHash, node: Node)
    requires IsRing(nodes, vnodes, hashes, count, point)
    requires node.id !in nodes && NoCollision(vnodes, node.id, count, point)
    ensures var vnodes', hashes' := AddPoints(vnodes, node.id, count, point), Sorted(hashes + Points(node.id, count, point));
      nodes[node.id := node] - {node.id} == nodes
      && OtherPoints(vnodes', node.id) == vnodes && Others(vnodes', hashes', node.id) == hashes
  {
    var vnodes', hashes' := AddPoints(vnodes, node.id, count, point), Sorted(hashes + Points(node.id, count, point));
    hide IsRing, AddPoints, Sorted, Points, OtherPoints, Others, NoCollision;
    NewPointsOnly(nodes, vnodes, hashes, count, point, node.id);
    OthersIncreasing(vnodes', hashes', node.id);
    IncreasingUnique(Others(vnodes', hashes', node.id), hashes);
    PointsRestored(nodes, vnodes, hashes, count, point, node.id);
    assert nodes[node.id := node] - {node.id} == nodes;
  }

  lemma PointsRestored(nodes: map<string, Node>, vnodes: map<nat, string>, hashes: seq<nat>, count: nat, point: PointHash, id: string)
    requires IsRing(nodes, vnodes, hashes, count, point) && id !in nodes && NoCollision(vnodes, id, count, point)
    ensures OtherPoints(AddPoints(vnodes, id, count, point), id) == vnodes
  {
    var vnodes' := AddPoints(vnodes, id, count, point);
    AddedPoints(vnodes, id, count, point);
    forall h ensures h in OtherPoints(vnodes', id) <==> h in vnodes {
      if h in vnodes { assert vnodes[h] in nodes && !IsPoint(h, id, count, point); }
    }
    forall h | h in vnodes ensures OtherPoints(vnodes', id)[h] == vnodes[h] {
      assert !IsPoint(h, id, count, point);
    }
  }
}
