/**
 The clockwise walk of a consistent-hash ring from a key, as a function on the sorted
 hashes, and what it means: nodes in the order of their nearest points.
*/
module RingWalk {
  import opened SortedHashes

  /** The number of hashes below the key: `sort.Search`'s answer on a sorted list. */
  function Below(hashes: seq<nat>, key: nat): (k: nat)
    ensures k <= |hashes|
  {
    if hashes == [] then 0
    else if hashes[|hashes| - 1] < key then |hashes|
    else Below(hashes[..|hashes| - 1], key)
  }

  lemma {:induction false} BelowSplits(hashes: seq<nat>, key: nat)
    requires Increasing(hashes)
    ensures forall i :: 0 <= i < Below(hashes, key) ==> hashes[i] < key
    ensures forall i :: Below(hashes, key) <= i < |hashes| ==> hashes[i] >= key
  {
    if hashes != [] && hashes[|hashes| - 1] >= key { BelowSplits(hashes[..|hashes| - 1], key); }
  }

  /** The hashes clockwise from the key: first those at or above it, then the others. */
  function Clockwise(hashes: seq<nat>, key: nat): seq<nat> {
    hashes[Below(hashes, key)..] + hashes[..Below(hashes, key)]
  }

  /** The owners of a list of hashes; Go's zero value for one that has none. */
  function Owners(vnodes: map<nat, string>, hashes: seq<nat>): (r: seq<string>)
    ensures |r| == |hashes|
    ensures forall i :: 0 <= i < |r| ==> r[i] == Owner(vnodes, hashes[i])
  {
    if hashes == [] then []
    else Owners(vnodes, hashes[..|hashes| - 1]) + [Owner(vnodes, hashes[|hashes| - 1])]
  }

  function Owner(vnodes: map<nat, string>, h: nat): string {
    if h in vnodes then vnodes[h] else ""
  }

  /** All nodes in clockwise order from the key, each once. */
  function Preference(vnodes: map<nat, string>, hashes: seq<nat>, key: nat): seq<string> {
    Firsts(Owners(vnodes, Clockwise(hashes, key)))
  }

  function Take(s: seq<string>, k: nat): seq<string> {
    if k < |s| then s[..k] else s
  }

  /** The ids that `GetNodes` returns. The loop tests the length after appending, so
      a replication of 0 still gives one node. */
  function Chosen(vnodes: map<nat, string>, hashes: seq<nat>, key: nat, replication: nat): seq<string> {
    Take(Preference(vnodes, hashes, key), if replication == 0 then 1 else replication)
  }

  // ---------- the order of the walk ----------

  /** Going clockwise from the key, g is reached before h. */
  predicate Ahead(key: nat, g: nat, h: nat) {
    if g >= key then h < key || g < h else h < key && g < h
  }

  /** That is a smaller distance on the circle of 32-bit hashes. */
  lemma AheadIsNearer(key: nat, g: nat, h: nat)
    requires key < 0x1_0000_0000 && g < 0x1_0000_0000 && h < 0x1_0000_0000
    ensures Ahead(key, g, h) <==> (g - key) % 0x1_0000_0000 < (h - key) % 0x1_0000_0000
  {
  }

  lemma ClockwiseOrder(hashes: seq<nat>, key: nat, i: nat, j: nat)
    requires Increasing(hashes) && i < j < |hashes|
    ensures |Clockwise(hashes, key)| == |hashes| && Ahead(key, Clockwise(hashes, key)[i], Clockwise(hashes, key)[j])
  {
    BelowSplits(hashes, key);
  }

  lemma ClockwiseLength(hashes: seq<nat>, key: nat)
    ensures |Clockwise(hashes, key)| == |hashes|
  {
  }

  lemma ClockwiseHolds(hashes: seq<nat>, key: nat)
    ensures forall h :: h in Clockwise(hashes, key) <==> h in hashes
  {
    var b := Below(hashes, key);
    assert hashes == hashes[..b] + hashes[b..];
  }

  /** The first occurrence of an earlier name comes before all occurrences of a later one. */
  lemma {:induction false} FirstsOrder(s: seq<string>, a: nat, b: nat) returns (i: nat)
    requires a < b < |Firsts(s)|
    ensures i < |s| && s[i] == Firsts(s)[a] && forall j :: 0 <= j < |s| && s[j] == Firsts(s)[b] ==> i < j
  {
    var init, last := s[..|s| - 1], s[|s| - 1];
    if b < |Firsts(init)| {
      i := FirstsOrder(init, a, b);
    } else {
      assert Firsts(init)[a] in Firsts(init) && Firsts(init)[a] in init;
      i :| 0 <= i < |init| && init[i] == Firsts(init)[a];
    }
  }

  /** Some point of the one node is reached before every point of the other. */
  ghost predicate Nearer(vnodes: map<nat, string>, hashes: seq<nat>, key: nat, id: string, other: string) {
    exists h :: h in hashes && Owner(vnodes, h) == id
      && forall g :: g in hashes && Owner(vnodes, g) == other ==> Ahead(key, h, g)
  }

  lemma PreferenceOrder(vnodes: map<nat, string>, hashes: seq<nat>, key: nat, a: nat, b: nat)
    requires Increasing(hashes) && a < b < |Preference(vnodes, hashes, key)|
    ensures Nearer(vnodes, hashes, key, Preference(vnodes, hashes, key)[a], Preference(vnodes, hashes, key)[b])
  {
    hide Clockwise, Firsts;
    var walk := Clockwise(hashes, key);
    var owners := Owners(vnodes, walk);
    var i := FirstsOrder(owners, a, b);
    var h, other := walk[i], Preference(vnodes, hashes, key)[b];
    ClockwiseHolds(hashes, key);
    ClockwiseLength(hashes, key);
    forall g | g in hashes && Owner(vnodes, g) == other ensures Ahead(key, h, g) {
      assert g in walk;
      var j :| 0 <= j < |walk| && walk[j] == g;
      assert owners[j] == other;
      ClockwiseOrder(hashes, key, i, j);
    }
    assert h in walk;
  }

  /** The hash that owns the key: the least at or above it, or the least of all. */
  ghost predicate Responsible(hashes: seq<nat>, key: nat, h: nat) {
    h in hashes
    && if h >= key then forall g :: g in hashes && g >= key ==> h <= g
       else forall g :: g in hashes ==> g < key && h <= g
  }

  lemma WalkStartsThere(hashes: seq<nat>, key: nat)
    requires Increasing(hashes) && hashes != []
    ensures |Clockwise(hashes, key)| == |hashes| && Responsible(hashes, key, Clockwise(hashes, key)[0])
  {
    BelowSplits(hashes, key);
    var h := Clockwise(hashes, key)[0];
    forall g | g in hashes && g != h ensures Ahead(key, h, g) {
      ClockwiseHolds(hashes, key);
      var j :| 0 <= j < |hashes| && Clockwise(hashes, key)[j] == g;
      ClockwiseOrder(hashes, key, 0, j);
    }
  }

  lemma FirstIsResponsible(vnodes: map<nat, string>, hashes: seq<nat>, key: nat)
    requires Increasing(hashes) && hashes != []
    ensures Preference(vnodes, hashes, key) != []
    ensures exists h :: Responsible(hashes, key, h) && Preference(vnodes, hashes, key)[0] == Owner(vnodes, h)
  {
    hide Clockwise, Responsible, Below;
    WalkStartsThere(hashes, key);
    FirstsHead(Owners(vnodes, Clockwise(hashes, key)));
  }

  lemma {:induction false} FirstsHead(s: seq<string>)
    requires s != []
    ensures Firsts(s) != [] && Firsts(s)[0] == s[0]
  {
    if |s| > 1 { FirstsHead(s[..|s| - 1]); } else { assert s[..0] == []; }
  }
}
