/** Strictly increasing lists of hashes, and lists of names without repeats. */
module SortedHashes {

  ghost predicate Increasing(s: seq<nat>) {
    forall i, j :: 0 <= i < j < |s| ==> s[i] < s[j]
  }

  ghost predicate SameElements(s: seq<nat>, t: seq<nat>) {
    forall x :: x in s <==> x in t
  }

  lemma IncreasingParts(s: seq<nat>, k: nat)
    requires Increasing(s) && k <= |s|
    ensures Increasing(s[..k]) && Increasing(s[k..])
  {
  }

  lemma LastIsLargest(s: seq<nat>)
    requires Increasing(s) && |s| > 0
    ensures forall x :: x in s ==> x <= s[|s| - 1]
    ensures s[|s| - 1] !in s[..|s| - 1]
  {
  }

  lemma ElementsButLast(s: seq<nat>)
    requires Increasing(s) && |s| > 0
    ensures forall y :: y in s[..|s| - 1] <==> y in s && y != s[|s| - 1]
  {
    LastIsLargest(s);
    assert s == s[..|s| - 1] + [s[|s| - 1]];
  }

  /** An increasing list is determined by its elements. */
  lemma {:induction false} IncreasingUnique(s: seq<nat>, t: seq<nat>)
    requires Increasing(s) && Increasing(t) && SameElements(s, t)
    ensures s == t
  {
    NoElements(s, t);
    if s != [] {
      assert s[0] in s;
      var x := s[|s| - 1];
      LastIsLargest(s);
      LastIsLargest(t);
      var y := t[|t| - 1];
      assert x in s && y in t;
      assert x in t && y in s;
      assert x <= y && y <= x;
      ElementsButLast(s);
      ElementsButLast(t);
      var s', t' := s[..|s| - 1], t[..|t| - 1];
      forall z ensures z in s' <==> z in t' {
        if z in s' { assert z in s && z in t && z != y; }
        if z in t' { assert z in t && z in s && z != x; }
      }
      IncreasingUnique(s', t');
      assert s == s' + [x] && t == t' + [x];
    }
  }

  lemma NoElements(s: seq<nat>, t: seq<nat>)
    requires SameElements(s, t)
    ensures s == [] <==> t == []
  {
    assert (s != [] ==> s[0] in s) && (t != [] ==> t[0] in t);
  }

  lemma AppendIncreasing(s: seq<nat>, x: nat)
    requires Increasing(s) && forall y :: y in s ==> y < x
    ensures Increasing(s + [x])
  {
    forall i, j | 0 <= i < j < |s + [x]| ensures (s + [x])[i] < (s + [x])[j] {
      assert s[i] in s;
    }
  }

  // ---------- sorting ----------

  function Insert(s: seq<nat>, x: nat): (r: seq<nat>)
    ensures forall y :: y in r <==> y == x || y in s
  {
    if s == [] || s[|s| - 1] <= x then s + [x]
    else
      assert s == s[..|s| - 1] + [s[|s| - 1]];
      Insert(s[..|s| - 1], x) + [s[|s| - 1]]
  }

  lemma {:induction false} InsertIncreasing(s: seq<nat>, x: nat)
    requires Increasing(s) && x !in s
    ensures Increasing(Insert(s, x))
  {
    if s == [] {
    } else if s[|s| - 1] <= x {
      LastIsLargest(s);
      assert s[|s| - 1] in s;
      AppendIncreasing(s, x);
    } else {
      ElementsButLast(s);
      LastIsLargest(s);
      InsertIncreasing(s[..|s| - 1], x);
      AppendIncreasing(Insert(s[..|s| - 1], x), s[|s| - 1]);
    }
  }

  /** What `sort.Slice` makes of the hashes. */
  function Sorted(s: seq<nat>): (r: seq<nat>)
    ensures forall y :: y in r <==> y in s
  {
    if s == [] then []
    else
      assert s == s[..|s| - 1] + [s[|s| - 1]];
      Insert(Sorted(s[..|s| - 1]), s[|s| - 1])
  }

  ghost predicate NoRepeats<T>(s: seq<T>) {
    forall i, j :: 0 <= i < j < |s| ==> s[i] != s[j]
  }

  lemma {:induction false} SortedIncreasing(s: seq<nat>)
    requires NoRepeats(s)
    ensures Increasing(Sorted(s))
  {
    if s != [] {
      SortedIncreasing(s[..|s| - 1]);
      InsertIncreasing(Sorted(s[..|s| - 1]), s[|s| - 1]);
    }
  }

  // ---------- names in the order of their first occurrence ----------

  function Firsts(s: seq<string>): (r: seq<string>)
    ensures forall x :: x in r <==> x in s
  {
    if s == [] then []
    else
      var init, last := s[..|s| - 1], s[|s| - 1];
      assert s == init + [last];
      if last in init then Firsts(init) else Firsts(init) + [last]
  }

  lemma {:induction false} FirstsNoRepeats(s: seq<string>)
    ensures NoRepeats(Firsts(s))
  {
    if s != [] { FirstsNoRepeats(s[..|s| - 1]); }
  }

  /** A list without one name. */
  function Drop(s: seq<string>, x: string): (r: seq<string>)
    ensures forall y :: y in r <==> y in s && y != x
  {
    if s == [] then []
    else
      var init, last := s[..|s| - 1], s[|s| - 1];
      assert s == init + [last];
      if last == x then Drop(init, x) else Drop(init, x) + [last]
  }

  lemma {:induction false} FirstsDrop(s: seq<string>, x: string)
    ensures Firsts(Drop(s, x)) == Drop(Firsts(s), x)
  {
    if s != [] {
      var init, last := s[..|s| - 1], s[|s| - 1];
      FirstsDrop(init, x);
      if last != x { assert Drop(s, x)[..|Drop(s, x)| - 1] == Drop(init, x); }
      if last !in init { assert Firsts(s)[..|Firsts(s)| - 1] == Firsts(init); }
    }
  }

  lemma {:induction false} DropSplit(s: seq<string>, t: seq<string>, x: string)
    ensures Drop(s + t, x) == Drop(s, x) + Drop(t, x)
  {
    if t == [] {
      assert s + t == s;
    } else {
      DropSplit(s, t[..|t| - 1], x);
      assert (s + t)[..|s + t| - 1] == s + t[..|t| - 1];
    }
  }

  lemma {:induction false} DropShorter(s: seq<string>, x: string)
    ensures |Drop(s, x)| <= |s| && (NoRepeats(s) ==> |Drop(s, x)| >= |s| - 1)
    ensures x !in s ==> Drop(s, x) == s
  {
    if s != [] {
      DropShorter(s[..|s| - 1], x);
      assert s == s[..|s| - 1] + [s[|s| - 1]];
      if NoRepeats(s) && s[|s| - 1] == x { DropAbsent(s[..|s| - 1], x); }
    }
  }

  lemma {:induction false} DropAbsent(s: seq<string>, x: string)
    requires x !in s
    ensures Drop(s, x) == s
  {
    if s != [] { DropAbsent(s[..|s| - 1], x); }
  }

  /** Dropping a name from a prefix leaves a prefix of what dropping it from the whole leaves. */
  lemma DropPrefix(s: seq<string>, k: nat, x: string)
    requires k <= |s|
    ensures Drop(s[..k], x) <= Drop(s, x)
  {
    DropSplit(s[..k], s[k..], x);
    assert s[..k] + s[k..] == s;
  }
}
