/** Deadlock detection on the wait-for graph (prog6/src/concurrency/locking.py). */
module Deadlock {

  type Graph = map<int, set<int>>

  predicate Edge(g: Graph, a: int, b: int) {
    a in g && b in g[a]
  }

  ghost predicate IsPath(g: Graph, p: seq<int>) {
    |p| > 0 && forall i :: 0 <= i < |p| - 1 ==> Edge(g, p[i], p[i + 1])
  }

  /** A walk along at least one edge that ends where it began. */
  ghost predicate IsCycle(g: Graph, p: seq<int>) {
    |p| > 1 && IsPath(g, p) && p[0] == p[|p| - 1]
  }

  ghost predicate HasCycle(g: Graph) {
    exists p :: IsCycle(g, p)
  }

  ghost predicate Leads(g: Graph, p: seq<int>, a: int, b: int) {
    IsPath(g, p) && p[0] == a && p[|p| - 1] == b
  }

  ghost predicate Reaches(g: Graph, a: int, b: int) {
    exists p :: Leads(g, p, a, b)
  }

  ghost predicate OnCycle(g: Graph, a: int) {
    exists b :: Edge(g, a, b) && Reaches(g, b, a)
  }

  lemma ReachesSelf(g: Graph, a: int)
    ensures Reaches(g, a, a)
  {
    assert Leads(g, [a], a, a);
  }

  lemma ReachesStep(g: Graph, a: int, b: int, c: int)
    requires Reaches(g, a, b) && Edge(g, b, c)
    ensures Reaches(g, a, c)
  {
    var p :| Leads(g, p, a, b);
    assert Leads(g, p + [c], a, c);
  }

  lemma CycleFrom(g: Graph, a: int, b: int)
    requires Reaches(g, a, b) && Edge(g, b, a)
    ensures HasCycle(g)
  {
    var p :| Leads(g, p, a, b);
    assert IsCycle(g, p + [a]);
  }

  lemma CycleStartsOnCycle(g: Graph, p: seq<int>)
    requires IsCycle(g, p)
    ensures Edge(g, p[0], p[1]) && OnCycle(g, p[0])
  {
    assert Leads(g, p[1..], p[1], p[0]);
  }

  /** Waits only lead from the set into the set. */
  ghost predicate Closed(g: Graph, s: set<int>) {
    forall a, b :: a in s && Edge(g, a, b) ==> b in s
  }

  lemma {:induction false} ClosedUnderReach(g: Graph, s: set<int>, p: seq<int>, i: nat)
    requires Closed(g, s) && IsPath(g, p) && p[0] in s && i < |p|
    ensures p[i] in s
  {
    if i > 0 {
      ClosedUnderReach(g, s, p, i - 1);
      assert Edge(g, p[i - 1], p[i]);
    }
  }

  /** The nodes the search is done with: closed, and on no cycle. */
  ghost predicate Finished(g: Graph, s: set<int>) {
    Closed(g, s) && forall a :: a in s ==> !OnCycle(g, a)
  }

  /** A node all of whose waits lead to finished nodes is finished. */
  lemma Finish(g: Graph, s: set<int>, a: int)
    requires Finished(g, s) && a !in s && forall b :: Edge(g, a, b) ==> b in s
    ensures Finished(g, s + {a})
  {
    if OnCycle(g, a) {
      var b :| Edge(g, a, b) && Reaches(g, b, a);
      var p :| Leads(g, p, b, a);
      ClosedUnderReach(g, s, p, |p| - 1);
    }
  }

  lemma SomeElement(s: set<int>)
    requires s != {}
    ensures exists x :: x in s
  {
    assert (forall x :: x !in s) ==> s == {};
  }

  ghost function Nodes(g: Graph): set<int> {
    g.Keys + set a, b | a in g && b in g[a] :: b
  }

  class DeadlockDetector {
    var lockWaitGraph: Graph

    constructor ()
      ensures lockWaitGraph == map[]
    {
      lockWaitGraph := map[];
    }

    method AddWaitEdge(waiter: int, holder: int)
      modifies this
      ensures forall a, b :: Edge(lockWaitGraph, a, b) <==> Edge(old(lockWaitGraph), a, b) || (a == waiter && b == holder)
      ensures lockWaitGraph.Keys == old(lockWaitGraph).Keys + {waiter}
    {
      if waiter !in lockWaitGraph {
        lockWaitGraph := lockWaitGraph[waiter := {}];
      }
      lockWaitGraph := lockWaitGraph[waiter := lockWaitGraph[waiter] + {holder}];
    }

    method RemoveWaitEdge(waiter: int, holder: int)
      modifies this
      ensures forall a, b :: Edge(lockWaitGraph, a, b) <==> Edge(old(lockWaitGraph), a, b) && !(a == waiter && b == holder)
      ensures lockWaitGraph.Keys == old(lockWaitGraph).Keys
    {
      if waiter in lockWaitGraph {
        lockWaitGraph := lockWaitGraph[waiter := lockWaitGraph[waiter] - {holder}];
      }
    }

    /** `detect_cycle`: depth-first search from a node not yet visited. The sets are
        updated as the recursion goes; without a find the stack is as before, and
        everything visited off the stack is finished. */
    method DetectCycle(start: int, visited0: set<int>, recStack0: set<int>)
      returns (found: bool, visited: set<int>, recStack: set<int>)
      requires start !in visited0 && recStack0 <= visited0 <= Nodes(lockWaitGraph) && start in Nodes(lockWaitGraph)
      requires Finished(lockWaitGraph, visited0 - recStack0)
      requires forall s :: s in recStack0 ==> Reaches(lockWaitGraph, s, start)
      ensures found ==> HasCycle(lockWaitGraph)
      ensures !found ==> visited0 + {start} <= visited <= Nodes(lockWaitGraph) && recStack == recStack0
      ensures !found ==> Finished(lockWaitGraph, visited - recStack)
      decreases Nodes(lockWaitGraph) - visited0
    {
      var g := lockWaitGraph;
      visited, recStack := visited0 + {start}, recStack0 + {start};
      assert visited - recStack == visited0 - recStack0;
      ReachesSelf(g, start);
      if start in g {
        var todo := g[start];
        while todo != {}
          invariant todo <= g[start]
          invariant visited0 + {start} <= visited <= Nodes(g) && recStack == recStack0 + {start}
          invariant Finished(g, visited - recStack)
          invariant forall b :: b in g[start] && b !in todo ==> b in visited - recStack
          decreases todo
        {
          SomeElement(todo);
          var neighbor :| neighbor in todo;
          assert Edge(g, start, neighbor);
          todo := todo - {neighbor};
          if neighbor !in visited {
            forall s | s in recStack ensures Reaches(g, s, neighbor) {
              ReachesStep(g, s, start, neighbor);
            }
            var v, r;
            found, v, r := DetectCycle(neighbor, visited, recStack);
            if found { return; }
            visited, recStack := v, r;
          } else if neighbor in recStack {
            CycleFrom(g, neighbor, start);
            return true, visited, recStack;
          }
        }
      }
      Finish(g, visited - recStack, start);
      assert visited - (recStack - {start}) == visited - recStack + {start};
      recStack := recStack - {start};
      assert recStack == recStack0;
      found := false;
    }

    /** `has_deadlock` is exact: it answers True if and only if the graph has a cycle. */
    method HasDeadlock() returns (found: bool)
      ensures found <==> HasCycle(lockWaitGraph)
    {
      var g := lockWaitGraph;
      var visited: set<int>, recStack: set<int> := {}, {};
      var todo := g.Keys;
      while todo != {}
        invariant todo <= g.Keys && visited <= Nodes(g) && recStack == {}
        invariant Finished(g, visited) && g.Keys - todo <= visited
        decreases todo
      {
        SomeElement(todo);
        var node :| node in todo;
        todo := todo - {node};
        if node !in visited {
          assert visited - recStack == visited;
          found, visited, recStack := DetectCycle(node, visited, recStack);
          if found { return; }
          assert visited - recStack == visited;
        }
      }
      if HasCycle(g) {
        var p :| IsCycle(g, p);
        CycleStartsOnCycle(g, p);
      }
      return false;
    }
  }
}
