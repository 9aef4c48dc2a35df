/**
 The two engines against each other: on an edge list without negative
 weights Dijkstra runs, Bellman–Ford raises no flag, and both end with the
 same distance map, because both compute shortest-walk distances over the
 same key set.
 */
module Agreement {
  import opened Graph
  import opened Vertices
  import BellmanFord
  import BellmanFordProofs
  import Dijkstra
  import DijkstraProofs

  /** Along edges without negative integer weights, every walk weighs at least 0. */
  lemma {:induction false} NonNegativeWalk(edges: seq<Edge>, s: int, t: int, p: seq<Edge>)
    requires forall e :: e in edges && e.w.Int? ==> e.w.i >= 0
    requires IsWalk(edges, s, t, p)
    ensures WalkWeight(p) >= 0
    decreases |p|
  {
    if |p| > 0 {
      WalkPrefix(edges, s, t, p);
      NonNegativeWalk(edges, s, p[|p| - 1].u.i, p[..|p| - 1]);
      assert p[|p| - 1] in edges;
    }
  }

  /** Two shortest-walk distance maps over the same keys are the same map. */
  lemma ShortestUnique(edges: seq<Edge>, s: int, d1: DistMap, d2: DistMap)
    requires Shortest(edges, s, d1) && Shortest(edges, s, d2) && d1.Keys == d2.Keys
    ensures d1 == d2
  {
    forall t | t in d1
      ensures d1[t] == d2[t]
    {
      if d1[t].Fin? {
        var p :| IsWalk(edges, s, t, p) && WalkWeight(p) == d1[t].n;
        assert AtMost(d2[t], Fin(WalkWeight(p)));
      }
      if d2[t].Fin? {
        var q :| IsWalk(edges, s, t, q) && WalkWeight(q) == d2[t].n;
        assert AtMost(d1[t], Fin(WalkWeight(q)));
      }
    }
  }

  /**
   Without negative weights, Dijkstra does not refuse, Bellman–Ford finds no
   negative cycle, and the two final distance maps are equal.
   */
  lemma EnginesAgree(edges: seq<Edge>, s: int)
    requires forall e :: e in edges && e.w.Int? ==> e.w.i >= 0
    ensures Dijkstra.Run(edges, s).Done?
    ensures !BellmanFord.Run(edges, s).negativeCycle
    ensures Dijkstra.Run(edges, s).dist == BellmanFord.Run(edges, s).dist
  {
    forall x, a, c | IsWalk(edges, s, x, a) && IsWalk(edges, x, x, c)
      ensures WalkWeight(c) >= 0
    {
      NonNegativeWalk(edges, x, x, c);
    }
    BellmanFordProofs.FlagIffNegativeCycle(edges, s);
    BellmanFordProofs.RunShortest(edges, s);
    DijkstraProofs.RunShortest(edges, s);
    ShortestUnique(edges, s, Dijkstra.Run(edges, s).dist, BellmanFord.Run(edges, s).dist);
  }
}
