/**
 The parent links `runDijkstra` leaves behind form a tree rooted at the
 source: a parent link is only ever set from the vertex being fixed to a
 vertex not fixed yet, and a fixed vertex's parent never changes, so every
 parent is fixed before its child. Walking the links backwards therefore
 always ends.
 */
module DijkstraTree {
  import opened Graph
  import opened Vertices
  import opened Frontier
  import opened Dijkstra
  import opened Path
  import DijkstraProofs

  /**
   The visited flags are exactly the vertices of `order`, every parent is
   already fixed, and a fixed child was fixed after its parent.
   */
  ghost predicate Ordered(st: DState) {
    && (forall x :: x in st.visited <==> x in st.order)
    && forall x :: x in st.parent ==>
         st.parent[x] in st.order && (x in st.order ==> Rank(st.order, st.parent[x]) < Rank(st.order, x))
  }

  /** Appending a new vertex keeps the position of every earlier one. */
  lemma {:induction false} RankAppend(order: seq<int>, c: int, y: int)
    requires y in order
    ensures Rank(order + [c], y) == Rank(order, y)
    decreases |order|
  {
    if order[0] != y {
      assert (order + [c])[1..] == order[1..] + [c];
      RankAppend(order[1..], c, y);
    }
  }

  /** A vertex appended to a sequence that lacks it sits at the end. */
  lemma {:induction false} RankNew(order: seq<int>, c: int)
    requires c !in order
    ensures Rank(order + [c], c) == |order|
    decreases |order|
  {
    if order != [] {
      assert (order + [c])[1..] == order[1..] + [c];
      RankNew(order[1..], c);
    }
  }

  /** Relaxing an out-edge of a fixed vertex keeps the links ordered. */
  lemma ScanEdgeOrdered(st: DState, e: Edge, u: int)
    requires Ordered(st) && u in st.order && e.u == Int(u)
    ensures Ordered(ScanEdge(st, e))
  {
  }

  /** Scanning the out-edges of a fixed vertex keeps the links ordered. */
  lemma {:induction false} ScanOrdered(st: DState, es: seq<Edge>, u: int)
    requires Ordered(st) && u in st.order
    requires forall e :: e in es ==> e.u == Int(u)
    ensures Ordered(Scan(st, es))
    decreases |es|
  {
    if es != [] {
      ScanEdgeOrdered(st, es[0], u);
      assert forall e :: e in es[1..] ==> e in es;
      ScanOrdered(ScanEdge(st, es[0]), es[1..], u);
    }
  }

  /** Fixing a new vertex puts it after every vertex fixed before. */
  lemma FixOrdered(st: DState, c: int)
    requires Ordered(st) && c !in st.visited
    ensures Ordered(st.(visited := st.visited + {c}, order := st.order + [c]))
  {
    var order' := st.order + [c];
    forall x | x in st.parent
      ensures st.parent[x] in order'
      ensures x in order' ==> Rank(order', st.parent[x]) < Rank(order', x)
    {
      RankAppend(st.order, c, st.parent[x]);
      if x in st.order {
        RankAppend(st.order, c, x);
      } else if x == c {
        RankNew(st.order, c);
      }
    }
  }

  /** One pass of the loop keeps the links ordered. */
  lemma StepOrdered(edges: seq<Edge>, st: DState)
    requires |st.pq| > 0 && Ordered(st)
    ensures Ordered(Step(edges, st))
  {
    var (cur, rest) := Extract(st.pq);
    if cur.id !in st.visited {
      FixOrdered(st, cur.id);
      var st1 := st.(visited := st.visited + {cur.id}, order := st.order + [cur.id], pq := rest);
      ScanOrdered(st1, OutEdges(edges, cur.id), cur.id);
    }
  }

  /** The whole loop keeps the links ordered. */
  lemma {:induction false} LoopOrdered(edges: seq<Edge>, st: DState)
    requires Sane(st) && Ordered(st)
    ensures Ordered(Loop(edges, st))
    decreases |st.dist.Keys - st.visited|, |st.pq|
  {
    if st.pq != [] {
      var cur := Extract(st.pq).0;
      ExtractSane(st);
      StepOrdered(edges, st);
      if cur.id !in st.visited {
        FewerUnfixed(st.dist.Keys, st.visited, cur.id);
      }
      LoopOrdered(edges, Step(edges, st));
    }
  }

  /**
   When `runDijkstra` finishes, every vertex with a parent was fixed, and
   after its parent.
   */
  lemma RunParentsEarlier(edges: seq<Edge>, s: int)
    requires Run(edges, s).Done?
    ensures ParentsEarlier(Run(edges, s).parent, Run(edges, s).order)
  {
    var r := Run(edges, s);
    LoopOrdered(edges, Start(UniqueVertices(edges), s));
    DijkstraProofs.RunShortest(edges, s);
    DijkstraProofs.RunCounts(edges, s);
    forall x | x in r.parent
      ensures x in r.order
    {
      assert x in r.dist && r.dist[x].Fin?;
    }
  }

  /**
   After `runDijkstra`, `getPathString` never hangs: it yields a path
   exactly for the targets with a finite distance, and "no path" for all
   others.
   */
  lemma PathIffReached(edges: seq<Edge>, s: int, t: int)
    requires Run(edges, s).Done?
    ensures var r := Run(edges, s);
      && (GetPathString(r.parent, s, t).Path? <==> t in r.dist && r.dist[t].Fin?)
      && (GetPathString(r.parent, s, t).NoPath? <==> !(t in r.dist && r.dist[t].Fin?))
  {
    var r := Run(edges, s);
    RunParentsEarlier(edges, s);
    RankedNeverDiverges(r.parent, s, t, r.order);
    DijkstraProofs.RunShortest(edges, s);
    NoPathIffUnreached(edges, s, r.dist, r.parent, t);
  }
}
