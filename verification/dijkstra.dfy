/**
 The state logic of `runDijkstra`: the eager refusal of negative weights,
 then a loop that sorts the frontier, shifts off its first entry, skips it
 when its vertex is already visited, and otherwise fixes the vertex and
 relaxes its outgoing edges, pushing a new frontier entry for every
 successful relaxation (no decrease-key).
 */
module Dijkstra {
  import opened Graph
  import opened Vertices
  import opened Frontier

  /** `edges.filter(e => e.u === u)`, in list order. */
  function OutEdges(edges: seq<Edge>, u: int): (r: seq<Edge>)
    ensures |r| <= |edges|
    ensures forall e :: e in r <==> e in edges && e.u == Int(u)
  {
    if edges == [] then []
    else
      assert forall e :: e in edges <==> e == edges[0] || e in edges[1..];
      (if edges[0].u == Int(u) then [edges[0]] else []) + OutEdges(edges[1..], u)
  }

  /**
   `filter` keeps the list order and every duplicate: filtering a
   concatenation concatenates the filtered parts.
   */
  lemma {:induction false} OutEdgesAppend(a: seq<Edge>, b: seq<Edge>, u: int)
    ensures OutEdges(a + b, u) == OutEdges(a, u) + OutEdges(b, u)
    decreases |a|
  {
    if a == [] {
      assert a + b == b;
    } else {
      var h := if a[0].u == Int(u) then [a[0]] else [];
      assert (a + b)[0] == a[0] && (a + b)[1..] == a[1..] + b;
      assert OutEdges(a + b, u) == h + OutEdges(a[1..] + b, u);
      assert OutEdges(a, u) == h + OutEdges(a[1..], u);
      OutEdgesAppend(a[1..], b, u);
      assert h + (OutEdges(a[1..], u) + OutEdges(b, u)) == (h + OutEdges(a[1..], u)) + OutEdges(b, u);
    }
  }

  /** A single edge is kept exactly when it leaves `u`. */
  lemma OutEdgesSingle(e: Edge, u: int)
    ensures OutEdges([e], u) == (if e.u == Int(u) then [e] else [])
  {
    assert [e][1..] == [];
  }

  /**
   The loop state: `dist`, `parent`, the `visited` flags (as the set of
   vertices whose flag is true), the frontier `pq`, the vertices fixed so
   far in the order they were fixed (`loopCount` is its length), and the
   number of frontier pushes so far, which also numbers the next push.
   */
  datatype DState = DState(
    dist: DistMap,
    parent: ParentMap,
    visited: set<int>,
    pq: seq<Entry>,
    order: seq<int>,
    pushes: nat)

  /** Every vertex met so far has an entry in `dist`. */
  ghost predicate Sane(st: DState) {
    && st.visited <= st.dist.Keys
    && forall i :: 0 <= i < |st.pq| ==> st.pq[i].id in st.dist
  }

  /** The maps right before the loop, with the source as the only frontier entry. */
  function Start(vs: seq<int>, s: int): (st: DState)
    ensures Sane(st)
  {
    DState(InitialDist(vs, s), map[], {}, [Entry(s, 0, 0)], [], 1)
  }

  /** `!visited[v] && dist[u] + e.w < dist[v]`. */
  predicate Relaxable(st: DState, e: Edge) {
    Improves(st.dist, e) && e.v.i !in st.visited
  }

  /**
   One neighbour of the fixed vertex: a successful relaxation sets `dist[v]`
   and `parent[v]` and pushes `{ id: v, dist: dist[v] }`; otherwise nothing
   happens.
   */
  function ScanEdge(st: DState, e: Edge): (r: DState)
    ensures r.visited == st.visited && r.order == st.order
    ensures r.dist.Keys == st.dist.Keys
    ensures !Relaxable(st, e) ==> r == st
    ensures Relaxable(st, e) ==>
      && (r.dist, r.parent) == Relax(st.dist, st.parent, e)
      && Below(r.dist[e.v.i], st.dist[e.v.i])
      && r.pq == st.pq + [Entry(e.v.i, r.dist[e.v.i].n, st.pushes)]
      && r.pushes == st.pushes + 1
  {
    if Relaxable(st, e) then
      var (d, p) := Relax(st.dist, st.parent, e);
      st.(dist := d, parent := p, pq := st.pq + [Entry(e.v.i, d[e.v.i].n, st.pushes)],
          pushes := st.pushes + 1)
    else st
  }

  /** The loop over the neighbours of the fixed vertex. */
  function Scan(st: DState, es: seq<Edge>): (r: DState)
    ensures r.visited == st.visited && r.order == st.order
    ensures r.dist.Keys == st.dist.Keys
    ensures Sane(st) ==> Sane(r)
    decreases |es|
  {
    if es == [] then st else Scan(ScanEdge(st, es[0]), es[1..])
  }

  /**
   One pass of the `while (pq.length > 0)` loop: sort, shift, and either
   skip a stale entry or fix its vertex and scan the vertex's out-edges.
   A stale entry changes nothing but the frontier; a fresh one fixes one
   more vertex of `dist`.
   */
  function Step(edges: seq<Edge>, st: DState): (r: DState)
    requires |st.pq| > 0
    ensures r.dist.Keys == st.dist.Keys
    ensures Extract(st.pq).0.id in st.visited ==> r == st.(pq := Extract(st.pq).1)
    ensures Extract(st.pq).0.id !in st.visited ==>
      r.visited == st.visited + {Extract(st.pq).0.id} && r.order == st.order + [Extract(st.pq).0.id]
    ensures Sane(st) ==> Sane(r)
  {
    var (cur, rest) := Extract(st.pq);
    assert Sane(st) ==> cur.id in st.dist && forall i :: 0 <= i < |rest| ==> rest[i].id in st.dist by {
      if Sane(st) { ExtractSane(st); }
    }
    if cur.id in st.visited then st.(pq := rest)
    else
      var st1 := st.(visited := st.visited + {cur.id}, order := st.order + [cur.id], pq := rest);
      Scan(st1, OutEdges(edges, cur.id))
  }

  /** The entries `Extract` hands back name vertices that have an entry in `dist`. */
  lemma ExtractSane(st: DState)
    requires |st.pq| > 0 && Sane(st)
    ensures Extract(st.pq).0.id in st.dist
    ensures forall i :: 0 <= i < |Extract(st.pq).1| ==> Extract(st.pq).1[i].id in st.dist
  {
    var (cur, rest) := Extract(st.pq);
    assert cur in st.pq;
    var k :| 0 <= k < |st.pq| && st.pq[k] == cur;
    forall i | 0 <= i < |rest|
      ensures rest[i].id in st.dist
    {
      assert rest[i] in rest;
      var m :| 0 <= m < |st.pq| && st.pq[m] == rest[i];
    }
  }

  /** Fixing one more vertex of a finite key set leaves fewer to fix. */
  lemma FewerUnfixed(keys: set<int>, visited: set<int>, u: int)
    ensures u in keys && u !in visited ==> |keys - (visited + {u})| < |keys - visited|
  {
    if u in keys && u !in visited {
      assert keys - visited == (keys - (visited + {u})) + {u};
    }
  }

  /**
   The whole loop. It ends because every pass either fixes a vertex that
   was not fixed before or shrinks the frontier without fixing one.
   */
  function Loop(edges: seq<Edge>, st: DState): (r: DState)
    requires Sane(st)
    ensures r.pq == []
    ensures r.dist.Keys == st.dist.Keys
    decreases |st.dist.Keys - st.visited|, |st.pq|
  {
    if st.pq == [] then st
    else
      var r := Step(edges, st);
      var cur := Extract(st.pq).0;
      ExtractSane(st);
      FewerUnfixed(st.dist.Keys, st.visited, cur.id);
      Loop(edges, r)
  }

  datatype Outcome =
    | NegativeWeightRejected
    | Done(dist: DistMap, parent: ParentMap, order: seq<int>, pushes: nat)

  /**
   `runDijkstra` without its rendering: any integer weight below zero stops
   it before any state exists; otherwise it runs the loop from the source.
   */
  function Run(edges: seq<Edge>, s: int): (r: Outcome)
    ensures r.NegativeWeightRejected? <==> exists e :: e in edges && e.w.Int? && e.w.i < 0
    ensures r.Done? ==> r.dist.Keys == (set v | v in UniqueVertices(edges)) + {s}
  {
    if exists e :: e in edges && e.w.Int? && e.w.i < 0 then NegativeWeightRejected
    else
      var f := Loop(edges, Start(UniqueVertices(edges), s));
      Done(f.dist, f.parent, f.order, f.pushes)
  }
}
