/**
 What the loop of `runDijkstra` keeps true on non-negative weights: the
 frontier over-approximates every tentative distance and holds an exact
 entry for each unfixed reachable vertex, fixed vertices are never closer
 than the frontier, and the out-edges of fixed vertices cannot be relaxed.
 When the frontier runs dry, the distances are the shortest-walk distances.
 */
module DijkstraProofs {
  import opened Graph
  import opened Vertices
  import opened Walks
  import opened Frontier
  import opened Dijkstra

  /** No edge carries an integer weight below zero (what the refusal guarantees). */
  ghost predicate NoNegative(edges: seq<Edge>) {
    forall e :: e in edges && e.w.Int? ==> e.w.i >= 0
  }

  /** No finite distance is negative. */
  ghost predicate NonNegDist(st: DState) {
    forall x :: x in st.dist && st.dist[x].Fin? ==> st.dist[x].n >= 0
  }

  /** The source sits at 0 and never gets a parent. */
  ghost predicate SourceFixed(s: int, st: DState) {
    s in st.dist && st.dist[s] == Fin(0) && s !in st.parent
  }

  /** Ties in the frontier are in push order, and every push number is already used. */
  ghost predicate Stamped(st: DState) {
    TieOrdered(st.pq) && forall i :: 0 <= i < |st.pq| ==> st.pq[i].stamp < st.pushes
  }

  /** Every frontier entry names a finite vertex and is no closer than its current distance. */
  ghost predicate FrontierSound(st: DState) {
    forall i :: 0 <= i < |st.pq| ==>
      st.pq[i].id in st.dist && st.dist[st.pq[i].id].Fin? && st.dist[st.pq[i].id].n <= st.pq[i].d
  }

  /** Every unfixed vertex with a finite distance has a frontier entry carrying exactly that distance. */
  ghost predicate FrontierComplete(st: DState) {
    forall x :: x in st.dist && st.dist[x].Fin? && x !in st.visited ==>
      exists i :: 0 <= i < |st.pq| && st.pq[i].id == x && st.pq[i].d == st.dist[x].n
  }

  ghost predicate VisitedFinite(st: DState) {
    forall x :: x in st.visited ==> x in st.dist && st.dist[x].Fin?
  }

  /** Fixed vertices are no farther than any frontier entry. */
  ghost predicate VisitedBelow(st: DState) {
    && VisitedFinite(st)
    && forall x, i :: x in st.visited && 0 <= i < |st.pq| ==> st.dist[x].n <= st.pq[i].d
  }

  /** No edge leaving a vertex of `V` passes the relaxation test. */
  ghost predicate SettledFrom(edges: seq<Edge>, st: DState, V: set<int>) {
    forall e :: e in edges && e.u.Int? && e.u.i in V ==> !Improves(st.dist, e)
  }

  /** `order` lists the fixed vertices once each, in non-decreasing order of distance. */
  ghost predicate InOrder(st: DState) {
    && VisitedFinite(st)
    && (forall i, j :: 0 <= i < j < |st.order| ==> st.order[i] != st.order[j])
    && (forall x :: x in st.order <==> x in st.visited)
    && (forall i :: 0 <= i < |st.order| ==> st.order[i] in st.dist && st.dist[st.order[i]].Fin?)
    && (forall i, j :: 0 <= i < j < |st.order| ==> st.dist[st.order[i]].n <= st.dist[st.order[j]].n)
  }

  /** The number of edges that leave a vertex of `V`. */
  function CountOut(edges: seq<Edge>, V: set<int>): (n: nat)
    ensures n <= |edges|
  {
    if edges == [] then 0
    else (if edges[0].u.Int? && edges[0].u.i in V then 1 else 0) + CountOut(edges[1..], V)
  }

  /** Pushes so far: the source entry plus at most one per edge leaving a fixed vertex. */
  ghost predicate Counted(edges: seq<Edge>, st: DState) {
    st.pushes <= 1 + CountOut(edges, st.visited)
  }

  /** The loop invariant. */
  ghost predicate Inv(edges: seq<Edge>, s: int, st: DState) {
    && Sane(st) && Consistent(edges, s, st.dist, st.parent) && SourceFixed(s, st) && NonNegDist(st)
    && Stamped(st) && FrontierSound(st) && FrontierComplete(st) && VisitedBelow(st)
    && SettledFrom(edges, st, st.visited) && InOrder(st) && Counted(edges, st)
  }

  /**
   The invariant while the out-edges of the freshly fixed `u`, at distance
   `D`, are scanned: the out-edges of `u` are the only ones not yet settled,
   and no fixed vertex is farther than `D`.
   */
  ghost predicate ScanInv(edges: seq<Edge>, s: int, u: int, D: int, st: DState) {
    && Sane(st) && Consistent(edges, s, st.dist, st.parent) && SourceFixed(s, st) && NonNegDist(st)
    && Stamped(st) && FrontierSound(st) && FrontierComplete(st) && VisitedBelow(st)
    && u in st.visited && st.dist[u] == Fin(D)
    && (forall x :: x in st.visited ==> st.dist[x].n <= D)
    && SettledFrom(edges, st, st.visited - {u}) && InOrder(st)
  }

  // ---------------------------------------------------------------------------
  // Counting pushes.
  // ---------------------------------------------------------------------------

  /** Fixing `u` adds exactly the out-edges of `u` to the count. */
  lemma {:induction false} CountOutAdd(edges: seq<Edge>, V: set<int>, u: int)
    requires u !in V
    ensures CountOut(edges, V + {u}) == CountOut(edges, V) + |OutEdges(edges, u)|
  {
    if edges != [] {
      CountOutAdd(edges[1..], V, u);
    }
  }

  // ---------------------------------------------------------------------------
  // Scanning the out-edges of a fixed vertex.
  // ---------------------------------------------------------------------------

  /**
   The scan never touches the distance of a fixed vertex, never raises a
   distance, keeps the old frontier as a prefix of the new one and pushes
   at most once per edge, numbering the pushes in order.
   */
  lemma {:induction false} ScanFrame(st: DState, es: seq<Edge>)
    ensures forall x :: x in st.visited && x in st.dist ==> Scan(st, es).dist[x] == st.dist[x]
    ensures forall x :: x in st.dist ==> AtMost(Scan(st, es).dist[x], st.dist[x])
    ensures |st.pq| <= |Scan(st, es).pq| && Scan(st, es).pq[..|st.pq|] == st.pq
    ensures Scan(st, es).pushes - st.pushes == |Scan(st, es).pq| - |st.pq| <= |es|
    ensures forall i :: |st.pq| <= i < |Scan(st, es).pq| ==> Scan(st, es).pq[i].stamp == st.pushes + (i - |st.pq|)
    decreases |es|
  {
    if es != [] {
      var st1 := ScanEdge(st, es[0]);
      ScanFrame(st1, es[1..]);
      var r := Scan(st1, es[1..]);
      assert r.pq[..|st.pq|] == r.pq[..|st1.pq|][..|st.pq|];
    }
  }

  /** The maps stay consistent and the source stays at 0, unparented, through one relaxation. */
  lemma RelaxedMaps(edges: seq<Edge>, s: int, u: int, D: int, st: DState, e: Edge)
    requires NoNegative(edges) && ScanInv(edges, s, u, D, st)
    requires e in edges && e.u == Int(u) && Relaxable(st, e)
    ensures Sane(ScanEdge(st, e)) && Consistent(edges, s, ScanEdge(st, e).dist, ScanEdge(st, e).parent)
    ensures SourceFixed(s, ScanEdge(st, e)) && NonNegDist(ScanEdge(st, e))
    ensures ScanEdge(st, e).dist[e.v.i] == Fin(D + e.w.i) && D + e.w.i >= 0
  {
    RelaxConsistent(edges, s, st.dist, st.parent, e);
    var r := ScanEdge(st, e);
    assert r.pq[|st.pq|].id == e.v.i;
    forall i | 0 <= i < |r.pq|
      ensures r.pq[i].id in r.dist
    {
      if i < |st.pq| { assert r.pq[i] == st.pq[i]; }
    }
  }

  /** The frontier invariants survive one relaxation and its push. */
  lemma RelaxedFrontier(edges: seq<Edge>, s: int, u: int, D: int, st: DState, e: Edge)
    requires NoNegative(edges) && ScanInv(edges, s, u, D, st)
    requires e in edges && e.u == Int(u) && Relaxable(st, e)
    requires ScanEdge(st, e).dist[e.v.i] == Fin(D + e.w.i) && D + e.w.i >= 0
    ensures Stamped(ScanEdge(st, e)) && FrontierSound(ScanEdge(st, e))
    ensures FrontierComplete(ScanEdge(st, e)) && VisitedBelow(ScanEdge(st, e))
  {
    var r := ScanEdge(st, e);
    var v := e.v.i;
    var n := |st.pq|;
    assert r.pq[n] == Entry(v, D + e.w.i, st.pushes);
    assert forall i :: 0 <= i < n ==> r.pq[i] == st.pq[i];
    forall i, j | 0 <= i < j < |r.pq| && r.pq[i].d == r.pq[j].d
      ensures r.pq[i].stamp < r.pq[j].stamp
    {
      if j < n { assert st.pq[i].d == st.pq[j].d; }
    }
    forall i | 0 <= i < |r.pq|
      ensures r.pq[i].id in r.dist && r.dist[r.pq[i].id].Fin? && r.dist[r.pq[i].id].n <= r.pq[i].d
    {
      if i < n {
        assert AtMost(r.dist[st.pq[i].id], st.dist[st.pq[i].id]);
      }
    }
    forall x | x in r.dist && r.dist[x].Fin? && x !in r.visited
      ensures exists i :: 0 <= i < |r.pq| && r.pq[i].id == x && r.pq[i].d == r.dist[x].n
    {
      if x == v {
        assert r.pq[n].id == x && r.pq[n].d == r.dist[x].n;
      } else {
        var i :| 0 <= i < n && st.pq[i].id == x && st.pq[i].d == st.dist[x].n;
        assert r.pq[i].id == x && r.pq[i].d == r.dist[x].n;
      }
    }
    forall x, i | x in r.visited && 0 <= i < |r.pq|
      ensures r.dist[x].n <= r.pq[i].d
    {
      assert r.dist[x] == st.dist[x];
    }
  }

  /** The bound `D` on fixed vertices, the settled edges and the fixing order survive one relaxation. */
  lemma RelaxedSettled(edges: seq<Edge>, s: int, u: int, D: int, st: DState, e: Edge)
    requires ScanInv(edges, s, u, D, st)
    requires e.u == Int(u) && Relaxable(st, e)
    ensures u in ScanEdge(st, e).visited && ScanEdge(st, e).dist[u] == Fin(D)
    ensures forall x :: x in ScanEdge(st, e).visited ==> ScanEdge(st, e).dist[x] == st.dist[x]
    ensures SettledFrom(edges, ScanEdge(st, e), ScanEdge(st, e).visited - {u})
    ensures InOrder(ScanEdge(st, e))
  {
    var r := ScanEdge(st, e);
    forall e' | e' in edges && e'.u.Int? && e'.u.i in r.visited - {u}
      ensures !Improves(r.dist, e')
    {
      assert !Improves(st.dist, e');
      if e'.v.Int? && e'.v.i in st.dist {
        assert AtMost(r.dist[e'.v.i], st.dist[e'.v.i]);
      }
    }
  }

  /** One neighbour: the scan invariant survives, and the edge just examined is settled. */
  lemma ScanEdgeInv(edges: seq<Edge>, s: int, u: int, D: int, st: DState, e: Edge)
    requires NoNegative(edges) && ScanInv(edges, s, u, D, st)
    requires e in edges && e.u == Int(u)
    ensures ScanInv(edges, s, u, D, ScanEdge(st, e))
    ensures !Improves(ScanEdge(st, e).dist, e)
  {
    if Relaxable(st, e) {
      RelaxedMaps(edges, s, u, D, st, e);
      RelaxedFrontier(edges, s, u, D, st, e);
      RelaxedSettled(edges, s, u, D, st, e);
    }
  }

  /** An edge out of a fixed vertex that no longer passes the test never passes it again during the scan. */
  lemma StaysSettled(st: DState, es: seq<Edge>, e: Edge)
    requires Sane(st) && e.u.Int? && e.u.i in st.visited && !Improves(st.dist, e)
    ensures !Improves(Scan(st, es).dist, e)
  {
    ScanFrame(st, es);
    if e.v.Int? && e.v.i in st.dist {
      assert AtMost(Scan(st, es).dist[e.v.i], st.dist[e.v.i]);
    }
  }

  /** The whole scan keeps the scan invariant and settles every edge it examined. */
  lemma {:induction false} ScanInvAll(edges: seq<Edge>, s: int, u: int, D: int, st: DState, es: seq<Edge>)
    requires NoNegative(edges) && ScanInv(edges, s, u, D, st)
    requires forall e :: e in es ==> e in edges && e.u == Int(u)
    ensures ScanInv(edges, s, u, D, Scan(st, es))
    ensures forall e :: e in es ==> !Improves(Scan(st, es).dist, e)
    decreases |es|
  {
    if es != [] {
      ScanEdgeInv(edges, s, u, D, st, es[0]);
      var st1 := ScanEdge(st, es[0]);
      ScanInvAll(edges, s, u, D, st1, es[1..]);
      StaysSettled(st1, es[1..], es[0]);
      assert forall e :: e in es ==> e == es[0] || e in es[1..];
    }
  }

  // ---------------------------------------------------------------------------
  // One pass of the loop.
  // ---------------------------------------------------------------------------

  /** The state before the loop satisfies the invariant. */
  lemma StartInv(edges: seq<Edge>, s: int)
    ensures Inv(edges, s, Start(UniqueVertices(edges), s))
  {
    var st := Start(UniqueVertices(edges), s);
    ConsistentInitial(edges, s, st.dist);
    assert st.pq[0].id == s && st.pq[0].d == st.dist[s].n;
  }

  /** An entry for an unfixed vertex, shifted off the frontier, carries exactly that vertex's distance. */
  lemma FreshEntryExact(edges: seq<Edge>, s: int, st: DState)
    requires Inv(edges, s, st) && |st.pq| > 0 && Extract(st.pq).0.id !in st.visited
    ensures Extract(st.pq).0.id in st.dist && st.dist[Extract(st.pq).0.id] == Fin(Extract(st.pq).0.d)
  {
    var cur := Extract(st.pq).0;
    assert cur in st.pq;
    var k :| 0 <= k < |st.pq| && st.pq[k] == cur;
    var i :| 0 <= i < |st.pq| && st.pq[i].id == cur.id && st.pq[i].d == st.dist[cur.id].n;
    assert st.pq[i] in st.pq;
  }

  /** Every entry left after the shift was on the frontier before. */
  lemma RestFromFrontier(pq: seq<Entry>)
    requires |pq| > 0
    ensures forall j :: 0 <= j < |Extract(pq).1| ==> exists i :: 0 <= i < |pq| && pq[i] == Extract(pq).1[j]
  {
    var rest := Extract(pq).1;
    forall j | 0 <= j < |rest|
      ensures exists i :: 0 <= i < |pq| && pq[i] == rest[j]
    {
      assert rest[j] in rest;
      assert rest[j] in pq;
    }
  }

  /** An entry of the frontier other than the one shifted off stays on it. */
  lemma OtherEntriesStay(pq: seq<Entry>, i: int)
    requires |pq| > 0 && 0 <= i < |pq| && pq[i] != Extract(pq).0
    ensures exists j :: 0 <= j < |Extract(pq).1| && Extract(pq).1[j] == pq[i]
  {
    assert pq[i] in pq;
    assert pq[i] in Extract(pq).1;
  }

  /** Skipping a stale entry keeps the invariant. */
  lemma StaleStepInv(edges: seq<Edge>, s: int, st: DState)
    requires Inv(edges, s, st) && |st.pq| > 0 && Extract(st.pq).0.id in st.visited
    ensures Inv(edges, s, Step(edges, st))
  {
    var (cur, rest) := Extract(st.pq);
    var r := Step(edges, st);
    assert r == st.(pq := rest);
    ExtractEarliest(st.pq);
    RestFromFrontier(st.pq);
    forall x | x in r.dist && r.dist[x].Fin? && x !in r.visited
      ensures exists j :: 0 <= j < |rest| && rest[j].id == x && rest[j].d == r.dist[x].n
    {
      var i :| 0 <= i < |st.pq| && st.pq[i].id == x && st.pq[i].d == st.dist[x].n;
      OtherEntriesStay(st.pq, i);
    }
  }

  /** The state right after a fresh entry is shifted off and its vertex fixed, before the scan. */
  function Fixed(st: DState): DState
    requires |st.pq| > 0
  {
    var id := Extract(st.pq).0.id;
    st.(visited := st.visited + {id}, order := st.order + [id], pq := Extract(st.pq).1)
  }

  /** Fixing a fresh entry's vertex keeps the frontier invariants, and no fixed vertex is farther than it. */
  lemma VisitFrontier(edges: seq<Edge>, s: int, st: DState)
    requires Inv(edges, s, st) && |st.pq| > 0 && Extract(st.pq).0.id !in st.visited
    ensures Stamped(Fixed(st)) && FrontierSound(Fixed(st))
    ensures FrontierComplete(Fixed(st)) && VisitedBelow(Fixed(st))
    ensures forall x :: x in st.visited ==> st.dist[x].n <= Extract(st.pq).0.d
  {
    var (cur, rest) := Extract(st.pq);
    var u := cur.id;
    var st1 := Fixed(st);
    FreshEntryExact(edges, s, st);
    ExtractEarliest(st.pq);
    RestFromFrontier(st.pq);
    forall x | x in st1.dist && st1.dist[x].Fin? && x !in st1.visited
      ensures exists j :: 0 <= j < |rest| && rest[j].id == x && rest[j].d == st1.dist[x].n
    {
      var i :| 0 <= i < |st.pq| && st.pq[i].id == x && st.pq[i].d == st.dist[x].n;
      OtherEntriesStay(st.pq, i);
    }
    forall x | x in st1.visited
      ensures st1.dist[x].n <= cur.d
    {
      if x != u {
        assert cur in st.pq;
        var k :| 0 <= k < |st.pq| && st.pq[k] == cur;
      }
    }
    forall x, j | x in st1.visited && 0 <= j < |rest|
      ensures st1.dist[x].n <= rest[j].d
    {
      assert rest[j] in rest;
      assert rest[j] in st.pq;
    }
  }

  /** Fixing a fresh entry's vertex sets up the scan invariant for its out-edges. */
  lemma VisitPrep(edges: seq<Edge>, s: int, st: DState)
    requires Inv(edges, s, st) && |st.pq| > 0 && Extract(st.pq).0.id !in st.visited
    ensures ScanInv(edges, s, Extract(st.pq).0.id, Extract(st.pq).0.d, Fixed(st))
  {
    var cur := Extract(st.pq).0;
    var u := cur.id;
    FreshEntryExact(edges, s, st);
    VisitFrontier(edges, s, st);
    ExtractSane(st);
    assert InOrder(st);
    forall i | 0 <= i < |st.order|
      ensures st.dist[st.order[i]].n <= st.dist[u].n
    {
      var x := st.order[i];
      assert x in st.order;
      assert x in st.visited;
      assert st.dist[x].n <= cur.d;
    }
    OrderAppend(st.dist, st.order, u);
  }

  /** Appending a new vertex no closer than those already fixed keeps `order` distinct and sorted. */
  lemma OrderAppend(dist: DistMap, order: seq<int>, u: int)
    requires forall i :: 0 <= i < |order| ==> order[i] in dist && dist[order[i]].Fin?
    requires u in dist && dist[u].Fin? && u !in order
    requires forall i, j :: 0 <= i < j < |order| ==> order[i] != order[j]
    requires forall i, j :: 0 <= i < j < |order| ==> dist[order[i]].n <= dist[order[j]].n
    requires forall i :: 0 <= i < |order| ==> dist[order[i]].n <= dist[u].n
    ensures forall i, j :: 0 <= i < j < |order + [u]| ==> (order + [u])[i] != (order + [u])[j]
    ensures forall i, j :: 0 <= i < j < |order + [u]| ==>
      dist[(order + [u])[i]].n <= dist[(order + [u])[j]].n
  {
    var o := order + [u];
    forall i, j | 0 <= i < j < |o|
      ensures o[i] != o[j] && dist[o[i]].n <= dist[o[j]].n
    {
      assert o[i] == order[i];
      if j < |order| {
        assert o[j] == order[j];
      } else {
        assert order[i] in order;
      }
    }
  }

  /** Fixing a fresh entry's vertex and scanning its out-edges keeps the invariant. */
  lemma VisitStepInv(edges: seq<Edge>, s: int, st: DState)
    requires NoNegative(edges)
    requires Inv(edges, s, st) && |st.pq| > 0 && Extract(st.pq).0.id !in st.visited
    ensures Inv(edges, s, Step(edges, st))
  {
    var (cur, rest) := Extract(st.pq);
    var u := cur.id;
    var st1 := Fixed(st);
    var out := OutEdges(edges, u);
    VisitPrep(edges, s, st);
    ScanInvAll(edges, s, u, cur.d, st1, out);
    ScanFrame(st1, out);
    CountOutAdd(edges, st.visited, u);
    var r := Step(edges, st);
    assert r == Scan(st1, out);
    SettledAfterScan(edges, s, u, cur.d, r);
  }

  /** Once the out-edges of `u` are settled, every edge out of a fixed vertex is. */
  lemma SettledAfterScan(edges: seq<Edge>, s: int, u: int, D: int, r: DState)
    requires ScanInv(edges, s, u, D, r)
    requires forall e :: e in OutEdges(edges, u) ==> !Improves(r.dist, e)
    ensures SettledFrom(edges, r, r.visited)
  {
    forall e | e in edges && e.u.Int? && e.u.i in r.visited
      ensures !Improves(r.dist, e)
    {
      if e.u.i == u {
        assert e in OutEdges(edges, u);
      }
    }
  }

  /** Every pass of the loop keeps the invariant. */
  lemma StepInv(edges: seq<Edge>, s: int, st: DState)
    requires NoNegative(edges)
    requires Inv(edges, s, st) && |st.pq| > 0
    ensures Inv(edges, s, Step(edges, st))
  {
    if Extract(st.pq).0.id in st.visited {
      StaleStepInv(edges, s, st);
    } else {
      VisitStepInv(edges, s, st);
    }
  }

  /** A pass never changes the distance of a vertex fixed before it, and never unfixes a vertex. */
  lemma StepKeepsFixed(edges: seq<Edge>, st: DState)
    requires |st.pq| > 0 && Sane(st)
    ensures st.visited <= Step(edges, st).visited
    ensures forall x :: x in st.visited ==> Step(edges, st).dist[x] == st.dist[x]
  {
    var (cur, rest) := Extract(st.pq);
    if cur.id !in st.visited {
      var st1 := st.(visited := st.visited + {cur.id}, order := st.order + [cur.id], pq := rest);
      ScanFrame(st1, OutEdges(edges, cur.id));
    }
  }

  // ---------------------------------------------------------------------------
  // The whole loop.
  // ---------------------------------------------------------------------------

  /** The loop keeps the invariant all the way. */
  lemma {:induction false} LoopInv(edges: seq<Edge>, s: int, st: DState)
    requires NoNegative(edges) && Inv(edges, s, st)
    ensures Inv(edges, s, Loop(edges, st))
    decreases |st.dist.Keys - st.visited|, |st.pq|
  {
    if st.pq != [] {
      var cur := Extract(st.pq).0;
      ExtractSane(st);
      StepInv(edges, s, st);
      if cur.id !in st.visited {
        FewerUnfixed(st.dist.Keys, st.visited, cur.id);
      }
      LoopInv(edges, s, Step(edges, st));
    }
  }

  /** Once a vertex is fixed, its distance never changes again. */
  lemma {:induction false} LoopKeepsFixed(edges: seq<Edge>, st: DState)
    requires Sane(st)
    ensures st.visited <= Loop(edges, st).visited
    ensures forall x :: x in st.visited ==> Loop(edges, st).dist[x] == st.dist[x]
    decreases |st.dist.Keys - st.visited|, |st.pq|
  {
    if st.pq != [] {
      var cur := Extract(st.pq).0;
      ExtractSane(st);
      StepKeepsFixed(edges, st);
      if cur.id !in st.visited {
        FewerUnfixed(st.dist.Keys, st.visited, cur.id);
      }
      LoopKeepsFixed(edges, Step(edges, st));
    }
  }

  /** With the frontier empty, the fixed vertices are exactly the finite ones and no edge can be relaxed. */
  lemma EmptyFrontierStable(edges: seq<Edge>, s: int, st: DState)
    requires Inv(edges, s, st) && st.pq == []
    ensures forall x :: x in st.dist ==> (st.dist[x].Fin? <==> x in st.visited)
    ensures Stable(edges, st.dist)
  {
    forall e | e in edges
      ensures !Improves(st.dist, e)
    {
      if e.u.Int? && e.u.i in st.dist && st.dist[e.u.i].Fin? {
        assert e.u.i in st.visited;
      }
    }
  }

  // ---------------------------------------------------------------------------
  // What `runDijkstra` returns.
  // ---------------------------------------------------------------------------

  /** The final state of the loop, with the invariant and an empty frontier. */
  lemma RunInv(edges: seq<Edge>, s: int)
    requires NoNegative(edges)
    ensures Inv(edges, s, Loop(edges, Start(UniqueVertices(edges), s)))
  {
    StartInv(edges, s);
    LoopInv(edges, s, Start(UniqueVertices(edges), s));
  }

  /**
   Unless it refuses the edge list, `runDijkstra` ends with shortest-walk
   distances, with consistent parent links, and with the source at 0 and
   without a parent.
   */
  lemma RunShortest(edges: seq<Edge>, s: int)
    requires Run(edges, s).Done?
    ensures Consistent(edges, s, Run(edges, s).dist, Run(edges, s).parent)
    ensures Run(edges, s).dist[s] == Fin(0) && s !in Run(edges, s).parent
    ensures Shortest(edges, s, Run(edges, s).dist)
  {
    var f := Loop(edges, Start(UniqueVertices(edges), s));
    RunInv(edges, s);
    EmptyFrontierStable(edges, s, f);
    VerticesCover(edges, f.dist);
    StableShortest(edges, s, f.dist, f.parent);
  }

  /** The counting facts of a final state. */
  lemma FinalCounts(edges: seq<Edge>, s: int, f: DState)
    requires Inv(edges, s, f) && f.pq == []
    ensures forall i, j :: 0 <= i < j < |f.order| ==> f.order[i] != f.order[j]
    ensures forall x :: x in f.order <==> x in f.dist && f.dist[x].Fin?
    ensures forall i, j :: 0 <= i < j < |f.order| ==>
      f.order[i] in f.dist && f.order[j] in f.dist && f.dist[f.order[i]].Fin? && f.dist[f.order[j]].Fin? &&
      f.dist[f.order[i]].n <= f.dist[f.order[j]].n
    ensures |f.order| <= |f.dist.Keys|
    ensures f.pushes <= 1 + |edges|
  {
    EmptyFrontierStable(edges, s, f);
    DistinctLength(f.order);
    var S := set x | x in f.order;
    assert S <= f.dist.Keys;
    assert f.dist.Keys == S + (f.dist.Keys - S);
  }

  /**
   The vertices are fixed once each (`loopCount` never exceeds the number of
   entries of `dist`), exactly the vertices with a finite distance end up
   fixed, they are fixed in non-decreasing order of distance, and the
   frontier receives at most one push per edge besides the source entry.
   */
  lemma RunCounts(edges: seq<Edge>, s: int)
    requires Run(edges, s).Done?
    ensures var r := Run(edges, s);
      && (forall i, j :: 0 <= i < j < |r.order| ==> r.order[i] != r.order[j])
      && (forall x :: x in r.order <==> x in r.dist && r.dist[x].Fin?)
      && (forall i, j :: 0 <= i < j < |r.order| ==>
            r.order[i] in r.dist && r.order[j] in r.dist && r.dist[r.order[i]].Fin? && r.dist[r.order[j]].Fin? &&
            r.dist[r.order[i]].n <= r.dist[r.order[j]].n)
      && |r.order| <= |r.dist.Keys|
      && r.pushes <= 1 + |edges|
  {
    RunInv(edges, s);
    FinalCounts(edges, s, Loop(edges, Start(UniqueVertices(edges), s)));
  }
}
