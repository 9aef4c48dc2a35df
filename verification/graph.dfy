/**
 The graph model shared by both shortest-path engines: numbers as produced by
 `parseInt`, weighted directed edges, distances with an explicit infinity, and
 the edge-relaxation step that Bellman–Ford and Dijkstra perform identically.
 */
module Graph {

  /** A number read from the edge list: an integer, or NaN when `parseInt` failed. */
  datatype Num = NaN | Int(i: int)

  /** A directed edge `u -> v` of weight `w`, exactly as stored in the edge list. */
  datatype Edge = Edge(u: Num, v: Num, w: Num)

  /** A tentative distance: a finite integer or `Infinity`. */
  datatype Dist = Inf | Fin(n: int)

  /** `a < b` on JavaScript numbers restricted to integers and `Infinity`. */
  predicate Below(a: Dist, b: Dist) {
    a.Fin? && (b.Inf? || a.n < b.n)
  }

  /** `a <= b` on the same domain. */
  predicate AtMost(a: Dist, b: Dist) {
    b.Inf? || (a.Fin? && a.n <= b.n)
  }

  type DistMap = map<int, Dist>

  /** Predecessor map: a vertex without an entry has a `null` (or undefined) parent. */
  type ParentMap = map<int, int>

  /** All three fields of the edge are integers. */
  predicate Numeric(e: Edge) {
    e.u.Int? && e.v.Int? && e.w.Int?
  }

  /** The weight of an edge, with NaN read as 0 (only used on numeric edges). */
  function Weight(e: Edge): int {
    if e.w.Int? then e.w.i else 0
  }

  /**
   The relaxation test `dist[u] !== Infinity && dist[u] + w < dist[v]`.
   A NaN field, or an endpoint missing from `dist` (JavaScript `undefined`),
   makes the comparison false, so such an edge never relaxes.
   */
  predicate Improves(dist: DistMap, e: Edge) {
    && Numeric(e)
    && e.u.i in dist && e.v.i in dist
    && dist[e.u.i].Fin?
    && Below(Fin(dist[e.u.i].n + e.w.i), dist[e.v.i])
  }

  /**
   One relaxation: when the test holds, `dist[v]` and `parent[v]` are set
   together; otherwise nothing changes.
   */
  function Relax(dist: DistMap, parent: ParentMap, e: Edge): (r: (DistMap, ParentMap))
    ensures r.0.Keys == dist.Keys
    ensures forall x :: x in dist ==> AtMost(r.0[x], dist[x])
    ensures !Improves(dist, e) ==> r == (dist, parent)
    ensures Improves(dist, e) ==>
      && Below(r.0[e.v.i], dist[e.v.i])
      && r.0[e.v.i] == Fin(dist[e.u.i].n + e.w.i)
      && e.v.i in r.1 && r.1[e.v.i] == e.u.i
    ensures forall x :: x in dist && (!Improves(dist, e) || x != e.v.i) ==>
      r.0[x] == dist[x] && (x in r.1 <==> x in parent) && (x in parent ==> r.1[x] == parent[x])
  {
    if Improves(dist, e) then
      (dist[e.v.i := Fin(dist[e.u.i].n + e.w.i)], parent[e.v.i := e.u.i])
    else
      (dist, parent)
  }

  /** Every integer endpoint of every edge has an entry in `dist`. */
  ghost predicate CoversEndpoints(edges: seq<Edge>, dist: DistMap) {
    forall e :: e in edges ==> (e.u.Int? ==> e.u.i in dist) && (e.v.Int? ==> e.v.i in dist)
  }

  /** No edge passes the relaxation test: `dist` is a fixpoint of relaxation. */
  ghost predicate Stable(edges: seq<Edge>, dist: DistMap) {
    forall e :: e in edges ==> !Improves(dist, e)
  }

  // ---------------------------------------------------------------------------
  // Walks: the independent reference against which distances are judged.
  // ---------------------------------------------------------------------------

  /** `p` is a walk along edges of `edges` from `s` to `t` (the empty walk when `s == t`). */
  ghost predicate IsWalk(edges: seq<Edge>, s: int, t: int, p: seq<Edge>) {
    && (forall i :: 0 <= i < |p| ==> p[i] in edges && Numeric(p[i]))
    && (if |p| == 0 then s == t
        else
          && p[0].u == Int(s)
          && p[|p| - 1].v == Int(t)
          && forall i :: 0 <= i < |p| - 1 ==> p[i].v == p[i + 1].u)
  }

  /** The total weight of a walk. */
  function WalkWeight(p: seq<Edge>): int {
    if |p| == 0 then 0 else WalkWeight(p[..|p| - 1]) + Weight(p[|p| - 1])
  }

  /** Extending a walk by one edge leaving its end gives a walk to the edge's target. */
  lemma WalkExtend(edges: seq<Edge>, s: int, t: int, p: seq<Edge>, e: Edge)
    requires IsWalk(edges, s, t, p)
    requires e in edges && Numeric(e) && e.u == Int(t)
    ensures IsWalk(edges, s, e.v.i, p + [e])
    ensures WalkWeight(p + [e]) == WalkWeight(p) + Weight(e)
  {
    assert (p + [e])[..|p|] == p;
  }

  /** Dropping the last edge of a non-empty walk leaves a walk to that edge's source. */
  lemma WalkPrefix(edges: seq<Edge>, s: int, t: int, p: seq<Edge>)
    requires IsWalk(edges, s, t, p) && |p| > 0
    ensures IsWalk(edges, s, p[|p| - 1].u.i, p[..|p| - 1])
  {
  }

  /** Weights add up over concatenation. */
  lemma {:induction false} WeightAppend(a: seq<Edge>, b: seq<Edge>)
    ensures WalkWeight(a + b) == WalkWeight(a) + WalkWeight(b)
    decreases |b|
  {
    if |b| == 0 {
      assert a + b == a;
    } else {
      var b' := b[..|b| - 1];
      assert (a + b)[..|a + b| - 1] == a + b';
      assert (a + b)[|a + b| - 1] == b[|b| - 1];
      WeightAppend(a, b');
    }
  }

  /** A walk from `s` to `x` followed by a walk from `x` to `t` is a walk from `s` to `t`. */
  lemma WalkConcat(edges: seq<Edge>, s: int, x: int, t: int, p: seq<Edge>, q: seq<Edge>)
    requires IsWalk(edges, s, x, p) && IsWalk(edges, x, t, q)
    ensures IsWalk(edges, s, t, p + q)
    ensures WalkWeight(p + q) == WalkWeight(p) + WalkWeight(q)
  {
    WeightAppend(p, q);
    if |p| > 0 && |q| > 0 {
      var r := p + q;
      forall i | 0 <= i < |r| - 1
        ensures r[i].v == r[i + 1].u
      {
        if i < |p| - 1 {
        } else if i == |p| - 1 {
        } else {
          assert r[i] == q[i - |p|] && r[i + 1] == q[i + 1 - |p|];
        }
      }
    }
  }

  // ---------------------------------------------------------------------------
  // The distance/parent invariant both engines maintain.
  // ---------------------------------------------------------------------------

  /**
   `parent[v] = u` is justified by an edge `(u, v, w)` of the list whose
   relaxation condition is already satisfied: `dist[v] >= dist[u] + w`.
   */
  ghost predicate ParentEdge(edges: seq<Edge>, dist: DistMap, u: int, v: int) {
    && u in dist && v in dist && dist[u].Fin? && dist[v].Fin?
    && exists e :: e in edges && Numeric(e) && e.u == Int(u) && e.v == Int(v)
                   && dist[v].n >= dist[u].n + e.w.i
  }

  /** Each parent link is justified by an edge of the list. */
  ghost predicate LinksJustified(edges: seq<Edge>, dist: DistMap, parent: ParentMap) {
    forall v :: v in parent ==> ParentEdge(edges, dist, parent[v], v)
  }

  /**
   The invariant of a distance/parent pair computed from source `s`:
   the source is finite, a vertex other than the source is finite exactly
   when it has a parent, each parent link follows an edge that justifies it,
   and every finite distance is the weight of an actual walk from `s`.
   */
  ghost predicate Consistent(edges: seq<Edge>, s: int, dist: DistMap, parent: ParentMap) {
    && s in dist && dist[s].Fin?
    && parent.Keys <= dist.Keys
    && (forall v :: v in dist ==> (dist[v].Fin? <==> v == s || v in parent))
    && LinksJustified(edges, dist, parent)
    && (forall v :: v in dist && dist[v].Fin? ==>
          exists p :: IsWalk(edges, s, v, p) && WalkWeight(p) == dist[v].n)
  }

  /** `dist[v] = Infinity` for every vertex, then `dist[source] = 0`. */
  function InitialDist(vs: seq<int>, s: int): (d: DistMap)
    ensures d.Keys == (set v | v in vs) + {s}
    ensures d[s] == Fin(0)
    ensures forall v :: v in d && v != s ==> d[v] == Inf
  {
    (map v | v in vs :: Inf)[s := Fin(0)]
  }

  /** The pair every engine starts from: the source at 0, all else infinite, no parents. */
  lemma ConsistentInitial(edges: seq<Edge>, s: int, dist: DistMap)
    requires s in dist && dist[s] == Fin(0)
    requires forall v :: v in dist && v != s ==> dist[v] == Inf
    ensures Consistent(edges, s, dist, map[])
  {
    assert IsWalk(edges, s, s, []) && WalkWeight([]) == 0;
  }

  /** A relaxation along an edge of the list keeps the pair consistent. */
  lemma {:induction false} RelaxConsistent(edges: seq<Edge>, s: int, dist: DistMap, parent: ParentMap, e: Edge)
    requires Consistent(edges, s, dist, parent)
    requires e in edges
    ensures Consistent(edges, s, Relax(dist, parent, e).0, Relax(dist, parent, e).1)
  {
    if Improves(dist, e) {
      var (d', p') := Relax(dist, parent, e);
      var u, v := e.u.i, e.v.i;
      forall x | x in p'
        ensures ParentEdge(edges, d', p'[x], x)
      {
        if x == v {
          assert d'[v].n >= d'[u].n + e.w.i;
        } else {
          var y := parent[x];
          var e' :| e' in edges && Numeric(e') && e'.u == Int(y) && e'.v == Int(x)
                    && dist[x].n >= dist[y].n + e'.w.i;
          assert AtMost(d'[y], dist[y]);
        }
      }
      forall x | x in d' && d'[x].Fin?
        ensures exists p :: IsWalk(edges, s, x, p) && WalkWeight(p) == d'[x].n
      {
        if x == v {
          var q :| IsWalk(edges, s, u, q) && WalkWeight(q) == dist[u].n;
          WalkExtend(edges, s, u, q, e);
          assert IsWalk(edges, s, v, q + [e]) && WalkWeight(q + [e]) == d'[x].n;
        } else {
          assert d'[x] == dist[x];
        }
      }
    }
  }

  // ---------------------------------------------------------------------------
  // What a correct result means.
  // ---------------------------------------------------------------------------

  /** Some vertex reachable from `s` lies on a closed walk of negative weight. */
  ghost predicate NegativeCycleFrom(edges: seq<Edge>, s: int) {
    exists x, a, c :: IsWalk(edges, s, x, a) && IsWalk(edges, x, x, c) && WalkWeight(c) < 0
  }

  /**
   Every entry of `dist` is the shortest-walk distance from `s`: a finite
   entry is the weight of some walk and at most the weight of every walk,
   and an infinite entry means no walk reaches the vertex.
   */
  ghost predicate Shortest(edges: seq<Edge>, s: int, dist: DistMap) {
    forall t :: t in dist ==>
      && (dist[t].Fin? ==> exists p :: IsWalk(edges, s, t, p) && WalkWeight(p) == dist[t].n)
      && (forall p :: IsWalk(edges, s, t, p) ==> AtMost(dist[t], Fin(WalkWeight(p))))
  }
}
