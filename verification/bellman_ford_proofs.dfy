/**
 What the rounds of `runBellmanFord` achieve: after `k` rounds no distance
 exceeds the weight of any walk of at most `k` edges; without the
 negative-cycle flag the distances are exactly the shortest-walk distances;
 and the flag is raised exactly when a negative cycle is reachable.
 */
module BellmanFordProofs {
  import opened Graph
  import opened Vertices
  import opened Walks
  import opened BellmanFord

  /** No distance exceeds the weight of a walk from `s` with at most `k` edges. */
  ghost predicate BoundedBy(edges: seq<Edge>, s: int, dist: DistMap, k: nat) {
    forall t, p :: IsWalk(edges, s, t, p) && |p| <= k ==> t in dist && AtMost(dist[t], Fin(WalkWeight(p)))
  }

  /**
   If `dist[u] <= X` when a round starts and the round examines `(u, v, w)`,
   then `dist[v] <= X + w` when it ends, whether or not that edge relaxed.
   */
  lemma {:induction false} RoundReaches(st: State, es: seq<Edge>, e: Edge, X: int)
    requires e in es && Numeric(e) && e.u.i in st.dist && e.v.i in st.dist
    requires AtMost(st.dist[e.u.i], Fin(X))
    ensures e.v.i in Round(st, es).0.dist && AtMost(Round(st, es).0.dist[e.v.i], Fin(X + Weight(e)))
    decreases |es|
  {
    var (d1, p1) := Relax(st.dist, st.parent, es[0]);
    var st1 := State(d1, p1);
    RoundMonotone(st1, es[1..]);
    if es[0] == e {
      assert AtMost(d1[e.v.i], Fin(X + Weight(e)));
      assert AtMost(Round(st1, es[1..]).0.dist[e.v.i], d1[e.v.i]);
    } else {
      assert e in es[1..];
      RoundReaches(st1, es[1..], e, X);
    }
  }

  /** A round over all edges extends the bound from walks of `k` edges to walks of `k + 1`. */
  lemma RoundExtends(edges: seq<Edge>, s: int, st: State, k: nat)
    requires BoundedBy(edges, s, st.dist, k) && Grounded(edges, s, st.dist)
    ensures BoundedBy(edges, s, Round(st, edges).0.dist, k + 1)
  {
    var d' := Round(st, edges).0.dist;
    RoundMonotone(st, edges);
    forall t, p | IsWalk(edges, s, t, p) && |p| <= k + 1
      ensures t in d' && AtMost(d'[t], Fin(WalkWeight(p)))
    {
      if |p| <= k {
        assert AtMost(d'[t], st.dist[t]);
      } else {
        var e := p[|p| - 1];
        var q := p[..|p| - 1];
        WalkPrefix(edges, s, t, p);
        assert e in edges;
        RoundReaches(st, edges, e, WalkWeight(q));
      }
    }
  }

  /** A quiet first round ends the main loop on a fixpoint. */
  lemma QuietRounds(edges: seq<Edge>, st: State, remaining: nat)
    requires remaining > 0 && !Round(st, edges).1
    ensures Rounds(st, edges, remaining).0 == st && Stable(edges, st.dist)
  {
  }

  /** After a quiet first round the bound covers walks of every length. */
  lemma QuietExtend(edges: seq<Edge>, s: int, st: State, remaining: nat, n: nat)
    requires Grounded(edges, s, st.dist)
    requires remaining > 0 && !Round(st, edges).1
    ensures BoundedBy(edges, s, Rounds(st, edges, remaining).0.dist, n)
  {
    QuietRounds(edges, st, remaining);
    StableBoundsAll(edges, s, st.dist);
  }

  /** A busy first round hands the loop on to the next one. */
  lemma BusyRounds(edges: seq<Edge>, st: State, remaining: nat)
    requires remaining > 0 && Round(st, edges).1
    ensures Rounds(st, edges, remaining).0 == Rounds(Round(st, edges).0, edges, remaining - 1).0
  {
  }

  /** Rounds keep the source at most 0 and every endpoint in `dist`. */
  lemma RoundGrounded(edges: seq<Edge>, s: int, st: State)
    requires Grounded(edges, s, st.dist)
    ensures Grounded(edges, s, Round(st, edges).0.dist)
  {
    RoundMonotone(st, edges);
    assert AtMost(Round(st, edges).0.dist[s], st.dist[s]);
  }

  /**
   `remaining` further rounds extend a bound for walks of `k` edges to walks
   of `n = k + remaining` edges; an early stop leaves a fixpoint, which
   bounds walks of every length.
   */
  lemma {:induction false} RoundsExtend(edges: seq<Edge>, s: int, st: State, remaining: nat, k: nat, n: nat)
    requires BoundedBy(edges, s, st.dist, k) && Grounded(edges, s, st.dist)
    requires k + remaining == n
    ensures BoundedBy(edges, s, Rounds(st, edges, remaining).0.dist, n)
    decreases remaining
  {
    if remaining > 0 {
      if !Round(st, edges).1 {
        QuietExtend(edges, s, st, remaining, n);
      } else {
        BusyRounds(edges, st, remaining);
        RoundExtends(edges, s, st, k);
        RoundGrounded(edges, s, st);
        RoundsExtend(edges, s, Round(st, edges).0, remaining - 1, k + 1, n);
      }
    }
  }

  /** The vertex list covers every integer endpoint, and the initial maps bound the empty walk. */
  lemma InitialGrounded(edges: seq<Edge>, s: int)
    ensures Grounded(edges, s, Initial(UniqueVertices(edges), s).dist)
    ensures BoundedBy(edges, s, Initial(UniqueVertices(edges), s).dist, 0)
  {
    VerticesCover(edges, Initial(UniqueVertices(edges), s).dist);
  }

  /** The final maps bound every walk of at most `V - 1` edges, and the source stays at most 0. */
  lemma RunBounded(edges: seq<Edge>, s: int)
    ensures BoundedBy(edges, s, Run(edges, s).dist, RoundLimit(UniqueVertices(edges)))
    ensures Grounded(edges, s, Run(edges, s).dist)
  {
    var vs := UniqueVertices(edges);
    var init := Initial(vs, s);
    InitialGrounded(edges, s);
    RoundsExtend(edges, s, init, RoundLimit(vs), 0, RoundLimit(vs));
    var st := Rounds(init, edges, RoundLimit(vs)).0;
    RoundsMonotone(init, edges, RoundLimit(vs));
    assert AtMost(st.dist[s], init.dist[s]);
  }

  /**
   Without the negative-cycle flag, `runBellmanFord` returns shortest-walk
   distances: finite ones are attained by a walk and beaten by none, and
   infinite ones belong to vertices no walk from the source reaches.
   */
  lemma RunShortest(edges: seq<Edge>, s: int)
    requires !Run(edges, s).negativeCycle
    ensures Shortest(edges, s, Run(edges, s).dist)
  {
    RunBounded(edges, s);
    StableShortest(edges, s, Run(edges, s).dist, Run(edges, s).parent);
  }

  /**
   A walk of at most `|S| - 1` edges weighing no more than `p` exists, unless
   a negative cycle is reachable from `s`; `S` must hold `s` and every integer
   endpoint of the edges.
   */
  lemma {:induction false} ShortenOrCycle(edges: seq<Edge>, s: int, t: int, p: seq<Edge>, S: set<int>)
    requires IsWalk(edges, s, t, p)
    requires s in S
    requires forall e :: e in edges && Numeric(e) ==> e.u.i in S && e.v.i in S
    ensures NegativeCycleFrom(edges, s) ||
            exists p' :: IsWalk(edges, s, t, p') && |p'| < |S| && WalkWeight(p') <= WalkWeight(p)
    decreases |p|
  {
    if |p| >= |S| {
      forall i | 0 <= i <= |p|
        ensures Stop(s, p, i) in S
      {
        if i > 0 { assert p[i - 1] in edges; }
      }
      var x, a, c, b := SplitAtRepeat(edges, s, t, p, S);
      if WalkWeight(c) >= 0 {
        WalkConcat(edges, s, x, t, a, b);
        ShortenOrCycle(edges, s, t, a + b, S);
      }
    }
  }

  /** An edge that still passes the relaxation test leads to a walk lighter than the distance it improves. */
  lemma LighterWalk(edges: seq<Edge>, s: int, dist: DistMap, parent: ParentMap, e: Edge)
    requires Consistent(edges, s, dist, parent)
    requires e in edges && Improves(dist, e)
    ensures exists p :: IsWalk(edges, s, e.v.i, p) && |p| > 0 && Below(Fin(WalkWeight(p)), dist[e.v.i])
  {
    var u := e.u.i;
    var q :| IsWalk(edges, s, u, q) && WalkWeight(q) == dist[u].n;
    WalkExtend(edges, s, u, q, e);
  }

  /**
   If every walk of fewer than `|S|` edges is bounded by `dist`, a walk that
   beats `dist` can only exist because a negative cycle is reachable.
   */
  lemma BeatenBoundMeansCycle(edges: seq<Edge>, s: int, dist: DistMap, S: set<int>, t: int, p: seq<Edge>)
    requires s in S
    requires forall e :: e in edges && Numeric(e) ==> e.u.i in S && e.v.i in S
    requires BoundedBy(edges, s, dist, |S| - 1)
    requires IsWalk(edges, s, t, p) && t in dist && Below(Fin(WalkWeight(p)), dist[t])
    ensures NegativeCycleFrom(edges, s)
  {
    ShortenOrCycle(edges, s, t, p, S);
  }

  /** The vertices `getUniqueVertices` lists, as a set. */
  function VertexSetOf(edges: seq<Edge>): set<int> {
    set x | x in UniqueVertices(edges)
  }

  /** The vertex set holds the start of any non-empty walk and every integer endpoint, and is as large as the list. */
  lemma VertexSetCovers(edges: seq<Edge>, s: int, t: int, p: seq<Edge>)
    requires IsWalk(edges, s, t, p) && |p| > 0
    ensures s in VertexSetOf(edges)
    ensures forall e :: e in edges && Numeric(e) ==>
      e.u.i in VertexSetOf(edges) && e.v.i in VertexSetOf(edges)
    ensures |VertexSetOf(edges)| == |UniqueVertices(edges)|
  {
    var vs := UniqueVertices(edges);
    assert p[0] in edges;
    assert IsEndpoint(edges, s);
    forall e | e in edges && Numeric(e)
      ensures e.u.i in vs && e.v.i in vs
    {
      assert IsEndpoint(edges, e.u.i) && IsEndpoint(edges, e.v.i);
    }
    DistinctCard(vs);
  }

  /** A raised flag means a negative cycle is reachable from the source. */
  lemma FlagSound(edges: seq<Edge>, s: int)
    requires Run(edges, s).negativeCycle
    ensures NegativeCycleFrom(edges, s)
  {
    var r := Run(edges, s);
    var e :| e in edges && Improves(r.dist, e);
    LighterWalk(edges, s, r.dist, r.parent, e);
    var p :| IsWalk(edges, s, e.v.i, p) && |p| > 0 && Below(Fin(WalkWeight(p)), r.dist[e.v.i]);
    RunBounded(edges, s);
    VertexSetCovers(edges, s, e.v.i, p);
    BeatenBoundMeansCycle(edges, s, r.dist, VertexSetOf(edges), e.v.i, p);
  }

  /** `k` copies of a non-positive number add up to a non-positive number. */
  lemma {:induction false} MulNonPositive(k: nat, m: int)
    ensures m <= 0 ==> k * m <= 0
  {
    if k > 0 {
      MulNonPositive(k - 1, m);
      assert k * m == (k - 1) * m + m;
    }
  }

  /** A grounded fixpoint of relaxation leaves no reachable closed walk of negative weight. */
  lemma StableNoNegativeCycle(edges: seq<Edge>, s: int, dist: DistMap)
    requires Stable(edges, dist) && Grounded(edges, s, dist)
    ensures forall x, a, c :: IsWalk(edges, s, x, a) && IsWalk(edges, x, x, c) ==> WalkWeight(c) >= 0
  {
    StableBoundsAll(edges, s, dist);
    forall x, a, c | IsWalk(edges, s, x, a) && IsWalk(edges, x, x, c)
      ensures WalkWeight(c) >= 0
    {
      assert AtMost(dist[x], Fin(WalkWeight(a)));
      var k := WalkWeight(a) - dist[x].n + 1;
      RepeatWalk(edges, x, c, k);
      WalkConcat(edges, s, x, x, a, Repeat(c, k));
      assert AtMost(dist[x], Fin(WalkWeight(a + Repeat(c, k))));
      MulNonPositive(k, WalkWeight(c) + 1);
      assert k * (WalkWeight(c) + 1) == k * WalkWeight(c) + k;
    }
  }

  /** Without the flag, no negative cycle is reachable from the source. */
  lemma NoFlagNoCycle(edges: seq<Edge>, s: int)
    requires !Run(edges, s).negativeCycle
    ensures !NegativeCycleFrom(edges, s)
  {
    RunBounded(edges, s);
    StableNoNegativeCycle(edges, s, Run(edges, s).dist);
  }

  /** The flag of `runBellmanFord` is raised exactly when a negative cycle is reachable from the source. */
  lemma FlagIffNegativeCycle(edges: seq<Edge>, s: int)
    ensures Run(edges, s).negativeCycle <==> NegativeCycleFrom(edges, s)
  {
    if Run(edges, s).negativeCycle {
      FlagSound(edges, s);
    } else {
      NoFlagNoCycle(edges, s);
    }
  }

  /**
   The source is at most 0, and it has a parent only once its distance has
   dropped strictly below 0: `parent[source]` is set only by a relaxation
   that lowers `dist[source]`, which starts at 0.
   */
  ghost predicate SourceGuard(s: int, st: State) {
    && s in st.dist && AtMost(st.dist[s], Fin(0))
    && (s in st.parent ==> st.dist[s].Fin? && st.dist[s].n < 0)
  }

  /** One round keeps the source guard. */
  lemma {:induction false} RoundSourceGuard(s: int, st: State, es: seq<Edge>)
    requires SourceGuard(s, st)
    ensures SourceGuard(s, Round(st, es).0)
    decreases |es|
  {
    if es != [] {
      var (d1, p1) := Relax(st.dist, st.parent, es[0]);
      assert SourceGuard(s, State(d1, p1));
      RoundSourceGuard(s, State(d1, p1), es[1..]);
    }
  }

  /** The main loop keeps the source guard. */
  lemma {:induction false} RoundsSourceGuard(s: int, st: State, edges: seq<Edge>, remaining: nat)
    requires SourceGuard(s, st)
    ensures SourceGuard(s, Rounds(st, edges, remaining).0)
    decreases remaining
  {
    if remaining > 0 {
      var (st1, changed) := Round(st, edges);
      RoundSourceGuard(s, st, edges);
      if changed {
        RoundsSourceGuard(s, st1, edges, remaining - 1);
      }
    }
  }

  /**
   Without the flag, the source ends at distance 0 (a lower value would be a
   negative closed walk) and without a parent.
   */
  lemma RunSourceZero(edges: seq<Edge>, s: int)
    requires !Run(edges, s).negativeCycle
    ensures Run(edges, s).dist[s] == Fin(0)
    ensures s !in Run(edges, s).parent
  {
    var r := Run(edges, s);
    RunBounded(edges, s);
    NoFlagNoCycle(edges, s);
    var c :| IsWalk(edges, s, s, c) && WalkWeight(c) == r.dist[s].n;
    assert IsWalk(edges, s, s, []);
    var vs := UniqueVertices(edges);
    RoundsSourceGuard(s, Initial(vs, s), edges, RoundLimit(vs));
  }
}
