/**
 `getPathString`: the walk backwards along `parent` from the target to the
 source, and the text it produces (modelled as the vertex list or "no
 path"). The source's `while` loop has no bound and spins forever on a
 parent cycle that avoids the source; the model bounds it by one more step
 than there are parent links and reports `Diverges` where the source hangs.
 */
module Path {
  import opened Graph
  import opened Walks

  datatype PathResult = Path(vertices: seq<int>) | NoPath | Diverges

  /** How the backward walk ended: at the source, at a vertex without a parent, or out of steps. */
  datatype Trace = Reached(p: seq<int>) | Stuck(p: seq<int>) | OutOfSteps

  /**
   The `while (curr !== null && curr !== undefined)` loop from `curr`,
   at most `fuel` iterations; the list is built by `unshift`, so it is in
   source-to-target order.
   */
  function TraceBack(parent: ParentMap, s: int, curr: int, fuel: nat): (r: Trace)
    ensures !r.OutOfSteps? ==> 0 < |r.p| <= fuel && r.p[|r.p| - 1] == curr
    ensures r.Reached? ==> r.p[0] == s
    ensures r.Stuck? ==> r.p[0] !in parent && r.p[0] != s
    decreases fuel
  {
    if fuel == 0 then OutOfSteps
    else if curr == s then Reached([s])
    else if curr !in parent then Stuck([curr])
    else
      match TraceBack(parent, s, parent[curr], fuel - 1)
      case Reached(p) => Reached(p + [curr])
      case Stuck(p) => Stuck(p + [curr])
      case OutOfSteps => OutOfSteps
  }

  /**
   `p` follows parent links from `p[0]` to its last vertex: each vertex
   after the first has the previous one as its parent.
   */
  ghost predicate Linked(parent: ParentMap, p: seq<int>) {
    forall i :: 1 <= i < |p| ==> p[i] in parent && parent[p[i]] == p[i - 1]
  }

  /** A chain from `s` to `t` along parent links that meets `s` only at its start. */
  ghost predicate Chain(parent: ParentMap, s: int, t: int, p: seq<int>) {
    && |p| > 0 && p[0] == s && p[|p| - 1] == t
    && Linked(parent, p)
    && forall i :: 0 < i < |p| ==> p[i] != s
  }

  /** `getPathString(parent, source, target)`. */
  function GetPathString(parent: ParentMap, s: int, t: int): (r: PathResult)
    ensures s == t ==> r == Path([s])
    ensures s != t && t !in parent ==> r == NoPath
    ensures r.Path? ==> Chain(parent, s, t, r.vertices)
  {
    if s == t then Path([s])
    else if t !in parent then NoPath
    else
      match TraceBack(parent, s, t, |parent| + 1)
      case Reached(p) => TraceReached(parent, s, t, |parent| + 1); Path(p)
      case Stuck(_) => NoPath
      case OutOfSteps => Diverges
  }

  /** A walk that reaches the source has produced a chain from the source to where it started. */
  lemma {:induction false} TraceReached(parent: ParentMap, s: int, curr: int, fuel: nat)
    requires TraceBack(parent, s, curr, fuel).Reached?
    ensures Chain(parent, s, curr, TraceBack(parent, s, curr, fuel).p)
    decreases fuel
  {
    if curr != s {
      var q := TraceBack(parent, s, parent[curr], fuel - 1).p;
      TraceReached(parent, s, parent[curr], fuel - 1);
      var p := q + [curr];
      assert forall i :: 0 <= i < |q| ==> p[i] == q[i];
    }
  }

  /** Following the chain backwards, with enough steps, the walk retraces it exactly. */
  lemma {:induction false} TraceFollowsChain(parent: ParentMap, s: int, t: int, p: seq<int>, fuel: nat)
    requires Chain(parent, s, t, p) && fuel >= |p|
    ensures TraceBack(parent, s, t, fuel) == Reached(p)
    decreases |p|
  {
    if |p| > 1 {
      var q := p[..|p| - 1];
      assert p[|p| - 1] in parent;
      assert q[|q| - 1] == parent[t];
      assert Chain(parent, s, parent[t], q) by {
        assert forall i :: 0 <= i < |q| ==> q[i] == p[i];
      }
      TraceFollowsChain(parent, s, parent[t], q, fuel - 1);
      assert q + [t] == p;
    }
  }

  /** Two chains into the same vertex agree, step by step, going backwards. */
  lemma {:induction false} ChainsAgree(parent: ParentMap, p: seq<int>, i: int, j: int, k: nat)
    requires Linked(parent, p)
    requires 0 <= i < |p| && 0 <= j < |p| && k <= i && k <= j
    ensures p[i] == p[j] ==> p[i - k] == p[j - k]
    decreases k
  {
    if k > 0 {
      ChainsAgree(parent, p, i, j, k - 1);
    }
  }

  /** A chain that meets the source only at its start never repeats a vertex. */
  lemma ChainDistinct(parent: ParentMap, s: int, t: int, p: seq<int>)
    requires Chain(parent, s, t, p)
    ensures forall i, j :: 0 <= i < j < |p| ==> p[i] != p[j]
  {
    forall i, j | 0 <= i < j < |p|
      ensures p[i] != p[j]
    {
      ChainsAgree(parent, p, i, j, i);
    }
  }

  /** Distinct members of `S` number at most `|S|`. */
  lemma {:induction false} DistinctBound(xs: seq<int>, S: set<int>)
    requires forall i, j :: 0 <= i < j < |xs| ==> xs[i] != xs[j]
    requires forall k :: 0 <= k < |xs| ==> xs[k] in S
    ensures |xs| <= |S|
  {
    if xs != [] {
      var tail := xs[1..];
      forall k | 0 <= k < |tail|
        ensures tail[k] in S - {xs[0]}
      {
        assert tail[k] == xs[k + 1];
      }
      DistinctBound(tail, S - {xs[0]});
    }
  }

  /**
   Whenever a chain from the source to the target exists, `getPathString`
   returns exactly that chain: the parent links allow only one, and it is
   short enough for the walk to finish.
   */
  lemma ChainFound(parent: ParentMap, s: int, t: int, p: seq<int>)
    requires Chain(parent, s, t, p)
    ensures GetPathString(parent, s, t) == Path(p)
  {
    if s == t {
      assert |p| == 1;
      assert p == [s];
    } else {
      assert |p| > 1;
      assert p[|p| - 1] in parent;
      ChainDistinct(parent, s, t, p);
      var tail := p[1..];
      forall k | 0 <= k < |tail|
        ensures tail[k] in parent.Keys
      {
        assert tail[k] == p[k + 1];
      }
      DistinctBound(tail, parent.Keys);
      TraceFollowsChain(parent, s, t, p, |parent| + 1);
    }
  }

  /**
   `getPathString` yields a vertex list exactly when a chain of parent
   links leads from the source to the target, and then it is the only one.
   */
  lemma PathIffChain(parent: ParentMap, s: int, t: int)
    ensures GetPathString(parent, s, t).Path? <==> exists p :: Chain(parent, s, t, p)
    ensures forall p :: Chain(parent, s, t, p) ==> GetPathString(parent, s, t) == Path(p)
  {
    forall p | Chain(parent, s, t, p)
      ensures GetPathString(parent, s, t) == Path(p)
    {
      ChainFound(parent, s, t, p);
    }
    if GetPathString(parent, s, t).Path? {
      assert Chain(parent, s, t, GetPathString(parent, s, t).vertices);
    }
  }

  /**
   A walk that runs out of steps has passed `fuel` vertices, each with a
   parent and none the source, ending where it started.
   */
  lemma {:induction false} OutOfStepsWalk(parent: ParentMap, s: int, curr: int, fuel: nat) returns (w: seq<int>)
    requires TraceBack(parent, s, curr, fuel).OutOfSteps?
    ensures |w| == fuel && Linked(parent, w)
    ensures forall k :: 0 <= k < |w| ==> w[k] in parent && w[k] != s
    ensures fuel > 0 ==> w[|w| - 1] == curr
    decreases fuel
  {
    if fuel == 0 {
      w := [];
    } else {
      var w0 := OutOfStepsWalk(parent, s, parent[curr], fuel - 1);
      w := w0 + [curr];
      assert forall k :: 0 <= k < |w0| ==> w[k] == w0[k];
    }
  }

  /**
   `c` is a loop of parent links that avoids the source: every vertex of it
   has the previous one as parent, and the first has the last.
   */
  ghost predicate ParentCycle(parent: ParentMap, s: int, c: seq<int>) {
    && |c| > 0 && Linked(parent, c)
    && (forall k :: 0 <= k < |c| ==> c[k] in parent && c[k] != s)
    && parent[c[0]] == c[|c| - 1]
  }

  /**
   Where the model reports `Diverges`, the source's walk never ends: the
   parent links from the target run back into a loop `c` that avoids the
   source, through the vertices `rest` that lead from the loop to the target.
   */
  lemma DivergesMeansCycle(parent: ParentMap, s: int, t: int)
    ensures GetPathString(parent, s, t).Diverges? ==>
      exists c, rest :: ParentCycle(parent, s, c) && Linked(parent, c + rest) && (c + rest)[|c + rest| - 1] == t
  {
    if GetPathString(parent, s, t).Diverges? {
      var c, rest := CycleOnDivergence(parent, s, t);
    }
  }

  lemma CycleOnDivergence(parent: ParentMap, s: int, t: int) returns (c: seq<int>, rest: seq<int>)
    requires GetPathString(parent, s, t).Diverges?
    ensures ParentCycle(parent, s, c) && Linked(parent, c + rest) && (c + rest)[|c + rest| - 1] == t
  {
    var w := OutOfStepsWalk(parent, s, t, |parent| + 1);
    Pigeonhole(w, parent.Keys);
    var i, j :| 0 <= i < j < |w| && w[i] == w[j];
    c := w[i + 1..j + 1];
    rest := w[j + 1..];
    assert c + rest == w[i + 1..];
    forall k | 1 <= k < |c|
      ensures c[k] in parent && parent[c[k]] == c[k - 1]
    {
      assert c[k] == w[i + 1 + k] && c[k - 1] == w[i + k];
    }
    assert c[0] == w[i + 1] && c[|c| - 1] == w[j];
    assert ParentCycle(parent, s, c);
    var x := c + rest;
    forall k | 1 <= k < |x|
      ensures x[k] in parent && parent[x[k]] == x[k - 1]
    {
      assert x[k] == w[i + 1 + k] && x[k - 1] == w[i + k];
    }
  }

  /**
   `w` follows parent links from a vertex without a parent to `t` and never
   meets the source: the backward walk from `t` gets stuck.
   */
  ghost predicate DeadEnd(parent: ParentMap, s: int, t: int, w: seq<int>) {
    && |w| > 0 && w[0] !in parent && w[|w| - 1] == t
    && Linked(parent, w)
    && forall k :: 0 <= k < |w| ==> w[k] != s
  }

  /** A walk that got stuck has produced a dead end leading to where it started. */
  lemma {:induction false} TraceStuck(parent: ParentMap, s: int, curr: int, fuel: nat)
    requires TraceBack(parent, s, curr, fuel).Stuck?
    ensures DeadEnd(parent, s, curr, TraceBack(parent, s, curr, fuel).p)
    decreases fuel
  {
    if curr in parent {
      var q := TraceBack(parent, s, parent[curr], fuel - 1).p;
      TraceStuck(parent, s, parent[curr], fuel - 1);
      var p := q + [curr];
      assert forall i :: 0 <= i < |q| ==> p[i] == q[i];
    }
  }

  /** Following a dead end backwards, with enough steps, the walk retraces it and gets stuck. */
  lemma {:induction false} TraceFollowsDeadEnd(parent: ParentMap, s: int, t: int, w: seq<int>, fuel: nat)
    requires DeadEnd(parent, s, t, w) && fuel >= |w|
    ensures TraceBack(parent, s, t, fuel) == Stuck(w)
    decreases |w|
  {
    if |w| > 1 {
      var q := w[..|w| - 1];
      assert w[|w| - 1] in parent;
      assert DeadEnd(parent, s, parent[t], q) by {
        assert forall i :: 0 <= i < |q| ==> q[i] == w[i];
      }
      TraceFollowsDeadEnd(parent, s, parent[t], q, fuel - 1);
      assert q + [t] == w;
    }
  }

  /** A dead end never repeats a vertex: its first vertex has no parent. */
  lemma DeadEndDistinct(parent: ParentMap, s: int, t: int, w: seq<int>)
    requires DeadEnd(parent, s, t, w)
    ensures forall i, j :: 0 <= i < j < |w| ==> w[i] != w[j]
  {
    forall i, j | 0 <= i < j < |w|
      ensures w[i] != w[j]
    {
      ChainsAgree(parent, w, i, j, i);
      assert w[j - i] in parent;
    }
  }

  /**
   "No path" is printed exactly when the parent links from the target end
   at a vertex without a parent before meeting the source.
   */
  lemma NoPathIffDeadEnd(parent: ParentMap, s: int, t: int)
    ensures GetPathString(parent, s, t).NoPath? <==> exists w :: DeadEnd(parent, s, t, w)
  {
    if GetPathString(parent, s, t).NoPath? {
      if t in parent {
        TraceStuck(parent, s, t, |parent| + 1);
      } else {
        assert DeadEnd(parent, s, t, [t]);
      }
    }
    if w :| DeadEnd(parent, s, t, w) {
      StuckMeansNoPath(parent, s, t, w);
    }
  }

  /** A dead end from the target makes `getPathString` print "no path", never hang. */
  lemma StuckMeansNoPath(parent: ParentMap, s: int, t: int, w: seq<int>)
    requires DeadEnd(parent, s, t, w)
    ensures GetPathString(parent, s, t) == NoPath
  {
    if t in parent {
      DeadEndDistinct(parent, s, t, w);
      var tail := w[1..];
      forall k | 0 <= k < |tail|
        ensures tail[k] in parent.Keys
      {
        assert tail[k] == w[k + 1];
      }
      DistinctBound(tail, parent.Keys);
      TraceFollowsDeadEnd(parent, s, t, w, |parent| + 1);
    }
  }

  // ---------------------------------------------------------------------------
  // Parent maps produced by the engines.
  // ---------------------------------------------------------------------------

  /** Every finite vertex but the source has a parent, and every parent is finite. */
  ghost predicate FiniteClosed(s: int, dist: DistMap, parent: ParentMap) {
    && (forall v :: v in dist && dist[v].Fin? && v != s ==> v in parent)
    && (forall v :: v in parent ==> parent[v] in dist && dist[parent[v]].Fin?)
  }

  lemma ConsistentClosed(edges: seq<Edge>, s: int, dist: DistMap, parent: ParentMap)
    requires Consistent(edges, s, dist, parent)
    ensures FiniteClosed(s, dist, parent)
  {
    forall v | v in parent
      ensures parent[v] in dist && dist[parent[v]].Fin?
    {
      assert ParentEdge(edges, dist, parent[v], v);
    }
  }

  /** A walk that starts at a finite vertex never gets stuck when finite vertices are closed under parents. */
  lemma {:induction false} TraceNotStuck(s: int, dist: DistMap, parent: ParentMap, curr: int, fuel: nat)
    requires FiniteClosed(s, dist, parent)
    requires curr in dist && dist[curr].Fin?
    ensures !TraceBack(parent, s, curr, fuel).Stuck?
    decreases fuel
  {
    if fuel > 0 && curr != s {
      TraceNotStuck(s, dist, parent, parent[curr], fuel - 1);
    }
  }

  /**
   On a consistent pair, `getPathString` says "no path" exactly for the
   targets without a finite distance.
   */
  lemma NoPathIffUnreached(edges: seq<Edge>, s: int, dist: DistMap, parent: ParentMap, t: int)
    requires Consistent(edges, s, dist, parent)
    ensures GetPathString(parent, s, t).NoPath? <==> !(t in dist && dist[t].Fin?)
  {
    ConsistentClosed(edges, s, dist, parent);
    if t in dist && dist[t].Fin? {
      TraceNotStuck(s, dist, parent, t, |parent| + 1);
    }
  }

  /** The position at which `x` first occurs in `order`. */
  function Rank(order: seq<int>, x: int): (i: nat)
    requires x in order
    ensures i < |order| && order[i] == x
    ensures forall k :: 0 <= k < i ==> order[k] != x
  {
    if order[0] == x then 0 else 1 + Rank(order[1..], x)
  }

  /** Every vertex with a parent, and its parent, occur in `order`, the parent first. */
  ghost predicate ParentsEarlier(parent: ParentMap, order: seq<int>) {
    forall x :: x in parent ==>
      x in order && parent[x] in order && Rank(order, parent[x]) < Rank(order, x)
  }

  /** Along parent links ranks grow, so a linked sequence cannot close into a loop. */
  lemma {:induction false} RanksGrow(parent: ParentMap, order: seq<int>, c: seq<int>, k: nat)
    requires ParentsEarlier(parent, order)
    requires Linked(parent, c) && 0 < |c| && k < |c|
    requires forall m :: 0 <= m < |c| ==> c[m] in parent
    ensures Rank(order, c[0]) <= Rank(order, c[k])
    decreases k
  {
    if k > 0 {
      RanksGrow(parent, order, c, k - 1);
      assert parent[c[k]] == c[k - 1];
    }
  }

  /** A parent map ordered by some vertex sequence has no parent loop. */
  lemma NoCycleWhenRanked(parent: ParentMap, s: int, order: seq<int>)
    requires ParentsEarlier(parent, order)
    ensures forall c :: !ParentCycle(parent, s, c)
  {
    forall c | |c| > 0 && Linked(parent, c) && (forall k :: 0 <= k < |c| ==> c[k] in parent && c[k] != s)
      ensures parent[c[0]] != c[|c| - 1]
    {
      RanksGrow(parent, order, c, |c| - 1);
    }
  }

  /** On a parent map ordered by some vertex sequence, the backward walk always ends. */
  lemma RankedNeverDiverges(parent: ParentMap, s: int, t: int, order: seq<int>)
    requires ParentsEarlier(parent, order)
    ensures !GetPathString(parent, s, t).Diverges?
  {
    NoCycleWhenRanked(parent, s, order);
    DivergesMeansCycle(parent, s, t);
  }

  // ---------------------------------------------------------------------------
  // The path printed is a shortest one.
  // ---------------------------------------------------------------------------

  /**
   A sequence of parent links is a walk along edges of the list whose weight
   is at most the rise in distance from its first vertex to its last.
   */
  lemma {:induction false} ChainWalk(edges: seq<Edge>, dist: DistMap, parent: ParentMap, p: seq<int>) returns (q: seq<Edge>)
    requires LinksJustified(edges, dist, parent)
    requires Linked(parent, p) && |p| > 0
    requires p[0] in dist && dist[p[0]].Fin?
    ensures p[|p| - 1] in dist && dist[p[|p| - 1]].Fin?
    ensures IsWalk(edges, p[0], p[|p| - 1], q) && |q| == |p| - 1
    ensures forall k :: 0 <= k < |q| ==> q[k].u == Int(p[k]) && q[k].v == Int(p[k + 1])
    ensures WalkWeight(q) <= dist[p[|p| - 1]].n - dist[p[0]].n
    decreases |p|
  {
    if |p| == 1 {
      q := [];
    } else {
      var p' := p[..|p| - 1];
      assert Linked(parent, p') by {
        assert forall i :: 0 <= i < |p'| ==> p'[i] == p[i];
      }
      var q' := ChainWalk(edges, dist, parent, p');
      var t := p[|p| - 1];
      var u := p[|p| - 2];
      assert t in parent && parent[t] == u;
      assert ParentEdge(edges, dist, u, t);
      var e :| e in edges && Numeric(e) && e.u == Int(u) && e.v == Int(t) && dist[t].n >= dist[u].n + e.w.i;
      WalkExtend(edges, p[0], u, q', e);
      q := q' + [e];
      assert forall k :: 0 <= k < |q'| ==> q[k] == q'[k];
      assert forall k :: 0 <= k < |p'| ==> p'[k] == p[k];
    }
  }

  /**
   When the distances are the shortest-walk distances with the source at 0,
   the vertex list `getPathString` prints follows edges of the list and
   weighs exactly the target's distance: it is a shortest walk.
   */
  lemma PathIsShortest(edges: seq<Edge>, s: int, dist: DistMap, parent: ParentMap, t: int, p: seq<int>) returns (q: seq<Edge>)
    requires Consistent(edges, s, dist, parent) && Shortest(edges, s, dist) && dist[s] == Fin(0)
    requires GetPathString(parent, s, t) == Path(p)
    ensures IsWalk(edges, s, t, q) && |q| == |p| - 1
    ensures forall k :: 0 <= k < |q| ==> q[k].u == Int(p[k]) && q[k].v == Int(p[k + 1])
    ensures t in dist && dist[t] == Fin(WalkWeight(q))
  {
    assert LinksJustified(edges, dist, parent);
    q := ChainWalk(edges, dist, parent, p);
    assert AtMost(dist[t], Fin(WalkWeight(q)));
  }
}
