/**
 Facts about walks over the edge list: slicing a walk at its stops,
 repeating a closed walk, and the pigeonhole argument that a long enough
 walk passes some vertex twice.
 */
module Walks {
  import opened Graph

  /** The `i`-th vertex a walk `p` from `s` stops at: `s` itself, then each edge's target. */
  function Stop(s: int, p: seq<Edge>, i: nat): int
    requires i <= |p|
    requires forall k :: 0 <= k < |p| ==> Numeric(p[k])
  {
    if i == 0 then s else assert Numeric(p[i - 1]); p[i - 1].v.i
  }

  /** The piece of a walk between two of its stops is itself a walk between them. */
  lemma WalkSlice(edges: seq<Edge>, s: int, t: int, p: seq<Edge>, i: nat, j: nat)
    requires IsWalk(edges, s, t, p)
    requires i <= j <= |p|
    ensures IsWalk(edges, Stop(s, p, i), Stop(s, p, j), p[i..j])
  {
    var q := p[i..j];
    if i < j {
      assert q[0] == p[i];
      if i > 0 {
        assert p[i - 1].v == p[i].u;
      }
      assert q[|q| - 1] == p[j - 1];
      forall k | 0 <= k < |q| - 1
        ensures q[k].v == q[k + 1].u
      {
        assert q[k] == p[i + k] && q[k + 1] == p[i + k + 1];
      }
    }
  }

  /** `c` followed by itself `k` times in all. */
  function Repeat(c: seq<Edge>, k: nat): seq<Edge> {
    if k == 0 then [] else Repeat(c, k - 1) + c
  }

  /** Going `k` times round a closed walk at `x` is a closed walk at `x` of `k` times its weight. */
  lemma {:induction false} RepeatWalk(edges: seq<Edge>, x: int, c: seq<Edge>, k: nat)
    requires IsWalk(edges, x, x, c)
    ensures IsWalk(edges, x, x, Repeat(c, k))
    ensures WalkWeight(Repeat(c, k)) == k * WalkWeight(c)
  {
    if k > 0 {
      RepeatWalk(edges, x, c, k - 1);
      WalkConcat(edges, x, x, x, Repeat(c, k - 1), c);
    }
  }

  /** A list longer than the set it draws from repeats an element. */
  lemma {:induction false} Pigeonhole(xs: seq<int>, S: set<int>)
    requires forall k :: 0 <= k < |xs| ==> xs[k] in S
    requires |xs| > |S|
    ensures exists i, j :: 0 <= i < j < |xs| && xs[i] == xs[j]
  {
    if xs[0] in xs[1..] {
      var j :| 1 <= j < |xs| && xs[j] == xs[0];
    } else {
      forall k | 0 <= k < |xs[1..]|
        ensures xs[1..][k] in S - {xs[0]}
      {
        assert xs[1..][k] == xs[k + 1];
      }
      Pigeonhole(xs[1..], S - {xs[0]});
      var i, j :| 0 <= i < j < |xs[1..]| && xs[1..][i] == xs[1..][j];
      assert xs[i + 1] == xs[j + 1];
    }
  }

  /** The stops of a walk, as a list of length `|p| + 1`. */
  function Stops(s: int, p: seq<Edge>): (r: seq<int>)
    requires forall k :: 0 <= k < |p| ==> Numeric(p[k])
    ensures |r| == |p| + 1
    ensures forall i :: 0 <= i < |r| ==> r[i] == Stop(s, p, i)
  {
    seq(|p| + 1, i requires 0 <= i <= |p| => Stop(s, p, i))
  }

  /** A walk with at least `|S|` edges whose stops all lie in `S` stops twice at the same vertex. */
  lemma RepeatedStop(s: int, p: seq<Edge>, S: set<int>) returns (i: nat, j: nat)
    requires forall k :: 0 <= k < |p| ==> Numeric(p[k])
    requires forall k :: 0 <= k <= |p| ==> Stop(s, p, k) in S
    requires |p| >= |S|
    ensures i < j <= |p| && Stop(s, p, i) == Stop(s, p, j)
  {
    var xs := Stops(s, p);
    Pigeonhole(xs, S);
    i, j :| 0 <= i < j < |xs| && xs[i] == xs[j];
  }

  /** The weights of the three pieces of a walk cut at positions `i <= j` add up to the whole. */
  lemma CutWeights(p: seq<Edge>, i: nat, j: nat)
    requires i <= j <= |p|
    ensures WalkWeight(p) == WalkWeight(p[..i]) + WalkWeight(p[i..j]) + WalkWeight(p[j..])
  {
    assert p[..j] == p[..i] + p[i..j];
    WeightAppend(p[..i], p[i..j]);
    assert p == p[..j] + p[j..];
    WeightAppend(p[..j], p[j..]);
  }

  /**
   A walk whose stops all lie in `S` and that has at least `|S|` edges can be
   shortened: it passes some vertex `x` twice, and cutting out the closed
   walk `c` between the two passes leaves a strictly shorter walk.
   */
  lemma SplitAtRepeat(edges: seq<Edge>, s: int, t: int, p: seq<Edge>, S: set<int>)
    returns (x: int, a: seq<Edge>, c: seq<Edge>, b: seq<Edge>)
    requires IsWalk(edges, s, t, p)
    requires forall i :: 0 <= i <= |p| ==> Stop(s, p, i) in S
    requires |p| >= |S|
    ensures |a| + |c| + |b| == |p| && |c| > 0
    ensures IsWalk(edges, s, x, a) && IsWalk(edges, x, x, c) && IsWalk(edges, x, t, b)
    ensures WalkWeight(p) == WalkWeight(a) + WalkWeight(c) + WalkWeight(b)
  {
    var i, j := RepeatedStop(s, p, S);
    x := Stop(s, p, i);
    WalkSlice(edges, s, t, p, 0, i);
    WalkSlice(edges, s, t, p, i, j);
    WalkSlice(edges, s, t, p, j, |p|);
    a, c, b := p[0..i], p[i..j], p[j..|p|];
    CutWeights(p, i, j);
    assert p[..i] == a && p[j..] == b;
  }

  // ---------------------------------------------------------------------------
  // Fixpoints of relaxation.
  // ---------------------------------------------------------------------------

  /** No distance exceeds the weight of any walk from `s`. */
  ghost predicate BoundedAll(edges: seq<Edge>, s: int, dist: DistMap) {
    forall t, p :: IsWalk(edges, s, t, p) ==> t in dist && AtMost(dist[t], Fin(WalkWeight(p)))
  }

  /** The preconditions the bound lemmas share. */
  ghost predicate Grounded(edges: seq<Edge>, s: int, dist: DistMap) {
    CoversEndpoints(edges, dist) && s in dist && AtMost(dist[s], Fin(0))
  }

  /** A fixpoint of relaxation with the source at most 0 bounds every walk, by induction on it. */
  lemma {:induction false} StableWalk(edges: seq<Edge>, s: int, dist: DistMap, t: int, p: seq<Edge>)
    requires Stable(edges, dist) && Grounded(edges, s, dist)
    requires IsWalk(edges, s, t, p)
    ensures t in dist && AtMost(dist[t], Fin(WalkWeight(p)))
    decreases |p|
  {
    if |p| > 0 {
      var e := p[|p| - 1];
      WalkPrefix(edges, s, t, p);
      StableWalk(edges, s, dist, e.u.i, p[..|p| - 1]);
      assert e in edges;
      assert !Improves(dist, e);
    }
  }

  lemma StableBoundsAll(edges: seq<Edge>, s: int, dist: DistMap)
    requires Stable(edges, dist) && Grounded(edges, s, dist)
    ensures BoundedAll(edges, s, dist)
  {
    forall t, p | IsWalk(edges, s, t, p)
      ensures t in dist && AtMost(dist[t], Fin(WalkWeight(p)))
    {
      StableWalk(edges, s, dist, t, p);
    }
  }

  /**
   A consistent pair that no edge can improve, with the source at most 0,
   holds the shortest-walk distances.
   */
  lemma StableShortest(edges: seq<Edge>, s: int, dist: DistMap, parent: ParentMap)
    requires Consistent(edges, s, dist, parent)
    requires Stable(edges, dist) && Grounded(edges, s, dist)
    ensures Shortest(edges, s, dist)
  {
    StableBoundsAll(edges, s, dist);
  }
}
