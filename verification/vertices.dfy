/**
 Derivation of the vertex list from the edge list: the distinct non-NaN
 endpoints, in ascending numeric order.
 */
module Vertices {
  import opened Graph

  predicate StrictlyAscending(xs: seq<int>) {
    forall i, j :: 0 <= i < j < |xs| ==> xs[i] < xs[j]
  }

  /** `x` is a non-NaN endpoint of some edge of the list. */
  ghost predicate IsEndpoint(edges: seq<Edge>, x: int) {
    exists e :: e in edges && (e.u == Int(x) || e.v == Int(x))
  }

  /** Adds `x` to an ascending duplicate-free list, like `Set.add` followed by the final sort. */
  function Insert(xs: seq<int>, x: int): (r: seq<int>)
    requires StrictlyAscending(xs)
    ensures StrictlyAscending(r)
    ensures forall y :: y in r <==> y in xs || y == x
  {
    if xs == [] then [x]
    else if x < xs[0] then [x] + xs
    else if x == xs[0] then xs
    else
      var rest := Insert(xs[1..], x);
      assert forall k :: 0 <= k < |rest| ==> xs[0] < rest[k] by {
        forall k | 0 <= k < |rest| ensures xs[0] < rest[k] {
          assert rest[k] in rest;
        }
      }
      [xs[0]] + rest
  }

  /** The `if (!isNaN(n)) set.add(n)` step. */
  function AddEndpoint(xs: seq<int>, n: Num): (r: seq<int>)
    requires StrictlyAscending(xs)
    ensures StrictlyAscending(r)
    ensures forall y :: y in r <==> y in xs || n == Int(y)
  {
    if n.Int? then Insert(xs, n.i) else xs
  }

  /** Visits the edges in list order, adding `u` and then `v` of each. */
  function Collect(acc: seq<int>, edges: seq<Edge>): (r: seq<int>)
    requires StrictlyAscending(acc)
    ensures StrictlyAscending(r)
    ensures forall y :: y in r <==> y in acc || IsEndpoint(edges, y)
    decreases |edges|
  {
    if edges == [] then acc
    else
      var r := Collect(AddEndpoint(AddEndpoint(acc, edges[0].u), edges[0].v), edges[1..]);
      assert forall y :: IsEndpoint(edges, y) <==>
        edges[0].u == Int(y) || edges[0].v == Int(y) || IsEndpoint(edges[1..], y)
      by {
        forall y ensures IsEndpoint(edges, y) ==>
          edges[0].u == Int(y) || edges[0].v == Int(y) || IsEndpoint(edges[1..], y)
        {
          if IsEndpoint(edges, y) {
            var e :| e in edges && (e.u == Int(y) || e.v == Int(y));
            if e != edges[0] {
              assert e in edges[1..];
            }
          }
        }
      }
      r
  }

  /** `getUniqueVertices`: the distinct non-NaN endpoints, strictly ascending. */
  function UniqueVertices(edges: seq<Edge>): (vs: seq<int>)
    ensures StrictlyAscending(vs)
    ensures forall x :: x in vs <==> IsEndpoint(edges, x)
  {
    Collect([], edges)
  }

  /**
   A strictly ascending list is determined by its elements, so the result
   above is the list the source builds with a `Set` and a numeric sort,
   whatever order the endpoints were met in.
   */
  lemma {:induction false} AscendingUnique(a: seq<int>, b: seq<int>)
    requires StrictlyAscending(a) && StrictlyAscending(b)
    requires forall x :: x in a <==> x in b
    ensures a == b
    decreases |a|
  {
    assert |a| > 0 ==> a[0] in a && a[0] in b;
    assert |b| > 0 ==> b[0] in b && b[0] in a;
    if a != [] && b != [] {
      assert a[0] == b[0] by {
        assert a[0] in b && b[0] in a;
      }
      forall x ensures x in a[1..] <==> x in b[1..] {
        if x in a[1..] {
          assert x in b && x != a[0];
        }
        if x in b[1..] {
          assert x in a && x != b[0];
        }
      }
      AscendingUnique(a[1..], b[1..]);
      assert a == [a[0]] + a[1..] && b == [b[0]] + b[1..];
    }
  }

  /** A list without repeats has as many distinct elements as entries. */
  lemma {:induction false} DistinctLength(xs: seq<int>)
    requires forall i, j :: 0 <= i < j < |xs| ==> xs[i] != xs[j]
    ensures |set x | x in xs| == |xs|
  {
    if xs != [] {
      var t := xs[1..];
      DistinctLength(t);
      assert (set x | x in xs) == (set x | x in t) + {xs[0]};
      forall j | 0 <= j < |t|
        ensures t[j] != xs[0]
      {
        assert t[j] == xs[j + 1];
      }
      assert xs[0] !in (set x | x in t);
    }
  }

  /** A strictly ascending list has no repeats, so `V` counts the distinct endpoints. */
  lemma DistinctCard(xs: seq<int>)
    requires StrictlyAscending(xs)
    ensures |set x | x in xs| == |xs|
  {
    DistinctLength(xs);
  }

  /** A distance map with an entry for every listed vertex has one for every integer endpoint. */
  lemma VerticesCover(edges: seq<Edge>, dist: DistMap)
    requires forall v :: v in UniqueVertices(edges) ==> v in dist
    ensures CoversEndpoints(edges, dist)
  {
    forall e | e in edges
      ensures (e.u.Int? ==> e.u.i in dist) && (e.v.Int? ==> e.v.i in dist)
    {
      if e.u.Int? { assert IsEndpoint(edges, e.u.i); }
      if e.v.Int? { assert IsEndpoint(edges, e.v.i); }
    }
  }
}
