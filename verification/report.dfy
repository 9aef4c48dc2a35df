/**
 The path text both engines print at the end: nothing when Bellman–Ford
 has flagged a negative cycle, otherwise one `getPathString` result for the
 chosen target, or one per vertex other than the source when the target is
 "all". Dijkstra prints nothing at all when it refuses the edge list.
 */
module Report {
  import opened Graph
  import opened Vertices
  import opened Path
  import BellmanFord
  import BellmanFordProofs
  import Dijkstra
  import DijkstraProofs
  import DijkstraTree

  /** The target selector: one vertex, or `'all'`. */
  datatype Target = One(t: int) | All

  /** One printed line: a target and what `getPathString` said about it. */
  datatype Line = Line(target: int, result: PathResult)

  datatype Report =
    | NegativeCycleFound   // Bellman–Ford: the flag is up, no path is printed
    | Refused              // Dijkstra: a negative weight, nothing runs
    | Paths(lines: seq<Line>)

  /** `uniqueVertices` without the source, in their order. */
  function Others(vs: seq<int>, s: int): (ts: seq<int>)
    ensures |ts| <= |vs|
    ensures forall x :: x in ts <==> x in vs && x != s
    ensures StrictlyAscending(vs) ==> StrictlyAscending(ts)
  {
    if vs == [] then []
    else
      var rest := Others(vs[1..], s);
      assert forall x :: x in vs <==> x == vs[0] || x in vs[1..];
      assert StrictlyAscending(vs) ==> StrictlyAscending([vs[0]] + rest) by {
        if StrictlyAscending(vs) {
          assert StrictlyAscending(vs[1..]);
          var r := [vs[0]] + rest;
          forall i, j | 0 <= i < j < |r|
            ensures r[i] < r[j]
          {
            assert r[j] == rest[j - 1] && rest[j - 1] in vs[1..];
            if i > 0 {
              assert r[i] == rest[i - 1];
            } else {
              var k :| 0 <= k < |vs[1..]| && vs[1..][k] == r[j];
              assert r[j] == vs[k + 1];
            }
          }
        }
      }
      if vs[0] == s then rest else [vs[0]] + rest
  }

  /** The vertices whose paths are printed. */
  function Targets(vs: seq<int>, s: int, target: Target): (ts: seq<int>)
    ensures target.One? ==> ts == [target.t]
    ensures target.All? ==> forall x :: x in ts <==> x in vs && x != s
    ensures target.All? && StrictlyAscending(vs) ==> StrictlyAscending(ts)
  {
    match target
    case One(t) => [t]
    case All => Others(vs, s)
  }

  /** `getPathString` for each target in turn. */
  function Lines(parent: ParentMap, s: int, ts: seq<int>): (ls: seq<Line>)
    ensures |ls| == |ts|
    ensures forall i :: 0 <= i < |ls| ==> ls[i].target == ts[i]
    decreases |ts|
  {
    if ts == [] then [] else [Line(ts[0], GetPathString(parent, s, ts[0]))] + Lines(parent, s, ts[1..])
  }

  /** Every line of `Lines` holds the result of `getPathString` for its target. */
  lemma {:induction false} LinesResult(parent: ParentMap, s: int, ts: seq<int>)
    ensures forall l :: l in Lines(parent, s, ts) ==> l.result == GetPathString(parent, s, l.target)
    decreases |ts|
  {
    if ts != [] {
      LinesResult(parent, s, ts[1..]);
    }
  }

  /** The end of `runBellmanFord`: the flag suppresses all paths. */
  function BellmanFordReport(edges: seq<Edge>, s: int, target: Target): (r: Report)
    ensures !r.Refused?
    ensures r.NegativeCycleFound? <==> BellmanFord.Run(edges, s).negativeCycle
    ensures r.Paths? ==> |r.lines| == |Targets(UniqueVertices(edges), s, target)|
  {
    var res := BellmanFord.Run(edges, s);
    if res.negativeCycle then NegativeCycleFound
    else Paths(Lines(res.parent, s, Targets(UniqueVertices(edges), s, target)))
  }

  /** The end of `runDijkstra`. */
  function DijkstraReport(edges: seq<Edge>, s: int, target: Target): (r: Report)
    ensures !r.NegativeCycleFound?
    ensures r.Refused? <==> exists e :: e in edges && e.w.Int? && e.w.i < 0
    ensures r.Paths? ==> |r.lines| == |Targets(UniqueVertices(edges), s, target)|
  {
    match Dijkstra.Run(edges, s)
    case NegativeWeightRejected => Refused
    case Done(_, parent, _, _) => Paths(Lines(parent, s, Targets(UniqueVertices(edges), s, target)))
  }

  /**
   What the Bellman–Ford path text says when it is printed: "no path"
   exactly for the targets without a finite distance, and otherwise a
   chain of parent links from the source.
   */
  lemma BellmanFordLines(edges: seq<Edge>, s: int, target: Target)
    requires BellmanFordReport(edges, s, target).Paths?
    ensures var res := BellmanFord.Run(edges, s);
      forall l :: l in BellmanFordReport(edges, s, target).lines ==>
        && (l.result.NoPath? <==> !(l.target in res.dist && res.dist[l.target].Fin?))
        && (l.result.Path? ==> Chain(res.parent, s, l.target, l.result.vertices))
  {
    var res := BellmanFord.Run(edges, s);
    LinesResult(res.parent, s, Targets(UniqueVertices(edges), s, target));
    forall l | l in BellmanFordReport(edges, s, target).lines
      ensures l.result.NoPath? <==> !(l.target in res.dist && res.dist[l.target].Fin?)
    {
      NoPathIffUnreached(edges, s, res.dist, res.parent, l.target);
    }
  }

  /**
   What the Dijkstra path text says: a path exactly for the targets with a
   finite distance, "no path" for all others, never a hang.
   */
  lemma DijkstraLines(edges: seq<Edge>, s: int, target: Target)
    requires DijkstraReport(edges, s, target).Paths?
    ensures var res := Dijkstra.Run(edges, s);
      forall l :: l in DijkstraReport(edges, s, target).lines ==>
        && (l.result.Path? <==> l.target in res.dist && res.dist[l.target].Fin?)
        && (l.result.NoPath? <==> !(l.target in res.dist && res.dist[l.target].Fin?))
  {
    var res := Dijkstra.Run(edges, s);
    LinesResult(res.parent, s, Targets(UniqueVertices(edges), s, target));
    forall l | l in DijkstraReport(edges, s, target).lines
      ensures l.result.Path? <==> l.target in res.dist && res.dist[l.target].Fin?
      ensures l.result.NoPath? <==> !(l.target in res.dist && res.dist[l.target].Fin?)
    {
      DijkstraTree.PathIffReached(edges, s, l.target);
    }
  }

  /**
   Each path the Bellman–Ford text prints follows edges of the list and
   weighs exactly the target's final distance.
   */
  lemma BellmanFordPathsShortest(edges: seq<Edge>, s: int, t: int, p: seq<int>) returns (q: seq<Edge>)
    requires !BellmanFord.Run(edges, s).negativeCycle
    requires GetPathString(BellmanFord.Run(edges, s).parent, s, t) == Path(p)
    ensures IsWalk(edges, s, t, q) && |q| == |p| - 1
    ensures forall k :: 0 <= k < |q| ==> q[k].u == Int(p[k]) && q[k].v == Int(p[k + 1])
    ensures t in BellmanFord.Run(edges, s).dist && BellmanFord.Run(edges, s).dist[t] == Fin(WalkWeight(q))
  {
    var res := BellmanFord.Run(edges, s);
    BellmanFordProofs.RunShortest(edges, s);
    BellmanFordProofs.RunSourceZero(edges, s);
    q := PathIsShortest(edges, s, res.dist, res.parent, t, p);
  }

  /**
   Each path the Dijkstra text prints follows edges of the list and weighs
   exactly the target's final distance.
   */
  lemma DijkstraPathsShortest(edges: seq<Edge>, s: int, t: int, p: seq<int>) returns (q: seq<Edge>)
    requires Dijkstra.Run(edges, s).Done?
    requires GetPathString(Dijkstra.Run(edges, s).parent, s, t) == Path(p)
    ensures IsWalk(edges, s, t, q) && |q| == |p| - 1
    ensures forall k :: 0 <= k < |q| ==> q[k].u == Int(p[k]) && q[k].v == Int(p[k + 1])
    ensures t in Dijkstra.Run(edges, s).dist && Dijkstra.Run(edges, s).dist[t] == Fin(WalkWeight(q))
  {
    var res := Dijkstra.Run(edges, s);
    DijkstraProofs.RunShortest(edges, s);
    q := PathIsShortest(edges, s, res.dist, res.parent, t, p);
  }
}
