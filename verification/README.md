# Shortest-path engine of the graph visualiser, in Dafny

The web page (`script.js`) reads a weighted, directed edge list. It derives the
vertex list from the edges. It then runs either Bellman–Ford or Dijkstra from a
chosen source and prints the shortest path to one target, or to every vertex.
This project models the algorithmic core of that page as pure Dafny functions
and proves what the core promises:

- `Parse`: `parseGraphData` at token level. A line with three or more tokens
  gives one edge; shorter lines are skipped.
- `Vertices`: `getUniqueVertices`. It yields the distinct non-NaN endpoints in
  ascending order.
- `Graph`: numbers (`Num`, with NaN), edges, distances with an explicit
  infinity (`Dist`), the shared relaxation test `Improves` and the step `Relax`.
  It also defines the reference notions the engines are judged against: walks,
  walk weights, `Shortest` and `NegativeCycleFrom`.
- `BellmanFord` and `BellmanFordProofs`: `runBellmanFord` without rendering.
  This covers initialisation, up to V−1 rounds with an early stop, and the
  negative-cycle pass. The proofs show two things. Without the flag, the
  distances are the shortest-walk distances. The flag is raised exactly when a
  negative cycle is reachable from the source.
- `Walks`: walk surgery used by the proofs (slicing, repeating a cycle,
  pigeonhole) and the fact that a consistent fixpoint of relaxation holds the
  shortest distances.
- `Frontier`: the `pq` array of `runDijkstra`, stably sorted by distance before
  `shift()`.
- `Dijkstra`, `DijkstraProofs` and `DijkstraTree`: `runDijkstra` without
  rendering. This covers the eager refusal of negative weights, stale-entry
  skipping, duplicate pushes instead of decrease-key, and shortest distances.
  It also covers the counting facts behind `loopCount` and the number of
  pushes, and the tree shape of the parent links.
- `Path`: `getPathString`. The backward walk gets one more step than there are
  parent links, and reports `Diverges` where the page would loop forever.
- `Report`: the path text both engines print at the end.
- `Agreement`: on inputs without negative weights, both engines return the
  same distance map.

Every number is an unbounded integer. `Num.NaN` stands for a failed
`parseInt`, and `Dist.Inf` for `Infinity`. A JavaScript object used as a map
is a Dafny `map`: a vertex missing from `parent` has a `null` (or `undefined`)
parent.

## Model

| member | source | states |
|---|---|---|
| Parse.ParseEdges | script.js:35-45 | At most one edge per line. An edge comes out exactly when some line has at least three tokens and the edge is made of that line's first three. |
| Parse.ParseAppend | script.js:38-44 | Lines are parsed independently and in order: parsing a concatenation of lines concatenates the edge lists. |
| Vertices.UniqueVertices | script.js:54-58 | The vertex list is strictly ascending. It holds `x` exactly when `x` is a non-NaN `u` or `v` endpoint of some edge. |
| Vertices.AscendingUnique | script.js:54-58 | Two strictly ascending lists with the same elements are equal, so the vertex list is determined by the endpoint set alone. |
| Vertices.DistinctCard | script.js:54-58 | A strictly ascending list has no repeats: V equals the number of distinct endpoints. |
| Graph.Relax | script.js:316-321 | The test is `Graph.Improves`, the condition at script.js:316 and 387: both endpoints and the weight are integers, `dist[u]` is finite and `dist[u] + w < dist[v]`. The relaxation either leaves both maps untouched when the test fails, or sets `dist[v]` to `dist[u] + w`, strictly below its old value, and `parent[v]` to `u` in the same step. No key is added and no distance rises. Every other entry is kept. |
| Graph.InitialDist | script.js:257-258 | Initial distances: every vertex plus the source is a key, the source is at 0 and every other key is Infinity. |
| Graph.ConsistentInitial | script.js:257-258 | The initial maps satisfy `Consistent`: only the source is finite and there are no parents. |
| Graph.RelaxConsistent | script.js:316-319 | A relaxation along an edge of the list keeps `Consistent`. Finite exactly when source or parented, every parent link justified by an edge with `dist[v] >= dist[u] + w`, every finite distance the weight of a real walk. |
| BellmanFord.Round | script.js:304-321 | The round's `changeInLoop` flag stays down exactly when no edge passes the relaxation test on the state the round started from. A quiet round changes nothing. |
| BellmanFord.Rounds | script.js:292-381 | At most `remaining` rounds run. Every recorded flag but the last is up. The loop stops early only right after a quiet round, and then no edge can be relaxed. |
| BellmanFord.CycleWitnesses | script.js:384-392 | The detection pass flags exactly the edges that still pass the relaxation test, and reads the maps without changing them. |
| BellmanFord.Run | script.js:251-392 | At most V−1 rounds run, with none for V ≤ 1, in which case the check sees the initial maps (`BellmanFord.Initial`: the distances of `Graph.InitialDist` and no parent, i.e. every `parent[v]` null, as at script.js:257-258). The keys are the vertices plus the source. The flag is up exactly when some edge can still be relaxed, exactly when some edge was flagged. The final maps are `Consistent`. |
| BellmanFord.RoundMonotone | script.js:316-321 | A round keeps the key set and never raises a distance. |
| BellmanFord.RoundFlagMeansDrop | script.js:316-320 | The round flag is up exactly when some distance strictly dropped during the round. |
| BellmanFord.RoundsMonotone | script.js:292-381 | The main loop keeps the key set and never raises a distance. |
| BellmanFord.RoundConsistent | script.js:304-321 | One round keeps the maps `Consistent`. |
| BellmanFord.RoundsConsistent | script.js:292-381 | The whole main loop keeps the maps `Consistent`. |
| BellmanFordProofs.RoundReaches | script.js:304-321 | If `dist[u] <= X` when a round starts, then after the round `dist[v] <= X + w` for every examined edge `(u, v, w)`. |
| BellmanFordProofs.RoundExtends | script.js:304-321 | A round turns a bound on walks of `k` edges into a bound on walks of `k + 1` edges. |
| BellmanFordProofs.QuietRounds | script.js:376-381 | A quiet first round ends the loop on a fixpoint of relaxation. |
| BellmanFordProofs.RoundsExtend | script.js:292-381 | `remaining` rounds extend a bound from `k`-edge walks to `k + remaining`-edge walks. An early stop bounds walks of every length. |
| BellmanFordProofs.RunBounded | script.js:251-381 | The final distances bound every walk of at most V−1 edges, and the source stays at most 0. |
| BellmanFordProofs.RunShortest | script.js:251-392 | Without the flag, every distance is the shortest-walk distance: finite ones are attained by a walk and beaten by none, and infinite ones belong to unreachable vertices. |
| BellmanFordProofs.RunSourceZero | script.js:254-392 | Without the flag, the source ends at distance 0 and without a parent. |
| BellmanFordProofs.RoundSourceGuard | script.js:304-321 | A round keeps the source at most 0, and gives it a parent only when its distance has dropped below 0. |
| BellmanFordProofs.RoundsSourceGuard | script.js:292-381 | The whole main loop keeps the source at most 0, and the source has a parent only when its distance is below 0. |
| BellmanFordProofs.FlagSound | script.js:384-392 | A raised flag means a negative-weight closed walk is reachable from the source. |
| BellmanFordProofs.NoFlagNoCycle | script.js:384-392 | Without the flag, no negative-weight closed walk is reachable from the source. |
| BellmanFordProofs.FlagIffNegativeCycle | script.js:384-392 | The flag is up if and only if a negative cycle is reachable from the source. |
| BellmanFordProofs.StableNoNegativeCycle | script.js:384-392 | A fixpoint of relaxation with the source at most 0 leaves no reachable closed walk of negative weight. |
| Frontier.InsertByDist | script.js:453 | Inserting into the distance-sorted frontier keeps it a permutation plus the new entry, and keeps it sorted. |
| Frontier.SortByDist | script.js:453 | `pq.sort` by `dist` returns a permutation of the frontier in ascending order of distance. |
| Frontier.SortStable | script.js:453 | When ties are in push order, the sorted frontier is ordered by distance, then by push order (the sort is stable). |
| Frontier.InsertLex | script.js:453 | Inserting an entry pushed before all its ties keeps the lexicographic order. |
| Frontier.Extract | script.js:453-454 | `shift()` after the sort hands back an entry of minimum distance. The rest holds every other entry, is one shorter and stays sorted. |
| Frontier.ExtractPermutes | script.js:453-454 | The entry shifted off together with the rest is exactly the old frontier, as a multiset. |
| Frontier.ExtractEarliest | script.js:453-454 | Among entries of equal minimum distance, the earliest pushed comes out first, and the rest keeps ties in push order. |
| Dijkstra.OutEdges | script.js:470 | `edges.filter(e => e.u === u)`: the edges of the list whose `u` is the vertex, no more. |
| Dijkstra.OutEdgesAppend | script.js:470 | The filter keeps list order and duplicates: filtering a concatenation gives the concatenation of the filtered parts. |
| Dijkstra.OutEdgesSingle | script.js:470 | A one-edge list is kept exactly when its edge leaves the vertex. Together with `OutEdgesAppend`, this pins the filtered list to the ordered subsequence of out-edges. |
| Dijkstra.Start | script.js:432-449 | The initial state names only vertices that have a distance entry. |
| Dijkstra.ScanEdge | script.js:471-483 | A neighbour is relaxed exactly when `Dijkstra.Relaxable` holds, the condition at script.js:478: it is unvisited and passes the test `Graph.Improves`. Then `dist`/`parent` change as in `Relax`, the distance strictly drops, one entry `{v, dist[v]}` is pushed and the push count grows by one. Otherwise nothing changes. |
| Dijkstra.Scan | script.js:471-483 | The neighbour loop keeps `visited`, the fixing order and the key set. |
| Dijkstra.Step | script.js:452-483 | A stale entry changes only the frontier. A fresh one adds its vertex to `visited` and to the fixing order (`loopCount++`). |
| Dijkstra.Loop | script.js:452-518 | The loop ends (every pass fixes a new vertex or shrinks the frontier) with an empty frontier and the key set unchanged. |
| Dijkstra.Run | script.js:427-518 | The run is refused exactly when some edge has an integer weight below zero, before any state exists. Otherwise the keys are the vertices plus the source. |
| DijkstraProofs.ScanFrame | script.js:471-483 | The neighbour loop never touches a fixed vertex's distance and never raises a distance. It only appends to the frontier, at most one push per edge, each numbered in order. |
| DijkstraProofs.StartInv | script.js:432-449 | The state before the loop satisfies the loop invariant. |
| DijkstraProofs.FreshEntryExact | script.js:453-458 | An entry shifted off for an unvisited vertex carries exactly that vertex's current distance. |
| DijkstraProofs.StaleStepInv | script.js:457 | Discarding a stale entry keeps the invariant. |
| DijkstraProofs.VisitStepInv | script.js:458-483 | Fixing a fresh vertex and relaxing its out-edges keeps the invariant. |
| DijkstraProofs.StepInv | script.js:452-483 | Every pass keeps the invariant. |
| DijkstraProofs.StepKeepsFixed | script.js:457-483 | A pass never unfixes a vertex and never changes a fixed vertex's distance. |
| DijkstraProofs.LoopInv | script.js:452-518 | The loop keeps the invariant to the end. |
| DijkstraProofs.LoopKeepsFixed | script.js:452-518 | Once fixed, a vertex's distance never changes again. |
| DijkstraProofs.EmptyFrontierStable | script.js:452 | Once the frontier is empty, the fixed vertices are exactly the finite ones and no edge can be relaxed. |
| DijkstraProofs.RunShortest | script.js:427-518 | Unless refused, the final maps are `Consistent`, the source is at 0 without a parent, and every distance is the shortest-walk distance. |
| DijkstraProofs.RunCounts | script.js:449-481 | Every vertex is fixed at most once, so `loopCount` is at most the number of keys. Exactly the finite vertices get fixed, in non-decreasing order of distance. At most `1 + |edges|` entries are ever pushed. |
| DijkstraTree.StepOrdered | script.js:452-483 | A pass keeps every parent fixed before its child. |
| DijkstraTree.LoopOrdered | script.js:452-518 | The whole loop keeps every parent fixed before its child. |
| DijkstraTree.RunParentsEarlier | script.js:478-481 | After the run, every parented vertex was fixed, and after its parent. |
| DijkstraTree.PathIffReached | script.js:570-593 | After `runDijkstra`, `getPathString` never hangs. It yields a path exactly for targets with a finite distance and "no path" for all others. |
| Path.GetPathString | script.js:570-593 | `s == t` gives `[s]`. A target without a parent gives "no path". A returned vertex list starts at the source, ends at the target, and each vertex's parent is its predecessor in the list. |
| Path.TraceBack | script.js:583-587 | The backward `while` loop with a step budget. A walk that ends lists at most `fuel` vertices and ends at the start vertex. If it reached the source, the list begins at the source. If it got stuck, the list begins at a vertex without a parent that is not the source. |
| Path.TraceReached | script.js:583-587 | A backward walk that reaches the source has produced a chain of parent links from the source to the start. |
| Path.TraceFollowsChain | script.js:583-590 | Given enough steps, the backward walk retraces any chain of parent links from the source exactly. |
| Path.ChainFound | script.js:570-593 | Whenever a chain of parent links leads from source to target, `getPathString` returns exactly that chain. |
| Path.PathIffChain | script.js:570-593 | `getPathString` yields a vertex list if and only if such a chain exists, and the chain is unique. |
| Path.DivergesMeansCycle | script.js:583-587 | Where the model reports `Diverges`, the parent links from the target lead back into a loop that avoids the source, so the page's loop really never ends there. |
| Path.NoPathIffDeadEnd | script.js:577-590 | "No path" comes out exactly when the parent links from the target reach a vertex without a parent before they meet the source. |
| Path.StuckMeansNoPath | script.js:577-590 | When the parent links from the target reach a vertex without a parent and never meet the source, the result is "no path", never a hang. |
| Path.TraceStuck | script.js:583-587 | A backward walk that stops at a vertex without a parent has followed parent links from that vertex to the start, never meeting the source. |
| Path.NoPathIffUnreached | script.js:576-590 | On maps satisfying `Consistent`, "no path" is printed exactly for the targets without a finite distance. |
| Path.RankedNeverDiverges | script.js:583-587 | If parents always come earlier in some vertex order, the backward walk always ends. |
| Path.ChainWalk | script.js:583-587 | A chain of justified parent links is a walk along edges of the list, weighing at most the rise in distance along it. |
| Path.PathIsShortest | script.js:570-593 | With shortest distances and the source at 0, the printed vertex list follows list edges and weighs exactly the target's distance. |
| Report.Others | script.js:419-421 | The "all" target prints every vertex except the source, in ascending order. |
| Report.Targets | script.js:416-421 | One chosen target, or every vertex but the source. |
| Report.Lines | script.js:419-421 | One printed line per target, in the order of the targets, each for its own target. |
| Report.LinesResult | script.js:419-421 | Every printed line holds what `getPathString` returns for its target (the same loop appears for Dijkstra at script.js:531-533). |
| Report.BellmanFordReport | script.js:407-424 | Paths are printed exactly when the negative-cycle flag is down, one line per target. |
| Report.DijkstraReport | script.js:427-535 | Nothing is printed exactly when the run is refused. Otherwise there is one line per target. |
| Report.BellmanFordLines | script.js:414-421 | In the Bellman–Ford text, "no path" appears exactly for targets without a finite distance, and each printed path is a chain of parent links from the source. |
| Report.DijkstraLines | script.js:527-533 | In the Dijkstra text, each target gets a path exactly when its distance is finite, and "no path" otherwise. |
| Report.BellmanFordPathsShortest | script.js:416-421 | Each printed Bellman–Ford path is a shortest walk to its target. |
| Report.DijkstraPathsShortest | script.js:527-533 | Each printed Dijkstra path is a shortest walk to its target. |
| Agreement.EnginesAgree | script.js:251-536 | Without negative weights, Dijkstra is not refused, Bellman–Ford raises no flag, and both final distance maps are equal. |

## Behaviour of the code worth noting

- The source is never checked against the vertex list. `dist[source] = 0`
  is set unconditionally (script.js:258, 436), so the model has no
  precondition on the source, and its key set is the vertices plus the
  source.
- A negative cycle through the source lowers `dist[source]` in
  Bellman–Ford and sets `parent[source]` (script.js:316-319). The model
  keeps that behaviour. `BellmanFordProofs.RunSourceZero` proves the source
  ends at 0 only when the flag is down.
- Dijkstra sorts the frontier with the stable `Array.prototype.sort` and
  takes the first entry (script.js:453-454). Among tied entries, the one
  pushed first wins (`Frontier.ExtractEarliest`).
- Dijkstra's test `dist[u] + e.w < dist[v]` (script.js:478) lacks
  Bellman–Ford's `dist[u] !== Infinity` guard (script.js:316). A fixed vertex
  always has a finite distance, so both engines share one test,
  `Graph.Improves`.

## Left out

- DOM, SVG and table rendering are left out: `formatVal`, `highlightEdgeAndNodes`, `highlightFinalPath` (both definitions), row building and colours. None of them touches algorithm state.
- `sleep`, `await` and `scrollIntoView` only pace the animation.
- File reading (`handleFileUpload`) and the raw `split`/`parseInt` semantics are left out. A line is modelled as the already-tokenised list of `parseInt` results.
- The edge-table editors `addNewEdge`, `removeEdge` and `updateEdgeValue` are left out, along with runs that interleave. The model assumes the edge list and the vertex list stay fixed for the length of a run. The page does not enforce this: both engines `await` inside their loops, and an edit or a second run can change `edges` and `uniqueVertices` meanwhile.
- JavaScript floating-point arithmetic is left out. Weights and distances are unbounded integers, and NaN appears only as a failed parse. An edge with a NaN field never passes either relaxation test, as in the code.
- The text of the result (`path.join(" ➝ ")`, the messages) is left out. `getPathString` returns the vertex list or `NoPath`.
- Path.GetPathString: the model's walk has `|parent| + 1` steps. The page's loop has no bound, and on a parent loop that avoids the source it never returns; there the model reports `Diverges`. `Path.DivergesMeansCycle` shows this happens only when the parent links from the target run into such a loop. `Path.NoPathIffDeadEnd` shows a walk that stops at a vertex without a parent always gives "no path". `DijkstraTree.PathIffReached` shows it never happens after Dijkstra.
- Report.BellmanFordLines: does not exclude `Diverges` after a Bellman–Ford run without the flag. That needs the parent links to form a tree, which is not proved for Bellman–Ford. When some target would diverge, the page prints no path text at all. The active `highlightFinalPath` (script.js:632-675) runs before `getPathString` (script.js:413, 526) and loops forever on the same parent loop. The model's one line per target describes the text only for runs where no target diverges.
- Frontier.Extract: each entry also carries its push number (`stamp`). The page does not store it. It only serves to state which of several tied entries comes out first.
- Dijkstra.Run: the final `loopCount` is the length of the returned fixing order.
- A NaN source is not modelled (the source is an `int`). It arises only when the vertex list is empty: the source selector then has no option (script.js:78), and `parseInt("")` gives NaN. The page would then store `dist["NaN"] = 0`, so edges with unparsable endpoints would take part in the relaxations and the negative-cycle check.
- The page's target selector yields `parseInt(target)` or `'all'`. The model takes the parsed integer, or `All`.
