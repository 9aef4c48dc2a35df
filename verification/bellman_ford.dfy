/**
 The state logic of `runBellmanFord`: initialisation, up to V-1 rounds that
 relax every edge in list order with an early stop after a quiet round, and
 one extra pass over the edges that flags a negative cycle.
 */
module BellmanFord {
  import opened Graph
  import opened Vertices

  datatype State = State(dist: DistMap, parent: ParentMap)

  /** `dist[v] = Infinity` and `parent[v] = null` for every vertex, then `dist[source] = 0`. */
  function Initial(vs: seq<int>, s: int): State {
    State(InitialDist(vs, s), map[])
  }

  /**
   One round: every edge of `es`, in order, goes through the relaxation test.
   The flag is `changeInLoop`. It stays down exactly when no edge passes the
   test on the state the round started from, and then nothing changed at all.
   */
  function Round(st: State, es: seq<Edge>): (r: (State, bool))
    ensures !r.1 <==> Stable(es, st.dist)
    ensures !r.1 ==> r.0 == st
    decreases |es|
  {
    if es == [] then (st, false)
    else
      var (d1, p1) := Relax(st.dist, st.parent, es[0]);
      var (st2, changed) := Round(State(d1, p1), es[1..]);
      assert forall e :: e in es <==> e == es[0] || e in es[1..];
      (st2, changed || Improves(st.dist, es[0]))
  }

  /**
   The main loop from round `k` on, `remaining` rounds at most. The result
   carries the `changeInLoop` flag of every round that ran: all of them are
   raised except perhaps the last, and the loop ends early only right after
   a round with the flag down, which leaves a state no edge can improve.
   */
  function Rounds(st: State, edges: seq<Edge>, remaining: nat): (r: (State, seq<bool>))
    ensures |r.1| <= remaining
    ensures forall i :: 0 <= i < |r.1| - 1 ==> r.1[i]
    ensures |r.1| < remaining ==> |r.1| > 0 && !r.1[|r.1| - 1]
    ensures |r.1| > 0 && !r.1[|r.1| - 1] ==> Stable(edges, r.0.dist)
    decreases remaining
  {
    if remaining == 0 then (st, [])
    else
      var (st1, changed) := Round(st, edges);
      if !changed then (st1, [false])
      else
        var (st2, flags) := Rounds(st1, edges, remaining - 1);
        (st2, [true] + flags)
  }

  /**
   The negative-cycle pass: the edges that still pass the relaxation test,
   in list order (the source colours each of them red). It reads the maps
   and changes neither.
   */
  function CycleWitnesses(dist: DistMap, es: seq<Edge>): (ws: seq<Edge>)
    ensures |ws| <= |es|
    ensures forall e :: e in ws <==> e in es && Improves(dist, e)
    decreases |es|
  {
    if es == [] then []
    else
      assert forall e :: e in es <==> e == es[0] || e in es[1..];
      (if Improves(dist, es[0]) then [es[0]] else []) + CycleWitnesses(dist, es[1..])
  }

  /** The number of rounds the main loop may run: `for (k = 1; k <= V - 1; k++)`. */
  function RoundLimit(vs: seq<int>): nat {
    if |vs| >= 1 then |vs| - 1 else 0
  }

  datatype Result = Result(
    dist: DistMap,
    parent: ParentMap,
    rounds: seq<bool>,        // the `changeInLoop` flag of every round that ran
    cycleEdges: seq<Edge>,    // the edges flagged by the negative-cycle pass
    negativeCycle: bool)

  /**
   `runBellmanFord` without its rendering. The rounds stay within V-1, with
   no round at all when V <= 1 (the check then sees the initial maps); the
   flag is raised exactly when some edge can still be relaxed after the main
   loop; the returned maps are consistent in the sense of `Consistent`.
   */
  function Run(edges: seq<Edge>, s: int): (r: Result)
    ensures |r.rounds| <= RoundLimit(UniqueVertices(edges))
    ensures |UniqueVertices(edges)| <= 1 ==>
      r.rounds == [] && State(r.dist, r.parent) == Initial(UniqueVertices(edges), s)
    ensures r.dist.Keys == (set v | v in UniqueVertices(edges)) + {s}
    ensures r.negativeCycle <==> !Stable(edges, r.dist)
    ensures r.negativeCycle <==> |r.cycleEdges| > 0
    ensures Consistent(edges, s, r.dist, r.parent)
  {
    var vs := UniqueVertices(edges);
    var init := Initial(vs, s);
    var (st, flags) := Rounds(init, edges, RoundLimit(vs));
    ConsistentInitial(edges, s, init.dist);
    RoundsConsistent(edges, s, init, RoundLimit(vs));
    RoundsMonotone(init, edges, RoundLimit(vs));
    var ws := CycleWitnesses(st.dist, edges);
    assert |ws| > 0 <==> !Stable(edges, st.dist) by {
      if |ws| > 0 { assert ws[0] in ws; }
    }
    Result(st.dist, st.parent, flags, ws, |ws| > 0)
  }

  // ---------------------------------------------------------------------------
  // What the rounds keep: the key set, monotone distances, consistency.
  // ---------------------------------------------------------------------------

  /** A round keeps the key set of `dist` and never raises a distance. */
  lemma {:induction false} RoundMonotone(st: State, es: seq<Edge>)
    ensures Round(st, es).0.dist.Keys == st.dist.Keys
    ensures forall x :: x in st.dist ==> AtMost(Round(st, es).0.dist[x], st.dist[x])
    decreases |es|
  {
    if es != [] {
      var (d1, p1) := Relax(st.dist, st.parent, es[0]);
      RoundMonotone(State(d1, p1), es[1..]);
    }
  }

  /** A raised round flag means some distance strictly dropped during the round. */
  lemma {:induction false} RoundFlagMeansDrop(st: State, es: seq<Edge>)
    ensures Round(st, es).1 <==> exists x :: x in st.dist && x in Round(st, es).0.dist && Below(Round(st, es).0.dist[x], st.dist[x])
    decreases |es|
  {
    if es != [] {
      var (d1, p1) := Relax(st.dist, st.parent, es[0]);
      var st1 := State(d1, p1);
      var r := Round(st1, es[1..]);
      RoundMonotone(st1, es[1..]);
      if Improves(st.dist, es[0]) {
        var v := es[0].v.i;
        assert AtMost(r.0.dist[v], d1[v]);
        assert Below(Round(st, es).0.dist[v], st.dist[v]);
      } else {
        RoundFlagMeansDrop(st1, es[1..]);
      }
    }
  }

  /** The main loop keeps the key set of `dist` and never raises a distance. */
  lemma {:induction false} RoundsMonotone(st: State, edges: seq<Edge>, remaining: nat)
    ensures Rounds(st, edges, remaining).0.dist.Keys == st.dist.Keys
    ensures forall x :: x in st.dist ==> AtMost(Rounds(st, edges, remaining).0.dist[x], st.dist[x])
    decreases remaining
  {
    if remaining > 0 {
      var (st1, changed) := Round(st, edges);
      RoundMonotone(st, edges);
      if changed {
        RoundsMonotone(st1, edges, remaining - 1);
      }
    }
  }

  lemma {:induction false} RoundConsistent(edges: seq<Edge>, s: int, st: State, es: seq<Edge>)
    requires Consistent(edges, s, st.dist, st.parent)
    requires forall e :: e in es ==> e in edges
    ensures Consistent(edges, s, Round(st, es).0.dist, Round(st, es).0.parent)
    decreases |es|
  {
    if es != [] {
      RelaxConsistent(edges, s, st.dist, st.parent, es[0]);
      var (d1, p1) := Relax(st.dist, st.parent, es[0]);
      RoundConsistent(edges, s, State(d1, p1), es[1..]);
    }
  }

  /** Every round of the main loop keeps the maps consistent. */
  lemma {:induction false} RoundsConsistent(edges: seq<Edge>, s: int, st: State, remaining: nat)
    requires Consistent(edges, s, st.dist, st.parent)
    ensures Consistent(edges, s, Rounds(st, edges, remaining).0.dist, Rounds(st, edges, remaining).0.parent)
    decreases remaining
  {
    if remaining > 0 {
      var (st1, changed) := Round(st, edges);
      RoundConsistent(edges, s, st, edges);
      if changed {
        RoundsConsistent(edges, s, st1, remaining - 1);
      }
    }
  }
}
