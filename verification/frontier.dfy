/**
 The frontier of `runDijkstra`: a plain array of `{ id, dist }` entries that
 is stably sorted by distance before the first entry is shifted off. Each
 entry also carries the number of the push that created it, which the
 source does not store; it only serves to state which of several entries
 with the same distance comes out first.
 */
module Frontier {

  datatype Entry = Entry(id: int, d: int, stamp: nat)

  /** Ascending by distance: the order `pq.sort((a, b) => a.dist - b.dist)` establishes. */
  predicate DistSorted(xs: seq<Entry>) {
    forall i, j :: 0 <= i < j < |xs| ==> xs[i].d <= xs[j].d
  }

  /** Entries with the same distance appear in the order they were pushed. */
  ghost predicate TieOrdered(xs: seq<Entry>) {
    forall i, j :: 0 <= i < j < |xs| && xs[i].d == xs[j].d ==> xs[i].stamp < xs[j].stamp
  }

  /** `a` comes strictly before `b` by distance, and by push order among equal distances. */
  predicate Precedes(a: Entry, b: Entry) {
    a.d < b.d || (a.d == b.d && a.stamp < b.stamp)
  }

  /** Ascending by distance, ties in push order. */
  ghost predicate LexSorted(xs: seq<Entry>) {
    forall i, j :: 0 <= i < j < |xs| ==> Precedes(xs[i], xs[j])
  }

  /** Places `x` in front of the first entry of `ys` that is not closer than `x`. */
  function InsertByDist(x: Entry, ys: seq<Entry>): (r: seq<Entry>)
    ensures |r| == |ys| + 1
    ensures multiset(r) == multiset(ys) + multiset{x}
    ensures forall e :: e in r <==> e == x || e in ys
    ensures DistSorted(ys) ==> DistSorted(r)
  {
    if ys == [] || x.d <= ys[0].d then
      assert DistSorted(ys) ==> DistSorted([x] + ys) by {
        if DistSorted(ys) {
          if ys != [] { HeadLeast(ys); }
          PrependSorted(x, ys);
        }
      }
      [x] + ys
    else
      var rest := InsertByDist(x, ys[1..]);
      assert ys == [ys[0]] + ys[1..];
      assert DistSorted(ys) ==> DistSorted([ys[0]] + rest) by {
        if DistSorted(ys) {
          HeadLeast(ys);
          PrependSorted(ys[0], rest);
        }
      }
      [ys[0]] + rest
  }

  /** In a sorted list the head is the closest entry, and the tail is sorted. */
  lemma HeadLeast(ys: seq<Entry>)
    requires |ys| > 0 && DistSorted(ys)
    ensures forall e :: e in ys ==> ys[0].d <= e.d
    ensures DistSorted(ys[1..])
  {
    forall e | e in ys
      ensures ys[0].d <= e.d
    {
      var m :| 0 <= m < |ys| && ys[m] == e;
    }
  }

  /** An entry no farther than any entry of a sorted list can go in front of it. */
  lemma PrependSorted(y: Entry, rest: seq<Entry>)
    requires DistSorted(rest)
    requires forall e :: e in rest ==> y.d <= e.d
    ensures DistSorted([y] + rest)
  {
    var r := [y] + rest;
    forall i, j | 0 <= i < j < |r|
      ensures r[i].d <= r[j].d
    {
      assert r[j] == rest[j - 1] && rest[j - 1] in rest;
      if i > 0 {
        assert r[i] == rest[i - 1];
      }
    }
  }

  /**
   The stable sort of the frontier by distance (an insertion sort: each
   entry goes in front of every later entry with the same distance).
   */
  function SortByDist(xs: seq<Entry>): (r: seq<Entry>)
    ensures |r| == |xs|
    ensures multiset(r) == multiset(xs)
    ensures DistSorted(r)
  {
    if xs == [] then []
    else
      assert xs == [xs[0]] + xs[1..];
      InsertByDist(xs[0], SortByDist(xs[1..]))
  }

  /** Inserting an entry pushed before every tie of it keeps the list in `Precedes` order. */
  lemma {:induction false} InsertLex(x: Entry, ys: seq<Entry>)
    requires LexSorted(ys)
    requires forall y :: y in ys && y.d == x.d ==> x.stamp < y.stamp
    ensures LexSorted(InsertByDist(x, ys))
    decreases |ys|
  {
    if ys == [] || x.d <= ys[0].d {
      var r := [x] + ys;
      forall i, j | 0 <= i < j < |r|
        ensures Precedes(r[i], r[j])
      {
        if i == 0 {
          assert r[j] == ys[j - 1] && ys[j - 1] in ys;
          assert ys[0].d <= ys[j - 1].d by {
            if j - 1 > 0 { assert Precedes(ys[0], ys[j - 1]); }
          }
        } else {
          assert r[i] == ys[i - 1] && r[j] == ys[j - 1];
        }
      }
    } else {
      assert forall y :: y in ys[1..] ==> y in ys;
      InsertLex(x, ys[1..]);
      var rest := InsertByDist(x, ys[1..]);
      var r := [ys[0]] + rest;
      forall i, j | 0 <= i < j < |r|
        ensures Precedes(r[i], r[j])
      {
        if i == 0 {
          assert r[j] == rest[j - 1];
          assert rest[j - 1] in multiset(ys[1..]) + multiset{x};
          if rest[j - 1] in multiset(ys[1..]) {
            var m :| 0 <= m < |ys[1..]| && ys[1..][m] == rest[j - 1];
            assert ys[1..][m] == ys[m + 1];
          }
        } else {
          assert r[i] == rest[i - 1] && r[j] == rest[j - 1];
        }
      }
    }
  }

  /** On a frontier whose ties are in push order, the stable sort orders by distance, then push order. */
  lemma {:induction false} SortStable(xs: seq<Entry>)
    requires TieOrdered(xs)
    ensures LexSorted(SortByDist(xs))
    decreases |xs|
  {
    if xs != [] {
      var tail := xs[1..];
      assert TieOrdered(tail) by {
        forall i, j | 0 <= i < j < |tail| && tail[i].d == tail[j].d
          ensures tail[i].stamp < tail[j].stamp
        {
          assert tail[i] == xs[i + 1] && tail[j] == xs[j + 1];
        }
      }
      SortStable(tail);
      var sorted := SortByDist(tail);
      forall y | y in sorted && y.d == xs[0].d
        ensures xs[0].stamp < y.stamp
      {
        assert y in multiset(tail);
        var m :| 0 <= m < |tail| && tail[m] == y;
        assert tail[m] == xs[m + 1];
      }
      InsertLex(xs[0], sorted);
    }
  }

  /**
   What `pq.sort(...); pq.shift()` hands back: the first entry of the sorted
   frontier and the remaining entries, still sorted.
   */
  function Extract(pq: seq<Entry>): (r: (Entry, seq<Entry>))
    requires |pq| > 0
    ensures |r.1| == |pq| - 1
    ensures forall e :: e in pq <==> e == r.0 || e in r.1
    ensures forall e :: e in pq ==> r.0.d <= e.d
    ensures DistSorted(r.1)
  {
    var sorted := SortByDist(pq);
    assert sorted == [sorted[0]] + sorted[1..];
    assert forall e :: e in pq <==> e in multiset(sorted);
    (sorted[0], sorted[1..])
  }

  /** The entry shifted off and the rest are exactly the entries of the frontier. */
  lemma ExtractPermutes(pq: seq<Entry>)
    requires |pq| > 0
    ensures multiset(pq) == multiset{Extract(pq).0} + multiset(Extract(pq).1)
  {
    var sorted := SortByDist(pq);
    assert sorted == [sorted[0]] + sorted[1..];
  }

  /**
   When ties are in push order (which the frontier maintains), the entry
   shifted off is the earliest-pushed of the closest entries, and the rest
   keeps ties in push order.
   */
  lemma ExtractEarliest(pq: seq<Entry>)
    requires |pq| > 0 && TieOrdered(pq)
    ensures forall e :: e in pq && e.d == Extract(pq).0.d ==> Extract(pq).0.stamp <= e.stamp
    ensures TieOrdered(Extract(pq).1)
  {
    SortStable(pq);
    var sorted := SortByDist(pq);
    forall e | e in pq && e.d == sorted[0].d
      ensures sorted[0].stamp <= e.stamp
    {
      assert e in multiset(sorted);
      var m :| 0 <= m < |sorted| && sorted[m] == e;
      if m > 0 { assert Precedes(sorted[0], sorted[m]); }
    }
    var rest := sorted[1..];
    forall i, j | 0 <= i < j < |rest| && rest[i].d == rest[j].d
      ensures rest[i].stamp < rest[j].stamp
    {
      assert rest[i] == sorted[i + 1] && rest[j] == sorted[j + 1];
      assert Precedes(sorted[i + 1], sorted[j + 1]);
    }
  }
}
