/**
 Edge-list parsing at token level: each line is the list of numbers that
 `parseInt` made of its whitespace-separated tokens.
 */
module Parse {
  import opened Graph

  type Line = seq<Num>

  /** A line with at least three tokens gives the edge made of its first three. */
  function LineEdges(line: Line): seq<Edge> {
    if |line| >= 3 then [Edge(line[0], line[1], line[2])] else []
  }

  /** `e` is the edge made of the first three tokens of some line of `lines`. */
  ghost predicate FromSomeLine(lines: seq<Line>, e: Edge) {
    exists k :: 0 <= k < |lines| && |lines[k]| >= 3 && e == Edge(lines[k][0], lines[k][1], lines[k][2])
  }

  /** `parseGraphData`: the edges of the lines, in line order; short lines are skipped. */
  function ParseEdges(lines: seq<Line>): (edges: seq<Edge>)
    ensures |edges| <= |lines|
    ensures forall e :: e in edges <==> FromSomeLine(lines, e)
  {
    if lines == [] then []
    else
      var rest := ParseEdges(lines[1..]);
      assert forall e :: FromSomeLine(lines, e) <==> e in LineEdges(lines[0]) || FromSomeLine(lines[1..], e) by {
        forall e | FromSomeLine(lines, e) && e !in LineEdges(lines[0])
          ensures FromSomeLine(lines[1..], e)
        {
          var k :| 0 <= k < |lines| && |lines[k]| >= 3 && e == Edge(lines[k][0], lines[k][1], lines[k][2]);
          assert lines[1..][k - 1] == lines[k];
        }
        forall e | FromSomeLine(lines[1..], e)
          ensures FromSomeLine(lines, e)
        {
          var k :| 0 <= k < |lines[1..]| && |lines[1..][k]| >= 3 &&
                   e == Edge(lines[1..][k][0], lines[1..][k][1], lines[1..][k][2]);
          assert lines[1..][k] == lines[k + 1];
        }
      }
      LineEdges(lines[0]) + rest
  }

  /** Parsing distributes over concatenation of the input: lines are independent. */
  lemma {:induction false} ParseAppend(a: seq<Line>, b: seq<Line>)
    ensures ParseEdges(a + b) == ParseEdges(a) + ParseEdges(b)
  {
    if a == [] {
      assert a + b == b;
    } else {
      assert (a + b)[0] == a[0] && (a + b)[1..] == a[1..] + b;
      ParseAppend(a[1..], b);
    }
  }
}
