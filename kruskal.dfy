/**
 * The Kruskal pass of printStudentZone: candidate edges are (weight, a, b)
 * triples sorted as std::tuple compares them; an edge is accepted when its
 * endpoints are still in different parts of the union-find, and its weight
 * is then added to the cost.
 */
module SpanningForest {
  import opened Ordering
  import opened DisjointSets

  /** A candidate edge: weight, smaller endpoint, larger endpoint. */
  type Triple = (nat, int, int)

  /** std::tuple's operator<=: lexicographic on weight, then a, then b. */
  predicate TripleLe(x: Triple, y: Triple) {
    x.0 < y.0 || (x.0 == y.0 && (x.1 < y.1 || (x.1 == y.1 && x.2 <= y.2)))
  }

  /** The tuple order is total and antisymmetric, so std::sort's result is unique. */
  lemma TripleLeIsTotalOrder()
    ensures IsTotalPreorder(TripleLe) && IsAntisymmetric(TripleLe)
  {
  }

  // ---------------------------------------------------------------------
  // The reference: which edges the scan accepts, and the partition after it
  // ---------------------------------------------------------------------

  /** The edges accepted scanning in order from the partition lab. */
  function Accepted(edges: seq<Triple>, lab: map<int, int>): seq<Triple>
    decreases |edges|
  {
    if edges == [] then []
    else
      var t := edges[0];
      if LabelOf(lab, t.1) != LabelOf(lab, t.2) then [t] + Accepted(edges[1..], Merge(lab, t.1, t.2))
      else Accepted(edges[1..], lab)
  }

  /** The partition after the scan. */
  function FinalLabels(edges: seq<Triple>, lab: map<int, int>): map<int, int>
    decreases |edges|
  {
    if edges == [] then lab
    else
      var t := edges[0];
      if LabelOf(lab, t.1) != LabelOf(lab, t.2) then FinalLabels(edges[1..], Merge(lab, t.1, t.2))
      else FinalLabels(edges[1..], lab)
  }

  function Weight(ts: seq<Triple>): nat {
    if ts == [] then 0 else ts[0].0 + Weight(ts[1..])
  }

  // ---------------------------------------------------------------------
  // Properties of the reference
  // ---------------------------------------------------------------------

  /** The accepted edges are a sub-sequence of the candidates: every one is a candidate. */
  lemma {:induction false} AcceptedAreCandidates(edges: seq<Triple>, lab: map<int, int>)
    ensures |Accepted(edges, lab)| <= |edges|
    ensures forall t :: t in Accepted(edges, lab) ==> t in edges
    decreases |edges|
  {
    if edges != [] {
      var t := edges[0];
      var lab' := if LabelOf(lab, t.1) != LabelOf(lab, t.2) then Merge(lab, t.1, t.2) else lab;
      AcceptedAreCandidates(edges[1..], lab');
    }
  }

  /** The parts of a partition that the elements of nodes fall into. */
  ghost function Parts(lab: map<int, int>, nodes: set<int>): set<int> {
    set y | y in nodes :: LabelOf(lab, y)
  }

  /** Joining two different parts removes exactly one part. */
  lemma MergeParts(lab: map<int, int>, nodes: set<int>, a: int, b: int)
    requires a in nodes && b in nodes && LabelOf(lab, a) != LabelOf(lab, b)
    ensures LabelOf(lab, a) in Parts(lab, nodes)
    ensures Parts(Merge(lab, a, b), nodes) == Parts(lab, nodes) - {LabelOf(lab, a)}
  {
    var la, lb := LabelOf(lab, a), LabelOf(lab, b);
    var p, p' := Parts(lab, nodes), Parts(Merge(lab, a, b), nodes);
    assert LabelOf(Merge(lab, a, b), b) == lb;
    forall z | z in p - {la} ensures z in p' {
      var y :| y in nodes && LabelOf(lab, y) == z;
      assert LabelOf(Merge(lab, a, b), y) == z;
    }
  }

  /**
   * The accepted edges form a forest: each one joins two parts, so the
   * number accepted plus the number of parts left is the number of parts
   * at the start.
   */
  lemma {:induction false} AcceptedIsForest(edges: seq<Triple>, lab: map<int, int>, nodes: set<int>)
    requires forall t :: t in edges ==> t.1 in nodes && t.2 in nodes
    ensures |Accepted(edges, lab)| + |Parts(FinalLabels(edges, lab), nodes)| == |Parts(lab, nodes)|
    decreases |edges|
  {
    if edges != [] {
      var t := edges[0];
      assert t in edges;
      if LabelOf(lab, t.1) != LabelOf(lab, t.2) {
        MergeParts(lab, nodes, t.1, t.2);
        AcceptedIsForest(edges[1..], Merge(lab, t.1, t.2), nodes);
      } else {
        AcceptedIsForest(edges[1..], lab, nodes);
      }
    }
  }

  /** Starting from singletons, at most |nodes| - 1 edges are accepted over a non-empty node set. */
  lemma AcceptedBound(edges: seq<Triple>, nodes: set<int>)
    requires forall t :: t in edges ==> t.1 in nodes && t.2 in nodes
    ensures nodes == {} ==> Accepted(edges, map[]) == []
    ensures nodes != {} ==> |Accepted(edges, map[])| <= |nodes| - 1
  {
    AcceptedIsForest(edges, map[], nodes);
    var start := Parts(map[], nodes);
    assert start == nodes by {
      forall y | y in nodes ensures y in start {
        assert LabelOf(map[], y) == y;
      }
    }
    if nodes != {} {
      var y :| y in nodes;
      assert LabelOf(FinalLabels(edges, map[]), y) in Parts(FinalLabels(edges, map[]), nodes);
    } else if edges != [] {
      assert edges[0] in edges;
    }
  }

  /** Two elements in one part stay in one part through the scan. */
  lemma {:induction false} FinalLabelsKeepTogether(edges: seq<Triple>, lab: map<int, int>, x: int, y: int)
    requires LabelOf(lab, x) == LabelOf(lab, y)
    ensures LabelOf(FinalLabels(edges, lab), x) == LabelOf(FinalLabels(edges, lab), y)
    decreases |edges|
  {
    if edges != [] {
      var t := edges[0];
      if LabelOf(lab, t.1) != LabelOf(lab, t.2) {
        FinalLabelsKeepTogether(edges[1..], Merge(lab, t.1, t.2), x, y);
      } else {
        FinalLabelsKeepTogether(edges[1..], lab, x, y);
      }
    }
  }

  /** After the scan the two endpoints of every candidate are in one part: the forest spans them. */
  lemma {:induction false} AcceptedSpans(edges: seq<Triple>, lab: map<int, int>)
    ensures forall t :: t in edges ==>
      LabelOf(FinalLabels(edges, lab), t.1) == LabelOf(FinalLabels(edges, lab), t.2)
    decreases |edges|
  {
    if edges != [] {
      var t := edges[0];
      var lab' := if LabelOf(lab, t.1) != LabelOf(lab, t.2) then Merge(lab, t.1, t.2) else lab;
      assert LabelOf(lab', t.1) == LabelOf(lab', t.2);
      AcceptedSpans(edges[1..], lab');
      FinalLabelsKeepTogether(edges[1..], lab', t.1, t.2);
      assert FinalLabels(edges, lab) == FinalLabels(edges[1..], lab');
      forall s | s in edges
        ensures LabelOf(FinalLabels(edges, lab), s.1) == LabelOf(FinalLabels(edges, lab), s.2)
      {
        if s != t {
          assert s in edges[1..];
        }
      }
    }
  }

  // ---------------------------------------------------------------------
  // The scan itself
  // ---------------------------------------------------------------------

  /** The Kruskal loop over the union-find: the cost and the number of accepted edges. */
  method Kruskal(edges: seq<Triple>) returns (total: int, count: int)
    ensures total == Weight(Accepted(edges, map[]))
    ensures count == |Accepted(edges, map[])|
  {
    var uf := new UnionFind();
    ghost var lab: map<int, int> := map[];
    total, count := 0, 0;
    var i := 0;
    while i < |edges|
      invariant 0 <= i <= |edges|
      invariant uf.Valid()
      invariant forall y :: uf.Label(y) == LabelOf(lab, y)
      invariant total + Weight(Accepted(edges[i..], lab)) == Weight(Accepted(edges, map[]))
      invariant count + |Accepted(edges[i..], lab)| == |Accepted(edges, map[])|
    {
      var (w, a, b) := edges[i];
      assert edges[i..][0] == edges[i] && edges[i..][1..] == edges[i + 1..];
      var ra := uf.Find(a);
      var rb := uf.Find(b);
      if ra != rb {
        uf.Unite(a, b);
        lab := Merge(lab, a, b);
        total := total + w;
        count := count + 1;
      }
      i := i + 1;
    }
  }
}
