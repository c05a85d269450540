/**
 * printStudentZone: the nodes on the shortest-path chains from a student's
 * residence to each reachable class location, the open edges among those
 * nodes, and the cost Kruskal's scan accepts over them.
 */
module Zone {
  import opened Records
  import opened Graph
  import opened PathEngine
  import opened Ordering
  import opened DisjointSets
  import opened SpanningForest
  import Connectivity

  /** `classes[cc].loc`: operator[] reads a missing code as a value-initialised ClassInfo, at location 0. */
  function LocOf(table: map<string, ClassInfo>, cc: string): int {
    if cc in table then table[cc].loc else 0
  }

  /** `dist.find(v) != dist.end() && dist.at(v) != INT_MAX`. */
  predicate Finite(dist: map<int, Dist>, v: int) {
    v in dist && dist[v].Fin?
  }

  // ---------------------------------------------------------------------
  // Walking one parent chain
  // ---------------------------------------------------------------------

  /** One step of the backtracking loop: stop at res or at a node without a parent. */
  function StepUp(parent: map<int, int>, res: int, v: int): int {
    if v == res || v !in parent then v else parent[v]
  }

  /** The node k steps up the chain from v. */
  function Up(parent: map<int, int>, res: int, v: int, k: nat): int {
    if k == 0 then v else StepUp(parent, res, Up(parent, res, v, k - 1))
  }

  ghost predicate OnChain(parent: map<int, int>, res: int, v: int, x: int) {
    exists k: nat :: Up(parent, res, v, k) == x
  }

  /** Once the chain stops moving it stays where it stopped. */
  lemma {:induction false} UpStays(parent: map<int, int>, res: int, v: int, s: nat, k: nat)
    requires StepUp(parent, res, Up(parent, res, v, s)) == Up(parent, res, v, s)
    requires s <= k
    ensures Up(parent, res, v, k) == Up(parent, res, v, s)
    decreases k
  {
    if k > s {
      UpStays(parent, res, v, s, k - 1);
    }
  }

  /** Adds the chain from v to nodes0: v, its parent, and so on until res or a node without a parent. */
  method CollectChain(parent: map<int, int>, res: int, v: int, ghost n: nat, nodes0: set<int>) returns (nodes: set<int>)
    requires ChainReaches(parent, v, res, n)
    ensures forall x :: x in nodes <==> x in nodes0 || OnChain(parent, res, v, x)
  {
    var cur := v;
    nodes := nodes0 + {cur};
    ghost var steps: nat := 0;
    ghost var fuel := n;
    while cur != res && cur in parent
      invariant cur == Up(parent, res, v, steps)
      invariant ChainReaches(parent, cur, res, fuel)
      invariant forall x :: x in nodes <==> x in nodes0 || exists k :: 0 <= k <= steps && Up(parent, res, v, k) == x
      decreases fuel
    {
      cur := parent[cur];
      nodes := nodes + {cur};
      steps := steps + 1;
      fuel := fuel - 1;
    }
    forall x | OnChain(parent, res, v, x) ensures x in nodes {
      var k: nat :| Up(parent, res, v, k) == x;
      if k > steps {
        UpStays(parent, res, v, steps, k);
      }
    }
  }

  /** x lies on the chain of a class of codes whose location has a finite distance. */
  ghost predicate InZone(dist: map<int, Dist>, parent: map<int, int>, res: int,
                         table: map<string, ClassInfo>, codes: set<string>, x: int) {
    exists cc :: cc in codes && Finite(dist, LocOf(table, cc)) && OnChain(parent, res, LocOf(table, cc), x)
  }

  /** The zone's nodes: the union of the chains of every class with a finite distance. */
  method CollectZone(dist: map<int, Dist>, parent: map<int, int>, res: int,
                     table: map<string, ClassInfo>, codes: set<string>) returns (nodes: set<int>)
    requires forall v :: Finite(dist, v) ==> LeadsTo(parent, v, res)
    ensures forall x :: x in nodes <==> InZone(dist, parent, res, table, codes, x)
  {
    nodes := {};
    var rest := codes;
    while rest != {}
      invariant rest <= codes
      invariant forall x :: x in nodes <==> InZone(dist, parent, res, table, codes - rest, x)
      decreases |rest|
    {
      var cc :| cc in rest;
      var loc := LocOf(table, cc);
      ghost var nodes0 := nodes;
      if Finite(dist, loc) {
        assert LeadsTo(parent, loc, res);
        ghost var n: nat :| ChainReaches(parent, loc, res, n);
        nodes := CollectChain(parent, res, loc, n, nodes);
      }
      forall x ensures x in nodes <==> InZone(dist, parent, res, table, codes - (rest - {cc}), x) {
        if InZone(dist, parent, res, table, codes - (rest - {cc}), x) && x !in nodes0 {
          var c :| c in codes - (rest - {cc}) && Finite(dist, LocOf(table, c)) && OnChain(parent, res, LocOf(table, c), x);
          assert c == cc;
        }
      }
      rest := rest - {cc};
    }
  }

  /** The chain from a node with a finite distance stays at nodes with finite distances. */
  lemma {:induction false} UpFinite(adj: Adj, res: int, dist: map<int, Dist>, parent: map<int, int>, v: int, k: nat)
    requires IsShortestPathTree(adj, res, dist, parent) && Finite(dist, v)
    ensures Finite(dist, Up(parent, res, v, k))
    decreases k
  {
    if k > 0 {
      UpFinite(adj, res, dist, parent, v, k - 1);
      var u := Up(parent, res, v, k - 1);
      if u != res && u in parent {
        assert parent[u] in dist && dist[parent[u]].Fin?;
      }
    }
  }

  /**
   * Over a shortest-path tree from the residence, the zone holds every
   * reachable class location, holds the residence whenever it holds
   * anything, and holds only nodes reachable from the residence.
   */
  lemma ZoneIsReachable(adj: Adj, res: int, dist: map<int, Dist>, parent: map<int, int>,
                        table: map<string, ClassInfo>, codes: set<string>, x: int)
    requires IsShortestPathTree(adj, res, dist, parent)
    ensures InZone(dist, parent, res, table, codes, x) ==> Reachable(adj, res, x)
    ensures InZone(dist, parent, res, table, codes, x) ==> InZone(dist, parent, res, table, codes, res)
    ensures (exists cc :: cc in codes && x == LocOf(table, cc) && Reachable(adj, res, x)) ==>
      InZone(dist, parent, res, table, codes, x)
  {
    Connectivity.FiniteIffReachable(adj, res, dist, parent, x);
    if InZone(dist, parent, res, table, codes, x) {
      var cc :| cc in codes && Finite(dist, LocOf(table, cc)) && OnChain(parent, res, LocOf(table, cc), x);
      var loc := LocOf(table, cc);
      var k: nat :| Up(parent, res, loc, k) == x;
      UpFinite(adj, res, dist, parent, loc, k);
      assert LeadsTo(parent, loc, res);
      var n: nat :| ChainReaches(parent, loc, res, n);
      ChainEndsAtRes(parent, res, loc, n);
      assert OnChain(parent, res, loc, res);
    }
    if exists cc :: cc in codes && x == LocOf(table, cc) && Reachable(adj, res, x) {
      var cc :| cc in codes && x == LocOf(table, cc) && Reachable(adj, res, x);
      assert Up(parent, res, x, 0) == x;
    }
  }

  /** A chain that reaches res within n links is at res after n steps. */
  lemma {:induction false} ChainEndsAtRes(parent: map<int, int>, res: int, v: int, n: nat)
    requires ChainReaches(parent, v, res, n)
    ensures Up(parent, res, v, n) == res
    decreases n
  {
    if v == res {
      UpStays(parent, res, v, 0, n);
    } else {
      ChainEndsAtRes(parent, res, parent[v], n - 1);
      UpShift(parent, res, v, n - 1);
    }
  }

  /** k + 1 steps from v are k steps from v's first step. */
  lemma {:induction false} UpShift(parent: map<int, int>, res: int, v: int, k: nat)
    ensures Up(parent, res, v, k + 1) == Up(parent, res, StepUp(parent, res, v), k)
    decreases k
  {
    if k > 0 {
      UpShift(parent, res, v, k - 1);
    }
  }

  // ---------------------------------------------------------------------
  // The open edges among the zone's nodes
  // ---------------------------------------------------------------------

  /** The open entries of es from u to a larger node of nodes, as (weight, u, to), in order. */
  function EntriesFrom(es: seq<EdgeInfo>, u: int, nodes: set<int>): (r: seq<Triple>)
    ensures forall t :: t in r <==>
      t.1 == u && t.2 in nodes && u < t.2 && exists j :: 0 <= j < |es| && es[j] == EdgeInfo(t.2, t.0, true)
  {
    if es == [] then []
    else
      var rest := EntriesFrom(es[..|es| - 1], u, nodes);
      var e := es[|es| - 1];
      assert forall j :: 0 <= j < |es| - 1 ==> es[..|es| - 1][j] == es[j];
      if e.open && e.to in nodes && u < e.to then rest + [(e.weight, u, e.to)] else rest
  }

  /** The inner loop over adj[u]: appends u's candidate edges to acc. */
  method AppendEntries(adj: Adj, u: int, nodes: set<int>, acc: seq<Triple>) returns (out: seq<Triple>)
    ensures out == acc + EntriesFrom(ListOf(adj, u), u, nodes)
  {
    out := acc;
    if u !in adj {
      return;
    }
    var es := adj[u];
    var j := 0;
    while j < |es|
      invariant 0 <= j <= |es|
      invariant out == acc + EntriesFrom(es[..j], u, nodes)
    {
      var e := es[j];
      assert es[..j + 1][..j] == es[..j];
      if e.open && e.to in nodes && u < e.to {
        out := out + [(e.weight, u, e.to)];
      }
      j := j + 1;
    }
    assert es[..|es|] == es;
  }

  ghost function AnyNode(us: set<int>): (u: int)
    requires us != {}
    ensures u in us
  {
    assert exists u :: u in us by {
      if forall u :: u !in us {
        assert false;
      }
    }
    var u :| u in us; u
  }

  /** The candidate edges of the nodes in us, whichever order they are visited in. */
  ghost function Induced(adj: Adj, nodes: set<int>, us: set<int>): multiset<Triple>
    decreases us
  {
    if us == {} then multiset{}
    else
      var u := AnyNode(us);
      multiset(EntriesFrom(ListOf(adj, u), u, nodes)) + Induced(adj, nodes, us - {u})
  }

  /** Induced does not depend on which node is taken first. */
  lemma {:induction false} InducedAny(adj: Adj, nodes: set<int>, us: set<int>, u: int)
    requires u in us
    ensures Induced(adj, nodes, us) == multiset(EntriesFrom(ListOf(adj, u), u, nodes)) + Induced(adj, nodes, us - {u})
    decreases us
  {
    var v := AnyNode(us);
    if v != u {
      InducedAny(adj, nodes, us - {v}, u);
      InducedAny(adj, nodes, us - {u}, v);
      assert us - {v} - {u} == us - {u} - {v};
    }
  }

  /** An induced edge is an open entry between two zone nodes, from the smaller to the larger. */
  ghost predicate IsInducedEdge(adj: Adj, nodes: set<int>, us: set<int>, t: Triple) {
    t.1 in us && t.2 in nodes && t.1 < t.2 &&
    exists j :: 0 <= j < |ListOf(adj, t.1)| && ListOf(adj, t.1)[j] == EdgeInfo(t.2, t.0, true)
  }

  /** The candidates are exactly the open entries from a node of us to a larger node of nodes. */
  lemma {:induction false} InducedMembers(adj: Adj, nodes: set<int>, us: set<int>, t: Triple)
    ensures t in Induced(adj, nodes, us) <==> IsInducedEdge(adj, nodes, us, t)
    decreases us
  {
    if us != {} {
      var u := AnyNode(us);
      InducedMembers(adj, nodes, us - {u}, t);
    }
  }

  lemma InducedStep(adj: Adj, nodes: set<int>, rest: set<int>, u: int, edges: seq<Triple>, edges': seq<Triple>)
    requires u in rest && edges' == edges + EntriesFrom(ListOf(adj, u), u, nodes)
    ensures multiset(edges') + Induced(adj, nodes, rest - {u}) == multiset(edges) + Induced(adj, nodes, rest)
  {
    InducedAny(adj, nodes, rest, u);
  }

  /** The edge-collecting loop over the zone's nodes (an unordered_set: any order). */
  method InducedEdges(adj: Adj, nodes: set<int>) returns (edges: seq<Triple>)
    ensures multiset(edges) == Induced(adj, nodes, nodes)
  {
    edges := [];
    var rest := nodes;
    while rest != {}
      invariant rest <= nodes
      invariant multiset(edges) + Induced(adj, nodes, rest) == Induced(adj, nodes, nodes)
      decreases |rest|
    {
      var u :| u in rest;
      ghost var edges0 := edges;
      edges := AppendEntries(adj, u, nodes, edges);
      InducedStep(adj, nodes, rest, u, edges0, edges);
      rest := rest - {u};
    }
  }

  lemma TwoMembers(s: set<int>, a: int, b: int)
    ensures a in s && b in s && a != b ==> |s| >= 2
  {
    if a in s && b in s && a != b {
      assert b in s - {a};
      assert |s - {a}| == |s| - 1;
      assert |s - {a}| >= 1;
    }
  }

  /** A zone of at most one node has no candidate edge, so its cost is 0. */
  lemma SmallZoneIsFree(adj: Adj, nodes: set<int>)
    requires |nodes| <= 1
    ensures Induced(adj, nodes, nodes) == multiset{}
  {
    forall t ensures t !in Induced(adj, nodes, nodes) {
      InducedMembers(adj, nodes, nodes, t);
      TwoMembers(nodes, t.1, t.2);
    }
  }

  // ---------------------------------------------------------------------
  // The whole command
  // ---------------------------------------------------------------------

  /**
   * nodes is the zone of some shortest-path tree from the residence: exactly
   * the nodes on the predecessor chains of the class locations with a
   * finite distance. Which tree depends on the queue's tie order.
   */
  ghost predicate IsZoneOf(adj: Adj, res: int, table: map<string, ClassInfo>, codes: set<string>, nodes: set<int>) {
    exists dist, parent :: IsShortestPathTree(adj, res, dist, parent) &&
      forall x :: x in nodes <==> InZone(dist, parent, res, table, codes, x)
  }

  /**
   * What printStudentZone computes: the zone of a shortest-path tree, whose
   * nodes are all reachable from the residence and include the residence
   * and every reachable class location; the induced open edges, once each,
   * sorted as tuples; and the cost of the edges Kruskal's scan accepts,
   * which are induced edges, at most one fewer than the nodes, and none
   * when there is at most one node.
   */
  ghost predicate IsZoneReport(adj: Adj, res: int, table: map<string, ClassInfo>, codes: set<string>,
                               nodes: set<int>, edges: seq<Triple>, cost: int) {
    IsZoneOf(adj, res, table, codes, nodes) &&
    (forall x :: x in nodes ==> Reachable(adj, res, x)) &&
    (forall cc :: cc in codes && Reachable(adj, res, LocOf(table, cc)) ==> LocOf(table, cc) in nodes) &&
    (nodes != {} ==> res in nodes) &&
    multiset(edges) == Induced(adj, nodes, nodes) && SortedBy(edges, TripleLe) &&
    cost == Weight(Accepted(edges, map[])) &&
    (forall t :: t in Accepted(edges, map[]) ==> IsInducedEdge(adj, nodes, nodes, t)) &&
    (nodes != {} ==> |Accepted(edges, map[])| <= |nodes| - 1) &&
    (|nodes| <= 1 ==> cost == 0)
  }

  /**
   * printStudentZone for a residence and a set of class codes: a fresh
   * shortest-path run, the zone's nodes, the sorted candidate edges, and
   * the cost of the forest Kruskal's scan accepts over them.
   */
  method ZoneCost(adj: Adj, res: int, table: map<string, ClassInfo>, codes: set<string>)
    returns (nodes: set<int>, edges: seq<Triple>, cost: int)
    requires TargetsKnown(adj)
    ensures IsZoneReport(adj, res, table, codes, nodes, edges, cost)
  {
    var dist, parent := Dijkstra(adj, res);
    nodes := CollectZone(dist, parent, res, table, codes);
    assert IsZoneOf(adj, res, table, codes, nodes) by {
      assert IsShortestPathTree(adj, res, dist, parent) &&
        forall x :: x in nodes <==> InZone(dist, parent, res, table, codes, x);
    }
    forall x ensures x in nodes ==> Reachable(adj, res, x)
      ensures x in nodes ==> res in nodes
      ensures (exists cc :: cc in codes && x == LocOf(table, cc) && Reachable(adj, res, x)) ==> x in nodes
    {
      ZoneIsReachable(adj, res, dist, parent, table, codes, x);
    }
    var unsorted := InducedEdges(adj, nodes);
    TripleLeIsTotalOrder();
    edges := SortBy(unsorted, TripleLe);
    var total, count := Kruskal(edges);
    cost := total;
    AcceptedAreCandidates(edges, map[]);
    forall t | t in edges ensures t.1 in nodes && t.2 in nodes && IsInducedEdge(adj, nodes, nodes, t) {
      assert t in multiset(edges);
      InducedMembers(adj, nodes, nodes, t);
    }
    AcceptedBound(edges, nodes);
    if |nodes| <= 1 {
      SmallZoneIsFree(adj, nodes);
      assert edges == [] by {
        assert |edges| == |multiset(edges)| == 0;
      }
    }
  }

  /** Two reports with the same zone agree on the sorted edges and the cost. */
  lemma ZoneReportDetermined(adj: Adj, res: int, table: map<string, ClassInfo>, codes: set<string>,
                             nodes: set<int>, e1: seq<Triple>, c1: int, e2: seq<Triple>, c2: int)
    requires IsZoneReport(adj, res, table, codes, nodes, e1, c1)
    requires IsZoneReport(adj, res, table, codes, nodes, e2, c2)
    ensures e1 == e2 && c1 == c2
  {
    TripleLeIsTotalOrder();
    SortedUnique(e1, e2, TripleLe);
  }

  /** When every class meets at the residence, the zone is the residence alone and costs 0. */
  lemma ClassesAtResidenceZone(adj: Adj, res: int, table: map<string, ClassInfo>, codes: set<string>,
                               nodes: set<int>, edges: seq<Triple>, cost: int)
    requires IsZoneReport(adj, res, table, codes, nodes, edges, cost)
    requires codes != {} && forall cc :: cc in codes ==> LocOf(table, cc) == res
    ensures nodes == {res} && cost == 0
  {
    var dist, parent :| IsShortestPathTree(adj, res, dist, parent) &&
      forall x :: x in nodes <==> InZone(dist, parent, res, table, codes, x);
    forall x ensures x in nodes <==> x == res {
      if InZone(dist, parent, res, table, codes, x) {
        var cc :| cc in codes && Finite(dist, LocOf(table, cc)) && OnChain(parent, res, LocOf(table, cc), x);
        var k: nat :| Up(parent, res, res, k) == x;
        UpStays(parent, res, res, 0, k);
      }
      if x == res {
        var cc :| cc in codes;
        assert Up(parent, res, res, 0) == res;
        assert InZone(dist, parent, res, table, codes, res);
      }
    }
    assert nodes == {res};
  }
}
