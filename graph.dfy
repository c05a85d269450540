/**
 * The graph store of CampusCompass: adjacency lists of directed entries and
 * the canonical edge table, both with an open flag; the invariant that ties
 * them together; toggling an edge and asking for its status; and the
 * open-edge paths and walks the path engine is specified by.
 */
module Graph {
  import opened Records

  /** node -> its adjacency entries (the source's `adj`). */
  type Adj = map<int, seq<EdgeInfo>>

  /** canonical pair -> weight and open flag (the source's `edges_map`). */
  type EdgeTable = map<(int, int), EdgeRecord>

  datatype GraphState = GraphState(adj: Adj, edges: EdgeTable)

  // ---------------------------------------------------------------------
  // The store's invariant
  // ---------------------------------------------------------------------

  /** Every adjacency entry leads to a node that has an adjacency list. */
  ghost predicate TargetsKnown(adj: Adj) {
    forall u, j :: u in adj && 0 <= j < |adj[u]| ==> adj[u][j].to in adj
  }

  /** Every adjacency entry has a canonical record, and their open flags agree. */
  ghost predicate FlagsAgree(adj: Adj, edges: EdgeTable) {
    forall u, j :: u in adj && 0 <= j < |adj[u]| ==>
      Canon(u, adj[u][j].to) in edges && edges[Canon(u, adj[u][j].to)].open == adj[u][j].open
  }

  /** Every canonical record is keyed by an ordered pair of nodes with adjacency lists. */
  ghost predicate RecordsKnown(adj: Adj, edges: EdgeTable) {
    forall k :: k in edges ==> k.0 <= k.1 && k.0 in adj && k.1 in adj
  }

  ghost predicate GraphInvariant(g: GraphState) {
    TargetsKnown(g.adj) && FlagsAgree(g.adj, g.edges) && RecordsKnown(g.adj, g.edges)
  }

  // ---------------------------------------------------------------------
  // checkEdgeStatus
  // ---------------------------------------------------------------------

  datatype EdgeStatus = DNE | Open | Closed

  /** The status of the edge between a and b: absent, open or closed. */
  function EdgeStatusOf(edges: EdgeTable, a: int, b: int): (r: EdgeStatus)
    ensures r == DNE <==> Canon(a, b) !in edges
    ensures r == Open <==> Canon(a, b) in edges && edges[Canon(a, b)].open
  {
    var k := Canon(a, b);
    if k !in edges then DNE else if edges[k].open then Open else Closed
  }

  /** The status does not depend on the order in which the endpoints are given. */
  lemma EdgeStatusSymmetric(edges: EdgeTable, a: int, b: int)
    ensures EdgeStatusOf(edges, a, b) == EdgeStatusOf(edges, b, a)
  {
    assert Canon(a, b) == Canon(b, a);
  }

  // ---------------------------------------------------------------------
  // toggleEdgesClosure, one pair
  // ---------------------------------------------------------------------

  /** `adj[u]`: operator[] reads a missing list as an empty one (and inserts it). */
  function ListOf(adj: Adj, u: int): seq<EdgeInfo> {
    if u in adj then adj[u] else []
  }

  /** Sets the open flag of every entry leading to target; the other entries are kept. */
  function SetOpenTo(es: seq<EdgeInfo>, target: int, flag: bool): (r: seq<EdgeInfo>)
    ensures |r| == |es|
    ensures forall i :: 0 <= i < |es| ==>
      r[i] == if es[i].to == target then es[i].(open := flag) else es[i]
  {
    seq(|es|, i requires 0 <= i < |es| => if es[i].to == target then es[i].(open := flag) else es[i])
  }

  /** Copies a new flag into the entries a -> b, then into the entries b -> a. */
  function ToggleAdj(adj: Adj, a: int, b: int, flag: bool): Adj {
    var adj1 := adj[a := SetOpenTo(ListOf(adj, a), b, flag)];
    adj1[b := SetOpenTo(ListOf(adj1, b), a, flag)]
  }

  /**
   * One pair of toggleEdgesClosure: an absent pair is skipped; otherwise the
   * canonical record's flag is flipped and copied into both directions.
   */
  function Toggle(g: GraphState, a: int, b: int): GraphState {
    var k := Canon(a, b);
    if k !in g.edges then g
    else
      var flag := !g.edges[k].open;
      GraphState(ToggleAdj(g.adj, a, b, flag), g.edges[k := g.edges[k].(open := flag)])
  }

  lemma SetOpenToAgreesWith(g: GraphState, a: int, b: int, flag: bool, u: int, j: int)
    requires GraphInvariant(g) && Canon(a, b) in g.edges
    requires u in ToggleAdj(g.adj, a, b, flag) && 0 <= j < |ToggleAdj(g.adj, a, b, flag)[u]|
    ensures u in g.adj && |ToggleAdj(g.adj, a, b, flag)[u]| == |g.adj[u]|
    ensures var e, e' := g.adj[u][j], ToggleAdj(g.adj, a, b, flag)[u][j];
      e'.to == e.to && e'.weight == e.weight &&
      e'.open == if Canon(u, e.to) == Canon(a, b) then flag else e.open
  {
    var adj1 := g.adj[a := SetOpenTo(ListOf(g.adj, a), b, flag)];
    assert a in g.adj && b in g.adj;
  }

  /** Toggling keeps the store's invariant. */
  lemma TogglePreservesInvariant(g: GraphState, a: int, b: int)
    requires GraphInvariant(g)
    ensures GraphInvariant(Toggle(g, a, b))
  {
    var k := Canon(a, b);
    if k in g.edges {
      var flag := !g.edges[k].open;
      var g' := Toggle(g, a, b);
      assert g'.adj.Keys == g.adj.Keys by {
        assert a in g.adj && b in g.adj;
      }
      forall u, j | u in g'.adj && 0 <= j < |g'.adj[u]|
        ensures g'.adj[u][j].to in g'.adj
        ensures Canon(u, g'.adj[u][j].to) in g'.edges
        ensures g'.edges[Canon(u, g'.adj[u][j].to)].open == g'.adj[u][j].open
      {
        SetOpenToAgreesWith(g, a, b, flag, u, j);
      }
    }
  }

  /** Toggling never adds a node: both endpoints of a recorded pair already have lists. */
  lemma ToggleKeepsNodes(g: GraphState, a: int, b: int)
    requires GraphInvariant(g)
    ensures Toggle(g, a, b).adj.Keys == g.adj.Keys
  {
    if Canon(a, b) in g.edges {
      assert a in g.adj && b in g.adj;
    }
  }

  /** What toggling does to the status of every pair. */
  lemma ToggleStatus(g: GraphState, a: int, b: int, c: int, d: int)
    ensures var s, s' := EdgeStatusOf(g.edges, c, d), EdgeStatusOf(Toggle(g, a, b).edges, c, d);
      if Canon(c, d) == Canon(a, b) then
        (s == DNE ==> s' == DNE) && (s == Open ==> s' == Closed) && (s == Closed ==> s' == Open)
      else s' == s
  {
  }

  /** Toggling an absent pair changes nothing. */
  lemma ToggleAbsentIsNoOp(g: GraphState, a: int, b: int)
    requires EdgeStatusOf(g.edges, a, b) == DNE
    ensures Toggle(g, a, b) == g
  {
  }

  lemma SetOpenToTwice(es: seq<EdgeInfo>, target: int, f1: bool, f2: bool)
    requires forall i :: 0 <= i < |es| && es[i].to == target ==> es[i].open == f2
    ensures SetOpenTo(SetOpenTo(es, target, f1), target, f2) == es
  {
    var r := SetOpenTo(SetOpenTo(es, target, f1), target, f2);
    assert |r| == |es|;
    forall i | 0 <= i < |es| ensures r[i] == es[i] {
    }
  }

  /**
   * Toggling the same pair twice restores the whole store. This needs the
   * invariant: the first toggle overwrites every entry of the pair with one
   * flag, so entries that disagreed with the record would not come back.
   */
  lemma ToggleTwiceRestores(g: GraphState, a: int, b: int)
    requires GraphInvariant(g)
    ensures Toggle(Toggle(g, a, b), a, b) == g
  {
    var k := Canon(a, b);
    if k in g.edges {
      var f0 := g.edges[k].open;
      var g1 := Toggle(g, a, b);
      var g2 := Toggle(g1, a, b);
      assert g1.edges[k].open == !f0;
      assert g2.edges == g.edges;
      assert a in g.adj && b in g.adj;
      TogglePreservesInvariant(g, a, b);
      assert g2.adj.Keys == g.adj.Keys;
      forall u | u in g.adj ensures g2.adj[u] == g.adj[u] {
        assert |g2.adj[u]| == |g.adj[u]| by {
          assert |g1.adj[u]| == |g.adj[u]|;
        }
        forall j | 0 <= j < |g.adj[u]| ensures g2.adj[u][j] == g.adj[u][j] {
          SetOpenToAgreesWith(g, a, b, !f0, u, j);
          SetOpenToAgreesWith(g1, a, b, f0, u, j);
        }
      }
    }
  }

  // ---------------------------------------------------------------------
  // Open edges, paths and walks
  // ---------------------------------------------------------------------

  /** There is an open adjacency entry u -> v (of any weight). */
  ghost predicate Adjacent(adj: Adj, u: int, v: int) {
    u in adj && exists j :: 0 <= j < |adj[u]| && adj[u][j].to == v && adj[u][j].open
  }

  /** There is an open adjacency entry u -> v of weight w. */
  ghost predicate OpenEdge(adj: Adj, u: int, v: int, w: nat) {
    u in adj && exists j :: 0 <= j < |adj[u]| && adj[u][j] == EdgeInfo(v, w, true)
  }

  /** A non-empty node sequence whose consecutive nodes are joined by open entries. */
  ghost predicate IsOpenPath(adj: Adj, p: seq<int>) {
    |p| > 0 && forall i :: 0 <= i < |p| - 1 ==> Adjacent(adj, p[i], p[i + 1])
  }

  ghost predicate Reachable(adj: Adj, a: int, b: int) {
    exists p :: IsOpenPath(adj, p) && p[0] == a && p[|p| - 1] == b
  }

  /** A walk: nodes p and the weight ws[i] of the open entry taken from p[i] to p[i+1]. */
  ghost predicate IsOpenWalk(adj: Adj, p: seq<int>, ws: seq<nat>) {
    |p| > 0 && |ws| == |p| - 1 &&
    forall i :: 0 <= i < |ws| ==> OpenEdge(adj, p[i], p[i + 1], ws[i])
  }

  function Sum(ws: seq<nat>): nat {
    if ws == [] then 0 else Sum(ws[..|ws| - 1]) + ws[|ws| - 1]
  }

  /** Paths and walks describe the same open-edge reachability. */
  lemma {:induction false} PathHasWalk(adj: Adj, p: seq<int>)
    requires IsOpenPath(adj, p)
    ensures exists ws :: IsOpenWalk(adj, p, ws)
    decreases |p|
  {
    if |p| == 1 {
      assert IsOpenWalk(adj, p, []);
    } else {
      var q := p[..|p| - 1];
      assert IsOpenPath(adj, q) by {
        forall i | 0 <= i < |q| - 1 ensures Adjacent(adj, q[i], q[i + 1]) {
          assert q[i] == p[i] && q[i + 1] == p[i + 1];
        }
      }
      PathHasWalk(adj, q);
      var ws :| IsOpenWalk(adj, q, ws);
      var u, v := p[|p| - 2], p[|p| - 1];
      assert Adjacent(adj, u, v);
      var j :| 0 <= j < |adj[u]| && adj[u][j].to == v && adj[u][j].open;
      var w := adj[u][j].weight;
      assert adj[u][j] == EdgeInfo(v, w, true);
      var ws' := ws + [w];
      assert IsOpenWalk(adj, p, ws') by {
        forall i | 0 <= i < |ws'| ensures OpenEdge(adj, p[i], p[i + 1], ws'[i]) {
          if i < |ws| {
            assert OpenEdge(adj, q[i], q[i + 1], ws[i]);
          }
        }
      }
    }
  }

  lemma WalkIsPath(adj: Adj, p: seq<int>, ws: seq<nat>)
    requires IsOpenWalk(adj, p, ws)
    ensures IsOpenPath(adj, p)
  {
    forall i | 0 <= i < |p| - 1 ensures Adjacent(adj, p[i], p[i + 1]) {
      assert OpenEdge(adj, p[i], p[i + 1], ws[i]);
      var j :| 0 <= j < |adj[p[i]]| && adj[p[i]][j] == EdgeInfo(p[i + 1], ws[i], true);
    }
  }
}
