/**
 * What a shortest-path tree tells about reachability, and the open-edge
 * breadth-first search of isConnected.
 */
module Connectivity {
  import opened Records
  import opened Graph
  import opened PathEngine

  // ---------------------------------------------------------------------
  // What the tree means: distances are realised along parent links, and
  // a node is finite exactly when it is reachable over open edges
  // ---------------------------------------------------------------------

  /** Every step of p follows a parent link: p[i] is the parent of p[i+1]. */
  ghost predicate FollowsParents(parent: map<int, int>, p: seq<int>) {
    forall i :: 1 <= i < |p| ==> p[i] in parent && parent[p[i]] == p[i - 1]
  }

  lemma {:induction false} ChainWalk(adj: Adj, src: int, dist: map<int, Dist>, parent: map<int, int>, v: int, n: nat)
    requires IsShortestPathTree(adj, src, dist, parent)
    requires v in dist && dist[v].Fin? && ChainReaches(parent, v, src, n)
    ensures exists p, ws :: IsOpenWalk(adj, p, ws) && p[0] == src && p[|p| - 1] == v &&
                            Sum(ws) == dist[v].d && FollowsParents(parent, p)
    decreases n
  {
    if v == src {
      assert IsOpenWalk(adj, [src], []) && Sum([]) == 0 && FollowsParents(parent, [src]);
    } else {
      var u := parent[v];
      ChainWalk(adj, src, dist, parent, u, n - 1);
      var p, ws :| IsOpenWalk(adj, p, ws) && p[0] == src && p[|p| - 1] == u &&
                   Sum(ws) == dist[u].d && FollowsParents(parent, p);
      var w: nat := dist[v].d - dist[u].d;
      var p', ws' := p + [v], ws + [w];
      assert ws'[..|ws'| - 1] == ws;
      assert Sum(ws') == dist[v].d;
      assert IsOpenWalk(adj, p', ws') by {
        forall i | 0 <= i < |ws'| ensures OpenEdge(adj, p'[i], p'[i + 1], ws'[i]) {
          if i < |ws| {
            assert p'[i] == p[i] && p'[i + 1] == p[i + 1];
          }
        }
      }
      assert FollowsParents(parent, p') by {
        forall i | 1 <= i < |p'| ensures p'[i] in parent && parent[p'[i]] == p'[i - 1] {
          if i < |p| {
            assert p'[i] == p[i] && p'[i - 1] == p[i - 1];
          }
        }
      }
    }
  }

  /**
   * Soundness of the distances: every finite distance is the length of an
   * open walk from src that follows the parent links back from the node.
   */
  lemma FiniteDistanceIsRealised(adj: Adj, src: int, dist: map<int, Dist>, parent: map<int, int>, v: int)
    requires IsShortestPathTree(adj, src, dist, parent)
    requires v in dist && dist[v].Fin?
    ensures exists p, ws :: IsOpenWalk(adj, p, ws) && p[0] == src && p[|p| - 1] == v &&
                            Sum(ws) == dist[v].d && FollowsParents(parent, p)
  {
    assert LeadsTo(parent, v, src);
    var n: nat :| ChainReaches(parent, v, src, n);
    ChainWalk(adj, src, dist, parent, v, n);
  }

  /** A node has a finite distance exactly when it can be reached from src over open edges. */
  lemma FiniteIffReachable(adj: Adj, src: int, dist: map<int, Dist>, parent: map<int, int>, v: int)
    requires IsShortestPathTree(adj, src, dist, parent)
    ensures (v in dist && dist[v].Fin?) <==> Reachable(adj, src, v)
  {
    if v in dist && dist[v].Fin? {
      FiniteDistanceIsRealised(adj, src, dist, parent, v);
      var p, ws :| IsOpenWalk(adj, p, ws) && p[0] == src && p[|p| - 1] == v &&
                   Sum(ws) == dist[v].d && FollowsParents(parent, p);
      WalkIsPath(adj, p, ws);
    }
    if Reachable(adj, src, v) {
      var p :| IsOpenPath(adj, p) && p[0] == src && p[|p| - 1] == v;
      PathHasWalk(adj, p);
      var ws :| IsOpenWalk(adj, p, ws);
    }
  }

  // ---------------------------------------------------------------------
  // isConnected: breadth-first search over open edges
  // ---------------------------------------------------------------------

  /** Every node: the keys of adj and all the targets of their entries. */
  ghost function NodesOf(adj: Adj): set<int> {
    adj.Keys + set u, j | u in adj && 0 <= j < |adj[u]| :: adj[u][j].to
  }

  /** All open entries out of x lead into s. */
  ghost predicate Expanded(adj: Adj, s: set<int>, x: int) {
    x in adj ==> forall j :: 0 <= j < |adj[x]| && adj[x][j].open ==> adj[x][j].to in s
  }

  lemma ReachableStep(adj: Adj, a: int, v: int, w: int)
    requires Reachable(adj, a, v) && Adjacent(adj, v, w)
    ensures Reachable(adj, a, w)
  {
    var p :| IsOpenPath(adj, p) && p[0] == a && p[|p| - 1] == v;
    var p' := p + [w];
    assert IsOpenPath(adj, p') by {
      forall i | 0 <= i < |p'| - 1 ensures Adjacent(adj, p'[i], p'[i + 1]) {
        if i < |p| - 1 {
          assert p'[i] == p[i] && p'[i + 1] == p[i + 1];
        }
      }
    }
  }

  /** A set that holds a, is closed under open entries and misses b shows that b cannot be reached. */
  lemma ClosedSetBlocks(adj: Adj, s: set<int>, a: int, b: int)
    requires a in s && b !in s
    requires forall x :: x in s ==> Expanded(adj, s, x)
    ensures !Reachable(adj, a, b)
  {
    if Reachable(adj, a, b) {
      var p :| IsOpenPath(adj, p) && p[0] == a && p[|p| - 1] == b;
      PathStaysInside(adj, s, p, |p| - 1);
      assert false;
    }
  }

  /** A node whose entries are all closed reaches itself and nothing else. */
  lemma IsolatedReachesOnlyItself(adj: Adj, v: int, x: int)
    requires v in adj ==> forall j :: 0 <= j < |adj[v]| ==> !adj[v][j].open
    ensures Reachable(adj, v, x) <==> x == v
  {
    assert IsOpenPath(adj, [v]);
    if x != v {
      ClosedSetBlocks(adj, {v}, v, x);
    }
  }

  /** When no edge at n is open in the table, no adjacency entry into or out of n is open. */
  lemma ClosedRecordsCloseEntries(g: GraphState, n: int)
    requires GraphInvariant(g)
    requires forall x :: EdgeStatusOf(g.edges, n, x) != Open
    ensures n in g.adj ==> forall j :: 0 <= j < |g.adj[n]| ==> !g.adj[n][j].open
    ensures forall u :: !Adjacent(g.adj, u, n)
  {
    if n in g.adj {
      forall j | 0 <= j < |g.adj[n]| ensures !g.adj[n][j].open {
        assert EdgeStatusOf(g.edges, n, g.adj[n][j].to) != Open;
      }
    }
    forall u, j | u in g.adj && 0 <= j < |g.adj[u]| && g.adj[u][j].to == n
      ensures !g.adj[u][j].open
    {
      assert Canon(u, n) == Canon(n, u);
      assert EdgeStatusOf(g.edges, n, u) != Open;
    }
  }

  /**
   * Closing every edge at n cuts n off both ways: n reaches only itself,
   * and only n reaches n.
   */
  lemma ClosedOffNode(g: GraphState, n: int, m: int)
    requires GraphInvariant(g)
    requires forall x :: EdgeStatusOf(g.edges, n, x) != Open
    ensures Reachable(g.adj, n, m) <==> m == n
    ensures Reachable(g.adj, m, n) <==> m == n
  {
    ClosedRecordsCloseEntries(g, n);
    IsolatedReachesOnlyItself(g.adj, n, m);
    if Reachable(g.adj, m, n) {
      var p :| IsOpenPath(g.adj, p) && p[0] == m && p[|p| - 1] == n;
      EntryFreeStart(g.adj, n, p);
    }
  }

  /** With no open entry into n, an open path can meet n only at its start. */
  lemma EntryFreeStart(adj: Adj, n: int, p: seq<int>)
    requires IsOpenPath(adj, p)
    requires forall u :: !Adjacent(adj, u, n)
    ensures forall i :: 1 <= i < |p| ==> p[i] != n
  {
    forall i | 1 <= i < |p| ensures p[i] != n {
      assert Adjacent(adj, p[i - 1], p[i]);
    }
  }

  lemma {:induction false} PathStaysInside(adj: Adj, s: set<int>, p: seq<int>, i: nat)
    requires IsOpenPath(adj, p) && p[0] in s && i < |p|
    requires forall x :: x in s ==> Expanded(adj, s, x)
    ensures p[i] in s
  {
    if i > 0 {
      PathStaysInside(adj, s, p, i - 1);
      assert Adjacent(adj, p[i - 1], p[i]);
      var j :| 0 <= j < |adj[p[i - 1]]| && adj[p[i - 1]][j].to == p[i] && adj[p[i - 1]][j].open;
      assert Expanded(adj, s, p[i - 1]);
    }
  }

  /**
   * The isConnected command: a breadth-first search from a that follows
   * open entries only and stops as soon as b is taken off the queue. It
   * succeeds exactly when b can be reached from a over open edges.
   */
  method IsConnected(adj: Adj, a: int, b: int) returns (ok: bool)
    ensures ok <==> Reachable(adj, a, b)
  {
    var visited: set<int> := {a};
    var q: seq<int> := [a];
    ok := false;
    ghost var universe := NodesOf(adj) + {a};
    assert IsOpenPath(adj, [a]);
    while q != []
      invariant a in visited && visited <= universe
      invariant forall i :: 0 <= i < |q| ==> q[i] in visited
      invariant forall x :: x in visited ==> Reachable(adj, a, x)
      invariant forall x :: x in visited && x !in q ==> Expanded(adj, visited, x)
      invariant b in visited ==> b in q
      decreases universe - visited, |q|
    {
      var v := q[0];
      q := q[1..];
      if v == b {
        ok := true;
        break;
      }
      if v !in adj {
        continue;
      }
      ghost var visited0, q0 := visited, q;
      var j := 0;
      while j < |adj[v]|
        invariant 0 <= j <= |adj[v]|
        invariant visited0 <= visited <= universe
        invariant q0 <= q
        invariant |q| == |q0| ==> visited == visited0
        invariant forall i :: |q0| <= i < |q| ==> q[i] !in visited0
        invariant forall i :: 0 <= i < |q| ==> q[i] in visited
        invariant forall x :: x in visited ==> Reachable(adj, a, x)
        invariant forall x :: x in visited && x !in q && x != v ==> Expanded(adj, visited, x)
        invariant forall k :: 0 <= k < j && adj[v][k].open ==> adj[v][k].to in visited
        invariant b in visited ==> b in q
      {
        var e := adj[v][j];
        if e.open && e.to !in visited {
          assert Adjacent(adj, v, e.to);
          ReachableStep(adj, a, v, e.to);
          visited := visited + {e.to};
          q := q + [e.to];
        }
        j := j + 1;
      }
      assert Expanded(adj, visited, v);
      if |q| != |q0| {
        var x := q[|q0|];
        assert x in universe - visited0 && x !in universe - visited;
      }
    }
    if !ok {
      ClosedSetBlocks(adj, visited, a, b);
    }
  }
}
