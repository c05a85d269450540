/**
 * The path engine: Dijkstra's algorithm with predecessors over open edges
 * (dijkstra_with_parents) and the open-edge breadth-first search of
 * isConnected.
 */
module PathEngine {
  import opened Records
  import opened Graph

  /** A tentative distance; Inf stands for the source's INT_MAX. */
  datatype Dist = Inf | Fin(d: nat)

  /** x is finite and at most n. */
  predicate AtMost(x: Dist, n: nat) {
    x.Fin? && x.d <= n
  }

  /** n is a strictly better distance than x (the test `nd < dist[e.to]`). */
  predicate Improves(n: nat, x: Dist) {
    x.Inf? || n < x.d
  }

  /**
   * dist' keeps the nodes of dist, and no finite distance has grown: a
   * relaxation only ever lowers `dist[e.to]`.
   */
  predicate NeverWorse(dist: map<int, Dist>, dist': map<int, Dist>) {
    dist'.Keys == dist.Keys &&
    forall v :: v in dist && dist[v].Fin? ==> dist'[v].Fin? && dist'[v].d <= dist[v].d
  }

  // ---------------------------------------------------------------------
  // What Dijkstra promises
  // ---------------------------------------------------------------------

  /** Following parent links from v reaches src in at most n steps. */
  ghost predicate ChainReaches(parent: map<int, int>, v: int, src: int, n: nat)
    decreases n
  {
    v == src || (n > 0 && v in parent && ChainReaches(parent, parent[v], src, n - 1))
  }

  /** The parent chain from v reaches src after finitely many links. */
  ghost predicate LeadsTo(parent: map<int, int>, v: int, src: int) {
    exists n: nat :: ChainReaches(parent, v, src, n)
  }

  /**
   * The result of a shortest-path run from src: every node of adj and src
   * has a distance, src has 0, exactly the other finite nodes have a
   * parent, each parent link is an open edge whose weight is the difference
   * of the two distances, every parent chain leads back to src, and no open
   * walk from src is shorter than the distance of the node it ends at.
   */
  ghost predicate IsShortestPathTree(adj: Adj, src: int, dist: map<int, Dist>, parent: map<int, int>) {
    dist.Keys == adj.Keys + {src} &&
    dist[src] == Fin(0) &&
    src !in parent &&
    (forall v :: v in dist && v != src ==> (v in parent <==> dist[v].Fin?)) &&
    (forall v {:trigger parent[v]} :: v in parent ==>
       v in dist && dist[v].Fin? && parent[v] in dist && dist[parent[v]].Fin? &&
       dist[parent[v]].d <= dist[v].d &&
       OpenEdge(adj, parent[v], v, dist[v].d - dist[parent[v]].d)) &&
    (forall v :: v in dist && dist[v].Fin? ==> LeadsTo(parent, v, src)) &&
    (forall p, ws :: IsOpenWalk(adj, p, ws) && p[0] == src ==>
       p[|p| - 1] in dist && AtMost(dist[p[|p| - 1]], Sum(ws)))
  }

  // ---------------------------------------------------------------------
  // Termination measure: the nodes still at infinity, then the sum of the
  // finite distances plus the length of the queue
  // ---------------------------------------------------------------------

  /** What a distance contributes to the measure: being infinite, or its finite value. */
  function Score(x: Dist, countInf: bool): nat {
    if countInf then (if x.Inf? then 1 else 0)
    else if x.Fin? then x.d else 0
  }

  ghost function Pick(m: map<int, Dist>): int
    requires |m.Keys| > 0
    ensures Pick(m) in m
  {
    assert exists k :: k in m.Keys by {
      if forall k :: k !in m.Keys {
        assert false;
      }
    }
    var k :| k in m.Keys; k
  }

  /** The number of infinite entries of m (countInf), or the sum of its finite ones. */
  ghost function Tally(m: map<int, Dist>, countInf: bool): nat
    decreases |m.Keys|
  {
    if |m.Keys| == 0 then 0
    else
      var k := Pick(m);
      Score(m[k], countInf) + Tally(m - {k}, countInf)
  }

  lemma {:induction false} TallyRemove(m: map<int, Dist>, k: int, countInf: bool)
    requires k in m
    ensures Tally(m, countInf) == Score(m[k], countInf) + Tally(m - {k}, countInf)
    decreases |m.Keys|
  {
    var k' := Pick(m);
    if k != k' {
      TallyRemove(m - {k'}, k, countInf);
      TallyRemove(m - {k}, k', countInf);
      assert m - {k'} - {k} == m - {k} - {k'};
    }
  }

  /** Overwriting one entry changes the tally by the difference of the two scores. */
  lemma TallyUpdate(m: map<int, Dist>, k: int, x: Dist, countInf: bool)
    requires k in m
    ensures Tally(m[k := x], countInf) + Score(m[k], countInf) == Tally(m, countInf) + Score(x, countInf)
  {
    TallyRemove(m[k := x], k, countInf);
    TallyRemove(m, k, countInf);
    assert m[k := x] - {k} == m - {k};
  }

  // ---------------------------------------------------------------------
  // Loop invariants of Dijkstra
  // ---------------------------------------------------------------------

  /** The open entries u -> adj[u][k], k < n, cannot improve on their targets from du. */
  ghost predicate RelaxedUpTo(adj: Adj, dist: map<int, Dist>, u: int, du: nat, n: int)
    requires u in adj && n <= |adj[u]|
  {
    forall k :: 0 <= k < n && adj[u][k].open ==>
      adj[u][k].to in dist && AtMost(dist[adj[u][k].to], du + adj[u][k].weight)
  }

  /** No open entry out of the finite node u can improve on its target. */
  ghost predicate Relaxed(adj: Adj, dist: map<int, Dist>, u: int)
    requires u in dist && dist[u].Fin?
  {
    u in adj ==> RelaxedUpTo(adj, dist, u, dist[u].d, |adj[u]|)
  }

  /** (dist, stamp) of p is lexicographically below that of v. */
  ghost predicate RankBelow(dist: map<int, Dist>, stamp: map<int, nat>, p: int, v: int)
    requires p in dist && v in dist && dist[p].Fin? && dist[v].Fin? && p in stamp && v in stamp
  {
    dist[p].d < dist[v].d || (dist[p].d == dist[v].d && stamp[p] < stamp[v])
  }

  ghost predicate HasLink(adj: Adj, dist: map<int, Dist>, p: int, v: int)
    requires p in dist && v in dist && dist[p].Fin? && dist[v].Fin?
  {
    exists w :: OpenEdge(adj, p, v, w) && dist[p].d + w <= dist[v].d
  }

  /**
   * Everything Dijkstra keeps except the pending-work invariant. stamp
   * records when a node's distance was last set; it orders nodes of equal
   * distance along parent links, which keeps parent chains acyclic even
   * across zero-weight edges.
   */
  ghost predicate TreeInvariant(adj: Adj, src: int, dist: map<int, Dist>, parent: map<int, int>,
                                stamp: map<int, nat>, clock: nat, pq: seq<(int, nat)>) {
    TargetsKnown(adj) &&
    dist.Keys == adj.Keys + {src} &&
    dist[src] == Fin(0) &&
    src !in parent &&
    (forall v :: v in dist && v != src ==> (v in parent <==> dist[v].Fin?)) &&
    stamp.Keys == dist.Keys &&
    (forall v :: v in stamp ==> stamp[v] < clock) &&
    (forall v {:trigger parent[v]} :: v in parent ==>
       v in dist && dist[v].Fin? && parent[v] in dist && dist[parent[v]].Fin? &&
       RankBelow(dist, stamp, parent[v], v) && HasLink(adj, dist, parent[v], v)) &&
    (forall i :: 0 <= i < |pq| ==> pq[i].0 in dist)
  }

  /** Every finite node still has its current queue entry or has had all its open entries relaxed. */
  ghost predicate PendingCovered(adj: Adj, dist: map<int, Dist>, pq: seq<(int, nat)>, except: set<int>) {
    forall u :: u in dist && dist[u].Fin? && u !in except ==> (u, dist[u].d) in pq || Relaxed(adj, dist, u)
  }

  /** Relaxing the open entry u -> e.to from du keeps the tree invariant. */
  lemma RelaxKeepsTree(adj: Adj, src: int, dist: map<int, Dist>, parent: map<int, int>,
                       stamp: map<int, nat>, clock: nat, pq: seq<(int, nat)>,
                       u: int, du: nat, j: int, v: int, nd: nat)
    requires TreeInvariant(adj, src, dist, parent, stamp, clock, pq)
    requires u in adj && 0 <= j < |adj[u]| && adj[u][j].open
    requires u in dist && dist[u] == Fin(du)
    requires v == adj[u][j].to && nd == du + adj[u][j].weight
    requires Improves(nd, dist[v])
    ensures TreeInvariant(adj, src, dist[v := Fin(nd)], parent[v := u], stamp[v := clock], clock + 1, pq + [(v, nd)])
  {
    var e := adj[u][j];
    assert v != src && v != u;
    var dist', parent', stamp' := dist[v := Fin(nd)], parent[v := u], stamp[v := clock];
    assert OpenEdge(adj, u, v, e.weight) by {
      assert adj[u][j] == EdgeInfo(v, e.weight, true);
    }
    forall x | x in parent'
      ensures x in dist' && dist'[x].Fin? && parent'[x] in dist' && dist'[parent'[x]].Fin?
      ensures RankBelow(dist', stamp', parent'[x], x)
      ensures HasLink(adj, dist', parent'[x], x)
    {
      if x != v {
        var p := parent[x];
        assert HasLink(adj, dist, p, x);
        var w :| OpenEdge(adj, p, x, w) && dist[p].d + w <= dist[x].d;
        assert OpenEdge(adj, p, x, w) && dist'[p].d + w <= dist'[x].d;
      } else {
        assert OpenEdge(adj, u, v, e.weight) && dist'[u].d + e.weight <= dist'[v].d;
      }
    }
  }

  /** Relaxing u -> e.to keeps every other node's pending work covered. */
  lemma RelaxKeepsPending(adj: Adj, dist: map<int, Dist>, pq: seq<(int, nat)>, u: int, v: int, nd: nat)
    requires TargetsKnown(adj) && adj.Keys <= dist.Keys
    requires v in dist && Improves(nd, dist[v])
    requires PendingCovered(adj, dist, pq, {u})
    ensures PendingCovered(adj, dist[v := Fin(nd)], pq + [(v, nd)], {u})
  {
    var dist' := dist[v := Fin(nd)];
    forall x | x in dist' && dist'[x].Fin? && x != u && (x, dist'[x].d) !in pq + [(v, nd)]
      ensures Relaxed(adj, dist', x)
    {
      assert x != v;
      assert (x, dist[x].d) !in pq;
      if x in adj {
        forall k | 0 <= k < |adj[x]| && adj[x][k].open
          ensures AtMost(dist'[adj[x][k].to], dist'[x].d + adj[x][k].weight)
        {
          assert AtMost(dist[adj[x][k].to], dist[x].d + adj[x][k].weight);
        }
      }
    }
  }

  /** Relaxing u -> v keeps the entries of u already relaxed. */
  lemma RelaxKeepsRelaxedUpTo(adj: Adj, dist: map<int, Dist>, u: int, du: nat, n: int, v: int, nd: nat)
    requires u in adj && 0 <= n < |adj[u]|
    requires v == adj[u][n].to && nd == du + adj[u][n].weight
    requires v in dist && Improves(nd, dist[v])
    requires RelaxedUpTo(adj, dist, u, du, n)
    ensures RelaxedUpTo(adj, dist[v := Fin(nd)], u, du, n + 1)
  {
  }

  /** Lowering the distance of v to nd moves the measure down by one step of the lexicographic order. */
  lemma RelaxLowersTally(dist0: map<int, Dist>, pq0: seq<(int, nat)>,
                         dist: map<int, Dist>, pq: seq<(int, nat)>, v: int, nd: nat)
    requires v in dist && Improves(nd, dist[v])
    requires Tally(dist, true) <= Tally(dist0, true)
    requires Tally(dist, true) == Tally(dist0, true) ==> Tally(dist, false) + |pq| <= Tally(dist0, false) + |pq0|
    ensures Tally(dist[v := Fin(nd)], true) <= Tally(dist0, true)
    ensures Tally(dist[v := Fin(nd)], true) == Tally(dist0, true) ==>
      Tally(dist[v := Fin(nd)], false) + |pq + [(v, nd)]| <= Tally(dist0, false) + |pq0|
  {
    TallyUpdate(dist, v, Fin(nd), true);
    TallyUpdate(dist, v, Fin(nd), false);
  }

  // ---------------------------------------------------------------------
  // Consequences of the invariant once the queue is empty
  // ---------------------------------------------------------------------

  /** Parent chains descend in (dist, stamp), so they reach src. */
  lemma {:induction false} ChainByRank(adj: Adj, src: int, dist: map<int, Dist>, parent: map<int, int>,
                                       stamp: map<int, nat>, clock: nat, pq: seq<(int, nat)>, v: int)
    requires TreeInvariant(adj, src, dist, parent, stamp, clock, pq)
    requires v in dist && dist[v].Fin?
    ensures LeadsTo(parent, v, src)
    decreases dist[v].d, stamp[v]
  {
    if v == src {
      assert ChainReaches(parent, v, src, 0);
    } else {
      var p := parent[v];
      assert RankBelow(dist, stamp, p, v);
      ChainByRank(adj, src, dist, parent, stamp, clock, pq, p);
      var n: nat :| ChainReaches(parent, p, src, n);
      assert ChainReaches(parent, v, src, n + 1);
    }
  }

  /** With every finite node relaxed, no open walk from src beats the distance of its end. */
  lemma {:induction false} WalkBound(adj: Adj, src: int, dist: map<int, Dist>, p: seq<int>, ws: seq<nat>)
    requires TargetsKnown(adj) && dist.Keys == adj.Keys + {src} && dist[src] == Fin(0)
    requires forall u :: u in dist && dist[u].Fin? ==> Relaxed(adj, dist, u)
    requires IsOpenWalk(adj, p, ws) && p[0] == src
    ensures p[|p| - 1] in dist && AtMost(dist[p[|p| - 1]], Sum(ws))
    decreases |p|
  {
    if |p| > 1 {
      var n := |p|;
      var q, vs := p[..n - 1], ws[..n - 2];
      assert IsOpenWalk(adj, q, vs) by {
        forall i | 0 <= i < |vs| ensures OpenEdge(adj, q[i], q[i + 1], vs[i]) {
          assert OpenEdge(adj, p[i], p[i + 1], ws[i]);
        }
      }
      WalkBound(adj, src, dist, q, vs);
      var u, v, w := p[n - 2], p[n - 1], ws[n - 2];
      assert OpenEdge(adj, u, v, w);
      var j :| 0 <= j < |adj[u]| && adj[u][j] == EdgeInfo(v, w, true);
      assert Relaxed(adj, dist, u);
      assert AtMost(dist[v], dist[u].d + w);
      assert Sum(ws) == Sum(vs) + w;
    }
  }

  /** Once every node is relaxed, each parent link is exact. */
  lemma ParentsExactAtEnd(adj: Adj, src: int, dist: map<int, Dist>, parent: map<int, int>,
                          stamp: map<int, nat>, clock: nat, v: int)
    requires TreeInvariant(adj, src, dist, parent, stamp, clock, [])
    requires PendingCovered(adj, dist, [], {})
    requires v in parent
    ensures dist[parent[v]].d <= dist[v].d
    ensures OpenEdge(adj, parent[v], v, dist[v].d - dist[parent[v]].d)
  {
    var p := parent[v];
    var w :| OpenEdge(adj, p, v, w) && dist[p].d + w <= dist[v].d;
    var j :| 0 <= j < |adj[p]| && adj[p][j] == EdgeInfo(v, w, true);
    assert Relaxed(adj, dist, p);
    assert RelaxedUpTo(adj, dist, p, dist[p].d, |adj[p]|);
    assert AtMost(dist[v], dist[p].d + w);
  }

  lemma ParentsExact(adj: Adj, src: int, dist: map<int, Dist>, parent: map<int, int>,
                     stamp: map<int, nat>, clock: nat)
    requires TreeInvariant(adj, src, dist, parent, stamp, clock, [])
    requires PendingCovered(adj, dist, [], {})
    ensures forall v {:trigger parent[v]} :: v in parent ==>
      dist[parent[v]].d <= dist[v].d && OpenEdge(adj, parent[v], v, dist[v].d - dist[parent[v]].d)
  {
    forall v | v in parent
      ensures dist[parent[v]].d <= dist[v].d
      ensures OpenEdge(adj, parent[v], v, dist[v].d - dist[parent[v]].d)
    {
      ParentsExactAtEnd(adj, src, dist, parent, stamp, clock, v);
    }
  }

  lemma ChainsReachSource(adj: Adj, src: int, dist: map<int, Dist>, parent: map<int, int>,
                          stamp: map<int, nat>, clock: nat)
    requires TreeInvariant(adj, src, dist, parent, stamp, clock, [])
    ensures forall v :: v in dist && dist[v].Fin? ==> LeadsTo(parent, v, src)
  {
    forall v | v in dist && dist[v].Fin? ensures LeadsTo(parent, v, src) {
      ChainByRank(adj, src, dist, parent, stamp, clock, [], v);
    }
  }

  lemma WalksBounded(adj: Adj, src: int, dist: map<int, Dist>, parent: map<int, int>,
                     stamp: map<int, nat>, clock: nat)
    requires TreeInvariant(adj, src, dist, parent, stamp, clock, [])
    requires PendingCovered(adj, dist, [], {})
    ensures forall p, ws :: IsOpenWalk(adj, p, ws) && p[0] == src ==>
      p[|p| - 1] in dist && AtMost(dist[p[|p| - 1]], Sum(ws))
  {
    forall p, ws | IsOpenWalk(adj, p, ws) && p[0] == src
      ensures p[|p| - 1] in dist && AtMost(dist[p[|p| - 1]], Sum(ws))
    {
      WalkBound(adj, src, dist, p, ws);
    }
  }

  lemma TreeAtEnd(adj: Adj, src: int, dist: map<int, Dist>, parent: map<int, int>,
                  stamp: map<int, nat>, clock: nat)
    requires TreeInvariant(adj, src, dist, parent, stamp, clock, [])
    requires PendingCovered(adj, dist, [], {})
    ensures IsShortestPathTree(adj, src, dist, parent)
  {
    ParentsExact(adj, src, dist, parent, stamp, clock);
    ChainsReachSource(adj, src, dist, parent, stamp, clock);
    WalksBounded(adj, src, dist, parent, stamp, clock);
  }

  // ---------------------------------------------------------------------
  // The priority queue: extract-min over a sequence
  // ---------------------------------------------------------------------

  /** The position of an entry of least distance (priority_queue::top); ties go to the first. */
  method MinIndex(pq: seq<(int, nat)>) returns (i: nat)
    requires pq != []
    ensures i < |pq|
    ensures forall k :: 0 <= k < |pq| ==> pq[i].1 <= pq[k].1
  {
    i := 0;
    var k := 1;
    while k < |pq|
      invariant i < k <= |pq|
      invariant forall m :: 0 <= m < k ==> pq[i].1 <= pq[m].1
    {
      if pq[k].1 < pq[i].1 { i := k; }
      k := k + 1;
    }
  }

  /** Removing the entry at i keeps every invariant, except that a current entry's node must be relaxed again. */
  lemma PopKeepsInvariants(adj: Adj, src: int, dist: map<int, Dist>, parent: map<int, int>,
                           stamp: map<int, nat>, clock: nat, pq: seq<(int, nat)>, i: nat)
    requires TreeInvariant(adj, src, dist, parent, stamp, clock, pq)
    requires PendingCovered(adj, dist, pq, {})
    requires i < |pq|
    ensures pq[i].0 in dist
    ensures TreeInvariant(adj, src, dist, parent, stamp, clock, pq[..i] + pq[i + 1..])
    ensures PendingCovered(adj, dist, pq[..i] + pq[i + 1..], {pq[i].0})
    ensures dist[pq[i].0] != Fin(pq[i].1) ==> PendingCovered(adj, dist, pq[..i] + pq[i + 1..], {})
  {
    var rest := pq[..i] + pq[i + 1..];
    assert pq == pq[..i] + [pq[i]] + pq[i + 1..];
    assert forall x :: x in pq && x != pq[i] ==> x in rest;
    assert forall k :: 0 <= k < |rest| ==> rest[k] in pq;
  }

  // ---------------------------------------------------------------------
  // dijkstra_with_parents
  // ---------------------------------------------------------------------

  /** The variables of a run: distances, parents, the queue, and the ghost stamps and clock. */
  datatype RunState = RunState(dist: map<int, Dist>, parent: map<int, int>, pq: seq<(int, nat)>,
                               stamp: map<int, nat>, clock: nat)

  /** The invariant of the inner loop of dijkstra_with_parents, after the first j entries of u. */
  ghost predicate RelaxLoopInvariant(adj: Adj, src: int, u: int, du: nat, j: int,
                                     dist0: map<int, Dist>, pq0: seq<(int, nat)>, s: RunState)
  {
    match s
    case RunState(dist, parent, pq, stamp, clock) =>
    u in adj && 0 <= j <= |adj[u]| &&
    TreeInvariant(adj, src, dist, parent, stamp, clock, pq) &&
    dist[u] == Fin(du) &&
    PendingCovered(adj, dist, pq, {u}) &&
    RelaxedUpTo(adj, dist, u, du, j) &&
    Tally(dist, true) <= Tally(dist0, true) &&
    (Tally(dist, true) == Tally(dist0, true) ==> Tally(dist, false) + |pq| <= Tally(dist0, false) + |pq0|)
  }

  /** Relaxing entry j of u, when it improves its target, moves the inner loop on by one. */
  lemma RelaxStep(adj: Adj, src: int, u: int, du: nat, j: int,
                  dist0: map<int, Dist>, pq0: seq<(int, nat)>, s: RunState, v: int, nd: nat)
    requires RelaxLoopInvariant(adj, src, u, du, j, dist0, pq0, s)
    requires j < |adj[u]| && adj[u][j].open
    requires v == adj[u][j].to && nd == du + adj[u][j].weight
    requires Improves(nd, s.dist[v])
    ensures RelaxLoopInvariant(adj, src, u, du, j + 1, dist0, pq0,
                               RunState(s.dist[v := Fin(nd)], s.parent[v := u], s.pq + [(v, nd)],
                                        s.stamp[v := s.clock], s.clock + 1))
  {
    RelaxKeepsTree(adj, src, s.dist, s.parent, s.stamp, s.clock, s.pq, u, du, j, v, nd);
    RelaxKeepsPending(adj, s.dist, s.pq, u, v, nd);
    RelaxKeepsRelaxedUpTo(adj, s.dist, u, du, j, v, nd);
    RelaxLowersTally(dist0, pq0, s.dist, s.pq, v, nd);
  }

  /** A closed entry, or one that does not improve its target, changes nothing. */
  lemma SkipStep(adj: Adj, src: int, u: int, du: nat, j: int,
                 dist0: map<int, Dist>, pq0: seq<(int, nat)>, s: RunState)
    requires RelaxLoopInvariant(adj, src, u, du, j, dist0, pq0, s)
    requires j < |adj[u]|
    requires adj[u][j].open ==> !Improves(du + adj[u][j].weight, s.dist[adj[u][j].to])
    ensures RelaxLoopInvariant(adj, src, u, du, j + 1, dist0, pq0, s)
  {
  }

  /** The inner loop starts from the state the outer loop hands over. */
  lemma RelaxStart(adj: Adj, src: int, u: int, du: nat,
                   dist: map<int, Dist>, parent: map<int, int>, pq: seq<(int, nat)>,
                   stamp: map<int, nat>, clock: nat)
    requires TreeInvariant(adj, src, dist, parent, stamp, clock, pq)
    requires u in adj && u in dist && dist[u] == Fin(du)
    requires PendingCovered(adj, dist, pq, {u})
    ensures RelaxLoopInvariant(adj, src, u, du, 0, dist, pq, RunState(dist, parent, pq, stamp, clock))
  {
  }

  /** Once all of u's entries are relaxed, u is covered again; so is a node without entries. */
  lemma RelaxDone(adj: Adj, dist: map<int, Dist>, pq: seq<(int, nat)>, u: int, du: nat)
    requires adj.Keys <= dist.Keys && u in dist && dist[u] == Fin(du)
    requires PendingCovered(adj, dist, pq, {u})
    requires u in adj ==> RelaxedUpTo(adj, dist, u, du, |adj[u]|)
    ensures PendingCovered(adj, dist, pq, {})
  {
    assert Relaxed(adj, dist, u);
  }

  /** One iteration of the inner loop: entry j of u is relaxed when it is open and improves its target. */
  method RelaxOne(adj: Adj, src: int, u: int, du: nat, j: int,
                  ghost dist0: map<int, Dist>, ghost pq0: seq<(int, nat)>,
                  dist: map<int, Dist>, parent: map<int, int>, pq: seq<(int, nat)>,
                  ghost stamp: map<int, nat>, ghost clock: nat)
    returns (dist': map<int, Dist>, parent': map<int, int>, pq': seq<(int, nat)>,
             ghost stamp': map<int, nat>, ghost clock': nat)
    requires RelaxLoopInvariant(adj, src, u, du, j, dist0, pq0, RunState(dist, parent, pq, stamp, clock))
    requires j < |adj[u]|
    ensures RelaxLoopInvariant(adj, src, u, du, j + 1, dist0, pq0, RunState(dist', parent', pq', stamp', clock'))
    ensures NeverWorse(dist, dist')
  {
    var e := adj[u][j];
    if e.open && Improves(du + e.weight, dist[e.to]) {
      var nd := du + e.weight;
      RelaxStep(adj, src, u, du, j, dist0, pq0, RunState(dist, parent, pq, stamp, clock), e.to, nd);
      dist', parent', pq' := dist[e.to := Fin(nd)], parent[e.to := u], pq + [(e.to, nd)];
      stamp', clock' := stamp[e.to := clock], clock + 1;
    } else {
      SkipStep(adj, src, u, du, j, dist0, pq0, RunState(dist, parent, pq, stamp, clock));
      dist', parent', pq', stamp', clock' := dist, parent, pq, stamp, clock;
    }
  }

  /**
   * The inner loop of dijkstra_with_parents: relax every open adjacency
   * entry of the freshly popped node u, whose distance is du. Afterwards
   * u's entries are all relaxed; the other nodes keep their coverage.
   */
  method RelaxEntries(adj: Adj, src: int, u: int, du: nat,
                      dist0: map<int, Dist>, parent0: map<int, int>, pq0: seq<(int, nat)>,
                      ghost stamp0: map<int, nat>, ghost clock0: nat)
    returns (dist: map<int, Dist>, parent: map<int, int>, pq: seq<(int, nat)>,
             ghost stamp: map<int, nat>, ghost clock: nat)
    requires TreeInvariant(adj, src, dist0, parent0, stamp0, clock0, pq0)
    requires u in dist0 && dist0[u] == Fin(du)
    requires PendingCovered(adj, dist0, pq0, {u})
    ensures TreeInvariant(adj, src, dist, parent, stamp, clock, pq)
    ensures PendingCovered(adj, dist, pq, {})
    ensures Tally(dist, true) <= Tally(dist0, true)
    ensures Tally(dist, true) == Tally(dist0, true) ==> Tally(dist, false) + |pq| <= Tally(dist0, false) + |pq0|
    ensures NeverWorse(dist0, dist)
  {
    dist, parent, pq, stamp, clock := dist0, parent0, pq0, stamp0, clock0;
    if u !in adj {
      RelaxDone(adj, dist, pq, u, du);
      return;
    }
    RelaxStart(adj, src, u, du, dist, parent, pq, stamp, clock);
    var j := 0;
    while j < |adj[u]|
      invariant RelaxLoopInvariant(adj, src, u, du, j, dist0, pq0, RunState(dist, parent, pq, stamp, clock))
      invariant NeverWorse(dist0, dist)
      decreases |adj[u]| - j
    {
      dist, parent, pq, stamp, clock := RelaxOne(adj, src, u, du, j, dist0, pq0, dist, parent, pq, stamp, clock);
      j := j + 1;
    }
    RelaxDone(adj, dist, pq, u, du);
  }

  /** The invariant of the outer loop of dijkstra_with_parents. */
  ghost predicate RunInvariant(adj: Adj, src: int, s: RunState) {
    match s
    case RunState(dist, parent, pq, stamp, clock) =>
    TreeInvariant(adj, src, dist, parent, stamp, clock, pq) && PendingCovered(adj, dist, pq, {})
  }

  /** The state the run starts from: src at 0 and in the queue, every other node at infinity. */
  lemma RunStarts(adj: Adj, src: int, s: RunState)
    requires TargetsKnown(adj)
    requires s.dist == (map v | v in adj :: Inf)[src := Fin(0)]
    requires s.parent == map[] && s.pq == [(src, 0)]
    requires s.stamp == (map v | v in s.dist :: 0) && s.clock == 1
    ensures RunInvariant(adj, src, s)
  {
  }

  /** With the queue empty, the run's distances and parents form a shortest-path tree. */
  lemma RunFinishes(adj: Adj, src: int, s: RunState)
    requires RunInvariant(adj, src, s) && s.pq == []
    ensures IsShortestPathTree(adj, src, s.dist, s.parent)
  {
    TreeAtEnd(adj, src, s.dist, s.parent, s.stamp, s.clock);
  }

  /**
   * One iteration of the outer loop of dijkstra_with_parents: pop an entry
   * of least distance; discard it when it is stale, otherwise relax its
   * node's entries. Either way the measure goes down.
   */
  method SettleNext(adj: Adj, src: int, dist: map<int, Dist>, parent: map<int, int>, pq: seq<(int, nat)>,
                    ghost stamp: map<int, nat>, ghost clock: nat)
    returns (dist': map<int, Dist>, parent': map<int, int>, pq': seq<(int, nat)>,
             ghost stamp': map<int, nat>, ghost clock': nat)
    requires pq != []
    requires RunInvariant(adj, src, RunState(dist, parent, pq, stamp, clock))
    ensures RunInvariant(adj, src, RunState(dist', parent', pq', stamp', clock'))
    ensures Tally(dist', true) < Tally(dist, true) ||
            (Tally(dist', true) == Tally(dist, true) && Tally(dist', false) + |pq'| < Tally(dist, false) + |pq|)
    ensures NeverWorse(dist, dist')
  {
    var i := MinIndex(pq);
    var u, du := pq[i].0, pq[i].1;
    PopKeepsInvariants(adj, src, dist, parent, stamp, clock, pq, i);
    var rest := pq[..i] + pq[i + 1..];
    if dist[u] != Fin(du) {
      // a stale entry
      dist', parent', pq', stamp', clock' := dist, parent, rest, stamp, clock;
    } else {
      dist', parent', pq', stamp', clock' := RelaxEntries(adj, src, u, du, dist, parent, rest, stamp, clock);
    }
  }

  /**
   * Single-source shortest paths over open edges. Every node of adj starts
   * at infinity and src at 0; a popped entry whose distance is no longer
   * the node's is discarded; closed entries are skipped; an improvement
   * records the parent and queues the node again.
   */
  method Dijkstra(adj: Adj, src: int) returns (dist: map<int, Dist>, parent: map<int, int>)
    requires TargetsKnown(adj)
    ensures IsShortestPathTree(adj, src, dist, parent)
  {
    dist := map v | v in adj :: Inf;
    dist := dist[src := Fin(0)];
    parent := map[];
    var pq: seq<(int, nat)> := [(src, 0)];
    ghost var stamp: map<int, nat> := map v | v in dist :: 0;
    ghost var clock: nat := 1;
    RunStarts(adj, src, RunState(dist, parent, pq, stamp, clock));
    while pq != []
      invariant RunInvariant(adj, src, RunState(dist, parent, pq, stamp, clock))
      decreases Tally(dist, true), Tally(dist, false) + |pq|
    {
      dist, parent, pq, stamp, clock := SettleNext(adj, src, dist, parent, pq, stamp, clock);
    }
    RunFinishes(adj, src, RunState(dist, parent, pq, stamp, clock));
  }
}
