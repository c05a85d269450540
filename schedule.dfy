/**
 * The travel times of printShortestEdges and the schedule check of
 * verifySchedule: both read a shortest-path run, report -1 for a node the
 * run left at infinity, and the schedule check compares the time needed
 * between consecutive classes with the gap between them.
 */
module Schedule {
  import opened Wrappers
  import opened Records
  import opened Graph
  import opened PathEngine
  import opened Ordering
  import opened Zone
  import Connectivity

  // ---------------------------------------------------------------------
  // Travel times
  // ---------------------------------------------------------------------

  /** An open walk from a to b. */
  ghost predicate IsWalkBetween(adj: Adj, a: int, b: int, p: seq<int>, ws: seq<nat>) {
    IsOpenWalk(adj, p, ws) && p[0] == a && p[|p| - 1] == b
  }

  /**
   * d is the travel time from a to b over open edges: -1 when b cannot be
   * reached, otherwise the weight of some open walk and no more than the
   * weight of any.
   */
  ghost predicate IsTravelTime(adj: Adj, a: int, b: int, d: int) {
    if d == -1 then !Reachable(adj, a, b)
    else
      d >= 0 &&
      (exists p, ws :: IsWalkBetween(adj, a, b, p, ws) && Sum(ws) == d) &&
      (forall p, ws :: IsWalkBetween(adj, a, b, p, ws) ==> d <= Sum(ws))
  }

  /** The number printed for v: its distance, or -1 unless it is present and not INT_MAX. */
  function ReportedTime(dist: map<int, Dist>, v: int): (d: int)
    ensures d >= -1
    ensures d == -1 <==> !Finite(dist, v)
  {
    if Finite(dist, v) then dist[v].d else -1
  }

  /** Read from a shortest-path tree, the reported number is the travel time. */
  lemma TreeTravelTime(adj: Adj, src: int, dist: map<int, Dist>, parent: map<int, int>, v: int)
    requires IsShortestPathTree(adj, src, dist, parent)
    ensures IsTravelTime(adj, src, v, ReportedTime(dist, v))
  {
    Connectivity.FiniteIffReachable(adj, src, dist, parent, v);
    if Finite(dist, v) {
      Connectivity.FiniteDistanceIsRealised(adj, src, dist, parent, v);
      var p, ws :| IsOpenWalk(adj, p, ws) && p[0] == src && p[|p| - 1] == v &&
                   Sum(ws) == dist[v].d && Connectivity.FollowsParents(parent, p);
      assert IsWalkBetween(adj, src, v, p, ws);
      forall q, vs | IsWalkBetween(adj, src, v, q, vs) ensures dist[v].d <= Sum(vs) {
        assert AtMost(dist[q[|q| - 1]], Sum(vs));
      }
    }
  }

  /** A travel time is -1 exactly when the destination cannot be reached. */
  lemma TravelTimeReachable(adj: Adj, a: int, b: int, d: int)
    requires IsTravelTime(adj, a, b, d)
    ensures d == -1 <==> !Reachable(adj, a, b)
  {
    if d != -1 {
      var p, ws :| IsWalkBetween(adj, a, b, p, ws) && Sum(ws) == d;
      WalkIsPath(adj, p, ws);
    }
  }

  /**
   * The travel time depends on the graph alone: whichever equal-cost
   * parents the queue order records, every run reports the same number.
   */
  lemma TravelTimeUnique(adj: Adj, a: int, b: int, d1: int, d2: int)
    requires IsTravelTime(adj, a, b, d1) && IsTravelTime(adj, a, b, d2)
    ensures d1 == d2
  {
    TravelTimeReachable(adj, a, b, d1);
    TravelTimeReachable(adj, a, b, d2);
    if d1 != -1 && d2 != -1 {
      var p1, ws1 :| IsWalkBetween(adj, a, b, p1, ws1) && Sum(ws1) == d1;
      var p2, ws2 :| IsWalkBetween(adj, a, b, p2, ws2) && Sum(ws2) == d2;
    }
  }

  /** Every node reaches itself in time 0. */
  lemma TravelTimeToSelf(adj: Adj, a: int)
    ensures IsTravelTime(adj, a, a, 0)
  {
    assert IsWalkBetween(adj, a, a, [a], []) && Sum([]) == 0;
  }

  /**
   * Closing every edge at a residence leaves each class elsewhere at
   * travel time -1, and a class at the residence itself at 0.
   */
  lemma IsolatedTravelTimes(adj: Adj, v: int, x: int)
    requires v in adj ==> forall j :: 0 <= j < |adj[v]| ==> !adj[v][j].open
    ensures IsTravelTime(adj, v, x, if x == v then 0 else -1)
  {
    Connectivity.IsolatedReachesOnlyItself(adj, v, x);
    if x == v {
      TravelTimeToSelf(adj, v);
    }
  }

  /**
   * With every edge at n closed, the travel time between n and any other
   * node is -1 in both directions, and 0 from n to itself.
   */
  lemma ClosedOffNodeTimes(g: GraphState, n: int, m: int)
    requires GraphInvariant(g)
    requires forall x :: EdgeStatusOf(g.edges, n, x) != Open
    ensures IsTravelTime(g.adj, n, m, if m == n then 0 else -1)
    ensures IsTravelTime(g.adj, m, n, if m == n then 0 else -1)
  {
    Connectivity.ClosedOffNode(g, n, m);
    if m == n {
      TravelTimeToSelf(g.adj, n);
    }
  }

  /**
   * The same read off a shortest-path run from m: printShortestEdges and
   * verifySchedule report -1 for n from every other source.
   */
  lemma ClosedOffNodeReported(g: GraphState, n: int, m: int, dist: map<int, Dist>, parent: map<int, int>)
    requires GraphInvariant(g)
    requires forall x :: EdgeStatusOf(g.edges, n, x) != Open
    requires IsShortestPathTree(g.adj, m, dist, parent)
    ensures ReportedTime(dist, n) == if m == n then 0 else -1
  {
    ClosedOffNodeTimes(g, n, m);
    TreeTravelTime(g.adj, m, dist, parent, n);
    TravelTimeUnique(g.adj, m, n, ReportedTime(dist, n), if m == n then 0 else -1);
  }

  // ---------------------------------------------------------------------
  // printShortestEdges
  // ---------------------------------------------------------------------

  /**
   * The lines of printShortestEdges: one per code, in strictly ascending
   * string order, each with the travel time from the residence to the
   * class's location.
   */
  ghost predicate IsTimesReport(adj: Adj, res: int, table: map<string, ClassInfo>, codes: set<string>,
                                lines: seq<(string, int)>) {
    |lines| == |codes| &&
    (forall cc :: cc in codes <==> exists i :: 0 <= i < |lines| && lines[i].0 == cc) &&
    (forall i, j :: 0 <= i < j < |lines| ==> LexLess(lines[i].0, lines[j].0)) &&
    (forall i :: 0 <= i < |lines| ==> IsTravelTime(adj, res, LocOf(table, lines[i].0), lines[i].1))
  }

  /** One Dijkstra run from the residence, then the lookup for each code in sorted order. */
  method ShortestTimes(adj: Adj, res: int, table: map<string, ClassInfo>, codes: set<string>)
    returns (lines: seq<(string, int)>)
    requires TargetsKnown(adj)
    ensures IsTimesReport(adj, res, table, codes, lines)
  {
    var dist, parent := Dijkstra(adj, res);
    var unsorted := ElementsOf(codes);
    LexLeIsTotalOrder();
    var sorted := SortBy(unsorted, LexLe);
    ElementsDistinct(sorted, codes);
    lines := [];
    var i := 0;
    while i < |sorted|
      invariant 0 <= i <= |sorted| && |lines| == i
      invariant forall k :: 0 <= k < i ==>
        lines[k].0 == sorted[k] && lines[k].1 == ReportedTime(dist, LocOf(table, sorted[k]))
    {
      lines := lines + [(sorted[i], ReportedTime(dist, LocOf(table, sorted[i])))];
      i := i + 1;
    }
    assert |multiset(sorted)| == |multiset(codes)|;
    forall cc ensures cc in codes <==> exists i :: 0 <= i < |lines| && lines[i].0 == cc {
      assert cc in codes <==> cc in multiset(sorted);
    }
    forall k | 0 <= k < |lines| ensures IsTravelTime(adj, res, LocOf(table, lines[k].0), lines[k].1) {
      TreeTravelTime(adj, res, dist, parent, LocOf(table, sorted[k]));
    }
  }

  // ---------------------------------------------------------------------
  // verifySchedule
  // ---------------------------------------------------------------------

  /** An entry of the `order` vector: a class's start time and its code. */
  type Slot = (int, string)

  /** std::pair's operator<=: by start time, then by code. */
  predicate SlotLe(x: Slot, y: Slot) {
    x.0 < y.0 || (x.0 == y.0 && LexLe(x.1, y.1))
  }

  lemma SlotLeIsTotalOrder()
    ensures IsTotalPreorder(SlotLe) && IsAntisymmetric(SlotLe)
  {
    LexLeTotalOrder();
  }

  /** The slots of the codes the class table knows; codes it does not know are skipped. */
  ghost function Slots(table: map<string, ClassInfo>, codes: set<string>): set<Slot> {
    set cc | cc in codes && cc in table :: (table[cc].startMinutes, cc)
  }

  /** Adding one code adds at most its own slot, which was not there before. */
  lemma SlotsAdd(table: map<string, ClassInfo>, done: set<string>, cc: string)
    requires cc !in done
    ensures cc in table ==> Slots(table, done + {cc}) == Slots(table, done) + {(table[cc].startMinutes, cc)}
    ensures cc in table ==> (table[cc].startMinutes, cc) !in Slots(table, done)
    ensures cc !in table ==> Slots(table, done + {cc}) == Slots(table, done)
  {
  }

  /** The slot, if any, that visiting code cc appends. */
  function SlotsOf(table: map<string, ClassInfo>, cc: string): seq<Slot> {
    if cc in table then [(table[cc].startMinutes, cc)] else []
  }

  /** One iteration over the student's codes keeps the collected slots those of the codes visited. */
  lemma SlotStep(table: map<string, ClassInfo>, codes: set<string>, rest: set<string>, cc: string, slots: seq<Slot>)
    requires cc in rest && rest <= codes
    requires multiset(slots) == multiset(Slots(table, codes - rest))
    ensures multiset(slots + SlotsOf(table, cc)) == multiset(Slots(table, codes - (rest - {cc})))
  {
    var done := codes - rest;
    SlotsAdd(table, done, cc);
    assert codes - (rest - {cc}) == done + {cc};
    assert multiset(slots + SlotsOf(table, cc)) == multiset(slots) + multiset(SlotsOf(table, cc));
  }

  /** ... and counts them: one slot per visited code that the table knows. */
  lemma SlotCount(table: map<string, ClassInfo>, codes: set<string>, rest: set<string>, cc: string, slots: seq<Slot>)
    requires cc in rest && rest <= codes
    requires |slots| == |(codes - rest) * table.Keys|
    ensures |slots + SlotsOf(table, cc)| == |(codes - (rest - {cc})) * table.Keys|
  {
    var done := codes - rest;
    assert codes - (rest - {cc}) == done + {cc};
    if cc in table {
      assert (done + {cc}) * table.Keys == done * table.Keys + {cc};
    } else {
      assert (done + {cc}) * table.Keys == done * table.Keys;
    }
  }

  /** Every collected slot belongs to a code of the student that the table knows. */
  lemma SlotMembers(table: map<string, ClassInfo>, codes: set<string>, order: seq<Slot>)
    requires multiset(order) == multiset(Slots(table, codes))
    ensures forall i :: 0 <= i < |order| ==>
      order[i].1 in codes && order[i].1 in table && order[i].0 == table[order[i].1].startMinutes
  {
    forall i | 0 <= i < |order|
      ensures order[i].1 in codes && order[i].1 in table && order[i].0 == table[order[i].1].startMinutes
    {
      assert order[i] in multiset(order);
    }
  }

  /** The loop over the chosen codes: one slot per code that has a table entry. */
  method CollectSlots(table: map<string, ClassInfo>, codes: set<string>) returns (slots: seq<Slot>)
    ensures multiset(slots) == multiset(Slots(table, codes))
    ensures |slots| == |codes * table.Keys|
  {
    slots := [];
    var rest := codes;
    while rest != {}
      invariant rest <= codes
      invariant multiset(slots) == multiset(Slots(table, codes - rest))
      invariant |slots| == |(codes - rest) * table.Keys|
      decreases |rest|
    {
      var cc :| cc in rest;
      SlotStep(table, codes, rest, cc, slots);
      SlotCount(table, codes, rest, cc, slots);
      slots := slots + SlotsOf(table, cc);
      rest := rest - {cc};
    }
    assert codes - rest == codes;
  }

  /** The schedule vector: the slots of the chosen codes, sorted by start time, then code. */
  method BuildOrder(table: map<string, ClassInfo>, codes: set<string>) returns (order: seq<Slot>)
    ensures multiset(order) == multiset(Slots(table, codes))
    ensures SortedBy(order, SlotLe)
    ensures |order| == |codes * table.Keys|
    ensures forall i :: 0 <= i < |order| ==>
      order[i].1 in codes && order[i].1 in table && order[i].0 == table[order[i].1].startMinutes
  {
    var slots := CollectSlots(table, codes);
    SlotLeIsTotalOrder();
    order := SortBy(slots, SlotLe);
    assert |order| == |multiset(order)| == |slots|;
    SlotMembers(table, codes, order);
  }

  /** Whatever order the codes are visited in, the sorted vector is the same. */
  lemma OrderIsDetermined(table: map<string, ClassInfo>, codes: set<string>, o1: seq<Slot>, o2: seq<Slot>)
    requires multiset(o1) == multiset(Slots(table, codes)) && SortedBy(o1, SlotLe)
    requires multiset(o2) == multiset(Slots(table, codes)) && SortedBy(o2, SlotLe)
    ensures o1 == o2
  {
    SlotLeIsTotalOrder();
    SortedUnique(o1, o2, SlotLe);
  }

  /** One line of the schedule check: the two classes, the time needed, the gap and the verdict. */
  datatype Verdict = Verdict(from: string, to: string, needed: int, gap: int, canMakeIt: bool)

  /**
   * v is the check of going from class cA to class cB: needed is the travel
   * time between their locations (-1 when unreachable), gap is the time from
   * the end of cA to the start of cB, and the verdict is gap >= needed.
   */
  ghost predicate VerdictFor(adj: Adj, table: map<string, ClassInfo>, cA: string, cB: string, v: Verdict) {
    cA in table && cB in table && v.from == cA && v.to == cB &&
    IsTravelTime(adj, table[cA].loc, table[cB].loc, v.needed) &&
    v.gap == table[cB].startMinutes - table[cA].endMinutes &&
    (v.canMakeIt <==> v.gap >= v.needed)
  }

  /** verdicts[i] is the check of going from the class of order[i] to the class of order[i + 1]. */
  ghost predicate VerdictsFor(adj: Adj, table: map<string, ClassInfo>, order: seq<Slot>, verdicts: seq<Verdict>) {
    forall i {:trigger verdicts[i]} :: 0 <= i < |verdicts| ==>
      i + 1 < |order| && VerdictFor(adj, table, order[i].1, order[i + 1].1, verdicts[i])
  }

  lemma VerdictsExtend(adj: Adj, table: map<string, ClassInfo>, order: seq<Slot>, verdicts: seq<Verdict>, v: Verdict)
    requires VerdictsFor(adj, table, order, verdicts) && |verdicts| + 1 < |order|
    requires VerdictFor(adj, table, order[|verdicts|].1, order[|verdicts| + 1].1, v)
    ensures VerdictsFor(adj, table, order, verdicts + [v])
  {
    var vs := verdicts + [v];
    forall i {:trigger vs[i]} | 0 <= i < |vs| ensures i + 1 < |order| && VerdictFor(adj, table, order[i].1, order[i + 1].1, vs[i]) {
      if i < |verdicts| {
        assert vs[i] == verdicts[i];
      }
    }
  }

  /** One pair: a fresh shortest-path run from the earlier class's location. */
  method CheckPair(adj: Adj, table: map<string, ClassInfo>, cA: string, cB: string) returns (v: Verdict)
    requires TargetsKnown(adj) && cA in table && cB in table
    ensures VerdictFor(adj, table, cA, cB, v)
  {
    var locA, locB := table[cA].loc, table[cB].loc;
    var distA, parentA := Dijkstra(adj, locA);
    var needed := ReportedTime(distA, locB);
    TreeTravelTime(adj, locA, distA, parentA, locB);
    var gap := table[cB].startMinutes - table[cA].endMinutes;
    v := Verdict(cA, cB, needed, gap, gap >= needed);
  }

  /**
   * verifySchedule for one student's codes: None (unsuccessful) for one
   * class or none; otherwise one verdict per consecutive pair of the sorted
   * slots.
   */
  method VerifySchedule(adj: Adj, table: map<string, ClassInfo>, codes: set<string>)
    returns (r: Option<seq<Verdict>>, order: seq<Slot>)
    requires TargetsKnown(adj)
    ensures r.None? <==> |codes| <= 1
    ensures r.Some? ==> multiset(order) == multiset(Slots(table, codes)) && SortedBy(order, SlotLe)
    ensures r.Some? ==> |r.value| == if codes * table.Keys == {} then 0 else |codes * table.Keys| - 1
    ensures r.Some? ==> VerdictsFor(adj, table, order, r.value)
  {
    if |codes| <= 1 {
      return None, [];
    }
    order := BuildOrder(table, codes);
    var verdicts: seq<Verdict> := [];
    var i := 0;
    while i + 1 < |order|
      invariant |verdicts| == i
      invariant |order| == 0 ==> i == 0
      invariant |order| > 0 ==> i <= |order| - 1
      invariant VerdictsFor(adj, table, order, verdicts)
    {
      var v := CheckPair(adj, table, order[i].1, order[i + 1].1);
      VerdictsExtend(adj, table, order, verdicts, v);
      verdicts := verdicts + [v];
      i := i + 1;
    }
    r := Some(verdicts);
  }

  // ---------------------------------------------------------------------
  // What a verdict means
  // ---------------------------------------------------------------------

  /**
   * A positive verdict with a reachable destination means some open walk
   * fits in the gap; a negative verdict means none does.
   */
  lemma VerdictMeaning(adj: Adj, table: map<string, ClassInfo>, cA: string, cB: string, v: Verdict)
    requires VerdictFor(adj, table, cA, cB, v)
    ensures v.canMakeIt && Reachable(adj, table[cA].loc, table[cB].loc) ==>
      exists p, ws :: IsWalkBetween(adj, table[cA].loc, table[cB].loc, p, ws) && Sum(ws) <= v.gap
    ensures !v.canMakeIt ==>
      forall p, ws :: IsWalkBetween(adj, table[cA].loc, table[cB].loc, p, ws) ==> v.gap < Sum(ws)
  {
    TravelTimeReachable(adj, table[cA].loc, table[cB].loc, v.needed);
  }

  /**
   * As written, an unreachable destination needs -1 minutes: the verdict is
   * positive for every gap of at least -1, although no walk exists.
   */
  lemma UnreachableCanMakeIt(adj: Adj, table: map<string, ClassInfo>, cA: string, cB: string, v: Verdict)
    requires VerdictFor(adj, table, cA, cB, v)
    requires !Reachable(adj, table[cA].loc, table[cB].loc)
    ensures v.needed == -1
    ensures v.canMakeIt <==> v.gap >= -1
  {
    TravelTimeReachable(adj, table[cA].loc, table[cB].loc, v.needed);
  }

  /** The boundary case: a gap equal to the travel time is enough. */
  lemma ExactGapIsEnough(adj: Adj, table: map<string, ClassInfo>, cA: string, cB: string, v: Verdict)
    requires VerdictFor(adj, table, cA, cB, v)
    requires v.gap == v.needed
    ensures v.canMakeIt
  {
  }
}
