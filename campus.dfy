/**
 * The CampusCompass object: the graph store, the class table and the
 * student table, the state ParseCSV loads into them, and one method per
 * command of ParseCommand. Each method returns what the command prints,
 * with None for "unsuccessful".
 */
module Campus {
  import opened Wrappers
  import opened Records
  import opened Validation
  import opened Graph
  import opened Ordering
  import opened Roster
  import opened SpanningForest
  import Connectivity
  import Zone
  import Schedule

  // ---------------------------------------------------------------------
  // The state ParseCSV builds
  // ---------------------------------------------------------------------

  /** One row of the edges file, its fields already read as numbers. */
  datatype EdgeRow = EdgeRow(a: int, b: int, weight: nat)

  /** One row of the classes file, its times already parsed. */
  datatype ClassRow = ClassRow(code: string, loc: int, startMinutes: int, endMinutes: int)

  /** Every entry and every record is open, as they are while loading. */
  ghost predicate AllOpen(g: GraphState) {
    (forall u, j :: u in g.adj && 0 <= j < |g.adj[u]| ==> g.adj[u][j].open) &&
    (forall k :: k in g.edges ==> g.edges[k].open)
  }

  /** One edge row: an open entry in each direction, and the pair's record overwritten. */
  function AddEdge(g: GraphState, r: EdgeRow): GraphState {
    var adj1 := g.adj[r.a := ListOf(g.adj, r.a) + [EdgeInfo(r.b, r.weight, true)]];
    var adj2 := adj1[r.b := ListOf(adj1, r.b) + [EdgeInfo(r.a, r.weight, true)]];
    GraphState(adj2, g.edges[Canon(r.a, r.b) := EdgeRecord(r.weight, true)])
  }

  /** The graph after the rows of the edges file, in file order. */
  function LoadEdges(rows: seq<EdgeRow>): GraphState {
    if rows == [] then GraphState(map[], map[])
    else AddEdge(LoadEdges(rows[..|rows| - 1]), rows[|rows| - 1])
  }

  /**
   * Adding an edge row to a graph whose entries are all open keeps the
   * invariant, and the pair is open in both directions afterwards. A
   * repeated pair keeps its earlier entries too; they are open, so they
   * agree with the overwritten record.
   */
  lemma AddEdgeKeepsInvariant(g: GraphState, r: EdgeRow)
    requires GraphInvariant(g) && AllOpen(g)
    ensures GraphInvariant(AddEdge(g, r)) && AllOpen(AddEdge(g, r))
    ensures EdgeStatusOf(AddEdge(g, r).edges, r.a, r.b) == Open
    ensures Adjacent(AddEdge(g, r).adj, r.a, r.b) && Adjacent(AddEdge(g, r).adj, r.b, r.a)
  {
    var g' := AddEdge(g, r);
    var adj1 := g.adj[r.a := ListOf(g.adj, r.a) + [EdgeInfo(r.b, r.weight, true)]];
    forall u, j | u in g'.adj && 0 <= j < |g'.adj[u]|
      ensures g'.adj[u][j].to in g'.adj && g'.adj[u][j].open
      ensures Canon(u, g'.adj[u][j].to) in g'.edges && g'.edges[Canon(u, g'.adj[u][j].to)].open
    {
      if u != r.a && u != r.b {
        assert g'.adj[u][j] == g.adj[u][j];
      } else if u == r.b {
        assert g'.adj[u] == ListOf(adj1, r.b) + [EdgeInfo(r.a, r.weight, true)];
        if j < |ListOf(adj1, r.b)| && r.b != r.a {
          assert g'.adj[u][j] == g.adj[u][j];
        }
      } else {
        if j < |ListOf(g.adj, r.a)| {
          assert g'.adj[u][j] == g.adj[u][j];
        }
      }
    }
    var lb := |g'.adj[r.b]| - 1;
    assert g'.adj[r.b][lb] == EdgeInfo(r.a, r.weight, true);
    if r.a != r.b {
      var la := |ListOf(g.adj, r.a)|;
      assert g'.adj[r.a][la] == EdgeInfo(r.b, r.weight, true);
    } else {
      assert g'.adj[r.a][lb] == EdgeInfo(r.b, r.weight, true);
    }
  }

  lemma {:induction false} LoadEdgesKeepsInvariant(rows: seq<EdgeRow>)
    ensures GraphInvariant(LoadEdges(rows)) && AllOpen(LoadEdges(rows))
  {
    if rows != [] {
      LoadEdgesKeepsInvariant(rows[..|rows| - 1]);
      AddEdgeKeepsInvariant(LoadEdges(rows[..|rows| - 1]), rows[|rows| - 1]);
    }
  }

  /** The class table after the rows of the classes file; a repeated code is overwritten. */
  function ClassTable(rows: seq<ClassRow>): map<string, ClassInfo> {
    if rows == [] then map[]
    else
      var r := rows[|rows| - 1];
      ClassTable(rows[..|rows| - 1])[r.code := ClassInfo(r.loc, r.startMinutes, r.endMinutes)]
  }

  /** `if (adj.find(loc) == adj.end()) adj[loc] = {}`: a class location always has a list. */
  function EnsureNode(adj: Adj, v: int): Adj {
    if v in adj then adj else adj[v := []]
  }

  function WithClassNodes(adj: Adj, rows: seq<ClassRow>): Adj {
    if rows == [] then adj
    else EnsureNode(WithClassNodes(adj, rows[..|rows| - 1]), rows[|rows| - 1].loc)
  }

  /** Every class meets at a node with an adjacency list. */
  ghost predicate ClassLocsKnown(adj: Adj, table: map<string, ClassInfo>) {
    forall cc :: cc in table ==> table[cc].loc in adj
  }

  /** The class rows only add empty lists, and leave every class location with a list. */
  lemma {:induction false} ClassNodesKnown(adj: Adj, rows: seq<ClassRow>)
    ensures adj.Keys <= WithClassNodes(adj, rows).Keys
    ensures forall u :: u in adj ==> WithClassNodes(adj, rows)[u] == adj[u]
    ensures forall u :: u in WithClassNodes(adj, rows) && u !in adj ==> WithClassNodes(adj, rows)[u] == []
    ensures ClassLocsKnown(WithClassNodes(adj, rows), ClassTable(rows))
  {
    if rows != [] {
      ClassNodesKnown(adj, rows[..|rows| - 1]);
    }
  }

  /** Adding empty lists keeps the store's invariant. */
  lemma EmptyNodesKeepInvariant(g: GraphState, adj': Adj)
    requires GraphInvariant(g)
    requires g.adj.Keys <= adj'.Keys
    requires forall u :: u in g.adj ==> adj'[u] == g.adj[u]
    requires forall u :: u in adj' && u !in g.adj ==> adj'[u] == []
    ensures GraphInvariant(GraphState(adj', g.edges))
  {
  }

  /** The loop of ParseCSV over the edge rows. */
  method LoadEdgeRows(rows: seq<EdgeRow>) returns (g: GraphState)
    ensures g == LoadEdges(rows)
  {
    g := GraphState(map[], map[]);
    var i := 0;
    while i < |rows|
      invariant 0 <= i <= |rows|
      invariant g == LoadEdges(rows[..i])
    {
      assert rows[..i + 1][..i] == rows[..i];
      g := AddEdge(g, rows[i]);
      i := i + 1;
    }
    assert rows[..|rows|] == rows;
  }

  /** The loop of ParseCSV over the class rows: the table, and a list for each new location. */
  method LoadClassRows(adj: Adj, rows: seq<ClassRow>) returns (nodes: Adj, table: map<string, ClassInfo>)
    ensures nodes == WithClassNodes(adj, rows)
    ensures table == ClassTable(rows)
  {
    nodes, table := adj, map[];
    var j := 0;
    while j < |rows|
      invariant 0 <= j <= |rows|
      invariant nodes == WithClassNodes(adj, rows[..j])
      invariant table == ClassTable(rows[..j])
    {
      assert rows[..j + 1][..j] == rows[..j];
      var r := rows[j];
      table := table[r.code := ClassInfo(r.loc, r.startMinutes, r.endMinutes)];
      if r.loc !in nodes {
        nodes := nodes[r.loc := []];
      }
      j := j + 1;
    }
    assert rows[..|rows|] == rows;
  }

  // ---------------------------------------------------------------------
  // toggleEdgesClosure over a list of pairs
  // ---------------------------------------------------------------------

  /** The store after toggling the pairs in order. */
  function ToggleAll(g: GraphState, pairs: seq<(int, int)>): GraphState {
    if pairs == [] then g
    else
      var last := pairs[|pairs| - 1];
      Toggle(ToggleAll(g, pairs[..|pairs| - 1]), last.0, last.1)
  }

  lemma {:induction false} ToggleAllKeepsInvariant(g: GraphState, pairs: seq<(int, int)>)
    requires GraphInvariant(g)
    ensures GraphInvariant(ToggleAll(g, pairs))
    ensures ToggleAll(g, pairs).adj.Keys == g.adj.Keys
  {
    if pairs != [] {
      var last := pairs[|pairs| - 1];
      ToggleAllKeepsInvariant(g, pairs[..|pairs| - 1]);
      TogglePreservesInvariant(ToggleAll(g, pairs[..|pairs| - 1]), last.0, last.1);
      ToggleKeepsNodes(ToggleAll(g, pairs[..|pairs| - 1]), last.0, last.1);
    }
  }

  /** `for (auto &e : adj[a]) if (e.to == b) e.open = flag;` */
  method SetOpenLoop(es: seq<EdgeInfo>, target: int, flag: bool) returns (r: seq<EdgeInfo>)
    ensures r == SetOpenTo(es, target, flag)
  {
    r := es;
    var j := 0;
    while j < |r|
      invariant 0 <= j <= |r| && |r| == |es|
      invariant forall k :: 0 <= k < j ==> r[k] == if es[k].to == target then es[k].(open := flag) else es[k]
      invariant forall k :: j <= k < |r| ==> r[k] == es[k]
    {
      if r[j].to == target {
        r := r[j := r[j].(open := flag)];
      }
      j := j + 1;
    }
  }

  // ---------------------------------------------------------------------
  // The loops of insert and removeClass
  // ---------------------------------------------------------------------

  /** The validation loop of insert over the first n codes. */
  method CodesKnown(table: map<string, ClassInfo>, codes: seq<string>, n: nat) returns (ok: bool)
    requires n <= |codes|
    ensures ok <==> forall i :: 0 <= i < n ==> IsValidClassCode(codes[i]) && codes[i] in table
  {
    var i := 0;
    while i < n
      invariant 0 <= i <= n
      invariant forall k :: 0 <= k < i ==> IsValidClassCode(codes[k]) && codes[k] in table
    {
      if !IsValidClassCode(codes[i]) || codes[i] !in table {
        return false;
      }
      i := i + 1;
    }
    return true;
  }

  /** `for (auto &cc : codes) st.classes.insert(cc);` */
  method CollectCodes(codes: seq<string>, n: nat) returns (s: set<string>)
    requires n <= |codes|
    ensures s == CodeSet(codes, n)
  {
    s := {};
    var i := 0;
    while i < n
      invariant 0 <= i <= n
      invariant s == CodeSet(codes, i)
    {
      assert CodeSet(codes, i + 1) == CodeSet(codes, i) + {codes[i]};
      s := s + {codes[i]};
      i := i + 1;
    }
  }

  /** The first loop of removeClass: the ids of the students who hold code, in some order. */
  method HolderIds(students: Students, code: string) returns (ids: seq<string>)
    ensures multiset(ids) == multiset(Holders(students, code))
  {
    ids := [];
    var rest := students.Keys;
    while rest != {}
      invariant rest <= students.Keys
      invariant multiset(ids) == multiset(Holders(students, code) - rest)
      decreases |rest|
    {
      var id :| id in rest;
      if code in students[id].classes {
        assert Holders(students, code) - (rest - {id}) == (Holders(students, code) - rest) + {id};
        MultisetAddNew(ids, Holders(students, code) - rest, id);
        ids := ids + [id];
      } else {
        assert Holders(students, code) - (rest - {id}) == Holders(students, code) - rest;
      }
      rest := rest - {id};
    }
    assert Holders(students, code) - rest == Holders(students, code);
  }

  /**
   * The second loop of removeClass: each collected student loses the code,
   * is deleted when left with none, and is counted.
   */
  method StripHolders(students: Students, code: string, ids: seq<string>) returns (after: Students, removed: nat)
    requires multiset(ids) == multiset(Holders(students, code))
    ensures after == StripCode(students, code, Holders(students, code))
    ensures removed == |Holders(students, code)|
  {
    ghost var holders := Holders(students, code);
    ghost var done: set<string> := {};
    StripNothing(students, code);
    after, removed := students, 0;
    var k := 0;
    while k < |ids|
      invariant 0 <= k <= |ids|
      invariant done <= holders && removed == |done|
      invariant after == StripCode(students, code, done)
      invariant multiset(ids[k..]) + multiset(done) == multiset(holders)
    {
      var id := ids[k];
      NextHolder(ids, k, done, holders);
      StripStep(students, code, done, id);
      after := DropCode(after, id, code);
      removed := removed + 1;
      done := done + {id};
      k := k + 1;
    }
    assert multiset(done) == multiset(holders);
    assert done == holders by {
      forall x ensures x in done <==> x in holders {
        assert x in done <==> x in multiset(done);
      }
    }
  }

  /** The next collected id is a holder not yet handled, and the rest of the ids are the rest of the holders. */
  lemma NextHolder(ids: seq<string>, k: nat, done: set<string>, holders: set<string>)
    requires k < |ids| && done <= holders
    requires multiset(ids[k..]) + multiset(done) == multiset(holders)
    ensures ids[k] in holders && ids[k] !in done
    ensures multiset(ids[k + 1..]) + multiset(done + {ids[k]}) == multiset(holders)
  {
    var id := ids[k];
    assert ids[k..] == [id] + ids[k + 1..];
    assert id in multiset(holders);
    assert multiset(holders)[id] == 1;
    assert id !in done;
  }

  // ---------------------------------------------------------------------
  // What the reporting commands return
  // ---------------------------------------------------------------------

  /** printShortestEdges: the student's name and one (code, time) line per class. */
  datatype TimesReport = TimesReport(name: string, lines: seq<(string, int)>)

  /** printStudentZone: the student's name and the zone's cost, with the nodes and edges behind it. */
  datatype ZoneReport = ZoneReport(name: string, cost: int, nodes: set<int>, edges: seq<Triple>)

  /** verifySchedule: the student's name, the sorted slots and one verdict per consecutive pair. */
  datatype ScheduleReport = ScheduleReport(name: string, order: seq<Schedule.Slot>, verdicts: seq<Schedule.Verdict>)

  // ---------------------------------------------------------------------
  // The object
  // ---------------------------------------------------------------------

  class CampusCompass {
    var adj: Adj
    var edges: EdgeTable
    var classes: map<string, ClassInfo>
    var students: Students

    ghost function Store(): GraphState
      reads this
    {
      GraphState(adj, edges)
    }

    /**
     * The graph store's invariant, every class at a known node, and every
     * student well formed with codes of the class table.
     */
    ghost predicate Valid()
      reads this
    {
      GraphInvariant(Store()) && ClassLocsKnown(adj, classes) && RosterOk(students, classes)
    }

    /** ParseCSV's effect: the edge rows, then the class rows, and no students. */
    constructor (edgeRows: seq<EdgeRow>, classRows: seq<ClassRow>)
      ensures Valid()
      ensures edges == LoadEdges(edgeRows).edges
      ensures adj == WithClassNodes(LoadEdges(edgeRows).adj, classRows)
      ensures classes == ClassTable(classRows)
      ensures students == map[]
    {
      var g := LoadEdgeRows(edgeRows);
      var nodes, table := LoadClassRows(g.adj, classRows);
      LoadEdgesKeepsInvariant(edgeRows);
      ClassNodesKnown(g.adj, classRows);
      EmptyNodesKeepInvariant(g, nodes);
      adj, edges, classes, students := nodes, g.edges, table, map[];
    }

    // --- the student table -------------------------------------------

    /** insert "NAME" ID RES N CODES...: codes holds the tokens after N, of which the first N are read. */
    method Insert(name: string, id: string, residence: int, n: int, codes: seq<string>) returns (ok: bool)
      requires Valid()
      modifies this
      ensures Valid()
      ensures ok <==> InsertAccepted(old(students), classes, name, id, n, codes)
      ensures ok ==> students == old(students)[id := Student(name, id, residence, CodeSet(codes, n))]
      ensures !ok ==> students == old(students)
      ensures adj == old(adj) && edges == old(edges) && classes == old(classes)
    {
      if !IsValidUfid(id) || !IsValidName(name) || n < 1 || n > MaxClasses as int {
        return false;
      }
      if |codes| < n {
        return false;
      }
      var known := CodesKnown(classes, codes, n);
      if !known {
        return false;
      }
      if id in students {
        return false;
      }
      var cls := CollectCodes(codes, n);
      InsertKeepsRoster(students, classes, name, id, residence, n, codes);
      students := students[id := Student(name, id, residence, cls)];
      return true;
    }

    /** remove ID */
    method Remove(id: string) returns (ok: bool)
      requires Valid()
      modifies this
      ensures Valid()
      ensures ok <==> IsValidUfid(id) && id in old(students)
      ensures ok ==> students == old(students) - {id}
      ensures !ok ==> students == old(students)
      ensures adj == old(adj) && edges == old(edges) && classes == old(classes)
    {
      if !IsValidUfid(id) || id !in students {
        return false;
      }
      students := students - {id};
      return true;
    }

    /** dropClass ID CODE: a student left with no class is deleted. */
    method DropClass(id: string, code: string) returns (ok: bool)
      requires Valid()
      modifies this
      ensures Valid()
      ensures ok <==> IsValidUfid(id) && IsValidClassCode(code) && id in old(students) &&
                      code in old(students)[id].classes
      ensures ok ==> students == DropCode(old(students), id, code)
      ensures !ok ==> students == old(students)
      ensures adj == old(adj) && edges == old(edges) && classes == old(classes)
    {
      if !IsValidUfid(id) || !IsValidClassCode(code) || id !in students {
        return false;
      }
      if code !in students[id].classes {
        return false;
      }
      DropCodeKeepsRoster(students, classes, id, code);
      students := DropCode(students, id, code);
      return true;
    }

    /** replaceClass ID CODE1 CODE2 */
    method ReplaceClass(id: string, c1: string, c2: string) returns (ok: bool)
      requires Valid()
      modifies this
      ensures Valid()
      ensures ok <==> ReplaceAccepted(old(students), classes, id, c1, c2)
      ensures ok ==> students == old(students)[id := Replaced(old(students)[id], c1, c2)]
      ensures !ok ==> students == old(students)
      ensures adj == old(adj) && edges == old(edges) && classes == old(classes)
    {
      if !IsValidUfid(id) || !IsValidClassCode(c1) || !IsValidClassCode(c2) || id !in students {
        return false;
      }
      if c2 !in classes {
        return false;
      }
      var cls := students[id].classes;
      if c1 !in cls || c2 in cls {
        return false;
      }
      ReplaceKeepsRoster(students, classes, id, c1, c2);
      students := students[id := Replaced(students[id], c1, c2)];
      return true;
    }

    /** removeClass CODE: the number of students who held the code. */
    method RemoveClass(code: string) returns (r: Option<nat>)
      requires Valid()
      modifies this
      ensures Valid()
      ensures r.Some? <==> IsValidClassCode(code)
      ensures r.Some? ==> r.value == |Holders(old(students), code)|
      ensures r.Some? ==> students == StripCode(old(students), code, Holders(old(students), code))
      ensures r.None? ==> students == old(students)
      ensures adj == old(adj) && edges == old(edges) && classes == old(classes)
    {
      if !IsValidClassCode(code) {
        return None;
      }
      var dropIds := HolderIds(students, code);
      var after, removed := StripHolders(students, code, dropIds);
      StripKeepsRoster(students, classes, code, Holders(students, code));
      students := after;
      return Some(removed);
    }

    // --- the graph store ---------------------------------------------

    /** One pair of toggleEdgesClosure. */
    method TogglePair(a: int, b: int)
      modifies this
      ensures Store() == Toggle(old(Store()), a, b)
      ensures classes == old(classes) && students == old(students)
    {
      var k := Canon(a, b);
      if k !in edges {
        return;
      }
      var flag := !edges[k].open;
      edges := edges[k := edges[k].(open := flag)];
      var la := SetOpenLoop(ListOf(adj, a), b, flag);
      adj := adj[a := la];
      var lb := SetOpenLoop(ListOf(adj, b), a, flag);
      adj := adj[b := lb];
    }

    /** toggleEdgesClosure N A1 B1 ... AN BN */
    method ToggleEdgesClosure(pairs: seq<(int, int)>)
      requires Valid()
      modifies this
      ensures Valid()
      ensures Store() == ToggleAll(old(Store()), pairs)
      ensures classes == old(classes) && students == old(students)
    {
      var i := 0;
      while i < |pairs|
        invariant 0 <= i <= |pairs|
        invariant Store() == ToggleAll(old(Store()), pairs[..i])
        invariant classes == old(classes) && students == old(students)
      {
        assert pairs[..i + 1][..i] == pairs[..i];
        TogglePair(pairs[i].0, pairs[i].1);
        i := i + 1;
      }
      assert pairs[..|pairs|] == pairs;
      ToggleAllKeepsInvariant(old(Store()), pairs);
    }

    /** checkEdgeStatus A B */
    method CheckEdgeStatus(a: int, b: int) returns (s: EdgeStatus)
      ensures s == EdgeStatusOf(edges, a, b)
    {
      var k := Canon(a, b);
      if k !in edges {
        return DNE;
      }
      s := if edges[k].open then Open else Closed;
    }

    /** isConnected A B */
    method IsConnected(a: int, b: int) returns (ok: bool)
      ensures ok <==> Reachable(adj, a, b)
    {
      ok := Connectivity.IsConnected(adj, a, b);
    }

    // --- the reports ---------------------------------------------------

    /** printShortestEdges ID */
    method PrintShortestEdges(id: string) returns (r: Option<TimesReport>)
      requires Valid()
      ensures r.None? <==> !(IsValidUfid(id) && id in students)
      ensures r.Some? ==> (r.value.name == students[id].name &&
        Schedule.IsTimesReport(adj, students[id].residence, classes, students[id].classes, r.value.lines))
    {
      if !IsValidUfid(id) || id !in students {
        return None;
      }
      var st := students[id];
      var lines := Schedule.ShortestTimes(adj, st.residence, classes, st.classes);
      return Some(TimesReport(st.name, lines));
    }

    /** printStudentZone ID */
    method PrintStudentZone(id: string) returns (r: Option<ZoneReport>)
      requires Valid()
      ensures r.None? <==> !(IsValidUfid(id) && id in students)
      ensures r.Some? ==> (r.value.name == students[id].name &&
        Zone.IsZoneReport(adj, students[id].residence, classes, students[id].classes,
                          r.value.nodes, r.value.edges, r.value.cost))
    {
      if !IsValidUfid(id) || id !in students {
        return None;
      }
      var st := students[id];
      var nodes, es, cost := Zone.ZoneCost(adj, st.residence, classes, st.classes);
      return Some(ZoneReport(st.name, cost, nodes, es));
    }

    /** verifySchedule ID */
    method VerifySchedule(id: string) returns (r: Option<ScheduleReport>)
      requires Valid()
      ensures r.None? <==> !(IsValidUfid(id) && id in students) || |students[id].classes| <= 1
      ensures r.Some? ==> (r.value.name == students[id].name &&
        multiset(r.value.order) == multiset(Schedule.Slots(classes, students[id].classes)) &&
        SortedBy(r.value.order, Schedule.SlotLe) &&
        |r.value.verdicts| == |students[id].classes| - 1 &&
        Schedule.VerdictsFor(adj, classes, r.value.order, r.value.verdicts))
    {
      if !IsValidUfid(id) || id !in students {
        return None;
      }
      var st := students[id];
      var v, order := Schedule.VerifySchedule(adj, classes, st.classes);
      if v.None? {
        return None;
      }
      assert st.classes * classes.Keys == st.classes;
      return Some(ScheduleReport(st.name, order, v.value));
    }
  }
}
