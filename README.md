# CampusCompass in Dafny

This project models the core of CampusCompass, a campus navigation program:

- a weighted undirected campus graph whose edges can be open or closed;
- a table of classes, each with a meeting location and start and end times;
- a table of students, each with a residence node and a set of class codes.

It models the commands that change these tables and the commands that query the graph.

The modules follow the program's structure:

| module | file | what it holds |
|---|---|---|
| `Records` | records.dfy | the records of `CampusCompass.h`; the canonical unordered pair; the packed 64-bit `keyPair` |
| `Validation` | validation.dfy | `parseTime` and the `stoi` it relies on; the UFID, name and class-code validators |
| `Graph` | graph.dfy | the graph store: adjacency lists plus the canonical edge table, and their invariant; `checkEdgeStatus`; toggling one pair; open paths and walks |
| `PathEngine` | paths.dfy | `dijkstra_with_parents`: a priority queue with stale entries skipped, closed entries ignored, distances and predecessors returned; proved to return a shortest-path tree |
| `Connectivity` | connectivity.dfy | the `isConnected` breadth-first search; how the engine's distances relate to reachability |
| `Ordering` | ordering.dfy | `std::sort` as a sort by a total preorder; the byte-wise order of strings; uniqueness of a sorted permutation |
| `DisjointSets` | disjoint.dfy | the `comp` map of printStudentZone as a class: `findp` with path compression, and `unite` |
| `SpanningForest` | kruskal.dfy | the Kruskal scan over the sorted `(w, a, b)` tuples |
| `Zone` | zone.dfy | printStudentZone: the nodes on the predecessor chains, the induced open edges, the cost |
| `Schedule` | schedule.dfy | printShortestEdges' travel times; verifySchedule's order and verdicts |
| `Roster` | roster.dfy | the student-table commands insert, remove, dropClass, replaceClass and removeClass, as functions on the table |
| `Campus` | campus.dfy | the `CampusCompass` object: its four fields, the loading done by ParseCSV, one method per command |

The `CampusCompass` class keeps the source's tables as fields: `adj`, `edges` (the edge map), `classes` and `students`. Each command method updates those fields in place. Its `Valid()` invariant requires three things:

- every adjacency entry leads to a known node and agrees with the edge record of its pair;
- every class meets at a known node;
- every student is stored under its own valid UFID, has a valid name, and holds one to six valid codes from the class table.

Every command keeps this invariant. A command that prints "unsuccessful" returns `false` or `None` and leaves the state unchanged.

The shortest-path engine is the central proof. `PathEngine.Dijkstra` returns a shortest-path tree, defined as follows:

- every node reachable over open edges has a finite distance;
- every predecessor link is an open edge whose weight is exactly the difference of the two distances;
- every finite node's predecessor chain ends at the source;
- no open walk from the source is shorter than the distance of its end node.

The printShortestEdges, printStudentZone and verifySchedule commands are stated in terms of this tree. Their results are described by independent predicates:

- `Schedule.IsTravelTime`: the length of the shortest open walk, and -1 exactly when no walk exists;
- `Zone.IsZoneReport`: the node set, which is exactly the set of predecessor-chain nodes of the classes' locations in some shortest-path tree from the residence (`Zone.IsZoneOf`), the induced edges and the cost of the accepted forest;
- `Schedule.VerdictsFor`: one verdict per consecutive pair of the sorted schedule.

## Model

| member | source | states |
|---|---|---|
| Records.Canon | src/CampusCompass.h:51-54 | the key is the same two ids, smaller first |
| Records.KeyPair | src/CampusCompass.h:51-54 | the packed key holds the smaller id in its high 32 bits and the larger in its low 32 bits, and is non-negative |
| Records.KeyPairSymmetric | src/CampusCompass.h:51-54 | the key does not depend on the order of the endpoints |
| Records.KeyPairMatchesCanon | src/CampusCompass.h:37-39 | two pairs share a packed key exactly when they are the same canonical pair, so `edges_map` keyed by the packed key is the model's table keyed by the pair |
| Records.KeyPairInjective | src/CampusCompass.h:51-54 | different unordered pairs get different keys |
| Validation.Stoi | src/CampusCompass.cpp:21-22 | the conversion fails exactly when no digit follows the optional blanks and sign |
| Validation.StoiTwoDigits | src/CampusCompass.cpp:21-22 | two digits are read as their two-digit decimal value |
| Validation.ParseTime | src/CampusCompass.cpp:18-24 | -1 unless the text has length 5 with ':' at index 2; HH*60+MM when the four fields are digits |
| Validation.ClockTwoDigitFields | src/CampusCompass.cpp:21-22 | the hour and minute halves are read as two-digit values |
| Validation.FormatTime | src/CampusCompass.cpp:18-19 | a minute-of-day is written in the "HH:MM" form parseTime reads |
| Validation.ParseFormatRoundTrip | src/CampusCompass.cpp:18-24 | parsing the written form of every minute of the day gives that minute back |
| Validation.ParseTimeInDay | src/CampusCompass.cpp:18-24 | a clock time with hours below 24 and minutes below 60 parses into 0..1439 and is written back as the same text |
| Validation.ParseTimeMinusOneIsAmbiguous | src/CampusCompass.cpp:20-23 | "00:-1" passes the shape check and parses to -1, the same value as the error sentinel |
| Validation.IsValidUfid | src/CampusCompass.cpp:124-127 | definition, no contract: exactly eight characters, each a decimal digit |
| Validation.IsValidName | src/CampusCompass.cpp:128-132 | definition, no contract: non-empty, and every character a letter or a space |
| Validation.IsValidClassCode | src/CampusCompass.cpp:133-136 | definition, no contract: three upper-case letters, then four digits; `Validation.ClassCodeMatchesPattern` ties it to the regular expression |
| Validation.ClassCodeMatchesPattern | src/CampusCompass.cpp:133-136 | the class-code predicate accepts exactly the strings that match ^[A-Z]{3}[0-9]{4}$ |
| Graph.EdgeStatusOf | src/CampusCompass.cpp:234-240 | DNE exactly when the pair has no record; open exactly when the record is open |
| Graph.EdgeStatusSymmetric | src/CampusCompass.cpp:235-239 | the status of (a, b) is the status of (b, a) |
| Graph.SetOpenTo | src/CampusCompass.cpp:229-230 | every entry to the target gets the new flag; every other entry is unchanged |
| Graph.ToggleAdj | src/CampusCompass.cpp:229-230 | definition, no contract: the new flag is copied into the entries a -> b, then into the entries b -> a |
| Graph.Toggle | src/CampusCompass.cpp:221-230 | definition, no contract: one pair of toggleEdgesClosure. A pair without a record leaves the store alone; otherwise the record's flag is flipped and copied into both directions. `Graph.ToggleStatus`, `Graph.ToggleTwiceRestores` and `Graph.TogglePreservesInvariant` state its properties |
| Graph.TogglePreservesInvariant | src/CampusCompass.cpp:221-230 | toggling keeps every adjacency entry in agreement with its record |
| Graph.ToggleKeepsNodes | src/CampusCompass.cpp:229-230 | toggling adds no node: `adj[a]` and `adj[b]` already exist when the pair has a record |
| Graph.ToggleStatus | src/CampusCompass.cpp:221-227 | toggling turns open into closed and closed into open for the pair, and changes no other pair's status |
| Graph.ToggleAbsentIsNoOp | src/CampusCompass.cpp:222-226 | toggling a pair without a record changes nothing |
| Graph.ToggleTwiceRestores | src/CampusCompass.cpp:217-233 | toggling the same pair twice restores the whole store |
| PathEngine.MinIndex | src/CampusCompass.cpp:44-45 | the entry taken from the queue has the least distance in it |
| PathEngine.RelaxOne | src/CampusCompass.cpp:49-56 | relaxing one entry keeps the relaxation loop's invariant; no node is dropped and no finite distance grows |
| PathEngine.RelaxEntries | src/CampusCompass.cpp:49-57 | after relaxing every entry of a node, the tree invariant holds, every open entry of the node is relaxed, and the termination measure does not grow. No relaxation drops a node or raises a finite distance |
| PathEngine.SettleNext | src/CampusCompass.cpp:44-57 | one round of the main loop keeps the run invariant and strictly lowers the termination measure. Finite distances only ever decrease, and the node set stays the same |
| PathEngine.Dijkstra | src/CampusCompass.cpp:26-61 | the returned distances and predecessors form a shortest-path tree from the source over open edges |
| Connectivity.FiniteDistanceIsRealised | src/CampusCompass.cpp:52-55 | a finite distance is the weight of an open walk from the source that follows the predecessor links |
| Connectivity.FiniteIffReachable | src/CampusCompass.cpp:26-61 | a node has a finite distance exactly when it is reachable over open edges |
| Connectivity.ClosedSetBlocks | src/CampusCompass.cpp:248-257 | a set that contains a and has no open entry leading out of it shows that no node outside it is reachable from a |
| Connectivity.IsolatedReachesOnlyItself | test/test.cpp:83-86 | a node whose entries are all closed reaches itself and nothing else |
| Connectivity.ClosedRecordsCloseEntries | src/CampusCompass.cpp:227-230 | when every edge record at n is closed, no adjacency entry out of n or into n is open |
| Connectivity.EntryFreeStart | src/CampusCompass.cpp:227-230 | with no open entry into n, an open path meets n only at its first node |
| Connectivity.ClosedOffNode | test/test.cpp:83-86 | with every edge record at n closed, n reaches only itself and only n reaches n |
| Connectivity.IsConnected | src/CampusCompass.cpp:241-259 | the search succeeds exactly when b is reachable from a over open edges |
| Ordering.LexLeTotalOrder | src/CampusCompass.cpp:270-271 | the byte-wise string order is total, antisymmetric and transitive |
| Ordering.LexLeIsTotalOrder | src/CampusCompass.cpp:270-271 | the string order is a total antisymmetric preorder, so the sort is well defined |
| Ordering.SortBy | src/CampusCompass.cpp:271 | the result is sorted and is a permutation of the input |
| Ordering.SortedUnique | src/CampusCompass.cpp:313 | under an antisymmetric order, two sorted permutations of the same elements are equal |
| Ordering.ElementsOf | src/CampusCompass.cpp:270 | the vector built from a set has each of its elements exactly once |
| Ordering.ElementsDistinct | src/CampusCompass.cpp:270 | a sequence with the multiset of a set has no repeated element |
| DisjointSets.Merge | src/CampusCompass.cpp:320 | joining two parts relabels every member of a's part with b's label and leaves every other element alone |
| DisjointSets.InsertKeepsForest | src/CampusCompass.cpp:316 | adding a new element as its own root keeps the forest well formed |
| DisjointSets.CompressKeepsForest | src/CampusCompass.cpp:318 | pointing an element directly at its root keeps the forest well formed |
| DisjointSets.LinkKeepsForest | src/CampusCompass.cpp:320 | linking one root under another keeps the forest well formed and joins exactly those two parts |
| DisjointSets.UnionFind.constructor | src/CampusCompass.cpp:314 | the map starts empty |
| DisjointSets.UnionFind.Find | src/CampusCompass.cpp:315-319 | the element is now present; the result is its root; no element's part changes |
| DisjointSets.UnionFind.LinkRoots | src/CampusCompass.cpp:320 | `comp[pa] = pb` performed on the forest |
| DisjointSets.UnionFind.Unite | src/CampusCompass.cpp:320 | a's part is merged into b's part, and every other element's part is kept |
| SpanningForest.TripleLeIsTotalOrder | src/CampusCompass.cpp:313 | the tuple order is a total antisymmetric preorder |
| SpanningForest.Accepted | src/CampusCompass.cpp:321-325 | definition, no contract: scanning the sorted candidates in order, an edge is accepted when its endpoints are in different parts, and then the parts are merged. `SpanningForest.Kruskal` is proved equal to it |
| SpanningForest.Weight | src/CampusCompass.cpp:321-325 | definition, no contract: the sum of the weights of a list of edges |
| SpanningForest.AcceptedAreCandidates | src/CampusCompass.cpp:322-325 | every accepted edge is a candidate, and at most as many are accepted as there are candidates |
| SpanningForest.AcceptedIsForest | src/CampusCompass.cpp:322-325 | each accepted edge joins two parts: accepted edges plus parts remaining equals parts at the start |
| SpanningForest.AcceptedBound | src/CampusCompass.cpp:321-325 | over n > 0 nodes at most n - 1 edges are accepted, and none over no nodes |
| SpanningForest.FinalLabelsKeepTogether | src/CampusCompass.cpp:322-324 | two elements in one part stay in one part to the end of the scan |
| SpanningForest.AcceptedSpans | src/CampusCompass.cpp:322-325 | after the scan, the two endpoints of every candidate are in one part |
| SpanningForest.Kruskal | src/CampusCompass.cpp:321-325 | the total and the count are the weight and the number of edges the scan accepts |
| Zone.LocOf | src/CampusCompass.cpp:289 | definition, no contract: the class's location from the table, and location 0 for a code missing from it, as `classes[cc].loc` reads then |
| Zone.CollectChain | src/CampusCompass.cpp:292-298 | the nodes added are exactly those on the predecessor chain from the location up to the residence |
| Zone.CollectZone | src/CampusCompass.cpp:286-299 | a node is collected exactly when it lies on the chain of some class with a finite distance |
| Zone.UpFinite | src/CampusCompass.cpp:293-297 | every node on the chain of a finite node is finite |
| Zone.ChainEndsAtRes | src/CampusCompass.cpp:293-298 | the chain of a finite node ends at the residence |
| Zone.ZoneIsReachable | src/CampusCompass.cpp:288-299 | zone nodes are reachable; a non-empty zone holds the residence; every reachable class location is in the zone |
| Zone.EntriesFrom | src/CampusCompass.cpp:306-310 | the candidates from u are exactly the open entries of u to zone nodes above u |
| Zone.AppendEntries | src/CampusCompass.cpp:306-310 | the loop over one list appends exactly those candidates |
| Zone.InducedMembers | src/CampusCompass.cpp:302-311 | a triple is a candidate exactly when it is an open entry between two zone nodes with the smaller one first |
| Zone.InducedEdges | src/CampusCompass.cpp:302-311 | the vector holds exactly the induced candidates, with multiplicity |
| Zone.SmallZoneIsFree | src/CampusCompass.cpp:302-311 | a zone with at most one node has no candidate edge |
| Zone.ZoneReportDetermined | src/CampusCompass.cpp:302-325 | for a given node set, the sorted candidate edges and the cost are the same in every report |
| Zone.ClassesAtResidenceZone | src/CampusCompass.cpp:286-299 | when every class of the student is at the residence, the zone is the residence alone and its cost is 0 |
| Zone.ZoneCost | src/CampusCompass.cpp:285-325 | the node set is exactly the chain nodes of the classes' locations in a shortest-path tree from the residence; the report holds its sorted induced edges, and the weight of the accepted forest. That forest has at most n - 1 induced edges, and its cost is 0 for a zone of at most one node |
| Schedule.ReportedTime | src/CampusCompass.cpp:274-275 | -1 exactly when the distance is missing or infinite; otherwise the distance, which is non-negative |
| Schedule.TreeTravelTime | src/CampusCompass.cpp:268-276 | read off a shortest-path tree, the reported time is the shortest open walk's weight, or -1 when there is none |
| Schedule.TravelTimeReachable | src/CampusCompass.cpp:274-275 | the time is -1 exactly when the target is unreachable |
| Schedule.TravelTimeUnique | src/CampusCompass.cpp:268-276 | the travel time is determined by the graph, whatever the queue's tie order |
| Schedule.TravelTimeToSelf | src/CampusCompass.cpp:41 | the travel time from a node to itself is 0 |
| Schedule.IsolatedTravelTimes | test/test.cpp:81-94 | with every edge at the residence closed, a class elsewhere has time -1 and a class at the residence has time 0 |
| Schedule.ClosedOffNodeTimes | test/test.cpp:81-94 | with every edge record at n closed, the travel time between n and any other node is -1 in both directions, and 0 from n to itself |
| Schedule.ClosedOffNodeReported | test/test.cpp:81-94 | with the class's location cut off in this way, the time printed from a shortest-path tree rooted at any other node is -1, and 0 from a tree rooted at the location itself |
| Schedule.ShortestTimes | src/CampusCompass.cpp:267-277 | one line per code, in strictly ascending code order, each with the code's travel time from the residence |
| Schedule.SlotLeIsTotalOrder | src/CampusCompass.cpp:341 | the (start, code) pair order is a total antisymmetric preorder |
| Schedule.CollectSlots | src/CampusCompass.cpp:336-340 | one (start, code) pair for each code that is in the class table |
| Schedule.BuildOrder | src/CampusCompass.cpp:336-341 | the vector is sorted by start, then code; it is a permutation of those pairs; every entry is a known code with its own start |
| Schedule.OrderIsDetermined | src/CampusCompass.cpp:337-341 | the sorted vector does not depend on the order in which the set is iterated |
| Schedule.CheckPair | src/CampusCompass.cpp:344-352 | the verdict holds the travel time between the two locations (-1 when unreachable) and the gap, and says yes exactly when gap >= needed |
| Schedule.VerifySchedule | src/CampusCompass.cpp:334-353 | no report for at most one class; otherwise the sorted order and one verdict for each consecutive pair |
| Schedule.VerdictMeaning | src/CampusCompass.cpp:349-352 | a yes to a reachable location means some open walk fits in the gap; a no means every walk is longer than the gap |
| Schedule.UnreachableCanMakeIt | src/CampusCompass.cpp:349-352 | for an unreachable pair, needed is -1 and the verdict is yes exactly when gap >= -1 |
| Schedule.ExactGapIsEnough | src/CampusCompass.cpp:351-352 | a gap equal to the travel time is enough |
| Roster.CodeSetSize | src/CampusCompass.cpp:155-162 | the first n codes make a set of one to n codes |
| Roster.InsertKeepsRoster | src/CampusCompass.cpp:153-163 | an accepted insert keeps every student well formed |
| Roster.DropCode | src/CampusCompass.cpp:179-182 | the student keeps the rest of their classes, is deleted when none are left, and no one else changes |
| Roster.DropCodeKeepsRoster | src/CampusCompass.cpp:179-182 | dropping a code keeps every student well formed |
| Roster.Replaced | src/CampusCompass.cpp:194-195 | definition, no contract: the student's class set with c1 taken out and c2 put in |
| Roster.ReplaceKeepsRoster | src/CampusCompass.cpp:190-195 | an accepted replacement keeps the number of classes and every student well formed |
| Roster.Holders | src/CampusCompass.cpp:202-207 | definition, no contract: the ids of the students whose class set holds the code |
| Roster.StripCode | src/CampusCompass.cpp:208-214 | definition, no contract: the table after the code is erased from each student in the given set, with those left without classes deleted |
| Roster.StripStep | src/CampusCompass.cpp:208-214 | handling one more holder is DropCode applied to that holder |
| Roster.RemoveClassEffect | src/CampusCompass.cpp:198-214 | afterwards no student holds the code; non-holders are unchanged; a holder keeps the rest of their classes, and is deleted exactly when the code was their only one |
| Roster.StripKeepsRoster | src/CampusCompass.cpp:208-214 | removed classes keep every student well formed |
| Campus.AddEdge | src/CampusCompass.cpp:87-89 | definition, no contract: one edge row appends an open entry in each direction and overwrites the pair's record with the row's weight, open |
| Campus.LoadEdges | src/CampusCompass.cpp:70-90 | definition, no contract: the graph after the edge rows, applied in file order from an empty graph |
| Campus.ClassTable | src/CampusCompass.cpp:97-108 | definition, no contract: the class table after the class rows in file order; a later row for a code overwrites an earlier one |
| Campus.EnsureNode | src/CampusCompass.cpp:110 | definition, no contract: an empty adjacency list for a node that has none, and no change otherwise |
| Campus.WithClassNodes | src/CampusCompass.cpp:97-111 | definition, no contract: the adjacency map after every class row's location has been given a list |
| Campus.AddEdgeKeepsInvariant | src/CampusCompass.cpp:87-89 | an edge row keeps the invariant, and leaves the pair open and adjacent both ways |
| Campus.LoadEdgesKeepsInvariant | src/CampusCompass.cpp:70-90 | the loaded graph satisfies the store's invariant, with everything open |
| Campus.ClassNodesKnown | src/CampusCompass.cpp:108-110 | every class location gets a list; existing lists are untouched and new ones are empty |
| Campus.EmptyNodesKeepInvariant | src/CampusCompass.cpp:110 | adding empty lists keeps the invariant |
| Campus.LoadEdgeRows | src/CampusCompass.cpp:70-90 | the loop builds the graph of the rows in file order |
| Campus.LoadClassRows | src/CampusCompass.cpp:97-111 | the loop builds the class table and the new empty lists |
| Campus.ToggleAll | src/CampusCompass.cpp:219-231 | definition, no contract: the store after `Graph.Toggle` of each pair, in order |
| Campus.ToggleAllKeepsInvariant | src/CampusCompass.cpp:219-231 | toggling a list of pairs keeps the invariant and the node set |
| Campus.SetOpenLoop | src/CampusCompass.cpp:229-230 | the loop sets the flag on exactly the entries to the target |
| Campus.CodesKnown | src/CampusCompass.cpp:157 | succeeds exactly when each of the first n codes is valid and in the class table |
| Campus.CollectCodes | src/CampusCompass.cpp:162 | the class set is exactly the first n codes |
| Campus.HolderIds | src/CampusCompass.cpp:202-207 | the collected ids are exactly the holders of the code, each once |
| Campus.StripHolders | src/CampusCompass.cpp:208-214 | the table after the second loop, and the number of holders |
| Campus.CampusCompass.constructor | src/CampusCompass.cpp:63-115 | the loaded state is the edge rows and class rows in file order, with no students and the invariant holding |
| Campus.CampusCompass.Insert | src/CampusCompass.cpp:138-165 | succeeds exactly when every check passes, and then adds the student with the first N codes; otherwise nothing changes |
| Campus.CampusCompass.Remove | src/CampusCompass.cpp:166-173 | succeeds exactly for a valid, known id, which is then deleted |
| Campus.CampusCompass.DropClass | src/CampusCompass.cpp:174-184 | succeeds exactly for a valid, known id holding the valid code; the effect is DropCode |
| Campus.CampusCompass.ReplaceClass | src/CampusCompass.cpp:185-197 | succeeds exactly when every check passes; the student then has the old code replaced by the new one |
| Campus.CampusCompass.RemoveClass | src/CampusCompass.cpp:198-216 | for a valid code: the number of holders, with the code removed from every student; nothing otherwise |
| Campus.CampusCompass.TogglePair | src/CampusCompass.cpp:221-230 | the store after toggling one pair |
| Campus.CampusCompass.ToggleEdgesClosure | src/CampusCompass.cpp:217-233 | the store after toggling the pairs in order; the invariant holds |
| Campus.CampusCompass.CheckEdgeStatus | src/CampusCompass.cpp:234-240 | the status of the pair in the edge table |
| Campus.CampusCompass.IsConnected | src/CampusCompass.cpp:241-259 | yes exactly when b is reachable from a over open edges |
| Campus.CampusCompass.PrintShortestEdges | src/CampusCompass.cpp:260-278 | nothing for an invalid or unknown id; otherwise the name and the travel-time lines of the student's classes |
| Campus.CampusCompass.PrintStudentZone | src/CampusCompass.cpp:279-327 | nothing for an invalid or unknown id; otherwise the name and the zone report from the residence, whose node set is exactly the chain nodes of the held classes' locations |
| Campus.CampusCompass.VerifySchedule | src/CampusCompass.cpp:328-355 | nothing for an invalid or unknown id or for at most one class; otherwise the sorted classes and one verdict per consecutive pair, one fewer verdict than classes |

## Left out

- **Reading the files (ParseCSV):** opening the files, reading lines, skipping the header and blank lines, splitting on commas and skipping short rows are not modelled. The constructor takes the rows already read as numbers (`EdgeRow`, `ClassRow`). The `id_to_name` table is not modelled either, since no command reads it.
- **Reading commands (ParseCommand):** splitting a command line into tokens, finding the quoted name of insert and reading integers from the stream are not modelled. Each command is a method that takes its tokens as parameters. A command cut short by a failed read ("unsuccessful" before any change) is therefore not modelled. Nor is a toggleEdgesClosure whose list of pairs ends early: the source has already toggled the pairs it read before it prints "unsuccessful".
- **Output:** the text printed on standard output is returned rather than printed. Then the caller formats it. Command methods return `bool`, `Option`, an `EdgeStatus` or one of the report datatypes.
- `Validation.IsValidClassCode` stands in for `std::regex`. `Validation.ClassCodeMatchesPattern` proves it equal to a small matcher on the pattern's character classes. The C locale's `isdigit`, `isalpha` and `isupper` are taken to be the ASCII ranges.
- `Validation.Stoi` returns `None` where `std::stoi` throws. `parseTime` does not catch that exception, so the model's `ParseTime` returns `None` in that case. Out-of-range exceptions for very long numbers are not modelled.
- **Integer width:** distances, weights, the Kruskal total and minutes are unbounded integers, so `int` overflow and the `INT_MAX` sentinel addition in Dijkstra are not modelled. The sentinel is the `Inf` constructor.
- `Records.KeyPair` holds only for ids from 0 to 2^31 - 1. With a negative `b`, the source's cast to `unsigned long long` sign-extends and overwrites the high half. The edge table is keyed by `Records.Canon`, which `Records.KeyPairMatchesCanon` shows identifies the same pairs for those ids.
- Edge weights are `nat`. A negative weight, which the source would accept from the file, is not modelled. Dijkstra's correctness depends on weights being non-negative.
- `PathEngine.Dijkstra` requires `Graph.TargetsKnown`: every adjacency entry must lead to a node with a list. `Valid()` guarantees this for the object. For a foreign target, the source's `dist[e.to]` silently inserts 0. That case is not modelled.
- `Zone.LocOf` reads a missing class code as a class at location 0, as `classes[cc]` does. The insertion into `classes` that `operator[]` then performs is not modelled. `Valid()` rules the case out, because every held code is in the table.
- **Iteration order:** the queue's tie order, the iteration order of `unordered_map`/`unordered_set` and the choice of predecessor among equal-cost paths are left unspecified. Dijkstra is proved correct for every pop order. Codes, holders and zone nodes are visited in an arbitrary order. The results that printed output depends on are proved independent of that order: travel times (`Schedule.TravelTimeUnique`), the sorted schedule (`Schedule.OrderIsDetermined`) and the sorted candidate edges (`Ordering.SortedUnique`).
- `Zone.ZoneCost`: that the accepted forest has minimum weight among spanning forests of the induced graph is not proved. The model proves that the forest is built from induced edges, spans every candidate edge's endpoints, and has at most n - 1 edges.
- `SpanningForest.Kruskal` uses `DisjointSets.UnionFind`, which compresses paths as `findp` does and links the first root under the second, as `unite` does. The union-find's rank bookkeeping is ghost, and serves only to prove termination.
- **removeClass:** the `continue` for a collected id that is no longer in the table cannot happen, because each id is collected once. The model has no such branch.
- **verifySchedule, where the intended behaviour and the code disagree:**
  - An unreachable class pair is meant to be reported as failing, and classes with equal start times are meant to keep their insertion order.
  - The code sets `needed = -1` for an unreachable pair, so the pair passes whenever `gap >= -1`. It breaks start-time ties by class code, because it sorts `(start, code)` pairs.
  - The model follows the code. `Schedule.UnreachableCanMakeIt` states the unreachable case, and `Schedule.SlotLe` the tie order.
- **Duplicate edge rows, where the intended behaviour and the code disagree:** a later row for the same pair is meant to overwrite the edge. In the code only the record in `edges_map` is overwritten. Both rows' entries stay in the adjacency lists, and the model keeps them too (`Campus.AddEdge`).
