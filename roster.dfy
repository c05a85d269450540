/**
 * The student table of CampusCompass (`students`, keyed by UFID) and what
 * the commands insert, remove, dropClass, replaceClass and removeClass do
 * to it. A student's class set is never empty: the command that empties it
 * deletes the student.
 */
module Roster {
  import opened Records
  import opened Validation

  type Students = map<string, Student>

  /** The most classes an insert may list. */
  const MaxClasses: nat := 6

  /**
   * What the commands guarantee of a stored student: it is keyed by its own
   * valid UFID, has a valid name, and holds one to six valid codes, each one
   * in the class table.
   */
  ghost predicate StudentOk(st: Student, id: string, table: map<string, ClassInfo>) {
    st.id == id && IsValidUfid(id) && IsValidName(st.name) &&
    1 <= |st.classes| <= MaxClasses &&
    forall cc :: cc in st.classes ==> cc in table && IsValidClassCode(cc)
  }

  ghost predicate RosterOk(students: Students, table: map<string, ClassInfo>) {
    forall id :: id in students ==> StudentOk(students[id], id, table)
  }

  // ---------------------------------------------------------------------
  // insert
  // ---------------------------------------------------------------------

  /**
   * The checks of insert, in the source's terms: a valid UFID and name,
   * 1 <= N <= 6, at least N codes after N, each of the first N a valid code
   * of the class table, and an id not yet in use.
   */
  ghost predicate InsertAccepted(students: Students, table: map<string, ClassInfo>,
                                 name: string, id: string, n: int, codes: seq<string>) {
    IsValidUfid(id) && IsValidName(name) && 1 <= n <= MaxClasses && n <= |codes| &&
    (forall i :: 0 <= i < n ==> IsValidClassCode(codes[i]) && codes[i] in table) &&
    id !in students
  }

  /** The class set of an inserted student: the first n codes, duplicates merged. */
  ghost function CodeSet(codes: seq<string>, n: nat): set<string>
    requires n <= |codes|
  {
    set i | 0 <= i < n :: codes[i]
  }

  /** The first n codes make a set of one to n codes. */
  lemma {:induction false} CodeSetSize(codes: seq<string>, n: nat)
    requires 1 <= n <= |codes|
    ensures 1 <= |CodeSet(codes, n)| <= n
    decreases n
  {
    assert codes[0] in CodeSet(codes, n);
    if n > 1 {
      CodeSetSize(codes, n - 1);
      assert CodeSet(codes, n) == CodeSet(codes, n - 1) + {codes[n - 1]};
    } else {
      assert CodeSet(codes, n) == {codes[0]};
    }
  }

  /** An accepted insert keeps the table's invariant. */
  lemma InsertKeepsRoster(students: Students, table: map<string, ClassInfo>,
                          name: string, id: string, residence: int, n: int, codes: seq<string>)
    requires RosterOk(students, table)
    requires InsertAccepted(students, table, name, id, n, codes)
    ensures RosterOk(students[id := Student(name, id, residence, CodeSet(codes, n))], table)
  {
    CodeSetSize(codes, n);
  }

  // ---------------------------------------------------------------------
  // dropClass, and one step of removeClass
  // ---------------------------------------------------------------------

  /**
   * Erases code from the classes of student id; a student left with no
   * class is deleted. Every other student is kept as it was.
   */
  function DropCode(students: Students, id: string, code: string): (r: Students)
    requires id in students
    ensures id in r <==> students[id].classes - {code} != {}
    ensures id in r ==> r[id] == students[id].(classes := students[id].classes - {code})
    ensures forall other :: other != id ==> (other in r <==> other in students)
    ensures forall other :: other != id && other in r ==> r[other] == students[other]
  {
    var rest := students[id].classes - {code};
    if rest == {} then students - {id} else students[id := students[id].(classes := rest)]
  }

  lemma DropCodeKeepsRoster(students: Students, table: map<string, ClassInfo>, id: string, code: string)
    requires RosterOk(students, table) && id in students
    ensures RosterOk(DropCode(students, id, code), table)
  {
    var r := DropCode(students, id, code);
    if id in r {
      assert r[id].classes <= students[id].classes;
      assert |r[id].classes| <= |students[id].classes| by {
        SubsetSize(r[id].classes, students[id].classes);
      }
    }
  }

  lemma SubsetSize<T>(a: set<T>, b: set<T>)
    requires a <= b
    ensures |a| <= |b|
  {
    assert b == a + (b - a);
  }

  // ---------------------------------------------------------------------
  // replaceClass
  // ---------------------------------------------------------------------

  /**
   * The checks of replaceClass: valid UFID and codes, a known student, c2
   * in the class table, c1 held and c2 not yet held.
   */
  ghost predicate ReplaceAccepted(students: Students, table: map<string, ClassInfo>,
                                  id: string, c1: string, c2: string) {
    IsValidUfid(id) && IsValidClassCode(c1) && IsValidClassCode(c2) &&
    id in students && c2 in table &&
    c1 in students[id].classes && c2 !in students[id].classes
  }

  /** The student after the replacement: exactly -c1 +c2. */
  function Replaced(st: Student, c1: string, c2: string): Student {
    st.(classes := st.classes - {c1} + {c2})
  }

  /** The replacement keeps the number of classes and the invariant. */
  lemma ReplaceKeepsRoster(students: Students, table: map<string, ClassInfo>, id: string, c1: string, c2: string)
    requires RosterOk(students, table)
    requires ReplaceAccepted(students, table, id, c1, c2)
    ensures |Replaced(students[id], c1, c2).classes| == |students[id].classes|
    ensures RosterOk(students[id := Replaced(students[id], c1, c2)], table)
  {
    var cls := students[id].classes;
    assert |cls - {c1}| == |cls| - 1;
    assert c2 !in cls - {c1};
  }

  // ---------------------------------------------------------------------
  // removeClass
  // ---------------------------------------------------------------------

  /** The students who hold code: the ids removeClass collects first. */
  function Holders(students: Students, code: string): set<string> {
    set id | id in students && code in students[id].classes
  }

  /**
   * The table after DropCode has been applied to the students of done:
   * each of them loses code, and those left with nothing are gone.
   */
  function StripCode(students: Students, code: string, done: set<string>): Students {
    map id | id in students && !(id in done && students[id].classes - {code} == {}) ::
      if id in done then students[id].(classes := students[id].classes - {code}) else students[id]
  }

  /** Dropping the code from one more holder extends the stripped set by that holder. */
  lemma StripStep(students: Students, code: string, done: set<string>, id: string)
    requires id in Holders(students, code) && id !in done
    ensures id in StripCode(students, code, done)
    ensures DropCode(StripCode(students, code, done), id, code) == StripCode(students, code, done + {id})
  {
    var m := StripCode(students, code, done);
    assert m[id] == students[id];
    var l, r := DropCode(m, id, code), StripCode(students, code, done + {id});
    assert l.Keys == r.Keys;
    forall x | x in l ensures l[x] == r[x] {
      if x != id {
        assert l[x] == m[x];
      }
    }
  }

  /** Nothing stripped yet: the table itself. */
  lemma StripNothing(students: Students, code: string)
    ensures StripCode(students, code, {}) == students
  {
  }

  /**
   * removeClass's effect: nobody holds the code afterwards; a student who
   * did not hold it is unchanged; a holder keeps the rest of their classes,
   * and is deleted when the code was their only one.
   */
  lemma RemoveClassEffect(students: Students, code: string)
    ensures var r := StripCode(students, code, Holders(students, code));
      (forall id :: id in r ==> code !in r[id].classes) &&
      (forall id :: id in students && code !in students[id].classes ==> id in r && r[id] == students[id]) &&
      (forall id :: id in students && code in students[id].classes ==>
        (id in r <==> students[id].classes != {code}) &&
        (id in r ==> r[id].classes == students[id].classes - {code}))
      && r.Keys <= students.Keys
  {
    var r := StripCode(students, code, Holders(students, code));
    forall id | id in students && code in students[id].classes
      ensures students[id].classes - {code} == {} <==> students[id].classes == {code}
    {
      if students[id].classes - {code} == {} {
        assert students[id].classes <= {code};
      }
    }
  }

  lemma StripKeepsRoster(students: Students, table: map<string, ClassInfo>, code: string, done: set<string>)
    requires RosterOk(students, table)
    ensures RosterOk(StripCode(students, code, done), table)
  {
    var r := StripCode(students, code, done);
    forall id | id in r ensures StudentOk(r[id], id, table) {
      if id in done {
        SubsetSize(r[id].classes, students[id].classes);
      }
    }
  }
}
