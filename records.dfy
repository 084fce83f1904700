/**
 * The two tables: `students(id, name, index_number)` and
 * `courses(student_id, year, semester, course_name, grade, credits)`,
 * and the row selections the application's queries make on them.
 */
module Records {
  import opened Wrappers
  import opened Text

  /** A row of `students`; `id` is the AUTOINCREMENT key. */
  datatype Student = Student(id: int, name: string, indexNumber: string) {
    function Key(): StudentKey {
      StudentKey(name, indexNumber)
    }
  }

  /** A (year, semester) pair such as ("Year 1", "Semester 2"). */
  datatype Term = Term(year: string, semester: string)

  /** A row of `courses`, without its own AUTOINCREMENT key. */
  datatype Course = Course(studentId: int, year: string, semester: string,
                           courseName: string, grade: string, credits: real)
  {
    function TermOf(): Term {
      Term(year, semester)
    }
  }

  /** The two WHERE clauses the application puts on `courses`:
      `student_id=?` and `student_id=? AND year=? AND semester=?`. */
  datatype Query = OfStudent(id: int) | OfTerm(id: int, term: Term)

  predicate Matches(c: Course, q: Query) {
    match q
    case OfStudent(id) => c.studentId == id
    case OfTerm(id, t) => c.studentId == id && c.TermOf() == t
  }

  /** No row can satisfy both queries. */
  predicate Disjoint(q1: Query, q2: Query) {
    q1.id != q2.id || (q1.OfTerm? && q2.OfTerm? && q1.term != q2.term)
  }

  /** `SELECT ... WHERE q`, in table order. */
  function Where(cs: seq<Course>, q: Query): (r: seq<Course>)
    ensures |r| <= |cs|
  {
    if cs == [] then []
    else (if Matches(cs[0], q) then [cs[0]] else []) + Where(cs[1..], q)
  }

  /** The table after `DELETE FROM courses WHERE q`, in table order. */
  function Except(cs: seq<Course>, q: Query): (r: seq<Course>)
    ensures |r| <= |cs|
  {
    if cs == [] then []
    else (if Matches(cs[0], q) then [] else [cs[0]]) + Except(cs[1..], q)
  }

  /** The selection holds exactly the matching rows of the table. */
  lemma {:induction false} WhereMembers(cs: seq<Course>, q: Query)
    ensures forall c :: c in Where(cs, q) <==> c in cs && Matches(c, q)
  {
    if cs != [] {
      WhereMembers(cs[1..], q);
      assert cs == [cs[0]] + cs[1..];
    }
  }

  /** The table after the delete holds exactly the rows that do not match. */
  lemma {:induction false} ExceptMembers(cs: seq<Course>, q: Query)
    ensures forall c :: c in Except(cs, q) <==> c in cs && !Matches(c, q)
  {
    if cs != [] {
      ExceptMembers(cs[1..], q);
      assert cs == [cs[0]] + cs[1..];
    }
  }

  lemma {:induction false} WhereAppend(a: seq<Course>, b: seq<Course>, q: Query)
    ensures Where(a + b, q) == Where(a, q) + Where(b, q)
  {
    if a == [] {
      assert a + b == b;
    } else {
      var head := if Matches(a[0], q) then [a[0]] else [];
      TailAppend(a, b);
      assert Where(a + b, q) == head + Where(a[1..] + b, q);
      WhereAppend(a[1..], b, q);
      AppendAssoc(head, Where(a[1..], q), Where(b, q));
    }
  }

  lemma {:induction false} ExceptAppend(a: seq<Course>, b: seq<Course>, q: Query)
    ensures Except(a + b, q) == Except(a, q) + Except(b, q)
  {
    if a == [] {
      assert a + b == b;
    } else {
      var head := if Matches(a[0], q) then [] else [a[0]];
      TailAppend(a, b);
      assert Except(a + b, q) == head + Except(a[1..] + b, q);
      ExceptAppend(a[1..], b, q);
      AppendAssoc(head, Except(a[1..], q), Except(b, q));
    }
  }

  /** Selecting rows that all match keeps them all, in order. */
  lemma {:induction false} WhereAll(rs: seq<Course>, q: Query)
    requires forall i :: 0 <= i < |rs| ==> Matches(rs[i], q)
    ensures Where(rs, q) == rs
  {
    if rs != [] {
      WhereAll(rs[1..], q);
    }
  }

  /** Selecting from rows none of which matches gives nothing. */
  lemma {:induction false} WhereNone(rs: seq<Course>, q: Query)
    requires forall i :: 0 <= i < |rs| ==> !Matches(rs[i], q)
    ensures Where(rs, q) == []
  {
    if rs != [] {
      WhereNone(rs[1..], q);
    }
  }

  /** After deleting the rows of `q`, a query disjoint from `q` sees
      exactly the rows it saw before. */
  lemma {:induction false} WhereExceptDisjoint(cs: seq<Course>, q: Query, q2: Query)
    requires Disjoint(q, q2)
    ensures Where(Except(cs, q), q2) == Where(cs, q2)
  {
    if cs != [] {
      var head := if Matches(cs[0], q) then [] else [cs[0]];
      WhereAppend(head, Except(cs[1..], q), q2);
      WhereExceptDisjoint(cs[1..], q, q2);
    }
  }

  /** Selecting the deleted rows after the delete gives nothing. */
  lemma WhereExceptSame(cs: seq<Course>, q: Query)
    ensures Where(Except(cs, q), q) == []
  {
    var e := Except(cs, q);
    ExceptMembers(cs, q);
    forall i | 0 <= i < |e| ensures !Matches(e[i], q) {
      assert e[i] in e;
    }
    WhereNone(e, q);
  }

  /** Deleting rows that all match removes them all. */
  lemma {:induction false} ExceptAll(rs: seq<Course>, q: Query)
    requires forall i :: 0 <= i < |rs| ==> Matches(rs[i], q)
    ensures Except(rs, q) == []
  {
    if rs != [] {
      ExceptAll(rs[1..], q);
    }
  }

  /** Deleting the same rows twice is deleting them once. */
  lemma {:induction false} ExceptTwice(cs: seq<Course>, q: Query)
    ensures Except(Except(cs, q), q) == Except(cs, q)
  {
    if cs != [] {
      var head := if Matches(cs[0], q) then [] else [cs[0]];
      ExceptAppend(head, Except(cs[1..], q), q);
      ExceptTwice(cs[1..], q);
      if head != [] {
        assert head[1..] == [];
      }
    }
  }

  /** `SELECT id FROM students WHERE name=? AND index_number=?`: the
      position of the first row with that key, `None` when there is none. */
  function FindStudent(ss: seq<Student>, key: StudentKey): (r: Option<nat>)
    ensures r.Some? ==> r.value < |ss| && ss[r.value].Key() == key
    ensures r.Some? ==> forall j :: 0 <= j < r.value ==> ss[j].Key() != key
    ensures r.None? ==> forall j :: 0 <= j < |ss| ==> ss[j].Key() != key
  {
    if ss == [] then None
    else if ss[0].Key() == key then Some(0)
    else match FindStudent(ss[1..], key)
      case None => None
      case Some(i) => Some(i + 1)
  }

  predicate HasId(ss: seq<Student>, id: int) {
    exists k :: 0 <= k < |ss| && ss[k].id == id
  }

  predicate IndexTaken(ss: seq<Student>, indexNumber: string) {
    exists k :: 0 <= k < |ss| && ss[k].indexNumber == indexNumber
  }

  /** `id INTEGER PRIMARY KEY`. */
  predicate UniqueIds(ss: seq<Student>) {
    forall i, j :: 0 <= i < j < |ss| ==> ss[i].id != ss[j].id
  }

  /** `index_number TEXT UNIQUE`; it makes `UNIQUE(name, index_number)`
      redundant. */
  predicate UniqueIndexNumbers(ss: seq<Student>) {
    forall i, j :: 0 <= i < j < |ss| ==> ss[i].indexNumber != ss[j].indexNumber
  }

  /** Every course belongs to a student in the table. */
  predicate CoursesOwned(ss: seq<Student>, cs: seq<Course>) {
    forall c :: c in cs ==> HasId(ss, c.studentId)
  }
}
