/**
 * The database of main.py, V3.0 and V2.2: `students(id, name,
 * index_number)` with the index number unique, and `courses`. Each
 * operation of the application window that touches the tables is a method
 * of `Store`; what it would show in a message box is its returned
 * `Status`. The state is the committed state: an operation that stops
 * before `commit()` leaves it as it was.
 */
module StudentStore {
  import opened Wrappers
  import opened Text
  import opened Records
  import opened Gpa
  import opened Rows
  import opened Listing
  import opened Summary

  /** What the student dialog lets through: both fields non-blank and
      stripped. */
  predicate CleanKey(key: StudentKey) {
    && key.name != "" && key.indexNumber != ""
    && Trimmed(key.name) && Trimmed(key.indexNumber)
  }

  /** `AddStudentDialog.on_add` / `on_update`: both fields are stripped and
      both are required; `None` when the dialog refuses (or is cancelled). */
  function DialogResult(rawName: string, rawIndex: string): (r: Option<StudentKey>)
    ensures r.None? <==> AllSpace(rawName) || AllSpace(rawIndex)
    ensures r.Some? ==> CleanKey(r.value)
    ensures r.Some? ==> r.value == StudentKey(Trim(rawName), Trim(rawIndex))
  {
    var name, index := Trim(rawName), Trim(rawIndex);
    if name == "" || index == "" then None else Some(StudentKey(name, index))
  }

  /** The message an operation ends with. */
  datatype Status =
    | NoSelection             // "Select a student first." / "No student selected."
    | BadFormat               // "Selected student format invalid."
    | InputError              // the dialog was refused or cancelled
    | Cancelled               // the confirmation was answered "no"
    | NotFound                // "Student not found" / "does not exist in database"
    | IndexExists             // an IntegrityError on the UNIQUE constraint
    | Unchanged               // an edit that changes nothing
    | MissingColumns          // "Invalid file format. Missing required columns."
    | RowRejected(fault: RowFault) // save stopped at a grid row
    | NoData                  // "No GPA records to export."
    | Done                    // the success message

  /** The `courses` table after saving term `t` of student `id` with the
      rows `rs`: the term's old rows deleted, the new ones appended. */
  function SaveTerm(cs: seq<Course>, id: int, t: Term, rs: seq<Course>): seq<Course> {
    Except(cs, OfTerm(id, t)) + rs
  }

  /** After a save the term holds exactly the saved rows, in their order. */
  lemma SaveReplacesTerm(cs: seq<Course>, id: int, t: Term, rs: seq<Course>)
    requires forall i :: 0 <= i < |rs| ==> Matches(rs[i], OfTerm(id, t))
    ensures Where(SaveTerm(cs, id, t, rs), OfTerm(id, t)) == rs
  {
    var q := OfTerm(id, t);
    WhereAppend(Except(cs, q), rs, q);
    WhereExceptSame(cs, q);
    WhereAll(rs, q);
  }

  /** A save leaves every other term and every other student as it was. */
  lemma SaveKeepsOthers(cs: seq<Course>, id: int, t: Term, rs: seq<Course>, q: Query)
    requires forall i :: 0 <= i < |rs| ==> Matches(rs[i], OfTerm(id, t))
    requires Disjoint(OfTerm(id, t), q)
    ensures Where(SaveTerm(cs, id, t, rs), q) == Where(cs, q)
  {
    WhereAppend(Except(cs, OfTerm(id, t)), rs, q);
    WhereExceptDisjoint(cs, OfTerm(id, t), q);
    WhereNone(rs, q);
  }

  /** Saving a term twice leaves only what the second save wrote. */
  lemma SaveTwice(cs: seq<Course>, id: int, t: Term, rs1: seq<Course>, rs2: seq<Course>)
    requires forall i :: 0 <= i < |rs1| ==> Matches(rs1[i], OfTerm(id, t))
    ensures SaveTerm(SaveTerm(cs, id, t, rs1), id, t, rs2) == SaveTerm(cs, id, t, rs2)
  {
    var q := OfTerm(id, t);
    ExceptAppend(Except(cs, q), rs1, q);
    ExceptTwice(cs, q);
    ExceptAll(rs1, q);
    assert Except(SaveTerm(cs, id, t, rs1), q) == Except(cs, q) + [];
    assert Except(cs, q) + [] == Except(cs, q);
  }

  /** Import appends to the student's courses and leaves everybody else's
      alone. */
  lemma ImportAppends(cs: seq<Course>, rows: seq<ImportRow>, id: int, checks: Checks, q: Query)
    requires q.OfStudent?
    ensures var added := ImportedOf(rows, id, checks);
            Where(cs + added, q) == Where(cs, q) + (if q.id == id then added else [])
  {
    var added := ImportedOf(rows, id, checks);
    ImportMeaning(rows, id, checks);
    WhereAppend(cs, added, q);
    assert forall i :: 0 <= i < |added| ==> added[i] in added;
    if q.id == id {
      WhereAll(added, q);
    } else {
      WhereNone(added, q);
    }
  }

  /** `DELETE FROM students WHERE id=?` on the row at position `i`. */
  function Without(ss: seq<Student>, i: nat): (r: seq<Student>)
    requires i < |ss|
    ensures |r| == |ss| - 1
  {
    ss[..i] + ss[i + 1..]
  }

  /** With unique ids, deleting the row at `i` removes that student and
      nobody else, and keeps the table's uniqueness. */
  lemma WithoutRemovesOne(ss: seq<Student>, i: nat)
    requires i < |ss| && UniqueIds(ss)
    ensures forall s :: s in Without(ss, i) <==> s in ss && s.id != ss[i].id
    ensures UniqueIds(Without(ss, i))
    ensures UniqueIndexNumbers(ss) ==> UniqueIndexNumbers(Without(ss, i))
  {
    var r := Without(ss, i);
    assert forall j :: 0 <= j < |r| ==> r[j] == (if j < i then ss[j] else ss[j + 1]);
    forall s | s in ss && s.id != ss[i].id ensures s in r {
      var k :| 0 <= k < |ss| && ss[k] == s;
      assert k != i;
      if k < i {
        assert r[k] == s;
      } else {
        assert r[k - 1] == s;
      }
    }
  }

  /** Deleting a student and its courses keeps every remaining course owned. */
  lemma OwnedAfterDelete(ss: seq<Student>, cs: seq<Course>, i: nat)
    requires i < |ss| && UniqueIds(ss) && CoursesOwned(ss, cs)
    ensures CoursesOwned(Without(ss, i), Except(cs, OfStudent(ss[i].id)))
  {
    WithoutRemovesOne(ss, i);
    ExceptMembers(cs, OfStudent(ss[i].id));
    var r := Without(ss, i);
    forall c | c in Except(cs, OfStudent(ss[i].id)) ensures HasId(r, c.studentId) {
      var k :| 0 <= k < |ss| && ss[k].id == c.studentId;
      assert ss[k] in r;
      var j :| 0 <= j < |r| && r[j] == ss[k];
    }
  }

  /** A row elsewhere in the table has this index number. */
  predicate OtherHasIndex(ss: seq<Student>, i: nat, indexNumber: string) {
    exists j :: 0 <= j < |ss| && j != i && ss[j].indexNumber == indexNumber
  }

  /** The constraints of `init_db`, what the dialog guarantees about stored
      keys, ids below the next AUTOINCREMENT value, and every course having
      its student. */
  ghost predicate Tables(ss: seq<Student>, cs: seq<Course>, nextId: int) {
    && UniqueIds(ss)
    && UniqueIndexNumbers(ss)
    && (forall k :: 0 <= k < |ss| ==> ss[k].id < nextId)
    && (forall k :: 0 <= k < |ss| ==> CleanKey(ss[k].Key()))
    && CoursesOwned(ss, cs)
  }

  /** Inserting a clean key whose index number is free, under the next id,
      keeps the constraints. */
  lemma AddKeepsTables(ss: seq<Student>, cs: seq<Course>, nextId: int, key: StudentKey)
    requires Tables(ss, cs, nextId) && CleanKey(key) && !IndexTaken(ss, key.indexNumber)
    ensures Tables(ss + [Student(nextId, key.name, key.indexNumber)], cs, nextId + 1)
  {
    var s := Student(nextId, key.name, key.indexNumber);
    var r := ss + [s];
    assert forall k :: 0 <= k < |ss| ==> r[k] == ss[k];
    forall c | c in cs ensures HasId(r, c.studentId) {
      var k :| 0 <= k < |ss| && ss[k].id == c.studentId;
      assert r[k] == ss[k];
    }
  }

  /** Giving row `i` a clean key whose index number no other row has keeps
      the constraints. */
  lemma RenameKeepsTables(ss: seq<Student>, cs: seq<Course>, nextId: int, i: nat, key: StudentKey)
    requires Tables(ss, cs, nextId) && i < |ss| && CleanKey(key) && !OtherHasIndex(ss, i, key.indexNumber)
    ensures Tables(ss[i := Student(ss[i].id, key.name, key.indexNumber)], cs, nextId)
  {
    var r := ss[i := Student(ss[i].id, key.name, key.indexNumber)];
    forall c | c in cs ensures HasId(r, c.studentId) {
      var k :| 0 <= k < |ss| && ss[k].id == c.studentId;
      assert r[k].id == ss[k].id;
    }
  }

  /** Deleting student `i` with its courses keeps the constraints. */
  lemma DeleteKeepsTables(ss: seq<Student>, cs: seq<Course>, nextId: int, i: nat)
    requires Tables(ss, cs, nextId) && i < |ss|
    ensures Tables(Without(ss, i), Except(cs, OfStudent(ss[i].id)), nextId)
  {
    WithoutRemovesOne(ss, i);
    OwnedAfterDelete(ss, cs, i);
    var r := Without(ss, i);
    forall j | 0 <= j < |r| ensures r[j].id < nextId && CleanKey(r[j].Key()) {
      if j < i {
        assert r[j] == ss[j];
      } else {
        assert r[j] == ss[j + 1];
      }
    }
  }

  /** Keeping some of the courses and adding rows of a stored student
      keeps the constraints. */
  lemma InsertKeepsTables(ss: seq<Student>, cs: seq<Course>, nextId: int, kept: seq<Course>,
                          rs: seq<Course>, k: nat)
    requires Tables(ss, cs, nextId) && k < |ss|
    requires forall c :: c in kept ==> c in cs
    requires forall c :: c in rs ==> c.studentId == ss[k].id
    ensures Tables(ss, kept + rs, nextId)
  {
    forall c | c in kept + rs ensures HasId(ss, c.studentId) {
      if c !in kept {
        assert ss[k].id == c.studentId;
      }
    }
  }

  /** Any selection from rows on the scale averages between 0.0 and 4.0. */
  lemma ScaledSelection(cs: seq<Course>, q: Query)
    requires OnScale(cs)
    ensures OnScale(Where(cs, q)) && 0.0 <= GpaOf(Where(cs, q)) <= 4.0
  {
    WhereMembers(cs, q);
    OnScaleGpa(Where(cs, q));
  }

  /** The body of `totalPoints / totalCredits if totalCredits else 0` for
      both labels of `calculate_gpa`. */
  datatype GpaReport = GpaReport(cumulative: Average, term: Average)

  class Store {
    var students: seq<Student>
    var courses: seq<Course>
    /** The next AUTOINCREMENT id: ids are never reused. */
    var nextId: int
    /** Strict for main.py and V3.0, ParseOnly for V2.2. */
    const checks: Checks

    /** The table constraints, and for the checked versions every stored
        course on the scale with positive credits. */
    ghost predicate Valid()
      reads this
    {
      && Tables(students, courses, nextId)
      && (checks.Strict? ==> OnScale(courses))
    }

    /** `init_db` on a new database file. */
    constructor(checks: Checks)
      ensures Valid()
      ensures students == [] && courses == [] && this.checks == checks
    {
      students, courses, nextId := [], [], 1;
      this.checks := checks;
    }

    /** `add_student`: the dialog, then an INSERT that the UNIQUE index
        number constraint may refuse. */
    method AddStudent(rawName: string, rawIndex: string) returns (status: Status)
      requires Valid()
      modifies this
      ensures Valid()
      ensures courses == old(courses)
      ensures match DialogResult(rawName, rawIndex)
        case None => status == InputError && students == old(students) && nextId == old(nextId)
        case Some(key) =>
          if IndexTaken(old(students), key.indexNumber) then
            status == IndexExists && students == old(students) && nextId == old(nextId)
          else
            && status == Done
            && students == old(students) + [Student(old(nextId), key.name, key.indexNumber)]
            && nextId == old(nextId) + 1
    {
      var dialog := DialogResult(rawName, rawIndex);
      if dialog.None? {
        return InputError;
      }
      var key := dialog.value;
      if IndexTaken(students, key.indexNumber) {
        return IndexExists;
      }
      AddKeepsTables(students, courses, nextId, key);
      students := students + [Student(nextId, key.name, key.indexNumber)];
      nextId := nextId + 1;
      status := Done;
    }

    /** `update_student` / `edit_student`: the selector text, the dialog,
        then `UPDATE ... WHERE name=? AND index_number=?`. An UPDATE that
        matches no row changes nothing and still reports success. */
    method UpdateStudent(selected: string, rawName: string, rawIndex: string) returns (status: Status)
      requires Valid()
      modifies this
      ensures Valid()
      ensures courses == old(courses) && nextId == old(nextId)
      ensures status != Done ==> students == old(students)
      ensures selected == "" ==> status == NoSelection
      ensures selected != "" ==> match ParseStudent(selected)
        case None => status == BadFormat
        case Some(key) => match DialogResult(rawName, rawIndex)
          case None => status == InputError
          case Some(newKey) =>
            if newKey == key then status == Unchanged
            else match FindStudent(old(students), key)
              case None => status == Done && students == old(students)
              case Some(i) =>
                if OtherHasIndex(old(students), i, newKey.indexNumber) then status == IndexExists
                else
                  && status == Done
                  && students == old(students)[i := Student(old(students)[i].id, newKey.name, newKey.indexNumber)]
    {
      if selected == "" {
        return NoSelection;
      }
      var parsed := ParseStudent(selected);
      if parsed.None? {
        return BadFormat;
      }
      var key := parsed.value;
      var dialog := DialogResult(rawName, rawIndex);
      if dialog.None? {
        return InputError;
      }
      var newKey := dialog.value;
      if newKey == key {
        return Unchanged;
      }
      var found := FindStudent(students, key);
      if found.None? {
        return Done;
      }
      var i := found.value;
      if OtherHasIndex(students, i, newKey.indexNumber) {
        return IndexExists;
      }
      RenameKeepsTables(students, courses, nextId, i, newKey);
      students := students[i := Student(students[i].id, newKey.name, newKey.indexNumber)];
      status := Done;
    }

    /** `delete_student`: the selector text, the confirmation, the lookup,
        then the student's courses and the student are deleted. */
    method DeleteStudent(selected: string, confirm: bool) returns (status: Status)
      requires Valid()
      modifies this
      ensures Valid()
      ensures nextId == old(nextId)
      ensures status != Done ==> students == old(students) && courses == old(courses)
      ensures selected == "" ==> status == NoSelection
      ensures selected != "" ==> match ParseStudent(selected)
        case None => status == BadFormat
        case Some(key) =>
          if !confirm then status == Cancelled
          else match FindStudent(old(students), key)
            case None => status == NotFound
            case Some(i) =>
              && status == Done
              && students == Without(old(students), i)
              && courses == Except(old(courses), OfStudent(old(students)[i].id))
    {
      if selected == "" {
        return NoSelection;
      }
      var parsed := ParseStudent(selected);
      if parsed.None? {
        return BadFormat;
      }
      if !confirm {
        return Cancelled;
      }
      var found := FindStudent(students, parsed.value);
      if found.None? {
        return NotFound;
      }
      var i := found.value;
      var id := students[i].id;
      DeleteKeepsTables(students, courses, nextId, i);
      ExceptMembers(courses, OfStudent(id));
      courses := Except(courses, OfStudent(id));
      students := Without(students, i);
      status := Done;
    }

    /** `save_courses` of term `t` for the selected student: the term's rows
        are replaced by the filled grid rows, unless a row fails its checks,
        in which case nothing is committed. */
    method SaveCourses(current: Option<StudentKey>, t: Term, entries: seq<Draft>,
                       parse: string -> Option<real>) returns (status: Status)
      requires Valid()
      modifies this
      ensures Valid()
      ensures students == old(students) && nextId == old(nextId)
      ensures status != Done ==> courses == old(courses)
      ensures match current
        case None => status == NoSelection
        case Some(key) => match FindStudent(students, key)
          case None => status == NotFound
          case Some(i) => match TermRowsOf(entries, students[i].id, t, checks, parse)
            case Rejected(f) => status == RowRejected(f)
            case Rows(rs) => status == Done && courses == SaveTerm(old(courses), students[i].id, t, rs)
    {
      if current.None? {
        return NoSelection;
      }
      var found := FindStudent(students, current.value);
      if found.None? {
        return NotFound;
      }
      var id := students[found.value].id;
      var built := BuildTermRows(entries, id, t, checks, parse);
      match built
      case Rejected(f) =>
        status := RowRejected(f);
      case Rows(rs) =>
        InsertedInTerm(entries, id, t, checks, parse);
        ExceptMembers(courses, OfTerm(id, t));
        InsertKeepsTables(students, courses, nextId, Except(courses, OfTerm(id, t)), rs, found.value);
        if checks.Strict? {
          SaveOnScale(entries, id, t, parse);
        }
        courses := SaveTerm(courses, id, t, rs);
        status := Done;
    }

    /** `import_excel` for the selected student: the column check, the
        lookup, then each row appended or reported on its own. */
    method ImportCourses(current: Option<StudentKey>, columns: set<string>, rows: seq<ImportRow>)
      returns (status: Status, errors: seq<RowError>)
      requires Valid()
      modifies this
      ensures Valid()
      ensures students == old(students) && nextId == old(nextId)
      ensures status != Done ==> courses == old(courses) && errors == []
      ensures match current
        case None => status == NoSelection
        case Some(key) =>
          if !(RequiredColumns <= columns) then status == MissingColumns
          else match FindStudent(students, key)
            case None => status == NotFound
            case Some(i) =>
              && status == Done
              && courses == old(courses) + ImportedOf(rows, students[i].id, checks)
              && errors == ErrorsOf(rows, checks)
    {
      errors := [];
      if current.None? {
        return NoSelection, [];
      }
      if !(RequiredColumns <= columns) {
        return MissingColumns, [];
      }
      var found := FindStudent(students, current.value);
      if found.None? {
        return NotFound, [];
      }
      var id := students[found.value].id;
      var added;
      added, errors := ImportRows(rows, id, checks);
      ImportMeaning(rows, id, checks);
      InsertKeepsTables(students, courses, nextId, courses, added, found.value);
      if checks.Strict? {
        ImportOnScale(rows, id);
      }
      courses := courses + added;
      status := Done;
    }

    /** `calculate_gpa` of main.py and V3.0: the cumulative average over all
        the student's courses and the average of term `t`. */
    method CalculateGpa(current: Option<StudentKey>, t: Term) returns (status: Status, report: Option<GpaReport>)
      requires Valid()
      ensures report.Some? <==> status == Done
      ensures checks.Strict? && report.Some? ==>
                && 0.0 <= report.value.cumulative.gpa <= 4.0
                && 0.0 <= report.value.term.gpa <= 4.0
      ensures match current
        case None => status == NoSelection
        case Some(key) => match FindStudent(students, key)
          case None => status == NotFound
          case Some(i) =>
            var all := Where(courses, OfStudent(students[i].id));
            var term := Where(courses, OfTerm(students[i].id, t));
            report == Some(GpaReport(Average(GpaOf(all), TotalCredits(all)),
                                     Average(GpaOf(term), TotalCredits(term))))
    {
      if current.None? {
        return NoSelection, None;
      }
      var found := FindStudent(students, current.value);
      if found.None? {
        return NotFound, None;
      }
      var id := students[found.value].id;
      if checks.Strict? {
        ScaledSelection(courses, OfStudent(id));
        ScaledSelection(courses, OfTerm(id, t));
      }
      var cumulative := ComputeGpa(Where(courses, OfStudent(id)));
      var term := ComputeGpa(Where(courses, OfTerm(id, t)));
      return Done, Some(GpaReport(cumulative, term));
    }

    /** `calculate_gpa` of V2.2: the cumulative average only. */
    method CumulativeGpa(current: Option<StudentKey>) returns (status: Status, average: Option<Average>)
      ensures average.Some? <==> status == Done
      ensures match current
        case None => status == NoSelection
        case Some(key) => match FindStudent(students, key)
          case None => status == NotFound
          case Some(i) =>
            var all := Where(courses, OfStudent(students[i].id));
            average == Some(Average(GpaOf(all), TotalCredits(all)))
    {
      if current.None? {
        return NoSelection, None;
      }
      var found := FindStudent(students, current.value);
      if found.None? {
        return NotFound, None;
      }
      var avg := ComputeGpa(Where(courses, OfStudent(students[found.value].id)));
      return Done, Some(avg);
    }

    /** `export_all_gpa_summary`: the records of all students in name order,
        "No Data" exactly when there is no course at all. */
    method ExportAllGpaSummary() returns (status: Status, records: seq<GpaRecord>)
      requires Valid()
      ensures records == SummaryOf(ByName(students), courses)
      ensures status == NoData <==> courses == []
      ensures status == NoData || status == Done
      ensures NamesInOrder(records)
    {
      records := BuildSummary(ByName(students), courses);
      NoDataIff(students, courses);
      SummaryInNameOrder(ByName(students), courses);
      status := if records == [] then NoData else Done;
    }
  }
}
