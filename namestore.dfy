/**
 * The database of V2.1: `students(id, name UNIQUE)`, keyed by the name
 * alone, and the same `courses` table. The selector holds the bare name;
 * save and import only need the credits to parse.
 */
module NameStore {
  import opened Wrappers
  import opened Text
  import opened Records
  import opened Gpa
  import opened Rows
  import opened Listing
  import opened StudentStore

  /** A row of V2.1's `students`. */
  datatype NamedStudent = NamedStudent(id: int, name: string)

  predicate UniqueNamedIds(ss: seq<NamedStudent>) {
    forall i, j :: 0 <= i < j < |ss| ==> ss[i].id != ss[j].id
  }

  /** `name TEXT UNIQUE NOT NULL`. */
  predicate UniqueNames(ss: seq<NamedStudent>) {
    forall i, j :: 0 <= i < j < |ss| ==> ss[i].name != ss[j].name
  }

  predicate NameTaken(ss: seq<NamedStudent>, name: string) {
    exists k :: 0 <= k < |ss| && ss[k].name == name
  }

  predicate OwnedByNamed(ss: seq<NamedStudent>, cs: seq<Course>) {
    forall c :: c in cs ==> exists k :: 0 <= k < |ss| && ss[k].id == c.studentId
  }

  /** `SELECT id FROM students WHERE name=?`. */
  function FindByName(ss: seq<NamedStudent>, name: string): (r: Option<nat>)
    ensures r.Some? ==> r.value < |ss| && ss[r.value].name == name
    ensures r.None? <==> !NameTaken(ss, name)
  {
    if ss == [] then None
    else if ss[0].name == name then Some(0)
    else match FindByName(ss[1..], name)
      case None => None
      case Some(i) => Some(i + 1)
  }

  /** `add_student` as written: `askstring` gives `None` on cancel, `if name:`
      tests the text before stripping, and the stripped text is stored. */
  function AcceptedNameAsWritten(raw: Option<string>): Option<string> {
    if raw.Some? && raw.value != "" then Some(Trim(raw.value)) else None
  }

  /** As written, a reply made only of spaces is accepted and stores the
      empty name. */
  lemma BlankNameAccepted()
    ensures AcceptedNameAsWritten(Some("   ")) == Some("")
  {
    assert AllSpace("   ");
  }

  /** `add_student` as intended (and as V2.2 onwards do it): the name is
      stripped before the emptiness test, so only a non-blank name is
      accepted, and it is stored stripped. */
  function AcceptedName(raw: Option<string>): (r: Option<string>)
    ensures r.None? <==> raw.None? || AllSpace(raw.value)
    ensures r.Some? ==> r.value != "" && Trimmed(r.value)
    ensures r.Some? ==> r.value == Trim(raw.value)
  {
    if raw.None? then None
    else
      var name := Trim(raw.value);
      if name == "" then None else Some(name)
  }

  /** The two agree on every reply except a non-empty all-blank one, which
      only the version as written accepts. */
  lemma AcceptedNameDiffers(raw: Option<string>)
    ensures AcceptedNameAsWritten(raw) != AcceptedName(raw) <==>
            raw.Some? && raw.value != "" && AllSpace(raw.value)
  {
  }

  /** `SELECT name FROM students ORDER BY name`, and the student the
      selector then shows: the first name, or, with no students, whatever
      was selected before (V2.1 does not reset it). */
  function LoadNames(ss: seq<NamedStudent>, current: string): (r: (seq<string>, string))
    ensures multiset(r.0) == multiset(seq(|ss|, i requires 0 <= i < |ss| => ss[i].name))
    ensures SortedBy(r.0, (n: string) => n)
    ensures ss == [] ==> r.1 == current
    ensures ss != [] ==> NameTaken(ss, r.1) && forall k :: 0 <= k < |ss| ==> NameLe(r.1, ss[k].name)
  {
    var names := seq(|ss|, i requires 0 <= i < |ss| => ss[i].name);
    var sorted := SortBy(names, (n: string) => n);
    SortSorted(names, (n: string) => n);
    if sorted == [] then (sorted, current)
    else
      FirstIsLeast(sorted, names, (n: string) => n);
      assert forall k :: 0 <= k < |ss| ==> names[k] == ss[k].name;
      var j :| 0 <= j < |names| && names[j] == sorted[0];
      assert ss[j].name == sorted[0];
      (sorted, sorted[0])
  }

  /** Removing the row at `i` keeps every other row, in order, and keeps
      the table's uniqueness; with unique ids, a course of another student
      keeps its owner. */
  lemma {:induction false} RemoveRow(ss: seq<NamedStudent>, i: nat, cs: seq<Course>)
    requires i < |ss| && UniqueNamedIds(ss) && OwnedByNamed(ss, cs)
    ensures var rest := ss[..i] + ss[i + 1..];
            && |rest| == |ss| - 1
            && (forall j :: 0 <= j < |rest| ==> rest[j] == if j < i then ss[j] else ss[j + 1])
            && UniqueNamedIds(rest)
            && (UniqueNames(ss) ==> UniqueNames(rest))
            && OwnedByNamed(rest, Except(cs, OfStudent(ss[i].id)))
  {
    var rest := ss[..i] + ss[i + 1..];
    assert forall j :: 0 <= j < |rest| ==> rest[j] == if j < i then ss[j] else ss[j + 1];
    ExceptMembers(cs, OfStudent(ss[i].id));
    forall c | c in Except(cs, OfStudent(ss[i].id))
      ensures exists k :: 0 <= k < |rest| && rest[k].id == c.studentId
    {
      var k :| 0 <= k < |ss| && ss[k].id == c.studentId;
      assert k != i;
      if k < i {
        assert rest[k] == ss[k];
      } else {
        assert rest[k - 1] == ss[k];
      }
    }
  }

  /** V2.1's constraints: unique ids and names, ids below the next
      AUTOINCREMENT value, stored names stripped and non-empty, and every
      course having its student. */
  ghost predicate NamedTables(ss: seq<NamedStudent>, cs: seq<Course>, nextId: int) {
    && UniqueNamedIds(ss)
    && UniqueNames(ss)
    && (forall k :: 0 <= k < |ss| ==> ss[k].id < nextId)
    && (forall k :: 0 <= k < |ss| ==> ss[k].name != "" && Trimmed(ss[k].name))
    && OwnedByNamed(ss, cs)
  }

  /** Inserting a new stripped, non-empty name under the next id keeps the
      constraints. */
  lemma AddKeepsNamedTables(ss: seq<NamedStudent>, cs: seq<Course>, nextId: int, name: string)
    requires NamedTables(ss, cs, nextId) && name != "" && Trimmed(name) && !NameTaken(ss, name)
    ensures NamedTables(ss + [NamedStudent(nextId, name)], cs, nextId + 1)
  {
    var r := ss + [NamedStudent(nextId, name)];
    assert forall k :: 0 <= k < |ss| ==> r[k] == ss[k];
    forall c | c in cs ensures exists k :: 0 <= k < |r| && r[k].id == c.studentId {
      var k :| 0 <= k < |ss| && ss[k].id == c.studentId;
      assert r[k] == ss[k];
    }
  }

  /** Deleting student `i` with its courses keeps the constraints. */
  lemma DeleteKeepsNamedTables(ss: seq<NamedStudent>, cs: seq<Course>, nextId: int, i: nat)
    requires NamedTables(ss, cs, nextId) && i < |ss|
    ensures NamedTables(ss[..i] + ss[i + 1..], Except(cs, OfStudent(ss[i].id)), nextId)
  {
    RemoveRow(ss, i, cs);
    var r := ss[..i] + ss[i + 1..];
    forall j | 0 <= j < |r| ensures r[j].id < nextId && r[j].name != "" && Trimmed(r[j].name) {
      if j < i {
        assert r[j] == ss[j];
      } else {
        assert r[j] == ss[j + 1];
      }
    }
  }

  /** Keeping some of the courses and adding rows of a stored student keeps
      the constraints. */
  lemma InsertKeepsNamedTables(ss: seq<NamedStudent>, cs: seq<Course>, nextId: int, kept: seq<Course>,
                               rs: seq<Course>, k: nat)
    requires NamedTables(ss, cs, nextId) && k < |ss|
    requires forall c :: c in kept ==> c in cs
    requires forall c :: c in rs ==> c.studentId == ss[k].id
    ensures NamedTables(ss, kept + rs, nextId)
  {
    forall c | c in kept + rs ensures exists j :: 0 <= j < |ss| && ss[j].id == c.studentId {
      if c !in kept {
        assert ss[k].id == c.studentId;
      }
    }
  }

  class Store {
    var students: seq<NamedStudent>
    var courses: seq<Course>
    var nextId: int

    ghost predicate Valid()
      reads this
    {
      NamedTables(students, courses, nextId)
    }

    constructor()
      ensures Valid() && students == [] && courses == []
    {
      students, courses, nextId := [], [], 1;
    }

    /** `add_student` with the non-blank test of `AcceptedName`; a name
        already present is refused by the UNIQUE constraint. */
    method AddStudent(raw: Option<string>) returns (status: Status)
      requires Valid()
      modifies this
      ensures Valid()
      ensures courses == old(courses)
      ensures match AcceptedName(raw)
        case None => status == InputError && students == old(students) && nextId == old(nextId)
        case Some(name) =>
          if NameTaken(old(students), name) then
            status == IndexExists && students == old(students) && nextId == old(nextId)
          else
            && status == Done
            && students == old(students) + [NamedStudent(old(nextId), name)]
            && nextId == old(nextId) + 1
    {
      var accepted := AcceptedName(raw);
      if accepted.None? {
        return InputError;
      }
      var name := accepted.value;
      if NameTaken(students, name) {
        return IndexExists;
      }
      AddKeepsNamedTables(students, courses, nextId, name);
      students := students + [NamedStudent(nextId, name)];
      nextId := nextId + 1;
      status := Done;
    }

    /** `delete_student`: both DELETEs use the selected text as the name; an
        unknown name deletes nothing and still ends like a deletion. */
    method DeleteStudent(selected: string, confirm: bool) returns (status: Status)
      requires Valid()
      modifies this
      ensures Valid()
      ensures nextId == old(nextId)
      ensures selected == "" ==> status == NoSelection
      ensures selected != "" && !confirm ==> status == Cancelled
      ensures selected != "" && confirm ==> status == Done
      ensures status != Done ==> students == old(students) && courses == old(courses)
      ensures status == Done ==> match FindByName(old(students), selected)
        case None => students == old(students) && courses == old(courses)
        case Some(i) =>
          && students == old(students)[..i] + old(students)[i + 1..]
          && courses == Except(old(courses), OfStudent(old(students)[i].id))
    {
      if selected == "" {
        return NoSelection;
      }
      if !confirm {
        return Cancelled;
      }
      status := Done;
      var found := FindByName(students, selected);
      if found.None? {
        return;
      }
      var i := found.value;
      var id := students[i].id;
      var rest := students[..i] + students[i + 1..];
      DeleteKeepsNamedTables(students, courses, nextId, i);
      courses := Except(courses, OfStudent(id));
      students := rest;
    }

    /** `save_courses`: the selected name looked up, then the term replaced
        by the filled grid rows whose credits parse. */
    method SaveCourses(current: string, t: Term, entries: seq<Draft>, parse: string -> Option<real>)
      returns (status: Status)
      requires Valid()
      modifies this
      ensures Valid()
      ensures students == old(students) && nextId == old(nextId)
      ensures status != Done ==> courses == old(courses)
      ensures current == "" ==> status == NoSelection
      ensures current != "" ==> match FindByName(students, current)
        case None => status == NotFound
        case Some(i) => match TermRowsOf(entries, students[i].id, t, ParseOnly, parse)
          case Rejected(f) => status == RowRejected(f)
          case Rows(rs) => status == Done && courses == SaveTerm(old(courses), students[i].id, t, rs)
    {
      if current == "" {
        return NoSelection;
      }
      var found := FindByName(students, current);
      if found.None? {
        return NotFound;
      }
      var id := students[found.value].id;
      var built := BuildTermRows(entries, id, t, ParseOnly, parse);
      match built
      case Rejected(f) =>
        status := RowRejected(f);
      case Rows(rs) =>
        InsertedInTerm(entries, id, t, ParseOnly, parse);
        ExceptMembers(courses, OfTerm(id, t));
        InsertKeepsNamedTables(students, courses, nextId, Except(courses, OfTerm(id, t)), rs, found.value);
        courses := SaveTerm(courses, id, t, rs);
        status := Done;
    }

    /** `import_excel`: the column check, the lookup by name, then every
        row whose credits parse appended. */
    method ImportCourses(current: string, columns: set<string>, rows: seq<ImportRow>)
      returns (status: Status, errors: seq<RowError>)
      requires Valid()
      modifies this
      ensures Valid()
      ensures students == old(students) && nextId == old(nextId)
      ensures status != Done ==> courses == old(courses) && errors == []
      ensures current == "" ==> status == NoSelection
      ensures current != "" ==>
        if !(RequiredColumns <= columns) then status == MissingColumns
        else match FindByName(students, current)
          case None => status == NotFound
          case Some(i) =>
            && status == Done
            && courses == old(courses) + ImportedOf(rows, students[i].id, ParseOnly)
            && errors == ErrorsOf(rows, ParseOnly)
    {
      errors := [];
      if current == "" {
        return NoSelection, [];
      }
      if !(RequiredColumns <= columns) {
        return MissingColumns, [];
      }
      var found := FindByName(students, current);
      if found.None? {
        return NotFound, [];
      }
      var id := students[found.value].id;
      var added;
      added, errors := ImportRows(rows, id, ParseOnly);
      ImportMeaning(rows, id, ParseOnly);
      InsertKeepsNamedTables(students, courses, nextId, courses, added, found.value);
      courses := courses + added;
      status := Done;
    }

    /** `calculate_gpa`: the cumulative average of the selected name. */
    method CumulativeGpa(current: string) returns (status: Status, average: Option<Average>)
      ensures average.Some? <==> status == Done
      ensures current == "" ==> status == NoSelection
      ensures current != "" ==> match FindByName(students, current)
        case None => status == NotFound
        case Some(i) =>
          var all := Where(courses, OfStudent(students[i].id));
          average == Some(Average(GpaOf(all), TotalCredits(all)))
    {
      if current == "" {
        return NoSelection, None;
      }
      var found := FindByName(students, current);
      if found.None? {
        return NotFound, None;
      }
      var avg := ComputeGpa(Where(courses, OfStudent(students[found.value].id)));
      return Done, Some(avg);
    }
  }
}
