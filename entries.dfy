/**
 * The course grid (`self.entries`): one draft per row, in display order.
 * In main.py `clear_entries` leaves the grid empty; in V3.0, V2.2 and V2.1
 * it leaves one blank row.
 */
module Entries {
  import opened Wrappers
  import opened Text
  import opened Grades
  import opened Records
  import opened Rows
  import StudentStore
  import NameStore

  /** The drafts `add_course_row(*row)` builds from stored rows: the credits
      shown as `show` writes a REAL (Python's `str(float)`). */
  function Drafts(cs: seq<Course>, show: real -> string): (r: seq<Draft>)
    ensures |r| == |cs|
    ensures forall i :: 0 <= i < |cs| ==> r[i] == Draft(cs[i].courseName, cs[i].grade, show(cs[i].credits))
  {
    seq(|cs|, i requires 0 <= i < |cs| => Draft(cs[i].courseName, cs[i].grade, show(cs[i].credits)))
  }

  /** The grid `clear_entries` leaves. */
  function Cleared(blankOnClear: bool): seq<Draft> {
    if blankOnClear then [Blank] else []
  }

  /** `load_courses` as written, once a student is selected: `clear_entries`,
      then (when the student is found, `stored` being the term's rows) one
      draft per stored row, or one blank row if there are none. */
  function LoadedRowsAsWritten(blankOnClear: bool, stored: Option<seq<Course>>, show: real -> string): seq<Draft> {
    match stored
    case None => Cleared(blankOnClear)
    case Some(cs) => Cleared(blankOnClear) + (if cs == [] then [Blank] else Drafts(cs, show))
  }

  /** Where `clear_entries` already adds a blank row, a term with no courses
      loads as two blank rows, and a term with courses gets a blank row in
      front of them. */
  lemma LoadedRowsAsWrittenExtraBlank(c: Course, show: real -> string)
    ensures LoadedRowsAsWritten(true, Some([]), show) == [Blank, Blank]
    ensures LoadedRowsAsWritten(true, Some([c]), show) == [Blank, Draft(c.courseName, c.grade, show(c.credits))]
  {
  }

  /** `load_courses` as intended: the stored rows of the term, or exactly
      one blank row when the term has none. */
  function LoadedRows(blankOnClear: bool, stored: Option<seq<Course>>, show: real -> string): (r: seq<Draft>)
    ensures stored.None? ==> r == Cleared(blankOnClear)
    ensures stored.Some? && stored.value == [] ==> r == [Blank]
    ensures stored.Some? && stored.value != [] ==> r == Drafts(stored.value, show)
  {
    match stored
    case None => Cleared(blankOnClear)
    case Some(cs) => if cs == [] then [Blank] else Drafts(cs, show)
  }

  /** In main.py, where clearing leaves no row, the code as written is the
      intended behaviour. */
  lemma LoadedRowsAgreeInMain(stored: Option<seq<Course>>, show: real -> string)
    ensures LoadedRowsAsWritten(false, stored, show) == LoadedRows(false, stored, show)
  {
    if stored.Some? {
      assert [] + LoadedRows(false, stored, show) == LoadedRows(false, stored, show);
    }
  }

  /** A stored row a save can have written (in term `t` of student `id`,
      stripped, non-blank, passing the checks) whose credits print as a
      text that parses back to the same number. */
  predicate Reloadable(c: Course, id: int, t: Term, checks: Checks,
                       parse: string -> Option<real>, show: real -> string)
  {
    && Matches(c, OfTerm(id, t))
    && c.courseName != "" && Trimmed(c.courseName) && Trimmed(c.grade)
    && show(c.credits) != "" && Trimmed(show(c.credits))
    && parse(show(c.credits)) == Some(c.credits)
    && (checks.Strict? ==> ValidGrade(c.grade) && c.credits > 0.0)
  }

  /** One reloaded row is filled, passes the checks and is stored as the
      row it came from. */
  lemma ReloadRow(prev: seq<Course>, c: Course, row: nat, id: int, t: Term, checks: Checks,
                  parse: string -> Option<real>, show: real -> string)
    requires Reloadable(c, id, t, checks, parse, show)
    ensures var d := Draft(c.courseName, c.grade, show(c.credits));
            && Filled(d) && Passes(d, checks, parse) && ToCourse(d, id, t, parse) == c
            && SaveStep(Rows(prev), d, row, id, t, checks, parse) == Rows(prev + [c])
  {
  }

  /** Loading a term and saving it straight back writes the same rows,
      provided every stored row is reloadable. */
  lemma {:induction false} ReloadThenSave(cs: seq<Course>, id: int, t: Term, checks: Checks,
                                          parse: string -> Option<real>, show: real -> string)
    requires forall i :: 0 <= i < |cs| ==> Reloadable(cs[i], id, t, checks, parse, show)
    ensures TermRowsOf(Drafts(cs, show), id, t, checks, parse) == Rows(cs)
  {
    if cs != [] {
      var n := |cs| - 1;
      var ds := Drafts(cs, show);
      assert ds[..n] == Drafts(cs[..n], show);
      ReloadThenSave(cs[..n], id, t, checks, parse, show);
      ReloadRow(cs[..n], cs[n], n, id, t, checks, parse, show);
      assert ds[n] == Draft(cs[n].courseName, cs[n].grade, show(cs[n].credits));
      FrontLast(cs);
    }
  }

  class EntryBuffer {
    var rows: seq<Draft>
    /** Whether `clear_entries` re-adds a blank row (V3.0, V2.2, V2.1). */
    const blankOnClear: bool

    constructor(blankOnClear: bool)
      ensures rows == [] && this.blankOnClear == blankOnClear
    {
      rows := [];
      this.blankOnClear := blankOnClear;
    }

    /** `add_course_row(cname, grade, credits)`. */
    method AddRow(d: Draft)
      modifies this
      ensures rows == old(rows) + [d]
    {
      rows := rows + [d];
    }

    /** `add_course_row()` with its defaults. */
    method AddBlankRow()
      modifies this
      ensures rows == old(rows) + [Blank]
      ensures rows[|rows| - 1] == Draft("", "A", "")
    {
      AddRow(Blank);
    }

    /** `reorder_entries`: read every row back, clear the grid, and add the
        rows again one by one; the grid ends as it was. */
    method Reorder()
      modifies this
      ensures rows == old(rows)
    {
      var data := rows;
      rows := [];
      for i := 0 to |data|
        invariant rows == data[..i]
      {
        assert data[..i + 1] == data[..i] + [data[i]];
        AddRow(data[i]);
      }
      assert data[..|data|] == data;
    }

    /** `delete_row(i)`: row `i` popped, the others rebuilt in order. */
    method DeleteRow(i: nat)
      requires i < |rows|
      modifies this
      ensures |rows| == |old(rows)| - 1
      ensures forall j :: 0 <= j < i ==> rows[j] == old(rows)[j]
      ensures forall j :: i <= j < |rows| ==> rows[j] == old(rows)[j + 1]
      ensures multiset(rows) + multiset{old(rows)[i]} == multiset(old(rows))
    {
      var before := rows;
      rows := rows[..i] + rows[i + 1..];
      assert before == before[..i] + [before[i]] + before[i + 1..];
      Reorder();
    }

    /** `clear_entries`. */
    method Clear()
      modifies this
      ensures rows == Cleared(blankOnClear)
      ensures blankOnClear ==> |rows| == 1 && rows[0] == Draft("", "A", "")
      ensures !blankOnClear ==> rows == []
    {
      rows := [];
      if blankOnClear {
        AddBlankRow();
      }
    }

    /** `clear_course_rows` once confirmed: main.py clears and adds a blank
        row, V3.0 relies on `clear_entries` for it; either way one blank
        row is left. */
    method ClearCourseRows(confirm: bool)
      modifies this
      ensures confirm ==> rows == [Blank]
      ensures !confirm ==> rows == old(rows)
    {
      if confirm {
        Clear();
        if !blankOnClear {
          AddBlankRow();
        }
      }
    }

    /** Fill the grid with the stored rows, one `add_course_row` each. */
    method Fill(stored: seq<Course>, show: real -> string)
      modifies this
      ensures rows == LoadedRows(blankOnClear, Some(stored), show)
    {
      rows := [];
      if stored == [] {
        AddBlankRow();
        return;
      }
      for j := 0 to |stored|
        invariant rows == Drafts(stored[..j], show)
      {
        var c := stored[j];
        AddRow(Draft(c.courseName, c.grade, show(c.credits)));
      }
      assert stored[..|stored|] == stored;
    }

    /** `load_courses` for the student selected in main.py, V3.0 or V2.2. */
    method LoadCourses(store: StudentStore.Store, current: Option<StudentKey>, t: Term, show: real -> string)
      returns (status: StudentStore.Status)
      modifies this
      ensures current.None? ==> status == StudentStore.NoSelection && rows == old(rows)
      ensures current.Some? ==> match FindStudent(store.students, current.value)
        case None => status == StudentStore.NotFound && rows == LoadedRows(blankOnClear, None, show)
        case Some(i) =>
          && status == StudentStore.Done
          && rows == LoadedRows(blankOnClear, Some(Where(store.courses, OfTerm(store.students[i].id, t))), show)
    {
      if current.None? {
        return StudentStore.NoSelection;
      }
      Clear();
      var found := FindStudent(store.students, current.value);
      if found.None? {
        return StudentStore.NotFound;
      }
      Fill(Where(store.courses, OfTerm(store.students[found.value].id, t)), show);
      status := StudentStore.Done;
    }

    /** `load_courses` of V2.1: the courses of the selected name through a
        subquery, so an unknown name simply has no rows. */
    method LoadCoursesByName(store: NameStore.Store, current: string, t: Term, show: real -> string)
      returns (status: StudentStore.Status)
      modifies this
      ensures current == "" ==> status == StudentStore.NoSelection && rows == old(rows)
      ensures current != "" ==> status == StudentStore.Done
      ensures current != "" ==> match NameStore.FindByName(store.students, current)
        case None => rows == [Blank]
        case Some(i) => rows == LoadedRows(blankOnClear, Some(Where(store.courses, OfTerm(store.students[i].id, t))), show)
    {
      if current == "" {
        return StudentStore.NoSelection;
      }
      Clear();
      var found := NameStore.FindByName(store.students, current);
      var stored := if found.None? then [] else Where(store.courses, OfTerm(store.students[found.value].id, t));
      Fill(stored, show);
      status := StudentStore.Done;
    }
  }
}
