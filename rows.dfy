/**
 * The two ways course rows reach the table: `save_courses` turns the entry
 * grid into the rows of one term, and `import_excel` turns spreadsheet rows
 * into rows of one student. main.py and V3.0 check grades and credits
 * strictly; V2.2 and V2.1 only need the credits to parse.
 */
module Rows {
  import opened Wrappers
  import opened Text
  import opened Grades
  import opened Records
  import opened Gpa

  /** One row of the entry grid: the texts of its name, grade and credits
      widgets. */
  datatype Draft = Draft(name: string, grade: string, credits: string)

  /** `add_course_row()` with its defaults: no name, grade A, no credits. */
  const Blank: Draft := Draft("", "A", "")

  /** The checks applied on save and on import. */
  datatype Checks =
    | Strict    // main.py, V3.0: grade on the scale, credits positive
    | ParseOnly // V2.2, V2.1: credits must parse, nothing else

  /** The grid row at which `save_courses` stopped, and why. */
  datatype RowFault = BadCredits(row: nat) | BadGrade(row: nat)

  datatype TermRows = Rows(courses: seq<Course>) | Rejected(fault: RowFault)

  /** `if cname and credits:` — only rows with a name and credits are saved. */
  predicate Filled(d: Draft) {
    Trim(d.name) != "" && Trim(d.credits) != ""
  }

  /** A filled row passes the checks of save. `validate_grade` reads the
      grade before it is stripped. */
  predicate Passes(d: Draft, checks: Checks, parse: string -> Option<real>) {
    match checks
    case Strict => ValidCredits(d.credits, parse) && ValidGrade(d.grade)
    case ParseOnly => parse(Trim(d.credits)).Some?
  }

  /** The credits of a draft as `float(credits)` reads them; only used once
      that parse has succeeded. */
  function CreditsOf(d: Draft, parse: string -> Option<real>): real {
    match parse(Trim(d.credits))
    case Some(v) => v
    case None => 0.0
  }

  /** The row a filled, passing draft is stored as: stripped name and grade,
      parsed credits, in the saved term. */
  function ToCourse(d: Draft, id: int, t: Term, parse: string -> Option<real>): (c: Course)
    ensures Matches(c, OfTerm(id, t))
    ensures c.courseName == Trim(d.name) && c.grade == Trim(d.grade)
    ensures parse(Trim(d.credits)) == Some(c.credits) || parse(Trim(d.credits)).None?
  {
    Course(id, t.year, t.semester, Trim(d.name), Trim(d.grade), CreditsOf(d, parse))
  }

  /** Why a filled row that does not pass is refused: credits are checked
      before the grade. */
  function FaultOf(d: Draft, row: nat, checks: Checks, parse: string -> Option<real>): RowFault {
    if checks.Strict? && ValidCredits(d.credits, parse) then BadGrade(row) else BadCredits(row)
  }

  /** One turn of the save loop, at grid row `row`. */
  function SaveStep(prev: TermRows, d: Draft, row: nat, id: int, t: Term, checks: Checks,
                    parse: string -> Option<real>): TermRows
  {
    match prev
    case Rejected(_) => prev
    case Rows(rs) =>
      if !Filled(d) then prev
      else if !Passes(d, checks, parse) then Rejected(FaultOf(d, row, checks, parse))
      else Rows(rs + [ToCourse(d, id, t, parse)])
  }

  /** The outcome of the save loop over the grid, row by row: it stops at the
      first filled row that fails (no commit), else yields the rows to insert. */
  function TermRowsOf(entries: seq<Draft>, id: int, t: Term, checks: Checks,
                      parse: string -> Option<real>): TermRows
  {
    if entries == [] then Rows([])
    else
      var n := |entries| - 1;
      SaveStep(TermRowsOf(entries[..n], id, t, checks, parse), entries[n], n, id, t, checks, parse)
  }

  /** Once the loop has stopped it stays stopped. */
  lemma {:induction false} RejectedStays(entries: seq<Draft>, k: nat, id: int, t: Term,
                                         checks: Checks, parse: string -> Option<real>)
    requires k <= |entries| && TermRowsOf(entries[..k], id, t, checks, parse).Rejected?
    ensures TermRowsOf(entries, id, t, checks, parse) == TermRowsOf(entries[..k], id, t, checks, parse)
    decreases |entries| - k
  {
    if k < |entries| {
      assert entries[..k + 1][..k] == entries[..k];
      RejectedStays(entries, k + 1, id, t, checks, parse);
    } else {
      assert entries[..k] == entries;
    }
  }

  /** The insert loop of `save_courses`: `validate_credits`, then
      `validate_grade`, then `float(credits)`. On a failing row it returns
      at once, before the commit. */
  method BuildTermRows(entries: seq<Draft>, id: int, t: Term, checks: Checks,
                       parse: string -> Option<real>) returns (r: TermRows)
    ensures r == TermRowsOf(entries, id, t, checks, parse)
  {
    var rs: seq<Course> := [];
    for i := 0 to |entries|
      invariant TermRowsOf(entries[..i], id, t, checks, parse) == Rows(rs)
    {
      assert entries[..i + 1][..i] == entries[..i];
      var d := entries[i];
      ghost var step := SaveStep(Rows(rs), d, i, id, t, checks, parse);
      assert TermRowsOf(entries[..i + 1], id, t, checks, parse) == step;
      var name, grade, credits := Trim(d.name), Trim(d.grade), Trim(d.credits);
      if name != "" && credits != "" {
        if checks == Strict && !ValidCredits(d.credits, parse) {
          r := Rejected(BadCredits(i));
          assert step == r;
          RejectedStays(entries, i + 1, id, t, checks, parse);
          return;
        }
        if checks == Strict && !ValidGrade(d.grade) {
          r := Rejected(BadGrade(i));
          assert step == r;
          RejectedStays(entries, i + 1, id, t, checks, parse);
          return;
        }
        match parse(credits)
        case None =>
          r := Rejected(BadCredits(i));
          assert step == r;
          RejectedStays(entries, i + 1, id, t, checks, parse);
          return;
        case Some(value) =>
          assert step == Rows(rs + [Course(id, t.year, t.semester, name, grade, value)]);
          rs := rs + [Course(id, t.year, t.semester, name, grade, value)];
      } else {
        assert step == Rows(rs);
      }
    }
    assert entries[..|entries|] == entries;
    r := Rows(rs);
  }

  /** The filled rows of the grid as courses: an independent, front-to-back
      statement of what a successful save inserts. */
  function FilledCourses(entries: seq<Draft>, id: int, t: Term, parse: string -> Option<real>): seq<Course> {
    if entries == [] then []
    else
      (if Filled(entries[0]) then [ToCourse(entries[0], id, t, parse)] else [])
      + FilledCourses(entries[1..], id, t, parse)
  }

  lemma {:induction false} FilledCoursesSnoc(entries: seq<Draft>, d: Draft, id: int, t: Term,
                                             parse: string -> Option<real>)
    ensures FilledCourses(entries + [d], id, t, parse)
            == FilledCourses(entries, id, t, parse) + (if Filled(d) then [ToCourse(d, id, t, parse)] else [])
  {
    var all := entries + [d];
    var last := if Filled(d) then [ToCourse(d, id, t, parse)] else [];
    if entries == [] {
      assert all[1..] == [];
    } else {
      var head := if Filled(entries[0]) then [ToCourse(entries[0], id, t, parse)] else [];
      TailAppend(entries, [d]);
      assert FilledCourses(all, id, t, parse) == head + FilledCourses(entries[1..] + [d], id, t, parse);
      FilledCoursesSnoc(entries[1..], d, id, t, parse);
      AppendAssoc(head, FilledCourses(entries[1..], id, t, parse), last);
    }
  }

  /** Every filled row of the grid passes the checks. */
  predicate AllPass(entries: seq<Draft>, checks: Checks, parse: string -> Option<real>) {
    forall i :: 0 <= i < |entries| && Filled(entries[i]) ==> Passes(entries[i], checks, parse)
  }

  lemma AllPassSnoc(entries: seq<Draft>, checks: Checks, parse: string -> Option<real>)
    requires entries != []
    ensures var n := |entries| - 1;
            AllPass(entries, checks, parse) <==>
            AllPass(entries[..n], checks, parse) && (Filled(entries[n]) ==> Passes(entries[n], checks, parse))
  {
    var n := |entries| - 1;
    assert forall i :: 0 <= i < n ==> entries[..n][i] == entries[i];
  }

  /** A save succeeds exactly when every filled row of the grid passes. */
  lemma {:induction false} SaveSucceedsIff(entries: seq<Draft>, id: int, t: Term, checks: Checks,
                                           parse: string -> Option<real>)
    ensures TermRowsOf(entries, id, t, checks, parse).Rows? <==> AllPass(entries, checks, parse)
  {
    if entries != [] {
      var n := |entries| - 1;
      SaveSucceedsIff(entries[..n], id, t, checks, parse);
      AllPassSnoc(entries, checks, parse);
    }
  }

  /** A save that succeeds inserts the filled rows, in grid order, each
      as its stripped name, stripped grade and parsed credits. */
  lemma {:induction false} SaveInsertsFilled(entries: seq<Draft>, id: int, t: Term, checks: Checks,
                                             parse: string -> Option<real>)
    requires TermRowsOf(entries, id, t, checks, parse).Rows?
    ensures TermRowsOf(entries, id, t, checks, parse).courses == FilledCourses(entries, id, t, parse)
  {
    if entries != [] {
      var n := |entries| - 1;
      var front := entries[..n];
      SaveInsertsFilled(front, id, t, checks, parse);
      FrontLast(entries);
      FilledCoursesSnoc(front, entries[n], id, t, parse);
    }
  }

  /** A save that fails names a filled row that fails its checks, every
      filled row before it passing. */
  lemma {:induction false} SaveFaultIsFirst(entries: seq<Draft>, id: int, t: Term, checks: Checks,
                                            parse: string -> Option<real>)
    requires TermRowsOf(entries, id, t, checks, parse).Rejected?
    ensures var k := TermRowsOf(entries, id, t, checks, parse).fault.row;
            && k < |entries| && Filled(entries[k]) && !Passes(entries[k], checks, parse)
            && (forall i :: 0 <= i < k && Filled(entries[i]) ==> Passes(entries[i], checks, parse))
  {
    var n := |entries| - 1;
    var front := entries[..n];
    assert forall i :: 0 <= i < n ==> entries[i] == front[i];
    if TermRowsOf(front, id, t, checks, parse).Rejected? {
      SaveFaultIsFirst(front, id, t, checks, parse);
    } else {
      SaveSucceedsIff(front, id, t, checks, parse);
    }
  }

  /** Every row a save inserts belongs to the saved student and term. */
  lemma InsertedInTerm(entries: seq<Draft>, id: int, t: Term, checks: Checks,
                       parse: string -> Option<real>)
    requires TermRowsOf(entries, id, t, checks, parse).Rows?
    ensures forall c :: c in TermRowsOf(entries, id, t, checks, parse).courses ==> Matches(c, OfTerm(id, t))
  {
    SaveInsertsFilled(entries, id, t, checks, parse);
    FilledInTerm(entries, id, t, parse);
  }

  lemma {:induction false} FilledInTerm(entries: seq<Draft>, id: int, t: Term, parse: string -> Option<real>)
    ensures forall c :: c in FilledCourses(entries, id, t, parse) ==> Matches(c, OfTerm(id, t))
  {
    if entries != [] {
      FilledInTerm(entries[1..], id, t, parse);
    }
  }

  /** A checked save only writes rows with a grade of the scale and positive
      credits: the grade is validated before it is stripped, and a letter
      of the scale is already stripped. */
  lemma {:induction false} SaveOnScale(entries: seq<Draft>, id: int, t: Term, parse: string -> Option<real>)
    requires TermRowsOf(entries, id, t, Strict, parse).Rows?
    ensures OnScale(TermRowsOf(entries, id, t, Strict, parse).courses)
  {
    if entries != [] {
      var n := |entries| - 1;
      var d := entries[n];
      SaveOnScale(entries[..n], id, t, parse);
      if Filled(d) {
        ValidGradeTrimmed(d.grade);
      }
    }
  }

  /** One spreadsheet row, as pandas hands it over: `credits` is the result
      of `float(row['credits'])`, `None` when that raised. */
  datatype ImportRow = ImportRow(year: string, semester: string, courseName: string,
                                 grade: string, credits: Option<real>)

  /** A row import skipped, numbered as in the spreadsheet (`idx + 2`: the
      header is row 1, the first data row is row 2). */
  datatype RowError = RowError(rowNumber: int, row: ImportRow)

  /** `{"year", "semester", "course_name", "grade", "credits"}`. */
  const RequiredColumns: set<string> := {"year", "semester", "course_name", "grade", "credits"}

  /** The rows import inserts; the others are reported. */
  predicate Importable(row: ImportRow, checks: Checks) {
    match checks
    case Strict => row.credits.Some? && row.grade in GradePoints && row.credits.value > 0.0
    case ParseOnly => row.credits.Some?
  }

  function ImportedCourse(row: ImportRow, id: int): (c: Course)
    requires row.credits.Some?
    ensures Matches(c, OfStudent(id))
  {
    Course(id, row.year, row.semester, row.courseName, row.grade, row.credits.value)
  }

  /** The rows import appends, in file order. */
  function ImportedOf(rows: seq<ImportRow>, id: int, checks: Checks): seq<Course> {
    if rows == [] then []
    else
      var n := |rows| - 1;
      ImportedOf(rows[..n], id, checks)
      + (if Importable(rows[n], checks) then [ImportedCourse(rows[n], id)] else [])
  }

  /** The rows import reports, in file order. */
  function ErrorsOf(rows: seq<ImportRow>, checks: Checks): seq<RowError> {
    if rows == [] then []
    else
      var n := |rows| - 1;
      ErrorsOf(rows[..n], checks)
      + (if Importable(rows[n], checks) then [] else [RowError(n + 2, rows[n])])
  }

  /** The row loop of `import_excel`: each row on its own, valid rows
      inserted, the others collected as errors. */
  method ImportRows(rows: seq<ImportRow>, id: int, checks: Checks)
    returns (added: seq<Course>, errors: seq<RowError>)
    ensures added == ImportedOf(rows, id, checks)
    ensures errors == ErrorsOf(rows, checks)
  {
    added, errors := [], [];
    for idx := 0 to |rows|
      invariant added == ImportedOf(rows[..idx], id, checks)
      invariant errors == ErrorsOf(rows[..idx], checks)
    {
      assert rows[..idx + 1][..idx] == rows[..idx];
      var row := rows[idx];
      var ok := match checks
        case Strict => row.credits.Some? && row.grade in GradePoints && row.credits.value > 0.0
        case ParseOnly => row.credits.Some?;
      if ok {
        added := added + [Course(id, row.year, row.semester, row.courseName, row.grade, row.credits.value)];
      } else {
        errors := errors + [RowError(idx + 2, row)];
      }
    }
    assert rows[..|rows|] == rows;
  }

  /** The positions of the rows import inserts (`keep`) or reports
      (`!keep`), in file order. */
  function Picked(rows: seq<ImportRow>, checks: Checks, keep: bool): seq<nat> {
    if rows == [] then []
    else
      var n := |rows| - 1;
      Picked(rows[..n], checks, keep) + (if Importable(rows[n], checks) == keep then [n] else [])
  }

  /** `Picked` lists each row of the kind asked for exactly once, in
      increasing order, and nothing else. */
  lemma {:induction false} PickedExactly(rows: seq<ImportRow>, checks: Checks, keep: bool)
    ensures var p := Picked(rows, checks, keep);
            && (forall k :: 0 <= k < |p| ==> p[k] < |rows| && Importable(rows[p[k]], checks) == keep)
            && (forall k, l :: 0 <= k < l < |p| ==> p[k] < p[l])
            && (forall i :: 0 <= i < |rows| && Importable(rows[i], checks) == keep ==> i in p)
  {
    if rows != [] {
      var n := |rows| - 1;
      var front := rows[..n];
      PickedExactly(front, checks, keep);
      assert forall i :: 0 <= i < n ==> front[i] == rows[i];
    }
  }

  /** Import inserts the importable rows and nothing else, in file order,
      each as often as it occurs: the k-th inserted course is the course of
      the k-th importable row. */
  lemma {:induction false} ImportedInFileOrder(rows: seq<ImportRow>, id: int, checks: Checks)
    ensures var p, added := Picked(rows, checks, true), ImportedOf(rows, id, checks);
            && |added| == |p|
            && forall k :: 0 <= k < |p| ==>
                 p[k] < |rows| && Importable(rows[p[k]], checks) && added[k] == ImportedCourse(rows[p[k]], id)
  {
    if rows != [] {
      var n := |rows| - 1;
      var front := rows[..n];
      ImportedInFileOrder(front, id, checks);
      var pf, af := Picked(front, checks, true), ImportedOf(front, id, checks);
      forall k | 0 <= k < |pf| ensures rows[pf[k]] == front[pf[k]] {
      }
    }
  }

  /** Import reports the rows that are not importable and nothing else, in
      file order, each under its spreadsheet number. */
  lemma {:induction false} ErrorsInFileOrder(rows: seq<ImportRow>, checks: Checks)
    ensures var p, errors := Picked(rows, checks, false), ErrorsOf(rows, checks);
            && |errors| == |p|
            && forall k :: 0 <= k < |p| ==>
                 p[k] < |rows| && !Importable(rows[p[k]], checks) && errors[k] == RowError(p[k] + 2, rows[p[k]])
  {
    if rows != [] {
      var n := |rows| - 1;
      var front := rows[..n];
      ErrorsInFileOrder(front, checks);
      var pf := Picked(front, checks, false);
      forall k | 0 <= k < |pf| ensures rows[pf[k]] == front[pf[k]] {
      }
    }
  }

  /** A checked import only inserts rows with a grade of the scale and
      positive credits. */
  lemma {:induction false} ImportOnScale(rows: seq<ImportRow>, id: int)
    ensures OnScale(ImportedOf(rows, id, Strict))
  {
    if rows != [] {
      ImportOnScale(rows[..|rows| - 1], id);
    }
  }

  /** Every row is either inserted or reported. */
  lemma {:induction false} ImportCounts(rows: seq<ImportRow>, id: int, checks: Checks)
    ensures |ImportedOf(rows, id, checks)| + |ErrorsOf(rows, checks)| == |rows|
  {
    if rows != [] {
      ImportCounts(rows[..|rows| - 1], id, checks);
    }
  }

  /** An importable row is inserted. */
  lemma {:induction false} ImportableInserted(rows: seq<ImportRow>, id: int, checks: Checks)
    ensures forall i :: 0 <= i < |rows| && Importable(rows[i], checks) ==>
              ImportedCourse(rows[i], id) in ImportedOf(rows, id, checks)
  {
    if rows != [] {
      var n := |rows| - 1;
      var front := rows[..n];
      ImportableInserted(front, id, checks);
      forall i | 0 <= i < |rows| && Importable(rows[i], checks)
        ensures ImportedCourse(rows[i], id) in ImportedOf(rows, id, checks)
      {
        if i < n {
          assert front[i] == rows[i];
        }
      }
    }
  }

  /** A row that is not importable is reported under its spreadsheet number
      with its content. */
  lemma {:induction false} RejectedReported(rows: seq<ImportRow>, checks: Checks)
    ensures forall i :: 0 <= i < |rows| && !Importable(rows[i], checks) ==>
              RowError(i + 2, rows[i]) in ErrorsOf(rows, checks)
  {
    if rows != [] {
      var n := |rows| - 1;
      var front := rows[..n];
      RejectedReported(front, checks);
      forall i | 0 <= i < |rows| && !Importable(rows[i], checks)
        ensures RowError(i + 2, rows[i]) in ErrorsOf(rows, checks)
      {
        if i < n {
          assert front[i] == rows[i];
        }
      }
    }
  }

  /** Every reported error names a row of the file that is not importable. */
  lemma {:induction false} ErrorsAreRejected(rows: seq<ImportRow>, checks: Checks)
    ensures forall e :: e in ErrorsOf(rows, checks) ==>
              2 <= e.rowNumber < |rows| + 2 && rows[e.rowNumber - 2] == e.row && !Importable(e.row, checks)
  {
    if rows != [] {
      var n := |rows| - 1;
      var front := rows[..n];
      ErrorsAreRejected(front, checks);
      forall e | e in ErrorsOf(rows, checks)
        ensures 2 <= e.rowNumber < |rows| + 2 && rows[e.rowNumber - 2] == e.row && !Importable(e.row, checks)
      {
        if e in ErrorsOf(front, checks) {
          assert front[e.rowNumber - 2] == rows[e.rowNumber - 2];
        }
      }
    }
  }

  /** Every inserted row belongs to the student. */
  lemma {:induction false} ImportedOwned(rows: seq<ImportRow>, id: int, checks: Checks)
    ensures forall c :: c in ImportedOf(rows, id, checks) ==> Matches(c, OfStudent(id))
  {
    if rows != [] {
      ImportedOwned(rows[..|rows| - 1], id, checks);
    }
  }

  /** Import handles each row on its own: every row is either inserted or
      reported; the inserted rows are exactly the importable rows, in file
      order and with their multiplicity; the reported rows are exactly the
      others, under their spreadsheet numbers with their content; and every
      inserted row belongs to the student. */
  lemma ImportMeaning(rows: seq<ImportRow>, id: int, checks: Checks)
    ensures var p := Picked(rows, checks, true);
            && (forall k, l :: 0 <= k < l < |p| ==> p[k] < p[l])
            && (forall i :: 0 <= i < |rows| && Importable(rows[i], checks) ==> i in p)
            && |ImportedOf(rows, id, checks)| == |p|
            && forall k :: 0 <= k < |p| ==>
                 p[k] < |rows| && Importable(rows[p[k]], checks)
                 && ImportedOf(rows, id, checks)[k] == ImportedCourse(rows[p[k]], id)
    ensures var p := Picked(rows, checks, false);
            && (forall k, l :: 0 <= k < l < |p| ==> p[k] < p[l])
            && (forall i :: 0 <= i < |rows| && !Importable(rows[i], checks) ==> i in p)
            && |ErrorsOf(rows, checks)| == |p|
            && forall k :: 0 <= k < |p| ==>
                 p[k] < |rows| && ErrorsOf(rows, checks)[k] == RowError(p[k] + 2, rows[p[k]])
    ensures |ImportedOf(rows, id, checks)| + |ErrorsOf(rows, checks)| == |rows|
    ensures forall i :: 0 <= i < |rows| && Importable(rows[i], checks) ==>
              ImportedCourse(rows[i], id) in ImportedOf(rows, id, checks)
    ensures forall i :: 0 <= i < |rows| && !Importable(rows[i], checks) ==>
              RowError(i + 2, rows[i]) in ErrorsOf(rows, checks)
    ensures forall e :: e in ErrorsOf(rows, checks) ==>
              2 <= e.rowNumber < |rows| + 2 && rows[e.rowNumber - 2] == e.row && !Importable(e.row, checks)
    ensures forall c :: c in ImportedOf(rows, id, checks) ==> Matches(c, OfStudent(id))
  {
    PickedExactly(rows, checks, true);
    PickedExactly(rows, checks, false);
    ImportedInFileOrder(rows, id, checks);
    ErrorsInFileOrder(rows, checks);
    ImportCounts(rows, id, checks);
    ImportableInserted(rows, id, checks);
    RejectedReported(rows, checks);
    ErrorsAreRejected(rows, checks);
    ImportedOwned(rows, id, checks);
  }

  /** Three rows whose second has grade "Z": the first and third are
      inserted and exactly one error is reported, for spreadsheet row 3. */
  lemma ImportExample(id: int, a: ImportRow, b: ImportRow, c: ImportRow)
    requires Importable(a, Strict) && Importable(c, Strict)
    requires b.grade == "Z"
    ensures ImportedOf([a, b, c], id, Strict) == [ImportedCourse(a, id), ImportedCourse(c, id)]
    ensures ErrorsOf([a, b, c], Strict) == [RowError(3, b)]
  {
    var rows := [a, b, c];
    assert rows[..2] == [a, b] && [a, b][..1] == [a] && [a][..0] == [];
    assert ImportedOf([a], id, Strict) == [ImportedCourse(a, id)];
    assert ErrorsOf([a], Strict) == [];
    assert ImportedOf([a, b], id, Strict) == [ImportedCourse(a, id)];
    assert ErrorsOf([a, b], Strict) == [RowError(3, b)];
  }
}
