# GPA manager: a Dafny model of its data core

The repository is one Tk desktop application for recording students'
courses and computing their grade point averages, kept in four versions:
`main.py` (the reference), `V3.0`, `V2.2` and `V2.1`. Behind the windows and
message boxes sits a small data core:

- a SQLite database with a `students` table (keyed by a unique index number,
  or by the name alone in V2.1) and a `courses` table;
- the 13-letter grade scale with its two field validators;
- the credit-weighted GPA;
- the `"idx - name"` text of the student selector with `parse_student`;
- the grid of course rows being edited (`self.entries`).

This project models that core and proves what it promises. The modules are:

- **Text**: `strip`, `lower`, substring tests, the selector format and its parser.
- **Grades**: `grade_points`, `validate_grade` and `validate_credits`.
- **Records**: rows, terms, and the selections the SQL queries make.
- **Gpa**: the accumulator loop of `calculate_gpa`.
- **Listing**: `ORDER BY name`, `filter_students` and `load_students`.
- **Rows**: the `save_courses` and `import_excel` row loops.
- **Summary**: `export_all_gpa_summary`.
- **StudentStore**: the index-keyed database of main.py, V3.0 and V2.2.
- **NameStore**: the name-keyed database of V2.1.
- **Entries**: the course grid.

A few inputs are parameters rather than models:

- Python's `float()` applied to a credits text is a parameter `parse: string -> Option<real>`. `None` means it raised.
- `str()` applied to a stored REAL is a parameter `show: real -> string`.
- The user's answers to dialogs and confirmations are method parameters.
- Every message box is a returned `Status`.

The state of the store is the committed state of the database. Versions
differ by a constant:

- `Checks.Strict` (main.py, V3.0) checks grades and positivity on save and import.
- `Checks.ParseOnly` (V2.2, V2.1) only needs the credits to parse.
- `EntryBuffer.blankOnClear` records that `clear_entries` leaves a blank row in V3.0, V2.2 and V2.1.

## Model

| member | source | states |
|---|---|---|
| Text.Trim | main.py:78-79 | `strip()` leaves no whitespace at either end, leaves a stripped string alone, and is empty exactly for an all-whitespace input |
| Text.TrimMiddle | main.py:78-79 | `strip()` returns the middle of the text: only a whitespace prefix and a whitespace suffix are removed |
| Text.Lower | main.py:437 | `lower()` leaves no capital letter, turns each capital into the same small letter, and keeps every other character |
| Text.LowerIdempotent | main.py:437 | lowering an already lowered text changes nothing |
| Text.FindFrom | main.py:462 | the search used by `split(" - ", 1)` returns the first occurrence at or after the start, or none when there is none |
| Text.FindFirst | main.py:462 | a position that is an occurrence with none before it is what the search returns |
| Text.ParseStudent | main.py:460-469 | `parse_student` fails exactly when the text has no `" - "`; otherwise both parts come out stripped |
| Text.ParseDisplay | main.py:446 | parsing `f"{idx} - {name}"` gives back `(name, idx)` for stripped fields when `idx` has no `" - "` and does not end in `" -"` |
| Text.DisplayAmbiguous | main.py:446 | an index ending in `" -"` does not survive the round trip: `"A -"`/`"Bob"` parses back as `"A"`/`"- Bob"` |
| Grades.Points | main.py:9-12 | `grade_points.get(g, 0)` lies in 0..4 and is 4 exactly for `A+` and `A` |
| Grades.ValidGradeCases | main.py:589-594 | `validate_grade` accepts exactly the 13 letters of the scale; anything it refuses counts 0 points |
| Grades.ValidGradeTrimmed | main.py:9-12 | a letter of the scale has no surrounding whitespace, so stripping a valid grade keeps it |
| Grades.CreditsCases | main.py:572-587 | `validate_credits` accepts blank text, rejects text that does not parse, and accepts a parsed value exactly when it is above 0 |
| Grades.CreditsExamples | main.py:572-587 | `"-1"` and `"abc"` are rejected and `"3.5"` accepted |
| Records.Where | main.py:683 | a `SELECT ... WHERE` returns no more rows than the table |
| Records.WhereMembers | main.py:683 | the selection holds exactly the rows of the table that match |
| Records.Except | main.py:489 | a `DELETE ... WHERE` leaves no more rows than before |
| Records.ExceptMembers | main.py:489 | the table after the delete holds exactly the rows that do not match |
| Records.WhereAppend | main.py:792 | selecting from appended rows is selecting from each part |
| Records.ExceptAppend | main.py:652 | deleting from appended rows is deleting from each part |
| Records.WhereAll | main.py:692-694 | selecting rows that all match returns them all, in order |
| Records.WhereNone | main.py:692-694 | selecting rows none of which match returns nothing |
| Records.WhereExceptDisjoint | main.py:489 | after a delete, every query disjoint from it sees exactly the rows it saw before |
| Records.WhereExceptSame | main.py:489 | after a delete, the deleted query selects nothing |
| Records.ExceptAll | main.py:652 | deleting rows that all match removes them all |
| Records.ExceptTwice | main.py:652 | deleting the same rows twice is deleting them once |
| Records.FindStudent | main.py:481-482 | `SELECT id ... WHERE name=? AND index_number=?` finds the first row with that key, or reports that none has it |
| Gpa.ComputeGpa | main.py:684-689 | the accumulator loop returns the total credits and `points / credits`, and 0 when the credits are 0 |
| Gpa.TotalsAppend | main.py:685-688 | points and credits add up over concatenated row lists |
| Gpa.AllTopGrades | main.py:689 | rows graded only `A`/`A+` with non-zero credits average exactly 4.0 |
| Gpa.TopGradesPoints | main.py:687 | with only `A`/`A+` rows the points are four times the credits |
| Gpa.GpaOnScale | main.py:689 | with non-negative credits the GPA lies between 0 and 4 |
| Gpa.OnScaleGpa | main.py:684-689 | rows with grades of the scale and positive credits average between 0 and 4 |
| Gpa.PointsBounded | main.py:687-688 | with non-negative credits the points lie between 0 and 4 × credits |
| Gpa.WeightedBounded | main.py:687 | one row's points lie between 0 and 4 × its credits |
| Gpa.UnknownGradeCountsZero | main.py:687 | a grade off the scale counts like `F` |
| Gpa.WorkedExample | main.py:696-700 | A with 3 credits and B with 4 credits give 7 credits and GPA 24/7 |
| Listing.NameLeTotal | main.py:444 | `ORDER BY name` compares any two names |
| Listing.NameLeTrans | main.py:444 | the name order is transitive |
| Listing.NameLeRefl | main.py:444 | the name order is reflexive |
| Listing.InsertBy | main.py:444 | inserting into a list adds exactly that element |
| Listing.SortBy | main.py:444 | sorting keeps the same elements with the same multiplicities |
| Listing.InsertSorted | main.py:444 | inserting into a sorted list keeps it sorted |
| Listing.SortSorted | main.py:444 | the sort's output is sorted |
| Listing.ByName | main.py:444 | the students ordered by name are a permutation of the table, sorted by name |
| Listing.Matching | main.py:440 | the comprehension keeps every selected student as often as it occurs, and nobody else |
| Listing.MatchingSorted | main.py:440 | filtering a name-ordered list keeps it in name order |
| Listing.DisplayAll | main.py:446 | one `"idx - name"` entry per student, in order, and `parse_student` of each entry gives back that student's key when the key is displayable |
| Listing.FilterStudents | main.py:436-441 | `filter_students` lists, in name order, exactly the students whose lowercased name or index contains the lowercased pattern |
| Listing.FirstIsLeast | main.py:448-451 | the first of the name-ordered rows is a row of the table with a least name |
| Listing.LoadStudents | main.py:443-458 | `load_students` shows all students in name order; it selects none exactly when the table is empty, and otherwise a student of least name |
| Listing.ListedEntriesParse | main.py:446 | every entry `load_students` lists parses back to its student's key when the key is displayable |
| Rows.ToCourse | main.py:655-661 | a saved row belongs to the student and term, with stripped name and grade |
| Rows.RejectedStays | main.py:657-660 | once the save loop has returned, later rows change nothing |
| Rows.BuildTermRows | main.py:655-666 | the insert loop of `save_courses` computes `TermRowsOf` |
| Rows.FilledCoursesSnoc | main.py:656 | the filled rows of a grid with one more row gain that row when it is filled |
| Rows.SaveSucceedsIff | V3.0/V3.0.py:529-543 | a save commits exactly when every filled grid row passes the checks |
| Rows.SaveInsertsFilled | main.py:652-668 | a successful save inserts the filled rows in grid order, stripped name and grade, parsed credits |
| Rows.SaveFaultIsFirst | V3.0/V3.0.py:529-543 | a failed save stops at a filled row that fails, all filled rows before it passing |
| Rows.InsertedInTerm | main.py:661-662 | every inserted row has the student's id and the selected year and semester |
| Rows.FilledInTerm | main.py:661-662 | the filled rows as courses all belong to the saved term |
| Rows.SaveOnScale | main.py:655-666 | a save with the checks of main.py and V3.0 only writes rows with a grade of the scale and positive credits |
| Rows.ImportedCourse | main.py:786-787 | an imported row is stored under the selected student |
| Rows.ImportRows | main.py:781-791 | the row loop of `import_excel` computes the inserted rows and the error list |
| Rows.PickedExactly | main.py:782-791 | the positions of the inserted (or reported) kind of row list each such row once, in increasing order, and no other row |
| Rows.ImportedInFileOrder | main.py:782-789 | the inserted rows are exactly the importable rows, in file order and with their multiplicity |
| Rows.ErrorsInFileOrder | main.py:782-791 | the reported rows are exactly the others, in file order, each as row `idx+2` with its content |
| Rows.ImportOnScale | main.py:784-789 | an import with the checks of main.py and V3.0 only inserts rows with a grade of the scale and positive credits |
| Rows.ImportCounts | main.py:782-791 | every row is either inserted or reported |
| Rows.ImportableInserted | main.py:784-789 | a row with a known grade and positive credits is inserted |
| Rows.RejectedReported | main.py:790-791 | any other row is reported as row `idx+2` with its content |
| Rows.ErrorsAreRejected | main.py:790-791 | every reported error names a row of the file, by its spreadsheet number, that could not be imported |
| Rows.ImportedOwned | main.py:788-789 | every inserted row carries the selected student's id |
| Rows.ImportMeaning | main.py:781-792 | the inserted rows are exactly the rows with a known grade and positive credits, in file order and with their multiplicity; the reported rows are exactly the others, in file order, as row `idx+2` with their content; every row is one or the other, and every inserted row belongs to the student |
| Rows.ImportExample | main.py:784-791 | of three rows with grade `Z` in the middle, the first and third are inserted and row 3 is reported |
| Summary.DistinctTerms | main.py:728 | `SELECT DISTINCT year, semester` lists every term of the rows, each once, and nothing else |
| Summary.BuildSummary | main.py:725-748 | the record loop of `export_all_gpa_summary` computes `SummaryOf` |
| Summary.RecordsForIndex | main.py:729-748 | a student's records are one per listed term, in order |
| Summary.TermHasCourses | main.py:728-731 | a listed term has at least one course of the student |
| Summary.SummaryRecord | V3.0/V3.0.py:602-627 | every record is some student's record for a term with courses, its GPA and credits taken over exactly that term's courses |
| Summary.SummaryComplete | V3.0/V3.0.py:602-627 | every term in which a student has a course gets its record |
| Summary.StudentRecordsEmpty | main.py:728-729 | a student has no records exactly when it has no courses |
| Summary.SummaryEmptyIff | main.py:747-749 | there are no records exactly when no listed student has a course |
| Summary.OwnerListed | main.py:724 | the owner of a course appears among the students ordered by name |
| Summary.NoDataIff | V3.0/V3.0.py:625-627 | with every course owned by a student, "No Data" happens exactly when there are no courses |
| Summary.AppendInOrder | main.py:724 | appending a student's records after those of earlier names keeps name order |
| Summary.SummaryInNameOrder | main.py:724 | students taken in name order give records in name order |
| StudentStore.DialogResult | main.py:77-84 | the dialog refuses exactly when a field is blank; otherwise it gives both fields stripped and non-empty |
| StudentStore.SaveReplacesTerm | main.py:652-662 | after a save the term holds exactly the saved rows, in order |
| StudentStore.SaveKeepsOthers | main.py:652-653 | a save leaves every other term and every other student unchanged |
| StudentStore.SaveTwice | main.py:652-668 | saving a term twice leaves only the second save's rows |
| StudentStore.ImportAppends | main.py:786-792 | import appends to the student's courses without deleting any, and leaves other students alone |
| StudentStore.Without | main.py:490 | `DELETE FROM students WHERE id=?` removes one row |
| StudentStore.WithoutRemovesOne | main.py:490 | with unique ids it removes exactly that student and keeps the constraints |
| StudentStore.AddKeepsTables | main.py:121-140 | inserting a clean key with a free index number under the next id keeps every table constraint |
| StudentStore.RenameKeepsTables | main.py:423-425 | renaming a row to a clean key whose index number no other row has keeps every table constraint |
| StudentStore.DeleteKeepsTables | main.py:489-491 | deleting a student with its courses keeps every table constraint |
| StudentStore.InsertKeepsTables | main.py:652-668 | keeping existing courses and adding rows of a stored student keeps every table constraint |
| StudentStore.OwnedAfterDelete | main.py:489-490 | deleting a student with its courses leaves every remaining course owned |
| StudentStore.ScaledSelection | main.py:683-694 | any selection from rows on the scale is on the scale and averages between 0 and 4 |
| StudentStore.Store.constructor | main.py:121-140 | a new database is empty and meets its constraints |
| StudentStore.Store.AddStudent | main.py:391-405 | refused input changes nothing; an index number already present is refused and changes nothing; otherwise the stripped key is appended under a fresh id. Index numbers stay unique |
| StudentStore.Store.UpdateStudent | main.py:407-434 | identical values return `Unchanged`; a clash with another student's index is refused; either way nothing changes. Otherwise the found row gets the new key under the same id |
| StudentStore.Store.DeleteStudent | main.py:471-497 | an unknown student gives `NotFound` and nothing changes; otherwise the student and all its courses are deleted |
| StudentStore.Store.SaveCourses | main.py:641-669 | with a found student the term is replaced by `TermRowsOf`'s rows; a rejected row commits nothing. With the checks of main.py and V3.0 every stored course keeps a grade of the scale and positive credits |
| StudentStore.Store.ImportCourses | main.py:759-798 | missing columns, no selection or an unknown student change nothing; otherwise the importable rows are appended and the others returned as errors. With the checks of main.py and V3.0 every stored course keeps a grade of the scale and positive credits |
| StudentStore.Store.CalculateGpa | main.py:671-701 | the cumulative and term averages over exactly the student's and the term's courses; in main.py and V3.0 both lie between 0 and 4 |
| StudentStore.Store.CumulativeGpa | V2.2/V2.2.py:452-470 | V2.2's cumulative average over exactly the student's courses |
| StudentStore.Store.ExportAllGpaSummary | main.py:723-749 | the records of all students in name order; "No Data" exactly when no course exists |
| NameStore.FindByName | V2.1/V2.1.py:266 | `SELECT id ... WHERE name=?` finds the row with that name, or reports that no row has it |
| NameStore.BlankNameAccepted | V2.1/V2.1.py:155-157 | as written, a reply of spaces passes `if name:` and stores the empty name |
| NameStore.AcceptedName | V2.1/V2.1.py:153-162 | only a non-blank reply is accepted, and it is stored stripped |
| NameStore.AcceptedNameDiffers | V2.1/V2.1.py:155-157 | the written and intended tests differ exactly on non-empty all-blank replies |
| NameStore.LoadNames | V2.1/V2.1.py:179-186 | the names in sorted order; the first (least) one is selected, or the old selection is kept when there are no students |
| NameStore.RemoveRow | V2.1/V2.1.py:171-172 | deleting one row keeps the others in order, their uniqueness, and the remaining courses' owners |
| NameStore.AddKeepsNamedTables | V2.1/V2.1.py:53-69 | inserting a new stripped, non-empty name under the next id keeps every table constraint |
| NameStore.DeleteKeepsNamedTables | V2.1/V2.1.py:171-173 | deleting a student with its courses keeps every table constraint |
| NameStore.InsertKeepsNamedTables | V2.1/V2.1.py:266-283 | keeping existing courses and adding rows of a stored student keeps every table constraint |
| NameStore.Store.constructor | V2.1/V2.1.py:53-69 | a new database is empty and meets its constraints |
| NameStore.Store.AddStudent | V2.1/V2.1.py:153-162 | a blank reply is refused; a name already present is refused; either way nothing changes. Otherwise the stripped name is appended under a fresh id. Names stay unique |
| NameStore.Store.DeleteStudent | V2.1/V2.1.py:164-177 | for a known name the student and its courses are deleted; an unknown name deletes nothing and still ends as a deletion |
| NameStore.Store.SaveCourses | V2.1/V2.1.py:262-284 | an unknown name gives `NotFound`; otherwise the term is replaced by the filled rows whose credits parse, and nothing is committed if one does not |
| NameStore.Store.ImportCourses | V2.1/V2.1.py:319-343 | the columns are checked before the store is touched; every row whose credits parse is appended |
| NameStore.Store.CumulativeGpa | V2.1/V2.1.py:286-302 | the cumulative average of the named student's courses, zero credits giving 0 |
| Entries.LoadedRowsAsWrittenExtraBlank | V3.0/V3.0.py:399 | as written, an empty term loads as two blank rows, and a term with courses gets a blank row ahead of them |
| Entries.LoadedRows | V3.0/V3.0.py:411-420 | the grid holds exactly the stored rows of the term, or one blank row when there are none |
| Entries.LoadedRowsAgreeInMain | main.py:515-536 | in main.py the code as written is the intended behaviour |
| Entries.ReloadRow | main.py:532-534 | a reloaded stored row is filled, passes the checks and saves as the row it came from |
| Entries.ReloadThenSave | main.py:532-534 | loading a term and saving it straight back writes the same rows, for rows a save can have written: in the term, with a non-empty stripped name and a stripped grade, printed credits that are stripped, non-empty and parse back to themselves, and (with the checks of main.py and V3.0) a grade of the scale and positive credits. An imported row such as a course named `" Math"` does not qualify: it comes back as `"Math"` |
| Entries.EntryBuffer.constructor | main.py:115 | the grid starts empty |
| Entries.EntryBuffer.AddRow | main.py:538-566 | `add_course_row` appends one row at the end |
| Entries.EntryBuffer.AddBlankRow | V3.0/V3.0.py:422 | the default row has no name, grade `A` and no credits |
| Entries.EntryBuffer.Reorder | V3.0/V3.0.py:487-499 | rebuilding the grid leaves it as it was |
| Entries.EntryBuffer.DeleteRow | V3.0/V3.0.py:481-485 | the grid loses row `i` and keeps the others in order |
| Entries.EntryBuffer.Clear | V3.0/V3.0.py:501-510 | clearing leaves exactly one blank row where the version re-adds one, nothing in main.py |
| Entries.EntryBuffer.ClearCourseRows | main.py:636-639 | a confirmed clear leaves exactly one blank row; a refused one changes nothing |
| Entries.EntryBuffer.Fill | V3.0/V3.0.py:416-420 | one draft per stored row, or one blank row for none |
| Entries.EntryBuffer.LoadCourses | main.py:511-536 | with no selection nothing changes; an unknown student leaves the cleared grid; otherwise the grid holds the term's rows or one blank row |
| Entries.EntryBuffer.LoadCoursesByName | V2.1/V2.1.py:192-206 | the named student's term rows, or one blank row when there are none or the name is unknown |

## Left out

- Tk widgets, styles, fonts, dialogs and message boxes: answers are parameters, messages are a `Status`.
- The sqlite3 connection and cursor, and the SQL text. Tables are sequences in row order; a commit is where the model's state changes.
- Pending changes after a failed save: `save_courses` deletes the term's rows and may insert some before it returns without committing. A later commit on the same connection would write them. The model keeps only committed state, so it does not capture this.
- FOREIGN KEY enforcement: SQLite does not enforce it by default. The model instead proves that every course belongs to a stored student.
- The tie order of `ORDER BY name` among equal names, and the order of `SELECT DISTINCT`. The model uses a stable sort and first-appearance order. Collation is taken as plain character order.
- Python's `float()` and `str(float)`, IEEE rounding, `round(gpa, 3)` and the `:.2f` label format. Credits and GPA are exact `real`s.
- Unicode case mapping: `lower` maps the letters `A`-`Z` only. `strip` removes every character that Python's `str.isspace()` accepts.
- pandas and Excel: reading, writing, `export_excel`, file dialogs. An import is a set of column names and already-read rows; an unreadable credits cell is `None`.
- Rows.ImportRows and Rows.Importable: a blank credits cell reaches `float()` as NaN, which parses, and `nan <= 0` is false. So main.py and V3.0 insert such a row when its grade is valid, and V2.2 and V2.1 always insert it; SQLite stores the NaN as NULL and a later `calculate_gpa` then fails on `None`. The model treats a blank or NaN cell as `None`, so it reports that row as an error instead.
- The text of the import error messages. V2.2 and V2.1 show one box per failed row without a row number; the model returns the same `RowError` list for every version.
- `select_student`, and the current student as window state. Operations take the selection as a parameter; `Listing.LoadStudents` and `NameStore.LoadNames` give the selection that `load_students` makes.
- StudentStore.Store.UpdateStudent: an UPDATE that matches no row reports `Done` and changes nothing. The source likewise shows "Updated" in this case.
- V2.2 and V2.1 have no update of a student, no `filter_students` and no summary export. The model has these only for main.py and V3.0.
- The `except ValueError` around `float(credits)` in the `save_courses` of main.py and V3.0 cannot be reached once `validate_credits` has passed. The model keeps it as a `BadCredits` fault.
- NameStore.Store.AddStudent, Entries.EntryBuffer.Fill, Entries.EntryBuffer.LoadCourses and Entries.EntryBuffer.LoadCoursesByName implement the corrected behaviour of the two rows under "Findings", not the code as written. `NameStore.BlankNameAccepted` and `Entries.LoadedRowsAsWritten` model the code as written.

## Findings

| source | as written | input that shows it | evidently intended | confidence | as-written member | corrected member |
|---|---|---|---|---|---|---|
| V3.0/V3.0.py:399 | `load_courses` calls `clear_entries`, which already adds a blank row, and then adds the stored rows or another blank row (also V2.2/V2.2.py:346, V2.1/V2.1.py:196) | a term with no courses loads as two blank rows; a term with one course loads as a blank row followed by that course | the stored rows, or one blank row, as main.py does | high, not executed | Entries.LoadedRowsAsWrittenExtraBlank | Entries.LoadedRows |
| V2.1/V2.1.py:155-157 | `if name:` tests the reply before `name.strip()` | the reply `"   "` inserts a student with the empty name, which the selector can never select or delete | strip, then require a non-empty name, as V2.2 onwards do | high, not executed | NameStore.BlankNameAccepted | NameStore.AcceptedName |
