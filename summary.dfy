/**
 * `export_all_gpa_summary`: one record per student and per distinct
 * (year, semester) of that student's courses, students taken in name
 * order, each record's GPA and credits computed over exactly that term's
 * courses.
 */
module Summary {
  import opened Records
  import opened Gpa
  import opened Listing

  /** A line of the summary sheet: Name, Index Number, Year, Semester, GPA,
      Credits. */
  datatype GpaRecord = GpaRecord(name: string, indexNumber: string, year: string,
                                 semester: string, gpa: real, credits: real)

  /** `SELECT DISTINCT year, semester`: every term of `cs` once, in order of
      first appearance. */
  function DistinctTerms(cs: seq<Course>): (r: seq<Term>)
    ensures |r| <= |cs|
    ensures forall i, j :: 0 <= i < j < |r| ==> r[i] != r[j]
    ensures forall k :: 0 <= k < |cs| ==> cs[k].TermOf() in r
    ensures forall t :: t in r ==> exists k :: 0 <= k < |cs| && cs[k].TermOf() == t
  {
    if cs == [] then []
    else
      var n := |cs| - 1;
      var p := DistinctTerms(cs[..n]);
      assert forall k :: 0 <= k < n ==> cs[k] == cs[..n][k];
      if cs[n].TermOf() in p then p else p + [cs[n].TermOf()]
  }

  /** The record of student `s` for term `t`, over that term's courses. */
  function TermRecord(s: Student, t: Term, cs: seq<Course>): GpaRecord {
    var rows := Where(cs, OfTerm(s.id, t));
    GpaRecord(s.name, s.indexNumber, t.year, t.semester, GpaOf(rows), TotalCredits(rows))
  }

  /** The records of `s` for the given terms, in their order. */
  function RecordsFor(s: Student, terms: seq<Term>, cs: seq<Course>): seq<GpaRecord> {
    if terms == [] then []
    else
      var n := |terms| - 1;
      RecordsFor(s, terms[..n], cs) + [TermRecord(s, terms[n], cs)]
  }

  function StudentRecords(s: Student, cs: seq<Course>): seq<GpaRecord> {
    RecordsFor(s, DistinctTerms(Where(cs, OfStudent(s.id))), cs)
  }

  /** The records of the students `ss`, in the order of `ss`. */
  function SummaryOf(ss: seq<Student>, cs: seq<Course>): seq<GpaRecord> {
    if ss == [] then []
    else
      var n := |ss| - 1;
      SummaryOf(ss[..n], cs) + StudentRecords(ss[n], cs)
  }

  /** The record loop: for each student, for each of its terms, the term's
      weighted average. */
  method BuildSummary(ss: seq<Student>, cs: seq<Course>) returns (records: seq<GpaRecord>)
    ensures records == SummaryOf(ss, cs)
  {
    records := [];
    for i := 0 to |ss|
      invariant records == SummaryOf(ss[..i], cs)
    {
      assert ss[..i + 1][..i] == ss[..i];
      var s := ss[i];
      var terms := DistinctTerms(Where(cs, OfStudent(s.id)));
      var mine: seq<GpaRecord> := [];
      for j := 0 to |terms|
        invariant mine == RecordsFor(s, terms[..j], cs)
      {
        assert terms[..j + 1][..j] == terms[..j];
        var avg := ComputeGpa(Where(cs, OfTerm(s.id, terms[j])));
        mine := mine + [GpaRecord(s.name, s.indexNumber, terms[j].year, terms[j].semester, avg.gpa, avg.credits)];
      }
      assert terms[..|terms|] == terms;
      records := records + mine;
    }
    assert ss[..|ss|] == ss;
  }

  lemma {:induction false} RecordsForIndex(s: Student, terms: seq<Term>, cs: seq<Course>)
    ensures |RecordsFor(s, terms, cs)| == |terms|
    ensures forall j :: 0 <= j < |terms| ==> RecordsFor(s, terms, cs)[j] == TermRecord(s, terms[j], cs)
  {
    if terms != [] {
      var n := |terms| - 1;
      RecordsForIndex(s, terms[..n], cs);
    }
  }

  /** A term listed for a student has at least one course of that student. */
  lemma TermHasCourses(s: Student, t: Term, cs: seq<Course>)
    requires t in DistinctTerms(Where(cs, OfStudent(s.id)))
    ensures Where(cs, OfTerm(s.id, t)) != []
  {
    var mine := Where(cs, OfStudent(s.id));
    WhereMembers(cs, OfStudent(s.id));
    WhereMembers(cs, OfTerm(s.id, t));
    var k :| 0 <= k < |mine| && mine[k].TermOf() == t;
    assert mine[k] in mine;
    assert mine[k] in Where(cs, OfTerm(s.id, t));
  }

  /** Every record is the record of one of the students for one of that
      student's terms (a term in which the student has courses), computed
      over exactly that term's courses. */
  lemma {:induction false} SummaryRecord(ss: seq<Student>, cs: seq<Course>, k: nat) returns (i: nat, t: Term)
    requires k < |SummaryOf(ss, cs)|
    ensures i < |ss| && t in DistinctTerms(Where(cs, OfStudent(ss[i].id)))
    ensures Where(cs, OfTerm(ss[i].id, t)) != []
    ensures SummaryOf(ss, cs)[k] == TermRecord(ss[i], t, cs)
  {
    var n := |ss| - 1;
    var front := SummaryOf(ss[..n], cs);
    var last := StudentRecords(ss[n], cs);
    if k < |front| {
      i, t := SummaryRecord(ss[..n], cs, k);
      assert ss[..n][i] == ss[i];
    } else {
      var terms := DistinctTerms(Where(cs, OfStudent(ss[n].id)));
      RecordsForIndex(ss[n], terms, cs);
      i, t := n, terms[k - |front|];
    }
    TermHasCourses(ss[i], t, cs);
  }

  /** Every term in which a listed student has a course has its record. */
  lemma {:induction false} SummaryComplete(ss: seq<Student>, cs: seq<Course>, i: nat, c: Course)
    requires i < |ss| && c in cs && c.studentId == ss[i].id
    ensures TermRecord(ss[i], c.TermOf(), cs) in SummaryOf(ss, cs)
  {
    var n := |ss| - 1;
    if i < n {
      assert ss[..n][i] == ss[i];
      SummaryComplete(ss[..n], cs, i, c);
    } else {
      var mine := Where(cs, OfStudent(ss[n].id));
      WhereMembers(cs, OfStudent(ss[n].id));
      var k :| 0 <= k < |mine| && mine[k] == c;
      var terms := DistinctTerms(mine);
      var j :| 0 <= j < |terms| && terms[j] == c.TermOf();
      RecordsForIndex(ss[n], terms, cs);
      assert StudentRecords(ss[n], cs)[j] == TermRecord(ss[i], c.TermOf(), cs);
    }
  }

  lemma StudentRecordsEmpty(s: Student, cs: seq<Course>)
    ensures StudentRecords(s, cs) == [] <==> Where(cs, OfStudent(s.id)) == []
  {
    var mine := Where(cs, OfStudent(s.id));
    RecordsForIndex(s, DistinctTerms(mine), cs);
    if mine != [] {
      assert mine[0].TermOf() in DistinctTerms(mine);
    }
  }

  /** None of the students has a course. */
  predicate NoCourses(ss: seq<Student>, cs: seq<Course>) {
    forall i :: 0 <= i < |ss| ==> Where(cs, OfStudent(ss[i].id)) == []
  }

  lemma NoCoursesSnoc(ss: seq<Student>, cs: seq<Course>)
    requires ss != []
    ensures var n := |ss| - 1;
            NoCourses(ss, cs) <==> NoCourses(ss[..n], cs) && Where(cs, OfStudent(ss[n].id)) == []
  {
    var n := |ss| - 1;
    assert forall i :: 0 <= i < n ==> ss[..n][i] == ss[i];
  }

  /** No student with courses means no records, and the other way round. */
  lemma {:induction false} SummaryEmptyIff(ss: seq<Student>, cs: seq<Course>)
    ensures SummaryOf(ss, cs) == [] <==> NoCourses(ss, cs)
  {
    if ss != [] {
      var n := |ss| - 1;
      var front, last := SummaryOf(ss[..n], cs), StudentRecords(ss[n], cs);
      SummaryEmptyIff(ss[..n], cs);
      StudentRecordsEmpty(ss[n], cs);
      NoCoursesSnoc(ss, cs);
      assert SummaryOf(ss, cs) == front + last;
      assert |front + last| == |front| + |last|;
    }
  }

  /** The owner of a course is among the students taken in name order. */
  lemma OwnerListed(ss: seq<Student>, c: Course) returns (j: nat)
    requires HasId(ss, c.studentId)
    ensures j < |ByName(ss)| && ByName(ss)[j].id == c.studentId
  {
    var sorted := ByName(ss);
    var k :| 0 <= k < |ss| && ss[k].id == c.studentId;
    assert ss[k] in multiset(sorted);
    j :| 0 <= j < |sorted| && sorted[j] == ss[k];
  }

  /** With every course owned by a listed student, the report is empty
      exactly when there are no courses at all ("No Data"). */
  lemma NoDataIff(ss: seq<Student>, cs: seq<Course>)
    requires CoursesOwned(ss, cs)
    ensures SummaryOf(ByName(ss), cs) == [] <==> cs == []
  {
    var sorted := ByName(ss);
    SummaryEmptyIff(sorted, cs);
    if cs != [] {
      assert cs[0] in cs;
      var j := OwnerListed(ss, cs[0]);
      WhereMembers(cs, OfStudent(sorted[j].id));
      assert cs[0] in Where(cs, OfStudent(sorted[j].id));
    }
  }

  /** Records come out in the order of their students' names. */
  predicate NamesInOrder(rs: seq<GpaRecord>) {
    forall i, j :: 0 <= i < j < |rs| ==> NameLe(rs[i].name, rs[j].name)
  }

  lemma AppendInOrder(front: seq<GpaRecord>, last: seq<GpaRecord>, name: string)
    requires NamesInOrder(front)
    requires forall a :: 0 <= a < |front| ==> NameLe(front[a].name, name)
    requires forall b :: 0 <= b < |last| ==> last[b].name == name
    ensures NamesInOrder(front + last)
  {
    NameLeRefl(name);
    var all := front + last;
    forall a, b | 0 <= a < b < |all| ensures NameLe(all[a].name, all[b].name) {
      if b < |front| {
        assert all[a] == front[a] && all[b] == front[b];
      } else if a < |front| {
        assert all[a] == front[a] && all[b] == last[b - |front|];
      } else {
        assert all[a] == last[a - |front|] && all[b] == last[b - |front|];
      }
    }
  }

  /** Taken in name order, the students give records in name order. */
  lemma {:induction false} SummaryInNameOrder(ss: seq<Student>, cs: seq<Course>)
    requires SortedBy(ss, NameOf)
    ensures NamesInOrder(SummaryOf(ss, cs))
  {
    if ss != [] {
      var n := |ss| - 1;
      var prefix := ss[..n];
      var front := SummaryOf(prefix, cs);
      var last := StudentRecords(ss[n], cs);
      assert SortedBy(prefix, NameOf) by {
        forall i, j | 0 <= i < j < |prefix| ensures NameLe(NameOf(prefix[i]), NameOf(prefix[j])) {
          assert prefix[i] == ss[i] && prefix[j] == ss[j];
        }
      }
      SummaryInNameOrder(prefix, cs);
      RecordsForIndex(ss[n], DistinctTerms(Where(cs, OfStudent(ss[n].id))), cs);
      forall a | 0 <= a < |front| ensures NameLe(front[a].name, ss[n].name) {
        var i, t := SummaryRecord(prefix, cs, a);
        assert prefix[i] == ss[i];
        assert NameLe(NameOf(ss[i]), NameOf(ss[n]));
      }
      AppendInOrder(front, last, ss[n].name);
    }
  }
}
