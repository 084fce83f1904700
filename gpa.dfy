/**
 * The GPA aggregator: Σ points(grade)·credits / Σ credits over a list of
 * course rows, 0 when the credits sum to 0. The same fold serves the
 * cumulative GPA, the term GPA and the per-term summary report.
 */
module Gpa {
  import opened Records
  import opened Grades

  /** `grade_points.get(grade, 0) * credits` for one row. */
  function Weighted(c: Course): real {
    Points(c.grade) * c.credits
  }

  /** Σ points(grade)·credits, accumulated left to right as the loops do. */
  function TotalPoints(cs: seq<Course>): real {
    if cs == [] then 0.0
    else TotalPoints(cs[..|cs| - 1]) + Weighted(cs[|cs| - 1])
  }

  /** Σ credits. */
  function TotalCredits(cs: seq<Course>): real {
    if cs == [] then 0.0
    else TotalCredits(cs[..|cs| - 1]) + cs[|cs| - 1].credits
  }

  /** `total_points / total_credits if total_credits else 0`. */
  function GpaOf(cs: seq<Course>): real {
    if TotalCredits(cs) != 0.0 then TotalPoints(cs) / TotalCredits(cs) else 0.0
  }

  /** A GPA together with the credit total it was computed over. */
  datatype Average = Average(gpa: real, credits: real)

  /** The accumulator loop of `calculate_gpa` and `export_all_gpa_summary`. */
  method ComputeGpa(cs: seq<Course>) returns (avg: Average)
    ensures avg.credits == TotalCredits(cs)
    ensures avg.gpa == GpaOf(cs)
    ensures avg.credits == 0.0 ==> avg.gpa == 0.0
  {
    var points, credits := 0.0, 0.0;
    for i := 0 to |cs|
      invariant points == TotalPoints(cs[..i])
      invariant credits == TotalCredits(cs[..i])
    {
      assert cs[..i + 1][..i] == cs[..i];
      points := points + Weighted(cs[i]);
      credits := credits + cs[i].credits;
    }
    assert cs[..|cs|] == cs;
    var gpa := if credits != 0.0 then points / credits else 0.0;
    avg := Average(gpa, credits);
  }

  /** Both totals add up over a split of the rows, so a student's cumulative
      totals are the sums of the totals of any partition into parts. */
  lemma {:induction false} TotalsAppend(a: seq<Course>, b: seq<Course>)
    ensures TotalPoints(a + b) == TotalPoints(a) + TotalPoints(b)
    ensures TotalCredits(a + b) == TotalCredits(a) + TotalCredits(b)
  {
    if b == [] {
      assert a + b == a;
    } else {
      var ab := a + b;
      assert ab[..|ab| - 1] == a + b[..|b| - 1];
      assert ab[|ab| - 1] == b[|b| - 1];
      TotalsAppend(a, b[..|b| - 1]);
    }
  }

  /** When every grade is worth 4.0 points (A+ or A), the GPA is exactly 4.0
      whatever the credits, provided they do not sum to 0. */
  lemma {:induction false} AllTopGrades(cs: seq<Course>)
    requires forall i :: 0 <= i < |cs| ==> cs[i].grade == "A" || cs[i].grade == "A+"
    requires TotalCredits(cs) != 0.0
    ensures GpaOf(cs) == 4.0
  {
    TopGradesPoints(cs);
    var c := TotalCredits(cs);
    assert (4.0 * c) / c == 4.0;
  }

  lemma {:induction false} TopGradesPoints(cs: seq<Course>)
    requires forall i :: 0 <= i < |cs| ==> cs[i].grade == "A" || cs[i].grade == "A+"
    ensures TotalPoints(cs) == 4.0 * TotalCredits(cs)
  {
    if cs != [] {
      TopGradesPoints(cs[..|cs| - 1]);
    }
  }

  /** With non-negative credits the GPA lies on the scale, between 0.0 and
      4.0. */
  lemma {:induction false} GpaOnScale(cs: seq<Course>)
    requires forall i :: 0 <= i < |cs| ==> cs[i].credits >= 0.0
    ensures 0.0 <= GpaOf(cs) <= 4.0
  {
    PointsBounded(cs);
    var p, c := TotalPoints(cs), TotalCredits(cs);
    if c != 0.0 {
      assert p / c <= 4.0 by {
        assert p / c * c == p;
      }
    }
  }

  /** Every row has a grade of the scale and positive credits: what the
      checked save and import paths of main.py and V3.0 store. */
  predicate OnScale(cs: seq<Course>) {
    forall c :: c in cs ==> ValidGrade(c.grade) && c.credits > 0.0
  }

  /** Rows that are on the scale average between 0.0 and 4.0. */
  lemma OnScaleGpa(cs: seq<Course>)
    requires OnScale(cs)
    ensures 0.0 <= GpaOf(cs) <= 4.0
  {
    assert forall i :: 0 <= i < |cs| ==> cs[i] in cs;
    GpaOnScale(cs);
  }

  lemma {:induction false} PointsBounded(cs: seq<Course>)
    requires forall i :: 0 <= i < |cs| ==> cs[i].credits >= 0.0
    ensures 0.0 <= TotalPoints(cs) <= 4.0 * TotalCredits(cs)
    ensures TotalCredits(cs) >= 0.0
  {
    if cs != [] {
      var last := cs[|cs| - 1];
      PointsBounded(cs[..|cs| - 1]);
      WeightedBounded(last);
    }
  }

  lemma WeightedBounded(c: Course)
    requires c.credits >= 0.0
    ensures 0.0 <= Weighted(c) <= 4.0 * c.credits
  {
    var p := Points(c.grade);
    assert p * c.credits <= 4.0 * c.credits by {
      assert (4.0 - p) * c.credits >= 0.0;
    }
  }

  /** A row whose grade is not on the scale adds its credits but no points:
      it weighs exactly like the same row graded F. */
  lemma UnknownGradeCountsZero(cs: seq<Course>, c: Course)
    requires c.grade !in GradePoints
    ensures GpaOf(cs + [c]) == GpaOf(cs + [c.(grade := "F")])
  {
    var a, b := cs + [c], cs + [c.(grade := "F")];
    assert a[..|a| - 1] == cs && b[..|b| - 1] == cs;
  }

  /** The worked example: A with 3 credits and B with 4 credits give
      (4.0·3 + 3.0·4) / 7 = 24/7 over 7 credits. */
  lemma WorkedExample(id: int, t: Term)
    ensures var cs := [Course(id, t.year, t.semester, "X", "A", 3.0),
                       Course(id, t.year, t.semester, "Y", "B", 4.0)];
            TotalCredits(cs) == 7.0 && GpaOf(cs) == 24.0 / 7.0
  {
    var cs := [Course(id, t.year, t.semester, "X", "A", 3.0),
               Course(id, t.year, t.semester, "Y", "B", 4.0)];
    var first := cs[..1];
    assert first[..0] == [] && first[0] == cs[0] && cs[..|cs| - 1] == first;
    assert Weighted(cs[0]) == 12.0 && Weighted(cs[1]) == 12.0;
    assert TotalPoints(first) == 12.0 && TotalCredits(first) == 3.0;
    assert TotalPoints(cs) == 24.0 && TotalCredits(cs) == 7.0;
  }
}
