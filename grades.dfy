/**
 * The grade scale `grade_points` and the two field validators
 * `validate_grade` and `validate_credits`.
 */
module Grades {
  import opened Wrappers
  import opened Text

  /** The 13-letter scale, in grade points. */
  const GradePoints: map<string, real> := map[
    "A+" := 4.0, "A" := 4.0, "A-" := 3.7, "B+" := 3.3, "B" := 3.0, "B-" := 2.7,
    "C+" := 2.3, "C" := 2.0, "C-" := 1.7, "D+" := 1.3, "D" := 1.0, "D-" := 0.7, "F" := 0.0
  ]

  /** `grade_points.get(g, 0)`: the points of a letter, 0 for anything else. */
  function Points(g: string): (p: real)
    ensures 0.0 <= p <= 4.0
    ensures p == 4.0 <==> g == "A+" || g == "A"
  {
    if g in GradePoints then GradePoints[g] else 0.0
  }

  /** `validate_grade`: the grade is one of the scale's letters. */
  predicate ValidGrade(g: string) {
    g in GradePoints
  }

  /** `validate_grade` accepts exactly the thirteen letters of the scale;
      whatever it refuses would count as 0 points. */
  lemma ValidGradeCases(g: string)
    ensures ValidGrade(g) <==> g in ["A+", "A", "A-", "B+", "B", "B-", "C+", "C", "C-", "D+", "D", "D-", "F"]
    ensures !ValidGrade(g) ==> Points(g) == 0.0
  {
  }

  /** The letters of the scale have no surrounding whitespace, so a grade
      that passes `validate_grade` is stored as it was typed. */
  lemma ValidGradeTrimmed(g: string)
    requires ValidGrade(g)
    ensures Trimmed(g) && Trim(g) == g
  {
    ValidGradeCases(g);
  }

  /** `validate_credits`: after stripping, the empty text passes (save skips
      such rows), otherwise the text must parse as a number greater than 0.
      `parse` stands for Python's `float()`, `None` meaning it raised. */
  predicate ValidCredits(text: string, parse: string -> Option<real>) {
    var v := Trim(text);
    v == "" || (parse(v).Some? && parse(v).value > 0.0)
  }

  /** The validator's cases: the empty or blank text is accepted, text that
      does not parse is rejected, and a parsed value is accepted exactly
      when it is positive. */
  lemma CreditsCases(text: string, parse: string -> Option<real>)
    ensures (forall i :: 0 <= i < |text| ==> IsSpace(text[i])) ==> ValidCredits(text, parse)
    ensures Trimmed(text) && text != "" && parse(text).None? ==> !ValidCredits(text, parse)
    ensures Trimmed(text) && text != "" && parse(text).Some? ==>
              (ValidCredits(text, parse) <==> parse(text).value > 0.0)
  {
  }

  /** `validate_credits("-1")` and `validate_credits("abc")` fail and
      `validate_credits("3.5")` passes, for any `parse` that reads those
      texts as Python does. */
  lemma CreditsExamples(parse: string -> Option<real>)
    requires parse("-1") == Some(-1.0) && parse("abc") == None && parse("3.5") == Some(3.5)
    ensures !ValidCredits("-1", parse) && !ValidCredits("abc", parse) && ValidCredits("3.5", parse)
  {
    assert Trimmed("-1") && Trimmed("abc") && Trimmed("3.5");
  }
}
