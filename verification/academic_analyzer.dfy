/** `analyze_academics`: a weighted sum of the 10th-grade percentage, the
    12th-grade percentage and the CGPA (on a 10-point scale), computed over
    the reals; the rounding to two decimals is not modelled. */
module AcademicAnalyzer {

  const AcademicSummary := "Academic consistency evaluated"

  datatype AcademicReport = AcademicReport(score: real, summary: string)

  /** The entry ranges the input form enforces: percentages in [0, 100] and
      a CGPA in [0, 10]. The function itself checks nothing. */
  predicate InFormRange(tenth: real, twelfth: real, cgpa: real) {
    0.0 <= tenth <= 100.0 && 0.0 <= twelfth <= 100.0 && 0.0 <= cgpa <= 10.0
  }

  /** `tenth * 0.3 + twelfth * 0.3 + cgpa * 10 * 0.4`: each percentage weighs
      30% and the CGPA, scaled to a percentage, 40%. */
  function AcademicScore(tenth: real, twelfth: real, cgpa: real): (score: real)
    ensures InFormRange(tenth, twelfth, cgpa) ==> 0.0 <= score <= 100.0
    ensures tenth == twelfth == cgpa * 10.0 ==> score == tenth
  {
    tenth * 0.3 + twelfth * 0.3 + cgpa * 10.0 * 0.4
  }

  /** `analyze_academics(tenth, twelfth, cgpa)`. */
  function AnalyzeAcademics(tenth: real, twelfth: real, cgpa: real): (r: AcademicReport)
    ensures r.summary == AcademicSummary
    ensures InFormRange(tenth, twelfth, cgpa) ==> 0.0 <= r.score <= 100.0
  {
    AcademicReport(AcademicScore(tenth, twelfth, cgpa), AcademicSummary)
  }

  // ---------------------------------------------------------------------
  // Properties
  // ---------------------------------------------------------------------

  /** The lowest inputs score 0 and the highest score 100. */
  lemma AcademicExtremes()
    ensures AcademicScore(0.0, 0.0, 0.0) == 0.0
    ensures AcademicScore(100.0, 100.0, 10.0) == 100.0
  {
  }

  /** A worked case: 80%, 85% and a CGPA of 8.5 give 83.5. */
  lemma AcademicExample()
    ensures AcademicScore(80.0, 85.0, 8.5) == 83.5
  {
  }

  /** Raising any one input never lowers the score. */
  lemma AcademicMonotone(t1: real, w1: real, c1: real, t2: real, w2: real, c2: real)
    requires t1 <= t2 && w1 <= w2 && c1 <= c2
    ensures AcademicScore(t1, w1, c1) <= AcademicScore(t2, w2, c2)
  {
  }

  /** Nothing validates the inputs: a CGPA of 11 lifts the score above
      100. */
  lemma UnvalidatedCgpa()
    ensures AcademicScore(100.0, 100.0, 11.0) == 104.0
    ensures !InFormRange(100.0, 100.0, 11.0)
  {
  }
}
