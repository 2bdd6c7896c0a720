/** The grading report: summary statistics over the graded questions, the
    colour band and the letter grade of a score. */
module GradingResults {
  import opened Stats

  /** The three colour bands a score is shown in. */
  datatype Color = Green | Yellow | Red

  /** Letter grades, best first. */
  datatype Letter = A | B | C | D | F

  /** Pass mark and mark for an excellent answer. */
  const PassMark: int := 60
  const ExcellentMark: int := 80

  /** `getGradeColor`: green from 80, yellow from 60, red below. The report
      applies it to the (fractional) average score. */
  function GradeColor(score: real): Color {
    if score >= 80.0 then Green else if score >= 60.0 then Yellow else Red
  }

  /** `getGradeLetter`: A from 90, B from 80, C from 70, D from 60, F below. */
  function GradeLetter(score: real): Letter {
    if score >= 90.0 then A
    else if score >= 80.0 then B
    else if score >= 70.0 then C
    else if score >= 60.0 then D
    else F
  }

  /** The position of a letter from the worst, F, to the best, A. */
  function Rank(l: Letter): nat {
    match l
    case F => 0
    case D => 1
    case C => 2
    case B => 3
    case A => 4
  }

  /** A higher score never earns a worse letter. */
  lemma LetterMonotone(s: real, t: real)
    requires s <= t
    ensures Rank(GradeLetter(s)) <= Rank(GradeLetter(t))
  {
  }

  /** The colour and the letter agree: green is A or B, yellow is C or D,
      red is F. */
  lemma ColorMatchesLetter(score: real)
    ensures GradeColor(score) == Green <==> GradeLetter(score) in {A, B}
    ensures GradeColor(score) == Yellow <==> GradeLetter(score) in {C, D}
    ensures GradeColor(score) == Red <==> GradeLetter(score) == F
  {
  }

  /** A passing score is one not graded F. */
  lemma PassIffNotF(score: real)
    ensures score >= PassMark as real <==> GradeLetter(score) != F
  {
  }

  /** The summary figures of the report. */
  datatype Summary = Summary(total: nat, average: real, passed: nat, excellent: nat)

  /** The report's summary of a non-empty list of scores. The average is
      taken without a guard, so the list must not be empty. */
  function Summarize(scores: seq<int>): (r: Summary)
    requires |scores| > 0
    ensures r.excellent <= r.passed <= r.total == |scores|
    ensures r.passed == |scores| <==> forall i :: 0 <= i < |scores| ==> scores[i] >= PassMark
    ensures r.excellent == 0 <==> forall i :: 0 <= i < |scores| ==> scores[i] < ExcellentMark
    ensures AllPercent(scores) ==> 0.0 <= r.average <= 100.0
    ensures r.average * |scores| as real == Sum(scores) as real
    ensures r.passed == CountAtLeast(scores, PassMark)
    ensures r.excellent == CountAtLeast(scores, ExcellentMark)
  {
    CountAntitone(scores, PassMark, ExcellentMark);
    CountAllIff(scores, PassMark);
    CountNoneIff(scores, ExcellentMark);
    MeanOfPercents(scores);
    Summary(|scores|, Mean(scores), CountAtLeast(scores, PassMark), CountAtLeast(scores, ExcellentMark))
  }

  /** Every score the same gives that score as the average. */
  lemma SummarizeUniform(scores: seq<int>, c: int)
    requires |scores| > 0 && forall i :: 0 <= i < |scores| ==> scores[i] == c
    ensures Summarize(scores).average == c as real
  {
    MeanOfConstant(scores, c);
  }

  /** The overall grade the report shows for the average: no F when every
      question passed, F when every question failed, green when every
      question was excellent. */
  lemma OverallGrade(scores: seq<int>)
    requires |scores| > 0
    ensures Summarize(scores).passed == |scores| ==> GradeLetter(Summarize(scores).average) != F
    ensures Summarize(scores).passed == 0 ==> GradeLetter(Summarize(scores).average) == F
    ensures (forall i :: 0 <= i < |scores| ==> scores[i] >= ExcellentMark) ==>
              GradeColor(Summarize(scores).average) == Green
  {
    MeanBounds(scores, PassMark);
    MeanBounds(scores, ExcellentMark);
    CountAllIff(scores, PassMark);
    CountNoneIff(scores, PassMark);
  }
}
