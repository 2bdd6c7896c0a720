/** The stored submission of a paper: its schema defaults and the hook that
    recomputes the total score on every save. Object ids are natural
    numbers and `submittedAt` defaults to a time supplied by the caller;
    the student and paper references and the time stamps are not part of
    this model. */
module SubmissionModel {
  import opened Wrappers
  import opened Stats

  /** A graded answer. */
  datatype Answer = Answer(questionId: nat, selectedOption: int, isCorrect: bool, points: int)

  /** A stored submission. */
  datatype Submission = Submission(
    answers: seq<Answer>,
    totalScore: int,
    percentage: int,
    timeSpent: int,
    isCompleted: bool,
    submittedAt: int,
    attemptNumber: int)

  /** An answer as handed to the schema: an absent point count is `None`.
      The identifier, the selected option and the verdict are required and
      always present here. */
  datatype AnswerInput = AnswerInput(questionId: nat, selectedOption: int, isCorrect: bool, points: Option<int>)

  /** A submission as handed to the schema: absent fields are `None`. */
  datatype SubmissionInput = SubmissionInput(
    answers: seq<AnswerInput>,
    totalScore: Option<int>,
    percentage: Option<int>,
    timeSpent: Option<int>,
    isCompleted: Option<bool>,
    submittedAt: Option<int>,
    attemptNumber: Option<int>)

  /** Schema defaults. */
  const DefaultAnswerPoints: int := 0
  const DefaultTotalScore: int := 0
  const DefaultPercentage: int := 0
  const DefaultTimeSpent: int := 0
  const DefaultAttemptNumber: int := 1

  /** The points of each answer, in order. */
  function AnswerPoints(answers: seq<Answer>): (r: seq<int>)
    ensures |r| == |answers| && forall i :: 0 <= i < |answers| ==> r[i] == answers[i].points
  {
    seq(|answers|, i requires 0 <= i < |answers| => answers[i].points)
  }

  /** An answer with the schema default filled in. */
  function NewAnswer(a: AnswerInput): (r: Answer)
    ensures r.questionId == a.questionId && r.selectedOption == a.selectedOption && r.isCorrect == a.isCorrect
    ensures a.points.None? ==> r.points == DefaultAnswerPoints
  {
    Answer(a.questionId, a.selectedOption, a.isCorrect, a.points.GetOr(DefaultAnswerPoints))
  }

  /** A submission document with the schema defaults filled in, before any
      save; `now` is the default submission time. */
  function NewSubmission(input: SubmissionInput, now: int): (s: Submission)
    ensures |s.answers| == |input.answers|
    ensures forall i :: 0 <= i < |input.answers| ==> s.answers[i] == NewAnswer(input.answers[i])
    ensures input.totalScore.None? ==> s.totalScore == DefaultTotalScore
    ensures input.percentage.None? ==> s.percentage == DefaultPercentage
    ensures input.timeSpent.None? ==> s.timeSpent == DefaultTimeSpent
    ensures input.isCompleted.None? ==> !s.isCompleted
    ensures input.submittedAt.None? ==> s.submittedAt == now
    ensures input.attemptNumber.None? ==> s.attemptNumber == DefaultAttemptNumber
  {
    Submission(
      seq(|input.answers|, i requires 0 <= i < |input.answers| => NewAnswer(input.answers[i])),
      input.totalScore.GetOr(DefaultTotalScore),
      input.percentage.GetOr(DefaultPercentage),
      input.timeSpent.GetOr(DefaultTimeSpent),
      input.isCompleted.GetOr(false),
      input.submittedAt.GetOr(now),
      input.attemptNumber.GetOr(DefaultAttemptNumber))
  }

  /** `save()`: the pre-save hook sets the total score to the sum of the
      answer points and changes nothing else. */
  function Save(s: Submission): (r: Submission)
    ensures r.totalScore == Sum(AnswerPoints(s.answers))
    ensures r.(totalScore := s.totalScore) == s
  {
    s.(totalScore := Sum(AnswerPoints(s.answers)))
  }

  /** Saving a saved submission again changes nothing. */
  lemma SaveIdempotent(s: Submission)
    ensures Save(Save(s)) == Save(s)
  {
  }

  /** A submission without answers scores 0. */
  lemma EmptyScoresZero(s: Submission)
    requires |s.answers| == 0
    ensures Save(s).totalScore == 0
  {
  }

  /** Answers that take the default point count add nothing to the total. */
  lemma {:induction false} DefaultPointsScoreZero(input: SubmissionInput, now: int)
    requires forall i :: 0 <= i < |input.answers| ==> input.answers[i].points.None?
    ensures Save(NewSubmission(input, now)).totalScore == 0
  {
    var s := NewSubmission(input, now);
    SumOfConstant(AnswerPoints(s.answers), DefaultAnswerPoints);
  }
}
