/** Submitting a paper: the gates a submission passes (paper found and
    active, deadline not passed, attempts left), the grading of each
    selected option against the paper's question at the same position, and
    the stored submission with its attempt number and percentage. The
    paper lookup, the count of earlier attempts and the clock are supplied
    by the caller. */
module SubmissionsRoute {
  import opened Wrappers
  import opened Stats
  import Text
  import PaperModel
  import SubmissionModel

  /** The request body: one selected option index per answered question,
      and the time spent if the client sent one. */
  datatype Request = Request(selected: seq<int>, timeSpent: Option<int>)

  /** The handler's replies. */
  datatype Reply =
    | NotFound       // 404: missing or inactive paper
    | PastDue        // 400: the deadline has passed
    | MaxAttempts    // 400: no attempts left
    | ServerError    // 500: an answer without a question
    | Created(submission: SubmissionModel.Submission)  // 201

  /** The HTTP status of a reply. */
  function Status(r: Reply): int {
    match r
    case NotFound => 404
    case PastDue => 400
    case MaxAttempts => 400
    case ServerError => 500
    case Created(_) => 201
  }

  /** The message of a rejection. */
  function Message(r: Reply): string {
    match r
    case NotFound => "Paper not found or not active"
    case PastDue => "Paper submission deadline has passed"
    case MaxAttempts => "Maximum attempts reached"
    case ServerError => "Server error"
    case Created(_) => "Paper submitted successfully"
  }

  /** An option index picks a correct option of the question. */
  predicate PicksCorrect(q: PaperModel.Question, selected: int) {
    0 <= selected < |q.options| && q.options[selected].isCorrect
  }

  /** One answer graded against its question: an index outside the options
      is simply wrong. */
  function GradeAnswer(q: PaperModel.Question, selected: int): (a: SubmissionModel.AnswerInput)
    ensures a.questionId == q.id && a.selectedOption == selected
    ensures a.isCorrect <==> PicksCorrect(q, selected)
    ensures a.points.Some?
    ensures a.isCorrect ==> a.points.value == q.points
    ensures !a.isCorrect ==> a.points.value == 0
  {
    var isCorrect := if 0 <= selected < |q.options| then q.options[selected].isCorrect else false;
    SubmissionModel.AnswerInput(q.id, selected, isCorrect, Some(if isCorrect then q.points else 0))
  }

  /** The answers graded in order, each against the question at its
      position; an answer past the last question has no question, which
      makes the handler fail. */
  function GradeAnswers(qs: seq<PaperModel.Question>, selected: seq<int>): (r: Option<seq<SubmissionModel.AnswerInput>>)
    ensures r.Some? <==> |selected| <= |qs|
    ensures r.Some? ==> |r.value| == |selected|
    ensures r.Some? ==> forall i :: 0 <= i < |selected| ==> r.value[i] == GradeAnswer(qs[i], selected[i])
  {
    if |selected| <= |qs| then
      Some(seq(|selected|, i requires 0 <= i < |selected| => GradeAnswer(qs[i], selected[i])))
    else None
  }

  /** `Math.round(score / totalPoints * 100)` when the paper has points, else 0. */
  function Percentage(score: int, totalPoints: int): (r: int)
    ensures totalPoints <= 0 ==> r == 0
    ensures 0 <= score <= totalPoints ==> 0 <= r <= 100
    ensures 0 < score == totalPoints ==> r == 100
    ensures totalPoints > 0 && score == 0 ==> r == 0
    ensures totalPoints > 0 ==> (2 * r - 1) * totalPoints <= 200 * score < (2 * r + 1) * totalPoints
  {
    if totalPoints > 0 then
      var ratio := score as real / totalPoints as real;
      assert 0 <= score <= totalPoints ==> 0.0 <= ratio <= 1.0 by {
        if 0 <= score <= totalPoints {
          QuotientAtMost(score, totalPoints, 1);
        }
      }
      assert score == totalPoints ==> ratio == 1.0 by {
        QuotientOfSelf(totalPoints);
      }
      var r := Text.Round(ratio * 100.0);
      RoundedQuotient(score, totalPoints, 100, r);
      r
    else 0
  }

  /** The three gates, in order; `None` lets the submission through. */
  function Gate(paper: Option<PaperModel.Paper>, prior: nat, now: int): (r: Option<Reply>)
    ensures r.None? <==> paper.Some? && paper.value.isActive && now <= paper.value.dueDate && prior < paper.value.allowedAttempts
    ensures r == Some(NotFound) <==> paper.None? || !paper.value.isActive
    ensures r == Some(PastDue) <==> paper.Some? && paper.value.isActive && now > paper.value.dueDate
    ensures r == Some(MaxAttempts) <==>
              paper.Some? && paper.value.isActive && now <= paper.value.dueDate && prior >= paper.value.allowedAttempts
  {
    if paper.None? || !paper.value.isActive then Some(NotFound)
    else if now > paper.value.dueDate then Some(PastDue)
    else if prior >= paper.value.allowedAttempts then Some(MaxAttempts)
    else None
  }

  /** The submission document built from the graded answers, before any save. */
  function Draft(graded: seq<SubmissionModel.AnswerInput>, prior: nat, req: Request, now: int): (s: SubmissionModel.Submission)
    ensures |s.answers| == |graded|
    ensures s.attemptNumber == prior + 1 && s.isCompleted && s.totalScore == SubmissionModel.DefaultTotalScore
  {
    SubmissionModel.NewSubmission(
      SubmissionModel.SubmissionInput(graded, None, None, req.timeSpent, Some(true), None, Some(prior + 1)), now)
  }

  /** The handler as written: the percentage is computed from the draft's
      total score, which still holds its default because only `save()`
      sums the answer points. */
  function SubmitAsWritten(paper: Option<PaperModel.Paper>, prior: nat, now: int, req: Request): (r: Reply)
    ensures r.Created? ==> r.submission.percentage == 0
  {
    match Gate(paper, prior, now)
    case Some(rejection) => rejection
    case None =>
      match GradeAnswers(paper.value.questions, req.selected)
      case None => ServerError
      case Some(graded) =>
        var draft := Draft(graded, prior, req, now);
        Created(SubmissionModel.Save(draft.(percentage := Percentage(draft.totalScore, paper.value.totalPoints))))
  }

  /** The handler with the percentage taken from the summed score. */
  function Submit(paper: Option<PaperModel.Paper>, prior: nat, now: int, req: Request): (r: Reply)
    ensures r == NotFound <==> paper.None? || !paper.value.isActive
    ensures r == PastDue <==> paper.Some? && paper.value.isActive && now > paper.value.dueDate
    ensures r == MaxAttempts <==>
              paper.Some? && paper.value.isActive && now <= paper.value.dueDate && prior >= paper.value.allowedAttempts
    ensures r == ServerError <==> Gate(paper, prior, now).None? && |req.selected| > |paper.value.questions|
    ensures r.Created? <==> Gate(paper, prior, now).None? && |req.selected| <= |paper.value.questions|
    ensures r.Created? ==>
              && r.submission.attemptNumber == prior + 1 <= paper.value.allowedAttempts
              && r.submission.isCompleted
              && |r.submission.answers| == |req.selected|
              && r.submission.totalScore == Sum(SubmissionModel.AnswerPoints(r.submission.answers))
              && r.submission.percentage == Percentage(r.submission.totalScore, paper.value.totalPoints)
  {
    match Gate(paper, prior, now)
    case Some(rejection) => rejection
    case None =>
      match GradeAnswers(paper.value.questions, req.selected)
      case None => ServerError
      case Some(graded) =>
        var draft := Draft(graded, prior, req, now);
        var saved := SubmissionModel.Save(draft);
        Created(saved.(percentage := Percentage(saved.totalScore, paper.value.totalPoints)))
  }

  /** Each stored answer is the verdict on the option selected at its
      position, against the question at that position. */
  lemma SubmitAnswers(paper: Option<PaperModel.Paper>, prior: nat, now: int, req: Request, i: nat)
    requires Submit(paper, prior, now, req).Created?
    requires i < |req.selected|
    ensures var a := Submit(paper, prior, now, req).submission.answers[i];
            var q := paper.value.questions[i];
            && a.questionId == q.id && a.selectedOption == req.selected[i]
            && (a.isCorrect <==> PicksCorrect(q, req.selected[i]))
            && a.points == (if a.isCorrect then q.points else 0)
  {
    var graded := GradeAnswers(paper.value.questions, req.selected).value;
    assert Draft(graded, prior, req, now).answers[i] == SubmissionModel.NewAnswer(graded[i]);
  }

  /** On a saved paper with non-negative points the percentage is a percentage. */
  lemma SubmitPercentageInRange(paper: Option<PaperModel.Paper>, prior: nat, now: int, req: Request)
    requires Submit(paper, prior, now, req).Created?
    requires paper.value.totalPoints == Sum(PaperModel.Points(paper.value.questions))
    requires forall j :: 0 <= j < |paper.value.questions| ==> paper.value.questions[j].points >= 0
    ensures 0 <= Submit(paper, prior, now, req).submission.percentage <= 100
  {
    var s := Submit(paper, prior, now, req).submission;
    forall i | 0 <= i < |req.selected|
      ensures 0 <= SubmissionModel.AnswerPoints(s.answers)[i] <= PaperModel.Points(paper.value.questions)[i]
    {
      SubmitAnswers(paper, prior, now, req, i);
    }
    SumDominated(SubmissionModel.AnswerPoints(s.answers), PaperModel.Points(paper.value.questions));
  }

  /** Answering every question of a saved paper correctly scores 100 when
      the paper has points. */
  lemma SubmitAllCorrect(paper: Option<PaperModel.Paper>, prior: nat, now: int, req: Request)
    requires Submit(paper, prior, now, req).Created?
    requires paper.value.totalPoints == Sum(PaperModel.Points(paper.value.questions)) > 0
    requires |req.selected| == |paper.value.questions|
    requires forall j :: 0 <= j < |req.selected| ==> PicksCorrect(paper.value.questions[j], req.selected[j])
    ensures Submit(paper, prior, now, req).submission.percentage == 100
  {
    var s := Submit(paper, prior, now, req).submission;
    forall i | 0 <= i < |req.selected|
      ensures SubmissionModel.AnswerPoints(s.answers)[i] == PaperModel.Points(paper.value.questions)[i]
    {
      SubmitAnswers(paper, prior, now, req, i);
    }
    assert SubmissionModel.AnswerPoints(s.answers) == PaperModel.Points(paper.value.questions);
  }

  /** The handler as written agrees with the corrected one on every reply
      and every stored field except the percentage. */
  lemma AsWrittenDiffersOnlyInPercentage(paper: Option<PaperModel.Paper>, prior: nat, now: int, req: Request)
    ensures SubmitAsWritten(paper, prior, now, req).Created? <==> Submit(paper, prior, now, req).Created?
    ensures !Submit(paper, prior, now, req).Created? ==> SubmitAsWritten(paper, prior, now, req) == Submit(paper, prior, now, req)
    ensures Submit(paper, prior, now, req).Created? ==>
              SubmitAsWritten(paper, prior, now, req).submission
              == Submit(paper, prior, now, req).submission.(percentage := 0)
  {
  }

  /** A one-question paper worth one point, answered correctly: the
      handler as written stores 0 percent where 100 is due. */
  lemma PercentageCounterexample()
    ensures var q := PaperModel.Question(0, "2 + 2?", [PaperModel.Choice("4", true)], 1);
            var paper := PaperModel.Paper("Quiz", "", [q], 60, 1, true, 10, 1);
            var req := Request([0], None);
            && SubmitAsWritten(Some(paper), 0, 5, req).submission.percentage == 0
            && Submit(Some(paper), 0, 5, req).submission.percentage == 100
  {
    var q := PaperModel.Question(0, "2 + 2?", [PaperModel.Choice("4", true)], 1);
    var paper := PaperModel.Paper("Quiz", "", [q], 60, 1, true, 10, 1);
    var req := Request([0], None);
    assert PaperModel.Points(paper.questions) == [1];
    SubmitAllCorrect(Some(paper), 0, 5, req);
  }
}
