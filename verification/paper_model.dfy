/** The stored exam paper: its schema defaults, the required fields, and the
    hook that recomputes the total points on every save. Object ids are
    natural numbers; the lecturer reference and the time stamps are not
    part of this model. */
module PaperModel {
  import opened Wrappers
  import opened Stats

  /** An answer option of a question. */
  datatype Choice = Choice(text: string, isCorrect: bool)

  /** A stored question. */
  datatype Question = Question(id: nat, question: string, options: seq<Choice>, points: int)

  /** A stored paper; `dueDate` is a time supplied by the caller. */
  datatype Paper = Paper(
    title: string,
    description: string,
    questions: seq<Question>,
    timeLimit: int,
    totalPoints: int,
    isActive: bool,
    dueDate: int,
    allowedAttempts: int)

  /** A question as handed to the schema: absent fields are `None`. */
  datatype QuestionInput = QuestionInput(id: nat, question: Option<string>, options: seq<Choice>, points: Option<int>)

  /** A paper as handed to the schema: absent fields are `None`. */
  datatype PaperInput = PaperInput(
    title: Option<string>,
    description: Option<string>,
    questions: seq<QuestionInput>,
    timeLimit: Option<int>,
    totalPoints: Option<int>,
    isActive: Option<bool>,
    dueDate: Option<int>,
    allowedAttempts: Option<int>)

  /** Schema defaults. */
  const DefaultPoints: int := 1
  const DefaultTimeLimit: int := 60
  const DefaultTotalPoints: int := 0
  const DefaultAllowedAttempts: int := 1

  /** The points of each question, in order. */
  function Points(qs: seq<Question>): (r: seq<int>)
    ensures |r| == |qs| && forall i :: 0 <= i < |qs| ==> r[i] == qs[i].points
  {
    seq(|qs|, i requires 0 <= i < |qs| => qs[i].points)
  }

  /** A required string is present only when it is a non-empty string. */
  predicate Supplied(s: string) { |s| > 0 }

  /** The fields the schema requires are filled. */
  predicate Valid(p: Paper) {
    Supplied(p.title) && forall i :: 0 <= i < |p.questions| ==> Supplied(p.questions[i].question)
  }

  /** A question with the schema defaults filled in; a missing text is
      stored empty and fails validation. */
  function NewQuestion(qi: QuestionInput): (q: Question)
    ensures q.id == qi.id && q.options == qi.options
    ensures qi.points.None? ==> q.points == DefaultPoints
    ensures Supplied(q.question) <==> qi.question.Some? && Supplied(qi.question.value)
  {
    Question(qi.id, qi.question.GetOr(""), qi.options, qi.points.GetOr(DefaultPoints))
  }

  /** A paper document with the schema defaults filled in, before any save. */
  function NewPaper(input: PaperInput): (p: Paper)
    ensures |p.questions| == |input.questions|
    ensures forall i :: 0 <= i < |input.questions| ==> p.questions[i] == NewQuestion(input.questions[i])
    ensures input.description.None? ==> p.description == ""
    ensures input.timeLimit.None? ==> p.timeLimit == DefaultTimeLimit
    ensures input.totalPoints.None? ==> p.totalPoints == DefaultTotalPoints
    ensures input.isActive.None? ==> p.isActive
    ensures input.allowedAttempts.None? ==> p.allowedAttempts == DefaultAllowedAttempts
  {
    Paper(
      input.title.GetOr(""),
      input.description.GetOr(""),
      seq(|input.questions|, i requires 0 <= i < |input.questions| => NewQuestion(input.questions[i])),
      input.timeLimit.GetOr(DefaultTimeLimit),
      input.totalPoints.GetOr(DefaultTotalPoints),
      input.isActive.GetOr(true),
      input.dueDate.GetOr(0),
      input.allowedAttempts.GetOr(DefaultAllowedAttempts))
  }

  /** `save()`: validation, then the pre-save hook, which sets the total
      points to the sum of the question points and changes nothing else. */
  function Save(p: Paper): (r: Option<Paper>)
    ensures r.Some? <==> Valid(p)
    ensures r.Some? ==> r.value.totalPoints == Sum(Points(p.questions))
    ensures r.Some? ==> r.value.(totalPoints := p.totalPoints) == p
  {
    if Valid(p) then Some(p.(totalPoints := Sum(Points(p.questions)))) else None
  }

  /** `new Paper(input).save()`: the due date must be given as well. */
  function Create(input: PaperInput): (r: Option<Paper>)
    ensures r.Some? <==>
              && input.title.Some? && Supplied(input.title.value)
              && input.dueDate.Some?
              && forall i :: 0 <= i < |input.questions| ==>
                   input.questions[i].question.Some? && Supplied(input.questions[i].question.value)
    ensures r.Some? ==> r.value.totalPoints == Sum(Points(r.value.questions))
    ensures r.Some? ==> r.value.dueDate == input.dueDate.value && r.value.title == input.title.value
  {
    var p := NewPaper(input);
    assert forall i :: 0 <= i < |input.questions| ==> p.questions[i] == NewQuestion(input.questions[i]);
    if input.dueDate.None? then None else Save(p)
  }

  /** Saving a saved paper again changes nothing. */
  lemma SaveIdempotent(p: Paper)
    requires Save(p).Some?
    ensures Save(Save(p).value) == Save(p)
  {
    assert Save(p).value.questions == p.questions;
  }

  /** A stored total given by the caller is overwritten. */
  lemma CreateIgnoresTotal(input: PaperInput, t: Option<int>)
    ensures Create(input.(totalPoints := t)) == Create(input)
  {
  }

  /** A paper whose questions all take the default point has one point per question. */
  lemma {:induction false} DefaultPointsTotal(input: PaperInput)
    requires forall i :: 0 <= i < |input.questions| ==> input.questions[i].points.None?
    requires Create(input).Some?
    ensures Create(input).value.totalPoints == |input.questions|
  {
    var qs := Create(input).value.questions;
    assert qs == NewPaper(input).questions;
    SumOfConstant(Points(qs), DefaultPoints);
  }
}
