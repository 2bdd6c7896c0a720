/** The paper editor: the list of questions being written, the edits made
    to it, and the check that runs before the paper is sent. The current
    time is supplied by the caller and the due date is a time, absent when
    the field is empty. */
module CreatePaper {
  import opened Wrappers
  import opened Text
  import PaperModel

  /** A question as the editor holds it. */
  datatype Question = Question(question: string, options: seq<PaperModel.Choice>, points: int)

  /** The paper's own fields, as far as the check reads them. */
  datatype Form = Form(title: string, dueDate: Option<int>)

  /** A value typed into a question field: text, or a number for the points. */
  datatype Value = Str(s: string) | Num(n: int)

  /** What the check finds wrong with a question, in the order it looks. */
  datatype Problem = NoText | NoCorrect | EmptyOption

  /** Nothing but white space, which is when `!s.trim()` holds (see `BlankIffTrimsEmpty`). */
  predicate IsBlank(s: string) { AllSpace(s) }

  /** A string is blank exactly when trimming leaves nothing. */
  lemma BlankIffTrimsEmpty(s: string)
    ensures IsBlank(s) <==> Trim(s) == ""
  {
    TrimEmptyIff(s);
  }

  /** A new question: empty text, four empty options none of them correct,
      one point. */
  const BlankQuestion: Question :=
    Question("", [PaperModel.Choice("", false), PaperModel.Choice("", false), PaperModel.Choice("", false), PaperModel.Choice("", false)], 1)

  /** The editor opens with one new question. */
  const InitialQuestions: seq<Question> := [BlankQuestion]

  // ---------------------------------------------------------------------------
  // Edits
  // ---------------------------------------------------------------------------

  /** `handleQuestionChange`: only the text and the points can be set; any
      other field name leaves the list as it was. */
  function HandleQuestionChange(qs: seq<Question>, i: nat, field: string, value: Value): (r: seq<Question>)
    requires i < |qs|
    requires field == "question" ==> value.Str?
    requires field == "points" ==> value.Num?
    ensures |r| == |qs|
    ensures forall j :: 0 <= j < |qs| && j != i ==> r[j] == qs[j]
    ensures r[i].options == qs[i].options
    ensures field == "question" ==> r[i].question == value.s && r[i].points == qs[i].points
    ensures field == "points" ==> r[i].points == value.n && r[i].question == qs[i].question
    ensures field != "question" && field != "points" ==> r == qs
  {
    if field == "question" then qs[i := qs[i].(question := value.s)]
    else if field == "points" then qs[i := qs[i].(points := value.n)]
    else qs
  }

  /** `setCorrectAnswer`: option `o` of question `q` becomes the only
      correct one; an index past the options leaves none correct. */
  function SetCorrectAnswer(qs: seq<Question>, q: nat, o: int): (r: seq<Question>)
    requires q < |qs|
    ensures |r| == |qs|
    ensures forall j :: 0 <= j < |qs| && j != q ==> r[j] == qs[j]
    ensures r[q].question == qs[q].question && r[q].points == qs[q].points
    ensures |r[q].options| == |qs[q].options|
    ensures forall k :: 0 <= k < |qs[q].options| ==>
              r[q].options[k].text == qs[q].options[k].text && (r[q].options[k].isCorrect <==> k == o)
  {
    var options := qs[q].options;
    qs[q := qs[q].(options := seq(|options|, k requires 0 <= k < |options| => PaperModel.Choice(options[k].text, k == o)))]
  }

  /** `addQuestion`: a new question at the end. */
  function AddQuestion(qs: seq<Question>): (r: seq<Question>)
    ensures |r| == |qs| + 1 && r[|qs|] == BlankQuestion
    ensures forall j :: 0 <= j < |qs| ==> r[j] == qs[j]
  {
    qs + [BlankQuestion]
  }

  /** `removeQuestion`: the question at `i` goes, unless it is the last one left. */
  function RemoveQuestion(qs: seq<Question>, i: int): (r: seq<Question>)
    ensures |qs| <= 1 ==> r == qs
    ensures |qs| > 1 && 0 <= i < |qs| ==>
              && |r| == |qs| - 1
              && (forall j :: 0 <= j < i ==> r[j] == qs[j])
              && (forall j :: i <= j < |r| ==> r[j] == qs[j + 1])
    ensures !(0 <= i < |qs|) ==> r == qs
    ensures |qs| >= 1 ==> |r| >= 1
  {
    if |qs| > 1 && 0 <= i < |qs| then qs[..i] + qs[i + 1..] else qs
  }

  /** Removing a question just added gives the list back. */
  lemma AddThenRemove(qs: seq<Question>)
    requires |qs| >= 1
    ensures RemoveQuestion(AddQuestion(qs), |qs|) == qs
  {
    assert AddQuestion(qs)[..|qs|] == qs;
  }

  // ---------------------------------------------------------------------------
  // validateForm
  // ---------------------------------------------------------------------------

  const TitleRequired := "Paper title is required"
  const DueDateRequired := "Due date is required"
  const DueDateInFuture := "Due date must be in the future"

  /** The message for a problem with the question at position `i`, counted from 1. */
  function ProblemMessage(i: nat, p: Problem): string {
    var n := NatToString(i + 1);
    match p
    case NoText => "Question " + n + " text is required"
    case NoCorrect => "Question " + n + " must have a correct answer selected"
    case EmptyOption => "Question " + n + " has empty options"
  }

  /** `options.some(o => o.isCorrect)`. */
  predicate HasCorrect(options: seq<PaperModel.Choice>) {
    exists k :: 0 <= k < |options| && options[k].isCorrect
  }

  /** `options.filter(o => !o.text.trim()).length`. */
  function BlankCount(options: seq<PaperModel.Choice>): (n: nat)
    ensures n <= |options|
    ensures n == 0 <==> forall k :: 0 <= k < |options| ==> !IsBlank(options[k].text)
  {
    if |options| == 0 then 0
    else
      assert forall k :: 1 <= k < |options| ==> options[k] == options[1..][k - 1];
      (if IsBlank(options[0].text) then 1 else 0) + BlankCount(options[1..])
  }

  /** A question the check accepts. */
  predicate QuestionOk(q: Question) {
    && !IsBlank(q.question)
    && (exists k :: 0 <= k < |q.options| && q.options[k].isCorrect)
    && (forall k :: 0 <= k < |q.options| ==> !IsBlank(q.options[k].text))
  }

  /** The first problem the check finds with a question. */
  function QuestionProblem(q: Question): (r: Option<Problem>)
    ensures r.None? <==> QuestionOk(q)
  {
    if IsBlank(q.question) then Some(NoText)
    else if !HasCorrect(q.options) then Some(NoCorrect)
    else if BlankCount(q.options) > 0 then Some(EmptyOption)
    else None
  }

  /** The title is filled and the due date given and still ahead. */
  predicate HeaderOk(form: Form, now: int) {
    !IsBlank(form.title) && form.dueDate.Some? && form.dueDate.value > now
  }

  /** The paper can be sent. */
  predicate FormValid(form: Form, qs: seq<Question>, now: int) {
    HeaderOk(form, now) && forall i :: 0 <= i < |qs| ==> QuestionOk(qs[i])
  }

  /** The question at `i` is the first one the check rejects. */
  predicate FirstBad(qs: seq<Question>, i: int) {
    0 <= i < |qs| && !QuestionOk(qs[i]) && forall j :: 0 <= j < i ==> QuestionOk(qs[j])
  }

  /** The loop of `validateForm`: the first question the check rejects and
      what it finds wrong with it, or `None` when every question passes. */
  method FirstProblem(qs: seq<Question>) returns (r: Option<(nat, Problem)>)
    ensures r.None? <==> forall i :: 0 <= i < |qs| ==> QuestionOk(qs[i])
    ensures r.Some? ==> FirstBad(qs, r.value.0) && QuestionProblem(qs[r.value.0]) == Some(r.value.1)
  {
    for i := 0 to |qs|
      invariant forall j :: 0 <= j < i ==> QuestionOk(qs[j])
    {
      var p := QuestionProblem(qs[i]);
      if p.Some? {
        return Some((i, p.value));
      }
    }
    return None;
  }

  /** `validateForm`: `None` when the paper can be sent, otherwise the
      message of the first failing check. */
  method ValidateForm(form: Form, qs: seq<Question>, now: int) returns (error: Option<string>)
    ensures error.None? <==> FormValid(form, qs, now)
    ensures IsBlank(form.title) ==> error == Some(TitleRequired)
    ensures !IsBlank(form.title) && form.dueDate.None? ==> error == Some(DueDateRequired)
    ensures !IsBlank(form.title) && form.dueDate.Some? && form.dueDate.value <= now ==> error == Some(DueDateInFuture)
    ensures HeaderOk(form, now) && error.Some? ==>
              exists i :: FirstBad(qs, i) && error == Some(ProblemMessage(i, QuestionProblem(qs[i]).value))
  {
    if IsBlank(form.title) {
      return Some(TitleRequired);
    }
    if form.dueDate.None? {
      return Some(DueDateRequired);
    }
    if form.dueDate.value <= now {
      return Some(DueDateInFuture);
    }
    var bad := FirstProblem(qs);
    if bad.Some? {
      error := Some(ProblemMessage(bad.value.0, bad.value.1));
      assert FirstBad(qs, bad.value.0);
    } else {
      error := None;
    }
  }

  /** A question just added is rejected for its missing text. */
  lemma BlankQuestionRejected()
    ensures QuestionProblem(BlankQuestion) == Some(NoText)
  {
    assert BlankQuestion.question == "";
  }

  /** Marking an existing option correct settles the correct-answer check
      for that question. */
  lemma SetCorrectSettles(qs: seq<Question>, q: nat, o: nat)
    requires q < |qs| && o < |qs[q].options|
    ensures HasCorrect(SetCorrectAnswer(qs, q, o)[q].options)
    ensures forall k :: 0 <= k < |qs[q].options| && SetCorrectAnswer(qs, q, o)[q].options[k].isCorrect ==> k == o
  {
    assert SetCorrectAnswer(qs, q, o)[q].options[o].isCorrect;
  }
}
