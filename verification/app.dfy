/** The upload screen: parse an answer sheet, grade every record in order,
    and show the uploader, a spinner or the report. The grading time stamp
    is supplied by the caller. */
module App {
  import opened Wrappers
  import FileParser
  import Text
  import AiGrader
  import opened Stats
  import GradingResults

  /** A graded question as the report shows it. */
  datatype GradedQuestion = GradedQuestion(
    id: string,
    question: string,
    correctAnswer: string,
    studentAnswer: string,
    score: int,
    feedback: string,
    gradedAt: int)

  /** The screen's state. */
  datatype State = State(loading: bool, questions: seq<GradedQuestion>, fileName: string)

  const Initial := State(false, [], "")

  /** The scores of the graded questions, in order. */
  function Scores(qs: seq<GradedQuestion>): (r: seq<int>)
    ensures |r| == |qs| && forall i :: 0 <= i < |qs| ==> r[i] == qs[i].score
  {
    seq(|qs|, i requires 0 <= i < |qs| => qs[i].score)
  }

  /** One record graded: the parsed fields kept, score and feedback from
      `gradeAnswer`, its confidence dropped. */
  function GradeRecord(rec: FileParser.Record, now: int): (g: GradedQuestion)
    ensures 0 <= g.score <= 100 && g.feedback != ""
  {
    var res := AiGrader.Grade(rec.question, rec.correctAnswer, rec.studentAnswer);
    GradedQuestion(rec.id, rec.question, rec.correctAnswer, rec.studentAnswer, res.score, res.feedback, now)
  }

  /** The loop over the parsed records. */
  function GradeAll(recs: seq<FileParser.Record>, now: int): (r: seq<GradedQuestion>)
    ensures |r| == |recs|
    ensures forall i :: 0 <= i < |recs| ==>
              && r[i].id == recs[i].id && r[i].question == recs[i].question
              && r[i].correctAnswer == recs[i].correctAnswer && r[i].studentAnswer == recs[i].studentAnswer
    ensures AllPercent(Scores(r))
  {
    seq(|recs|, i requires 0 <= i < |recs| => GradeRecord(recs[i], now))
  }

  /** The grade each entry carries is the one `gradeAnswer` gives its record. */
  lemma GradeAllScores(recs: seq<FileParser.Record>, now: int, i: nat)
    requires i < |recs|
    ensures GradeAll(recs, now)[i].score == AiGrader.Grade(recs[i].question, recs[i].correctAnswer, recs[i].studentAnswer).score
    ensures GradeAll(recs, now)[i].feedback == AiGrader.Grade(recs[i].question, recs[i].correctAnswer, recs[i].studentAnswer).feedback
  {
  }

  /** Every state the screen reaches shows percentages only. */
  predicate Valid(st: State) {
    AllPercent(Scores(st.questions))
  }

  /** The file name is set and the spinner starts. */
  function BeginUpload(st: State, fileName: string): (r: State)
    ensures r.loading && r.fileName == fileName && r.questions == st.questions
  {
    st.(loading := true, fileName := fileName)
  }

  /** Parsing and grading end; on a parse error the results are not touched. */
  function FinishUpload(st: State, content: string, now: int): (r: State)
    ensures !r.loading && r.fileName == st.fileName
    ensures Valid(st) ==> Valid(r)
  {
    match FileParser.ParseAnswerFile(content)
    case Success(recs) => st.(loading := false, questions := GradeAll(recs, now))
    case Failure(_) => st.(loading := false)
  }

  /** `handleFileUpload`. */
  function HandleFileUpload(st: State, content: string, fileName: string, now: int): (r: State)
    ensures !r.loading && r.fileName == fileName
    ensures Valid(st) ==> Valid(r)
  {
    FinishUpload(BeginUpload(st, fileName), content, now)
  }

  /** A successful upload replaces the results by one graded entry per
      record, in order, and shows the report. */
  lemma UploadSuccess(st: State, content: string, fileName: string, now: int)
    requires FileParser.ParseAnswerFile(content).Success?
    ensures var recs := FileParser.ParseAnswerFile(content).value;
            var r := HandleFileUpload(st, content, fileName, now);
            && |r.questions| == |recs|
            && (forall i :: 0 <= i < |recs| ==> r.questions[i].id == recs[i].id)
            && ShowsResults(r)
  {
  }

  /** The report lists the questions in section order: their numbers
      strictly increase. */
  lemma UploadKeepsSectionOrder(st: State, content: string, fileName: string, now: int)
    requires FileParser.ParseAnswerFile(content).Success?
    ensures var qs := HandleFileUpload(st, content, fileName, now).questions;
            forall i, j :: 0 <= i < j < |qs| ==> FileParser.IdNumber(qs[i].id) < FileParser.IdNumber(qs[j].id)
  {
    FileParser.ParseAnswerFileRecords(content);
  }

  /** A failed parse leaves the results as they were and ends loading. */
  lemma UploadFailure(st: State, content: string, fileName: string, now: int)
    requires FileParser.ParseAnswerFile(content).Failure?
    ensures HandleFileUpload(st, content, fileName, now) == st.(loading := false, fileName := fileName)
  {
  }

  /** An empty file changes nothing but the file name and the spinner. */
  lemma BlankUploadKeepsResults(st: State, content: string, fileName: string, now: int)
    requires Text.AllSpace(content)
    ensures HandleFileUpload(st, content, fileName, now).questions == st.questions
  {
  }

  /** `handleNewFile`. */
  function HandleNewFile(st: State): (r: State)
    ensures r.questions == [] && r.fileName == "" && r.loading == st.loading
    ensures Valid(r)
  {
    st.(questions := [], fileName := "")
  }

  /** The uploader shows when there are no results and nothing is loading. */
  predicate ShowsUploader(st: State) { |st.questions| == 0 && !st.loading }

  /** The spinner shows while loading. */
  predicate ShowsSpinner(st: State) { st.loading }

  /** The report shows when there are results and nothing is loading. */
  predicate ShowsResults(st: State) { |st.questions| > 0 && !st.loading }

  /** Exactly one of the three views shows. */
  lemma ExactlyOneView(st: State)
    ensures ShowsUploader(st) || ShowsSpinner(st) || ShowsResults(st)
    ensures !(ShowsUploader(st) && ShowsSpinner(st))
    ensures !(ShowsUploader(st) && ShowsResults(st))
    ensures !(ShowsSpinner(st) && ShowsResults(st))
  {
  }

  /** While an upload runs, the spinner shows. */
  lemma SpinnerDuringUpload(st: State, fileName: string)
    ensures ShowsSpinner(BeginUpload(st, fileName))
  {
  }

  /** After "Grade New File" the uploader shows again. */
  lemma NewFileShowsUploader(st: State)
    requires !st.loading
    ensures ShowsUploader(HandleNewFile(st))
  {
  }

  /** Whenever the report shows, its unguarded average is defined and is a
      percentage. */
  lemma ReportAverageInRange(st: State)
    requires Valid(st) && ShowsResults(st)
    ensures 0.0 <= GradingResults.Summarize(Scores(st.questions)).average <= 100.0
  {
  }
}
