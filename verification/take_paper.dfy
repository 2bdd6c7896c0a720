/** The exam screen: the answers chosen so far, moving between questions,
    the countdown and the answers sent on submission. Answers are keyed by
    question position; the clock ticks are supplied by the caller. */
module TakePaper {
  import opened Wrappers
  import opened Text
  import PaperModel
  import SubmissionsRoute

  /** The chosen option of each answered question, by question position. */
  type Answers = map<nat, nat>

  // ---------------------------------------------------------------------------
  // Answering
  // ---------------------------------------------------------------------------

  /** `handleAnswerSelect`: the choice for question `q` becomes `o`; every
      other choice stays. */
  function SelectAnswer(answers: Answers, q: nat, o: nat): (r: Answers)
    ensures r.Keys == answers.Keys + {q}
    ensures r[q] == o
    ensures forall k :: k in answers && k != q ==> r[k] == answers[k]
  {
    answers[q := o]
  }

  /** `getAnsweredCount`: the number of answered questions. */
  function AnsweredCount(answers: Answers): nat {
    |answers.Keys|
  }

  /** Answering a new question raises the count by one; changing an answer
      keeps it. */
  lemma SelectCount(answers: Answers, q: nat, o: nat)
    ensures q in answers ==> AnsweredCount(SelectAnswer(answers, q, o)) == AnsweredCount(answers)
    ensures q !in answers ==> AnsweredCount(SelectAnswer(answers, q, o)) == AnsweredCount(answers) + 1
  {
    if q in answers {
      assert answers.Keys + {q} == answers.Keys;
    }
  }

  /** The answers sent on submission: one per question, in order, with -1
      for a question left unanswered. */
  function SubmissionAnswers(answers: Answers, n: nat): (r: seq<int>)
    ensures |r| == n
    ensures forall i :: 0 <= i < n ==> (r[i] == -1 <==> i !in answers)
    ensures forall i :: 0 <= i < n && i in answers ==> r[i] == answers[i]
  {
    seq(n, i requires 0 <= i < n => if i in answers then answers[i] as int else -1)
  }

  /** The screen sends exactly one answer per question, so the server never
      meets an answer without a question, and an unanswered question earns
      nothing. */
  lemma SubmissionMatchesPaper(paper: PaperModel.Paper, answers: Answers, i: nat)
    requires i < |paper.questions|
    ensures var selected := SubmissionAnswers(answers, |paper.questions|);
            && SubmissionsRoute.GradeAnswers(paper.questions, selected).Some?
            && (i !in answers ==> !SubmissionsRoute.PicksCorrect(paper.questions[i], selected[i]))
  {
  }

  // ---------------------------------------------------------------------------
  // Navigation
  // ---------------------------------------------------------------------------

  /** "Previous": one back, never before the first question. */
  function Previous(current: int): (r: int)
    ensures r >= 0
    ensures current > 0 ==> r == current - 1
    ensures current <= 0 ==> r == 0
  {
    if current - 1 > 0 then current - 1 else 0
  }

  /** "Next": one on, never past the last of `n` questions. */
  function Next(current: int, n: nat): (r: int)
    ensures r <= n - 1
    ensures current + 1 <= n - 1 ==> r == current + 1
    ensures current + 1 > n - 1 ==> r == n - 1
  {
    if n - 1 < current + 1 then n - 1 else current + 1
  }

  /** The current position stays on a question. */
  predicate OnQuestion(current: int, n: nat) { 0 <= current < n }

  /** Moving either way keeps the position on a question. */
  lemma NavigationStaysOnQuestion(current: int, n: nat)
    requires OnQuestion(current, n)
    ensures OnQuestion(Previous(current), n)
    ensures OnQuestion(Next(current, n), n)
  {
  }

  /** "Next" then "Previous" comes back, unless already on the last question. */
  lemma NextThenPrevious(current: int, n: nat)
    requires OnQuestion(current, n) && current < n - 1
    ensures Previous(Next(current, n)) == current
  {
  }

  // ---------------------------------------------------------------------------
  // Timer
  // ---------------------------------------------------------------------------

  /** The time allowed, in seconds, for a limit in minutes. */
  function InitialTimeLeft(timeLimit: int): int {
    timeLimit * 60
  }

  /** One timer tick: the time left after it, and whether it submits. */
  datatype Tick = Tick(timeLeft: int, submits: bool)

  /** One second passes; at one second or less left the paper is submitted
      and the clock shows 0. */
  function TickOnce(timeLeft: int): (r: Tick)
    ensures r.submits <==> timeLeft <= 1
    ensures !r.submits ==> r.timeLeft == timeLeft - 1 > 0
    ensures r.submits ==> r.timeLeft == 0
  {
    if timeLeft <= 1 then Tick(0, true) else Tick(timeLeft - 1, false)
  }

  /** The time left after `k` ticks that did not submit. */
  function Run(timeLeft: int, k: nat): int
    decreases k
  {
    if k == 0 then timeLeft else TickOnce(Run(timeLeft, k - 1)).timeLeft
  }

  /** Starting from `t` seconds, the first `t - 1` ticks count down without
      submitting, and the tick after them submits: the paper goes in after
      exactly `t` ticks. */
  lemma {:induction false} CountdownSubmitsOnTime(t: int, k: nat)
    requires 0 <= k < t
    ensures Run(t, k) == t - k
    ensures TickOnce(Run(t, k)).submits <==> k == t - 1
  {
    if k > 0 {
      CountdownSubmitsOnTime(t, k - 1);
    }
  }

  /** The minutes spent, rounded, from the limit and the seconds left. */
  function TimeSpent(timeLimit: int, timeLeft: int): (r: int)
    ensures 0 <= timeLeft <= InitialTimeLeft(timeLimit) ==> 0 <= r <= timeLimit
    ensures timeLeft == InitialTimeLeft(timeLimit) ==> r == 0
    ensures timeLeft == 0 ==> r == timeLimit
    ensures (2 * r - 1) * 60 <= 2 * (InitialTimeLeft(timeLimit) - timeLeft) < (2 * r + 1) * 60
  {
    var elapsed := InitialTimeLeft(timeLimit) - timeLeft;
    assert 0 <= timeLeft <= InitialTimeLeft(timeLimit) ==>
             0.0 <= elapsed as real / 60.0 <= timeLimit as real;
    Round(elapsed as real / 60.0)
  }

  // ---------------------------------------------------------------------------
  // formatTime
  // ---------------------------------------------------------------------------

  /** `n.toString().padStart(2, '0')` for a number of seconds below 60. */
  function Pad2(n: nat): (r: string)
    requires n < 60
    ensures |r| == 2 && AllDigits(r)
  {
    if n < 10 then ['0', DigitChar(n)]
    else assert |NatToString(n / 10)| == 1; NatToString(n)
  }

  /** `formatTime`: whole minutes, a colon and the seconds in two digits. */
  function FormatTime(seconds: nat): (r: string)
  {
    NatToString(seconds / 60) + ":" + Pad2(seconds % 60)
  }

  /** Reads a clock display back: digits, a colon and two digits. */
  function ReadTime(t: string): (r: Option<nat>)
  {
    var parts := Split(t, ':');
    if |parts| == 2 && |parts[0]| > 0 && AllDigits(parts[0]) && |parts[1]| == 2 && AllDigits(parts[1])
    then Some(DigitsValue(parts[0]) * 60 + DigitsValue(parts[1]))
    else None
  }

  /** Two-digit seconds read back as the seconds. */
  lemma Pad2Value(n: nat)
    requires n < 60
    ensures DigitsValue(Pad2(n)) == n
  {
    if n < 10 {
      var r := Pad2(n);
      assert r[..1] == "0";
      assert DigitsValue(r[..1]) == 0 by {
        assert r[..1][..0] == "";
      }
    } else {
      NatToStringRoundTrip(n);
    }
  }

  /** The display reads back as the time shown. */
  lemma FormatTimeRoundTrip(seconds: nat)
    ensures ReadTime(FormatTime(seconds)) == Some(seconds)
  {
    var m := NatToString(seconds / 60);
    var s := Pad2(seconds % 60);
    assert ':' !in m by {
      assert forall k :: 0 <= k < |m| ==> IsDigit(m[k]);
    }
    assert ':' !in s by {
      assert forall k :: 0 <= k < |s| ==> IsDigit(s[k]);
    }
    assert FormatTime(seconds) == m + [':'] + s;
    SplitAtFirst(m, s, ':');
    SplitWithout(s, ':');
    NatToStringRoundTrip(seconds / 60);
    Pad2Value(seconds % 60);
  }

  /** Different times show differently. */
  lemma FormatTimeInjective(s: nat, t: nat)
    ensures FormatTime(s) == FormatTime(t) ==> s == t
  {
    FormatTimeRoundTrip(s);
    FormatTimeRoundTrip(t);
  }
}
