/** The server's AI helpers that need no network: reading the generator's
    free-text answers into questions and evaluations, the word-overlap
    fallback evaluation, and the fallback and default question sets. The
    Hugging Face text generator is an oracle: each call's outcome is supplied
    by the caller as a `Reply`. */
module AiService {
  import opened Wrappers
  import opened Text
  import Splitter
  import Overlap
  import Stats

  /** One call of the text generator: it threw, or it answered with a
      `generated_text` that may be missing. */
  datatype Reply = Failed | Generated(text: Option<string>)

  // ---------------------------------------------------------------------------
  // parseInt
  // ---------------------------------------------------------------------------

  predicate IsHexDigit(c: char) { IsDigit(c) || 'a' <= c <= 'f' || 'A' <= c <= 'F' }

  function HexValue(c: char): (d: nat)
    requires IsHexDigit(c)
    ensures d < 16
  {
    if IsDigit(c) then DigitValue(c)
    else if 'a' <= c <= 'f' then c as int - 'a' as int + 10
    else c as int - 'A' as int + 10
  }

  /** The end of the run of hexadecimal digits starting at `i`. */
  function HexRunEnd(s: string, i: nat): (e: nat)
    requires i <= |s|
    ensures i <= e <= |s|
    ensures forall k :: i <= k < e ==> IsHexDigit(s[k])
    ensures e < |s| ==> !IsHexDigit(s[e])
    decreases |s| - i
  {
    if i < |s| && IsHexDigit(s[i]) then HexRunEnd(s, i + 1) else i
  }

  /** The value of a string of hexadecimal digits. */
  function HexDigitsValue(s: string): nat
    requires forall k :: 0 <= k < |s| ==> IsHexDigit(s[k])
  {
    if |s| == 0 then 0 else HexDigitsValue(s[..|s| - 1]) * 16 + HexValue(s[|s| - 1])
  }

  /** The value of the digits at the start of an unsigned numeral: after a
      `0x`/`0X` prefix the longest run of hexadecimal digits, otherwise the
      longest run of decimal digits; `None` when that run is empty. */
  function UnsignedValue(u: string): Option<int> {
    if |u| >= 2 && u[0] == '0' && (u[1] == 'x' || u[1] == 'X') then
      var e := HexRunEnd(u, 2);
      if e == 2 then None else Some(HexDigitsValue(u[2..e]))
    else
      var e := DigitRunEnd(u, 0);
      if e == 0 then None else Some(DigitsValue(u[..e]))
  }

  function Negate(v: Option<int>): Option<int> {
    match v
    case None => None
    case Some(m) => Some(-m)
  }

  /** `parseInt(s)` without a radix: leading white space is skipped, then an
      optional sign, then the unsigned numeral. `None` stands for `NaN`. */
  function ParseInt(s: string): Option<int> {
    SignedValue(TrimStart(s))
  }

  /** A numeral with an optional sign. */
  function SignedValue(t: string): Option<int> {
    if |t| > 0 && t[0] == '-' then Negate(UnsignedValue(t[1..]))
    else if |t| > 0 && t[0] == '+' then UnsignedValue(t[1..])
    else UnsignedValue(t)
  }

  /** The run of digits stops at the first character that is not a digit. */
  lemma {:induction false} DigitRunOfPrefix(d: string, rest: string, i: nat)
    requires AllDigits(d) && i <= |d|
    requires |rest| > 0 ==> !IsDigit(rest[0])
    ensures DigitRunEnd(d + rest, i) == |d|
    decreases |d| - i
  {
    if i < |d| {
      assert (d + rest)[i] == d[i];
      DigitRunOfPrefix(d, rest, i + 1);
    } else if |rest| > 0 {
      assert (d + rest)[i] == rest[0];
    }
  }

  /** Decimal digits followed by anything that is not a digit or an `x`
      have the digits' value. */
  lemma UnsignedDecimal(d: string, rest: string)
    requires |d| > 0 && AllDigits(d)
    requires |rest| > 0 ==> !IsDigit(rest[0]) && rest[0] != 'x' && rest[0] != 'X'
    ensures UnsignedValue(d + rest) == Some(DigitsValue(d) as int)
  {
    var u := d + rest;
    assert u[0] == d[0];
    if |u| >= 2 {
      if |d| >= 2 {
        assert u[1] == d[1];
      } else {
        assert u[1] == rest[0];
      }
    }
    DigitRunOfPrefix(d, rest, 0);
    assert u[..|d|] == d;
  }

  /** Decimal digits and then anything that is not a digit or an `x`: the
      value is that of the digits. */
  lemma ParseIntDecimal(d: string, rest: string)
    requires |d| > 0 && AllDigits(d)
    requires |rest| > 0 ==> !IsDigit(rest[0]) && rest[0] != 'x' && rest[0] != 'X'
    ensures ParseInt(d + rest) == Some(DigitsValue(d) as int)
  {
    UnsignedDecimal(d, rest);
    assert (d + rest)[0] == d[0];
    TrimStartOfUnspaced(d + rest);
  }

  /** A minus sign before a decimal numeral negates its value. */
  lemma ParseIntMinus(x: string)
    requires |x| > 0 && IsDigit(x[0])
    ensures ParseInt("-" + x) == Negate(ParseInt(x))
  {
    var s := "-" + x;
    assert ParseInt(s) == SignedValue(s) by {
      assert s[0] == '-';
      TrimStartOfUnspaced(s);
    }
    assert SignedValue(s) == Negate(UnsignedValue(x)) by {
      ConcatSlices("-", x);
    }
    TrimStartOfUnspaced(x);
  }

  /** `0x` and hexadecimal digits read as their base-16 value. */
  lemma ParseIntHex(h: string)
    requires |h| > 0 && forall k :: 0 <= k < |h| ==> IsHexDigit(h[k])
    ensures ParseInt("0x" + h) == Some(HexDigitsValue(h) as int)
  {
    var s := "0x" + h;
    assert s[0] == '0' && s[1] == 'x' && s[2..] == h;
    HexNumeral(s, h);
  }

  /** A string made of `0x` and the hexadecimal digits `h` reads as their value. */
  lemma HexNumeral(s: string, h: string)
    requires |s| >= 2 && s[0] == '0' && s[1] == 'x' && s[2..] == h
    requires |h| > 0 && forall k :: 0 <= k < |h| ==> IsHexDigit(h[k])
    ensures ParseInt(s) == Some(HexDigitsValue(h) as int)
  {
    TrimStartOfUnspaced(s);
    HexRunOfAll(s, 2);
    assert s[2..|s|] == h;
  }

  /** A string that ends in hexadecimal digits runs to its end. */
  lemma {:induction false} HexRunOfAll(s: string, i: nat)
    requires i <= |s| && forall k :: i <= k < |s| ==> IsHexDigit(s[k])
    ensures HexRunEnd(s, i) == |s|
    decreases |s| - i
  {
    if i < |s| {
      HexRunOfAll(s, i + 1);
    }
  }

  /** `parseInt(String(i)) == i`: reading back a rendered integer. */
  lemma ParseIntRendered(i: int)
    ensures ParseInt(IntToString(i)) == Some(i)
  {
    var n: nat := if i < 0 then -i else i;
    var digits := NatToString(n);
    assert ParseInt(digits) == Some(n) by {
      ParseIntDecimal(digits, "");
      assert digits + "" == digits;
      NatToStringRoundTrip(n);
    }
    if i < 0 {
      ParseIntMinus(digits);
    }
  }

  /** A text that starts with neither white space, a sign nor a digit reads as `NaN`. */
  lemma ParseIntNoDigits(s: string)
    requires |s| > 0 && !IsSpace(s[0]) && !IsDigit(s[0]) && s[0] != '-' && s[0] != '+'
    ensures ParseInt(s).None?
  {
    TrimStartOfUnspaced(s);
  }

  // ---------------------------------------------------------------------------
  // Evaluations
  // ---------------------------------------------------------------------------

  /** An evaluation: a score, feedback and the evaluator's confidence. */
  datatype Evaluation = Evaluation(score: int, feedback: string, confidence: real)

  const NoAnswerFeedback := "No answer provided."
  const DefaultFeedback := "Unable to evaluate answer."
  const ErrorFeedback := "Error in evaluation."
  const ScoreLabel := "Score:"
  const FeedbackLabel := "Feedback:"

  /** The score a `Score:` line carries: `parseInt(rest.trim()) || 0`. */
  function LineScore(line: string): int
    requires StartsWith(line, ScoreLabel)
  {
    ParseInt(Trim(line[|ScoreLabel|..])).GetOr(0)
  }

  /** The score and feedback read so far. */
  datatype Reading = Reading(score: int, feedback: string)

  /** The loop over the response's lines: each `Score:` line sets the
      score, each `Feedback:` line sets the feedback. */
  function ReadEvaluation(lines: seq<string>): Reading
    decreases |lines|
  {
    if |lines| == 0 then Reading(0, DefaultFeedback)
    else
      var r := ReadEvaluation(lines[..|lines| - 1]);
      var line := lines[|lines| - 1];
      if StartsWith(line, ScoreLabel) then r.(score := LineScore(line))
      else if StartsWith(line, FeedbackLabel) then r.(feedback := Trim(line[|FeedbackLabel|..]))
      else r
  }

  /** The score comes from the last `Score:` line. */
  lemma {:induction false} ScoreFromLastLine(lines: seq<string>, j: nat)
    requires j < |lines| && StartsWith(lines[j], ScoreLabel)
    requires forall k :: j < k < |lines| ==> !StartsWith(lines[k], ScoreLabel)
    ensures ReadEvaluation(lines).score == LineScore(lines[j])
    decreases |lines|
  {
    if j < |lines| - 1 {
      var init := lines[..|lines| - 1];
      assert init[j] == lines[j];
      assert forall k :: j < k < |init| ==> init[k] == lines[k];
      ScoreFromLastLine(init, j);
    }
  }

  /** Without a `Score:` line the score is 0. */
  lemma {:induction false} NoScoreLine(lines: seq<string>)
    requires forall k :: 0 <= k < |lines| ==> !StartsWith(lines[k], ScoreLabel)
    ensures ReadEvaluation(lines).score == 0
    decreases |lines|
  {
    if |lines| > 0 {
      var init := lines[..|lines| - 1];
      assert forall k :: 0 <= k < |init| ==> init[k] == lines[k];
      NoScoreLine(init);
    }
  }

  /** A `Feedback:` line is never a `Score:` line. */
  lemma FeedbackIsNotScore(line: string)
    requires StartsWith(line, FeedbackLabel)
    ensures !StartsWith(line, ScoreLabel)
  {
    assert line[0] == line[..|FeedbackLabel|][0] == 'F';
  }

  /** The feedback comes from the last `Feedback:` line. */
  lemma {:induction false} FeedbackFromLastLine(lines: seq<string>, j: nat)
    requires j < |lines| && StartsWith(lines[j], FeedbackLabel)
    requires forall k :: j < k < |lines| ==> !StartsWith(lines[k], FeedbackLabel)
    ensures ReadEvaluation(lines).feedback == Trim(lines[j][|FeedbackLabel|..])
    decreases |lines|
  {
    if j < |lines| - 1 {
      var init := lines[..|lines| - 1];
      assert init[j] == lines[j];
      assert forall k :: j < k < |init| ==> init[k] == lines[k];
      FeedbackFromLastLine(init, j);
      FeedbackKept(lines);
    } else {
      FeedbackSet(lines);
    }
  }

  /** A last line that is not a `Feedback:` line keeps the feedback. */
  lemma FeedbackKept(lines: seq<string>)
    requires |lines| > 0 && !StartsWith(lines[|lines| - 1], FeedbackLabel)
    ensures ReadEvaluation(lines).feedback == ReadEvaluation(lines[..|lines| - 1]).feedback
  {
  }

  /** A last `Feedback:` line sets the feedback. */
  lemma FeedbackSet(lines: seq<string>)
    requires |lines| > 0 && StartsWith(lines[|lines| - 1], FeedbackLabel)
    ensures ReadEvaluation(lines).feedback == Trim(lines[|lines| - 1][|FeedbackLabel|..])
  {
    FeedbackIsNotScore(lines[|lines| - 1]);
  }

  /** Without a `Feedback:` line the feedback is the default one. */
  lemma {:induction false} NoFeedbackLine(lines: seq<string>)
    requires forall k :: 0 <= k < |lines| ==> !StartsWith(lines[k], FeedbackLabel)
    ensures ReadEvaluation(lines).feedback == DefaultFeedback
    decreases |lines|
  {
    if |lines| > 0 {
      var init := lines[..|lines| - 1];
      assert forall k :: 0 <= k < |init| ==> init[k] == lines[k];
      NoFeedbackLine(init);
    }
  }

  /** `parseEvaluationResponse`: the read score clamped to [0, 100], with
      confidence 0.8; a missing text fails inside the `try` and gives the
      error evaluation. */
  function ParseEvaluationResponse(text: Option<string>): (r: Evaluation)
    ensures 0 <= r.score <= 100
    ensures text.None? ==> r == Evaluation(0, ErrorFeedback, 0.1)
    ensures text.Some? ==> r.confidence == 0.8
  {
    match text
    case None => Evaluation(0, ErrorFeedback, 0.1)
    case Some(t) =>
      var reading := ReadEvaluation(Split(t, '\n'));
      Evaluation(ClampPercent(reading.score), reading.feedback, 0.8)
  }

  /** The score of a response is that of its last `Score:` line, clamped. */
  lemma EvaluationScore(t: string, j: nat)
    requires j < |Split(t, '\n')| && StartsWith(Split(t, '\n')[j], ScoreLabel)
    requires forall k :: j < k < |Split(t, '\n')| ==> !StartsWith(Split(t, '\n')[k], ScoreLabel)
    ensures ParseEvaluationResponse(Some(t)).score == ClampPercent(LineScore(Split(t, '\n')[j]))
  {
    ScoreFromLastLine(Split(t, '\n'), j);
  }

  /** The feedback of a response is that of its last `Feedback:` line. */
  lemma EvaluationFeedback(t: string, j: nat)
    requires j < |Split(t, '\n')| && StartsWith(Split(t, '\n')[j], FeedbackLabel)
    requires forall k :: j < k < |Split(t, '\n')| ==> !StartsWith(Split(t, '\n')[k], FeedbackLabel)
    ensures ParseEvaluationResponse(Some(t)).feedback == Trim(Split(t, '\n')[j][|FeedbackLabel|..])
  {
    FeedbackFromLastLine(Split(t, '\n'), j);
  }

  /** A line made of a label, one space and a text starts with the label
      and holds the space and the text after it. */
  lemma LabelledLine(tag: string, x: string)
    ensures StartsWith(tag + " " + x, tag)
    ensures (tag + " " + x)[|tag|..] == " " + x
  {
    assert tag + " " + x == tag + (" " + x);
    ConcatSlices(tag, " " + x);
  }

  /** Two lines joined by a line feed split back into the two lines. */
  lemma SplitTwoLines(a: string, b: string)
    requires '\n' !in a && '\n' !in b
    ensures Split(a + "\n" + b, '\n') == [a, b]
  {
    SplitAtFirst(a, b, '\n');
    SplitWithout(b, '\n');
    assert a + "\n" + b == a + ['\n'] + b;
  }

  /** A `Score:` line followed by a `Feedback:` line. */
  lemma ReadTwoLines(a: string, b: string)
    requires StartsWith(a, ScoreLabel) && StartsWith(b, FeedbackLabel)
    ensures ReadEvaluation([a, b]) == Reading(LineScore(a), Trim(b[|FeedbackLabel|..]))
  {
    assert [a, b][..1] == [a];
    assert [a][..0] == [];
    FeedbackIsNotScore(b);
  }

  /** The line `Score: <n>` carries the score `n`. */
  lemma ScoreLine(n: int)
    ensures StartsWith(ScoreLabel + " " + IntToString(n), ScoreLabel)
    ensures LineScore(ScoreLabel + " " + IntToString(n)) == n
  {
    LabelledLine(ScoreLabel, IntToString(n));
    IntToStringChars(n);
    TrimAfterSpace(IntToString(n));
    ParseIntRendered(n);
  }

  /** The line `Feedback: <f>` carries the feedback `f` when `f` is trimmed. */
  lemma FeedbackLine(f: string)
    requires IsTrimmed(f)
    ensures StartsWith(FeedbackLabel + " " + f, FeedbackLabel)
    ensures Trim((FeedbackLabel + " " + f)[|FeedbackLabel|..]) == f
  {
    LabelledLine(FeedbackLabel, f);
    TrimAfterSpace(f);
  }

  /** A response in the requested two-line format reads back as the score
      it names, clamped, and its feedback. */
  lemma EvaluationFormatRoundTrip(n: int, f: string)
    requires IsTrimmed(f) && '\n' !in f
    ensures ParseEvaluationResponse(Some((ScoreLabel + " " + IntToString(n)) + "\n" + (FeedbackLabel + " " + f)))
         == Evaluation(ClampPercent(n), f, 0.8)
  {
    var a := ScoreLabel + " " + IntToString(n);
    var b := FeedbackLabel + " " + f;
    IntToStringChars(n);
    SplitTwoLines(a, b);
    ScoreLine(n);
    FeedbackLine(f);
    ReadTwoLines(a, b);
  }

  // ---------------------------------------------------------------------------
  // Similarity and the fallback evaluation
  // ---------------------------------------------------------------------------

  /** `text.split(/\s+/)`, unfiltered: leading or trailing white space gives
      an empty word, and the empty text gives one empty word. */
  function Words(text: string): (r: seq<string>)
    ensures |r| >= 1
  {
    Splitter.Split(Splitter.SpaceRun, text)
  }

  /** `calculateSimilarity`: the first text's words that occur in the
      second, counted with repeats, over the number of distinct words of
      both. */
  function Similarity(text1: string, text2: string): (r: real)
    ensures r >= 0.0
    ensures r == 0.0 <==> forall w :: w in Words(text1) ==> w !in Words(text2)
    ensures Overlap.UnionSize(Words(text1), Words(text2)) > 0 ==>
              r == |Overlap.Common(Words(text1), Words(text2))| as real / Overlap.UnionSize(Words(text1), Words(text2)) as real
    ensures Overlap.UnionSize(Words(text1), Words(text2)) == 0 ==> r == 0.0
  {
    Overlap.RatioZeroIffDisjoint(Words(text1), Words(text2));
    Overlap.Ratio(Words(text1), Words(text2))
  }

  /** A text whose words do not repeat has similarity 1 with itself. */
  lemma SimilaritySelf(text: string)
    requires NoDups(Words(text))
    ensures Similarity(text, text) == 1.0
  {
    Overlap.RatioSelf(Words(text));
  }

  /** When the first text's words do not repeat, the similarity is at most 1. */
  lemma SimilarityAtMostOne(text1: string, text2: string)
    requires NoDups(Words(text1))
    ensures Similarity(text1, text2) <= 1.0
  {
    Overlap.RatioAtMostOne(Words(text1), Words(text2));
  }

  const ExcellentFallback := "Excellent answer! Very close to the expected response."
  const GoodFallback := "Good answer, but could be more complete or accurate."
  const PartialFallback := "Partially correct, but missing key elements."
  const PoorFallback := "Answer needs significant improvement. Please review the material."

  /** The fallback feedback for a score: one band per range, from 80, from
      60, from 40 and below. */
  function FallbackFeedback(score: int): (f: string)
    ensures f == ExcellentFallback <==> score >= 80
    ensures f == GoodFallback <==> 60 <= score < 80
    ensures f == PartialFallback <==> 40 <= score < 60
    ensures f == PoorFallback <==> score < 40
  {
    if score >= 80 then ExcellentFallback
    else if score >= 60 then GoodFallback
    else if score >= 40 then PartialFallback
    else PoorFallback
  }

  /** `fallbackEvaluation`: the lower-cased texts' similarity as a rounded
      percentage, not clamped, with confidence 0.6. */
  function FallbackEvaluation(correct: string, student: string): (r: Evaluation)
    ensures r.score >= 0 && r.confidence == 0.6
    ensures r.feedback == FallbackFeedback(r.score)
    ensures (forall w :: w in Words(ToLower(correct)) ==> w !in Words(ToLower(student))) ==> r.score == 0
    ensures var u, n := Overlap.UnionSize(Words(ToLower(correct)), Words(ToLower(student))),
                        |Overlap.Common(Words(ToLower(correct)), Words(ToLower(student)))|;
            u > 0 ==> Stats.NearestShare(r.score, n, u, 100)
    ensures Overlap.UnionSize(Words(ToLower(correct)), Words(ToLower(student))) == 0 ==> r.score == 0
  {
    var sim := Similarity(ToLower(correct), ToLower(student));
    var score := Round(sim * 100.0);
    var u := Overlap.UnionSize(Words(ToLower(correct)), Words(ToLower(student)));
    var n := |Overlap.Common(Words(ToLower(correct)), Words(ToLower(student)))|;
    assert u > 0 ==> Stats.NearestShare(score, n, u, 100) by {
      if u > 0 {
        Stats.RoundedQuotient(n, u, 100, score);
      }
    }
    Evaluation(score, FallbackFeedback(score), 0.6)
  }

  /** When the reference answer repeats no word, the fallback score is a percentage. */
  lemma FallbackAtMostHundred(correct: string, student: string)
    requires NoDups(Words(ToLower(correct)))
    ensures 0 <= FallbackEvaluation(correct, student).score <= 100
  {
    SimilarityAtMostOne(ToLower(correct), ToLower(student));
  }

  /** An answer equal to a reference that repeats no word scores 100 with
      the top feedback. */
  lemma FallbackSelf(answer: string)
    requires NoDups(Words(ToLower(answer)))
    ensures FallbackEvaluation(answer, answer) == Evaluation(100, ExcellentFallback, 0.6)
  {
    SimilaritySelf(ToLower(answer));
  }

  // ---------------------------------------------------------------------------
  // evaluateAnswer
  // ---------------------------------------------------------------------------

  /** The evaluation returned and whether the generator was called. */
  datatype Outcome = Outcome(evaluation: Evaluation, consulted: bool)

  /** `evaluateAnswer`: a missing or blank answer is answered at once;
      otherwise the generator is called with a prompt built from the
      question and both answers, and its reply is read, or, if the call
      throws, the fallback evaluation is used. The prompt is not modelled,
      so `question` does not influence the result. */
  function EvaluateAnswer(question: string, correct: string, student: Option<string>, reply: Reply): (r: Outcome)
    ensures r.consulted <==> student.Some? && Trim(student.value) != ""
    ensures !r.consulted ==> r.evaluation == Evaluation(0, NoAnswerFeedback, 1.0)
    ensures r.consulted && reply.Failed? ==> r.evaluation == FallbackEvaluation(correct, student.value)
    ensures r.consulted && reply.Generated? ==> r.evaluation == ParseEvaluationResponse(reply.text)
    ensures !r.consulted || reply.Generated? ==> 0 <= r.evaluation.score <= 100
  {
    if student.None? || Trim(student.value) == "" then Outcome(Evaluation(0, NoAnswerFeedback, 1.0), false)
    else
      match reply
      case Failed => Outcome(FallbackEvaluation(correct, student.value), true)
      case Generated(t) => Outcome(ParseEvaluationResponse(t), true)
  }

  // ---------------------------------------------------------------------------
  // Multiple-choice questions
  // ---------------------------------------------------------------------------

  /** An answer option. */
  datatype Choice = Choice(text: string, isCorrect: bool)

  /** A generated multiple-choice question. */
  datatype Mcq = Mcq(question: string, options: seq<Choice>, points: nat, explanation: string, aiGenerated: bool)

  /** Option `k` is the one and only correct option. */
  predicate OnlyCorrect(options: seq<Choice>, k: int) {
    0 <= k < |options| && forall j :: 0 <= j < |options| ==> (options[j].isCorrect <==> j == k)
  }

  /** What every question handed out satisfies: at least four options,
      exactly one of them correct, worth one point. */
  predicate WellFormed(q: Mcq) {
    |q.options| >= 4 && q.points == 1 && exists k :: 0 <= k < |q.options| && OnlyCorrect(q.options, k)
  }

  /** Four options, the `k`-th correct. */
  function FourOptions(a: string, b: string, c: string, d: string, k: nat): (r: seq<Choice>)
    requires k < 4
    ensures |r| == 4 && OnlyCorrect(r, k)
    ensures r[0].text == a && r[1].text == b && r[2].text == c && r[3].text == d
  {
    [Choice(a, k == 0), Choice(b, k == 1), Choice(c, k == 2), Choice(d, k == 3)]
  }

  const FallbackExplanation := "This is a fallback question."
  const SampleExplanation := "This is a sample question."

  /** `createFallbackQuestion`: a fixed question chosen by the lower-cased
      topic, mathematics for any topic without one of its own. */
  function FallbackQuestion(topic: string): (r: Mcq)
    ensures WellFormed(r) && |r.options| == 4
    ensures !r.aiGenerated && r.explanation == FallbackExplanation
  {
    var key := ToLower(topic);
    var (question, options) :=
      if key == "science" then ("What is the chemical symbol for water?", FourOptions("H2O", "CO2", "O2", "N2", 0))
      else if key == "history" then ("In which year did Rwanda gain independence?", FourOptions("1960", "1962", "1964", "1966", 1))
      else ("What is the result of 2 + 2?", FourOptions("3", "4", "5", "6", 1));
    Mcq(question, options, 1, FallbackExplanation, false)
  }

  /** The template depends on the topic only through its lower-cased form,
      and every topic other than science and history gets mathematics. */
  lemma FallbackByTopic(topic: string)
    ensures FallbackQuestion(topic) == FallbackQuestion(ToLower(topic))
    ensures ToLower(topic) != "science" && ToLower(topic) != "history" ==>
              FallbackQuestion(topic) == FallbackQuestion("mathematics")
  {
    LowerIdempotent(topic);
    assert ToLower("mathematics") == "mathematics";
  }

  /** Lower-casing twice is lower-casing once. */
  lemma LowerIdempotent(s: string)
    ensures ToLower(ToLower(s)) == ToLower(s)
  {
  }

  /** The default question number `i` (from 0): option `i % 4` is correct. */
  function DefaultQuestion(topic: string, i: nat): (r: Mcq)
    ensures OnlyCorrect(r.options, i % 4) && WellFormed(r) && |r.options| == 4
    ensures !r.aiGenerated && r.explanation == SampleExplanation
  {
    Mcq("Sample question " + (NatToString(i + 1) + (" about " + topic)),
        FourOptions("Option A", "Option B", "Option C", "Option D", i % 4),
        1, SampleExplanation, false)
  }

  /** `createDefaultQuestions(topic, count)`. */
  function DefaultQuestions(topic: string, count: nat): (r: seq<Mcq>)
    ensures |r| == count
    ensures forall i :: 0 <= i < count ==> OnlyCorrect(r[i].options, i % 4) && WellFormed(r[i]) && !r[i].aiGenerated
  {
    seq(count, i requires 0 <= i < count => DefaultQuestion(topic, i))
  }

  /** Digits cannot be followed by a non-digit in two ways. */
  lemma DigitsBeforeNonDigit(a: string, b: string, x: string, y: string)
    requires AllDigits(a) && AllDigits(b)
    requires |x| > 0 && !IsDigit(x[0]) && |y| > 0 && !IsDigit(y[0])
    requires a + x == b + y
    ensures a == b
  {
    var n := if |a| < |b| then |a| else |b|;
    ConcatAt(a, x, n);
    ConcatAt(b, y, n);
    ConcatSlices(a, x);
    ConcatSlices(b, y);
  }

  /** The character at position `k` of a concatenation. */
  lemma ConcatAt(a: string, x: string, k: nat)
    requires k <= |a| && |x| > 0
    ensures (a + x)[k] == if k < |a| then a[k] else x[0]
  {
  }

  /** The default questions all have different texts. */
  lemma DefaultQuestionsDistinct(topic: string, count: nat, i: nat, j: nat)
    requires i < count && j < count && i != j
    ensures DefaultQuestions(topic, count)[i].question != DefaultQuestions(topic, count)[j].question
  {
    var p := "Sample question ";
    var m := " about " + topic;
    var a := NatToString(i + 1);
    var b := NatToString(j + 1);
    if p + (a + m) == p + (b + m) {
      ConcatSlices(p, a + m);
      ConcatSlices(p, b + m);
      DigitsBeforeNonDigit(a, b, m, m);
      NatToStringInjective(i + 1, j + 1);
    }
  }

  // ---------------------------------------------------------------------------
  // parseGeneratedQuestion
  // ---------------------------------------------------------------------------

  const QuestionLabel := "Question:"
  const CorrectLabel := "Correct Answer:"
  const ExplanationLabel := "Explanation:"

  /** What the loop over the generated lines has collected. */
  datatype QuestionDraft = QuestionDraft(question: string, options: seq<Choice>, correct: string, explanation: string)

  const EmptyDraft := QuestionDraft("", [], "", "")

  /** `/^[A-D]\)/`: a letter from A to D and a closing parenthesis. */
  predicate IsOptionLine(line: string) {
    |line| >= 2 && 'A' <= line[0] <= 'D' && line[1] == ')'
  }

  /** No option collected so far is marked correct. */
  predicate Unmarked(options: seq<Choice>) {
    forall j :: 0 <= j < |options| ==> !options[j].isCorrect
  }

  /** One iteration: a `Question:` line sets the question, an option line
      appends an option, a `Correct Answer:` line sets the upper-cased
      answer letter, an `Explanation:` line sets the explanation; other
      lines are ignored. */
  function ReadQuestionLine(d: QuestionDraft, line: string): (r: QuestionDraft)
    ensures Unmarked(d.options) ==> Unmarked(r.options)
  {
    if StartsWith(line, QuestionLabel) then d.(question := Trim(line[|QuestionLabel|..]))
    else if IsOptionLine(line) then d.(options := d.options + [Choice(Trim(line[2..]), false)])
    else if StartsWith(line, CorrectLabel) then d.(correct := ToUpper(Trim(line[|CorrectLabel|..])))
    else if StartsWith(line, ExplanationLabel) then d.(explanation := Trim(line[|ExplanationLabel|..]))
    else d
  }

  /** The loop over all lines. */
  function ReadQuestion(lines: seq<string>): (d: QuestionDraft)
    ensures Unmarked(d.options)
    decreases |lines|
  {
    if |lines| == 0 then EmptyDraft
    else ReadQuestionLine(ReadQuestion(lines[..|lines| - 1]), lines[|lines| - 1])
  }

  /** `correctAnswer.charCodeAt(0) - 65`. */
  function CorrectIndex(d: QuestionDraft): int
    requires d.correct != ""
  {
    d.correct[0] as int - 'A' as int
  }

  /** The conditions under which a question is returned. */
  predicate Acceptable(d: QuestionDraft) {
    d.question != "" && |d.options| >= 4 && d.correct != "" && 0 <= CorrectIndex(d) < |d.options|
  }

  /** The options after the answer letter has marked its option, when there
      is a letter, at least four options and the letter names one of them. */
  function MarkCorrect(d: QuestionDraft): (r: seq<Choice>)
    requires Unmarked(d.options)
    ensures |r| == |d.options|
    ensures forall j :: 0 <= j < |r| ==> r[j].text == d.options[j].text
    ensures Acceptable(d) ==> OnlyCorrect(r, CorrectIndex(d))
    ensures !(d.correct != "" && |d.options| >= 4 && 0 <= CorrectIndex(d) < |d.options|) ==> Unmarked(r)
  {
    if d.correct != "" && |d.options| >= 4 && 0 <= CorrectIndex(d) < |d.options| then
      var k := CorrectIndex(d);
      d.options[k := Choice(d.options[k].text, true)]
    else d.options
  }

  /** `options.some(opt => opt.isCorrect)`. */
  function SomeCorrect(options: seq<Choice>): (b: bool)
    ensures b <==> exists j :: 0 <= j < |options| && options[j].isCorrect
  {
    if |options| == 0 then false
    else options[0].isCorrect || SomeCorrect(options[1..])
  }

  /** `parseGeneratedQuestion`: a missing text fails inside the `try` and
      gives `null`, here `None`. */
  function ParseGeneratedQuestion(text: Option<string>): (r: Option<Mcq>)
    ensures r.Some? <==> text.Some? && Acceptable(ReadQuestion(Lines(text.value)))
    ensures r.Some? ==> var d := ReadQuestion(Lines(text.value));
              && OnlyCorrect(r.value.options, CorrectIndex(d))
              && WellFormed(r.value) && r.value.aiGenerated
              && r.value.question == d.question && r.value.explanation == d.explanation
  {
    match text
    case None => None
    case Some(t) =>
      var d := ReadQuestion(Lines(t));
      var options := MarkCorrect(d);
      if d.question != "" && |options| >= 4 && SomeCorrect(options) then
        Some(Mcq(d.question, options, 1, d.explanation, true))
      else None
  }

  /** The loop over the first `n + 1` lines is one more iteration of the loop
      over the first `n`. */
  lemma ReadQuestionPrefix(lines: seq<string>, n: nat)
    requires n < |lines|
    ensures ReadQuestion(lines[..n + 1]) == ReadQuestionLine(ReadQuestion(lines[..n]), lines[n])
  {
    assert lines[..n + 1][..n] == lines[..n];
  }

  // ---------------------------------------------------------------------------
  // The requested answer format
  // ---------------------------------------------------------------------------

  /** A text that fits on one line of the format: non-empty, trimmed, no
      line feed. */
  predicate OneLine(s: string) {
    s != "" && IsTrimmed(s) && '\n' !in s
  }

  /** The letter of option `j`. */
  function Letter(j: nat): (c: char)
    requires j < 4
    ensures 'A' <= c <= 'D'
  {
    ('A' as int + j) as char
  }

  /** `A) text` and so on. */
  function OptionLine(j: nat, text: string): string
    requires j < 4
  {
    [Letter(j)] + ")" + " " + text
  }

  /** The four option lines, lettered A to D. */
  function OptionLines(options: seq<Choice>): (r: seq<string>)
    requires |options| == 4
    ensures |r| == 4 && forall j :: 0 <= j < 4 ==> r[j] == OptionLine(j, options[j].text)
  {
    seq(4, j requires 0 <= j < 4 => OptionLine(j, options[j].text))
  }

  /** The seven lines of the format the generator is asked to follow. */
  function RenderLines(q: Mcq, k: nat): (r: seq<string>)
    requires |q.options| == 4 && k < 4
    ensures |r| == 7 && r[0] == QuestionLabel + " " + q.question
    ensures forall i :: 1 <= i <= 4 ==> r[i] == OptionLine(i - 1, q.options[i - 1].text)
    ensures r[5] == CorrectLabel + " " + [Letter(k)] && r[6] == ExplanationLabel + " " + q.explanation
  {
    [QuestionLabel + " " + q.question] + OptionLines(q.options)
      + [CorrectLabel + " " + [Letter(k)], ExplanationLabel + " " + q.explanation]
  }

  /** A question written out in the requested format, option `k` named as
      the correct one. */
  function Render(q: Mcq, k: nat): string
    requires |q.options| == 4 && k < 4
  {
    Join(RenderLines(q, k), "\n")
  }

  /** The questions the format can carry: four one-line options with
      option `k` the correct one, a one-line question and explanation, one
      point, marked as generated. */
  predicate Renderable(q: Mcq, k: nat) {
    && |q.options| == 4 && k < 4 && OnlyCorrect(q.options, k)
    && q.points == 1 && q.aiGenerated
    && OneLine(q.question) && OneLine(q.explanation)
    && forall j :: 0 <= j < 4 ==> OneLine(q.options[j].text)
  }

  /** A tag, a space and a one-line text make a clean line without line feeds. */
  lemma TaggedLineClean(tag: string, x: string)
    requires |tag| > 0 && IsUpper(tag[0]) && '\n' !in tag && OneLine(x)
    ensures IsTrimmed(tag + " " + x) && tag + " " + x != "" && '\n' !in tag + " " + x
  {
    var l := tag + " " + x;
    assert !IsSpace(tag[0]);
    assert l[0] == tag[0];
    assert l[|l| - 1] == x[|x| - 1];
  }

  /** A text whose first character differs from a prefix's does not start with it. */
  lemma NotStartsWith(s: string, prefix: string)
    requires |s| > 0 && |prefix| > 0 && s[0] != prefix[0]
    ensures !StartsWith(s, prefix)
  {
    if |prefix| <= |s| {
      assert s[..|prefix|][0] == s[0];
    }
  }

  lemma QuestionLineRead(d: QuestionDraft, x: string)
    requires OneLine(x)
    ensures ReadQuestionLine(d, QuestionLabel + " " + x) == d.(question := x)
  {
    LabelledLine(QuestionLabel, x);
    TrimAfterSpace(x);
  }

  lemma OptionLineRead(d: QuestionDraft, j: nat, x: string)
    requires j < 4 && OneLine(x)
    ensures ReadQuestionLine(d, OptionLine(j, x)) == d.(options := d.options + [Choice(x, false)])
  {
    var l := OptionLine(j, x);
    assert l[0] == Letter(j) && l[1] == ')';
    NotStartsWith(l, QuestionLabel);
    LabelledLine([Letter(j)] + ")", x);
    TrimAfterSpace(x);
  }

  lemma CorrectLineRead(d: QuestionDraft, j: nat)
    requires j < 4
    ensures ReadQuestionLine(d, CorrectLabel + " " + [Letter(j)]) == d.(correct := [Letter(j)])
  {
    var l := CorrectLabel + " " + [Letter(j)];
    LabelledLine(CorrectLabel, [Letter(j)]);
    assert l[..|CorrectLabel|] == CorrectLabel;
    assert l[0] == 'C' && l[1] == 'o';
    NotStartsWith(l, QuestionLabel);
    TrimAfterSpace([Letter(j)]);
  }

  lemma ExplanationLineRead(d: QuestionDraft, x: string)
    requires OneLine(x)
    ensures ReadQuestionLine(d, ExplanationLabel + " " + x) == d.(explanation := x)
  {
    var l := ExplanationLabel + " " + x;
    LabelledLine(ExplanationLabel, x);
    assert l[..|ExplanationLabel|] == ExplanationLabel;
    assert l[0] == 'E';
    NotStartsWith(l, QuestionLabel);
    NotStartsWith(l, CorrectLabel);
    TrimAfterSpace(x);
  }

  /** The lines of a rendered question are the format's seven lines. */
  lemma RenderedLines(q: Mcq, k: nat)
    requires Renderable(q, k)
    ensures Lines(Render(q, k)) == RenderLines(q, k)
  {
    var ls := RenderLines(q, k);
    RenderLinesClean(q, k);
    SplitJoin(ls, '\n');
    TrimAllOfClean(ls);
  }

  /** Every line of the format is trimmed, non-empty and free of line feeds. */
  lemma RenderLinesClean(q: Mcq, k: nat)
    requires Renderable(q, k)
    ensures forall i :: 0 <= i < 7 ==> var l := RenderLines(q, k)[i]; IsTrimmed(l) && l != "" && '\n' !in l
  {
    var ls := RenderLines(q, k);
    forall i | 0 <= i < 7
      ensures IsTrimmed(ls[i]) && ls[i] != "" && '\n' !in ls[i]
    {
      if i == 0 {
        TaggedLineClean(QuestionLabel, q.question);
      } else if i <= 4 {
        TaggedLineClean([Letter(i - 1)] + ")", q.options[i - 1].text);
      } else if i == 5 {
        TaggedLineClean(CorrectLabel, [Letter(k)]);
      } else {
        TaggedLineClean(ExplanationLabel, q.explanation);
      }
    }
  }

  /** What reading the format has collected after the question line and
      the first `n` option lines. */
  predicate CollectedOptions(d: QuestionDraft, q: Mcq, n: nat)
    requires n <= |q.options|
  {
    && d.question == q.question && d.correct == "" && d.explanation == ""
    && |d.options| == n
    && forall j :: 0 <= j < n ==> d.options[j].text == q.options[j].text
  }

  /** The question line and the four option lines. */
  lemma ReadRenderedOptions(q: Mcq, k: nat)
    requires Renderable(q, k)
    ensures CollectedOptions(ReadQuestion(RenderLines(q, k)[..5]), q, 4)
  {
    var ls := RenderLines(q, k);
    assert ls[..0] == [];
    ReadQuestionPrefix(ls, 0);
    QuestionLineRead(EmptyDraft, q.question);
    assert CollectedOptions(ReadQuestion(ls[..1]), q, 0);
    for n := 0 to 4
      invariant CollectedOptions(ReadQuestion(ls[..n + 1]), q, n)
    {
      ReadQuestionPrefix(ls, n + 1);
      OptionStep(ReadQuestion(ls[..n + 1]), q, n);
    }
  }

  /** One more option line read. */
  lemma OptionStep(d: QuestionDraft, q: Mcq, n: nat)
    requires |q.options| == 4 && n < 4 && OneLine(q.options[n].text)
    requires CollectedOptions(d, q, n)
    ensures CollectedOptions(ReadQuestionLine(d, OptionLine(n, q.options[n].text)), q, n + 1)
  {
    OptionLineRead(d, n, q.options[n].text);
    CollectedOneMore(d, q, n);
  }

  /** Collecting the next option's text extends what was collected. */
  lemma CollectedOneMore(d: QuestionDraft, q: Mcq, n: nat)
    requires n < |q.options| && CollectedOptions(d, q, n)
    ensures CollectedOptions(d.(options := d.options + [Choice(q.options[n].text, false)]), q, n + 1)
  {
  }

  /** Reading the format's seven lines collects the question, the four
      options' texts, the letter and the explanation. */
  lemma ReadRenderedLines(q: Mcq, k: nat)
    requires Renderable(q, k)
    ensures var d := ReadQuestion(RenderLines(q, k));
            && d.question == q.question && d.correct == [Letter(k)] && d.explanation == q.explanation
            && |d.options| == 4 && forall j :: 0 <= j < 4 ==> d.options[j].text == q.options[j].text
  {
    var ls := RenderLines(q, k);
    ReadRenderedOptions(q, k);
    var d5 := ReadQuestion(ls[..5]);
    ReadQuestionPrefix(ls, 5);
    CorrectLineRead(d5, k);
    var d6 := d5.(correct := [Letter(k)]);
    assert ReadQuestion(ls[..6]) == d6;
    ReadQuestionPrefix(ls, 6);
    ExplanationLineRead(d6, q.explanation);
    assert ReadQuestion(ls[..7]) == d6.(explanation := q.explanation);
    assert ls[..7] == ls;
  }

  /** A question written out in the requested format is read back as itself. */
  lemma RenderRoundTrip(q: Mcq, k: nat)
    requires Renderable(q, k)
    ensures ParseGeneratedQuestion(Some(Render(q, k))) == Some(q)
  {
    RenderedLines(q, k);
    ReadRenderedLines(q, k);
    var d := ReadQuestion(RenderLines(q, k));
    assert CorrectIndex(d) == k;
    var marked := MarkCorrect(d);
    assert marked == q.options by {
      assert forall j :: 0 <= j < 4 ==> marked[j] == q.options[j];
    }
  }

  // ---------------------------------------------------------------------------
  // generateMCQQuestions
  // ---------------------------------------------------------------------------

  /** What one iteration contributes: the fallback question when the call
      threw, otherwise the parsed question if there is one. */
  function Produced(topic: string, reply: Reply): (r: Option<Mcq>)
    ensures r.Some? ==> WellFormed(r.value)
    ensures reply.Failed? ==> r == Some(FallbackQuestion(topic))
  {
    match reply
    case Failed => Some(FallbackQuestion(topic))
    case Generated(t) => ParseGeneratedQuestion(t)
  }

  /** The number of iterations that contribute a question. */
  function KeptCount(topic: string, replies: seq<Reply>): (n: nat)
    ensures n <= |replies|
  {
    if |replies| == 0 then 0
    else KeptCount(topic, replies[..|replies| - 1]) + (if Produced(topic, replies[|replies| - 1]).Some? then 1 else 0)
  }

  /** The questions the loop collects, one reply per iteration. */
  function Collect(topic: string, replies: seq<Reply>): (r: seq<Mcq>)
    ensures |r| == KeptCount(topic, replies)
    ensures forall i :: 0 <= i < |r| ==> WellFormed(r[i])
  {
    if |replies| == 0 then []
    else
      var init := Collect(topic, replies[..|replies| - 1]);
      match Produced(topic, replies[|replies| - 1])
      case Some(q) => init + [q]
      case None => init
  }

  /** `generateMCQQuestions(topic, difficulty, count)` with one reply per
      iteration, so `count` is the number of replies: the collected
      questions, or the default set when none was collected. */
  function GenerateMCQ(topic: string, replies: seq<Reply>): (r: seq<Mcq>)
    ensures |replies| > 0 ==> 1 <= |r| <= |replies|
    ensures |replies| == 0 ==> r == []
    ensures forall i :: 0 <= i < |r| ==> WellFormed(r[i])
  {
    var collected := Collect(topic, replies);
    if |collected| > 0 then collected else DefaultQuestions(topic, |replies|)
  }

  /** The loop over a prefix of the replies collects a prefix of the questions. */
  lemma {:induction false} CollectPrefix(topic: string, replies: seq<Reply>, m: nat)
    requires m <= |replies|
    ensures |Collect(topic, replies[..m])| <= |Collect(topic, replies)|
    ensures forall i :: 0 <= i < |Collect(topic, replies[..m])| ==>
              Collect(topic, replies[..m])[i] == Collect(topic, replies)[i]
    decreases |replies|
  {
    if m < |replies| {
      var init := replies[..|replies| - 1];
      assert init[..m] == replies[..m];
      CollectPrefix(topic, init, m);
    } else {
      assert replies[..m] == replies;
    }
  }

  /** Each contributing reply's question sits at the position given by the
      number of contributing replies before it. */
  lemma CollectAt(topic: string, replies: seq<Reply>, i: nat)
    requires i < |replies| && Produced(topic, replies[i]).Some?
    ensures KeptCount(topic, replies[..i]) < |Collect(topic, replies)|
    ensures Collect(topic, replies)[KeptCount(topic, replies[..i])] == Produced(topic, replies[i]).value
  {
    var upto := replies[..i + 1];
    assert upto[..i] == replies[..i];
    assert upto[i] == replies[i];
    CollectPrefix(topic, replies, i + 1);
  }

  /** When some reply contributes, the result lists exactly the contributed
      questions, each at its place in reply order. */
  lemma GenerateKept(topic: string, replies: seq<Reply>, i: nat)
    requires KeptCount(topic, replies) > 0
    requires i < |replies| && Produced(topic, replies[i]).Some?
    ensures |GenerateMCQ(topic, replies)| == KeptCount(topic, replies)
    ensures KeptCount(topic, replies[..i]) < |GenerateMCQ(topic, replies)|
    ensures GenerateMCQ(topic, replies)[KeptCount(topic, replies[..i])] == Produced(topic, replies[i]).value
  {
    CollectAt(topic, replies, i);
  }

  /** When no reply contributes, the default set of `count` questions is returned. */
  lemma GenerateNoneKept(topic: string, replies: seq<Reply>)
    requires KeptCount(topic, replies) == 0
    ensures GenerateMCQ(topic, replies) == DefaultQuestions(topic, |replies|)
  {
  }

  /** When every call throws, every question is the topic's fallback question. */
  lemma {:induction false} GenerateAllFailed(topic: string, replies: seq<Reply>)
    requires forall i :: 0 <= i < |replies| ==> replies[i].Failed?
    ensures |GenerateMCQ(topic, replies)| == |replies|
    ensures forall i :: 0 <= i < |replies| ==> GenerateMCQ(topic, replies)[i] == FallbackQuestion(topic)
  {
    AllFailedKept(topic, replies);
    if |replies| > 0 {
      forall i | 0 <= i < |replies|
        ensures GenerateMCQ(topic, replies)[i] == FallbackQuestion(topic)
      {
        AllFailedKept(topic, replies[..i]);
        CollectAt(topic, replies, i);
      }
    }
  }

  /** Every failed call contributes. */
  lemma {:induction false} AllFailedKept(topic: string, replies: seq<Reply>)
    requires forall i :: 0 <= i < |replies| ==> replies[i].Failed?
    ensures KeptCount(topic, replies) == |replies|
  {
    if |replies| > 0 {
      AllFailedKept(topic, replies[..|replies| - 1]);
    }
  }
}
