/** The client-side heuristic grader: token overlap between the reference
    and the student answer, blended with the share of the reference's key
    terms the answer mentions, adjusted for length, clamped to a percentage,
    and explained by feedback in five bands. */
module AiGrader {
  import opened Text
  import Splitter
  import Overlap
  import KeyTerms

  datatype GradingResult = GradingResult(score: int, feedback: string, confidence: real)

  /** What `analyzeAnswer` returns (its feedback field is always empty and is
      not modelled). */
  datatype Analysis = Analysis(score: int, found: seq<string>, missing: seq<string>)

  const NoAnswerFeedback: string := "No answer provided. Please provide a response to the question."

  /** The result the catch-all handler returns; every step of the model is
      total, so no input reaches it. */
  const ErrorResult: GradingResult :=
    GradingResult(0, "Error occurred during grading. Please review this answer manually.", 0.1)

  const DetailNote: string := " Try to provide more detail in your explanation."
  const SentenceNote: string := " Consider writing in complete sentences."

  // ---------------------------------------------------------------------------
  // Similarity
  // ---------------------------------------------------------------------------

  /** `words.filter(word => word.length > 2)`: the long words, each as
      often as it occurs, in order (see `LongWordsAppend`). */
  function LongWords(ws: seq<string>): (r: seq<string>)
    ensures |r| <= |ws|
    ensures forall w :: w in r <==> w in ws && |w| > 2
    ensures forall w :: multiset(r)[w] == if |w| > 2 then multiset(ws)[w] else 0
  {
    if |ws| == 0 then []
    else
      assert ws == [ws[0]] + ws[1..];
      (if |ws[0]| > 2 then [ws[0]] else []) + LongWords(ws[1..])
  }

  /** The filter works piece by piece, so it keeps the words' order. */
  lemma {:induction false} LongWordsAppend(a: seq<string>, b: seq<string>)
    ensures LongWords(a + b) == LongWords(a) + LongWords(b)
  {
    if |a| > 0 {
      var head := if |a[0]| > 2 then [a[0]] else [];
      ConsSplit(a, b);
      LongWordsCons(a[0], a[1..] + b);
      LongWordsCons(a[0], a[1..]);
      LongWordsAppend(a[1..], b);
      SeqAssoc(head, LongWords(a[1..]), LongWords(b));
    } else {
      assert a + b == b;
    }
  }

  lemma LongWordsCons(w: string, rest: seq<string>)
    ensures LongWords([w] + rest) == (if |w| > 2 then [w] else []) + LongWords(rest)
  {
    assert ([w] + rest)[0] == w && ([w] + rest)[1..] == rest;
  }

  /** The pieces of `text.toLowerCase().split(/\s+/)`. */
  function Pieces(text: string): seq<string> {
    Splitter.Split(Splitter.SpaceRun, ToLower(text))
  }

  /** `text.toLowerCase().split(/\s+/).filter(word => word.length > 2)`: the
      pieces of the lower-cased text longer than two characters, with their
      multiplicities. */
  function Tokens(text: string): (r: seq<string>)
    ensures forall w :: w in r ==> |w| > 2
    ensures forall w :: w in r <==> w in Pieces(text) && |w| > 2
    ensures forall w :: multiset(r)[w] == if |w| > 2 then multiset(Pieces(text))[w] else 0
  {
    LongWords(Pieces(text))
  }

  /** A token holds no white space. */
  lemma TokenHasNoSpace(text: string, k: nat, i: nat)
    requires k < |Tokens(text)| && i < |Tokens(text)[k]|
    ensures !IsSpace(Tokens(text)[k][i])
  {
    var w := Tokens(text)[k];
    assert w in Tokens(text);
    var m :| 0 <= m < |Pieces(text)| && Pieces(text)[m] == w;
    Splitter.SpaceRunPiecesNoSpace(ToLower(text), m, i);
  }

  /** `calculateSimilarity(correct, student)`, a percentage that is not
      bounded by 100 when the reference repeats words. */
  function Similarity(correct: string, student: string): (r: real)
    ensures r >= 0.0
    ensures r == 0.0 <==> forall w :: w in Tokens(correct) ==> w !in Tokens(student)
    ensures Overlap.UnionSize(Tokens(correct), Tokens(student)) > 0 ==>
              r == (|Overlap.Common(Tokens(correct), Tokens(student))| as real
                    / Overlap.UnionSize(Tokens(correct), Tokens(student)) as real) * 100.0
    ensures Overlap.UnionSize(Tokens(correct), Tokens(student)) == 0 ==> r == 0.0
  {
    Overlap.RatioZeroIffDisjoint(Tokens(correct), Tokens(student));
    100.0 * Overlap.Ratio(Tokens(correct), Tokens(student))
  }

  // ---------------------------------------------------------------------------
  // Analysis
  // ---------------------------------------------------------------------------

  /** The terms that occur in `text` (`present`) or that do not, each as
      often as it is listed, in order (see `TermsWhereAppend`). */
  function TermsWhere(terms: seq<string>, text: string, present: bool): (r: seq<string>)
    ensures |r| <= |terms|
    ensures forall t :: t in r <==> t in terms && Contains(text, t) == present
  {
    if |terms| == 0 then []
    else
      assert terms == [terms[0]] + terms[1..];
      (if Contains(text, terms[0]) == present then [terms[0]] else []) + TermsWhere(terms[1..], text, present)
  }

  /** Each term is kept as often as it is listed, or not at all. */
  lemma {:induction false} TermsWhereCount(terms: seq<string>, text: string, present: bool, t: string)
    ensures multiset(TermsWhere(terms, text, present))[t] ==
            if Contains(text, t) == present then multiset(terms)[t] else 0
  {
    if |terms| > 0 {
      assert terms == [terms[0]] + terms[1..];
      TermsWhereCount(terms[1..], text, present, t);
    }
  }

  /** The filter works term by term, so it keeps the terms' order. */
  lemma {:induction false} TermsWhereAppend(a: seq<string>, b: seq<string>, text: string, present: bool)
    ensures TermsWhere(a + b, text, present) == TermsWhere(a, text, present) + TermsWhere(b, text, present)
  {
    if |a| > 0 {
      var head := if Contains(text, a[0]) == present then [a[0]] else [];
      ConsSplit(a, b);
      TermsWhereCons(a[0], a[1..] + b, text, present);
      TermsWhereCons(a[0], a[1..], text, present);
      TermsWhereAppend(a[1..], b, text, present);
      SeqAssoc(head, TermsWhere(a[1..], text, present), TermsWhere(b, text, present));
    } else {
      assert a + b == b;
    }
  }

  lemma TermsWhereCons(t: string, rest: seq<string>, text: string, present: bool)
    ensures TermsWhere([t] + rest, text, present) ==
            (if Contains(text, t) == present then [t] else []) + TermsWhere(rest, text, present)
  {
    assert ([t] + rest)[0] == t && ([t] + rest)[1..] == rest;
  }

  /** From a list without repeats the filter keeps the terms without
      repeats, in the list's order. */
  lemma {:induction false} TermsWhereInOrder(terms: seq<string>, text: string, present: bool)
    requires NoDups(terms)
    ensures var r := TermsWhere(terms, text, present);
            && NoDups(r)
            && forall i, j :: 0 <= i < j < |r| ==> FirstIndex(terms, r[i]) < FirstIndex(terms, r[j])
  {
    if |terms| > 0 {
      var rest := terms[1..];
      assert NoDups(rest);
      TermsWhereInOrder(rest, text, present);
      var keep := Contains(text, terms[0]) == present;
      assert terms == [terms[0]] + rest;
      assert TermsWhere(terms, text, present) == (if keep then [terms[0]] else []) + TermsWhere(rest, text, present);
      ConsInOrder(terms, TermsWhere(rest, text, present), keep);
    }
  }

  /** Putting the head of a list without repeats (or nothing) before an
      ordered selection from its tail gives an ordered selection from the list. */
  lemma ConsInOrder(terms: seq<string>, tail: seq<string>, keep: bool)
    requires |terms| > 0 && NoDups(terms)
    requires NoDups(tail) && forall t :: t in tail ==> t in terms[1..]
    requires forall i, j :: 0 <= i < j < |tail| ==> FirstIndex(terms[1..], tail[i]) < FirstIndex(terms[1..], tail[j])
    ensures var r := (if keep then [terms[0]] else []) + tail;
            && NoDups(r)
            && (forall t :: t in r ==> t in terms)
            && forall i, j :: 0 <= i < j < |r| ==> FirstIndex(terms, r[i]) < FirstIndex(terms, r[j])
  {
    ShiftOrder(terms, tail);
    if keep {
      HeadFirst(terms, tail);
    } else {
      assert [] + tail == tail;
    }
  }

  /** The head of a list without repeats, put before an ordered selection
      from the rest, comes first. */
  lemma HeadFirst(terms: seq<string>, tail: seq<string>)
    requires |terms| > 0 && NoDups(terms) && NoDups(tail)
    requires FirstIndex(terms, terms[0]) == 0
    requires forall t :: t in tail ==> t in terms && FirstIndex(terms, t) > 0
    requires forall i, j :: 0 <= i < j < |tail| ==> FirstIndex(terms, tail[i]) < FirstIndex(terms, tail[j])
    ensures var r := [terms[0]] + tail;
            && NoDups(r)
            && (forall t :: t in r ==> t in terms)
            && forall i, j :: 0 <= i < j < |r| ==> FirstIndex(terms, r[i]) < FirstIndex(terms, r[j])
  {
    var r := [terms[0]] + tail;
    assert forall k :: 0 < k < |r| ==> r[k] == tail[k - 1] && r[k] in tail;
  }

  /** An ordered selection from the tail of a list without repeats is an
      ordered selection from the whole list, after its head. */
  lemma ShiftOrder(terms: seq<string>, tail: seq<string>)
    requires |terms| > 0 && NoDups(terms)
    requires forall t :: t in tail ==> t in terms[1..]
    requires forall i, j :: 0 <= i < j < |tail| ==> FirstIndex(terms[1..], tail[i]) < FirstIndex(terms[1..], tail[j])
    ensures FirstIndex(terms, terms[0]) == 0
    ensures forall t :: t in tail ==> t in terms && FirstIndex(terms, t) > 0
    ensures forall i, j :: 0 <= i < j < |tail| ==> FirstIndex(terms, tail[i]) < FirstIndex(terms, tail[j])
  {
    FirstIndexOfTail(terms);
    assert terms == [terms[0]] + terms[1..];
  }

  /** Past the head of a list without repeats, first occurrences shift by one. */
  lemma FirstIndexOfTail(terms: seq<string>)
    requires |terms| > 0 && NoDups(terms)
    ensures FirstIndex(terms, terms[0]) == 0
    ensures forall t :: t in terms[1..] ==> FirstIndex(terms, t) == 1 + FirstIndex(terms[1..], t)
  {
    forall t | t in terms[1..]
      ensures FirstIndex(terms, t) == 1 + FirstIndex(terms[1..], t)
    {
      var k := FirstIndex(terms[1..], t);
      assert terms[k + 1] == t;
      FirstIndexAt(terms, t, k + 1);
    }
  }

  /** Found and missing terms split the key terms: every term lands in
      exactly one of them, and their sizes add up. */
  lemma {:induction false} TermsPartition(terms: seq<string>, text: string)
    ensures |TermsWhere(terms, text, true)| + |TermsWhere(terms, text, false)| == |terms|
  {
    if |terms| > 0 {
      TermsPartition(terms[1..], text);
    }
  }

  /** The share of key terms found, as a percentage, or the similarity when
      there are no key terms. */
  function KeyTermScore(sim: real, found: nat, total: nat): (r: real)
    requires found <= total
    ensures total > 0 ==> 0.0 <= r <= 100.0
    ensures total > 0 && found == total ==> r == 100.0
    ensures total > 0 ==> r * total as real == 100.0 * found as real
    ensures total == 0 ==> r == sim
  {
    if total > 0 then found as real / total as real * 100.0 else sim
  }

  /** `score *= 0.8` when the answer is under 0.3 times the reference's
      length and `score *= 0.9` when over 3 times, with the ratios compared
      exactly on integers. */
  function LengthAdjusted(score: real, studentLen: nat, correctLen: nat): (r: real)
    ensures 10 * studentLen < 3 * correctLen ==> r == score * 0.8
    ensures studentLen > 3 * correctLen ==> r == score * 0.9
    ensures 3 * correctLen <= 10 * studentLen && studentLen <= 3 * correctLen ==> r == score
  {
    var a := if 10 * studentLen < 3 * correctLen then score * 0.8 else score;
    if studentLen > 3 * correctLen then a * 0.9 else a
  }

  /** The key terms of the reference that the answer mentions. */
  function Found(correct: string, student: string): seq<string> {
    TermsWhere(KeyTerms.FindKeyTerms(correct), ToLower(student), true)
  }

  /** The key terms of the reference that the answer does not mention. */
  function Missing(correct: string, student: string): seq<string> {
    TermsWhere(KeyTerms.FindKeyTerms(correct), ToLower(student), false)
  }

  /** The average of similarity and key-term score, rounded. */
  function Blended(correct: string, student: string): int {
    var sim := Similarity(correct, student);
    TermsWhereSize(KeyTerms.FindKeyTerms(correct), ToLower(student));
    Round((sim + KeyTermScore(sim, |Found(correct, student)|, |KeyTerms.FindKeyTerms(correct)|)) / 2.0)
  }

  /** No similarity and no key term found blend to 0. */
  lemma BlendedZero(correct: string, student: string)
    requires Similarity(correct, student) == 0.0 && Found(correct, student) == []
    ensures Blended(correct, student) == 0
  {
    BlendOfNothing(Similarity(correct, student), |Found(correct, student)|, |KeyTerms.FindKeyTerms(correct)|);
  }

  lemma SimilarityZero(correct: string, student: string)
    requires forall w :: w in Tokens(correct) ==> w !in Tokens(student)
    ensures Similarity(correct, student) == 0.0
  {
  }

  /** No similarity and no key term found blend to 0. */
  lemma BlendOfNothing(sim: real, found: nat, total: nat)
    requires sim == 0.0 && found == 0
    ensures Round((sim + KeyTermScore(sim, found, total)) / 2.0) == 0
  {
    KeyTermScoreNoneFound(sim, total);
    assert Round(0.0) == 0;
  }

  /** When no term occurs in the text, none is found. */
  lemma NoneSelected(terms: seq<string>, text: string)
    requires forall t :: t in terms ==> !Contains(text, t)
    ensures TermsWhere(terms, text, true) == []
  {
  }

  /** With no key term found the key-term score is 0, or the similarity
      when there are no key terms. */
  lemma KeyTermScoreNoneFound(sim: real, total: nat)
    ensures KeyTermScore(sim, 0, total) == if total > 0 then 0.0 else sim
  {
    if total > 0 {
      assert 0 as real / total as real == 0.0;
    }
  }

  /** The other end of the scale from `IdenticalAnswerFullMarks`: such an
      answer scores 0, whatever its length. */
  lemma NothingSharedScoresZero(correct: string, student: string)
    requires forall w :: w in Tokens(correct) ==> w !in Tokens(student)
    requires forall t :: t in KeyTerms.FindKeyTerms(correct) ==> !Contains(ToLower(student), t)
    ensures Analyze(correct, student).score == 0
  {
    SimilarityZero(correct, student);
    NoneSelected(KeyTerms.FindKeyTerms(correct), ToLower(student));
    BlendedZero(correct, student);
    assert LengthAdjusted(0.0, |student|, |correct|) == 0.0;
    assert Round(0.0) == 0;
  }

  lemma TermsWhereSize(terms: seq<string>, text: string)
    ensures |TermsWhere(terms, text, true)| <= |terms|
  {
  }

  /** `analyzeAnswer(correct, student)`: found and missing terms are the
      key terms the answer contains and does not, each list without repeats
      and in key-term order. */
  function Analyze(correct: string, student: string): (a: Analysis)
    ensures 0 <= a.score <= 100
    ensures |a.found| + |a.missing| == |KeyTerms.FindKeyTerms(correct)|
    ensures forall t :: t in a.found <==> t in KeyTerms.FindKeyTerms(correct) && Contains(ToLower(student), t)
    ensures forall t :: t in a.missing <==> t in KeyTerms.FindKeyTerms(correct) && !Contains(ToLower(student), t)
    ensures NoDups(a.found) && NoDups(a.missing)
    ensures forall i, j :: 0 <= i < j < |a.found| ==>
              FirstIndex(KeyTerms.FindKeyTerms(correct), a.found[i]) < FirstIndex(KeyTerms.FindKeyTerms(correct), a.found[j])
    ensures forall i, j :: 0 <= i < j < |a.missing| ==>
              FirstIndex(KeyTerms.FindKeyTerms(correct), a.missing[i]) < FirstIndex(KeyTerms.FindKeyTerms(correct), a.missing[j])
  {
    TermsPartition(KeyTerms.FindKeyTerms(correct), ToLower(student));
    TermsWhereInOrder(KeyTerms.FindKeyTerms(correct), ToLower(student), true);
    TermsWhereInOrder(KeyTerms.FindKeyTerms(correct), ToLower(student), false);
    var adjusted := LengthAdjusted(Blended(correct, student) as real, |student|, |correct|);
    Analysis(ClampPercent(Round(adjusted)), Found(correct, student), Missing(correct, student))
  }

  // ---------------------------------------------------------------------------
  // Feedback
  // ---------------------------------------------------------------------------

  /** The opening words of the feedback for a score. */
  function Headline(score: int): string {
    if score >= 90 then "Excellent answer!"
    else if score >= 75 then "Good answer!"
    else if score >= 60 then "Partially correct."
    else if score >= 40 then "Needs improvement."
    else "Incorrect or incomplete answer."
  }

  function List(terms: seq<string>): string {
    Join(terms, ", ")
  }

  /** The band's text before the general suggestions: the headline, a
      space, and what the band says about the found and missing terms. */
  function BandText(score: int, found: seq<string>, missing: seq<string>): string {
    Headline(score) + " " + BandDetail(score, found, missing)
  }

  function BandDetail(score: int, found: seq<string>, missing: seq<string>): string {
    if score >= 90 then
      if |found| > 0 then "You correctly included key terms: " + List(found) + "."
      else "Your response demonstrates a strong understanding of the concept."
    else if score >= 75 then
      (if |found| > 0 then "You included important terms: " + List(found) + ". " else "")
      + (if |missing| > 0 then "Consider mentioning: " + List(missing) + "." else "")
    else if score >= 60 then
      (if |found| > 0 then "You got some key points: " + List(found) + ". " else "")
      + (if |missing| > 0 then "Missing important elements: " + List(missing) + "." else "")
    else if score >= 40 then
      (if |found| > 0 then "You mentioned: " + List(found) + ", which is correct. " else "")
      + (if |missing| > 0 then "Key missing concepts: " + List(missing) + "." else "")
      + " Review the material and try to be more specific."
    else
      (if |missing| > 0 then "The answer should include: " + List(missing) + ". " else "")
      + "Please review the topic and provide a more detailed response."
  }

  /** Every headline starts and ends with a visible character. */
  lemma HeadlineShape(score: int)
    ensures var h := Headline(score); |h| > 0 && !IsSpace(h[0]) && !IsSpace(h[|h| - 1])
  {
  }

  /** No `.`, `!` or `?` in the answer. */
  predicate NoSentenceMark(student: string) {
    '.' !in student && '!' !in student && '?' !in student
  }

  /** `generateSpecificFeedback(...)`. */
  function Feedback(student: string, score: int, found: seq<string>, missing: seq<string>): (r: string)
    ensures IsTrimmed(r) && r != ""
    ensures Headline(score) <= r
    ensures NoSentenceMark(student) ==> EndsWith(r, SentenceNote)
    ensures !NoSentenceMark(student) && |student| < 10 ==> EndsWith(r, DetailNote)
  {
    var head := Headline(score);
    var body := BandText(score, found, missing);
    HeadlineShape(score);
    assert head <= body;
    var detail := if |student| < 10 then DetailNote else "";
    var sentence := if NoSentenceMark(student) then SentenceNote else "";
    var full := body + detail + sentence;
    FeedbackTrim(head, body, detail, sentence);
    Trim(full)
  }

  /** Trimming keeps the headline, and a note at the end, which ends in a
      full stop, is not trimmed away. */
  lemma FeedbackTrim(head: string, body: string, detail: string, sentence: string)
    requires head <= body && |head| > 0 && !IsSpace(head[0]) && !IsSpace(head[|head| - 1])
    requires detail == "" || detail == DetailNote
    requires sentence == "" || sentence == SentenceNote
    ensures var r := Trim(body + detail + sentence);
            && IsTrimmed(r) && r != "" && head <= r
            && (sentence == SentenceNote ==> EndsWith(r, SentenceNote))
            && (sentence == "" && detail == DetailNote ==> EndsWith(r, DetailNote))
  {
    var full := body + detail + sentence;
    assert full == head + full[|head|..];
    TrimKeepsHead(head, full[|head|..]);
    if sentence == SentenceNote || detail == DetailNote {
      assert full[|full| - 1] == '.';
      assert full[0] == head[0];
      TrimFixedPoint(full);
      if sentence == SentenceNote {
        assert full[|full| - |SentenceNote|..] == SentenceNote;
      } else {
        assert full == body + DetailNote;
        assert full[|full| - |DetailNote|..] == DetailNote;
      }
    }
  }

  predicate EndsWith(s: string, suffix: string) {
    |suffix| <= |s| && s[|s| - |suffix|..] == suffix
  }

  // ---------------------------------------------------------------------------
  // Grading
  // ---------------------------------------------------------------------------

  /** `gradeAnswer(question, correct, student)`. The question text does not
      influence the result. */
  function Grade(question: string, correct: string, student: string): (g: GradingResult)
    ensures 0 <= g.score <= 100
    ensures g.feedback != ""
    ensures |Trim(student)| < 2 <==> g == GradingResult(0, NoAnswerFeedback, 1.0)
    ensures |Trim(student)| >= 2 ==> g.confidence == 0.85 && g.score == Analyze(correct, student).score
    ensures |Trim(student)| >= 2 ==>
              g.feedback == Feedback(student, g.score, Analyze(correct, student).found, Analyze(correct, student).missing)
  {
    if |Trim(student)| < 2 then GradingResult(0, NoAnswerFeedback, 1.0)
    else
      var a := Analyze(correct, student);
      GradingResult(a.score, Feedback(student, a.score, a.found, a.missing), 0.85)
  }

  /** The parser's placeholder for a missing answer is long enough to be
      graded like any answer. */
  lemma PlaceholderIsGraded(question: string, correct: string)
    ensures Grade(question, correct, "No answer provided").confidence == 0.85
  {
    var s := "No answer provided";
    TrimLengthAtLeast(s, 0, 1);
  }

  /** A text with a token has at least two non-space characters. */
  lemma TokenInText(text: string)
    requires |Tokens(text)| > 0
    ensures |Trim(text)| >= 2
  {
    LoweredPair(text);
    var p :| 0 <= p && p + 1 < |text| && !IsSpace(ToLower(text)[p]) && !IsSpace(ToLower(text)[p + 1]);
    LowerKeepsSpace(text[p]);
    LowerKeepsSpace(text[p + 1]);
    TrimLengthAtLeast(text, p, p + 1);
  }

  lemma LoweredPair(text: string)
    requires |Tokens(text)| > 0
    ensures exists p :: 0 <= p && p + 1 < |text| && !IsSpace(ToLower(text)[p]) && !IsSpace(ToLower(text)[p + 1])
  {
    var lowered := ToLower(text);
    var pieces := Splitter.Split(Splitter.SpaceRun, lowered);
    var w := Tokens(text)[0];
    assert w in pieces;
    var k :| 0 <= k < |pieces| && pieces[k] == w;
    Splitter.SpaceRunPieceAt(lowered, k);
  }

  /** Lower-casing a character does not change whether it is white space. */
  lemma LowerKeepsSpace(c: char)
    ensures IsSpace(LowerChar(c)) == IsSpace(c)
  {
  }

  /** Compared with itself, a text with a token has similarity at least 100. */
  lemma SelfSimilarity(text: string)
    requires |Tokens(text)| > 0
    ensures Similarity(text, text) >= 100.0
  {
    Overlap.RatioSelfAtLeastOne(Tokens(text));
  }

  /** When every term occurs, none is missing. */
  lemma {:induction false} NoneMissing(terms: seq<string>, text: string)
    requires forall t :: t in terms ==> Contains(text, t)
    ensures TermsWhere(terms, text, false) == []
  {
    if |terms| > 0 {
      assert terms[0] in terms;
      assert forall t :: t in terms[1..] ==> t in terms;
      NoneMissing(terms[1..], text);
    }
  }

  /** Every key term of a text occurs in the text. */
  lemma AllKeyTermsFound(text: string)
    ensures |Found(text, text)| == |KeyTerms.FindKeyTerms(text)|
  {
    var keyTerms := KeyTerms.FindKeyTerms(text);
    KeyTerms.KeyTermsInText(text);
    NoneMissing(keyTerms, ToLower(text));
    TermsPartition(keyTerms, ToLower(text));
  }

  /** An answer identical to the reference, when the reference has a token
      longer than two characters, gets full marks. */
  lemma IdenticalAnswerFullMarks(question: string, correct: string)
    requires |Tokens(correct)| > 0
    ensures Grade(question, correct, correct).score == 100
    ensures Grade(question, correct, correct).confidence == 0.85
  {
    TokenInText(correct);
    IdenticalBlended(correct);
    var blended := Blended(correct, correct);
    assert LengthAdjusted(blended as real, |correct|, |correct|) == blended as real;
  }

  lemma IdenticalBlended(correct: string)
    requires |Tokens(correct)| > 0
    ensures Blended(correct, correct) >= 100
  {
    SelfSimilarity(correct);
    AllKeyTermsFound(correct);
    var sim := Similarity(correct, correct);
    var kts := KeyTermScore(sim, |Found(correct, correct)|, |KeyTerms.FindKeyTerms(correct)|);
    assert kts >= 100.0;
    RoundMonotone(100.0, (sim + kts) / 2.0);
  }

  /** The catch-all result scores nothing with low confidence. */
  lemma ErrorResultValues()
    ensures ErrorResult.score == 0 && ErrorResult.confidence == 0.1
  {
  }
}
