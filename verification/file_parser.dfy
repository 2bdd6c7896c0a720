/** The free-text answer-sheet parser: normalises line endings, cuts the
    text into sections with the first separator that yields more than one
    non-blank section, reads a question, a reference answer and a student
    answer out of each section's lines, and emits one record per section
    that has both a question and a reference answer. */
module FileParser {
  import opened Wrappers
  import opened Text
  import Splitter

  // ---------------------------------------------------------------------------
  // Data
  // ---------------------------------------------------------------------------

  /** A parsed question, before grading. */
  datatype Record = Record(id: string, question: string, correctAnswer: string, studentAnswer: string)

  datatype ParseError =
    | EmptyFile                             // the content is blank
    | NoQuestionsFound(preview: seq<string>) // no section yielded a record

  /** The student answer recorded when a section has none. */
  const NoAnswer: string := "No answer provided"

  /** The number of leading lines an error preview shows. */
  const PreviewLines: nat := 10

  // ---------------------------------------------------------------------------
  // Line endings
  // ---------------------------------------------------------------------------

  /** `s.replace(/\r\n/g, '\n')`. */
  function ReplaceCrLf(s: string): (r: string)
    ensures |r| <= |s|
    decreases |s|
  {
    if |s| == 0 then ""
    else if |s| >= 2 && s[0] == '\r' && s[1] == '\n' then "\n" + ReplaceCrLf(s[2..])
    else [s[0]] + ReplaceCrLf(s[1..])
  }

  /** `s.replace(/\r/g, '\n')`. */
  function ReplaceCr(s: string): (r: string)
    ensures |r| == |s|
    ensures '\r' !in r
    ensures forall i :: 0 <= i < |s| && s[i] != '\r' ==> r[i] == s[i]
  {
    seq(|s|, i requires 0 <= i < |s| => if s[i] == '\r' then '\n' else s[i])
  }

  /** Carriage-return line feeds and lone carriage returns become line feeds. */
  function NormalizeNewlines(s: string): (r: string)
    ensures '\r' !in r
    ensures |r| <= |s|
  {
    ReplaceCr(ReplaceCrLf(s))
  }

  /** A text without carriage returns is left exactly as it is. */
  lemma {:induction false} ReplaceCrLfWithoutCr(s: string)
    requires '\r' !in s
    ensures ReplaceCrLf(s) == s
  {
    if |s| > 0 {
      assert '\r' !in s[1..];
      ReplaceCrLfWithoutCr(s[1..]);
      assert s == [s[0]] + s[1..];
    }
  }

  lemma NormalizeWithoutCr(s: string)
    requires '\r' !in s
    ensures NormalizeNewlines(s) == s
  {
    ReplaceCrLfWithoutCr(s);
  }

  /** Normalising twice is normalising once. */
  lemma NormalizeIdempotent(s: string)
    ensures NormalizeNewlines(NormalizeNewlines(s)) == NormalizeNewlines(s)
  {
    NormalizeWithoutCr(NormalizeNewlines(s));
  }

  /** Each line break, whatever its style, becomes exactly one line feed. */
  lemma NormalizeExample()
    ensures NormalizeNewlines("a\r\nb\rc\n") == "a\nb\nc\n"
  {
    assert ReplaceCrLf("a\r\nb\rc\n") == "a\nb\rc\n" by {
      assert "a\r\nb\rc\n"[1..][2..] == "b\rc\n";
      assert ReplaceCrLf("\n") == "\n" by { assert "\n"[1..] == ""; }
      assert ReplaceCrLf("c\n") == "c\n" by { assert "c\n"[1..] == "\n"; }
      assert ReplaceCrLf("\rc\n") == "\rc\n" by { assert "\rc\n"[1..] == "c\n"; }
      assert ReplaceCrLf("b\rc\n") == "b\rc\n" by { assert "b\rc\n"[1..] == "\rc\n"; }
    }
  }

  // ---------------------------------------------------------------------------
  // Sections
  // ---------------------------------------------------------------------------

  /** `parts.filter(section => section.trim())`: the pieces that are not
      blank, in order. */
  function NonBlank(parts: seq<string>): (r: seq<string>)
    ensures |r| <= |parts|
    ensures forall x :: x in r <==> x in parts && Trim(x) != ""
  {
    if |parts| == 0 then []
    else
      assert parts == [parts[0]] + parts[1..];
      (if Trim(parts[0]) != "" then [parts[0]] else []) + NonBlank(parts[1..])
  }

  /** Each non-blank piece is kept as often as it occurs. */
  lemma {:induction false} NonBlankCount(parts: seq<string>, x: string)
    ensures multiset(NonBlank(parts))[x] == if Trim(x) != "" then multiset(parts)[x] else 0
  {
    if |parts| > 0 {
      assert parts == [parts[0]] + parts[1..];
      NonBlankCount(parts[1..], x);
    }
  }

  lemma NonBlankCons(x: string, rest: seq<string>)
    ensures NonBlank([x] + rest) == (if Trim(x) != "" then [x] else []) + NonBlank(rest)
  {
    assert ([x] + rest)[0] == x && ([x] + rest)[1..] == rest;
  }

  /** The filter works piece by piece, so sections keep their order. */
  lemma {:induction false} NonBlankAppend(a: seq<string>, b: seq<string>)
    ensures NonBlank(a + b) == NonBlank(a) + NonBlank(b)
  {
    if |a| > 0 {
      var head := if Trim(a[0]) != "" then [a[0]] else [];
      ConsSplit(a, b);
      NonBlankCons(a[0], a[1..] + b);
      NonBlankCons(a[0], a[1..]);
      NonBlankAppend(a[1..], b);
      SeqAssoc(head, NonBlank(a[1..]), NonBlank(b));
    } else {
      assert a + b == b;
    }
  }

  /** The separators, in the order the parser tries them. */
  const Strategies: seq<Splitter.Separator> :=
    [Splitter.TripleDash, Splitter.BlankLines, Splitter.DashRun, Splitter.Enumeration]

  /** The non-blank sections a separator cuts the text into. */
  function SectionsBy(sep: Splitter.Separator, text: string): seq<string> {
    NonBlank(Splitter.Split(sep, text))
  }

  /** The non-blank sections each separator gives, in the order tried. */
  function Candidates(text: string): (r: seq<seq<string>>)
    ensures |r| == |Strategies|
    ensures forall i :: 0 <= i < |r| ==> r[i] == SectionsBy(Strategies[i], text)
  {
    seq(|Strategies|, i requires 0 <= i < |Strategies| => SectionsBy(Strategies[i], text))
  }

  /** Tries the candidates from `k` on, keeping the first with more than one
      section; the last candidate is kept regardless. */
  function ChooseFrom(cands: seq<seq<string>>, k: nat): (r: seq<string>)
    requires k < |cands|
    ensures r in cands[k..]
    decreases |cands| - k
  {
    if |cands[k]| > 1 || k == |cands| - 1 then cands[k] else ChooseFrom(cands, k + 1)
  }

  /** Candidate `j` is the one chosen when trying from `k`: every earlier one
      has at most one section, and `j` has more than one or is the last. */
  ghost predicate FirstSufficient(cands: seq<seq<string>>, k: nat, j: nat)
    requires k <= j < |cands|
  {
    && (forall i :: k <= i < j ==> |cands[i]| <= 1)
    && (|cands[j]| > 1 || j == |cands| - 1)
  }

  /** The candidate chosen is the first with more than one section, or the
      last one. */
  lemma {:induction false} ChooseFromFirst(cands: seq<seq<string>>, k: nat)
    requires k < |cands|
    ensures exists j :: k <= j < |cands| && FirstSufficient(cands, k, j) && ChooseFrom(cands, k) == cands[j]
    decreases |cands| - k
  {
    if |cands[k]| > 1 || k == |cands| - 1 {
      assert FirstSufficient(cands, k, k);
    } else {
      ChooseFromFirst(cands, k + 1);
      var j :| k + 1 <= j < |cands| && FirstSufficient(cands, k + 1, j) && ChooseFrom(cands, k + 1) == cands[j];
      assert FirstSufficient(cands, k, j);
    }
  }

  /** The sections of a normalised text: no section is blank. */
  function Sections(text: string): (r: seq<string>)
    ensures forall x :: x in r ==> Trim(x) != ""
  {
    var cands := Candidates(text);
    var r := ChooseFrom(cands, 0);
    assert exists i :: 0 <= i < |cands| && r == cands[i];
    r
  }

  /** The sections come from the first separator giving more than one, or
      from the last separator. */
  lemma SectionsChoice(text: string)
    ensures exists j :: 0 <= j < |Strategies| && FirstSufficient(Candidates(text), 0, j) && Sections(text) == SectionsBy(Strategies[j], text)
  {
    ChooseFromFirst(Candidates(text), 0);
  }

  /** When "---" already gives two or more sections, those are the sections. */
  lemma SectionsPreferTripleDash(text: string)
    requires |SectionsBy(Splitter.TripleDash, text)| > 1
    ensures Sections(text) == SectionsBy(Splitter.TripleDash, text)
  {
  }

  /** When no candidate before the last has more than one section, the last
      one is chosen. */
  lemma {:induction false} ChooseFromLast(cands: seq<seq<string>>, k: nat)
    requires k < |cands|
    requires forall i :: k <= i < |cands| - 1 ==> |cands[i]| <= 1
    ensures ChooseFrom(cands, k) == cands[|cands| - 1]
    decreases |cands| - k
  {
    if k < |cands| - 1 && |cands[k]| <= 1 {
      ChooseFromLast(cands, k + 1);
    }
  }

  /** When no separator gives more than one section, the enumeration
      separator's result is used. */
  lemma SectionsLastResort(text: string)
    requires forall i :: 0 <= i < |Strategies| - 1 ==> |SectionsBy(Strategies[i], text)| <= 1
    ensures Sections(text) == SectionsBy(Splitter.Enumeration, text)
  {
    ChooseFromLast(Candidates(text), 0);
  }

  // ---------------------------------------------------------------------------
  // Labels
  // ---------------------------------------------------------------------------

  /** The start of one alternative of a label pattern: a word matched without
      regard to case, or a run of digits. */
  datatype Head = Word(w: string) | Digits

  datatype Field = QuestionField | AnswerField | StudentField

  /** The alternatives of the three label patterns, in the order the regular
      expressions list them; every alternative is followed by an optional
      `:` or `.` and white space. */
  function Alternatives(f: Field): seq<Head> {
    match f
    case QuestionField => [Word("q"), Word("question"), Digits, Word("query")]
    case AnswerField => [Word("a"), Word("answer"), Word("correct"), Word("solution")]
    case StudentField => [Word("s"), Word("student"), Word("response"), Word("reply")]
  }

  /** The length of `h` at the start of `line`, if it matches there. */
  function HeadLength(h: Head, line: string): (r: Option<nat>)
    ensures r.Some? ==> 0 < r.value <= |line|
  {
    match h
    case Word(w) =>
      if 0 < |w| <= |line| && ToLower(line[..|w|]) == w then Some(|w|) else None
    case Digits =>
      var e := DigitRunEnd(line, 0);
      if e > 0 then Some(e) else None
  }

  /** The length of the whole label prefix, if the alternatives from `k` on
      match: the first alternative whose head matches wins, and the optional
      punctuation and white space after it always match. */
  function LabelLength(alts: seq<Head>, line: string): (r: Option<nat>)
    ensures r.Some? ==> 0 < r.value <= |line|
    ensures r.Some? <==> exists k :: 0 <= k < |alts| && HeadLength(alts[k], line).Some?
  {
    if |alts| == 0 then None
    else
      match HeadLength(alts[0], line)
      case Some(n) =>
        var m := if n < |line| && (line[n] == ':' || line[n] == '.') then n + 1 else n;
        Some(SpaceRunEnd(line, m))
      case None =>
        var r := LabelLength(alts[1..], line);
        assert forall k :: 1 <= k < |alts| ==> alts[k] == alts[1..][k - 1];
        r
  }

  /** How a line is read. */
  datatype LineKind =
    | Labelled(field: Field, content: string) // a label line and its text after the label
    | Plain                                   // no label

  /** Label tests in the order question, answer, student: a line is read as
      the first field whose label matches, with the trimmed rest of the line
      as content, and as plain text when no label matches. */
  function Classify(line: string): (r: LineKind)
    ensures r.Labelled? ==> IsTrimmed(r.content) && |r.content| < |line|
    ensures r.Plain? <==> && LabelLength(Alternatives(QuestionField), line).None?
                          && LabelLength(Alternatives(AnswerField), line).None?
                          && LabelLength(Alternatives(StudentField), line).None?
    ensures r.Labelled? ==> LabelLength(Alternatives(r.field), line).Some?
                            && r.content == Trim(line[LabelLength(Alternatives(r.field), line).value..])
    ensures r.Labelled? && r.field != QuestionField ==> LabelLength(Alternatives(QuestionField), line).None?
    ensures r.Labelled? && r.field == StudentField ==> LabelLength(Alternatives(AnswerField), line).None?
  {
    match LabelLength(Alternatives(QuestionField), line)
    case Some(n) => Labelled(QuestionField, Trim(line[n..]))
    case None =>
      match LabelLength(Alternatives(AnswerField), line)
      case Some(n) => Labelled(AnswerField, Trim(line[n..]))
      case None =>
        match LabelLength(Alternatives(StudentField), line)
        case Some(n) => Labelled(StudentField, Trim(line[n..]))
        case None => Plain
  }

  predicate StartsWithWord(line: string, w: string) {
    |w| <= |line| && ToLower(line[..|w|]) == w
  }

  /** Which lines carry a label: since the one-letter alternative comes
      first, any line starting with that letter, in either case, is a label
      line, and so is any line starting with a digit. */
  lemma QuestionLabelIff(line: string)
    ensures LabelLength(Alternatives(QuestionField), line).Some?
        <==> |line| > 0 && (LowerChar(line[0]) == 'q' || IsDigit(line[0]))
  {
    FourAlternatives(Alternatives(QuestionField), line);
    WordHeadFirst("q", line);
    WordHeadFirst("question", line);
    WordHeadFirst("query", line);
    if |line| > 0 && LowerChar(line[0]) == 'q' {
      LetterHead(line);
    }
  }

  lemma AnswerLabelIff(line: string)
    ensures LabelLength(Alternatives(AnswerField), line).Some?
        <==> |line| > 0 && (LowerChar(line[0]) == 'a' || StartsWithWord(line, "correct") || StartsWithWord(line, "solution"))
  {
    FourAlternatives(Alternatives(AnswerField), line);
    WordHeadFirst("a", line);
    WordHeadFirst("answer", line);
    WordHeadFirst("correct", line);
    WordHeadFirst("solution", line);
    if |line| > 0 && LowerChar(line[0]) == 'a' {
      LetterHead(line);
    }
  }

  lemma StudentLabelIff(line: string)
    ensures LabelLength(Alternatives(StudentField), line).Some?
        <==> |line| > 0 && (LowerChar(line[0]) == 's' || StartsWithWord(line, "response") || StartsWithWord(line, "reply"))
  {
    FourAlternatives(Alternatives(StudentField), line);
    WordHeadFirst("s", line);
    WordHeadFirst("student", line);
    WordHeadFirst("response", line);
    WordHeadFirst("reply", line);
    if |line| > 0 && LowerChar(line[0]) == 's' {
      LetterHead(line);
    }
  }

  /** With four alternatives, a label matches exactly when one of the four
      heads does. */
  lemma FourAlternatives(alts: seq<Head>, line: string)
    requires |alts| == 4
    ensures LabelLength(alts, line).Some?
        <==> || HeadLength(alts[0], line).Some? || HeadLength(alts[1], line).Some?
             || HeadLength(alts[2], line).Some? || HeadLength(alts[3], line).Some?
  {
    if LabelLength(alts, line).Some? {
      var k :| 0 <= k < |alts| && HeadLength(alts[k], line).Some?;
      assert k == 0 || k == 1 || k == 2 || k == 3;
    }
  }

  /** A word head matches only where the line starts with the word's first
      letter, in either case. */
  lemma WordHeadFirst(w: string, line: string)
    requires |w| > 0
    ensures HeadLength(Word(w), line).Some? ==> |line| > 0 && LowerChar(line[0]) == w[0]
    ensures HeadLength(Word(w), line).Some? <==> StartsWithWord(line, w)
  {
    if HeadLength(Word(w), line).Some? {
      assert ToLower(line[..|w|])[0] == LowerChar(line[0]);
    }
  }

  /** A one-letter word head matches any line starting with that letter in
      either case. */
  lemma LetterHead(line: string)
    requires |line| > 0
    ensures HeadLength(Word([LowerChar(line[0])]), line) == Some(1)
  {
    assert ToLower(line[..1]) == [LowerChar(line[0])];
  }

  /** The one-letter alternative wins over the full word: "Question: X"
      loses only its first letter. */
  lemma GreedyQuestionLabel()
    ensures Classify("Question: X") == Labelled(QuestionField, "uestion: X")
  {
    var line := "Question: X";
    assert HeadLength(Word("q"), line) == Some(1) by {
      assert line[..1] == "Q";
      assert ToLower("Q") == "q";
    }
    assert SpaceRunEnd(line, 1) == 1 by {
      assert !IsSpace(line[1]);
    }
    assert LabelLength(Alternatives(QuestionField), line) == Some(1) by {
      assert line[1] != ':' && line[1] != '.';
    }
    assert line[1..] == "uestion: X";
    assert IsTrimmed("uestion: X");
    TrimFixedPoint("uestion: X");
  }

  // ---------------------------------------------------------------------------
  // Reading a section
  // ---------------------------------------------------------------------------

  /** The three fields collected so far from a section's lines. */
  datatype Draft = Draft(question: string, correct: string, student: string)

  const EmptyDraft := Draft("", "", "")

  predicate TrimmedDraft(d: Draft) {
    IsTrimmed(d.question) && IsTrimmed(d.correct) && IsTrimmed(d.student)
  }

  function SetField(d: Draft, f: Field, v: string): Draft {
    match f
    case QuestionField => d.(question := v)
    case AnswerField => d.(correct := v)
    case StudentField => d.(student := v)
  }

  /** `s + ' ' + line`. */
  function Append(s: string, line: string): string {
    s + " " + line
  }

  /** Whether an unlabelled line at `index` fills an empty field by its
      position: the first line the question, the second the answer, the
      third the student's answer. */
  predicate FillsByPosition(d: Draft, index: nat) {
    (index == 0 && d.question == "") || (index == 1 && d.correct == "") || (index == 2 && d.student == "")
  }

  /** The field a continuation line is appended to: the question while no
      answer is set, else the answer while no student answer is set, else
      the student answer once it is set. */
  function OpenField(d: Draft): Option<Field> {
    if d.question != "" && d.correct == "" then Some(QuestionField)
    else if d.correct != "" && d.student == "" then Some(AnswerField)
    else if d.student != "" then Some(StudentField)
    else None
  }

  function FieldValue(d: Draft, f: Field): string {
    match f
    case QuestionField => d.question
    case AnswerField => d.correct
    case StudentField => d.student
  }

  /** The effect of the line at `index` (among the section's clean lines):
      a label sets its field; an unlabelled line fills an empty field by
      position, or else continues the open field unless it starts with a
      capital letter, or else is ignored. */
  function Step(d: Draft, index: nat, line: string): (r: Draft)
    requires TrimmedDraft(d) && IsTrimmed(line) && line != ""
    ensures TrimmedDraft(r)
    ensures Classify(line).Labelled? ==> r == SetField(d, Classify(line).field, Classify(line).content)
    ensures Classify(line).Plain? && index == 0 && d.question == "" ==> r == d.(question := line)
    ensures Classify(line).Plain? && index == 1 && d.correct == "" ==> r == d.(correct := line)
    ensures Classify(line).Plain? && index == 2 && d.student == "" ==> r == d.(student := line)
    ensures Classify(line).Plain? && !FillsByPosition(d, index) && !IsUpper(line[0]) && OpenField(d).Some? ==>
              r == SetField(d, OpenField(d).value, Append(FieldValue(d, OpenField(d).value), line))
    ensures Classify(line).Plain? && !FillsByPosition(d, index) && (IsUpper(line[0]) || OpenField(d).None?) ==>
              r == d
  {
    match Classify(line)
    case Labelled(f, content) => SetField(d, f, content)
    case Plain => ReadUnlabelled(d, index, line)
  }

  /** An unlabelled line: it fills an empty field by position, or else
      continues the open field unless it starts with a capital letter, or
      else is ignored. */
  function ReadUnlabelled(d: Draft, index: nat, line: string): (r: Draft)
    requires TrimmedDraft(d) && IsTrimmed(line) && line != ""
    ensures TrimmedDraft(r)
    ensures index == 0 && d.question == "" ==> r == d.(question := line)
    ensures index == 1 && d.correct == "" ==> r == d.(correct := line)
    ensures index == 2 && d.student == "" ==> r == d.(student := line)
    ensures !FillsByPosition(d, index) && !IsUpper(line[0]) && OpenField(d).Some? ==>
              r == SetField(d, OpenField(d).value, Append(FieldValue(d, OpenField(d).value), line))
    ensures !FillsByPosition(d, index) && (IsUpper(line[0]) || OpenField(d).None?) ==> r == d
  {
    if d.question == "" && index == 0 then d.(question := line)
    else if d.correct == "" && index == 1 then d.(correct := line)
    else if d.student == "" && index == 2 then d.(student := line)
    else if d.question != "" && d.correct == "" && !IsUpper(line[0]) then
      SpaceJoinTrimmed(d.question, line);
      d.(question := Append(d.question, line))
    else if d.correct != "" && d.student == "" && !IsUpper(line[0]) then
      SpaceJoinTrimmed(d.correct, line);
      d.(correct := Append(d.correct, line))
    else if d.student != "" && !IsUpper(line[0]) then
      SpaceJoinTrimmed(d.student, line);
      d.(student := Append(d.student, line))
    else d
  }

  /** A line starting with a capital letter is never appended to a field: it
      is a label, fills an empty field by position, or is ignored. */
  lemma CapitalNeverAppended(d: Draft, index: nat, line: string)
    requires TrimmedDraft(d) && IsTrimmed(line) && line != "" && IsUpper(line[0])
    ensures var r := Step(d, index, line);
            && r.question != Append(d.question, line)
            && r.correct != Append(d.correct, line)
            && r.student != Append(d.student, line)
  {
    var r := Step(d, index, line);
    match Classify(line)
    case Labelled(f, c) =>
      assert IsTrimmed(c);
      LabelledNotAppended(d, f, c, line);
    case Plain =>
      assert |Append(d.question, line)| > |line| && |Append(d.correct, line)| > |line| && |Append(d.student, line)| > |line|;
  }

  /** A label's content is shorter than the line it came from, so setting a
      field to it cannot look like an append of the whole line. */
  lemma LabelledNotAppended(d: Draft, f: Field, c: string, line: string)
    requires Classify(line) == Labelled(f, c)
    ensures var r := SetField(d, f, c);
            && r.question != Append(d.question, line)
            && r.correct != Append(d.correct, line)
            && r.student != Append(d.student, line)
  {
  }

  /** Folds `Step` over the lines from `i` on. */
  function ReadLines(lines: seq<string>, i: nat, d: Draft): (r: Draft)
    requires TrimmedDraft(d) && CleanLines(lines) && i <= |lines|
    ensures TrimmedDraft(r)
    decreases |lines| - i
  {
    if i == |lines| then d else ReadLines(lines, i + 1, Step(d, i, lines[i]))
  }

  /** A labelled line replaces its field, whatever the field held before. */
  lemma LabelReplaces(d: Draft, index: nat, line: string)
    requires TrimmedDraft(d) && IsTrimmed(line) && line != ""
    requires Classify(line).Labelled?
    ensures Classify(line).field == QuestionField ==> Step(d, index, line).question == Classify(line).content
    ensures Classify(line).field == AnswerField ==> Step(d, index, line).correct == Classify(line).content
    ensures Classify(line).field == StudentField ==> Step(d, index, line).student == Classify(line).content
    ensures Classify(line).field != QuestionField ==> Step(d, index, line).question == d.question
    ensures Classify(line).field != AnswerField ==> Step(d, index, line).correct == d.correct
    ensures Classify(line).field != StudentField ==> Step(d, index, line).student == d.student
  {
  }

  /** The fields a section's lines give. */
  function ReadSection(section: string): (d: Draft)
    ensures TrimmedDraft(d)
  {
    ReadLines(Lines(section), 0, EmptyDraft)
  }

  // ---------------------------------------------------------------------------
  // Records
  // ---------------------------------------------------------------------------

  /** The identifier of the record for the section at `index`. */
  function RecordId(index: nat): (id: string)
    ensures |id| >= 3 && id[..2] == "q-" && AllDigits(id[2..])
  {
    "q-" + NatToString(index + 1)
  }

  /** The 1-based section number an identifier carries. */
  function IdNumber(id: string): nat {
    if |id| >= 2 && AllDigits(id[2..]) then DigitsValue(id[2..]) else 0
  }

  lemma RecordIdRoundTrip(index: nat)
    ensures IdNumber(RecordId(index)) == index + 1
  {
    assert RecordId(index)[2..] == NatToString(index + 1);
    NatToStringRoundTrip(index + 1);
  }

  /** The record a section yields, if it has a question and a reference
      answer. */
  function SectionRecord(section: string, index: nat): (r: Option<Record>)
    ensures r.Some? <==> ReadSection(section).question != "" && ReadSection(section).correct != ""
    ensures r.Some? ==> r.value.id == RecordId(index)
  {
    var d := ReadSection(section);
    if d.question != "" && d.correct != "" then
      Some(Record(RecordId(index), Trim(d.question), Trim(d.correct),
                  if Trim(d.student) == "" then NoAnswer else Trim(d.student)))
    else None
  }

  /** An emitted record holds the section's fields unchanged by the final
      trim, and the fixed text when the section has no student answer. */
  lemma SectionRecordFields(section: string, index: nat)
    requires SectionRecord(section, index).Some?
    ensures var r := SectionRecord(section, index).value;
            var d := ReadSection(section);
            && r.question == d.question && r.question != "" && IsTrimmed(r.question)
            && r.correctAnswer == d.correct && r.correctAnswer != "" && IsTrimmed(r.correctAnswer)
            && (d.student == "" ==> r.studentAnswer == NoAnswer)
            && (d.student != "" ==> r.studentAnswer == d.student)
  {
    var d := ReadSection(section);
    TrimFixedPoint(d.question);
    TrimFixedPoint(d.correct);
    TrimFixedPoint(d.student);
  }

  /** The present values, in order. */
  function Somes(opts: seq<Option<Record>>): (r: seq<Record>)
    ensures |r| <= |opts|
    ensures forall x :: x in r <==> Some(x) in opts
  {
    if |opts| == 0 then []
    else
      assert opts == [opts[0]] + opts[1..];
      (if opts[0].Some? then [opts[0].value] else []) + Somes(opts[1..])
  }

  /** The record each section yields, by section index. */
  function SectionRecords(sections: seq<string>): (r: seq<Option<Record>>)
    ensures |r| == |sections|
    ensures forall j :: 0 <= j < |sections| ==> r[j] == SectionRecord(sections[j], j)
  {
    seq(|sections|, j requires 0 <= j < |sections| => SectionRecord(sections[j], j))
  }

  /** The records of the sections, in section order. */
  function Records(sections: seq<string>): (r: seq<Record>)
    ensures |r| <= |sections|
  {
    Somes(SectionRecords(sections))
  }

  /** The records are exactly what the sections yield. */
  lemma RecordsMembers(sections: seq<string>)
    ensures forall x :: x in Records(sections) <==> exists j :: 0 <= j < |sections| && SectionRecord(sections[j], j) == Some(x)
  {
    SomesMembers(SectionRecords(sections));
  }

  lemma SomesMembers(opts: seq<Option<Record>>)
    ensures forall x :: x in Somes(opts) <==> exists j :: 0 <= j < |opts| && opts[j] == Some(x)
  {
    assert forall x :: Some(x) in opts <==> exists j :: 0 <= j < |opts| && opts[j] == Some(x);
  }

  /** The record has identifier "q-<n>". */
  predicate Numbered(rec: Record, n: nat) {
    IdNumber(rec.id) == n
  }

  /** Every present value at position `j` is numbered `base + j + 1`. */
  predicate NumberedFrom(opts: seq<Option<Record>>, base: nat) {
    forall j :: 0 <= j < |opts| && opts[j].Some? ==> Numbered(opts[j].value, base + j + 1)
  }

  /** Picking the present values keeps their numbers increasing. */
  lemma {:induction false} SomesIncrease(opts: seq<Option<Record>>, base: nat)
    requires NumberedFrom(opts, base)
    ensures forall i :: 0 <= i < |Somes(opts)| ==> IdNumber(Somes(opts)[i].id) > base
    ensures forall i, i' :: 0 <= i < i' < |Somes(opts)| ==> IdNumber(Somes(opts)[i].id) < IdNumber(Somes(opts)[i'].id)
  {
    if |opts| > 0 {
      var tail := opts[1..];
      assert NumberedFrom(tail, base + 1) by {
        forall j | 0 <= j < |tail| && tail[j].Some? ensures Numbered(tail[j].value, base + 1 + j + 1) {
          assert tail[j] == opts[j + 1];
        }
      }
      SomesIncrease(tail, base + 1);
      var rest := Somes(tail);
      if opts[0].Some? {
        assert Numbered(opts[0].value, base + 1);
        assert Somes(opts) == [opts[0].value] + rest;
      }
    }
  }

  /** The records' identifiers strictly increase, so records keep the order
      of their sections; a skipped section leaves a gap in the numbers. */
  lemma RecordIdsIncrease(sections: seq<string>)
    ensures forall i, i' :: 0 <= i < i' < |Records(sections)| ==>
              IdNumber(Records(sections)[i].id) < IdNumber(Records(sections)[i'].id)
  {
    var opts := SectionRecords(sections);
    forall j | 0 <= j < |opts| && opts[j].Some? ensures Numbered(opts[j].value, j + 1) {
      RecordIdRoundTrip(j);
    }
    SomesIncrease(opts, 0);
  }

  // ---------------------------------------------------------------------------
  // The parser
  // ---------------------------------------------------------------------------

  /** `"<n>: <line>"` for the first ten lines of the normalised text; the
      lines are neither trimmed nor filtered, so blank lines are shown too. */
  function Preview(text: string): (r: seq<string>)
    ensures |r| <= PreviewLines
    ensures |r| == if |Split(text, '\n')| < PreviewLines then |Split(text, '\n')| else PreviewLines
    ensures forall i :: 0 <= i < |r| ==> r[i] == NatToString(i + 1) + ": " + Split(text, '\n')[i]
  {
    var lines := Split(text, '\n');
    var n := if |lines| < PreviewLines then |lines| else PreviewLines;
    seq(n, i requires 0 <= i < n => NatToString(i + 1) + ": " + lines[i])
  }

  /** The message text each error carries. */
  function Message(e: ParseError): string {
    match e
    case EmptyFile => "File is empty or contains no readable content"
    case NoQuestionsFound(preview) =>
      "Could not parse any questions from your file. \n\nHere's what I found in the first few lines:\n"
      + Join(preview, "\n")
      + "\n\nThe file should contain questions in one of these formats:\n\nFormat 1 (Preferred):\n"
      + "Q: What is the capital of France?\nA: Paris\nS: Paris\n---\n\nFormat 2:\n"
      + "Question: What is 2+2?\nAnswer: 4\nStudent: 4\n\nFormat 3:\n"
      + "1. What is photosynthesis?\nPhotosynthesis is...\nThe student wrote...\n\n"
      + "Please check your file format and try again."
  }

  /** `parseAnswerFile(content)`. */
  function ParseAnswerFile(content: string): (r: Result<seq<Record>, ParseError>)
    ensures r == Failure(EmptyFile) <==> AllSpace(content)
    ensures r.Success? ==> |r.value| > 0
    ensures r.Failure? && r.error.NoQuestionsFound? ==> |r.error.preview| <= PreviewLines
    ensures r.Failure? && r.error.NoQuestionsFound? ==> r.error.preview == Preview(NormalizeNewlines(content))
  {
    TrimEmptyIff(content);
    if Trim(content) == "" then Failure(EmptyFile)
    else
      var text := NormalizeNewlines(content);
      var records := Records(Sections(text));
      if |records| == 0 then Failure(NoQuestionsFound(Preview(text))) else Success(records)
  }

  /** The records are exactly those of the sections, in order. */
  lemma ParseAnswerFileRecords(content: string)
    requires ParseAnswerFile(content).Success?
    ensures var recs := ParseAnswerFile(content).value;
            var sections := Sections(NormalizeNewlines(content));
            && (forall x :: x in recs <==> exists j :: 0 <= j < |sections| && SectionRecord(sections[j], j) == Some(x))
            && (forall i, i' :: 0 <= i < i' < |recs| ==> IdNumber(recs[i].id) < IdNumber(recs[i'].id))
  {
    var sections := Sections(NormalizeNewlines(content));
    assert ParseAnswerFile(content).value == Records(sections);
    RecordsMembers(sections);
    RecordIdsIncrease(sections);
  }

  /** No record comes out exactly when no section yields one. */
  lemma RecordsEmptyIff(sections: seq<string>)
    ensures |Records(sections)| == 0 <==> forall j :: 0 <= j < |sections| ==> SectionRecord(sections[j], j).None?
  {
    SomesEmptyIff(SectionRecords(sections));
  }

  lemma {:induction false} SomesEmptyIff(opts: seq<Option<Record>>)
    ensures |Somes(opts)| == 0 <==> forall j :: 0 <= j < |opts| ==> opts[j].None?
  {
    if |opts| > 0 {
      SomesEmptyIff(opts[1..]);
      assert forall j :: 1 <= j < |opts| ==> opts[j] == opts[1..][j - 1];
    }
  }

  /** Parsing fails with a preview exactly when no section yields a record. */
  lemma NoQuestionsIff(content: string)
    requires !AllSpace(content)
    ensures ParseAnswerFile(content).Failure?
        <==> forall j :: 0 <= j < |Sections(NormalizeNewlines(content))| ==>
               SectionRecord(Sections(NormalizeNewlines(content))[j], j).None?
  {
    var sections := Sections(NormalizeNewlines(content));
    TrimEmptyIff(content);
    assert ParseAnswerFile(content).Failure? <==> |Records(sections)| == 0;
    RecordsEmptyIff(sections);
  }
}
