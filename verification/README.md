# QuickGrade-Rwanda, modelled in Dafny

QuickGrade-Rwanda grades students' answers in two ways. The first way is a
browser tool: it reads a free-text answer sheet, splits it into question
records and scores each free-text answer with a lexical heuristic. The
second way is a server and a set of pages for multiple-choice papers:

- lecturers write papers, or have a text generator draft questions;
- students take papers against a timer;
- the server grades submissions against the paper's answer key, with a
  deadline and a limit on attempts;
- lecturers and students see averages, pass rates and a CSV export.

This project models the deterministic core of both halves as pure Dafny
functions over immutable datatypes, and proves what the code promises about
them. Each module follows one source file:

| module | models |
|---|---|
| `FileParser` (with `Splitter`) | `parseAnswerFile`: newline normalisation, the four-step segmentation fallback, line classification, record emission, both errors |
| `AiGrader` (with `KeyTerms`, `Overlap`) | `calculateSimilarity`, `findKeyTerms`, `analyzeAnswer`, `generateSpecificFeedback`, `gradeAnswer` |
| `App` | the parse-then-grade upload pipeline, `handleNewFile`, which view shows |
| `GradingResults` | summary counts and average, grade letter and colour |
| `AiService` | `parseInt` as the score reader uses it, `parseEvaluationResponse`, `calculateSimilarity`, `fallbackEvaluation`, `evaluateAnswer`, `parseGeneratedQuestion`, `createFallbackQuestion`, `createDefaultQuestions`, `generateMCQQuestions` |
| `PaperModel`, `SubmissionModel` | the two Mongoose schemas: defaults, required fields, the pre-save totals |
| `SubmissionsRoute` | the submit handler: gates, grading, attempt number, percentage |
| `CreatePaper`, `TakePaper`, `ViewSubmissions`, `StudentDashboard` | the pure logic inside those pages |

`Text` and `Stats` hold the JavaScript built-ins the code relies on:

- `trim` over the full JavaScript white-space set;
- `split` on a character, and `join`;
- ASCII `toLowerCase`;
- `Math.round` as `Floor(x + 1/2)` on reals;
- decimal rendering of numbers;
- sums, means and counts.

`Wrappers` holds `Option` and `Result`.

The outside world enters only as parameters:

- The current time, due dates and submission times are integers supplied
  by the caller.
- The text generator behind `generateMCQQuestions` and `evaluateAnswer` is
  an oracle reply. A reply is either `Generated(text)` or `Failed`.
- The paper lookup and the count of earlier attempts are arguments of the
  submit handler.

Where the code and the repository's prose description disagree, the model
follows the code:

- Record identifiers are numbered by section index, so a skipped section
  leaves a gap. The prose says the identifiers are dense.
- The long label forms (`Question:`, `Answer:`, `Student:`) are not
  recognised as such. The one-letter alternative matches first, so
  "Question: X" stores "uestion: X".
- When no separator gives more than one section, the sections are the
  enumeration split's sections, possibly none. The text is not taken as a
  single section.
- The no-records error carries only the first ten numbered lines. It does
  not carry a count of sections.

## Model

| member | source | states |
|---|---|---|
| FileParser.NormalizeNewlines | src/utils/fileParser.ts:11 | no carriage return survives and the text never grows |
| FileParser.NormalizeWithoutCr | src/utils/fileParser.ts:11 | a text without carriage returns is left exactly as it is |
| FileParser.NormalizeIdempotent | src/utils/fileParser.ts:11 | normalising twice is normalising once |
| FileParser.NormalizeExample | src/utils/fileParser.ts:11 | CR LF and a lone CR each become exactly one LF |
| FileParser.NonBlank | src/utils/fileParser.ts:14 | the kept pieces are exactly those whose trim is non-empty, each as often as it occurs |
| FileParser.NonBlankCount | src/utils/fileParser.ts:14 | a non-blank piece is kept as often as it occurs, a blank one never |
| FileParser.NonBlankAppend | src/utils/fileParser.ts:14 | filtering a joined list is joining the filtered parts, so sections keep their order |
| FileParser.Candidates | src/utils/fileParser.ts:14-28 | one candidate per separator, in the order `---`, blank lines, dash/equals runs, enumerations |
| FileParser.ChooseFromFirst | src/utils/fileParser.ts:17-29 | the chosen candidate is the first with more than one section, or the last when none has |
| FileParser.Sections | src/utils/fileParser.ts:14-28 | no section is blank |
| FileParser.SectionsChoice | src/utils/fileParser.ts:14-29 | the sections are those of the first separator that gives more than one |
| FileParser.SectionsPreferTripleDash | src/utils/fileParser.ts:14-17 | when `---` gives two or more sections, no other separator is tried |
| FileParser.SectionsLastResort | src/utils/fileParser.ts:26-28 | when no earlier separator gives more than one section, the enumeration split decides |
| FileParser.LabelLength | src/utils/fileParser.ts:48-57 | a label pattern matches exactly when one of its alternatives matches at the start |
| FileParser.QuestionLabelIff | src/utils/fileParser.ts:48 | a line is a question label exactly when it starts with q/Q or a digit |
| FileParser.AnswerLabelIff | src/utils/fileParser.ts:52 | a line is an answer label exactly when it starts with a/A, "correct" or "solution" in any case |
| FileParser.StudentLabelIff | src/utils/fileParser.ts:56 | a line is a student label exactly when it starts with s/S, "response" or "reply" in any case |
| FileParser.GreedyQuestionLabel | src/utils/fileParser.ts:48-49 | "Question: X" is read as the question "uestion: X" |
| FileParser.Classify | src/utils/fileParser.ts:48-58 | a line is read as the first of question, answer, student whose label matches, with the trimmed rest of the line after the label as content (trimmed and shorter than the line); it is plain exactly when no label matches |
| FileParser.Step | src/utils/fileParser.ts:44-74 | fields stay trimmed; a labelled line sets its own field to its content; an unlabelled first, second or third line fills an empty question, answer or student answer; otherwise an unlabelled line not starting with a capital letter is appended after a space to the open field, and anything else leaves the fields unchanged |
| FileParser.ReadUnlabelled | src/utils/fileParser.ts:59-74 | an unlabelled line fills an empty field by its position, else is appended after a space to the open field unless it starts with a capital letter, else changes nothing |
| FileParser.LabelReplaces | src/utils/fileParser.ts:48-58 | a labelled line replaces its field and leaves the other two alone |
| FileParser.CapitalNeverAppended | src/utils/fileParser.ts:68-74 | a line starting with a capital letter is never appended to any field |
| FileParser.ReadSection | src/utils/fileParser.ts:38-75 | the three fields read from a section are trimmed |
| FileParser.RecordId | src/utils/fileParser.ts:87 | an identifier is "q-" followed by decimal digits |
| FileParser.RecordIdRoundTrip | src/utils/fileParser.ts:87 | the identifier of the section at index i carries the number i + 1 |
| FileParser.SectionRecord | src/utils/fileParser.ts:85-91 | a section yields a record exactly when its question and answer are non-empty, with id "q-<index+1>" |
| FileParser.SectionRecordFields | src/utils/fileParser.ts:88-90 | a record keeps the section's fields, non-empty and trimmed, and an empty student answer becomes "No answer provided" |
| FileParser.RecordsMembers | src/utils/fileParser.ts:35-100 | the records are exactly what the sections yield |
| FileParser.RecordIdsIncrease | src/utils/fileParser.ts:35-100 | record identifiers strictly increase, so records keep section order |
| FileParser.Preview | src/utils/fileParser.ts:106-110 | the error preview has min(10, number of lines) entries, entry i being "i+1: " followed by line i as it stands, blank lines included |
| FileParser.ParseAnswerFile | src/utils/fileParser.ts:3-134 | the empty-file error happens exactly for white-space-only input, success is never empty, and the no-questions error carries the preview of the normalised text, at most 10 lines |
| FileParser.ParseAnswerFileRecords | src/utils/fileParser.ts:35-133 | a successful parse returns exactly the sections' records, in increasing id order |
| FileParser.RecordsEmptyIff | src/utils/fileParser.ts:85-105 | no record comes out exactly when no section yields one |
| FileParser.NoQuestionsIff | src/utils/fileParser.ts:105-131 | a non-blank file fails exactly when no section yields a record |
| Splitter.TripleDashAt | src/utils/fileParser.ts:14 | a `---` separator matches exactly where three dashes start |
| Splitter.Split | src/utils/fileParser.ts:14-28 | the pieces are the text between consecutive separator matches |
| Splitter.SpansStructure | src/utils/fileParser.ts:14-28 | consecutive pieces are separated by exactly one match, and no piece contains the start of a match |
| Splitter.TripleDashJoin | src/utils/fileParser.ts:14 | joining the `---` pieces with `---` gives back the text |
| Splitter.TripleDashPiecesFree | src/utils/fileParser.ts:14 | no `---` piece contains `---` |
| Splitter.SpaceRunPiecesNoSpace | src/services/aiGrader.ts:5-6 | the pieces of a split on white-space runs contain no white space |
| KeyTerms.MatchAtWord | src/services/aiGrader.ts:16 | the key-term pattern matches at a position exactly when a whole word of key shape starts there, and it matches the whole word |
| KeyTerms.ScanIsKeyWords | src/services/aiGrader.ts:16 | the global scan returns the key-shaped whole words, in order |
| KeyTerms.FindKeyTerms | src/services/aiGrader.ts:14-18 | key terms are the lower-cased matches, without repeats, in the order of their first match |
| KeyTerms.KeyTermsAreKeyWords | src/services/aiGrader.ts:14-18 | a key term is exactly a lower-cased capitalised word, digit run, or lower-case word of four or more letters |
| KeyTerms.KeyTermsInText | src/services/aiGrader.ts:14-18 | every key term occurs in the lower-cased reference |
| KeyTerms.KeyShapeExamples | src/services/aiGrader.ts:16 | "Paris", "508" and "capital" have key shape; "the", "PARIS" and "x1" do not |
| Overlap.Common | src/services/aiGrader.ts:8 | the intersection keeps each shared word with its multiplicity in the first list |
| Overlap.UnionSize | src/services/aiGrader.ts:9 | the union counts distinct words of both lists |
| Overlap.Ratio | src/services/aiGrader.ts:11 | for a non-empty union the ratio is the intersection's length over the union's size, and 0 for an empty union; it is 0 exactly when the union or the intersection is empty, and at most 1 exactly when the intersection is no larger than the union |
| Overlap.RatioAtMostOne | src/services/aiGrader.ts:8-11 | without repeated words in the first list the ratio is at most 1 |
| Overlap.RatioSelf | src/services/aiGrader.ts:8-11 | a repeat-free non-empty list compared with itself gives exactly 1 |
| Overlap.RatioSelfAtLeastOne | src/services/aiGrader.ts:8-11 | any non-empty list compared with itself gives at least 1 |
| Overlap.RatioZeroIffDisjoint | src/services/aiGrader.ts:8-11 | the ratio is 0 exactly when the lists share no word |
| Overlap.RatioCanExceedOne | src/services/aiGrader.ts:8 | ["atom", "atom"] against ["atom"] gives 2 |
| AiGrader.LongWords | src/services/aiGrader.ts:5-6 | the kept words are exactly those longer than two characters, each as often as it occurs |
| AiGrader.LongWordsAppend | src/services/aiGrader.ts:5-6 | filtering a joined list is joining the filtered parts, so words keep their order |
| AiGrader.Tokens | src/services/aiGrader.ts:5-6 | the tokens are the pieces of the lower-cased text split at white-space runs that are longer than two characters, each as often as it occurs |
| AiGrader.TokenHasNoSpace | src/services/aiGrader.ts:5 | no token holds a white-space character |
| AiGrader.Similarity | src/services/aiGrader.ts:4-12 | for a non-empty token union, 100 × (shared reference tokens, with repeats) / (distinct tokens of both), else 0; 0 exactly when no reference token is also a token of the answer |
| AiGrader.SelfSimilarity | src/services/aiGrader.ts:4-12 | a text with a long token compared with itself scores at least 100 |
| AiGrader.TermsWhere | src/services/aiGrader.ts:30-31 | found/missing terms are exactly the key terms contained / not contained in the answer |
| AiGrader.TermsWhereCount | src/services/aiGrader.ts:30-31 | a selected term is kept as often as it is listed, another never |
| AiGrader.TermsWhereAppend | src/services/aiGrader.ts:30-31 | filtering a joined list is joining the filtered parts, so terms keep their order |
| AiGrader.TermsWhereInOrder | src/services/aiGrader.ts:30-31 | from a list without repeats, the kept terms have no repeats and keep the list's order |
| AiGrader.TermsPartition | src/services/aiGrader.ts:30-31 | found and missing terms together number as many as the key terms |
| AiGrader.KeyTermScore | src/services/aiGrader.ts:37 | with key terms the score is the found share times 100 (score × total = 100 × found), so within 0..100 and 100 when all are found; without them it is the similarity |
| AiGrader.LengthAdjusted | src/services/aiGrader.ts:41-43 | ×0.8 below ratio 0.3, ×0.9 above ratio 3, unchanged otherwise, never both |
| AiGrader.Analyze | src/services/aiGrader.ts:20-48 | the score is in 0..100; found/missing partition the key terms by containment, each without repeats and in key-term order |
| AiGrader.HeadlineShape | src/services/aiGrader.ts:59-97 | every band's opening sentence is non-empty and has no surrounding white space |
| AiGrader.Feedback | src/services/aiGrader.ts:50-109 | feedback is trimmed, non-empty, starts with the band's sentence, and ends with the sentence note or the detail note when they apply |
| AiGrader.Grade | src/services/aiGrader.ts:111-144 | the score is in 0..100; a trimmed answer shorter than 2 gets exactly (0, the no-answer text, 1.0); otherwise confidence is 0.85, the score is the analysis score and the feedback is the generated feedback for that score and the analysis's found and missing terms |
| AiGrader.PlaceholderIsGraded | src/services/aiGrader.ts:114 | the "No answer provided" placeholder is graded lexically, with confidence 0.85 |
| AiGrader.AllKeyTermsFound | src/services/aiGrader.ts:30 | an answer equal to the reference contains every key term |
| AiGrader.IdenticalAnswerFullMarks | src/services/aiGrader.ts:111-135 | an answer equal to a reference with a long token scores 100 with confidence 0.85 |
| AiGrader.NothingSharedScoresZero | src/services/aiGrader.ts:20-48 | an answer sharing no long word with the reference and containing none of its key terms scores 0, whatever its length |
| AiGrader.BlendedZero | src/services/aiGrader.ts:34-38 | no similarity and no key term found blend to 0 |
| AiGrader.ErrorResultValues | src/services/aiGrader.ts:136-143 | the error result is score 0 with confidence 0.1 |
| App.GradeRecord | src/App.tsx:25-34 | a graded entry has a score in 0..100 and non-empty feedback |
| App.GradeAll | src/App.tsx:24-37 | one graded entry per record, in order, keeping id, question, answer and student answer, with scores in 0..100 |
| App.GradeAllScores | src/App.tsx:25-34 | each entry's score and feedback are what `gradeAnswer` gives for that record |
| App.BeginUpload | src/App.tsx:16-17 | an upload starts loading, records the file name and keeps the results |
| App.HandleFileUpload | src/App.tsx:15-46 | loading ends, the file name is recorded, and results stay valid |
| App.UploadSuccess | src/App.tsx:20-39 | a successful parse shows one result per record, in record order |
| App.UploadKeepsSectionOrder | src/App.tsx:20-39 | results appear in increasing section order |
| App.UploadFailure | src/App.tsx:40-45 | a failed parse leaves the results unchanged; only loading ends and the file name is recorded |
| App.BlankUploadKeepsResults | src/App.tsx:19-45 | a blank file leaves the results unchanged |
| App.HandleNewFile | src/App.tsx:48-51 | results are emptied and the file name cleared |
| App.ExactlyOneView | src/App.tsx:58-66 | exactly one of uploader, spinner and results shows |
| App.SpinnerDuringUpload | src/App.tsx:16 | an upload in progress shows the spinner |
| App.NewFileShowsUploader | src/App.tsx:48-60 | after "new file" the uploader shows |
| App.ReportAverageInRange | src/App.tsx:66 | the report's average lies in 0..100 whenever it is rendered |
| GradingResults.Summarize | src/components/GradingResults.tsx:12-15 | passed counts the scores ≥ 60 and excellent those ≥ 80; average × total = sum of scores; excellent ≤ passed ≤ total; all pass iff every score ≥ 60; no excellent iff every score < 80; the average of percentages lies in 0..100 |
| GradingResults.SummarizeUniform | src/components/GradingResults.tsx:13 | equal scores average to that score |
| GradingResults.LetterMonotone | src/components/GradingResults.tsx:23-29 | a higher average never gets a lower letter |
| GradingResults.ColorMatchesLetter | src/components/GradingResults.tsx:17-29 | for any average, green is A or B, yellow is C or D, red is F |
| GradingResults.PassIffNotF | src/components/GradingResults.tsx:14-28 | an average of at least 60 is exactly one whose letter is not F |
| GradingResults.OverallGrade | src/components/GradingResults.tsx:88-96 | the overall letter of the average is not F when every question passed and is F when none did; the colour is green when every question was excellent |
| AiService.ParseIntDecimal | server/services/aiService.cjs:237 | leading decimal digits read as their value, whatever follows them other than a digit or an x |
| AiService.ParseIntMinus | server/services/aiService.cjs:237 | a minus sign negates the numeral after it |
| AiService.ParseIntHex | server/services/aiService.cjs:237 | `0x` followed by hexadecimal digits reads in base 16 |
| AiService.ParseIntRendered | server/services/aiService.cjs:237 | every rendered integer reads back as itself |
| AiService.ParseIntNoDigits | server/services/aiService.cjs:237 | a text starting with no digit, sign or space reads as NaN |
| AiService.ScoreFromLastLine | server/services/aiService.cjs:235-237 | the score comes from the last `Score:` line |
| AiService.NoScoreLine | server/services/aiService.cjs:232-241 | without a `Score:` line the score is 0 |
| AiService.FeedbackFromLastLine | server/services/aiService.cjs:238-239 | the feedback comes from the last `Feedback:` line, trimmed |
| AiService.NoFeedbackLine | server/services/aiService.cjs:233-241 | without a `Feedback:` line the feedback is "Unable to evaluate answer." |
| AiService.ParseEvaluationResponse | server/services/aiService.cjs:229-256 | the score is clamped to 0..100 and confidence is 0.8; a missing response text, which throws inside the `try`, gives (0, "Error in evaluation.", 0.1) |
| AiService.EvaluationScore | server/services/aiService.cjs:235-244 | the score is the clamped value of the last `Score:` line |
| AiService.EvaluationFeedback | server/services/aiService.cjs:238-245 | the feedback is the trimmed rest of the last `Feedback:` line |
| AiService.EvaluationFormatRoundTrip | server/services/aiService.cjs:208-247 | a reply in the requested two-line format is read back as its clamped score and its feedback |
| AiService.Similarity | server/services/aiService.cjs:286-294 | for a non-empty word union, (first text's words found in the second, with repeats) / (distinct words of both), else 0; 0 exactly when the texts share no word |
| AiService.SimilaritySelf | server/services/aiService.cjs:286-294 | a repeat-free text compared with itself gives 1 |
| AiService.SimilarityAtMostOne | server/services/aiService.cjs:290-293 | a repeat-free first text gives at most 1 |
| AiService.FallbackFeedback | server/services/aiService.cjs:268-276 | each feedback text belongs to exactly one band: ≥80, 60..79, 40..59, below 40 |
| AiService.FallbackEvaluation | server/services/aiService.cjs:259-283 | the score is round(100 × shared / union) of the lower-cased texts' words, stated in integers as (2s − 1) × union ≤ 200 × shared < (2s + 1) × union, and 0 for an empty union; it is non-negative, the feedback is its band's, confidence is 0.6, and disjoint texts score 0 |
| AiService.FallbackAtMostHundred | server/services/aiService.cjs:265 | with a repeat-free reference the unclamped score is at most 100 |
| AiService.FallbackSelf | server/services/aiService.cjs:259-283 | a repeat-free answer equal to the reference gets (100, the excellent text, 0.6) |
| AiService.EvaluateAnswer | server/services/aiService.cjs:191-226 | the generator is asked exactly when the answer is present and not blank; a blank one gives (0, "No answer provided.", 1.0); a failure gives the fallback evaluation; a reply gives its parse |
| AiService.FallbackQuestion | server/services/aiService.cjs:127-168 | four options with exactly one correct, not generated, with the fallback explanation |
| AiService.FallbackByTopic | server/services/aiService.cjs:158-159 | the template depends only on the lower-cased topic, and an unknown topic gets the mathematics one |
| AiService.DefaultQuestion | server/services/aiService.cjs:174-185 | question i has four options of which exactly option i mod 4 is correct |
| AiService.DefaultQuestions | server/services/aiService.cjs:171-188 | n questions, the i-th correct at i mod 4 |
| AiService.DefaultQuestionsDistinct | server/services/aiService.cjs:175 | the default questions' texts are pairwise different |
| AiService.MarkCorrect | server/services/aiService.cjs:102-107 | the option named by the letter becomes the only correct one; a letter out of range marks none |
| AiService.ParseGeneratedQuestion | server/services/aiService.cjs:77-124 | a question comes out exactly when there is a question text, at least four options and a letter naming one of them; it then has exactly one correct option, one point and is marked generated |
| AiService.RenderRoundTrip | server/services/aiService.cjs:62-124 | a question written in the requested seven-line format is parsed back as itself |
| AiService.Produced | server/services/aiService.cjs:33-40 | a failed call contributes the fallback question; anything contributed is well formed |
| AiService.Collect | server/services/aiService.cjs:18-42 | the loop keeps one well-formed question per contributing iteration |
| AiService.CollectAt | server/services/aiService.cjs:33-40 | an iteration's question sits at the position given by the contributions before it |
| AiService.GenerateMCQ | server/services/aiService.cjs:12-49 | with count ≥ 1, between 1 and count questions come out, all well formed |
| AiService.GenerateKept | server/services/aiService.cjs:33-44 | when something was kept, the result is the kept questions in iteration order |
| AiService.GenerateNoneKept | server/services/aiService.cjs:44 | when nothing was kept, the result is the default set of count questions |
| AiService.GenerateAllFailed | server/services/aiService.cjs:37-41 | when every call fails, the result is count copies of the fallback question |
| PaperModel.NewQuestion | server/models/Paper.cjs:3-16 | a question's points default to 1 |
| PaperModel.NewPaper | server/models/Paper.cjs:18-55 | defaults: description '', time limit 60, total points 0, active, one attempt |
| PaperModel.Save | server/models/Paper.cjs:58-61 | saving succeeds exactly when the required texts are present; the total becomes the sum of question points and nothing else changes |
| PaperModel.Create | server/models/Paper.cjs:4-61 | creation succeeds exactly when title, due date and every question text are given; the stored total is the sum of points |
| PaperModel.SaveIdempotent | server/models/Paper.cjs:58-61 | saving a saved paper changes nothing |
| PaperModel.CreateIgnoresTotal | server/models/Paper.cjs:37-61 | a total supplied by the caller is overwritten |
| PaperModel.DefaultPointsTotal | server/models/Paper.cjs:12-15 | a paper of n questions with default points totals n |
| SubmissionModel.NewAnswer | server/models/Submission.cjs:3-20 | an answer's points default to 0 |
| SubmissionModel.NewSubmission | server/models/Submission.cjs:22-60 | defaults: score 0, percentage 0, time 0, not completed, submitted now, attempt 1 |
| SubmissionModel.Save | server/models/Submission.cjs:63-66 | the total score becomes the sum of answer points and nothing else changes |
| SubmissionModel.SaveIdempotent | server/models/Submission.cjs:63-66 | saving twice is saving once |
| SubmissionModel.EmptyScoresZero | server/models/Submission.cjs:63-66 | no answers give a total score of 0 |
| SubmissionModel.DefaultPointsScoreZero | server/models/Submission.cjs:16-19 | answers with default points total 0 |
| SubmissionsRoute.GradeAnswer | server/routes/submissions.js:36-45 | an answer is correct exactly when its index picks an existing correct option; it earns the question's points if correct and 0 otherwise |
| SubmissionsRoute.GradeAnswers | server/routes/submissions.js:35-46 | grading succeeds exactly when no answer lies past the last question, and keeps order and length |
| SubmissionsRoute.Percentage | server/routes/submissions.js:59-61 | 0 without points; otherwise the nearest integer to score / total × 100, that is (2r − 1) × total ≤ 200 × score < (2r + 1) × total; within 0..100 for a score within the total; 100 for a full score |
| SubmissionsRoute.Gate | server/routes/submissions.js:14-32 | 404 exactly for a missing or inactive paper; then 400 exactly when past due; then 400 exactly when attempts are used up |
| SubmissionsRoute.Draft | server/routes/submissions.js:49-56 | the new document has attempt prior + 1, is completed, and still holds the default score |
| SubmissionsRoute.SubmitAsWritten | server/routes/submissions.js:9-76 | the handler as written stores a percentage of 0 |
| SubmissionsRoute.Submit | server/routes/submissions.js:9-76 | each reply happens exactly under its condition; a stored submission has attempt prior + 1 ≤ allowed, is completed, has one answer per selection, and its score and percentage agree with its answers |
| SubmissionsRoute.SubmitAnswers | server/routes/submissions.js:35-56 | each stored answer is the verdict on the selection at its position |
| SubmissionsRoute.SubmitPercentageInRange | server/routes/submissions.js:59-63 | on a saved paper with non-negative points the percentage lies in 0..100 |
| SubmissionsRoute.SubmitAllCorrect | server/routes/submissions.js:59-63 | answering every question correctly gives 100 |
| SubmissionsRoute.AsWrittenDiffersOnlyInPercentage | server/routes/submissions.js:58-63 | the handler as written differs from the corrected one only in the percentage |
| SubmissionsRoute.PercentageCounterexample | server/routes/submissions.js:58-63 | a one-point paper answered correctly stores 0 as written, where 100 is due |
| CreatePaper.BlankIffTrimsEmpty | src/pages/CreatePaper.tsx:144 | a field is blank exactly when trimming leaves nothing |
| CreatePaper.HandleQuestionChange | src/pages/CreatePaper.tsx:66-75 | only the target question's text or points change; any other field name leaves the list as it was |
| CreatePaper.SetCorrectAnswer | src/pages/CreatePaper.tsx:86-92 | the target question's option o becomes the only correct one; everything else stays |
| CreatePaper.SetCorrectSettles | src/pages/CreatePaper.tsx:86-92 | after marking an existing option, the question has exactly that correct option |
| CreatePaper.AddQuestion | src/pages/CreatePaper.tsx:94-108 | one blank question is appended and the others stay |
| CreatePaper.RemoveQuestion | src/pages/CreatePaper.tsx:110-114 | exactly the given question goes, unless it is the only one; the list never becomes empty |
| CreatePaper.AddThenRemove | src/pages/CreatePaper.tsx:94-114 | removing a question just added gives the list back |
| CreatePaper.BlankCount | src/pages/CreatePaper.tsx:173 | no blank options exactly when every option has text |
| CreatePaper.QuestionProblem | src/pages/CreatePaper.tsx:160-177 | a question has no problem exactly when it has text, a correct option and no blank option |
| CreatePaper.FirstProblem | src/pages/CreatePaper.tsx:159-178 | the loop reports the first rejected question and its first problem, or nothing when all pass |
| CreatePaper.ValidateForm | src/pages/CreatePaper.tsx:143-181 | the form passes exactly when title, due date and all questions are acceptable; otherwise the first failing check names the message, with the 1-based question number |
| CreatePaper.BlankQuestionRejected | src/pages/CreatePaper.tsx:97-106 | a newly added question is rejected for its missing text |
| TakePaper.SelectAnswer | src/pages/TakePaper.tsx:75-80 | only the chosen question's answer changes |
| TakePaper.SelectCount | src/pages/TakePaper.tsx:115-117 | answering a new question raises the count by one; changing an answer keeps it |
| TakePaper.SubmissionAnswers | src/pages/TakePaper.tsx:87-89 | one answer per question, in order, -1 exactly for the unanswered ones |
| TakePaper.SubmissionMatchesPaper | src/pages/TakePaper.tsx:87-89 | the server can grade what the page sends, and an unanswered question earns nothing |
| TakePaper.Previous | src/pages/TakePaper.tsx:274 | one back, never below 0 |
| TakePaper.Next | src/pages/TakePaper.tsx:309 | one on, never past the last question |
| TakePaper.NavigationStaysOnQuestion | src/pages/TakePaper.tsx:274-309 | both buttons keep the position on a question |
| TakePaper.NextThenPrevious | src/pages/TakePaper.tsx:274-309 | "Next" then "Previous" returns, except on the last question |
| TakePaper.TickOnce | src/pages/TakePaper.tsx:63-69 | a tick submits exactly at one second or less left, and then shows 0 |
| TakePaper.CountdownSubmitsOnTime | src/pages/TakePaper.tsx:45-69 | from t seconds the paper is submitted by exactly the t-th tick |
| TakePaper.TimeSpent | src/pages/TakePaper.tsx:91 | the minutes spent are the nearest integer to the elapsed seconds / 60, that is (2r − 1) × 60 ≤ 2 × elapsed < (2r + 1) × 60; within 0..limit, 0 at the start and the limit at time-out |
| TakePaper.Pad2 | src/pages/TakePaper.tsx:112 | seconds are shown as exactly two digits |
| TakePaper.FormatTimeRoundTrip | src/pages/TakePaper.tsx:109-113 | the clock display reads back as the number of seconds shown |
| TakePaper.FormatTimeInjective | src/pages/TakePaper.tsx:109-113 | different times show differently |
| ViewSubmissions.AverageScore | src/pages/ViewSubmissions.tsx:81-83 | the mean percentage: average × count = sum of percentages; 0 without submissions; within 0..100 for percentages |
| ViewSubmissions.PassRate | src/pages/ViewSubmissions.tsx:85-87 | rate × count = 100 × (percentages ≥ 60); within 0..100; 0 without submissions; 100 exactly when all pass; 0 exactly when none pass |
| ViewSubmissions.ScoreColorMatchesReport | src/pages/ViewSubmissions.tsx:234-236 | the page's colour bands are the report's |
| ViewSubmissions.Fields | src/pages/ViewSubmissions.tsx:91-101 | a row has one field per header |
| ViewSubmissions.Quoted | src/pages/ViewSubmissions.tsx:104 | a field is wrapped in one quote on each side and nothing else changes |
| ViewSubmissions.Rows | src/pages/ViewSubmissions.tsx:90-103 | the header row, then one row per submission in order |
| ViewSubmissions.DecodeEncodeRow | src/pages/ViewSubmissions.tsx:104 | a row without quotes or line feeds reads back as its fields |
| ViewSubmissions.RowOneLine | src/pages/ViewSubmissions.tsx:104 | such a row is written on one line |
| ViewSubmissions.ReadExport | src/pages/ViewSubmissions.tsx:89-105 | the export of quote- and line-free submissions reads back as the header and the rows |
| ViewSubmissions.QuoteBreaksRow | src/pages/ViewSubmissions.tsx:104 | a field holding a quote is not escaped, so its row no longer reads back |
| StudentDashboard.SubmissionCount | src/pages/StudentDashboard.tsx:66-68 | the count is 0 exactly when no submission is for the paper, and never exceeds the list |
| StudentDashboard.CountAppend | src/pages/StudentDashboard.tsx:66-68 | counting over two lists adds the counts |
| StudentDashboard.LatestSubmission | src/pages/StudentDashboard.tsx:70-75 | none exactly when the paper has no submission; otherwise the paper's latest, the first listed among equal times |
| StudentDashboard.ButtonFor | src/pages/StudentDashboard.tsx:151-182 | a link exactly while attempts remain and the due time has not passed, "Retake" exactly when attempted before; otherwise "Expired" exactly when past due, else "Max Attempts" |
| StudentDashboard.ButtonAgreesWithServer | src/pages/StudentDashboard.tsx:151-172 | for an active paper the link shows exactly when the server would accept a submission |
| StudentDashboard.AverageScore | src/pages/StudentDashboard.tsx:77-79 | the mean percentage: average × count = sum of percentages; 0 without submissions; within 0..100 for percentages |
| StudentDashboard.Recent | src/pages/StudentDashboard.tsx:225 | the first min(5, n) submissions, as listed |
| Text.TrimEmptyIff | src/utils/fileParser.ts:6 | trimming leaves nothing exactly when the text is all white space |
| Text.JoinSplit | src/utils/fileParser.ts:38 | splitting on a character and joining back gives the text |
| Text.SplitJoin | src/utils/fileParser.ts:38 | splitting a join of character-free parts gives the parts |
| Text.Dedup | src/services/aiGrader.ts:17 | no repeats, the same members, in the order of their first occurrence |
| Text.NatToStringRoundTrip | src/utils/fileParser.ts:87 | a rendered number reads back as itself |
| Text.Round | src/services/aiGrader.ts:38 | the result is within one half of the argument, halves rounding up |
| Text.RoundMonotone | src/services/aiGrader.ts:45 | rounding is monotone |
| Text.ClampPercent | src/services/aiGrader.ts:45 | the result lies in 0..100 and equals the argument when it already does |
| Stats.MeanOrZeroOfPercents | src/pages/ViewSubmissions.tsx:81-83 | the mean of percentages, or 0, lies in 0..100 |
| Stats.MeanBounds | src/components/GradingResults.tsx:13 | the mean of scores all at least a mark is at least that mark; of scores all below it, below it |
| Stats.RoundedQuotient | server/routes/submissions.js:59-61 | a value rounded from a / n × m satisfies (2r − 1) × n ≤ 2 × m × a < (2r + 1) × n, the predicate NearestShare |
| Stats.CountAllIff | src/components/GradingResults.tsx:14 | the count at or above a mark is the length exactly when every score reaches it |

## Findings

| source | as written | input that shows it | evidently intended | confidence | as-written member | corrected member |
|---|---|---|---|---|---|---|
| server/routes/submissions.js:59-63 | the percentage is computed from `submission.totalScore` before `save()`, and only the pre-save hook (server/models/Submission.cjs:63-66) fills the total, so the stored percentage is always 0 | a one-question paper worth 1 point, answered correctly | percentage = round(sum of earned points / total points × 100) | not executed | SubmissionsRoute.SubmitAsWritten, SubmissionsRoute.PercentageCounterexample | SubmissionsRoute.Submit, SubmissionsRoute.SubmitAllCorrect, SubmissionsRoute.SubmitPercentageInRange |

## Left out

- The text generator: the Hugging Face client, the prompt texts (`createQuestionPrompt`), `checkAPIHealth` and `getAvailableTopics`. The generator is an oracle reply, either text or failure.
- HTTP routing, authentication, Mongoose I/O, `populate` and the other routes. The submit handler receives the paper, the prior attempt count and the time as arguments.
- React rendering, `axios`, `alert`, `setInterval` scheduling and `FileReader`. Only the state changes and the values the pages compute are modelled.
- Dates: `new Date()`, date parsing and `toLocaleString`. Times are integers, and the CSV's formatted date is an opaque string. An invalid date string, which JavaScript compares as NaN, is not modelled.
- Floating point: ratios are exact reals and `Math.round` is `Floor(x + 1/2)`, without IEEE-754 rounding effects.
- Case mapping and white space: `toLowerCase`/`toUpperCase` map ASCII letters only. `\s` and `trim` use JavaScript's white-space set.
- Lengths: strings are sequences of Unicode code points, while JavaScript's `.length` counts UTF-16 code units. A character outside the Basic Multilingual Plane (an emoji such as U+1F600) has length 1 in the model and 2 in JavaScript. The four places where this changes a result follow.
- AiGrader.Grade: the no-answer test `trim().length < 2` counts code points, so a single emoji answer gets the no-answer result here while the page grades it.
- AiGrader.LongWords: the test `word.length > 2` counts code points, so a word of two emoji is dropped here while the page keeps it.
- AiGrader.LengthAdjusted: the length ratio of the answers counts code points, so it differs from the page's for text outside the Basic Multilingual Plane.
- AiGrader.Feedback: the short-answer note for `length < 10` counts code points, so an answer of five emoji gets the note here but not on the page.
- Logging (`console.log`, `console.warn`, `console.error`).
- `try`/`catch` blocks whose `try` part cannot throw on the modelled inputs: the one in `gradeAnswer` and the outer one of `generateMCQQuestions`. The catch value of `gradeAnswer` is stated as a constant, `AiGrader.ErrorResultValues`. The outer catch of `generateMCQQuestions` would return the default questions, which the model reaches only through the empty-result path. The `try` blocks of `parseEvaluationResponse` and `parseGeneratedQuestion` are modelled: their only throw is a missing response text, given as `None`, which yields the catch evaluation and no question respectively.
- AiService.GenerateMCQ: `count` is a natural number. It equals the number of oracle replies, one per loop iteration. A fractional or negative count is not modelled.
- AiService.FallbackByTopic: a topic naming an `Object.prototype` property (such as "constructor") would pick that property in JavaScript. The model treats every topic other than "science" and "history" as mathematics.
- AiService.EvaluateAnswer: the question text only goes into the prompt, so it does not affect the result.
- AiService.ParseGeneratedQuestion: the unused `questionNumber` parameter is dropped.
- GradingResults.Summarize: it requires a non-empty list. For an empty list the page would divide by zero and show NaN, but it only renders with results.
- App.GradeRecord: `gradedAt` is one time stamp supplied by the caller.
- CreatePaper.HandleQuestionChange: it requires a string value for "question" and an integer for "points". The points input passes `parseInt(e.target.value)` (src/pages/CreatePaper.tsx:427), so clearing the field stores NaN, which the model's integer points cannot hold; NaN points, and what the totals and validation then do with them, are not modelled.
- `CreatePaper`: `handleOptionChange`, `handleFormChange`, `generateAIQuestions` and `handleSubmit` are not modelled. They are plain field writes or network calls.
- PaperModel.Create: Mongoose's validation error details, and the `lecturer`/`student`/`paper` references, are not modelled. `timestamps` is not modelled either.
- AiGrader.Feedback: its contract states the opening band sentence, the trimming and the closing notes. The band's middle sentences are defined in the model but not restated in a contract.
- ViewSubmissions.QuoteBreaksRow: the export does not double embedded quotes, unlike rule 7 of section 2 of RFC 4180. This is kept as the page does it, and `ReadExport` is stated only for fields without quotes or line feeds.
- StudentDashboard.LatestSubmission: submission times are integers, so an invalid date, which gives NaN in the sort, is not modelled.
- The pages AdminDashboard and LecturerDashboard, and the components QuestionCard, FileUploader, Navbar, Header, LoadingSpinner and AIHealthCheck, are not part of this model. They display data without logic beyond what is modelled here.
