# Exam proctoring and grading core, in Dafny

This project models the core of an online exam system in Dafny:

- **Text processing** (`TextProcessor`): cleaning, stop-word removal, lemmatisation and keyword extraction.
- **Answer evaluation** (`AnswerEvaluator`): similarity, keyword coverage, length ratio, rubric penalty and feedback bands.
- **Scoring engine** (`ScoringEngine`): it grades each question, grades the exam, assigns the letter grade and writes the report.
- **Activity monitor** (`ActivityMonitoring`): it analyses one camera frame at a time. It keeps a bounded history and frame buffer, summarises a session and saves evidence.
- **Monitoring endpoints** (`MonitoringApi`): these start a session and accept frames, audio levels and tab-switch events. They also build the monitoring part of the session report.
- **Exam routes** (`ExamApp`): `take_exam`, and `submit_exam` with its objective auto-grading.

Helper modules:

- `Strings` models the Python `str` built-ins the core relies on: `isspace`, `lower`, `strip`, `split`, `join`, `in` and decimal printing.
- `ExamRecords` holds the database rows and the percentage arithmetic.
- `Tally` holds the insertion-ordered counting dictionaries.
- `CivilTime` holds the `timedelta.seconds` and `strftime('%Y%m%d_%H%M%S')` arithmetic.
- `Optional` holds `Option` and `Result`.

How the model is built:

- State the source updates in place is a class whose methods carry `modifies` clauses:
  - `ActivityMonitor` (history, frame buffer, absence timer);
  - `MonitoringService` (the live monitors, the session and log tables, and an ordered trace of the log commits, evidence writes and socket emits; a new session row is added to the session table directly);
  - `ExamDatabase` (sessions and answers).
- Each method is proved against specification functions, such as `FrameActivities`, `AutoGrade`, `FrameLogs`, `FrameTrace`, `Strengths` and `Counts`. The properties the code promises are proved about those functions as lemmas.
- The detectors (face, object, audio), the sentence-embedding model, the spaCy/NLTK tokeniser and lemmatiser, and the clock are inputs or function parameters.
- Python floats are modelled as `real`.

## Model

| member | source | states |
|---|---|---|
| `Strings.LowerChar` | ml_models/nlp_grading/text_processor.py:44 | an ASCII capital becomes the single lower-case letter 32 code points above it; U+212A becomes "k" and U+0130 the two characters "i" and U+0307; every other character stays as it is |
| `Strings.Lower` | ml_models/nlp_grading/text_processor.py:44 | the lowered string has no ASCII capital and is never shorter; without U+0130 it has the same length and each position holds that input character lower-cased |
| `Strings.LowerAppend` | ml_models/nlp_grading/text_processor.py:44 | lower-casing a concatenation lower-cases each part in place |
| `Strings.Strip` | ml_models/nlp_grading/scoring_engine.py:72 | the result is a contiguous slice of the input with only whitespace outside it, and it neither starts nor ends with whitespace |
| `Strings.StripUnique` | working_app.py:602 | any slice with whitespace-only surroundings and no whitespace at its ends is exactly what `strip()` returns |
| `Strings.Split` | ml_models/nlp_grading/anwer_evaluator.py:81-82 | `split()` returns non-empty words without whitespace, made of the input's characters, and none iff the input is all whitespace |
| `Strings.SplitSpaceThen` | ml_models/nlp_grading/anwer_evaluator.py:81-82 | whitespace before the first word is skipped |
| `Strings.SplitWordThen` | ml_models/nlp_grading/anwer_evaluator.py:81-82 | a run of non-space characters ending at whitespace or at the end is the next word; with `SplitSpaceThen` this makes the words exactly the maximal non-space runs, in order |
| `Strings.SplitJoin` | ml_models/nlp_grading/text_processor.py:50 | splitting the space-join of whitespace-free words gives back the same words |
| `Strings.JoinOfLowerWords` | ml_models/nlp_grading/text_processor.py:50 | joining lower-case words gives a single-spaced, lower-case string that is non-empty when there are words |
| `Strings.Contains` | ml_models/nlp_grading/anwer_evaluator.py:125 | substring test: true iff the needle occurs at some index of the haystack |
| `Strings.IntToString` | ml_models/cheating_detection/activity_monitor.py:220 | `str(i)`: a minus sign exactly for negative numbers, then the digits, without a leading zero, whose decimal value is the absolute value |
| `Strings.NatToString` | ml_models/cheating_detection/activity_monitor.py:220 | `str(n)` for a natural number: decimal digits without a leading zero whose value is `n` |
| `Strings.IntToStringInjective` | ml_models/cheating_detection/activity_monitor.py:220 | different integers render as different strings |
| `TextProcessor.KeepLettersAndSpaces` | ml_models/nlp_grading/text_processor.py:47 | the regex substitution keeps only ASCII letters and whitespace; the result is a subsequence of the input (order kept) and keeps every ASCII letter and whitespace character as often as it occurs |
| `TextProcessor.CleanText` | ml_models/nlp_grading/text_processor.py:41-52 | cleaned text holds only lower-case letters and single spaces, with no space at either end |
| `TextProcessor.CleanTextWords` | ml_models/nlp_grading/text_processor.py:47-50 | the cleaned text has the same words as the lowered, letters-only text |
| `TextProcessor.CleanTextIdempotent` | ml_models/nlp_grading/text_processor.py:41-52 | cleaning twice is the same as cleaning once |
| `TextProcessor.RemoveStopwords` | ml_models/nlp_grading/text_processor.py:58-60 | the result is a subsequence of the tokens with no stop word in it, and every other word keeps its multiplicity |
| `TextProcessor.RemoveStopwordsExact` | ml_models/nlp_grading/text_processor.py:58-60 | a word survives iff it is a token and not a stop word |
| `TextProcessor.Lemmatize` | ml_models/nlp_grading/text_processor.py:62-64 | lemmatising maps each token to its lemma, position by position |
| `TextProcessor.ProcessTextOfCleaned` | ml_models/nlp_grading/text_processor.py:66-82 | processing already cleaned text gives the same tokens as processing the raw text |
| `TextProcessor.ProcessTextStopWords` | ml_models/nlp_grading/text_processor.py:66-82 | with stop-word removal, lemmatising keeps the number of surviving tokens, and without lemmatising no stop word remains |
| `TextProcessor.Take` | ml_models/nlp_grading/text_processor.py:106 | `[:n]` is the longest prefix of length at most `n` |
| `TextProcessor.Dedup` | ml_models/nlp_grading/text_processor.py:105 | `list(set(...))` holds each input element exactly once and nothing else |
| `TextProcessor.SortByCount` | ml_models/nlp_grading/text_processor.py:110-111 | the sort is a rearrangement of the same elements, ordered by non-increasing token count |
| `TextProcessor.MostCommon` | ml_models/nlp_grading/text_processor.py:110-111 | `most_common(n)` gives `min(n, number of distinct tokens)` distinct tokens in non-increasing order of count, and no token left out occurs more often than any token taken |
| `TextProcessor.ExtractKeywords` | ml_models/nlp_grading/text_processor.py:84-111 | at most `top_n` distinct keywords; with spaCy, `min(top_n, number of distinct candidates)` of its candidates; without it, exactly the `top_n` most common processed tokens |
| `ExamRecords.Percentage` | ml_models/nlp_grading/scoring_engine.py:53-56 | 0 when the maximum is not positive; in [0, 100] when the total lies in [0, max]; exactly 100 at full marks |
| `ExamRecords.Scaled` | working_app.py:611-612 | `total / max * 100` satisfies `p * max == total * 100` and lies in [0, 100] for totals within [0, max] |
| `ExamRecords.SameAnswerIgnoresPadding` | working_app.py:602 | whitespace before and after an answer never changes its comparison with any other answer |
| `ExamRecords.StripPadded` | ml_models/nlp_grading/scoring_engine.py:72 | stripping a string with whitespace added on either side is stripping the string |
| `AnswerEvaluator.KeywordCoverage` | ml_models/nlp_grading/anwer_evaluator.py:68-71 | coverage lies in [0, 1] |
| `AnswerEvaluator.KeywordCoverageZero` | ml_models/nlp_grading/anwer_evaluator.py:69-70 | coverage is 0 iff the student mentions none of the model keywords |
| `AnswerEvaluator.KeywordCoverageFull` | ml_models/nlp_grading/anwer_evaluator.py:69-70 | for distinct model keywords, coverage is 1 iff the student mentions all of them |
| `AnswerEvaluator.MissingKeywords` | ml_models/nlp_grading/anwer_evaluator.py:74 | the missing keywords are exactly the model keywords the student lacks, each listed once |
| `AnswerEvaluator.CoverageRemarks` | ml_models/nlp_grading/anwer_evaluator.py:73-78 | a "Consider discussing" remark appears iff some model keyword is missing, and it names exactly min(3, number missing) distinct missing keywords, as `list(missing)[:3]` does |
| `AnswerEvaluator.CappedRatio` | ml_models/nlp_grading/anwer_evaluator.py:81-84 | the length ratio lies in [0, 1], is 0 for an empty model answer, 1 once the student answer is as long, and exactly student/model otherwise |
| `AnswerEvaluator.DefaultOverall` | ml_models/nlp_grading/anwer_evaluator.py:91-95 | with measures in [0, 1], the 0.5/0.3/0.2 weighting stays in [0, 1] |
| `AnswerEvaluator.BandRemark` | ml_models/nlp_grading/anwer_evaluator.py:98-105 | the closing remark is always one of the four score bands |
| `AnswerEvaluator.BandCutoffs` | ml_models/nlp_grading/anwer_evaluator.py:98-105 | each band is chosen exactly on its interval: below 0.5, [0.5, 0.7), [0.7, 0.9), from 0.9 |
| `AnswerEvaluator.BandMonotone` | ml_models/nlp_grading/anwer_evaluator.py:98-105 | a higher overall score never earns a lower band |
| `AnswerEvaluator.MentionsInEmpty` | ml_models/nlp_grading/anwer_evaluator.py:124-125 | the empty text mentions a keyword iff the keyword is empty |
| `AnswerEvaluator.MissingRequiredKeywords` | ml_models/nlp_grading/anwer_evaluator.py:123-125 | the missing required keywords are exactly those whose lower-case form is absent from the text, each once |
| `AnswerEvaluator.MissingInEmptyText` | ml_models/nlp_grading/anwer_evaluator.py:124-125 | against the text the rubric actually reads (always empty), every non-empty required keyword is missing |
| `AnswerEvaluator.RubricOverall` | ml_models/nlp_grading/anwer_evaluator.py:114-119 | a rubric without weights scores exactly like the default weighting |
| `AnswerEvaluator.RubricScorePenalty` | ml_models/nlp_grading/anwer_evaluator.py:114-131 | the 0.8 penalty is applied exactly when the rubric lists some non-empty required keyword |
| `AnswerEvaluator.RubricPenaltyCondition` | ml_models/nlp_grading/anwer_evaluator.py:122-128 | some required keyword is missing iff some required keyword is non-empty |
| `AnswerEvaluator.RubricRemarks` | ml_models/nlp_grading/anwer_evaluator.py:127-131 | a "Missing required concepts" remark appears iff the rubric lists a non-empty required keyword |
| `AnswerEvaluator.ApplyRubric` | ml_models/nlp_grading/anwer_evaluator.py:109-133 | the rubric replaces the overall score by its weighted, possibly penalised score and appends its remark, leaving the measures unchanged |
| `AnswerEvaluator.EvaluateAnswer` | ml_models/nlp_grading/anwer_evaluator.py:49-107 | fails iff no rubric is given and there are no model keywords (coverage read before assignment); otherwise it returns the similarity given, the coverage, the length ratio, the default or rubric score, and the feedback in source order ending with the band remark |
| `ScoringEngine.GradeQuestion` | ml_models/nlp_grading/scoring_engine.py:60-103 | models the branches as written for a `Question` row with a `rubric` column (see Left out): fails iff the question is objective without a correct answer, naming that question; objective scoring is all-or-nothing on the stripped, lower-cased comparison; subjective scoring is the overall score times the maximum with the evaluator's feedback and measures; any other type scores 0 |
| `ScoringEngine.GradeQuestionBounds` | ml_models/nlp_grading/scoring_engine.py:70-95 | a graded score lies in [0, max], and an objective one is 0 or max |
| `ScoringEngine.FindAnswer` | ml_models/nlp_grading/scoring_engine.py:28-31 | the answer found is the first one for the question; none is found iff no answer has that question id |
| `ScoringEngine.SuppliedText` | ml_models/nlp_grading/scoring_engine.py:33 | an answer counts as given iff it exists and its text is non-empty |
| `ScoringEngine.GradeEntry` | ml_models/nlp_grading/scoring_engine.py:26-48 | an unanswered question (no answer, or empty text) scores 0 out of its maximum with "No answer provided"; an answered one is graded by `GradeQuestion` on the first answer's text and the evaluation of that text |
| `ScoringEngine.GradeExam` | ml_models/nlp_grading/scoring_engine.py:14-58 | fails iff some question fails to grade, and then with the first failing question's error; otherwise one result per question in order, the totals of scores and maxima, and the percentage |
| `ScoringEngine.TotalScoreBounds` | ml_models/nlp_grading/scoring_engine.py:49-50 | scores within their maxima add up to a total within the total maximum |
| `ScoringEngine.GradeExamPercentageBounds` | ml_models/nlp_grading/scoring_engine.py:49-56 | with non-negative maxima and evaluator scores in [0, 1], every question score and the exam percentage stay in range |
| `ScoringEngine.CalculateGrade` | ml_models/nlp_grading/scoring_engine.py:144-155 | the letter is A, B, C, D or F, each exactly on its band of the percentage |
| `ScoringEngine.GradeMonotone` | ml_models/nlp_grading/scoring_engine.py:144-155 | a higher percentage never earns a worse letter |
| `ScoringEngine.StrengthLine` | ml_models/nlp_grading/scoring_engine.py:138 | a strength line is "Question ", the question id in decimal, then ": Excellent understanding" |
| `ScoringEngine.ImprovementLine` | ml_models/nlp_grading/scoring_engine.py:140 | an improvement line is "Question ", the question id in decimal, then ": Needs improvement" |
| `ScoringEngine.LinesNameTheirQuestion` | ml_models/nlp_grading/scoring_engine.py:137-140 | a strength line, and an improvement line, determines the question it names |
| `ScoringEngine.StrengthListed` | ml_models/nlp_grading/scoring_engine.py:137-138 | the strengths name a question iff some result for that question is at 80 per cent or more |
| `ScoringEngine.ImprovementListed` | ml_models/nlp_grading/scoring_engine.py:139-140 | the areas for improvement name a question iff some result for that question is under 50 per cent |
| `ScoringEngine.ScoredHighOrLow` | ml_models/nlp_grading/scoring_engine.py:137-140 | with distinct question ids, no question both reaches 80 per cent and stays under 50 |
| `ScoringEngine.StrengthsImprovementsDisjoint` | ml_models/nlp_grading/scoring_engine.py:137-140 | when the question ids are distinct, no question is listed both as a strength and as an area for improvement |
| `ScoringEngine.ListedAtMostOnce` | ml_models/nlp_grading/scoring_engine.py:137-140 | the report lists at most as many strengths and improvements together as there are questions |
| `ScoringEngine.GenerateReport` | ml_models/nlp_grading/scoring_engine.py:105-142 | the summary with its letter grade, one breakdown per question in order, and the strengths (at least 80 per cent) and improvements (under 50 per cent) in question order |
| `CivilTime.DeltaSeconds` | ml_models/cheating_detection/activity_monitor.py:55 | `timedelta.seconds` is under a day, and it is the plain difference for gaps under a day |
| `CivilTime.ToDateTime` | ml_models/cheating_detection/activity_monitor.py:220 | the calendar fields of a timestamp are in range and denote exactly that timestamp: the days of the whole years since 1970, of the whole months before and of the day, times 86400, plus the time of day |
| `CivilTime.FormatCompactShape` | ml_models/cheating_detection/activity_monitor.py:220 | before year 10000, `%Y%m%d_%H%M%S` is eight digits, an underscore and six digits |
| `Tally.CountsExact` | ml_models/cheating_detection/activity_monitor.py:176-182 | the counting dictionary has each key once, exactly the keys seen, each with its number of occurrences, summing to the number of items |
| `Tally.CountsKeys` | ml_models/cheating_detection/activity_monitor.py:180-181 | each key seen is listed exactly once, and no other key is listed |
| `Tally.CountsOccurrences` | app/routes/api.py:194-198 | each key's count is its number of occurrences |
| `Tally.CountsSum` | app/routes/api.py:194-198 | the counts add up to the number of items counted |
| `Tally.BumpFacts` | ml_models/cheating_detection/activity_monitor.py:180-182 | one increment raises exactly one key's count by one and leaves the other entries alone |
| `ActivityMonitoring.BoundedAppend` | ml_models/cheating_detection/activity_monitor.py:123-131 | appending to a `deque(maxlen=n)` keeps the newest `n` items, the appended one last |
| `ActivityMonitoring.AnalyzeGaze` | ml_models/cheating_detection/activity_monitor.py:150-168 | the gaze is suspicious iff either coordinate leaves [0.2, 0.8]; the side check takes precedence; a suspicious gaze has confidence 0.7 |
| `ActivityMonitoring.Labelled` | ml_models/cheating_detection/activity_monitor.py:69 | the filter keeps exactly the detections of the given class |
| `ActivityMonitoring.LabelledMultiplicity` | ml_models/cheating_detection/activity_monitor.py:69-74 | each detection of the class is kept as often as it occurs, so `len(phones)` counts them all |
| `ActivityMonitoring.LabelledAppend` | ml_models/cheating_detection/activity_monitor.py:69 | the filter works piece by piece, so it keeps the detections in their order |
| `ActivityMonitoring.MaxConfidence` | ml_models/cheating_detection/activity_monitor.py:73 | the maximum confidence is attained and bounds all detections |
| `ActivityMonitoring.AbsenceTimerStarts` | ml_models/cheating_detection/activity_monitor.py:52-54 | the first frame without a face starts the absence timer and reports no absence |
| `ActivityMonitoring.AbsenceReported` | ml_models/cheating_detection/activity_monitor.py:52-63 | one absence (confidence 0.95) is reported iff no face is seen, the timer runs and more than the threshold's seconds have passed; a seen face resets the timer |
| `ActivityMonitoring.MultipleFacesReported` | ml_models/cheating_detection/activity_monitor.py:43-49 | one multiple-faces activity (confidence 0.9) is reported iff more than one face is seen, and then no absence |
| `ActivityMonitoring.ObjectReported` | ml_models/cheating_detection/activity_monitor.py:69-86 | one phone (or book) activity is reported iff such an object is detected, with the highest confidence among them |
| `ActivityMonitoring.KindsOfParts` | ml_models/cheating_detection/activity_monitor.py:36-120 | every reported activity comes from the check of its own kind |
| `ActivityMonitoring.FrameCountOf` | ml_models/cheating_detection/activity_monitor.py:36-120 | the number of activities of each non-audio kind is the size of that check's output |
| `ActivityMonitoring.ScoreIsWeightSum` | ml_models/cheating_detection/activity_monitor.py:184-198 | the suspicion score, `sum(count * weight)`, equals the weight of every activity added up one by one |
| `ActivityMonitoring.Alerts` | ml_models/cheating_detection/activity_monitor.py:204-208 | the high-confidence alerts are exactly the activities above the threshold |
| `ActivityMonitoring.AlertsMultiplicity` | ml_models/cheating_detection/activity_monitor.py:204-208 | each activity above the threshold is kept as often as it occurs, and no other |
| `ActivityMonitoring.AlertsAppend` | ml_models/cheating_detection/activity_monitor.py:204-208 | the filter works piece by piece, so the alerts keep history order |
| `ActivityMonitoring.ActivityMonitor.constructor` | ml_models/cheating_detection/activity_monitor.py:11-31 | a new monitor has an empty history and frame buffer and no absence timer |
| `ActivityMonitoring.ActivityMonitor.AnalyzeFrame` | ml_models/cheating_detection/activity_monitor.py:33-133 | returns the frame's activities, advances the absence timer, appends to the bounded history, and buffers the frame only when something was reported |
| `ActivityMonitoring.ActivityMonitor.GetSummary` | ml_models/cheating_detection/activity_monitor.py:170-209 | no summary iff the history is empty; otherwise the per-kind counts, the weighted suspicion score, the number of frames and the above-threshold alerts over the retained history |
| `ActivityMonitoring.ActivityMonitor.SaveEvidence` | ml_models/cheating_detection/activity_monitor.py:211-229 | no file without a buffered frame, when the newest buffered frame did not decode, or when the write raises; otherwise (even when `imwrite` only reports failure) the name built from the session, the activity type and the newest buffered frame's time |
| `ActivityMonitoring.EvidenceFilenameShape` | ml_models/cheating_detection/activity_monitor.py:220 | the evidence file name is `<session>_<type>_`, the fifteen-character timestamp, then `.jpg` |
| `MonitoringApi.EvidenceFor` | app/routes/api.py:81-84 | a logged activity gets an evidence file iff its confidence exceeds 0.8, the frame decoded and its own write does not raise; the file is named after the frame just analysed |
| `MonitoringApi.WarningOf` | app/routes/api.py:89-93 | the warning goes to the student's own room and carries the activity type and the message "Warning: " followed by the activity's details |
| `MonitoringApi.AlertOf` | app/routes/api.py:95-103 | the alert goes to the admins' room and carries the session id, the student's username, and the activity's type, details, confidence and timestamp |
| `MonitoringApi.FrameLogsExact` | app/routes/api.py:70-87 | the frame writes one log row per activity above the threshold, in order, each with the evidence file its own write gives, if any |
| `MonitoringApi.ActivityEffectsOrdered` | app/routes/api.py:80-103 | for each logged activity, the evidence write comes before its commit, which comes before the student warning and then the admin alert |
| `MonitoringApi.AppendOrdered` | app/routes/api.py:70-103 | well-ordered effect blocks stay well-ordered when concatenated |
| `MonitoringApi.FrameTraceOrdered` | app/routes/api.py:70-103 | the whole trace of a frame is well-ordered in this sense |
| `MonitoringApi.FrameTraceCommits` | app/routes/api.py:70-87 | a frame commits exactly one log row per logged activity |
| `MonitoringApi.LogReportStep` | app/routes/api.py:194-206 | each log adds one to its type's count and joins the alerts iff its confidence exceeds 0.7 |
| `MonitoringApi.LogSummaryCounts` | app/routes/api.py:186-206 | the summary rebuilt from logs counts each activity type of the session once per log, with no type repeated |
| `MonitoringApi.SessionLogs` | app/routes/api.py:187 | the filter keeps exactly the session's logs |
| `MonitoringApi.SessionLogsMultiplicity` | app/routes/api.py:187 | each of the session's logs is kept as often as it occurs, and no other |
| `MonitoringApi.SessionLogsAppend` | app/routes/api.py:187 | the filter works piece by piece, so the session's logs keep their order |
| `MonitoringApi.HighConfidenceLogs` | app/routes/api.py:200-206 | the rebuilt alerts are exactly the logs above 0.7 |
| `MonitoringApi.HighConfidenceLogsMultiplicity` | app/routes/api.py:200-206 | each log above 0.7 is kept as often as it occurs, and no other |
| `MonitoringApi.HighConfidenceLogsAppend` | app/routes/api.py:200-206 | the filter works piece by piece, so the alerts keep log order |
| `MonitoringApi.MonitoringService.StartSession` | app/routes/api.py:21-46 | a new in-progress session under the next id, with a fresh empty monitor registered under that id; other monitors and the logs are unchanged |
| `MonitoringApi.MonitoringService.SubmitFrame` | app/routes/api.py:48-109 | an unknown session is rejected and a payload whose decoding raises fails, both without effect; otherwise the monitor analyses the decoded image, or a frame with no face and no object when the image does not decode, and the above-threshold activities are logged with their effects |
| `MonitoringApi.PostedFrame` | app/routes/api.py:61-63 | the analysed frame is an image exactly when the payload decoded to one |
| `MonitoringApi.UndecodableFrame` | app/routes/api.py:61-67 | an image that does not decode can only report the absence, and none of its logs gets evidence |
| `MonitoringApi.MonitoringService.LogActivities` | app/routes/api.py:69-103 | appends exactly the log rows and the ordered trace the frame's above-threshold activities call for |
| `MonitoringApi.MonitoringService.LogActivity` | app/routes/api.py:71-103 | one logged activity gets the evidence `EvidenceFor` gives, its log row, and its evidence write, commit, warning and alert in that order |
| `MonitoringApi.MonitoringService.SubmitAudio` | app/routes/api.py:111-131 | a missing or null level raises and fails without effect; a level (any number) above 50 logs one voice row with confidence 0.7 and that level; otherwise nothing is written |
| `MonitoringApi.MonitoringService.TabSwitch` | app/routes/api.py:274-293 | a tab switch commits one row with confidence 1.0, then warns the student's room |
| `MonitoringApi.MonitoringService.GetSessionReport` | app/routes/api.py:173-206 | non-instructors are refused and unknown sessions are not found; a live session reports its monitor's summary, and any other session reports the counts and alerts rebuilt from its logs with score 0 |
| `ExamApp.ActiveSession` | working_app.py:353-357 | finds an in-progress session of the student for the exam iff one exists |
| `ExamApp.ActiveSessionIsOnly` | working_app.py:352-360 | with at most one active session per student and exam, that is the one found |
| `ExamApp.CloseSessionKeepsValid` | working_app.py:586 | completing a session keeps the session table valid |
| `ExamApp.FindSession` | working_app.py:564 | `get_or_404` finds a session with the id iff one exists |
| `ExamApp.ExamQuestions` | working_app.py:572 | the query returns exactly the exam's questions |
| `ExamApp.NewAnswers` | working_app.py:575-583 | the rows added are numbered consecutively, belong to the session, carry non-empty text and no score, and number at most the questions |
| `ExamApp.NewAnswersExact` | working_app.py:575-583 | an answer row is added for a question iff the exam has it and the form gives non-empty text for it, and the row carries that text |
| `ExamApp.FindSessionAnswer` | working_app.py:596-599 | `.first()` finds the earliest answer of the session for the question, or none iff there is none |
| `ExamApp.AutoGradeStepFacts` | working_app.py:595-608 | one grading step changes only scores, adds the question's maximum to the maximum, and adds either 0 or the maximum to the total |
| `ExamApp.AutoGradeTotals` | working_app.py:592-608 | auto-grading changes only scores; the maximum is the total of the exam's maxima and, for non-negative maxima, the total lies in [0, max] |
| `ExamApp.AutoGradeTotalIsEarned` | working_app.py:592-608 | the total of a successful grading is exactly the sum of the maxima of the objective questions whose first session answer matches the answer key; unanswered, wrong and subjective questions add nothing |
| `ExamApp.AutoGradeScores` | working_app.py:596-606 | with distinct question ids, each question's first answer gets the key-decided score if objective and keeps its old score otherwise |
| `ExamApp.AutoGradeOtherSessions` | working_app.py:595-608 | other sessions' answers are untouched |
| `ExamApp.AutoGradeUntouched` | working_app.py:595-608 | answers to questions outside the exam are untouched |
| `ExamApp.AutoGradeFailureSticks` | working_app.py:602 | once an objective question without answer key raises, the rest of the loop does not run |
| `ExamApp.WithPercentage` | working_app.py:611-612 | only the session's score changes; it is set only when the maximum is positive, and then lies in [0, 100] for a total within range |
| `ExamApp.AutoGradeAnswers` | working_app.py:591-609 | the grading loop computes the auto-grading specification |
| `ExamApp.AutoGradeQuestion` | working_app.py:596-608 | one loop iteration computes one grading step |
| `ExamApp.ExamDatabase.TakeExam` | working_app.py:344-370 | instructors are redirected and unknown exams are not found without change; an existing active session is reused; otherwise exactly one new in-progress session is added, and the student then has an active session with the id shown |
| `ExamApp.ExamDatabase.SaveAnswers` | working_app.py:575-583 | appends exactly the new answer rows and advances the answer id, changing nothing else |
| `ExamApp.ExamDatabase.SubmitExam` | working_app.py:561-614 | an unknown session is not found, another student's is redirected and a session whose exam is gone is a server error, all without change; otherwise the answers are saved, the session is completed, and the auto-grading either fails after that commit or sets the scores and the percentage |

## Left out

- The face, landmark, object and audio detectors (MTCNN, dlib, YOLO, librosa) are not modelled: what they return for a frame is the `FrameReadings` input. The landmark averaging of `_analyze_gaze` is left out too: its normalised gaze point is an input.
- The sentence-embedding similarity and the spaCy/NLTK tokeniser, stop-word list and lemmatiser are parameters.
- Image decoding and writing (cv2) are inputs. The posted frame is a `FramePost`: a payload whose decoding raises, an image `cv2.imdecode` cannot decode, or a decoded image with what the detectors report on it. Whether saving the evidence of each logged activity raises is the input `writeRaises`. An `imwrite` that returns False without raising counts as saved, as in the source. The evidence file name is kept as its parts (session, type, time); `Filename` renders it.
- JSON encoding of the `details` column is not modelled; the details are kept as a small datatype.
- Database sessions, commits and socket emits are recorded as events in an ordered trace, not performed.
- Clocks are `now` parameters: whole seconds, with no time zones. The frame path uses local time (`datetime.now()`), and `db.func.now()` in `submit_exam` is the same kind of parameter. `submit_audio` and `tab_switch` stamp their rows with `datetime.utcnow()`; their `now` stands for that UTC clock, and the model does not relate the two clocks.
- Concurrency, the lock-free sharing of `active_monitors`, and socket disconnect handling are not modelled.
- The `grade_exam` route (app/routes/api.py:133-171) is not modelled. The parts of the session report after the monitoring summary (session info and grading summary) are not modelled either.
- MonitoringApi.MonitoringService.SubmitFrame: the error path models the exceptions of payload decoding (a missing frame field, no comma, bad base64, an empty buffer). An exception raised after some activities have been logged (a database or socket error) is not modelled. The frame is analysed without audio, as the route does.
- MonitoringApi.MonitoringService.SubmitFrame, MonitoringApi.MonitoringService.SubmitAudio, MonitoringApi.MonitoringService.TabSwitch and MonitoringApi.MonitoringService.GetSessionReport: the model assumes the monitoring-log row declared at models.py:80-88, with its `confidence_score`, `details` and `video_frame_path` columns. app/routes/api.py:5 imports `MonitoringLog` from app/models/monitoring.py, whose declaration (lines 4-10) lacks those three columns. With that declaration, the constructor calls at app/routes/api.py:72-78, 121-127 and 279-285 raise `TypeError`. So `submit_frame` answers the 500 "Processing failed" at the first activity above 0.7, after `analyze_frame` has already updated the monitor, and with no evidence, row or emit. `submit_audio` fails uncaught for any level above 50, and `tab_switch` neither logs nor warns. The report fallback's `log.confidence_score` at app/routes/api.py:200 would raise on any retained log. The model follows the full row instead, which is the behaviour the routes are written for.
- MonitoringApi.MonitoringService.SubmitAudio: the level is a JSON number, modelled as `real`, or `None` when missing or null. Other JSON values (strings, lists, booleans) are not modelled.
- Floating-point arithmetic is modelled as exact `real` arithmetic.
- A request body that is not JSON is not modelled: `request.get_json()` then gives `None`, and `data.get` raises in `start_session`, `submit_frame` and `submit_audio`.
- ScoringEngine.GradeQuestion: the subjective branch reads `question.rubric` (scoring_engine.py:82), but neither `Question` declaration (models.py:43-53, app/models/exam.py:23-33) has a `rubric` column and no code sets one. As written, every answered subjective question therefore raises `AttributeError`, and `grade_exam` raises with it. The model follows the branch the code is written for: the score is the overall score times the maximum, with the evaluation as an input. For the same reason it does not model the evaluator raising on a null `answer_key`; that question is graded with whatever evaluation is given.
- AnswerEvaluator.ApplyRubric: only the rubric shape documented at anwer_evaluator.py:111-112 is modelled, a dictionary with optional numeric weights and an optional list of keyword strings. Other JSON shapes are not modelled. In the source, a rubric that is not a dictionary, or a `weights` that is null, raises. A `required_keywords` given as one string is read as the set of its characters.
- Strings.Lower: handles ASCII capitals plus U+212A and U+0130. Other non-ASCII capitals are left unchanged rather than lower-cased as Python does.
- Python set iteration order (the missing-keyword lists, `list(set(...))`) is modelled as first-occurrence order.
- Activity types are the `Kind` enumeration; `Name()` gives the stored string. The `weights.get(..., 1)` default therefore never applies.
- ScoringEngine.GradeExamPercentageBounds: assumes the evaluator's overall scores lie in [0, 1]. A negative cosine similarity can push a subjective score below 0, and the lemma does not cover that case.
- ScoringEngine.GradeEntry: the evaluator is a parameter. scoring_engine.py imports `.answer_evaluator`, but the file is named `anwer_evaluator.py`, so the wiring is not modelled. The evaluator's `UnboundLocalError` case is not propagated through grading either.
- ExamApp.FindSession: picks the last row with the id. Under the database invariant ids are unique, so it is the only one.
