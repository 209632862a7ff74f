/** `ScoringEngine`: grading one question, grading an exam, the letter grade and the
    report. The answer evaluator is a collaborator whose result for a subjective
    question is an input (`evaluate`). */
module ScoringEngine {
  import opened Strings
  import opened Optional
  import opened ExamRecords
  import AnswerEvaluator

  /** The `evaluation_details` entry of a question result. */
  datatype Details =
    | EmptyDetails
    | Measures(semanticSimilarity: real, keywordCoverage: real, lengthRatio: real)

  /** One entry of `results['questions']`; `details` is `None` when the entry has no
      `evaluation_details` key. */
  datatype QuestionResult = QuestionResult(
    questionId: int,
    score: real,
    maxScore: real,
    feedback: string,
    details: Option<Details>)

  /** `question.correct_answer.strip()` on a question without a correct answer raises
      `AttributeError`. */
  datatype GradingError = MissingCorrectAnswer(questionId: int)

  /** The dictionary `grade_exam` returns. */
  datatype GradingResults = GradingResults(
    sessionId: int,
    studentId: int,
    examId: int,
    gradedAt: nat,
    questions: seq<QuestionResult>,
    totalScore: real,
    maxScore: real,
    percentage: real)

  const NoAnswerFeedback: string := "No answer provided"
  const CorrectFeedback: string := "Correct!"
  const IncorrectFeedback: string := "Incorrect"

  /** `' '.join(evaluation['feedback'])`. */
  function FeedbackText(remarks: seq<AnswerEvaluator.Remark>): string {
    JoinWith(" ", seq(|remarks|, i requires 0 <= i < |remarks| => AnswerEvaluator.RemarkText(remarks[i])))
  }

  /** `grade_question`. `evaluation` is what the answer evaluator returns for the
      answer and the question's answer key; only a subjective question uses it. */
  function GradeQuestion(q: Question, studentAnswer: string, evaluation: AnswerEvaluator.Evaluation)
    : (r: Result<QuestionResult, GradingError>)
    ensures r.Failure? <==> q.questionType == Objective && q.correctAnswer.None?
    ensures r.Failure? ==> r.error == MissingCorrectAnswer(q.id)
    ensures r.Success? ==> r.value.questionId == q.id && r.value.maxScore == q.maxScore
    ensures r.Success? && q.questionType == Objective ==>
      && (r.value.feedback == CorrectFeedback <==> SameAnswer(studentAnswer, q.correctAnswer.value))
      && (r.value.feedback == IncorrectFeedback <==> !SameAnswer(studentAnswer, q.correctAnswer.value))
      && r.value.score == (if r.value.feedback == CorrectFeedback then q.maxScore else 0.0)
      && r.value.details == Some(EmptyDetails)
    ensures r.Success? && q.questionType == Subjective ==>
      && r.value.score == evaluation.overallScore * q.maxScore
      && r.value.feedback == FeedbackText(evaluation.feedback)
      && r.value.details == Some(Measures(evaluation.semanticSimilarity, evaluation.keywordCoverage,
                                          evaluation.lengthRatio))
    ensures r.Success? && q.questionType != Objective && q.questionType != Subjective ==>
      r.value.score == 0.0 && r.value.feedback == "" && r.value.details == Some(EmptyDetails)
  {
    var blank := QuestionResult(q.id, 0.0, q.maxScore, "", Some(EmptyDetails));
    if q.questionType == Objective then
      if q.correctAnswer.None? then Failure(MissingCorrectAnswer(q.id))
      else if SameAnswer(studentAnswer, q.correctAnswer.value) then
        Success(blank.(score := q.maxScore, feedback := CorrectFeedback))
      else
        Success(blank.(score := 0.0, feedback := IncorrectFeedback))
    else if q.questionType == Subjective then
      Success(blank.(
        score := evaluation.overallScore * q.maxScore,
        feedback := FeedbackText(evaluation.feedback),
        details := Some(Measures(evaluation.semanticSimilarity, evaluation.keywordCoverage,
                                 evaluation.lengthRatio))))
    else
      Success(blank)
  }

  /** The score of a graded question lies between 0 and its maximum whenever the
      maximum is not negative and, for a subjective question, the overall score is
      in [0, 1]. An objective question scores either 0 or its maximum. */
  lemma GradeQuestionBounds(q: Question, studentAnswer: string, evaluation: AnswerEvaluator.Evaluation)
    requires q.maxScore >= 0.0
    requires q.questionType == Subjective ==> 0.0 <= evaluation.overallScore <= 1.0
    requires GradeQuestion(q, studentAnswer, evaluation).Success?
    ensures var s := GradeQuestion(q, studentAnswer, evaluation).value.score;
            0.0 <= s <= q.maxScore
    ensures q.questionType == Objective ==>
            var s := GradeQuestion(q, studentAnswer, evaluation).value.score;
            s == 0.0 || s == q.maxScore
  {
    if q.questionType == Subjective {
      var o, m := evaluation.overallScore, q.maxScore;
      ScaleBound(o, m);
      assert GradeQuestion(q, studentAnswer, evaluation).value.score == o * m;
    }
  }

  lemma ScaleBound(o: real, m: real)
    requires 0.0 <= o <= 1.0 && m >= 0.0
    ensures 0.0 <= o * m <= m
  {
    var rest := (1.0 - o) * m;
    assert rest >= 0.0;
    assert o * m + rest == m;
    assert o * m >= 0.0;
  }

  /** `next((a for a in answers if a.question_id == question_id), None)`. */
  function FindAnswer(answers: seq<Answer>, questionId: int): (r: Option<Answer>)
    ensures r.None? <==> forall i :: 0 <= i < |answers| ==> answers[i].questionId != questionId
    ensures r.Some? ==> exists i :: 0 <= i < |answers| && answers[i] == r.value
                           && forall j :: 0 <= j < i ==> answers[j].questionId != questionId
    ensures r.Some? ==> r.value.questionId == questionId
  {
    if answers == [] then None
    else if answers[0].questionId == questionId then Some(answers[0])
    else
      var r := FindAnswer(answers[1..], questionId);
      assert r.Some? ==> exists i :: 0 <= i < |answers| && answers[i] == r.value
                           && forall j :: 0 <= j < i ==> answers[j].questionId != questionId by {
        if r.Some? {
          var i :| 0 <= i < |answers[1..]| && answers[1..][i] == r.value
                   && forall j :: 0 <= j < i ==> answers[1..][j].questionId != questionId;
          assert answers[i + 1] == r.value;
          assert forall j :: 0 <= j < i + 1 ==> answers[j].questionId != questionId by {
            forall j | 0 <= j < i + 1 ensures answers[j].questionId != questionId {
              if j > 0 { assert answers[j] == answers[1..][j - 1]; }
            }
          }
        }
      }
      r
  }

  /** The text an answer supplies, or `None` for a missing answer, a null text or an
      empty text (`not student_answer or not student_answer.answer_text`). */
  function SuppliedText(answer: Option<Answer>): (r: Option<string>)
    ensures r.Some? <==> answer.Some? && answer.value.answerText.Some? && answer.value.answerText.value != ""
    ensures r.Some? ==> r.value == answer.value.answerText.value
  {
    match answer
    case None => None
    case Some(a) =>
      match a.answerText
      case None => None
      case Some(t) => if t == "" then None else Some(t)
  }

  /** The result `grade_exam` records for one question. */
  function GradeEntry(q: Question, answers: seq<Answer>, evaluate: (Question, string) -> AnswerEvaluator.Evaluation)
    : (r: Result<QuestionResult, GradingError>)
    ensures SuppliedText(FindAnswer(answers, q.id)).None? ==>
      r == Success(QuestionResult(q.id, 0.0, q.maxScore, NoAnswerFeedback, None))
    ensures SuppliedText(FindAnswer(answers, q.id)).Some? ==>
      var text := SuppliedText(FindAnswer(answers, q.id)).value;
      r == GradeQuestion(q, text, evaluate(q, text))
  {
    match SuppliedText(FindAnswer(answers, q.id))
    case None => Success(QuestionResult(q.id, 0.0, q.maxScore, NoAnswerFeedback, None))
    case Some(text) => GradeQuestion(q, text, evaluate(q, text))
  }

  /** The sum of the scores of `rs`, accumulated from the left. */
  function TotalScore(rs: seq<QuestionResult>): real {
    if rs == [] then 0.0 else TotalScore(rs[..|rs| - 1]) + rs[|rs| - 1].score
  }

  /** `grade_exam`: one result per question in question order (first answer for the
      question, if any), the total of the scores, the total of every question's
      maximum, and the percentage. A grading error stops the loop and is returned. */
  method GradeExam(session: ExamSession, questions: seq<Question>, answers: seq<Answer>,
                   evaluate: (Question, string) -> AnswerEvaluator.Evaluation, now: nat)
    returns (r: Result<GradingResults, GradingError>)
    ensures r.Failure? <==> exists i :: 0 <= i < |questions| && GradeEntry(questions[i], answers, evaluate).Failure?
    ensures r.Failure? ==>
      exists i :: && 0 <= i < |questions|
                  && GradeEntry(questions[i], answers, evaluate) == Failure(r.error)
                  && forall j :: 0 <= j < i ==> GradeEntry(questions[j], answers, evaluate).Success?
    ensures r.Success? ==>
      var g := r.value;
      && g.sessionId == session.id && g.studentId == session.studentId && g.examId == session.examId
      && g.gradedAt == now
      && |g.questions| == |questions|
      && (forall i :: 0 <= i < |questions| ==> GradeEntry(questions[i], answers, evaluate) == Success(g.questions[i]))
      && g.totalScore == TotalScore(g.questions)
      && g.maxScore == TotalMax(questions)
      && g.percentage == Percentage(g.totalScore, g.maxScore)
  {
    var results: seq<QuestionResult> := [];
    var totalScore := 0.0;
    var maxScore := 0.0;
    var i := 0;
    while i < |questions|
      invariant 0 <= i <= |questions|
      invariant |results| == i
      invariant forall j :: 0 <= j < i ==> GradeEntry(questions[j], answers, evaluate) == Success(results[j])
      invariant totalScore == TotalScore(results)
      invariant maxScore == TotalMax(questions[..i])
    {
      var question := questions[i];
      var graded := GradeEntry(question, answers, evaluate);
      if graded.Failure? {
        return Failure(graded.error);
      }
      var questionResult := graded.value;
      var next := results + [questionResult];
      forall j | 0 <= j < i + 1
        ensures GradeEntry(questions[j], answers, evaluate) == Success(next[j])
      {
        if j < i { assert next[j] == results[j]; }
      }
      assert next[..i] == results;
      results := next;
      totalScore := totalScore + questionResult.score;
      assert questions[..i + 1][..i] == questions[..i];
      maxScore := maxScore + question.maxScore;
      i := i + 1;
    }
    assert questions[..i] == questions;
    r := Success(GradingResults(session.id, session.studentId, session.examId, now,
                                results, totalScore, maxScore, Percentage(totalScore, maxScore)));
  }

  /** The total of scores that each lie in [0, max] lies in [0, total of the maxima]. */
  lemma {:induction false} TotalScoreBounds(rs: seq<QuestionResult>, qs: seq<Question>)
    requires |rs| == |qs|
    requires forall i :: 0 <= i < |rs| ==> 0.0 <= rs[i].score <= qs[i].maxScore
    ensures 0.0 <= TotalScore(rs) <= TotalMax(qs)
  {
    if rs != [] {
      TotalScoreBounds(rs[..|rs| - 1], qs[..|qs| - 1]);
    }
  }

  /** With non-negative maxima and evaluator scores in [0, 1], a successful grading has
      every score in [0, its maximum] and a percentage in [0, 100]. */
  lemma GradeExamPercentageBounds(questions: seq<Question>, answers: seq<Answer>,
                                  evaluate: (Question, string) -> AnswerEvaluator.Evaluation,
                                  results: seq<QuestionResult>)
    requires forall i :: 0 <= i < |questions| ==> questions[i].maxScore >= 0.0
    requires forall q, t :: 0.0 <= evaluate(q, t).overallScore <= 1.0
    requires |results| == |questions|
    requires forall i :: 0 <= i < |questions| ==> GradeEntry(questions[i], answers, evaluate) == Success(results[i])
    ensures forall i :: 0 <= i < |results| ==> 0.0 <= results[i].score <= results[i].maxScore
    ensures 0.0 <= Percentage(TotalScore(results), TotalMax(questions)) <= 100.0
  {
    forall i | 0 <= i < |results| ensures 0.0 <= results[i].score <= questions[i].maxScore {
      var q := questions[i];
      match SuppliedText(FindAnswer(answers, q.id)) {
        case None =>
        case Some(text) => GradeQuestionBounds(q, text, evaluate(q, text));
      }
    }
    TotalScoreBounds(results, questions);
  }

  /** `_calculate_grade`. */
  function CalculateGrade(percentage: real): (g: char)
    ensures g in "ABCDF"
    ensures g == 'A' <==> percentage >= 90.0
    ensures g == 'B' <==> 80.0 <= percentage < 90.0
    ensures g == 'C' <==> 70.0 <= percentage < 80.0
    ensures g == 'D' <==> 60.0 <= percentage < 70.0
    ensures g == 'F' <==> percentage < 60.0
  {
    if percentage >= 90.0 then 'A'
    else if percentage >= 80.0 then 'B'
    else if percentage >= 70.0 then 'C'
    else if percentage >= 60.0 then 'D'
    else 'F'
  }

  /** The position of a grade from worst (`F`) to best (`A`). */
  function GradeRank(g: char): nat {
    if g == 'A' then 4 else if g == 'B' then 3 else if g == 'C' then 2 else if g == 'D' then 1 else 0
  }

  /** A higher percentage never earns a worse grade. */
  lemma GradeMonotone(x: real, y: real)
    requires x <= y
    ensures GradeRank(CalculateGrade(x)) <= GradeRank(CalculateGrade(y))
  {
  }

  /** One entry of `report['question_breakdown']`. */
  datatype Breakdown = Breakdown(
    questionId: int,
    score: real,
    maxScore: real,
    percentage: real,
    feedback: string,
    details: Option<Details>)

  datatype Summary = Summary(totalScore: real, maxScore: real, percentage: real, grade: char)

  /** The dictionary `generate_report` returns. */
  datatype Report = Report(
    summary: Summary,
    questionBreakdown: seq<Breakdown>,
    strengths: seq<string>,
    areasForImprovement: seq<string>)

  /** Per-question percentage: `score / max * 100`, or 0 when `max` is not positive. */
  function QuestionPercentage(q: QuestionResult): real {
    Percentage(q.score, q.maxScore)
  }

  function BreakdownOf(q: QuestionResult): Breakdown {
    Breakdown(q.questionId, q.score, q.maxScore, QuestionPercentage(q), q.feedback, q.details)
  }

  /** A strength line: "Question ", the question's id in decimal, then
      ": Excellent understanding". */
  function StrengthLine(questionId: int): (s: string)
    ensures |s| == 9 + |IntToString(questionId)| + 25
    ensures s[..9] == "Question " && s[9..|s| - 25] == IntToString(questionId)
    ensures s[|s| - 25..] == ": Excellent understanding"
    ensures s[|s| - 1] == 'g'
  {
    var s := "Question " + IntToString(questionId) + ": Excellent understanding";
    assert s[9..|s| - 25] == IntToString(questionId);
    s
  }

  /** An improvement line: "Question ", the question's id in decimal, then
      ": Needs improvement". */
  function ImprovementLine(questionId: int): (s: string)
    ensures |s| == 9 + |IntToString(questionId)| + 19
    ensures s[..9] == "Question " && s[9..|s| - 19] == IntToString(questionId)
    ensures s[|s| - 19..] == ": Needs improvement"
    ensures s[|s| - 1] == 't'
  {
    var s := "Question " + IntToString(questionId) + ": Needs improvement";
    assert s[9..|s| - 19] == IntToString(questionId);
    s
  }

  /** A strength line names exactly one question, and so does an improvement line. */
  lemma LinesNameTheirQuestion(a: int, b: int)
    ensures StrengthLine(a) == StrengthLine(b) ==> a == b
    ensures ImprovementLine(a) == ImprovementLine(b) ==> a == b
  {
    if StrengthLine(a) == StrengthLine(b) {
      IntToStringInjective(a, b);
    }
    if ImprovementLine(a) == ImprovementLine(b) {
      IntToStringInjective(a, b);
    }
  }

  /** The strength lines of `qs` in order: one per question at 80 per cent or more. */
  function Strengths(qs: seq<QuestionResult>): seq<string> {
    if qs == [] then []
    else
      var q := qs[|qs| - 1];
      Strengths(qs[..|qs| - 1]) + (if QuestionPercentage(q) >= 80.0 then [StrengthLine(q.questionId)] else [])
  }

  /** The improvement lines of `qs` in order: one per question under 50 per cent. */
  function Improvements(qs: seq<QuestionResult>): seq<string> {
    if qs == [] then []
    else
      var q := qs[|qs| - 1];
      Improvements(qs[..|qs| - 1]) + (if QuestionPercentage(q) < 50.0 then [ImprovementLine(q.questionId)] else [])
  }

  /** Appending a strength line adds the strength of exactly the question it names. */
  lemma StrengthLineIn(lines: seq<string>, listed: bool, questionId: int, id: int)
    ensures StrengthLine(id) in lines + (if listed then [StrengthLine(questionId)] else []) <==>
            StrengthLine(id) in lines || (listed && questionId == id)
  {
    LinesNameTheirQuestion(questionId, id);
  }

  lemma StrengthStep(qs: seq<QuestionResult>, id: int)
    requires qs != []
    ensures StrengthLine(id) in Strengths(qs) <==>
            StrengthLine(id) in Strengths(qs[..|qs| - 1]) ||
            (qs[|qs| - 1].questionId == id && QuestionPercentage(qs[|qs| - 1]) >= 80.0)
  {
    var q := qs[|qs| - 1];
    StrengthLineIn(Strengths(qs[..|qs| - 1]), QuestionPercentage(q) >= 80.0, q.questionId, id);
  }

  /** Some result for question `id` reaches 80 per cent. */
  predicate ScoredHigh(qs: seq<QuestionResult>, id: int) {
    exists i :: 0 <= i < |qs| && qs[i].questionId == id && QuestionPercentage(qs[i]) >= 80.0
  }

  lemma ScoredHighStep(qs: seq<QuestionResult>, id: int)
    requires qs != []
    ensures ScoredHigh(qs, id) <==>
            ScoredHigh(qs[..|qs| - 1], id) ||
            (qs[|qs| - 1].questionId == id && QuestionPercentage(qs[|qs| - 1]) >= 80.0)
  {
    var init := qs[..|qs| - 1];
    if ScoredHigh(init, id) {
      var i :| 0 <= i < |init| && init[i].questionId == id && QuestionPercentage(init[i]) >= 80.0;
      assert qs[i] == init[i];
    }
    if ScoredHigh(qs, id) {
      var i :| 0 <= i < |qs| && qs[i].questionId == id && QuestionPercentage(qs[i]) >= 80.0;
      if i < |init| {
        assert init[i] == qs[i];
      }
    }
  }

  /** A question has a strength line iff some result for it reaches 80 per cent. */
  lemma {:induction false} StrengthListed(qs: seq<QuestionResult>, id: int)
    ensures StrengthLine(id) in Strengths(qs) <==> ScoredHigh(qs, id)
  {
    if qs != [] {
      StrengthListed(qs[..|qs| - 1], id);
      StrengthStep(qs, id);
      ScoredHighStep(qs, id);
    }
  }

  /** Appending an improvement line adds exactly the question it names. */
  lemma ImprovementLineIn(lines: seq<string>, listed: bool, questionId: int, id: int)
    ensures ImprovementLine(id) in lines + (if listed then [ImprovementLine(questionId)] else []) <==>
            ImprovementLine(id) in lines || (listed && questionId == id)
  {
    LinesNameTheirQuestion(questionId, id);
  }

  lemma ImprovementStep(qs: seq<QuestionResult>, id: int)
    requires qs != []
    ensures ImprovementLine(id) in Improvements(qs) <==>
            ImprovementLine(id) in Improvements(qs[..|qs| - 1]) ||
            (qs[|qs| - 1].questionId == id && QuestionPercentage(qs[|qs| - 1]) < 50.0)
  {
    var q := qs[|qs| - 1];
    ImprovementLineIn(Improvements(qs[..|qs| - 1]), QuestionPercentage(q) < 50.0, q.questionId, id);
  }

  /** Some result for question `id` is under 50 per cent. */
  predicate ScoredLow(qs: seq<QuestionResult>, id: int) {
    exists i :: 0 <= i < |qs| && qs[i].questionId == id && QuestionPercentage(qs[i]) < 50.0
  }

  lemma ScoredLowStep(qs: seq<QuestionResult>, id: int)
    requires qs != []
    ensures ScoredLow(qs, id) <==>
            ScoredLow(qs[..|qs| - 1], id) ||
            (qs[|qs| - 1].questionId == id && QuestionPercentage(qs[|qs| - 1]) < 50.0)
  {
    var init := qs[..|qs| - 1];
    if ScoredLow(init, id) {
      var i :| 0 <= i < |init| && init[i].questionId == id && QuestionPercentage(init[i]) < 50.0;
      assert qs[i] == init[i];
    }
    if ScoredLow(qs, id) {
      var i :| 0 <= i < |qs| && qs[i].questionId == id && QuestionPercentage(qs[i]) < 50.0;
      if i < |init| {
        assert init[i] == qs[i];
      }
    }
  }

  /** A question has an improvement line iff some result for it is under 50 per cent. */
  lemma {:induction false} ImprovementListed(qs: seq<QuestionResult>, id: int)
    ensures ImprovementLine(id) in Improvements(qs) <==> ScoredLow(qs, id)
  {
    if qs != [] {
      ImprovementListed(qs[..|qs| - 1], id);
      ImprovementStep(qs, id);
      ScoredLowStep(qs, id);
    }
  }

  /** No two results are for the same question. */
  predicate DistinctQuestions(qs: seq<QuestionResult>) {
    forall i, j :: 0 <= i < j < |qs| ==> qs[i].questionId != qs[j].questionId
  }

  /** A question graded once cannot both reach 80 per cent and stay under 50. */
  lemma ScoredHighOrLow(qs: seq<QuestionResult>, id: int)
    requires DistinctQuestions(qs)
    ensures !(ScoredHigh(qs, id) && ScoredLow(qs, id))
  {
    if ScoredHigh(qs, id) {
      var i :| 0 <= i < |qs| && qs[i].questionId == id && QuestionPercentage(qs[i]) >= 80.0;
      forall j | 0 <= j < |qs| && qs[j].questionId == id
        ensures QuestionPercentage(qs[j]) >= 80.0
      {
        assert j == i;
      }
    }
  }

  /** When every question is graded once, no question is listed both as a strength
      and as an area for improvement. */
  lemma StrengthsImprovementsDisjoint(qs: seq<QuestionResult>, id: int)
    requires DistinctQuestions(qs)
    ensures !(StrengthLine(id) in Strengths(qs) && ImprovementLine(id) in Improvements(qs))
  {
    StrengthListed(qs, id);
    ImprovementListed(qs, id);
    ScoredHighOrLow(qs, id);
  }

  /** Each question is listed at most once in the two lists together. */
  lemma {:induction false} ListedAtMostOnce(qs: seq<QuestionResult>)
    ensures |Strengths(qs)| + |Improvements(qs)| <= |qs|
  {
    if qs != [] {
      ListedAtMostOnce(qs[..|qs| - 1]);
    }
  }

  lemma ReportStep(qs: seq<QuestionResult>, i: nat)
    requires i < |qs|
    ensures Strengths(qs[..i + 1]) ==
      Strengths(qs[..i]) + (if QuestionPercentage(qs[i]) >= 80.0 then [StrengthLine(qs[i].questionId)] else [])
    ensures Improvements(qs[..i + 1]) ==
      Improvements(qs[..i]) + (if QuestionPercentage(qs[i]) < 50.0 then [ImprovementLine(qs[i].questionId)] else [])
  {
    assert qs[..i + 1][..i] == qs[..i];
  }

  /** `generate_report`: the summary with its letter grade, one breakdown entry per
      question in order, and the strength and improvement lines. */
  method GenerateReport(grading: GradingResults) returns (report: Report)
    ensures report.summary == Summary(grading.totalScore, grading.maxScore, grading.percentage,
                                      CalculateGrade(grading.percentage))
    ensures |report.questionBreakdown| == |grading.questions|
    ensures forall i :: 0 <= i < |grading.questions| ==>
              report.questionBreakdown[i] == BreakdownOf(grading.questions[i])
    ensures report.strengths == Strengths(grading.questions)
    ensures report.areasForImprovement == Improvements(grading.questions)
  {
    var breakdowns: seq<Breakdown> := [];
    var strengths: seq<string> := [];
    var areas: seq<string> := [];
    var qs := grading.questions;
    var i := 0;
    while i < |qs|
      invariant 0 <= i <= |qs|
      invariant |breakdowns| == i
      invariant forall j :: 0 <= j < i ==> breakdowns[j] == BreakdownOf(qs[j])
      invariant strengths == Strengths(qs[..i])
      invariant areas == Improvements(qs[..i])
    {
      var q := qs[i];
      var percentage := Percentage(q.score, q.maxScore);
      var breakdown := Breakdown(q.questionId, q.score, q.maxScore, percentage, q.feedback, q.details);
      assert breakdown == BreakdownOf(q);
      var next := breakdowns + [breakdown];
      forall j | 0 <= j < i + 1 ensures next[j] == BreakdownOf(qs[j]) {
        if j < i { assert next[j] == breakdowns[j]; }
      }
      breakdowns := next;
      ReportStep(qs, i);
      if percentage >= 80.0 {
        strengths := strengths + [StrengthLine(q.questionId)];
      } else if percentage < 50.0 {
        areas := areas + [ImprovementLine(q.questionId)];
      }
      i := i + 1;
    }
    assert qs[..i] == qs;
    report := Report(Summary(grading.totalScore, grading.maxScore, grading.percentage,
                             CalculateGrade(grading.percentage)),
                     breakdowns, strengths, areas);
  }
}
