/** The exam-taking routes of the single-file web application: `take_exam` (reuse
    the student's session in progress or open one) and `submit_exam` (store the
    non-empty answers, complete the session, grade objective answers against the
    answer key and store the percentage). The database is a class whose tables are
    sequences in primary-key order. */
module ExamApp {
  import opened Strings
  import opened Optional
  import opened ExamRecords

  /** The logged-in user. */
  datatype User = User(id: int, role: string)

  /** `is_instructor`: the role is `instructor` or `admin`. */
  predicate IsInstructor(u: User) {
    u.role == "instructor" || u.role == "admin"
  }

  /** What a route answers: a redirect to the dashboard, a 404 page, a redirect to the
      exam page of a session, the submission page with the preliminary score, or an
      uncaught exception. */
  datatype Outcome =
    | RedirectDashboard
    | NotFound
    | ExamPage(sessionId: int)
    | Submitted(totalScore: real, maxScore: real)
    | ServerError

  /** The first session in progress for `examId` and `studentId`
      (`filter_by(...).first()`). */
  function ActiveSession(sessions: seq<ExamSession>, examId: int, studentId: int): (r: Option<ExamSession>)
    ensures r.None? <==> forall i :: 0 <= i < |sessions| ==> !IsActiveFor(sessions[i], examId, studentId)
    ensures r.Some? ==> r.value in sessions && IsActiveFor(r.value, examId, studentId)
  {
    if sessions == [] then None
    else if IsActiveFor(sessions[0], examId, studentId) then Some(sessions[0])
    else
      var r := ActiveSession(sessions[1..], examId, studentId);
      assert forall i :: 1 <= i < |sessions| ==> sessions[i] == sessions[1..][i - 1];
      r
  }

  predicate IsActiveFor(s: ExamSession, examId: int, studentId: int) {
    s.examId == examId && s.studentId == studentId && s.status == InProgress
  }

  /** No two sessions in progress belong to the same exam and student. */
  predicate AtMostOneActive(sessions: seq<ExamSession>) {
    forall i, j :: 0 <= i < j < |sessions| && sessions[i].status == InProgress && sessions[j].status == InProgress
      ==> sessions[i].examId != sessions[j].examId || sessions[i].studentId != sessions[j].studentId
  }

  /** Session ids are unique and below `nextId`, and no exam and student have two
      sessions in progress. */
  predicate SessionsValid(sessions: seq<ExamSession>, nextId: int) {
    && (forall i, j :: 0 <= i < j < |sessions| ==> sessions[i].id != sessions[j].id)
    && (forall i :: 0 <= i < |sessions| ==> sessions[i].id < nextId)
    && AtMostOneActive(sessions)
  }

  /** Replacing a session by one with the same id that is not in progress keeps the
      sessions valid. */
  lemma CloseSessionKeepsValid(sessions: seq<ExamSession>, nextId: int, k: int, closed: ExamSession)
    requires SessionsValid(sessions, nextId)
    requires 0 <= k < |sessions| && closed.id == sessions[k].id && closed.status != InProgress
    ensures SessionsValid(sessions[k := closed], nextId)
  {
    var t := sessions[k := closed];
    forall i, j | 0 <= i < j < |t| && t[i].status == InProgress && t[j].status == InProgress
      ensures t[i].examId != t[j].examId || t[i].studentId != t[j].studentId
    {
      assert i != k && j != k;
      assert t[i] == sessions[i] && t[j] == sessions[j];
    }
    forall i, j | 0 <= i < j < |t| ensures t[i].id != t[j].id {
      assert t[i].id == sessions[i].id && t[j].id == sessions[j].id;
    }
  }

  /** Where the invariant holds, the session in progress that `take_exam` finds is the
      only one for that exam and student. */
  lemma ActiveSessionIsOnly(sessions: seq<ExamSession>, examId: int, studentId: int, i: int)
    requires AtMostOneActive(sessions)
    requires 0 <= i < |sessions| && IsActiveFor(sessions[i], examId, studentId)
    ensures ActiveSession(sessions, examId, studentId) == Some(sessions[i])
  {
    var r := ActiveSession(sessions, examId, studentId);
    var j :| 0 <= j < |sessions| && sessions[j] == r.value;
    if j < i {
      assert false;
    } else if i < j {
      assert false;
    }
  }

  /** The index of the session with id `id`, if any (`get_or_404`). */
  function FindSession(sessions: seq<ExamSession>, id: int): (r: Option<nat>)
    ensures r.None? <==> forall i :: 0 <= i < |sessions| ==> sessions[i].id != id
    ensures r.Some? ==> r.value < |sessions| && sessions[r.value].id == id
  {
    if sessions == [] then None
    else if sessions[|sessions| - 1].id == id then Some(|sessions| - 1)
    else FindSession(sessions[..|sessions| - 1], id)
  }

  /** `Question.query.filter_by(exam_id=examId).all()`. */
  function ExamQuestions(qs: seq<Question>, examId: int): (r: seq<Question>)
    ensures forall q :: q in r <==> q in qs && q.examId == examId
  {
    if qs == [] then []
    else
      var init := ExamQuestions(qs[..|qs| - 1], examId);
      var q := qs[|qs| - 1];
      assert forall x :: x in qs <==> x in qs[..|qs| - 1] || x == q;
      if q.examId == examId then init + [q] else init
  }

  /** The submitted text for a question, when the form has a non-empty one
      (`request.form.get(f'answer_{question.id}')` is truthy). */
  function SubmittedText(form: map<int, string>, questionId: int): Option<string> {
    if questionId in form && form[questionId] != "" then Some(form[questionId]) else None
  }

  /** The answer rows the first loop of `submit_exam` adds for `qs`, numbered from
      `firstId`. */
  function NewAnswers(qs: seq<Question>, form: map<int, string>, sessionId: int, firstId: int): (r: seq<Answer>)
    ensures |r| <= |qs|
    ensures forall i :: 0 <= i < |r| ==>
      && r[i].id == firstId + i && r[i].sessionId == sessionId && r[i].autoScore.None?
      && r[i].answerText.Some? && r[i].answerText.value != ""
  {
    if qs == [] then []
    else
      var init := NewAnswers(qs[..|qs| - 1], form, sessionId, firstId);
      var q := qs[|qs| - 1];
      match SubmittedText(form, q.id)
      case None => init
      case Some(text) => init + [Answer(firstId + |init|, sessionId, q.id, Some(text), None)]
  }

  /** An answer row is added for a question exactly when the form holds a non-empty
      text for it, and that row holds the text. */
  lemma {:induction false} NewAnswersExact(qs: seq<Question>, form: map<int, string>, sessionId: int,
                                           firstId: int, questionId: int)
    ensures (exists i :: 0 <= i < |NewAnswers(qs, form, sessionId, firstId)|
                         && NewAnswers(qs, form, sessionId, firstId)[i].questionId == questionId)
        <==> (exists q :: q in qs && q.id == questionId) && SubmittedText(form, questionId).Some?
    ensures forall a :: a in NewAnswers(qs, form, sessionId, firstId) ==>
              a.answerText == SubmittedText(form, a.questionId)
  {
    if qs != [] {
      var init := qs[..|qs| - 1];
      var q := qs[|qs| - 1];
      NewAnswersExact(init, form, sessionId, firstId, questionId);
      assert forall x :: x in qs <==> x in init || x == q;
      var r := NewAnswers(qs, form, sessionId, firstId);
      var ri := NewAnswers(init, form, sessionId, firstId);
      if SubmittedText(form, q.id).Some? {
        assert r == ri + [r[|r| - 1]];
        assert forall i :: 0 <= i < |ri| ==> r[i] == ri[i];
      }
    }
  }

  /** The index of the first answer of session `sessionId` to question `questionId`
      (`Answer.query.filter_by(...).first()`). */
  function FindSessionAnswer(answers: seq<Answer>, sessionId: int, questionId: int): (r: Option<nat>)
    ensures r.None? <==> forall i :: 0 <= i < |answers| ==> !AnswerOf(answers[i], sessionId, questionId)
    ensures r.Some? ==> r.value < |answers| && AnswerOf(answers[r.value], sessionId, questionId)
    ensures r.Some? ==> forall i :: 0 <= i < r.value ==> !AnswerOf(answers[i], sessionId, questionId)
  {
    if answers == [] then None
    else
      var init := FindSessionAnswer(answers[..|answers| - 1], sessionId, questionId);
      if init.Some? then init
      else if AnswerOf(answers[|answers| - 1], sessionId, questionId) then Some(|answers| - 1)
      else None
  }

  predicate AnswerOf(a: Answer, sessionId: int, questionId: int) {
    a.sessionId == sessionId && a.questionId == questionId
  }

  /** Two answer tables that differ at most in their auto scores. */
  predicate SameButScores(a: seq<Answer>, b: seq<Answer>) {
    |a| == |b| && forall i :: 0 <= i < |a| ==> b[i] == a[i].(autoScore := b[i].autoScore)
  }

  lemma FindSessionAnswerStable(a: seq<Answer>, b: seq<Answer>, sessionId: int, questionId: int)
    requires SameButScores(a, b)
    ensures FindSessionAnswer(a, sessionId, questionId) == FindSessionAnswer(b, sessionId, questionId)
  {
    assert forall i :: 0 <= i < |a| ==> (AnswerOf(a[i], sessionId, questionId) <==> AnswerOf(b[i], sessionId, questionId)) by {
      forall i | 0 <= i < |a| ensures AnswerOf(a[i], sessionId, questionId) <==> AnswerOf(b[i], sessionId, questionId) {
        assert b[i] == a[i].(autoScore := b[i].autoScore);
      }
    }
  }

  /** The state of the grading loop of `submit_exam`: the answer table with the
      auto scores set so far, and the running total and maximum. */
  datatype Grading = Grading(answers: seq<Answer>, totalScore: real, maxScore: real)

  /** `answer.answer_text.strip()` or `question.answer_key.strip()` on a null column
      raises `AttributeError`. */
  datatype AutoGradeError = NullAnswerText(questionId: int) | NullAnswerKey(questionId: int)

  /** One iteration of the grading loop for question `q`. */
  function AutoGradeStep(g: Grading, q: Question, sessionId: int): Result<Grading, AutoGradeError> {
    var found := FindSessionAnswer(g.answers, sessionId, q.id);
    if found.Some? && q.questionType == Objective then
      var a := g.answers[found.value];
      if a.answerText.None? then Failure(NullAnswerText(q.id))
      else if q.answerKey.None? then Failure(NullAnswerKey(q.id))
      else if SameAnswer(a.answerText.value, q.answerKey.value) then
        Success(Grading(g.answers[found.value := a.(autoScore := Some(q.maxScore))],
                        g.totalScore + q.maxScore, g.maxScore + q.maxScore))
      else
        Success(Grading(g.answers[found.value := a.(autoScore := Some(0.0))],
                        g.totalScore, g.maxScore + q.maxScore))
    else
      Success(Grading(g.answers, g.totalScore, g.maxScore + q.maxScore))
  }

  /** The grading loop of `submit_exam` over `qs`, from the left. */
  function AutoGrade(qs: seq<Question>, answers: seq<Answer>, sessionId: int): Result<Grading, AutoGradeError> {
    if qs == [] then Success(Grading(answers, 0.0, 0.0))
    else
      match AutoGrade(qs[..|qs| - 1], answers, sessionId)
      case Failure(e) => Failure(e)
      case Success(g) => AutoGradeStep(g, qs[|qs| - 1], sessionId)
  }

  /** One grading step changes nothing but one auto score, adds the question's
      maximum, and adds either nothing or the maximum to the total. */
  lemma AutoGradeStepFacts(g: Grading, q: Question, sessionId: int)
    requires AutoGradeStep(g, q, sessionId).Success?
    ensures var h := AutoGradeStep(g, q, sessionId).value;
            && SameButScores(g.answers, h.answers)
            && h.maxScore == g.maxScore + q.maxScore
            && (h.totalScore == g.totalScore || h.totalScore == g.totalScore + q.maxScore)
  {
    var found := FindSessionAnswer(g.answers, sessionId, q.id);
    if found.Some? && q.questionType == Objective {
      var k := found.value;
      var a := g.answers[k];
      SetScoreSame(g.answers, k, Some(if SameAnswer(a.answerText.value, q.answerKey.value) then q.maxScore else 0.0));
    } else {
      SameButScoresRefl(g.answers);
    }
  }

  /** One grading step leaves alone every answer that is not the session's answer to
      the question. */
  lemma AutoGradeStepKeeps(g: Grading, q: Question, sessionId: int, k: int)
    requires AutoGradeStep(g, q, sessionId).Success?
    requires 0 <= k < |g.answers| && !AnswerOf(g.answers[k], sessionId, q.id)
    ensures var h := AutoGradeStep(g, q, sessionId).value;
            k < |h.answers| && h.answers[k] == g.answers[k]
  {
    var found := FindSessionAnswer(g.answers, sessionId, q.id);
    assert found.Some? ==> found.value != k;
  }

  lemma SetScoreSame(answers: seq<Answer>, k: int, score: Option<real>)
    requires 0 <= k < |answers|
    ensures SameButScores(answers, answers[k := answers[k].(autoScore := score)])
  {
    var b := answers[k := answers[k].(autoScore := score)];
    forall i | 0 <= i < |answers| ensures b[i] == answers[i].(autoScore := b[i].autoScore) {
      if i == k {
        assert b[i] == answers[k].(autoScore := score);
      } else {
        assert b[i] == answers[i];
      }
    }
  }

  lemma SameButScoresRefl(a: seq<Answer>)
    ensures SameButScores(a, a)
  {
    forall i | 0 <= i < |a| ensures a[i] == a[i].(autoScore := a[i].autoScore) {}
  }

  lemma SameButScoresTrans(a: seq<Answer>, b: seq<Answer>, c: seq<Answer>)
    requires SameButScores(a, b) && SameButScores(b, c)
    ensures SameButScores(a, c)
  {
    forall i | 0 <= i < |a| ensures c[i] == a[i].(autoScore := c[i].autoScore) {
      assert b[i] == a[i].(autoScore := b[i].autoScore);
      assert c[i] == b[i].(autoScore := c[i].autoScore);
    }
  }

  /** Grading changes nothing but auto scores, sums every question's maximum, and
      (for maxima that are not negative) keeps the total between 0 and that sum. */
  lemma {:induction false} AutoGradeTotals(qs: seq<Question>, answers: seq<Answer>, sessionId: int)
    requires AutoGrade(qs, answers, sessionId).Success?
    ensures var g := AutoGrade(qs, answers, sessionId).value;
            && SameButScores(answers, g.answers)
            && g.maxScore == TotalMax(qs)
            && ((forall i :: 0 <= i < |qs| ==> qs[i].maxScore >= 0.0) ==> 0.0 <= g.totalScore <= g.maxScore)
  {
    if qs == [] {
      assert SameButScores(answers, answers);
    } else {
      var init := qs[..|qs| - 1];
      var q := qs[|qs| - 1];
      AutoGradeTotals(init, answers, sessionId);
      var g := AutoGrade(init, answers, sessionId).value;
      AutoGradeStepFacts(g, q, sessionId);
      SameButScoresTrans(answers, g.answers, AutoGradeStep(g, q, sessionId).value.answers);
      assert forall i :: 0 <= i < |init| ==> init[i] == qs[i];
    }
  }


  /** The marks question `q` earns in the grading loop: its maximum when it is
      objective and the session's first answer to it matches the answer key
      (`answer_key`, not `correct_answer`), and 0 otherwise. */
  function EarnedMarks(q: Question, answers: seq<Answer>, sessionId: int): real {
    var found := FindSessionAnswer(answers, sessionId, q.id);
    if found.Some? && q.questionType == Objective
       && answers[found.value].answerText.Some? && q.answerKey.Some?
       && SameAnswer(answers[found.value].answerText.value, q.answerKey.value)
    then q.maxScore
    else 0.0
  }

  /** The marks earned over `qs`, question by question, read from the answers as
      they were before grading. */
  function CorrectTotal(qs: seq<Question>, answers: seq<Answer>, sessionId: int): real {
    if qs == [] then 0.0
    else CorrectTotal(qs[..|qs| - 1], answers, sessionId) + EarnedMarks(qs[|qs| - 1], answers, sessionId)
  }

  /** The total of a successful grading is the sum of the maxima of the objective
      questions answered correctly: unanswered, wrong and subjective ones add 0. */
  lemma {:induction false} AutoGradeTotalIsEarned(qs: seq<Question>, answers: seq<Answer>, sessionId: int)
    requires AutoGrade(qs, answers, sessionId).Success?
    ensures AutoGrade(qs, answers, sessionId).value.totalScore == CorrectTotal(qs, answers, sessionId)
  {
    if qs != [] {
      var init := qs[..|qs| - 1];
      var q := qs[|qs| - 1];
      AutoGradeTotalIsEarned(init, answers, sessionId);
      AutoGradeTotals(init, answers, sessionId);
      var g := AutoGrade(init, answers, sessionId).value;
      FindSessionAnswerStable(answers, g.answers, sessionId, q.id);
      var found := FindSessionAnswer(answers, sessionId, q.id);
      if found.Some? {
        assert g.answers[found.value] == answers[found.value].(autoScore := g.answers[found.value].autoScore);
      }
    }
  }
  /** Only answers of the session being graded change. */
  lemma {:induction false} AutoGradeOtherSessions(qs: seq<Question>, answers: seq<Answer>, sessionId: int, i: int)
    requires AutoGrade(qs, answers, sessionId).Success?
    requires 0 <= i < |answers| && answers[i].sessionId != sessionId
    ensures var g := AutoGrade(qs, answers, sessionId).value;
            i < |g.answers| && g.answers[i] == answers[i]
  {
    AutoGradeTotals(qs, answers, sessionId);
    if qs != [] {
      var init := qs[..|qs| - 1];
      var q := qs[|qs| - 1];
      AutoGradeOtherSessions(init, answers, sessionId, i);
      var g := AutoGrade(init, answers, sessionId).value;
      AutoGradeStepKeeps(g, q, sessionId, i);
    }
  }

  /** The questions in `qs` have distinct ids. */
  predicate DistinctIds(qs: seq<Question>) {
    forall i, j :: 0 <= i < j < |qs| ==> qs[i].id != qs[j].id
  }

  /** The auto score the grading loop gives the answer found for question `q`:
      full marks exactly when the answer matches the answer key, else 0, and for a
      question that is not objective, whatever score the answer had. */
  function ExpectedScore(q: Question, a: Answer): Option<real> {
    if q.questionType == Objective && a.answerText.Some? && q.answerKey.Some? then
      Some(if SameAnswer(a.answerText.value, q.answerKey.value) then q.maxScore else 0.0)
    else a.autoScore
  }

  /** With distinct question ids, each question's first answer in the session ends
      up with the expected auto score: the answer key decides objective questions,
      and other questions keep their answer's score. */
  lemma {:induction false} AutoGradeScores(qs: seq<Question>, answers: seq<Answer>, sessionId: int, m: int)
    requires AutoGrade(qs, answers, sessionId).Success?
    requires DistinctIds(qs)
    requires 0 <= m < |qs| && FindSessionAnswer(answers, sessionId, qs[m].id).Some?
    ensures var k := FindSessionAnswer(answers, sessionId, qs[m].id).value;
            var g := AutoGrade(qs, answers, sessionId).value;
            k < |g.answers| && g.answers[k].autoScore == ExpectedScore(qs[m], answers[k])
  {
    var k := FindSessionAnswer(answers, sessionId, qs[m].id).value;
    AutoGradeTotals(qs, answers, sessionId);
    var init := qs[..|qs| - 1];
    var q := qs[|qs| - 1];
    assert forall i :: 0 <= i < |init| ==> init[i] == qs[i];
    var g := AutoGrade(init, answers, sessionId).value;
    AutoGradeTotals(init, answers, sessionId);
    FindSessionAnswerStable(answers, g.answers, sessionId, q.id);
    FindSessionAnswerStable(answers, g.answers, sessionId, qs[m].id);
    if m == |qs| - 1 {
      // No earlier question has this id, so the earlier iterations left the answer alone.
      AutoGradeUntouched(init, answers, sessionId, k);
      assert g.answers[k] == answers[k];
      AutoGradeStepScores(g, q, sessionId);
    } else {
      AutoGradeScores(init, answers, sessionId, m);
      assert g.answers[k] == answers[k].(autoScore := g.answers[k].autoScore);
      assert qs[m].id != q.id;
      AutoGradeStepKeeps(g, q, sessionId, k);
    }
  }

  /** The answer a grading step finds gets the expected auto score. */
  lemma AutoGradeStepScores(g: Grading, q: Question, sessionId: int)
    requires AutoGradeStep(g, q, sessionId).Success?
    requires FindSessionAnswer(g.answers, sessionId, q.id).Some?
    ensures var k := FindSessionAnswer(g.answers, sessionId, q.id).value;
            var h := AutoGradeStep(g, q, sessionId).value;
            k < |h.answers| && h.answers[k].autoScore == ExpectedScore(q, g.answers[k])
  {
  }

  /** An answer to a question outside `qs` keeps its auto score. */
  lemma {:induction false} AutoGradeUntouched(qs: seq<Question>, answers: seq<Answer>, sessionId: int, k: int)
    requires AutoGrade(qs, answers, sessionId).Success?
    requires 0 <= k < |answers|
    requires forall i :: 0 <= i < |qs| ==> qs[i].id != answers[k].questionId
    ensures var g := AutoGrade(qs, answers, sessionId).value;
            k < |g.answers| && g.answers[k] == answers[k]
  {
    AutoGradeTotals(qs, answers, sessionId);
    if qs != [] {
      var init := qs[..|qs| - 1];
      var q := qs[|qs| - 1];
      assert forall i :: 0 <= i < |init| ==> init[i] == qs[i];
      AutoGradeUntouched(init, answers, sessionId, k);
      var g := AutoGrade(init, answers, sessionId).value;
      AutoGradeStepKeeps(g, q, sessionId, k);
    }
  }

  /** The session with `total_score` set to the percentage `total / max * 100` when the
      maximum is positive, and unchanged otherwise. */
  function WithPercentage(s: ExamSession, g: Grading): (r: ExamSession)
    ensures r.(totalScore := s.totalScore) == s
    ensures g.maxScore <= 0.0 ==> r == s
    ensures g.maxScore > 0.0 && 0.0 <= g.totalScore <= g.maxScore ==>
              r.totalScore.Some? && 0.0 <= r.totalScore.value <= 100.0
  {
    if g.maxScore > 0.0 then s.(totalScore := Some(Scaled(g.totalScore, g.maxScore))) else s
  }

  /** The database tables the two routes use, in primary-key order. */
  class ExamDatabase {
    var exams: set<int>
    var questions: seq<Question>
    var sessions: seq<ExamSession>
    var answers: seq<Answer>
    var nextSessionId: int
    var nextAnswerId: int

    /** Session ids are unique and below the next id, and no exam and student have two
        sessions in progress. */
    ghost predicate Valid()
      reads this
    {
      SessionsValid(sessions, nextSessionId)
    }

    constructor(exams: set<int>, questions: seq<Question>)
      ensures Valid()
      ensures this.exams == exams && this.questions == questions
      ensures sessions == [] && answers == []
    {
      this.exams := exams;
      this.questions := questions;
      sessions := [];
      answers := [];
      nextSessionId := 1;
      nextAnswerId := 1;
    }

    /** `take_exam`: instructors are sent to the dashboard; an unknown exam is a 404;
        otherwise the student's session in progress is reused, or a new one is created
        when there is none. */
    method TakeExam(user: User, examId: int) returns (outcome: Outcome)
      requires Valid()
      modifies this
      ensures Valid()
      ensures IsInstructor(user) ==> outcome == RedirectDashboard
      ensures !IsInstructor(user) && examId !in exams ==> outcome == NotFound
      ensures outcome != ExamPage(old(nextSessionId)) ==> unchanged(this)
      ensures !IsInstructor(user) && examId in exams ==>
        match old(ActiveSession(sessions, examId, user.id))
        case Some(s) => outcome == ExamPage(s.id)
        case None =>
          && outcome == ExamPage(old(nextSessionId))
          && sessions == old(sessions) + [ExamSession(old(nextSessionId), examId, user.id, InProgress, None, None)]
          && nextSessionId == old(nextSessionId) + 1
          && exams == old(exams) && questions == old(questions) && answers == old(answers)
          && nextAnswerId == old(nextAnswerId)
      ensures !IsInstructor(user) && examId in exams ==>
        outcome.ExamPage? && ActiveSession(sessions, examId, user.id).Some?
        && ActiveSession(sessions, examId, user.id).value.id == outcome.sessionId
    {
      if IsInstructor(user) {
        return RedirectDashboard;
      }
      if examId !in exams {
        return NotFound;
      }
      var existing := ActiveSession(sessions, examId, user.id);
      if existing.Some? {
        return ExamPage(existing.value.id);
      }
      var session := ExamSession(nextSessionId, examId, user.id, InProgress, None, None);
      sessions := sessions + [session];
      nextSessionId := nextSessionId + 1;
      ActiveSessionIsOnly(sessions, examId, user.id, |sessions| - 1);
      outcome := ExamPage(session.id);
    }

    /** `submit_exam`. A session other than the user's own is left alone. Otherwise the
        non-empty answers are stored and the session is completed (the first commit);
        then each answered objective question is graded against its answer key and the
        percentage is stored when the maximum is positive (the second commit). A null
        answer text or answer key raises, which leaves the state of the first commit. */
    method SubmitExam(user: User, sessionId: int, form: map<int, string>, now: nat) returns (outcome: Outcome)
      requires Valid()
      modifies this
      ensures Valid()
      ensures exams == old(exams) && questions == old(questions) && nextSessionId == old(nextSessionId)
      ensures FindSession(old(sessions), sessionId).None? ==> outcome == NotFound && unchanged(this)
      ensures FindSession(old(sessions), sessionId).Some? ==>
        var k := FindSession(old(sessions), sessionId).value;
        var session := old(sessions[k]);
        var qs := ExamQuestions(questions, session.examId);
        var saved := old(answers) + NewAnswers(qs, form, sessionId, old(nextAnswerId));
        var completed := session.(status := Completed, endTime := Some(now));
        if session.studentId != user.id then
          outcome == RedirectDashboard && unchanged(this)
        else if session.examId !in exams then
          outcome == ServerError && unchanged(this)
        else
          && nextAnswerId == old(nextAnswerId) + |NewAnswers(qs, form, sessionId, old(nextAnswerId))|
          && match AutoGrade(qs, saved, sessionId)
             case Failure(_) =>
               outcome == ServerError && answers == saved && sessions == old(sessions)[k := completed]
             case Success(g) =>
               && outcome == Submitted(g.totalScore, g.maxScore)
               && answers == g.answers
               && sessions == old(sessions)[k := WithPercentage(completed, g)]
    {
      var found := FindSession(sessions, sessionId);
      if found.None? {
        return NotFound;
      }
      var k := found.value;
      var session := sessions[k];
      if session.studentId != user.id {
        return RedirectDashboard;
      }
      if session.examId !in exams {
        return ServerError;
      }
      var qs := ExamQuestions(questions, session.examId);
      SaveAnswers(qs, sessionId, form);
      // Update the session status, then commit.
      var completed := session.(status := Completed, endTime := Some(now));
      CloseSessionKeepsValid(sessions, nextSessionId, k, completed);
      sessions := sessions[k := completed];
      // Auto-grade objective questions; the changes are committed only at the end.
      var grading := AutoGradeAnswers(qs, answers, sessionId);
      if grading.Failure? {
        return ServerError;
      }
      var g := grading.value;
      // Calculate the percentage, then commit.
      answers := g.answers;
      if g.maxScore > 0.0 {
        var scored := completed.(totalScore := Some(Scaled(g.totalScore, g.maxScore)));
        CloseSessionKeepsValid(sessions, nextSessionId, k, scored);
        sessions := sessions[k := scored];
      }
      assert sessions == old(sessions)[k := WithPercentage(completed, g)];
      outcome := Submitted(g.totalScore, g.maxScore);
    }

    /** The answer-saving loop of `submit_exam`: one new row per question with a
        non-empty submitted text. */
    method SaveAnswers(qs: seq<Question>, sessionId: int, form: map<int, string>)
      modifies this
      ensures answers == old(answers) + NewAnswers(qs, form, sessionId, old(nextAnswerId))
      ensures nextAnswerId == old(nextAnswerId) + |NewAnswers(qs, form, sessionId, old(nextAnswerId))|
      ensures sessions == old(sessions) && exams == old(exams) && questions == old(questions)
      ensures nextSessionId == old(nextSessionId)
    {
      var i := 0;
      while i < |qs|
        invariant 0 <= i <= |qs|
        invariant answers == old(answers) + NewAnswers(qs[..i], form, sessionId, old(nextAnswerId))
        invariant nextAnswerId == old(nextAnswerId) + |NewAnswers(qs[..i], form, sessionId, old(nextAnswerId))|
        invariant sessions == old(sessions) && exams == old(exams) && questions == old(questions)
        invariant nextSessionId == old(nextSessionId)
      {
        var question := qs[i];
        assert qs[..i + 1][..i] == qs[..i];
        var answerText := SubmittedText(form, question.id);
        if answerText.Some? {
          answers := answers + [Answer(nextAnswerId, sessionId, question.id, answerText, None)];
          nextAnswerId := nextAnswerId + 1;
        }
        i := i + 1;
      }
      assert qs[..i] == qs;
    }
  }

  /** The auto-grading loop of `submit_exam` on a working copy of the answer table:
      it stops at the first null answer text or answer key. */
  method AutoGradeAnswers(qs: seq<Question>, answers: seq<Answer>, sessionId: int)
    returns (r: Result<Grading, AutoGradeError>)
    ensures r == AutoGrade(qs, answers, sessionId)
  {
    var g := Grading(answers, 0.0, 0.0);
    var j := 0;
    while j < |qs|
      invariant 0 <= j <= |qs|
      invariant AutoGrade(qs[..j], answers, sessionId) == Success(g)
    {
      assert qs[..j + 1][..j] == qs[..j];
      var step := AutoGradeQuestion(g, qs[j], sessionId);
      if step.Failure? {
        AutoGradeFailureSticks(qs, j + 1, answers, sessionId);
        return step;
      }
      g := step.value;
      j := j + 1;
    }
    assert qs[..j] == qs;
    r := Success(g);
  }

  /** One iteration of the auto-grading loop: the first answer of the session to an
      objective question gets full marks or 0, and the question's maximum is added. */
  method AutoGradeQuestion(g: Grading, question: Question, sessionId: int) returns (r: Result<Grading, AutoGradeError>)
    ensures r == AutoGradeStep(g, question, sessionId)
  {
    var graded, totalScore, maxScore := g.answers, g.totalScore, g.maxScore;
    var answer := FindSessionAnswer(graded, sessionId, question.id);
    if answer.Some? && question.questionType == Objective {
      var a := graded[answer.value];
      if a.answerText.None? {
        return Failure(NullAnswerText(question.id));
      }
      if question.answerKey.None? {
        return Failure(NullAnswerKey(question.id));
      }
      if SameAnswer(a.answerText.value, question.answerKey.value) {
        graded := graded[answer.value := a.(autoScore := Some(question.maxScore))];
        totalScore := totalScore + question.maxScore;
      } else {
        graded := graded[answer.value := a.(autoScore := Some(0.0))];
      }
    }
    maxScore := maxScore + question.maxScore;
    r := Success(Grading(graded, totalScore, maxScore));
  }

  /** Once the grading loop raises, it stops with that error. */
  lemma {:induction false} AutoGradeFailureSticks(qs: seq<Question>, n: int, answers: seq<Answer>, sessionId: int)
    requires 0 <= n <= |qs|
    requires AutoGrade(qs[..n], answers, sessionId).Failure?
    ensures AutoGrade(qs, answers, sessionId) == AutoGrade(qs[..n], answers, sessionId)
    decreases |qs| - n
  {
    if n < |qs| {
      assert qs[..n + 1][..n] == qs[..n];
      AutoGradeFailureSticks(qs, n + 1, answers, sessionId);
    } else {
      assert qs[..n] == qs;
    }
  }
}
