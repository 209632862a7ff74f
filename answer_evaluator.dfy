/** The scoring arithmetic of `AnswerEvaluator.evaluate_answer` and `_apply_rubric`.
    The sentence-embedding similarity and the two keyword lists (produced by
    `extract_keywords`) are inputs. */
module AnswerEvaluator {
  import opened Strings
  import opened Optional
  import TextProcessor

  /** The messages appended to an evaluation's `feedback` list. */
  datatype Remark =
    | ConsiderDiscussing(keywords: seq<string>)
    | MissingRequired(keywords: seq<string>)
    | NeedsMoreDetail
    | GoodAttempt
    | VeryGood
    | Excellent

  function RemarkText(r: Remark): string {
    match r
    case ConsiderDiscussing(ks) => "Consider discussing: " + JoinWith(", ", ks)
    case MissingRequired(ks) => "Missing required concepts: " + JoinWith(", ", ks)
    case NeedsMoreDetail => "Your answer needs more detail and coverage of key concepts."
    case GoodAttempt => "Good attempt, but some important points are missing."
    case VeryGood => "Very good answer with minor gaps."
    case Excellent => "Excellent answer!"
  }

  predicate IsBand(r: Remark) {
    r.NeedsMoreDetail? || r.GoodAttempt? || r.VeryGood? || r.Excellent?
  }

  /** The `evaluation` dictionary. */
  datatype Evaluation = Evaluation(
    semanticSimilarity: real,
    keywordCoverage: real,
    lengthRatio: real,
    overallScore: real,
    feedback: seq<Remark>)

  /** The rubric's `weights` entry; a missing key is `None`. */
  datatype Weights = Weights(semantic: Option<real>, keywords: Option<real>, length: Option<real>)

  /** A rubric dictionary: `weights` and `requiredKeywords` are `None` when the key is
      absent, and `otherKeys` counts its remaining keys (such as `min_length`). */
  datatype Rubric = Rubric(weights: Option<Weights>, requiredKeywords: Option<seq<string>>, otherKeys: nat) {
    /** A dictionary is truthy when it has a key. */
    predicate NonEmpty() {
      weights.Some? || requiredKeywords.Some? || otherKeys > 0
    }
    /** `rubric.get('weights', {})`. */
    function WeightsOrEmpty(): Weights {
      weights.GetOr(Weights(None, None, None))
    }
  }

  /** Evaluation without a rubric and with no model keywords reads the local
      `keyword_coverage` before it is assigned and raises `UnboundLocalError`. */
  datatype EvaluationError = UnboundKeywordCoverage

  const DefaultSemanticWeight: real := 0.5
  const DefaultKeywordWeight: real := 0.3
  const DefaultLengthWeight: real := 0.2
  /** Factor applied to the overall score when required keywords are missing. */
  const MissingKeywordPenalty: real := 0.8
  /** At most this many missing keywords are named in a "Consider discussing" remark. */
  const MaxNamedMissing: nat := 3

  function AsSet(s: seq<string>): set<string> {
    set x | x in s
  }

  lemma {:induction false} AsSetSize(s: seq<string>)
    ensures |AsSet(s)| <= |s|
  {
    if s != [] {
      var init := s[..|s| - 1];
      AsSetSize(init);
      assert s == init + [s[|s| - 1]];
      assert AsSet(s) == AsSet(init) + {s[|s| - 1]};
    }
  }

  lemma {:induction false} AsSetSizeOfDistinct(s: seq<string>)
    requires TextProcessor.Distinct(s)
    ensures |AsSet(s)| == |s|
  {
    if s != [] {
      var init := s[..|s| - 1];
      AsSetSizeOfDistinct(init);
      assert s == init + [s[|s| - 1]];
      assert AsSet(s) == AsSet(init) + {s[|s| - 1]};
      assert s[|s| - 1] !in AsSet(init);
    }
  }

  lemma SubsetSize(a: set<string>, b: set<string>)
    requires a <= b
    ensures |a| <= |b|
    ensures a < b ==> |a| < |b|
  {
    assert b == a + (b - a);
    assert a * (b - a) == {};
    if a < b {
      var x :| x in b && x !in a;
      assert x in b - a;
    }
  }

  /** `len(set(student) & set(model)) / len(model)`. Note the divisor is the length of
      the list, duplicates included. */
  function KeywordCoverage(student: seq<string>, model: seq<string>): (c: real)
    requires model != []
    ensures 0.0 <= c <= 1.0
  {
    var covered := AsSet(student) * AsSet(model);
    AsSetSize(model);
    SubsetSize(covered, AsSet(model));
    RatioInUnit(|covered|, |model|);
    |covered| as real / |model| as real
  }

  lemma RatioInUnit(a: nat, b: nat)
    requires a <= b && b > 0
    ensures 0.0 <= a as real / b as real <= 1.0
  {
    var q := a as real / b as real;
    assert q * (b as real) == a as real <= b as real;
  }

  lemma RatioExtremes(a: nat, b: nat)
    requires b > 0
    ensures a as real / b as real == 0.0 <==> a == 0
    ensures a as real / b as real == 1.0 <==> a == b
  {
    var q := a as real / b as real;
    assert q * (b as real) == a as real;
  }

  /** Coverage is 0 exactly when no model keyword is among the student's keywords. */
  lemma KeywordCoverageZero(student: seq<string>, model: seq<string>)
    requires model != []
    ensures KeywordCoverage(student, model) == 0.0 <==> forall k :: k in model ==> k !in student
  {
    var covered := AsSet(student) * AsSet(model);
    RatioExtremes(|covered|, |model|);
    if !(forall k :: k in model ==> k !in student) {
      var k :| k in model && k in student;
      assert k in covered;
    } else {
      assert covered == {};
    }
  }

  /** For a model list without repetition, coverage is 1 exactly when every model
      keyword is among the student's keywords. */
  lemma KeywordCoverageFull(student: seq<string>, model: seq<string>)
    requires model != []
    requires TextProcessor.Distinct(model)
    ensures KeywordCoverage(student, model) == 1.0 <==> forall k :: k in model ==> k in student
  {
    var covered := AsSet(student) * AsSet(model);
    RatioExtremes(|covered|, |model|);
    AsSetSizeOfDistinct(model);
    if forall k :: k in model ==> k in student {
      assert covered == AsSet(model);
    } else {
      var k :| k in model && k !in student;
      assert k in AsSet(model) && k !in covered;
      SubsetSize(covered, AsSet(model));
    }
  }

  /** `set(model) - set(student)`: the model keywords the student did not mention,
      without repetition. */
  function MissingKeywords(student: seq<string>, model: seq<string>): (r: seq<string>)
    ensures TextProcessor.Distinct(r)
    ensures forall k :: k in r <==> k in model && k !in student
  {
    var kept := TextProcessor.RemoveStopwords(model, AsSet(student));
    forall k ensures k in kept <==> k in model && k !in student {
      TextProcessor.RemoveStopwordsExact(model, AsSet(student), k);
    }
    TextProcessor.Dedup(kept)
  }

  /** `min(student_words / model_words, 1.0)` if `model_words > 0`, else 0. */
  function CappedRatio(studentWords: nat, modelWords: nat): (r: real)
    ensures 0.0 <= r <= 1.0
    ensures modelWords == 0 ==> r == 0.0
    ensures 0 < modelWords <= studentWords ==> r == 1.0
    ensures 0 < modelWords && studentWords < modelWords ==> r * (modelWords as real) == studentWords as real
  {
    if modelWords > 0 then
      var q := studentWords as real / modelWords as real;
      if q < 1.0 then q else 1.0
    else 0.0
  }

  /** The length ratio: words of the student answer over words of the model answer,
      capped at 1, and 0 when the model answer has no words. */
  function LengthRatio(studentAnswer: string, modelAnswer: string): real {
    CappedRatio(|Split(studentAnswer)|, |Split(modelAnswer)|)
  }

  /** The default weighting of the three measures. */
  function DefaultOverall(similarity: real, coverage: real, lengthRatio: real): (o: real)
    ensures 0.0 <= similarity <= 1.0 && 0.0 <= coverage <= 1.0 && 0.0 <= lengthRatio <= 1.0
            ==> 0.0 <= o <= 1.0
  {
    DefaultSemanticWeight * similarity + DefaultKeywordWeight * coverage + DefaultLengthWeight * lengthRatio
  }

  /** The band remark for an overall score: exactly one of the four, by the cut-offs
      0.5, 0.7 and 0.9. */
  function BandRemark(overall: real): (r: Remark)
    ensures IsBand(r)
  {
    if overall < 0.5 then NeedsMoreDetail
    else if overall < 0.7 then GoodAttempt
    else if overall < 0.9 then VeryGood
    else Excellent
  }

  /** Each band is chosen exactly on its interval. */
  lemma BandCutoffs(overall: real)
    ensures BandRemark(overall) == NeedsMoreDetail <==> overall < 0.5
    ensures BandRemark(overall) == GoodAttempt <==> 0.5 <= overall < 0.7
    ensures BandRemark(overall) == VeryGood <==> 0.7 <= overall < 0.9
    ensures BandRemark(overall) == Excellent <==> 0.9 <= overall
  {
  }

  /** The band never gets worse as the score grows. */
  function BandRank(r: Remark): nat {
    match r
    case NeedsMoreDetail => 0
    case GoodAttempt => 1
    case VeryGood => 2
    case Excellent => 3
    case _ => 0
  }

  lemma BandMonotone(x: real, y: real)
    requires x <= y
    ensures BandRank(BandRemark(x)) <= BandRank(BandRemark(y))
  {
  }

  /** What `_apply_rubric` searches for required keywords: `evaluation.get('student_answer', '')`,
      and `evaluate_answer` never stores a `student_answer` entry. */
  const RubricStudentText: string := ""

  /** `kw.lower() in text.lower()`. */
  predicate Mentions(text: string, kw: string) {
    Contains(Lower(text), Lower(kw))
  }

  /** Nothing but the empty keyword occurs in the empty text. */
  lemma MentionsInEmpty(kw: string)
    ensures Mentions("", kw) <==> kw == ""
  {
    assert Lower("") == "";
    if kw == "" {
      assert SliceAt("", "", 0);
    } else {
      assert forall i :: !SliceAt("", Lower(kw), i);
    }
  }

  /** `[kw for kw in set(required) if kw.lower() not in text.lower()]`, distinct
      keywords in order of first occurrence. */
  function MissingRequiredKeywords(required: seq<string>, text: string): (r: seq<string>)
    ensures TextProcessor.Distinct(r)
    ensures forall k :: k in r <==> k in required && !Mentions(text, k)
  {
    Unmentioned(TextProcessor.Dedup(required), text)
  }

  function Unmentioned(ks: seq<string>, text: string): (r: seq<string>)
    ensures forall k :: k in r <==> k in ks && !Mentions(text, k)
    ensures TextProcessor.Distinct(ks) ==> TextProcessor.Distinct(r)
  {
    if ks == [] then []
    else
      var rest := Unmentioned(ks[1..], text);
      assert forall k :: k in ks <==> k == ks[0] || k in ks[1..];
      assert TextProcessor.Distinct(ks) ==> ks[0] !in ks[1..];
      if Mentions(text, ks[0]) then rest else [ks[0]] + rest
  }

  /** Searched in the empty text, a keyword is missing exactly when it is non-empty. */
  lemma MissingInEmptyText(required: seq<string>)
    ensures forall k :: k in MissingRequiredKeywords(required, RubricStudentText) <==> k in required && k != ""
  {
    forall k {
      MentionsInEmpty(k);
    }
  }

  /** The weights of `_apply_rubric`, 0.5/0.3/0.2 for each missing key. */
  function RubricOverall(evaluation: Evaluation, weights: Weights): (o: real)
    ensures weights == Weights(None, None, None) ==>
      o == DefaultOverall(evaluation.semanticSimilarity, evaluation.keywordCoverage, evaluation.lengthRatio)
  {
    weights.semantic.GetOr(DefaultSemanticWeight) * evaluation.semanticSimilarity +
    weights.keywords.GetOr(DefaultKeywordWeight) * evaluation.keywordCoverage +
    weights.length.GetOr(DefaultLengthWeight) * evaluation.lengthRatio
  }

  /** The overall score `_apply_rubric` leaves: the weighted sum, times 0.8 when some
      required keyword is missing from the text searched. */
  function RubricScore(evaluation: Evaluation, rubric: Rubric): real {
    var o := RubricOverall(evaluation, rubric.WeightsOrEmpty());
    if rubric.requiredKeywords.Some? && MissingRequiredKeywords(rubric.requiredKeywords.value, RubricStudentText) != []
    then o * MissingKeywordPenalty
    else o
  }

  /** The 0.8 penalty applies exactly when the rubric lists some non-empty required
      keyword, whatever the answer says. */
  lemma RubricScorePenalty(evaluation: Evaluation, rubric: Rubric)
    ensures var o := RubricOverall(evaluation, rubric.WeightsOrEmpty());
            RubricScore(evaluation, rubric) ==
              if rubric.requiredKeywords.Some? && exists k :: k in rubric.requiredKeywords.value && k != ""
              then o * MissingKeywordPenalty
              else o
  {
    if rubric.requiredKeywords.Some? {
      RubricPenaltyCondition(rubric.requiredKeywords.value);
    }
  }

  /** `_apply_rubric`: rubric weights over the stored measures, then a single 0.8
      penalty and a "Missing required concepts" remark when some required keyword is
      missing from the text searched. */
  method ApplyRubric(evaluation: Evaluation, rubric: Rubric) returns (r: Evaluation)
    ensures r == evaluation.(overallScore := RubricScore(evaluation, rubric),
                             feedback := evaluation.feedback + RubricRemarks(rubric))
  {
    var weights := rubric.WeightsOrEmpty();
    r := evaluation.(overallScore :=
      weights.semantic.GetOr(DefaultSemanticWeight) * evaluation.semanticSimilarity +
      weights.keywords.GetOr(DefaultKeywordWeight) * evaluation.keywordCoverage +
      weights.length.GetOr(DefaultLengthWeight) * evaluation.lengthRatio);
    assert r.overallScore == RubricOverall(evaluation, weights);
    if rubric.requiredKeywords.Some? {
      var missing := MissingRequiredKeywords(rubric.requiredKeywords.value, RubricStudentText);
      if missing != [] {
        r := r.(overallScore := r.overallScore * MissingKeywordPenalty);
        r := r.(feedback := r.feedback + [MissingRequired(missing)]);
        assert RubricRemarks(rubric) == [MissingRequired(missing)];
      } else {
        assert RubricRemarks(rubric) == [];
      }
    } else {
      assert RubricRemarks(rubric) == [];
    }
  }

  /** As written, the rubric penalty does not depend on the student's answer at all:
      it is applied exactly when some required keyword is non-empty. */
  lemma RubricPenaltyCondition(required: seq<string>)
    ensures MissingRequiredKeywords(required, RubricStudentText) != []
        <==> exists k :: k in required && k != ""
  {
    MissingInEmptyText(required);
    var missing := MissingRequiredKeywords(required, RubricStudentText);
    if exists k :: k in required && k != "" {
      var k :| k in required && k != "";
      assert k in missing;
    } else if missing != [] {
      assert missing[0] in missing;
    }
  }

  /** The remarks on keywords: one "Consider discussing" naming up to three missing
      model keywords when some are missing, else none. */
  function CoverageRemarks(student: seq<string>, model: seq<string>): (r: seq<Remark>)
    ensures |r| <= 1
    ensures r != [] <==> exists k :: k in model && k !in student
    ensures forall i :: 0 <= i < |r| ==>
      && r[i].ConsiderDiscussing?
      && 1 <= |r[i].keywords| <= MaxNamedMissing
      && forall k :: k in r[i].keywords ==> k in model && k !in student
    ensures r != [] ==>
      var missing := MissingKeywords(student, model);
      && |r[0].keywords| == (if |missing| <= MaxNamedMissing then |missing| else MaxNamedMissing)
      && TextProcessor.Distinct(r[0].keywords)
  {
    var missing := MissingKeywords(student, model);
    if missing == [] then []
    else
      var named := TextProcessor.Take(missing, MaxNamedMissing);
      assert forall k :: k in named ==> k in missing;
      assert missing[0] in named;
      [ConsiderDiscussing(named)]
  }

  /** `evaluate_answer`. `similarity` is the embedding similarity of the two answers
      (0.0 when the sentence model is unavailable); `modelKeywords` and
      `studentKeywords` are what keyword extraction returned for each answer. */
  method EvaluateAnswer(studentAnswer: string, modelAnswer: string, rubric: Option<Rubric>,
                        similarity: real, modelKeywords: seq<string>, studentKeywords: seq<string>)
    returns (result: Result<Evaluation, EvaluationError>)
    ensures result.Failure? <==> !UsesRubric(rubric) && modelKeywords == []
    ensures result.Success? ==>
      var e := result.value;
      && e.semanticSimilarity == similarity
      && e.keywordCoverage == (if modelKeywords == [] then 0.0 else KeywordCoverage(studentKeywords, modelKeywords))
      && e.lengthRatio == LengthRatio(studentAnswer, modelAnswer)
      && e.overallScore == (if UsesRubric(rubric) then RubricScore(e, rubric.value)
                            else DefaultOverall(e.semanticSimilarity, e.keywordCoverage, e.lengthRatio))
      && e.feedback ==
           (if modelKeywords == [] then [] else CoverageRemarks(studentKeywords, modelKeywords))
           + (if UsesRubric(rubric) then RubricRemarks(rubric.value) else [])
           + [BandRemark(e.overallScore)]
  {
    var coverageAssigned := false;
    var keywordCoverage: real := 0.0;
    var feedback: seq<Remark> := [];
    if modelKeywords != [] {
      keywordCoverage := KeywordCoverage(studentKeywords, modelKeywords);
      coverageAssigned := true;
      feedback := CoverageRemarks(studentKeywords, modelKeywords);
    }
    var lengthRatio := LengthRatio(studentAnswer, modelAnswer);
    var measured := Evaluation(similarity, keywordCoverage, lengthRatio, 0.0, feedback);
    var evaluation := measured;
    if UsesRubric(rubric) {
      evaluation := ApplyRubric(measured, rubric.value);
    } else {
      if !coverageAssigned {
        return Failure(UnboundKeywordCoverage);
      }
      evaluation := evaluation.(overallScore := DefaultOverall(similarity, keywordCoverage, lengthRatio));
    }
    var band := BandRemark(evaluation.overallScore);
    var e := evaluation.(feedback := evaluation.feedback + [band]);
    if UsesRubric(rubric) {
      RubricScoreMeasures(measured, e, rubric.value);
    }
    result := Success(e);
  }

  /** The rubric score depends on the three measures only. */
  lemma RubricScoreMeasures(a: Evaluation, b: Evaluation, rubric: Rubric)
    requires a.semanticSimilarity == b.semanticSimilarity
    requires a.keywordCoverage == b.keywordCoverage && a.lengthRatio == b.lengthRatio
    ensures RubricScore(a, rubric) == RubricScore(b, rubric)
  {
  }

  /** The remarks `_apply_rubric` adds. */
  function RubricRemarks(rubric: Rubric): (r: seq<Remark>)
    ensures |r| <= 1
    ensures r != [] <==> rubric.requiredKeywords.Some? && exists k :: k in rubric.requiredKeywords.value && k != ""
  {
    if rubric.requiredKeywords.None? then []
    else
      var missing := MissingRequiredKeywords(rubric.requiredKeywords.value, RubricStudentText);
      RubricPenaltyCondition(rubric.requiredKeywords.value);
      if missing != [] then [MissingRequired(missing)] else []
  }

  /** `if rubric:` — a rubric is used when it is given and is a non-empty dictionary. */
  predicate UsesRubric(rubric: Option<Rubric>) {
    rubric.Some? && rubric.value.NonEmpty()
  }
}
