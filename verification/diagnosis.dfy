/**
 * The three-question mood diagnosis of `useDiagnosis`: a question index and a partial
 * answer record. Each answer stores the given value under the current question's key and
 * moves to the next question; the diagnosis is complete once the index passes the last
 * question, and the completed answer is handed out only if all three keys are present.
 * Question texts, labels and emoji are display data and are not modelled.
 */
module Diagnosis {
  import opened Wrappers
  import opened Types

  /** The field of the answer record a question fills. */
  datatype AnswerKey = EnergyKey | GoOutKey | ActivityTypeKey

  /**
   * A value handed to `answerQuestion`. The source accepts any value; the three kinds
   * here are the values its options carry.
   */
  datatype AnswerValue =
    | EnergyAnswer(level: EnergyLevel)
    | GoOutAnswer(goOut: bool)
    | ActivityAnswer(activity: ActivityType)

  datatype Question = Question(id: int, answerKey: AnswerKey, options: seq<AnswerValue>)

  /** `DIAGNOSIS_QUESTIONS`, without texts, labels and emoji. */
  const DiagnosisQuestions: seq<Question> := [
    Question(1, EnergyKey, [EnergyAnswer(Low), EnergyAnswer(Medium), EnergyAnswer(High)]),
    Question(2, GoOutKey, [GoOutAnswer(true), GoOutAnswer(false)]),
    Question(3, ActivityTypeKey, [ActivityAnswer(Active), ActivityAnswer(Passive)])
  ]

  /** `totalQuestions`. */
  const TotalQuestions: int := |DiagnosisQuestions|

  /** Whether a value is of the kind the field `key` holds. */
  predicate Fits(key: AnswerKey, v: AnswerValue) {
    match key
    case EnergyKey => v.EnergyAnswer?
    case GoOutKey => v.GoOutAnswer?
    case ActivityTypeKey => v.ActivityAnswer?
  }

  /** Some question lists `v` among its options. */
  predicate IsOffered(v: AnswerValue) {
    exists i, k :: (0 <= i < |DiagnosisQuestions| && 0 <= k < |DiagnosisQuestions[i].options| &&
      DiagnosisQuestions[i].options[k] == v)
  }

  /**
   * The question table: three questions numbered 1, 2, 3 filling three different fields,
   * every option of a question fitting its field, no option listed twice, and every
   * possible value offered by some question.
   */
  lemma QuestionsAreWellFormed()
    ensures TotalQuestions == 3
    ensures forall i :: 0 <= i < |DiagnosisQuestions| ==> DiagnosisQuestions[i].id == i + 1
    ensures forall i, j :: 0 <= i < j < |DiagnosisQuestions| ==>
      DiagnosisQuestions[i].answerKey != DiagnosisQuestions[j].answerKey
    ensures forall i, k :: 0 <= i < |DiagnosisQuestions| && 0 <= k < |DiagnosisQuestions[i].options| ==>
      Fits(DiagnosisQuestions[i].answerKey, DiagnosisQuestions[i].options[k])
    ensures forall i, k, l :: 0 <= i < |DiagnosisQuestions| && 0 <= k < l < |DiagnosisQuestions[i].options| ==>
      DiagnosisQuestions[i].options[k] != DiagnosisQuestions[i].options[l]
    ensures forall v: AnswerValue :: IsOffered(v)
  {
    forall v: AnswerValue ensures IsOffered(v) {
      match v
      case EnergyAnswer(l) =>
        var k := match l case Low => 0 case Medium => 1 case High => 2;
        assert DiagnosisQuestions[0].options[k] == v;
      case GoOutAnswer(b) =>
        var k := if b then 0 else 1;
        assert DiagnosisQuestions[1].options[k] == v;
      case ActivityAnswer(a) =>
        var k := if a == Active then 0 else 1;
        assert DiagnosisQuestions[2].options[k] == v;
    }
  }

  /** The hook's state: `currentQuestionIndex` and the partial `answers` record. */
  datatype DiagnosisState = DiagnosisState(index: int, answers: map<AnswerKey, AnswerValue>)

  /** Index 0 and `INITIAL_ANSWERS` (the empty record). */
  const Initial: DiagnosisState := DiagnosisState(0, map[])

  /** `currentQuestion`: the question at the index, absent once past the last one. */
  function CurrentQuestion(s: DiagnosisState): (r: Option<Question>)
    ensures r.Some? <==> 0 <= s.index < TotalQuestions
    ensures r.Some? ==> r.value.id == s.index + 1
  {
    if 0 <= s.index < |DiagnosisQuestions| then Some(DiagnosisQuestions[s.index]) else None
  }

  /** `isCompleted`. */
  predicate IsCompleted(s: DiagnosisState) {
    s.index >= TotalQuestions
  }

  /** `isLastQuestion`. */
  predicate IsLastQuestion(s: DiagnosisState) {
    s.index == TotalQuestions - 1
  }

  /**
   * `progress` as the fraction `num / den`: the 1-based number of the question shown out
   * of the total.
   */
  function Progress(s: DiagnosisState): (r: (int, int))
    ensures r.1 == TotalQuestions
    ensures 0 <= s.index < TotalQuestions ==> 0 < r.0 <= r.1
    ensures IsLastQuestion(s) <==> r.0 == r.1
  {
    (s.index + 1, TotalQuestions)
  }

  /**
   * `answerQuestion(value)`: store `value` under the current question's field and advance.
   * Past the last question there is no current question and the source fails reading its
   * key; that case is `None`.
   */
  function AnswerQuestion(s: DiagnosisState, value: AnswerValue): (r: Option<DiagnosisState>)
    ensures r.None? <==> CurrentQuestion(s).None?
    ensures r.Some? ==> r.value.index == s.index + 1
    ensures r.Some? ==> (CurrentQuestion(s).value.answerKey in r.value.answers &&
      r.value.answers[CurrentQuestion(s).value.answerKey] == value)
    ensures r.Some? ==> forall k :: k != CurrentQuestion(s).value.answerKey ==>
      (k in r.value.answers <==> k in s.answers) &&
      (k in s.answers ==> r.value.answers[k] == s.answers[k])
  {
    match CurrentQuestion(s)
    case None => None
    case Some(q) => Some(DiagnosisState(s.index + 1, s.answers[q.answerKey := value]))
  }

  /** `resetDiagnosis()`: back to the first question with no answers. */
  function ResetDiagnosis(s: DiagnosisState): (r: DiagnosisState)
    ensures r.index == 0 && r.answers == map[]
    ensures CurrentQuestion(r) == Some(DiagnosisQuestions[0])
    ensures !IsCompleted(r)
  {
    Initial
  }

  /**
   * `getCompletedAnswers()`: the answer record once the diagnosis is complete and all
   * three fields are present, otherwise nothing.
   */
  function GetCompletedAnswers(s: DiagnosisState): (r: Option<map<AnswerKey, AnswerValue>>)
    ensures r.Some? <==> (IsCompleted(s) && EnergyKey in s.answers && GoOutKey in s.answers &&
      ActivityTypeKey in s.answers)
    ensures r.Some? ==> r.value == s.answers
  {
    if !IsCompleted(s) then None
    else if EnergyKey !in s.answers || GoOutKey !in s.answers || ActivityTypeKey !in s.answers then None
    else Some(s.answers)
  }

  /** The record holds field `key` with a value of its kind. */
  predicate FieldFits(answers: map<AnswerKey, AnswerValue>, key: AnswerKey) {
    key in answers && Fits(key, answers[key])
  }

  /**
   * The typed `DiagnosisAnswer` a complete record stands for, when each field holds a
   * value of its kind.
   */
  function AsDiagnosisAnswer(answers: map<AnswerKey, AnswerValue>): (r: Option<DiagnosisAnswer>)
    ensures r.Some? <==> (FieldFits(answers, EnergyKey) && FieldFits(answers, GoOutKey) &&
      FieldFits(answers, ActivityTypeKey))
    ensures r.Some? ==> (answers[EnergyKey] == EnergyAnswer(r.value.energy) &&
      answers[GoOutKey] == GoOutAnswer(r.value.goOut) &&
      answers[ActivityTypeKey] == ActivityAnswer(r.value.activityType))
  {
    if EnergyKey in answers && GoOutKey in answers && ActivityTypeKey in answers &&
       answers[EnergyKey].EnergyAnswer? && answers[GoOutKey].GoOutAnswer? &&
       answers[ActivityTypeKey].ActivityAnswer?
    then Some(DiagnosisAnswer(answers[EnergyKey].level, answers[GoOutKey].goOut,
                              answers[ActivityTypeKey].activity))
    else None
  }

  /** The state after answering `values` in turn from the start; `None` once one fails. */
  function Run(values: seq<AnswerValue>): Option<DiagnosisState>
    decreases |values|
  {
    if |values| == 0 then Some(Initial)
    else
      match Run(values[..|values| - 1])
      case None => None
      case Some(s) => AnswerQuestion(s, values[|values| - 1])
  }

  /** The first `n` question fields, in question order. */
  function KeysOf(n: nat): set<AnswerKey>
    requires n <= |DiagnosisQuestions|
  {
    set i | 0 <= i < n :: DiagnosisQuestions[i].answerKey
  }

  /**
   * Answering from the start: at most three answers are accepted; after `n` of them the
   * index is `n`, exactly the first `n` fields are filled, each with the value given to its
   * question, and the diagnosis is complete exactly after the third.
   */
  lemma {:induction false} RunSpec(values: seq<AnswerValue>)
    ensures Run(values).Some? <==> |values| <= TotalQuestions
    ensures Run(values).Some? ==>
      Run(values).value.index == |values| &&
      Run(values).value.answers.Keys == KeysOf(|values|) &&
      (forall i :: 0 <= i < |values| ==> Run(values).value.answers[DiagnosisQuestions[i].answerKey] == values[i]) &&
      (IsCompleted(Run(values).value) <==> |values| == TotalQuestions)
    decreases |values|
  {
    if |values| > 0 {
      var prev := values[..|values| - 1];
      RunSpec(prev);
      if Run(prev).Some? {
        var s := Run(prev).value;
        if |prev| < 3 {
          var q := DiagnosisQuestions[|prev|];
          var t := Run(values).value;
          assert t.answers == s.answers[q.answerKey := values[|values| - 1]];
          assert t.answers.Keys == KeysOf(|values|) by {
            assert KeysOf(|values|) == KeysOf(|prev|) + {q.answerKey};
          }
          forall i | 0 <= i < |values|
            ensures t.answers[DiagnosisQuestions[i].answerKey] == values[i]
          {
            if i < |prev| {
              assert DiagnosisQuestions[i].answerKey != q.answerKey;
              assert prev[i] == values[i];
            }
          }
        }
      }
    }
  }

  /**
   * What the screen shows along a run from the start: after `n` answers the progress is
   * `(n + 1) / 3`, so it grows by one third per answer from 1/3, and the last question is
   * on screen exactly after two answers.
   */
  lemma ProgressAlongRun(values: seq<AnswerValue>)
    ensures Run(values).Some? ==> Progress(Run(values).value) == (|values| + 1, TotalQuestions)
    ensures Run(values).Some? ==> (IsLastQuestion(Run(values).value) <==> |values| == TotalQuestions - 1)
  {
    RunSpec(values);
  }

  /**
   * The completed answer is handed out exactly after three answers from the start, and it
   * is the record of those three answers; values chosen from the questions' options always
   * give a typed `DiagnosisAnswer` carrying them.
   */
  lemma CompletedAfterThreeAnswers(values: seq<AnswerValue>)
    ensures (Run(values).Some? && GetCompletedAnswers(Run(values).value).Some?) <==> |values| == 3
    ensures |values| == 3 ==>
      GetCompletedAnswers(Run(values).value) ==
        Some(map[EnergyKey := values[0], GoOutKey := values[1], ActivityTypeKey := values[2]])
    ensures (|values| == 3 && values[0].EnergyAnswer? && values[1].GoOutAnswer? && values[2].ActivityAnswer?) ==>
      AsDiagnosisAnswer(GetCompletedAnswers(Run(values).value).value) ==
        Some(DiagnosisAnswer(values[0].level, values[1].goOut, values[2].activity))
  {
    RunSpec(values);
    if |values| == 3 {
      var s := Run(values).value;
      assert KeysOf(3) == {EnergyKey, GoOutKey, ActivityTypeKey} by {
        assert DiagnosisQuestions[0].answerKey == EnergyKey;
        assert DiagnosisQuestions[1].answerKey == GoOutKey;
        assert DiagnosisQuestions[2].answerKey == ActivityTypeKey;
      }
      assert s.answers == map[EnergyKey := values[0], GoOutKey := values[1], ActivityTypeKey := values[2]];
    } else if Run(values).Some? {
      assert !IsCompleted(Run(values).value);
    }
  }
}
