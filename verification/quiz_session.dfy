/**
 * The quiz session of src/components/QuizComponent.tsx: the four event handlers
 * as pure transitions over an immutable state, the score, and the two result
 * tiers the results screen shows.
 */
module QuizSession {
  import opened Wrappers
  import opened DocumentProcessor

  /**
   * `currentQuestion`, the sparse `selectedAnswers` array (index to chosen
   * option), `showResults` and `quizCompleted`.
   */
  datatype State = State(current: int, answers: map<int, int>, showResults: bool, completed: bool)

  /** The state the component mounts with. */
  const Initial: State := State(0, map[], false, false)

  /** `selectedAnswers[i]`; `None` is JavaScript's `undefined`. */
  function AnswerAt(s: State, i: int): Option<int> {
    if i in s.answers then Some(s.answers[i]) else None
  }

  // ---------------------------------------------------------------------------
  // Transitions
  // ---------------------------------------------------------------------------

  /** `handleAnswerSelect(answer)`: records the answer for the current question
      unless the quiz is completed. */
  function SelectAnswer(s: State, answer: int): (r: State)
    ensures s.completed ==> r == s
    ensures !s.completed ==> AnswerAt(r, s.current) == Some(answer)
    ensures forall i :: i != s.current ==> AnswerAt(r, i) == AnswerAt(s, i)
    ensures r.current == s.current && r.showResults == s.showResults && r.completed == s.completed
  {
    if s.completed then s else s.(answers := s.answers[s.current := answer])
  }

  /** `handleNext`, for a quiz of `quizLength` questions. */
  function Next(s: State, quizLength: int): (r: State)
    ensures r.answers == s.answers
    ensures s.current < quizLength - 1 ==>
      r.current == s.current + 1 && r.showResults == s.showResults && r.completed == s.completed
    ensures s.current >= quizLength - 1 ==>
      r.current == s.current && r.showResults && r.completed
  {
    if s.current < quizLength - 1 then s.(current := s.current + 1)
    else s.(completed := true, showResults := true)
  }

  /** `handlePrevious`; like the source, it does not look at `completed`. */
  function Previous(s: State): (r: State)
    ensures r.answers == s.answers && r.showResults == s.showResults && r.completed == s.completed
    ensures s.current > 0 ==> r.current == s.current - 1
    ensures s.current <= 0 ==> r.current == s.current
  {
    if s.current > 0 then s.(current := s.current - 1) else s
  }

  /** `handleRestart`: back to question 0 with nothing answered. */
  function Restart(s: State): (r: State)
    ensures r.current == 0 && r.answers == map[]
    ensures !r.showResults && !r.completed
    ensures forall i :: AnswerAt(r, i) == None
  {
    Initial
  }

  /** The user actions the quiz view wires to the handlers. */
  datatype Event = Select(option: int) | Advance | Retreat | Reset

  function Step(s: State, e: Event, quizLength: int): State {
    match e
    case Select(option) => SelectAnswer(s, option)
    case Advance => Next(s, quizLength)
    case Retreat => Previous(s)
    case Reset => Restart(s)
  }

  function Run(s: State, events: seq<Event>, quizLength: int): State
    decreases |events|
  {
    if |events| == 0 then s else Run(Step(s, events[0], quizLength), events[1..], quizLength)
  }

  // ---------------------------------------------------------------------------
  // Invariant
  // ---------------------------------------------------------------------------

  /**
   * The index addresses a question, the two flags move together, and answers are
   * only ever recorded for questions of the quiz.
   */
  predicate Valid(s: State, quizLength: int) {
    && 0 <= s.current < quizLength
    && s.showResults == s.completed
    && forall i :: i in s.answers ==> 0 <= i < quizLength
  }

  lemma InitialValid(quizLength: int)
    requires quizLength > 0
    ensures Valid(Initial, quizLength)
  {
  }

  /** Every handler keeps a valid session valid. */
  lemma StepPreservesValid(s: State, e: Event, quizLength: int)
    requires Valid(s, quizLength)
    ensures Valid(Step(s, e, quizLength), quizLength)
  {
  }

  lemma {:induction false} RunPreservesValid(s: State, events: seq<Event>, quizLength: int)
    requires Valid(s, quizLength)
    ensures Valid(Run(s, events, quizLength), quizLength)
    decreases |events|
  {
    if |events| > 0 {
      StepPreservesValid(s, events[0], quizLength);
      RunPreservesValid(Step(s, events[0], quizLength), events[1..], quizLength);
    }
  }

  /** From mount, with a non-empty quiz, the index stays in bounds whatever the user does. */
  lemma IndexAlwaysInBounds(events: seq<Event>, quizLength: int)
    requires quizLength > 0
    ensures 0 <= Run(Initial, events, quizLength).current < quizLength
  {
    RunPreservesValid(Initial, events, quizLength);
  }

  // ---------------------------------------------------------------------------
  // Navigation and completion
  // ---------------------------------------------------------------------------

  /** Going back undoes going forward, away from the last question. */
  lemma PreviousUndoesNext(s: State, quizLength: int)
    requires 0 <= s.current < quizLength - 1
    ensures Previous(Next(s, quizLength)) == s
  {
  }

  /** Going forward undoes going back, away from the first question. */
  lemma NextUndoesPrevious(s: State, quizLength: int)
    requires 0 < s.current < quizLength
    ensures Next(Previous(s), quizLength) == s
  {
  }

  /** Once completed, only a restart unlocks the answers: any other events leave the
      session completed with its answers as they were. */
  lemma {:induction false} CompletionLocksAnswers(s: State, events: seq<Event>, quizLength: int)
    requires s.completed
    requires forall k :: 0 <= k < |events| ==> !events[k].Reset?
    ensures Run(s, events, quizLength).completed
    ensures Run(s, events, quizLength).answers == s.answers
    decreases |events|
  {
    if |events| > 0 {
      CompletionLocksAnswers(Step(s, events[0], quizLength), events[1..], quizLength);
    }
  }

  /** `n` presses of Next. */
  function Advances(n: nat): (r: seq<Event>)
    ensures |r| == n && forall k :: 0 <= k < n ==> r[k] == Advance
  {
    if n == 0 then [] else [Advance] + Advances(n - 1)
  }

  /** Pressing Next `quizLength - current` times from a valid session completes the
      quiz on the last question, answered or not. */
  lemma {:induction false} AdvancingCompletes(s: State, quizLength: int)
    requires Valid(s, quizLength)
    ensures var r := Run(s, Advances(quizLength - s.current), quizLength);
      r.completed && r.showResults && r.current == quizLength - 1 && r.answers == s.answers
    decreases quizLength - s.current
  {
    var evs := Advances(quizLength - s.current);
    assert evs[1..] == Advances(quizLength - s.current - 1);
    if s.current < quizLength - 1 {
      AdvancingCompletes(Next(s, quizLength), quizLength);
    } else {
      assert evs[1..] == [];
    }
  }

  /** A restart forgets everything that came before it. */
  lemma RestartIsFresh(s: State, events: seq<Event>, quizLength: int)
    ensures Run(s, [Reset] + events, quizLength) == Run(Initial, events, quizLength)
  {
    assert ([Reset] + events)[1..] == events;
  }

  // ---------------------------------------------------------------------------
  // Score
  // ---------------------------------------------------------------------------

  /** Question `i` counts when its recorded answer is `correctAnswer`; an
      unanswered question (`undefined`) never does. */
  predicate IsCorrect(quiz: seq<QuizQuestion>, answers: map<int, int>, i: int)
    requires 0 <= i < |quiz|
  {
    i in answers && answers[i] == quiz[i].correctAnswer
  }

  /** The questions answered correctly. */
  function CorrectIndices(quiz: seq<QuizQuestion>, answers: map<int, int>, k: int): set<int>
    requires 0 <= k <= |quiz|
  {
    set i | 0 <= i < k && IsCorrect(quiz, answers, i)
  }

  /** The correct answers among the first `k` questions. */
  function ScoreBelow(quiz: seq<QuizQuestion>, answers: map<int, int>, k: nat): (n: nat)
    requires k <= |quiz|
    ensures n <= k
    ensures n == |CorrectIndices(quiz, answers, k)|
    decreases k
  {
    if k == 0 then 0
    else
      var prev := ScoreBelow(quiz, answers, k - 1);
      assert CorrectIndices(quiz, answers, k) ==
        CorrectIndices(quiz, answers, k - 1) + (if IsCorrect(quiz, answers, k - 1) then {k - 1} else {});
      prev + (if IsCorrect(quiz, answers, k - 1) then 1 else 0)
  }

  /** `calculateScore`, as a definition. */
  function Score(quiz: seq<QuizQuestion>, answers: map<int, int>): (n: nat)
    ensures n <= |quiz|
    ensures n == |CorrectIndices(quiz, answers, |quiz|)|
  {
    ScoreBelow(quiz, answers, |quiz|)
  }

  /** `calculateScore` as the source computes it: one pass over the quiz. */
  method CalculateScore(quiz: seq<QuizQuestion>, answers: map<int, int>) returns (correct: nat)
    ensures correct == |CorrectIndices(quiz, answers, |quiz|)|
    ensures correct <= |quiz|
  {
    correct := 0;
    var index := 0;
    while index < |quiz|
      invariant 0 <= index <= |quiz|
      invariant correct == ScoreBelow(quiz, answers, index)
    {
      if index in answers && answers[index] == quiz[index].correctAnswer {
        correct := correct + 1;
      }
      index := index + 1;
    }
  }

  /** The score reads only the answers recorded for questions of the quiz. */
  lemma {:induction false} ScoreOnlyReadsQuizAnswers(quiz: seq<QuizQuestion>, a: map<int, int>, b: map<int, int>, k: nat)
    requires k <= |quiz|
    requires forall i :: 0 <= i < k ==> (i in a <==> i in b)
    requires forall i :: 0 <= i < k && i in a ==> a[i] == b[i]
    ensures ScoreBelow(quiz, a, k) == ScoreBelow(quiz, b, k)
    decreases k
  {
    if k > 0 {
      ScoreOnlyReadsQuizAnswers(quiz, a, b, k - 1);
    }
  }

  /** No answers, no score: in particular right after a restart. */
  lemma {:induction false} NoAnswersScoreZero(quiz: seq<QuizQuestion>, k: nat)
    requires k <= |quiz|
    ensures ScoreBelow(quiz, map[], k) == 0
    decreases k
  {
    if k > 0 {
      NoAnswersScoreZero(quiz, k - 1);
    }
  }

  /** Answering every question correctly scores the whole quiz. */
  lemma {:induction false} AllCorrectScoresAll(quiz: seq<QuizQuestion>, answers: map<int, int>, k: nat)
    requires k <= |quiz|
    requires forall i :: 0 <= i < k ==> i in answers && answers[i] == quiz[i].correctAnswer
    ensures ScoreBelow(quiz, answers, k) == k
    decreases k
  {
    if k > 0 {
      AllCorrectScoresAll(quiz, answers, k - 1);
    }
  }

  /** Selecting an answer changes the score only through the current question. */
  lemma {:induction false} SelectChangesOnlyCurrent(quiz: seq<QuizQuestion>, s: State, answer: int, k: nat)
    requires k <= |quiz| && 0 <= s.current < |quiz|
    ensures var r := SelectAnswer(s, answer);
      ScoreBelow(quiz, r.answers, k) + (if s.current < k && IsCorrect(quiz, s.answers, s.current) then 1 else 0)
      == ScoreBelow(quiz, s.answers, k) + (if s.current < k && IsCorrect(quiz, r.answers, s.current) then 1 else 0)
    decreases k
  {
    if k > 0 {
      SelectChangesOnlyCurrent(quiz, s, answer, k - 1);
    }
  }

  // ---------------------------------------------------------------------------
  // Result tiers
  // ---------------------------------------------------------------------------

  /** Top ("Excelente!", green), middle ("Bom trabalho!", yellow), lowest
      ("Continue estudando!", red). */
  datatype Tier = Top | Middle | Lowest

  /** The badge: `score >= total * 0.8`, then `score >= total * 0.6`, with the
      floating-point products taken as exact reals. */
  function BadgeTier(score: nat, total: nat): (t: Tier)
    ensures t == Top <==> 5 * score >= 4 * total
    ensures t == Middle <==> 5 * score < 4 * total && 5 * score >= 3 * total
    ensures t == Lowest <==> 5 * score < 3 * total
  {
    if score as real >= total as real * 0.8 then Top
    else if score as real >= total as real * 0.6 then Middle
    else Lowest
  }

  /**
   * `getScoreColor`: the percentage `score / total * 100` against 80 and 60. With
   * no questions the division is `0 / 0`, which is NaN in JavaScript, and every
   * comparison with NaN is false; a positive score over 0 is +Infinity.
   */
  function ColorTier(score: nat, total: nat): (t: Tier)
    ensures total > 0 ==> (t == Top <==> 5 * score >= 4 * total)
    ensures total > 0 ==> (t == Middle <==> 5 * score < 4 * total && 5 * score >= 3 * total)
    ensures total > 0 ==> (t == Lowest <==> 5 * score < 3 * total)
    ensures total == 0 ==> (t == Top <==> score > 0)
    ensures total == 0 && score == 0 ==> t == Lowest
  {
    if total == 0 then
      if score > 0 then Top else Lowest
    else
      var percentage := (score as real / total as real) * 100.0;
      PercentageFacts(score, total);
      if percentage >= 80.0 then Top
      else if percentage >= 60.0 then Middle
      else Lowest
  }

  /** The percentage clears a threshold exactly when the score clears the same
      fraction of the total. */
  lemma PercentageFacts(score: nat, total: nat)
    requires total > 0
    ensures (score as real / total as real) * 100.0 >= 80.0 <==> 5 * score >= 4 * total
    ensures (score as real / total as real) * 100.0 >= 60.0 <==> 5 * score >= 3 * total
  {
    var s, t := score as real, total as real;
    QuotientTimesDivisor(s, t);
    ThresholdByProduct(s / t, s, t, 0.8);
    ThresholdByProduct(s / t, s, t, 0.6);
    RealThresholds(score, total);
  }

  lemma ThresholdByProduct(q: real, s: real, t: real, bound: real)
    requires t > 0.0 && q * t == s
    ensures q * 100.0 >= bound * 100.0 <==> s >= bound * t
  {
    FractionAtLeast(q, bound, t);
  }

  lemma QuotientTimesDivisor(s: real, t: real)
    requires t > 0.0
    ensures (s / t) * t == s
  {
  }

  lemma RealThresholds(score: nat, total: nat)
    ensures score as real >= 0.8 * total as real <==> 5 * score >= 4 * total
    ensures score as real >= 0.6 * total as real <==> 5 * score >= 3 * total
  {
  }

  lemma FractionAtLeast(q: real, bound: real, t: real)
    requires t > 0.0
    ensures q >= bound <==> q * t >= bound * t
  {
    if q >= bound {
      assert q * t - bound * t == (q - bound) * t;
    } else {
      assert bound * t - q * t == (bound - q) * t;
    }
  }

  /** On a non-empty quiz the colour and the badge always agree. */
  lemma TiersAgree(score: nat, total: nat)
    requires total > 0
    ensures ColorTier(score, total) == BadgeTier(score, total)
  {
  }

  /** On an empty quiz they do not: 0/0 is coloured lowest but badged top. */
  lemma TiersDisagreeOnEmptyQuiz()
    ensures ColorTier(0, 0) == Lowest
    ensures BadgeTier(0, 0) == Top
  {
  }

  /** The five-question run: questions 0, 1 and 2 right, 3 and 4 wrong, scores 3/5,
      which is the middle tier on both displays. */
  lemma ThreeOfFiveIsMiddle(quiz: seq<QuizQuestion>, answers: map<int, int>)
    requires |quiz| == 5
    requires forall i :: 0 <= i < 3 ==> i in answers && answers[i] == quiz[i].correctAnswer
    requires forall i :: 3 <= i < 5 ==> i in answers && answers[i] != quiz[i].correctAnswer
    ensures Score(quiz, answers) == 3
    ensures BadgeTier(Score(quiz, answers), |quiz|) == Middle
    ensures ColorTier(Score(quiz, answers), |quiz|) == Middle
  {
    AllCorrectScoresAll(quiz, answers, 3);
    assert !IsCorrect(quiz, answers, 3) && !IsCorrect(quiz, answers, 4);
  }
}
