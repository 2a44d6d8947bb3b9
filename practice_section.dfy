/**
 * The end-of-lesson practice test: a fixed list of questions, the answers and
 * recordings the learner gives, a flashcard flip flag, and a score that is
 * computed once on submission.
 */
module Practice {
  import opened Wrappers
  import Navigation

  datatype QuestionType =
    | MultipleChoice
    | FreeResponse
    | VocabularyBank
    | Flashcard
    | Speaking
    | ImageSelection

  /** One question; the optional fields are TypeScript's optional properties. */
  datatype Question = Question(
    id: string,
    kind: QuestionType,
    question: string,
    options: Option<seq<string>>,
    correctAnswer: Option<string>,
    audioPrompt: Option<string>,
    imageUrls: Option<seq<string>>,
    vocabularyBank: Option<seq<string>>,
    points: nat)

  /** A recorded audio clip. */
  type Blob = seq<bv8>

  // ---------------------------------------------------------------------
  // The question list of the component
  // ---------------------------------------------------------------------

  const Q1: Question := Question("1", MultipleChoice,
    "What is the correct translation for \"Xin chào\"?",
    Some(["Hello", "Goodbye", "Thank you", "Sorry"]), Some("Hello"), None, None, None, 1)
  const Q2: Question := Question("2", FreeResponse,
    "Write the Vietnamese phrase for \"How are you?\"",
    None, Some("Bạn khỏe không"), None, None, None, 2)
  const Q3: Question := Question("3", VocabularyBank,
    "Match the correct words with their translations",
    None, Some("hello,goodbye,thank you,you're welcome"), None, None,
    Some(["xin chào", "tạm biệt", "cảm ơn", "không có chi"]), 2)
  const Q4: Question := Question("4", Flashcard,
    "Vietnamese Greetings",
    Some(["Xin chào", "Hello", "sin chow"]), None, None, None, None, 1)
  const Q5: Question := Question("5", Speaking,
    "Say the following phrase: \"Xin chào, tôi tên là...\"",
    None, None, Some("https://example.com/audio/greeting.mp3"), None, None, 3)
  const Q6: Question := Question("6", ImageSelection,
    "Select the image that matches the word \"cà phê\" (coffee)",
    None, Some("2"), None,
    Some([
      "https://images.unsplash.com/photo-1447933601403-0c6688de566e?auto=format&fit=crop&w=300",
      "https://images.unsplash.com/photo-1513558161293-cdaf765ed2fd?auto=format&fit=crop&w=300",
      "https://images.unsplash.com/photo-1509042239860-f550ce710b93?auto=format&fit=crop&w=300",
      "https://images.unsplash.com/photo-1495474472287-4d71bcdd2085?auto=format&fit=crop&w=300"]),
    None, 1)

  const MockQuestions: seq<Question> := [Q1, Q2, Q3, Q4, Q5, Q6]

  // ---------------------------------------------------------------------
  // Scoring
  // ---------------------------------------------------------------------

  /** `answers[id]`: the stored answer, or undefined. */
  function StoredAnswer(answers: map<string, string>, id: string): (r: Option<string>)
  {
    if id in answers then Some(answers[id]) else None
  }

  /** `answers[q.id] === q.correctAnswer`, where undefined equals undefined. */
  predicate IsCorrect(q: Question, answers: map<string, string>)
  {
    StoredAnswer(answers, q.id) == q.correctAnswer
  }

  /** The denominator shown with the score: the points of all questions. */
  function TotalPoints(qs: seq<Question>): (r: nat)
  {
    if qs == [] then 0 else TotalPoints(qs[..|qs| - 1]) + qs[|qs| - 1].points
  }

  /** The points of the questions answered exactly right, added up in list order. */
  function ScoreOf(qs: seq<Question>, answers: map<string, string>): (r: nat)
  {
    if qs == [] then 0
    else
      var q := qs[|qs| - 1];
      ScoreOf(qs[..|qs| - 1], answers) + (if IsCorrect(q, answers) then q.points else 0)
  }

  /** The points of the questions with no correct answer and no stored answer. */
  function FreePoints(qs: seq<Question>, answers: map<string, string>): (r: nat)
  {
    if qs == [] then 0
    else
      var q := qs[|qs| - 1];
      FreePoints(qs[..|qs| - 1], answers) + (if q.correctAnswer == None && q.id !in answers then q.points else 0)
  }

  /** The score never exceeds the total shown beside it. */
  lemma {:induction false} ScoreAtMostTotal(qs: seq<Question>, answers: map<string, string>)
    ensures ScoreOf(qs, answers) <= TotalPoints(qs)
  {
    if qs != [] {
      ScoreAtMostTotal(qs[..|qs| - 1], answers);
    }
  }

  /** Full marks exactly when every question worth points is answered exactly right. */
  lemma {:induction false} FullMarksIff(qs: seq<Question>, answers: map<string, string>)
    ensures ScoreOf(qs, answers) == TotalPoints(qs)
      <==> forall i :: 0 <= i < |qs| && qs[i].points > 0 ==> IsCorrect(qs[i], answers)
  {
    if qs != [] {
      var init := qs[..|qs| - 1];
      FullMarksIff(init, answers);
      ScoreAtMostTotal(init, answers);
      assert forall i :: 0 <= i < |init| ==> init[i] == qs[i];
    }
  }

  /**
   * A question without a correct answer that was never answered counts as
   * correct, since undefined equals undefined.
   */
  lemma {:induction false} UnansweredUnkeyedQuestionsScore(qs: seq<Question>, answers: map<string, string>)
    ensures FreePoints(qs, answers) <= ScoreOf(qs, answers)
  {
    if qs != [] {
      UnansweredUnkeyedQuestionsScore(qs[..|qs| - 1], answers);
    }
  }

  /** The question types whose controls store an answer. */
  predicate WritesAnswer(kind: QuestionType)
  {
    kind != Flashcard && kind != Speaking
  }

  /** The ids of the questions whose controls store an answer. */
  function AnswerableIds(qs: seq<Question>): (ids: set<string>)
  {
    if qs == [] then {}
    else
      var q := qs[|qs| - 1];
      AnswerableIds(qs[..|qs| - 1]) + (if WritesAnswer(q.kind) then {q.id} else {})
  }

  /** The ids of the speaking questions, the only ones with a recorder. */
  function SpeakingIds(qs: seq<Question>): (ids: set<string>)
  {
    if qs == [] then {}
    else
      var q := qs[|qs| - 1];
      SpeakingIds(qs[..|qs| - 1]) + (if q.kind == Speaking then {q.id} else {})
  }

  /** A question whose controls store answers has its id among the answerable ids. */
  lemma {:induction false} AnswerableIdsContains(qs: seq<Question>, i: nat)
    requires i < |qs| && WritesAnswer(qs[i].kind)
    ensures qs[i].id in AnswerableIds(qs)
    decreases |qs|
  {
    if i < |qs| - 1 {
      AnswerableIdsContains(qs[..|qs| - 1], i);
    }
  }

  /** A speaking question has its id among the speaking ids. */
  lemma {:induction false} SpeakingIdsContains(qs: seq<Question>, i: nat)
    requires i < |qs| && qs[i].kind == Speaking
    ensures qs[i].id in SpeakingIds(qs)
    decreases |qs|
  {
    if i < |qs| - 1 {
      SpeakingIdsContains(qs[..|qs| - 1], i);
    }
  }

  /** The list's total is 10, and a submission with no answers scores the flashcard and speaking points: 4. */
  lemma MockEmptySubmission()
    ensures TotalPoints(MockQuestions) == 10
    ensures ScoreOf(MockQuestions, map[]) == 4
  {
    MockTotal();
    MockScore(map[]);
  }

  /** The total of the list, one question at a time. */
  lemma MockTotal()
    ensures TotalPoints(MockQuestions) == 10
  {
    MockPrefixes();
    assert TotalPoints([Q1]) == 1;
    assert TotalPoints([Q1, Q2]) == 3;
    assert TotalPoints([Q1, Q2, Q3]) == 5;
    assert TotalPoints([Q1, Q2, Q3, Q4]) == 6;
    assert TotalPoints([Q1, Q2, Q3, Q4, Q5]) == 9;
  }

  /** The score of the list, one question at a time. */
  lemma MockScore(answers: map<string, string>)
    ensures ScoreOf(MockQuestions, answers) ==
      (if IsCorrect(Q1, answers) then 1 else 0) + (if IsCorrect(Q2, answers) then 2 else 0)
      + (if IsCorrect(Q3, answers) then 2 else 0) + (if IsCorrect(Q4, answers) then 1 else 0)
      + (if IsCorrect(Q5, answers) then 3 else 0) + (if IsCorrect(Q6, answers) then 1 else 0)
  {
    MockPrefixes();
    assert ScoreOf([Q1], answers) == (if IsCorrect(Q1, answers) then 1 else 0);
    assert ScoreOf([Q1, Q2], answers) == ScoreOf([Q1], answers) + (if IsCorrect(Q2, answers) then 2 else 0);
    assert ScoreOf([Q1, Q2, Q3], answers) == ScoreOf([Q1, Q2], answers) + (if IsCorrect(Q3, answers) then 2 else 0);
    assert ScoreOf([Q1, Q2, Q3, Q4], answers) == ScoreOf([Q1, Q2, Q3], answers) + (if IsCorrect(Q4, answers) then 1 else 0);
    assert ScoreOf([Q1, Q2, Q3, Q4, Q5], answers) == ScoreOf([Q1, Q2, Q3, Q4], answers) + (if IsCorrect(Q5, answers) then 3 else 0);
  }

  /** The prefixes of the list, for unfolding the folds over it. */
  lemma MockPrefixes()
    ensures MockQuestions[..5] == [Q1, Q2, Q3, Q4, Q5]
    ensures [Q1, Q2, Q3, Q4, Q5][..4] == [Q1, Q2, Q3, Q4]
    ensures [Q1, Q2, Q3, Q4][..3] == [Q1, Q2, Q3]
    ensures [Q1, Q2, Q3][..2] == [Q1, Q2]
    ensures [Q1, Q2][..1] == [Q1]
    ensures [Q1][..0] == []
  {
  }

  /** Answers can be stored only under the ids 1, 2, 3 and 6. */
  /**
   * The names a plain JavaScript object inherits from `Object.prototype`.
   * `answers[id]` on such a name yields the inherited member, not undefined,
   * so `StoredAnswer` models the lookup only for ids outside this set.
   */
  const ObjectPrototypeNames: set<string> := {
    "constructor", "hasOwnProperty", "isPrototypeOf", "propertyIsEnumerable",
    "toLocaleString", "toString", "valueOf", "__proto__", "__defineGetter__",
    "__defineSetter__", "__lookupGetter__", "__lookupSetter__"}

  /** No mock question id names an inherited member, so the map lookup is exact for them. */
  lemma MockIdsArePlain()
    ensures forall i :: 0 <= i < |MockQuestions| ==> MockQuestions[i].id !in ObjectPrototypeNames
  {
  }

  lemma MockAnswerableIds()
    ensures AnswerableIds(MockQuestions) == {"1", "2", "3", "6"}
  {
    MockPrefixes();
    assert AnswerableIds([Q1]) == {"1"};
    assert AnswerableIds([Q1, Q2]) == {"1", "2"};
    assert AnswerableIds([Q1, Q2, Q3]) == {"1", "2", "3"};
    assert AnswerableIds([Q1, Q2, Q3, Q4]) == {"1", "2", "3"};
    assert AnswerableIds([Q1, Q2, Q3, Q4, Q5]) == {"1", "2", "3"};
  }

  /**
   * Whatever the learner enters, the score lies between 4 and 10: no control
   * stores an answer for the flashcard or the speaking question, so both
   * always count.
   */
  lemma MockScoreBounds(answers: map<string, string>)
    requires answers.Keys <= AnswerableIds(MockQuestions)
    ensures 4 <= ScoreOf(MockQuestions, answers) <= TotalPoints(MockQuestions) == 10
  {
    MockAnswerableIds();
    assert "4" !in answers && "5" !in answers;
    MockScore(answers);
    assert IsCorrect(Q4, answers) && IsCorrect(Q5, answers);
    MockTotal();
    ScoreAtMostTotal(MockQuestions, answers);
  }

  /** Answers are compared exactly: "hello" for "Hello" earns nothing, "Hello" earns its point. */
  lemma MockExactComparison()
    ensures ScoreOf(MockQuestions, map["1" := "hello"]) == 4
    ensures ScoreOf(MockQuestions, map["1" := "Hello"]) == 5
  {
    MockScore(map["1" := "hello"]);
    MockScore(map["1" := "Hello"]);
    assert "hello" != "Hello" by {
      assert "hello"[0] != "Hello"[0];
    }
  }

  /** No single word of the vocabulary bank is the expected answer to its question. */
  lemma MockBankWordNeverCorrect(k: nat)
    requires k < |Q3.vocabularyBank.value|
    ensures Q3.vocabularyBank.value[k] != Q3.correctAnswer.value
  {
    assert |Q3.correctAnswer.value| == 38;
  }

  // ---------------------------------------------------------------------
  // The decimal string of an image index: `index.toString()`
  // ---------------------------------------------------------------------

  predicate IsDigit(c: char)
  {
    '0' <= c <= '9'
  }

  /** `n.toString()` for a non-negative integer: its decimal digits, no leading zero. */
  function IndexToString(n: nat): (s: string)
    ensures |s| >= 1 && forall i :: 0 <= i < |s| ==> IsDigit(s[i])
    ensures |s| > 1 ==> s[0] != '0'
  {
    if n < 10 then [('0' as int + n) as char]
    else IndexToString(n / 10) + [('0' as int + n % 10) as char]
  }

  /** The number a string of decimal digits denotes. */
  function DecimalValue(s: string): (n: nat)
    requires forall i :: 0 <= i < |s| ==> IsDigit(s[i])
  {
    if s == [] then 0
    else
      var c := s[|s| - 1];
      assert IsDigit(c);
      DecimalValue(s[..|s| - 1]) * 10 + (c as int - '0' as int)
  }

  /** Reading the decimal string back gives the index: IndexToString is injective. */
  lemma {:induction false} DecimalRoundTrip(n: nat)
    ensures DecimalValue(IndexToString(n)) == n
  {
    if n >= 10 {
      DecimalRoundTrip(n / 10);
      var s := IndexToString(n);
      assert s[..|s| - 1] == IndexToString(n / 10);
    }
  }

  /** Choosing image `k` matches the image question's answer "2" exactly when `k` is 2. */
  lemma ImageChoiceCorrectIff(k: nat)
    ensures Some(IndexToString(k)) == Q6.correctAnswer <==> k == 2
  {
    DecimalRoundTrip(k);
    DecimalRoundTrip(2);
  }

  // ---------------------------------------------------------------------
  // The component's state and its event handlers
  // ---------------------------------------------------------------------

  class PracticeSection {
    const questions: seq<Question>
    var currentQuestion: nat
    var answers: map<string, string>
    var showAnswer: bool
    var recordings: map<string, Blob>
    var score: nat
    var isSubmitted: bool

    /**
     * The cursor is on a question; answers and recordings are stored only
     * under ids that the rendered controls can write; the score is zero until
     * submission and never above the total.
     */
    ghost predicate Valid()
      reads this
    {
      && 0 < |questions|
      && currentQuestion < |questions|
      && answers.Keys <= AnswerableIds(questions)
      && recordings.Keys <= SpeakingIds(questions)
      && (!isSubmitted ==> score == 0)
      && score <= TotalPoints(questions)
    }

    /** The component mounts on the first question, with nothing answered. */
    constructor (questions: seq<Question>)
      requires 0 < |questions|
      ensures Valid() && this.questions == questions
      ensures currentQuestion == 0 && answers == map[] && recordings == map[]
      ensures !showAnswer && score == 0 && !isSubmitted
    {
      this.questions := questions;
      currentQuestion := 0;
      answers := map[];
      showAnswer := false;
      recordings := map[];
      score := 0;
      isSubmitted := false;
    }

    /** The question on screen. */
    function Current(): (q: Question)
      reads this
      requires Valid()
    {
      questions[currentQuestion]
    }

    /** Submit is shown on the last question only and is disabled once submitted. */
    predicate SubmitEnabled()
      reads this
    {
      currentQuestion == |questions| - 1 && !isSubmitted
    }

    /** handleAnswer: store an answer under the current question's id, replacing any earlier one. */
    method HandleAnswer(answer: string)
      requires Valid() && WritesAnswer(Current().kind)
      modifies this`answers
      ensures Valid()
      ensures answers == old(answers)[Current().id := answer]
    {
      AnswerableIdsContains(questions, currentQuestion);
      answers := answers[questions[currentQuestion].id := answer];
    }

    /** handleRecording: store a clip under the current question's id; answers and score are untouched. */
    method HandleRecording(blob: Blob)
      requires Valid() && Current().kind == Speaking
      modifies this`recordings
      ensures Valid()
      ensures recordings == old(recordings)[Current().id := blob]
    {
      SpeakingIdsContains(questions, currentQuestion);
      recordings := recordings[questions[currentQuestion].id := blob];
    }

    /** calculateScore: add up the points of the exactly matching questions, then mark submitted. */
    method CalculateScore()
      requires Valid()
      modifies this`score, this`isSubmitted
      ensures Valid()
      ensures score == ScoreOf(questions, answers) && isSubmitted
    {
      var totalScore := 0;
      for i := 0 to |questions|
        invariant totalScore == ScoreOf(questions[..i], answers)
      {
        var question := questions[i];
        assert questions[..i + 1][..i] == questions[..i];
        var userAnswer := StoredAnswer(answers, question.id);
        if userAnswer == question.correctAnswer {
          totalScore := totalScore + question.points;
        }
      }
      assert questions[..|questions|] == questions;
      ScoreAtMostTotal(questions, answers);
      score := totalScore;
      isSubmitted := true;
    }

    /** Clicking option `k` of a multiple-choice question stores that option. */
    method SelectOption(k: nat)
      requires Valid() && Current().kind == MultipleChoice
      requires Current().options.Some? && k < |Current().options.value|
      modifies this`answers
      ensures Valid()
      ensures answers == old(answers)[Current().id := Current().options.value[k]]
    {
      HandleAnswer(Current().options.value[k]);
    }

    /** Typing in the text box of a free-response or vocabulary-bank question stores the whole text. */
    method EditText(text: string)
      requires Valid() && Current().kind in {FreeResponse, VocabularyBank}
      modifies this`answers
      ensures Valid()
      ensures answers == old(answers)[Current().id := text]
    {
      HandleAnswer(text);
    }

    /** Clicking word `k` of the vocabulary bank replaces the answer with that one word. */
    method ClickBankWord(k: nat)
      requires Valid() && Current().kind == VocabularyBank
      requires Current().vocabularyBank.Some? && k < |Current().vocabularyBank.value|
      modifies this`answers
      ensures Valid()
      ensures answers == old(answers)[Current().id := Current().vocabularyBank.value[k]]
    {
      HandleAnswer(Current().vocabularyBank.value[k]);
    }

    /** Clicking image `k` stores the decimal string of `k`. */
    method SelectImage(k: nat)
      requires Valid() && Current().kind == ImageSelection
      requires Current().imageUrls.Some? && k < |Current().imageUrls.value|
      modifies this`answers
      ensures Valid()
      ensures answers == old(answers)[Current().id := IndexToString(k)]
    {
      HandleAnswer(IndexToString(k));
    }

    /** Clicking the flashcard turns it over. */
    method FlipFlashcard()
      requires Valid() && Current().kind == Flashcard
      modifies this`showAnswer
      ensures Valid()
      ensures showAnswer == !old(showAnswer)
    {
      showAnswer := !showAnswer;
    }

    /** Previous: one question back, nothing when disabled on the first. */
    method ClickPrevious()
      requires Valid()
      modifies this`currentQuestion
      ensures Valid()
      ensures currentQuestion == Navigation.Previous(old(currentQuestion))
    {
      if currentQuestion != 0 {
        currentQuestion := Navigation.Previous(currentQuestion);
      }
    }

    /** Next: one question on; on the last question Submit is shown instead. */
    method ClickNext()
      requires Valid()
      modifies this`currentQuestion
      ensures Valid()
      ensures currentQuestion == Navigation.Next(old(currentQuestion), |questions|)
    {
      if currentQuestion != |questions| - 1 {
        currentQuestion := Navigation.Next(currentQuestion, |questions|);
      }
    }

    /**
     * Submit: scores the current answers once. When not offered (not on the
     * last question) or disabled (already submitted) nothing changes, so the
     * score is set at most once.
     */
    method ClickSubmit()
      requires Valid()
      modifies this`score, this`isSubmitted
      ensures Valid() && isSubmitted == (old(isSubmitted) || old(SubmitEnabled()))
      ensures old(SubmitEnabled()) ==> score == ScoreOf(questions, answers)
      ensures !old(SubmitEnabled()) ==> score == old(score)
    {
      if SubmitEnabled() {
        CalculateScore();
      }
    }
  }

  /** Turning the flashcard twice shows the side it showed before. */
  method FlipTwiceRestores(p: PracticeSection)
    requires p.Valid() && p.Current().kind == Flashcard
    modifies p
    ensures p.Valid() && p.showAnswer == old(p.showAnswer)
  {
    p.FlipFlashcard();
    p.FlipFlashcard();
  }

  /**
   * A learner who walks to the last question without answering anything and
   * submits scores 4 out of 10.
   */
  method EmptySubmission() returns (score: nat, total: nat)
    ensures score == 4 && total == 10
  {
    var p := new PracticeSection(MockQuestions);
    var step := 0;
    while step < 5
      invariant 0 <= step <= 5
      invariant p.Valid() && p.questions == MockQuestions && p.currentQuestion == step
      invariant p.answers == map[] && !p.isSubmitted
    {
      p.ClickNext();
      step := step + 1;
    }
    p.ClickSubmit();
    MockEmptySubmission();
    score, total := p.score, TotalPoints(MockQuestions);
  }
}
