/** The session as a state machine: the user actions the page offers, when it offers them,
    and the invariant every action keeps. */
module App {
  import opened Wrappers
  import opened Text
  import opened Shuffling
  import opened Session
  import opened Scoring

  /** What holds of every session the page can reach: the questions come from the word
      list, the wrong answers from the questions, the position is inside the list, and a
      question is only shown in quiz mode with something to ask. */
  predicate Valid(s: Session, words: seq<Word>) {
    && UniqueIds(words)
    && (forall w :: w in s.questions ==> w in words)
    && (forall w :: w in s.wrong ==> w in s.questions)
    && (if |s.questions| == 0 then s.index == 0 else s.index < |s.questions|)
    && (s.screen.Question? ==> |s.questions| > 0 && s.mode.Quiz?)
  }

  /** The user actions: the three selectors, an option click, a typed submission, the
      navigation buttons, and the three buttons of the result screen. */
  datatype Action =
    | ChooseMode(m: Mode)
    | ChooseDirection(d: Direction)
    | ChooseCategory(c: string)
    | PickOption(selectedIdx: int, correctIdx: int)
    | TypeAnswer(input: string)
    | Next
    | Prev
    | RetryAllQuestions
    | RetryWrongQuestions
    | Home

  /** Whether the page currently offers the action: options in English-to-Japanese quizzes,
      the text box in Japanese-to-English ones, "next" once answered, "previous" after the
      first question, and retry-wrong only when something was missed. */
  predicate Enabled(s: Session, a: Action) {
    match a
    case ChooseMode(_) => true
    case ChooseDirection(_) => true
    case ChooseCategory(_) => true
    case PickOption(_, _) => s.screen.Question? && s.direction.EnToJp?
    case TypeAnswer(_) => s.screen.Question? && s.direction.JpToEn?
    case Next => s.screen == Question(true)
    case Prev => s.screen.Question? && s.index > 0
    case RetryAllQuestions => s.screen == Score
    case RetryWrongQuestions => s.screen == Score && Summarize(s).retryWrongOffered
    case Home => s.screen == Score
  }

  /** The effect of one action. Within a round the wrong answers only ever grow, by the
      question on screen when it is answered; every other action restarts a round. */
  function Step(s: Session, a: Action, words: seq<Word>, rand: Draws): (r: Session)
    requires Valid(s, words) && Enabled(s, a)
    ensures a.PickOption? || a.TypeAnswer? ==>
      r.questions == s.questions && r.index == s.index
      && (r.wrong == s.wrong || r.wrong == s.wrong + [s.questions[s.index]])
    ensures a.Next? || a.Prev? ==> r.questions == s.questions && r.wrong == s.wrong
    ensures !(a.PickOption? || a.TypeAnswer? || a.Next? || a.Prev?) ==>
      r.index == 0 && r.wrong == []
  {
    match a
    case ChooseMode(m) => SetMode(s, m, words, rand)
    case ChooseDirection(d) => SetDirection(s, d, words, rand)
    case ChooseCategory(c) => SelectCategory(s, c, words, rand)
    case PickOption(selectedIdx, correctIdx) => CheckChoiceAnswer(s, selectedIdx, correctIdx)
    case TypeAnswer(input) => CheckTypeAnswer(s, input)
    case Next => NextQuiz(s)
    case Prev => PrevQuiz(s)
    case RetryAllQuestions => RetryAll(s, words, rand)
    case RetryWrongQuestions => RetryWrong(s, words, rand)
    case Home => GoHome(s, words, rand)
  }

  /** `init()` without the DOM: the first category, English to Japanese, list mode. */
  function Init(words: seq<Word>, firstCategory: string, rand: Draws): (r: Session)
    ensures r.mode == List && r.direction == EnToJp && r.category == firstCategory
    ensures r.questions == Selected(words, firstCategory)
    ensures r.index == 0 && r.wrong == []
    ensures r == Render(r)
  {
    var start := Session(List, EnToJp, "", 0, [], [], NoQuestions);
    SetMode(SetDirection(SelectCategory(start, firstCategory, words, rand), EnToJp, words, rand),
            List, words, rand)
  }

  /** A reset followed by a render gives a valid session whenever its list comes from the
      word list. */
  lemma ResetIsValid(s: Session, words: seq<Word>, custom: Option<seq<Word>>, rand: Draws)
    requires UniqueIds(words)
    requires custom.Some? ==> forall w :: w in custom.value ==> w in words
    ensures Valid(Render(ResetQuizData(s, words, custom, rand)), words)
  {
    var r := ResetQuizData(s, words, custom, rand);
    forall w | w in r.questions ensures w in words {
      assert w in multiset(r.questions);
      if custom.None? {
        assert multiset(Selected(words, s.category))[w] > 0;
      }
    }
  }

  /** The page starts valid. */
  lemma InitIsValid(words: seq<Word>, firstCategory: string, rand: Draws)
    requires UniqueIds(words)
    ensures Valid(Init(words, firstCategory, rand), words)
  {
    var start := Session(List, EnToJp, "", 0, [], [], NoQuestions);
    var s1 := SelectCategory(start, firstCategory, words, rand);
    var s2 := SetDirection(s1, EnToJp, words, rand);
    ResetIsValid(s2.(mode := List), words, None, rand);
  }

  /** Every action the page offers keeps the session valid; in particular the position
      stays inside a non-empty question list. */
  lemma StepPreservesValid(s: Session, a: Action, words: seq<Word>, rand: Draws)
    requires Valid(s, words) && Enabled(s, a)
    ensures Valid(Step(s, a, words, rand), words)
    ensures |Step(s, a, words, rand).questions| > 0 ==>
      Step(s, a, words, rand).index < |Step(s, a, words, rand).questions|
  {
    match a
    case ChooseMode(m) => ResetIsValid(s.(mode := m), words, None, rand);
    case ChooseDirection(d) => ResetIsValid(s.(direction := d), words, None, rand);
    case ChooseCategory(c) => ResetIsValid(s.(category := c), words, None, rand);
    case PickOption(_, _) =>
    case TypeAnswer(_) =>
    case Next =>
    case Prev =>
    case RetryAllQuestions => ResetIsValid(s, words, None, rand);
    case RetryWrongQuestions =>
      ResetIsValid(s, words, Some(RetryList(s.wrong, words)), rand);
    case Home =>
      var s1 := SelectCategory(s, AllCategory, words, rand);
      var s2 := SetMode(s1, List, words, rand);
      ResetIsValid(s.(category := AllCategory), words, None, rand);
      ResetIsValid(s1.(mode := List), words, None, rand);
      ResetIsValid(s2.(direction := EnToJp), words, None, rand);
  }

  /** Once a question is answered, further clicks and submissions change nothing. */
  lemma AnsweredQuestionIsLocked(s: Session, a: Action, words: seq<Word>, rand: Draws)
    requires Valid(s, words) && s.screen == Question(true)
    requires a.PickOption? || a.TypeAnswer?
    requires Enabled(s, a)
    ensures Step(s, a, words, rand) == s
  {
  }

  /** Choosing "all" puts every entry of the word list into the session, once per
      occurrence, in whichever mode. */
  lemma AllCategoryHasEveryWord(s: Session, words: seq<Word>, rand: Draws)
    ensures multiset(SelectCategory(s, AllCategory, words, rand).questions) == multiset(words)
    ensures |SelectCategory(s, AllCategory, words, rand).questions| == |words|
  {
  }

  /** A wrong answer records the question once more; a right one records nothing. */
  lemma AnswerRecordsMiss(s: Session, a: Action, words: seq<Word>, rand: Draws)
    requires Valid(s, words) && s.screen == Question(false)
    requires a.PickOption? && Enabled(s, a)
    ensures a.selectedIdx == a.correctIdx ==> Step(s, a, words, rand).wrong == s.wrong
    ensures a.selectedIdx != a.correctIdx ==>
      Step(s, a, words, rand).wrong == s.wrong + [s.questions[s.index]]
  {
  }

  /** Answering the question on screen, by a click or by a non-blank submission, enables
      "next"; before that it is disabled. */
  lemma AnswerEnablesNext(s: Session, a: Action, words: seq<Word>, rand: Draws)
    requires Valid(s, words) && s.screen == Question(false) && Enabled(s, a)
    requires a.PickOption? || (a.TypeAnswer? && !AllWhitespace(a.input))
    ensures !Enabled(s, Next)
    ensures Enabled(Step(s, a, words, rand), Next)
  {
  }

  /** "Previous" is offered exactly on a question after the first. Going back shows that
      question unanswered, so it can be answered, and missed, once more. */
  lemma PrevReopensQuestion(s: Session, words: seq<Word>, rand: Draws)
    requires Valid(s, words) && s.screen.Question?
    ensures Enabled(s, Prev) <==> s.index > 0
    ensures s.index > 0 ==>
      Step(s, Prev, words, rand).index == s.index - 1
      && Step(s, Prev, words, rand).screen == Question(false)
      && !Enabled(Step(s, Prev, words, rand), Next)
  {
  }

  /** The retry-wrong button appears on the result screen exactly when something was
      missed. */
  lemma RetryWrongOfferedIffMissed(s: Session)
    ensures Enabled(s, RetryWrongQuestions) <==> s.screen == Score && s.wrong != []
  {
  }
}
