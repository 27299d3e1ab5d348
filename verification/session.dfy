/** The quiz session held by the `app` object, without the DOM: the selections, the active
    question list, the position in it, the wrong answers, and which screen is showing. */
module Session {
  import opened Wrappers
  import opened Seqs
  import opened Text
  import opened Shuffling

  datatype Mode = List | Quiz

  /** `en_to_jp` asks with four choices; `jp_to_en` asks for the English word to be typed. */
  datatype Direction = EnToJp | JpToEn

  /** One entry of the word list: `{ id, cat, q, ans_j, example }`. */
  datatype Word = Word(id: string, cat: string, q: string, ansJ: string, example: string)

  /** What the main area shows. `Question(answered)` records the lock the page keeps in the
      DOM: a marked option or a disabled input once the question has been answered. */
  datatype Screen = NoQuestions | WordList | Question(answered: bool) | Score

  datatype Session = Session(
    mode: Mode,
    direction: Direction,
    category: string,
    index: nat,
    questions: seq<Word>,
    wrong: seq<Word>,
    screen: Screen)

  /** The category key that selects every entry. */
  const AllCategory: string := "all"

  /** An id names at most one entry of the word list. */
  predicate UniqueIds(words: seq<Word>) {
    forall a, b :: a in words && b in words && a.id == b.id ==> a == b
  }

  /** The entries of a category, in word-list order. */
  function InCategory(words: seq<Word>, category: string): seq<Word> {
    Filter(words, (w: Word) => w.cat == category)
  }

  /** The questions a category selects before any shuffle: every entry for `"all"`,
      otherwise exactly the entries whose `cat` is the category. */
  function Selected(words: seq<Word>, category: string): (r: seq<Word>)
    ensures category == AllCategory ==> r == words
    ensures category != AllCategory ==>
      forall w :: multiset(r)[w] == if w.cat == category then multiset(words)[w] else 0
  {
    if category == AllCategory then words
    else
      FilterCounts(words, (w: Word) => w.cat == category);
      InCategory(words, category)
  }

  /** The category filter keeps word-list order: filtering a list split in two is filtering
      each part. */
  lemma SelectedKeepsOrder(a: seq<Word>, b: seq<Word>, category: string)
    ensures Selected(a + b, category) == Selected(a, category) + Selected(b, category)
  {
    if category != AllCategory {
      FilterConcat(a, b, (w: Word) => w.cat == category);
    }
  }

  /** `resetQuizData(customList)`: back to the first question with no wrong answers, over the
      custom list when one is given and otherwise over the category's selection; the list is
      shuffled in quiz mode and whenever it is custom. Nothing else changes. */
  function ResetQuizData(s: Session, words: seq<Word>, custom: Option<seq<Word>>, rand: Draws)
    : (r: Session)
    ensures r.index == 0 && r.wrong == []
    ensures r.mode == s.mode && r.direction == s.direction && r.category == s.category
    ensures r.screen == s.screen
    ensures custom.Some? ==> multiset(r.questions) == multiset(custom.value)
    ensures custom.None? && s.mode == List ==> r.questions == Selected(words, s.category)
    ensures custom.None? ==> multiset(r.questions) == multiset(Selected(words, s.category))
  {
    var list := if custom.Some? then custom.value else Selected(words, s.category);
    var questions := if s.mode == Quiz || custom.Some? then Shuffle(list, rand) else list;
    ShufflePermutes(list, rand);
    s.(index := 0, wrong := [], questions := questions)
  }

  /** `render()` as far as state goes: which screen the session now shows. */
  function Render(s: Session): (r: Session)
    ensures r.screen == NoQuestions <==> |s.questions| == 0
    ensures r.screen == WordList <==> |s.questions| > 0 && s.mode == List
    ensures r.screen.Question? <==> |s.questions| > 0 && s.mode == Quiz
    ensures r.screen.Question? ==> !r.screen.answered
    ensures r == s.(screen := r.screen)
  {
    var screen :=
      if |s.questions| == 0 then NoQuestions
      else if s.mode.List? then WordList
      else Question(false);
    s.(screen := screen)
  }

  /** `setMode(mode)`: the category's questions from the first one with no wrong answers,
      in word-list order in list mode and shuffled in quiz mode, shown afresh. */
  function SetMode(s: Session, m: Mode, words: seq<Word>, rand: Draws): (r: Session)
    ensures r.mode == m && r.direction == s.direction && r.category == s.category
    ensures r.index == 0 && r.wrong == []
    ensures multiset(r.questions) == multiset(Selected(words, s.category))
    ensures m == List ==> r.questions == Selected(words, s.category)
    ensures r == Render(r)
  {
    Render(ResetQuizData(s.(mode := m), words, None, rand))
  }

  /** `setDirection(dir)`: the same restart as `setMode`, with the new direction. */
  function SetDirection(s: Session, d: Direction, words: seq<Word>, rand: Draws): (r: Session)
    ensures r.mode == s.mode && r.direction == d && r.category == s.category
    ensures r.index == 0 && r.wrong == []
    ensures multiset(r.questions) == multiset(Selected(words, s.category))
    ensures s.mode == List ==> r.questions == Selected(words, s.category)
    ensures r == Render(r)
  {
    Render(ResetQuizData(s.(direction := d), words, None, rand))
  }

  /** `selectCategory(cat)`: the same restart over the new category's questions. */
  function SelectCategory(s: Session, c: string, words: seq<Word>, rand: Draws): (r: Session)
    ensures r.mode == s.mode && r.direction == s.direction && r.category == c
    ensures r.index == 0 && r.wrong == []
    ensures multiset(r.questions) == multiset(Selected(words, c))
    ensures s.mode == List ==> r.questions == Selected(words, c)
    ensures r == Render(r)
  {
    Render(ResetQuizData(s.(category := c), words, None, rand))
  }

  /** The question on screen. */
  function Current(s: Session): Word
    requires s.index < |s.questions|
  {
    s.questions[s.index]
  }

  /** `checkChoiceAnswer(btn, selectedIdx, correctIdx, q)`: ignored once the question is
      answered; otherwise locks it and records it as wrong unless the indices agree. */
  function CheckChoiceAnswer(s: Session, selectedIdx: int, correctIdx: int): (r: Session)
    requires s.screen.Question? && s.index < |s.questions|
    ensures r == s.(screen := r.screen, wrong := r.wrong)
    ensures r.screen == Question(true)
    ensures s.screen.answered ==> r == s
    ensures !s.screen.answered && selectedIdx == correctIdx ==> r.wrong == s.wrong
    ensures !s.screen.answered && selectedIdx != correctIdx ==> r.wrong == s.wrong + [Current(s)]
  {
    if s.screen.answered then s
    else if selectedIdx == correctIdx then s.(screen := Question(true))
    else s.(screen := Question(true), wrong := s.wrong + [Current(s)])
  }

  /** A typed answer is right when, trimmed and lower-cased, it equals the entry's English
      word trimmed and lower-cased. */
  predicate TypedMatches(input: string, w: Word) {
    ToLower(Trim(input)) == ToLower(Trim(w.q))
  }

  /** The submit handler followed by `checkTypeAnswer`: blank input is ignored, so is input to
      an answered question; otherwise the question locks and is recorded as wrong unless the
      input matches. */
  function CheckTypeAnswer(s: Session, input: string): (r: Session)
    requires s.screen.Question? && s.index < |s.questions|
    ensures r == s.(screen := r.screen, wrong := r.wrong)
    ensures AllWhitespace(input) || s.screen.answered ==> r == s
    ensures !AllWhitespace(input) && !s.screen.answered ==>
      r.screen == Question(true)
      && r.wrong == (if TypedMatches(input, Current(s)) then s.wrong else s.wrong + [Current(s)])
  {
    TrimEmptyIffBlank(input);
    var v := Trim(input);
    if v == [] then s
    else if s.screen.answered then s
    else
      TrimIdempotent(input);
      var correctVal := Trim(Current(s).q);
      if ToLower(v) == ToLower(correctVal) then s.(screen := Question(true))
      else s.(screen := Question(true), wrong := s.wrong + [Current(s)])
  }

  /** Typed answers are case-insensitive: inputs that differ only in ASCII letter case have
      the same effect. */
  lemma TypedAnswerIgnoresCase(s: Session, a: string, b: string)
    requires s.screen.Question? && s.index < |s.questions|
    requires ToLower(a) == ToLower(b)
    ensures CheckTypeAnswer(s, a) == CheckTypeAnswer(s, b)
  {
    SameLowerSameVerdict(a, b, Current(s));
    TrimEmptyIffBlank(a);
    TrimEmptyIffBlank(b);
  }

  lemma SameLowerSameVerdict(a: string, b: string, w: Word)
    requires ToLower(a) == ToLower(b)
    ensures TypedMatches(a, w) <==> TypedMatches(b, w)
    ensures Trim(a) == [] <==> Trim(b) == []
  {
    TrimThenLower(a);
    TrimThenLower(b);
    assert ToLower(Trim(a)) == ToLower(Trim(b));
    assert |Trim(a)| == |ToLower(Trim(a))|;
  }

  /** Typing `Apple` for the entry `apple` is a right answer. */
  lemma TypedAnswerExample(input: string, w: Word)
    requires input == "Apple" && w.q == "apple"
    ensures TypedMatches(input, w)
  {
    TrimWord(input);
    TrimWord(w.q);
    assert ToLower(input) == ToLower(w.q) by {
      assert LowerChar('A') == 'a';
      assert input == ['A'] + w.q[1..];
      assert w.q == ['a'] + w.q[1..];
    }
  }

  /** A word that neither starts nor ends with whitespace is its own trim. */
  lemma TrimWord(x: string)
    requires |x| > 0 && !IsWhitespace(x[0]) && !IsWhitespace(x[|x| - 1])
    ensures Trim(x) == x
  {
  }

  /** `nextQuiz()`: forward one question, shown afresh, unless on the last one, in which case
      the score is shown and the position stays. */
  function NextQuiz(s: Session): (r: Session)
    ensures r.questions == s.questions && r.wrong == s.wrong && r.mode == s.mode
    ensures r.direction == s.direction && r.category == s.category
    ensures s.index + 1 < |s.questions| ==> r.index == s.index + 1 && r == Render(r)
    ensures s.index + 1 >= |s.questions| ==> r.index == s.index && r.screen == Score
  {
    if s.index < |s.questions| - 1 then Render(s.(index := s.index + 1))
    else s.(screen := Score)
  }

  /** `prevQuiz()`: back one question, shown afresh, or nothing at the first. */
  function PrevQuiz(s: Session): (r: Session)
    ensures r.questions == s.questions && r.wrong == s.wrong && r.mode == s.mode
    ensures r.direction == s.direction && r.category == s.category
    ensures s.index > 0 ==> r.index == s.index - 1 && r == Render(r)
    ensures s.index == 0 ==> r == s
  {
    if s.index > 0 then Render(s.(index := s.index - 1)) else s
  }

  /** The ids answered wrongly, each once. */
  function WrongIds(wrong: seq<Word>): set<string> {
    set w | w in wrong :: w.id
  }

  /** The first entry with the given id (`allWords.find(q => q.id === id)`). */
  function FindById(words: seq<Word>, id: string): (r: Option<Word>)
    ensures r.Some? ==> r.value in words && r.value.id == id
    ensures r.None? ==> forall w :: w in words ==> w.id != id
    decreases |words|
  {
    if |words| == 0 then None
    else if words[0].id == id then Some(words[0])
    else FindById(words[1..], id)
  }

  /** The entries for a list of ids, in the same order. */
  function LookUp(ids: seq<string>, words: seq<Word>): (r: seq<Word>)
    requires forall id :: id in ids ==> FindById(words, id).Some?
    ensures |r| == |ids|
    ensures forall i :: 0 <= i < |ids| ==> r[i] in words && r[i].id == ids[i]
    decreases |ids|
  {
    if |ids| == 0 then []
    else [FindById(words, ids[0]).value] + LookUp(ids[1..], words)
  }

  /** The ids of a list of entries, in order. */
  function IdsOf(ws: seq<Word>): (r: seq<string>)
    ensures |r| == |ws| && forall i :: 0 <= i < |ws| ==> r[i] == ws[i].id
    decreases |ws|
  {
    if |ws| == 0 then [] else [ws[0].id] + IdsOf(ws[1..])
  }

  /** The custom list `retryWrong` builds: the entry of each distinct wrong id. */
  function RetryList(wrong: seq<Word>, words: seq<Word>): (r: seq<Word>)
    requires forall w :: w in wrong ==> w in words
    ensures forall w :: w in r ==> w in words
  {
    var ids := Dedup(IdsOf(wrong));
    WrongIdsFound(wrong, words, ids);
    LookUp(ids, words)
  }

  lemma WrongIdsFound(wrong: seq<Word>, words: seq<Word>, ids: seq<string>)
    requires forall w :: w in wrong ==> w in words
    requires forall id :: id in ids <==> id in IdsOf(wrong)
    ensures forall id :: id in ids ==> FindById(words, id).Some?
  {
    forall id | id in ids ensures FindById(words, id).Some? {
      var i :| 0 <= i < |wrong| && IdsOf(wrong)[i] == id;
      assert wrong[i] in words;
    }
  }

  /** With unique ids and wrong answers taken from the word list, the retry list holds every
      wrongly answered entry exactly once and nothing else, however often it was missed. */
  lemma RetryListIsWrongOnce(wrong: seq<Word>, words: seq<Word>)
    requires UniqueIds(words)
    requires forall w :: w in wrong ==> w in words
    ensures forall w :: multiset(RetryList(wrong, words))[w] == if w in wrong then 1 else 0
  {
    var ids := Dedup(IdsOf(wrong));
    var r := RetryList(wrong, words);
    assert Distinct(r) by {
      forall i, j | 0 <= i < j < |r| ensures r[i] != r[j] {
        assert ids[i] != ids[j];
      }
    }
    forall w ensures multiset(r)[w] == if w in wrong then 1 else 0 {
      DistinctCount(r, w);
      if w in wrong {
        RetryListHas(wrong, words, w);
      } else if w in r {
        RetryListFrom(wrong, words, w);
      }
    }
  }

  lemma RetryListHas(wrong: seq<Word>, words: seq<Word>, w: Word)
    requires UniqueIds(words)
    requires forall w :: w in wrong ==> w in words
    requires w in wrong
    ensures w in RetryList(wrong, words)
  {
    var ids := Dedup(IdsOf(wrong));
    var r := RetryList(wrong, words);
    var i :| 0 <= i < |wrong| && wrong[i] == w;
    assert IdsOf(wrong)[i] == w.id;
    assert w.id in ids;
    var k :| 0 <= k < |ids| && ids[k] == w.id;
    assert r[k] == w;
  }

  lemma RetryListFrom(wrong: seq<Word>, words: seq<Word>, w: Word)
    requires UniqueIds(words)
    requires forall w :: w in wrong ==> w in words
    requires w in RetryList(wrong, words)
    ensures w in wrong
  {
    var ids := Dedup(IdsOf(wrong));
    var r := RetryList(wrong, words);
    var k :| 0 <= k < |r| && r[k] == w;
    assert ids[k] in IdsOf(wrong);
    var i :| 0 <= i < |wrong| && IdsOf(wrong)[i] == ids[k];
    assert wrong[i] == w;
  }

  /** `retryWrong()`: a new session over the entries answered wrongly, each once, shuffled,
      from the first question with no wrong answers, shown afresh. */
  function RetryWrong(s: Session, words: seq<Word>, rand: Draws): (r: Session)
    requires UniqueIds(words)
    requires forall w :: w in s.wrong ==> w in words
    ensures r.index == 0 && r.wrong == []
    ensures r.mode == s.mode && r.direction == s.direction && r.category == s.category
    ensures forall w :: multiset(r.questions)[w] == if w in s.wrong then 1 else 0
    ensures r == Render(r)
  {
    RetryListIsWrongOnce(s.wrong, words);
    Render(ResetQuizData(s, words, Some(RetryList(s.wrong, words)), rand))
  }

  /** `retryAll()`: the category's questions again from the first one with no wrong answers,
      reshuffled in quiz mode, with every selection kept. */
  function RetryAll(s: Session, words: seq<Word>, rand: Draws): (r: Session)
    ensures r.mode == s.mode && r.direction == s.direction && r.category == s.category
    ensures r.index == 0 && r.wrong == []
    ensures multiset(r.questions) == multiset(Selected(words, s.category))
    ensures s.mode == List ==> r.questions == Selected(words, s.category)
    ensures r == Render(r)
  {
    Render(ResetQuizData(s, words, None, rand))
  }

  /** The home button of the score screen: all categories, list mode, English first. Every
      entry of the word list is listed in word-list order, whatever mode and direction the
      quiz had, because list mode resets without shuffling. */
  function GoHome(s: Session, words: seq<Word>, rand: Draws): (r: Session)
    ensures r.questions == words
    ensures r.mode == List && r.direction == EnToJp && r.category == AllCategory
    ensures r.index == 0 && r.wrong == []
    ensures r.screen == if words == [] then NoQuestions else WordList
  {
    SetDirection(SetMode(SelectCategory(s, AllCategory, words, rand), List, words, rand),
                 EnToJp, words, rand)
  }
}
