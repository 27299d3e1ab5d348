# Vocabulary quiz session, modelled in Dafny

This project models the quiz logic of the vocabulary trainer in `script.js`: the single
`app` object with the DOM taken away. What remains is a small state machine over a
session. A session holds:

- the mode (`list` or `quiz`);
- the direction (`en_to_jp` with four choices, `jp_to_en` with a typed answer);
- the category;
- the current question index;
- the question list (`filteredQuestions`);
- the wrong answers (`wrongQuestions`);
- which screen is showing.

The transitions are those of the source:

- `resetQuizData`, and the selectors that call it (`setMode`, `setDirection`,
  `selectCategory`);
- the answer checks `checkChoiceAnswer` and `checkTypeAnswer`, the latter behind its submit
  handler;
- `nextQuiz` and `prevQuiz`;
- the numbers of the result screen (`renderResultView`);
- `retryAll`, `retryWrong` and the home button.

Beside them are the algorithms they use:

- the Fisher–Yates `shuffle`;
- the distractor drawing of `generateQuizOptions`;
- `cleanText`, which deletes `^^…^^` annotation markers and trims.

Modules:

- `Wrappers`: `Option`.
- `Seqs`: distinctness, `filter`, de-duplication as `Array.from(new Set(…))`, `findIndex`.
- `Text`: `trim`, ASCII `toLowerCase`, and `cleanText`. The regular expression
  `/\^\^.*?\^\^/g` is written out as a left-to-right scan with a lazy closing search that
  does not cross line terminators.
- `Shuffling`: `shuffle` as a function and as the loop the source runs. Both are proved to
  perform the same swaps.
- `QuizOptions`: `generateQuizOptions`. The drawing loop is a method whose termination
  measure is the size of the temporary pool.
- `Session`: the session datatype and its transitions.
- `Scoring`: the result screen's score, message tier and retry offer.
- `App`: the user actions, when the page offers them, and the invariant every action keeps.

`Math.random` is not modelled as a generator. Every call site instead takes an oracle
`Draws = nat -> nat`. The draw at step k for a range of size n lands in 0..n-1, as
`Math.floor(Math.random() * n)` does, and every such index is reachable by some oracle. A
property proved for every oracle therefore holds for every outcome the program can produce.

The lock the page keeps in the DOM is the field `answered` of the screen
`Question(answered)`. That lock is a marked option, or a disabled input once a question has
been answered.

`generateQuizOptions` ends only when its source holds three distinct texts other than the
correct one (script.js:181-194). `DrawOptions` requires that, and
`TooFewDistractorsNeverFill` shows that the loop cannot finish otherwise.

## Model

| member | source | states |
|---|---|---|
| Seqs.DistinctCard | script.js:191-192 | a list without repeats has as many distinct values as elements |
| Seqs.DistinctCount | script.js:191-192 | in a list without repeats every value occurs exactly once or not at all |
| Seqs.CountsAtMostOneIsDistinct | script.js:191-192 | a list in which no value occurs twice has no repeats (converse of DistinctCount) |
| Seqs.PermutationKeepsDistinct | script.js:197 | rearranging a list without repeats keeps it without repeats |
| Seqs.Filter | script.js:113 | `filter` never lengthens a list |
| Seqs.FilterCounts | script.js:113 | `filter` keeps every occurrence of a kept value and no occurrence of any other |
| Seqs.FilterMembers | script.js:181 | a value survives `filter` exactly when it occurs in the input and passes the test |
| Seqs.FilterConcat | script.js:113 | `filter` keeps relative order: filtering a concatenation is concatenating the filtered parts |
| Seqs.Dedup | script.js:424 | `Array.from(new Set(xs))` has no repeats and holds exactly the values of `xs` |
| Seqs.IndexOf | script.js:198 | `findIndex` is -1 exactly when the value is absent, and otherwise the first position holding it |
| Text.TrimStart | script.js:19 | leading trim drops only whitespace and leaves a suffix that does not start with whitespace |
| Text.TrimEnd | script.js:19 | trailing trim drops only whitespace and leaves a prefix that does not end with whitespace |
| Text.Trim | script.js:19 | the trimmed text is no longer than the input and neither starts nor ends with whitespace |
| Text.TrimEmptyIffBlank | script.js:267-268 | trimming gives the empty string exactly when the input is all whitespace |
| Text.TrimIsSlice | script.js:19 | the trimmed text is a contiguous slice of the input with only whitespace around it |
| Text.TrimIdempotent | script.js:266-269 | trimming an already trimmed text changes nothing |
| Text.ToLower | script.js:330 | lower-casing keeps the length and lower-cases each ASCII letter in place |
| Text.ToLowerIdempotent | script.js:330 | lower-cased text has no upper-case letter left, so lower-casing again changes nothing |
| Text.TrimThenLower | script.js:327-330 | lower-casing commutes with trimming |
| Text.LowerKeepsWhitespace | script.js:327-330 | lower-casing neither creates nor removes whitespace |
| Text.LowerTrimStart | script.js:327-330 | lower-casing commutes with dropping leading whitespace |
| Text.LowerTrimEnd | script.js:327-330 | lower-casing commutes with dropping trailing whitespace |
| Text.CloseAt | script.js:19 | the lazy `.*?\^\^` finds the first closing `^^` reachable without crossing a line terminator, and fails exactly when none is |
| Text.StripMarkers | script.js:19 | removing markers never lengthens the text; `NoMarkerSurvives` states that no closable marker is left; `StripKeepsHead` that a character where no closable `^^` starts is kept, and `StripRemovesMarker` that a marker is deleted through its first closing `^^`, so everything outside the markers is kept |
| Text.StripWithoutCarets | script.js:19 | text without a caret passes through the marker removal unchanged |
| Text.StripPlainPrefix | script.js:19 | a caret-free prefix is kept and the scan resumes after it |
| Text.StripKeepsHead | script.js:19 | where no closable `^^` starts, the character is kept and the scan moves on by one |
| Text.StripRemovesMarker | script.js:19 | a one-line `^^note^^` whose note holds no `^^` and does not end in `^` (single carets allowed) is deleted completely through its closing `^^`, whatever follows it |
| Text.LineBreakBlocksClose | script.js:19 | a line terminator before every closing `^^` leaves the opening `^^` unmatched |
| Text.LineBreakKeepsMarker | script.js:19 | a `^^…^^` pair split by a line break is left in the text |
| Text.StripCaretPair | script.js:19 | two carets with nothing to close them stay |
| Text.CloseShift | script.js:19 | putting text in front does not change whether a closing `^^` is found from a given position on |
| Text.CloseInPrefix | script.js:19 | when no closing `^^` is found in a text, none is found in any prefix of it |
| Text.StripKeepsNoClose | script.js:19 | a text with nothing closable from its start keeps that property after the marker removal |
| Text.FrontMarkerUnclosed | script.js:19 | an opening `^^` that the global replace keeps at the front has no closing `^^` after it in the result |
| Text.NoMarkerSurvives | script.js:19 | after the global replace, no `^^` in the result has a closing `^^` on its own line |
| Text.SuffixKeepsNoMarker | script.js:19 | dropping a prefix cannot make a `^^` closable |
| Text.PrefixKeepsNoMarker | script.js:19 | cutting a text short cannot make a `^^` closable |
| Text.TrimKeepsNoMarker | script.js:19 | trimming cannot make a `^^` closable |
| Text.StripFixesUnmarked | script.js:19 | a text in which no `^^` can be closed on its line passes through the marker removal unchanged |
| Text.StripIdempotent | script.js:19 | removing markers from the result removes nothing more |
| Text.CleanText | script.js:17-20 | empty text stays empty; otherwise the result is no longer than the text and neither starts nor ends with whitespace; `CleanTextNoMarker`, `CleanTextDropsNote` and `CleanTextOfUnmarked`, with the `StripMarkers` lemmas, state what is removed and what is kept |
| Text.CleanTextDropsNote | script.js:17-20 | a caret-free answer followed by a space and a one-line `^^note^^` (the note without `^^` or a final `^`) cleans to the bare answer |
| Text.CleanTextNoteWithCaret | script.js:17-20 | `a ^^n^b^^` cleans to `a`: a single caret inside a note does not end it |
| Text.CleanTextIdempotent | script.js:17-20 | cleaning a cleaned text changes nothing |
| Text.CleanTextNoMarker | script.js:17-20 | no `^^ … ^^` pair on one line is left in a cleaned text |
| Text.CleanTextOfUnmarked | script.js:17-20 | a text with no closable `^^` is only trimmed |
| Shuffling.Pick | script.js:124 | a draw for a range of size n is an index below n |
| Shuffling.SwapPermutes | script.js:125 | the destructuring swap exchanges the two positions, keeps every other, and keeps the multiset of elements |
| Shuffling.DownPermutes | script.js:123-126 | every stage of the shuffle loop is a rearrangement of the input |
| Shuffling.DownSettles | script.js:123-126 | once the loop has passed position k it never changes again, and it holds the element drawn from positions 0..k |
| Shuffling.Shuffle | script.js:122-128 | `shuffle` keeps the length; that it permutes is `ShufflePermutes` |
| Shuffling.ShufflePermutes | script.js:122-128 | `shuffle` returns a permutation of its input |
| Shuffling.ShuffleKeepsMembers | script.js:122-128 | `shuffle` keeps exactly the same values |
| Shuffling.ShuffleLoop | script.js:123-127 | the loop as written, from n-1 down to 1 with one swap per step, computes `Shuffle` |
| QuizOptions.DrawnCount | script.js:184-195 | options drawn so far are the correct text plus as many distinct distractors |
| QuizOptions.TooFewDistractorsNeverFill | script.js:184-188 | with fewer than three distinct distractors no reachable option list has four entries, so the loop cannot end |
| QuizOptions.AllDrawnFillsOptions | script.js:185-188 | once every distractor is among the options there are more options than distractors, so the refill is never reached while the loop runs |
| QuizOptions.DrawOptions | script.js:180-195 | given three distinct distractors the loop ends, never refilling, with the correct text first and three distinct distractors after it |
| QuizOptions.RemoveKeepsCover | script.js:190-194 | removing the drawn candidate from the pool loses no distractor not yet among the options |
| QuizOptions.ShuffledOptions | script.js:197 | the shuffled options are still four distinct texts holding the correct one, with distractors elsewhere |
| QuizOptions.GenerateQuizOptions | script.js:179-204 | four distinct options; `ans` is the position of the correct text; every other option is a source text different from it |
| QuizOptions.ChoiceByIndexIsChoiceByText | script.js:309 | comparing the clicked index with `ans` is comparing the clicked text with the correct text |
| Session.Selected | script.js:110-114 | category `all` selects the whole word list; any other selects each entry of that category as often as it occurs, and nothing else |
| Session.SelectedKeepsOrder | script.js:113 | the category selection keeps word-list order |
| Session.ResetQuizData | script.js:103-120 | index 0 and no wrong answers; the list is a permutation of the custom list or the category selection; in list mode without a custom list it is the selection in order; mode, direction, category and screen are untouched |
| Session.Render | script.js:143-152 | an empty list shows the empty notice; a non-empty list shows the word list exactly in list mode and an unanswered question exactly in quiz mode; nothing but the screen changes |
| Session.SetMode | script.js:77-91 | the new mode with direction and category kept, index 0, no wrong answers, a permutation of the category's selection (the selection itself in list mode), shown afresh |
| Session.SetDirection | script.js:49-64 | the new direction with mode and category kept, index 0, no wrong answers, a permutation of the category's selection (the selection itself in list mode), shown afresh |
| Session.SelectCategory | script.js:93-101 | the new category with mode and direction kept, index 0, no wrong answers, a permutation of the new category's selection (the selection itself in list mode), shown afresh |
| Session.CheckChoiceAnswer | script.js:303-319 | an answered question ignores clicks; otherwise the question locks, and the wrong list grows by the current question exactly when the indices differ; nothing else changes |
| Session.CheckTypeAnswer | script.js:321-341 | with the submit handler before it, blank input and input to an answered question are ignored; otherwise the question locks, and the wrong list grows by the current question exactly when the trimmed, lower-cased texts differ |
| Session.TypedAnswerIgnoresCase | script.js:327-330 | inputs that differ only in letter case have the same effect |
| Session.SameLowerSameVerdict | script.js:327-330 | inputs equal after lower-casing get the same verdict and are blank together |
| Session.TypedAnswerExample | script.js:330 | `Apple` typed for the entry `apple` is right |
| Session.NextQuiz | script.js:364-371 | before the last question the index moves forward by one and the question is shown afresh, unanswered; on the last one the result screen shows and the index stays; lists, mode, direction and category are untouched |
| Session.PrevQuiz | script.js:373-378 | after the first question the index moves back by one and the question is shown afresh, unanswered; at the first nothing changes; lists, mode, direction and category are untouched |
| Session.FindById | script.js:425 | `find` by id returns an entry of the list with that id, or nothing exactly when no entry has it |
| Session.LookUp | script.js:424-425 | the ids map to entries with those ids, position by position |
| Session.IdsOf | script.js:424 | `map(q => q.id)` keeps length and position |
| Session.RetryList | script.js:424-425 | the retry list draws only on the word list |
| Session.RetryListIsWrongOnce | script.js:423-427 | with unique ids the retry list holds each wrongly answered entry exactly once, however often it was missed, and nothing else |
| Session.RetryAll | script.js:418-421 | every selection kept, index 0, no wrong answers, a permutation of the category's selection (the selection itself in list mode), shown afresh |
| Session.GoHome | script.js:412 | the home button lists the whole word list in order, in list mode, English first, category `all`, at index 0 with no wrong answers, on the word-list screen unless the list is empty |
| Session.RetryWrong | script.js:423-429 | the new session starts at index 0 with no wrong answers, over exactly the missed entries once each, with mode, direction and category kept, shown afresh |
| Scoring.Summarize | script.js:390-402 | total is the list length; correct plus distinct wrong ids is total; the perfect tier exactly at full marks; the second tier exactly below full marks but at least 80%; retry-wrong offered exactly when something was missed |
| Scoring.ScoreBounds | script.js:390-393 | when every wrong answer is one of the questions, the score lies between 0 and the total |
| Scoring.PerfectIffNoWrong | script.js:393-402 | full marks exactly when nothing was missed; then the perfect message and no retry-wrong button |
| Scoring.RepeatedWrongCountsOnce | script.js:391-393 | missing an already missed id again leaves the result unchanged |
| Scoring.WrongChoiceCost | script.js:391-393 | a wrong choice costs one point unless that id was already missed |
| Scoring.OneMissOfFive | script.js:393-402 | five questions with one missed id score 4/5, the second message, and offer retry-wrong |
| App.ResetIsValid | script.js:103-120 | a reset and render over entries of the word list gives a valid session |
| App.Init | script.js:22-35 | the page starts in list mode, English first, on the first category, listing its selection in word-list order at index 0 with no wrong answers, shown afresh |
| App.InitIsValid | script.js:22-35 | the page starts valid |
| App.Step | script.js:303-378 | an answer keeps list and position and adds at most the current question to the wrong answers; next and previous keep both lists; every other action restarts at index 0 with no wrong answers |
| App.StepPreservesValid | script.js:303-378 | every action the page offers keeps the session valid, so the index stays inside a non-empty list |
| App.AnsweredQuestionIsLocked | script.js:303-324 | once a question is answered, clicks and submissions change nothing |
| App.AllCategoryHasEveryWord | script.js:110-118 | choosing `all` puts every word-list entry into the session once per occurrence, shuffled or not |
| App.AnswerEnablesNext | script.js:233-340 | "next" is disabled on an unanswered question and enabled once a click or a non-blank submission answers it |
| App.PrevReopensQuestion | script.js:232-378 | "previous" is offered exactly after the first question, and going back shows that question unanswered |
| App.RetryWrongOfferedIffMissed | script.js:400-402 | the retry-wrong button appears on the result screen exactly when something was missed |
| App.AnswerRecordsMiss | script.js:309-317 | a right choice records nothing; a wrong one appends the current question |

## Left out

- All DOM work is left out: `renderListView`, the HTML of `renderQuizView`,
  `showResultMsg`, `generateCategoryMenu` and the button highlighting. Only the state these
  functions change is modelled, as the `Screen`.
- The keydown listener bookkeeping is left out, because it is event wiring:
  `currentKeydownHandler`, `cleanup`, the `beforeunload` hook, the `setTimeout` focus and
  `window.onload`. The Enter/Space key reaches the same submit and next handlers that the
  `TypeAnswer` and `Next` actions model.
- `Math.random` is replaced by oracles of type `Draws`; no generator is modelled.
- `formatResultText` is left out. It only builds display text, with its own regular
  expression.
- `Text.ToLower`: lower-cases ASCII letters only. Full Unicode case mapping is a
  table-driven foreign function.
- `Scoring.Summarize`: tests `5 * correct >= 4 * total` over the integers, where the source
  compares against the floating-point product `total * 0.8`. This deliberately abstracts
  away the floating-point rounding.
- The word list and category list are inputs, since their data file is not part of this
  model. `UniqueIds` states the assumption that ids are unique.
- `Text.CleanText`: only the empty string is treated as falsy. The `null`/`undefined`
  inputs that `!text` also catches have no counterpart in a `string`.
- `QuizOptions.DrawOptions`: requires three distinct distractors. Without them the source
  loops forever: it refills the pool and draws texts that are already options.
  `TooFewDistractorsNeverFill` proves no option list reachable then has four entries, but
  nontermination itself is not modelled.
- `App.Step`: a `PickOption` takes the correct index as a parameter. `generateQuizOptions`
  runs during rendering and is modelled on its own by `GenerateQuizOptions`.
- The category and direction labels shown on screen are left out.
- `Shuffling.Shuffle` returns a new value where the source shuffles an array in place. Every
  array the source shuffles is freshly built, by a spread copy or by `filter` (script.js:108,
  111, 113, 180), so no other reference sees the change.
- The keydown handler treats Space like Enter and swallows it (script.js:276-283). A typed
  answer therefore never holds a space typed from the keyboard, and Space in the middle of
  a phrase submits what was typed so far. `TypeAnswer` accepts any input, so it allows more
  than the page lets through.
