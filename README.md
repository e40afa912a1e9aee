# Vocabulary quiz (game.js) in Dafny

This project models the core of a browser vocabulary quiz. The player picks
one of fourteen languages of Senegal and Guinea-Bissau (Balante, Wolof,
Seereer Sine, ...). The quiz then asks up to 20 questions, each sampled from
a word list. A question shows the French gloss of a word and one button per
distinct form of that word across the languages. Only a right answer given
before any wrong one on that question scores.

The model has two parts.

- **Answer-option builder** (`options.dfy`, using `sorting.dfy`,
  `shuffle.dfy`, `catalog.dfy`, `languages.dfy`). It makes one candidate per
  language code, with a missing form read as `""`. It shuffles them, collapses
  them by word text with `deduplicateOptions`, and sorts them by word.
  `deduplicateOptions` is an imperative method (a `seen` map and a `result`
  list filled in one loop). It is proved equal to a declarative definition:
  one option per distinct word, in order of first occurrence, where an option
  in the quizzed language wins its word's slot. The lemmas then show that
  no two buttons share a word, that every form is shown, and that a
  supported quizzed language has exactly one button. They also show the
  buttons are ordered whenever the comparator is a collation. These facts
  are about the corrected `deduplicateOptions`. The code as written at
  game.js:147 also treats names inherited from `Object.prototype` as seen
  words. `DeduplicatePassAsWritten` models that behaviour; see "## Findings".
- **Session state machine** (`session.dfy` as values, `quiz.dfy` as a class).
  The globals `selectedLanguage`, `currentQuestionIndex`, `questions` and
  `correctFirstTry` become the fields of class `Game.Quiz`. Its methods mirror
  the handlers and are each proved to perform a pure transition of module
  `Session`. The lemmas are stated on those transitions: the first-try
  scoring rule, the invariant `correctFirstTry <= attempted questions <=
  questions.length` over any sequence of user actions, sampling, index
  progression and the leave-page guard.

Randomness, the collation and the engine's sort are parameters or stand-ins:

- The random keys `Math.random` gives `shuffleArray` are passed in, one per
  element. The result is proved to be a permutation for any keys.
- `localeCompare` is an abstract `compare: (string, string) -> int`.
  Sortedness is proved under `IsCollation(compare)`, meaning the comparator
  is total and transitive.
- `Array.prototype.sort` is modelled by a stable insertion sort (`SortBy`).
  The language requires a stable sort, and this one is used both by the
  shuffle and by the option sort.

Where the code and the design description of the game differ, the model
follows the code, except for the two defects under "## Findings". For
those, the operations the rest of the model builds on are the corrected
ones. The code as written is modelled beside them:

- `selectLanguage` stores any string; nothing rejects a code outside the
  registry. `BuildOptionsUnsupportedLanguage` shows the consequence: such a
  language gets no button, so no answer can be right.
- With fewer than 20 words, `.slice(0, 20)` quietly asks fewer questions
  (`Sample`).
- `checkAnswer` has no state check. It throws only when there is no current
  question, and it then changes nothing.
- `nextQuestion` shows the final screen when the index is `>=` the number of
  questions. Nothing bounds the index; `NextQuestionGuard` proves
  `index <= questions.length` only for calls made while a question is
  current.

## Model

| member | source | states |
|---|---|---|
| `Languages.LanguagesDistinct` | game.js:6-10 | the registry holds 14 codes, none repeated |
| `Languages.Capitalize` | game.js:28-30 | same length; a lower-case first letter becomes its upper-case letter (code point minus 32), so the first character is no longer lower-case; the rest is unchanged; "" stays ""; a string not starting with a lower-case letter is returned as is |
| `Languages.CapitalizeIdempotent` | game.js:28-30 | capitalizing twice equals capitalizing once |
| `Languages.ToLower` | game.js:34 | same length; each upper-case letter becomes its lower-case letter (code point plus 32); no upper-case letter left; other characters kept |
| `Languages.DisplayLanguageName` | game.js:33-39 | "seereersine" and "saafisaafi" in any case give "Seereer Sine" and "Saafi-Saafi"; any other input is exactly its `Capitalize`, with the case of the rest kept; empty only for "" |
| `Languages.DisplayNamesOfLanguages` | game.js:33-39 | the 14 menu buttons show 14 distinct names, each the listed name of its code and each starting with a capital |
| `Sorting.SortBy` | game.js:114-116 | the sorted list is a permutation of its input |
| `Sorting.SortByIsSorted` | game.js:114-116 | with a total preorder as comparator, the output is ordered |
| `Sorting.SortByKeepsDistinct` | game.js:114-116 | sorting never makes two elements share a key |
| `Shuffle.ShuffleArray` | game.js:24-26 | for any random keys, the result is a permutation of the input of the same length |
| `Options.Candidates` | game.js:106-109 | 14 candidates; an option is a candidate iff its language is a registry code and its word is that code's form, or "" when the form is missing |
| `Options.CandidatesOnePerLanguage` | game.js:106-109 | each registry code has exactly one candidate, carrying its form |
| `Options.FirstWords` | game.js:144-158 | the distinct words of the input, each once, in order of first occurrence |
| `Options.Keeper` | game.js:147-156 | the option kept for a word comes from the input, has that word, and is in the quizzed language whenever some option of that word is |
| `Options.Deduplicated` | game.js:140-161 | one kept option per distinct word, so never longer than the input |
| `Options.DeduplicateOptions` | game.js:140-161 | the `seen`/`result` loop returns exactly the declarative deduplicated list |
| `Options.DeduplicatedSnocNew` | game.js:154-157 | an option with an unseen word is appended and its word recorded |
| `Options.DeduplicatedSnocSeen` | game.js:147-153 | an option with a seen word replaces the kept one only if it is in the quizzed language and the kept one is not |
| `Options.DeduplicatedWords` | game.js:140-161 | output words are pairwise distinct and are exactly the input's words; output length <= input length |
| `Options.DeduplicatedOrder` | game.js:144-158 | every output option is an input option; words come in order of first occurrence; an option not in the quizzed language is kept only as its word's first occurrence |
| `Options.DeduplicatedKeepsCorrect` | game.js:151-153 | an input option in the quizzed language always leaves a quizzed-language option in its word's slot |
| `Options.DeduplicatePassAsWritten` | game.js:140-161 | the pass as written: every word recorded in `seen` is an own word with a valid slot; it throws only when some option in the quizzed language has an inherited property name as its word |
| `Options.DeduplicateAsWritten` | game.js:140-161 | `deduplicateOptions` as written throws only on a quizzed-language option whose word is an inherited property name |
| `Options.DeduplicateAsWrittenAgrees` | game.js:141-158 | when no word is an inherited property name, the code as written returns the deduplicated list |
| `Options.DeduplicateAsWrittenDrops` | game.js:147-151 | when every option with an inherited-name word is outside the quizzed language, the code as written does not throw: it silently drops those options, so their words get no button, and returns the deduplicated list of the rest |
| `Options.DeduplicateAsWrittenThrows` | game.js:147-151 | an option in the quizzed language whose word is an inherited property name makes the code as written throw, whatever the other options |
| `Options.DeduplicateAsWrittenCounterexample` | game.js:147-151 | a wolof "constructor" with wolof quizzed: the code as written throws. A balante "toString" with wolof quizzed: the code as written returns no button. The deduplicated list keeps the option in both cases |
| `Options.BuildOptions` | game.js:106-116 | the buttons of a question (candidates, shuffled, deduplicated, sorted): at most 14, each a candidate |
| `Options.BuildOptionsProperties` | game.js:106-116 | for any shuffle: distinct words, at most 14 buttons, every button a candidate, every language's form shown |
| `Options.BuildOptionsCorrectOnce` | game.js:106-116 | a quizzed language from the registry has exactly one button, showing its own form |
| `Options.BuildOptionsUnsupportedLanguage` | game.js:76-77 | a quizzed language outside the registry has no button at all |
| `Options.BuildOptionsSorted` | game.js:114-116 | with a collation as comparator, the buttons are in word order |
| `Session.Initial` | game.js:12-16 | no language, index 0, no questions, score 0 |
| `Session.AttemptedCount` | game.js:91 | never more than the number of questions |
| `Session.Sample` | game.js:89-91 | min(20, word count) questions, none attempted, drawn from the word list without repetition (sub-multiset) |
| `Session.SampleDistinctIds` | game.js:89-91 | with distinct word ids, no word is asked twice |
| `Session.SelectLanguage` | game.js:76-82 | any string is stored as the chosen language; index, questions and score are unchanged |
| `Session.StartGame` | game.js:86-93 | index and score 0, language kept, min(20, word count) fresh unattempted questions from the list; invariant holds; leave guard off |
| `Session.StartGameAgain` | game.js:268-271 | the same game as `startGame`: the extra score reset is redundant |
| `Session.CheckAnswer` | game.js:165-226 | throws iff there is no current question; verdict is Correct iff the clicked language is the chosen one; score rises by 1 iff correct and not attempted before, else stays; the current question becomes attempted; nothing else changes |
| `Session.AttemptedCountMark` | game.js:178 | marking a question attempted adds one attempted question iff it was not attempted |
| `Session.CheckAnswerPreservesValid` | game.js:175-202 | `checkAnswer` keeps score <= attempted questions |
| `Session.CheckAnswerIgnoresWord` | game.js:165-172 | the new state and the verdict do not depend on the clicked word |
| `Session.WrongThenRightEarnsNothing` | game.js:175-202 | a wrong answer then the right one: Incorrect, then Correct, score unchanged |
| `Session.RightTwiceScoresOnce` | game.js:175-178 | a second right answer to the same question scores nothing more |
| `Session.NextQuestion` | game.js:234-241 | index rises by exactly 1; language, questions and score unchanged |
| `Session.NextQuestionGuard` | game.js:234-241 | after `nextQuestion` the leave guard is on iff no final screen is shown; from a current question the index stays <= questions.length |
| `Session.LeaveGuard` | game.js:275 | the leave guard is on only while there are questions and the final screen is not shown, and never before the first `nextQuestion` |
| `Session.Step` | game.js:76-271 | one handler call: it keeps score <= attempted questions; only `selectLanguage` changes the language; answers, closing the popup and choosing a language leave the index and the number of questions alone |
| `Session.Run` | game.js:76-271 | a sequence of handler calls without `selectLanguage` keeps the chosen language |
| `Session.RunPreservesValid` | game.js:76-271 | after any sequence of user actions, score <= attempted questions <= questions.length |
| `Session.PerfectRoundsScore` | game.js:175-241 | n questions answered right at the first click move the index n on and add n to the score |
| `Session.FinalScoreAsWritten` | game.js:252-255 | the final screen as written: the score over 20 |
| `Session.FinalScore` | game.js:252-255 | the score over the number of questions asked; never above it while the invariant holds |
| `Session.FinalScoreAsWrittenUnderstates` | game.js:252-255 | with fewer than 20 words played perfectly, the corrected screen shows full marks and the screen as written shows the score over 20 |
| `Game.Quiz.constructor` | game.js:12-16 | the globals' initial values, with the loaded word list |
| `Game.Quiz.SelectLanguage` | game.js:76-82 | performs `Session.SelectLanguage`; keeps the invariant |
| `Game.Quiz.StartGame` | game.js:86-93 | performs `Session.StartGame`; establishes the invariant |
| `Game.Quiz.StartGameAgain` | game.js:268-271 | performs `Session.StartGameAgain` |
| `Game.Quiz.LoadQuestion` | game.js:97-116 | throws iff there is no current question; otherwise returns `BuildOptions` of the current word. It uses the corrected `DeduplicateOptions` of the game.js:147 finding |
| `Game.Quiz.CheckAnswer` | game.js:165-226 | performs `Session.CheckAnswer`: on a throw nothing changes; otherwise returns the verdict and takes the new state; keeps the invariant |
| `Game.Quiz.ClosePopup` | game.js:229-231 | changes no game state |
| `Game.Quiz.NextQuestion` | game.js:234-241 | performs `Session.NextQuestion`; reports the final screen iff the new index >= questions.length |
| `Game.Quiz.ShowFinalScreen` | game.js:245-257 | the score and the number of questions asked, the score never above it. This is the corrected total of the game.js:255 finding; game.js prints 20 |
| `Game.Quiz.LeavePrompted` | game.js:274-279 | the leave prompt fires iff 0 < index < questions.length |

## Left out

- Rendering: the menu, the question page, the popup, the progress line and the final screen's HTML are presentation only. The model keeps only the data they show.
- Loading `data/words.json` is I/O. The word list is a constructor argument, and every form is taken to be a string; a JSON `null` or non-string form is not modelled.
- Audio: the ding and thud sounds, `playWordAudio`, the promise chain after the ding and the 400 ms timer are left out. `Feedback` carries the clicked language and the word id the pronunciation would play. A wrong answer also carries the clicked word that the popup shows.
- `Shuffle.ShuffleArray`: `Math.random` is replaced by keys given as a parameter, so the fairness of the shuffle is not modelled.
- `Options.BuildOptionsSorted`: French `localeCompare` with base sensitivity is an abstract comparator; the lemma assumes it is total and transitive.
- `Sorting.SortBy`: the engine's own sort algorithm is not part of this model. A stable insertion sort stands in for it, so only order and permutation are claimed.
- The `encodeURIComponent`/`decodeURIComponent` round trip of the button payload is taken as the identity, and the `beforeunload` event wiring is left out. Only its condition is modelled (`Game.Quiz.LeavePrompted`).
- `Languages.Capitalize`, `Languages.ToLower`: case mapping covers ASCII letters only. Full Unicode case mapping (including mappings that change length) is not modelled.
- The question objects are modelled as values. Each is a fresh copy that only `questions` refers to, so updating it in place and replacing it in the sequence are the same.
- The correct popup's word text (`q.forms[correctLang]`, shown as "undefined" for a missing form) is presentation and is left out.
- `Game.Quiz.LoadQuestion`, `Game.Quiz.ShowFinalScreen`: the class runs the corrected halves of the two findings. `LoadQuestion` does not throw on a quizzed form that is an inherited property name, and it does not drop another language's such form, as game.js:147-151 does. `ShowFinalScreen` reports `questions.length` where game.js:255 prints 20. The code as written is modelled by `Options.DeduplicateAsWritten` and `Session.FinalScoreAsWritten`.
- `initMainMenu` only redraws the menu and changes no state, so returning to the menu is not a separate transition.

## Findings

| source | as written | input that shows it | evidently intended | confidence | as-written member | corrected member |
|---|---|---|---|---|---|---|
| game.js:255 | the final score is printed over a constant 20 | a word list of 5 words, all answered right at the first click: the screen shows "5 / 20" | the score over `questions.length`, the total the progress line at game.js:102 already uses | not executed; only with fewer than 20 words | `Session.FinalScoreAsWrittenUnderstates` | `Session.FinalScore` |
| game.js:147 | `word in seen` on a plain object is also true for names inherited from `Object.prototype`, and `result[existingIndex]` is then undefined. For an option in the quizzed language, reading `existingOpt.lang` at game.js:151 throws a TypeError. Any other option is dropped, because the `&&` short-circuits | a word whose quizzed-language form is "constructor" (or "toString", "valueOf", ...) throws. The same form in another language loses its button | a lookup of the words seen so far only (an own-property test or a `Map`) | not executed; only for forms equal to one of twelve inherited names | `Options.DeduplicateAsWrittenCounterexample` | `Options.DeduplicateOptions` |
