# LLMs 101 exercise engine, in Dafny

This project models the exercise engine of the "Day 1 — LLMs 101 Interactive" page
(`llms-interactive/src/App.tsx`). The page has three exercises over a fixed catalog:

- **Quiz.** The state is a record from question id to the chosen option, or `null`,
  plus a `submitted` flag. The learner picks options and submits. The score is a fold
  that counts matching answers once the quiz is submitted. The progress bar shows the
  rounded percentage of answered questions. After submission each question is marked
  Correct or Review.
- **Flashcards.** The state is a cursor `index` and a `flipped` flag. Prev and Next
  move the cursor cyclically and turn the card front up. Tapping the card turns it over.
- **Fill in the blank.** The state is a record from blank id to the typed text, plus a
  `checked` flag. The learner types, resets or checks. `correctCount` compares
  `normalize(entry || "")` with the stored answer. Each sentence is split on `"____"`,
  and an input is rendered between any two pieces.

Files:
- `wrappers.dfy`: `Option`.
- `folds.dfy`: the counting fold behind both scores (`Array.reduce` adding 0 or 1).
- `text.dfy`: `trim`, `toLowerCase`, `normalize`, `indexOf` and `split` on strings.
- `catalog.dfy`: the three constant lists.
- `quiz.dfy`, `flashcards.dfy`, `fill_blank.dfy`: one module per exercise. Each has a
  class holding the component's state. Its methods are the event handlers, and each
  handler is one atomic state change.

Behaviour of the code worth noting:
- Only the learner's side is normalised. `FillBlankExercise.LearnerSideNormalized` shows
  this is the same as normalising both sides exactly when the answer is already
  normalised. `Catalog.AnswersNormalized` shows every catalog answer is.
- Selecting an option never names an unknown question: the handler closes over the id
  of a rendered question, so `Quiz.Select` requires an id that is in the record.
- Before submission the score is 0, and no question is marked.
- The eight-underscore blanks contain the marker twice. They split into three pieces and
  so render two inputs, both bound to the same entry.

## Model

| member | source | states |
|---|---|---|
| Catalog.QuizQuestions | llms-interactive/src/App.tsx:15-76 | the five quiz questions, each with id, question, options, answer index and explanation, in display order |
| Catalog.Flashcards | llms-interactive/src/App.tsx:79-91 | the five flashcards, front and back, in display order |
| Catalog.FillBlanks | llms-interactive/src/App.tsx:94-98 | the three fill-in-the-blank items, each with id, sentence and expected answer |
| Catalog.QuestionIdsCount | llms-interactive/src/App.tsx:105-107 | when question ids are distinct, the record built from `quizQuestions.map(q => [q.id, null])` has exactly one key per question |
| Catalog.QuizQuestionIds | llms-interactive/src/App.tsx:15-76 | the catalog has five questions, with ids 1 to 5 in display order |
| Catalog.QuizQuestionKeys | llms-interactive/src/App.tsx:15-76 | the question ids are distinct and the record's keys are exactly {1, 2, 3, 4, 5} |
| Catalog.AnswerIndicesInRange | llms-interactive/src/App.tsx:15-76 | every `answerIndex` names one of its question's options, and every question has at least two options |
| Catalog.BlankIdsUnique | llms-interactive/src/App.tsx:94-98 | no two fill-in-the-blank items share an id |
| Catalog.AnswersNormalized | llms-interactive/src/App.tsx:94-98 | every expected answer is non-empty and is a fixed point of `normalize` |
| Text.IsSpace | llms-interactive/src/App.tsx:101 | the characters `trim` removes: ECMAScript's WhiteSpace and LineTerminator code points |
| Text.TrimStart | llms-interactive/src/App.tsx:101 | removing leading whitespace gives a result no longer than the input that does not start with whitespace |
| Text.TrimStartDropsSpaces | llms-interactive/src/App.tsx:101 | the result of removing leading whitespace is a suffix of the input, and every character removed is whitespace |
| Text.TrimEnd | llms-interactive/src/App.tsx:101 | removing trailing whitespace gives a result no longer than the input that does not end with whitespace |
| Text.TrimEndDropsSpaces | llms-interactive/src/App.tsx:101 | the result of removing trailing whitespace is a prefix of the input, and every character removed is whitespace |
| Text.Trim | llms-interactive/src/App.tsx:101 | `trim` leaves no whitespace at either end |
| Text.TrimSlice | llms-interactive/src/App.tsx:101 | `trim` returns a contiguous slice of its input, and only whitespace lies outside that slice |
| Text.TrimUnchanged | llms-interactive/src/App.tsx:101 | `trim` returns a string with no whitespace at its ends unchanged |
| Text.LowerChar | llms-interactive/src/App.tsx:101 | an upper-case ASCII letter is lowered by 32 code points, any other character is kept, and no result is upper case |
| Text.ToLower | llms-interactive/src/App.tsx:101 | `toLowerCase` keeps the length and lowers each character in place |
| Text.Normalize | llms-interactive/src/App.tsx:101 | the result of `normalize` has no whitespace at either end and no upper-case letter |
| Text.NormalizeFixedPoints | llms-interactive/src/App.tsx:101 | `normalize` leaves a string unchanged exactly when it is already normalised |
| Text.NormalizeIdempotent | llms-interactive/src/App.tsx:101 | normalising twice is the same as normalising once |
| Text.NormalizeExamples | llms-interactive/src/App.tsx:101 | `"  Token "` and `"token"` normalise to `"token"`, and `"Tokens"` normalises to `"tokens"` |
| Text.Find | llms-interactive/src/App.tsx:249 | `indexOf`: the position found holds an occurrence of the separator and no earlier position does; with no result, no position does |
| Text.Split | llms-interactive/src/App.tsx:249 | `split` on a non-empty separator returns at least one piece, and no piece contains the separator |
| Text.JoinSplit | llms-interactive/src/App.tsx:249 | joining the pieces of `split` with the separator gives back the original string |
| Text.SplitWithout | llms-interactive/src/App.tsx:249 | a string in which the separator does not occur splits into itself alone |
| Text.SplitAt | llms-interactive/src/App.tsx:249 | the leftmost occurrence of the separator ends the first piece: when it occurs at no position inside `a`, `a + sep + b` splits into `a` followed by the pieces of `b` |
| Text.SplitWithoutFirst | llms-interactive/src/App.tsx:249 | a string without the separator's first character splits into itself alone |
| Text.SplitAtFirst | llms-interactive/src/App.tsx:249 | a separator right after a piece without the separator's first character ends that piece |
| Folds.CountIf | llms-interactive/src/App.tsx:111 | the counting fold never exceeds the number of items |
| Folds.CountIfIsPassing | llms-interactive/src/App.tsx:111 | the counting fold equals the number of positions whose item passes the test |
| Folds.CountIfAll | llms-interactive/src/App.tsx:111 | the count is the number of items exactly when every item passes |
| Folds.CountIfNone | llms-interactive/src/App.tsx:111 | the count is 0 exactly when no item passes |
| QuizExercise.InitialSelection | llms-interactive/src/App.tsx:105-107 | the initial record has no answered entry, and with distinct question ids it has exactly one entry per question |
| QuizExercise.IsCorrect | llms-interactive/src/App.tsx:131 | a question is marked correct when the quiz is submitted and its entry is the answer index |
| QuizExercise.IsWrong | llms-interactive/src/App.tsx:132 | a question is marked for review when the quiz is submitted and its entry is anything else, `null` or missing included |
| QuizExercise.VerdictExclusive | llms-interactive/src/App.tsx:131-132 | before submission no question is marked; after it, each question is marked correct or wrong but never both |
| QuizExercise.UnansweredIsWrong | llms-interactive/src/App.tsx:131-132 | an unanswered question is never marked correct, and once submitted it is marked wrong |
| QuizExercise.Score | llms-interactive/src/App.tsx:110-113 | the score never exceeds the number of questions and is 0 until submission |
| QuizExercise.ScoreCountsCorrect | llms-interactive/src/App.tsx:110-113 | the score is the number of questions marked correct |
| QuizExercise.ScoreFull | llms-interactive/src/App.tsx:110-113 | the score is full exactly when every question is marked correct |
| QuizExercise.ScoreZero | llms-interactive/src/App.tsx:110-113 | the score is 0 exactly when no question is marked correct |
| QuizExercise.ScoreThreeOfFive | llms-interactive/src/App.tsx:110-113 | on the catalog, three right answers and two wrong ones, once submitted, score 3 |
| QuizExercise.RoundPercent | llms-interactive/src/App.tsx:116 | `Math.round(k / n * 100)`: the whole percentage nearest to 100k/n, with halves rounded up |
| QuizExercise.RoundPercentBounds | llms-interactive/src/App.tsx:116 | no answers gives 0, all answers give 100, and the percentage never exceeds 100 |
| QuizExercise.RoundPercentStrict | llms-interactive/src/App.tsx:116 | with fewer than 200 questions, only all answers give 100 and only none give 0 |
| QuizExercise.RoundPercentMonotone | llms-interactive/src/App.tsx:116 | more answers never give a lower percentage |
| QuizExercise.Answered | llms-interactive/src/App.tsx:116 | the answered entries of `Object.values(selected).filter(v => v !== null)` number at most the record's entries; they are all of them exactly when every entry is answered, and none exactly when every entry is `null` |
| QuizExercise.Progress | llms-interactive/src/App.tsx:115-118 | the progress value: the rounded percentage of answered entries out of the questions; at most 100 when no more entries are answered than there are questions, and 0 when none is |
| QuizExercise.ProgressBounded | llms-interactive/src/App.tsx:115-118 | the progress bar stays between 0 and 100 percent |
| QuizExercise.ProgressFull | llms-interactive/src/App.tsx:115-118 | with fewer than 200 questions (the page has five), the progress bar shows 100 exactly when every question is answered |
| QuizExercise.ProgressEmpty | llms-interactive/src/App.tsx:115-118 | with fewer than 200 questions (the page has five), the progress bar shows 0 exactly when no question is answered |
| QuizExercise.InitialProgress | llms-interactive/src/App.tsx:105-107 | the initial all-null record shows 0 percent |
| QuizExercise.SelectKeepsProgress | llms-interactive/src/App.tsx:150 | choosing an option never lowers the progress bar |
| QuizExercise.Quiz.constructor | llms-interactive/src/App.tsx:105-108 | the quiz starts with every question unanswered and not submitted |
| QuizExercise.Quiz.Select | llms-interactive/src/App.tsx:150 | choosing an option records it for that question; every other entry and `submitted` are unchanged, and progress does not decrease |
| QuizExercise.Quiz.Submit | llms-interactive/src/App.tsx:179 | submitting sets `submitted` and keeps the selections |
| QuizExercise.Quiz.Reset | llms-interactive/src/App.tsx:176 | the reload brings the quiz back to its initial state, with progress 0 and score 0 |
| QuizExercise.QuizDisplay | llms-interactive/src/App.tsx:110-118 | in every state the quiz can reach, the progress bar is within 0 to 100 and full exactly when every question is answered, and the score is out of five |
| FlashcardExercise.NextIndex | llms-interactive/src/App.tsx:221 | `(i + 1) % n` stays in range, moves one on, and wraps from the last card to the first |
| FlashcardExercise.PrevIndex | llms-interactive/src/App.tsx:220 | `(i - 1 + n) % n` stays in range, moves one back, and wraps from the first card to the last |
| FlashcardExercise.NextPrevInverse | llms-interactive/src/App.tsx:220-221 | Prev undoes Next, and Next undoes Prev |
| FlashcardExercise.Advance | llms-interactive/src/App.tsx:221 | pressing Next any number of times stays in range |
| FlashcardExercise.AdvanceNoWrap | llms-interactive/src/App.tsx:221 | before the end of the deck, pressing Next k times moves k cards on |
| FlashcardExercise.AdvanceCompose | llms-interactive/src/App.tsx:221 | pressing Next a times and then b times is the same as pressing it a + b times |
| FlashcardExercise.FullCycle | llms-interactive/src/App.tsx:221 | pressing Next once per card returns to the starting card |
| FlashcardExercise.FiveCardDeck | llms-interactive/src/App.tsx:79-91 | the deck has five cards; Prev from the first card shows the fifth, and five Nexts return to the first |
| FlashcardExercise.Flashcards.constructor | llms-interactive/src/App.tsx:190-191 | the navigator starts on the first card, front up |
| FlashcardExercise.Flashcards.Next | llms-interactive/src/App.tsx:221 | Next moves the cursor to the next card, wrapping around, front up |
| FlashcardExercise.Flashcards.Prev | llms-interactive/src/App.tsx:220 | Prev moves the cursor to the previous card, wrapping around, front up |
| FlashcardExercise.Flashcards.Flip | llms-interactive/src/App.tsx:205 | tapping the card negates `flipped` and keeps the cursor |
| FlashcardExercise.FlipTwice | llms-interactive/src/App.tsx:205 | tapping twice restores the navigator's state |
| FlashcardExercise.NextThenPrev | llms-interactive/src/App.tsx:220-221 | Next then Prev returns to the same card, front up |
| FillBlankExercise.Entry | llms-interactive/src/App.tsx:233 | `values[id] \|\| ""`: the typed text, or the empty string for a blank never typed into |
| FillBlankExercise.IsBlankCorrect | llms-interactive/src/App.tsx:233 | a blank is filled in correctly when its normalised entry equals the stored answer |
| FillBlankExercise.CorrectCount | llms-interactive/src/App.tsx:232-235 | `correctCount` never exceeds the number of blanks and is 0 until checked |
| FillBlankExercise.CorrectCountCounts | llms-interactive/src/App.tsx:232-235 | once checked, the count is the number of blanks whose normalised entry equals the answer |
| FillBlankExercise.CorrectCountFull | llms-interactive/src/App.tsx:232-235 | once checked, the count is full exactly when every blank is filled in correctly |
| FillBlankExercise.CorrectCountZero | llms-interactive/src/App.tsx:232-235 | the count is 0 exactly when the answers are unchecked or no blank is correct |
| FillBlankExercise.MissingIsWrong | llms-interactive/src/App.tsx:233 | a blank never typed into is scored as `""`, which no non-empty answer matches |
| FillBlankExercise.LearnerSideNormalized | llms-interactive/src/App.tsx:233 | only the entry is normalised: against a normalised answer this equals comparing both sides normalised, and an answer that is not normalised never matches |
| FillBlankExercise.TokenExample | llms-interactive/src/App.tsx:233 | `"  Token "` fills the first blank correctly and `"Tokens"` does not |
| FillBlankExercise.NothingTypedScoresZero | llms-interactive/src/App.tsx:232-235 | with nothing typed and non-empty answers, the count is 0 whether or not checked |
| FillBlankExercise.Interleave | llms-interactive/src/App.tsx:249-259 | the pieces are rendered in order, with an input after every piece but the last |
| FillBlankExercise.Layout | llms-interactive/src/App.tsx:249-259 | a sentence renders the pieces of `split("____")` in order at the even positions, an input between any two of them, and every input shows the same entry |
| FillBlankExercise.SingleMarker | llms-interactive/src/App.tsx:249 | a sentence with one four-underscore blank splits into two pieces |
| FillBlankExercise.DoubleMarker | llms-interactive/src/App.tsx:249 | an eight-underscore blank splits into three pieces with an empty middle piece |
| FillBlankExercise.FirstSentenceLayout | llms-interactive/src/App.tsx:95 | the first sentence splits into two pieces and renders one input |
| FillBlankExercise.SecondSentenceLayout | llms-interactive/src/App.tsx:96 | the second sentence splits into three pieces and renders two inputs |
| FillBlankExercise.ThirdSentenceLayout | llms-interactive/src/App.tsx:97 | the third sentence splits into three pieces and renders two inputs |
| FillBlankExercise.FillInTheBlank.constructor | llms-interactive/src/App.tsx:229-230 | the exercise starts with no entries and unchecked |
| FillBlankExercise.FillInTheBlank.Type | llms-interactive/src/App.tsx:257 | typing into a blank replaces that entry only and keeps `checked` |
| FillBlankExercise.FillInTheBlank.Reset | llms-interactive/src/App.tsx:268 | reset empties the entries and clears `checked`, after which the count is 0 |
| FillBlankExercise.FillInTheBlank.Check | llms-interactive/src/App.tsx:271 | checking sets `checked` and keeps the entries, and the count becomes the number of correct blanks |

## Left out

- Rendering, styling, the card, radio and tab components, and the flip animation are not modelled. They are presentation built on libraries that are not part of this model.
- QuizExercise.Quiz.Reset: the page's Reset reloads the whole page. It is modelled only as the quiz returning to its initial state. A reload also resets the other two exercises, and that is not modelled.
- QuizExercise.RoundPercent: the floating-point `Math.round(k / n * 100)` is modelled as exact integer rounding, `(200k + n) / (2n)`. Rounding error in the floating-point quotient is not modelled.
- Text.ToLower: `toLowerCase` is modelled on ASCII letters only. Other upper-case characters are kept as they are. Learner input is not restricted to ASCII, so some entries score on the page but not in the model: JavaScript lowers U+212A KELVIN SIGN to `k`, so `"to\u212Aen"` matches `token` on the page and not here.
- Text.Split: only a non-empty separator is modelled. The page always splits on `"____"`.
- QuizExercise.Quiz.Select: the option is any integer. The radio group passes `Number(val)` of an option index and is not modelled.
- React's scheduling, `useMemo` and functional state updates are not modelled. Each handler is one atomic state change. The score, progress and count are functions of the state.
- Switching tabs may unmount a component and discard its state. That is not modelled.
- Catalog.FillBlanks: each sentence is written as a concatenation of shorter literals. The value equals the source's single literal.
