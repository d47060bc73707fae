# VocoLatin learner-progress model

VocoLatin is a browser app for learning Latin vocabulary. A lesson is a list of word records.
The learner looks at them one by one (explore), judges each one with a swipe (flashcards), or
answers a multiple-choice quiz. Words the learner misses go into a persistent ledger of missed
words. No two ledger entries share a `word` key. A review session replays the ledger, and a word
judged known during a review leaves the ledger.

This project models that learner-progress logic in Dafny:

- `words.dfy` (module `Words`): the `LatinWord` record and key lookup.
- `ledger.dfy` (module `Ledger`): the two updaters of the ledger, `addToMissed` and
  `removeFromMissed`, and the `forEach` folds that apply them in turn.
- `review.dfy` (module `Review`): the per-word rule that changes the ledger on each verdict, the
  batch update the quiz uses instead, and where a review session leaves the ledger.
- `session.dfy` (module `Session`): the state of the `App` component.
  - Its handlers are first given as transition functions on an `AppState` value.
  - Class `App` holds the component's state variables as fields. Its methods carry out the
    handlers. Each method's postcondition says it reaches exactly the state the transition
    function gives.
- `quiz.dfy` (module `QuizScorer`): the quiz component.
  - Its answer and next-question transitions, and the construction of the answer options.
  - Class `Quiz` keeps its state variables as fields, plus a ghost history of the verdicts
    given so far. The invariant `Tracks` ties the score, streak, best streak and missed list to
    that history.

Verdicts follow the source. A left swipe or a correct quiz answer means "known". A right swipe
or a wrong answer means "missed". The answer shuffles (`sort(() => 0.5 - Math.random())`) are an
arbitrary reordering. The model gives them as a parameter: a sequence of picks, one position
among the remaining elements at each step. The model proves that the reachable orders are
exactly the permutations.

## Model

| member | source | states |
|---|---|---|
| Words.Find | App.tsx:82 | `find` by key returns an entry exactly when some entry has the key; what it returns is in the list and has that key |
| Words.FindIsFirst | App.tsx:82 | the entry `find` returns is the first one with the key: no earlier entry has it |
| Ledger.AddToMissed | App.tsx:79-85 | if the key is already present the ledger is unchanged; otherwise the record is appended at the end |
| Ledger.AddKeepsUnique | App.tsx:79-85 | after adding, the keys are the old keys plus the record's key; a ledger with unique keys keeps them unique |
| Ledger.AddPresent | App.tsx:82 | adding a record that is already an entry changes nothing |
| Ledger.RemoveFromMissed | App.tsx:87-89 | the key is absent afterwards; the ledger is unchanged when the key was not there; it never grows |
| Ledger.RemoveKeepsOthers | App.tsx:87-89 | exactly the entries with the removed key disappear: every other key and every other entry stays; unique keys stay unique |
| Ledger.RemoveConcat | App.tsx:88 | the filter works entry by entry, so on a concatenation it filters each part and keeps the parts' order |
| Ledger.RemoveIdempotent | App.tsx:87-89 | removing the same key twice is the same as removing it once |
| Ledger.RemoveFromUnique | App.tsx:87-89 | on a ledger with unique keys, removing the key of entry i drops that entry only and keeps the others in their order |
| Ledger.AddRemoveCommute | App.tsx:79-89 | adding one key and removing a different key give the same ledger in either order |
| Ledger.AddAll | App.tsx:120 | `missed.forEach(addToMissed)` as a fold: the ledger grows by at most one entry per record of the batch and never shrinks |
| Ledger.AddAllSpec | App.tsx:120 | `missed.forEach(addToMissed)` only appends: the old ledger is a prefix of the new one, the new keys are the old ones plus the batch's, and unique keys stay unique |
| Ledger.RemoveAll | App.tsx:125 | `correctlyAnswered.forEach(removeFromMissed)` as a fold: the ledger never grows |
| Ledger.RemoveAllSpec | App.tsx:124-125 | `correctlyAnswered.forEach(removeFromMissed)` leaves exactly the keys outside the batch and keeps keys unique |
| Ledger.RemoveAfterAddAll | App.tsx:116-126 | removing a key that no record of a batch carries can be done before or after adding the batch |
| Review.Judge | App.tsx:94-103 | the per-word swipe rule: a miss leaves the word's key in the ledger and keeps the old ledger as a prefix of the new one; a known word in review leaves its key out of the ledger; a known word outside review leaves the ledger as it was |
| Review.MissedOf | components/Quiz.tsx:45 | the words judged missed, in session order: never more than the session's words, and each one is a word of the session |
| Review.KnownOf | components/Quiz.tsx:36-42 | the words judged known, in session order: never more than the session's words, and each one is a word of the session |
| Review.CorrectlyAnswered | App.tsx:124 | the filter for correctly answered words keeps only words of the session, never more than there are |
| Review.CorrectlyAnsweredKeys | App.tsx:124 | a key is among the correctly answered words exactly when it is a key of the session and not a missed key |
| Review.QuizFinishLedger | App.tsx:116-126 | the ledger after the quiz batch holds every missed key and only keys of the old ledger or missed words; in review every key of the session that was not missed is gone; outside review the old ledger is a prefix of the new one; unique keys stay unique |
| Review.VerdictsSplit | components/Quiz.tsx:36-46 | every question is counted either as missed or as known; the known count is the length of the known list |
| Review.MissedKeysFromSession | components/Quiz.tsx:45 | the collected missed words carry only keys of the session's words |
| Review.MissedKeyIffMissed | App.tsx:124 | in a session without repeated keys, a word's key is among the missed keys if and only if that word was judged missed |
| Review.CorrectlyAnsweredIsKnown | App.tsx:124 | when the missed keys are exactly those of the missed words, the filter for correctly answered words returns the known words in order |
| Review.BatchMatchesPerWordOutsideReview | App.tsx:116-126 | outside review, adding the quiz's missed words in one batch gives the same ledger as applying the per-word swipe rule to each word in order |
| Review.BatchMatchesPerWordInReview | App.tsx:116-126 | in review, on a session without repeated keys, adding the missed words and then removing the known ones gives the same ledger as the per-word rule |
| Review.QuizBatchIsPerWord | App.tsx:116-126 | `handleQuizFinish`, given the quiz's missed words, leaves the same ledger as the per-word swipe rule applied to the session's words in order (in review, when the session repeats no key) |
| Review.DuplicateWordsDiverge | App.tsx:124-125 | when a word appears twice in a review session, missed first and right the second time, the batch keeps it in the ledger but the per-word rule removes it |
| Review.JudgeAllKeepsUnique | App.tsx:91-103 | judging any words in any order keeps a ledger with unique keys unique |
| Review.OutsideReviewOnlyAppends | App.tsx:91-103 | outside review no verdict removes an entry: the old ledger is a prefix of the new one |
| Review.ReviewFrom | App.tsx:91-103 | in a review part-way through the ledger, the result is the entries already kept followed by the entries judged missed among the rest |
| Review.ReviewConverges | App.tsx:91-103 | reviewing a ledger with unique keys, one verdict per entry in ledger order, leaves exactly the entries judged missed, in their old order |
| Session.Initial | App.tsx:31-40 | at start-up the ledger is the stored list when it parses; when it is absent or malformed it is empty; the first lesson is selected on the explore screen, with no words, no result and no review |
| Session.LoadStep | App.tsx:53-62 | a loaded lesson starts at its first card with a zero tally, outside review and off the result screen; the ledger, screen and last score are unchanged |
| Session.ResetStep | App.tsx:131-138 | reset goes back to the explore screen and then does what loading a lesson does |
| Session.ModeStep | App.tsx:166-171 | a mode button switches the screen and restarts at the first card with a zero tally; the word list, the review flag, the lesson, the last score and the ledger stay |
| Session.CategoryStep | App.tsx:204-207 | a lesson button always turns review mode off and selects the lesson, keeping the ledger and the screen; a new lesson is then loaded by the category effect (App.tsx:47-51); a click on the lesson already selected changes nothing else, so the current word list stays |
| Session.SameLessonKeepsReviewCards | App.tsx:204-207 | clicking the current lesson during a review keeps the review's cards outside review mode, and a left swipe then leaves the ledger unchanged |
| Session.NextStep | App.tsx:64-71 | the cursor moves on only when a later card exists; otherwise the result shows the tally, with the cursor in place; a valid cursor stays valid |
| Session.PrevStep | App.tsx:73-77 | the cursor moves back by one unless it is at 0, so it never goes negative; nothing else changes |
| Session.SwipeStep | App.tsx:91-114 | after a swipe the cursor is valid and the word list unchanged; the cursor moves on unless the card was the last |
| Session.SwipeStepSpec | App.tsx:91-114 | a left swipe adds exactly 1 to the tally and removes the word from the ledger only in review, so outside review the ledger is unchanged; a right swipe adds the word and keeps the tally; on the last card the result shows the new tally |
| Session.QuizFinishStep | App.tsx:116-129 | the result shows the quiz score; every missed key is in the new ledger; outside review the old ledger is a prefix of the new one; unique keys stay unique; nothing else changes |
| Session.ReviewStep | App.tsx:140-149 | with an empty ledger nothing changes; otherwise the words become the ledger, from the first card, with a zero tally, in review and off the result screen; explore switches to flashcards |
| Session.SwipeSession | App.tsx:91-114 | over a run of swipes the word list and the review flag stay, the tally grows by the number of left swipes, and the result appears exactly after the last card, showing the final tally |
| Session.SwipeSessionLedger | App.tsx:91-114 | over a run of swipes the ledger changes as the per-word rule applied to the swiped cards in order |
| Session.FlashcardReview | App.tsx:91-149 | a flashcard review of a ledger with unique keys, one swipe per card, keeps showing the ledger as it was when the review began, ends on the result screen with the number of left swipes as the score, and leaves exactly the cards swiped right in the ledger, in order |
| Session.QuizReview | App.tsx:116-149 | a quiz review of a ledger with unique keys records the score and leaves exactly the wrongly answered words in the ledger, in order |
| Session.StaleQuizReview | App.tsx:321-323 | as written: a review started on the quiz screen while a lesson quiz is under way can remove a ledger word that was never asked and add a word that is not in the review (see Findings) |
| Session.RemountedQuizReview | App.tsx:140-149 | corrected: with a quiz that fits the review's words and has answered all of them, finishing reports the review's right answers and misses, and the ledger keeps exactly the missed cards in order |
| Session.App.constructor | App.tsx:31-40 | the mounted component is in the start-up state for what storage holds |
| Session.App.AddMissed | App.tsx:79-85 | the ledger field becomes `AddToMissed` of its old value; the cursor stays valid |
| Session.App.RemoveMissed | App.tsx:87-89 | the ledger field becomes `RemoveFromMissed` of its old value; the cursor stays valid |
| Session.App.AddEach | App.tsx:120 | the loop over the missed words leaves the ledger field at `AddAll` of its old value |
| Session.App.RemoveEach | App.tsx:125 | the loop over the correctly answered words leaves the ledger field at `RemoveAll` of its old value |
| Session.App.SelectCategory | App.tsx:204-207 | the fields reach the state `CategoryStep` gives; the cursor stays valid |
| Session.App.LoadVocab | App.tsx:53-62 | the fields reach the state `LoadStep` gives; the cursor stays valid |
| Session.App.ResetStudy | App.tsx:131-138 | the fields reach the state `ResetStep` gives; the cursor stays valid |
| Session.App.SelectMode | App.tsx:166-171 | the fields reach the state `ModeStep` gives; the cursor stays valid |
| Session.App.HandleNext | App.tsx:64-71 | the fields reach the state `NextStep` gives; the cursor stays valid |
| Session.App.HandlePrev | App.tsx:73-77 | the fields reach the state `PrevStep` gives; the cursor stays valid |
| Session.App.HandleSwipe | App.tsx:91-114 | on a non-empty word list with a valid cursor, the fields reach the state `SwipeStep` gives for the current card, and the cursor stays valid |
| Session.App.HandleQuizFinish | App.tsx:116-129 | the two `forEach` loops (`AddEach`, then `RemoveEach` in review) leave the fields in the state `QuizFinishStep` gives; the cursor stays valid |
| Session.App.StartPersistentReview | App.tsx:140-149 | the fields reach the state `ReviewStep` gives; the cursor stays valid |
| QuizScorer.Start | components/Quiz.tsx:11-17 | the mounted quiz is at the first question, with nothing selected, answered, scored or missed and no streak |
| QuizScorer.AnswerStep | components/Quiz.tsx:31-47 | once the question is answered, another answer changes nothing; an answer always marks the question answered and keeps the cursor |
| QuizScorer.NextStep | components/Quiz.tsx:49-57 | the quiz finishes exactly when no question is left after the current one, reporting the score and the missed words and staying in place; otherwise the next question opens, unanswered and with nothing selected, and nothing else changes |
| QuizScorer.RunsAfterKnown | components/Quiz.tsx:36-42 | a right answer extends the current streak by one, and the best streak becomes the larger of the old best and the new streak |
| QuizScorer.RunsAfterMissed | components/Quiz.tsx:43-46 | a wrong answer resets the streak to 0 and keeps the best streak |
| QuizScorer.StartTracks | components/Quiz.tsx:11-17 | the freshly mounted quiz agrees with an empty history |
| QuizScorer.AnswerTracks | components/Quiz.tsx:31-47 | a first answer extends the history by its verdict. In the new state the score counts the right answers, the missed list holds the wrongly answered words in order, the streak is the current run of right answers and the best streak is the longest run |
| QuizScorer.NextTracks | components/Quiz.tsx:49-53 | leaving a question that is not the last opens the next one and keeps the history |
| QuizScorer.NextFinishes | components/Quiz.tsx:54-56 | leaving the last question reports the number of right answers and the wrongly answered words in order, every word having been asked once; the state stays |
| QuizScorer.TracksBounds | components/Quiz.tsx:31-47 | the score plus the number of missed words is the number of questions answered; the score is at most the number of words; the streak is at most the best streak, which is at most the score |
| QuizScorer.RunCounted | components/Quiz.tsx:36-42 | after a streak of n right answers the score is at least n |
| QuizScorer.Shuffle | components/Quiz.tsx:24-25 | the reordering chosen by the picks keeps the length (`ShufflePermutes` and `ShuffleReachesAll` say which orders it gives) |
| QuizScorer.ShufflePermutes | components/Quiz.tsx:24-25 | a shuffle keeps every element with its multiplicity |
| QuizScorer.PicksFor | components/Quiz.tsx:24-25 | every reordering of a list is produced by some choice of picks |
| QuizScorer.ShuffleReachesAll | components/Quiz.tsx:24-25 | the orders a shuffle can produce are exactly the permutations of the input |
| QuizScorer.Translations | components/Quiz.tsx:27 | the translations of the words, one per word, in order |
| QuizScorer.Distractors | components/Quiz.tsx:23-27 | min(3, number of other words) distractors, drawn without repeats from the words whose key differs from the current word's |
| QuizScorer.Options | components/Quiz.tsx:21-29 | no options without a current word. Otherwise: the distractors' translations plus the right translation, reordered; one more than the distractors; the right translation is among them; every other option is the translation of a word with a different key |
| QuizScorer.OptionsCount | components/Quiz.tsx:21-29 | when no other word shares the current word's translation, it appears exactly once; with unique keys there are min(3, number of words - 1) + 1 options |
| QuizScorer.Quiz.constructor | components/Quiz.tsx:11-17 | the mounted quiz is at the first question with nothing answered, and agrees with an empty history |
| QuizScorer.Quiz.HandleAnswer | components/Quiz.tsx:31-47 | the fields reach the state `AnswerStep` gives; only a first answer adds its verdict to the history; the invariant and the score and streak bounds hold afterwards |
| QuizScorer.Quiz.ReceiveWords | App.tsx:321-323 | a new `words` prop for the mounted quiz, which has no `key`: the words change and every state variable, and the history, stays |
| QuizScorer.Quiz.Remount | App.tsx:321-323 | the corrected behaviour: a new word list mounts a fresh quiz on it, at the first question, with an empty history that the state agrees with |
| QuizScorer.Quiz.NextQuestion | components/Quiz.tsx:49-57 | the fields and the outcome are those `NextStep` gives, and the history stays; a finish reports the count of right answers and the missed words of all the questions |

## Left out

- geminiService.ts is not part of this model. The vocabulary fetch, the image and speech calls, and the audio decoding are network and browser I/O. A loaded lesson enters the model as the `data` parameter of `LoadStep`, `ResetStep`, `App.LoadVocab` and `App.ResetStudy`.
- components/WordCard.tsx is not part of this model. It handles pointer gestures, transforms, images and the drag threshold. The swipe direction it reports is the `Direction` parameter of `HandleSwipe`.
- The localStorage read and `JSON.parse` at App.tsx:31-40 are modelled only by their outcome. `Stored` is either absent, malformed or a parsed list. A parsed value that is not a list of records is outside the model.
- The save effect at App.tsx:43-45 is left out. It writes the ledger to storage after every change and changes no state the model holds.
- `setTimeout` (App.tsx:105-113) and React's batched, asynchronous state updates are left out. Each handler is one atomic transition, and the timer's step runs right after the swipe.
- User input while a lesson fetch is outstanding is not modelled: the fetch is taken to complete at once (`LoadStep`). In the source the lesson and review buttons stay active during the wait (App.tsx:183-219), so a review started then is undone when `loadVocab` resolves (App.tsx:56-59), and of two overlapping fetches the one that resolves last sets `words`.
- The `loading` flag and all rendering are left out. The lesson fetch that the category effect (App.tsx:47-51) starts is modelled only by its result, the `data` parameter of `CategoryStep`. The labels and icons of the thirty lessons (App.tsx:10-14) are left out; a lesson is its id string, and the first one, `Lektion 1`, is selected at mount (App.tsx:17).
- `Math.random` is replaced by the pick sequences `picks` and `order`. No ordering property of the options is stated, only which orders are possible.
- `selectedAnswer` is recorded in the quiz state but only drives the display (components/Quiz.tsx:98-132).
- Session.App.HandleSwipe: requires a non-empty word list with a valid cursor. The flashcard screen renders the swipeable card only when `words[currentIndex]` exists (App.tsx:294), so `currentWord` is never undefined there.
- QuizScorer.Quiz.constructor: requires a non-empty word list, because the app mounts the quiz only when `words.length > 0` (App.tsx:321).
- QuizScorer.Quiz.constructor: the scoring invariant and everything proved from it assume a quiz mounted fresh for its word list. The source keeps a mounted quiz when its `words` change (`QuizScorer.Quiz.ReceiveWords`, see Findings). When the old cursor lies past the end of the new list, `currentWord` is undefined and rendering the prompt (components/Quiz.tsx:94) throws. The model does not capture that crash, since `AnswerStep` needs a current word.
- Session.QuizReview: holds for a quiz that fits the review's words, as `Session.RemountedQuizReview` states. A review started while a lesson quiz is on screen does not get such a quiz (`Session.StaleQuizReview`).
- QuizScorer.Quiz.NextQuestion: requires the current question to be answered. The next button renders only when `isAnswered` holds (components/Quiz.tsx:135).
- Review.QuizBatchIsPerWord: in review, the equivalence of the batch and the per-word rule is stated only for sessions without repeated keys. With a repeated key the two differ, as `Review.DuplicateWordsDiverge` shows.
- Review.MissedKeysFromSession: speaks of the misses a quiz collects on the session's own words. A quiz that kept its state across a change of words reports misses of the old list, as `Session.StaleQuizReview` shows.
- Session.QuizFinishStep: states that unique keys stay unique, not that they hold. The ledger read from storage is whatever was saved, so the model does not assume it is free of duplicates.
- Session.LoadStep: an empty non-review lesson does not go straight to a result screen with score 0. The code loads an empty list with `showResult` false and renders no card, and the model follows the code.
- Ledger.RemoveFromMissed: keeping the other entries in their order is stated for ledgers with unique keys (`Ledger.RemoveFromUnique`) and through `Ledger.RemoveConcat`. There is no general subsequence predicate.

## Findings

| source | as written | input that shows it | evidently intended | confidence | as-written member | corrected member |
|---|---|---|---|---|---|---|
| App.tsx:321-323 | The quiz is rendered without a `key`. When `startPersistentReview` (App.tsx:140-149) replaces `words` while the quiz screen is showing, the mounted quiz keeps its cursor, score and missed words from the lesson. | A lesson quiz on `[l0, l1]`: answer `l0` wrong and go on to question 2. With ledger `[r0, r1]`, start the review. The quiz asks only `r1`; answer it right and finish. The ledger becomes `[l0]`: `r0` is removed without being asked, and `l0` is added although it is not in the review. | A new word list starts a fresh quiz on it, so a review asks every ledger word and keeps exactly the ones missed. | not executed | Session.StaleQuizReview | Session.RemountedQuizReview |
