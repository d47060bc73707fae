/** The session controller of App.tsx: the active word list, the cursor, the running tally of
    known words, the result screen, the review flag and the persistent missed-words ledger.
    Each handler of the component is one atomic transition. The transitions are first given as
    functions on `AppState` (what the lemmas below reason about) and then carried out by the
    methods of class `App`, which update the component's fields and are proved to reach
    exactly the state the function describes. */
module Session {
  import opened Words
  import opened Ledger
  import opened Review
  import QuizScorer

  /** The three screens (`StudyMode`). */
  datatype Mode = ExploreMode | FlashcardsMode | QuizMode

  /** The verdict of a flashcard swipe, as the card reports it: left means "known". */
  datatype Direction = Left | Right

  function VerdictOf(d: Direction): Verdict {
    if d == Left then Known else Missed
  }

  /** The verdicts of a sequence of swipes. */
  function Verdicts(dirs: seq<Direction>): (vs: seq<Verdict>)
    ensures |vs| == |dirs|
  {
    if dirs == [] then [] else [VerdictOf(dirs[0])] + Verdicts(dirs[1..])
  }

  /** What the browser storage key holds at start-up: nothing (or an empty string), text that does
      not parse, or a parsed list of records. */
  datatype Stored = Absent | Malformed | Parsed(entries: seq<LatinWord>)

  /** The lesson selected at mount (`CATEGORIES[0].id`). */
  const FirstLesson: string := "Lektion 1"

  /** The component's state; `category` is `currentCategory`, `missed` is `persistentMissedWords`. */
  datatype AppState = AppState(
    category: string,
    mode: Mode,
    words: seq<LatinWord>,
    currentIndex: nat,
    showResult: bool,
    finalScore: nat,
    knownCount: nat,
    missed: seq<LatinWord>,
    isReviewSession: bool)

  /** The cursor points at a word of a non-empty list, and is 0 on an empty one. */
  predicate IndexOk(s: AppState) {
    if s.words == [] then s.currentIndex == 0 else s.currentIndex < |s.words|
  }

  /** The state after mounting and reading the ledger from storage, before any word list has
      arrived: the first lesson is selected, and its fetch (the category effect runs at mount
      too) is still outstanding. */
  function Initial(stored: Stored): (r: AppState)
    ensures IndexOk(r) && !r.showResult && !r.isReviewSession && r.words == []
    ensures r.category == FirstLesson && r.mode == ExploreMode
    ensures r.missed == if stored.Parsed? then stored.entries else []
  {
    AppState(FirstLesson, ExploreMode, [], 0, false, 0, 0, if stored.Parsed? then stored.entries else [], false)
  }

  /** `loadVocab` once the fetch has delivered `data`: a fresh, non-review lesson at its first
      card; the ledger and the screen are not touched. */
  function LoadStep(s: AppState, data: seq<LatinWord>): (r: AppState)
    ensures IndexOk(r) && r.words == data && r.currentIndex == 0 && r.knownCount == 0
    ensures !r.isReviewSession && !r.showResult
    ensures r.missed == s.missed && r.mode == s.mode && r.finalScore == s.finalScore && r.category == s.category
  {
    s.(words := data, currentIndex := 0, knownCount := 0, isReviewSession := false, showResult := false)
  }

  /** `resetStudy`: back to the explore screen, then `loadVocab`. */
  function ResetStep(s: AppState, data: seq<LatinWord>): (r: AppState)
    ensures r.mode == ExploreMode && r == LoadStep(s.(mode := ExploreMode), data)
  {
    LoadStep(s.(showResult := false, mode := ExploreMode, currentIndex := 0, knownCount := 0,
                isReviewSession := false), data)
  }

  /** A mode button: switch screen and restart the tally at the first card, in the same
      session (the review flag and the word list stay). */
  function ModeStep(s: AppState, m: Mode): (r: AppState)
    ensures IndexOk(r) && r.mode == m && r.currentIndex == 0 && r.knownCount == 0 && !r.showResult
    ensures r.words == s.words && r.isReviewSession == s.isReviewSession && r.missed == s.missed
    ensures r.finalScore == s.finalScore && r.category == s.category
  {
    s.(mode := m, showResult := false, currentIndex := 0, knownCount := 0)
  }

  /** A lesson button for lesson `cat`: leave review mode and select the lesson. Only a change of
      lesson triggers the category effect, which then loads the lesson's words `data`; a click on
      the lesson already selected keeps the current word list, even the review's, with review
      mode off. */
  function CategoryStep(s: AppState, cat: string, data: seq<LatinWord>): (r: AppState)
    ensures !r.isReviewSession && r.category == cat && r.missed == s.missed && r.mode == s.mode
    ensures cat == s.category ==> r == s.(isReviewSession := false)
    ensures cat != s.category ==> r == LoadStep(s.(category := cat), data)
    ensures IndexOk(s) ==> IndexOk(r)
  {
    var selected := s.(isReviewSession := false, category := cat);
    if cat == s.category then selected else LoadStep(selected, data)
  }

  /** Clicking the current lesson during a review keeps the review's cards on screen outside
      review mode, so a left swipe on one of them no longer takes it out of the ledger. */
  lemma SameLessonKeepsReviewCards(s: AppState, data: seq<LatinWord>)
    requires s.isReviewSession && s.currentIndex < |s.words|
    ensures CategoryStep(s, s.category, data).words == s.words
    ensures !CategoryStep(s, s.category, data).isReviewSession
    ensures SwipeStep(CategoryStep(s, s.category, data), Left).missed == s.missed
  {
    SwipeStepSpec(CategoryStep(s, s.category, data), Left);
  }

  /** `handleNext`: advance when a later card exists; on the last card show the result with the
      tally so far. Nothing else changes. */
  function NextStep(s: AppState): (r: AppState)
    ensures IndexOk(s) ==> IndexOk(r)
    ensures s.currentIndex + 1 < |s.words| ==> r == s.(currentIndex := s.currentIndex + 1)
    ensures s.currentIndex + 1 >= |s.words| ==> r == s.(finalScore := s.knownCount, showResult := true)
  {
    if s.currentIndex < |s.words| - 1 then s.(currentIndex := s.currentIndex + 1)
    else s.(finalScore := s.knownCount, showResult := true)
  }

  /** `handlePrev`: step back unless at the first card; the cursor never goes below 0. */
  function PrevStep(s: AppState): (r: AppState)
    ensures IndexOk(s) ==> IndexOk(r)
    ensures r == s.(currentIndex := r.currentIndex)
    ensures r.currentIndex == if s.currentIndex > 0 then s.currentIndex - 1 else 0
  {
    if s.currentIndex > 0 then s.(currentIndex := s.currentIndex - 1) else s
  }

  /** `handleSwipe` on the current card, together with the step its timer takes afterwards. */
  function SwipeStep(s: AppState, d: Direction): (r: AppState)
    requires s.currentIndex < |s.words|
    ensures IndexOk(r) && r.words == s.words
    ensures r.currentIndex == if s.currentIndex + 1 < |s.words| then s.currentIndex + 1 else s.currentIndex
  {
    var w := s.words[s.currentIndex];
    var known := if d == Left then s.knownCount + 1 else s.knownCount;
    var ledger := Judge(s.missed, w, VerdictOf(d), s.isReviewSession);
    if s.currentIndex < |s.words| - 1 then
      s.(knownCount := known, missed := ledger, currentIndex := s.currentIndex + 1)
    else
      s.(knownCount := known, missed := ledger, finalScore := known, showResult := true)
  }

  /** One swipe: a left swipe counts one more known word and, only in a review session, drops the
      word from the ledger; a right swipe adds the word and leaves the tally. The screen stays and
      the ledger keeps unique keys. On the last card the result screen shows the new tally;
      before it the cursor advances and the result is untouched. */
  lemma SwipeStepSpec(s: AppState, d: Direction)
    requires s.currentIndex < |s.words|
    ensures SwipeStep(s, d).mode == s.mode && SwipeStep(s, d).isReviewSession == s.isReviewSession
    ensures SwipeStep(s, d).knownCount == s.knownCount + (if d == Left then 1 else 0)
    ensures d == Left && !s.isReviewSession ==> SwipeStep(s, d).missed == s.missed
    ensures d == Left && s.isReviewSession ==> !HasKey(SwipeStep(s, d).missed, s.words[s.currentIndex].word)
    ensures d == Right ==> HasKey(SwipeStep(s, d).missed, s.words[s.currentIndex].word)
    ensures d == Right ==> |s.missed| <= |SwipeStep(s, d).missed|
    ensures UniqueKeys(s.missed) ==> UniqueKeys(SwipeStep(s, d).missed)
    ensures s.currentIndex + 1 < |s.words| ==>
      SwipeStep(s, d).showResult == s.showResult && SwipeStep(s, d).finalScore == s.finalScore
    ensures s.currentIndex + 1 == |s.words| ==>
      SwipeStep(s, d).showResult && SwipeStep(s, d).finalScore == SwipeStep(s, d).knownCount
  {
    var w := s.words[s.currentIndex];
    AddKeepsUnique(s.missed, w);
    RemoveKeepsOthers(s.missed, w);
  }

  /** `handleQuizFinish(score, missed)`: record the score, update the ledger in one batch and show
      the result. */
  function QuizFinishStep(s: AppState, score: nat, missed: seq<LatinWord>): (r: AppState)
    ensures r.showResult && r.finalScore == score
    ensures r == s.(finalScore := score, showResult := true, missed := r.missed)
    ensures forall k :: HasKey(missed, k) ==> HasKey(r.missed, k)
    ensures !s.isReviewSession ==> |s.missed| <= |r.missed| && r.missed[..|s.missed|] == s.missed
    ensures UniqueKeys(s.missed) ==> UniqueKeys(r.missed)
  {
    var ledger := QuizFinishLedger(s.missed, s.words, missed, s.isReviewSession);
    s.(finalScore := score, missed := ledger, showResult := true)
  }

  /** `startPersistentReview`: nothing to do on an empty ledger; otherwise a review session over
      a copy of the ledger, at its first card, on the flashcards screen when coming from explore. */
  function ReviewStep(s: AppState): (r: AppState)
    ensures s.missed == [] ==> r == s
    ensures s.missed != [] ==>
      r.words == s.missed && r.isReviewSession && r.currentIndex == 0 && r.knownCount == 0 && !r.showResult
    ensures r.missed == s.missed && r.finalScore == s.finalScore
    ensures IndexOk(s) ==> IndexOk(r)
    ensures r.mode == if s.missed != [] && s.mode == ExploreMode then FlashcardsMode else s.mode
  {
    if |s.missed| == 0 then s
    else s.(words := s.missed, knownCount := 0, currentIndex := 0, isReviewSession := true,
            showResult := false, mode := if s.mode == ExploreMode then FlashcardsMode else s.mode)
  }

  /** A run of swipes, one per card, from the current card on. */
  function SwipeRun(s: AppState, dirs: seq<Direction>): AppState
    requires s.currentIndex + |dirs| <= |s.words|
    decreases |dirs|
  {
    if dirs == [] then s else SwipeRun(SwipeStep(s, dirs[0]), dirs[1..])
  }

  /** Swiping the cards from the cursor on: the word list and review flag stay, the tally grows by
      the number of left swipes, and the result screen appears exactly when the last card has
      been swiped, showing the final tally. */
  lemma {:induction false} SwipeSession(s: AppState, dirs: seq<Direction>)
    requires s.currentIndex + |dirs| <= |s.words|
    ensures SwipeRun(s, dirs).words == s.words
    ensures SwipeRun(s, dirs).isReviewSession == s.isReviewSession
    ensures SwipeRun(s, dirs).knownCount == s.knownCount + CountKnown(Verdicts(dirs))
    ensures s.currentIndex + |dirs| < |s.words| ==>
      SwipeRun(s, dirs).currentIndex == s.currentIndex + |dirs| &&
      SwipeRun(s, dirs).showResult == s.showResult && SwipeRun(s, dirs).finalScore == s.finalScore
    ensures s.currentIndex + |dirs| == |s.words| && dirs != [] ==>
      SwipeRun(s, dirs).showResult && SwipeRun(s, dirs).finalScore == SwipeRun(s, dirs).knownCount
    decreases |dirs|
  {
    if dirs != [] {
      var t := SwipeStep(s, dirs[0]);
      SwipeStepSpec(s, dirs[0]);
      assert Verdicts(dirs)[0] == VerdictOf(dirs[0]) && Verdicts(dirs)[1..] == Verdicts(dirs[1..]);
      SwipeSession(t, dirs[1..]);
    }
  }

  /** Swiping the cards from the cursor on changes the ledger as the per-word rule applied to the
      swiped cards in order does. */
  lemma SwipeSessionLedger(s: AppState, dirs: seq<Direction>)
    requires s.currentIndex + |dirs| <= |s.words|
    ensures SwipeRun(s, dirs).missed ==
      JudgeAll(s.missed, s.words[s.currentIndex..s.currentIndex + |dirs|], Verdicts(dirs), s.isReviewSession)
  {
    SwipeCardsLedger(s, dirs, s.words[s.currentIndex..s.currentIndex + |dirs|]);
  }

  /** The same, by induction on the swipes, with the swiped cards named `cards`. */
  lemma {:induction false} SwipeCardsLedger(s: AppState, dirs: seq<Direction>, cards: seq<LatinWord>)
    requires s.currentIndex + |dirs| <= |s.words| && cards == s.words[s.currentIndex..s.currentIndex + |dirs|]
    ensures SwipeRun(s, dirs).missed == JudgeAll(s.missed, cards, Verdicts(dirs), s.isReviewSession)
    decreases |dirs|
  {
    if dirs != [] {
      var t := SwipeStep(s, dirs[0]);
      var vs, review := Verdicts(dirs), s.isReviewSession;
      var next := Judge(s.missed, cards[0], vs[0], review);
      assert t.missed == next && t.words == s.words && t.isReviewSession == review by {
        SwipeStepLedger(s, dirs[0]);
        VerdictsUncons(dirs);
      }
      assert cards[1..] == t.words[t.currentIndex..t.currentIndex + |dirs[1..]|] by {
        CardsUncons(s.words, s.currentIndex, t.currentIndex, |dirs|);
      }
      VerdictsUncons(dirs);
      SwipeCardsLedger(t, dirs[1..], cards[1..]);
      JudgeAllUncons(s.missed, cards, vs, review);
    }
  }

  lemma VerdictsUncons(dirs: seq<Direction>)
    requires dirs != []
    ensures Verdicts(dirs)[0] == VerdictOf(dirs[0]) && Verdicts(dirs)[1..] == Verdicts(dirs[1..])
  {
  }

  /** What one swipe does to the ledger and its review flag. */
  lemma SwipeStepLedger(s: AppState, d: Direction)
    requires s.currentIndex < |s.words|
    ensures SwipeStep(s, d).missed == Judge(s.missed, s.words[s.currentIndex], VerdictOf(d), s.isReviewSession)
    ensures SwipeStep(s, d).isReviewSession == s.isReviewSession
  {
  }

  /** The cards from `ci` on split into the card at `ci` and the cards from the next cursor on. */
  lemma CardsUncons(words: seq<LatinWord>, ci: nat, next: nat, n: nat)
    requires 0 < n && ci + n <= |words| && (n > 1 ==> next == ci + 1) && next + n - 1 <= |words|
    ensures words[ci..ci + n][0] == words[ci]
    ensures words[ci..ci + n][1..] == words[next..next + n - 1]
  {
    if n == 1 {
      assert words[ci..ci + n][1..] == [];
    }
  }

  lemma JudgeAllUncons(ledger: seq<LatinWord>, ws: seq<LatinWord>, vs: seq<Verdict>, isReview: bool)
    requires |vs| == |ws| && ws != []
    ensures JudgeAll(ledger, ws, vs, isReview) ==
            JudgeAll(Judge(ledger, ws[0], vs[0], isReview), ws[1..], vs[1..], isReview)
  {
  }

  /** A flashcard review of a ledger without repeated keys, swiping every card once: the review
      lists the ledger as it was, ends on the result screen with the number of left swipes as its
      score, and leaves in the ledger exactly the cards swiped right, in their old order. */
  lemma FlashcardReview(s: AppState, dirs: seq<Direction>)
    requires s.missed != [] && UniqueKeys(s.missed) && |dirs| == |s.missed|
    ensures SwipeRun(ReviewStep(s), dirs).words == s.missed
    ensures SwipeRun(ReviewStep(s), dirs).showResult
    ensures SwipeRun(ReviewStep(s), dirs).finalScore == CountKnown(Verdicts(dirs))
    ensures SwipeRun(ReviewStep(s), dirs).missed == MissedOf(s.missed, Verdicts(dirs))
  {
    var t := ReviewStep(s);
    SwipeSession(t, dirs);
    SwipeSessionLedger(t, dirs);
    assert t.words[0..|dirs|] == s.missed;
    ReviewConverges(s.missed, Verdicts(dirs));
  }

  /** A quiz review of a ledger without repeated keys, where the quiz reports the words it judged
      missed: the score is recorded and the ledger keeps exactly the missed words, in their old
      order. */
  lemma QuizReview(s: AppState, vs: seq<Verdict>)
    requires s.missed != [] && UniqueKeys(s.missed) && |vs| == |s.missed|
    ensures QuizFinishStep(ReviewStep(s), CountKnown(vs), MissedOf(s.missed, vs)).finalScore == CountKnown(vs)
    ensures QuizFinishStep(ReviewStep(s), CountKnown(vs), MissedOf(s.missed, vs)).missed == MissedOf(s.missed, vs)
  {
    QuizBatchIsPerWord(s.missed, s.missed, vs, true);
    ReviewConverges(s.missed, vs);
  }

  /** A review started from the quiz screen, as the app is written: the mounted quiz only receives
      the new words (see `QuizScorer.Quiz.ReceiveWords`) and keeps its state. A lesson quiz on
      `[l0, l1]` that got `l0` wrong and moved on sits at question 1; after the review of the
      ledger `[r0, r1]` starts, it asks only `r1`, and finishing reports `l0` as the one miss.
      The ledger then ends as `[l0]`: `r0` was never asked and is still removed, and `l0`, no word
      of the review, is added. */
  lemma StaleQuizReview(s: AppState, l0: LatinWord, l1: LatinWord, r0: LatinWord, r1: LatinWord, wrong: string)
    requires s.mode == QuizMode && s.words == [l0, l1] && !s.isReviewSession && s.missed == [r0, r1]
    requires l0.word != r0.word && l0.word != r1.word && r0.word != r1.word && wrong != l0.translation
    ensures ReviewStep(s).mode == QuizMode && ReviewStep(s).words == [r0, r1]
    ensures
      var q1 := QuizScorer.AnswerStep(s.words, QuizScorer.Start(), wrong);
      var q2 := QuizScorer.NextStep(s.words, q1).0;
      var q3 := QuizScorer.AnswerStep(s.missed, q2, r1.translation);
      var done := QuizScorer.NextStep(s.missed, q3).1;
      QuizScorer.NextStep(s.words, q1).1 == QuizScorer.Continue && q2.currentIdx == 1 &&
      done == QuizScorer.Finish(1, [l0]) &&
      QuizFinishStep(ReviewStep(s), done.score, done.missed).missed == [l0]
  {
    var ledger := [r0, r1];
    assert !HasKey(ledger, l0.word) by {
      HasKeyUncons(ledger, l0.word);
      assert ledger[1..] == [r1];
      HasKeySingleton(r1, l0.word);
    }
    assert AddAll(ledger, [l0]) == [r0, r1, l0] by {
      assert [l0][1..] == [];
      assert AddToMissed(ledger, l0) == [r0, r1, l0];
    }
    assert CorrectlyAnswered(ledger, [l0]) == ledger by {
      assert Find([l0], r0.word).None? && Find([l0], r1.word).None? by {
        HasKeySingleton(l0, r0.word);
        HasKeySingleton(l0, r1.word);
      }
      assert ledger[1..] == [r1] && [r1][1..] == [];
      assert CorrectlyAnswered([r1], [l0]) == [r1] + CorrectlyAnswered([], [l0]);
      assert CorrectlyAnswered(ledger, [l0]) == [r0] + CorrectlyAnswered([r1], [l0]);
    }
    assert RemoveAll([r0, r1, l0], ledger) == [l0] by {
      assert [r0, r1, l0][1..] == [r1, l0] && [r1, l0][1..] == [l0] && [l0][1..] == [];
      assert RemoveFromMissed([l0], r0) == [l0] && RemoveFromMissed([l0], r1) == [l0];
      assert RemoveFromMissed([r1, l0], r0) == [r1, l0];
      assert RemoveFromMissed([r0, r1, l0], r0) == [r1, l0];
      assert RemoveFromMissed([r1, l0], r1) == [l0];
      assert ledger[1..] == [r1] && [r1][1..] == [];
      assert RemoveAll([l0], []) == [l0];
      assert RemoveAll([l0], [r1]) == RemoveAll(RemoveFromMissed([l0], r1), []);
      assert RemoveAll([r1, l0], [r1]) == RemoveAll([l0], []);
      assert RemoveAll([r0, r1, l0], ledger) == RemoveAll([r1, l0], [r1]);
    }
  }

  /** The same review with a quiz that fits the review's words, as a fresh mount gives
      (`QuizScorer.Quiz.Remount`): once every card is answered, finishing reports the right
      answers and the misses of the review, and the ledger keeps exactly the missed cards, in
      their old order. */
  lemma RemountedQuizReview(s: AppState, q: QuizScorer.QuizState, vs: seq<Verdict>)
    requires s.missed != [] && UniqueKeys(s.missed)
    requires QuizScorer.Tracks(s.missed, q, vs) && q.isAnswered && q.currentIdx + 1 >= |s.missed|
    ensures |vs| == |s.missed|
    ensures QuizScorer.NextStep(s.missed, q).1 == QuizScorer.Finish(CountKnown(vs), MissedOf(s.missed, vs))
    ensures QuizFinishStep(ReviewStep(s), q.score, q.missedInQuiz).missed == MissedOf(s.missed, vs)
  {
    QuizScorer.NextFinishes(s.missed, q, vs);
    QuizReview(s, vs);
  }

  /** The component itself: its state variables as fields, its handlers as methods. */
  class App {
    var currentCategory: string
    var mode: Mode
    var words: seq<LatinWord>
    var currentIndex: nat
    var showResult: bool
    var finalScore: nat
    var knownCount: nat
    var persistentMissedWords: seq<LatinWord>
    var isReviewSession: bool

    /** The fields as one value. */
    function State(): AppState
      reads this
    {
      AppState(currentCategory, mode, words, currentIndex, showResult, finalScore, knownCount,
               persistentMissedWords, isReviewSession)
    }

    ghost predicate Valid()
      reads this
    {
      IndexOk(State())
    }

    /** Mount, then the start-up effect that reads the ledger from storage; a missing or
        malformed entry leaves it empty. */
    constructor (stored: Stored)
      ensures Valid() && State() == Initial(stored)
    {
      currentCategory := FirstLesson;
      mode := ExploreMode;
      words := [];
      currentIndex := 0;
      showResult := false;
      finalScore := 0;
      knownCount := 0;
      persistentMissedWords := [];
      isReviewSession := false;
      match stored {
        case Parsed(entries) => persistentMissedWords := entries;
        case Absent =>
        case Malformed =>
      }
    }

    /** The state updater of `addToMissed`. */
    method AddMissed(w: LatinWord)
      requires Valid()
      modifies this`persistentMissedWords
      ensures Valid()
      ensures persistentMissedWords == AddToMissed(old(persistentMissedWords), w)
    {
      var found := Find(persistentMissedWords, w.word);
      if found.None? {
        persistentMissedWords := persistentMissedWords + [w];
      }
    }

    /** The state updater of `removeFromMissed`. */
    method RemoveMissed(w: LatinWord)
      requires Valid()
      modifies this`persistentMissedWords
      ensures Valid()
      ensures persistentMissedWords == RemoveFromMissed(old(persistentMissedWords), w)
    {
      persistentMissedWords := RemoveFromMissed(persistentMissedWords, w);
    }

    method LoadVocab(data: seq<LatinWord>)
      requires Valid()
      modifies this
      ensures Valid()
      ensures State() == LoadStep(old(State()), data)
    {
      words := data;
      currentIndex := 0;
      knownCount := 0;
      isReviewSession := false;
      showResult := false;
    }

    method ResetStudy(data: seq<LatinWord>)
      requires Valid()
      modifies this
      ensures Valid()
      ensures State() == ResetStep(old(State()), data)
    {
      showResult := false;
      mode := ExploreMode;
      currentIndex := 0;
      knownCount := 0;
      isReviewSession := false;
      LoadVocab(data);
    }

    method SelectMode(m: Mode)
      requires Valid()
      modifies this
      ensures Valid()
      ensures State() == ModeStep(old(State()), m)
    {
      mode := m;
      showResult := false;
      currentIndex := 0;
      knownCount := 0;
    }

    /** A lesson button; `data` is what the fetch for `cat` delivers when the lesson changes. */
    method SelectCategory(cat: string, data: seq<LatinWord>)
      requires Valid()
      modifies this
      ensures Valid()
      ensures State() == CategoryStep(old(State()), cat, data)
    {
      var changed := cat != currentCategory;
      isReviewSession := false;
      currentCategory := cat;
      if changed {
        LoadVocab(data);
      }
    }

    method HandleNext()
      requires Valid()
      modifies this
      ensures Valid()
      ensures State() == NextStep(old(State()))
    {
      if currentIndex < |words| - 1 {
        currentIndex := currentIndex + 1;
      } else {
        finalScore := knownCount;
        showResult := true;
      }
    }

    method HandlePrev()
      requires Valid()
      modifies this
      ensures Valid()
      ensures State() == PrevStep(old(State()))
    {
      if currentIndex > 0 {
        currentIndex := currentIndex - 1;
      }
    }

    /** The flashcard screen only offers a swipe while a current card exists. */
    method HandleSwipe(direction: Direction)
      requires Valid() && words != []
      modifies this
      ensures Valid()
      ensures State() == SwipeStep(old(State()), direction)
    {
      var currentWord := words[currentIndex];
      var before := knownCount;
      if direction == Left {
        knownCount := knownCount + 1;
        if isReviewSession {
          RemoveMissed(currentWord);
        }
      } else {
        AddMissed(currentWord);
      }
      if currentIndex < |words| - 1 {
        currentIndex := currentIndex + 1;
      } else {
        finalScore := if direction == Left then before + 1 else before;
        showResult := true;
      }
    }

    /** `missed.forEach(addToMissed)`. */
    method AddEach(missed: seq<LatinWord>)
      requires Valid()
      modifies this`persistentMissedWords
      ensures Valid()
      ensures persistentMissedWords == AddAll(old(persistentMissedWords), missed)
    {
      var i := 0;
      while i < |missed|
        invariant 0 <= i <= |missed| && Valid()
        invariant AddAll(persistentMissedWords, missed[i..]) == AddAll(old(persistentMissedWords), missed)
      {
        assert missed[i..][1..] == missed[i + 1..];
        AddMissed(missed[i]);
        i := i + 1;
      }
      assert missed[|missed|..] == [];
    }

    /** `correctlyAnswered.forEach(removeFromMissed)`. */
    method RemoveEach(ws: seq<LatinWord>)
      requires Valid()
      modifies this`persistentMissedWords
      ensures Valid()
      ensures persistentMissedWords == RemoveAll(old(persistentMissedWords), ws)
    {
      var j := 0;
      while j < |ws|
        invariant 0 <= j <= |ws| && Valid()
        invariant RemoveAll(persistentMissedWords, ws[j..]) == RemoveAll(old(persistentMissedWords), ws)
      {
        assert ws[j..][1..] == ws[j + 1..];
        RemoveMissed(ws[j]);
        j := j + 1;
      }
      assert ws[|ws|..] == [];
    }

    method HandleQuizFinish(score: nat, missed: seq<LatinWord>)
      requires Valid()
      modifies this
      ensures Valid()
      ensures State() == QuizFinishStep(old(State()), score, missed)
    {
      finalScore := score;
      AddEach(missed);
      if isReviewSession {
        var correctlyAnswered := CorrectlyAnswered(words, missed);
        RemoveEach(correctlyAnswered);
      }
      showResult := true;
    }

    method StartPersistentReview()
      requires Valid()
      modifies this
      ensures Valid()
      ensures State() == ReviewStep(old(State()))
    {
      if |persistentMissedWords| == 0 {
        return;
      }
      words := persistentMissedWords;
      knownCount := 0;
      currentIndex := 0;
      isReviewSession := true;
      showResult := false;
      if mode == ExploreMode {
        mode := FlashcardsMode;
      }
    }
  }
}
