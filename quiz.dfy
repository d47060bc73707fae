/** The multiple-choice quiz (components/Quiz.tsx): one question per word of the session, in
    order; an answer is scored once; the streak of consecutive right answers and its best value
    are kept; the wrongly answered words are collected and handed to the app when the last
    question is left. The transitions are functions on `QuizState`; class `Quiz` carries them
    out on its fields and keeps, as a ghost history, the verdict of every question answered. */
module QuizScorer {
  import opened Words
  import opened Ledger
  import opened Review

  datatype QuizState = QuizState(
    currentIdx: nat,
    score: nat,
    streak: nat,
    maxStreak: nat,
    selectedAnswer: Option<string>,
    isAnswered: bool,
    missedInQuiz: seq<LatinWord>)

  /** What `nextQuestion` does: move on, or call `onFinish(score, missedInQuiz)`. */
  datatype Outcome = Continue | Finish(score: nat, missed: seq<LatinWord>)

  /** The state when the quiz is mounted: at the first question, with nothing answered, scored
      or missed and no streak. */
  function Start(): (r: QuizState)
    ensures r.currentIdx == 0 && !r.isAnswered && r.selectedAnswer == None
    ensures r.score == 0 && r.streak == 0 && r.maxStreak == 0 && r.missedInQuiz == []
  {
    QuizState(0, 0, 0, 0, None, false, [])
  }

  /** How an answer to the current question is judged. */
  function VerdictFor(words: seq<LatinWord>, q: QuizState, answer: string): Verdict
    requires q.currentIdx < |words|
  {
    if answer == words[q.currentIdx].translation then Known else Missed
  }

  /** `handleAnswer`. */
  function AnswerStep(words: seq<LatinWord>, q: QuizState, answer: string): (r: QuizState)
    requires q.currentIdx < |words|
    ensures q.isAnswered ==> r == q
    ensures r.isAnswered && r.currentIdx == q.currentIdx
  {
    if q.isAnswered then q
    else
      var answered := q.(selectedAnswer := Some(answer), isAnswered := true);
      if answer == words[q.currentIdx].translation then
        var newStreak := q.streak + 1;
        answered.(score := q.score + 1, streak := newStreak,
                  maxStreak := if newStreak > q.maxStreak then newStreak else q.maxStreak)
      else
        answered.(streak := 0, missedInQuiz := q.missedInQuiz + [words[q.currentIdx]])
  }

  /** `nextQuestion`: open the next question while one is left; after the last one, report the
      score and the missed words and stay. */
  function NextStep(words: seq<LatinWord>, q: QuizState): (r: (QuizState, Outcome))
    ensures r.1.Finish? <==> q.currentIdx + 1 >= |words|
    ensures r.1.Continue? ==>
      r.0 == q.(currentIdx := q.currentIdx + 1, selectedAnswer := None, isAnswered := false)
    ensures r.1.Finish? ==> r.0 == q && r.1 == Finish(q.score, q.missedInQuiz)
  {
    if q.currentIdx + 1 < |words| then
      (q.(currentIdx := q.currentIdx + 1, selectedAnswer := None, isAnswered := false), Continue)
    else
      (q, Finish(q.score, q.missedInQuiz))
  }

  /** The `n` verdicts from position `i` on are all `Known`. */
  ghost predicate RunAt(vs: seq<Verdict>, i: nat, n: nat) {
    i + n <= |vs| && forall k :: i <= k < i + n ==> vs[k] == Known
  }

  /** `n` is the number of `Known` verdicts at the end of `vs` since the last `Missed`. */
  ghost predicate IsCurrentRun(vs: seq<Verdict>, n: nat) {
    n <= |vs| && RunAt(vs, |vs| - n, n) && (n < |vs| ==> vs[|vs| - n - 1] == Missed)
  }

  /** `m` is the length of the longest block of consecutive `Known` verdicts in `vs`. */
  ghost predicate IsLongestRun(vs: seq<Verdict>, m: nat) {
    (exists i: nat :: RunAt(vs, i, m)) && forall i: nat, n: nat :: RunAt(vs, i, n) ==> n <= m
  }

  /** The quiz state agrees with the verdicts `vs` of the questions answered so far: one per
      question before the cursor, plus the current one once it is answered. The score counts the
      right answers, `missedInQuiz` lists the wrongly answered words in order, the streak is the
      current run of right answers and `maxStreak` the longest one. */
  ghost predicate Tracks(words: seq<LatinWord>, q: QuizState, vs: seq<Verdict>) {
    q.currentIdx < |words| &&
    |vs| == q.currentIdx + (if q.isAnswered then 1 else 0) &&
    (q.isAnswered <==> q.selectedAnswer.Some?) &&
    q.score == CountKnown(vs) &&
    q.missedInQuiz == MissedOf(words[..|vs|], vs) &&
    IsCurrentRun(vs, q.streak) &&
    IsLongestRun(vs, q.maxStreak)
  }

  lemma {:induction false} CountKnownConcat(a: seq<Verdict>, b: seq<Verdict>)
    ensures CountKnown(a + b) == CountKnown(a) + CountKnown(b)
    decreases |a|
  {
    if a == [] {
      assert a + b == b;
    } else {
      assert (a + b)[1..] == a[1..] + b;
      CountKnownConcat(a[1..], b);
    }
  }

  lemma {:induction false} MissedOfAppend(ws: seq<LatinWord>, vs: seq<Verdict>, w: LatinWord, v: Verdict)
    requires |vs| == |ws|
    ensures MissedOf(ws + [w], vs + [v]) == MissedOf(ws, vs) + (if v == Missed then [w] else [])
    decreases |ws|
  {
    if ws == [] {
      assert ws + [w] == [w] && vs + [v] == [v];
      assert [w][1..] == [] && [v][1..] == [];
    } else {
      assert (ws + [w])[1..] == ws[1..] + [w] && (vs + [v])[1..] == vs[1..] + [v];
      MissedOfAppend(ws[1..], vs[1..], w, v);
    }
  }

  /** A right answer extends the current run by one, and the longest run becomes the larger of
      the old longest and the new current run. */
  lemma RunsAfterKnown(vs: seq<Verdict>, n: nat, m: nat)
    requires IsCurrentRun(vs, n) && IsLongestRun(vs, m)
    ensures IsCurrentRun(vs + [Known], n + 1)
    ensures IsLongestRun(vs + [Known], if n + 1 > m then n + 1 else m)
  {
    var ws := vs + [Known];
    var best := if n + 1 > m then n + 1 else m;
    assert RunAt(ws, |vs| - n, n + 1) by {
      forall k | |vs| - n <= k < |vs| + 1 ensures ws[k] == Known {
        if k < |vs| { assert ws[k] == vs[k]; }
      }
    }
    var i0: nat :| RunAt(vs, i0, m);
    assert RunAt(ws, i0, m) by {
      forall k | i0 <= k < i0 + m ensures ws[k] == Known { assert ws[k] == vs[k]; }
    }
    if n + 1 > m { assert RunAt(ws, |vs| - n, best); } else { assert RunAt(ws, i0, best); }
    forall i: nat, len: nat | RunAt(ws, i, len) ensures len <= best {
      if i + len <= |vs| {
        assert RunAt(vs, i, len) by {
          forall k | i <= k < i + len ensures vs[k] == Known { assert ws[k] == vs[k]; }
        }
      } else {
        // the run reaches the new verdict, so it starts after the last miss of `vs`
        assert forall k :: i <= k < |vs| ==> vs[k] == Known by {
          forall k | i <= k < |vs| ensures vs[k] == Known { assert ws[k] == vs[k]; }
        }
        assert n < |vs| ==> i > |vs| - n - 1;
      }
    }
  }

  /** A wrong answer ends the current run; the longest run stays. */
  lemma RunsAfterMissed(vs: seq<Verdict>, m: nat)
    requires IsLongestRun(vs, m)
    ensures IsCurrentRun(vs + [Missed], 0)
    ensures IsLongestRun(vs + [Missed], m)
  {
    var ws := vs + [Missed];
    assert RunAt(ws, |ws|, 0);
    var i0: nat :| RunAt(vs, i0, m);
    assert RunAt(ws, i0, m) by {
      forall k | i0 <= k < i0 + m ensures ws[k] == Known { assert ws[k] == vs[k]; }
    }
    forall i: nat, len: nat | RunAt(ws, i, len) ensures len <= m {
      assert ws[|vs|] == Missed;
      if len > 0 {
        // no run contains the new miss
        assert !(i <= |vs| < i + len);
        assert RunAt(vs, i, len) by {
          forall k | i <= k < i + len ensures vs[k] == Known { assert ws[k] == vs[k]; }
        }
      }
    }
  }

  /** The freshly mounted quiz has answered nothing. */
  lemma StartTracks(words: seq<LatinWord>)
    requires |words| > 0
    ensures Tracks(words, Start(), [])
  {
    assert RunAt([], 0, 0);
    assert words[..0] == [];
  }

  /** Answering the open question records its verdict: the state then agrees with the history
      extended by that verdict. */
  lemma AnswerTracks(words: seq<LatinWord>, q: QuizState, vs: seq<Verdict>, answer: string)
    requires Tracks(words, q, vs) && !q.isAnswered
    ensures Tracks(words, AnswerStep(words, q, answer), vs + [VerdictFor(words, q, answer)])
  {
    var v := VerdictFor(words, q, answer);
    var w := words[q.currentIdx];
    CountKnownConcat(vs, [v]);
    assert [v][1..] == [];
    assert words[..|vs| + 1] == words[..|vs|] + [w];
    MissedOfAppend(words[..|vs|], vs, w, v);
    if v == Known {
      RunsAfterKnown(vs, q.streak, q.maxStreak);
    } else {
      RunsAfterMissed(vs, q.maxStreak);
    }
  }

  /** Moving on from an answered question that is not the last: the next question is open and the
      history is unchanged. */
  lemma NextTracks(words: seq<LatinWord>, q: QuizState, vs: seq<Verdict>)
    requires Tracks(words, q, vs) && q.isAnswered && q.currentIdx + 1 < |words|
    ensures NextStep(words, q).1 == Continue
    ensures Tracks(words, NextStep(words, q).0, vs)
    ensures NextStep(words, q).0.currentIdx == q.currentIdx + 1 && !NextStep(words, q).0.isAnswered
  {
  }

  /** Leaving the last answered question finishes the quiz with the number of right answers and
      the wrongly answered words in session order, every word having been asked once. */
  lemma NextFinishes(words: seq<LatinWord>, q: QuizState, vs: seq<Verdict>)
    requires Tracks(words, q, vs) && q.isAnswered && q.currentIdx + 1 >= |words|
    ensures |vs| == |words|
    ensures NextStep(words, q) == (q, Finish(CountKnown(vs), MissedOf(words, vs)))
  {
    assert words[..|vs|] == words;
  }

  /** After a block of `n` right answers the score is at least `n`. */
  lemma {:induction false} RunCounted(vs: seq<Verdict>, i: nat, n: nat)
    requires RunAt(vs, i, n)
    ensures n <= CountKnown(vs)
  {
    var block := vs[i..i + n];
    assert vs == vs[..i] + block + vs[i + n..];
    CountKnownConcat(vs[..i] + block, vs[i + n..]);
    CountKnownConcat(vs[..i], block);
    AllKnownCounted(block);
  }

  lemma {:induction false} AllKnownCounted(vs: seq<Verdict>)
    requires forall k :: 0 <= k < |vs| ==> vs[k] == Known
    ensures CountKnown(vs) == |vs|
    decreases |vs|
  {
    if vs != [] {
      assert forall k :: 0 <= k < |vs| - 1 ==> vs[1..][k] == vs[k + 1];
      AllKnownCounted(vs[1..]);
    }
  }

  /** The score and the missed words account for every answered question; the score never
      exceeds the number of words; the streak never exceeds the best streak, which never exceeds
      the score. */
  lemma TracksBounds(words: seq<LatinWord>, q: QuizState, vs: seq<Verdict>)
    requires Tracks(words, q, vs)
    ensures q.score + |q.missedInQuiz| == |vs|
    ensures q.score <= |words|
    ensures q.streak <= q.maxStreak <= q.score
  {
    VerdictsSplit(words[..|vs|], vs);
    var i0: nat :| RunAt(vs, i0, q.maxStreak);
    RunCounted(vs, i0, q.maxStreak);
  }

  /** `s` without its element at `k`. */
  function Without<T>(s: seq<T>, k: nat): (r: seq<T>)
    requires k < |s|
    ensures |r| == |s| - 1
  {
    s[..k] + s[k + 1..]
  }

  /** `arr.sort(() => 0.5 - Math.random())`: an arbitrary reordering, given by the choices `picks`
      (each choice is the position of the next element among those left; a missing or
      out-of-range choice takes the first). */
  function Shuffle<T>(s: seq<T>, picks: seq<nat>): (r: seq<T>)
    ensures |r| == |s|
    decreases |s|
  {
    if s == [] then []
    else
      var k := if picks == [] || picks[0] >= |s| then 0 else picks[0];
      [s[k]] + Shuffle(Without(s, k), if picks == [] then [] else picks[1..])
  }

  /** Taking out the element at `k` takes out one copy of it. */
  lemma MultisetWithout<T>(s: seq<T>, k: nat)
    requires k < |s|
    ensures multiset(s) == multiset{s[k]} + multiset(Without(s, k))
  {
    calc {
      multiset(s);
      { assert s == s[..k] + ([s[k]] + s[k + 1..]); }
      multiset(s[..k]) + (multiset{s[k]} + multiset(s[k + 1..]));
      multiset{s[k]} + multiset(Without(s, k));
    }
  }

  /** A shuffle is a permutation: it keeps every element with its multiplicity. */
  lemma {:induction false} ShufflePermutes<T>(s: seq<T>, picks: seq<nat>)
    ensures multiset(Shuffle(s, picks)) == multiset(s)
    ensures |Shuffle(s, picks)| == |s|
    decreases |s|
  {
    if s != [] {
      var k := if picks == [] || picks[0] >= |s| then 0 else picks[0];
      var tail := if picks == [] then [] else picks[1..];
      MultisetWithout(s, k);
      ShufflePermutes(Without(s, k), tail);
      assert Shuffle(s, picks) == [s[k]] + Shuffle(Without(s, k), tail);
    }
  }

  /** Lists with the same multiset have the same length, and the first element of one occurs in
      the other, at some position `k`; the rests then have the same multiset too. */
  lemma SameElements<T>(s: seq<T>, r: seq<T>)
    requires multiset(r) == multiset(s)
    ensures |r| == |s|
    ensures r != [] ==> exists k :: 0 <= k < |s| && s[k] == r[0]
  {
    assert |r| == |multiset(r)| && |s| == |multiset(s)|;
    if r != [] {
      assert r[0] in multiset(r);
    }
  }

  /** Removing equal elements from lists with the same multiset leaves the same multiset. */
  lemma RestsAgree<T>(s: seq<T>, r: seq<T>, k: nat)
    requires multiset(r) == multiset(s) && k < |s| && r != [] && s[k] == r[0]
    ensures multiset(Without(r, 0)) == multiset(Without(s, k))
  {
    MultisetWithout(s, k);
    MultisetWithout(r, 0);
    forall y ensures multiset(Without(r, 0))[y] == multiset(Without(s, k))[y] {
      assert multiset(r)[y] == multiset{r[0]}[y] + multiset(Without(r, 0))[y];
      assert multiset(s)[y] == multiset{r[0]}[y] + multiset(Without(s, k))[y];
    }
  }

  /** Choosing `k` first, then choices that reorder the rest into the tail of `r`, gives `r`. */
  lemma ShuffleCons<T>(s: seq<T>, r: seq<T>, k: nat, picks: seq<nat>)
    requires k < |s| && r != [] && s[k] == r[0] && Shuffle(Without(s, k), picks) == Without(r, 0)
    ensures Shuffle(s, [k] + picks) == r
  {
    assert ([k] + picks)[0] == k && ([k] + picks)[1..] == picks;
    assert r == [r[0]] + Without(r, 0);
  }

  /** Every reordering `r` of `s` is some shuffle of it: `picks` are the choices that produce it. */
  lemma {:induction false} PicksFor<T>(s: seq<T>, r: seq<T>) returns (picks: seq<nat>)
    requires multiset(r) == multiset(s)
    ensures Shuffle(s, picks) == r
    decreases |s|
  {
    SameElements(s, r);
    if s == [] {
      picks := [];
    } else {
      var k :| 0 <= k < |s| && s[k] == r[0];
      RestsAgree(s, r, k);
      var tailPicks := PicksFor(Without(s, k), Without(r, 0));
      ShuffleCons(s, r, k, tailPicks);
      picks := [k] + tailPicks;
    }
  }

  /** The shuffles of `s` are exactly its reorderings. */
  lemma ShuffleReachesAll<T>(s: seq<T>, r: seq<T>)
    ensures (exists picks :: Shuffle(s, picks) == r) <==> multiset(r) == multiset(s)
  {
    if multiset(r) == multiset(s) {
      var picks := PicksFor(s, r);
    }
    if exists picks :: Shuffle(s, picks) == r {
      var picks :| Shuffle(s, picks) == r;
      ShufflePermutes(s, picks);
    }
  }

  function Min(a: nat, b: nat): nat {
    if a < b then a else b
  }

  /** The translations of a list of words, in order. */
  function Translations(ws: seq<LatinWord>): (r: seq<string>)
    ensures |r| == |ws| && forall i :: 0 <= i < |ws| ==> r[i] == ws[i].translation
  {
    seq(|ws|, i requires 0 <= i < |ws| => ws[i].translation)
  }

  /** Up to three other words of the session, drawn without repeats from a shuffle of the words
      whose key differs from the current word's (the filter is the one `removeFromMissed` uses). */
  function Distractors(words: seq<LatinWord>, current: LatinWord, picks: seq<nat>): (r: seq<LatinWord>)
    ensures |r| == Min(3, |RemoveFromMissed(words, current)|)
    ensures multiset(r) <= multiset(RemoveFromMissed(words, current))
    ensures forall x :: x in r ==> x in words && x.word != current.word
  {
    var others := RemoveFromMissed(words, current);
    var shuffled := Shuffle(others, picks);
    var n := Min(3, |others|);
    ShufflePermutes(others, picks);
    assert shuffled == shuffled[..n] + shuffled[n..];
    RemoveKeepsOthers(words, current);
    assert forall x :: x in shuffled[..n] ==> x in others by {
      forall x | x in shuffled[..n] ensures x in others {
        assert x in multiset(shuffled[..n]);
        assert x in multiset(others);
      }
    }
    shuffled[..n]
  }

  /** The `options` memo for question `idx`: the distractors' translations and the right one,
      reshuffled. There is exactly one slot for the right translation; every other option is
      the translation of a word with another key; without a current word there are no options. */
  function Options(words: seq<LatinWord>, idx: nat, picks: seq<nat>, order: seq<nat>): (r: seq<string>)
    ensures idx >= |words| ==> r == []
    ensures idx < |words| ==>
      multiset(r) == multiset(Translations(Distractors(words, words[idx], picks))) + multiset{words[idx].translation}
    ensures idx < |words| ==> |r| == Min(3, |RemoveFromMissed(words, words[idx])|) + 1
    ensures idx < |words| ==> words[idx].translation in r
    ensures idx < |words| ==> forall x :: x in r ==>
      x == words[idx].translation ||
      exists k :: 0 <= k < |words| && words[k].word != words[idx].word && words[k].translation == x
  {
    if idx >= |words| then []
    else
      var current := words[idx];
      var ds := Distractors(words, current, picks);
      var pool := Translations(ds) + [current.translation];
      var r := Shuffle(pool, order);
      ShufflePermutes(pool, order);
      assert current.translation in r by {
        assert pool[|pool| - 1] == current.translation;
        assert current.translation in multiset(pool);
      }
      forall x | x in r
        ensures x == current.translation ||
          exists k :: 0 <= k < |words| && words[k].word != current.word && words[k].translation == x
      {
        assert x in multiset(pool);
        if x != current.translation {
          var i :| 0 <= i < |pool| && pool[i] == x;
          assert i < |ds|;
          assert ds[i] in ds;
          var k :| 0 <= k < |words| && words[k] == ds[i];
        }
      }
      r
  }

  /** When no other word shares the current word's translation, the right translation appears
      exactly once among the options; with unique keys there are `min(3, |words| - 1) + 1` of them. */
  lemma OptionsCount(words: seq<LatinWord>, idx: nat, picks: seq<nat>, order: seq<nat>)
    requires idx < |words|
    ensures (forall k :: 0 <= k < |words| && words[k].word != words[idx].word ==>
               words[k].translation != words[idx].translation) ==>
            multiset(Options(words, idx, picks, order))[words[idx].translation] == 1
    ensures UniqueKeys(words) ==> |Options(words, idx, picks, order)| == Min(3, |words| - 1) + 1
  {
    var current := words[idx];
    var ds := Distractors(words, current, picks);
    var ts := Translations(ds);
    if forall k :: 0 <= k < |words| && words[k].word != current.word ==> words[k].translation != current.translation {
      assert current.translation !in ts by {
        forall i | 0 <= i < |ts| ensures ts[i] != current.translation {
          assert ds[i] in ds;
          var k :| 0 <= k < |words| && words[k] == ds[i];
        }
      }
      assert multiset(ts)[current.translation] == 0;
    }
    if UniqueKeys(words) {
      RemoveFromUnique(words, idx, current);
    }
  }

  /** The quiz component: its `words` prop and state variables as fields, its two handlers as
      methods. */
  class Quiz {
    var words: seq<LatinWord>
    var currentIdx: nat
    var score: nat
    var streak: nat
    var maxStreak: nat
    var selectedAnswer: Option<string>
    var isAnswered: bool
    var missedInQuiz: seq<LatinWord>
    /** The verdict of every question answered so far. */
    ghost var verdicts: seq<Verdict>

    function State(): QuizState
      reads this
    {
      QuizState(currentIdx, score, streak, maxStreak, selectedAnswer, isAnswered, missedInQuiz)
    }

    ghost predicate Valid()
      reads this
    {
      Tracks(words, State(), verdicts)
    }

    /** The app mounts the quiz only on a non-empty word list. */
    constructor (words: seq<LatinWord>)
      requires |words| > 0
      ensures Valid() && this.words == words && State() == Start() && verdicts == []
    {
      this.words := words;
      currentIdx := 0;
      score := 0;
      streak := 0;
      maxStreak := 0;
      selectedAnswer := None;
      isAnswered := false;
      missedInQuiz := [];
      verdicts := [];
      StartTracks(words);
    }

    method HandleAnswer(answer: string)
      requires Valid()
      modifies this
      ensures words == old(words)
      ensures Valid() && State() == AnswerStep(words, old(State()), answer)
      ensures verdicts == if old(isAnswered) then old(verdicts) else old(verdicts) + [VerdictFor(words, old(State()), answer)]
      ensures score + |missedInQuiz| == |verdicts| && score <= |words| && streak <= maxStreak
    {
      if isAnswered {
        TracksBounds(words, State(), verdicts);
        return;
      }
      ghost var before := State();
      ghost var after := AnswerStep(words, before, answer);
      ghost var history := verdicts + [VerdictFor(words, before, answer)];
      AnswerTracks(words, before, verdicts, answer);
      TracksBounds(words, after, history);
      selectedAnswer := Some(answer);
      isAnswered := true;
      if answer == words[currentIdx].translation {
        var newStreak := streak + 1;
        score := score + 1;
        streak := newStreak;
        if newStreak > maxStreak {
          maxStreak := newStreak;
        }
      } else {
        streak := 0;
        missedInQuiz := missedInQuiz + [words[currentIdx]];
      }
      verdicts := history;
      assert State() == after;
    }

    /** The "next" button only appears once the current question is answered. */
    method NextQuestion() returns (outcome: Outcome)
      requires Valid() && isAnswered
      modifies this
      ensures words == old(words)
      ensures Valid() && (State(), outcome) == NextStep(words, old(State())) && verdicts == old(verdicts)
      ensures outcome.Finish? ==>
        |verdicts| == |words| && outcome == Finish(CountKnown(verdicts), MissedOf(words, verdicts))
    {
      if currentIdx + 1 < |words| {
        NextTracks(words, State(), verdicts);
        currentIdx := currentIdx + 1;
        selectedAnswer := None;
        isAnswered := false;
        outcome := Continue;
      } else {
        NextFinishes(words, State(), verdicts);
        outcome := Finish(score, missedInQuiz);
      }
    }

    /** A re-render with a new `words` prop. The app renders the quiz without a `key`, so React
        keeps the mounted component and all of its state: the cursor, the score, the streaks and
        the missed words of the old list stay, and the history no longer fits the new words. */
    method ReceiveWords(newWords: seq<LatinWord>)
      modifies this
      ensures words == newWords && State() == old(State()) && verdicts == old(verdicts)
    {
      words := newWords;
    }

    /** A new word list mounting a fresh quiz, as a `key` derived from the list would: the quiz
        starts over on the new words with nothing answered. */
    method Remount(newWords: seq<LatinWord>)
      requires |newWords| > 0
      modifies this
      ensures Valid() && words == newWords && State() == Start() && verdicts == []
    {
      words := newWords;
      currentIdx := 0;
      score := 0;
      streak := 0;
      maxStreak := 0;
      selectedAnswer := None;
      isAnswered := false;
      missedInQuiz := [];
      verdicts := [];
      StartTracks(newWords);
    }
  }
}
