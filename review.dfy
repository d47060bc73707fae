/** How a judgement on a word changes the missed-words ledger (App.tsx). A flashcard swipe
    applies the per-word rule `Judge` at once (`handleSwipe`); the quiz collects its missed
    words and applies them in one batch when it ends (`handleQuizFinish`). The lemmas here
    relate the two and say where a review session leaves the ledger. */
module Review {
  import opened Words
  import opened Ledger

  /** The learner's judgement on one word: a left swipe or a right quiz answer is `Known`,
      a right swipe or a wrong quiz answer is `Missed`. */
  datatype Verdict = Known | Missed

  /** The ledger change of one judgement (`handleSwipe`): a miss adds the word; a known word is
      removed, but only in a review session. */
  function Judge(ledger: seq<LatinWord>, w: LatinWord, v: Verdict, isReview: bool): (r: seq<LatinWord>)
    ensures v == Missed ==> HasKey(r, w.word) && |ledger| <= |r| && r[..|ledger|] == ledger
    ensures v == Known && isReview ==> !HasKey(r, w.word)
    ensures v == Known && !isReview ==> r == ledger
  {
    match v
    case Known => if isReview then RemoveFromMissed(ledger, w) else ledger
    case Missed => AddKeepsUnique(ledger, w); AddToMissed(ledger, w)
  }

  /** The per-word rule applied to each word of a session in order. */
  function JudgeAll(ledger: seq<LatinWord>, ws: seq<LatinWord>, vs: seq<Verdict>, isReview: bool): seq<LatinWord>
    requires |vs| == |ws|
    decreases |ws|
  {
    if ws == [] then ledger
    else JudgeAll(Judge(ledger, ws[0], vs[0], isReview), ws[1..], vs[1..], isReview)
  }

  /** The words judged `Missed`, in session order (what the quiz collects in `missedInQuiz`). */
  function MissedOf(ws: seq<LatinWord>, vs: seq<Verdict>): (r: seq<LatinWord>)
    requires |vs| == |ws|
    ensures |r| <= |ws| && forall x :: x in r ==> x in ws
    decreases |ws|
  {
    if ws == [] then [] else (if vs[0] == Missed then [ws[0]] else []) + MissedOf(ws[1..], vs[1..])
  }

  /** The words judged `Known`, in session order. */
  function KnownOf(ws: seq<LatinWord>, vs: seq<Verdict>): (r: seq<LatinWord>)
    requires |vs| == |ws|
    ensures |r| <= |ws| && forall x :: x in r ==> x in ws
    decreases |ws|
  {
    if ws == [] then [] else (if vs[0] == Known then [ws[0]] else []) + KnownOf(ws[1..], vs[1..])
  }

  /** The number of `Known` judgements. */
  function CountKnown(vs: seq<Verdict>): nat
  {
    if vs == [] then 0 else (if vs[0] == Known then 1 else 0) + CountKnown(vs[1..])
  }

  /** The words of the session whose key is not among the missed ones
      (`words.filter(w => !missed.find(m => m.word === w.word))`). */
  function CorrectlyAnswered(words: seq<LatinWord>, missed: seq<LatinWord>): (r: seq<LatinWord>)
    ensures |r| <= |words| && forall x :: x in r ==> x in words
    decreases |words|
  {
    if words == [] then []
    else (if Find(missed, words[0].word).Some? then [] else [words[0]]) + CorrectlyAnswered(words[1..], missed)
  }

  /** The ledger after `handleQuizFinish`: every missed word is added in order; in a review
      session every correctly answered word is then removed. */
  function QuizFinishLedger(ledger: seq<LatinWord>, words: seq<LatinWord>, missed: seq<LatinWord>,
                            isReview: bool): (r: seq<LatinWord>)
    ensures forall k :: HasKey(missed, k) ==> HasKey(r, k)
    ensures forall k :: HasKey(r, k) ==> HasKey(ledger, k) || HasKey(missed, k)
    ensures isReview ==> forall k :: HasKey(words, k) && !HasKey(missed, k) ==> !HasKey(r, k)
    ensures !isReview ==> |ledger| <= |r| && r[..|ledger|] == ledger
    ensures UniqueKeys(ledger) ==> UniqueKeys(r)
  {
    var added := AddAll(ledger, missed);
    var correct := CorrectlyAnswered(words, missed);
    AddAllSpec(ledger, missed);
    RemoveAllSpec(added, correct);
    assert forall k :: HasKey(correct, k) <==> HasKey(words, k) && !HasKey(missed, k) by {
      forall k ensures HasKey(correct, k) <==> HasKey(words, k) && !HasKey(missed, k) {
        CorrectlyAnsweredKeys(words, missed, k);
      }
    }
    if isReview then RemoveAll(added, correct) else added
  }

  /** The words `handleQuizFinish` counts as correctly answered carry exactly the session's keys
      that are not among the missed ones. */
  lemma {:induction false} CorrectlyAnsweredKeys(words: seq<LatinWord>, missed: seq<LatinWord>, k: string)
    ensures HasKey(CorrectlyAnswered(words, missed), k) <==> HasKey(words, k) && !HasKey(missed, k)
    decreases |words|
  {
    if words != [] {
      var head := if Find(missed, words[0].word).Some? then [] else [words[0]];
      CorrectlyAnsweredKeys(words[1..], missed, k);
      HasKeyConcat(head, CorrectlyAnswered(words[1..], missed), k);
      HasKeyUncons(words, k);
      HasKeySingleton(words[0], k);
    }
  }

  /** Every judgement is either a miss or known: the two lists split the session, and the
      number of known judgements is the length of the known list. */
  lemma {:induction false} VerdictsSplit(ws: seq<LatinWord>, vs: seq<Verdict>)
    requires |vs| == |ws|
    ensures |MissedOf(ws, vs)| + |KnownOf(ws, vs)| == |ws|
    ensures CountKnown(vs) == |KnownOf(ws, vs)|
    decreases |ws|
  {
    if ws != [] {
      VerdictsSplit(ws[1..], vs[1..]);
    }
  }

  /** The missed list carries only keys of the session. */
  lemma {:induction false} MissedKeysFromSession(ws: seq<LatinWord>, vs: seq<Verdict>, k: string)
    requires |vs| == |ws|
    ensures HasKey(MissedOf(ws, vs), k) ==> HasKey(ws, k)
    decreases |ws|
  {
    if ws != [] {
      var head := if vs[0] == Missed then [ws[0]] else [];
      MissedKeysFromSession(ws[1..], vs[1..], k);
      HasKeyConcat(head, MissedOf(ws[1..], vs[1..]), k);
      HasKeyUncons(ws, k);
      if head != [] { HasKeySingleton(ws[0], k); }
    }
  }

  /** In a session without repeated keys, a word's key is among the missed keys exactly when
      that word was judged `Missed`. */
  lemma {:induction false} MissedKeyIffMissed(ws: seq<LatinWord>, vs: seq<Verdict>, i: nat)
    requires |vs| == |ws| && UniqueKeys(ws) && i < |ws|
    ensures HasKey(MissedOf(ws, vs), ws[i].word) <==> vs[i] == Missed
    decreases |ws|
  {
    var head := if vs[0] == Missed then [ws[0]] else [];
    var rest := MissedOf(ws[1..], vs[1..]);
    HasKeyConcat(head, rest, ws[i].word);
    if head != [] { HasKeySingleton(ws[0], ws[i].word); }
    UniqueKeysConcat([ws[0]], ws[1..]);
    assert ws == [ws[0]] + ws[1..];
    if i == 0 {
      MissedKeysFromSession(ws[1..], vs[1..], ws[0].word);
      assert !HasKey(ws[1..], ws[0].word) by { assert [ws[0]][0] == ws[0]; }
    } else {
      assert ws[1..][i - 1] == ws[i] && vs[1..][i - 1] == vs[i];
      assert ws[0].word != ws[i].word;
      MissedKeyIffMissed(ws[1..], vs[1..], i - 1);
    }
  }

  /** When the missed keys are exactly the keys of the words judged `Missed`, the filter of
      correctly answered words yields the words judged `Known`. */
  lemma {:induction false} CorrectlyAnsweredIsKnown(ws: seq<LatinWord>, vs: seq<Verdict>, missed: seq<LatinWord>)
    requires |vs| == |ws|
    requires forall i :: 0 <= i < |ws| ==> (HasKey(missed, ws[i].word) <==> vs[i] == Missed)
    ensures CorrectlyAnswered(ws, missed) == KnownOf(ws, vs)
    decreases |ws|
  {
    if ws != [] {
      assert HasKey(missed, ws[0].word) <==> vs[0] == Missed;
      forall i | 0 <= i < |ws| - 1
        ensures HasKey(missed, ws[1..][i].word) <==> vs[1..][i] == Missed
      {
        assert ws[1..][i] == ws[i + 1] && vs[1..][i] == vs[i + 1];
      }
      CorrectlyAnsweredIsKnown(ws[1..], vs[1..], missed);
    }
  }

  /** Outside review, the batch of missed words gives the ledger the per-word rule gives. */
  lemma {:induction false} BatchMatchesPerWordOutsideReview(ledger: seq<LatinWord>, ws: seq<LatinWord>, vs: seq<Verdict>)
    requires |vs| == |ws|
    ensures AddAll(ledger, MissedOf(ws, vs)) == JudgeAll(ledger, ws, vs, false)
    decreases |ws|
  {
    if ws != [] {
      var rest := MissedOf(ws[1..], vs[1..]);
      if vs[0] == Missed {
        assert MissedOf(ws, vs) == [ws[0]] + rest;
        assert ([ws[0]] + rest)[1..] == rest;
        BatchMatchesPerWordOutsideReview(AddToMissed(ledger, ws[0]), ws[1..], vs[1..]);
      } else {
        assert MissedOf(ws, vs) == rest;
        BatchMatchesPerWordOutsideReview(ledger, ws[1..], vs[1..]);
      }
    }
  }

  /** In review, adding the missed words and then removing the known ones gives the ledger the
      per-word rule gives, provided the session repeats no key. */
  lemma {:induction false} BatchMatchesPerWordInReview(ledger: seq<LatinWord>, ws: seq<LatinWord>, vs: seq<Verdict>)
    requires |vs| == |ws| && UniqueKeys(ws)
    ensures RemoveAll(AddAll(ledger, MissedOf(ws, vs)), KnownOf(ws, vs)) == JudgeAll(ledger, ws, vs, true)
    decreases |ws|
  {
    if ws != [] {
      var missed := MissedOf(ws[1..], vs[1..]);
      var known := KnownOf(ws[1..], vs[1..]);
      UniqueKeysConcat([ws[0]], ws[1..]);
      assert ws == [ws[0]] + ws[1..];
      if vs[0] == Missed {
        assert MissedOf(ws, vs) == [ws[0]] + missed && KnownOf(ws, vs) == known;
        assert ([ws[0]] + missed)[1..] == missed;
        BatchMatchesPerWordInReview(AddToMissed(ledger, ws[0]), ws[1..], vs[1..]);
      } else {
        assert MissedOf(ws, vs) == missed && KnownOf(ws, vs) == [ws[0]] + known;
        assert ([ws[0]] + known)[1..] == known;
        assert !HasKey(missed, ws[0].word) by {
          MissedKeysFromSession(ws[1..], vs[1..], ws[0].word);
          assert [ws[0]][0] == ws[0];
        }
        RemoveAfterAddAll(ledger, missed, ws[0]);
        BatchMatchesPerWordInReview(RemoveFromMissed(ledger, ws[0]), ws[1..], vs[1..]);
      }
    }
  }

  /** `handleQuizFinish`, given the words the quiz judged `Missed`, leaves the ledger exactly as
      judging each word of the session in order would; in a review session this needs a
      session without repeated keys (see `DuplicateWordsDiverge`). */
  lemma QuizBatchIsPerWord(ledger: seq<LatinWord>, ws: seq<LatinWord>, vs: seq<Verdict>, isReview: bool)
    requires |vs| == |ws| && (isReview ==> UniqueKeys(ws))
    ensures QuizFinishLedger(ledger, ws, MissedOf(ws, vs), isReview) == JudgeAll(ledger, ws, vs, isReview)
  {
    if isReview {
      forall i | 0 <= i < |ws| ensures HasKey(MissedOf(ws, vs), ws[i].word) <==> vs[i] == Missed {
        MissedKeyIffMissed(ws, vs, i);
      }
      CorrectlyAnsweredIsKnown(ws, vs, MissedOf(ws, vs));
      BatchMatchesPerWordInReview(ledger, ws, vs);
    } else {
      BatchMatchesPerWordOutsideReview(ledger, ws, vs);
    }
  }

  /** With a repeated key the two paths disagree: the quiz misses the first copy and gets the
      second right; per word the ledger ends empty, the batch keeps the word. */
  lemma DuplicateWordsDiverge(w: LatinWord)
    ensures QuizFinishLedger([], [w, w], MissedOf([w, w], [Missed, Known]), true) == [w]
    ensures JudgeAll([], [w, w], [Missed, Known], true) == []
  {
    assert [w, w][1..] == [w];
    assert [Missed, Known][1..] == [Known];
    assert [w][1..] == [] && [Known][1..] == [];
    assert HasKey([w], w.word) by { assert [w][0] == w; }
    assert MissedOf([w], [Known]) == [];
    assert MissedOf([w, w], [Missed, Known]) == [w];
    assert AddToMissed([], w) == [w];
    assert AddAll([], [w]) == [w];
    assert Find([w], w.word).Some?;
    assert CorrectlyAnswered([w], [w]) == [];
    assert CorrectlyAnswered([w, w], [w]) == [];
    assert RemoveFromMissed([w], w) == [];
    assert JudgeAll([w], [w], [Known], true) == JudgeAll(RemoveFromMissed([w], w), [], [], true);
    assert JudgeAll([], [w, w], [Missed, Known], true) == JudgeAll([w], [w], [Known], true);
  }

  /** Judging words keeps a ledger without repeated keys without them. */
  lemma {:induction false} JudgeAllKeepsUnique(ledger: seq<LatinWord>, ws: seq<LatinWord>, vs: seq<Verdict>, isReview: bool)
    requires |vs| == |ws| && UniqueKeys(ledger)
    ensures UniqueKeys(JudgeAll(ledger, ws, vs, isReview))
    decreases |ws|
  {
    if ws != [] {
      AddKeepsUnique(ledger, ws[0]);
      RemoveKeepsOthers(ledger, ws[0]);
      JudgeAllKeepsUnique(Judge(ledger, ws[0], vs[0], isReview), ws[1..], vs[1..], isReview);
    }
  }

  /** Outside review a judgement never drops an entry: the old ledger is a prefix of the new. */
  lemma {:induction false} OutsideReviewOnlyAppends(ledger: seq<LatinWord>, ws: seq<LatinWord>, vs: seq<Verdict>)
    requires |vs| == |ws|
    ensures |ledger| <= |JudgeAll(ledger, ws, vs, false)|
    ensures JudgeAll(ledger, ws, vs, false)[..|ledger|] == ledger
  {
    BatchMatchesPerWordOutsideReview(ledger, ws, vs);
    AddAllSpec(ledger, MissedOf(ws, vs));
  }

  /** Reviewing the remaining part `ws` of a ledger `done + ws`, where `done` holds the entries
      already judged and kept, ends with the kept entries followed by the newly missed ones. */
  lemma {:induction false} ReviewFrom(ledger: seq<LatinWord>, done: seq<LatinWord>, ws: seq<LatinWord>, vs: seq<Verdict>)
    requires |vs| == |ws| && ledger == done + ws && UniqueKeys(ledger)
    ensures JudgeAll(ledger, ws, vs, true) == done + MissedOf(ws, vs)
    decreases |ws|, 1
  {
    if ws == [] {
      assert ledger == done;
    } else if vs[0] == Missed {
      ReviewFromMissed(ledger, done, ws, vs);
    } else {
      ReviewFromKnown(ledger, done, ws, vs);
    }
  }

  /** A miss on the next entry of a review leaves the ledger as it is: the entry joins the kept
      ones and the review goes on with the rest. */
  lemma {:induction false} ReviewFromMissed(ledger: seq<LatinWord>, done: seq<LatinWord>, ws: seq<LatinWord>, vs: seq<Verdict>)
    requires |vs| == |ws| && ws != [] && vs[0] == Missed && ledger == done + ws && UniqueKeys(ledger)
    ensures JudgeAll(ledger, ws, vs, true) == done + MissedOf(ws, vs)
    decreases |ws|, 0
  {
    var kept := done + [ws[0]];
    var rest := MissedOf(ws[1..], vs[1..]);
    assert JudgeAll(ledger, ws, vs, true) == JudgeAll(ledger, ws[1..], vs[1..], true) by {
      assert ledger[|done|] == ws[0];
      AddPresent(ledger, |done|);
    }
    assert JudgeAll(ledger, ws[1..], vs[1..], true) == kept + rest by {
      assert ledger == kept + ws[1..];
      ReviewFrom(ledger, kept, ws[1..], vs[1..]);
    }
    assert MissedOf(ws, vs) == [ws[0]] + rest;
    assert kept + rest == done + ([ws[0]] + rest);
  }

  /** A known verdict on the next entry of a review removes exactly that entry, and the review
      goes on with the rest. */
  lemma {:induction false} ReviewFromKnown(ledger: seq<LatinWord>, done: seq<LatinWord>, ws: seq<LatinWord>, vs: seq<Verdict>)
    requires |vs| == |ws| && ws != [] && vs[0] == Known && ledger == done + ws && UniqueKeys(ledger)
    ensures JudgeAll(ledger, ws, vs, true) == done + MissedOf(ws, vs)
    decreases |ws|, 0
  {
    var next := done + ws[1..];
    assert ledger[|done|] == ws[0] && ledger[..|done|] == done && ledger[|done| + 1..] == ws[1..];
    assert Judge(ledger, ws[0], vs[0], true) == next by {
      RemoveFromUnique(ledger, |done|, ws[0]);
    }
    assert UniqueKeys(next) by {
      RemoveFromUnique(ledger, |done|, ws[0]);
      RemoveKeepsOthers(ledger, ws[0]);
    }
    assert JudgeAll(ledger, ws, vs, true) == JudgeAll(next, ws[1..], vs[1..], true);
    assert MissedOf(ws, vs) == MissedOf(ws[1..], vs[1..]);
    ReviewFrom(next, done, ws[1..], vs[1..]);
  }

  /** A review of a ledger without repeated keys, judging every entry once in ledger order,
      leaves exactly the entries judged `Missed`, in their old order. */
  lemma ReviewConverges(ledger: seq<LatinWord>, vs: seq<Verdict>)
    requires |vs| == |ledger| && UniqueKeys(ledger)
    ensures JudgeAll(ledger, ledger, vs, true) == MissedOf(ledger, vs)
  {
    assert [] + ledger == ledger;
    ReviewFrom(ledger, [], ledger, vs);
  }
}
