/** The persistent list of missed words (App.tsx, `persistentMissedWords`): an ordered list of
    records that `addToMissed` keeps free of duplicate keys and `removeFromMissed` filters.
    Both updaters are pure list functions; the loops that apply them one after another
    (`forEach`) are the folds `AddAll` and `RemoveAll`. */
module Ledger {
  import opened Words

  /** `addToMissed`: append `w` unless an entry with its key is already there. */
  function AddToMissed(ledger: seq<LatinWord>, w: LatinWord): (r: seq<LatinWord>)
    ensures HasKey(ledger, w.word) ==> r == ledger
    ensures !HasKey(ledger, w.word) ==> r == ledger + [w]
  {
    if Find(ledger, w.word).Some? then ledger else ledger + [w]
  }

  /** After `addToMissed` the ledger carries the keys it carried before and `w`'s, and no other;
      a ledger without duplicate keys stays without. */
  lemma AddKeepsUnique(ledger: seq<LatinWord>, w: LatinWord)
    ensures forall k :: HasKey(AddToMissed(ledger, w), k) <==> HasKey(ledger, k) || k == w.word
    ensures UniqueKeys(ledger) ==> UniqueKeys(AddToMissed(ledger, w))
  {
    if !HasKey(ledger, w.word) {
      forall k ensures HasKey(ledger + [w], k) <==> HasKey(ledger, k) || k == w.word {
        HasKeyConcat(ledger, [w], k);
        HasKeySingleton(w, k);
      }
      UniqueKeysConcat(ledger, [w]);
      forall i | 0 <= i < |ledger| ensures !HasKey([w], ledger[i].word) {
        HasKeySingleton(w, ledger[i].word);
      }
    }
  }

  /** Adding an entry that is already in the ledger changes nothing. */
  lemma AddPresent(ledger: seq<LatinWord>, i: nat)
    requires i < |ledger|
    ensures AddToMissed(ledger, ledger[i]) == ledger
  {
    assert HasKey(ledger, ledger[i].word);
  }

  /** `removeFromMissed`: keep, in order, the entries whose key differs from `w`'s. */
  function RemoveFromMissed(ledger: seq<LatinWord>, w: LatinWord): (r: seq<LatinWord>)
    ensures !HasKey(r, w.word)
    ensures !HasKey(ledger, w.word) ==> r == ledger
    ensures |r| <= |ledger|
  {
    if ledger == [] then []
    else
      var head := if ledger[0].word == w.word then [] else [ledger[0]];
      var rest := RemoveFromMissed(ledger[1..], w);
      HasKeyUncons(ledger, w.word);
      HasKeyConcat(head, rest, w.word);
      assert !HasKey(head, w.word) by { if head != [] { HasKeySingleton(ledger[0], w.word); } }
      assert !HasKey(ledger, w.word) ==> head + rest == ledger by {
        if !HasKey(ledger, w.word) { assert ledger == [ledger[0]] + ledger[1..]; }
      }
      head + rest
  }

  /** `removeFromMissed` drops exactly the key of `w`: every other key, and every entry with
      another key, is still there; a ledger without duplicate keys stays without. */
  lemma {:induction false} RemoveKeepsOthers(ledger: seq<LatinWord>, w: LatinWord)
    ensures forall k :: k != w.word ==> (HasKey(RemoveFromMissed(ledger, w), k) <==> HasKey(ledger, k))
    ensures forall x :: x in RemoveFromMissed(ledger, w) <==> x in ledger && x.word != w.word
    ensures UniqueKeys(ledger) ==> UniqueKeys(RemoveFromMissed(ledger, w))
  {
    if ledger != [] {
      var head := if ledger[0].word == w.word then [] else [ledger[0]];
      var rest := RemoveFromMissed(ledger[1..], w);
      RemoveKeepsOthers(ledger[1..], w);
      assert RemoveFromMissed(ledger, w) == head + rest;
      assert ledger == [ledger[0]] + ledger[1..];
      forall k | k != w.word ensures HasKey(head + rest, k) <==> HasKey(ledger, k) {
        HasKeyUncons(ledger, k);
        HasKeyConcat(head, rest, k);
        if head != [] { HasKeySingleton(ledger[0], k); }
      }
      if UniqueKeys(ledger) {
        UniqueKeysConcat([ledger[0]], ledger[1..]);
        UniqueKeysConcat(head, rest);
        if head != [] {
          assert !HasKey(ledger[1..], ledger[0].word) by { assert [ledger[0]][0] == ledger[0]; }
        }
      }
    }
  }

  /** Removing from a concatenation removes from each part. */
  lemma {:induction false} RemoveConcat(a: seq<LatinWord>, b: seq<LatinWord>, w: LatinWord)
    ensures RemoveFromMissed(a + b, w) == RemoveFromMissed(a, w) + RemoveFromMissed(b, w)
  {
    if a == [] {
      assert a + b == b;
    } else {
      var head := if a[0].word == w.word then [] else [a[0]];
      assert (a + b)[1..] == a[1..] + b;
      assert (a + b)[0] == a[0];
      calc {
        RemoveFromMissed(a + b, w);
        head + RemoveFromMissed(a[1..] + b, w);
        { RemoveConcat(a[1..], b, w); }
        head + (RemoveFromMissed(a[1..], w) + RemoveFromMissed(b, w));
        (head + RemoveFromMissed(a[1..], w)) + RemoveFromMissed(b, w);
        RemoveFromMissed(a, w) + RemoveFromMissed(b, w);
      }
    }
  }

  /** Removing twice is removing once. */
  lemma RemoveIdempotent(ledger: seq<LatinWord>, w: LatinWord)
    ensures RemoveFromMissed(RemoveFromMissed(ledger, w), w) == RemoveFromMissed(ledger, w)
  {
  }

  /** In a ledger with unique keys, the key of entry `i` occurs neither before nor after it. */
  lemma UniqueAround(ledger: seq<LatinWord>, i: nat)
    requires UniqueKeys(ledger) && i < |ledger|
    ensures !HasKey(ledger[..i], ledger[i].word) && !HasKey(ledger[i + 1..], ledger[i].word)
  {
    var pre, post := ledger[..i], ledger[i + 1..];
    forall j | 0 <= j < |pre| ensures pre[j].word != ledger[i].word {
      assert pre[j] == ledger[j];
    }
    forall j | 0 <= j < |post| ensures post[j].word != ledger[i].word {
      assert post[j] == ledger[i + 1 + j];
    }
  }

  /** On a ledger with unique keys, removing the key of entry `i` drops exactly that entry and
      keeps every other one in place. */
  lemma {:induction false} RemoveFromUnique(ledger: seq<LatinWord>, i: nat, w: LatinWord)
    requires UniqueKeys(ledger) && i < |ledger| && w.word == ledger[i].word
    ensures RemoveFromMissed(ledger, w) == ledger[..i] + ledger[i + 1..]
  {
    var pre, post := ledger[..i], ledger[i + 1..];
    UniqueAround(ledger, i);
    assert ledger == pre + ledger[i..];
    assert ledger[i..][1..] == post;
    calc {
      RemoveFromMissed(ledger, w);
      { RemoveConcat(pre, ledger[i..], w); }
      RemoveFromMissed(pre, w) + RemoveFromMissed(ledger[i..], w);
      pre + RemoveFromMissed(ledger[i..], w);
      pre + post;
    }
  }

  /** Adding a key and removing a different key commute. */
  lemma AddRemoveCommute(ledger: seq<LatinWord>, v: LatinWord, w: LatinWord)
    requires v.word != w.word
    ensures RemoveFromMissed(AddToMissed(ledger, v), w) == AddToMissed(RemoveFromMissed(ledger, w), v)
  {
    RemoveKeepsOthers(ledger, w);
    if !HasKey(ledger, v.word) {
      RemoveConcat(ledger, [v], w);
      assert [v][1..] == [];
      assert RemoveFromMissed([v], w) == [v];
    }
  }

  /** `missed.forEach(addToMissed)`: add each record in turn. */
  function AddAll(ledger: seq<LatinWord>, ms: seq<LatinWord>): (r: seq<LatinWord>)
    ensures |ledger| <= |r| <= |ledger| + |ms|
    decreases |ms|
  {
    if ms == [] then ledger else AddAll(AddToMissed(ledger, ms[0]), ms[1..])
  }

  /** Adding a batch only appends, brings in exactly the batch's keys, and keeps keys unique. */
  lemma {:induction false} AddAllSpec(ledger: seq<LatinWord>, ms: seq<LatinWord>)
    ensures |ledger| <= |AddAll(ledger, ms)| && AddAll(ledger, ms)[..|ledger|] == ledger
    ensures forall k :: HasKey(AddAll(ledger, ms), k) <==> HasKey(ledger, k) || HasKey(ms, k)
    ensures UniqueKeys(ledger) ==> UniqueKeys(AddAll(ledger, ms))
    decreases |ms|
  {
    if ms != [] {
      var next := AddToMissed(ledger, ms[0]);
      AddKeepsUnique(ledger, ms[0]);
      AddAllSpec(next, ms[1..]);
      forall k ensures HasKey(ms, k) <==> ms[0].word == k || HasKey(ms[1..], k) {
        HasKeyUncons(ms, k);
      }
      assert AddAll(ledger, ms)[..|next|] == next;
      assert AddAll(ledger, ms)[..|ledger|] == AddAll(ledger, ms)[..|next|][..|ledger|];
    }
  }

  /** `correctlyAnswered.forEach(removeFromMissed)`: remove each record's key in turn. */
  function RemoveAll(ledger: seq<LatinWord>, ws: seq<LatinWord>): (r: seq<LatinWord>)
    ensures |r| <= |ledger|
    decreases |ws|
  {
    if ws == [] then ledger else RemoveAll(RemoveFromMissed(ledger, ws[0]), ws[1..])
  }

  /** Removing a batch leaves exactly the keys outside the batch and keeps keys unique. */
  lemma {:induction false} RemoveAllSpec(ledger: seq<LatinWord>, ws: seq<LatinWord>)
    ensures forall k :: HasKey(RemoveAll(ledger, ws), k) <==> HasKey(ledger, k) && !HasKey(ws, k)
    ensures UniqueKeys(ledger) ==> UniqueKeys(RemoveAll(ledger, ws))
    decreases |ws|
  {
    if ws != [] {
      var next := RemoveFromMissed(ledger, ws[0]);
      RemoveKeepsOthers(ledger, ws[0]);
      RemoveAllSpec(next, ws[1..]);
      forall k ensures HasKey(ws, k) <==> ws[0].word == k || HasKey(ws[1..], k) {
        HasKeyUncons(ws, k);
      }
    }
  }

  /** Removing a key that none of `ms` carries can be done before or after adding all of `ms`. */
  lemma {:induction false} RemoveAfterAddAll(ledger: seq<LatinWord>, ms: seq<LatinWord>, w: LatinWord)
    requires !HasKey(ms, w.word)
    ensures RemoveFromMissed(AddAll(ledger, ms), w) == AddAll(RemoveFromMissed(ledger, w), ms)
    decreases |ms|
  {
    if ms != [] {
      HasKeyUncons(ms, w.word);
      AddRemoveCommute(ledger, ms[0], w);
      RemoveAfterAddAll(AddToMissed(ledger, ms[0]), ms[1..], w);
    }
  }
}
