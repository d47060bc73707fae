/** The vocabulary record shared by every screen, and key-based lookups on lists of them.
    A record's identity is its `word` string: two records with the same `word` are the same
    vocabulary item, whatever their other fields say. */
module Words {

  datatype Option<T> = None | Some(value: T)

  /** One vocabulary entry as the content provider delivers it (types.ts). */
  datatype LatinWord = LatinWord(
    word: string,
    translation: string,
    partOfSpeech: string,
    exampleSentence: string,
    exampleTranslation: string,
    notes: Option<string>)

  /** Some entry of `ws` carries the key `key`. */
  predicate HasKey(ws: seq<LatinWord>, key: string) {
    exists i :: 0 <= i < |ws| && ws[i].word == key
  }

  /** No two entries of `ws` share a key. */
  predicate UniqueKeys(ws: seq<LatinWord>) {
    forall i, j :: 0 <= i < j < |ws| ==> ws[i].word != ws[j].word
  }

  /** `Array.prototype.find` with the predicate `w => w.word === key`: the first entry with that key. */
  function Find(ws: seq<LatinWord>, key: string): (r: Option<LatinWord>)
    ensures r.Some? <==> HasKey(ws, key)
    ensures r.Some? ==> r.value in ws && r.value.word == key
  {
    if ws == [] then None
    else if ws[0].word == key then Some(ws[0])
    else
      HasKeyUncons(ws, key);
      Find(ws[1..], key)
  }

  /** What `Find` returns is the first entry with the key: no entry before it carries the key. */
  lemma {:induction false} FindIsFirst(ws: seq<LatinWord>, key: string)
    requires HasKey(ws, key)
    ensures exists i :: 0 <= i < |ws| && ws[i] == Find(ws, key).value && !HasKey(ws[..i], key)
  {
    if ws[0].word == key {
      assert ws[..0] == [];
    } else {
      HasKeyUncons(ws, key);
      FindIsFirst(ws[1..], key);
      var i :| 0 <= i < |ws[1..]| && ws[1..][i] == Find(ws[1..], key).value && !HasKey(ws[1..][..i], key);
      var pre := ws[..i + 1];
      assert pre == [ws[0]] + ws[1..][..i];
      forall j | 0 <= j < |pre| ensures pre[j].word != key {
        if j > 0 { assert pre[j] == ws[1..][..i][j - 1]; }
      }
      assert ws[i + 1] == Find(ws, key).value;
    }
  }

  /** A concatenation carries a key exactly when one of its parts does. */
  lemma {:induction false} HasKeyConcat(a: seq<LatinWord>, b: seq<LatinWord>, key: string)
    ensures HasKey(a + b, key) <==> HasKey(a, key) || HasKey(b, key)
  {
    if HasKey(a + b, key) {
      var i :| 0 <= i < |a + b| && (a + b)[i].word == key;
      if i < |a| { assert a[i].word == key; } else { assert b[i - |a|].word == key; }
    }
    if HasKey(a, key) {
      var i :| 0 <= i < |a| && a[i].word == key;
      assert (a + b)[i].word == key;
    }
    if HasKey(b, key) {
      var i :| 0 <= i < |b| && b[i].word == key;
      assert (a + b)[|a| + i].word == key;
    }
  }

  /** A concatenation has unique keys exactly when both parts do and they share no key. */
  lemma {:induction false} UniqueKeysConcat(a: seq<LatinWord>, b: seq<LatinWord>)
    ensures UniqueKeys(a + b) <==>
      UniqueKeys(a) && UniqueKeys(b) && forall i :: 0 <= i < |a| ==> !HasKey(b, a[i].word)
  {
    if UniqueKeys(a + b) {
      forall i, j | 0 <= i < j < |a| ensures a[i].word != a[j].word {
        assert (a + b)[i] == a[i] && (a + b)[j] == a[j];
      }
      forall i, j | 0 <= i < j < |b| ensures b[i].word != b[j].word {
        assert (a + b)[|a| + i] == b[i] && (a + b)[|a| + j] == b[j];
      }
      forall i, j | 0 <= i < |a| && 0 <= j < |b| ensures b[j].word != a[i].word {
        assert (a + b)[i] == a[i] && (a + b)[|a| + j] == b[j];
      }
    }
    if UniqueKeys(a) && UniqueKeys(b) && forall i :: 0 <= i < |a| ==> !HasKey(b, a[i].word) {
      forall i, j | 0 <= i < j < |a + b| ensures (a + b)[i].word != (a + b)[j].word {
        if j < |a| {
          assert (a + b)[i] == a[i] && (a + b)[j] == a[j];
        } else if i < |a| {
          assert !HasKey(b, a[i].word);
          assert (a + b)[j] == b[j - |a|];
        } else {
          assert (a + b)[i] == b[i - |a|] && (a + b)[j] == b[j - |a|];
        }
      }
    }
  }

  /** A non-empty list carries a key when its head or its tail does. */
  lemma HasKeyUncons(ws: seq<LatinWord>, key: string)
    requires ws != []
    ensures HasKey(ws, key) <==> ws[0].word == key || HasKey(ws[1..], key)
  {
    if HasKey(ws, key) && ws[0].word != key {
      var i :| 0 <= i < |ws| && ws[i].word == key;
      assert ws[1..][i - 1].word == key;
    }
    if HasKey(ws[1..], key) {
      var i :| 0 <= i < |ws| - 1 && ws[1..][i].word == key;
      assert ws[i + 1].word == key;
    }
  }

  /** A singleton carries exactly its entry's key. */
  lemma HasKeySingleton(w: LatinWord, key: string)
    ensures HasKey([w], key) <==> w.word == key
  {
    assert [w][0] == w;
  }
}
