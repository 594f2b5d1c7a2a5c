/** The deduplicator: keeps the first candidate of every word, in order of first appearance. */
module Deduplicator {
  import opened Candidates

  /** No word appears twice. */
  predicate NoDuplicateWords(cs: seq<Candidate>) {
    forall i, j :: 0 <= i < j < |cs| ==> cs[i].word != cs[j].word
  }

  /** Position of the first occurrence of `w` in `s`. */
  function FirstIndex(s: seq<string>, w: string): (r: nat)
    requires w in s
    ensures r < |s| && s[r] == w
    ensures forall j :: 0 <= j < r ==> s[j] != w
  {
    if s[0] == w then 0 else FirstIndex(s[1..], w) + 1
  }

  /** The result of `without_duplicates`, one candidate at a time, as its loop builds it. */
  function Dedup(cs: seq<Candidate>): (r: seq<Candidate>)
    ensures |r| <= |cs|
  {
    if cs == [] then []
    else
      var init := cs[..|cs| - 1];
      var last := cs[|cs| - 1];
      var d := Dedup(init);
      if last.word in Words(d) then d else d + [last]
  }

  /** `without_duplicates` (the loop over `words` with the list `used_words`). */
  method WithoutDuplicates(words: seq<Candidate>) returns (result: seq<Candidate>)
    ensures result == Dedup(words)
    ensures NoDuplicateWords(result)
    ensures forall w :: w in Words(result) <==> w in Words(words)
  {
    result := [];
    var usedWords: seq<string> := [];
    for i := 0 to |words|
      invariant result == Dedup(words[..i])
      invariant usedWords == Words(result)
    {
      var c := words[i];
      assert words[..i + 1][..i] == words[..i];
      if c.word !in usedWords {
        usedWords := usedWords + [c.word];
        result := result + [c];
      }
    }
    assert words[..|words|] == words;
    DedupSameWords(words);
    DedupNoDuplicates(words);
  }

  /** No word is kept twice. */
  lemma {:induction false} DedupNoDuplicates(cs: seq<Candidate>)
    ensures NoDuplicateWords(Dedup(cs))
  {
    if cs != [] {
      var init, last := cs[..|cs| - 1], cs[|cs| - 1];
      DedupNoDuplicates(init);
      var d := Dedup(init);
      if last.word !in Words(d) {
        forall i | 0 <= i < |d|
          ensures d[i].word != last.word
        {
          assert Words(d)[i] == d[i].word;
        }
      }
    }
  }

  /** Deduplication drops no word and invents none. */
  lemma {:induction false} DedupSameWords(cs: seq<Candidate>)
    ensures forall w :: w in Words(Dedup(cs)) <==> w in Words(cs)
  {
    if cs != [] {
      var init, last := cs[..|cs| - 1], cs[|cs| - 1];
      DedupSameWords(init);
      var d := Dedup(init);
      assert Words(cs) == Words(init) + [last.word];
      assert Words(d + [last]) == Words(d) + [last.word];
    }
  }

  lemma FirstIndexOfPrefix(s: seq<string>, t: seq<string>, w: string)
    requires w in s
    ensures FirstIndex(s + t, w) == FirstIndex(s, w)
  {
    var i := FirstIndex(s, w);
    var k := FirstIndex(s + t, w);
    assert (s + t)[i] == w;
  }

  lemma FirstIndexAfterPrefix(s: seq<string>, w: string)
    requires w !in s
    ensures FirstIndex(s + [w], w) == |s|
  {
    assert (s + [w])[|s|] == w;
  }

  /** Each kept candidate is, origin included, the first candidate carrying its word. */
  lemma {:induction false} DedupKeepsFirstOccurrence(cs: seq<Candidate>)
    ensures forall k :: 0 <= k < |Dedup(cs)| ==>
      Dedup(cs)[k].word in Words(cs) && Dedup(cs)[k] == cs[FirstIndex(Words(cs), Dedup(cs)[k].word)]
  {
    if cs != [] {
      var init, last := cs[..|cs| - 1], cs[|cs| - 1];
      var d := Dedup(init);
      DedupKeepsFirstOccurrence(init);
      DedupSameWords(init);
      assert Words(cs) == Words(init) + [last.word];
      forall k | 0 <= k < |d|
        ensures FirstIndex(Words(cs), d[k].word) == FirstIndex(Words(init), d[k].word)
      {
        FirstIndexOfPrefix(Words(init), [last.word], d[k].word);
      }
      if last.word !in Words(d) {
        FirstIndexAfterPrefix(Words(init), last.word);
      }
    }
  }

  /** Kept candidates appear in the order in which their words first appear. */
  lemma {:induction false} DedupFollowsFirstOccurrenceOrder(cs: seq<Candidate>)
    ensures forall k :: 0 <= k < |Dedup(cs)| ==> Dedup(cs)[k].word in Words(cs)
    ensures forall k1, k2 :: 0 <= k1 < k2 < |Dedup(cs)| ==>
      FirstIndex(Words(cs), Dedup(cs)[k1].word) < FirstIndex(Words(cs), Dedup(cs)[k2].word)
  {
    if cs != [] {
      var init, last := cs[..|cs| - 1], cs[|cs| - 1];
      var d := Dedup(init);
      DedupFollowsFirstOccurrenceOrder(init);
      DedupSameWords(init);
      assert Words(cs) == Words(init) + [last.word];
      forall k | 0 <= k < |d|
        ensures FirstIndex(Words(cs), d[k].word) == FirstIndex(Words(init), d[k].word)
      {
        FirstIndexOfPrefix(Words(init), [last.word], d[k].word);
      }
      if last.word !in Words(d) {
        FirstIndexAfterPrefix(Words(init), last.word);
      }
    }
  }

  /** One step of `without_duplicates`: a candidate is appended exactly when its word is new. */
  lemma DedupSnoc(cs: seq<Candidate>, x: Candidate)
    ensures Dedup(cs + [x]) == if x.word in Words(Dedup(cs)) then Dedup(cs) else Dedup(cs) + [x]
  {
    assert (cs + [x])[..|cs|] == cs;
  }

  /** Deduplicating a concatenation keeps the deduplicated first part as a prefix. */
  lemma {:induction false} DedupKeepsPrefix(a: seq<Candidate>, b: seq<Candidate>)
    ensures |Dedup(a)| <= |Dedup(a + b)| && Dedup(a + b)[..|Dedup(a)|] == Dedup(a)
    decreases |b|
  {
    if b == [] {
      assert a + b == a;
    } else {
      var b0, x := b[..|b| - 1], b[|b| - 1];
      assert a + b == (a + b0) + [x] by {
        assert b == b0 + [x];
      }
      DedupKeepsPrefix(a, b0);
      DedupSnoc(a + b0, x);
      var d := Dedup(a + b0);
      assert (d + [x])[..|Dedup(a)|] == d[..|Dedup(a)|];
    }
  }

  /** A word first found past a prefix that lacks it is found at the prefix's length plus its
      position in the rest. */
  lemma {:induction false} FirstIndexPastPrefix(s: seq<string>, t: seq<string>, w: string)
    requires w !in s && w in t
    ensures FirstIndex(s + t, w) == |s| + FirstIndex(t, w)
  {
    if s == [] {
      assert s + t == t;
    } else {
      assert (s + t)[0] == s[0];
      assert (s + t)[1..] == s[1..] + t;
      FirstIndexPastPrefix(s[1..], t, w);
    }
  }

  /** A candidate that deduplicating `a + b` keeps after the deduplicated `a` has a word that
      `a` lacks. */
  lemma DedupAddedWordIsNew(a: seq<Candidate>, b: seq<Candidate>, k: nat)
    requires |Dedup(a)| <= k < |Dedup(a + b)|
    ensures Dedup(a + b)[k].word !in Words(a)
  {
    var d, n := Dedup(a + b), |Dedup(a)|;
    DedupKeepsPrefix(a, b);
    DedupNoDuplicates(a + b);
    DedupSameWords(a);
    forall i | 0 <= i < n
      ensures Words(Dedup(a))[i] != d[k].word
    {
      assert Dedup(a)[i] == d[..n][i];
    }
  }

  /** What deduplicating a concatenation adds after the deduplicated first part comes from the
      second part and repeats no word of the first. */
  lemma DedupAddsFromSecond(a: seq<Candidate>, b: seq<Candidate>)
    ensures forall k :: |Dedup(a)| <= k < |Dedup(a + b)| ==>
      Dedup(a + b)[k] in b && Dedup(a + b)[k].word !in Words(a)
  {
    var ab := a + b;
    DedupKeepsFirstOccurrence(ab);
    assert Words(ab) == Words(a) + Words(b);
    forall k | |Dedup(a)| <= k < |Dedup(ab)|
      ensures Dedup(ab)[k] in b && Dedup(ab)[k].word !in Words(a)
    {
      var w := Dedup(ab)[k].word;
      DedupAddedWordIsNew(a, b, k);
      FirstIndexPastPrefix(Words(a), Words(b), w);
      assert Dedup(ab)[k] == b[FirstIndex(Words(b), w)];
    }
  }

  /** Deduplication leaves a list without repeated words as it is. */
  lemma {:induction false} DedupIdentity(cs: seq<Candidate>)
    requires NoDuplicateWords(cs)
    ensures Dedup(cs) == cs
  {
    if cs != [] {
      var init, last := cs[..|cs| - 1], cs[|cs| - 1];
      DedupIdentity(init);
      assert last.word !in Words(init);
    }
  }
}
