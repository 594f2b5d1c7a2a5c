/** The word filter: a cap on the number of tokens per source and bounds on token length. */
module WordFilter {
  import opened Candidates

  predicate InBounds(w: string) {
    MIN_WORD_SIZE <= |w| <= MAX_WORD_SIZE
  }

  /** `a` is obtained from `b` by deleting elements, keeping the order of the rest. */
  ghost predicate IsSubsequence<T>(a: seq<T>, b: seq<T>)
    decreases |b|
  {
    a == [] ||
    (b != [] &&
     ((a[0] == b[0] && IsSubsequence(a[1..], b[1..])) || IsSubsequence(a, b[1..])))
  }

  function Min(a: nat, b: nat): nat {
    if a <= b then a else b
  }

  /** The first MAX_WORDS_PER_FILE tokens: the slice `words[0:MAX_WORDS_PER_FILE]`. */
  function Capped(words: seq<string>): (r: seq<string>)
    ensures r == words[..Min(|words|, MAX_WORDS_PER_FILE)]
  {
    if |words| <= MAX_WORDS_PER_FILE then words else words[..MAX_WORDS_PER_FILE]
  }

  /** The tokens whose length is in bounds, in their original order. */
  function KeepInBounds(ws: seq<string>): (r: seq<string>)
    ensures |r| <= |ws|
    ensures forall i :: 0 <= i < |r| ==> InBounds(r[i])
    ensures IsSubsequence(r, ws)
    ensures forall w :: multiset(r)[w] == if InBounds(w) then multiset(ws)[w] else 0
  {
    if ws == [] then []
    else
      assert ws == [ws[0]] + ws[1..];
      var rest := KeepInBounds(ws[1..]);
      if InBounds(ws[0]) then [ws[0]] + rest else rest
  }

  /** `filter_words`: cap the source, then drop the tokens that are too short or too long. */
  function FilterWords(words: seq<string>): (r: seq<string>)
    ensures |r| <= |words| && |r| <= MAX_WORDS_PER_FILE
    ensures forall i :: 0 <= i < |r| ==> MIN_WORD_SIZE <= |r[i]| <= MAX_WORD_SIZE
    ensures IsSubsequence(r, Capped(words))
    ensures forall w :: multiset(r)[w] == (if InBounds(w) then multiset(Capped(words))[w] else 0)
  {
    KeepInBounds(Capped(words))
  }

  /** Every in-bounds token among the first MAX_WORDS_PER_FILE survives the filter, and nothing else does. */
  lemma FilterWordsMembership(words: seq<string>, w: string)
    ensures w in FilterWords(words) <==> InBounds(w) && w in Capped(words)
  {
    var prefix := Capped(words);
    assert w in FilterWords(words) <==> multiset(FilterWords(words))[w] > 0;
    assert w in prefix <==> multiset(prefix)[w] > 0;
  }

  /** A source that already satisfies the filter comes through unchanged. */
  lemma {:induction false} KeepInBoundsIdentity(ws: seq<string>)
    requires forall i :: 0 <= i < |ws| ==> InBounds(ws[i])
    ensures KeepInBounds(ws) == ws
  {
    if ws != [] {
      KeepInBoundsIdentity(ws[1..]);
    }
  }

  /** Filtering twice is filtering once. */
  lemma FilterWordsIdempotent(words: seq<string>)
    ensures FilterWords(FilterWords(words)) == FilterWords(words)
  {
    KeepInBoundsIdentity(FilterWords(words));
  }
}
