/** Truncation repair: the work-around for tokens that the editor's extraction returns one
    character short, done token by token under a time budget. */
module TruncationRepair {
  import opened TextSearch

  /** `w` occurs in the document with a word boundary on both sides. */
  ghost predicate OccursAsWord(doc: string, w: string) {
    exists p :: MatchesAt(doc, WholeWord(w), p)
  }

  /** `w` followed by one more word character occurs in the document as a whole word. */
  ghost predicate ExtensionOccurs(doc: string, w: string) {
    exists p :: MatchesAt(doc, WholeWordPlusOne(w), p)
  }

  predicate IsOneCharExtension(x: string, w: string) {
    |x| == |w| + 1 && x[..|w|] == w && WordChar(x[|w|])
  }

  predicate AllWordChars(w: string) {
    forall i :: 0 <= i < |w| ==> WordChar(w[i])
  }

  /** The text of a match of `w` plus one word character extends `w` and is a whole word. */
  lemma ExtensionMatchIsWholeWord(doc: string, w: string, p: nat)
    requires MatchesAt(doc, WholeWordPlusOne(w), p)
    ensures IsOneCharExtension(doc[p..p + |w| + 1], w)
    ensures MatchesAt(doc, WholeWord(doc[p..p + |w| + 1]), p)
  {
    var x := doc[p..p + |w| + 1];
    assert x[..|w|] == w by {
      forall i | 0 <= i < |w|
        ensures x[i] == w[i]
      {
        assert doc[p + i] == w[i];
      }
    }
  }

  /** Every text found by the extended search is `w` plus one word character, and is itself a whole word. */
  lemma ExtendedMatchesAreWholeWords(doc: string, w: string)
    ensures forall x :: x in FindAllTexts(doc, WholeWordPlusOne(w), 0) ==>
      IsOneCharExtension(x, w) && OccursAsWord(doc, x)
  {
    var pat := WholeWordPlusOne(w);
    var starts := FindAll(doc, pat, 0);
    var ext := FindAllTexts(doc, pat, 0);
    FindAllReportsMatches(doc, pat, 0);
    forall x | x in ext
      ensures IsOneCharExtension(x, w) && OccursAsWord(doc, x)
    {
      var k :| 0 <= k < |ext| && ext[k] == x;
      FindAllTextsAt(doc, pat, 0, k);
      ExtensionMatchIsWholeWord(doc, w, starts[k]);
    }
  }

  /** What the repair loop emits for one token: the token itself when it is a whole word of
      the document, otherwise every whole-word match of the token plus one word character,
      and the token itself when there is none. */
  function Repair(doc: string, w: string): (r: seq<string>)
    ensures |r| >= 1
  {
    if Find(doc, WholeWord(w), 0).Some? then [w]
    else
      var extended := FindAllTexts(doc, WholeWordPlusOne(w), 0);
      if |extended| > 0 then extended else [w]
  }

  /** Every word the repair emits for `w` is `w` itself or a whole word of the document that
      extends `w` by one word character. */
  lemma RepairProvenance(doc: string, w: string)
    ensures forall x :: x in Repair(doc, w) ==>
      x == w || (IsOneCharExtension(x, w) && OccursAsWord(doc, x))
  {
    ExtendedMatchesAreWholeWords(doc, w);
  }

  /** The three outcomes of repairing one token, in terms of what the document contains. */
  lemma RepairCases(doc: string, w: string)
    ensures OccursAsWord(doc, w) ==> Repair(doc, w) == [w]
    ensures !OccursAsWord(doc, w) && ExtensionOccurs(doc, w) ==>
      Repair(doc, w) == FindAllTexts(doc, WholeWordPlusOne(w), 0) != []
    ensures !OccursAsWord(doc, w) && !ExtensionOccurs(doc, w) ==> Repair(doc, w) == [w]
  {
    FindAllEmptyIff(doc, WholeWordPlusOne(w), 0);
    FindIsLeftmost(doc, WholeWord(w), 0);
  }

  /** A token comes out of the repair as itself exactly when it is a whole word of the document
      or no one-character extension of it is. */
  lemma RepairUnchangedIff(doc: string, w: string)
    ensures Repair(doc, w) == [w] <==> OccursAsWord(doc, w) || !ExtensionOccurs(doc, w)
  {
    RepairCases(doc, w);
    if !OccursAsWord(doc, w) && ExtensionOccurs(doc, w) {
      var ext := FindAllTexts(doc, WholeWordPlusOne(w), 0);
      ExtendedMatchesAreWholeWords(doc, w);
      assert ext[0] in ext;
      assert |ext[0]| == |w| + 1;
    }
  }

  /** A token that is not a whole word is emitted as itself only when nothing extends it. */
  lemma KeptTokenHasNoExtension(doc: string, w: string)
    requires !OccursAsWord(doc, w) && w in Repair(doc, w)
    ensures !ExtensionOccurs(doc, w)
  {
    if ExtensionOccurs(doc, w) {
      RepairCases(doc, w);
      ExtendedMatchesAreWholeWords(doc, w);
      assert false;
    }
  }

  /** Every word emitted by the repair would be passed through unchanged by a second repair. */
  lemma RepairIsStable(doc: string, w: string)
    ensures forall x :: x in Repair(doc, w) ==> Repair(doc, x) == [x]
  {
    RepairProvenance(doc, w);
    forall x | x in Repair(doc, w)
      ensures Repair(doc, x) == [x]
    {
      if !OccursAsWord(doc, x) {
        KeptTokenHasNoExtension(doc, x);
      }
      RepairCases(doc, x);
    }
  }

  /** Inside a match of an all-word-character token plus one word character, every position
      holds a word character. */
  lemma ExtensionMatchIsWordRun(doc: string, w: string, q: nat, i: nat)
    requires AllWordChars(w) && MatchesAt(doc, WholeWordPlusOne(w), q)
    requires q <= i <= q + |w|
    ensures WordAt(doc, i)
  {
    if i < q + |w| {
      assert doc[q + (i - q)] == w[i - q];
    }
  }

  /** Two such matches never overlap: a word boundary cannot fall inside a run of word characters. */
  lemma ExtensionMatchesDoNotOverlap(doc: string, w: string, q: nat, p: nat)
    requires AllWordChars(w)
    requires MatchesAt(doc, WholeWordPlusOne(w), q) && MatchesAt(doc, WholeWordPlusOne(w), p)
    requires q < p
    ensures q + |w| + 1 <= p
  {
    if p <= q + |w| {
      ExtensionMatchIsWordRun(doc, w, q, p - 1);
      ExtensionMatchIsWordRun(doc, w, q, p);
    }
  }

  /** For a token made of word characters, the extended search finds every whole-word
      extension at or after `from`. */
  lemma {:induction false} FindAllFindsEveryExtension(doc: string, w: string, from: nat, p: nat)
    requires AllWordChars(w)
    requires from <= p && MatchesAt(doc, WholeWordPlusOne(w), p)
    ensures p in FindAll(doc, WholeWordPlusOne(w), from)
    decreases |doc| + 1 - from
  {
    var pat := WholeWordPlusOne(w);
    FindIsLeftmost(doc, pat, from);
    var q := Find(doc, pat, from).value;
    if q < p {
      ExtensionMatchesDoNotOverlap(doc, w, q, p);
      FindAllFindsEveryExtension(doc, w, q + |w| + 1, p);
    }
  }

  /** So for such a token, every whole word of the document that extends it by one word
      character is among the repair's candidates. */
  lemma ExtendedSearchIsComplete(doc: string, w: string, x: string)
    requires AllWordChars(w)
    requires IsOneCharExtension(x, w) && OccursAsWord(doc, x)
    ensures x in FindAllTexts(doc, WholeWordPlusOne(w), 0)
  {
    var p :| MatchesAt(doc, WholeWord(x), p);
    WholeWordExtensionMatches(doc, w, x, p);
    FindAllFindsEveryExtension(doc, w, 0, p);
    TextOfFoundRegion(doc, WholeWordPlusOne(w), 0, p);
  }

  /** A whole-word occurrence of a one-character extension of `w` is a match of `w` plus one
      word character, and its text is the extension. */
  lemma WholeWordExtensionMatches(doc: string, w: string, x: string, p: int)
    requires IsOneCharExtension(x, w) && MatchesAt(doc, WholeWord(x), p)
    ensures MatchesAt(doc, WholeWordPlusOne(w), p) && doc[p..p + |w| + 1] == x
  {
    assert doc[p..p + |w|] == x[..|w|];
    assert doc[p + |w|] == x[|w|];
  }

  /** The words a pass emits when each token becomes `f(token)`: the outputs concatenated in
      token order, built from the right as the loop appends them. */
  function FlatMap(f: string -> seq<string>, ws: seq<string>): seq<string> {
    if ws == [] then [] else FlatMap(f, ws[..|ws| - 1]) + f(ws[|ws| - 1])
  }

  lemma {:induction false} FlatMapConcat(f: string -> seq<string>, a: seq<string>, b: seq<string>)
    ensures FlatMap(f, a + b) == FlatMap(f, a) + FlatMap(f, b)
    decreases |b|
  {
    if b == [] {
      assert a + b == a;
    } else {
      var b0, last := b[..|b| - 1], b[|b| - 1];
      assert (a + b)[..|a + b| - 1] == a + b0;
      assert (a + b)[|a + b| - 1] == last;
      FlatMapConcat(f, a, b0);
      var x, y, z := FlatMap(f, a), FlatMap(f, b0), f(last);
      assert FlatMap(f, a + b) == (x + y) + z;
      assert (x + y) + z == x + (y + z);
    }
  }

  lemma {:induction false} FlatMapNeverShrinks(f: string -> seq<string>, ws: seq<string>)
    requires forall i :: 0 <= i < |ws| ==> |f(ws[i])| >= 1
    ensures |FlatMap(f, ws)| >= |ws|
  {
    if ws != [] {
      FlatMapNeverShrinks(f, ws[..|ws| - 1]);
    }
  }

  lemma {:induction false} FlatMapOfFixedPoints(f: string -> seq<string>, ws: seq<string>)
    requires forall i :: 0 <= i < |ws| ==> f(ws[i]) == [ws[i]]
    ensures FlatMap(f, ws) == ws
  {
    if ws != [] {
      FlatMapOfFixedPoints(f, ws[..|ws| - 1]);
    }
  }

  lemma {:induction false} FlatMapElements(f: string -> seq<string>, ws: seq<string>, x: string)
    requires x in FlatMap(f, ws)
    ensures exists i :: 0 <= i < |ws| && x in f(ws[i])
  {
    var init, last := ws[..|ws| - 1], ws[|ws| - 1];
    if x in FlatMap(f, init) {
      FlatMapElements(f, init, x);
      var i :| 0 <= i < |init| && x in f(init[i]);
      assert ws[i] == init[i];
    } else {
      assert x in f(ws[|ws| - 1]);
    }
  }

  function Repairer(doc: string): string -> seq<string> {
    w => Repair(doc, w)
  }

  /** The words a whole pass of the repair loop emits, token by token. */
  function RepairAll(doc: string, ws: seq<string>): (r: seq<string>)
    ensures |r| >= |ws|
  {
    FlatMapNeverShrinks(Repairer(doc), ws);
    FlatMap(Repairer(doc), ws)
  }

  /** Tokens that all occur as whole words pass through the repair unchanged. */
  lemma RepairAllKeepsWholeWords(doc: string, ws: seq<string>)
    requires forall i :: 0 <= i < |ws| ==> OccursAsWord(doc, ws[i])
    ensures RepairAll(doc, ws) == ws
  {
    forall i | 0 <= i < |ws|
      ensures Repairer(doc)(ws[i]) == [ws[i]]
    {
      RepairCases(doc, ws[i]);
    }
    FlatMapOfFixedPoints(Repairer(doc), ws);
  }

  /** Repairing the repaired words changes nothing. */
  lemma RepairAllIdempotent(doc: string, ws: seq<string>)
    ensures RepairAll(doc, RepairAll(doc, ws)) == RepairAll(doc, ws)
  {
    var once := RepairAll(doc, ws);
    forall i | 0 <= i < |once|
      ensures Repairer(doc)(once[i]) == [once[i]]
    {
      FlatMapElements(Repairer(doc), ws, once[i]);
      var j :| 0 <= j < |ws| && once[i] in Repair(doc, ws[j]);
      RepairIsStable(doc, ws[j]);
    }
    FlatMapOfFixedPoints(Repairer(doc), once);
  }

  /** Every emitted word is one of the tokens, or a whole word of the document that extends a
      token by one word character. */
  lemma RepairAllProvenance(doc: string, ws: seq<string>, x: string)
    requires x in RepairAll(doc, ws)
    ensures exists i :: (0 <= i < |ws| &&
      (x == ws[i] || (IsOneCharExtension(x, ws[i]) && OccursAsWord(doc, x))))
  {
    FlatMapElements(Repairer(doc), ws, x);
    var i :| 0 <= i < |ws| && x in Repair(doc, ws[i]);
    RepairProvenance(doc, ws[i]);
  }

  /** The loop's step: the pass over one more token appends that token's repair. */
  lemma RepairAllStep(doc: string, words: seq<string>, i: nat)
    requires i < |words|
    ensures RepairAll(doc, words[..i + 1]) == RepairAll(doc, words[..i]) + Repair(doc, words[i])
  {
    assert words[..i + 1][..i] == words[..i];
  }

  /** The clock oracle: the first token after which the time budget is found exceeded,
      or `n` when that never happens among `n` tokens. */
  function FirstTimeout(timedOut: nat -> bool, n: nat): (r: nat)
    ensures r <= n
    ensures r < n ==> timedOut(r)
    ensures forall i :: 0 <= i < r ==> !timedOut(i)
  {
    if n == 0 then 0
    else
      var r := FirstTimeout(timedOut, n - 1);
      if r < n - 1 then r else if timedOut(n - 1) then n - 1 else n
  }

  /** The result of `fix_truncation`: repaired tokens up to and including the one after which
      the budget ran out, then the remaining tokens as they are. */
  function FixedWords(doc: string, words: seq<string>, timedOut: nat -> bool): (r: seq<string>)
    ensures |r| >= |words|
  {
    var cut := FirstTimeout(timedOut, |words|);
    if cut < |words| then RepairAll(doc, words[..cut + 1]) + words[cut + 1..]
    else RepairAll(doc, words)
  }

  /** `fix_truncation`: the loop over the tokens, with the clock consulted after each one. */
  method FixTruncation(doc: string, words: seq<string>, timedOut: nat -> bool)
    returns (fixedWords: seq<string>)
    ensures fixedWords == FixedWords(doc, words, timedOut)
  {
    fixedWords := [];
    for i := 0 to |words|
      invariant fixedWords == RepairAll(doc, words[..i])
      invariant forall j :: 0 <= j < i ==> !timedOut(j)
    {
      var w := words[i];
      ghost var before := fixedWords;
      var found := Find(doc, WholeWord(w), 0);
      var truncated := found.None?;
      if truncated {
        var extendedWords := FindAllTexts(doc, WholeWordPlusOne(w), 0);
        if |extendedWords| > 0 {
          fixedWords := fixedWords + extendedWords;
        } else {
          fixedWords := fixedWords + [w];
        }
      } else {
        fixedWords := fixedWords + [w];
      }
      assert fixedWords == before + Repair(doc, w);
      RepairAllStep(doc, words, i);
      if timedOut(i) {
        FixedWordsEarlyExit(doc, words, timedOut, i);
        return fixedWords + words[i + 1..];
      }
    }
    assert words[..|words|] == words;
    FixedWordsWithoutTimeout(doc, words, timedOut);
  }

  /** When the budget is never exceeded, every token is repaired. */
  lemma FixedWordsWithoutTimeout(doc: string, words: seq<string>, timedOut: nat -> bool)
    requires forall i :: 0 <= i < |words| ==> !timedOut(i)
    ensures FixedWords(doc, words, timedOut) == RepairAll(doc, words)
  {
  }

  /** Once the budget is exceeded after token `i`, the output is the repair of tokens `0..i`
      followed by the rest of the tokens, verbatim. */
  lemma FixedWordsEarlyExit(doc: string, words: seq<string>, timedOut: nat -> bool, i: nat)
    requires i < |words| && timedOut(i)
    requires forall j :: 0 <= j < i ==> !timedOut(j)
    ensures FixedWords(doc, words, timedOut) == RepairAll(doc, words[..i + 1]) + words[i + 1..]
    ensures FixedWords(doc, words, timedOut)[|RepairAll(doc, words[..i + 1])|..] == words[i + 1..]
  {
    assert FirstTimeout(timedOut, |words|) == i;
  }

  /** Tokens that occur as whole words come out unchanged, however soon the budget runs out. */
  lemma FixedWordsKeepsWholeWords(doc: string, words: seq<string>, timedOut: nat -> bool)
    requires forall i :: 0 <= i < |words| ==> OccursAsWord(doc, words[i])
    ensures FixedWords(doc, words, timedOut) == words
  {
    var cut := FirstTimeout(timedOut, |words|);
    if cut < |words| {
      RepairAllKeepsWholeWords(doc, words[..cut + 1]);
      assert words[..cut + 1] + words[cut + 1..] == words;
    } else {
      RepairAllKeepsWholeWords(doc, words);
    }
  }

  /** Every word `fix_truncation` returns is one of its tokens, or a whole word of the document
      that extends one of them by one word character. */
  lemma FixedWordsProvenance(doc: string, words: seq<string>, timedOut: nat -> bool, x: string)
    requires x in FixedWords(doc, words, timedOut)
    ensures exists i :: (0 <= i < |words| &&
      (x == words[i] || (IsOneCharExtension(x, words[i]) && OccursAsWord(doc, x))))
  {
    var cut := FirstTimeout(timedOut, |words|);
    if cut < |words| {
      var done := words[..cut + 1];
      if x in RepairAll(doc, done) {
        RepairAllProvenance(doc, done, x);
        var i :| 0 <= i < |done| &&
          (x == done[i] || (IsOneCharExtension(x, done[i]) && OccursAsWord(doc, x)));
        assert words[i] == done[i];
      } else {
        var k :| 0 <= k < |words[cut + 1..]| && words[cut + 1..][k] == x;
        assert words[cut + 1 + k] == x;
      }
    } else {
      RepairAllProvenance(doc, words, x);
    }
  }

  /** A token whose last character is not a word character is never found as a whole word
      unless a word character follows it: such tokens (`foo?`, `bar!`) are taken for truncated. */
  lemma TrailingNonWordCharNeedsWordAfter(doc: string, w: string, p: int)
    requires |w| > 0 && !WordChar(w[|w| - 1])
    requires MatchesAt(doc, WholeWord(w), p)
    ensures p + |w| < |doc| && WordChar(doc[p + |w|])
  {
    assert doc[p + |w| - 1] == doc[p..p + |w|][|w| - 1];
  }

  /** A document holding "function" and the truncated token "functio": the token is completed. */
  lemma RepairCompletesTruncatedToken()
    ensures Repair("function", "functio") == ["function"]
  {
    var doc, w := "function", "functio";
    assert !MatchesAt(doc, WholeWord(w), 0) by {
      assert WordChar(doc[6]) && WordChar(doc[7]);
    }
    assert !MatchesAt(doc, WholeWord(w), 1) by {
      assert doc[1..8][0] != w[0];
    }
    assert Find(doc, WholeWord(w), 0).None?;
    assert doc[0..7] == w;
    assert MatchesAt(doc, WholeWordPlusOne(w), 0);
    assert FindAll(doc, WholeWordPlusOne(w), 8) == [];
    assert FindAll(doc, WholeWordPlusOne(w), 0) == [0];
    assert doc[0..8] == "function";
  }

  /** A document holding only "cat" and the token "cat": the token passes through. */
  lemma RepairKeepsWholeToken()
    ensures Repair("cat", "cat") == ["cat"]
  {
    assert "cat"[0..3] == "cat";
    assert MatchesAt("cat", WholeWord("cat"), 0);
  }
}
