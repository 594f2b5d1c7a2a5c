/** The editor's text search, over the document's text: `view.find` and `view.find_all`
    for the two patterns the plugin builds, `\b w \b` and `\b w \w \b`, with `w` escaped
    so that it matches literally. */
module TextSearch {

  datatype Option<T> = None | Some(value: T)

  /** A character matched by `\w`. */
  predicate WordChar(c: char) {
    ('a' <= c <= 'z') || ('A' <= c <= 'Z') || ('0' <= c <= '9') || c == '_'
  }

  predicate WordAt(doc: string, i: int) {
    0 <= i < |doc| && WordChar(doc[i])
  }

  /** `\b` holds at position `i`, between `doc[i - 1]` and `doc[i]`; outside the text counts as non-word. */
  predicate Boundary(doc: string, i: int) {
    WordAt(doc, i - 1) != WordAt(doc, i)
  }

  datatype Pattern =
    | WholeWord(w: string)         // \b w \b
    | WholeWordPlusOne(w: string)  // \b w \w \b

  function MatchLength(pat: Pattern): nat {
    match pat
    case WholeWord(w) => |w|
    case WholeWordPlusOne(w) => |w| + 1
  }

  /** `w` is written in the text starting at position `p`. */
  predicate TextAt(doc: string, p: nat, w: string)
    requires p + |w| <= |doc|
  {
    forall i :: 0 <= i < |w| ==> doc[p + i] == w[i]
  }

  /** The pattern matches the text starting at position `p`. */
  predicate MatchesAt(doc: string, pat: Pattern, p: int) {
    0 <= p && p + MatchLength(pat) <= |doc| &&
    Boundary(doc, p) && TextAt(doc, p, pat.w) &&
    match pat
    case WholeWord(w) => Boundary(doc, p + |w|)
    case WholeWordPlusOne(w) => WordChar(doc[p + |w|]) && Boundary(doc, p + |w| + 1)
  }

  /** `view.find(pattern, from)`: the leftmost match starting at or after `from`, if any. */
  function Find(doc: string, pat: Pattern, from: nat): (r: Option<nat>)
    ensures r.Some? ==> from <= r.value && r.value + MatchLength(pat) <= |doc|
    decreases |doc| + 1 - from
  {
    if |doc| < from + MatchLength(pat) then None
    else if MatchesAt(doc, pat, from) then Some(from)
    else Find(doc, pat, from + 1)
  }

  /** `find` returns the leftmost match: what it returns is a match, nothing matches between
      `from` and it, and nothing at all at or after `from` when it returns nothing. */
  lemma {:induction false} FindIsLeftmost(doc: string, pat: Pattern, from: nat)
    ensures Find(doc, pat, from).Some? ==> MatchesAt(doc, pat, Find(doc, pat, from).value)
    ensures forall p :: from <= p && (Find(doc, pat, from).None? || p < Find(doc, pat, from).value) ==>
      !MatchesAt(doc, pat, p)
    decreases |doc| + 1 - from
  {
    if from + MatchLength(pat) <= |doc| && !MatchesAt(doc, pat, from) {
      FindIsLeftmost(doc, pat, from + 1);
    }
  }

  /** How far a search resumes after a match: past its end, or one step on after an empty match. */
  function Step(pat: Pattern): nat {
    if MatchLength(pat) == 0 then 1 else MatchLength(pat)
  }

  /** The regions `view.find_all(pattern, from)` finds, by their start: every match, left to
      right, each search resuming where the previous match ended. */
  function FindAll(doc: string, pat: Pattern, from: nat): (starts: seq<nat>)
    decreases |doc| + 1 - from
  {
    match Find(doc, pat, from)
    case None => []
    case Some(p) => [p] + FindAll(doc, pat, p + Step(pat))
  }

  /** Every region `find_all` reports is a match at or after `from`. */
  lemma {:induction false} FindAllReportsMatches(doc: string, pat: Pattern, from: nat)
    ensures forall k :: 0 <= k < |FindAll(doc, pat, from)| ==>
      from <= FindAll(doc, pat, from)[k] && MatchesAt(doc, pat, FindAll(doc, pat, from)[k])
    decreases |doc| + 1 - from
  {
    var r := FindAll(doc, pat, from);
    match Find(doc, pat, from)
    case None =>
    case Some(p) =>
      var rest := FindAll(doc, pat, p + Step(pat));
      FindIsLeftmost(doc, pat, from);
      FindAllReportsMatches(doc, pat, p + Step(pat));
      assert r == [p] + rest;
      forall k | 0 < k < |r|
        ensures from <= r[k] && MatchesAt(doc, pat, r[k])
      {
        assert r[k] == rest[k - 1];
      }
  }

  /** The regions come left to right, each starting where the search resumed after the previous one. */
  lemma {:induction false} FindAllIsOrdered(doc: string, pat: Pattern, from: nat)
    ensures forall k :: 0 <= k < |FindAll(doc, pat, from)| ==> from <= FindAll(doc, pat, from)[k]
    ensures forall i, j :: 0 <= i < j < |FindAll(doc, pat, from)| ==>
      FindAll(doc, pat, from)[i] + Step(pat) <= FindAll(doc, pat, from)[j]
    decreases |doc| + 1 - from
  {
    var r := FindAll(doc, pat, from);
    match Find(doc, pat, from)
    case None =>
    case Some(p) =>
      var rest := FindAll(doc, pat, p + Step(pat));
      FindAllIsOrdered(doc, pat, p + Step(pat));
      assert r == [p] + rest;
      forall i, j | 0 <= i < j < |r|
        ensures r[i] + Step(pat) <= r[j]
      {
        assert r[j] == rest[j - 1];
        if i > 0 {
          assert r[i] == rest[i - 1];
        }
      }
  }

  /** `find_all` finds nothing exactly when the pattern matches nowhere at or after `from`. */
  lemma FindAllEmptyIff(doc: string, pat: Pattern, from: nat)
    ensures FindAll(doc, pat, from) == [] <==> forall p :: from <= p ==> !MatchesAt(doc, pat, p)
  {
    FindIsLeftmost(doc, pat, from);
  }

  /** The first region `find_all` reports is the leftmost match. */
  lemma FindAllStartsAtFirstMatch(doc: string, pat: Pattern, from: nat, p: nat)
    requires MatchesAt(doc, pat, p) && from <= p
    requires forall q :: from <= q < p ==> !MatchesAt(doc, pat, q)
    ensures FindAll(doc, pat, from) != [] && FindAll(doc, pat, from)[0] == p
  {
    FindIsLeftmost(doc, pat, from);
  }

  /** The texts of regions of length `len` starting at `starts`. */
  function Texts(doc: string, starts: seq<nat>, len: nat): (r: seq<string>)
    requires forall k :: 0 <= k < |starts| ==> starts[k] + len <= |doc|
    ensures |r| == |starts|
  {
    if starts == [] then []
    else [doc[starts[0]..starts[0] + len]] + Texts(doc, starts[1..], len)
  }

  /** The k-th text is the text of the k-th region. */
  lemma {:induction false} TextsAt(doc: string, starts: seq<nat>, len: nat, k: nat)
    requires forall k :: 0 <= k < |starts| ==> starts[k] + len <= |doc|
    requires k < |starts|
    ensures Texts(doc, starts, len)[k] == doc[starts[k]..starts[k] + len]
  {
    if k > 0 {
      TextsAt(doc, starts[1..], len, k - 1);
    }
  }

  /** `view.find_all(pattern, from, "$0", out)`: the text of every region `find_all` finds. */
  function FindAllTexts(doc: string, pat: Pattern, from: nat): (r: seq<string>)
    ensures |r| == |FindAll(doc, pat, from)|
  {
    FindAllReportsMatches(doc, pat, from);
    Texts(doc, FindAll(doc, pat, from), MatchLength(pat))
  }

  /** The k-th text is the text of the k-th region. */
  lemma FindAllTextsAt(doc: string, pat: Pattern, from: nat, k: nat)
    requires k < |FindAll(doc, pat, from)|
    ensures FindAll(doc, pat, from)[k] + MatchLength(pat) <= |doc|
    ensures FindAllTexts(doc, pat, from)[k] == doc[FindAll(doc, pat, from)[k]..FindAll(doc, pat, from)[k] + MatchLength(pat)]
  {
    FindAllReportsMatches(doc, pat, from);
    TextsAt(doc, FindAll(doc, pat, from), MatchLength(pat), k);
  }

  /** The text of every region `find_all` finds is among the texts it reports. */
  lemma TextOfFoundRegion(doc: string, pat: Pattern, from: nat, p: nat)
    requires p in FindAll(doc, pat, from)
    ensures p + MatchLength(pat) <= |doc|
    ensures doc[p..p + MatchLength(pat)] in FindAllTexts(doc, pat, from)
  {
    var k :| 0 <= k < |FindAll(doc, pat, from)| && FindAll(doc, pat, from)[k] == p;
    FindAllTextsAt(doc, pat, from, k);
  }
}
