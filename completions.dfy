/** The completion listener: the words of the active view (filtered and repaired), then the
    words of other files, deduplicated and turned into (trigger, contents) entries. */
module Completions {
  import opened Candidates
  import opened WordFilter
  import opened Deduplicator
  import opened TruncationRepair

  /** The insertion text of an entry: every `$` is written `\$`, since the editor reads the
      contents as a snippet in which a bare `$` starts a field. */
  function Escape(s: string): string {
    if s == [] then []
    else (if s[0] == '$' then "\\$" else [s[0]]) + Escape(s[1..])
  }

  /** How the editor reads snippet contents back: `\$` stands for a literal `$`. */
  function Unescape(s: string): string {
    if s == [] then []
    else if |s| >= 2 && s[0] == '\\' && s[1] == '$' then "$" + Unescape(s[2..])
    else [s[0]] + Unescape(s[1..])
  }

  /** Inserting an escaped word inserts exactly the word. */
  lemma {:induction false} EscapeRoundTrip(s: string)
    ensures Unescape(Escape(s)) == s
  {
    if s != [] {
      EscapeRoundTrip(s[1..]);
      var rest := Escape(s[1..]);
      if s[0] == '$' {
        assert Escape(s) == "\\$" + rest;
        assert ("\\$" + rest)[2..] == rest;
      } else {
        assert Escape(s) == [s[0]] + rest;
        assert ([s[0]] + rest)[1..] == rest;
        if |s| > 1 {
          assert rest == (if s[1] == '$' then "\\$" else [s[1]]) + Escape(s[2..]);
        }
      }
    }
  }

  /** Escaping adds one character per `$`, and leaves no `$` without a backslash before it. */
  lemma {:induction false} EscapeShape(s: string)
    ensures |Escape(s)| == |s| + multiset(s)['$']
    ensures forall i :: 0 <= i < |Escape(s)| && Escape(s)[i] == '$' ==> 0 < i && Escape(s)[i - 1] == '\\'
  {
    if s != [] {
      EscapeShape(s[1..]);
      assert s == [s[0]] + s[1..];
      var rest := Escape(s[1..]);
      var head := if s[0] == '$' then "\\$" else [s[0]];
      assert Escape(s) == head + rest;
      forall i | 0 <= i < |head + rest| && (head + rest)[i] == '$'
        ensures 0 < i && (head + rest)[i - 1] == '\\'
      {
        if i >= |head| {
          assert (head + rest)[i] == rest[i - |head|];
          if i - |head| > 0 {
            assert (head + rest)[i - 1] == rest[i - |head| - 1];
          }
        }
      }
    }
  }

  /** A word without `$` is inserted as it is. */
  lemma {:induction false} EscapeWithoutDollar(s: string)
    requires '$' !in s
    ensures Escape(s) == s
  {
    if s != [] {
      assert s[0] != '$';
      assert '$' !in s[1..] by {
        assert forall i :: 0 <= i < |s[1..]| ==> s[1..][i] == s[i + 1];
      }
      EscapeWithoutDollar(s[1..]);
      assert s == [s[0]] + s[1..];
    }
  }

  /** `os.path.basename` with `/` as separator: what follows the last `/`. */
  function Basename(path: string): string {
    if path == [] then []
    else if path[|path| - 1] == '/' then []
    else Basename(path[..|path| - 1]) + [path[|path| - 1]]
  }

  /** The basename holds no `/`. */
  lemma {:induction false} BasenameHasNoSeparator(path: string)
    ensures '/' !in Basename(path) && |Basename(path)| <= |path|
  {
    if path != [] && path[|path| - 1] != '/' {
      BasenameHasNoSeparator(path[..|path| - 1]);
    }
  }

  /** The basename is a suffix of the path: either the whole path or what follows its last `/`. */
  lemma {:induction false} BasenameIsLastComponent(path: string)
    ensures |Basename(path)| <= |path| && Basename(path) == path[|path| - |Basename(path)|..]
    ensures |Basename(path)| < |path| ==> path[|path| - |Basename(path)| - 1] == '/'
  {
    if path != [] && path[|path| - 1] != '/' {
      var init, last := path[..|path| - 1], path[|path| - 1];
      BasenameIsLastComponent(init);
      var b := Basename(init);
      var start := |init| - |b|;
      assert init[start..] == path[start..|path| - 1];
      assert path[start..] == path[start..|path| - 1] + [last];
      if start > 0 {
        assert init[start - 1] == path[start - 1];
      }
    }
  }

  /** One completion entry: what the popup shows and what is inserted. */
  datatype Completion = Completion(trigger: string, contents: string)

  /** The entry for one candidate: the word, labelled with the basename of its file when it
      does not come from the active view; the contents is the escaped word. */
  function ToCompletion(c: Candidate): Completion {
    var trigger := if |c.origin| > 0 then c.word + ("\t(" + Basename(c.origin) + ")") else c.word;
    Completion(trigger, Escape(c.word))
  }

  /** The contents of an entry inserts its word; the trigger starts with the word and is the
      word alone exactly when the candidate comes from the active view. */
  lemma EntryShape(c: Candidate)
    ensures Unescape(ToCompletion(c).contents) == c.word
    ensures |c.word| <= |ToCompletion(c).trigger| && ToCompletion(c).trigger[..|c.word|] == c.word
    ensures ToCompletion(c).trigger == c.word <==> c.origin == ""
  {
    EscapeRoundTrip(c.word);
  }

  /** Every candidate turned into its entry. */
  function Format(cs: seq<Candidate>): (ms: seq<Completion>)
    ensures |ms| == |cs|
    ensures forall k :: 0 <= k < |cs| ==> ms[k] == ToCompletion(cs[k])
  {
    seq(|cs|, k requires 0 <= k < |cs| => ToCompletion(cs[k]))
  }

  /** The candidates of the active view: filtered, repaired, labelled with the empty origin. */
  function ViewCandidates(doc: string, extracted: seq<string>, timedOut: nat -> bool): seq<Candidate> {
    Tag(FixedWords(doc, FilterWords(extracted), timedOut), "")
  }

  /** `get_words_from_view`, given the tokens the editor extracted from the view. */
  method GetWordsFromView(doc: string, extracted: seq<string>, timedOut: nat -> bool)
    returns (words: seq<Candidate>)
    ensures words == ViewCandidates(doc, extracted, timedOut)
  {
    var filtered := FilterWords(extracted);
    var fixedWords := FixTruncation(doc, filtered, timedOut);
    words := Tag(fixedWords, "");
  }

  /** Every view candidate has the empty origin, a length of at least `MIN_WORD_SIZE` and at
      most one more than `MAX_WORD_SIZE`, and is one of the first `MAX_WORDS_PER_FILE` extracted
      tokens or a whole word of the view one word character longer than one of them. */
  lemma ViewCandidatesProvenance(doc: string, extracted: seq<string>, timedOut: nat -> bool, k: nat)
    requires k < |ViewCandidates(doc, extracted, timedOut)|
    ensures ViewCandidates(doc, extracted, timedOut)[k].origin == ""
    ensures MIN_WORD_SIZE <= |ViewCandidates(doc, extracted, timedOut)[k].word| <= MAX_WORD_SIZE + 1
    ensures exists i :: (0 <= i < |extracted| && i < MAX_WORDS_PER_FILE && InBounds(extracted[i]) &&
      (ViewCandidates(doc, extracted, timedOut)[k].word == extracted[i] ||
       (IsOneCharExtension(ViewCandidates(doc, extracted, timedOut)[k].word, extracted[i]) &&
        OccursAsWord(doc, ViewCandidates(doc, extracted, timedOut)[k].word))))
  {
    var filtered := FilterWords(extracted);
    var fixedWords := FixedWords(doc, filtered, timedOut);
    var x := fixedWords[k];
    FixedWordsProvenance(doc, filtered, timedOut, x);
    var j :| 0 <= j < |filtered| && (x == filtered[j] || (IsOneCharExtension(x, filtered[j]) && OccursAsWord(doc, x)));
    FilterWordsMembership(extracted, filtered[j]);
    var capped := Capped(extracted);
    var i :| 0 <= i < |capped| && capped[i] == filtered[j];
    assert extracted[i] == filtered[j];
  }

  /** The list the listener returns for a query. */
  function Entries(doc: string, extracted: seq<string>, timedOut: nat -> bool, fileWords: seq<Candidate>)
    : seq<Completion>
  {
    Format(Dedup(ViewCandidates(doc, extracted, timedOut) + fileWords))
  }

  /** The loop of `on_query_completions` that turns each deduplicated candidate into its entry. */
  method FormatEntries(words: seq<Candidate>) returns (matches: seq<Completion>)
    ensures matches == Format(words)
  {
    matches := [];
    for i := 0 to |words|
      invariant |matches| == i
      invariant forall k :: 0 <= k < i ==> matches[k] == ToCompletion(words[k])
    {
      var c := words[i];
      var trigger := c.word;
      var contents := Escape(c.word);
      if |c.origin| > 0 {
        trigger := trigger + ("\t(" + Basename(c.origin) + ")");
      }
      matches := matches + [Completion(trigger, contents)];
    }
  }

  /** `on_query_completions`: the view's words, then the words of other files, deduplicated and
      formatted one by one. */
  method QueryCompletions(doc: string, extracted: seq<string>, timedOut: nat -> bool,
                          fileWords: seq<Candidate>)
    returns (matches: seq<Completion>)
    ensures matches == Entries(doc, extracted, timedOut, fileWords)
  {
    var words := GetWordsFromView(doc, extracted, timedOut);
    words := words + fileWords;
    words := WithoutDuplicates(words);
    matches := FormatEntries(words);
  }

  /** Each entry inserts the word of the candidate it was made from. */
  lemma FormatInsertsWords(cs: seq<Candidate>)
    ensures forall k :: 0 <= k < |cs| ==> Unescape(Format(cs)[k].contents) == cs[k].word
  {
    forall k | 0 <= k < |cs|
      ensures Unescape(Format(cs)[k].contents) == cs[k].word
    {
      EntryShape(cs[k]);
    }
  }

  /** No word is offered twice. */
  lemma EntriesDistinct(doc: string, extracted: seq<string>, timedOut: nat -> bool,
                        fileWords: seq<Candidate>)
    ensures var ms := Entries(doc, extracted, timedOut, fileWords);
      forall i, j :: 0 <= i < j < |ms| ==> Unescape(ms[i].contents) != Unescape(ms[j].contents)
  {
    FormatInsertsWords(Dedup(ViewCandidates(doc, extracted, timedOut) + fileWords));
    DedupNoDuplicates(ViewCandidates(doc, extracted, timedOut) + fileWords);
  }

  /** Deduplicating and formatting a list of candidates offers every word of the list. */
  lemma FormatDedupCovers(cs: seq<Candidate>, c: Candidate)
    requires c in cs
    ensures exists k :: 0 <= k < |Format(Dedup(cs))| && Unescape(Format(Dedup(cs))[k].contents) == c.word
  {
    var d := Dedup(cs);
    FormatInsertsWords(d);
    DedupSameWords(cs);
    var i :| 0 <= i < |cs| && cs[i] == c;
    assert Words(cs)[i] == c.word;
    assert c.word in Words(d);
    var k :| 0 <= k < |d| && Words(d)[k] == c.word;
    assert Unescape(Format(d)[k].contents) == c.word;
  }

  /** Every candidate word, from the view or from a file, is offered. */
  lemma EntriesCoverEveryWord(doc: string, extracted: seq<string>, timedOut: nat -> bool,
                              fileWords: seq<Candidate>, c: Candidate)
    requires c in ViewCandidates(doc, extracted, timedOut) + fileWords
    ensures var ms := Entries(doc, extracted, timedOut, fileWords);
      exists k :: 0 <= k < |ms| && Unescape(ms[k].contents) == c.word
  {
    var all := ViewCandidates(doc, extracted, timedOut) + fileWords;
    FormatDedupCovers(all, c);
    var k :| 0 <= k < |Format(Dedup(all))| && Unescape(Format(Dedup(all))[k].contents) == c.word;
    assert Entries(doc, extracted, timedOut, fileWords)[k] == Format(Dedup(all))[k];
  }

  /** Each entry is made from the earliest candidate of its word, so a word found in the view
      and in a file is attributed to the view. */
  lemma EntriesKeepFirstOrigin(doc: string, extracted: seq<string>, timedOut: nat -> bool,
                               fileWords: seq<Candidate>, k: nat)
    requires k < |Entries(doc, extracted, timedOut, fileWords)|
    ensures var all := ViewCandidates(doc, extracted, timedOut) + fileWords;
      var w := Unescape(Entries(doc, extracted, timedOut, fileWords)[k].contents);
      w in Words(all) && Entries(doc, extracted, timedOut, fileWords)[k] == ToCompletion(all[FirstIndex(Words(all), w)])
  {
    var all := ViewCandidates(doc, extracted, timedOut) + fileWords;
    DedupKeepsFirstOccurrence(all);
    EntryShape(Dedup(all)[k]);
    assert Dedup(all)[k].word in Words(Dedup(all));
  }

  /** Deduplication keeps origins: from a list of candidates of one origin it keeps only
      candidates of that origin. */
  lemma DedupKeepsOrigin(cs: seq<Candidate>, origin: string)
    requires forall i :: 0 <= i < |cs| ==> cs[i].origin == origin
    ensures forall k :: 0 <= k < |Dedup(cs)| ==> Dedup(cs)[k].origin == origin
  {
    DedupKeepsFirstOccurrence(cs);
  }

  /** The view's entries come first, untouched by the file words, and are shown without a label. */
  lemma EntriesViewFirst(doc: string, extracted: seq<string>, timedOut: nat -> bool,
                         fileWords: seq<Candidate>)
    ensures var view := Dedup(ViewCandidates(doc, extracted, timedOut));
      var ms := Entries(doc, extracted, timedOut, fileWords);
      |view| <= |ms| &&
      forall k :: 0 <= k < |view| ==> ms[k] == ToCompletion(view[k]) && ms[k].trigger == view[k].word
  {
    var a := ViewCandidates(doc, extracted, timedOut);
    var d, view := Dedup(a + fileWords), Dedup(a);
    DedupKeepsPrefix(a, fileWords);
    DedupKeepsOrigin(a, "");
    forall k | 0 <= k < |view|
      ensures Format(d)[k] == ToCompletion(view[k]) && Format(d)[k].trigger == view[k].word
    {
      assert d[k] == d[..|view|][k];
      EntryShape(view[k]);
    }
  }

  /** The entries after the view's are made from file candidates whose words the view lacks. */
  lemma EntriesThenFileWords(doc: string, extracted: seq<string>, timedOut: nat -> bool,
                             fileWords: seq<Candidate>)
    ensures var view := ViewCandidates(doc, extracted, timedOut);
      var kept := Dedup(view + fileWords);
      var ms := Entries(doc, extracted, timedOut, fileWords);
      |ms| == |kept| &&
      forall k :: |Dedup(view)| <= k < |ms| ==>
        kept[k] in fileWords && kept[k].word !in Words(view) && ms[k] == ToCompletion(kept[k])
  {
    DedupAddsFromSecond(ViewCandidates(doc, extracted, timedOut), fileWords);
  }

  /** The basename of a relative path with one directory. */
  lemma BasenameExample()
    ensures Basename("src/b.py") == "b.py"
  {
    assert "src/"[3] == '/';
    assert "src/b"[..4] == "src/";
    assert "src/b."[..5] == "src/b";
    assert "src/b.p"[..6] == "src/b.";
    assert "src/b.py"[..7] == "src/b.p";
  }

  /** A word holding `$` is inserted escaped and shown as it is. */
  lemma DollarExample()
    ensures ToCompletion(Candidate("$el", "")) == Completion("$el", "\\$el")
  {
    assert Escape("$el") == "\\$" + Escape("el");
    EscapeWithoutDollar("el");
  }
}
