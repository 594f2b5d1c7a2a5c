# Project Autocomplete: a Dafny model of the completion listener

This models the completion listener of the Sublime Text plugin that offers completions from the active view and from other project files (`project_completions.py`). When the editor asks for completions, the listener:

1. takes the tokens the editor extracted from the active view;
2. keeps the first `MAX_WORDS_PER_FILE` (200) of them and, among those, only tokens of `MIN_WORD_SIZE` (3) to `MAX_WORD_SIZE` (50) characters (`filter_words`);
3. repairs tokens the editor truncated by one character (`fix_truncation`):
   - a token that does not occur as a whole word is replaced by every whole word of the view that is the token plus one word character;
   - if no such word exists, the token is kept;
   - once the time budget is spent, the remaining tokens are passed through unchanged;
4. labels the view's words with the empty origin and appends the words of other files;
5. keeps the first candidate of every word (`without_duplicates`);
6. turns each candidate into an entry `(trigger, contents)`:
   - the trigger is the word, followed by a tab and the basename of its file in parentheses when the word comes from a file;
   - the contents is the word with every `$` escaped as `\$`.

Modules, one per file:

- `Candidates`: the constants, a candidate `(word, origin)`, and projecting or tagging lists of candidates.
- `WordFilter`: `filter_words`.
- `Deduplicator`: `without_duplicates`, as a method with its loop and as the function `Dedup` that specifies it.
- `TextSearch`: the editor's `find` and `find_all` for the two patterns the plugin builds:
  - `\b w \b`, modelled as `WholeWord`;
  - `\b w \w \b`, modelled as `WholeWordPlusOne`.

  Both work over the view's text as a string.
- `TruncationRepair`:
  - the per-token repair, as `Repair`;
  - the whole pass, as `RepairAll`;
  - the time-bounded loop, as the method `FixTruncation` and the function `FixedWords` that specifies it.
- `Completions`:
  - escaping and basenames;
  - entry formatting;
  - `get_words_from_view`, as the method `GetWordsFromView`;
  - `on_query_completions`, as the method `QueryCompletions`.

Inputs stand in for the editor:

- the view's text is `doc`;
- the tokens from `view.extract_completions` are `extracted`;
- the clock is an oracle `timedOut(i)`, which says whether the time budget is exhausted after token `i` has been handled;
- the candidates from other files are `fileWords`;
- the editor's reading of snippet contents is `Unescape`, in which only `\$` is special. `EscapeRoundTrip` and `EntryShape` prove that the word is inserted against this reader. A reader that also treats `\\` as an escape would not give back a word with a backslash before `$`, such as `\$1`.

The code checks the clock after handling token `i` and then appends `words[i+1:]`. So token `i` is repaired, and only the tokens after it pass through unchanged. The comment at project_completions.py:117-118 calls these "the remaining words"; the model follows line 120 (`FixedWordsEarlyExit`).

## Model

| member | source | states |
|---|---|---|
| Candidates.Words | project_completions.py:33 | the words of a candidate list, one per candidate, in order |
| Candidates.Tag | project_completions.py:50 | pairs every word with the given origin, keeping the words and their order |
| WordFilter.Capped | project_completions.py:74 | the capped list is the prefix of at most `MAX_WORDS_PER_FILE` tokens |
| WordFilter.KeepInBounds | project_completions.py:75 | keeps exactly the tokens whose length is within bounds, each as often as it occurred, as a subsequence |
| WordFilter.FilterWords | project_completions.py:73-75 | at most 200 results, each 3 to 50 characters long; an order-preserving subsequence of the first 200 tokens, keeping every in-bounds token with its multiplicity and dropping every other |
| WordFilter.FilterWordsMembership | project_completions.py:73-75 | a token survives the filter if and only if it is in bounds and among the first 200 |
| WordFilter.KeepInBoundsIdentity | project_completions.py:75 | a list whose tokens are all in bounds passes the length filter unchanged |
| WordFilter.FilterWordsIdempotent | project_completions.py:73-75 | filtering twice is filtering once |
| Deduplicator.FirstIndex | project_completions.py:84 | the position of the first occurrence of a word in a list |
| Deduplicator.Dedup | project_completions.py:80-87 | never longer than its input |
| Deduplicator.WithoutDuplicates | project_completions.py:80-87 | the loop computes `Dedup`; its result has no repeated word and has exactly the words of the input |
| Deduplicator.DedupNoDuplicates | project_completions.py:78-87 | no word occurs twice in the result |
| Deduplicator.DedupSameWords | project_completions.py:78-87 | a word is in the result if and only if it is in the input |
| Deduplicator.DedupKeepsFirstOccurrence | project_completions.py:78-86 | each kept candidate is the input's first candidate with that word, so its origin is the first one seen |
| Deduplicator.DedupFollowsFirstOccurrenceOrder | project_completions.py:78-86 | kept candidates are in the order of their words' first occurrences |
| Deduplicator.DedupSnoc | project_completions.py:83-86 | one loop step: a candidate is appended exactly when its word is not yet used |
| Deduplicator.DedupKeepsPrefix | project_completions.py:80-87 | deduplicating a longer list starts with the deduplication of its prefix |
| Deduplicator.FirstIndexPastPrefix | project_completions.py:84 | a word absent from a prefix is first found after it |
| Deduplicator.DedupAddedWordIsNew | project_completions.py:84-86 | a candidate kept beyond the prefix's result has a word the prefix does not contain |
| Deduplicator.DedupAddsFromSecond | project_completions.py:28-31 | after the first list's words, only candidates of the second list whose words the first lacks are kept |
| Deduplicator.DedupIdentity | project_completions.py:80-87 | a list without repeated words is returned unchanged |
| TextSearch.Find | project_completions.py:101 | a found match lies at or after the start position and within the text |
| TextSearch.FindIsLeftmost | project_completions.py:101 | `find` returns a match, and no match starts between the start position and it; nothing found means no match at all |
| TextSearch.FindAllReportsMatches | project_completions.py:106 | every region `find_all` reports is a match at or after the start position |
| TextSearch.FindAllIsOrdered | project_completions.py:106 | reported regions are left to right and do not overlap |
| TextSearch.FindAllEmptyIff | project_completions.py:106-107 | `find_all` reports nothing if and only if there is no match |
| TextSearch.FindAllStartsAtFirstMatch | project_completions.py:106 | the first region reported is the leftmost match |
| TextSearch.Texts | project_completions.py:106 | one text per start position |
| TextSearch.TextsAt | project_completions.py:106 | the k-th text is the slice of the document at the k-th start |
| TextSearch.FindAllTexts | project_completions.py:106 | one text (`$0`) per reported region |
| TextSearch.FindAllTextsAt | project_completions.py:106 | the k-th text is the document's text over the k-th reported region |
| TextSearch.TextOfFoundRegion | project_completions.py:106 | the text of every reported region is among the collected texts |
| TextSearch.WordChar | project_completions.py:104-106 | `\w`: an ASCII letter, digit or `_` |
| TextSearch.Boundary | project_completions.py:101-106 | `\b`: a word character on exactly one side of the position, with outside the text counting as non-word |
| TextSearch.MatchesAt | project_completions.py:101-106 | the pattern `\b w \b` or `\b w \w \b` matches at a position; see FindIsLeftmost and FindAllReportsMatches |
| TextSearch.FindAll | project_completions.py:106 | the starts of the regions `find_all` reports, each search resuming where the previous match ended; see FindAllReportsMatches, FindAllIsOrdered, FindAllEmptyIff |
| TruncationRepair.OccursAsWord | project_completions.py:101-102 | the token is found with a word boundary before and after, so it is not truncated; see RepairCases |
| TruncationRepair.ExtensionOccurs | project_completions.py:106-107 | the token plus one word character occurs as a whole word, so `extended_words` is not empty; see RepairCases, KeptTokenHasNoExtension |
| TruncationRepair.FlatMap | project_completions.py:96-115 | the words emitted token by token, appended in order to `fixed_words`; see FlatMapConcat, FlatMapElements |
| TruncationRepair.Repairer | project_completions.py:101-115 | the per-token repair as a function value for the pass; see RepairAll |
| TruncationRepair.ExtensionMatchIsWholeWord | project_completions.py:104-106 | the text of a match of the token plus one word character extends the token by one word character and is itself a whole word |
| TruncationRepair.ExtendedMatchesAreWholeWords | project_completions.py:104-108 | every collected extension is a one-character extension of the token and occurs as a whole word |
| TruncationRepair.Repair | project_completions.py:101-115 | a token always yields at least one word |
| TruncationRepair.RepairProvenance | project_completions.py:101-115 | a token yields only itself or whole words of the view that extend it by one word character |
| TruncationRepair.RepairCases | project_completions.py:101-115 | a whole-word token is kept; a truncated token with extensions becomes all of them, left to right; a truncated token without extensions is kept |
| TruncationRepair.RepairUnchangedIff | project_completions.py:101-115 | a token is left alone if and only if it occurs as a whole word or has no one-character extension in the view |
| TruncationRepair.KeptTokenHasNoExtension | project_completions.py:107-112 | a truncated token kept as is has no extension in the view |
| TruncationRepair.RepairIsStable | project_completions.py:101-115 | every word the repair yields is left alone by a second repair |
| TruncationRepair.ExtensionMatchIsWordRun | project_completions.py:106 | inside a match of an all-word-character token plus one character, every position holds a word character |
| TruncationRepair.ExtensionMatchesDoNotOverlap | project_completions.py:106 | two matches of an all-word-character token plus one character never overlap |
| TruncationRepair.FindAllFindsEveryExtension | project_completions.py:106 | `find_all` reports every match at or after its start, for an all-word-character token |
| TruncationRepair.ExtendedSearchIsComplete | project_completions.py:104-108 | every whole word of the view that extends an all-word-character token by one character is collected |
| TruncationRepair.WholeWordExtensionMatches | project_completions.py:106 | a whole-word occurrence of a one-character extension is a match of the extended pattern |
| TruncationRepair.FlatMapConcat | project_completions.py:96-115 | the words emitted for two token lists in sequence are the words emitted for each, concatenated |
| TruncationRepair.FlatMapNeverShrinks | project_completions.py:96-115 | when every token yields at least one word, the output is at least as long as the input |
| TruncationRepair.FlatMapOfFixedPoints | project_completions.py:96-115 | when every token yields just itself, the output is the input |
| TruncationRepair.FlatMapElements | project_completions.py:96-115 | every emitted word was emitted for some token |
| TruncationRepair.RepairAll | project_completions.py:96-115 | the full pass never shrinks the list |
| TruncationRepair.RepairAllKeepsWholeWords | project_completions.py:113-115 | a list of whole words passes unchanged |
| TruncationRepair.RepairAllIdempotent | project_completions.py:96-115 | repairing a repaired list changes nothing |
| TruncationRepair.RepairAllProvenance | project_completions.py:96-115 | every output word is a token or a whole-word one-character extension of a token |
| TruncationRepair.RepairAllStep | project_completions.py:96-115 | one loop iteration appends the repair of the current token |
| TruncationRepair.FirstTimeout | project_completions.py:117-120 | the index of the first exhausted time check, or the length when there is none; no earlier check was exhausted |
| TruncationRepair.FixedWords | project_completions.py:92-122 | the result is never shorter than the token list |
| TruncationRepair.FixTruncation | project_completions.py:92-122 | the loop, with its early return, computes `FixedWords` |
| TruncationRepair.FixedWordsWithoutTimeout | project_completions.py:122 | with no timeout, the result is the full repair pass |
| TruncationRepair.FixedWordsEarlyExit | project_completions.py:117-120 | at the first timeout after token `i`, tokens up to `i` are repaired and tokens after `i` follow unchanged |
| TruncationRepair.FixedWordsKeepsWholeWords | project_completions.py:113-115 | tokens that all occur as whole words come back unchanged whatever the clock says |
| TruncationRepair.FixedWordsProvenance | project_completions.py:92-122 | every output word is a token or a whole-word one-character extension of a token |
| TruncationRepair.TrailingNonWordCharNeedsWordAfter | project_completions.py:99-101 | a token ending in a non-word character is found only when a word character follows it, so `foo?` at the end of a word is reported as truncated |
| TruncationRepair.RepairCompletesTruncatedToken | project_completions.py:103-108 | `functio` in a view containing `function` is repaired to `function` |
| TruncationRepair.RepairKeepsWholeToken | project_completions.py:113-115 | a token found as a whole word is kept |
| Completions.Escape | project_completions.py:35 | `word.replace('$', '\\$')`: every `$` written `\$`; see EscapeShape, EscapeRoundTrip, EscapeWithoutDollar |
| Completions.Basename | project_completions.py:37 | `os.path.basename`: the path after its last `/`; see BasenameHasNoSeparator, BasenameIsLastComponent |
| Completions.ToCompletion | project_completions.py:34-38 | the entry of one candidate: the trigger is the word plus a tab and `(basename)` when the origin is non-empty, and the contents is the escaped word; see EntryShape |
| Completions.ViewCandidates | project_completions.py:42-50 | the view's tokens filtered, repaired and tagged with the empty origin; see ViewCandidatesProvenance |
| Completions.Entries | project_completions.py:23-39 | the entries the listener returns; see EntriesDistinct, EntriesCoverEveryWord, EntriesKeepFirstOrigin, EntriesViewFirst, EntriesThenFileWords |
| Completions.EscapeRoundTrip | project_completions.py:35 | unescaping the inserted contents gives back the word |
| Completions.EscapeShape | project_completions.py:35 | escaping adds one character per `$`, and every `$` of the contents is preceded by a backslash |
| Completions.EscapeWithoutDollar | project_completions.py:35 | a word without `$` is inserted as is |
| Completions.BasenameHasNoSeparator | project_completions.py:37 | the basename contains no `/` and is no longer than the path |
| Completions.BasenameIsLastComponent | project_completions.py:37 | the basename is the path's suffix after its last `/`, or the whole path when there is none |
| Completions.EntryShape | project_completions.py:33-38 | the contents inserts the word; the trigger starts with the word, and is the word alone if and only if the origin is empty |
| Completions.Format | project_completions.py:32-38 | one entry per candidate, in order, each that candidate's entry |
| Completions.FormatEntries | project_completions.py:32-38 | the formatting loop computes `Format` |
| Completions.GetWordsFromView | project_completions.py:42-50 | the view's candidates: filtered, repaired, tagged with the empty origin |
| Completions.ViewCandidatesProvenance | project_completions.py:42-50 | every view candidate has the empty origin and 3 to 51 characters; it is one of the first 200 extracted tokens that is in bounds, or a whole word of the view one word character longer than one |
| Completions.QueryCompletions | project_completions.py:23-39 | the listener returns the formatted deduplication of the view's candidates followed by the file words |
| Completions.FormatInsertsWords | project_completions.py:33-38 | each entry inserts the word of its candidate |
| Completions.EntriesDistinct | project_completions.py:31-38 | no two entries insert the same word |
| Completions.FormatDedupCovers | project_completions.py:31-38 | every candidate's word is inserted by some entry |
| Completions.EntriesCoverEveryWord | project_completions.py:28-38 | every word of the view or of a file is offered |
| Completions.EntriesKeepFirstOrigin | project_completions.py:26-38 | each entry is made from the first candidate of its word, so a word in the view and in a file is shown as the view's |
| Completions.DedupKeepsOrigin | project_completions.py:78-87 | deduplicating candidates that share one origin keeps that origin |
| Completions.EntriesViewFirst | project_completions.py:26-38 | the view's deduplicated words come first, as unlabelled entries |
| Completions.EntriesThenFileWords | project_completions.py:26-38 | after the view's entries come only file candidates whose words the view lacks, each formatted with its file label |
| Completions.BasenameExample | project_completions.py:37 | the label of `src/b.py` is `b.py` |
| Completions.DollarExample | project_completions.py:35 | `$el` from the view shows as `$el` and inserts `\$el` |

## Left out

- Reading other project files (`get_words_from_files` and `get_words_from_file`, project_completions.py:53-70) is file and JSON I/O. As written, the listener returns no entries at all, not even the view's words, because an exception leaves `on_query_completions`:
  - line 29 passes `view.window` without calling it, so `window.project_data()` at line 55 raises an attribute error;
  - were it called, `get_words_from_file` (68-70) returns `None`, and `filter_words(None)` at line 74 raises a type error;
  - nothing catches either exception.

  `QueryCompletions` models the listener with a working source of file words, the input `fileWords`.
- `MAX_FILES` is never used by the code.
- `view.extract_completions` is the editor's tokenizer. Its result is the input `extracted`. The `prefix` and `locations` arguments only select how it is called.
- `time.time()` and the 0.01 s budget are replaced by the oracle `timedOut`.
- `is_empty_match` differs between editor versions. The model reduces it to "a match was found". The editor-3 variant also treats an empty match as not found, which differs only for the empty token, and the length filter removes that token.
- The editor's regular expressions are modelled only for the two patterns the plugin builds. `\w` is the ASCII letters, digits and `_`; Unicode word characters are not modelled. `re.escape` is implicit, because the token is matched literally.
- `os.path.basename` is modelled with `/` as the only separator, as on POSIX.
- Registering the listener with the editor, and the event dispatch itself, are not modelled.
- TruncationRepair.ExtendedSearchIsComplete: completeness of the extension search is proved only for tokens made of word characters. For other tokens, overlapping matches can be skipped by `find_all`.
- The length filter runs before the repair, so a view word may have `MAX_WORD_SIZE + 1` characters. The bound in `ViewCandidatesProvenance` states 51, as the code behaves.
