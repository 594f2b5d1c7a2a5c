/** Tunable limits and the candidate word that flows through the completion pipeline. */
module Candidates {

  /** Shortest and longest word offered as a completion (inclusive). */
  const MIN_WORD_SIZE: nat := 3
  const MAX_WORD_SIZE: nat := 50

  /** Declared by the plugin as a cap on the number of files; nothing reads it. */
  const MAX_FILES: nat := 50

  /** Number of raw tokens of one source that are considered at all. */
  const MAX_WORDS_PER_FILE: nat := 200

  /** A completion candidate: the word and where it came from.
      The origin is "" for the active view and a file name otherwise. */
  datatype Candidate = Candidate(word: string, origin: string)

  /** The words of a list of candidates, in order. */
  function Words(cs: seq<Candidate>): (ws: seq<string>)
    ensures |ws| == |cs|
    ensures forall i :: 0 <= i < |cs| ==> ws[i] == cs[i].word
  {
    seq(|cs|, i requires 0 <= i < |cs| => cs[i].word)
  }

  /** Pairs every word with the same origin label. */
  function Tag(ws: seq<string>, origin: string): (cs: seq<Candidate>)
    ensures |cs| == |ws|
    ensures forall i :: 0 <= i < |ws| ==> cs[i] == Candidate(ws[i], origin)
  {
    seq(|ws|, i requires 0 <= i < |ws| => Candidate(ws[i], origin))
  }
}
