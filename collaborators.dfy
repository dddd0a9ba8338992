/**
 * The foreign libraries the pipeline calls, as function values with the
 * contracts their documentation promises: Unicode NFKC normalisation, MeCab's
 * `-Oyomi` reading of a sentence, and fuzzywuzzy's scorers and extractors.
 */
module Collaborators {
  import opened Wrappers

  /** A fuzzywuzzy similarity score. */
  type Score = x: int | 0 <= x <= 100

  /** `fuzz.ratio` or `fuzz.partial_ratio`. */
  type Scorer = (string, string) -> Score

  /** `unicodedata.normalize("NFKC", s)`; the empty string normalises to itself. */
  type Nfkc = f: string -> string | f([]) == []
    witness (s: string) => s

  /**
   * `process.extractOne(query, choices, scorer=...)` with its default score
   * cutoff of 0: the best-scoring choice with its score, which is one of the
   * choices; nothing only when there are no choices.
   */
  type ExtractOne = f: (string, seq<string>) -> Option<(string, Score)>
    | forall q, cs :: (f(q, cs).Some? ==> f(q, cs).value.0 in cs) && (f(q, cs).None? <==> cs == [])
    witness (q: string, cs: seq<string>) => if cs == [] then None else Some((cs[0], 0))

  /** `extractOne` answers exactly when there are choices, and with one of them. */
  lemma ExtractOneAnswers(f: ExtractOne, q: string, cs: seq<string>)
    ensures f(q, cs).Some? <==> cs != []
    ensures f(q, cs).Some? ==> f(q, cs).value.0 in cs
  {
  }

  /** The choices of a list of `(choice, score)` pairs. */
  function Choices(ps: seq<(string, Score)>): (r: seq<string>)
    ensures |r| == |ps|
    ensures forall k :: 0 <= k < |ps| ==> r[k] == ps[k].0
  {
    seq(|ps|, k requires 0 <= k < |ps| => ps[k].0)
  }

  /**
   * `process.extractBests(query, choices, scorer=scorer)` with its default
   * limit of 5: at most five `(choice, score)` pairs, each naming a different
   * position of the choices, so the returned choices form a sub-multiset of
   * the choices.
   */
  type ExtractBests = f: (string, seq<string>, Scorer) -> seq<(string, Score)>
    | forall q, cs, scorer :: |f(q, cs, scorer)| <= 5 && multiset(Choices(f(q, cs, scorer))) <= multiset(cs)
    witness (q: string, cs: seq<string>, scorer: Scorer) => []

  /** What `extractBests` promises, for one call. */
  lemma ExtractBestsAnswers(f: ExtractBests, q: string, cs: seq<string>, scorer: Scorer)
    ensures |f(q, cs, scorer)| <= 5
    ensures multiset(Choices(f(q, cs, scorer))) <= multiset(cs)
  {
  }

  /** The collaborators one run of the pipeline uses. */
  datatype Env = Env(
    nfkc: Nfkc,
    reading: string -> string,  // MeCab `Tagger("-Oyomi").parse`
    ratio: Scorer,              // `fuzz.ratio`
    partialRatio: Scorer,       // `fuzz.partial_ratio`
    extractOne: ExtractOne,
    extractBests: ExtractBests)
}
