/**
 * `scoreText` of routes/match.js with its integer accumulators. The weighted
 * values `count * weight` are integers, so `numerator`, `rMag` and `jMag` are
 * exact; the final `Math.sqrt` and division are floating point and are not
 * computed here: the result is the triple the division is applied to.
 */
module Scoring {
  import opened Tokenizer
  import opened TermFreq

  /** `KEYWORD_WEIGHTS`. */
  const KeywordWeights: map<string, nat> := map[
    "javascript" := 3, "node" := 3, "sql" := 3, "react" := 3,
    "api" := 2, "backend" := 2, "frontend" := 2, "internship" := 2
  ]

  /** `KEYWORD_WEIGHTS[w] || 1`: the table's weight, 1 for any other term. */
  function Weight(w: string): (k: nat)
    ensures 1 <= k <= 3
    ensures k == 3 <==> w in {"javascript", "node", "sql", "react"}
    ensures k == 2 <==> w in {"api", "backend", "frontend", "internship"}
  {
    if w in KeywordWeights then KeywordWeights[w] else 1
  }

  /** `count * weight` for one side. */
  function Weighted(tf: map<string, nat>, w: string): nat {
    Get(tf, w) * Weight(w)
  }

  /** The sum over `terms` of the products of the two sides' weighted values:
      `numerator` for (résumé, job), `rMag` for (résumé, résumé), `jMag` for (job, job). */
  function Dot(terms: seq<string>, a: map<string, nat>, b: map<string, nat>): int {
    if terms == [] then 0
    else
      var w := terms[|terms| - 1];
      Dot(terms[..|terms| - 1], a, b) + Weighted(a, w) * Weighted(b, w)
  }

  /** What `scoreText` divides: nothing when it returns 0 early for an empty text,
      otherwise the numerator and both squared magnitudes. The floating-point score
      is `numerator / (sqrt(rMag) * sqrt(jMag) || 1)`. */
  datatype Similarity = EmptyInput | Cosine(numerator: int, rMag: int, jMag: int)

  /** The floating-point score is exactly 0 here: the early return, or a zero numerator
      over a denominator that is positive or replaced by 1. */
  predicate RawScoreIsZero(s: Similarity) {
    s.EmptyInput? || s.numerator == 0
  }

  /** The terms `scoreText` iterates: the distinct tokens of the résumé, then those of
      the job it has not seen. */
  function UnionTerms(rWords: seq<string>, jWords: seq<string>): seq<string> {
    Distinct(rWords + jWords)
  }

  /** The specification of `scoreText`: the early return exactly for an empty text,
      otherwise the three sums over the union of the two texts' terms. */
  function SimilarityOf(resumeText: string, jobText: string): (s: Similarity)
    ensures s.EmptyInput? <==> resumeText == [] || jobText == []
  {
    if resumeText == [] || jobText == [] then EmptyInput
    else
      var rWords := Tokenize(resumeText);
      var jWords := Tokenize(jobText);
      var rTF := TF(rWords);
      var jTF := TF(jWords);
      var terms := UnionTerms(rWords, jWords);
      Cosine(Dot(terms, rTF, jTF), Dot(terms, rTF, rTF), Dot(terms, jTF, jTF))
  }

  /** The loop of `scoreText`: accumulate `numerator`, `rMag` and `jMag` over `terms`. */
  method Accumulate(terms: seq<string>, rTF: map<string, nat>, jTF: map<string, nat>)
    returns (numerator: int, rMag: int, jMag: int)
    ensures numerator == Dot(terms, rTF, jTF)
    ensures rMag == Dot(terms, rTF, rTF)
    ensures jMag == Dot(terms, jTF, jTF)
  {
    numerator, rMag, jMag := 0, 0, 0;
    for i := 0 to |terms|
      invariant numerator == Dot(terms[..i], rTF, jTF)
      invariant rMag == Dot(terms[..i], rTF, rTF)
      invariant jMag == Dot(terms[..i], jTF, jTF)
    {
      var w := terms[i];
      var rw := Get(rTF, w) * Weight(w);
      var jw := Get(jTF, w) * Weight(w);
      assert rw == Weighted(rTF, w) && jw == Weighted(jTF, w);
      DotStep(terms, i, rTF, jTF);
      DotStep(terms, i, rTF, rTF);
      DotStep(terms, i, jTF, jTF);
      numerator := numerator + rw * jw;
      rMag := rMag + rw * rw;
      jMag := jMag + jw * jw;
    }
    assert terms[..|terms|] == terms;
  }

  /** One more term adds its product to the sum. */
  lemma DotStep(terms: seq<string>, i: nat, a: map<string, nat>, b: map<string, nat>)
    requires i < |terms|
    ensures Dot(terms[..i + 1], a, b) == Dot(terms[..i], a, b) + Weighted(a, terms[i]) * Weighted(b, terms[i])
  {
    assert terms[..i + 1][..i] == terms[..i];
  }

  /** `scoreText(resumeText, jobText)` up to the final division. */
  method ScoreText(resumeText: string, jobText: string) returns (s: Similarity)
    ensures s.EmptyInput? <==> resumeText == [] || jobText == []
    ensures s == SimilarityOf(resumeText, jobText)
  {
    if resumeText == [] || jobText == [] {
      return EmptyInput;
    }
    var rWords := Tokenize(resumeText);
    var jWords := Tokenize(jobText);
    var rTF := BuildTF(rWords);
    var jTF := BuildTF(jWords);
    var numerator, rMag, jMag := Accumulate(UnionTerms(rWords, jWords), rTF, jTF);
    return Cosine(numerator, rMag, jMag);
  }
}
