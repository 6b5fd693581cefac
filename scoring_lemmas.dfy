/**
 * What `scoreText` of routes/match.js promises about its integer accumulators:
 * the zero cases, `numerator^2 <= rMag * jMag` (so the floating-point score lies
 * in [0, 1]), and symmetry in the two texts.
 */
module ScoringLemmas {
  import opened Tokenizer
  import opened TermFreq
  import opened Scoring

  // ------------------------------------------------------ arithmetic steps

  lemma ScaleLe(p: int, q: int, f: int)
    requires p <= q && f >= 0
    ensures p * f <= q * f
  {
  }

  lemma SquareLe(u: int, v: int)
    requires 0 <= v && u * u <= v * v
    ensures u <= v
  {
  }

  lemma ProductZeroIff(x: int, y: int)
    requires x >= 0 && y >= 0
    ensures x * y >= 0
    ensures x * y == 0 <==> x == 0 || y == 0
  {
    if x > 0 && y > 0 {
      ScaleLe(1, x, y);
    }
  }

  lemma AmGm(m: int, n: int)
    ensures 4 * (m * n) <= (m + n) * (m + n)
  {
    assert (m + n) * (m + n) - 4 * (m * n) == (m - n) * (m - n);
  }

  lemma DoubleProductSquare(u: int, v: int)
    ensures (2 * (u * v)) * (2 * (u * v)) == 4 * ((u * u) * (v * v))
  {
  }

  lemma CrossProducts(B: int, C: int, x: int, y: int)
    ensures (B * C) * ((x * y) * (x * y)) == (B * (y * y)) * (C * (x * x))
  {
  }

  lemma SquareOfSum(A: int, p: int)
    ensures (A + p) * (A + p) == A * A + 2 * (A * p) + p * p
  {
  }

  lemma ProductOfSums(B: int, C: int, x: int, y: int)
    ensures (B + x * x) * (C + y * y) == B * C + B * (y * y) + C * (x * x) + (x * y) * (x * y)
  {
  }

  /** One step of Cauchy–Schwarz: adding a coordinate keeps `A^2 <= B * C`. */
  lemma CauchyStep(A: int, B: int, C: int, x: int, y: int)
    requires A >= 0 && B >= 0 && C >= 0 && x >= 0 && y >= 0
    requires A * A <= B * C
    ensures (A + x * y) * (A + x * y) <= (B + x * x) * (C + y * y)
  {
    var p := x * y;
    var m := B * (y * y);
    var n := C * (x * x);
    assert p >= 0 && m >= 0 && n >= 0;
    ScaleLe(A * A, B * C, p * p);
    DoubleProductSquare(A, p);
    CrossProducts(B, C, x, y);
    AmGm(m, n);
    SquareLe(2 * (A * p), m + n);
    SquareOfSum(A, p);
    ProductOfSums(B, C, x, y);
  }

  // --------------------------------------------------------- sums

  lemma {:induction false} DotNonNegative(t: seq<string>, a: map<string, nat>, b: map<string, nat>)
    ensures Dot(t, a, b) >= 0
  {
    if t != [] {
      var w := t[|t| - 1];
      DotNonNegative(t[..|t| - 1], a, b);
      ProductZeroIff(Weighted(a, w), Weighted(b, w));
    }
  }

  lemma WeightedZeroIff(tf: map<string, nat>, w: string)
    ensures Weighted(tf, w) == 0 <==> Get(tf, w) == 0
  {
    ProductZeroIff(Get(tf, w), Weight(w));
  }

  /** A sum is zero exactly when no term has a positive count on both sides. */
  lemma {:induction false} DotZeroIff(t: seq<string>, a: map<string, nat>, b: map<string, nat>)
    ensures Dot(t, a, b) == 0 <==> forall k :: 0 <= k < |t| ==> Get(a, t[k]) == 0 || Get(b, t[k]) == 0
  {
    if t != [] {
      var p := t[..|t| - 1];
      var w := t[|t| - 1];
      var x, y := Weighted(a, w), Weighted(b, w);
      assert Dot(t, a, b) == Dot(p, a, b) + x * y;
      DotZeroIff(p, a, b);
      DotNonNegative(p, a, b);
      WeightedZeroIff(a, w);
      WeightedZeroIff(b, w);
      ProductZeroIff(x, y);
      forall k | 0 <= k < |p|
        ensures p[k] == t[k]
      {
      }
    }
  }

  /** Cauchy–Schwarz for the weighted vectors over any term list. */
  lemma {:induction false} CauchySchwarz(t: seq<string>, a: map<string, nat>, b: map<string, nat>)
    ensures Dot(t, a, b) * Dot(t, a, b) <= Dot(t, a, a) * Dot(t, b, b)
  {
    if t != [] {
      var p := t[..|t| - 1];
      var w := t[|t| - 1];
      CauchySchwarz(p, a, b);
      DotNonNegative(p, a, b);
      DotNonNegative(p, a, a);
      DotNonNegative(p, b, b);
      CauchyStep(Dot(p, a, b), Dot(p, a, a), Dot(p, b, b), Weighted(a, w), Weighted(b, w));
    }
  }

  lemma {:induction false} DotSwap(t: seq<string>, a: map<string, nat>, b: map<string, nat>)
    ensures Dot(t, a, b) == Dot(t, b, a)
  {
    if t != [] {
      DotSwap(t[..|t| - 1], a, b);
    }
  }

  lemma {:induction false} DotAppend(u: seq<string>, v: seq<string>, a: map<string, nat>, b: map<string, nat>)
    ensures Dot(u + v, a, b) == Dot(u, a, b) + Dot(v, a, b)
  {
    if v == [] {
      assert u + v == u;
    } else {
      var p := v[..|v| - 1];
      assert (u + v)[..|u + v| - 1] == u + p;
      DotAppend(u, p, a, b);
    }
  }

  /** Removing the element at `k` removes its term from the sum. */
  lemma DotRemoveAt(t: seq<string>, k: nat, a: map<string, nat>, b: map<string, nat>)
    requires k < |t|
    ensures Dot(t, a, b) == Dot(t[..k] + t[k + 1..], a, b) + Weighted(a, t[k]) * Weighted(b, t[k])
  {
    assert t == t[..k] + [t[k]] + t[k + 1..];
    DotAppend(t[..k] + [t[k]], t[k + 1..], a, b);
    DotAppend(t[..k], [t[k]], a, b);
    DotAppend(t[..k], t[k + 1..], a, b);
    assert Dot([t[k]], a, b) == Weighted(a, t[k]) * Weighted(b, t[k]);
  }

  /** Removing the element at `k` from a duplicate-free list leaves a duplicate-free
      list of the other elements. */
  lemma RemoveAtElements(t: seq<string>, k: nat)
    requires k < |t| && NoDuplicates(t)
    ensures NoDuplicates(t[..k] + t[k + 1..])
    ensures forall w :: w in t[..k] + t[k + 1..] <==> w in t && w != t[k]
  {
    var t' := t[..k] + t[k + 1..];
    assert forall i :: 0 <= i < |t'| ==> t'[i] == t[if i < k then i else i + 1];
    forall w | w in t && w != t[k] ensures w in t' {
      var i :| 0 <= i < |t| && t[i] == w;
      assert t'[if i < k then i else i - 1] == w;
    }
  }

  /** The sum does not depend on the order of a duplicate-free term list. */
  lemma {:induction false} DotPermutation(s: seq<string>, t: seq<string>, a: map<string, nat>, b: map<string, nat>)
    requires NoDuplicates(s) && NoDuplicates(t)
    requires forall w :: w in s <==> w in t
    ensures Dot(s, a, b) == Dot(t, a, b)
    decreases |s|
  {
    assert t == [] || t[0] in s;
    if s != [] {
      var last := |s| - 1;
      var x := s[last];
      assert x in t;
      var k :| 0 <= k < |t| && t[k] == x;
      var p, t' := s[..last], t[..k] + t[k + 1..];
      assert p + s[last + 1..] == p;
      RemoveAtElements(s, last);
      RemoveAtElements(t, k);
      forall w ensures w in p <==> w in t' {
        assert w in p <==> w in s && w != x;
        assert w in t' <==> w in t && w != x;
      }
      DotRemoveAt(t, k, a, b);
      DotPermutation(p, t', a, b);
    }
  }

  // ---------------------------------------------------------- the score

  /** A count in a frequency map is positive exactly for the words counted. */
  lemma GetPositiveIff(words: seq<string>, w: string)
    ensures Get(TF(words), w) > 0 <==> w in words
  {
    CountPositiveIff(words, w);
  }

  /** The numerator sum over the union of the words is zero exactly when no word is on
      both lists. */
  lemma DotZeroIffDisjoint(rWords: seq<string>, jWords: seq<string>)
    ensures Dot(UnionTerms(rWords, jWords), TF(rWords), TF(jWords)) == 0
        <==> forall w :: w in rWords ==> w !in jWords
  {
    var rTF, jTF := TF(rWords), TF(jWords);
    var terms := UnionTerms(rWords, jWords);
    DotZeroIff(terms, rTF, jTF);
    if forall w :: w in rWords ==> w !in jWords {
      forall k | 0 <= k < |terms|
        ensures Get(rTF, terms[k]) == 0 || Get(jTF, terms[k]) == 0
      {
        GetPositiveIff(rWords, terms[k]);
        GetPositiveIff(jWords, terms[k]);
      }
    } else {
      var w :| w in rWords && w in jWords;
      assert w in rWords + jWords;
      var k :| 0 <= k < |terms| && terms[k] == w;
      GetPositiveIff(rWords, w);
      GetPositiveIff(jWords, w);
    }
  }

  /** A squared magnitude over terms that include every word is zero exactly when there
      are no words. */
  lemma SelfDotZeroIff(words: seq<string>, terms: seq<string>)
    requires forall w :: w in words ==> w in terms
    ensures Dot(terms, TF(words), TF(words)) == 0 <==> words == []
  {
    var tf := TF(words);
    DotZeroIff(terms, tf, tf);
    if words != [] {
      assert words[0] in words;
      var k :| 0 <= k < |terms| && terms[k] == words[0];
      GetPositiveIff(words, words[0]);
    } else {
      forall k | 0 <= k < |terms|
        ensures Get(tf, terms[k]) == 0
      {
        GetPositiveIff(words, terms[k]);
      }
    }
  }

  /** `SimilarityOf` for two non-empty texts, spelled out. */
  lemma SimilarityOfTexts(resumeText: string, jobText: string)
    requires resumeText != [] && jobText != []
    ensures var rWords, jWords := Tokenize(resumeText), Tokenize(jobText);
      var terms := UnionTerms(rWords, jWords);
      SimilarityOf(resumeText, jobText)
        == Cosine(Dot(terms, TF(rWords), TF(jWords)), Dot(terms, TF(rWords), TF(rWords)), Dot(terms, TF(jWords), TF(jWords)))
  {
  }

  /** The numerator is never negative and is zero exactly when the two texts share no token. */
  lemma NumeratorZeroIffNoSharedToken(resumeText: string, jobText: string)
    requires resumeText != [] && jobText != []
    ensures SimilarityOf(resumeText, jobText).numerator >= 0
    ensures SimilarityOf(resumeText, jobText).numerator == 0
        <==> forall w :: w in Tokenize(resumeText) ==> w !in Tokenize(jobText)
  {
    var rWords, jWords := Tokenize(resumeText), Tokenize(jobText);
    SimilarityOfTexts(resumeText, jobText);
    DotNonNegative(UnionTerms(rWords, jWords), TF(rWords), TF(jWords));
    DotZeroIffDisjoint(rWords, jWords);
  }

  /** A squared magnitude is zero exactly when its text has no token. */
  lemma MagnitudeZeroIffNoTokens(resumeText: string, jobText: string)
    requires resumeText != [] && jobText != []
    ensures SimilarityOf(resumeText, jobText).rMag == 0 <==> Tokenize(resumeText) == []
    ensures SimilarityOf(resumeText, jobText).jMag == 0 <==> Tokenize(jobText) == []
  {
    var rWords, jWords := Tokenize(resumeText), Tokenize(jobText);
    var terms := UnionTerms(rWords, jWords);
    SimilarityOfTexts(resumeText, jobText);
    assert forall w :: w in rWords ==> w in rWords + jWords;
    assert forall w :: w in jWords ==> w in rWords + jWords;
    SelfDotZeroIff(rWords, terms);
    SelfDotZeroIff(jWords, terms);
  }

  /** With `n^2 <= r * j` and all three non-negative, a zero magnitude forces a zero
      numerator. */
  lemma ZeroMagnitudeZeroNumerator(n: int, r: int, j: int)
    requires n >= 0 && r >= 0 && j >= 0 && n * n <= r * j
    ensures r == 0 || j == 0 ==> n == 0
  {
    if r == 0 || j == 0 {
      assert n * n <= 0;
    }
  }

  /** `numerator^2 <= rMag * jMag` with `numerator >= 0`, so the floating-point score
      `numerator / (sqrt(rMag) * sqrt(jMag))` lies in [0, 1]; and when a magnitude is 0
      (the denominator falls back to 1) the numerator is 0, so the score is 0. */
  lemma ScoreBounds(resumeText: string, jobText: string)
    requires resumeText != [] && jobText != []
    ensures var s := SimilarityOf(resumeText, jobText);
      && 0 <= s.numerator && s.numerator * s.numerator <= s.rMag * s.jMag
      && 0 <= s.rMag && 0 <= s.jMag
      && (s.rMag == 0 || s.jMag == 0 ==> s.numerator == 0)
  {
    var rWords, jWords := Tokenize(resumeText), Tokenize(jobText);
    var rTF, jTF := TF(rWords), TF(jWords);
    var terms := UnionTerms(rWords, jWords);
    SimilarityOfTexts(resumeText, jobText);
    CauchySchwarz(terms, rTF, jTF);
    DotNonNegative(terms, rTF, jTF);
    DotNonNegative(terms, rTF, rTF);
    DotNonNegative(terms, jTF, jTF);
    ZeroMagnitudeZeroNumerator(Dot(terms, rTF, jTF), Dot(terms, rTF, rTF), Dot(terms, jTF, jTF));
  }

  /** Swapping the texts keeps the numerator and swaps the two magnitudes, so
      `rMag * jMag` and the score are unchanged. */
  lemma ScoreSymmetric(resumeText: string, jobText: string)
    ensures SimilarityOf(jobText, resumeText) ==
      match SimilarityOf(resumeText, jobText)
      case EmptyInput => EmptyInput
      case Cosine(n, rMag, jMag) => Cosine(n, jMag, rMag)
  {
    if resumeText != [] && jobText != [] {
      var rWords, jWords := Tokenize(resumeText), Tokenize(jobText);
      var rTF, jTF := TF(rWords), TF(jWords);
      var terms := UnionTerms(rWords, jWords);
      var swapped := UnionTerms(jWords, rWords);
      assert forall w :: w in terms <==> w in swapped by {
        assert forall w :: w in rWords + jWords <==> w in jWords + rWords;
      }
      DistinctNoDuplicates(rWords + jWords);
      DistinctNoDuplicates(jWords + rWords);
      DotPermutation(swapped, terms, jTF, rTF);
      DotPermutation(swapped, terms, jTF, jTF);
      DotPermutation(swapped, terms, rTF, rTF);
      DotSwap(terms, jTF, rTF);
    }
  }
}
