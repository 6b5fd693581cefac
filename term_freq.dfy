/**
 * `buildTF` of routes/match.js: count the occurrences of each token in a map,
 * plus the term list the scorer walks (`new Set([...keys, ...keys])`).
 */
module TermFreq {

  /** `tf[w] || 0`: the count stored for `w`, 0 when absent. */
  function Get(tf: map<string, nat>, w: string): nat {
    if w in tf then tf[w] else 0
  }

  /** The number of occurrences of `w` in `words`. */
  function Count(words: seq<string>, w: string): nat {
    if words == [] then 0
    else Count(words[..|words| - 1], w) + (if words[|words| - 1] == w then 1 else 0)
  }

  /** The term-frequency map: its keys are exactly the distinct words (and each maps
      to its number of occurrences, `TFCount`). */
  function TF(words: seq<string>): (tf: map<string, nat>)
    ensures forall w :: w in tf <==> w in words
  {
    if words == [] then map[]
    else
      var prefix := words[..|words| - 1];
      var last := words[|words| - 1];
      var tf := TF(prefix);
      assert forall w :: w in words <==> w in prefix || w == last;
      tf[last := Get(tf, last) + 1]
  }

  /** Each word maps to its number of occurrences. */
  lemma {:induction false} TFCount(words: seq<string>, w: string)
    ensures Get(TF(words), w) == Count(words, w)
  {
    if words != [] {
      TFCount(words[..|words| - 1], w);
    }
  }

  /** A word occurs in `words` exactly when its count is positive. */
  lemma {:induction false} CountPositiveIff(words: seq<string>, w: string)
    ensures Count(words, w) > 0 <==> w in words
  {
    if words != [] {
      var prefix := words[..|words| - 1];
      CountPositiveIff(prefix, w);
      assert w in words <==> w in prefix || w == words[|words| - 1];
    }
  }

  /** `for (const w of words) tf[w] = (tf[w] || 0) + 1;` */
  method BuildTF(words: seq<string>) returns (tf: map<string, nat>)
    ensures tf == TF(words)
  {
    tf := map[];
    for i := 0 to |words|
      invariant tf == TF(words[..i])
    {
      assert words[..i + 1][..i] == words[..i];
      tf := tf[words[i] := Get(tf, words[i]) + 1];
    }
    assert words[..|words|] == words;
  }

  predicate NoDuplicates(s: seq<string>) {
    forall i, j :: 0 <= i < j < |s| ==> s[i] != s[j]
  }

  /** The distinct elements of `s` in order of first occurrence, as a JavaScript `Set`
      built from `s` iterates them. */
  function Distinct(s: seq<string>): (d: seq<string>)
    ensures forall w :: w in d <==> w in s
  {
    if s == [] then []
    else
      var d := Distinct(s[..|s| - 1]);
      var x := s[|s| - 1];
      assert forall w :: w in s <==> w in s[..|s| - 1] || w == x;
      if x in d then d else d + [x]
  }

  /** Each distinct element is listed once. */
  lemma {:induction false} DistinctNoDuplicates(s: seq<string>)
    ensures NoDuplicates(Distinct(s))
  {
    if s != [] {
      DistinctNoDuplicates(s[..|s| - 1]);
    }
  }

  /** The sum of the counts of `keys` in `tf`. */
  function CountSum(keys: seq<string>, tf: map<string, nat>): nat {
    if keys == [] then 0 else CountSum(keys[..|keys| - 1], tf) + Get(tf, keys[|keys| - 1])
  }

  lemma {:induction false} CountSumBump(keys: seq<string>, tf: map<string, nat>, x: string)
    requires NoDuplicates(keys)
    ensures CountSum(keys, tf[x := Get(tf, x) + 1]) == CountSum(keys, tf) + (if x in keys then 1 else 0)
  {
    if keys != [] {
      var prefix := keys[..|keys| - 1];
      assert NoDuplicates(prefix);
      CountSumBump(prefix, tf, x);
      assert x in keys <==> x in prefix || x == keys[|keys| - 1];
      assert x == keys[|keys| - 1] ==> x !in prefix;
    }
  }

  /** The counts of `buildTF` add up to the number of tokens. */
  lemma {:induction false} CountsSumToLength(words: seq<string>)
    ensures CountSum(Distinct(words), TF(words)) == |words|
  {
    if words != [] {
      var prefix := words[..|words| - 1];
      var x := words[|words| - 1];
      var d := Distinct(prefix);
      CountsSumToLength(prefix);
      LastWordSum(words);
      LastWordDistinct(words);
      if x !in d {
        CountSumSnoc(d, TF(words), x);
        NewWordCountsOne(words);
      }
    }
  }

  /** Counting the last word adds one to the sum over the earlier distinct words
      exactly when it is one of them. */
  lemma LastWordSum(words: seq<string>)
    requires words != []
    ensures var prefix, x := words[..|words| - 1], words[|words| - 1];
      CountSum(Distinct(prefix), TF(words)) ==
        CountSum(Distinct(prefix), TF(prefix)) + (if x in Distinct(prefix) then 1 else 0)
  {
    var prefix, x := words[..|words| - 1], words[|words| - 1];
    LastWordTF(words);
    DistinctNoDuplicates(prefix);
    CountSumBump(Distinct(prefix), TF(prefix), x);
  }

  /** The last word joins the distinct words when it is new. */
  lemma LastWordDistinct(words: seq<string>)
    requires words != []
    ensures var prefix, x := words[..|words| - 1], words[|words| - 1];
      (x in Distinct(prefix) ==> Distinct(words) == Distinct(prefix)) &&
      (x !in Distinct(prefix) ==> Distinct(words) == Distinct(prefix) + [x])
  {
  }

  lemma CountSumSnoc(keys: seq<string>, tf: map<string, nat>, x: string)
    ensures CountSum(keys + [x], tf) == CountSum(keys, tf) + Get(tf, x)
  {
    assert (keys + [x])[..|keys|] == keys;
  }

  /** A new last word is counted once. */
  lemma NewWordCountsOne(words: seq<string>)
    requires words != [] && words[|words| - 1] !in Distinct(words[..|words| - 1])
    ensures Get(TF(words), words[|words| - 1]) == 1
  {
    var prefix, x := words[..|words| - 1], words[|words| - 1];
    LastWordTF(words);
    Uncounted(prefix, x);
  }

  /** Counting the last word bumps its entry. */
  lemma LastWordTF(words: seq<string>)
    requires words != []
    ensures var prefix, x := words[..|words| - 1], words[|words| - 1];
      TF(words) == TF(prefix)[x := Get(TF(prefix), x) + 1]
  {
  }

  /** A word that does not occur has no count. */
  lemma Uncounted(words: seq<string>, x: string)
    requires x !in Distinct(words)
    ensures Get(TF(words), x) == 0
  {
    assert x !in words;
    CountPositiveIff(words, x);
    TFCount(words, x);
  }
}
