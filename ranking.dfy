/**
 * `results.sort((a, b) => b.score - a.score)` of routes/match.js.
 * `Array.prototype.sort` is stable, so the result is determined: scores in
 * non-increasing order, and among equal scores the original order. It is
 * specified here by a stable insertion sort.
 */
module Ranking {

  datatype Scored<T> = Scored(item: T, score: nat)

  predicate SortedDesc<T>(s: seq<Scored<T>>) {
    forall i, j :: 0 <= i < j < |s| ==> s[i].score >= s[j].score
  }

  /** The entries with score `v`, in order. */
  function WithScore<T>(s: seq<Scored<T>>, v: nat): seq<Scored<T>> {
    if s == [] then []
    else (if s[0].score == v then [s[0]] else []) + WithScore(s[1..], v)
  }

  lemma {:induction false} WithScoreAppend<T>(s: seq<Scored<T>>, t: seq<Scored<T>>, v: nat)
    ensures WithScore(s + t, v) == WithScore(s, v) + WithScore(t, v)
  {
    if s == [] {
      assert s + t == t;
    } else {
      var h := if s[0].score == v then [s[0]] else [];
      assert (s + t)[0] == s[0];
      assert (s + t)[1..] == s[1..] + t;
      assert WithScore(s + t, v) == h + WithScore(s[1..] + t, v);
      WithScoreAppend(s[1..], t, v);
      assert WithScore(s, v) == h + WithScore(s[1..], v);
      assert h + (WithScore(s[1..], v) + WithScore(t, v)) == (h + WithScore(s[1..], v)) + WithScore(t, v);
    }
  }

  lemma WithScoreSingle<T>(x: Scored<T>, v: nat)
    ensures WithScore([x], v) == if x.score == v then [x] else []
  {
    assert [x][1..] == [];
  }

  lemma {:induction false} WithScoreBelow<T>(s: seq<Scored<T>>, v: nat)
    requires forall i :: 0 <= i < |s| ==> s[i].score < v
    ensures WithScore(s, v) == []
  {
    if s != [] {
      WithScoreBelow(s[1..], v);
    }
  }

  /** Insert `x` after every entry whose score is at least its own. */
  function Insert<T>(s: seq<Scored<T>>, x: Scored<T>): (r: seq<Scored<T>>)
    ensures |r| == |s| + 1
  {
    if s == [] then [x]
    else if s[0].score < x.score then [x] + s
    else [s[0]] + Insert(s[1..], x)
  }

  /** Inserting adds exactly `x`. */
  lemma {:induction false} InsertMultiset<T>(s: seq<Scored<T>>, x: Scored<T>)
    ensures multiset(Insert(s, x)) == multiset(s) + multiset{x}
  {
    if s != [] && s[0].score >= x.score {
      InsertMultiset(s[1..], x);
      assert s == [s[0]] + s[1..];
      assert Insert(s, x) == [s[0]] + Insert(s[1..], x);
    }
  }

  /** Inserting keeps every score under a bound that `x` and the list respect. */
  lemma InsertBound<T>(s: seq<Scored<T>>, x: Scored<T>, bound: nat)
    requires x.score <= bound && forall i :: 0 <= i < |s| ==> s[i].score <= bound
    ensures forall i :: 0 <= i < |Insert(s, x)| ==> Insert(s, x)[i].score <= bound
  {
    var r := Insert(s, x);
    InsertMultiset(s, x);
    forall i | 0 <= i < |r|
      ensures r[i].score <= bound
    {
      assert r[i] in multiset(r);
      if r[i] != x {
        assert r[i] in multiset(s);
        var j :| 0 <= j < |s| && s[j] == r[i];
      }
    }
  }

  /** Inserting into a sorted list keeps it sorted. */
  lemma {:induction false} InsertSorted<T>(s: seq<Scored<T>>, x: Scored<T>)
    requires SortedDesc(s)
    ensures SortedDesc(Insert(s, x))
  {
    if s != [] && s[0].score >= x.score {
      var rest := Insert(s[1..], x);
      assert Insert(s, x) == [s[0]] + rest;
      assert SortedDesc(s[1..]);
      InsertSorted(s[1..], x);
      assert forall i :: 0 <= i < |s[1..]| ==> s[1..][i].score <= s[0].score;
      InsertBound(s[1..], x, s[0].score);
    }
  }

  /** Inserting into a sorted list keeps, for every score, the earlier entries first
      and puts `x` after them. */
  lemma {:induction false} InsertStable<T>(s: seq<Scored<T>>, x: Scored<T>, v: nat)
    requires SortedDesc(s)
    ensures WithScore(Insert(s, x), v) == WithScore(s, v) + (if x.score == v then [x] else [])
  {
    if s == [] {
      assert Insert(s, x) == [x];
      WithScoreSingle(x, v);
    } else if s[0].score < x.score {
      InsertStableFront(s, x, v);
    } else {
      assert SortedDesc(s[1..]);
      InsertStable(s[1..], x, v);
      InsertStableSkip(s, x, v);
    }
  }

  /** `x` goes in front of a sorted list whose scores are all below its own. */
  lemma InsertStableFront<T>(s: seq<Scored<T>>, x: Scored<T>, v: nat)
    requires SortedDesc(s) && s != [] && s[0].score < x.score
    ensures WithScore(Insert(s, x), v) == WithScore(s, v) + (if x.score == v then [x] else [])
  {
    assert Insert(s, x) == [x] + s;
    WithScoreAppend([x], s, v);
    WithScoreSingle(x, v);
    if x.score == v {
      assert forall i :: 0 <= i < |s| ==> s[i].score <= s[0].score;
      WithScoreBelow(s, v);
    }
  }

  /** `x` goes after the head, so the head's entry stays in front. */
  lemma InsertStableSkip<T>(s: seq<Scored<T>>, x: Scored<T>, v: nat)
    requires s != [] && s[0].score >= x.score
    requires WithScore(Insert(s[1..], x), v) == WithScore(s[1..], v) + (if x.score == v then [x] else [])
    ensures WithScore(Insert(s, x), v) == WithScore(s, v) + (if x.score == v then [x] else [])
  {
    var h := [s[0]];
    var rest := Insert(s[1..], x);
    var tail := if x.score == v then [x] else [];
    assert Insert(s, x) == h + rest;
    WithScoreSingle(s[0], v);
    var a := WithScore(h, v);
    assert WithScore(s, v) == a + WithScore(s[1..], v);
    WithScoreAppend(h, rest, v);
    assert a + (WithScore(s[1..], v) + tail) == (a + WithScore(s[1..], v)) + tail;
  }

  /** The stable sort by descending score. */
  function SortByScoreDesc<T>(s: seq<Scored<T>>): (r: seq<Scored<T>>)
    ensures SortedDesc(r)
    ensures multiset(r) == multiset(s)
  {
    if s == [] then []
    else
      var p := s[..|s| - 1];
      assert s == p + [s[|s| - 1]];
      var sorted := SortByScoreDesc(p);
      InsertSorted(sorted, s[|s| - 1]);
      InsertMultiset(sorted, s[|s| - 1]);
      Insert(sorted, s[|s| - 1])
  }

  /** Ties keep their original order: for every score, the sorted list lists the
      entries with that score exactly as the input does. */
  lemma {:induction false} SortStable<T>(s: seq<Scored<T>>, v: nat)
    ensures WithScore(SortByScoreDesc(s), v) == WithScore(s, v)
  {
    if s != [] {
      var p := s[..|s| - 1];
      var x := s[|s| - 1];
      assert s == p + [x];
      var sorted := SortByScoreDesc(p);
      assert SortByScoreDesc(s) == Insert(sorted, x);
      SortStable(p, v);
      InsertStable(sorted, x, v);
      assert WithScore(Insert(sorted, x), v) == WithScore(p, v) + (if x.score == v then [x] else []);
      WithScoreAppend(p, [x], v);
      assert [x][1..] == [];
      assert WithScore([x], v) == (if x.score == v then [x] else []) + WithScore([], v);
    }
  }
}
