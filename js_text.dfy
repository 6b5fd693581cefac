/**
 * The character classes and string operations of JavaScript that the modelled
 * code relies on: the `\s` class (also the set `String.prototype.trim` removes),
 * the line terminators that `.` does not cross, ASCII lower-casing, `trim`, and
 * `split` on a single-character separator.
 */
module JsText {

  /** WhiteSpace and LineTerminator of ECMA-262: what `\s` matches and `trim` removes. */
  predicate IsSpace(c: char) {
    || c == ' ' || c == '\t' || c == '\n' || c == '\r' || c == '\U{B}' || c == '\U{C}'
    || c == '\U{A0}' || c == '\U{1680}' || ('\U{2000}' <= c <= '\U{200A}')
    || c == '\U{2028}' || c == '\U{2029}' || c == '\U{202F}' || c == '\U{205F}'
    || c == '\U{3000}' || c == '\U{FEFF}'
  }

  /** The characters a regular-expression `.` refuses to match. */
  predicate IsLineTerminator(c: char) {
    c == '\n' || c == '\r' || c == '\U{2028}' || c == '\U{2029}'
  }

  lemma LineTerminatorIsSpace(c: char)
    ensures IsLineTerminator(c) ==> IsSpace(c)
  {
  }

  predicate AllSpace(s: string) {
    forall i :: 0 <= i < |s| ==> IsSpace(s[i])
  }

  /** `toLowerCase` restricted to ASCII: only `A`..`Z` change. */
  function LowerChar(c: char): (r: char)
    ensures 'A' <= c <= 'Z' ==> 'a' <= r <= 'z'
    ensures !('A' <= c <= 'Z') ==> r == c
  {
    if 'A' <= c <= 'Z' then (c as int + 32) as char else c
  }

  function Lower(s: string): (r: string)
    ensures |r| == |s|
    ensures forall i :: 0 <= i < |s| ==> r[i] == LowerChar(s[i])
  {
    seq(|s|, i requires 0 <= i < |s| => LowerChar(s[i]))
  }

  /** Lower-casing commutes with taking a suffix. */
  lemma LowerSuffix(s: string, d: nat)
    requires d <= |s|
    ensures Lower(s[d..]) == Lower(s)[d..]
  {
  }

  /** The end of the run of white space that starts at `from`: what a greedy `\s*` consumes. */
  function SkipSpace(s: string, from: nat): (j: nat)
    requires from <= |s|
    ensures from <= j <= |s|
    ensures forall k :: from <= k < j ==> IsSpace(s[k])
    ensures j < |s| ==> !IsSpace(s[j])
    decreases |s| - from
  {
    if from < |s| && IsSpace(s[from]) then SkipSpace(s, from + 1) else from
  }

  /** `SkipSpace` stops at the end of the run: any position with only white space before
      it and no white space at it is the one found. */
  lemma {:induction false} SkipSpaceIs(s: string, from: nat, j: nat)
    requires from <= j <= |s|
    requires forall k :: from <= k < j ==> IsSpace(s[k])
    requires j < |s| ==> !IsSpace(s[j])
    ensures SkipSpace(s, from) == j
    decreases j - from
  {
    if from < j {
      SkipSpaceIs(s, from + 1, j);
    }
  }

  // ---------------------------------------------------------------- trim

  /** The string without its leading white space. */
  function TrimStart(s: string): (r: string)
    ensures |r| <= |s| && r == s[|s| - |r|..]
    ensures AllSpace(s[..|s| - |r|])
    ensures r == [] || !IsSpace(r[0])
  {
    if s != [] && IsSpace(s[0]) then TrimStart(s[1..]) else s
  }

  /** The string without its trailing white space. */
  function TrimEnd(s: string): (r: string)
    ensures |r| <= |s| && r == s[..|r|]
    ensures AllSpace(s[|r|..])
    ensures r == [] || !IsSpace(r[|r| - 1])
  {
    if s != [] && IsSpace(s[|s| - 1]) then TrimEnd(s[..|s| - 1]) else s
  }

  /** Neither starts nor ends with white space: what `trim` leaves. */
  predicate Trimmed(s: string) {
    s == [] || (!IsSpace(s[0]) && !IsSpace(s[|s| - 1]))
  }

  /** `String.prototype.trim`: the longest infix that neither starts nor ends with
      white space, found by dropping white space at both ends. */
  function Trim(s: string): (r: string)
    ensures Trimmed(r)
  {
    var t := TrimStart(s);
    var r := TrimEnd(t);
    if r != [] then assert r[0] == t[0]; r else r
  }

  /** `r` occurs in `s` at `a`, with only white space before and after it. */
  predicate SpacedInfix(s: string, a: nat, r: string) {
    a + |r| <= |s| && r == s[a..a + |r|] && AllSpace(s[..a]) && AllSpace(s[a + |r|..])
  }

  /** Trim removes only white space from either end and keeps the rest in order. */
  lemma TrimIsInfix(s: string)
    ensures SpacedInfix(s, |s| - |TrimStart(s)|, Trim(s))
  {
    TrimOfTrimStart(s);
    PrefixOfSuffix(s, TrimStart(s), Trim(s));
  }

  /** Trim keeps a prefix of what TrimStart leaves, and drops only white space. */
  lemma TrimOfTrimStart(s: string)
    ensures |Trim(s)| <= |TrimStart(s)| && Trim(s) == TrimStart(s)[..|Trim(s)|]
    ensures AllSpace(TrimStart(s)[|Trim(s)|..])
  {
    assert Trim(s) == TrimEnd(TrimStart(s));
  }

  /** A prefix `r` of a suffix `t` of `s`, followed in `t` by white space only, sits in
      `s` right where `t` starts and is followed there by the same white space. */
  lemma PrefixOfSuffix(s: string, t: string, r: string)
    requires |t| <= |s| && t == s[|s| - |t|..] && AllSpace(s[..|s| - |t|])
    requires |r| <= |t| && r == t[..|r|] && AllSpace(t[|r|..])
    ensures SpacedInfix(s, |s| - |t|, r)
  {
    var a := |s| - |t|;
    forall k | 0 <= k < |r|
      ensures r[k] == s[a + k]
    {
      assert r[k] == t[k];
    }
    assert r == s[a..a + |r|];
    forall k | a + |r| <= k < |s|
      ensures IsSpace(s[k])
    {
      assert s[k] == t[k - a];
      assert t[k - a] == t[|r|..][k - a - |r|];
    }
  }

  /** Every character of the trimmed string occurs in the original. */
  lemma TrimChars(s: string)
    ensures forall c :: c in Trim(s) ==> c in s
  {
    var t := TrimStart(s);
    var r := TrimEnd(t);
    assert Trim(s) == r;
    var a := |s| - |t|;
    forall c | c in r ensures c in s {
      var i :| 0 <= i < |r| && r[i] == c;
      assert r[i] == t[i] == s[a + i];
    }
  }

  /** Trimming is the identity on a string that neither starts nor ends with white space. */
  lemma TrimTrimmed(s: string)
    requires Trimmed(s)
    ensures Trim(s) == s
  {
  }

  /** Trim yields the empty string exactly when the string is all white space. */
  lemma {:induction false} TrimEmptyIff(s: string)
    ensures Trim(s) == [] <==> AllSpace(s)
  {
    var t := TrimStart(s);
    if t == [] {
      assert s[..|s|] == s;
    } else {
      assert !IsSpace(s[|s| - |t|]);
      assert !IsSpace(t[0]);
    }
  }

  // --------------------------------------------------- split and join

  /** The index of the first occurrence of `c`. */
  function IndexOf(s: string, c: char): (i: nat)
    requires c in s
    ensures i < |s| && s[i] == c && c !in s[..i]
  {
    if s[0] == c then 0 else 1 + IndexOf(s[1..], c)
  }

  /** A character missing from a string is missing from each of its suffixes. */
  lemma NotInSuffix(s: string, t: string, c: char)
    requires |t| <= |s| && t == s[|s| - |t|..] && c !in s
    ensures c !in t
  {
    forall k | 0 <= k < |t|
      ensures t[k] != c
    {
      assert t[k] == s[|s| - |t| + k];
    }
  }

  /** A character missing from a string is missing from each of its prefixes. */
  lemma NotInPrefix(s: string, t: string, c: char)
    requires |t| <= |s| && t == s[..|t|] && c !in s
    ensures c !in t
  {
    forall k | 0 <= k < |t|
      ensures t[k] != c
    {
      assert t[k] == s[k];
    }
  }

  /** The first `c` after a stretch without `c` is the one that ends the stretch. */
  lemma {:induction false} IndexOfAfter(pre: string, c: char, post: string)
    requires c !in pre
    ensures c in pre + [c] + post && IndexOf(pre + [c] + post, c) == |pre|
  {
    var s := pre + [c] + post;
    assert s[|pre|] == c;
    if pre != [] {
      assert s[0] == pre[0];
      assert s[1..] == pre[1..] + [c] + post;
      IndexOfAfter(pre[1..], c, post);
    }
  }

  /** `s.split(sep)` for a one-character separator: the pieces between the
      separators, at least one, none containing the separator. */
  function Split(s: string, sep: char): (parts: seq<string>)
    ensures |parts| >= 1
    ensures forall k :: 0 <= k < |parts| ==> sep !in parts[k]
    decreases |s|
  {
    if sep in s then
      var i := IndexOf(s, sep);
      [s[..i]] + Split(s[i + 1..], sep)
    else
      [s]
  }

  /** The first piece of a split is everything before the first separator. */
  lemma SplitAfter(pre: string, sep: char, post: string)
    requires sep !in pre
    ensures Split(pre + [sep] + post, sep) == [pre] + Split(post, sep)
  {
    var s := pre + [sep] + post;
    IndexOfAfter(pre, sep, post);
    assert s[..|pre|] == pre;
    assert s[|pre| + 1..] == post;
  }

  /** `parts.join(sep)` for at least one part. */
  function Join(parts: seq<string>, sep: char): string
    requires |parts| >= 1
  {
    if |parts| == 1 then parts[0] else parts[0] + [sep] + Join(parts[1..], sep)
  }

  /** Joining the pieces of a split restores the string. */
  lemma {:induction false} JoinSplit(s: string, sep: char)
    ensures Join(Split(s, sep), sep) == s
    decreases |s|
  {
    if sep in s {
      var i := IndexOf(s, sep);
      var pre, post := s[..i], s[i + 1..];
      assert Split(s, sep) == [pre] + Split(post, sep);
      assert s == pre + [sep] + post;
      JoinSplit(post, sep);
      JoinRestored(s, sep, pre, post, Split(s, sep), Split(post, sep));
    }
  }

  /** Joining `pre` onto parts that join to `post` restores `pre + sep + post`. */
  lemma JoinRestored(s: string, sep: char, pre: string, post: string, parts: seq<string>, rest: seq<string>)
    requires parts == [pre] + rest && |rest| >= 1
    requires Join(rest, sep) == post && s == pre + [sep] + post
    ensures Join(parts, sep) == s
  {
    JoinCons(pre, rest, sep);
  }

  /** Joining a first part onto at least one more puts the separator between them. */
  lemma JoinCons(first: string, rest: seq<string>, sep: char)
    requires |rest| >= 1
    ensures Join([first] + rest, sep) == first + [sep] + Join(rest, sep)
  {
    assert ([first] + rest)[1..] == rest;
  }

  /** Splitting a join of separator-free parts gives the parts back. */
  lemma {:induction false} SplitJoin(parts: seq<string>, sep: char)
    requires |parts| >= 1
    requires forall k :: 0 <= k < |parts| ==> sep !in parts[k]
    ensures Split(Join(parts, sep), sep) == parts
  {
    if |parts| > 1 {
      var rest := Join(parts[1..], sep);
      assert Join(parts, sep) == parts[0] + [sep] + rest;
      SplitAfter(parts[0], sep, rest);
      SplitJoin(parts[1..], sep);
      assert parts == [parts[0]] + parts[1..];
    }
  }

  /** Splitting at a separator splits the two sides independently. */
  lemma {:induction false} SplitConcat(x: string, sep: char, y: string)
    ensures Split(x + [sep] + y, sep) == Split(x, sep) + Split(y, sep)
    decreases |x|
  {
    if sep in x {
      var i := IndexOf(x, sep);
      var pre, post := x[..i], x[i + 1..];
      assert x == pre + [sep] + post;
      assert x + [sep] + y == pre + [sep] + (post + [sep] + y);
      SplitAfter(pre, sep, post + [sep] + y);
      SplitAfter(pre, sep, post);
      SplitConcat(post, sep, y);
    } else {
      SplitAfter(x, sep, y);
    }
  }

  /** `.filter(Boolean)` on strings: the non-empty ones, in order. */
  function NonEmpty(parts: seq<string>): (r: seq<string>)
    ensures forall k :: 0 <= k < |r| ==> r[k] != [] && r[k] in parts
  {
    if parts == [] then []
    else if parts[0] == [] then NonEmpty(parts[1..])
    else [parts[0]] + NonEmpty(parts[1..])
  }

  /** Filtering distributes over concatenation. */
  lemma {:induction false} NonEmptyAppend(a: seq<string>, b: seq<string>)
    ensures NonEmpty(a + b) == NonEmpty(a) + NonEmpty(b)
  {
    if a == [] {
      assert a + b == b;
    } else {
      assert (a + b)[0] == a[0];
      assert (a + b)[1..] == a[1..] + b;
      NonEmptyAppend(a[1..], b);
    }
  }

  /** Filtering one string keeps it unless it is empty. */
  lemma NonEmptySingle(s: string)
    ensures NonEmpty([s]) == if s == [] then [] else [s]
  {
    assert [s][1..] == [];
  }

  /** Filtering keeps a sequence with no empty string as it is. */
  lemma {:induction false} NonEmptyOfNonEmpty(parts: seq<string>)
    requires forall k :: 0 <= k < |parts| ==> parts[k] != []
    ensures NonEmpty(parts) == parts
  {
    if parts != [] {
      NonEmptyOfNonEmpty(parts[1..]);
    }
  }
}
