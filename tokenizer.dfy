/**
 * `tokenize` of routes/match.js: lower-case the text, blank out every
 * character outside `[a-z0-9]` and `\s`, split on runs of white space and drop
 * the empty pieces.
 */
module Tokenizer {
  import opened JsText

  predicate IsWordChar(c: char) {
    'a' <= c <= 'z' || '0' <= c <= '9'
  }

  /** What a token is: a non-empty run of `[a-z0-9]`. */
  predicate IsToken(t: string) {
    t != [] && forall c :: c in t ==> IsWordChar(c)
  }

  /** `.replace(/[^a-z0-9\s]/g, ' ')` on one character. */
  function Blank(c: char): char {
    if IsWordChar(c) || IsSpace(c) then c else ' '
  }

  /** `.toLowerCase().replace(/[^a-z0-9\s]/g, ' ')`: every character becomes a word
      character or white space, and it is a word character exactly when the
      original lower-cases to one. A character that lower-cases into `[a-z0-9]`
      becomes its lower-case form, white space is kept, and anything else becomes
      a space. */
  function Normalize(text: string): (s: string)
    ensures |s| == |text|
    ensures forall i :: 0 <= i < |s| ==> IsWordChar(s[i]) || IsSpace(s[i])
    ensures forall i :: 0 <= i < |s| ==> (IsWordChar(s[i]) <==> IsWordChar(LowerChar(text[i])))
    ensures forall i :: 0 <= i < |s| && IsWordChar(LowerChar(text[i])) ==> s[i] == LowerChar(text[i])
    ensures forall i :: 0 <= i < |s| && IsSpace(text[i]) ==> s[i] == text[i]
    ensures forall i :: 0 <= i < |s| && !IsWordChar(LowerChar(text[i])) && !IsSpace(text[i]) ==> s[i] == ' '
  {
    seq(|text|, i requires 0 <= i < |text| => Blank(LowerChar(text[i])))
  }

  /** The first white-space index at or after `from`, or `|s|`. */
  function NextSpace(s: string, from: nat): (i: nat)
    requires from <= |s|
    ensures from <= i <= |s|
    ensures i < |s| ==> IsSpace(s[i])
    ensures forall k :: from <= k < i ==> !IsSpace(s[k])
    decreases |s| - from
  {
    if from == |s| || IsSpace(s[from]) then from else NextSpace(s, from + 1)
  }

  /** `s.split(/\s+/)`: the pieces between maximal runs of white space; a leading
      or trailing run yields an empty piece, and `""` splits into `[""]`. */
  function SplitOnSpace(s: string): (parts: seq<string>)
    ensures |parts| >= 1
    ensures forall k :: 0 <= k < |parts| ==> forall c :: c in parts[k] ==> c in s && !IsSpace(c)
    decreases |s|
  {
    var i := NextSpace(s, 0);
    if i == |s| then
      [s]
    else
      var j := SkipSpace(s, i);
      var rest := SplitOnSpace(s[j..]);
      assert forall k :: 0 <= k < |rest| ==> forall c :: c in rest[k] ==> c in s;
      [s[..i]] + rest
  }

  /** `tokenize(text)`: every token is a non-empty run of `[a-z0-9]`. */
  function Tokenize(text: string): (tokens: seq<string>)
    ensures forall k :: 0 <= k < |tokens| ==> IsToken(tokens[k])
  {
    var s := Normalize(text);
    var parts := SplitOnSpace(s);
    var tokens := NonEmpty(parts);
    assert forall k :: 0 <= k < |tokens| ==> IsToken(tokens[k]) by {
      forall k | 0 <= k < |tokens| ensures IsToken(tokens[k]) {
        var j :| 0 <= j < |parts| && parts[j] == tokens[k];
        forall c | c in tokens[k] ensures IsWordChar(c) {
          var i :| 0 <= i < |s| && s[i] == c;
        }
      }
    }
    tokens
  }

  // ------------------------------------------------------------ lemmas

  /** Normalizing works character by character, so it distributes over concatenation. */
  lemma NormalizeAppend(a: string, b: string)
    ensures Normalize(a + b) == Normalize(a) + Normalize(b)
  {
    var ab := a + b;
    forall i | 0 <= i < |ab|
      ensures Normalize(ab)[i] == (Normalize(a) + Normalize(b))[i]
    {
      if i < |a| {
        assert ab[i] == a[i];
      } else {
        assert ab[i] == b[i - |a|];
      }
    }
  }

  /** Leading white space yields only an empty piece, which the filter drops. */
  lemma NonEmptySplitSkipsSpace(y: string)
    ensures NonEmpty(SplitOnSpace(y)) == NonEmpty(SplitOnSpace(y[SkipSpace(y, 0)..]))
  {
    var k := SkipSpace(y, 0);
    if k > 0 {
      NextSpaceIs(y, 0, 0);
      NonEmptyAppend([y[..0]], SplitOnSpace(y[k..]));
      NonEmptySingle(y[..0]);
    } else {
      assert y[0..] == y;
    }
  }

  /** The filtered split of text whose first white space is at `i`, with the run of it
      ending at `j`: the piece before `i`, if non-empty, then the filtered split of the rest. */
  lemma NonEmptySplitCons(s: string, i: nat, j: nat)
    requires i < |s| && NextSpace(s, 0) == i
    requires j == SkipSpace(s, i)
    ensures NonEmpty(SplitOnSpace(s)) == NonEmpty([s[..i]]) + NonEmpty(SplitOnSpace(s[j..]))
  {
    NonEmptyAppend([s[..i]], SplitOnSpace(s[j..]));
  }

  /** A white-space character splits the text in two: the non-empty pieces of the whole
      are those of the part before it followed by those of the part after it. */
  lemma {:induction false} SplitOnSpaceAt(x: string, sp: char, y: string)
    requires IsSpace(sp)
    ensures NonEmpty(SplitOnSpace(x + [sp] + y)) == NonEmpty(SplitOnSpace(x)) + NonEmpty(SplitOnSpace(y))
    decreases |x|
  {
    var i := NextSpace(x, 0);
    if i < |x| && SkipSpace(x, i) < |x| {
      var j := SkipSpace(x, i);
      SplitOnSpaceAt(x[j..], sp, y);
      SplitOnSpaceAtStep(x, sp, y, i, j);
    } else {
      SplitOnSpaceAtLast(x, sp, y, i);
    }
  }

  /** The step of `SplitOnSpaceAt` past the first piece of `x`, given the law for the
      rest of `x`. */
  lemma SplitOnSpaceAtStep(x: string, sp: char, y: string, i: nat, j: nat)
    requires IsSpace(sp)
    requires i < |x| && NextSpace(x, 0) == i
    requires j == SkipSpace(x, i) && j < |x|
    requires NonEmpty(SplitOnSpace(x[j..] + [sp] + y)) == NonEmpty(SplitOnSpace(x[j..])) + NonEmpty(SplitOnSpace(y))
    ensures NonEmpty(SplitOnSpace(x + [sp] + y)) == NonEmpty(SplitOnSpace(x)) + NonEmpty(SplitOnSpace(y))
  {
    calc {
      NonEmpty(SplitOnSpace(x + [sp] + y));
    == { SplitOnSpaceAtInner(x, sp, y, i, j); }
      NonEmpty([x[..i]]) + NonEmpty(SplitOnSpace(x[j..] + [sp] + y));
    ==
      NonEmpty([x[..i]]) + (NonEmpty(SplitOnSpace(x[j..])) + NonEmpty(SplitOnSpace(y)));
    ==
      (NonEmpty([x[..i]]) + NonEmpty(SplitOnSpace(x[j..]))) + NonEmpty(SplitOnSpace(y));
    == { NonEmptySplitCons(x, i, j); }
      NonEmpty(SplitOnSpace(x)) + NonEmpty(SplitOnSpace(y));
    }
  }

  /** White space appended after `x` leaves the first white space of `x`, if any, first. */
  lemma NextSpaceOfAppend(x: string, sp: char, y: string)
    requires IsSpace(sp)
    ensures NextSpace(x + [sp] + y, 0) == NextSpace(x, 0)
  {
    var s := x + [sp] + y;
    var i := NextSpace(x, 0);
    assert forall m :: 0 <= m < i ==> s[m] == x[m];
    assert s[i] == if i < |x| then x[i] else sp;
    NextSpaceIs(s, 0, i);
  }

  /** `SplitOnSpaceAt` when white space in `x` is followed by more of `x`: the split of
      the whole takes the same first piece as that of `x` and continues at the same place. */
  lemma SplitOnSpaceAtInner(x: string, sp: char, y: string, i: nat, j: nat)
    requires IsSpace(sp)
    requires i < |x| && NextSpace(x, 0) == i
    requires j == SkipSpace(x, i) && j < |x|
    ensures NonEmpty(SplitOnSpace(x + [sp] + y)) == NonEmpty([x[..i]]) + NonEmpty(SplitOnSpace(x[j..] + [sp] + y))
  {
    var s := x + [sp] + y;
    NextSpaceOfAppend(x, sp, y);
    assert forall m :: i <= m <= j ==> s[m] == x[m];
    SkipSpaceIs(s, i, j);
    assert s[j..] == x[j..] + [sp] + y;
    assert s[..i] == x[..i];
    NonEmptySplitCons(s, i, j);
  }

  /** `SplitOnSpaceAt` when `x` holds no white space after its last piece: the split of
      the whole takes that piece and continues in `y`. */
  lemma SplitOnSpaceAtLast(x: string, sp: char, y: string, i: nat)
    requires IsSpace(sp)
    requires i == NextSpace(x, 0)
    requires i < |x| ==> SkipSpace(x, i) == |x|
    ensures NonEmpty(SplitOnSpace(x + [sp] + y)) == NonEmpty(SplitOnSpace(x)) + NonEmpty(SplitOnSpace(y))
  {
    calc {
      NonEmpty(SplitOnSpace(x + [sp] + y));
    == { SplitAfterLastPiece(x, sp, y, i); }
      NonEmpty([x[..i]]) + NonEmpty(SplitOnSpace(y[SkipSpace(y, 0)..]));
    == { NonEmptySplitSkipsSpace(y); }
      NonEmpty([x[..i]]) + NonEmpty(SplitOnSpace(y));
    == { LastPiece(x, i); }
      NonEmpty(SplitOnSpace(x)) + NonEmpty(SplitOnSpace(y));
    }
  }

  /** After the last piece of `x`, the split of `x + [sp] + y` resumes past the leading
      white space of `y`. */
  lemma SplitAfterLastPiece(x: string, sp: char, y: string, i: nat)
    requires IsSpace(sp)
    requires i == NextSpace(x, 0)
    requires i < |x| ==> SkipSpace(x, i) == |x|
    ensures NonEmpty(SplitOnSpace(x + [sp] + y)) == NonEmpty([x[..i]]) + NonEmpty(SplitOnSpace(y[SkipSpace(y, 0)..]))
  {
    var s := x + [sp] + y;
    var k := SkipSpace(y, 0);
    var e := |x| + 1 + k;
    NextSpaceOfAppend(x, sp, y);
    assert forall m :: i <= m < e ==> IsSpace(s[m]) by {
      forall m | i <= m < e ensures IsSpace(s[m]) {
        if m > |x| { assert s[m] == y[m - |x| - 1]; }
      }
    }
    assert e < |s| ==> s[e] == y[k];
    SkipSpaceIs(s, i, e);
    assert s[e..] == y[k..];
    assert s[..i] == x[..i];
    NonEmptySplitCons(s, i, e);
  }

  /** The filtered split of `x` when it has no piece after position `i`: just the piece
      before `i`, if non-empty. */
  lemma LastPiece(x: string, i: nat)
    requires i == NextSpace(x, 0)
    requires i < |x| ==> SkipSpace(x, i) == |x|
    ensures NonEmpty(SplitOnSpace(x)) == NonEmpty([x[..i]])
  {
    if i < |x| {
      NonEmptySplitCons(x, i, |x|);
      assert x[|x|..] == [];
      assert SplitOnSpace([]) == [[]];
    } else {
      assert x[..i] == x;
    }
  }

  /** A character that does not lower-case into `[a-z0-9]` separates tokens: the tokens
      of the whole are those of the text before it followed by those of the text after it. */
  lemma TokenizeSplitsAt(a: string, c: char, b: string)
    requires !IsWordChar(LowerChar(c))
    ensures Tokenize(a + [c] + b) == Tokenize(a) + Tokenize(b)
  {
    NormalizeAppend(a + [c], b);
    NormalizeAppend(a, [c]);
    var n := Normalize([c]);
    assert IsSpace(n[0]);
    assert n == [n[0]];
    SplitOnSpaceAt(Normalize(a), n[0], Normalize(b));
  }

  /** A non-empty run of characters that each lower-case into `[a-z0-9]` is one token,
      its lower-case form. */
  lemma TokenizeWord(w: string)
    requires w != []
    requires forall i :: 0 <= i < |w| ==> IsWordChar(LowerChar(w[i]))
    ensures Tokenize(w) == [Lower(w)]
  {
    var s := Normalize(w);
    assert s == Lower(w);
    SplitOnSpaceWord(s);
    NonEmptySingle(s);
  }

  /** Text without white space is one piece, itself. */
  lemma SplitOnSpaceWord(w: string)
    requires forall i :: 0 <= i < |w| ==> !IsSpace(w[i])
    ensures SplitOnSpace(w) == [w]
  {
    NextSpaceIs(w, 0, |w|);
  }

  /** `tokenize("Node.js & SQL!")` is `["node", "js", "sql"]`: `.`, `&` and `!`
      separate or end tokens. */
  lemma TokenizeExample()
    ensures Tokenize("Node.js & SQL!") == ["node", "js", "sql"]
  {
    assert Tokenize("Node.js & SQL!") == Tokenize("Node") + Tokenize("js & SQL!") by {
      assert "Node.js & SQL!" == "Node" + ['.'] + "js & SQL!";
      TokenizeSplitsAt("Node", '.', "js & SQL!");
    }
    ExampleNode();
    ExampleTail();
  }

  /** `tokenize("js & SQL!")` is `["js", "sql"]`: the `&` between two spaces is dropped. */
  lemma ExampleTail()
    ensures Tokenize("js & SQL!") == ["js", "sql"]
  {
    assert Tokenize("js & SQL!") == Tokenize("js") + Tokenize("& SQL!") by {
      assert "js & SQL!" == "js" + [' '] + "& SQL!";
      TokenizeSplitsAt("js", ' ', "& SQL!");
    }
    ExampleJs();
    ExampleSql();
  }

  /** `tokenize("& SQL!")` is `["sql"]`: the text before `&` and before the space is empty. */
  lemma ExampleSql()
    ensures Tokenize("& SQL!") == ["sql"]
  {
    assert Tokenize("& SQL!") == Tokenize("") + Tokenize(" SQL!") by {
      assert "& SQL!" == "" + ['&'] + " SQL!";
      TokenizeSplitsAt("", '&', " SQL!");
    }
    ExampleEmpty();
    ExampleSpaceSql();
  }

  /** `tokenize(" SQL!")` is `["sql"]`: leading white space yields nothing. */
  lemma ExampleSpaceSql()
    ensures Tokenize(" SQL!") == ["sql"]
  {
    assert Tokenize(" SQL!") == Tokenize("") + Tokenize("SQL!") by {
      assert " SQL!" == "" + [' '] + "SQL!";
      TokenizeSplitsAt("", ' ', "SQL!");
    }
    ExampleEmpty();
    ExampleSqlMark();
  }

  /** `tokenize("SQL!")` is `["sql"]`: the trailing `!` leaves nothing behind. */
  lemma ExampleSqlMark()
    ensures Tokenize("SQL!") == ["sql"]
  {
    assert Tokenize("SQL!") == Tokenize("SQL") + Tokenize("") by {
      assert "SQL!" == "SQL" + ['!'] + "";
      TokenizeSplitsAt("SQL", '!', "");
    }
    ExampleSqlWord();
    ExampleEmpty();
  }

  /** Empty text has no tokens. */
  lemma ExampleEmpty()
    ensures Tokenize("") == []
  {
    TokenizeEmptyIff("");
  }

  /** `tokenize("Node")` is `["node"]`. */
  lemma ExampleNode()
    ensures Tokenize("Node") == ["node"]
  {
    TokenizeWord("Node");
    assert Lower("Node") == "node";
  }

  /** `tokenize("js")` is `["js"]`. */
  lemma ExampleJs()
    ensures Tokenize("js") == ["js"]
  {
    TokenizeWord("js");
    assert Lower("js") == "js";
  }

  /** `tokenize("SQL")` is `["sql"]`. */
  lemma ExampleSqlWord()
    ensures Tokenize("SQL") == ["sql"]
  {
    TokenizeWord("SQL");
    assert Lower("SQL") == "sql";
  }

  /** Splitting yields no non-empty piece exactly when the string is all white space. */
  lemma {:induction false} SplitOnSpaceEmptyIff(s: string)
    ensures NonEmpty(SplitOnSpace(s)) == [] <==> AllSpace(s)
    decreases |s|
  {
    var i := NextSpace(s, 0);
    if i < |s| {
      var j := SkipSpace(s, i);
      SplitOnSpaceEmptyIff(s[j..]);
      NonEmptyAppend([s[..i]], SplitOnSpace(s[j..]));
      if AllSpace(s) {
        assert i == 0;
        assert AllSpace(s[j..]);
      } else {
        var m :| 0 <= m < |s| && !IsSpace(s[m]);
        if m < i {
          assert s[..i] != [];
        } else {
          assert m >= j;
          assert !IsSpace(s[j..][m - j]);
        }
      }
    } else if s != [] {
      assert !IsSpace(s[0]);
    }
  }

  /** Empty text, or text none of whose characters lower-cases into `[a-z0-9]`
      (punctuation, white space, non-ASCII), yields no tokens; and only such text does. */
  lemma TokenizeEmptyIff(text: string)
    ensures Tokenize(text) == [] <==> forall i :: 0 <= i < |text| ==> !IsWordChar(LowerChar(text[i]))
  {
    SplitOnSpaceEmptyIff(Normalize(text));
    NormalizeAllSpaceIff(text);
  }

  /** Normalizing gives only white space exactly when no character lower-cases into
      `[a-z0-9]`. */
  lemma NormalizeAllSpaceIff(text: string)
    ensures AllSpace(Normalize(text)) <==> forall i :: 0 <= i < |text| ==> !IsWordChar(LowerChar(text[i]))
  {
    var s := Normalize(text);
    if forall i :: 0 <= i < |text| ==> !IsWordChar(LowerChar(text[i])) {
      forall i | 0 <= i < |s|
        ensures IsSpace(s[i])
      {
        assert !IsWordChar(s[i]);
      }
    } else {
      var i :| 0 <= i < |text| && IsWordChar(LowerChar(text[i]));
      assert IsWordChar(s[i]);
      assert !IsSpace(s[i]);
    }
  }

  /** Tokens joined by single spaces, as `tokens.join(" ")`. */
  function JoinSpace(tokens: seq<string>): string {
    if tokens == [] then []
    else if |tokens| == 1 then tokens[0]
    else tokens[0] + " " + JoinSpace(tokens[1..])
  }

  lemma {:induction false} JoinSpaceChars(tokens: seq<string>)
    requires forall k :: 0 <= k < |tokens| ==> IsToken(tokens[k])
    ensures forall c :: c in JoinSpace(tokens) ==> IsWordChar(c) || c == ' '
    ensures tokens != [] ==> JoinSpace(tokens) != [] && IsWordChar(JoinSpace(tokens)[0])
  {
    if |tokens| > 1 {
      JoinSpaceChars(tokens[1..]);
      assert tokens[0][0] in tokens[0];
    } else if |tokens| == 1 {
      assert tokens[0][0] in tokens[0];
    }
  }

  lemma {:induction false} SplitJoinSpace(tokens: seq<string>)
    requires tokens != []
    requires forall k :: 0 <= k < |tokens| ==> IsToken(tokens[k])
    ensures SplitOnSpace(JoinSpace(tokens)) == tokens
  {
    var t := tokens[0];
    TokenHasNoSpace(t);
    if |tokens| == 1 {
      SplitOnSpaceWord(t);
    } else {
      var rest := JoinSpace(tokens[1..]);
      calc {
        SplitOnSpace(JoinSpace(tokens));
      == { JoinSpaceCons(tokens); }
        SplitOnSpace(t + " " + rest);
      == { JoinSpaceStartsWord(tokens[1..]); SplitAfterSpace(t, rest); }
        [t] + SplitOnSpace(rest);
      == { SplitJoinSpace(tokens[1..]); }
        [t] + tokens[1..];
      ==
        tokens;
      }
    }
  }

  /** The join of two or more tokens is the first, a space, and the join of the rest. */
  lemma JoinSpaceCons(tokens: seq<string>)
    requires |tokens| > 1
    ensures JoinSpace(tokens) == tokens[0] + " " + JoinSpace(tokens[1..])
  {
  }

  /** The join of one or more tokens starts with something other than white space. */
  lemma JoinSpaceStartsWord(tokens: seq<string>)
    requires tokens != []
    requires forall k :: 0 <= k < |tokens| ==> IsToken(tokens[k])
    ensures JoinSpace(tokens) != [] && !IsSpace(JoinSpace(tokens)[0])
  {
    JoinSpaceChars(tokens);
  }

  /** A token holds no white space. */
  lemma TokenHasNoSpace(t: string)
    requires IsToken(t)
    ensures forall i :: 0 <= i < |t| ==> !IsSpace(t[i])
  {
    forall i | 0 <= i < |t|
      ensures !IsSpace(t[i])
    {
      assert t[i] in t;
    }
  }

  /** `NextSpace` stops at the first white space: any position with none before it and
      white space (or the end) at it is the one found. */
  lemma {:induction false} NextSpaceIs(s: string, from: nat, i: nat)
    requires from <= i <= |s|
    requires forall k :: from <= k < i ==> !IsSpace(s[k])
    requires i < |s| ==> IsSpace(s[i])
    ensures NextSpace(s, from) == i
    decreases i - from
  {
    if from < i {
      NextSpaceIs(s, from + 1, i);
    }
  }

  /** A piece without white space, one space, and a rest that starts with no white
      space: the piece is split off first. */
  lemma SplitAfterSpace(t: string, rest: string)
    requires forall i :: 0 <= i < |t| ==> !IsSpace(t[i])
    requires rest != [] && !IsSpace(rest[0])
    ensures SplitOnSpace(t + " " + rest) == [t] + SplitOnSpace(rest)
  {
    var s := t + " " + rest;
    forall i | 0 <= i < |t|
      ensures !IsSpace(s[i])
    {
      assert s[i] == t[i];
    }
    assert s[|t|] == ' ';
    NextSpaceIs(s, 0, |t|);
    assert s[|t| + 1] == rest[0];
    SkipSpaceIs(s, |t|, |t| + 1);
    assert s[..|t|] == t;
    assert s[|t| + 1..] == rest;
  }

  /** Text made only of tokens separated by single spaces tokenizes to those tokens. */
  lemma TokenizeJoinSpace(tokens: seq<string>)
    requires forall k :: 0 <= k < |tokens| ==> IsToken(tokens[k])
    ensures Tokenize(JoinSpace(tokens)) == tokens
  {
    var text := JoinSpace(tokens);
    JoinSpaceChars(tokens);
    NormalizeWordText(text);
    if tokens == [] {
      assert SplitOnSpace([]) == [[]];
    } else {
      SplitJoinSpace(tokens);
      NonEmptyOfNonEmpty(tokens);
    }
  }

  /** Text of word characters and spaces is left alone by normalizing. */
  lemma NormalizeWordText(text: string)
    requires forall c :: c in text ==> IsWordChar(c) || c == ' '
    ensures Normalize(text) == text
  {
    forall i | 0 <= i < |text|
      ensures Normalize(text)[i] == text[i]
    {
      assert text[i] in text;
    }
  }

  /** `tokenize` is idempotent: tokenizing the space-join of its output gives the same tokens. */
  lemma TokenizeIdempotent(text: string)
    ensures Tokenize(JoinSpace(Tokenize(text))) == Tokenize(text)
  {
    TokenizeJoinSpace(Tokenize(text));
  }
}
