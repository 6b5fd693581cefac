/**
 * An offer letter laid out from the ten agreement fields, and the proof that the
 * extraction of routes/agreement.js lines 30-66 reads those fields back: each label
 * on a line of its own, its value on the lines below it, the company block closed
 * by the supervisor label and the supervisor block by the internship period label.
 */
module AgreementLetter {
  import opened Wrappers
  import opened JsText
  import opened Agreement

  // ------------------------------------------------------------ the layout

  /** Each line followed by a newline. */
  function Lines(ls: seq<string>): string {
    if ls == [] then [] else ls[0] + "\n" + Lines(ls[1..])
  }

  /** No occurrence of the label starts anywhere in the text. */
  predicate NoLabel(text: string, key: string) {
    forall j :: 0 <= j <= |text| ==> !LabelAt(text, j, key)
  }

  /** A line that the search for `key` passes over. */
  predicate Clear(line: string, key: string) {
    '\n' !in line && NoLabel(line, key)
  }

  predicate AllClear(ls: seq<string>, key: string) {
    forall k :: 0 <= k < |ls| ==> Clear(ls[k], key)
  }

  /** A line holding a value: not empty, without surrounding white space or a line
      terminator, and with none of the seven labels in it. */
  predicate Plain(v: string) {
    && v != [] && Trimmed(v) && (forall c :: c in v ==> !IsLineTerminator(c))
    && NoLabel(v, StudentLabel) && NoLabel(v, CompanyLabel) && NoLabel(v, SupervisorLabel)
    && NoLabel(v, PeriodLabel) && NoLabel(v, StartLabel) && NoLabel(v, EndLabel)
    && NoLabel(v, HoursLabel)
  }

  /** The lines after the introduction: the student line is "name,position", the
      company block has the name and the address, the supervisor block the name, a
      second line (`title`) the handler skips, the phone and the email. */
  function Body(f: AgreementFields, title: string): seq<string> {
    [StudentLabel, f.studentName + "," + f.internPosition,
     CompanyLabel, f.companyName, f.companyAddress,
     SupervisorLabel, f.supervisorName, title, f.supervisorPhone, f.supervisorEmail,
     PeriodLabel,
     StartLabel, f.startDate,
     EndLabel, f.endDate,
     HoursLabel, f.workingHours]
  }

  function Letter(intro: seq<string>, f: AgreementFields, title: string): string {
    Lines(intro) + Lines(Body(f, title))
  }

  /** Fields the layout can carry: every line a plain value, and no comma inside the
      student name or the position. */
  predicate Fits(f: AgreementFields, title: string) {
    && f.studentName != [] && Trimmed(f.studentName) && ',' !in f.studentName
    && f.internPosition != [] && Trimmed(f.internPosition) && ',' !in f.internPosition
    && Plain(f.studentName + "," + f.internPosition)
    && Plain(f.companyName) && Plain(f.companyAddress)
    && Plain(f.supervisorName) && Plain(title) && Plain(f.supervisorPhone) && Plain(f.supervisorEmail)
    && Plain(f.startDate) && Plain(f.endDate) && Plain(f.workingHours)
  }

  // ------------------------------------------------- labels that are not there

  /** A character lowers to a newline only if it is one. */
  lemma LowerNewline(c: char)
    ensures LowerChar(c) == '\n' ==> c == '\n'
  {
  }

  /** A label shifted by a prefix matches as it does without the prefix. */
  lemma LabelShift(p: string, s: string, j: nat, key: string)
    ensures LabelAt(p + s, |p| + j, key) == LabelAt(s, j, key)
  {
    var t := p + s;
    if |p| + j + |key| <= |t| {
      assert forall i :: |p| <= i < |t| ==> t[i] == s[i - |p|];
    }
  }

  /** No label starts inside a text that ends with a newline, whatever follows it,
      unless it occurs in the text itself. */
  lemma PrefixNoLabel(p: string, s: string, key: string)
    requires p == [] || p[|p| - 1] == '\n'
    requires NoLabel(p, key) && '\n' !in key
    ensures forall j :: 0 <= j < |p| ==> !LabelAt(p + s, j, key)
  {
    var t := p + s;
    forall j | 0 <= j < |p|
      ensures !LabelAt(t, j, key)
    {
      if j + |key| <= |p| {
        assert forall i :: 0 <= i < |p| ==> t[i] == p[i];
        assert !LabelAt(p, j, key);
      } else if j + |key| <= |t| {
        NewlineMismatch(t, j, key, |p| - 1 - j);
      }
    }
  }

  /** A newline in the text where the label has none: no match there. */
  lemma NewlineMismatch(t: string, j: nat, key: string, k: nat)
    requires k < |key| && j + k < |t| && t[j + k] == '\n' && '\n' !in key
    ensures !LabelAt(t, j, key)
  {
    assert key[k] in key;
    LowerNewline(key[k]);
    assert !SameIgnoringCase(t[j + k], key[k]);
  }

  /** A line without the label, with its newline, still has none. */
  lemma LineNoLabel(line: string, key: string)
    requires NoLabel(line, key) && key != [] && '\n' !in key
    ensures NoLabel(line + "\n", key)
  {
    var t := line + "\n";
    forall j | 0 <= j <= |t|
      ensures !LabelAt(t, j, key)
    {
      if j + |key| <= |line| {
        assert forall i :: 0 <= i < |line| ==> t[i] == line[i];
        assert !LabelAt(line, j, key);
      } else if j + |key| <= |t| {
        NewlineMismatch(t, j, key, |line| - j);
      }
    }
  }

  /** Joining two texts without the label, the first ending with a newline, adds none. */
  lemma ConcatNoLabel(p: string, s: string, key: string)
    requires p == [] || p[|p| - 1] == '\n'
    requires NoLabel(p, key) && NoLabel(s, key) && '\n' !in key
    ensures NoLabel(p + s, key)
  {
    PrefixNoLabel(p, s, key);
    forall j | |p| <= j <= |p + s|
      ensures !LabelAt(p + s, j, key)
    {
      LabelShift(p, s, j - |p|, key);
    }
  }

  /** Lines that each pass the search for the label hold no occurrence of it. */
  lemma {:induction false} LinesNoLabel(ls: seq<string>, key: string)
    requires AllClear(ls, key) && key != [] && '\n' !in key
    ensures NoLabel(Lines(ls), key)
    ensures Lines(ls) == [] || Lines(ls)[|Lines(ls)| - 1] == '\n'
  {
    if ls != [] {
      assert Clear(ls[0], key);
      assert AllClear(ls[1..], key) by {
        forall k | 0 <= k < |ls[1..]| ensures Clear(ls[1..][k], key) {
          assert ls[1..][k] == ls[k + 1];
        }
      }
      LinesNoLabel(ls[1..], key);
      LineNoLabel(ls[0], key);
      ConcatNoLabel(ls[0] + "\n", Lines(ls[1..]), key);
    }
  }

  /** The label is found where it first stands at the start of a line, below a text
      without it that ends a line. */
  lemma FoundAfterLines(above: string, ls: seq<string>, key: string, r: string)
    requires NoLabel(above, key) && (above == [] || above[|above| - 1] == '\n')
    requires AllClear(ls, key) && key != [] && '\n' !in key
    ensures FindLabel(above + Lines(ls) + key + r, key, 0) == Some(|above + Lines(ls)|)
  {
    var p := above + Lines(ls);
    LinesNoLabel(ls, key);
    ConcatNoLabel(above, Lines(ls), key);
    assert p == [] || p[|p| - 1] == '\n' by {
      if Lines(ls) != [] {
        assert p[|p| - 1] == Lines(ls)[|Lines(ls)| - 1];
      }
    }
    assert p + key + r == p + (key + r);
    PrefixNoLabel(p, key + r, key);
    assert LabelAt(key + r, 0, key) by {
      assert forall i :: 0 <= i < |key| ==> (key + r)[i] == key[i];
    }
    LabelShift(p, key + r, 0, key);
    FindLabelIs(p + (key + r), key, |p|);
  }

  /** A label with no occurrence before it is the one found. */
  lemma FindLabelIs(text: string, key: string, i: nat)
    requires LabelAt(text, i, key) && forall j :: 0 <= j < i ==> !LabelAt(text, j, key)
    ensures FindLabel(text, key, 0) == Some(i)
  {
  }

  /** No character of the line lowers to one of `cs`. */
  predicate Avoids(line: string, cs: string) {
    forall j :: 0 <= j < |line| ==> LowerChar(line[j]) !in cs
  }

  /** A label a line lacks because one of its letters, in either case, is missing. */
  lemma MissingLetter(line: string, key: string, m: nat, cs: string)
    requires m < |key| && LowerChar(key[m]) in cs && Avoids(line, cs)
    ensures NoLabel(line, key)
  {
    forall j | 0 <= j <= |line|
      ensures !LabelAt(line, j, key)
    {
      if j + |key| <= |line| {
        assert LowerChar(line[j + m]) !in cs;
      }
    }
  }

  /** A line avoiding the newline has none. */
  lemma AvoidsNewline(line: string, cs: string)
    requires Avoids(line, cs) && '\n' in cs
    ensures '\n' !in line
  {
  }

  /** A label ending with a colon that a line lacks: the line's only colon is its
      last character, so the label could only end there, and it differs there. */
  lemma OnlyFinalColon(line: string, key: string, m: nat)
    requires key != [] && key[|key| - 1] == ':' && |key| <= |line|
    requires forall j :: 0 <= j < |line| - 1 ==> line[j] != ':'
    requires m < |key| && !SameIgnoringCase(line[|line| - |key| + m], key[m])
    ensures NoLabel(line, key)
  {
    forall j | 0 <= j <= |line|
      ensures !LabelAt(line, j, key)
    {
      var e := j + |key| - 1;
      if j < |line| - |key| {
        assert !SameIgnoringCase(line[e], key[|key| - 1]);
      } else if j == |line| - |key| {
        assert !SameIgnoringCase(line[j + m], key[m]);
      }
    }
  }

  // ------------------------------------------------------- lines of a letter

  /** The lines before `k` and the lines from `k` on. */
  lemma {:induction false} LinesFrom(ls: seq<string>, k: nat)
    requires k <= |ls|
    ensures Lines(ls) == Lines(ls[..k]) + Lines(ls[k..])
  {
    if k == 0 {
      assert ls[..0] == [] && ls[0..] == ls;
    } else {
      LinesFrom(ls[1..], k - 1);
      assert ls[..k][0] == ls[0] && ls[..k][1..] == ls[1..][..k - 1];
      assert ls[1..][k - 1..] == ls[k..];
    }
  }

  /** The line at `k` and its newline start the lines from `k` on. */
  lemma LinesAt(ls: seq<string>, k: nat)
    requires k < |ls|
    ensures Lines(ls[k..]) == ls[k] + "\n" + Lines(ls[k + 1..])
  {
    assert ls[k..][0] == ls[k] && ls[k..][1..] == ls[k + 1..];
  }

  /** Lines that are not empty join to their layout without its last newline. */
  lemma {:induction false} LinesJoin(ls: seq<string>)
    requires ls != []
    ensures Lines(ls) == Join(ls, '\n') + "\n"
  {
    if |ls| > 1 {
      LinesJoin(ls[1..]);
    } else {
      assert ls[1..] == [];
    }
  }

  /** A line of a block that the lazy capture runs over: not empty, not starting
      with white space, without a newline or the closing label. */
  predicate BlockLine(line: string, close: string) {
    line != [] && !IsSpace(line[0]) && Clear(line, close)
  }

  /** White space skipped after a prefix is skipped as it is without it. */
  lemma SkipSpaceShift(p: string, s: string, j: nat)
    requires j <= |s|
    ensures SkipSpace(p + s, |p| + j) == |p| + SkipSpace(s, j)
  {
    var t := p + s;
    var e := SkipSpace(s, j);
    forall k | |p| + j <= k < |p| + e
      ensures IsSpace(t[k])
    {
      assert t[k] == s[k - |p|];
    }
    if e < |s| {
      assert t[|p| + e] == s[e];
    }
    SkipSpaceIs(t, |p| + j, |p| + e);
  }

  /** A closing newline shifted by a prefix closes as it does without it. */
  lemma ClosesShift(p: string, s: string, j: nat, close: string)
    requires j < |s|
    ensures ClosesAt(p + s, |p| + j, close) == ClosesAt(s, j, close)
  {
    assert (p + s)[|p| + j] == s[j];
    SkipSpaceShift(p, s, j + 1);
    LabelShift(p, s, SkipSpace(s, j + 1), close);
  }

  /** The first closing newline at or after `from` is the one found. */
  lemma FirstCloseAt(text: string, from: nat, q: nat, close: string)
    requires from <= q < |text| && ClosesAt(text, q, close)
    requires forall q' :: from <= q' < q ==> !ClosesAt(text, q', close)
    ensures FirstClose(text, from, close) == Some(q)
  {
  }

  /** A block whose closing newline is known is the text from the end of the white
      space after the opening label up to that newline. */
  lemma MatchBlockAt(text: string, open: string, close: string, i: nat, a: nat, q: nat)
    requires FindLabel(text, open, 0) == Some(i) && SkipSpace(text, i + |open|) == a
    requires a <= q < |text| && ClosesAt(text, q, close)
    requires forall j :: a <= j < q ==> !ClosesAt(text, j, close)
    ensures MatchBlock(text, open, close) == Some(text[a..q])
  {
    FirstCloseAt(text, a, q, close);
    MatchBlockFirstLabel(text, open, close, i, q);
  }

  /** A label alone on line `k`, after lines without it: the text splits around it and
      its newline, and the search finds it there. */
  lemma LineInLines(above: string, ls: seq<string>, k: nat, tail: string, key: string)
    returns (pre: string, rest: string)
    requires NoLabel(above, key) && (above == [] || above[|above| - 1] == '\n')
    requires k + 1 < |ls| && ls[k] == key && AllClear(ls[..k], key) && key != [] && '\n' !in key
    ensures above + Lines(ls) + tail == pre + key + "\n" + ls[k + 1] + rest
    ensures FindLabel(above + Lines(ls) + tail, key, 0) == Some(|pre|)
    ensures rest != [] && rest[0] == '\n'
  {
    pre := above + Lines(ls[..k]);
    rest := "\n" + Lines(ls[k + 2..]) + tail;
    LinesFrom(ls, k);
    LinesAt(ls, k);
    LinesAt(ls, k + 1);
    Regroup6(above, Lines(ls[..k]), key, "\n", ls[k + 1], Lines(ls[k + 2..]), tail);
    Regroup5(pre, key, "\n", ls[k + 1], rest);
    FoundAfterLines(above, ls[..k], key, "\n" + ls[k + 1] + rest);
  }

  /** The line below a label alone on its line, after lines without the label, is the
      line the label's pattern captures. */
  lemma LineOfLines(above: string, ls: seq<string>, k: nat, tail: string, key: string)
    requires NoLabel(above, key) && (above == [] || above[|above| - 1] == '\n')
    requires k + 1 < |ls| && ls[k] == key && AllClear(ls[..k], key) && key != [] && '\n' !in key
    requires ls[k + 1] != [] && !IsSpace(ls[k + 1][0])
    requires forall c :: c in ls[k + 1] ==> !IsLineTerminator(c)
    ensures MatchLine(above + Lines(ls) + tail, key) == Some(ls[k + 1])
  {
    var pre, rest := LineInLines(above, ls, k, tail, key);
    ValueLine(above + Lines(ls) + tail, pre, key, "\n", ls[k + 1], rest);
  }

  /** Lines of a block under the opening label, alone on line `k`, and above the closing
      label, alone on the line after them, with neither label before: the block the
      pattern captures is those lines joined by newlines. */
  lemma BlockOfLines(above: string, ls: seq<string>, k: nat, n: nat, tail: string, open: string,
                      close: string, block: seq<string>)
    requires NoLabel(above, open) && (above == [] || above[|above| - 1] == '\n')
    requires k + n + 1 < |ls| && n >= 1 && ls[k] == open && ls[k + n + 1] == close
    requires AllClear(ls[..k], open) && open != [] && '\n' !in open
    requires block == ls[k + 1..k + 1 + n] && forall j :: 0 <= j < |block| ==> BlockLine(block[j], close)
    requires close != [] && !IsSpace(close[0]) && '\n' !in close
    ensures MatchBlock(above + Lines(ls) + tail, open, close) == Some(Join(block, '\n'))
  {
    var i, p, s, m := BlockInLines(above, ls, k, n, tail, open, close, block);
    MatchBlockSuffix(above + Lines(ls) + tail, i, open, p, s, m, close);
  }

  /** A block after a prefix that ends with the newline of its opening label, the
      rest closing first at `m`: the capture is the rest up to `m`. */
  lemma MatchBlockSuffix(text: string, i: nat, open: string, p: string, s: string, m: nat, close: string)
    requires text == p + s && FindLabel(text, open, 0) == Some(i)
    requires i + |open| + 1 == |p| && p[|p| - 1] == '\n'
    requires m < |s| && ClosesAt(s, m, close) && !IsSpace(s[0])
    requires forall j :: 0 <= j < m ==> !ClosesAt(s, j, close)
    ensures MatchBlock(text, open, close) == Some(s[..m])
  {
    assert ClosesAt(text, |p| + m, close) by {
      ClosesShift(p, s, m, close);
    }
    assert forall j :: |p| <= j < |p| + m ==> !ClosesAt(text, j, close) by {
      ShiftNoClose(p, s, m, close);
    }
    assert SkipSpace(text, i + |open|) == |p| by {
      assert text[|p|] == s[0];
      assert text[|p| - 1..|p|] == "\n";
      GapSkipped(text, |p| - 1, |p|);
    }
    assert text[|p|..|p| + m] == s[..m] by {
      SliceAfter(p, s, m);
    }
    MatchBlockAt(text, open, close, i, |p|, |p| + m);
  }

  /** A block of lines `ls[k + 1..k + 1 + n]` under the opening label, alone on line `k`,
      and above the closing label, alone on the line after them: the text splits after
      the opening label's newline into a prefix and a rest that closes first at the
      end of the block's lines. */
  lemma BlockInLines(above: string, ls: seq<string>, k: nat, n: nat, tail: string, open: string,
                     close: string, body: seq<string>)
    returns (i: nat, p: string, s: string, m: nat)
    requires NoLabel(above, open) && (above == [] || above[|above| - 1] == '\n')
    requires k + n + 1 < |ls| && n >= 1 && ls[k] == open && ls[k + n + 1] == close
    requires AllClear(ls[..k], open) && open != [] && '\n' !in open
    requires body == ls[k + 1..k + 1 + n] && forall j :: 0 <= j < |body| ==> BlockLine(body[j], close)
    requires close != [] && !IsSpace(close[0]) && '\n' !in close
    ensures above + Lines(ls) + tail == p + s && FindLabel(above + Lines(ls) + tail, open, 0) == Some(i)
    ensures i + |open| + 1 == |p| && p[|p| - 1] == '\n'
    ensures m < |s| && ClosesAt(s, m, close) && !IsSpace(s[0])
    ensures forall j :: 0 <= j < m ==> !ClosesAt(s, j, close)
    ensures s[..m] == Join(body, '\n')
  {
    var rest := "\n" + Lines(ls[k + n + 2..]) + tail;
    var pre := above + Lines(ls[..k]);
    i := |pre|;
    p := pre + open + "\n";
    s := Lines(body) + close + rest;
    assert above + Lines(ls) + tail == p + s by {
      LinesAround(ls, k, n, tail);
      Prepend(above, Lines(ls), tail, Lines(ls[..k]), open, "\n", s);
    }
    assert FindLabel(above + Lines(ls) + tail, open, 0) == Some(i) by {
      FoundAfterLines(above, ls[..k], open, "\n" + s);
      Regroup(pre, open, "\n", s);
    }
    m := ClosesInLines(s, body, close, rest);
    BlockText(body, close, rest, m);
  }

  /** The lines of a block, followed by the closing label, start with the first line
      and read, up to the newline ending the last, as the lines joined. */
  lemma BlockText(body: seq<string>, close: string, rest: string, m: nat)
    requires body != [] && BlockLine(body[0], close) && m == |Lines(body)| - 1
    ensures !IsSpace((Lines(body) + close + rest)[0])
    ensures (Lines(body) + close + rest)[..m] == Join(body, '\n')
  {
    LinesFirst(body);
    LinesJoin(body);
    SlicePrefix(Join(body, '\n'), "\n", close + rest);
  }

  /** The lines around a block, regrouped. */
  lemma LinesAround(ls: seq<string>, k: nat, n: nat, tail: string)
    requires k + n + 1 < |ls|
    ensures Lines(ls) + tail == Lines(ls[..k]) + ls[k] + "\n"
      + (Lines(ls[k + 1..k + 1 + n]) + ls[k + n + 1] + ("\n" + Lines(ls[k + n + 2..]) + tail))
  {
    LinesSplit(ls, k);
    LinesSplitAfter(ls, k, n);
    Regroup7(Lines(ls[..k]), ls[k], "\n", Lines(ls[k + 1..k + 1 + n]), ls[k + n + 1], Lines(ls[k + n + 2..]), tail);
  }

  /** The text of lines around one of them. */
  lemma LinesSplit(ls: seq<string>, k: nat)
    requires k < |ls|
    ensures Lines(ls) == Lines(ls[..k]) + (ls[k] + "\n" + Lines(ls[k + 1..]))
  {
    LinesFrom(ls, k);
    LinesAt(ls, k);
  }

  /** The text of the lines after line `k`, around line `k + n + 1`. */
  lemma LinesSplitAfter(ls: seq<string>, k: nat, n: nat)
    requires k + n + 1 < |ls|
    ensures Lines(ls[k + 1..])
      == Lines(ls[k + 1..k + 1 + n]) + (ls[k + n + 1] + "\n" + Lines(ls[k + n + 2..]))
  {
    var after := ls[k + 1..];
    LinesSplit(after, n);
    assert after[..n] == ls[k + 1..k + 1 + n];
    assert after[n] == ls[k + n + 1];
    assert after[n + 1..] == ls[k + n + 2..];
  }

  /** The text of lines starts with the first of them. */
  lemma LinesFirst(ls: seq<string>)
    requires ls != [] && ls[0] != []
    ensures Lines(ls) != [] && Lines(ls)[0] == ls[0][0]
  {
  }

  /** Over lines of a block followed by the closing label, the capture can stop only
      at the newline that ends the last of them. */
  lemma {:induction false} ClosesInLines(s: string, body: seq<string>, close: string, rest: string)
    returns (m: nat)
    requires s == Lines(body) + close + rest
    requires body != [] && forall k :: 0 <= k < |body| ==> BlockLine(body[k], close)
    requires close != [] && !IsSpace(close[0]) && '\n' !in close
    ensures m == |Lines(body)| - 1 && m < |s| && ClosesAt(s, m, close)
    ensures forall j :: 0 <= j < m ==> !ClosesAt(s, j, close)
    decreases |body|
  {
    m := |Lines(body)| - 1;
    var b := body[0];
    var s' := Lines(body[1..]) + close + rest;
    assert BlockLine(b, close);
    assert s == b + "\n" + s' by {
      Reassociate(b + "\n", Lines(body[1..]), close, rest);
    }
    if |body| == 1 {
      assert s' == close + rest;
      LastLineCloses(s, b, close, rest);
    } else {
      var c := body[1];
      assert BlockLine(c, close);
      var more := Lines(body[2..]) + close + rest;
      assert body[1..][0] == c && body[1..][1..] == body[2..];
      assert s' == c + "\n" + more by {
        Reassociate(c + "\n", Lines(body[2..]), close, rest);
      }
      FirstLinePasses(s, b, c, more, close);
      forall k | 0 <= k < |body[1..]|
        ensures BlockLine(body[1..][k], close)
      {
        assert body[1..][k] == body[k + 1];
      }
      var m' := ClosesInLines(s', body[1..], close, rest);
      ClosesAfterFirst(s, b + "\n", s', m', m, close);
    }
  }

  /** A single line followed by the closing label closes at its newline and only there. */
  lemma LastLineCloses(s: string, b: string, close: string, rest: string)
    requires s == b + "\n" + (close + rest) && BlockLine(b, close)
    requires close != [] && !IsSpace(close[0])
    ensures |b| < |s| && ClosesAt(s, |b|, close)
    ensures forall j :: 0 <= j < |b| ==> !ClosesAt(s, j, close)
  {
    PassLine(s, b, close + rest, close);
    CloseStarts(s, b + "\n", close, rest);
  }

  /** A line followed by another line of the block does not close, newline included. */
  lemma FirstLinePasses(s: string, b: string, c: string, more: string, close: string)
    requires s == b + "\n" + (c + "\n" + more) && BlockLine(b, close) && BlockLine(c, close)
    requires close != [] && '\n' !in close
    ensures forall j :: 0 <= j < |b + "\n"| ==> !ClosesAt(s, j, close)
  {
    PassLine(s, b, c + "\n" + more, close);
    NoCloseStarts(s, b + "\n", c, more, close);
  }

  /** A first line whose newline does not close, then a stretch that closes only at
      its end: the whole closes only at that end. */
  lemma ClosesAfterFirst(s: string, p: string, s': string, m: nat, q: nat, close: string)
    requires s == p + s' && q == |p| + m
    requires forall j :: 0 <= j < |p| ==> !ClosesAt(s, j, close)
    requires m < |s'| && ClosesAt(s', m, close)
    requires forall j :: 0 <= j < m ==> !ClosesAt(s', j, close)
    ensures q < |s| && ClosesAt(s, q, close)
    ensures forall j :: 0 <= j < q ==> !ClosesAt(s, j, close)
  {
    ClosesShift(p, s', m, close);
    ShiftNoClose(p, s', m, close);
  }

  /** A stretch without a closing newline keeps none after a prefix. */
  lemma ShiftNoClose(p: string, s: string, n: nat, close: string)
    requires n <= |s| && forall j :: 0 <= j < n ==> !ClosesAt(s, j, close)
    ensures forall j :: |p| <= j < |p| + n ==> !ClosesAt(p + s, j, close)
  {
    forall j | |p| <= j < |p| + n
      ensures !ClosesAt(p + s, j, close)
    {
      ClosesShift(p, s, j - |p|, close);
    }
  }

  /** Inside the first line of a text, where there is no newline, the capture cannot
      stop. */
  lemma PassLine(text: string, b: string, after: string, close: string)
    requires text == b + "\n" + after && BlockLine(b, close)
    ensures forall q :: 0 <= q < |b| ==> !ClosesAt(text, q, close)
  {
    forall q | 0 <= q < |b|
      ensures !ClosesAt(text, q, close)
    {
      assert text[q] == b[q];
      assert b[q] in b;
    }
  }

  /** A newline followed by the closing label ends the capture. */
  lemma CloseStarts(text: string, p: string, close: string, rest: string)
    requires text == p + (close + rest)
    requires p != [] && p[|p| - 1] == '\n' && close != [] && !IsSpace(close[0])
    ensures ClosesAt(text, |p| - 1, close)
  {
    assert text[|p|] == close[0];
    assert SkipSpace(text, |p|) == |p|;
    assert LabelAt(close + rest, 0, close) by {
      assert forall i :: 0 <= i < |close| ==> (close + rest)[i] == close[i];
    }
    LabelShift(p, close + rest, 0, close);
  }

  /** A newline followed by another line of the block does not end the capture. */
  lemma NoCloseStarts(text: string, p: string, c: string, more: string, close: string)
    requires text == p + (c + "\n" + more)
    requires p != [] && p[|p| - 1] == '\n'
    requires BlockLine(c, close) && close != [] && '\n' !in close
    ensures !ClosesAt(text, |p| - 1, close)
  {
    assert text[|p|] == c[0];
    assert SkipSpace(text, |p|) == |p|;
    LineNoLabel(c, close);
    PrefixNoLabel(c + "\n", more, close);
    LabelShift(p, c + "\n" + more, 0, close);
  }

  // --------------------------------------------------- the letter read back

  /** An introduction of plain lines, and fields the layout can carry. */
  predicate Ready(intro: seq<string>, f: AgreementFields, title: string) {
    Fits(f, title) && forall k :: 0 <= k < |intro| ==> Plain(intro[k])
  }

  /** The letter's text is read back into the fields it was laid out from, whatever
      introduction of plain lines comes before them and whatever text follows. */
  lemma ParseLetter(intro: seq<string>, f: AgreementFields, title: string, tail: string)
    requires Ready(intro, f, title)
    ensures ParseAgreement(Letter(intro, f, title) + tail) == f
  {
    StudentOfLetter(intro, f, title, tail);
    CompanyOfLetter(intro, f, title, tail);
    SupervisorOfLetter(intro, f, title, tail);
    StartOfLetter(intro, f, title, tail);
    EndOfLetter(intro, f, title, tail);
    HoursOfLetter(intro, f, title, tail);
  }

  lemma StudentOfLetter(intro: seq<string>, f: AgreementFields, title: string, tail: string)
    requires Ready(intro, f, title)
    ensures MatchLine(Letter(intro, f, title) + tail, StudentLabel).Some?
    ensures StudentParts(MatchLine(Letter(intro, f, title) + tail, StudentLabel).value)
      == (f.studentName, f.internPosition)
  {
    StudentApart();
    IntroClear(intro, StudentLabel);
    LineOfLines(Lines(intro), Body(f, title), 0, tail, StudentLabel);
    StudentPartsOfPair(f.studentName, f.internPosition);
    TrimTrimmed(f.studentName);
    TrimTrimmed(f.internPosition);
  }

  lemma CompanyOfLetter(intro: seq<string>, f: AgreementFields, title: string, tail: string)
    requires Ready(intro, f, title)
    ensures MatchBlock(Letter(intro, f, title) + tail, CompanyLabel, SupervisorLabel).Some?
    ensures CompanyParts(MatchBlock(Letter(intro, f, title) + tail, CompanyLabel, SupervisorLabel).value)
      == (f.companyName, f.companyAddress)
  {
    CompanyBlock(intro, f, title, tail);
    PlainClean(f.companyName);
    PlainClean(f.companyAddress);
    CompanyOfBlock(f.companyName, f.companyAddress);
  }

  lemma SupervisorOfLetter(intro: seq<string>, f: AgreementFields, title: string, tail: string)
    requires Ready(intro, f, title)
    ensures MatchBlock(Letter(intro, f, title) + tail, SupervisorLabel, PeriodLabel).Some?
    ensures SupervisorParts(MatchBlock(Letter(intro, f, title) + tail, SupervisorLabel, PeriodLabel).value)
      == (f.supervisorName, f.supervisorPhone, f.supervisorEmail)
  {
    SupervisorBlock(intro, f, title, tail);
    PlainClean(f.supervisorName);
    PlainClean(title);
    PlainClean(f.supervisorPhone);
    PlainClean(f.supervisorEmail);
    SupervisorOfBlock(f.supervisorName, title, f.supervisorPhone, f.supervisorEmail);
  }

  lemma CompanyBlock(intro: seq<string>, f: AgreementFields, title: string, tail: string)
    requires Ready(intro, f, title)
    ensures MatchBlock(Letter(intro, f, title) + tail, CompanyLabel, SupervisorLabel)
      == Some(Join([f.companyName, f.companyAddress], '\n'))
  {
    var lines := [f.companyName, f.companyAddress];
    CompanyApart();
    SupervisorApart();
    IntroClear(intro, CompanyLabel);
    BodyClearCompany(f, title);
    BlockLines(lines, SupervisorLabel);
    BlockOfLines(Lines(intro), Body(f, title), 2, 2, tail, CompanyLabel, SupervisorLabel, lines);
  }

  lemma SupervisorBlock(intro: seq<string>, f: AgreementFields, title: string, tail: string)
    requires Ready(intro, f, title)
    ensures MatchBlock(Letter(intro, f, title) + tail, SupervisorLabel, PeriodLabel)
      == Some(Join([f.supervisorName, title, f.supervisorPhone, f.supervisorEmail], '\n'))
  {
    var lines := [f.supervisorName, title, f.supervisorPhone, f.supervisorEmail];
    SupervisorApart();
    PeriodApart();
    IntroClear(intro, SupervisorLabel);
    BodyClearSupervisor(f, title);
    BlockLines(lines, PeriodLabel);
    BlockOfLines(Lines(intro), Body(f, title), 5, 4, tail, SupervisorLabel, PeriodLabel, lines);
  }

  /** The company block of two plain lines is read as the name and the address. */
  lemma CompanyOfBlock(name: string, address: string)
    requires CleanLine(name) && CleanLine(address)
    ensures CompanyParts(Join([name, address], '\n')) == (name, address)
  {
    var lines := [name, address];
    assert NonBlankLines(Join(lines, '\n')) == [name, address] + [] by {
      NonBlankLinesOfJoin(lines);
    }
    CompanyPartsOfLines(Join(lines, '\n'), name, address, []);
  }

  /** The supervisor block of four plain lines is read as the name, the phone and the
      email, the second line skipped. */
  lemma SupervisorOfBlock(name: string, title: string, phone: string, email: string)
    requires CleanLine(name) && CleanLine(title) && CleanLine(phone) && CleanLine(email)
    ensures SupervisorParts(Join([name, title, phone, email], '\n')) == (name, phone, email)
  {
    var lines := [name, title, phone, email];
    assert NonBlankLines(Join(lines, '\n')) == [name, title, phone, email] + [] by {
      NonBlankLinesOfJoin(lines);
    }
    SupervisorPartsOfLines(Join(lines, '\n'), name, title, phone, email, []);
  }

  lemma StartOfLetter(intro: seq<string>, f: AgreementFields, title: string, tail: string)
    requires Ready(intro, f, title)
    ensures Extract(StartLabel, Letter(intro, f, title) + tail) == f.startDate
  {
    StartApart();
    IntroClear(intro, StartLabel);
    BodyClearStart(f, title);
    LineOfLines(Lines(intro), Body(f, title), 11, tail, StartLabel);
    ExtractTrimmedLine(Letter(intro, f, title) + tail, StartLabel, f.startDate);
  }

  lemma EndOfLetter(intro: seq<string>, f: AgreementFields, title: string, tail: string)
    requires Ready(intro, f, title)
    ensures Extract(EndLabel, Letter(intro, f, title) + tail) == f.endDate
  {
    EndApart();
    IntroClear(intro, EndLabel);
    BodyClearEnd(f, title);
    LineOfLines(Lines(intro), Body(f, title), 13, tail, EndLabel);
    ExtractTrimmedLine(Letter(intro, f, title) + tail, EndLabel, f.endDate);
  }

  lemma HoursOfLetter(intro: seq<string>, f: AgreementFields, title: string, tail: string)
    requires Ready(intro, f, title)
    ensures Extract(HoursLabel, Letter(intro, f, title) + tail) == f.workingHours
  {
    HoursOneLine();
    IntroClear(intro, HoursLabel);
    BodyClearHours(f, title);
    LineOfLines(Lines(intro), Body(f, title), 15, tail, HoursLabel);
    ExtractTrimmedLine(Letter(intro, f, title) + tail, HoursLabel, f.workingHours);
  }

  /** An introduction of plain lines holds none of the labels, and ends a line. */
  lemma IntroClear(intro: seq<string>, key: string)
    requires forall k :: 0 <= k < |intro| ==> Plain(intro[k])
    requires key in {StudentLabel, CompanyLabel, SupervisorLabel, PeriodLabel, StartLabel, EndLabel, HoursLabel}
    requires key != [] && '\n' !in key
    ensures NoLabel(Lines(intro), key)
    ensures Lines(intro) == [] || Lines(intro)[|Lines(intro)| - 1] == '\n'
  {
    forall j | 0 <= j < |intro|
      ensures Clear(intro[j], key)
    {
      PlainClear(intro[j], key);
    }
    LinesNoLabel(intro, key);
  }

  // The lines of the body above each label the extraction searches for are lines the
  // search passes over.

  lemma BodyClearCompany(f: AgreementFields, title: string)
    requires Fits(f, title)
    ensures AllClear(Body(f, title)[..2], CompanyLabel)
  {
    StudentApart();
    PlainClear(f.studentName + "," + f.internPosition, CompanyLabel);
  }

  lemma BodyClearSupervisor(f: AgreementFields, title: string)
    requires Fits(f, title)
    ensures AllClear(Body(f, title)[..5], SupervisorLabel)
  {
    StudentApart();
    CompanyApart();
    forall j | 0 <= j < 5
      ensures Clear(Body(f, title)[j], SupervisorLabel)
    {
      if j in {1, 3, 4} {
        PlainClear(Body(f, title)[j], SupervisorLabel);
      }
    }
  }

  lemma BodyClearStart(f: AgreementFields, title: string)
    requires Fits(f, title)
    ensures AllClear(Body(f, title)[..11], StartLabel)
  {
    StudentApart();
    CompanyApart();
    SupervisorNotStart();
    PeriodApart();
    forall j | 0 <= j < 11
      ensures Clear(Body(f, title)[j], StartLabel)
    {
      if j in {1, 3, 4, 6, 7, 8, 9} {
        PlainClear(Body(f, title)[j], StartLabel);
      }
    }
  }

  lemma BodyClearEnd(f: AgreementFields, title: string)
    requires Fits(f, title)
    ensures AllClear(Body(f, title)[..13], EndLabel)
  {
    StudentNotEnd();
    CompanyApart();
    SupervisorApart();
    PeriodApart();
    StartApart();
    forall j | 0 <= j < 13
      ensures Clear(Body(f, title)[j], EndLabel)
    {
      if j in {1, 3, 4, 6, 7, 8, 9, 12} {
        PlainClear(Body(f, title)[j], EndLabel);
      }
    }
  }

  lemma BodyClearHours(f: AgreementFields, title: string)
    requires Fits(f, title)
    ensures AllClear(Body(f, title)[..15], HoursLabel)
  {
    StudentApart();
    CompanyApart();
    SupervisorApart();
    PeriodApart();
    StartApart();
    EndApart();
    forall j | 0 <= j < 15
      ensures Clear(Body(f, title)[j], HoursLabel)
    {
      if j in {1, 3, 4, 6, 7, 8, 9, 12, 14} {
        PlainClear(Body(f, title)[j], HoursLabel);
      }
    }
  }

  // Each label line holds none of the labels searched for below it: a letter of the
  // later label, in either case, is missing from it, or its only colon is its last
  // character and the later label differs there.

  lemma StudentApart()
    ensures '\n' !in StudentLabel
    ensures Clear(StudentLabel, CompanyLabel) && Clear(StudentLabel, SupervisorLabel)
    ensures Clear(StudentLabel, StartLabel) && Clear(StudentLabel, HoursLabel)
  {
    var cs := "\ncvrw";
    StudentLetters();
    AvoidsNewline(StudentLabel, cs);
    assert NoLabel(StudentLabel, CompanyLabel) by {
      MissingLetter(StudentLabel, CompanyLabel, 0, cs);
    }
    assert NoLabel(StudentLabel, SupervisorLabel) by {
      MissingLetter(StudentLabel, SupervisorLabel, 5, cs);
    }
    assert NoLabel(StudentLabel, StartLabel) by {
      MissingLetter(StudentLabel, StartLabel, 3, cs);
    }
    assert NoLabel(StudentLabel, HoursLabel) by {
      MissingLetter(StudentLabel, HoursLabel, 0, cs);
    }
  }

  /** The student label uses none of the given characters, in either case. */
  lemma StudentLetters()
    ensures Avoids(StudentLabel, "\ncvrw")
  {
  }

  lemma StudentNotEnd()
    ensures Clear(StudentLabel, EndLabel)
  {
    StudentApart();
    OnlyFinalColon(StudentLabel, EndLabel, 0);
  }

  lemma CompanyApart()
    ensures '\n' !in CompanyLabel
    ensures Clear(CompanyLabel, SupervisorLabel) && Clear(CompanyLabel, StartLabel)
    ensures Clear(CompanyLabel, EndLabel) && Clear(CompanyLabel, HoursLabel)
  {
    var cs := "\nvtw";
    CompanyLetters();
    AvoidsNewline(CompanyLabel, cs);
    assert NoLabel(CompanyLabel, SupervisorLabel) by {
      MissingLetter(CompanyLabel, SupervisorLabel, 5, cs);
    }
    assert NoLabel(CompanyLabel, StartLabel) by {
      MissingLetter(CompanyLabel, StartLabel, 1, cs);
    }
    assert NoLabel(CompanyLabel, EndLabel) by {
      MissingLetter(CompanyLabel, EndLabel, 6, cs);
    }
    assert NoLabel(CompanyLabel, HoursLabel) by {
      MissingLetter(CompanyLabel, HoursLabel, 0, cs);
    }
  }

  /** The company label uses none of the given characters, in either case. */
  lemma CompanyLetters()
    ensures Avoids(CompanyLabel, "\nvtw")
  {
  }

  lemma SupervisorApart()
    ensures '\n' !in SupervisorLabel
    ensures Clear(SupervisorLabel, EndLabel) && Clear(SupervisorLabel, HoursLabel)
  {
    var cs := "\nnw";
    SupervisorLetters();
    AvoidsNewline(SupervisorLabel, cs);
    assert NoLabel(SupervisorLabel, EndLabel) by {
      MissingLetter(SupervisorLabel, EndLabel, 1, cs);
    }
    assert NoLabel(SupervisorLabel, HoursLabel) by {
      MissingLetter(SupervisorLabel, HoursLabel, 0, cs);
    }
  }

  /** The supervisor label uses none of the given characters, in either case. */
  lemma SupervisorLetters()
    ensures Avoids(SupervisorLabel, "\nnw")
  {
  }

  lemma SupervisorNotStart()
    ensures Clear(SupervisorLabel, StartLabel)
  {
    SupervisorApart();
    OnlyFinalColon(SupervisorLabel, StartLabel, 1);
  }

  lemma PeriodApart()
    ensures '\n' !in PeriodLabel
    ensures Clear(PeriodLabel, StartLabel) && Clear(PeriodLabel, EndLabel)
    ensures Clear(PeriodLabel, HoursLabel)
  {
    var cs := "\naw";
    PeriodLetters();
    AvoidsNewline(PeriodLabel, cs);
    assert NoLabel(PeriodLabel, StartLabel) by {
      MissingLetter(PeriodLabel, StartLabel, 2, cs);
    }
    assert NoLabel(PeriodLabel, EndLabel) by {
      MissingLetter(PeriodLabel, EndLabel, 5, cs);
    }
    assert NoLabel(PeriodLabel, HoursLabel) by {
      MissingLetter(PeriodLabel, HoursLabel, 0, cs);
    }
  }

  /** The period label uses none of the given characters, in either case. */
  lemma PeriodLetters()
    ensures Avoids(PeriodLabel, "\naw")
  {
  }

  lemma StartApart()
    ensures '\n' !in StartLabel
    ensures Clear(StartLabel, EndLabel) && Clear(StartLabel, HoursLabel)
  {
    var cs := "\nnw";
    StartLetters();
    AvoidsNewline(StartLabel, cs);
    assert NoLabel(StartLabel, EndLabel) by {
      MissingLetter(StartLabel, EndLabel, 1, cs);
    }
    assert NoLabel(StartLabel, HoursLabel) by {
      MissingLetter(StartLabel, HoursLabel, 0, cs);
    }
  }

  /** The start label uses none of the given characters, in either case. */
  lemma StartLetters()
    ensures Avoids(StartLabel, "\nnw")
  {
  }

  lemma EndApart()
    ensures '\n' !in EndLabel
    ensures Clear(EndLabel, HoursLabel)
  {
    var cs := "\nw";
    EndLetters();
    AvoidsNewline(EndLabel, cs);
    assert NoLabel(EndLabel, HoursLabel) by {
      MissingLetter(EndLabel, HoursLabel, 0, cs);
    }
  }

  /** The end label uses none of the given characters, in either case. */
  lemma EndLetters()
    ensures Avoids(EndLabel, "\nw")
  {
  }

  lemma HoursOneLine()
    ensures '\n' !in HoursLabel
  {
    assert Avoids(HoursLabel, "\n");
    AvoidsNewline(HoursLabel, "\n");
  }

  /** Plain lines are lines of a block for a label. */
  lemma BlockLines(lines: seq<string>, close: string)
    requires forall k :: 0 <= k < |lines| ==> Plain(lines[k])
    requires close in {SupervisorLabel, PeriodLabel}
    ensures forall k :: 0 <= k < |lines| ==> BlockLine(lines[k], close) && CleanLine(lines[k])
  {
    forall k | 0 <= k < |lines|
      ensures BlockLine(lines[k], close) && CleanLine(lines[k])
    {
      PlainClear(lines[k], close);
    }
  }

  /** A plain value is a clean line. */
  lemma PlainClean(v: string)
    requires Plain(v)
    ensures CleanLine(v)
  {
    assert IsLineTerminator('\n');
  }

  /** A plain value is a line every label's search passes over. */
  lemma PlainClear(v: string, key: string)
    requires Plain(v)
    requires key in {StudentLabel, CompanyLabel, SupervisorLabel, PeriodLabel, StartLabel, EndLabel, HoursLabel}
    ensures Clear(v, key) && CleanLine(v)
  {
    assert '\n' !in v by {
      assert IsLineTerminator('\n');
    }
  }

  // Regrouping concatenations and slicing them, stated generically so that the lines
  // are not unfolded.

  lemma Regroup6<T>(h: seq<T>, a: seq<T>, o: seq<T>, nl: seq<T>, v: seq<T>, d: seq<T>, t: seq<T>)
    ensures h + (a + (o + nl + (v + nl + d))) + t == h + a + o + nl + v + (nl + d + t)
  {
  }

  lemma Regroup5<T>(a: seq<T>, o: seq<T>, nl: seq<T>, v: seq<T>, r: seq<T>)
    ensures a + o + nl + v + r == a + o + (nl + v + r)
  {
  }

  lemma Prepend<T>(h: seq<T>, l: seq<T>, t: seq<T>, a: seq<T>, o: seq<T>, nl: seq<T>, s: seq<T>)
    requires l + t == a + o + nl + s
    ensures h + l + t == h + a + o + nl + s
  {
    assert h + l + t == h + (l + t);
  }

  lemma Regroup<T>(a: seq<T>, b: seq<T>, c: seq<T>, d: seq<T>)
    ensures a + b + (c + d) == a + b + c + d
  {
  }

  lemma Regroup7<T>(a: seq<T>, o: seq<T>, nl: seq<T>, b: seq<T>, c: seq<T>, d: seq<T>, t: seq<T>)
    ensures a + (o + nl + (b + (c + nl + d))) + t == a + o + nl + (b + c + (nl + d + t))
  {
  }

  lemma SliceAfter<T>(p: seq<T>, s: seq<T>, m: nat)
    requires m <= |s|
    ensures (p + s)[|p|..|p| + m] == s[..m]
  {
  }

  lemma SlicePrefix<T>(a: seq<T>, b: seq<T>, c: seq<T>)
    ensures (a + b + c)[..|a|] == a
  {
  }

  lemma Reassociate<T>(p: seq<T>, more: seq<T>, close: seq<T>, rest: seq<T>)
    ensures p + more + close + rest == p + (more + close + rest)
  {
  }
}
