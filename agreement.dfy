/**
 * The field extraction of the `/generate` handler in routes/agreement.js: the
 * regular expressions that find a labelled line or block of an offer letter,
 * and the splitting, trimming, filtering, indexing and `|| "N/A"` defaults
 * that turn them into the ten fields of the internship agreement.
 *
 * Each `/Label:\s*(.*)/i` is modelled exactly: the first position where the
 * label matches case-insensitively, then the greedy `\s*`, then `.*` up to the
 * first line terminator. Each `/Open:\s*([\s\S]*?)\n\s*Close:/i` is modelled
 * exactly too, with its backtracking order: start positions left to right, the
 * greedy `\s*` giving back one character at a time, and for each the shortest
 * lazy capture followed by a newline, white space and the closing label.
 */
module Agreement {
  import opened Wrappers
  import opened JsText

  const NotAvailable: string := "N/A"

  const StudentLabel: string := "Student Name & Job Title:"
  const CompanyLabel: string := "Company Name and Address:"
  const SupervisorLabel: string := "Supervisor Detail:"
  const PeriodLabel: string := "Internship Period:"
  const StartLabel: string := "Start Date:"
  const EndLabel: string := "End Date:"
  const HoursLabel: string := "Working Hours:"

  // ------------------------------------------------------- matching labels

  /** The `/i` comparison of a text character with an ASCII pattern character. */
  predicate SameIgnoringCase(a: char, b: char) {
    LowerChar(a) == LowerChar(b)
  }

  predicate LabelAt(text: string, i: nat, key: string) {
    i + |key| <= |text| && forall k :: 0 <= k < |key| ==> SameIgnoringCase(text[i + k], key[k])
  }

  /** The first position at or after `from` where the label matches. */
  function FindLabel(text: string, key: string, from: nat): (r: Option<nat>)
    requires from <= |text|
    ensures r.Some? ==> from <= r.value <= |text| && LabelAt(text, r.value, key)
    ensures r.Some? ==> forall j :: from <= j < r.value ==> !LabelAt(text, j, key)
    ensures r.None? ==> forall j :: from <= j <= |text| ==> !LabelAt(text, j, key)
    decreases |text| - from
  {
    if LabelAt(text, from, key) then Some(from)
    else if from == |text| then None
    else FindLabel(text, key, from + 1)
  }

  /** The first line terminator at or after `from`, or `|text|`: where `.*` stops. */
  function LineEnd(text: string, from: nat): (e: nat)
    requires from <= |text|
    ensures from <= e <= |text|
    ensures forall k :: from <= k < e ==> !IsLineTerminator(text[k])
    ensures e < |text| ==> IsLineTerminator(text[e])
    decreases |text| - from
  {
    if from == |text| || IsLineTerminator(text[from]) then from else LineEnd(text, from + 1)
  }

  /** `LineEnd` is the first line terminator: any position with none before it and a
      terminator or the end of the text at it is the one found. */
  lemma {:induction false} LineEndIs(text: string, from: nat, e: nat)
    requires from <= e <= |text|
    requires forall k :: from <= k < e ==> !IsLineTerminator(text[k])
    requires e < |text| ==> IsLineTerminator(text[e])
    ensures LineEnd(text, from) == e
    decreases e - from
  {
    if from < e {
      LineEndIs(text, from + 1, e);
    }
  }

  /** `text.match(/<label>\s*(.*)/i)`, giving group 1: the rest of a line that starts
      at the first non-white-space character after the label (on the label's own line
      or a later one). */
  function MatchLine(text: string, key: string): (r: Option<string>)
    ensures r.Some? ==> forall c :: c in r.value ==> !IsLineTerminator(c)
    ensures r.Some? ==> r.value == [] || !IsSpace(r.value[0])
  {
    match FindLabel(text, key, 0)
    case None => None
    case Some(i) =>
      var a := SkipSpace(text, i + |key|);
      var e := LineEnd(text, a);
      var line := text[a..e];
      assert forall c :: c in line ==> !IsLineTerminator(c) by {
        forall c | c in line ensures !IsLineTerminator(c) {
          var k :| 0 <= k < |line| && line[k] == c;
          assert text[a + k] == c;
        }
      }
      if a < e then LineTerminatorIsSpace(text[a]); Some(line) else Some(line)
  }

  /** `extract(pattern, text)`: the trimmed capture, or "N/A" when the label is absent.
      The result never spans a line and never starts or ends with white space. */
  function Extract(key: string, text: string): (r: string)
    ensures forall c :: c in r ==> !IsLineTerminator(c)
    ensures Trimmed(r)
  {
    match MatchLine(text, key)
    case None => NotAvailable
    case Some(line) =>
      TrimChars(line);
      Trim(line)
  }

  // ------------------------------------------------------- matching blocks

  /** `\n\s*<close>` matches at `q`. The greedy `\s*` can only be followed by the
      label at the end of the white-space run, since a label never starts with
      white space. */
  predicate ClosesAt(text: string, q: nat, close: string) {
    q < |text| && text[q] == '\n' && LabelAt(text, SkipSpace(text, q + 1), close)
  }

  /** The lazy group: the first closing position at or after `from`. */
  function FirstClose(text: string, from: nat, close: string): (r: Option<nat>)
    requires from <= |text|
    ensures r.Some? ==> from <= r.value < |text| && ClosesAt(text, r.value, close)
    ensures r.Some? ==> forall q :: from <= q < r.value ==> !ClosesAt(text, q, close)
    ensures r.None? ==> forall q :: from <= q < |text| ==> !ClosesAt(text, q, close)
    decreases |text| - from
  {
    if from == |text| then None
    else if ClosesAt(text, from, close) then Some(from)
    else FirstClose(text, from + 1, close)
  }

  /** The greedy `\s*` after the opening label keeps `k` of its characters, and gives
      them back one at a time until the lazy group and the closing label match.
      The result is the start and end of the capture: it starts within the white
      space the `\s*` may keep and ends at the first closing newline after its start. */
  function TryCapture(text: string, p: nat, k: nat, close: string): (r: Option<(nat, nat)>)
    requires p + k <= |text|
    ensures r.Some? ==> (
      && p <= r.value.0 <= p + k && r.value.0 <= r.value.1 < |text|
      && ClosesAt(text, r.value.1, close)
      && forall q :: r.value.0 <= q < r.value.1 ==> !ClosesAt(text, q, close))
    decreases k
  {
    match FirstClose(text, p + k, close)
    case Some(q) => Some((p + k, q))
    case None => if k == 0 then None else TryCapture(text, p, k - 1, close)
  }

  /** The block regular expression tried at start position `i`: a match is a genuine
      match of the pattern there, the label at `i`, white space after it, then the text
      up to the first newline that is followed by white space and the closing label. */
  function BlockAt(text: string, i: nat, open: string, close: string): (r: Option<(nat, nat)>)
    requires i <= |text|
    ensures r.Some? ==> BlockCapture(text, open, close, i, r.value.0, r.value.1)
    ensures !LabelAt(text, i, open) ==> r.None?
  {
    if LabelAt(text, i, open) then
      var p := i + |open|;
      var e := SkipSpace(text, p);
      var t := TryCapture(text, p, e - p, close);
      if t.Some? then SpacePrefix(text, p, e, t.value.0); t else t
    else None
  }

  /** Part of a run of white space is white space. */
  lemma SpacePrefix(text: string, p: nat, e: nat, a: nat)
    requires p <= a <= e <= |text| && forall k :: p <= k < e ==> IsSpace(text[k])
    ensures AllSpace(text[p..a])
  {
    forall k | 0 <= k < a - p
      ensures IsSpace(text[p..a][k])
    {
      assert text[p..a][k] == text[p + k];
    }
  }

  /** The block regular expression tried at start positions `i`, `i + 1`, ...: the
      leftmost start that matches, with its capture. */
  function BlockFrom(text: string, i: nat, open: string, close: string): (r: Option<(nat, nat, nat)>)
    requires i <= |text|
    ensures r.Some? ==> i <= r.value.0 <= |text| && BlockAt(text, r.value.0, open, close) == Some((r.value.1, r.value.2))
  {
    Leftmost(i, |text|, BlockStarts(text, open, close))
  }

  /** The block regular expression as a function of the start position. */
  function BlockStarts(text: string, open: string, close: string): nat -> Option<(nat, nat)> {
    (j: nat) => if j <= |text| then BlockAt(text, j, open, close) else None
  }

  /** The first `j` in `i..n` at which `at` gives a match, with that match: how a
      regular expression engine scans the start positions. */
  function Leftmost(i: nat, n: nat, at: nat -> Option<(nat, nat)>): (r: Option<(nat, nat, nat)>)
    requires i <= n
    ensures r.Some? ==> i <= r.value.0 <= n && at(r.value.0) == Some((r.value.1, r.value.2))
    decreases n - i
  {
    if at(i).Some? then Some((i, at(i).value.0, at(i).value.1))
    else if i == n then None
    else Leftmost(i + 1, n, at)
  }

  /** No start before the one `Leftmost` finds matches, and when it finds none, no start
      matches at all. */
  lemma {:induction false} LeftmostIsFirst(i: nat, n: nat, at: nat -> Option<(nat, nat)>)
    requires i <= n
    ensures var r := Leftmost(i, n, at);
      r.Some? ==> forall j :: i <= j < r.value.0 ==> at(j).None?
    ensures var r := Leftmost(i, n, at);
      r.None? ==> forall j :: i <= j <= n ==> at(j).None?
    decreases n - i
  {
    if at(i).None? && i < n {
      LeftmostIsFirst(i + 1, n, at);
    }
  }

  /** The start found is the leftmost one that matches; none is found only when no
      start matches. */
  lemma BlockFromLeftmost(text: string, i: nat, open: string, close: string)
    requires i <= |text|
    ensures var r := BlockFrom(text, i, open, close);
      r.Some? ==> forall j :: i <= j < r.value.0 ==> BlockAt(text, j, open, close).None?
    ensures var r := BlockFrom(text, i, open, close);
      r.None? ==> forall j :: i <= j <= |text| ==> BlockAt(text, j, open, close).None?
  {
    var at := BlockStarts(text, open, close);
    LeftmostIsFirst(i, |text|, at);
    forall j | i <= j <= |text|
      ensures at(j) == BlockAt(text, j, open, close)
    {
    }
  }

  /** The capture `text[a..q]` after the opening label at `i`: white space, then the
      text up to the first newline that is followed by white space and the closing label. */
  predicate BlockCapture(text: string, open: string, close: string, i: nat, a: nat, q: nat) {
    && LabelAt(text, i, open) && i + |open| <= a <= q < |text|
    && AllSpace(text[i + |open|..a])
    && ClosesAt(text, q, close)
    && (forall q' :: a <= q' < q ==> !ClosesAt(text, q', close))
  }

  /** `text.match(/<open>\s*([\s\S]*?)\n\s*<close>/i)`, giving group 1: after the
      leftmost opening label that has a match and the white space after it, the
      text up to the FIRST newline that is followed by white space and the closing label. */
  function MatchBlock(text: string, open: string, close: string): (r: Option<string>)
    ensures r.Some? ==> exists i: nat, a: nat, q: nat :: BlockCapture(text, open, close, i, a, q) && r.value == text[a..q]
  {
    var b := BlockFrom(text, 0, open, close);
    if b.Some? then
      Some(text[b.value.1..b.value.2])
    else None
  }

  /** The greedy `\s*` keeps all its white space when a closing newline follows. */
  lemma BlockAtFirstClose(text: string, open: string, close: string, i: nat, q: nat)
    requires i <= |text| && LabelAt(text, i, open)
    requires FirstClose(text, SkipSpace(text, i + |open|), close) == Some(q)
    ensures BlockAt(text, i, open, close) == Some((SkipSpace(text, i + |open|), q))
  {
  }

  /** When the first occurrence of the opening label is followed, after its white
      space, by a closing newline, the block is the text from that white space's end
      up to the first such newline: the reading "find the label, skip white space,
      capture lazily up to the next `\n<ws>Close:`". */
  lemma MatchBlockFirstLabel(text: string, open: string, close: string, i: nat, q: nat)
    requires FindLabel(text, open, 0) == Some(i)
    requires FirstClose(text, SkipSpace(text, i + |open|), close) == Some(q)
    ensures MatchBlock(text, open, close) == Some(text[SkipSpace(text, i + |open|)..q])
  {
    BlockAtFirstClose(text, open, close, i, q);
    BlockFromLeftmost(text, 0, open, close);
    var b := BlockFrom(text, 0, open, close);
    assert b.Some?;
    assert b.value.0 == i;
  }

  // ------------------------------------------------------------ the fields

  /** `s || "N/A"`: never the empty string. */
  function OrNotAvailable(s: string): (r: string)
    ensures r != []
    ensures s != [] ==> r == s
    ensures s == [] ==> r == NotAvailable
  {
    if s == [] then NotAvailable else s
  }

  /** `lines[k] || "N/A"`, where a missing index is `undefined`: the line when it is
      there and not empty, "N/A" otherwise. */
  function LineOr(lines: seq<string>, k: nat): (r: string)
    ensures r != []
    ensures k < |lines| && lines[k] != [] ==> r == lines[k]
    ensures k >= |lines| || lines[k] == [] ==> r == NotAvailable
  {
    if k < |lines| then OrNotAvailable(lines[k]) else NotAvailable
  }

  /** `.map(l => l.trim())`. */
  function TrimEach(parts: seq<string>): (r: seq<string>)
    ensures |r| == |parts|
    ensures forall k :: 0 <= k < |r| ==> r[k] == Trim(parts[k])
  {
    seq(|parts|, k requires 0 <= k < |parts| => Trim(parts[k]))
  }

  /** A line without a newline trims to one. */
  lemma TrimNoNewline(line: string)
    requires '\n' !in line
    ensures '\n' !in Trim(line)
  {
    TrimChars(line);
  }

  /** `block.split('\n').map(l => l.trim()).filter(Boolean)`: the non-blank lines,
      trimmed. No line is empty, starts or ends with white space, or holds a newline. */
  function NonBlankLines(block: string): (lines: seq<string>)
    ensures forall k :: 0 <= k < |lines| ==> CleanLine(lines[k])
  {
    var parts := Split(block, '\n');
    CleanLines(parts);
    NonEmpty(TrimEach(parts))
  }

  /** A non-empty line without surrounding white space or a newline. */
  predicate CleanLine(line: string) {
    line != [] && Trimmed(line) && '\n' !in line
  }

  /** Trimming pieces without a newline and dropping the empty ones leaves clean lines. */
  lemma CleanLines(parts: seq<string>)
    requires forall k :: 0 <= k < |parts| ==> '\n' !in parts[k]
    ensures forall k :: 0 <= k < |NonEmpty(TrimEach(parts))| ==> CleanLine(NonEmpty(TrimEach(parts))[k])
  {
    var trimmed := TrimEach(parts);
    var lines := NonEmpty(trimmed);
    forall k | 0 <= k < |lines| ensures CleanLine(lines[k]) {
      assert lines[k] in trimmed;
      var m :| 0 <= m < |trimmed| && lines[k] == trimmed[m];
      TrimNoNewline(parts[m]);
    }
  }

  /** Lines 36-38: the name before the first comma and the position between the first
      and the second, each trimmed, "N/A" when missing or blank. */
  function StudentParts(line: string): (r: (string, string))
    ensures r.0 != [] && r.1 != []
  {
    var parts := Split(line, ',');
    (OrNotAvailable(Trim(parts[0])),
     if |parts| > 1 then OrNotAvailable(Trim(parts[1])) else NotAvailable)
  }

  /** The text before the first occurrence of `sep`, or all of it. */
  function Before(s: string, sep: char): string {
    if sep in s then s[..IndexOf(s, sep)] else s
  }

  /** The text after the first occurrence of `sep`. */
  function After(s: string, sep: char): string
    requires sep in s
  {
    s[IndexOf(s, sep) + 1..]
  }

  /** The student name is the trimmed text before the first comma; the position is the
      trimmed text between the first and second commas, "N/A" without a comma. */
  lemma StudentPartsByComma(line: string)
    ensures StudentParts(line).0 == OrNotAvailable(Trim(Before(line, ',')))
    ensures StudentParts(line).1 ==
      if ',' in line then OrNotAvailable(Trim(Before(After(line, ','), ','))) else NotAvailable
  {
    var parts := Split(line, ',');
    if ',' in line {
      var rest := After(line, ',');
      assert parts == [line[..IndexOf(line, ',')]] + Split(rest, ',');
      assert parts[1] == Split(rest, ',')[0];
    }
  }

  /** With two commas, the student fields are the trimmed texts before and between them. */
  lemma StudentPartsOf(name: string, position: string, tail: string)
    requires ',' !in name && ',' !in position
    ensures StudentParts(name + "," + position + "," + tail) ==
      (OrNotAvailable(Trim(name)), OrNotAvailable(Trim(position)))
  {
    var rest := position + [','] + tail;
    var line := name + "," + position + "," + tail;
    assert line == name + [','] + rest;
    SplitAfter(name, ',', rest);
    SplitAfter(position, ',', tail);
    StudentPartsOfSplit(line, name, position, Split(tail, ','));
  }

  /** The student fields come from the first two pieces of the split. */
  lemma StudentPartsOfSplit(line: string, p0: string, p1: string, more: seq<string>)
    requires Split(line, ',') == [p0] + ([p1] + more)
    ensures StudentParts(line) == (OrNotAvailable(Trim(p0)), OrNotAvailable(Trim(p1)))
  {
    var parts := Split(line, ',');
    assert parts[0] == p0 && parts[1] == p1;
  }

  /** A line with exactly one comma: the student name before it and the position after
      it, each trimmed. */
  lemma StudentPartsOfPair(name: string, position: string)
    requires ',' !in name && ',' !in position
    ensures StudentParts(name + "," + position) ==
      (OrNotAvailable(Trim(name)), OrNotAvailable(Trim(position)))
  {
    var line := name + "," + position;
    assert line == name + [','] + position;
    SplitAfter(name, ',', position);
    assert Split(position, ',') == [position];
    StudentPartsOfSplit(line, name, position, []);
  }

  /** Text after a second comma does not affect the student fields. */
  lemma StudentPartsIgnoreTail(name: string, position: string, tail1: string, tail2: string)
    requires ',' !in name && ',' !in position
    ensures StudentParts(name + "," + position + "," + tail1) == StudentParts(name + "," + position + "," + tail2)
  {
    StudentPartsOf(name, position, tail1);
    StudentPartsOf(name, position, tail2);
  }

  /** Lines 46-48: the first and second non-blank lines of the block. */
  function CompanyParts(block: string): (r: (string, string))
    ensures r.0 != [] && r.1 != []
  {
    var lines := NonBlankLines(block);
    (LineOr(lines, 0), LineOr(lines, 1))
  }

  /** Lines 57-60: the name, the phone and the email are the first, third and fourth
      non-blank lines; the second is never read. */
  function SupervisorParts(block: string): (r: (string, string, string))
    ensures r.0 != [] && r.1 != [] && r.2 != []
  {
    var lines := NonBlankLines(block);
    (LineOr(lines, 0), LineOr(lines, 2), LineOr(lines, 3))
  }

  /** `.map(l => l.trim())` distributes over concatenation. */
  lemma TrimEachAppend(a: seq<string>, b: seq<string>)
    ensures TrimEach(a + b) == TrimEach(a) + TrimEach(b)
  {
  }

  /** The lines of two pieces joined by a newline are the lines of each, in order. */
  lemma NonBlankLinesConcat(a: string, b: string)
    ensures NonBlankLines(a + "\n" + b) == NonBlankLines(a) + NonBlankLines(b)
  {
    SplitConcat(a, '\n', b);
    TrimEachAppend(Split(a, '\n'), Split(b, '\n'));
    NonEmptyAppend(TrimEach(Split(a, '\n')), TrimEach(Split(b, '\n')));
  }

  /** A single line yields itself trimmed, or nothing when it is blank. */
  lemma NonBlankLinesOfLine(line: string)
    requires '\n' !in line
    ensures NonBlankLines(line) == if AllSpace(line) then [] else [Trim(line)]
  {
    var parts := Split(line, '\n');
    assert parts == [line];
    var trimmed := TrimEach(parts);
    assert trimmed == [Trim(line)];
    NonEmptySingle(Trim(line));
    TrimEmptyIff(line);
  }

  /** Clean lines joined by newlines come back as they were: the split, trim and filter
      undo the join. */
  lemma {:induction false} NonBlankLinesOfJoin(ls: seq<string>)
    requires |ls| >= 1 && forall k :: 0 <= k < |ls| ==> CleanLine(ls[k])
    ensures NonBlankLines(Join(ls, '\n')) == ls
    decreases |ls|
  {
    assert CleanLine(ls[0]);
    NonBlankLinesOfLine(ls[0]);
    assert !AllSpace(ls[0]) by {
      assert !IsSpace(ls[0][0]);
    }
    TrimTrimmed(ls[0]);
    if |ls| > 1 {
      Uncons(ls);
      assert forall k :: 0 <= k < |ls[1..]| ==> ls[1..][k] == ls[k + 1];
      NonBlankLinesOfJoin(ls[1..]);
      NonBlankLinesConcat(ls[0], Join(ls[1..], '\n'));
    }
  }

  lemma Uncons<T>(s: seq<T>)
    requires |s| >= 1
    ensures s == [s[0]] + s[1..]
  {
  }

  /** A blank line inside a block changes none of its fields. */
  lemma BlankLineIgnored(a: string, blank: string, b: string)
    requires '\n' !in blank && AllSpace(blank)
    ensures NonBlankLines(a + "\n" + blank + "\n" + b) == NonBlankLines(a + "\n" + b)
  {
    NonBlankLinesConcat(a + "\n" + blank, b);
    NonBlankLinesConcat(a, blank);
    NonBlankLinesOfLine(blank);
    NonBlankLinesConcat(a, b);
    DropMiddle(NonBlankLines(a + "\n" + blank + "\n" + b), NonBlankLines(a + "\n" + blank),
      NonBlankLines(a), NonBlankLines(blank), NonBlankLines(b));
  }

  // Small sequence facts, stated generically so that the lines of a block are never
  // unfolded while they are combined.

  lemma DropMiddle<T>(whole: seq<T>, front: seq<T>, x: seq<T>, empty: seq<T>, y: seq<T>)
    requires whole == front + y && front == x + empty && empty == []
    ensures whole == x + y
  {
  }

  /** Lines 46-48: a company block starting with two non-blank lines yields them,
      trimmed, as the name and the address; any further lines are ignored. */
  lemma CompanyPartsOf(name: string, address: string, rest: string)
    requires '\n' !in name && '\n' !in address
    requires !AllSpace(name) && !AllSpace(address)
    ensures CompanyParts(name + "\n" + address + "\n" + rest) == (Trim(name), Trim(address))
  {
    TwoLines(name, address, rest);
    TrimEmptyIff(name);
    TrimEmptyIff(address);
    CompanyPartsOfLines(name + "\n" + address + "\n" + rest, Trim(name), Trim(address), NonBlankLines(rest));
  }

  /** A block whose first two lines are non-empty yields them as the company fields. */
  lemma CompanyPartsOfLines(block: string, x: string, y: string, r: seq<string>)
    requires NonBlankLines(block) == [x, y] + r && x != [] && y != []
    ensures CompanyParts(block) == (x, y)
  {
    TwoFirst(NonBlankLines(block), x, y, r);
  }

  /** The first two lines of a block, when neither is blank. */
  lemma TwoLines(a: string, b: string, rest: string)
    requires '\n' !in a && '\n' !in b
    requires !AllSpace(a) && !AllSpace(b)
    ensures NonBlankLines(a + "\n" + b + "\n" + rest) == [Trim(a), Trim(b)] + NonBlankLines(rest)
  {
    NonBlankLinesConcat(a + "\n" + b, rest);
    NonBlankLinesConcat(a, b);
    NonBlankLinesOfLine(a);
    NonBlankLinesOfLine(b);
    Pair(NonBlankLines(a + "\n" + b), Trim(a), Trim(b), NonBlankLines(rest));
  }

  lemma Pair<T>(front: seq<T>, x: T, y: T, r: seq<T>)
    requires front == [x] + [y]
    ensures front + r == [x, y] + r
  {
  }

  /** A one-line company block has a name and no address. */
  lemma CompanyPartsOneLine(name: string)
    requires '\n' !in name
    ensures CompanyParts(name) == (OrNotAvailable(Trim(name)), NotAvailable)
  {
    NonBlankLinesOfLine(name);
    TrimEmptyIff(name);
  }

  /** Lines 57-60: a supervisor block of four non-blank lines yields the first as the
      name, the third as the phone and the fourth as the email; the second line and
      any after the fourth are ignored. */
  lemma SupervisorPartsOf(name: string, second: string, phone: string, email: string,
                          rest: string)
    requires '\n' !in name && '\n' !in second && '\n' !in phone && '\n' !in email
    requires !AllSpace(name) && !AllSpace(second) && !AllSpace(phone) && !AllSpace(email)
    ensures SupervisorParts(name + "\n" + second + "\n" + phone + "\n" + email + "\n" + rest)
      == (Trim(name), Trim(phone), Trim(email))
  {
    FourLines(name, second, phone, email, rest);
    TrimEmptyIff(name);
    TrimEmptyIff(phone);
    TrimEmptyIff(email);
    SupervisorPartsOfLines(name + "\n" + second + "\n" + phone + "\n" + email + "\n" + rest,
      Trim(name), Trim(second), Trim(phone), Trim(email), NonBlankLines(rest));
  }

  /** A block whose first, third and fourth lines are non-empty yields them as the
      supervisor fields. */
  lemma SupervisorPartsOfLines(block: string, w: string, x: string, y: string, z: string, r: seq<string>)
    requires NonBlankLines(block) == [w, x, y, z] + r && w != [] && y != [] && z != []
    ensures SupervisorParts(block) == (w, y, z)
  {
    FourFirst(NonBlankLines(block), w, x, y, z, r);
  }

  /** The first four lines of a block, when none is blank. */
  lemma FourLines(a: string, b: string, c: string, d: string, rest: string)
    requires '\n' !in a && '\n' !in b && '\n' !in c && '\n' !in d
    requires !AllSpace(a) && !AllSpace(b) && !AllSpace(c) && !AllSpace(d)
    ensures NonBlankLines(a + "\n" + b + "\n" + c + "\n" + d + "\n" + rest)
      == [Trim(a), Trim(b), Trim(c), Trim(d)] + NonBlankLines(rest)
  {
    var tail := c + "\n" + d + "\n" + rest;
    Regroup(a, b, c, d, rest, "\n");
    TwoLines(a, b, tail);
    TwoLines(c, d, rest);
    Chain(NonBlankLines(a + "\n" + b + "\n" + tail), Trim(a), Trim(b), Trim(c), Trim(d),
      NonBlankLines(tail), NonBlankLines(rest));
  }

  lemma Regroup<T>(a: seq<T>, b: seq<T>, c: seq<T>, d: seq<T>, rest: seq<T>, s: seq<T>)
    ensures a + s + b + s + c + s + d + s + rest == a + s + b + s + (c + s + d + s + rest)
  {
  }

  lemma Chain<T>(whole: seq<T>, w: T, x: T, y: T, z: T, tail: seq<T>, r: seq<T>)
    requires whole == [w, x] + tail && tail == [y, z] + r
    ensures whole == [w, x, y, z] + r
  {
  }

  lemma TwoFirst<T>(lines: seq<T>, x: T, y: T, r: seq<T>)
    requires lines == [x, y] + r
    ensures |lines| >= 2 && lines[0] == x && lines[1] == y
  {
  }

  lemma FourFirst<T>(lines: seq<T>, w: T, x: T, y: T, z: T, r: seq<T>)
    requires lines == [w, x, y, z] + r
    ensures |lines| >= 4 && lines[0] == w && lines[2] == y && lines[3] == z
  {
  }

  datatype AgreementFields = AgreementFields(
    studentName: string, internPosition: string,
    companyName: string, companyAddress: string,
    supervisorName: string, supervisorEmail: string, supervisorPhone: string,
    startDate: string, endDate: string, workingHours: string)

  /** Lines 30-66: the ten fields of the agreement. The student, company and
      supervisor fields are never empty; the dates and hours are single trimmed lines. */
  function ParseAgreement(text: string): (f: AgreementFields)
    ensures f.studentName != [] && f.internPosition != []
    ensures f.companyName != [] && f.companyAddress != []
    ensures f.supervisorName != [] && f.supervisorEmail != [] && f.supervisorPhone != []
    ensures forall c :: c in f.startDate + f.endDate + f.workingHours ==> !IsLineTerminator(c)
    ensures Trimmed(f.startDate) && Trimmed(f.endDate) && Trimmed(f.workingHours)
  {
    var student := match MatchLine(text, StudentLabel)
      case Some(line) => StudentParts(line)
      case None => (NotAvailable, NotAvailable);
    var company := match MatchBlock(text, CompanyLabel, SupervisorLabel)
      case Some(block) => CompanyParts(block)
      case None => (NotAvailable, NotAvailable);
    var supervisor := match MatchBlock(text, SupervisorLabel, PeriodLabel)
      case Some(block) => SupervisorParts(block)
      case None => (NotAvailable, NotAvailable, NotAvailable);
    AgreementFields(
      student.0, student.1,
      company.0, company.1,
      supervisor.0, supervisor.2, supervisor.1,
      Extract(StartLabel, text), Extract(EndLabel, text), Extract(HoursLabel, text))
  }

  // ---------------------------------------------------------------- lemmas

  /** The label is matched whatever the case of its letters: spelling it differently
      changes no match. */
  lemma {:induction false} FindLabelIgnoresCase(text: string, l1: string, l2: string, from: nat)
    requires from <= |text|
    requires |l1| == |l2| && forall k :: 0 <= k < |l1| ==> SameIgnoringCase(l1[k], l2[k])
    ensures FindLabel(text, l1, from) == FindLabel(text, l2, from)
    decreases |text| - from
  {
    assert LabelAt(text, from, l1) == LabelAt(text, from, l2);
    if from < |text| {
      FindLabelIgnoresCase(text, l1, l2, from + 1);
    }
  }

  /** So the capture is the same for any case variant of the label... */
  lemma MatchLineIgnoresCase(text: string, l1: string, l2: string)
    requires |l1| == |l2| && forall k :: 0 <= k < |l1| ==> SameIgnoringCase(l1[k], l2[k])
    ensures MatchLine(text, l1) == MatchLine(text, l2)
  {
    FindLabelIgnoresCase(text, l1, l2, 0);
    MatchLineSameFind(text, l1, l2);
  }

  /** Two labels of one length found at the same place capture the same line. */
  lemma MatchLineSameFind(text: string, l1: string, l2: string)
    requires |l1| == |l2| && FindLabel(text, l1, 0) == FindLabel(text, l2, 0)
    ensures MatchLine(text, l1) == MatchLine(text, l2)
  {
    var f := FindLabel(text, l1, 0);
    if f.Some? {
      var i := f.value;
      var a := SkipSpace(text, i + |l1|);
      var e := LineEnd(text, a);
      MatchLineAt(text, l1, i, a, e);
      MatchLineAt(text, l2, i, a, e);
    }
  }

  /** ...and so is the value `extract` returns. */
  lemma ExtractIgnoresCase(text: string, l1: string, l2: string)
    requires |l1| == |l2| && forall k :: 0 <= k < |l1| ==> SameIgnoringCase(l1[k], l2[k])
    ensures Extract(l1, text) == Extract(l2, text)
  {
    MatchLineIgnoresCase(text, l1, l2);
    ExtractOfSameLine(text, l1, l2);
  }

  /** `extract` depends on the label only through the line it captures. */
  lemma ExtractOfSameLine(text: string, l1: string, l2: string)
    requires MatchLine(text, l1) == MatchLine(text, l2)
    ensures Extract(l1, text) == Extract(l2, text)
  {
  }

  /** The `/i` flag on the block patterns: any case variant of the opening label
      captures the same block. */
  lemma MatchBlockIgnoresCase(text: string, o1: string, o2: string, close: string)
    requires |o1| == |o2| && forall k :: 0 <= k < |o1| ==> SameIgnoringCase(o1[k], o2[k])
    ensures MatchBlock(text, o1, close) == MatchBlock(text, o2, close)
  {
    forall j | 0 <= j <= |text|
      ensures BlockStarts(text, o1, close)(j) == BlockStarts(text, o2, close)(j)
    {
      assert LabelAt(text, j, o1) == LabelAt(text, j, o2);
    }
    LeftmostAgree(0, |text|, BlockStarts(text, o1, close), BlockStarts(text, o2, close));
  }

  /** ... and so does any case variant of the closing label. */
  lemma MatchBlockIgnoresCloseCase(text: string, open: string, c1: string, c2: string)
    requires |c1| == |c2| && forall k :: 0 <= k < |c1| ==> SameIgnoringCase(c1[k], c2[k])
    ensures MatchBlock(text, open, c1) == MatchBlock(text, open, c2)
  {
    forall j | 0 <= j <= |text|
      ensures BlockStarts(text, open, c1)(j) == BlockStarts(text, open, c2)(j)
    {
      BlockAtIgnoresCloseCase(text, j, open, c1, c2);
    }
    LeftmostAgree(0, |text|, BlockStarts(text, open, c1), BlockStarts(text, open, c2));
  }

  lemma BlockAtIgnoresCloseCase(text: string, i: nat, open: string, c1: string, c2: string)
    requires i <= |text|
    requires |c1| == |c2| && forall k :: 0 <= k < |c1| ==> SameIgnoringCase(c1[k], c2[k])
    ensures BlockAt(text, i, open, c1) == BlockAt(text, i, open, c2)
  {
    if LabelAt(text, i, open) {
      var p := i + |open|;
      TryAfterLabelIgnoresCase(text, i, open, p, SkipSpace(text, p) - p, c1, c2);
    }
  }

  /** The labelled case: both captures are tried from the same place and agree. */
  lemma TryAfterLabelIgnoresCase(text: string, i: nat, open: string, p: nat, k: nat, c1: string, c2: string)
    requires i <= |text| && LabelAt(text, i, open) && p == i + |open| && k == SkipSpace(text, p) - p
    requires |c1| == |c2| && forall k :: 0 <= k < |c1| ==> SameIgnoringCase(c1[k], c2[k])
    ensures BlockAt(text, i, open, c1) == BlockAt(text, i, open, c2)
  {
    calc {
      BlockAt(text, i, open, c1);
      { BlockAtTries(text, i, open, p, k, c1); }
      TryCapture(text, p, k, c1);
      { TryCaptureIgnoresCase(text, p, k, c1, c2); }
      TryCapture(text, p, k, c2);
      { BlockAtTries(text, i, open, p, k, c2); }
      BlockAt(text, i, open, c2);
    }
  }

  /** After the label, the block at a start is the capture tried there. */
  lemma BlockAtTries(text: string, i: nat, open: string, p: nat, k: nat, close: string)
    requires i <= |text| && LabelAt(text, i, open) && p == i + |open| && k == SkipSpace(text, p) - p
    ensures BlockAt(text, i, open, close) == TryCapture(text, p, k, close)
  {
  }

  /** Start functions that agree on `i..n` give the same leftmost match. */
  lemma {:induction false} LeftmostAgree(i: nat, n: nat, f: nat -> Option<(nat, nat)>, g: nat -> Option<(nat, nat)>)
    requires i <= n && forall j :: i <= j <= n ==> f(j) == g(j)
    ensures Leftmost(i, n, f) == Leftmost(i, n, g)
    decreases n - i
  {
    if f(i).None? && i < n {
      LeftmostAgree(i + 1, n, f, g);
    }
  }

  lemma {:induction false} TryCaptureIgnoresCase(text: string, p: nat, k: nat, c1: string, c2: string)
    requires p + k <= |text|
    requires |c1| == |c2| && forall k :: 0 <= k < |c1| ==> SameIgnoringCase(c1[k], c2[k])
    ensures TryCapture(text, p, k, c1) == TryCapture(text, p, k, c2)
    decreases k
  {
    FirstCloseIgnoresCase(text, p + k, c1, c2);
    if FirstClose(text, p + k, c1).None? && k > 0 {
      TryCaptureIgnoresCase(text, p, k - 1, c1, c2);
    }
  }

  lemma {:induction false} FirstCloseIgnoresCase(text: string, from: nat, c1: string, c2: string)
    requires from <= |text|
    requires |c1| == |c2| && forall k :: 0 <= k < |c1| ==> SameIgnoringCase(c1[k], c2[k])
    ensures FirstClose(text, from, c1) == FirstClose(text, from, c2)
    decreases |text| - from
  {
    if from < |text| {
      ClosesAtIgnoresCase(text, from, c1, c2);
      if !ClosesAt(text, from, c1) {
        FirstCloseIgnoresCase(text, from + 1, c1, c2);
      }
    }
  }

  /** Whether a newline closes a block does not depend on the case of the closing label. */
  lemma ClosesAtIgnoresCase(text: string, q: nat, c1: string, c2: string)
    requires |c1| == |c2| && forall k :: 0 <= k < |c1| ==> SameIgnoringCase(c1[k], c2[k])
    ensures ClosesAt(text, q, c1) == ClosesAt(text, q, c2)
  {
    if q < |text| {
      var s := SkipSpace(text, q + 1);
      assert LabelAt(text, s, c1) == LabelAt(text, s, c2);
    }
  }

  /** "N/A" stands for a missing label; a label followed by nothing but white space on
      its line and beyond gives the empty string. */
  lemma ExtractMissingOrEmpty(key: string, text: string)
    ensures MatchLine(text, key).None? ==> Extract(key, text) == NotAvailable
    ensures MatchLine(text, key) == Some([]) ==> Extract(key, text) == []
  {
  }

  /** The `\s*` after a label crosses newlines: a value written on a line after the
      label's first occurrence is captured, up to the end of its own line, wherever in
      the letter the label stands. */
  lemma ValueOnNextLine(text: string, pre: string, key: string, gap: string, value: string, rest: string)
    requires text == pre + key + gap + value + rest && FindLabel(text, key, 0) == Some(|pre|)
    requires AllSpace(gap) && value != [] && Trimmed(value)
    requires forall c :: c in value ==> !IsLineTerminator(c)
    requires rest == [] || IsLineTerminator(rest[0])
    ensures Extract(key, text) == value
  {
    ValueLine(text, pre, key, gap, value, rest);
    ExtractTrimmedLine(text, key, value);
  }

  /** The line captured after the first occurrence of a label, at `|pre|`, is the value
      that follows the white space after it, up to the next line terminator. */
  lemma ValueLine(text: string, pre: string, key: string, gap: string, value: string, rest: string)
    requires text == pre + key + gap + value + rest && FindLabel(text, key, 0) == Some(|pre|)
    requires AllSpace(gap) && value != [] && !IsSpace(value[0])
    requires forall c :: c in value ==> !IsLineTerminator(c)
    requires rest == [] || IsLineTerminator(rest[0])
    ensures MatchLine(text, key) == Some(value)
  {
    var p := |pre| + |key|;
    var a := p + |gap|;
    var e := a + |value|;
    Slices(text, pre, key, gap, value, rest);
    assert text[a] == value[0];
    GapSkipped(text, p, a);
    forall k | a <= k < e
      ensures !IsLineTerminator(text[k])
    {
      assert text[k] == value[k - a];
      assert value[k - a] in value;
    }
    if e < |text| {
      assert text[e] == rest[0];
    }
    LineEndIs(text, a, e);
    MatchLineAt(text, key, |pre|, a, e);
  }

  /** Where each of five concatenated pieces sits. */
  lemma Slices<T>(s: seq<T>, a: seq<T>, b: seq<T>, c: seq<T>, d: seq<T>, e: seq<T>)
    requires s == a + b + c + d + e
    ensures var i, j, k := |a| + |b|, |a| + |b| + |c|, |a| + |b| + |c| + |d|;
      && s[|a|..i] == b && s[i..j] == c && s[j..k] == d && s[k..] == e
  {
  }

  /** A label at the very start is found there. */
  lemma LabelFirst(key: string, tail: string)
    requires key != []
    ensures FindLabel(key + tail, key, 0) == Some(0)
  {
    var text := key + tail;
    assert forall k :: 0 <= k < |key| ==> text[k] == key[k];
    assert LabelAt(text, 0, key);
  }

  /** A run of white space followed by something else is skipped in full. */
  lemma GapSkipped(text: string, p: nat, a: nat)
    requires p <= a < |text| && AllSpace(text[p..a]) && !IsSpace(text[a])
    ensures SkipSpace(text, p) == a
  {
    forall k | p <= k < a
      ensures IsSpace(text[k])
    {
      assert text[k] == text[p..a][k - p];
    }
    SkipSpaceIs(text, p, a);
  }

  /** A captured line that is already trimmed is the extracted value. */
  lemma ExtractTrimmedLine(text: string, key: string, line: string)
    requires MatchLine(text, key) == Some(line) && Trimmed(line)
    ensures Extract(key, text) == line
  {
    TrimTrimmed(line);
  }

  /** The pattern fails to match exactly when the label occurs nowhere in the text. */
  lemma MatchLineNoneIff(text: string, key: string)
    ensures MatchLine(text, key).None? <==> forall j :: 0 <= j <= |text| ==> !LabelAt(text, j, key)
  {
  }

  /** `MatchLine` captures from the end of the white space after the label's first
      occurrence to the end of that line. */
  lemma MatchLineAt(text: string, key: string, i: nat, a: nat, e: nat)
    requires i + |key| <= |text| && FindLabel(text, key, 0) == Some(i)
    requires SkipSpace(text, i + |key|) == a && LineEnd(text, a) == e
    ensures a <= e <= |text| && MatchLine(text, key) == Some(text[a..e])
  {
  }
}
