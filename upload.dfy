/**
 * The upload configuration in config/multer.js: the folder a file is stored in,
 * chosen by the form field it came from; the name it is stored under, the
 * upload time followed by the original extension; and the filter that accepts
 * only `.pdf`, `.doc` and `.docx` files whatever the case of the extension.
 *
 * `path.extname` is modelled on POSIX paths as Node defines it: the extension of
 * the last path component (trailing `/` ignored) runs from its last `.` to its
 * end, and is empty when the component has no `.`, when its only `.` is its first
 * character, or when the component is `..`. The upload time (`Date.now()`) is a
 * parameter.
 */
module Upload {
  import opened Wrappers
  import opened JsText

  const ResumeFolder: string := "uploads/resumes"
  const OfferLetterFolder: string := "uploads/offerletters"
  const OtherFolder: string := "uploads/other"

  /** `destination`: resumes and offer letters have folders of their own; a file from
      any other field goes to the catch-all folder. */
  function Destination(fieldname: string): (folder: string)
    ensures folder == ResumeFolder <==> fieldname == "resume"
    ensures folder == OfferLetterFolder <==> fieldname == "offer_letter"
    ensures folder == OtherFolder <==> fieldname != "resume" && fieldname != "offer_letter"
  {
    if fieldname == "resume" then ResumeFolder
    else if fieldname == "offer_letter" then OfferLetterFolder
    else OtherFolder
  }

  // ------------------------------------------------------- path.extname

  /** The path without its trailing `/` characters. */
  function DropTrailingSlashes(p: string): (r: string)
    ensures |r| <= |p| && r == p[..|r|]
    ensures r == [] || r[|r| - 1] != '/'
    ensures forall k :: |r| <= k < |p| ==> p[k] == '/'
  {
    if p != [] && p[|p| - 1] == '/' then DropTrailingSlashes(p[..|p| - 1]) else p
  }

  /** The text after the last `/`, or all of it when there is none. */
  function AfterLastSlash(s: string): (r: string)
    ensures |r| <= |s| && r == s[|s| - |r|..]
    ensures '/' !in r
    ensures |r| < |s| ==> s[|s| - |r| - 1] == '/'
  {
    if s == [] || s[|s| - 1] == '/' then []
    else
      var r := AfterLastSlash(s[..|s| - 1]);
      assert s[..|s| - 1][|s| - 1 - |r|..] + [s[|s| - 1]] == s[|s| - 1 - |r|..];
      r + [s[|s| - 1]]
  }

  /** The last component of a path, as `path.basename` gives it. */
  function BaseName(p: string): (b: string)
    ensures '/' !in b
  {
    AfterLastSlash(DropTrailingSlashes(p))
  }

  /** The position of the last `.`. */
  function LastDot(b: string): (r: Option<nat>)
    ensures r.None? <==> '.' !in b
    ensures r.Some? ==> r.value < |b| && b[r.value] == '.' && '.' !in b[r.value + 1..]
  {
    if b == [] then None
    else if b[|b| - 1] == '.' then Some(|b| - 1)
    else
      var r := LastDot(b[..|b| - 1]);
      assert r.None? ==> b == b[..|b| - 1] + [b[|b| - 1]];
      assert r.Some? ==> b[r.value + 1..] == b[..|b| - 1][r.value + 1..] + [b[|b| - 1]];
      r
  }

  /** The component `..`, the parent directory. */
  predicate IsDotDot(b: string) {
    |b| == 2 && b[0] == '.' && b[1] == '.'
  }

  /** The extension of a last path component: from its last `.` to its end, or nothing
      when it has no `.`, when that `.` comes first, or when the component is `..`. */
  function Extension(b: string): (e: string)
    ensures |e| <= |b| && e == b[|b| - |e|..]
    ensures e == [] || (e[0] == '.' && '.' !in e[1..])
  {
    match LastDot(b)
    case None => ""
    case Some(d) =>
      if d == 0 || IsDotDot(b) then ""
      else
        assert b[d..][1..] == b[d + 1..];
        b[d..]
  }

  /** `path.extname` on POSIX: the extension of the last path component. */
  function ExtName(p: string): (e: string)
    ensures e == [] || (e[0] == '.' && '.' !in e[1..])
    ensures '/' !in e
  {
    var b := BaseName(p);
    var e := Extension(b);
    NotInSuffix(b, e, '/');
    e
  }

  /** The extension of a base name described without a search: a suffix that starts
      with its only `.`, with something before it, in a name other than `..`. */
  predicate IsExtensionOf(e: string, b: string) {
    && e != [] && e[0] == '.' && '.' !in e[1..]
    && |e| < |b| && b[|b| - |e|..] == e
    && !IsDotDot(b)
  }

  /** A non-empty extension is an extension in that sense... */
  lemma ExtensionIsSuffix(b: string)
    ensures Extension(b) != [] ==> IsExtensionOf(Extension(b), b)
  {
  }

  /** ...and the only one: `Extension` returns any extension the name has, so it is
      empty exactly when the name has none. */
  lemma ExtensionUnique(b: string, e: string)
    requires IsExtensionOf(e, b)
    ensures Extension(b) == e
  {
    var j := |b| - |e|;
    assert b[j] == '.';
    assert b[j + 1..] == e[1..];
    LastDotIs(b, j);
  }

  lemma LastDotIs(b: string, j: nat)
    requires j < |b| && b[j] == '.' && '.' !in b[j + 1..]
    ensures LastDot(b) == Some(j)
  {
  }

  /** A name without `/` is its own last component. */
  lemma BaseNameOfPlainName(p: string)
    requires p != [] && '/' !in p
    ensures BaseName(p) == p
  {
    assert p[|p| - 1] in p;
    assert DropTrailingSlashes(p) == p;
  }

  // ----------------------------------------------------------- fileFilter

  const Allowed: seq<string> := [".pdf", ".doc", ".docx"]

  /** `fileFilter`: the lower-cased extension is on the allow-list. The filter never
      reports an error, only accepts or rejects. */
  function AcceptsFile(originalname: string): (ok: bool)
    ensures ok <==> exists a :: EndsWithIgnoringCase(BaseName(originalname), a)
  {
    AcceptsBaseIff(BaseName(originalname));
    AcceptsBase(BaseName(originalname))
  }

  /** `b` ends, after at least one other character, in the allowed extension `a` in
      some mix of cases. */
  predicate EndsWithIgnoringCase(b: string, a: string) {
    a in Allowed && |a| < |b| && Lower(b[|b| - |a|..]) == a
  }

  /** The filter's test on the last path component. */
  predicate AcceptsBase(b: string) {
    Lower(Extension(b)) in Allowed
  }

  /** Every allowed extension is a `.` followed by letters. */
  lemma AllowedShape(a: string)
    requires a in Allowed
    ensures |a| >= 4 && a[0] == '.' && '.' !in a[1..]
  {
    assert a == ".pdf" || a == ".doc" || a == ".docx";
  }

  /** A name with no extension is rejected. */
  lemma NoExtensionRejected(b: string)
    requires Extension(b) == []
    ensures !AcceptsBase(b)
  {
    assert Lower(Extension(b)) == [];
  }

  /** Lower-casing moves no `.`: a string whose lower-cased form is a `.` followed by
      no other `.` is one itself. */
  lemma LowerKeepsDots(s: string)
    requires s != [] && Lower(s)[0] == '.' && '.' !in Lower(s)[1..]
    ensures s[0] == '.' && '.' !in s[1..]
  {
    forall k | 1 <= k < |s| ensures s[k] != '.' {
      assert Lower(s)[k] == Lower(s)[1..][k - 1];
    }
  }

  /** A name is accepted exactly when it ends, ignoring case, with an allowed extension
      that has something in front of it. */
  lemma AcceptsBaseIff(b: string)
    ensures AcceptsBase(b) <==> exists a :: EndsWithIgnoringCase(b, a)
  {
    var e := Extension(b);
    if AcceptsBase(b) {
      var a := Lower(e);
      ExtensionIsSuffix(b);
      AllowedShape(a);
      assert EndsWithIgnoringCase(b, a);
    }
    if exists a :: EndsWithIgnoringCase(b, a) {
      var a :| EndsWithIgnoringCase(b, a);
      var s := b[|b| - |a|..];
      AllowedShape(a);
      LowerKeepsDots(s);
      ExtensionUnique(b, s);
    }
  }

  /** `.` is the only character that lower-cases to `.`. */
  lemma LowerDot(s: string)
    ensures forall k :: 0 <= k < |s| ==> (Lower(s)[k] == '.' <==> s[k] == '.')
  {
  }

  /** Names that agree once lower-cased have their `.` in the same places... */
  lemma LastDotIgnoresCase(b1: string, b2: string)
    requires Lower(b1) == Lower(b2)
    ensures LastDot(b1) == LastDot(b2)
  {
    LowerDot(b1);
    LowerDot(b2);
    var r := LastDot(b1);
    if r.Some? {
      var d := r.value;
      forall k | d + 1 <= k < |b2| ensures b2[k] != '.' {
        assert b1[k] == b1[d + 1..][k - d - 1];
      }
      assert '.' !in b2[d + 1..];
      LastDotIs(b2, d);
    } else {
      assert forall k :: 0 <= k < |b1| ==> b1[k] != '.';
      assert '.' !in b2;
    }
  }

  /** ...and both or neither are `..`... */
  lemma DotDotIgnoresCase(b1: string, b2: string)
    requires Lower(b1) == Lower(b2)
    ensures IsDotDot(b1) <==> IsDotDot(b2)
  {
    LowerDot(b1);
    LowerDot(b2);
  }

  /** ...so their extensions agree once lower-cased. */
  lemma ExtensionIgnoresCase(b1: string, b2: string)
    requires Lower(b1) == Lower(b2)
    ensures Lower(Extension(b1)) == Lower(Extension(b2))
  {
    LastDotIgnoresCase(b1, b2);
    DotDotIgnoresCase(b1, b2);
    var r := LastDot(b1);
    if r.Some? && r.value != 0 && !IsDotDot(b1) {
      var d := r.value;
      assert Extension(b1) == b1[d..] && Extension(b2) == b2[d..];
      LowerSuffix(b1, d);
      LowerSuffix(b2, d);
    } else {
      assert Extension(b1) == [] && Extension(b2) == [];
    }
  }

  /** Acceptance ignores case: names whose last components agree once lower-cased are
      accepted or rejected together. */
  lemma AcceptsIgnoresCase(n1: string, n2: string)
    requires Lower(BaseName(n1)) == Lower(BaseName(n2))
    ensures AcceptsFile(n1) <==> AcceptsFile(n2)
  {
    ExtensionIgnoresCase(BaseName(n1), BaseName(n2));
  }

  /** The extension of a name other than `..` is its last `.`-suffix, whatever comes
      before it (so `..pdf` has the extension `.pdf`). */
  lemma ExtNameOfSuffix(stem: string, e: string)
    requires stem != [] && '/' !in stem
    requires e != [] && e[0] == '.' && '.' !in e[1..] && '/' !in e
    requires !IsDotDot(stem + e)
    ensures ExtName(stem + e) == e
  {
    var b := stem + e;
    assert b[0] == stem[0];
    BaseNameOfPlainName(b);
    assert b[|b| - |e|..] == e;
    ExtensionUnique(b, e);
  }

  /** Only the last extension counts, whatever extensions the name has before it:
      `x.pdf.exe` is rejected and `x.exe.pdf` accepted. */
  lemma OnlyLastExtensionCounts(stem: string, e: string)
    requires stem != [] && '/' !in stem
    requires e != [] && e[0] == '.' && '.' !in e[1..] && '/' !in e
    requires !IsDotDot(stem + e)
    ensures AcceptsFile(stem + e) <==> Lower(e) in Allowed
  {
    ExtNameOfSuffix(stem, e);
  }

  /** `.exe` is not on the allow-list, in any case. */
  lemma ExeNotAllowed(e: string)
    requires |e| == 4 && Lower(e)[1] == 'e'
    ensures Lower(e) !in Allowed
  {
  }

  /** A name without a `.` has no extension and is rejected. */
  lemma RejectsNoExtension(name: string)
    requires '.' !in name
    ensures !AcceptsFile(name)
  {
    var t := DropTrailingSlashes(name);
    NotInPrefix(name, t, '.');
    var b := AfterLastSlash(t);
    NotInSuffix(t, b, '.');
    assert BaseName(name) == b;
    assert LastDot(b).None?;
    NoExtensionRejected(b);
  }

  /** A name whose only `.` comes first, such as `.pdf`, has no extension. */
  lemma RejectsDotFile(w: string)
    requires '.' !in w && '/' !in w
    ensures !AcceptsFile("." + w)
  {
    var b := "." + w;
    BaseNameOfPlainName(b);
    assert b[1..] == w;
    LastDotIs(b, 0);
    NoExtensionRejected(b);
  }

  /** Any case variant of an allowed extension is accepted after any name, so
      `CV.PDF` and `x.DocX` are accepted. */
  lemma AcceptsAnyCase(stem: string, ext: string)
    requires stem != [] && '/' !in stem
    requires '/' !in ext && Lower(ext) in Allowed
    ensures AcceptsFile(stem + ext)
  {
    AllowedShape(Lower(ext));
    LowerKeepsDots(ext);
    assert |stem + ext| > 2;
    ExtNameOfSuffix(stem, ext);
    assert Extension(BaseName(stem + ext)) == ext;
  }

  // ------------------------------------------------------------- filename

  function Digit(d: nat): (c: char)
    requires d < 10
    ensures '0' <= c <= '9'
  {
    ('0' as int + d) as char
  }

  /** `String(n)` for a non-negative integer below 10^21: its decimal digits, without
      leading zeros. */
  function DecimalString(n: nat): (s: string)
    ensures s != []
    ensures forall k :: 0 <= k < |s| ==> '0' <= s[k] <= '9'
    ensures |s| > 1 ==> s[0] != '0'
  {
    if n < 10 then [Digit(n)] else DecimalString(n / 10) + [Digit(n % 10)]
  }

  /** The number a string of decimal digits denotes. */
  function DecimalValue(s: string): nat
    requires forall k :: 0 <= k < |s| ==> '0' <= s[k] <= '9'
  {
    if s == [] then 0 else DecimalValue(s[..|s| - 1]) * 10 + (s[|s| - 1] as int - '0' as int)
  }

  /** The digits spell the number back. */
  lemma {:induction false} DecimalRoundTrip(n: nat)
    ensures DecimalValue(DecimalString(n)) == n
  {
    if n >= 10 {
      DecimalRoundTrip(n / 10);
      var s := DecimalString(n);
      assert s[..|s| - 1] == DecimalString(n / 10);
    }
  }

  /** `filename`: the upload time in milliseconds followed by the original extension,
      in its original case. */
  function StoredName(now: nat, originalname: string): (name: string)
    ensures |DecimalString(now)| <= |name| && name[..|DecimalString(now)|] == DecimalString(now)
    ensures '/' !in name
  {
    var digits := DecimalString(now);
    var ext := ExtName(originalname);
    assert forall c :: c in digits ==> '0' <= c <= '9';
    digits + ext
  }

  /** A non-empty run of digits followed by an extension has that extension. */
  lemma DigitsThenExtension(digits: string, ext: string)
    requires digits != [] && forall k :: 0 <= k < |digits| ==> '0' <= digits[k] <= '9'
    requires ext == [] || (ext[0] == '.' && '.' !in ext[1..])
    requires '/' !in ext
    ensures ExtName(digits + ext) == ext
  {
    var s := digits + ext;
    assert '/' !in digits;
    BaseNameOfPlainName(s);
    if ext == [] {
      assert s == digits;
      assert '.' !in s;
      assert LastDot(s).None?;
    } else {
      assert s[|s| - |ext|..] == ext;
      assert s[0] == digits[0];
      ExtensionUnique(s, ext);
    }
  }

  /** The stored name keeps the original's extension... */
  lemma StoredNameExtension(now: nat, originalname: string)
    ensures ExtName(StoredName(now, originalname)) == ExtName(originalname)
  {
    var digits := DecimalString(now);
    var ext := ExtName(originalname);
    assert StoredName(now, originalname) == digits + ext;
    DigitsThenExtension(digits, ext);
  }

  /** ...so it passes the filter exactly when the original did... */
  lemma StoredNameAccepted(now: nat, originalname: string)
    ensures AcceptsFile(StoredName(now, originalname)) <==> AcceptsFile(originalname)
  {
    StoredNameExtension(now, originalname);
  }

  /** ...and its leading digits spell the upload time. */
  lemma StoredNameTime(now: nat, originalname: string)
    ensures DecimalValue(StoredName(now, originalname)[..|DecimalString(now)|]) == now
  {
    DecimalRoundTrip(now);
  }
}
