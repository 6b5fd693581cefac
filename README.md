# TalentMap core, modelled in Dafny

TalentMap is an Express application. Students upload résumés and offer letters,
recruiters post jobs, and the application matches résumés against jobs. This project
models the three parts of it that hold logic of their own, and proves what they
promise.

- **The relevance engine** (`routes/match.js`):
  - `tokenize` lower-cases the text, blanks every character other than `[a-z0-9]`
    and white space, splits on white space and drops empty pieces.
  - `buildTF` counts each token.
  - A keyword table gives weights 3, 2 or the default 1.
  - `scoreText` computes a weighted cosine similarity. Its three accumulators
    (`numerator`, `rMag`, `jMag`) are sums of products of counts and weights,
    modelled as unbounded integers; the final square root and division are not
    (see below).
  - The `/run/:resumeId` handler is the `Store` class. Its fields are the résumé,
    job, match and waitlist tables. `Run` finds the résumé, deletes its old
    matches, scores every job, inserts a match for each positive score, adds a
    waitlist entry when nothing matched, and ranks the results.
  - The `/history` access guard.
- **Offer-letter field extraction** (`routes/agreement.js`, `extract` and lines
  30-66). Pure functions from the letter's text to the ten agreement fields.
  - The `/Label:\s*(.*)/i` patterns become `MatchLine`: the first
    case-insensitive occurrence of the label, then white space, then the rest of
    that line.
  - The `/Label:\s*([\s\S]*?)\n\s*Next:/i` patterns become `MatchBlock`. It
    models JavaScript's backtracking order exactly: the leftmost label that can
    complete a match, the greedy `\s*`, then the lazy group.
  - Then come splitting on `,` or on newlines, trimming, dropping blank lines,
    picking by index, and the `"N/A"` defaults.
- **Upload handling** (`config/multer.js`):
  - the destination folder chosen from the form field;
  - the stored name, the upload time followed by the original extension;
  - the filter, which accepts `.pdf`, `.doc` and `.docx` in any case.

  `path.extname` is modelled as Node defines it for POSIX paths. The upload time
  is a parameter.

The files:

| file | contents |
|---|---|
| `wrappers.dfy` | `Option` |
| `js_text.dfy` | `\s`, line terminators, ASCII `toLowerCase`, `trim`, `split`/`join` on one character, `filter(Boolean)` |
| `tokenizer.dfy` | `tokenize` |
| `term_freq.dfy` | `buildTF` and the distinct terms |
| `scoring.dfy` | the weights and `scoreText` |
| `scoring_lemmas.dfy` | the score's bounds, zero cases and symmetry |
| `ranking.dfy` | the stable descending sort of the results |
| `match_run.dfy` | the `/run/:resumeId` store update and the `/history` guard |
| `agreement.dfy` | `extract` and the agreement fields |
| `agreement_letter.dfy` | a letter laid out from the fields, and the proof that it is read back |
| `upload.dfy` | `destination`, `filename`, `fileFilter` |

## Model

| member | source | states |
|---|---|---|
| JsText.Lower | routes/match.js:19 | lower-cases each character on its own and keeps the length; `A`-`Z` become `a`-`z` and every other character is unchanged |
| JsText.Trim | routes/agreement.js:11 | the result neither starts nor ends with white space |
| JsText.TrimIsInfix | routes/agreement.js:11 | the trimmed string occurs in the original with only white space before it and after it |
| JsText.TrimEmptyIff | routes/agreement.js:11 | trimming gives `""` exactly when the string is all white space |
| JsText.TrimTrimmed | routes/agreement.js:11 | trimming leaves a string without surrounding white space unchanged |
| JsText.Split | routes/agreement.js:36 | `split` on one character gives at least one piece, and no piece holds the separator |
| JsText.SplitAfter | routes/agreement.js:36 | the first piece is the text before the first separator, and the rest is the split of what follows it |
| JsText.JoinSplit | routes/agreement.js:36 | joining the pieces with the separator restores the string |
| JsText.SplitJoin | routes/agreement.js:36 | splitting a join of separator-free parts gives the parts back |
| JsText.SplitConcat | routes/agreement.js:46 | splitting `x + sep + y` gives the pieces of `x` followed by the pieces of `y` |
| JsText.NonEmpty | routes/match.js:22 | `filter(Boolean)` keeps only non-empty strings, each taken from the input |
| JsText.NonEmptyAppend | routes/match.js:22 | filtering a concatenation filters each side |
| JsText.NonEmptyOfNonEmpty | routes/match.js:22 | filtering keeps a sequence without empty strings unchanged |
| Tokenizer.Normalize | routes/match.js:19-20 | same length as the text; a character that lower-cases into `[a-z0-9]` becomes that lower-case character, a white-space character is kept, and every other character becomes a space |
| Tokenizer.SplitOnSpace | routes/match.js:21 | `split(/\s+/)` gives at least one piece; no piece holds white space, and every character comes from the input |
| Tokenizer.SplitOnSpaceWord | routes/match.js:21 | text without white space splits into one piece, itself |
| Tokenizer.SplitOnSpaceAt | routes/match.js:21-22 | a white-space character splits the text in two: the non-empty pieces of `x + [sp] + y` are those of `x` followed by those of `y` |
| Tokenizer.NormalizeAppend | routes/match.js:19-20 | normalizing works character by character: the normalized concatenation is the concatenation of the normalized parts |
| Tokenizer.Tokenize | routes/match.js:17-23 | every token is a non-empty run of `[a-z0-9]` |
| Tokenizer.TokenizeSplitsAt | routes/match.js:17-23 | a character that does not lower-case into `[a-z0-9]` separates tokens: the tokens of `a + [c] + b` are those of `a` followed by those of `b` |
| Tokenizer.TokenizeWord | routes/match.js:17-23 | a non-empty run of characters that each lower-case into `[a-z0-9]` is exactly one token, its lower-case form |
| Tokenizer.TokenizeExample | routes/match.js:17-23 | `tokenize("Node.js & SQL!")` is `["node", "js", "sql"]` |
| Tokenizer.SplitOnSpaceEmptyIff | routes/match.js:21-22 | the split has no non-empty piece exactly when the string is all white space |
| Tokenizer.NormalizeAllSpaceIff | routes/match.js:19-20 | the normalized text is all white space exactly when no character lower-cases to `[a-z0-9]` |
| Tokenizer.TokenizeEmptyIff | routes/match.js:17-23 | there are no tokens exactly when no character lower-cases to `[a-z0-9]`, so empty and punctuation-only texts give none |
| Tokenizer.SplitJoinSpace | routes/match.js:21 | splitting tokens joined by single spaces gives the tokens back |
| Tokenizer.TokenizeJoinSpace | routes/match.js:17-23 | tokenizing tokens joined by single spaces gives the same tokens |
| Tokenizer.NormalizeWordText | routes/match.js:19-20 | text made only of `[a-z0-9]` and spaces is left unchanged |
| Tokenizer.TokenizeIdempotent | routes/match.js:17-23 | tokenizing the space-join of `tokenize`'s output gives the same sequence |
| TermFreq.TF | routes/match.js:25-29 | the keys of the term-frequency map are exactly the words |
| TermFreq.TFCount | routes/match.js:25-29 | each word's count is its number of occurrences, and an absent word counts 0 |
| TermFreq.CountPositiveIff | routes/match.js:27 | a word's count is positive exactly when it occurs |
| TermFreq.BuildTF | routes/match.js:25-29 | the loop over the words builds exactly the term-frequency map |
| TermFreq.Distinct | routes/match.js:44 | the `Set` of terms has exactly the members of the word list |
| TermFreq.DistinctNoDuplicates | routes/match.js:44 | the `Set` of terms holds no term twice |
| TermFreq.CountsSumToLength | routes/match.js:25-29 | the counts over the distinct words sum to the number of words |
| Scoring.SimilarityOf | routes/match.js:31-32 | the early-return value exactly when the résumé text or the job text is empty |
| Scoring.Weight | routes/match.js:6-15 | every weight is 1, 2 or 3; 3 exactly for javascript, node, sql and react; 2 exactly for api, backend, frontend and internship; 1 for any other term, as the `\|\| 1` default at line 48 gives |
| Scoring.Accumulate | routes/match.js:45-56 | the loop leaves `numerator`, `rMag` and `jMag` equal to the weighted dot products of the two frequency maps over the terms |
| Scoring.ScoreText | routes/match.js:31-59 | the early return happens exactly when either text is empty; otherwise the result is the three accumulators over the union of terms |
| ScoringLemmas.DotNonNegative | routes/match.js:53-55 | every accumulator is non-negative |
| ScoringLemmas.WeightedZeroIff | routes/match.js:50-51 | a weighted count is 0 exactly when the term is absent, since every weight is positive |
| ScoringLemmas.DotZeroIff | routes/match.js:53 | a dot product is 0 exactly when no term is present on both sides |
| ScoringLemmas.CauchySchwarz | routes/match.js:53-55 | `numerator² ≤ rMag · jMag` over any term list |
| ScoringLemmas.DotSwap | routes/match.js:53 | the numerator does not depend on which side is the résumé |
| ScoringLemmas.DotAppend | routes/match.js:45-56 | the sums over two term lists add |
| ScoringLemmas.DotRemoveAt | routes/match.js:45-56 | removing one term from the list removes exactly its product from the sum |
| ScoringLemmas.DotPermutation | routes/match.js:44-45 | two duplicate-free term lists with the same members give the same sums, so the `Set`'s iteration order does not matter |
| ScoringLemmas.GetPositiveIff | routes/match.js:46-47 | `rTF[w] \|\| 0` is positive exactly when `w` is a token |
| ScoringLemmas.DotZeroIffDisjoint | routes/match.js:44-53 | the numerator over the union of terms is 0 exactly when the token lists share no term |
| ScoringLemmas.SelfDotZeroIff | routes/match.js:54-55 | a magnitude is 0 exactly when its side has no tokens |
| ScoringLemmas.NumeratorZeroIffNoSharedToken | routes/match.js:40-56 | `numerator ≥ 0`, and it is 0 exactly when the two texts share no token |
| ScoringLemmas.MagnitudeZeroIffNoTokens | routes/match.js:54-58 | `rMag` (`jMag`) is 0 exactly when the résumé (job) text has no token |
| ScoringLemmas.ZeroMagnitudeZeroNumerator | routes/match.js:58-59 | a zero magnitude forces a zero numerator, so the `\|\| 1` denominator divides 0 |
| ScoringLemmas.ScoreBounds | routes/match.js:40-59 | `0 ≤ numerator`, `numerator² ≤ rMag · jMag`, both magnitudes are non-negative, and a zero magnitude means a zero numerator; the raw score therefore lies in [0, 1] |
| ScoringLemmas.ScoreSymmetric | routes/match.js:31-59 | swapping the texts keeps the early return and the numerator, and swaps the two magnitudes, so the score is symmetric |
| Ranking.Insert | routes/match.js:107 | inserting one result lengthens the list by one |
| Ranking.InsertMultiset | routes/match.js:107 | insertion adds exactly that result |
| Ranking.InsertBound | routes/match.js:107 | insertion keeps every score under a common bound |
| Ranking.InsertSorted | routes/match.js:107 | insertion into a list sorted by non-increasing score keeps it sorted |
| Ranking.InsertStable | routes/match.js:107 | insertion puts a result after every earlier result with the same score |
| Ranking.SortByScoreDesc | routes/match.js:107 | `sort((a, b) => b.score - a.score)` gives non-increasing scores and a permutation of the results |
| Ranking.SortStable | routes/match.js:107 | for every score, the results with that score keep their load order |
| MatchRun.JobText | routes/match.js:80 | the job text always holds a space, so it is never empty |
| MatchRun.FindResume | routes/match.js:66-70 | a found résumé is in the table with the requested id; none is found only when no row has that id |
| MatchRun.HitsBy | routes/match.js:77-91 | at most one result per job; each result is a job of the list, paired with that job's own score, which is positive |
| MatchRun.HitsByOne | routes/match.js:84-90 | one job is collected, with its own score, exactly when that score is positive |
| MatchRun.HitsByAppend | routes/match.js:77-91 | the results for jobs loaded one list after another are the results for the first list followed by those for the second, so results keep job load order |
| MatchRun.HitsByComplete | routes/match.js:84-89 | every job of the list with a positive score is collected, with that score |
| MatchRun.Hits | routes/match.js:84-89 | every collected result has a positive score |
| MatchRun.Without | routes/match.js:72 | a row survives the `DELETE` exactly when it was in the table and belongs to another résumé |
| MatchRun.HasEntry | routes/match.js:94-98 | the `SELECT` on the waitlist finds an entry exactly when some entry has the résumé's id |
| MatchRun.RunMatches | routes/match.js:72-91 | after a run, every row of another résumé is still there, and every row is either such a row or a row of this résumé with a positive score |
| MatchRun.RunWaitlist | routes/match.js:93-103 | the old waitlist is a prefix of the new one, which has at most one more entry; the résumé has an entry afterwards exactly when it had one before or nothing matched |
| MatchRun.Store.DeleteMatches | routes/match.js:72 | the match table becomes the old rows of the other résumés, in order |
| MatchRun.Store.InsertMatch | routes/match.js:85-88 | the match table gains exactly the new row at its end |
| MatchRun.Store.InsertWaitlist | routes/match.js:99-102 | the waitlist gains exactly the new entry at its end |
| MatchRun.Store.ScoreJob | routes/match.js:78-82 | the rounded score of a job is the rounding of the similarity of the résumé text and the job text |
| MatchRun.Store.ScoreOne | routes/match.js:78-90 | one loop step inserts a row and collects a result exactly when the job's score is positive |
| MatchRun.Store.ScoreJobs | routes/match.js:74-91 | the loop collects exactly the positively scored jobs in load order and appends one row for each |
| MatchRun.Store.Run | routes/match.js:63-108 | a missing résumé gives "not found" and changes nothing; otherwise the résumé's old rows are replaced by one row per positively scored job, a waitlist entry is added when nothing scored and none exists, and the outcome is "no match" or the ranked results |
| MatchRun.Store.RunFound | routes/match.js:72-108 | the same new tables and outcome for a résumé that exists |
| MatchRun.RunReplacesOnlyOwnRows | routes/match.js:72-91 | after a run, the résumé's rows are exactly its new rows, and every other résumé's rows are unchanged |
| MatchRun.RunMatchesIdempotent | routes/match.js:72-91 | running again with the same inputs leaves the same match table |
| MatchRun.OneRowPerScoringJob | routes/match.js:77-91 | with distinct job ids, the résumé has exactly one row per job with a positive score, none for the others, and every row's score is positive |
| MatchRun.EarlyReturnOnlyForEmptyResume | routes/match.js:78-81 | `scoreText` returns early for a job exactly when the résumé text is empty, since the job text never is |
| MatchRun.UnrelatedJobScoresZero | routes/match.js:82-84 | a job sharing no token with the résumé scores 0, so it is neither stored nor returned |
| MatchRun.WaitlistPreserved | routes/match.js:93-103 | a run only adds to the waitlist, never removes, and keeps it at most one entry per résumé |
| MatchRun.NoMatchLeavesOneEntry | routes/match.js:93-103 | after a run with no match the résumé has exactly one waitlist entry, and another such run adds none |
| MatchRun.RankedResults | routes/match.js:93-108 | "no match" exactly when no job scored; otherwise the results are sorted by non-increasing score, are a permutation of the positive hits, keep load order among equal scores, and all have positive scores |
| MatchRun.HistoryGuard | routes/match.js:113-116 | only a signed-in user with role `recruiter` gets past, and the query is then keyed by that user's own id |
| Agreement.FindLabel | routes/agreement.js:32 | the first position from which the label matches case-insensitively, or none when it matches nowhere |
| Agreement.LineEnd | routes/agreement.js:64 | `.*` stops at the first line terminator or at the end of the text |
| Agreement.MatchLine | routes/agreement.js:32 | a captured line holds no line terminator and does not start with white space |
| Agreement.MatchLineNoneIff | routes/agreement.js:10-11 | the pattern fails exactly when the label occurs nowhere |
| Agreement.Extract | routes/agreement.js:9-12 | the result is a single line without surrounding white space |
| Agreement.ExtractMissingOrEmpty | routes/agreement.js:9-12 | `"N/A"` when the pattern does not match; `""`, not `"N/A"`, for an empty capture |
| Agreement.ExtractTrimmedLine | routes/agreement.js:11 | a capture without surrounding white space is returned as it is |
| Agreement.ValueLine | routes/agreement.js:64 | wherever the label first occurs in the text, the value after it and its white space is captured up to the end of its line |
| Agreement.ValueOnNextLine | routes/agreement.js:64-66 | wherever the label first occurs, the value is found even when the white space after the label includes newlines, and nothing after the value's line is taken |
| Agreement.FindLabelIgnoresCase | routes/agreement.js:32 | labels that differ only in the case of letters are found at the same place |
| Agreement.MatchLineIgnoresCase | routes/agreement.js:32 | labels that differ only in the case of letters capture the same line |
| Agreement.ExtractIgnoresCase | routes/agreement.js:64-66 | labels that differ only in the case of letters extract the same value |
| Agreement.FirstClose | routes/agreement.js:42 | the first place where `\n`, white space and the next label follow |
| Agreement.TryCapture | routes/agreement.js:42 | a capture tried after the label starts within the white space the greedy `\s*` may keep, lies inside the text, and ends at the first closing label after its start |
| Agreement.BlockAt | routes/agreement.js:42 | a match found at a position is a genuine match of the block pattern there, and there is none where the opening label does not stand |
| Agreement.BlockFrom | routes/agreement.js:42 | the match reported from a position is the block match at the position it names |
| Agreement.LeftmostIsFirst | routes/agreement.js:42 | the leftmost search skips only positions where nothing matches |
| Agreement.BlockFromLeftmost | routes/agreement.js:42 | no block match starts before the reported one, and none at all when the search fails |
| Agreement.MatchBlock | routes/agreement.js:42 | a captured block is the text between an opening label (with the white space after it) and a following `\n<ws>Label:` |
| Agreement.MatchBlockFirstLabel | routes/agreement.js:42 | when the first label has a closing label after it, the block runs from after that label's white space to the first closing label |
| Agreement.MatchBlockIgnoresCase | routes/agreement.js:42 | opening labels that differ only in the case of letters capture the same block, as the `/i` flag gives |
| Agreement.MatchBlockIgnoresCloseCase | routes/agreement.js:52 | closing labels that differ only in the case of letters capture the same block, as the `/i` flag gives |
| Agreement.OrNotAvailable | routes/agreement.js:37 | `s \|\| "N/A"` keeps a non-empty `s` and gives `"N/A"` for an empty one |
| Agreement.LineOr | routes/agreement.js:47-48 | `lines[k] \|\| "N/A"` is the line when it exists and is non-empty, and `"N/A"` for a missing index or an empty line |
| Agreement.TrimEach | routes/agreement.js:46 | each element is trimmed, and the length is kept |
| Agreement.NonBlankLines | routes/agreement.js:46 | each remaining line is non-empty, has no surrounding white space and holds no newline |
| Agreement.NonBlankLinesOfJoin | routes/agreement.js:46 | non-empty trimmed lines joined by newlines are read back as those lines |
| Agreement.NonBlankLinesConcat | routes/agreement.js:46 | the lines of two pieces joined by a newline are the lines of each piece, in order |
| Agreement.NonBlankLinesOfLine | routes/agreement.js:46 | one line gives itself trimmed, or nothing when it is blank |
| Agreement.BlankLineIgnored | routes/agreement.js:46 | a blank line anywhere in a block changes none of its lines |
| Agreement.StudentParts | routes/agreement.js:36-38 | both student fields are non-empty |
| Agreement.StudentPartsByComma | routes/agreement.js:36-38 | the name is the trimmed text before the first comma; the position is the trimmed text between the first and second commas, `"N/A"` without a comma; a blank part is `"N/A"` |
| Agreement.StudentPartsOf | routes/agreement.js:36-38 | with two commas, the fields are the trimmed texts before and between them |
| Agreement.StudentPartsOfPair | routes/agreement.js:36-38 | `name,position` without further commas gives the trimmed name and position, each `"N/A"` when blank |
| Agreement.StudentPartsIgnoreTail | routes/agreement.js:36-38 | the text after the second comma is ignored |
| Agreement.CompanyParts | routes/agreement.js:46-48 | both company fields are non-empty |
| Agreement.CompanyPartsOf | routes/agreement.js:46-48 | the first two non-blank lines, trimmed, are the name and the address; further lines are ignored |
| Agreement.CompanyPartsOneLine | routes/agreement.js:46-48 | a one-line block gives its line as the name (`"N/A"` when blank) and `"N/A"` as the address |
| Agreement.SupervisorParts | routes/agreement.js:57-60 | the three supervisor fields are non-empty |
| Agreement.SupervisorPartsOf | routes/agreement.js:57-60 | the 1st, 3rd and 4th non-blank lines, trimmed, are the name, the phone and the email; the 2nd line and any after the 4th are ignored |
| Agreement.ParseAgreement | routes/agreement.js:30-66 | the student, company and supervisor fields are never empty, and the start date, end date and working hours each lie within one line and are trimmed |
| AgreementLetter.ParseLetter | routes/agreement.js:30-66 | a letter laid out from the ten fields, each label on its own line with its value on the lines below, after any introduction of plain lines and before any text at all, is read back as exactly those ten fields |
| AgreementLetter.LineOfLines | routes/agreement.js:32 | the line pattern finds a label that stands alone on a line, below lines without it, and captures the whole next line when that line starts with a non-space character |
| AgreementLetter.BlockOfLines | routes/agreement.js:42 | the block pattern, with the opening label alone on a line and the closing label alone on the line after the block, captures the block's lines joined by newlines |
| AgreementLetter.CompanyOfBlock | routes/agreement.js:46-48 | a company block of two plain lines gives the name and the address |
| AgreementLetter.SupervisorOfBlock | routes/agreement.js:57-60 | a supervisor block of four plain lines gives the first, third and fourth as the name, the phone and the email |
| Upload.AcceptsFile | config/multer.js:24-28 | the filter accepts a name exactly when its last path component ends, after at least one other character, in an allowed extension in some mix of cases |
| Upload.Destination | config/multer.js:6-16 | field `resume` → `uploads/resumes`, `offer_letter` → `uploads/offerletters`, any other field → `uploads/other`, each an if-and-only-if |
| Upload.BaseName | config/multer.js:26 | the last path component holds no `/` |
| Upload.LastDot | config/multer.js:26 | the position of the last `.`, or none exactly when there is no `.` |
| Upload.Extension | config/multer.js:26 | the extension is a suffix of the component that is empty or starts with its only `.` |
| Upload.ExtName | config/multer.js:26 | `path.extname` is empty or a `.` followed by text without `.` or `/` |
| Upload.ExtensionIsSuffix | config/multer.js:26 | a non-empty extension starts at the last `.`, with something before it, in a component other than `..` |
| Upload.ExtensionUnique | config/multer.js:26 | any suffix with that shape is the extension |
| Upload.AcceptsBaseIff | config/multer.js:24-27 | a component is accepted exactly when it ends, after at least one other character, in an allowed extension in some mix of cases |
| Upload.NoExtensionRejected | config/multer.js:26-27 | a component without an extension is rejected |
| Upload.AcceptsIgnoresCase | config/multer.js:26 | names whose last components differ only in letter case are accepted or rejected together |
| Upload.AcceptsAnyCase | config/multer.js:26-27 | a name ending in `.pdf`, `.doc` or `.docx` in any letter case is accepted, such as `CV.PDF` or `x.DocX` |
| Upload.OnlyLastExtensionCounts | config/multer.js:26-27 | a name is accepted exactly when its last extension is allowed, whatever comes before it, so `a.pdf.exe` goes by `.exe` |
| Upload.ExeNotAllowed | config/multer.js:25-27 | no four-character extension whose first letter is `e` or `E` (such as `.exe` or `.EXE`) is allowed |
| Upload.RejectsNoExtension | config/multer.js:26-27 | a name without a `.` is rejected |
| Upload.RejectsDotFile | config/multer.js:26-27 | a dot-file such as `.pdf` has no extension and is rejected |
| Upload.ExtNameOfSuffix | config/multer.js:19 | a name that ends in an extension has that extension |
| Upload.DecimalString | config/multer.js:19 | the time is written as a non-empty run of digits without a leading zero |
| Upload.DecimalRoundTrip | config/multer.js:19 | reading the digits back gives the time |
| Upload.StoredName | config/multer.js:18-20 | the stored name starts with the time's digits and holds no `/` |
| Upload.StoredNameTime | config/multer.js:19 | the leading digits of the stored name read back as the upload time |
| Upload.StoredNameExtension | config/multer.js:19 | the stored name has the original name's extension, in its original case |
| Upload.StoredNameAccepted | config/multer.js:19 | the stored name passes the filter exactly when the original name does |

## Left out

- The floating-point end of `scoreText` (`Math.sqrt`, the division, routes/match.js:58-59) and `Math.round(raw * 100)` (routes/match.js:82). `Similarity` holds the three integer accumulators. The rounded per-job score is the parameter `round` of `Store.Run`. Lemmas about zero scores assume only that `round` maps an exactly-zero raw score to 0.
- JavaScript numbers are doubles, exact for integers only up to 2^53. The counts, the weighted sums `numerator`, `rMag` and `jMag`, and `Date.now()` are unbounded integers here. A text long enough to push a sum past 2^53 would round in JavaScript, which the model does not reproduce.
- The token `constructor` (and the other `Object.prototype` names). In JavaScript, `tf[w]` and `KEYWORD_WEIGHTS[w]` find the inherited property for such a token, which makes the score `NaN` (routes/match.js:27, 48). The model uses plain maps, where such a token counts like any other.
- Unicode case mapping. `toLowerCase` is modelled on ASCII letters only. A non-ASCII character whose lower-case form contains an ASCII letter (the Kelvin sign, the capital I with a dot above) is left as it is. `\s` is modelled with its full ECMAScript set. The `/i` label comparisons are exact: the labels are ASCII, and case-insensitive matching never maps a non-ASCII character to an ASCII one.
- The order in which `Object.keys` lists integer-like keys. The terms are iterated in first-occurrence order. The sums do not depend on that order (`ScoringLemmas.DotPermutation`).
- The `/history` query: the join, the filter on the recruiter's jobs and `ORDER BY matched_at` (routes/match.js:118-134). These are database semantics. Only the access guard is modelled.
- The database itself, sessions, rendering and the asynchronous sequencing of the handlers. The tables are fields of `Store`, and the queries are operations on them. Nothing runs concurrently in the modelled code.
- The match table is a sequence of rows. The waitlist is a sequence of entries rather than a set of ids, because the handler inserts a row and checks for one.
- The PDF template loading, form filling and file writing of routes/agreement.js:69-100 (pdf-lib and fs), and the student-role guard and offer-letter query before line 30.
- routes/auth.js, routes/resume.js, routes/offer.js, routes/job.js, server.js and config/db.js are not part of this model. They are thin wrappers over bcrypt, pdf-parse, mammoth, the file system, Express and MySQL. server.js does not mount the match and agreement routers.
- `Date.now()` (config/multer.js:19) is the parameter `now`. Number-to-string conversion is modelled for plain decimal digits only; JavaScript writes numbers of 10²¹ and above in exponent notation, far beyond any timestamp.
- Windows path handling in `path.extname`. The model follows the POSIX variant.
- Agreement.CompanyParts: its own contract states only that both fields are non-empty. Which lines it picks is stated by `CompanyPartsOf` (two leading non-blank lines), `CompanyPartsOneLine` and `AgreementLetter.CompanyOfBlock`. Together with `BlankLineIgnored`, these cover blank lines anywhere.
- Agreement.SupervisorParts: its own contract states only that the fields are non-empty. Which lines it picks is stated by `SupervisorPartsOf` for blocks with at least four non-blank lines. Shorter blocks, where `lines[2]` or `lines[3]` is missing and becomes `"N/A"`, follow from `LineOr` but have no lemma of their own.
- Agreement.StudentParts: its own contract states only that both fields are non-empty. What it computes is stated by `StudentPartsByComma`.
- Agreement.ParseAgreement: its own contract states only non-emptiness and single trimmed lines. Which text each field holds is stated by `AgreementLetter.ParseLetter`, for letters in the layout `AgreementLetter.Body` describes: each label alone on its line, each value a plain line holding none of the seven labels, and no comma in the student name or the position. Letters laid out otherwise, such as a value on the label's own line, are covered only by the per-pattern lemmas (`ValueLine`, `MatchBlockFirstLabel`, `CompanyPartsOf`, `SupervisorPartsOf`).
