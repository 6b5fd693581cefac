/**
 * The `/run/:resumeId` handler of routes/match.js over an in-memory store of
 * résumés, jobs, match rows and waitlist entries, and the role guard of
 * `/history`. The per-job score `Math.round(scoreText(...) * 100)` is floating
 * point; it enters as the parameter `round`, applied to what `scoreText`
 * divides (see Scoring.Similarity).
 */
module MatchRun {
  import opened Wrappers
  import opened Tokenizer
  import opened Scoring
  import opened Ranking
  import ScoringLemmas

  datatype Resume = Resume(id: nat, text: Option<string>)
  datatype Job = Job(id: nat, requirements: Option<string>, description: Option<string>)
  datatype MatchRow = MatchRow(resumeId: nat, jobId: nat, score: nat)
  datatype WaitEntry = WaitEntry(resumeId: nat, reason: string)

  /** 404 "Resume not found", the "no match" page, or the ranked results page. */
  datatype RunOutcome = ResumeNotFound | NoMatch | Ranked(results: seq<Scored<Job>>)

  const NoMatchReason: string := "No match found"

  /** `v || ''` for a nullable text column. */
  function OrEmpty(v: Option<string>): string {
    if v.Some? then v.value else ""
  }

  function ResumeText(r: Resume): string {
    OrEmpty(r.text)
  }

  /** `${job.requirements || ''} ${job.description || ''}`: never empty. */
  function JobText(job: Job): (t: string)
    ensures ' ' in t
  {
    var t := OrEmpty(job.requirements) + " " + OrEmpty(job.description);
    assert t[|OrEmpty(job.requirements)|] == ' ';
    t
  }

  /** `SELECT * FROM resumes WHERE id = ?`, first row. */
  function FindResume(resumes: seq<Resume>, id: nat): (r: Option<Resume>)
    ensures r.Some? ==> r.value in resumes && r.value.id == id
    ensures r.None? ==> forall k :: 0 <= k < |resumes| ==> resumes[k].id != id
  {
    if resumes == [] then None
    else if resumes[0].id == id then Some(resumes[0])
    else FindResume(resumes[1..], id)
  }

  /** The rounded score of one job for a résumé text. */
  function JobScore(text: string, job: Job, round: Similarity -> nat): nat {
    round(SimilarityOf(text, JobText(job)))
  }

  /** The per-job score the loop computes for a résumé text. */
  function ScoreFor(text: string, round: Similarity -> nat): Job -> nat {
    job => JobScore(text, job, round)
  }

  /** The results the job loop collects for the per-job scores `score`: the jobs with a
      positive score, in load order. */
  function HitsBy(jobs: seq<Job>, score: Job -> nat): (hits: seq<Scored<Job>>)
    ensures |hits| <= |jobs|
    ensures forall i :: 0 <= i < |hits| ==>
      hits[i].item in jobs && hits[i].score == score(hits[i].item) && hits[i].score > 0
  {
    if jobs == [] then []
    else
      var prev := HitsBy(jobs[..|jobs| - 1], score);
      var job := jobs[|jobs| - 1];
      if score(job) > 0 then prev + [Scored(job, score(job))] else prev
  }

  /** The results the job loop collects for a résumé text. */
  function Hits(text: string, jobs: seq<Job>, round: Similarity -> nat): (hits: seq<Scored<Job>>)
    ensures forall i :: 0 <= i < |hits| ==> hits[i].score > 0
  {
    HitsBy(jobs, ScoreFor(text, round))
  }

  /** The match rows inserted for the hits, in order. */
  function RowsFor(rid: nat, hits: seq<Scored<Job>>): seq<MatchRow> {
    seq(|hits|, i requires 0 <= i < |hits| => MatchRow(rid, hits[i].item.id, hits[i].score))
  }

  /** `DELETE FROM matches WHERE resume_id = ?`: the rows of other résumés, in order. */
  function Without(rows: seq<MatchRow>, rid: nat): (r: seq<MatchRow>)
    ensures forall row :: row in r <==> row in rows && row.resumeId != rid
  {
    if rows == [] then []
    else (if rows[0].resumeId == rid then [] else [rows[0]]) + Without(rows[1..], rid)
  }

  /** The rows of one résumé, in order. */
  function ForResume(rows: seq<MatchRow>, rid: nat): seq<MatchRow> {
    if rows == [] then []
    else (if rows[0].resumeId == rid then [rows[0]] else []) + ForResume(rows[1..], rid)
  }

  /** The number of rows for a job. */
  function CountJob(rows: seq<MatchRow>, jobId: nat): nat {
    if rows == [] then 0
    else (if rows[0].jobId == jobId then 1 else 0) + CountJob(rows[1..], jobId)
  }

  /** `SELECT * FROM waitlist WHERE resume_id = ?` found a row: a scan that answers
      whether some entry has the id. */
  function HasEntry(waitlist: seq<WaitEntry>, rid: nat): (found: bool)
    ensures found <==> exists k :: 0 <= k < |waitlist| && waitlist[k].resumeId == rid
  {
    if waitlist == [] then false
    else waitlist[0].resumeId == rid || HasEntry(waitlist[1..], rid)
  }

  /** The match table after a run for a résumé that exists: every row of another
      résumé is kept, and every row of this résumé is a new one with a positive score. */
  function RunMatches(rows: seq<MatchRow>, rid: nat, text: string, jobs: seq<Job>, round: Similarity -> nat): (r: seq<MatchRow>)
    ensures forall row :: row in rows && row.resumeId != rid ==> row in r
    ensures forall row :: row in r ==> (row in rows && row.resumeId != rid) || (row.resumeId == rid && row.score > 0)
  {
    var hits := Hits(text, jobs, round);
    var r := Without(rows, rid) + RowsFor(rid, hits);
    assert forall row :: row in RowsFor(rid, hits) ==> row.resumeId == rid && row.score > 0 by {
      forall row | row in RowsFor(rid, hits) ensures row.resumeId == rid && row.score > 0 {
        var i :| 0 <= i < |hits| && RowsFor(rid, hits)[i] == row;
      }
    }
    r
  }

  /** The waitlist after a run: one entry added when nothing matched and none exists.
      No entry is removed, at most one is added, and the résumé is on the list
      afterwards exactly when it was before or nothing matched. */
  function RunWaitlist(waitlist: seq<WaitEntry>, rid: nat, noMatch: bool): (r: seq<WaitEntry>)
    ensures waitlist <= r && |r| <= |waitlist| + 1
    ensures HasEntry(r, rid) <==> HasEntry(waitlist, rid) || noMatch
  {
    if noMatch && !HasEntry(waitlist, rid) then
      var r := waitlist + [WaitEntry(rid, NoMatchReason)];
      assert r[|waitlist|].resumeId == rid;
      r
    else waitlist
  }

  /** What the handler renders for a résumé that exists. */
  function RunOutcomeOf(text: string, jobs: seq<Job>, round: Similarity -> nat): RunOutcome {
    var hits := Hits(text, jobs, round);
    if hits == [] then NoMatch else Ranked(SortByScoreDesc(hits))
  }

  /** The tables the handler reads and writes. */
  class Store {
    var resumes: seq<Resume>
    var jobs: seq<Job>
    var matches: seq<MatchRow>
    var waitlist: seq<WaitEntry>

    constructor (resumes: seq<Resume>, jobs: seq<Job>, matches: seq<MatchRow>, waitlist: seq<WaitEntry>)
      ensures this.resumes == resumes && this.jobs == jobs
      ensures this.matches == matches && this.waitlist == waitlist
    {
      this.resumes := resumes;
      this.jobs := jobs;
      this.matches := matches;
      this.waitlist := waitlist;
    }

    method DeleteMatches(rid: nat)
      modifies this`matches
      ensures matches == Without(old(matches), rid)
    {
      matches := Without(matches, rid);
    }

    method InsertMatch(row: MatchRow)
      modifies this`matches
      ensures matches == old(matches) + [row]
    {
      matches := matches + [row];
    }

    method InsertWaitlist(entry: WaitEntry)
      modifies this`waitlist
      ensures waitlist == old(waitlist) + [entry]
    {
      waitlist := waitlist + [entry];
    }

    /** `Math.round(scoreText(text, jobText) * 100)` for one job. */
    static method ScoreJob(text: string, job: Job, round: Similarity -> nat) returns (score: nat)
      ensures score == JobScore(text, job, round)
    {
      var raw := ScoreText(text, JobText(job));
      score := round(raw);
    }

    /** The job loop: score every job, insert a row and collect a result for each
        positive score. */
    method ScoreJobs(rid: nat, text: string, round: Similarity -> nat) returns (results: seq<Scored<Job>>)
      modifies this`matches
      ensures results == Hits(text, jobs, round)
      ensures matches == old(matches) + RowsFor(rid, results)
    {
      results := [];
      for i := 0 to |jobs|
        invariant results == Hits(text, jobs[..i], round)
        invariant matches == old(matches) + RowsFor(rid, results)
      {
        HitsStep(jobs, i, ScoreFor(text, round));
        ghost var score := JobScore(text, jobs[i], round);
        RowsForStep(rid, results, jobs[i], score, old(matches));
        results := ScoreOne(rid, text, jobs[i], round, results);
      }
      assert jobs[..|jobs|] == jobs;
    }

    /** One iteration of the job loop: a job with a positive score gets a row and a
        result; a job scoring 0 changes nothing. */
    method ScoreOne(rid: nat, text: string, job: Job, round: Similarity -> nat, results: seq<Scored<Job>>)
      returns (results': seq<Scored<Job>>)
      modifies this`matches
      ensures var score := JobScore(text, job, round);
        && results' == (if score > 0 then results + [Scored(job, score)] else results)
        && matches == old(matches) + (if score > 0 then [MatchRow(rid, job.id, score)] else [])
    {
      var score := ScoreJob(text, job, round);
      results' := results;
      if score > 0 {
        InsertMatch(MatchRow(rid, job.id, score));
        results' := results + [Scored(job, score)];
      }
    }

    /** `GET /run/:resumeId`. */
    method Run(rid: nat, round: Similarity -> nat) returns (outcome: RunOutcome)
      modifies this`matches, this`waitlist
      ensures FindResume(resumes, rid).None? ==>
        outcome == ResumeNotFound && matches == old(matches) && waitlist == old(waitlist)
      ensures FindResume(resumes, rid).Some? ==>
        var text := ResumeText(FindResume(resumes, rid).value);
        && matches == RunMatches(old(matches), rid, text, jobs, round)
        && waitlist == RunWaitlist(old(waitlist), rid, Hits(text, jobs, round) == [])
        && outcome == RunOutcomeOf(text, jobs, round)
    {
      var found := FindResume(resumes, rid);
      if found.None? {
        return ResumeNotFound;
      }
      outcome := RunFound(rid, ResumeText(found.value), round);
    }

    /** The handler once the résumé is found: replace its match rows, put it on the
        waitlist when nothing matched, and render the ranked results. */
    method RunFound(rid: nat, text: string, round: Similarity -> nat) returns (outcome: RunOutcome)
      modifies this`matches, this`waitlist
      ensures matches == RunMatches(old(matches), rid, text, jobs, round)
      ensures waitlist == RunWaitlist(old(waitlist), rid, Hits(text, jobs, round) == [])
      ensures outcome == RunOutcomeOf(text, jobs, round)
    {
      DeleteMatches(rid);
      var results := ScoreJobs(rid, text, round);
      assert matches == RunMatches(old(matches), rid, text, jobs, round);
      if |results| == 0 {
        if !HasEntry(waitlist, rid) {
          InsertWaitlist(WaitEntry(rid, NoMatchReason));
        }
        assert waitlist == RunWaitlist(old(waitlist), rid, true);
        return NoMatch;
      }
      assert waitlist == RunWaitlist(old(waitlist), rid, false);
      outcome := Ranked(SortByScoreDesc(results));
    }
  }

  // --------------------------------------------------------------- lemmas

  /** The match table keeps pace with the results as the job loop appends to both. */
  lemma RowsForStep(rid: nat, results: seq<Scored<Job>>, job: Job, score: nat, start: seq<MatchRow>)
    ensures start + RowsFor(rid, results) + (if score > 0 then [MatchRow(rid, job.id, score)] else [])
         == start + RowsFor(rid, if score > 0 then results + [Scored(job, score)] else results)
  {
    if score > 0 {
      RowsForAppend(rid, results, Scored(job, score));
    }
  }

  /** One more job scored: the hits grow by that job exactly when its score is positive. */
  lemma HitsStep(jobs: seq<Job>, i: nat, score: Job -> nat)
    requires i < |jobs|
    ensures HitsBy(jobs[..i + 1], score) ==
      if score(jobs[i]) > 0 then HitsBy(jobs[..i], score) + [Scored(jobs[i], score(jobs[i]))] else HitsBy(jobs[..i], score)
  {
    assert jobs[..i + 1][..i] == jobs[..i];
  }

  /** The hits of two job lists loaded one after the other are the hits of the first
      followed by those of the second: the results keep job load order. */
  lemma {:induction false} HitsByAppend(a: seq<Job>, b: seq<Job>, score: Job -> nat)
    ensures HitsBy(a + b, score) == HitsBy(a, score) + HitsBy(b, score)
    decreases |b|
  {
    if b == [] {
      assert a + b == a;
    } else {
      var b' := b[..|b| - 1];
      var job := b[|b| - 1];
      assert (a + b)[..|a + b| - 1] == a + b' && (a + b)[|a + b| - 1] == job;
      HitsByAppend(a, b', score);
    }
  }

  /** A single job is a hit, with its own score, exactly when that score is positive;
      with HitsByAppend this gives the hits of any job list. */
  lemma HitsByOne(job: Job, score: Job -> nat)
    ensures HitsBy([job], score) == if score(job) > 0 then [Scored(job, score(job))] else []
  {
    assert [job][..0] == [];
  }

  /** Every job with a positive score is among the hits, with that score. */
  lemma {:induction false} HitsByComplete(jobs: seq<Job>, score: Job -> nat, job: Job)
    requires job in jobs && score(job) > 0
    ensures Scored(job, score(job)) in HitsBy(jobs, score)
  {
    var prefix := jobs[..|jobs| - 1];
    if job != jobs[|jobs| - 1] {
      assert job in prefix by {
        var k :| 0 <= k < |jobs| && jobs[k] == job;
        assert prefix[k] == job;
      }
      HitsByComplete(prefix, score, job);
    }
  }

  lemma RowsForAppend(rid: nat, hits: seq<Scored<Job>>, hit: Scored<Job>)
    ensures RowsFor(rid, hits + [hit]) == RowsFor(rid, hits) + [MatchRow(rid, hit.item.id, hit.score)]
  {
  }

  lemma {:induction false} WithoutAppend(a: seq<MatchRow>, b: seq<MatchRow>, rid: nat)
    ensures Without(a + b, rid) == Without(a, rid) + Without(b, rid)
  {
    if a == [] {
      assert a + b == b;
    } else {
      var h := (if a[0].resumeId == rid then [] else [a[0]]);
      assert (a + b)[0] == a[0] && (a + b)[1..] == a[1..] + b;
      assert Without(a + b, rid) == h + Without(a[1..] + b, rid);
      WithoutAppend(a[1..], b, rid);
      AppendGlue(Without(a + b, rid), Without(a, rid), h, Without(a[1..], rid), Without(b, rid), Without(a[1..] + b, rid));
    }
  }

  /** Regrouping one step of a filter over a concatenation. */
  lemma AppendGlue<T>(whole: seq<T>, left: seq<T>, h: seq<T>, x: seq<T>, y: seq<T>, xy: seq<T>)
    requires whole == h + xy && xy == x + y && left == h + x
    ensures whole == left + y
  {
  }

  lemma {:induction false} ForResumeAppend(a: seq<MatchRow>, b: seq<MatchRow>, rid: nat)
    ensures ForResume(a + b, rid) == ForResume(a, rid) + ForResume(b, rid)
  {
    if a == [] {
      assert a + b == b;
    } else {
      var h := (if a[0].resumeId == rid then [a[0]] else []);
      assert (a + b)[0] == a[0] && (a + b)[1..] == a[1..] + b;
      assert ForResume(a + b, rid) == h + ForResume(a[1..] + b, rid);
      ForResumeAppend(a[1..], b, rid);
      AppendGlue(ForResume(a + b, rid), ForResume(a, rid), h, ForResume(a[1..], rid), ForResume(b, rid), ForResume(a[1..] + b, rid));
    }
  }

  lemma {:induction false} WithoutOwn(rows: seq<MatchRow>, rid: nat)
    requires forall k :: 0 <= k < |rows| ==> rows[k].resumeId == rid
    ensures Without(rows, rid) == []
    ensures ForResume(rows, rid) == rows
  {
    if rows != [] {
      WithoutOwn(rows[1..], rid);
    }
  }

  lemma {:induction false} ForResumeOther(rows: seq<MatchRow>, rid: nat, other: nat)
    requires other != rid
    ensures ForResume(Without(rows, rid), rid) == []
    ensures ForResume(Without(rows, rid), other) == ForResume(rows, other)
    ensures ForResume(RowsFor(rid, []), other) == []
  {
    if rows != [] {
      ForResumeOther(rows[1..], rid, other);
      ForResumeAppend(if rows[0].resumeId == rid then [] else [rows[0]], Without(rows[1..], rid), rid);
      ForResumeAppend(if rows[0].resumeId == rid then [] else [rows[0]], Without(rows[1..], rid), other);
    }
  }

  lemma {:induction false} ForResumeOfOthers(rows: seq<MatchRow>, other: nat)
    requires forall k :: 0 <= k < |rows| ==> rows[k].resumeId != other
    ensures ForResume(rows, other) == []
  {
    if rows != [] {
      ForResumeOfOthers(rows[1..], other);
    }
  }

  /** A run removes every earlier row of the résumé and stores exactly the new ones,
      and leaves the rows of every other résumé as they were. */
  lemma RunReplacesOnlyOwnRows(rows: seq<MatchRow>, rid: nat, text: string, jobs: seq<Job>, round: Similarity -> nat, other: nat)
    requires other != rid
    ensures ForResume(RunMatches(rows, rid, text, jobs, round), rid) == RowsFor(rid, Hits(text, jobs, round))
    ensures ForResume(RunMatches(rows, rid, text, jobs, round), other) == ForResume(rows, other)
  {
    var newRows := RowsFor(rid, Hits(text, jobs, round));
    ForResumeAppend(Without(rows, rid), newRows, rid);
    ForResumeAppend(Without(rows, rid), newRows, other);
    ForResumeOther(rows, rid, other);
    WithoutOwn(newRows, rid);
    ForResumeOfOthers(newRows, other);
  }

  /** Re-running with unchanged inputs leaves the same match table. */
  lemma RunMatchesIdempotent(rows: seq<MatchRow>, rid: nat, text: string, jobs: seq<Job>, round: Similarity -> nat)
    ensures RunMatches(RunMatches(rows, rid, text, jobs, round), rid, text, jobs, round)
         == RunMatches(rows, rid, text, jobs, round)
  {
    var newRows := RowsFor(rid, Hits(text, jobs, round));
    assert RunMatches(rows, rid, text, jobs, round) == Without(rows, rid) + newRows;
    ReplaceTwice(rows, rid, newRows);
  }

  /** Deleting a résumé's rows and appending new ones of its own, twice, is doing it once. */
  lemma ReplaceTwice(rows: seq<MatchRow>, rid: nat, newRows: seq<MatchRow>)
    requires forall k :: 0 <= k < |newRows| ==> newRows[k].resumeId == rid
    ensures Without(Without(rows, rid) + newRows, rid) + newRows == Without(rows, rid) + newRows
  {
    var kept := Without(rows, rid);
    WithoutAppend(kept, newRows, rid);
    WithoutTwice(rows, rid);
    WithoutOwn(newRows, rid);
    EmptyTail(Without(kept + newRows, rid), Without(kept, rid), Without(newRows, rid), kept);
  }

  /** Regrouping: appending nothing. */
  lemma EmptyTail<T>(whole: seq<T>, x: seq<T>, empty: seq<T>, y: seq<T>)
    requires whole == x + empty && empty == [] && x == y
    ensures whole == y
  {
  }

  lemma {:induction false} WithoutTwice(rows: seq<MatchRow>, rid: nat)
    ensures Without(Without(rows, rid), rid) == Without(rows, rid)
  {
    if rows != [] {
      WithoutTwice(rows[1..], rid);
      WithoutAppend(if rows[0].resumeId == rid then [] else [rows[0]], Without(rows[1..], rid), rid);
    }
  }

  lemma {:induction false} CountJobAppend(a: seq<MatchRow>, b: seq<MatchRow>, jobId: nat)
    ensures CountJob(a + b, jobId) == CountJob(a, jobId) + CountJob(b, jobId)
  {
    if a == [] {
      assert a + b == b;
    } else {
      assert (a + b)[0] == a[0] && (a + b)[1..] == a[1..] + b;
      assert CountJob(a + b, jobId) == (if a[0].jobId == jobId then 1 else 0) + CountJob(a[1..] + b, jobId);
      CountJobAppend(a[1..], b, jobId);
      assert CountJob(a, jobId) == (if a[0].jobId == jobId then 1 else 0) + CountJob(a[1..], jobId);
    }
  }

  /** Some job with this id has a positive score. */
  predicate IdScores(jobs: seq<Job>, score: Job -> nat, jobId: nat) {
    exists k :: 0 <= k < |jobs| && jobs[k].id == jobId && score(jobs[k]) > 0
  }

  /** With distinct job ids, the rows for the hits hold one row for a job id exactly when
      that job scores above 0. */
  lemma {:induction false} HitsRows(rid: nat, jobs: seq<Job>, score: Job -> nat, jobId: nat)
    requires forall i, j :: 0 <= i < j < |jobs| ==> jobs[i].id != jobs[j].id
    ensures CountJob(RowsFor(rid, HitsBy(jobs, score)), jobId) == if IdScores(jobs, score, jobId) then 1 else 0
  {
    if jobs != [] {
      var p := jobs[..|jobs| - 1];
      var job := jobs[|jobs| - 1];
      var prev := HitsBy(p, score);
      assert HitsBy(jobs, score) == if score(job) > 0 then prev + [Scored(job, score(job))] else prev;
      HitsRows(rid, p, score, jobId);
      var before := CountJob(RowsFor(rid, prev), jobId);
      var last := if score(job) > 0 && job.id == jobId then 1 else 0;
      assert CountJob(RowsFor(rid, HitsBy(jobs, score)), jobId) == before + last by {
        if score(job) > 0 {
          var row := MatchRow(rid, job.id, score(job));
          RowsForAppend(rid, prev, Scored(job, score(job)));
          CountJobAppend(RowsFor(rid, prev), [row], jobId);
          assert [row][1..] == [];
        }
      }
      ScoresStep(jobs, score, jobId);
      if job.id == jobId {
        forall k | 0 <= k < |p|
          ensures p[k].id != jobId
        {
          assert jobs[k].id != jobs[|jobs| - 1].id;
        }
        assert !IdScores(p, score, jobId);
      }
    }
  }

  /** One more job: some job with the id scores exactly when an earlier one does or
      the new one does. */
  lemma ScoresStep(jobs: seq<Job>, score: Job -> nat, jobId: nat)
    requires jobs != []
    ensures var last := jobs[|jobs| - 1];
      IdScores(jobs, score, jobId) <==>
        IdScores(jobs[..|jobs| - 1], score, jobId) || (last.id == jobId && score(last) > 0)
  {
    var p := jobs[..|jobs| - 1];
    if IdScores(p, score, jobId) {
      var k :| 0 <= k < |p| && p[k].id == jobId && score(p[k]) > 0;
      assert jobs[k] == p[k];
    }
    if IdScores(jobs, score, jobId) {
      var k :| 0 <= k < |jobs| && jobs[k].id == jobId && score(jobs[k]) > 0;
      if k < |p| {
        assert p[k] == jobs[k];
      }
    }
  }

  /** With distinct job ids, the résumé has exactly one row per job with a positive
      score and none for a job scoring 0; every stored row has a positive score. */
  lemma OneRowPerScoringJob(rows: seq<MatchRow>, rid: nat, text: string, jobs: seq<Job>, round: Similarity -> nat, k: nat)
    requires forall i, j :: 0 <= i < j < |jobs| ==> jobs[i].id != jobs[j].id
    requires k < |jobs|
    ensures CountJob(ForResume(RunMatches(rows, rid, text, jobs, round), rid), jobs[k].id)
         == if JobScore(text, jobs[k], round) > 0 then 1 else 0
    ensures forall m :: 0 <= m < |ForResume(RunMatches(rows, rid, text, jobs, round), rid)| ==>
      ForResume(RunMatches(rows, rid, text, jobs, round), rid)[m].score > 0
  {
    var score := ScoreFor(text, round);
    RunReplacesOnlyOwnRows(rows, rid, text, jobs, round, rid + 1);
    HitsRows(rid, jobs, score, jobs[k].id);
    if IdScores(jobs, score, jobs[k].id) {
      var k' :| 0 <= k' < |jobs| && jobs[k'].id == jobs[k].id && score(jobs[k']) > 0;
      assert k' == k;
    }
    assert score(jobs[k]) == JobScore(text, jobs[k], round);
  }

  /** The route's job text is never empty, so the early return of `scoreText` is
      taken exactly when the résumé text is empty. */
  lemma EarlyReturnOnlyForEmptyResume(text: string, job: Job)
    ensures SimilarityOf(text, JobText(job)).EmptyInput? <==> text == []
  {
  }

  /** A job sharing no token with the résumé scores 0 and is neither stored nor
      returned, for any rounding that maps a zero raw score to 0. */
  lemma UnrelatedJobScoresZero(text: string, job: Job, round: Similarity -> nat)
    requires forall s :: RawScoreIsZero(s) ==> round(s) == 0
    requires forall w :: w in Tokenize(text) ==> w !in Tokenize(JobText(job))
    ensures JobScore(text, job, round) == 0
  {
    if text != [] {
      ScoringLemmas.NumeratorZeroIffNoSharedToken(text, JobText(job));
    }
  }

  predicate UniqueWaitlist(waitlist: seq<WaitEntry>) {
    forall i, j :: 0 <= i < j < |waitlist| ==> waitlist[i].resumeId != waitlist[j].resumeId
  }

  function CountEntries(waitlist: seq<WaitEntry>, rid: nat): nat {
    if waitlist == [] then 0
    else CountEntries(waitlist[..|waitlist| - 1], rid) + (if waitlist[|waitlist| - 1].resumeId == rid then 1 else 0)
  }

  /** A run never removes a waitlist entry and never creates a second entry for a
      résumé: the existence check keeps at most one entry per résumé. */
  lemma WaitlistPreserved(waitlist: seq<WaitEntry>, rid: nat, noMatch: bool)
    ensures waitlist <= RunWaitlist(waitlist, rid, noMatch)
    ensures UniqueWaitlist(waitlist) ==> UniqueWaitlist(RunWaitlist(waitlist, rid, noMatch))
  {
  }

  lemma {:induction false} CountEntriesZero(waitlist: seq<WaitEntry>, rid: nat)
    requires !HasEntry(waitlist, rid)
    ensures CountEntries(waitlist, rid) == 0
  {
    if waitlist != [] {
      var p := waitlist[..|waitlist| - 1];
      assert !HasEntry(p, rid) by {
        assert forall k :: 0 <= k < |p| ==> p[k] == waitlist[k];
      }
      CountEntriesZero(p, rid);
    }
  }

  lemma {:induction false} CountEntriesUnique(waitlist: seq<WaitEntry>, rid: nat)
    requires UniqueWaitlist(waitlist) && HasEntry(waitlist, rid)
    ensures CountEntries(waitlist, rid) == 1
  {
    var p := waitlist[..|waitlist| - 1];
    var last := waitlist[|waitlist| - 1];
    assert forall k :: 0 <= k < |p| ==> p[k] == waitlist[k];
    if last.resumeId == rid {
      assert !HasEntry(p, rid);
      CountEntriesZero(p, rid);
    } else {
      CountEntriesUnique(p, rid);
    }
  }

  /** After a run in which nothing matched, a waitlist that had at most one entry per
      résumé holds exactly one entry for this résumé; so two such runs in a row leave
      one entry, not two. */
  lemma NoMatchLeavesOneEntry(waitlist: seq<WaitEntry>, rid: nat)
    requires UniqueWaitlist(waitlist)
    ensures CountEntries(RunWaitlist(waitlist, rid, true), rid) == 1
    ensures RunWaitlist(RunWaitlist(waitlist, rid, true), rid, true) == RunWaitlist(waitlist, rid, true)
  {
    var after := RunWaitlist(waitlist, rid, true);
    assert HasEntry(after, rid) by {
      if !HasEntry(waitlist, rid) {
        assert after[|waitlist|].resumeId == rid;
      }
    }
    CountEntriesUnique(after, rid);
  }

  /** The outcome: "no match" exactly when no job scored above 0; otherwise the hits,
      all positive, in non-increasing score order, ties in job load order. */
  lemma RankedResults(text: string, jobs: seq<Job>, round: Similarity -> nat)
    ensures RunOutcomeOf(text, jobs, round).NoMatch? <==> Hits(text, jobs, round) == []
    ensures RunOutcomeOf(text, jobs, round).Ranked? ==>
      var r := RunOutcomeOf(text, jobs, round).results;
      && SortedDesc(r)
      && multiset(r) == multiset(Hits(text, jobs, round))
      && (forall v :: WithScore(r, v) == WithScore(Hits(text, jobs, round), v))
      && (forall i :: 0 <= i < |r| ==> r[i].score > 0)
  {
    var hits := Hits(text, jobs, round);
    if hits != [] {
      var r := SortByScoreDesc(hits);
      forall v ensures WithScore(r, v) == WithScore(hits, v) {
        SortStable(hits, v);
      }
      forall i | 0 <= i < |r| ensures r[i].score > 0 {
        assert r[i] in multiset(hits);
      }
    }
  }

  // ------------------------------------------------------------- /history

  datatype User = User(id: nat, role: string)

  /** 403 "Access denied", or the query of the matches on the recruiter's own jobs. */
  datatype HistoryAccess = AccessDenied | OwnerQuery(recruiterId: nat)

  /** The guard of `GET /history`: only a signed-in recruiter gets past, and the query
      is then keyed by that recruiter's own id. */
  function HistoryGuard(user: Option<User>): (r: HistoryAccess)
    ensures r.OwnerQuery? <==> user.Some? && user.value.role == "recruiter"
    ensures r.OwnerQuery? ==> r.recruiterId == user.value.id
  {
    if user.None? || user.value.role != "recruiter" then AccessDenied else OwnerQuery(user.value.id)
  }
}
