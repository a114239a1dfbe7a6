/**
 * Two pages of the web frontend: the list of analysed repositories, which
 * keeps every repository with a finished (DONE) job together with its
 * latest such job, and the page of one analysis, which shows the document
 * only for a finished job.
 *
 * The backend's answers come in as parameters: the repository listing
 * (or the exception raised while fetching or reading it), the job and the
 * document replies (or the exceptions their requests raised). Whether the session holds a token is `loggedIn`.
 */
module Frontend {
  import opened Results
  import opened Models
  import opened Analyses

  /** The status name of a finished job, as the JSON carries it. */
  const DONE_STATUS: string := "DONE"

  const LISTING_FAILED_FLASH: string := "Error fetching repositories"
  const JOB_NOT_FOUND_FLASH: string := "Analysis Job not found"

  /** What the page flashes before the text of an exception. */
  const ERROR_FLASH_PREFIX: string := "Error: "

  /** A job as the backend's JSON shows it. */
  datatype JobJson = JobJson(id: int, status: string)

  /** A repository as the listing shows it; `jobs` is `None` when the key is missing. */
  datatype RepoJson = RepoJson(id: int, fullName: string, url: string, jobs: Option<seq<JobJson>>)

  /** One item of `analyzed_list`: a repository and its latest finished job. */
  datatype Entry = Entry(repo: RepoJson, lastJob: JobJson)

  /** How fetching and reading the repository listing went. */
  datatype Listing = ListingRaised(message: string) | Listed(status: nat, repos: seq<RepoJson>)

  /** What `analyzed_repos` answers: a redirect, or the page with its list. */
  datatype AnalyzedPage = ToLogin | ToDashboard(flash: string) | AnalyzedList(entries: seq<Entry>)

  /** `repo.get("jobs", [])`. */
  function JobsOf(r: RepoJson): seq<JobJson>
  {
    match r.jobs
    case None => []
    case Some(jobs) => jobs
  }

  /** `[j for j in jobs if j["status"] == "DONE"]`. */
  function DoneJobs(jobs: seq<JobJson>): (r: seq<JobJson>)
    ensures forall j :: j in r <==> j in jobs && j.status == DONE_STATUS
    ensures |r| <= |jobs|
  {
    if jobs == [] then []
    else (if jobs[0].status == DONE_STATUS then [jobs[0]] else []) + DoneJobs(jobs[1..])
  }

  /**
   * Where the first item lands after sorting by id, largest first: the
   * sort is stable, so it is the earliest of the jobs with the largest id.
   */
  function LatestIndex(jobs: seq<JobJson>): (i: nat)
    requires jobs != []
    ensures i < |jobs|
    ensures forall j :: j in jobs ==> j.id <= jobs[i].id
    ensures forall k :: 0 <= k < i ==> jobs[k].id < jobs[i].id
  {
    if |jobs| == 1 then 0
    else
      var tail := jobs[1..];
      var i := LatestIndex(tail);
      assert forall k :: 1 <= k < |jobs| ==> jobs[k] == tail[k - 1];
      if jobs[0].id >= tail[i].id then 0 else i + 1
  }

  /** `sorted(valid_jobs, key=id, reverse=True)[0]`. */
  function Latest(jobs: seq<JobJson>): (r: JobJson)
    requires jobs != []
    ensures r in jobs
    ensures forall j :: j in jobs ==> j.id <= r.id
  {
    jobs[LatestIndex(jobs)]
  }

  /** What the loop appends for one repository: its entry, when it has a DONE job. */
  function EntryFor(repo: RepoJson): (r: seq<Entry>)
    ensures |r| <= 1
  {
    var valid := DoneJobs(JobsOf(repo));
    if valid != [] then [Entry(repo, Latest(valid))] else []
  }

  /**
   * The entry for a repository names it, and its job is the DONE job of
   * that repository with the largest id; there is one exactly when the
   * repository has a DONE job.
   */
  lemma EntryForFacts(repo: RepoJson)
    ensures EntryFor(repo) != [] <==> exists j :: j in JobsOf(repo) && j.status == DONE_STATUS
    ensures forall e :: e in EntryFor(repo) ==>
      && e.repo == repo
      && e.lastJob in JobsOf(repo) && e.lastJob.status == DONE_STATUS
      && forall j :: j in JobsOf(repo) && j.status == DONE_STATUS ==> j.id <= e.lastJob.id
  {
    var valid := DoneJobs(JobsOf(repo));
    if exists j :: j in JobsOf(repo) && j.status == DONE_STATUS {
      var j :| j in JobsOf(repo) && j.status == DONE_STATUS;
      assert j in valid;
    }
  }

  /** The entries the loop appends for `repos`, in order. */
  function Selection(repos: seq<RepoJson>): (r: seq<Entry>)
    ensures |r| <= |repos|
  {
    if repos == [] then []
    else EntryFor(repos[0]) + Selection(repos[1..])
  }

  /**
   * `analyzed_repos()`: without a token, to the login page; when the
   * listing raises, to the dashboard with the exception's text; when it
   * answers other than 200, to the dashboard with a fixed message; else
   * the page listing `Selection` of the repositories.
   */
  method AnalyzedRepos(loggedIn: bool, listing: Listing) returns (page: AnalyzedPage)
    ensures !loggedIn ==> page == ToLogin
    ensures loggedIn && listing.ListingRaised? ==> page == ToDashboard(ERROR_FLASH_PREFIX + listing.message)
    ensures loggedIn && listing.Listed? && listing.status != 200 ==> page == ToDashboard(LISTING_FAILED_FLASH)
    ensures loggedIn && listing.Listed? && listing.status == 200 ==> page == AnalyzedList(Selection(listing.repos))
  {
    if !loggedIn {
      return ToLogin;
    }
    if listing.ListingRaised? {
      return ToDashboard(ERROR_FLASH_PREFIX + listing.message);
    }
    if listing.status != 200 {
      return ToDashboard(LISTING_FAILED_FLASH);
    }
    var analyzed := SelectAnalyzed(listing.repos);
    page := AnalyzedList(analyzed);
  }

  /** The loop of `analyzed_repos` over the listed repositories. */
  method SelectAnalyzed(allRepos: seq<RepoJson>) returns (analyzed: seq<Entry>)
    ensures analyzed == Selection(allRepos)
  {
    analyzed := [];
    for i := 0 to |allRepos|
      invariant analyzed == Selection(allRepos[..i])
    {
      var repo := allRepos[i];
      SelectionStep(allRepos, i);
      var valid := DoneJobs(JobsOf(repo));
      if valid != [] {
        var lastJob := Latest(valid);
        analyzed := analyzed + [Entry(repo, lastJob)];
      }
    }
    assert allRepos[..|allRepos|] == allRepos;
  }

  /** Appending a repository appends its `EntryFor`. */
  lemma SelectionSnoc(xs: seq<RepoJson>, x: RepoJson)
    ensures Selection(xs + [x]) == Selection(xs) + EntryFor(x)
  {
    SelectionAppend(xs, [x]);
    assert [x][1..] == [];
  }

  /** One more repository adds its `EntryFor` to the selection. */
  lemma SelectionStep(repos: seq<RepoJson>, i: nat)
    requires i < |repos|
    ensures Selection(repos[..i + 1]) == Selection(repos[..i]) + EntryFor(repos[i])
  {
    assert repos[..i + 1] == repos[..i] + [repos[i]];
    SelectionSnoc(repos[..i], repos[i]);
  }

  /**
   * A job answer from the backend: its HTTP status and the job's JSON, or
   * the exception `requests.get` raised when the backend was unreachable.
   */
  datatype JobReply = JobReply(status: nat, job: JobJson) | JobRequestRaised(message: string)

  /** A document answer: its HTTP status and the `markdown` key when present, or the exception raised. */
  datatype DocReply = DocReply(status: nat, markdown: Option<string>) | DocRequestRaised(message: string)

  /**
   * What `view_analysis` answers: a redirect, the page with the job and its
   * document, or the exception that escaped the view (the requests are not
   * guarded by a `try`).
   */
  datatype AnalysisPage =
    | ViewToLogin
    | ViewToDashboard(flash: string)
    | AnalysisView(job: JobJson, document: string)
    | ViewRaised(message: string)

  /** The document the analysis page shows for `job`, given the document reply. */
  function DocumentShown(job: JobJson, doc: DocReply): string
  {
    if job.status == DONE_STATUS && doc.DocReply? && doc.status == 200 then
      match doc.markdown
      case None => ""
      case Some(text) => text
    else ""
  }

  /**
   * `view_analysis(job_id)`: without a token, to the login page; when the
   * job request raises, the exception leaves the view; when the job is not
   * found, to the dashboard; else the document is requested exactly when
   * the job is DONE, and the page shows the job and `DocumentShown`, unless
   * the document request raises, whose exception then leaves the view.
   */
  method ViewAnalysis(loggedIn: bool, jobReply: JobReply, docReply: DocReply) returns (page: AnalysisPage, docRequested: bool)
    ensures !loggedIn ==> page == ViewToLogin && !docRequested
    ensures loggedIn && jobReply.JobRequestRaised? ==> page == ViewRaised(jobReply.message) && !docRequested
    ensures loggedIn && jobReply.JobReply? && jobReply.status != 200 ==>
      page == ViewToDashboard(JOB_NOT_FOUND_FLASH) && !docRequested
    ensures loggedIn && jobReply.JobReply? && jobReply.status == 200 ==>
      && (docRequested <==> jobReply.job.status == DONE_STATUS)
      && (docRequested && docReply.DocRequestRaised? ==> page == ViewRaised(docReply.message))
      && (!(docRequested && docReply.DocRequestRaised?) ==>
          page == AnalysisView(jobReply.job, DocumentShown(jobReply.job, docReply)))
  {
    if !loggedIn {
      return ViewToLogin, false;
    }
    if jobReply.JobRequestRaised? {
      return ViewRaised(jobReply.message), false;
    }
    if jobReply.status != 200 {
      return ViewToDashboard(JOB_NOT_FOUND_FLASH), false;
    }
    var job := jobReply.job;
    var document := "";
    docRequested := false;
    if job.status == DONE_STATUS {
      docRequested := true;
      if docReply.DocRequestRaised? {
        return ViewRaised(docReply.message), true;
      }
      if docReply.status == 200 {
        document := match docReply.markdown case None => "" case Some(text) => text;
      }
    }
    page := AnalysisView(job, document);
  }

  // ----- properties -----

  /** A repository appears in the list exactly when it is listed and has a DONE job. */
  lemma {:induction false} SelectionIff(repos: seq<RepoJson>, r: RepoJson)
    ensures (exists e :: e in Selection(repos) && e.repo == r) <==> r in repos && exists j :: j in JobsOf(r) && j.status == DONE_STATUS
  {
    if repos != [] {
      SelectionIff(repos[1..], r);
      assert repos == [repos[0]] + repos[1..];
      EntryForFacts(repos[0]);
      if r == repos[0] && exists j :: j in JobsOf(r) && j.status == DONE_STATUS {
        assert EntryFor(r)[0] in Selection(repos);
      }
    }
  }

  /**
   * Every entry's job is one of its repository's jobs, is DONE, and has
   * the largest id among that repository's DONE jobs.
   */
  lemma {:induction false} SelectionEntries(repos: seq<RepoJson>, e: Entry)
    requires e in Selection(repos)
    ensures e.repo in repos
    ensures e.lastJob in JobsOf(e.repo) && e.lastJob.status == DONE_STATUS
    ensures forall j :: j in JobsOf(e.repo) && j.status == DONE_STATUS ==> j.id <= e.lastJob.id
  {
    if e in EntryFor(repos[0]) {
      EntryForFacts(repos[0]);
    } else {
      SelectionEntries(repos[1..], e);
    }
  }

  /**
   * The list keeps the order of the listing: the entries for two
   * consecutive parts of the listing are the entries of the first part
   * followed by those of the second.
   */
  lemma {:induction false} SelectionAppend(a: seq<RepoJson>, b: seq<RepoJson>)
    ensures Selection(a + b) == Selection(a) + Selection(b)
  {
    if a == [] {
      assert a + b == b;
    } else {
      assert (a + b)[1..] == a[1..] + b;
      SelectionAppend(a[1..], b);
      var h, ta, sb := EntryFor(a[0]), Selection(a[1..]), Selection(b);
      assert h + (ta + sb) == (h + ta) + sb;
    }
  }

  /** The job JSON the backend gives for a job of the given status. */
  function JobJsonOf(id: int, status: JobStatus): JobJson
  {
    JobJson(id, StatusName(status))
  }

  /** A job shows as DONE on the frontend exactly when its stored status is `Done`. */
  lemma DoneJsonIff(id: int, status: JobStatus)
    ensures JobJsonOf(id, status).status == DONE_STATUS <==> status == Done
  {
  }

  /** The reply `get_analysis_document` gives: 200 with `markdown`, or the exception's status. */
  function DocReplyOf(r: Result<string, HttpException>): DocReply
  {
    match r
    case Success(text) => DocReply(200, Some(text))
    case Failure(e) => DocReply(e.status, None)
  }

  /** The analysis page shows a document only for a DONE job whose document request answered 200. */
  lemma DocumentOnlyWhenDone(job: JobJson, doc: DocReply)
    ensures DocumentShown(job, doc) != "" ==> job.status == DONE_STATUS && doc.DocReply? && doc.status == 200 && doc.markdown.Some?
  {
  }

  /**
   * For a stored job, the analysis page shows the job's first document
   * when the job is DONE and has one, and nothing otherwise.
   */
  lemma ShowsStoredDocument(db: Database, jobId: int)
    requires FindJob(db.jobs, jobId).Some?
    ensures var job := db.jobs[FindJob(db.jobs, jobId).value];
      var shown := DocumentShown(JobJsonOf(jobId, job.status), DocReplyOf(GetAnalysisDocument(db, jobId)));
      && (job.status == Done && job.documents != [] ==> shown == job.documents[0].contentMd)
      && (job.status != Done || job.documents == [] ==> shown == "")
  {
  }
}
