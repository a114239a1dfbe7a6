/**
 * The analyses router: the background pipeline that takes one job from
 * PENDING through RUNNING to DONE or ERROR, the route that creates a job
 * and schedules the pipeline, and the route that returns a job's document.
 *
 * `Pipeline` states what one run does to a job as a function of the job's
 * state and the outcomes of its three steps; `RunAnalysisPipeline` performs
 * the run on the stored job object, recording every commit and every step
 * it begins in a trace, and is proved to follow `Pipeline`.
 */
module Analyses {
  import opened Results
  import opened Text
  import opened RepoTree
  import opened RepoIndexer
  import opened ContextBuilder
  import opened GithubFetcher
  import opened Generation
  import opened Models

  const DOCUMENT_NOT_FOUND: string := "Document not found"

  /** The fallible steps of a run, in the order they are taken. */
  datatype Step = FetchStep | ComposeStep | GenerateStep

  /** What an observer of a run can see: a committed job state, or the start of a step. */
  datatype Event = Committed(state: JobState) | Began(step: Step)

  /** A run: what it did, in order, and the state it left the job in. */
  datatype Run = Run(trace: seq<Event>, final: JobState)

  /** `str(e)` for an exception leaving the fetcher: `"<status>: <detail>"` for an `HTTPException`. */
  function FetchMessage(e: FetchError): string
  {
    match e
    case HttpError(status, detail) => IntToString(status) + ": " + detail
    case Raised(message) => message
  }

  /**
   * One run of `run_analysis_pipeline` on a job in state `s`, given the
   * fetcher's result, the evidence composed from it and the generator's
   * result (the evidence is not used when the fetch fails).
   */
  function Pipeline(s: JobState, jobId: int, fetched: Result<string, FetchError>, evidence: Evidence,
                    generated: Result<string, string>): Run
  {
    var running := s.(status := Running);
    var started := [Committed(running), Began(FetchStep)];
    match fetched
    case Failure(e) =>
      var failed := running.(status := Error, errorMessage := Some(FetchMessage(e)));
      Run(started + [Committed(failed)], failed)
    case Success(_) =>
      var composed := running.(evidenceJson := Some(evidence));
      var generating := started + [Began(ComposeStep), Committed(composed), Began(GenerateStep)];
      match generated
      case Failure(message) =>
        var failed := composed.(status := Error, errorMessage := Some(message));
        Run(generating + [Committed(failed)], failed)
      case Success(text) =>
        var done := composed.(documents := composed.documents + [Document(jobId, text)], status := Done, finishedAt := true);
        Run(generating + [Committed(done)], done)
  }

  /**
   * `run_analysis_pipeline(job_id, repo_url, db)`: looks the job up, marks
   * it RUNNING, then fetches, composes, stores the evidence, generates and
   * stores the document, committing along the way; the first failure marks
   * the job ERROR with the exception's text. The outcomes of the outside
   * world come in as parameters: `fetched` is what
   * `fetch_repo_zip(repo_url, str(job_id))` returned or raised (see
   * `FetchRepoZip`), `tree` and `contents` are the extracted repository and
   * `reply` is the Ollama server's answer.
   */
  method RunAnalysisPipeline(db: Database, jobId: int, fetched: Result<string, FetchError>, tree: Node,
                             contents: string -> FileRead, reply: OllamaReply)
    returns (trace: seq<Event>)
    modifies db.jobs
    ensures FindJob(db.jobs, jobId).None? ==> trace == [] && forall j :: j in db.jobs ==> unchanged(j)
    ensures FindJob(db.jobs, jobId).Some? ==>
      var job := db.jobs[FindJob(db.jobs, jobId).value];
      exists evidence ::
        && (fetched.Success? ==> EvidenceFor(fetched.value, tree, contents, evidence))
        && Run(trace, job.State()) == Pipeline(old(job.State()), jobId, fetched, evidence, GenerateText(reply))
    ensures forall j :: j in db.jobs && j.id != jobId ==> unchanged(j)
  {
    var found := FindJob(db.jobs, jobId);
    if found.None? {
      return [];
    }
    var job := db.jobs[found.value];
    ghost var evidence;
    trace, evidence := RunJob(job, fetched, tree, contents, reply);
    assert job == db.jobs[FindJob(db.jobs, jobId).value];
  }

  /** The body of `run_analysis_pipeline` once the job has been found. */
  method RunJob(job: AnalysisJob, fetched: Result<string, FetchError>, tree: Node,
                contents: string -> FileRead, reply: OllamaReply)
    returns (trace: seq<Event>, ghost evidence: Evidence)
    modifies job
    ensures fetched.Success? ==> EvidenceFor(fetched.value, tree, contents, evidence)
    ensures Run(trace, job.State()) == Pipeline(old(job.State()), job.id, fetched, evidence, GenerateText(reply))
  {
    ghost var before := job.State();
    job.status := Running;
    trace := [Committed(job.State()), Began(FetchStep)];
    evidence := Evidence([], Stats(0, map[]), []);
    if fetched.Failure? {
      job.status := Error;
      job.errorMessage := Some(FetchMessage(fetched.error));
      trace := trace + [Committed(job.State())];
    } else {
      var rest;
      rest, evidence := ComposeAndGenerate(job, fetched.value, tree, contents, reply);
      trace := trace + rest;
    }
    PipelineSteps(before, job.id, fetched, evidence, GenerateText(reply), trace, job.State());
  }

  /**
   * The rest of the `try` block once the fetch has succeeded: compose and
   * store the evidence, generate, and store the document and mark the job
   * DONE, or mark it ERROR when the generation raises.
   */
  method ComposeAndGenerate(job: AnalysisJob, repoPath: string, tree: Node, contents: string -> FileRead,
                            reply: OllamaReply)
    returns (trace: seq<Event>, ghost evidence: Evidence)
    modifies job
    ensures EvidenceFor(repoPath, tree, contents, evidence)
    ensures var stored := old(job.State()).(evidenceJson := Some(evidence));
      trace == [Began(ComposeStep), Committed(stored), Began(GenerateStep), Committed(job.State())]
      && job.State() == Generate(stored, job.id, GenerateText(reply))
  {
    evidence := StoreEvidence(job, repoPath, tree, contents);
    var stored := job.State();
    StoreGeneration(job, reply);
    trace := [Began(ComposeStep), Committed(stored), Began(GenerateStep), Committed(job.State())];
  }

  /** `build_context`, then `job.evidence_json = evidence` and a commit. */
  method StoreEvidence(job: AnalysisJob, repoPath: string, tree: Node, contents: string -> FileRead)
    returns (ghost evidence: Evidence)
    modifies job
    ensures EvidenceFor(repoPath, tree, contents, evidence)
    ensures job.State() == old(job.State()).(evidenceJson := Some(evidence))
  {
    var composed := BuildContext(repoPath, tree, contents);
    evidence := composed;
    job.evidenceJson := Some(composed);
  }

  /**
   * `generate_text`, then either the document is added and the job is DONE
   * with a finish time, or the job is ERROR with the message.
   */
  method StoreGeneration(job: AnalysisJob, reply: OllamaReply)
    modifies job
    ensures job.State() == Generate(old(job.State()), job.id, GenerateText(reply))
  {
    var generated := GenerateText(reply);
    if generated.Failure? {
      job.status := Error;
      job.errorMessage := Some(generated.error);
    } else {
      job.documents := job.documents + [Document(job.id, generated.value)];
      job.status := Done;
      job.finishedAt := true;
    }
  }

  /** The job state after the generation step, from the state with the evidence stored. */
  function Generate(stored: JobState, jobId: int, generated: Result<string, string>): JobState
  {
    match generated
    case Failure(message) => stored.(status := Error, errorMessage := Some(message))
    case Success(text) => stored.(documents := stored.documents + [Document(jobId, text)], status := Done, finishedAt := true)
  }

  /** The steps `RunAnalysisPipeline` takes make up the run `Pipeline` describes. */
  lemma PipelineSteps(before: JobState, jobId: int, fetched: Result<string, FetchError>, evidence: Evidence,
                      generated: Result<string, string>, trace: seq<Event>, after: JobState)
    requires var running := before.(status := Running);
      var started := [Committed(running), Began(FetchStep)];
      if fetched.Failure? then
        var failed := running.(status := Error, errorMessage := Some(FetchMessage(fetched.error)));
        trace == started + [Committed(failed)] && after == failed
      else
        var stored := running.(evidenceJson := Some(evidence));
        trace == started + [Began(ComposeStep), Committed(stored), Began(GenerateStep), Committed(after)]
        && after == Generate(stored, jobId, generated)
    ensures Run(trace, after) == Pipeline(before, jobId, fetched, evidence, generated)
  {
  }

  /**
   * `start_analysis(repository_id)`: an unknown repository is refused with
   * 404; otherwise a new PENDING job of that repository is stored with the
   * next id and the pipeline is scheduled for it with the repository's URL.
   */
  method StartAnalysis(db: Database, repositoryId: int) returns (r: Result<AnalysisJob, HttpException>)
    requires db.Valid()
    modifies db
    ensures db.Valid()
    ensures db.repositories == old(db.repositories)
    ensures FindRepository(db.repositories, repositoryId).None? ==>
      && r == Failure(HttpException(404, REPOSITORY_NOT_FOUND))
      && db.jobs == old(db.jobs) && db.scheduled == old(db.scheduled) && db.nextJobId == old(db.nextJobId)
    ensures FindRepository(db.repositories, repositoryId).Some? ==>
      var repo := db.repositories[FindRepository(db.repositories, repositoryId).value];
      && r.Success? && fresh(r.value)
      && r.value.id == old(db.nextJobId) && r.value.repositoryId == repo.id
      && r.value.State() == NEW_JOB
      && db.jobs == old(db.jobs) + [r.value]
      && db.scheduled == old(db.scheduled) + [Task(r.value.id, repo.url)]
      && db.nextJobId == old(db.nextJobId) + 1
  {
    var found := FindRepository(db.repositories, repositoryId);
    if found.None? {
      return Failure(HttpException(404, REPOSITORY_NOT_FOUND));
    }
    var repo := db.repositories[found.value];
    var job := new AnalysisJob(db.nextJobId, repo.id);
    db.jobs := db.jobs + [job];
    db.nextJobId := db.nextJobId + 1;
    db.scheduled := db.scheduled + [Task(job.id, repo.url)];
    r := Success(job);
  }

  /** `get_analysis_document(id)`: the first document of the job, or 404 when there is no such job or no document. */
  function GetAnalysisDocument(db: Database, id: int): Result<string, HttpException>
    reads db, db.jobs
  {
    match FindJob(db.jobs, id)
    case None => Failure(HttpException(404, DOCUMENT_NOT_FOUND))
    case Some(k) =>
      var job := db.jobs[k];
      if job.documents == [] then Failure(HttpException(404, DOCUMENT_NOT_FOUND))
      else Success(job.documents[0].contentMd)
  }

  /**
   * The document lookup answers 404 when no job has the id; otherwise it
   * looks at the first job with that id and answers 404 when it has no
   * document, or its first document's text.
   */
  lemma DocumentLookup(db: Database, id: int)
    ensures (forall k :: 0 <= k < |db.jobs| ==> db.jobs[k].id != id) ==>
      GetAnalysisDocument(db, id) == Failure(HttpException(404, DOCUMENT_NOT_FOUND))
    ensures forall k :: 0 <= k < |db.jobs| && db.jobs[k].id == id && (forall m :: 0 <= m < k ==> db.jobs[m].id != id) ==>
      GetAnalysisDocument(db, id) ==
        if db.jobs[k].documents == [] then Failure(HttpException(404, DOCUMENT_NOT_FOUND))
        else Success(db.jobs[k].documents[0].contentMd)
  {
  }

  // ----- properties of a run -----

  /** The order a status takes in a job's life: PENDING, then RUNNING, then DONE or ERROR. */
  function Rank(s: JobStatus): nat
  {
    match s
    case Pending => 0
    case Running => 1
    case Done => 2
    case Error => 2
  }

  /**
   * A run ends DONE or ERROR, never PENDING or RUNNING, and it ends DONE
   * exactly when the fetch and the generation both succeed.
   */
  lemma PipelineTerminates(s: JobState, jobId: int, fetched: Result<string, FetchError>, evidence: Evidence,
                           generated: Result<string, string>)
    ensures var f := Pipeline(s, jobId, fetched, evidence, generated).final;
      && (f.status == Done || f.status == Error)
      && (f.status == Done <==> fetched.Success? && generated.Success?)
  {
  }

  /**
   * RUNNING is committed first, before the fetch (the first fallible step)
   * begins, and every later commit shows a status at least as far along;
   * from a PENDING job the committed statuses never go back.
   */
  lemma PipelineCommitsRunningFirst(s: JobState, jobId: int, fetched: Result<string, FetchError>, evidence: Evidence,
                                    generated: Result<string, string>)
    ensures var t := Pipeline(s, jobId, fetched, evidence, generated).trace;
      && |t| >= 3
      && t[0] == Committed(s.(status := Running)) && t[1] == Began(FetchStep)
      && t[|t| - 1] == Committed(Pipeline(s, jobId, fetched, evidence, generated).final)
    ensures var t := Pipeline(s, jobId, fetched, evidence, generated).trace;
      forall i, j :: 0 <= i < j < |t| && t[i].Committed? && t[j].Committed? ==>
        Rank(t[i].state.status) <= Rank(t[j].state.status)
  {
  }

  /**
   * On success exactly one document, holding the generated text and naming
   * the job, is added; the evidence is kept, the finish time is set and
   * the error message is left as it was.
   */
  lemma PipelineSuccess(s: JobState, jobId: int, path: string, evidence: Evidence, text: string)
    ensures var f := Pipeline(s, jobId, Success(path), evidence, Success(text)).final;
      && f.status == Done && f.finishedAt
      && f.documents == s.documents + [Document(jobId, text)]
      && f.evidenceJson == Some(evidence) && f.errorMessage == s.errorMessage
  {
  }

  /**
   * On a failure the job is ERROR with the exception's text, no document is
   * added and the finish time is left as it was; a failed fetch skips the
   * later steps and stores no evidence.
   */
  lemma PipelineFailure(s: JobState, jobId: int, fetched: Result<string, FetchError>, evidence: Evidence,
                        generated: Result<string, string>)
    requires fetched.Failure? || generated.Failure?
    ensures var r := Pipeline(s, jobId, fetched, evidence, generated);
      && r.final.status == Error
      && r.final.documents == s.documents && r.final.finishedAt == s.finishedAt
      && r.final.errorMessage == Some(if fetched.Failure? then FetchMessage(fetched.error) else generated.error)
    ensures fetched.Failure? ==>
      var r := Pipeline(s, jobId, fetched, evidence, generated);
      && r.final.evidenceJson == s.evidenceJson
      && forall k :: 0 <= k < |r.trace| ==> r.trace[k] != Began(ComposeStep) && r.trace[k] != Began(GenerateStep)
  {
  }

  /**
   * Once the fetch succeeds the evidence is committed before generation
   * begins, and it stays on the job whatever the generation does, so a job
   * that fails in generation keeps its evidence and has no new document.
   */
  lemma PipelineKeepsEvidence(s: JobState, jobId: int, path: string, evidence: Evidence,
                              generated: Result<string, string>)
    ensures var r := Pipeline(s, jobId, Success(path), evidence, generated);
      && r.final.evidenceJson == Some(evidence)
      && (exists i, j :: 0 <= i < j < |r.trace|
           && r.trace[i] == Committed(s.(status := Running, evidenceJson := Some(evidence)))
           && r.trace[j] == Began(GenerateStep))
  {
    var r := Pipeline(s, jobId, Success(path), evidence, generated);
    assert r.trace[3] == Committed(s.(status := Running, evidenceJson := Some(evidence)));
    assert r.trace[4] == Began(GenerateStep);
  }

  /**
   * An unreachable Ollama server does not fail the job: the job ends DONE
   * with the apology text as its document.
   */
  lemma OllamaDownStillDone(s: JobState, jobId: int, path: string, evidence: Evidence, cause: string)
    ensures var f := Pipeline(s, jobId, Success(path), evidence, GenerateText(Unreachable(cause))).final;
      && f.status == Done
      && f.documents == s.documents + [Document(jobId, CONNECTION_ERROR_TEXT)]
  {
  }

  /**
   * An unreachable archive URL leaves the job ERROR with the fetcher's
   * message and without any document.
   */
  lemma DownloadFailureFailsJob(jobId: int, repoUrl: string, world: World, evidence: Evidence,
                                generated: Result<string, string>, cause: string)
    requires Contains(repoUrl, GITHUB_DOMAIN) && world.makeDirsError.None? && world.download(ZipUrl(repoUrl)) == DownloadFailed(cause)
    ensures var f := Pipeline(NEW_JOB, jobId, FetchRepoZip(repoUrl, IntToString(jobId), world).result, evidence, generated).final;
      && f.status == Error
      && f.errorMessage == Some("500: " + DOWNLOAD_FAILED_PREFIX + cause)
      && f.documents == []
  {
    DownloadFailureStops(repoUrl, IntToString(jobId), world, cause);
    assert IntToString(500) == "500" by {
      assert NatToString(5) == "5";
      assert NatToString(50) == "50";
      assert NatToString(500) == "500";
    }
    var detail := DOWNLOAD_FAILED_PREFIX + cause;
    assert FetchMessage(HttpError(500, detail)) == "500: " + DOWNLOAD_FAILED_PREFIX + cause;
  }

  /**
   * A file-system error the fetcher does not catch, from creating the
   * working directory or listing it, leaves the job ERROR with the
   * exception's own text and without any document.
   */
  lemma FileSystemErrorFailsJob(jobId: int, repoUrl: string, world: World, evidence: Evidence,
                                generated: Result<string, string>, message: string)
    requires Contains(repoUrl, GITHUB_DOMAIN)
    requires || world.makeDirsError == Some(message)
             || (&& world.makeDirsError.None? && world.download(ZipUrl(repoUrl)) == Downloaded
                 && world.extraction == Extracted && world.removeError.None? && world.listError == Some(message))
    ensures var f := Pipeline(NEW_JOB, jobId, FetchRepoZip(repoUrl, IntToString(jobId), world).result, evidence, generated).final;
      f.status == Error && f.errorMessage == Some(message) && f.documents == []
  {
  }

  /**
   * With the fetcher's own result, a run on a new job ends DONE exactly
   * when the URL is a GitHub URL, the working directory is created, the
   * archive downloads, extracts and is removed, the directory is listed,
   * and the generation succeeds.
   */
  lemma RunOfFetch(jobId: int, repoUrl: string, world: World, evidence: Evidence, generated: Result<string, string>)
    ensures var f := Pipeline(NEW_JOB, jobId, FetchRepoZip(repoUrl, IntToString(jobId), world).result, evidence, generated).final;
      f.status == Done <==>
        && Contains(repoUrl, GITHUB_DOMAIN) && world.makeDirsError == None && world.download(ZipUrl(repoUrl)) == Downloaded
        && world.extraction == Extracted && world.removeError == None && world.listError == None
        && generated.Success?
  {
    RootResolution(repoUrl, IntToString(jobId), world);
    PipelineTerminates(NEW_JOB, jobId, FetchRepoZip(repoUrl, IntToString(jobId), world).result, evidence, generated);
  }

  /**
   * The document route serves what the pipeline stored: after a successful
   * run on a new job it returns the generated text, and after a failed one
   * it answers 404.
   */
  lemma DocumentOfFinishedJob(db: Database, jobId: int, fetched: Result<string, FetchError>, evidence: Evidence,
                              generated: Result<string, string>)
    requires FindJob(db.jobs, jobId).Some?
    requires db.jobs[FindJob(db.jobs, jobId).value].State() == Pipeline(NEW_JOB, jobId, fetched, evidence, generated).final
    ensures fetched.Success? && generated.Success? ==> GetAnalysisDocument(db, jobId) == Success(generated.value)
    ensures fetched.Failure? || generated.Failure? ==> GetAnalysisDocument(db, jobId) == Failure(HttpException(404, DOCUMENT_NOT_FOUND))
  {
  }
}
