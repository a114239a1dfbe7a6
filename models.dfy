/**
 * The stored records: repositories, analysis jobs and their documents, and
 * the database session that holds them.
 *
 * A job is an object whose fields the pipeline updates in place; a
 * repository and a document are never changed after they are added, so
 * they are values. Relationships are by id: a job names its repository, a
 * document names its job. The evidence a job keeps is stored as the
 * evidence value rather than its JSON text, and `finished_at` as whether
 * it is set.
 */
module Models {
  import opened Results
  import opened ContextBuilder

  /** `JobStatus`: exactly one of four states. */
  datatype JobStatus = Pending | Running | Done | Error

  /** The string value of a status, as stored and as the API returns it. */
  function StatusName(s: JobStatus): string
  {
    match s
    case Pending => "PENDING"
    case Running => "RUNNING"
    case Done => "DONE"
    case Error => "ERROR"
  }

  /** Distinct statuses have distinct names, so a name determines its status. */
  lemma StatusNameInjective(a: JobStatus, b: JobStatus)
    ensures StatusName(a) == StatusName(b) ==> a == b
  {
  }

  /** A generated document and the job it belongs to. */
  datatype Document = Document(jobId: int, contentMd: string)

  /** The detail of the 404 both routers raise for a repository they cannot find. */
  const REPOSITORY_NOT_FOUND: string := "Repository not found"

  /** A registered repository: its owner, its `owner/name` and its canonical URL. */
  datatype Repository = Repository(id: int, userId: int, fullName: string, url: string)

  /** Everything about a job that the pipeline changes, as one value. */
  datatype JobState = JobState(
    status: JobStatus,
    evidenceJson: Option<Evidence>,
    errorMessage: Option<string>,
    finishedAt: bool,
    documents: seq<Document>)

  /** The state of a job when it is created. */
  const NEW_JOB: JobState := JobState(Pending, None, None, false, [])

  /** An analysis job of one repository. */
  class AnalysisJob {
    const id: int
    const repositoryId: int
    var status: JobStatus
    var evidenceJson: Option<Evidence>
    var errorMessage: Option<string>
    var finishedAt: bool
    var documents: seq<Document>

    /** `AnalysisJob(repository_id=...)` once stored with the id `id`: pending, with nothing recorded. */
    constructor (id: int, repositoryId: int)
      ensures this.id == id && this.repositoryId == repositoryId
      ensures State() == NEW_JOB
    {
      this.id := id;
      this.repositoryId := repositoryId;
      status := Pending;
      evidenceJson := None;
      errorMessage := None;
      finishedAt := false;
      documents := [];
    }

    function State(): JobState
      reads this
    {
      JobState(status, evidenceJson, errorMessage, finishedAt, documents)
    }

    /** Every document of the job names the job. */
    predicate DocumentsOwned()
      reads this
    {
      forall k :: 0 <= k < |documents| ==> documents[k].jobId == id
    }
  }

  /** A background task queued after a request: run the pipeline for a job and a URL. */
  datatype Task = Task(jobId: int, repoUrl: string)

  /**
   * The database session: the stored repositories and jobs, the ids the
   * next rows will get, and the background tasks queued so far.
   */
  class Database {
    var repositories: seq<Repository>
    var jobs: seq<AnalysisJob>
    var nextRepositoryId: int
    var nextJobId: int
    var scheduled: seq<Task>

    constructor ()
      ensures repositories == [] && jobs == [] && scheduled == []
      ensures Valid()
    {
      repositories := [];
      jobs := [];
      nextRepositoryId := 1;
      nextJobId := 1;
      scheduled := [];
    }

    /**
     * Primary keys are unique and below the next id to hand out, and every
     * document names the job holding it.
     */
    predicate Valid()
      reads this, jobs
    {
      && (forall i, j :: 0 <= i < j < |repositories| ==> repositories[i].id != repositories[j].id)
      && (forall i :: 0 <= i < |repositories| ==> repositories[i].id < nextRepositoryId)
      && (forall i, j :: 0 <= i < j < |jobs| ==> jobs[i].id != jobs[j].id)
      && (forall i :: 0 <= i < |jobs| ==> jobs[i].id < nextJobId && jobs[i].DocumentsOwned())
    }
  }

  /**
   * `query(...).filter(<key> == id).first()`: the index of the first row
   * whose key is `id`, or `None` when there is none.
   */
  function FindBy<T>(rows: seq<T>, key: T -> int, id: int): (r: Option<nat>)
    ensures r.Some? ==> r.value < |rows| && key(rows[r.value]) == id
    ensures r.Some? ==> forall k :: 0 <= k < r.value ==> key(rows[k]) != id
    ensures r.None? ==> forall k :: 0 <= k < |rows| ==> key(rows[k]) != id
  {
    if rows == [] then None
    else if key(rows[0]) == id then Some(0)
    else
      match FindBy(rows[1..], key, id)
      case None => None
      case Some(k) => Some(k + 1)
  }

  /** The lookup by id on jobs. */
  function FindJob(jobs: seq<AnalysisJob>, id: int): (r: Option<nat>)
    ensures r.Some? ==> r.value < |jobs| && jobs[r.value].id == id
    ensures r.Some? ==> forall k :: 0 <= k < r.value ==> jobs[k].id != id
    ensures r.None? ==> forall k :: 0 <= k < |jobs| ==> jobs[k].id != id
  {
    FindBy(jobs, (j: AnalysisJob) => j.id, id)
  }

  /** The lookup by id on repositories. */
  function FindRepository(repositories: seq<Repository>, id: int): (r: Option<nat>)
    ensures r.Some? ==> r.value < |repositories| && repositories[r.value].id == id
    ensures r.Some? ==> forall k :: 0 <= k < r.value ==> repositories[k].id != id
    ensures r.None? ==> forall k :: 0 <= k < |repositories| ==> repositories[k].id != id
  {
    FindBy(repositories, (p: Repository) => p.id, id)
  }
}
