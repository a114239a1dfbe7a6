# Technical documentation generator: verified model of the analysis core

This project models the backend of a service that turns a GitHub repository into generated technical documentation, and proves properties of that model. It also models the two frontend pages that read the backend's results. The model covers these parts:

- **Repository indexer** (`repo_indexer.dfy`, on top of `repo_tree.dfy` and `path_order.dfy`). It walks an extracted repository, pruning ignored directory names and skipping `.DS_Store*` files. It records relative paths, sorts them, counts files and extensions, and picks out the key files. It also reads one file with a line limit, appending a truncation marker or giving an error sentinel.
- **Evidence composer** (`context_builder.dfy`). It builds the evidence package: the first 300 paths, the statistics, and up to 10 deduplicated candidate files with their contents.
- **Archive fetcher decisions** (`github_fetcher.dfy`). It covers the host check, the archive URL, the per-job working directory, the failures of each file-system and network step, and the choice of root directory.
- **Ollama reply handling** (`generation.dfy`). An unreachable server yields a fixed text rather than an error.
- **Records and the job store** (`models.dfy`). It holds job statuses, jobs, documents and repositories. The database is a class whose fields the routers update.
- **Analyses router** (`analyses.dfy`). It models the background pipeline as a state machine on a job object: RUNNING, then fetch, compose, persist evidence, generate, document and DONE, or ERROR on any exception. It also models starting an analysis and looking up the document.
- **Repositories router** (`repos.dfy`). It covers URL normalisation when a repository is created, the owner-filtered paged listing, and deletion with its ownership check.
- **Frontend** (`frontend.dfy`). The analysed-repositories page keeps every repository with a DONE job, paired with its latest DONE job. The analysis page shows a document only for a DONE job.

Python's string operations that the code relies on are modelled in `text.dfy`: `in`, `split`, `replace`, `strip`, `lower`, `os.path.basename`, `os.path.splitext`, `os.path.join` and `str(int)`. Python's ordering of strings is modelled in `path_order.dfy`. The file system, the network and the language model are inputs: an extracted tree is a `RepoTree.Node` value, a file read is a `FileRead` outcome, the fetcher's environment is a `GithubFetcher.World`, and the Ollama reply is a `Generation.OllamaReply`.

Some behaviour of the code worth knowing:

- Removing the archive is not best-effort: in `backend/app/services/github_fetcher.py:45` a failing `os.remove` raises inside the `try` that only catches `BadZipFile`, so the exception leaves the fetcher and the job ends in ERROR. The same holds for `os.makedirs` (line 24) and `os.listdir` (line 48). `GithubFetcher.RootResolution` states this: the fetch succeeds only when every one of these steps succeeds, and `Analyses.FileSystemErrorFailsJob` gives the job's end state.
- An Ollama server that cannot be reached gives the job a document holding the apology text, and the job ends DONE (`Analyses.OllamaDownStillDone`).
- Only the number of URL pieces is checked, so a URL ending in `/` is accepted with an empty repository name (`Repos.TrailingSlashAccepted`). Every `.git` in `owner/name` is removed, not only a trailing one, so `owner/.github` is recorded as `owner/hub` (`Repos.DotGithubBecomesHub`).

## Model

| member | source | states |
|---|---|---|
| Text.Split | backend/app/routers/repos.py:16-18 | `str.split(sep)`: the pieces are never empty as a list, joining them with `sep` gives the input back, and no piece contains `sep` |
| Text.SplitCount | backend/app/routers/repos.py:16-20 | a split yields two or more pieces exactly when the separator occurs in the text |
| Text.RemoveAll | backend/app/routers/repos.py:23 | `str.replace(pat, "")` never lengthens a text |
| Text.RemoveAllChars | backend/app/routers/repos.py:23 | removing a pattern introduces no character that was not in the text |
| Text.RemoveAllAround | backend/app/routers/repos.py:23 | removing `.git` acts on each side of a `/` separately, since no occurrence can straddle a character the pattern lacks |
| Text.Strip | backend/app/routers/repos.py:14 | `str.strip()` leaves no blank at either end and removes only blanks, from both ends |
| Text.StripIdempotent | backend/app/routers/repos.py:14 | stripping twice is the same as stripping once |
| Text.Basename | backend/app/services/context_builder.py:25 | `os.path.basename` is the part after the last `/` and contains no `/` |
| Text.Extension | backend/app/services/repo_indexer.py:43 | `os.path.splitext(name)[1]` is empty or a final `.`-suffix of the name without another `.` or `/` |
| Text.LowerEqualsIff | backend/app/services/repo_indexer.py:46 | lowering gives a text without upper-case letters iff the input is that text with any of its ASCII letters in upper case |
| Text.NatToString | backend/app/routers/analyses.py:23 | `str(n)` is a non-empty string of digits without a leading zero whose value is `n` |
| Text.IntToStringInjective | backend/app/routers/analyses.py:23 | different job ids give different `str(job_id)` |
| PathOrder.Sort | backend/app/services/repo_indexer.py:50 | `list.sort()` gives a sorted permutation of its input |
| PathOrder.SortedUnique | backend/app/services/repo_indexer.py:50 | two sorted permutations of the same paths are equal |
| PathOrder.SortForgetsOrder | backend/app/services/repo_indexer.py:50 | sorting makes the result independent of the order the paths were visited in |
| RepoTree.SubdirNames | backend/app/services/repo_indexer.py:29 | the directories `os.walk` lists under a directory are exactly its sub-directory children |
| RepoTree.Unignored | backend/app/services/repo_indexer.py:31 | the pruned `dirs` hold exactly the listed directories whose name is not ignored |
| RepoTree.WalkPlaced | backend/app/services/repo_indexer.py:29-31 | every step of the walk is at the path its components name below the root, and none of those components is an ignored name |
| RepoTree.WalkFilesHeld | backend/app/services/repo_indexer.py:29-33 | every file a step lists is held in the tree at that step's components |
| RepoTree.WalkComplete | backend/app/services/repo_indexer.py:29-33 | every file of the tree reached without crossing an ignored directory is listed by some step |
| RepoIndexer.IndexRepo | backend/app/services/repo_indexer.py:18-57 | the loop computes the index: a sorted tree whose length is the file count, with key files drawn from the tree |
| RepoIndexer.IndexTree | backend/app/services/repo_indexer.py:37-50 | the tree is sorted and is a permutation of the relative paths of the visited files |
| RepoIndexer.TreeForgetsWalkOrder | backend/app/services/repo_indexer.py:50 | the tree does not depend on the order the walk visits files in |
| RepoIndexer.IndexSound | backend/app/services/repo_indexer.py:29-35 | every recorded file is in the tree, no directory on its path is ignored, and its name does not start with `.DS_Store` |
| RepoIndexer.IndexComplete | backend/app/services/repo_indexer.py:29-35 | every file not under an ignored directory and not named `.DS_Store*` is recorded |
| RepoIndexer.IndexRelative | backend/app/services/repo_indexer.py:27-38 | a recorded path is the full path with the root and one separator dropped: the components joined by `/`, ending in the file name |
| RepoIndexer.IndexKeysInTree | backend/app/services/repo_indexer.py:46-47 | the key files are a sub-multiset of the tree |
| RepoIndexer.ReadmeSpellings | backend/app/services/repo_indexer.py:46 | `name.lower() == "readme.md"` holds iff the name has nine characters, each the one of `readme.md` or its upper-case form |
| RepoIndexer.IndexKeyIff | backend/app/services/repo_indexer.py:46-47 | a tree path is a key file iff its basename is in `KEY_FILES` or lowers to `readme.md` |
| RepoIndexer.IndexStats | backend/app/services/repo_indexer.py:41-44 | the file count equals the tree length, the extension counts add up to it, and each extension's count is how many files have it |
| RepoIndexer.TallyCount | backend/app/services/repo_indexer.py:44 | counting with `get(ext, 0) + 1` gives each extension's number of occurrences |
| RepoIndexer.TallyTotal | backend/app/services/repo_indexer.py:41-44 | the extension counts sum to the number of files counted |
| RepoIndexer.ReadFileContent | backend/app/services/repo_indexer.py:59-71 | an unreadable file gives `[Error reading file]`; a file of at most `limit_lines` lines gives their concatenation; a longer one gives its first `limit_lines` lines and the truncation marker |
| RepoIndexer.FileTextPrefix | backend/app/services/repo_indexer.py:63-69 | the text read always starts with a prefix of the file, and ends with the marker exactly when lines were cut |
| RepoIndexer.ConcatAppend | backend/app/services/repo_indexer.py:69 | `"".join` distributes over concatenation of line lists |
| ContextBuilder.Dedupe | backend/app/services/context_builder.py:29 | `list(set(xs))`: any duplicate-free list with exactly the members of `xs` |
| ContextBuilder.AddEntryPoints | backend/app/services/context_builder.py:20-26 | the candidates are the key files followed by the tree entries whose basename is a known entry point, in tree order |
| ContextBuilder.ReadFiles | backend/app/services/context_builder.py:31-33 | each chosen path is read below the root, in order |
| ContextBuilder.BuildContext | backend/app/services/context_builder.py:5-35 | the structure is the first `min(300, n)` sorted paths, the stats are the indexer's, and `min(10, c)` distinct candidates are read |
| ContextBuilder.EntryPointsIff | backend/app/services/context_builder.py:24-26 | a path is added as an entry point iff it is in the tree and its basename is one of the five names |
| ContextBuilder.CandidatesIff | backend/app/services/context_builder.py:20-29 | the candidate set is the key files together with the entry-point paths of the tree, and every candidate is in the tree |
| ContextBuilder.CandidateByName | backend/app/services/context_builder.py:20-29 | a tree path is a candidate iff its basename makes it a key file or an entry point |
| ContextBuilder.EvidenceBounded | backend/app/services/context_builder.py:13-33 | the evidence holds at most 300 paths and at most 10 file contents, each for a tree path |
| GithubFetcher.RejectsForeignHosts | backend/app/services/github_fetcher.py:15-16 | the fetch fails with 400 exactly when the URL lacks `github.com`, and then nothing is created or downloaded |
| GithubFetcher.DownloadsArchive | backend/app/services/github_fetcher.py:22-30 | an accepted URL first creates `storage/repos/<job>`; if that raises, the exception leaves the call and nothing else happens, otherwise `<url>/archive/HEAD.zip` is downloaded into `repo.zip` there |
| GithubFetcher.ZipUrlParts | backend/app/services/github_fetcher.py:22 | the archive URL is the repository URL followed by `/archive/HEAD.zip` |
| GithubFetcher.DownloadFailureStops | backend/app/services/github_fetcher.py:28-35 | a failed download gives a 500 carrying the cause and no extraction is attempted |
| GithubFetcher.CorruptArchive | backend/app/services/github_fetcher.py:55-56 | after a download, the fetch fails with `Invalid ZIP file downloaded` exactly when the archive is not a ZIP |
| GithubFetcher.RootResolution | backend/app/services/github_fetcher.py:22-53 | the fetch succeeds iff the host check, directory creation, download, extraction, archive removal and directory listing all succeed; the root is the only extracted folder, otherwise the working directory |
| GithubFetcher.FoldersIff | backend/app/services/github_fetcher.py:48 | the folders are exactly the directory entries of the listing |
| GithubFetcher.RootInsideTarget | backend/app/services/github_fetcher.py:48-53 | the root is the working directory or one of its listed sub-directories |
| GithubFetcher.TargetDirPerJob | backend/app/services/github_fetcher.py:23 | each job id has its own working directory `storage/repos/<id>` |
| GithubFetcher.NoLeadingSlash | backend/app/services/github_fetcher.py:23 | `str(job_id)` never starts with `/`, so joining does not discard the storage directory |
| Generation.UnreachableIsText | backend/app/services/ollama_client.py:29-31 | an unreachable server yields the fixed connection-error text, not a failure |
| Generation.GenerateFailsIff | backend/app/services/ollama_client.py:24-31 | generation fails exactly when the server answers with an error status or a body that is not an object |
| Generation.GenerateReturnsResponse | backend/app/services/ollama_client.py:27-28 | a successful reply yields its `response` field, or `""` when it is missing |
| Models.StatusNameInjective | backend/app/models.py:7-11 | the four statuses have four distinct names |
| Models.AnalysisJob.constructor | backend/app/models.py:36-48 | a new job is PENDING with no evidence, no error, no finish time and no documents |
| Models.FindBy | backend/app/routers/analyses.py:15-17 | `filter(key == id).first()`: the index of the first row with that key, or none when no row has it |
| Models.FindJob | backend/app/routers/analyses.py:15-17 | the query's `.first()`: the first job with the id, or none when no job has it |
| Models.FindRepository | backend/app/routers/analyses.py:61-63 | the first repository with the id, or none when no repository has it |
| Analyses.RunAnalysisPipeline | backend/app/routers/analyses.py:12-52 | a missing job is left alone; otherwise the job's committed states and its final state are those of `Pipeline`, with evidence composed from the fetched root, and no other job changes |
| Analyses.RunJob | backend/app/routers/analyses.py:18-51 | once the job is found, its committed states and final state are those of `Pipeline`, with evidence composed from the fetched root |
| Analyses.StoreEvidence | backend/app/routers/analyses.py:26-30 | the stored evidence is `build_context`'s and nothing else of the job changes |
| Analyses.StoreGeneration | backend/app/routers/analyses.py:34-51 | the generated document is added and the job is DONE with a finish time, or it is ERROR with the generator's message |
| Analyses.ComposeAndGenerate | backend/app/routers/analyses.py:26-46 | the evidence is composed, stored and committed before generation starts; then the generated document is added and the job is DONE, or it is ERROR |
| Analyses.PipelineSteps | backend/app/routers/analyses.py:18-51 | the sequence of commits the method performs is exactly the run `Pipeline` describes |
| Analyses.PipelineTerminates | backend/app/routers/analyses.py:18-51 | a run ends DONE or ERROR, never PENDING or RUNNING, and DONE exactly when fetch and generation succeed |
| Analyses.PipelineCommitsRunningFirst | backend/app/routers/analyses.py:18-23 | RUNNING is committed before the first fallible step, the last event commits the final state, and committed statuses never go back |
| Analyses.PipelineSuccess | backend/app/routers/analyses.py:37-46 | on success exactly one document with the generated text is added, the status is DONE and the finish time is set |
| Analyses.PipelineFailure | backend/app/routers/analyses.py:48-51 | on any failure the status is ERROR with `str(e)` as message, no document is added and the finish time is not set; a failed fetch skips the later steps |
| Analyses.PipelineKeepsEvidence | backend/app/routers/analyses.py:26-34 | after a successful fetch the evidence is committed before generation begins and stays stored even when generation fails |
| Analyses.OllamaDownStillDone | backend/app/routers/analyses.py:34-46 | when the language model cannot be reached the job still ends DONE, with the connection-error text as its document |
| Analyses.FileSystemErrorFailsJob | backend/app/routers/analyses.py:21-51 | an uncaught `os.makedirs` or `os.listdir` error in the fetcher ends a new job in ERROR with the exception's text and no document |
| Analyses.DownloadFailureFailsJob | backend/app/routers/analyses.py:21-51 | a failed download ends a new job in ERROR with message `500: Failed to download repo: <cause>` and no document |
| Analyses.RunOfFetch | backend/app/routers/analyses.py:12-51 | a new job ends DONE iff the URL is accepted, every file-system and network step of the fetch succeeds, and generation succeeds |
| Analyses.StartAnalysis | backend/app/routers/analyses.py:54-74 | an unknown repository gives 404 and changes nothing; otherwise one new PENDING job for it is appended and its pipeline is scheduled with the repository URL |
| Analyses.DocumentLookup | backend/app/routers/analyses.py:83-91 | 404 when no job has the id or the first such job has no document, else that job's first document text |
| Analyses.DocumentOfFinishedJob | backend/app/routers/analyses.py:83-91 | the document of a job after its run is the generated text when the run succeeded, and 404 when it failed |
| Repos.LocatorAfterLastMarker | backend/app/routers/repos.py:14-18 | the text that is split is what follows the last `github.com/` of the stripped URL, or the whole stripped URL when there is none |
| Repos.ParseFailsIff | backend/app/routers/repos.py:15-21 | parsing fails, with 400 `Invalid GitHub URL or identifiers`, exactly when that text has no `/` |
| Repos.ParsedName | backend/app/routers/repos.py:23-29 | the full name is the first two pieces, each without `.git`, joined by one `/`; the URL is `https://github.com/` and the full name |
| Repos.CanonicalForms | backend/app/routers/repos.py:14-29 | `owner/name`, its canonical URL and that URL with `.git` appended all give the same record, and the canonical URL parses back to itself |
| Repos.TrailingSlashAccepted | backend/app/routers/repos.py:20-23 | a URL ending in `/` is accepted with an empty name, since only the number of pieces is checked |
| Repos.GitInsideNameDropped | backend/app/routers/repos.py:23 | a `.git` at the start of the name is removed too, not only a trailing one |
| Repos.DotGithubBecomesHub | backend/app/routers/repos.py:23 | `<owner>/.github` is recorded as `<owner>/hub` |
| Repos.CreateRepository | backend/app/routers/repos.py:9-33 | a rejected URL raises its 400 and stores nothing; otherwise one repository with the next id, the user as owner and the parsed name and URL is appended |
| Repos.Owned | backend/app/routers/repos.py:37 | the user's repositories are exactly those with the user as owner |
| Repos.OwnedAppend | backend/app/routers/repos.py:37 | the owner filter keeps the stored order |
| Repos.ReadRepositories | backend/app/routers/repos.py:35-38 | the listing holds at most `limit` repositories, all stored and all the user's |
| Repos.PagesJoin | backend/app/routers/repos.py:37 | consecutive pages join into one page, and a page's length is what remains after `skip`, capped at `limit` |
| Repos.ListAll | backend/app/routers/repos.py:37 | a page from 0 as large as the store lists all the user's repositories |
| Repos.FindOwned | backend/app/routers/repos.py:42 | finds a repository with the id owned by the user, or reports that there is none |
| Repos.DeleteRepository | backend/app/routers/repos.py:40-47 | an absent repository or one owned by another user gives 404 and changes nothing; otherwise exactly that repository is removed |
| Repos.DeleteRemovesOnly | backend/app/routers/repos.py:42-45 | after a deletion the store holds every other repository and none with the deleted id |
| Repos.RemovedIds | backend/app/routers/repos.py:45 | removing one repository keeps ids unique |
| Frontend.DoneJobs | frontend/app.py:164 | the filtered jobs are exactly the jobs whose status is `DONE` |
| Frontend.LatestIndex | frontend/app.py:169-170 | after the stable sort by id with `reverse=True`, the first job has the largest id and is the earliest with that id |
| Frontend.Latest | frontend/app.py:169-170 | the chosen job is one of the jobs and has the largest id |
| Frontend.SelectAnalyzed | frontend/app.py:161-175 | the loop builds exactly `Selection` of the listed repositories |
| Frontend.AnalyzedRepos | frontend/app.py:143-182 | no token leads to login; an exception leads to the dashboard with `Error: <e>`; a non-200 listing leads to the dashboard with a fixed message; otherwise the page lists `Selection` |
| Frontend.SelectionIff | frontend/app.py:161-175 | a repository appears iff it is listed and has at least one DONE job |
| Frontend.SelectionEntries | frontend/app.py:164-175 | each entry's job belongs to its repository, is DONE and has the largest id among its DONE jobs |
| Frontend.SelectionAppend | frontend/app.py:161-175 | entries keep the order of the listing |
| Frontend.EntryForFacts | frontend/app.py:164-175 | one repository yields an entry iff it has a DONE job, and that entry carries its latest DONE job |
| Frontend.ViewAnalysis | frontend/app.py:121-141 | no token leads to login; a job request that raises escapes the view; a missing job leads to the dashboard; otherwise the document is requested exactly when the job is DONE, and the page shows the job and its document unless that request raises |
| Frontend.DocumentOnlyWhenDone | frontend/app.py:134-139 | the document shown is empty unless the job is DONE and the document request answered 200 |
| Frontend.DoneJsonIff | backend/app/models.py:7-11 | a job shows as `DONE` on the frontend iff its stored status is DONE |
| Frontend.ShowsStoredDocument | frontend/app.py:134-139 | for a stored job the page shows its first document when the job is DONE and has one, and nothing otherwise |

## Left out

- Text.Lower: lowers ASCII letters only. This is exact for the one comparison the code makes, `name.lower() == "readme.md"`: the only non-ASCII characters Python lowers into ASCII are U+0130 (to `i` followed by U+0307) and U+212A KELVIN SIGN (to `k`), and neither gives a text equal to `readme.md`; every other non-ASCII character stays non-ASCII in both the model and Python.
- `Generation.GenerateText`: a `response` field that is present but is not a string (for example `null`) is not represented; `JsonObject` holds the field as an optional string.
- `Frontend.ViewAnalysis`: a reply body that is not JSON, or a job JSON without `status`, raises in the view; replies are taken to be well formed.
- File system, network and language model: ZIP extraction, `os.makedirs`, `os.remove`, `os.listdir`, `os.walk`'s directory reads, `httpx` and `requests` calls are not performed. Their outcomes, failures included, are inputs: a `Node` tree, a `World` (with the exception `os.makedirs`, `os.remove` or `os.listdir` raises), a `FileRead`, an `OllamaReply`, a `Listing` and the job and document replies (with the exception a request raises). `os.path.isdir` does not raise and is the `isDir` flag of a listed entry.
- Reading a file as text with `errors="ignore"`: a file is already a sequence of decoded lines, and any error while opening or reading it is the single `Unreadable` outcome.
- The order `os.walk` lists entries in is the order of the children in the tree. The tree is sorted, so only `key_files` keeps that order.
- `list(set(...))` in `build_context` has no defined order. `ContextBuilder.Dedupe` may return any duplicate-free order of the candidates.
- `json.dumps` of the evidence: the job stores the evidence value itself.
- `doc_generator.generate_documentation`: the prompt built around the evidence is not modelled; generation is decided by the Ollama reply.
- Sampling options (temperature, `top_p`) and the printed log lines.
- `backend/app/services/pdf_generator.py` and the PDF download routes, `backend/app/schemas.py`, `backend/app/main.py` and the authentication router are not part of this model. The current user is an id parameter and the session token is a `loggedIn` flag.
- SQLAlchemy sessions, commits and ordering: the store is a class holding sequences in insertion order, and a commit is an event in the pipeline's trace. `offset`/`limit` act on the stored order.
- Timestamps: `created_at` is not modelled, and `finished_at` is a flag that records whether it was set.
- `BackgroundTasks` and concurrent jobs: a scheduled pipeline is a `Task` record, and a run is one sequential call.
- `Analyses.RunAnalysisPipeline`: takes the fetcher's result as a parameter instead of calling the fetcher. `Analyses.RunOfFetch` and `Analyses.DownloadFailureFailsJob` connect the two.
- `Repos.DeleteRepository`: does not model what the ORM does with the deleted repository's jobs; the jobs are left unchanged.
- `Repos.ReadRepositories`: `skip` and `limit` are natural numbers; negative values are not modelled.
- `Frontend.Latest`: the in-place sort of `valid_jobs` is not modelled; only its first element, which `LatestIndex` characterises, is kept.
- `str(e)` of an `HTTPException` is taken to be `"<status>: <detail>"`, the form FastAPI's exception class gives. That class is not part of this model.
- Rendering templates, `flash` and redirects in the frontend: the pages are results that name the redirect target, the flashed text or the rendered data.
- `get_analysis_status` is only used through the job reply the analysis page receives; `Frontend.JobJsonOf` gives its status field.
