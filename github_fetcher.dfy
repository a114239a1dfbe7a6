/**
 * The decisions of `fetch_repo_zip`: which URLs are accepted, where the
 * archive is fetched from and stored, how failures are reported, and which
 * directory becomes the repository root.
 *
 * The download, the extraction, the removal of the archive and the listing
 * of the working directory are not performed here: a `World` supplies their
 * outcomes, and the result records the file-system and network actions the
 * call asks for, in order.
 */
module GithubFetcher {
  import opened Results
  import opened Text

  /** Where the per-job working directories live. */
  const STORAGE_DIR: string := "storage/repos"

  /** The host every accepted URL must mention. */
  const GITHUB_DOMAIN: string := "github.com"

  /** Appended to the repository URL to name its default-branch archive. */
  const ARCHIVE_SUFFIX: string := "/archive/HEAD.zip"

  const ARCHIVE_NAME: string := "repo.zip"

  const UNSUPPORTED_DETAIL: string := "Only GitHub repos are supported"
  const DOWNLOAD_FAILED_PREFIX: string := "Failed to download repo: "
  const BAD_ZIP_DETAIL: string := "Invalid ZIP file downloaded"

  /** An exception leaving `fetch_repo_zip`: an `HTTPException`, or any other exception passed through. */
  datatype FetchError = HttpError(status: nat, detail: string) | Raised(message: string)

  /** How fetching the archive URL and writing the body to disk ended. */
  datatype Download = Downloaded | DownloadFailed(cause: string)

  /** How opening and extracting the archive ended. */
  datatype Extraction = Extracted | NotAZip | ExtractionRaised(message: string)

  /** One entry of the working directory after extraction. */
  datatype DirEntry = DirEntry(name: string, isDir: bool)

  /**
   * The outcomes the file system and the network give to the call: the
   * message of the exception `os.makedirs`, `os.remove` or `os.listdir`
   * raises, if any, and what the other steps give.
   */
  datatype World = World(
    makeDirsError: Option<string>,
    download: string -> Download,
    extraction: Extraction,
    removeError: Option<string>,
    listError: Option<string>,
    listing: seq<DirEntry>)

  /** A file-system or network action, in the order the call performs them. */
  datatype Action =
    | MakeDirs(path: string)
    | Get(url: string, into: string)
    | Extract(archive: string, target: string)
    | Remove(path: string)
    | List(path: string)

  datatype Fetch = Fetch(actions: seq<Action>, result: Result<string, FetchError>)

  function ZipUrl(repoUrl: string): string
  {
    repoUrl + ARCHIVE_SUFFIX
  }

  function TargetDir(jobKey: string): string
  {
    PathJoin(STORAGE_DIR, jobKey)
  }

  function ZipPath(jobKey: string): string
  {
    PathJoin(TargetDir(jobKey), ARCHIVE_NAME)
  }

  /** The names of the directories among `listing`, in listing order. */
  function Folders(listing: seq<DirEntry>): seq<string>
  {
    if listing == [] then []
    else
      var last := listing[|listing| - 1];
      Folders(listing[..|listing| - 1]) + (if last.isDir then [last.name] else [])
  }

  /** The root: the only extracted folder when there is exactly one, otherwise the working directory. */
  function ResolveRoot(target: string, listing: seq<DirEntry>): string
  {
    var folders := Folders(listing);
    if |folders| == 1 then PathJoin(target, folders[0]) else target
  }

  /** What `fetch_repo_zip(repo_url, job_id)` does and returns in the world `w`. */
  function FetchRepoZip(repoUrl: string, jobKey: string, w: World): Fetch
  {
    if !Contains(repoUrl, GITHUB_DOMAIN) then
      Fetch([], Failure(HttpError(400, UNSUPPORTED_DETAIL)))
    else
      var target := TargetDir(jobKey);
      var zipPath := ZipPath(jobKey);
      if w.makeDirsError.Some? then Fetch([MakeDirs(target)], Failure(Raised(w.makeDirsError.value)))
      else
      var fetched := [MakeDirs(target), Get(ZipUrl(repoUrl), zipPath)];
      match w.download(ZipUrl(repoUrl))
      case DownloadFailed(cause) =>
        Fetch(fetched, Failure(HttpError(500, DOWNLOAD_FAILED_PREFIX + cause)))
      case Downloaded =>
        var extracted := fetched + [Extract(zipPath, target)];
        match w.extraction
        case NotAZip => Fetch(extracted, Failure(HttpError(500, BAD_ZIP_DETAIL)))
        case ExtractionRaised(message) => Fetch(extracted, Failure(Raised(message)))
        case Extracted =>
          var removed := extracted + [Remove(zipPath)];
          match w.removeError
          case Some(message) => Fetch(removed, Failure(Raised(message)))
          case None =>
            var listed := removed + [List(target)];
            match w.listError
            case Some(message) => Fetch(listed, Failure(Raised(message)))
            case None => Fetch(listed, Success(ResolveRoot(target, w.listing)))
  }

  // ----- properties -----

  /**
   * A URL that does not mention `github.com` is refused with status 400
   * before anything is created or downloaded, and only such a URL is.
   */
  lemma RejectsForeignHosts(repoUrl: string, jobKey: string, w: World)
    ensures var f := FetchRepoZip(repoUrl, jobKey, w);
      (f.result == Failure(HttpError(400, UNSUPPORTED_DETAIL)) <==> !Contains(repoUrl, GITHUB_DOMAIN))
      && (!Contains(repoUrl, GITHUB_DOMAIN) ==> f.actions == [])
  {
  }

  /**
   * An accepted URL first creates the job's working directory. When that
   * raises, the exception leaves the call and nothing else is done;
   * otherwise the call downloads exactly the repository URL followed by
   * `/archive/HEAD.zip` into `repo.zip` inside the directory.
   */
  lemma DownloadsArchive(repoUrl: string, jobKey: string, w: World)
    requires Contains(repoUrl, GITHUB_DOMAIN)
    ensures var f := FetchRepoZip(repoUrl, jobKey, w);
      && |f.actions| >= 1
      && f.actions[0] == MakeDirs(PathJoin(STORAGE_DIR, jobKey))
      && (w.makeDirsError.Some? ==> f.actions == [f.actions[0]] && f.result == Failure(Raised(w.makeDirsError.value)))
      && (w.makeDirsError.None? ==>
        |f.actions| >= 2
        && f.actions[1] == Get(repoUrl + "/archive/HEAD.zip", PathJoin(PathJoin(STORAGE_DIR, jobKey), "repo.zip")))
  {
  }

  /** The archive URL is the repository URL followed by the fixed suffix, so the repository URL can be read back from it. */
  lemma ZipUrlParts(repoUrl: string)
    ensures StartsWith(ZipUrl(repoUrl), repoUrl) && EndsWith(ZipUrl(repoUrl), ARCHIVE_SUFFIX)
    ensures ZipUrl(repoUrl)[..|repoUrl|] == repoUrl
  {
    var z := ZipUrl(repoUrl);
    assert z[..|repoUrl|] == repoUrl;
    assert z[|z| - |ARCHIVE_SUFFIX|..] == ARCHIVE_SUFFIX;
  }

  /**
   * A failed download is reported as status 500 carrying its cause, and
   * the archive is never opened.
   */
  lemma DownloadFailureStops(repoUrl: string, jobKey: string, w: World, cause: string)
    requires Contains(repoUrl, GITHUB_DOMAIN) && w.makeDirsError.None? && w.download(ZipUrl(repoUrl)) == DownloadFailed(cause)
    ensures var f := FetchRepoZip(repoUrl, jobKey, w);
      && f.result == Failure(HttpError(500, DOWNLOAD_FAILED_PREFIX + cause))
      && forall k :: 0 <= k < |f.actions| ==> !f.actions[k].Extract?
  {
  }

  /** An archive that is not a ZIP file is reported as status 500 with a fixed message. */
  lemma CorruptArchive(repoUrl: string, jobKey: string, w: World)
    requires Contains(repoUrl, GITHUB_DOMAIN) && w.makeDirsError.None? && w.download(ZipUrl(repoUrl)) == Downloaded
    ensures FetchRepoZip(repoUrl, jobKey, w).result == Failure(HttpError(500, BAD_ZIP_DETAIL)) <==> w.extraction == NotAZip
  {
  }

  /**
   * The call succeeds exactly when every step does (creating the
   * directory, the download, the extraction, removing the archive and
   * listing the directory), and then returns the
   * only extracted folder if there is exactly one, else the working
   * directory.
   */
  lemma RootResolution(repoUrl: string, jobKey: string, w: World)
    ensures var f := FetchRepoZip(repoUrl, jobKey, w);
      f.result.Success? <==>
        Contains(repoUrl, GITHUB_DOMAIN) && w.makeDirsError == None && w.download(ZipUrl(repoUrl)) == Downloaded
        && w.extraction == Extracted && w.removeError == None && w.listError == None
    ensures var f := FetchRepoZip(repoUrl, jobKey, w);
      var folders := Folders(w.listing);
      f.result.Success? ==>
        && (|folders| == 1 ==> f.result.value == PathJoin(TargetDir(jobKey), folders[0]))
        && (|folders| != 1 ==> f.result.value == TargetDir(jobKey))
  {
  }

  /** A folder is listed among the extracted folders exactly when the listing shows it as a directory. */
  lemma {:induction false} FoldersIff(listing: seq<DirEntry>, name: string)
    ensures name in Folders(listing) <==> DirEntry(name, true) in listing
  {
    if listing != [] {
      var pre := listing[..|listing| - 1];
      FoldersIff(pre, name);
      assert listing == pre + [listing[|listing| - 1]];
    }
  }

  /**
   * The root lies inside the job's working directory: it is the working
   * directory or one folder below it.
   */
  lemma RootInsideTarget(target: string, listing: seq<DirEntry>)
    requires target != [] && target[|target| - 1] != '/'
    requires forall k :: 0 <= k < |listing| ==> listing[k].name != [] && listing[k].name[0] != '/'
    ensures var root := ResolveRoot(target, listing);
      root == target || (StartsWith(root, target + "/") && DirEntry(root[|target| + 1..], true) in listing)
  {
    var folders := Folders(listing);
    if |folders| == 1 {
      var d := folders[0];
      FoldersIff(listing, d);
      var k :| 0 <= k < |listing| && listing[k] == DirEntry(d, true);
      assert d[0] == listing[k].name[0];
      var root := target + "/" + d;
      assert root[..|target| + 1] == target + "/";
      assert root[|target| + 1..] == d;
    }
  }

  /**
   * Distinct jobs get distinct working directories: the directory is
   * `storage/repos/<job id>`, and the job id can be read back from it.
   */
  lemma TargetDirPerJob(a: int, b: int)
    ensures TargetDir(IntToString(a)) == STORAGE_DIR + "/" + IntToString(a)
    ensures TargetDir(IntToString(a)) == TargetDir(IntToString(b)) ==> a == b
  {
    NoLeadingSlash(a);
    NoLeadingSlash(b);
    var ta, tb := TargetDir(IntToString(a)), TargetDir(IntToString(b));
    if ta == tb {
      var n := |STORAGE_DIR| + 1;
      assert ta[n..] == IntToString(a);
      assert tb[n..] == IntToString(b);
      IntToStringInjective(a, b);
    }
  }

  lemma NoLeadingSlash(i: int)
    ensures !StartsWith(IntToString(i), "/")
  {
    var s := IntToString(i);
    if i >= 0 {
      assert IsDigit(s[0]);
    }
  }
}
