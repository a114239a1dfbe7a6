/**
 * The repositories router: registering a repository from a GitHub URL or
 * an `owner/name` pair, listing the current user's repositories a page at
 * a time, and deleting one of them.
 *
 * The URL is normalised by plain string operations: strip, keep the text
 * after the last `github.com/` when there is one, split on `/`, join the
 * first two pieces and delete every `.git`. Only the number of pieces is
 * checked, so empty pieces are accepted.
 */
module Repos {
  import opened Results
  import opened Text
  import opened Models

  /** The marker after which the `owner/name` part of a URL starts. */
  const GITHUB_MARKER: string := "github.com/"

  /** The stored URL is this prefix followed by the full name. */
  const CANONICAL_PREFIX: string := "https://github.com/"

  const INVALID_URL_DETAIL: string := "Invalid GitHub URL or identifiers"

  /** Every occurrence of this text is removed from the full name. */
  const GIT_SUFFIX: string := ".git"

  /** The `owner/name` and the canonical URL derived from a submitted URL. */
  datatype ParsedUrl = ParsedUrl(fullName: string, url: string)

  /** What follows the last `github.com/` of `url`, or all of `url` when it has none. */
  function AfterMarker(url: string): string
  {
    if Contains(url, GITHUB_MARKER) then
      var pieces := Split(url, GITHUB_MARKER);
      pieces[|pieces| - 1]
    else url
  }

  /** The text that is split on `/`: the stripped URL after its last `github.com/`. */
  function Locator(raw: string): string
  {
    AfterMarker(Strip(raw))
  }

  /** The `parts` list of `create_repository`. */
  function UrlParts(raw: string): seq<string>
  {
    Split(Locator(raw), "/")
  }

  /** From the pieces on: 400 when there are fewer than two, else the name and URL to store. */
  function ParseParts(parts: seq<string>): Result<ParsedUrl, HttpException>
  {
    if |parts| < 2 then Failure(HttpException(400, INVALID_URL_DETAIL))
    else
      var fullName := RemoveAll(parts[0] + "/" + parts[1], GIT_SUFFIX);
      Success(ParsedUrl(fullName, CANONICAL_PREFIX + fullName))
  }

  /** The decisions of `create_repository` about a submitted URL. */
  function ParseRepoUrl(raw: string): Result<ParsedUrl, HttpException>
  {
    ParseParts(UrlParts(raw))
  }

  /**
   * `create_repository(repo)` for the user `userId`: a URL that does not
   * parse is refused and nothing is stored; otherwise a repository owned
   * by the user, with the parsed name and URL, is stored with the next id.
   */
  method CreateRepository(db: Database, userId: int, rawUrl: string) returns (r: Result<Repository, HttpException>)
    requires db.Valid()
    modifies db
    ensures db.Valid()
    ensures db.jobs == old(db.jobs) && db.nextJobId == old(db.nextJobId) && db.scheduled == old(db.scheduled)
    ensures ParseRepoUrl(rawUrl).Failure? ==>
      && r == Failure(ParseRepoUrl(rawUrl).error)
      && db.repositories == old(db.repositories) && db.nextRepositoryId == old(db.nextRepositoryId)
    ensures ParseRepoUrl(rawUrl).Success? ==>
      var parsed := ParseRepoUrl(rawUrl).value;
      && r == Success(Repository(old(db.nextRepositoryId), userId, parsed.fullName, parsed.url))
      && db.repositories == old(db.repositories) + [r.value]
      && db.nextRepositoryId == old(db.nextRepositoryId) + 1
  {
    var parsed := ParseRepoUrl(rawUrl);
    if parsed.Failure? {
      return Failure(parsed.error);
    }
    var repo := Repository(db.nextRepositoryId, userId, parsed.value.fullName, parsed.value.url);
    AddRepository(db, repo);
    r := Success(repo);
  }

  /** `db.add(new_repo)` and the commit that gives it the next id. */
  method AddRepository(db: Database, repo: Repository)
    requires db.Valid() && repo.id == db.nextRepositoryId
    modifies db
    ensures db.Valid()
    ensures db.repositories == old(db.repositories) + [repo] && db.nextRepositoryId == old(db.nextRepositoryId) + 1
    ensures db.jobs == old(db.jobs) && db.nextJobId == old(db.nextJobId) && db.scheduled == old(db.scheduled)
  {
    db.repositories := db.repositories + [repo];
    db.nextRepositoryId := db.nextRepositoryId + 1;
  }

  /** The repositories owned by `userId`, in stored order. */
  function Owned(repos: seq<Repository>, userId: int): (r: seq<Repository>)
    ensures forall x :: x in r <==> x in repos && x.userId == userId
    ensures |r| <= |repos|
  {
    if repos == [] then []
    else (if repos[0].userId == userId then [repos[0]] else []) + Owned(repos[1..], userId)
  }

  /** `.offset(skip).limit(limit)`: at most `limit` items, starting after the first `skip`. */
  function Page<T>(xs: seq<T>, skip: nat, limit: nat): seq<T>
  {
    var start := if skip <= |xs| then skip else |xs|;
    var stop := if start + limit <= |xs| then start + limit else |xs|;
    xs[start..stop]
  }

  /** `read_repositories(skip, limit)` for the user `userId`. */
  function ReadRepositories(db: Database, userId: int, skip: nat, limit: nat): (r: seq<Repository>)
    reads db
    ensures |r| <= limit
    ensures forall x :: x in r ==> x in db.repositories && x.userId == userId
  {
    Page(Owned(db.repositories, userId), skip, limit)
  }

  /** The index of the first repository with the id `id` owned by `userId`. */
  function FindOwned(repos: seq<Repository>, id: int, userId: int): (r: Option<nat>)
    ensures r.Some? ==> r.value < |repos| && repos[r.value].id == id && repos[r.value].userId == userId
    ensures r.None? ==> forall k :: 0 <= k < |repos| ==> repos[k].id != id || repos[k].userId != userId
  {
    if repos == [] then None
    else if repos[0].id == id && repos[0].userId == userId then Some(0)
    else
      match FindOwned(repos[1..], id, userId)
      case None => None
      case Some(k) => Some(k + 1)
  }

  /**
   * `delete_repository(id)` for the user `userId`: a repository that is
   * absent or owned by someone else gives 404 and nothing changes;
   * otherwise it is removed and the others stay in order.
   */
  method DeleteRepository(db: Database, userId: int, id: int) returns (r: Result<bool, HttpException>)
    requires db.Valid()
    modifies db
    ensures db.Valid()
    ensures db.jobs == old(db.jobs) && db.nextJobId == old(db.nextJobId) && db.scheduled == old(db.scheduled)
    ensures db.nextRepositoryId == old(db.nextRepositoryId)
    ensures FindOwned(old(db.repositories), id, userId).None? ==>
      r == Failure(HttpException(404, REPOSITORY_NOT_FOUND)) && db.repositories == old(db.repositories)
    ensures FindOwned(old(db.repositories), id, userId).Some? ==>
      var k := FindOwned(old(db.repositories), id, userId).value;
      r == Success(true) && db.repositories == old(db.repositories)[..k] + old(db.repositories)[k + 1..]
  {
    var found := FindOwned(db.repositories, id, userId);
    if found.None? {
      return Failure(HttpException(404, REPOSITORY_NOT_FOUND));
    }
    var k := found.value;
    RemovedIds(db.repositories, k);
    db.repositories := db.repositories[..k] + db.repositories[k + 1..];
    r := Success(true);
  }

  // ----- properties of the URL normalisation -----

  /**
   * When the stripped URL mentions `github.com/`, the text that is split
   * is what follows its last occurrence; otherwise it is the stripped URL.
   */
  lemma {:induction false} LocatorAfterLastMarker(raw: string)
    ensures Contains(Strip(raw), GITHUB_MARKER) ==>
      EndsWith(Strip(raw), GITHUB_MARKER + Locator(raw)) && !Contains(Locator(raw), GITHUB_MARKER)
    ensures !Contains(Strip(raw), GITHUB_MARKER) ==> Locator(raw) == Strip(raw)
  {
    var url := Strip(raw);
    if Contains(url, GITHUB_MARKER) {
      SplitLast(url, GITHUB_MARKER);
    }
  }

  /** A URL is refused, always with 400 and the same detail, exactly when the text that is split holds no `/`. */
  lemma {:induction false} ParseFailsIff(raw: string)
    ensures ParseRepoUrl(raw).Failure? <==> '/' !in Locator(raw)
    ensures ParseRepoUrl(raw).Failure? ==> ParseRepoUrl(raw).error == HttpException(400, INVALID_URL_DETAIL)
  {
    var loc := Locator(raw);
    SplitCount(loc, "/");
    ContainsChar(loc, '/');
  }

  /**
   * A stored name is an owner and a name, each without `/`, joined by one
   * `/`: the first two pieces with `.git` deleted from each, so splitting
   * it again gives exactly those two. The URL is the canonical prefix
   * followed by the name.
   */
  lemma {:induction false} ParsedName(raw: string)
    requires ParseRepoUrl(raw).Success?
    ensures var parts := UrlParts(raw);
      var owner, name := RemoveAll(parts[0], GIT_SUFFIX), RemoveAll(parts[1], GIT_SUFFIX);
      var parsed := ParseRepoUrl(raw).value;
      && parsed.fullName == owner + "/" + name
      && '/' !in owner && '/' !in name
      && Split(parsed.fullName, "/") == [owner, name]
      && parsed.url == CANONICAL_PREFIX + parsed.fullName
  {
    var parts := UrlParts(raw);
    PiecesHaveNoSlash(Locator(raw));
    ParsedPieces(parts);
  }

  /** The pieces of a split on `/` hold no `/`. */
  lemma {:induction false} PiecesHaveNoSlash(s: string)
    ensures forall k :: 0 <= k < |Split(s, "/")| ==> '/' !in Split(s, "/")[k]
  {
    var parts := Split(s, "/");
    forall k | 0 <= k < |parts| ensures '/' !in parts[k] {
      ContainsChar(parts[k], '/');
    }
  }

  /** `ParsedName` on the pieces themselves. */
  lemma {:induction false} ParsedPieces(parts: seq<string>)
    requires |parts| >= 2 && '/' !in parts[0] && '/' !in parts[1]
    ensures var owner, name := RemoveAll(parts[0], GIT_SUFFIX), RemoveAll(parts[1], GIT_SUFFIX);
      var parsed := ParseParts(parts).value;
      && parsed.fullName == owner + "/" + name
      && '/' !in owner && '/' !in name
      && Split(parsed.fullName, "/") == [owner, name]
      && parsed.url == CANONICAL_PREFIX + parsed.fullName
  {
    var owner, name := RemoveAll(parts[0], GIT_SUFFIX), RemoveAll(parts[1], GIT_SUFFIX);
    if '/' in owner { RemoveAllChars(parts[0], GIT_SUFFIX, '/'); }
    if '/' in name { RemoveAllChars(parts[1], GIT_SUFFIX, '/'); }
    assert parts[0] + "/" + parts[1] == parts[0] + ['/'] + parts[1];
    RemoveAllAround(parts[0], '/', parts[1], GIT_SUFFIX);
    SplitAtSingle(owner, '/', name);
  }

  /**
   * The three ways of naming a repository give the same record: `owner/name`,
   * its canonical URL and that URL with `.git` appended; in particular the
   * canonical URL parses back to itself. This needs an owner and a name
   * without `/`, `.git` or surrounding blanks, which do not form
   * `github.com/` together.
   */
  lemma {:induction false} CanonicalForms(owner: string, name: string)
    requires owner != [] && name != [] && !IsSpace(owner[0]) && !IsSpace(name[|name| - 1])
    requires '/' !in owner && '/' !in name
    requires !Contains(owner, GIT_SUFFIX) && !Contains(name, GIT_SUFFIX)
    requires !Contains(owner + "/" + name, GITHUB_MARKER)
    ensures var pair := owner + "/" + name;
      var expected := Success(ParsedUrl(pair, CANONICAL_PREFIX + pair));
      && ParseRepoUrl(pair) == expected
      && ParseRepoUrl(CANONICAL_PREFIX + pair) == expected
      && ParseRepoUrl(CANONICAL_PREFIX + pair + GIT_SUFFIX) == expected
  {
    RemoveAllAbsent(owner, GIT_SUFFIX);
    RemoveAllAbsent(name, GIT_SUFFIX);
    PairForm(owner, name);
    UrlForm(owner, name);
    GitUrlForm(owner, name);
  }

  lemma {:induction false} PairForm(owner: string, name: string)
    requires owner != [] && name != [] && !IsSpace(owner[0]) && !IsSpace(name[|name| - 1])
    requires '/' !in owner && '/' !in name
    requires RemoveAll(owner, GIT_SUFFIX) == owner && RemoveAll(name, GIT_SUFFIX) == name
    requires !Contains(owner + "/" + name, GITHUB_MARKER)
    ensures var pair := owner + "/" + name;
      ParseRepoUrl(pair) == Success(ParsedUrl(pair, CANONICAL_PREFIX + pair))
  {
    var pair := owner + "/" + name;
    PairLocator(pair);
    PlainPieces(owner, name);
  }

  lemma {:induction false} UrlForm(owner: string, name: string)
    requires name != [] && !IsSpace(name[|name| - 1])
    requires '/' !in owner && '/' !in name
    requires RemoveAll(owner, GIT_SUFFIX) == owner && RemoveAll(name, GIT_SUFFIX) == name
    requires !Contains(owner + "/" + name, GITHUB_MARKER)
    ensures var pair := owner + "/" + name;
      ParseRepoUrl(CANONICAL_PREFIX + pair) == Success(ParsedUrl(pair, CANONICAL_PREFIX + pair))
  {
    var pair := owner + "/" + name;
    PrefixedLocator(pair);
    PlainPieces(owner, name);
  }

  lemma {:induction false} GitUrlForm(owner: string, name: string)
    requires '/' !in owner && '/' !in name
    requires RemoveAll(owner, GIT_SUFFIX) == owner && !Contains(name, GIT_SUFFIX)
    requires !Contains(owner + "/" + name, GITHUB_MARKER)
    ensures var pair := owner + "/" + name;
      ParseRepoUrl(CANONICAL_PREFIX + pair + GIT_SUFFIX) == Success(ParsedUrl(pair, CANONICAL_PREFIX + pair))
  {
    GitLocator(owner, name);
    assert '/' !in name + GIT_SUFFIX;
    PlainPieces(owner, name + GIT_SUFFIX);
    GitDropped(name);
  }

  /** Behind the canonical prefix and before `.git`, the text that is split is the pair and the suffix. */
  lemma {:induction false} GitLocator(owner: string, name: string)
    requires !Contains(owner + "/" + name, GITHUB_MARKER)
    ensures Locator(CANONICAL_PREFIX + (owner + "/" + name) + GIT_SUFFIX) == owner + "/" + (name + GIT_SUFFIX)
  {
    var pair := owner + "/" + name;
    var rest := owner + "/" + (name + GIT_SUFFIX);
    SuffixedNoMarker(owner, name);
    assert pair + GIT_SUFFIX == rest;
    PrefixedLocator(rest);
    assert CANONICAL_PREFIX + pair + GIT_SUFFIX == CANONICAL_PREFIX + rest;
  }

  /** `(name + ".git").replace(".git", "")` is `name` when `name` holds no `.git`. */
  lemma {:induction false} GitDropped(name: string)
    requires !Contains(name, GIT_SUFFIX)
    ensures RemoveAll(name + GIT_SUFFIX, GIT_SUFFIX) == name
  {
    RemoveAllAfter(name, GIT_SUFFIX, []);
    assert name + GIT_SUFFIX + [] == name + GIT_SUFFIX;
    assert name + [] == name;
  }

  /** An `owner/name` pair without surrounding blanks or `github.com/` is split as it is. */
  lemma {:induction false} PairLocator(pair: string)
    requires pair != [] && !IsSpace(pair[0]) && !IsSpace(pair[|pair| - 1])
    requires !Contains(pair, GITHUB_MARKER)
    ensures Locator(pair) == pair
  {
    StripUntrimmed(pair);
  }

  /** Behind the canonical prefix, the text that is split is what follows it. */
  lemma {:induction false} PrefixedLocator(rest: string)
    requires rest != [] && !IsSpace(rest[|rest| - 1]) && !Contains(rest, GITHUB_MARKER)
    ensures Locator(CANONICAL_PREFIX + rest) == rest
  {
    var url := CANONICAL_PREFIX + rest;
    assert url[0] == 'h';
    assert url[|url| - 1] == rest[|rest| - 1];
    StripUntrimmed(url);
    MarkedTail(rest);
  }

  lemma {:induction false} MarkedTail(rest: string)
    requires !Contains(rest, GITHUB_MARKER)
    ensures AfterMarker(CANONICAL_PREFIX + rest) == rest
  {
    assert CANONICAL_PREFIX + rest == "https://" + GITHUB_MARKER + rest;
    SplitLastAfter("https://", GITHUB_MARKER, rest);
  }

  /** Appending `.git` to a pair that holds no `github.com/` does not create one. */
  lemma {:induction false} SuffixedNoMarker(owner: string, name: string)
    requires !Contains(owner + "/" + name, GITHUB_MARKER)
    ensures !Contains(owner + "/" + name + GIT_SUFFIX, GITHUB_MARKER)
  {
    var pair := owner + "/" + name;
    if Contains(pair + GIT_SUFFIX, GITHUB_MARKER) {
      var i :| 0 <= i <= |pair + GIT_SUFFIX| - |GITHUB_MARKER| && OccursAt(pair + GIT_SUFFIX, GITHUB_MARKER, i);
      OccursBeforeChar(pair, GIT_SUFFIX, GITHUB_MARKER, i);
      assert false;
    }
  }

  /** A text made of an owner, one `/` and a name splits into exactly those two pieces. */
  lemma {:induction false} PlainPieces(owner: string, name: string)
    requires '/' !in owner && '/' !in name
    ensures var fullName := RemoveAll(owner, GIT_SUFFIX) + "/" + RemoveAll(name, GIT_SUFFIX);
      ParseParts(Split(owner + "/" + name, "/")) == Success(ParsedUrl(fullName, CANONICAL_PREFIX + fullName))
  {
    assert owner + "/" + name == owner + ['/'] + name;
    SplitAtSingle(owner, '/', name);
    RemoveAllAround(owner, '/', name, GIT_SUFFIX);
  }

  /** A URL ending in a slash is accepted with an empty name: only the number of pieces is checked. */
  lemma {:induction false} TrailingSlashAccepted(owner: string)
    requires '/' !in owner && !Contains(owner, GIT_SUFFIX)
    requires !Contains(owner + "/", GITHUB_MARKER)
    ensures ParseRepoUrl(CANONICAL_PREFIX + (owner + "/")) == Success(ParsedUrl(owner + "/", CANONICAL_PREFIX + (owner + "/")))
  {
    var pair := owner + "/";
    PrefixedLocator(pair);
    assert pair == owner + "/" + [];
    PlainPieces(owner, []);
    RemoveAllAbsent(owner, GIT_SUFFIX);
  }

  /**
   * Every `.git` is removed, not only a trailing one: a name that starts
   * with `.git` loses that part.
   */
  lemma {:induction false} GitInsideNameDropped(owner: string, rest: string)
    requires '/' !in owner && '/' !in rest && !Contains(owner, GIT_SUFFIX) && !Contains(rest, GIT_SUFFIX)
    requires rest != [] && !IsSpace(rest[|rest| - 1])
    requires !Contains(owner + "/" + (GIT_SUFFIX + rest), GITHUB_MARKER)
    ensures ParseRepoUrl(CANONICAL_PREFIX + (owner + "/" + (GIT_SUFFIX + rest))) == Success(ParsedUrl(owner + "/" + rest, CANONICAL_PREFIX + (owner + "/" + rest)))
  {
    var name := GIT_SUFFIX + rest;
    PrefixedLocator(owner + "/" + name);
    GitPrefixNoSlash(rest);
    PlainPieces(owner, name);
    RemoveAllAbsent(owner, GIT_SUFFIX);
    GitPrefixDropped(rest);
  }

  lemma GitPrefixNoSlash(rest: string)
    requires '/' !in rest
    ensures '/' !in GIT_SUFFIX + rest
  {
    assert forall k :: 0 <= k < |GIT_SUFFIX| ==> GIT_SUFFIX[k] != '/';
  }

  /** `(".git" + rest).replace(".git", "")` is `rest` when `rest` holds no `.git`. */
  lemma {:induction false} GitPrefixDropped(rest: string)
    requires !Contains(rest, GIT_SUFFIX)
    ensures RemoveAll(GIT_SUFFIX + rest, GIT_SUFFIX) == rest
  {
    var s := GIT_SUFFIX + rest;
    assert s[..|GIT_SUFFIX|] == GIT_SUFFIX;
    assert s[|GIT_SUFFIX|..] == rest;
    RemoveAllAbsent(rest, GIT_SUFFIX);
  }

  /** The repository `<owner>/.github` is recorded as `<owner>/hub`. */
  lemma DotGithubBecomesHub(owner: string)
    requires '/' !in owner && !Contains(owner, GIT_SUFFIX)
    requires !Contains(owner + "/.github", GITHUB_MARKER)
    ensures ParseRepoUrl(CANONICAL_PREFIX + owner + "/.github") == Success(ParsedUrl(owner + "/hub", CANONICAL_PREFIX + owner + "/hub"))
  {
    var hub := "hub";
    assert "/" + (GIT_SUFFIX + hub) == "/.github";
    assert owner + "/" + (GIT_SUFFIX + hub) == owner + "/.github";
    assert CANONICAL_PREFIX + (owner + "/.github") == CANONICAL_PREFIX + owner + "/.github";
    assert owner + "/" + hub == owner + "/hub";
    assert CANONICAL_PREFIX + (owner + "/hub") == CANONICAL_PREFIX + owner + "/hub";
    GitInsideNameDropped(owner, hub);
  }

  // ----- properties of listing and deleting -----

  /** Owned repositories keep their stored order: the filter distributes over concatenation. */
  lemma {:induction false} OwnedAppend(a: seq<Repository>, b: seq<Repository>, userId: int)
    ensures Owned(a + b, userId) == Owned(a, userId) + Owned(b, userId)
    decreases |a|
  {
    if a == [] {
      assert a + b == b;
    } else {
      OwnedAppend(a[1..], b, userId);
      assert (a + b)[0] == a[0];
      assert (a + b)[1..] == a[1..] + b;
      var head := if a[0].userId == userId then [a[0]] else [];
      assert Owned(a + b, userId) == head + (Owned(a[1..], userId) + Owned(b, userId));
      assert head + (Owned(a[1..], userId) + Owned(b, userId)) == head + Owned(a[1..], userId) + Owned(b, userId);
    }
  }

  /**
   * Consecutive pages fit together: the page of `m` items after `skip`
   * followed by the page of `n` items after `skip + m` is the page of
   * `m + n` items after `skip`; a page holds `limit` items unless the list
   * runs out first.
   */
  lemma PagesJoin<T>(xs: seq<T>, skip: nat, m: nat, n: nat)
    ensures Page(xs, skip, m) + Page(xs, skip + m, n) == Page(xs, skip, m + n)
    ensures |Page(xs, skip, m)| == if skip + m <= |xs| then m else if skip <= |xs| then |xs| - skip else 0
  {
  }

  /** With no offset and a limit covering them all, the listing is every owned repository in order. */
  lemma {:induction false} ListAll(db: Database, userId: int)
    ensures ReadRepositories(db, userId, 0, |db.repositories|) == Owned(db.repositories, userId)
  {
  }

  /** Removing the `k`-th repository removes exactly the repository with its id when ids are unique. */
  lemma {:induction false} RemovedIds(repos: seq<Repository>, k: nat)
    requires k < |repos|
    requires forall i, j :: 0 <= i < j < |repos| ==> repos[i].id != repos[j].id
    ensures var rest := repos[..k] + repos[k + 1..];
      && (forall x :: x in rest <==> x in repos && x.id != repos[k].id)
      && (forall i, j :: 0 <= i < j < |rest| ==> rest[i].id != rest[j].id)
  {
    var rest := repos[..k] + repos[k + 1..];
    assert forall i :: 0 <= i < |rest| ==> rest[i] == repos[if i < k then i else i + 1];
    forall x | x in repos && x.id != repos[k].id ensures x in rest {
      var i :| 0 <= i < |repos| && repos[i] == x;
      assert i != k;
      assert rest[if i < k then i else i - 1] == x;
    }
  }

  /**
   * After a successful delete no repository has the deleted id, and every
   * other repository, including other users' ones, is still stored.
   */
  lemma {:induction false} DeleteRemovesOnly(before: seq<Repository>, id: int, userId: int)
    requires forall i, j :: 0 <= i < j < |before| ==> before[i].id != before[j].id
    requires FindOwned(before, id, userId).Some?
    ensures var k := FindOwned(before, id, userId).value;
      var after := before[..k] + before[k + 1..];
      forall x :: x in after <==> x in before && x.id != id
  {
    RemovedIds(before, FindOwned(before, id, userId).value);
  }
}
