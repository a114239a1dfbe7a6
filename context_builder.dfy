/**
 * The evidence composer: `build_context` indexes the repository, keeps the
 * first 300 paths of the sorted tree and the statistics, gathers the key
 * files and the entry-point files into a candidate list, removes duplicates
 * through a set, and reads at most 10 of the candidates.
 *
 * The order `list(set(...))` produces is not specified by Python, so
 * `Dedupe` may return the distinct candidates in any order; every property
 * of `BuildContext` holds for each of those orders.
 */
module ContextBuilder {
  import opened Text
  import opened RepoTree
  import opened PathOrder
  import opened RepoIndexer

  /** How many tree entries the evidence keeps. */
  const STRUCTURE_LIMIT: nat := 300

  /** How many candidate files are read. */
  const FILE_LIMIT: nat := 10

  /** The line limit `read_file_content` applies by default. */
  const LINE_LIMIT: int := 100

  /** File names that make a tree entry an entry point. */
  const ENTRY_POINTS: seq<string> := ["main.py", "app.py", "index.js", "server.js", "manage.py"]

  /** One key/value pair of `files_content`, in insertion order. */
  datatype FileEntry = FileEntry(path: string, content: string)

  /** The evidence package: the tree slice, the statistics and the file contents. */
  datatype Evidence = Evidence(structure: seq<string>, stats: Stats, filesContent: seq<FileEntry>)

  function Min(a: nat, b: nat): nat
  {
    if a <= b then a else b
  }

  predicate IsEntryPoint(p: string)
  {
    Basename(p) in ENTRY_POINTS
  }

  /** Whether each path of `tree` is an entry point. */
  function EntryFlags(tree: seq<string>): seq<bool>
  {
    seq(|tree|, k requires 0 <= k < |tree| => IsEntryPoint(tree[k]))
  }

  /** The entry points of `tree`, in tree order. */
  function EntryPoints(tree: seq<string>): seq<string>
  {
    Select(tree, EntryFlags(tree))
  }

  predicate Distinct(xs: seq<string>)
  {
    forall i, j :: 0 <= i < j < |xs| ==> xs[i] != xs[j]
  }

  /** The keys of `files_content`, in insertion order. */
  function Paths(entries: seq<FileEntry>): seq<string>
  {
    seq(|entries|, k requires 0 <= k < |entries| => entries[k].path)
  }

  /** The list `prioritized_files` holds before duplicates are removed. */
  function CandidateList(index: IndexResult): seq<string>
  {
    index.keyFiles + EntryPoints(index.tree)
  }

  /** The candidate set: the key files and the entry points of the tree. */
  function Candidates(index: IndexResult): set<string>
  {
    set p | p in CandidateList(index)
  }

  /** What the evidence records about a file it read. */
  function ReadEntry(repoPath: string, contents: string -> FileRead, rel: string): FileEntry
  {
    FileEntry(rel, FileText(contents(PathJoin(repoPath, rel)), LINE_LIMIT))
  }

  /**
   * `list(set(xs))`: the distinct elements of `xs`, each once, in an order
   * the model leaves open.
   */
  method Dedupe(xs: seq<string>) returns (r: seq<string>)
    ensures Distinct(r)
    ensures forall x :: x in r <==> x in xs
    ensures |r| == |set x | x in xs|
  {
    var all := set x | x in xs;
    var pending := all;
    r := [];
    while pending != {}
      invariant Distinct(r)
      invariant forall x :: x in r ==> x in all && x !in pending
      invariant forall x :: x in all ==> x in r || x in pending
      invariant pending <= all
      invariant |r| + |pending| == |all|
      decreases |pending|
    {
      var x :| x in pending;
      r := r + [x];
      pending := pending - {x};
    }
  }

  /**
   * What every evidence package composed for the tree `root` at `repoPath`
   * satisfies, whichever order the duplicate-free candidates take: the
   * structure is the first 300 paths of the sorted tree (all of them when
   * there are fewer) and the statistics are the indexer's; the file
   * contents hold `min(10, |candidates|)` distinct candidates, each with
   * the text `read_file_content` gives for it below the root.
   */
  predicate EvidenceFor(repoPath: string, root: Node, contents: string -> FileRead, e: Evidence)
  {
    var index := Index(repoPath, root);
    && e.structure == index.tree[..Min(STRUCTURE_LIMIT, |index.tree|)]
    && e.stats == index.stats
    && |e.structure| == Min(STRUCTURE_LIMIT, e.stats.files) && Sorted(e.structure)
    && Distinct(Paths(e.filesContent))
    && |e.filesContent| == Min(FILE_LIMIT, |Candidates(index)|)
    && forall i :: 0 <= i < |e.filesContent| ==>
      && e.filesContent[i].path in Candidates(index)
      && e.filesContent[i] == ReadEntry(repoPath, contents, e.filesContent[i].path)
  }

  /**
   * `build_context(repo_path)` for the tree `root` at `repoPath`, reading a
   * file at a full path through `contents`.
   */
  method BuildContext(repoPath: string, root: Node, contents: string -> FileRead) returns (e: Evidence)
    ensures EvidenceFor(repoPath, root, contents, e)
  {
    var index := IndexRepo(repoPath, root);
    var structure := index.tree[..Min(STRUCTURE_LIMIT, |index.tree|)];
    var prioritized := AddEntryPoints(index.keyFiles, index.tree);
    prioritized := Dedupe(prioritized);
    var chosen := prioritized[..Min(FILE_LIMIT, |prioritized|)];
    var filesContent := ReadFiles(repoPath, contents, chosen);
    e := Evidence(structure, index.stats, filesContent);
    ComposedEvidence(repoPath, root, contents, index, prioritized, e);
  }

  /** The steps of `build_context` together give evidence `EvidenceFor` describes. */
  lemma ComposedEvidence(repoPath: string, root: Node, contents: string -> FileRead,
                         index: IndexResult, prioritized: seq<string>, e: Evidence)
    requires index == Index(repoPath, root)
    requires Sorted(index.tree) && index.stats.files == |index.tree|
    requires Distinct(prioritized)
    requires forall x :: x in prioritized <==> x in CandidateList(index)
    requires |prioritized| == |set x | x in CandidateList(index)|
    requires e.structure == index.tree[..Min(STRUCTURE_LIMIT, |index.tree|)] && e.stats == index.stats
    requires Paths(e.filesContent) == prioritized[..Min(FILE_LIMIT, |prioritized|)]
    requires forall k :: 0 <= k < |e.filesContent| ==>
      e.filesContent[k] == ReadEntry(repoPath, contents, prioritized[..Min(FILE_LIMIT, |prioritized|)][k])
    ensures EvidenceFor(repoPath, root, contents, e)
  {
    StructurePart(index.tree, e.structure);
    ChosenDistinct(prioritized, e.filesContent);
    ChosenEntries(repoPath, contents, index, prioritized, e.filesContent);
  }

  /** The first 300 paths of a sorted tree are sorted, and there are `min(300, |tree|)` of them. */
  lemma StructurePart(tree: seq<string>, structure: seq<string>)
    requires Sorted(tree) && structure == tree[..Min(STRUCTURE_LIMIT, |tree|)]
    ensures |structure| == Min(STRUCTURE_LIMIT, |tree|) && Sorted(structure)
  {
    forall i, j | 0 <= i < j < |structure| ensures Below(structure[i], structure[j]) {
      assert structure[i] == tree[i] && structure[j] == tree[j];
    }
  }

  /** A prefix of a duplicate-free list is duplicate-free. */
  lemma ChosenDistinct(prioritized: seq<string>, files: seq<FileEntry>)
    requires Distinct(prioritized) && Paths(files) == prioritized[..Min(FILE_LIMIT, |prioritized|)]
    ensures Distinct(Paths(files))
  {
    var chosen := prioritized[..Min(FILE_LIMIT, |prioritized|)];
    forall i, j | 0 <= i < j < |chosen| ensures chosen[i] != chosen[j] {
      assert chosen[i] == prioritized[i] && chosen[j] == prioritized[j];
    }
  }

  /** The files read are `min(10, |candidates|)` candidates, each with its own text. */
  lemma ChosenEntries(repoPath: string, contents: string -> FileRead, index: IndexResult,
                      prioritized: seq<string>, files: seq<FileEntry>)
    requires forall x :: x in prioritized <==> x in CandidateList(index)
    requires |prioritized| == |Candidates(index)|
    requires Paths(files) == prioritized[..Min(FILE_LIMIT, |prioritized|)]
    requires forall k :: 0 <= k < |files| ==>
      files[k] == ReadEntry(repoPath, contents, prioritized[..Min(FILE_LIMIT, |prioritized|)][k])
    ensures |files| == Min(FILE_LIMIT, |Candidates(index)|)
    ensures forall i :: 0 <= i < |files| ==>
      files[i].path in Candidates(index) && files[i] == ReadEntry(repoPath, contents, files[i].path)
  {
    var chosen := prioritized[..Min(FILE_LIMIT, |prioritized|)];
    assert |files| == |chosen| by { assert |Paths(files)| == |files|; }
    forall i | 0 <= i < |files|
      ensures files[i].path in Candidates(index)
      ensures files[i] == ReadEntry(repoPath, contents, files[i].path)
    {
      assert Paths(files)[i] == files[i].path;
      assert chosen[i] == prioritized[i];
    }
  }

  /** The loop over the tree: appends each entry point, in tree order, to `prioritized`. */
  method AddEntryPoints(keyFiles: seq<string>, tree: seq<string>) returns (prioritized: seq<string>)
    ensures prioritized == keyFiles + EntryPoints(tree)
  {
    prioritized := keyFiles;
    for i := 0 to |tree|
      invariant prioritized == keyFiles + EntryPoints(tree[..i])
    {
      var f := tree[i];
      EntryPointsNext(keyFiles, tree, i, prioritized);
      if IsEntryPoint(f) {
        prioritized := prioritized + [f];
      }
    }
    assert tree[..|tree|] == tree;
  }

  /** The loop filling `files_content`: reads each chosen path below the root, in order. */
  method ReadFiles(repoPath: string, contents: string -> FileRead, chosen: seq<string>) returns (filesContent: seq<FileEntry>)
    ensures Paths(filesContent) == chosen
    ensures forall k :: 0 <= k < |chosen| ==> filesContent[k] == ReadEntry(repoPath, contents, chosen[k])
  {
    filesContent := [];
    for i := 0 to |chosen|
      invariant |filesContent| == i
      invariant forall k :: 0 <= k < i ==> filesContent[k] == ReadEntry(repoPath, contents, chosen[k])
    {
      var relPath := chosen[i];
      var text := ReadFileContent(contents(PathJoin(repoPath, relPath)), LINE_LIMIT);
      filesContent := filesContent + [FileEntry(relPath, text)];
    }
  }

  /** Looking at one more tree entry adds it to the list when its basename is an entry-point name. */
  lemma EntryPointsNext(keyFiles: seq<string>, tree: seq<string>, i: nat, prioritized: seq<string>)
    requires i < |tree| && prioritized == keyFiles + EntryPoints(tree[..i])
    ensures IsEntryPoint(tree[i]) ==> prioritized + [tree[i]] == keyFiles + EntryPoints(tree[..i + 1])
    ensures !IsEntryPoint(tree[i]) ==> prioritized == keyFiles + EntryPoints(tree[..i + 1])
  {
    var seen, seen' := EntryPoints(tree[..i]), EntryPoints(tree[..i + 1]);
    EntryPointsSnoc(tree, i);
    if IsEntryPoint(tree[i]) {
      AppendAssoc(keyFiles, seen, tree[i]);
    }
  }

  /**
   * Regrouping a concatenation. Stated apart from `EntryPointsNext` so that
   * the solver meets it only on these names and not amid the selection facts.
   */
  lemma AppendAssoc(a: seq<string>, b: seq<string>, x: string)
    ensures a + b + [x] == a + (b + [x])
  {
  }

  lemma EntryPointsSnoc(tree: seq<string>, i: nat)
    requires i < |tree|
    ensures IsEntryPoint(tree[i]) ==> EntryPoints(tree[..i + 1]) == EntryPoints(tree[..i]) + [tree[i]]
    ensures !IsEntryPoint(tree[i]) ==> EntryPoints(tree[..i + 1]) == EntryPoints(tree[..i])
  {
    var pre := tree[..i + 1];
    assert pre[..i] == tree[..i];
    assert EntryFlags(pre)[..i] == EntryFlags(tree[..i]);
  }

  /** A path is an entry point of the tree exactly when it is in the tree and its basename is an entry-point name. */
  lemma EntryPointsIff(tree: seq<string>, p: string)
    ensures p in EntryPoints(tree) <==> p in tree && IsEntryPoint(p)
  {
    SelectMembers(tree, EntryFlags(tree), p);
  }

  /**
   * The candidates are the key files together with the tree entries whose
   * basename is an entry-point name, and every candidate is a path of the
   * tree.
   */
  lemma CandidatesIff(repoPath: string, root: Node, p: string)
    ensures var index := Index(repoPath, root);
      p in Candidates(index) <==> p in index.keyFiles || (p in index.tree && IsEntryPoint(p))
    ensures p in Candidates(Index(repoPath, root)) ==> p in Index(repoPath, root).tree
  {
    var index := Index(repoPath, root);
    EntryPointsIff(index.tree, p);
    IndexKeysInTree(repoPath, root);
    if p in index.keyFiles {
      assert multiset(index.keyFiles)[p] > 0;
    }
  }

  /**
   * With a root path that does not end in a separator and plain names, a
   * path of the tree is a candidate exactly when its basename is a key-file
   * name or an entry-point name.
   */
  lemma CandidateByName(repoPath: string, root: Node, p: string)
    requires repoPath != [] && repoPath[|repoPath| - 1] != '/' && AllPlain(root)
    requires p in Index(repoPath, root).tree
    ensures p in Candidates(Index(repoPath, root)) <==> IsKeyFile(Basename(p)) || IsEntryPoint(p)
  {
    CandidatesIff(repoPath, root, p);
    IndexKeyIff(repoPath, root, p);
  }

  /**
   * Whatever the candidate order, the evidence keeps at most 300 tree
   * entries and at most 10 files, and every file it holds is a path of the
   * tree.
   */
  lemma EvidenceBounded(repoPath: string, root: Node, contents: string -> FileRead, e: Evidence)
    requires EvidenceFor(repoPath, root, contents, e)
    ensures |e.structure| <= STRUCTURE_LIMIT && |e.filesContent| <= FILE_LIMIT
    ensures forall i :: 0 <= i < |e.filesContent| ==> e.filesContent[i].path in Index(repoPath, root).tree
  {
    forall i | 0 <= i < |e.filesContent|
      ensures e.filesContent[i].path in Index(repoPath, root).tree
    {
      CandidatesIff(repoPath, root, e.filesContent[i].path);
    }
  }
}
