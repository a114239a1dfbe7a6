/**
 * The repository indexer: `index_repo` walks an extracted repository,
 * skipping ignored directories and `.DS_Store` files, and produces the
 * sorted list of relative paths, the key files and the file statistics;
 * `read_file_content` reads a file with a line limit.
 *
 * The walk is the `os.walk` model of `RepoTree`. Every file the indexer
 * records is a `Visit`; the spec function `Index` gives the result as a
 * function of the visits, and the lemmas below state what the result means
 * for the directory tree.
 */
module RepoIndexer {
  import opened Text
  import opened RepoTree
  import opened PathOrder

  /** Directory names the walk never descends into. */
  const IGNORE_DIRS: set<string> := {
    ".git", ".github", ".vscode", ".idea",
    "node_modules", "dist", "build", "coverage",
    "__pycache__", ".venv", "venv", "env"
  }

  /** File names that mark a file as a key file. */
  const KEY_FILES: set<string> := {
    "README.md", "pyproject.toml", "requirements.txt",
    "package.json", "Dockerfile", "docker-compose.yml",
    "pom.xml", "build.gradle", "go.mod", "Cargo.toml",
    "Makefile", "CMakeLists.txt"
  }

  /** Files whose name starts with this prefix are not recorded. */
  const NOISE_PREFIX: string := ".DS_Store"

  predicate IsNoise(name: string)
  {
    StartsWith(name, NOISE_PREFIX)
  }

  /** An exact key-file name, or any capitalisation of `readme.md`. */
  predicate IsKeyFile(name: string)
  {
    name in KEY_FILES || Lower(name) == "readme.md"
  }

  /**
   * The names `name.lower() == "readme.md"` accepts: nine characters, each
   * the letter of `readme.md` in lower or upper case, or its `.`.
   */
  lemma ReadmeSpellings(name: string)
    ensures Lower(name) == "readme.md" <==>
      |name| == 9 && forall k :: 0 <= k < 9 ==> name[k] == "readme.md"[k] || name[k] == "README.MD"[k]
  {
    var t := "readme.md";
    LowerEqualsIff(name, t);
    forall k | 0 <= k < 9 ensures UpperChar(t[k]) == "README.MD"[k] {
    }
  }

  /** A file the indexer records: the directory path `os.walk` gave, the directory names leading to it, its name. */
  datatype Visit = Visit(top: string, comps: seq<string>, name: string)

  /** The `stats` dictionary: the file count and the count per extension. */
  datatype Stats = Stats(files: nat, extensions: map<string, nat>)

  /** The dictionary `index_repo` returns. */
  datatype IndexResult = IndexResult(tree: seq<string>, keyFiles: seq<string>, stats: Stats, rootPath: string)

  /** The recorded files among `files`, listed in the directory `top` reached through `comps`. */
  function StepVisits(top: string, comps: seq<string>, files: seq<string>): seq<Visit>
  {
    if files == [] then []
    else
      var name := files[|files| - 1];
      StepVisits(top, comps, files[..|files| - 1]) + (if IsNoise(name) then [] else [Visit(top, comps, name)])
  }

  /** The recorded files of a sequence of walk steps, in walk order. */
  function Visits(steps: seq<Step>): seq<Visit>
  {
    if steps == [] then []
    else
      var st := steps[|steps| - 1];
      Visits(steps[..|steps| - 1]) + StepVisits(st.top, st.comps, st.files)
  }

  /** The visits of the whole walk of the repository. */
  function WalkVisits(repoPath: string, root: Node): seq<Visit>
  {
    Visits(Walk(repoPath, [], root, IGNORE_DIRS))
  }

  /** Python's slice `s[n:]` for `n >= 0`: empty once `n` passes the end. */
  function Drop(s: string, n: nat): string
  {
    if n <= |s| then s[n..] else ""
  }

  /** `os.path.join(root, file)[len(repo_path) + 1:]`. */
  function RelPath(repoPath: string, v: Visit): string
  {
    Drop(PathJoin(v.top, v.name), |repoPath| + 1)
  }

  /** The relative paths of the visits, in order. */
  function Rels(repoPath: string, vs: seq<Visit>): seq<string>
  {
    seq(|vs|, k requires 0 <= k < |vs| => RelPath(repoPath, vs[k]))
  }

  /** Whether each visit is a key file. */
  function KeyFlags(vs: seq<Visit>): seq<bool>
  {
    seq(|vs|, k requires 0 <= k < |vs| => IsKeyFile(vs[k].name))
  }

  /** The elements of `xs` whose flag in `keep` is set, in order. */
  function Select<T>(xs: seq<T>, keep: seq<bool>): seq<T>
    requires |xs| == |keep|
  {
    if xs == [] then []
    else Select(xs[..|xs| - 1], keep[..|xs| - 1]) + (if keep[|xs| - 1] then [xs[|xs| - 1]] else [])
  }

  /** The relative paths of the visits that are key files, in order. */
  function KeyRels(repoPath: string, vs: seq<Visit>): seq<string>
  {
    Select(Rels(repoPath, vs), KeyFlags(vs))
  }

  /** `d.get(k, 0)`. */
  function Count(m: map<string, nat>, k: string): nat
  {
    if k in m then m[k] else 0
  }

  /** `d[x] = d.get(x, 0) + 1`. */
  function Increment(m: map<string, nat>, x: string): map<string, nat>
  {
    m[x := Count(m, x) + 1]
  }

  /** The counter after incrementing it at each `x` of `xs` in turn, from empty. */
  function Tally(xs: seq<string>): map<string, nat>
  {
    if xs == [] then map[] else Increment(Tally(xs[..|xs| - 1]), xs[|xs| - 1])
  }

  /** The extension of each visit, in order. */
  function Exts(vs: seq<Visit>): seq<string>
  {
    seq(|vs|, k requires 0 <= k < |vs| => Extension(vs[k].name))
  }

  /** The sum of a counter's values. */
  ghost function Total(m: map<string, nat>): nat
    decreases |m.Keys|
  {
    if m.Keys == {} then 0
    else
      var k :| k in m.Keys;
      m[k] + Total(m - {k})
  }

  /** What `index_repo(repo_path)` returns when `repo_path` holds the tree `root`. */
  function Index(repoPath: string, root: Node): IndexResult
  {
    var vs := WalkVisits(repoPath, root);
    IndexResult(Sort(Rels(repoPath, vs)), KeyRels(repoPath, vs), Stats(|vs|, Tally(Exts(vs))), repoPath)
  }

  /**
   * `index_repo`: walks the tree, recording each file that is not noise
   * (its relative path, its extension and, for a key file, its path again),
   * then sorts the tree.
   */
  method IndexRepo(repoPath: string, root: Node) returns (r: IndexResult)
    ensures r == Index(repoPath, root)
    ensures Sorted(r.tree) && r.stats.files == |r.tree|
    ensures multiset(r.keyFiles) <= multiset(r.tree)
  {
    var fileTree: seq<string> := [];
    var keyFilesFound: seq<string> := [];
    var files: nat := 0;
    var extensions: map<string, nat> := map[];
    var baseLen := |repoPath| + 1;
    var steps := Walk(repoPath, [], root, IGNORE_DIRS);
    for i := 0 to |steps|
      invariant fileTree == Rels(repoPath, Visits(steps[..i]))
      invariant keyFilesFound == KeyRels(repoPath, Visits(steps[..i]))
      invariant files == |Visits(steps[..i])|
      invariant extensions == Tally(Exts(Visits(steps[..i])))
    {
      var st := steps[i];
      ghost var done := Visits(steps[..i]);
      ghost var visited := done;
      VisitsNext(steps, i);
      NextVisited(done, st.top, st.comps, st.files, 0, visited);
      for j := 0 to |st.files|
        invariant visited == done + StepVisits(st.top, st.comps, st.files[..j])
        invariant fileTree == Rels(repoPath, visited)
        invariant keyFilesFound == KeyRels(repoPath, visited)
        invariant files == |visited|
        invariant extensions == Tally(Exts(visited))
      {
        var file := st.files[j];
        NextVisited(done, st.top, st.comps, st.files, j + 1, visited);
        if IsNoise(file) {
          continue;
        }
        var relPath := Drop(PathJoin(st.top, file), baseLen);
        fileTree := fileTree + [relPath];
        files := files + 1;
        var ext := Extension(file);
        extensions := Increment(extensions, ext);
        if IsKeyFile(file) {
          keyFilesFound := keyFilesFound + [relPath];
        }
        var v := Visit(st.top, st.comps, file);
        RecordStep(repoPath, visited, v);
        TallyRecord(visited, v);
        visited := visited + [v];
      }
      assert st.files[..|st.files|] == st.files;
    }
    assert steps[..|steps|] == steps;
    IndexKeysInTree(repoPath, root);
    fileTree := Sort(fileTree);
    r := IndexResult(fileTree, keyFilesFound, Stats(files, extensions), repoPath);
  }

  /** Recording one more file adds its path, its extension and, for a key file, its path to the key files. */
  lemma RecordStep(repoPath: string, vs: seq<Visit>, v: Visit)
    ensures Rels(repoPath, vs + [v]) == Rels(repoPath, vs) + [RelPath(repoPath, v)]
    ensures KeyRels(repoPath, vs + [v]) == KeyRels(repoPath, vs) + (if IsKeyFile(v.name) then [RelPath(repoPath, v)] else [])
    ensures Exts(vs + [v]) == Exts(vs) + [Extension(v.name)]
  {
    var vs' := vs + [v];
    assert Rels(repoPath, vs')[..|vs|] == Rels(repoPath, vs);
    assert KeyFlags(vs')[..|vs|] == KeyFlags(vs);
  }

  /** The visits after the first `j` files of a step: the first file leaves none; each further file adds itself unless it is noise. */
  lemma NextVisited(done: seq<Visit>, top: string, comps: seq<string>, files: seq<string>, j: nat, visited: seq<Visit>)
    requires j <= |files|
    requires j > 0 ==> visited == done + StepVisits(top, comps, files[..j - 1])
    requires j == 0 ==> visited == done
    ensures j == 0 ==> visited == done + StepVisits(top, comps, files[..j])
    ensures j > 0 && IsNoise(files[j - 1]) ==> visited == done + StepVisits(top, comps, files[..j])
    ensures j > 0 && !IsNoise(files[j - 1]) ==> visited + [Visit(top, comps, files[j - 1])] == done + StepVisits(top, comps, files[..j])
  {
    if j == 0 {
      assert files[..0] == [];
    } else {
      assert files[..j][..j - 1] == files[..j - 1];
    }
  }

  lemma VisitsNext(steps: seq<Step>, i: nat)
    requires i < |steps|
    ensures Visits(steps[..i + 1]) == Visits(steps[..i]) + StepVisits(steps[i].top, steps[i].comps, steps[i].files)
  {
    assert steps[..i + 1][..i] == steps[..i];
  }

  lemma TallyRecord(vs: seq<Visit>, v: Visit)
    ensures Tally(Exts(vs + [v])) == Increment(Tally(Exts(vs)), Extension(v.name))
  {
    var xs, ext := Exts(vs), Extension(v.name);
    assert Exts(vs + [v]) == xs + [ext];
    assert (xs + [ext])[..|xs|] == xs;
  }

  // ----- the tree -----

  lemma RelsAppend(repoPath: string, a: seq<Visit>, b: seq<Visit>)
    ensures Rels(repoPath, a + b) == Rels(repoPath, a) + Rels(repoPath, b)
  {
  }

  /**
   * The tree is the recorded relative paths, sorted: ascending, and each
   * path occurs as often as a visit produced it.
   */
  lemma IndexTree(repoPath: string, root: Node)
    ensures var vs := WalkVisits(repoPath, root);
      Sorted(Index(repoPath, root).tree) && multiset(Index(repoPath, root).tree) == multiset(Rels(repoPath, vs))
    ensures var vs := WalkVisits(repoPath, root);
      forall p :: p in Index(repoPath, root).tree <==> exists k :: 0 <= k < |vs| && RelPath(repoPath, vs[k]) == p
  {
    var vs := WalkVisits(repoPath, root);
    var xs := Rels(repoPath, vs);
    var t := Sort(xs);
    forall p ensures p in t <==> exists k :: 0 <= k < |vs| && RelPath(repoPath, vs[k]) == p {
      assert p in t <==> p in multiset(t);
      assert p in xs <==> p in multiset(xs);
      if p in xs {
        var k :| 0 <= k < |xs| && xs[k] == p;
        assert RelPath(repoPath, vs[k]) == p;
      }
      if exists k :: 0 <= k < |vs| && RelPath(repoPath, vs[k]) == p {
        var k :| 0 <= k < |vs| && RelPath(repoPath, vs[k]) == p;
        assert xs[k] == p;
      }
    }
  }

  /** `[f(x) for x in xs]`. */
  function Image<A>(f: A -> string, xs: seq<A>): seq<string>
  {
    seq(|xs|, k requires 0 <= k < |xs| => f(xs[k]))
  }

  lemma ImageAppend<A>(f: A -> string, a: seq<A>, b: seq<A>)
    ensures Image(f, a + b) == Image(f, a) + Image(f, b)
  {
  }

  lemma ImageLast<A>(f: A -> string, a: seq<A>)
    requires a != []
    ensures Image(f, a) == Image(f, a[..|a| - 1]) + [f(a[|a| - 1])]
  {
  }

  lemma ImageAround<A>(f: A -> string, b: seq<A>, i: nat)
    requires i < |b|
    ensures Image(f, b) == Image(f, b[..i]) + [f(b[i])] + Image(f, b[i + 1..])
  {
  }

  /** Reordering the arguments reorders the images. */
  lemma {:induction false} ImagePermute<A>(f: A -> string, a: seq<A>, b: seq<A>)
    requires multiset(a) == multiset(b)
    ensures multiset(Image(f, a)) == multiset(Image(f, b))
    decreases |a|
  {
    if a != [] {
      var n := |a|;
      assert a[n - 1] in multiset(a);
      var i :| 0 <= i < |b| && b[i] == a[n - 1];
      RemoveMatching(a, b, i);
      ImagePermute(f, a[..n - 1], b[..i] + b[i + 1..]);
      var l, r, y := b[..i], b[i + 1..], f(b[i]);
      ImageLast(f, a);
      ImageAround(f, b, i);
      ImageAppend(f, l, r);
      var ia, il, ir := Image(f, a[..n - 1]), Image(f, l), Image(f, r);
      assert multiset(Image(f, a)) == multiset(ia) + multiset{y};
      assert multiset(Image(f, b)) == multiset(il) + multiset{y} + multiset(ir);
    }
  }

  /** Taking the last element off one list and a copy of it off another keeps their multisets equal. */
  lemma RemoveMatching<A>(a: seq<A>, b: seq<A>, i: nat)
    requires multiset(a) == multiset(b) && a != [] && i < |b| && b[i] == a[|a| - 1]
    ensures multiset(b[..i] + b[i + 1..]) == multiset(a[..|a| - 1])
  {
    var a', x, l, r := a[..|a| - 1], a[|a| - 1], b[..i], b[i + 1..];
    assert a == a' + [x];
    assert b == l + [x] + r;
    calc {
      multiset(l + r);
      multiset(l) + multiset(r);
      multiset(b) - multiset{x};
      multiset(a) - multiset{x};
      multiset(a');
    }
  }

  /**
   * The tree does not depend on the order in which the walk met the files:
   * any reordering of the visits gives the same sorted tree.
   */
  lemma TreeForgetsWalkOrder(repoPath: string, a: seq<Visit>, b: seq<Visit>)
    requires multiset(a) == multiset(b)
    ensures Sort(Rels(repoPath, a)) == Sort(Rels(repoPath, b))
  {
    var rel := (v: Visit) => RelPath(repoPath, v);
    ImagePermute(rel, a, b);
    assert Rels(repoPath, a) == Image(rel, a);
    assert Rels(repoPath, b) == Image(rel, b);
    SortForgetsOrder(Rels(repoPath, a), Rels(repoPath, b));
  }

  // ----- where the visits come from -----

  lemma {:induction false} StepVisitsFrom(top: string, comps: seq<string>, files: seq<string>, v: Visit)
    requires v in StepVisits(top, comps, files)
    ensures v.top == top && v.comps == comps && v.name in files && !IsNoise(v.name)
  {
    var n := |files|;
    if v !in StepVisits(top, comps, files[..n - 1]) {
      assert v.name == files[n - 1];
    } else {
      StepVisitsFrom(top, comps, files[..n - 1], v);
    }
  }

  lemma {:induction false} StepVisitsHas(top: string, comps: seq<string>, files: seq<string>, f: string)
    requires f in files && !IsNoise(f)
    ensures Visit(top, comps, f) in StepVisits(top, comps, files)
  {
    var n := |files|;
    if files[n - 1] != f {
      assert f in files[..n - 1];
      StepVisitsHas(top, comps, files[..n - 1], f);
    }
  }

  lemma {:induction false} VisitsFrom(steps: seq<Step>, v: Visit)
    requires v in Visits(steps)
    ensures exists st :: st in steps && v.top == st.top && v.comps == st.comps && v.name in st.files && !IsNoise(v.name)
  {
    var n := |steps|;
    var st := steps[n - 1];
    if v in StepVisits(st.top, st.comps, st.files) {
      StepVisitsFrom(st.top, st.comps, st.files, v);
    } else {
      VisitsFrom(steps[..n - 1], v);
      var st' :| st' in steps[..n - 1] && v.top == st'.top && v.comps == st'.comps && v.name in st'.files && !IsNoise(v.name);
      assert st' in steps;
    }
  }

  lemma {:induction false} VisitsHas(steps: seq<Step>, st: Step, f: string)
    requires st in steps && f in st.files && !IsNoise(f)
    ensures Visit(st.top, st.comps, f) in Visits(steps)
  {
    var n := |steps|;
    if steps[n - 1] == st {
      StepVisitsHas(st.top, st.comps, st.files, f);
    } else {
      assert st in steps[..n - 1];
      VisitsHas(steps[..n - 1], st, f);
    }
  }

  /**
   * Every recorded file lies in the tree at its directory path, its
   * directory path passes through no ignored directory, its name is not
   * noise, and `os.walk` gave the path it built for that directory.
   */
  lemma IndexSound(repoPath: string, root: Node, v: Visit)
    requires v in WalkVisits(repoPath, root)
    ensures Holds(root, v.comps, v.name)
    ensures forall k :: 0 <= k < |v.comps| ==> v.comps[k] !in IGNORE_DIRS
    ensures !IsNoise(v.name)
    ensures v.top == Under(repoPath, v.comps)
  {
    var steps := Walk(repoPath, [], root, IGNORE_DIRS);
    VisitsFrom(steps, v);
    var st :| st in steps && v.top == st.top && v.comps == st.comps && v.name in st.files && !IsNoise(v.name);
    WalkFilesHeld(repoPath, [], root, IGNORE_DIRS, st, v.name);
    assert st.comps[0..] == st.comps;
    WalkPlaced(repoPath, repoPath, [], root, IGNORE_DIRS, st);
  }

  /**
   * Conversely, every file of the tree that is not noise and whose directory
   * path avoids the ignored names is recorded.
   */
  lemma IndexComplete(repoPath: string, root: Node, rest: seq<string>, f: string)
    requires Holds(root, rest, f) && !IsNoise(f)
    requires forall k :: 0 <= k < |rest| ==> rest[k] !in IGNORE_DIRS
    ensures exists v :: v in WalkVisits(repoPath, root) && v.comps == rest && v.name == f
  {
    WalkComplete(repoPath, [], root, IGNORE_DIRS, rest, f);
    var steps := Walk(repoPath, [], root, IGNORE_DIRS);
    var st :| st in steps && st.comps == [] + rest && f in st.files;
    VisitsHas(steps, st, f);
  }

  /**
   * The relative path of a recorded file: with a root path that does not
   * end in a separator and names as a file system lists them, it is the
   * directory names and the file name joined by `/`.
   */
  lemma IndexRelative(repoPath: string, root: Node, v: Visit)
    requires repoPath != [] && repoPath[|repoPath| - 1] != '/' && AllPlain(root)
    requires v in WalkVisits(repoPath, root)
    ensures RelPath(repoPath, v) == JoinWith(v.comps + [v.name], "/")
    ensures Basename(RelPath(repoPath, v)) == v.name
  {
    var steps := Walk(repoPath, [], root, IGNORE_DIRS);
    VisitsFrom(steps, v);
    var st :| st in steps && v.top == st.top && v.comps == st.comps && v.name in st.files && !IsNoise(v.name);
    WalkPlaced(repoPath, repoPath, [], root, IGNORE_DIRS, st);
    WalkPlain(repoPath, [], root, IGNORE_DIRS, st);
    PlainPath(repoPath, v.comps, v.name);
    PlainBasename(v.comps, v.name);
  }

  /** The path of a file below the root, less the root and its separator, is the names joined by `/`. */
  lemma PlainPath(base: string, comps: seq<string>, name: string)
    requires base != [] && base[|base| - 1] != '/'
    requires forall k :: 0 <= k < |comps| ==> Plain(comps[k])
    requires Plain(name)
    ensures Drop(PathJoin(Under(base, comps), name), |base| + 1) == JoinWith(comps + [name], "/")
  {
    UnderPlain(base, comps);
    RelBelow(base, comps, name, Under(base, comps));
  }

  lemma RelBelow(base: string, comps: seq<string>, name: string, top: string)
    requires top == if comps == [] then base else base + "/" + JoinWith(comps, "/")
    requires top != [] && top[|top| - 1] != '/' && Plain(name)
    ensures Drop(PathJoin(top, name), |base| + 1) == JoinWith(comps + [name], "/")
  {
    var dir := JoinSnoc(comps, name);
    JoinPlain(top, name);
    if comps != [] {
      var j := JoinWith(comps, "/");
      calc {
        top + "/" + name;
        (base + "/" + j) + "/" + name;
        base + "/" + (j + "/" + name);
      }
    }
    DropPrefix(base + "/", dir + name);
  }

  /** The basename of such a joined path is the file name. */
  lemma PlainBasename(comps: seq<string>, name: string)
    requires Plain(name)
    ensures Basename(JoinWith(comps + [name], "/")) == name
  {
    var dir := JoinSnoc(comps, name);
    BasenamePlain(dir, name);
  }

  lemma JoinPlain(top: string, name: string)
    requires top != [] && top[|top| - 1] != '/' && Plain(name)
    ensures PathJoin(top, name) == top + "/" + name
  {
    assert name[0] in name;
  }

  /** `"/".join(comps + [name])` is a directory prefix ending in `/` (or empty) followed by `name`. */
  lemma JoinSnoc(comps: seq<string>, name: string) returns (dir: string)
    ensures dir == if comps == [] then "" else JoinWith(comps, "/") + "/"
    ensures JoinWith(comps + [name], "/") == dir + name
  {
    dir := if comps == [] then "" else JoinWith(comps, "/") + "/";
    var parts := comps + [name];
    if comps != [] {
      JoinLast(parts, "/");
      assert parts[..|parts| - 1] == comps;
    }
  }

  lemma DropPrefix(a: string, b: string)
    ensures Drop(a + b, |a|) == b
  {
    assert (a + b)[|a|..] == b;
  }

  lemma BasenamePlain(dir: string, name: string)
    requires Plain(name) && (dir == [] || dir[|dir| - 1] == '/')
    ensures Basename(dir + name) == name
  {
    var p := dir + name;
    var i := LastIndexOf(p, '/');
    assert forall j :: |dir| <= j < |p| ==> p[j] != '/' by {
      forall j | |dir| <= j < |p| ensures p[j] != '/' { assert p[j] == name[j - |dir|]; }
    }
    if dir != [] {
      assert p[|dir| - 1] == '/';
    }
    assert i == |dir| - 1;
  }

  // ----- key files -----

  lemma {:induction false} SelectSub<T>(xs: seq<T>, keep: seq<bool>)
    requires |xs| == |keep|
    ensures multiset(Select(xs, keep)) <= multiset(xs)
  {
    if xs != [] {
      var n := |xs|;
      SelectSub(xs[..n - 1], keep[..n - 1]);
      assert xs == xs[..n - 1] + [xs[n - 1]];
    }
  }

  lemma {:induction false} SelectMembers<T>(xs: seq<T>, keep: seq<bool>, y: T)
    requires |xs| == |keep|
    ensures y in Select(xs, keep) <==> exists k :: 0 <= k < |xs| && keep[k] && xs[k] == y
  {
    if xs != [] {
      var n := |xs|;
      var xs', keep' := xs[..n - 1], keep[..n - 1];
      SelectMembers(xs', keep', y);
      if exists k :: 0 <= k < n && keep[k] && xs[k] == y {
        var k :| 0 <= k < n && keep[k] && xs[k] == y;
        if k < n - 1 { assert keep'[k] && xs'[k] == y; }
      }
      if exists k :: 0 <= k < n - 1 && keep'[k] && xs'[k] == y {
        var k :| 0 <= k < n - 1 && keep'[k] && xs'[k] == y;
        assert keep[k] && xs[k] == y;
      }
    }
  }

  /** Every key file is a path of the tree (with multiplicity). */
  lemma IndexKeysInTree(repoPath: string, root: Node)
    ensures multiset(Index(repoPath, root).keyFiles) <= multiset(Index(repoPath, root).tree)
  {
    var vs := WalkVisits(repoPath, root);
    SelectSub(Rels(repoPath, vs), KeyFlags(vs));
  }

  lemma KeyRelsMembers(repoPath: string, vs: seq<Visit>, p: string)
    ensures p in KeyRels(repoPath, vs) <==> exists k :: 0 <= k < |vs| && IsKeyFile(vs[k].name) && RelPath(repoPath, vs[k]) == p
  {
    var xs, keep := Rels(repoPath, vs), KeyFlags(vs);
    SelectMembers(xs, keep, p);
    assert forall k :: 0 <= k < |vs| ==> xs[k] == RelPath(repoPath, vs[k]) && keep[k] == IsKeyFile(vs[k].name);
  }

  /**
   * With a root path that does not end in a separator and plain names, a
   * path of the tree is a key file exactly when its basename is in
   * `KEY_FILES` or is `readme.md` in some capitalisation.
   */
  lemma IndexKeyIff(repoPath: string, root: Node, p: string)
    requires repoPath != [] && repoPath[|repoPath| - 1] != '/' && AllPlain(root)
    requires p in Index(repoPath, root).tree
    ensures p in Index(repoPath, root).keyFiles <==> IsKeyFile(Basename(p))
  {
    var vs := WalkVisits(repoPath, root);
    IndexTree(repoPath, root);
    var k :| 0 <= k < |vs| && RelPath(repoPath, vs[k]) == p;
    IndexRelative(repoPath, root, vs[k]);
    KeyRelsMembers(repoPath, vs, p);
    if p in Index(repoPath, root).keyFiles {
      var k' :| 0 <= k' < |vs| && IsKeyFile(vs[k'].name) && RelPath(repoPath, vs[k']) == p;
      IndexRelative(repoPath, root, vs[k']);
    }
  }

  // ----- statistics -----

  lemma {:induction false} TotalRemove(m: map<string, nat>, k: string)
    requires k in m
    ensures Total(m) == m[k] + Total(m - {k})
    decreases |m.Keys|
  {
    var j :| j in m.Keys && Total(m) == m[j] + Total(m - {j});
    if j != k {
      var mj, mk := m - {j}, m - {k};
      TotalRemove(mj, k);
      TotalRemove(mk, j);
      assert mj - {k} == mk - {j};
    }
  }

  /** Counting one more file of extension `e` adds one to the total. */
  lemma TotalBump(m: map<string, nat>, e: string)
    ensures Total(Increment(m, e)) == Total(m) + 1
  {
    var m' := Increment(m, e);
    TotalRemove(m', e);
    if e in m {
      TotalRemove(m, e);
      assert m' - {e} == m - {e};
    } else {
      assert m' - {e} == m;
    }
  }

  lemma {:induction false} TallyCount(xs: seq<string>, e: string)
    ensures Count(Tally(xs), e) == multiset(xs)[e]
  {
    if xs != [] {
      var pre, x := xs[..|xs| - 1], xs[|xs| - 1];
      TallyCount(pre, e);
      assert xs == pre + [x];
    }
  }

  lemma {:induction false} TallyTotal(xs: seq<string>)
    ensures Total(Tally(xs)) == |xs|
  {
    if xs == [] {
      assert Tally(xs).Keys == {};
    } else {
      var pre, x := xs[..|xs| - 1], xs[|xs| - 1];
      TallyTotal(pre);
      TotalBump(Tally(pre), x);
    }
  }

  /**
   * The statistics agree with the tree: one file per tree entry, each
   * extension counted once per recorded file having it, and the counts
   * summing to the number of files.
   */
  lemma IndexStats(repoPath: string, root: Node)
    ensures var r := Index(repoPath, root);
      r.stats.files == |r.tree| && Total(r.stats.extensions) == r.stats.files
    ensures var vs := WalkVisits(repoPath, root);
      forall e :: Count(Index(repoPath, root).stats.extensions, e) == multiset(Exts(vs))[e]
  {
    var vs := WalkVisits(repoPath, root);
    var rels := Rels(repoPath, vs);
    assert |Sort(rels)| == |rels| by {
      assert |multiset(Sort(rels))| == |multiset(rels)|;
    }
    TallyTotal(Exts(vs));
    forall e ensures Count(Tally(Exts(vs)), e) == multiset(Exts(vs))[e] {
      TallyCount(Exts(vs), e);
    }
  }

  // ----- reading a file -----

  /** An opened file, already decoded into lines (each keeping its line end), or a file that could not be read. */
  datatype FileRead = Unreadable | Readable(lines: seq<string>)

  const ERROR_SENTINEL: string := "[Error reading file]"

  /** The line `read_file_content` appends after cutting a file short. */
  function TruncationMarker(limitLines: int): string
  {
    "\n... (truncated after " + IntToString(limitLines) + " lines)"
  }

  /** What `read_file_content(path, limit_lines)` returns for the file at `path`. */
  function FileText(f: FileRead, limitLines: int): string
  {
    match f
    case Unreadable => ERROR_SENTINEL
    case Readable(lines) =>
      var n := if limitLines < 0 then 0 else limitLines;
      if |lines| <= n then Concat(lines) else Concat(lines[..n]) + TruncationMarker(limitLines)
  }

  /** `read_file_content`: copies lines until the limit, then adds the marker and stops. */
  method ReadFileContent(f: FileRead, limitLines: int) returns (text: string)
    ensures text == FileText(f, limitLines)
    ensures f.Unreadable? ==> text == ERROR_SENTINEL
    ensures f.Readable? && |f.lines| <= limitLines ==> text == Concat(f.lines)
    ensures f.Readable? && 0 <= limitLines < |f.lines| ==> text == Concat(f.lines[..limitLines]) + TruncationMarker(limitLines)
  {
    if f.Unreadable? {
      return ERROR_SENTINEL;
    }
    var lines := f.lines;
    var content: seq<string> := [];
    for i := 0 to |lines|
      invariant content == lines[..i]
      invariant i > 0 ==> i <= limitLines
    {
      if i >= limitLines {
        content := content + [TruncationMarker(limitLines)];
        assert content[..|content| - 1] == lines[..i];
        return Concat(content);
      }
      content := content + [lines[i]];
    }
    assert lines[..|lines|] == lines;
    return Concat(content);
  }

  lemma {:induction false} ConcatAppend(a: seq<string>, b: seq<string>)
    ensures Concat(a + b) == Concat(a) + Concat(b)
    decreases |b|
  {
    if b == [] {
      assert a + b == a;
    } else {
      var n := |b|;
      ConcatAppend(a, b[..n - 1]);
      assert (a + b)[..|a + b| - 1] == a + b[..n - 1];
      assert (a + b)[|a + b| - 1] == b[n - 1];
    }
  }

  /**
   * The text read from a file starts with whole lines from the start of the
   * file, and those lines are a prefix of the file's content; the marker
   * follows exactly when lines were left out.
   */
  lemma FileTextPrefix(lines: seq<string>, limitLines: int)
    ensures var n := if limitLines < 0 then 0 else if limitLines < |lines| then limitLines else |lines|;
      && StartsWith(FileText(Readable(lines), limitLines), Concat(lines[..n]))
      && StartsWith(Concat(lines), Concat(lines[..n]))
      && (n < |lines| ==> EndsWith(FileText(Readable(lines), limitLines), TruncationMarker(limitLines)))
  {
    var n := if limitLines < 0 then 0 else if limitLines < |lines| then limitLines else |lines|;
    ConcatPrefix(lines, n);
    if n == |lines| {
      FileTextWhole(lines, limitLines);
    } else {
      FileTextCut(lines, limitLines, n);
    }
  }

  lemma FileTextWhole(lines: seq<string>, limitLines: int)
    requires limitLines >= |lines| || (limitLines < 0 && lines == [])
    ensures StartsWith(FileText(Readable(lines), limitLines), Concat(lines))
    ensures lines[..|lines|] == lines
  {
    Affixes(Concat(lines), "");
    assert Concat(lines) + "" == Concat(lines);
  }

  lemma FileTextCut(lines: seq<string>, limitLines: int, n: nat)
    requires n < |lines| && (limitLines < 0 ==> n == 0) && (limitLines >= 0 ==> n == limitLines)
    ensures StartsWith(FileText(Readable(lines), limitLines), Concat(lines[..n]))
    ensures EndsWith(FileText(Readable(lines), limitLines), TruncationMarker(limitLines))
  {
    Affixes(Concat(lines[..n]), TruncationMarker(limitLines));
  }

  lemma ConcatPrefix(lines: seq<string>, n: nat)
    requires n <= |lines|
    ensures StartsWith(Concat(lines), Concat(lines[..n]))
  {
    ConcatAppend(lines[..n], lines[n..]);
    assert lines[..n] + lines[n..] == lines;
    var c := Concat(lines[..n]);
    assert Concat(lines)[..|c|] == c;
  }
}
