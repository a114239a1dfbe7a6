/**
 * An extracted repository as a directory tree, and the top-down traversal
 * `os.walk` performs over it when its caller prunes the `dirs` list in place.
 * Each entry of a directory keeps its position in the directory listing.
 */
module RepoTree {
  import opened Text

  /** A directory entry: a file, or a directory with its listing. */
  datatype Node = File(name: string) | Dir(name: string, children: seq<Node>)

  /**
   * One `(root, dirs, files)` tuple of `os.walk`: `top` is the directory's
   * path as `os.walk` builds it, `comps` the directory names leading to it
   * from the walked root, `dirs` the subdirectories left after pruning and
   * `files` the file names, both in listing order.
   */
  datatype Step = Step(top: string, comps: seq<string>, dirs: seq<string>, files: seq<string>)

  /** The names of the subdirectories in a listing, in order. */
  function SubdirNames(cs: seq<Node>): (r: seq<string>)
    ensures forall n :: n in r <==> exists c :: c in cs && c.Dir? && c.name == n
  {
    if cs == [] then []
    else (if cs[0].Dir? then [cs[0].name] else []) + SubdirNames(cs[1..])
  }

  /** The names of the files in a listing, in order. */
  function FileNames(cs: seq<Node>): (r: seq<string>)
    ensures forall n :: n in r <==> File(n) in cs
  {
    if cs == [] then []
    else (if cs[0].File? then [cs[0].name] else []) + FileNames(cs[1..])
  }

  /** `[d for d in dirs if d not in ignore]`. */
  function Unignored(dirs: seq<string>, ignore: set<string>): (r: seq<string>)
    ensures forall n :: n in r <==> n in dirs && n !in ignore
  {
    if dirs == [] then []
    else (if dirs[0] !in ignore then [dirs[0]] else []) + Unignored(dirs[1..], ignore)
  }

  /**
   * `os.walk(top)` (top-down) over directory `d`, where the caller removes
   * the names in `ignore` from each `dirs` list before the walk descends.
   * A path that is not a directory yields nothing.
   */
  function Walk(top: string, comps: seq<string>, d: Node, ignore: set<string>): seq<Step>
    decreases d, 1
  {
    match d
    case File(_) => []
    case Dir(_, cs) =>
      [Step(top, comps, Unignored(SubdirNames(cs), ignore), FileNames(cs))] + WalkInto(top, comps, cs, ignore)
  }

  /** The walks of the kept subdirectories of a listing, one after another. */
  function WalkInto(top: string, comps: seq<string>, cs: seq<Node>, ignore: set<string>): seq<Step>
    decreases cs, 0
  {
    if cs == [] then []
    else
      var c := cs[0];
      (if c.Dir? && c.name !in ignore then Walk(PathJoin(top, c.name), comps + [c.name], c, ignore) else [])
      + WalkInto(top, comps, cs[1..], ignore)
  }

  /** The path `os.walk` builds for the directory reached through `comps`. */
  function Under(base: string, comps: seq<string>): string
  {
    if comps == [] then base else PathJoin(Under(base, comps[..|comps| - 1]), comps[|comps| - 1])
  }

  /** File `name` lies in `d` at the directory path `rest`. */
  ghost predicate Holds(d: Node, rest: seq<string>, name: string)
    decreases d
  {
    d.Dir? &&
    if rest == [] then File(name) in d.children
    else exists c :: c in d.children && c.Dir? && c.name == rest[0] && Holds(c, rest[1..], name)
  }

  /** A name as a file system lists it: non-empty, without a separator. */
  predicate Plain(name: string)
  {
    name != [] && '/' !in name
  }

  /** Every entry below `d` has a plain name. */
  ghost predicate AllPlain(d: Node)
    decreases d
  {
    d.Dir? ==> forall c :: c in d.children ==> Plain(c.name) && AllPlain(c)
  }

  /** `st` belongs to the walk of the kept directory `c`, a child of the directory at `top`. */
  predicate Descends(top: string, comps: seq<string>, c: Node, ignore: set<string>, st: Step)
  {
    c.Dir? && c.name !in ignore && st in Walk(PathJoin(top, c.name), comps + [c.name], c, ignore)
  }

  /** The steps of a listing's walk are exactly the steps of its kept subdirectories' walks. */
  lemma {:induction false} WalkIntoMembers(top: string, comps: seq<string>, cs: seq<Node>, ignore: set<string>, st: Step)
    ensures st in WalkInto(top, comps, cs, ignore) <==> exists k :: 0 <= k < |cs| && Descends(top, comps, cs[k], ignore, st)
    decreases |cs|
  {
    if cs != [] {
      WalkIntoMembers(top, comps, cs[1..], ignore, st);
      if exists k :: 0 <= k < |cs| && Descends(top, comps, cs[k], ignore, st) {
        var k :| 0 <= k < |cs| && Descends(top, comps, cs[k], ignore, st);
        if k > 0 { assert Descends(top, comps, cs[1..][k - 1], ignore, st); }
      }
      if exists k :: 0 <= k < |cs| - 1 && Descends(top, comps, cs[1..][k], ignore, st) {
        var k :| 0 <= k < |cs| - 1 && Descends(top, comps, cs[1..][k], ignore, st);
        assert Descends(top, comps, cs[k + 1], ignore, st);
      }
    }
  }

  /** The child walk a step after the first one comes from. */
  lemma {:induction false} WalkStepOrigin(top: string, comps: seq<string>, d: Node, ignore: set<string>, st: Step)
    requires st in Walk(top, comps, d, ignore)
    ensures d.Dir?
    ensures st.comps == comps || exists k :: 0 <= k < |d.children| && Descends(top, comps, d.children[k], ignore, st)
    ensures st.comps == comps ==> st.top == top
    ensures st.comps == comps ==> st.files == FileNames(d.children)
  {
    var cs := d.children;
    var first := Step(top, comps, Unignored(SubdirNames(cs), ignore), FileNames(cs));
    if st != first {
      WalkIntoMembers(top, comps, cs, ignore, st);
      var k :| 0 <= k < |cs| && Descends(top, comps, cs[k], ignore, st);
      WalkPrefix(PathJoin(top, cs[k].name), comps + [cs[k].name], cs[k], ignore, st);
    }
  }

  /** Every step of a walk lies below its start. */
  lemma {:induction false} WalkPrefix(top: string, comps: seq<string>, d: Node, ignore: set<string>, st: Step)
    requires st in Walk(top, comps, d, ignore)
    ensures |comps| <= |st.comps| && st.comps[..|comps|] == comps
    decreases d
  {
    var cs := d.children;
    var first := Step(top, comps, Unignored(SubdirNames(cs), ignore), FileNames(cs));
    if st != first {
      WalkIntoMembers(top, comps, cs, ignore, st);
      var k :| 0 <= k < |cs| && Descends(top, comps, cs[k], ignore, st);
      var comps' := comps + [cs[k].name];
      WalkPrefix(PathJoin(top, cs[k].name), comps', cs[k], ignore, st);
      assert st.comps[..|comps'|][..|comps|] == comps;
    }
  }

  /** A step further down the walk has a longer component path. */
  lemma {:induction false} WalkChildLonger(top: string, comps: seq<string>, c: Node, ignore: set<string>, st: Step)
    requires Descends(top, comps, c, ignore, st)
    ensures |comps| < |st.comps| && st.comps[..|comps|] == comps && st.comps[|comps|] == c.name
  {
    var comps' := comps + [c.name];
    WalkPrefix(PathJoin(top, c.name), comps', c, ignore, st);
    assert st.comps[..|comps'|][..|comps|] == comps;
    assert st.comps[..|comps'|][|comps|] == c.name;
  }

  /**
   * Every step's path is built from its components, and no component
   * below the start is a pruned name.
   */
  lemma {:induction false} WalkPlaced(base: string, top: string, comps: seq<string>, d: Node, ignore: set<string>, st: Step)
    requires top == Under(base, comps)
    requires st in Walk(top, comps, d, ignore)
    ensures st.top == Under(base, st.comps)
    ensures forall k :: |comps| <= k < |st.comps| ==> st.comps[k] !in ignore
    decreases d
  {
    WalkStepOrigin(top, comps, d, ignore, st);
    if st.comps != comps {
      var cs := d.children;
      var k :| 0 <= k < |cs| && Descends(top, comps, cs[k], ignore, st);
      var c := cs[k];
      var comps' := comps + [c.name];
      assert Under(base, comps') == PathJoin(top, c.name) by {
        assert comps'[..|comps'| - 1] == comps;
      }
      WalkPlaced(base, PathJoin(top, c.name), comps', c, ignore, st);
      WalkChildLonger(top, comps, c, ignore, st);
      forall k | |comps| <= k < |st.comps| ensures st.comps[k] !in ignore {
        if k == |comps| { assert st.comps[k] == c.name; }
      }
    }
  }

  /** Every file a step lists is in the tree at the step's path below the start. */
  lemma {:induction false} WalkFilesHeld(top: string, comps: seq<string>, d: Node, ignore: set<string>, st: Step, f: string)
    requires st in Walk(top, comps, d, ignore) && f in st.files
    ensures |comps| <= |st.comps| && Holds(d, st.comps[|comps|..], f)
    decreases d, 1
  {
    WalkStepOrigin(top, comps, d, ignore, st);
    if st.comps == comps {
      assert st.comps[|comps|..] == [];
    } else {
      var k :| 0 <= k < |d.children| && Descends(top, comps, d.children[k], ignore, st);
      ChildFilesHeld(top, comps, d, ignore, st, f, k);
    }
  }

  /** `WalkFilesHeld` for a step of the walk of the `k`-th child. */
  lemma {:induction false} ChildFilesHeld(top: string, comps: seq<string>, d: Node, ignore: set<string>, st: Step, f: string, k: nat)
    requires d.Dir? && k < |d.children| && Descends(top, comps, d.children[k], ignore, st) && f in st.files
    ensures |comps| <= |st.comps| && Holds(d, st.comps[|comps|..], f)
    decreases d, 0
  {
    var c := d.children[k];
    WalkFilesHeld(PathJoin(top, c.name), comps + [c.name], c, ignore, st, f);
    WalkChildLonger(top, comps, c, ignore, st);
    HoldsBelow(d, c, comps, st.comps, f);
  }

  /** A file held by a child directory is held by its parent, one component further up. */
  lemma HoldsBelow(d: Node, c: Node, comps: seq<string>, path: seq<string>, f: string)
    requires d.Dir? && c in d.children && c.Dir?
    requires |comps| < |path| && path[|comps|] == c.name && Holds(c, path[|comps| + 1..], f)
    ensures Holds(d, path[|comps|..], f)
  {
    var rest := path[|comps|..];
    assert rest[1..] == path[|comps| + 1..];
  }

  /** In a tree of plain names, every step carries plain names. */
  lemma {:induction false} WalkPlain(top: string, comps: seq<string>, d: Node, ignore: set<string>, st: Step)
    requires AllPlain(d) && st in Walk(top, comps, d, ignore)
    ensures forall k :: |comps| <= k < |st.comps| ==> Plain(st.comps[k])
    ensures forall f :: f in st.files ==> Plain(f)
    decreases d
  {
    WalkStepOrigin(top, comps, d, ignore, st);
    var cs := d.children;
    if st.comps == comps {
      forall f | f in st.files ensures Plain(f) {
        assert File(f) in cs;
      }
    } else {
      var k :| 0 <= k < |cs| && Descends(top, comps, cs[k], ignore, st);
      var c := cs[k];
      assert c in cs;
      WalkPlain(PathJoin(top, c.name), comps + [c.name], c, ignore, st);
      WalkChildLonger(top, comps, c, ignore, st);
      forall i | |comps| <= i < |st.comps| ensures Plain(st.comps[i]) {
        if i == |comps| {
          assert st.comps[i] == c.name;
        } else {
          assert |comps + [c.name]| <= i;
        }
      }
    }
  }

  /** A step of a kept subdirectory's walk is a step of its parent's walk. */
  lemma {:induction false} WalkLift(top: string, comps: seq<string>, d: Node, ignore: set<string>, k: nat, st: Step)
    requires d.Dir? && k < |d.children|
    requires Descends(top, comps, d.children[k], ignore, st)
    ensures st in Walk(top, comps, d, ignore)
  {
    WalkIntoMembers(top, comps, d.children, ignore, st);
  }

  /**
   * Conversely, every file of the tree whose directory path avoids the
   * pruned names is listed by some step of the walk, with that path.
   */
  lemma {:induction false} WalkComplete(top: string, comps: seq<string>, d: Node, ignore: set<string>, rest: seq<string>, f: string)
    requires Holds(d, rest, f)
    requires forall k :: 0 <= k < |rest| ==> rest[k] !in ignore
    ensures exists st :: st in Walk(top, comps, d, ignore) && st.comps == comps + rest && f in st.files
    decreases d
  {
    var cs := d.children;
    if rest == [] {
      var first := Step(top, comps, Unignored(SubdirNames(cs), ignore), FileNames(cs));
      assert first in Walk(top, comps, d, ignore);
      assert first.comps == comps + rest && f in first.files;
    } else {
      var c :| c in cs && c.Dir? && c.name == rest[0] && Holds(c, rest[1..], f);
      var comps' := comps + [c.name];
      var rest' := rest[1..];
      assert comps' + rest' == comps + rest by {
        assert rest == [c.name] + rest';
      }
      assert forall k :: 0 <= k < |rest'| ==> rest'[k] !in ignore by {
        forall k | 0 <= k < |rest'| ensures rest'[k] !in ignore { assert rest'[k] == rest[k + 1]; }
      }
      WalkComplete(PathJoin(top, c.name), comps', c, ignore, rest', f);
      var st :| st in Walk(PathJoin(top, c.name), comps', c, ignore) && st.comps == comps' + rest' && f in st.files;
      var k :| 0 <= k < |cs| && cs[k] == c;
      WalkLift(top, comps, d, ignore, k, st);
    }
  }

  /**
   * With a base path that does not end in a separator and plain names,
   * the directory path is the base, a separator and the components joined
   * by separators.
   */
  lemma {:induction false} UnderPlain(base: string, comps: seq<string>)
    requires base != [] && base[|base| - 1] != '/'
    requires forall k :: 0 <= k < |comps| ==> Plain(comps[k])
    ensures Under(base, comps) == if comps == [] then base else base + "/" + JoinWith(comps, "/")
    ensures Under(base, comps) != [] && Under(base, comps)[|Under(base, comps)| - 1] != '/'
    decreases |comps|
  {
    if comps != [] {
      var init, last := comps[..|comps| - 1], comps[|comps| - 1];
      UnderPlain(base, init);
      assert Plain(last);
      assert !StartsWith(last, "/") by { assert last[0] in last; }
      var u := Under(base, init);
      assert Under(base, comps) == u + "/" + last;
      if |comps| >= 2 {
        JoinLast(comps, "/");
      }
      assert (u + "/" + last)[|u + "/" + last| - 1] == last[|last| - 1];
      assert last[|last| - 1] in last;
    }
  }
}
