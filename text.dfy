/**
 * The Python string and path operations the backend relies on: substring
 * tests, `str.split`, `str.replace(pat, "")`, `str.strip()`, `str.lower()`
 * on ASCII, `"".join`, `str(int)`, `os.path.join`, `os.path.basename` and
 * `os.path.splitext`, each stated over `string` (a sequence of code points).
 */
module Text {
  import opened Results

  /** `pat` occurs in `s` starting at index `i`. */
  predicate OccursAt(s: string, pat: string, i: int)
  {
    0 <= i && i + |pat| <= |s| && s[i..i + |pat|] == pat
  }

  /** Python's `pat in s` on strings. */
  predicate Contains(s: string, pat: string)
  {
    exists i | 0 <= i <= |s| - |pat| :: OccursAt(s, pat, i)
  }

  predicate StartsWith(s: string, prefix: string)
  {
    |prefix| <= |s| && s[..|prefix|] == prefix
  }

  predicate EndsWith(s: string, suffix: string)
  {
    |suffix| <= |s| && s[|s| - |suffix|..] == suffix
  }

  /** An occurrence in a prefix of `s` is an occurrence in `s`. */
  lemma OccursInPrefix(s: string, pat: string, n: nat, i: int)
    requires n <= |s| && OccursAt(s[..n], pat, i)
    ensures OccursAt(s, pat, i)
  {
    assert s[..n][i..i + |pat|] == s[i..i + |pat|];
  }

  /** An occurrence in a suffix of `s` is an occurrence in `s`, shifted. */
  lemma OccursInSuffix(s: string, pat: string, n: nat, i: int)
    requires n <= |s|
    ensures OccursAt(s[n..], pat, i) <==> OccursAt(s, pat, i + n) && i >= 0
  {
    if 0 <= i && i + |pat| <= |s| - n {
      assert s[n..][i..i + |pat|] == s[i + n..i + n + |pat|];
    }
  }

  /** The index of the leftmost occurrence of `pat` in `s` (Python's `str.find`). */
  function FirstIndex(s: string, pat: string): (r: Option<nat>)
    ensures r.Some? ==> OccursAt(s, pat, r.value)
    ensures r.Some? ==> forall j :: 0 <= j < r.value ==> !OccursAt(s, pat, j)
    ensures r.None? <==> !Contains(s, pat)
    decreases |s|
  {
    if |s| < |pat| then None
    else if s[..|pat|] == pat then Some(0)
    else
      var rest := FirstIndex(s[1..], pat);
      FirstIndexShift(s, pat, rest);
      if rest.None? then None else Some(rest.value + 1)
  }

  /** How the leftmost occurrence in `s[1..]` determines the one in `s`. */
  lemma FirstIndexShift(s: string, pat: string, rest: Option<nat>)
    requires |pat| <= |s| && s[..|pat|] != pat
    requires rest.Some? ==> OccursAt(s[1..], pat, rest.value)
    requires rest.Some? ==> forall j :: 0 <= j < rest.value ==> !OccursAt(s[1..], pat, j)
    requires rest.None? <==> !Contains(s[1..], pat)
    ensures rest.Some? ==> OccursAt(s, pat, rest.value + 1)
    ensures rest.Some? ==> forall j :: 0 <= j < rest.value + 1 ==> !OccursAt(s, pat, j)
    ensures rest.None? <==> !Contains(s, pat)
  {
    forall j | 0 <= j
      ensures OccursAt(s[1..], pat, j) <==> OccursAt(s, pat, j + 1)
    {
      OccursInSuffix(s, pat, 1, j);
    }
    if Contains(s, pat) {
      var i :| 0 <= i <= |s| - |pat| && OccursAt(s, pat, i);
      assert i != 0;
      assert OccursAt(s[1..], pat, i - 1);
    }
    if rest.Some? {
      forall j | 0 <= j < rest.value + 1 ensures !OccursAt(s, pat, j) {
        if j > 0 { assert !OccursAt(s[1..], pat, j - 1); }
      }
    }
  }

  /** Python's `sep.join(parts)`. */
  function JoinWith(parts: seq<string>, sep: string): string
  {
    if parts == [] then ""
    else if |parts| == 1 then parts[0]
    else parts[0] + sep + JoinWith(parts[1..], sep)
  }

  /**
   * Python's `s.split(sep)` for a non-empty separator: the pieces between
   * successive leftmost non-overlapping occurrences of `sep`.
   * Joining the pieces with `sep` gives `s` back, and no piece contains `sep`.
   */
  function Split(s: string, sep: string): (parts: seq<string>)
    requires sep != []
    ensures parts != []
    ensures JoinWith(parts, sep) == s
    ensures forall k :: 0 <= k < |parts| ==> !Contains(parts[k], sep)
    decreases |s|
  {
    match FirstIndex(s, sep)
    case None => [s]
    case Some(i) =>
      var head := s[..i];
      var rest := Split(s[i + |sep|..], sep);
      assert !Contains(head, sep) by {
        forall j | 0 <= j <= |head| - |sep| ensures !OccursAt(head, sep, j) {
          if OccursAt(head, sep, j) { OccursInPrefix(s, sep, i, j); }
        }
      }
      assert s == head + sep + s[i + |sep|..];
      [head] + rest
  }

  /** The last piece of a split: the text after the last separator. */
  lemma {:induction false} SplitLast(s: string, sep: string)
    requires sep != [] && Contains(s, sep)
    ensures |Split(s, sep)| >= 2
    ensures EndsWith(s, sep + Split(s, sep)[|Split(s, sep)| - 1])
    ensures !Contains(Split(s, sep)[|Split(s, sep)| - 1], sep)
  {
    var parts := Split(s, sep);
    SplitSeveral(s, sep);
    JoinEnds(parts, sep);
    assert JoinWith(parts, sep) == s;
  }

  /** A string holding the separator splits into at least two pieces. */
  lemma {:induction false} SplitSeveral(s: string, sep: string)
    requires sep != [] && Contains(s, sep)
    ensures |Split(s, sep)| >= 2
  {
  }

  /** `s.split(sep)` has two or more pieces exactly when `sep` occurs in `s`. */
  lemma SplitCount(s: string, sep: string)
    requires sep != []
    ensures |Split(s, sep)| >= 2 <==> Contains(s, sep)
  {
    if Contains(s, sep) {
      SplitSeveral(s, sep);
    } else {
      assert FirstIndex(s, sep).None?;
    }
  }

  /** A one-character pattern occurs exactly where the character does. */
  lemma ContainsChar(s: string, c: char)
    ensures Contains(s, [c]) <==> c in s
  {
    if c in s {
      var i :| 0 <= i < |s| && s[i] == c;
      assert OccursAt(s, [c], i);
    }
    if Contains(s, [c]) {
      var i :| 0 <= i <= |s| - 1 && OccursAt(s, [c], i);
      assert s[i] == s[i..i + 1][0];
    }
  }

  /**
   * A pattern whose first character occurs nowhere else in it: two of its
   * occurrences can never overlap.
   */
  predicate Borderless(pat: string)
  {
    pat != [] && pat[0] !in pat[1..]
  }

  lemma NoOverlap(s: string, pat: string, p: int, q: int)
    requires Borderless(pat) && OccursAt(s, pat, p) && OccursAt(s, pat, q) && p < q
    ensures p + |pat| <= q
  {
  }

  /** Two occurrences of a borderless pattern that each have none after them are the same one. */
  lemma LastOccurrence(s: string, pat: string, p: nat, q: nat)
    requires Borderless(pat) && OccursAt(s, pat, p) && OccursAt(s, pat, q)
    requires !Contains(s[p + |pat|..], pat) && !Contains(s[q + |pat|..], pat)
    ensures p == q
  {
    if p < q {
      NoOverlap(s, pat, p, q);
      OccursInSuffix(s, pat, p + |pat|, q - p - |pat|);
      assert false;
    } else if q < p {
      NoOverlap(s, pat, q, p);
      OccursInSuffix(s, pat, q + |pat|, p - q - |pat|);
      assert false;
    }
  }

  /**
   * With a borderless separator, the last piece of `pre + sep + rest` is
   * `rest` whenever `rest` does not hold the separator.
   */
  lemma {:induction false} SplitLastAfter(pre: string, sep: string, rest: string)
    requires Borderless(sep) && !Contains(rest, sep)
    ensures Contains(pre + sep + rest, sep)
    ensures Split(pre + sep + rest, sep)[|Split(pre + sep + rest, sep)| - 1] == rest
  {
    var s := pre + sep + rest;
    assert s[|pre|..|pre| + |sep|] == sep;
    assert s[|pre| + |sep|..] == rest;
    LastPieceAt(s, sep, |pre|);
  }

  /** The last piece of a split on a borderless separator is what follows its last occurrence. */
  lemma {:induction false} LastPieceAt(s: string, sep: string, p: nat)
    requires Borderless(sep) && OccursAt(s, sep, p) && !Contains(s[p + |sep|..], sep)
    ensures Contains(s, sep)
    ensures Split(s, sep)[|Split(s, sep)| - 1] == s[p + |sep|..]
  {
    SplitLast(s, sep);
    SameTail(s, sep, p, Split(s, sep)[|Split(s, sep)| - 1]);
  }

  /** A text that ends with the separator and a separator-free tail has its last occurrence just before that tail. */
  lemma SameTail(s: string, sep: string, p: nat, last: string)
    requires Borderless(sep) && OccursAt(s, sep, p) && !Contains(s[p + |sep|..], sep)
    requires EndsWith(s, sep + last) && !Contains(last, sep)
    ensures last == s[p + |sep|..]
  {
    var q := |s| - |sep| - |last|;
    assert s[q..q + |sep|] == s[|s| - |sep + last|..][..|sep|];
    assert s[q + |sep|..] == last;
    LastOccurrence(s, sep, p, q);
  }

  /** An occurrence ending in a character that `y` lacks lies wholly inside `x`. */
  lemma OccursBeforeChar(x: string, y: string, pat: string, i: int)
    requires pat != [] && pat[|pat| - 1] !in y && OccursAt(x + y, pat, i)
    ensures OccursAt(x, pat, i)
  {
    var s := x + y;
    assert s[i + |pat| - 1] == s[i..i + |pat|][|pat| - 1];
    assert s[..|x|] == x;
    assert s[..|x|][i..i + |pat|] == s[i..i + |pat|];
  }

  /**
   * `(a + pat + b).replace(pat, "")` removes the `pat` after `a` when `a`
   * holds no occurrence and `pat` cannot overlap itself.
   */
  lemma {:induction false} RemoveAllAfter(a: string, pat: string, b: string)
    requires Borderless(pat) && !Contains(a, pat)
    ensures RemoveAll(a + pat + b, pat) == a + RemoveAll(b, pat)
    decreases |a|
  {
    var s := a + pat + b;
    if a == [] {
      assert s == pat + b;
      assert s[..|pat|] == pat;
      assert s[|pat|..] == b;
    } else {
      NoMatchBefore(a, pat, b);
      assert !Contains(a[1..], pat) by {
        if Contains(a[1..], pat) {
          var i :| 0 <= i <= |a| - 1 - |pat| && OccursAt(a[1..], pat, i);
          OccursInSuffix(a, pat, 1, i);
        }
      }
      RemoveAllAfter(a[1..], pat, b);
      assert s[1..] == a[1..] + pat + b;
      RemoveAllSkipOne(s, pat);
    }
  }

  /** `a + pat + b` does not start with `pat` when `a` is non-empty and holds no occurrence. */
  lemma NoMatchBefore(a: string, pat: string, b: string)
    requires Borderless(pat) && !Contains(a, pat) && a != []
    ensures !StartsWith(a + pat + b, pat)
  {
    var s := a + pat + b;
    if StartsWith(s, pat) {
      assert OccursAt(s, pat, 0);
      if |pat| <= |a| {
        assert a[..|pat|] == s[..|pat|];
        assert OccursAt(a, pat, 0);
      } else {
        assert s[|a|..|a| + |pat|] == pat;
        NoOverlap(s, pat, 0, |a|);
      }
    }
  }

  /** A join of two or more pieces ends with the separator and the last piece. */
  lemma {:induction false} JoinEnds(parts: seq<string>, sep: string)
    requires |parts| >= 2
    ensures EndsWith(JoinWith(parts, sep), sep + parts[|parts| - 1])
  {
    var n := |parts|;
    JoinLast(parts, sep);
    var init := JoinWith(parts[..n - 1], sep);
    assert JoinWith(parts, sep) == init + (sep + parts[n - 1]);
    Affixes(init, sep + parts[n - 1]);
  }

  /** A concatenation starts with its first part and ends with its second. */
  lemma Affixes(c: string, m: string)
    ensures StartsWith(c + m, c) && EndsWith(c + m, m)
  {
    assert (c + m)[..|c|] == c;
    assert (c + m)[|c + m| - |m|..] == m;
  }

  lemma {:induction false} JoinLast(parts: seq<string>, sep: string)
    requires |parts| >= 2
    ensures JoinWith(parts, sep) == JoinWith(parts[..|parts| - 1], sep) + sep + parts[|parts| - 1]
    decreases |parts|
  {
    if |parts| > 2 {
      JoinLast(parts[1..], sep);
      assert parts[1..][..|parts| - 2] == parts[..|parts| - 1][1..];
    }
  }

  /** A single-character separator that occurs once splits into the two sides. */
  lemma SplitAtSingle(a: string, c: char, b: string)
    requires c !in a && c !in b
    ensures Split(a + [c] + b, [c]) == [a, b]
  {
    var s := a + [c] + b;
    assert OccursAt(s, [c], |a|);
    forall j | 0 <= j < |a| ensures !OccursAt(s, [c], j) {
      assert s[j] == a[j];
    }
    assert FirstIndex(s, [c]) == Some(|a|);
    assert s[|a| + 1..] == b;
    assert !Contains(b, [c]) by {
      forall j | 0 <= j <= |b| - 1 ensures !OccursAt(b, [c], j) {
        assert b[j] in b;
      }
    }
  }

  /**
   * Python's `s.replace(pat, "")`: every leftmost non-overlapping
   * occurrence of `pat`, scanning left to right, is removed.
   */
  function RemoveAll(s: string, pat: string): (r: string)
    requires pat != []
    ensures |r| <= |s|
    decreases |s|
  {
    if s == [] then []
    else if StartsWith(s, pat) then RemoveAll(s[|pat|..], pat)
    else [s[0]] + RemoveAll(s[1..], pat)
  }

  /** Removing a pattern introduces no character that was not there. */
  lemma {:induction false} RemoveAllChars(s: string, pat: string, c: char)
    requires pat != [] && c in RemoveAll(s, pat)
    ensures c in s
    decreases |s|
  {
    if StartsWith(s, pat) {
      RemoveAllChars(s[|pat|..], pat, c);
    } else if c != s[0] {
      RemoveAllChars(s[1..], pat, c);
    }
  }

  /** A string without the pattern is left as it is. */
  lemma {:induction false} RemoveAllAbsent(s: string, pat: string)
    requires pat != [] && !Contains(s, pat)
    ensures RemoveAll(s, pat) == s
    decreases |s|
  {
    if s != [] {
      assert !StartsWith(s, pat) by { if StartsWith(s, pat) { assert OccursAt(s, pat, 0); } }
      assert !Contains(s[1..], pat) by {
        if Contains(s[1..], pat) {
          var i :| 0 <= i <= |s| - 1 - |pat| && OccursAt(s[1..], pat, i);
          OccursInSuffix(s, pat, 1, i);
        }
      }
      RemoveAllAbsent(s[1..], pat);
    }
  }

  /** Removing a pattern never changes how often a character outside it occurs. */
  lemma {:induction false} RemoveAllKeepsOthers(s: string, pat: string, c: char)
    requires pat != [] && c !in pat
    ensures multiset(RemoveAll(s, pat))[c] == multiset(s)[c]
    decreases |s|
  {
    if s == [] {
    } else if StartsWith(s, pat) {
      RemoveAllKeepsOthers(s[|pat|..], pat, c);
      assert s == pat + s[|pat|..];
      assert multiset(s) == multiset(pat) + multiset(s[|pat|..]);
    } else {
      RemoveAllKeepsOthers(s[1..], pat, c);
      assert s == [s[0]] + s[1..];
      assert multiset(s) == multiset([s[0]]) + multiset(s[1..]);
    }
  }

  /** An occurrence can never straddle a character the pattern does not contain. */
  lemma RemoveAllAround(a: string, c: char, b: string, pat: string)
    requires pat != [] && c !in pat
    ensures RemoveAll(a + [c] + b, pat) == RemoveAll(a, pat) + [c] + RemoveAll(b, pat)
  {
    var t := [c] + b;
    assert a + [c] + b == a + t;
    assert t[1..] == b;
    RemoveAllBefore(a, t, pat);
  }

  /** Removal on `a + t` splits at `t[0]` when the pattern does not contain it. */
  lemma {:induction false} RemoveAllBefore(a: string, t: string, pat: string)
    requires pat != [] && t != [] && t[0] !in pat
    ensures RemoveAll(a + t, pat) == RemoveAll(a, pat) + [t[0]] + RemoveAll(t[1..], pat)
    decreases |a|
  {
    if a == [] {
      assert a + t == t;
      PrefixCharIn(t, pat, 0);
      RemoveAllSkipOne(t, pat);
    } else if StartsWith(a + t, pat) {
      PatternInsideLeft(a, t, pat);
      RemoveAllBefore(a[|pat|..], t, pat);
      MatchHead(a, t, pat);
    } else {
      NoMatchLeft(a, t, pat);
      SkipHead(a, t, pat);
      RemoveAllBefore(a[1..], t, pat);
      RemoveAllSkipOne(a, pat);
      ConsAssoc(a[0], RemoveAll(a[1..], pat), t[0], RemoveAll(t[1..], pat));
    }
  }

  /**
   * Regrouping a concatenation. Stated apart from `RemoveAllBefore` so that
   * the solver meets it only on these four names and not amid the removal facts.
   */
  lemma ConsAssoc(x: char, left: string, c: char, right: string)
    ensures [x] + (left + [c] + right) == [x] + left + [c] + right
  {
  }

  /** A match at the start of `a + t` that lies inside `a` is removed from `a`. */
  lemma MatchHead(a: string, t: string, pat: string)
    requires pat != [] && |pat| <= |a| && StartsWith(a, pat)
    ensures RemoveAll(a + t, pat) == RemoveAll(a[|pat|..] + t, pat)
    ensures RemoveAll(a, pat) == RemoveAll(a[|pat|..], pat)
  {
    assert (a + t)[..|pat|] == a[..|pat|];
    assert (a + t)[|pat|..] == a[|pat|..] + t;
  }

  /** Without a match at the start, the first character of `a + t` is kept. */
  lemma SkipHead(a: string, t: string, pat: string)
    requires pat != [] && a != [] && !StartsWith(a + t, pat)
    ensures RemoveAll(a + t, pat) == [a[0]] + RemoveAll(a[1..] + t, pat)
  {
    RemoveAllSkipOne(a + t, pat);
    assert (a + t)[1..] == a[1..] + t;
  }

  /** `a` does not start with `pat` when `a + t` does not. */
  lemma NoMatchLeft(a: string, t: string, pat: string)
    requires !StartsWith(a + t, pat)
    ensures !StartsWith(a, pat)
  {
    if |pat| <= |a| { assert (a + t)[..|pat|] == a[..|pat|]; }
  }

  lemma RemoveAllSkipOne(s: string, pat: string)
    requires pat != [] && s != [] && !StartsWith(s, pat)
    ensures RemoveAll(s, pat) == [s[0]] + RemoveAll(s[1..], pat)
  {
  }

  lemma PrefixCharIn(s: string, pat: string, k: int)
    ensures StartsWith(s, pat) && 0 <= k < |pat| ==> s[k] in pat
  {
    if StartsWith(s, pat) && 0 <= k < |pat| { assert s[k] == pat[k]; }
  }

  /** A match at the start of `a + t` lies inside `a` when `t[0]` is not in the pattern. */
  lemma PatternInsideLeft(a: string, t: string, pat: string)
    requires t != [] && t[0] !in pat && StartsWith(a + t, pat)
    ensures |pat| <= |a| && StartsWith(a, pat)
  {
    var s := a + t;
    PrefixCharIn(s, pat, |a|);
    assert s[|a|] == t[0];
    assert |pat| <= |a|;
    assert a[..|pat|] == s[..|pat|];
  }

  /** Python's `str.isspace()` for one character. */
  predicate IsSpace(c: char)
  {
    c == ' ' || c == '\t' || c == '\n' || c == '\r' || c == '\U{0B}' || c == '\U{0C}'
    || ('\U{1C}' <= c <= '\U{1F}') || c == '\U{85}' || c == '\U{A0}' || c == '\U{1680}'
    || ('\U{2000}' <= c <= '\U{200A}') || c == '\U{2028}' || c == '\U{2029}'
    || c == '\U{202F}' || c == '\U{205F}' || c == '\U{3000}'
  }

  function TrimStart(s: string): (r: string)
    ensures r == [] || !IsSpace(r[0])
    ensures EndsWith(s, r)
    ensures forall k :: 0 <= k < |s| - |r| ==> IsSpace(s[k])
  {
    if s != [] && IsSpace(s[0]) then TrimStart(s[1..]) else s
  }

  function TrimEnd(s: string): (r: string)
    ensures r == [] || !IsSpace(r[|r| - 1])
    ensures StartsWith(s, r)
    ensures forall k :: |r| <= k < |s| ==> IsSpace(s[k])
  {
    if s != [] && IsSpace(s[|s| - 1]) then TrimEnd(s[..|s| - 1]) else s
  }

  /**
   * Python's `s.strip()`: `s` is the result surrounded by whitespace only,
   * and the result neither starts nor ends with whitespace.
   */
  function Strip(s: string): (r: string)
    ensures r == [] || (!IsSpace(r[0]) && !IsSpace(r[|r| - 1]))
    ensures exists i :: StripsTo(s, r, i)
  {
    var t := TrimStart(s);
    var r := TrimEnd(t);
    StripParts(s, t, r);
    r
  }

  /** Trimming the start and then the end leaves `r` at `|s| - |t|`, surrounded by whitespace. */
  lemma StripParts(s: string, t: string, r: string)
    requires t == TrimStart(s) && r == TrimEnd(t)
    ensures r == [] || (!IsSpace(r[0]) && !IsSpace(r[|r| - 1]))
    ensures StripsTo(s, r, |s| - |t|)
  {
    var i := |s| - |t|;
    SliceOfTail(s, t, r);
    forall k | i + |r| <= k < |s| ensures IsSpace(s[k]) { TailIndex(s, t, k - i); }
  }

  /** Index `j` of a suffix `t` of `s` is index `|s| - |t| + j` of `s`. */
  lemma TailIndex(s: string, t: string, j: int)
    requires EndsWith(s, t) && 0 <= j < |t|
    ensures s[|s| - |t| + j] == t[j]
  {
    assert s[|s| - |t|..][j] == t[j];
  }

  /** A prefix `r` of a suffix `t` of `s` sits in `s` where `t` starts. */
  lemma SliceOfTail(s: string, t: string, r: string)
    requires EndsWith(s, t) && StartsWith(t, r)
    ensures s[|s| - |t|..|s| - |t| + |r|] == r
  {
    var i := |s| - |t|;
    assert s[i..] == t;
    assert s[i..i + |r|] == t[..|r|];
  }

  /** `s` is `r` at index `i` with only whitespace before and after it. */
  predicate StripsTo(s: string, r: string, i: int)
  {
    && 0 <= i <= |s| - |r| && s[i..i + |r|] == r
    && (forall k :: 0 <= k < i ==> IsSpace(s[k]))
    && (forall k :: i + |r| <= k < |s| ==> IsSpace(s[k]))
  }

  /** A string without surrounding whitespace is its own strip. */
  lemma StripUntrimmed(s: string)
    requires s == [] || (!IsSpace(s[0]) && !IsSpace(s[|s| - 1]))
    ensures Strip(s) == s
  {
  }

  /** Stripping twice is stripping once. */
  lemma StripIdempotent(s: string)
    ensures Strip(Strip(s)) == Strip(s)
  {
    StripUntrimmed(Strip(s));
  }

  /** Python's `str.lower()` on one character, restricted to ASCII letters. */
  function LowerChar(c: char): char
  {
    if 'A' <= c <= 'Z' then (c as int + 32) as char else c
  }

  function Lower(s: string): (r: string)
    ensures |r| == |s|
    ensures forall k :: 0 <= k < |s| ==> r[k] == LowerChar(s[k])
  {
    seq(|s|, k requires 0 <= k < |s| => LowerChar(s[k]))
  }

  /** The upper-case form of an ASCII letter; any other character is its own. */
  function UpperChar(c: char): char
  {
    if 'a' <= c <= 'z' then (c as int - 32) as char else c
  }

  /**
   * Lower-casing gives a text `t` without upper-case letters exactly when
   * `s` is `t` with any of its letters written in upper case.
   */
  lemma LowerEqualsIff(s: string, t: string)
    requires forall k :: 0 <= k < |t| ==> !('A' <= t[k] <= 'Z')
    ensures Lower(s) == t <==> |s| == |t| && forall k :: 0 <= k < |s| ==> s[k] == t[k] || s[k] == UpperChar(t[k])
  {
    if Lower(s) == t {
      forall k | 0 <= k < |s| ensures s[k] == t[k] || s[k] == UpperChar(t[k]) {
        assert t[k] == LowerChar(s[k]);
      }
    }
    if |s| == |t| && forall k :: 0 <= k < |s| ==> s[k] == t[k] || s[k] == UpperChar(t[k]) {
      forall k | 0 <= k < |s| ensures Lower(s)[k] == t[k] {
        assert s[k] == t[k] || s[k] == UpperChar(t[k]);
      }
    }
  }

  /** Python's `"".join(pieces)`. */
  function Concat(pieces: seq<string>): string
  {
    if pieces == [] then "" else Concat(pieces[..|pieces| - 1]) + pieces[|pieces| - 1]
  }

  function DigitChar(d: nat): char
    requires d < 10
  {
    ['0', '1', '2', '3', '4', '5', '6', '7', '8', '9'][d]
  }

  predicate IsDigit(c: char)
  {
    '0' <= c <= '9'
  }

  /** The value of a string of decimal digits. */
  function DigitsValue(s: string): nat
    requires forall k :: 0 <= k < |s| ==> IsDigit(s[k])
  {
    if s == [] then 0
    else
      var last := s[|s| - 1];
      assert IsDigit(last);
      DigitsValue(s[..|s| - 1]) * 10 + (last as int - '0' as int)
  }

  /** Python's `str(n)` for a natural number: decimal digits, no leading zero. */
  function NatToString(n: nat): (r: string)
    ensures r != [] && forall k :: 0 <= k < |r| ==> IsDigit(r[k])
    ensures DigitsValue(r) == n
    ensures |r| > 1 ==> r[0] != '0'
  {
    if n < 10 then [DigitChar(n)]
    else
      var r := NatToString(n / 10) + [DigitChar(n % 10)];
      assert r[..|r| - 1] == NatToString(n / 10);
      r
  }

  /** Python's `str(i)` for any integer. */
  function IntToString(i: int): (r: string)
    ensures r != []
  {
    if i < 0 then "-" + NatToString(-i) else NatToString(i)
  }

  /** `str` on integers is injective: distinct integers print differently. */
  lemma IntToStringInjective(a: int, b: int)
    requires IntToString(a) == IntToString(b)
    ensures a == b
  {
    var sa, sb := IntToString(a), IntToString(b);
    if a < 0 && b < 0 {
      assert sa[1..] == NatToString(-a) && sb[1..] == NatToString(-b);
    }
  }

  /** Python's `posixpath.join(a, b)`. */
  function PathJoin(a: string, b: string): string
  {
    if StartsWith(b, "/") then b
    else if a == [] || a[|a| - 1] == '/' then a + b
    else a + "/" + b
  }

  /** The index of the last `c` in `s`, or -1 (Python's `str.rfind`). */
  function LastIndexOf(s: string, c: char): (i: int)
    ensures -1 <= i < |s|
    ensures i >= 0 ==> s[i] == c
    ensures forall j :: i < j < |s| ==> s[j] != c
  {
    if s == [] then -1
    else if s[|s| - 1] == c then |s| - 1
    else LastIndexOf(s[..|s| - 1], c)
  }

  /** Python's `os.path.basename(p)`: the text after the last `/`. */
  function Basename(p: string): (r: string)
    ensures '/' !in r
    ensures EndsWith(p, r)
    ensures r == p || p[|p| - |r| - 1] == '/'
  {
    p[LastIndexOf(p, '/') + 1..]
  }

  /**
   * The extension part of Python's `os.path.splitext(p)`: from the last dot
   * of the last path component, provided that component has a character other
   * than a dot before it (leading dots, as in ".bashrc", start no extension).
   */
  function Extension(p: string): (r: string)
    ensures r == [] || (r[0] == '.' && EndsWith(p, r) && '.' !in r[1..] && '/' !in r)
  {
    var sep := LastIndexOf(p, '/');
    var dot := LastIndexOf(p, '.');
    if dot > sep && exists k | sep + 1 <= k < dot :: p[k] != '.' then p[dot..] else ""
  }
}
