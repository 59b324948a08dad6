/**
 * The `os.path` functions the organizer calls, with the POSIX meaning that
 * CPython's `posixpath` gives them: `join`, `basename`, `splitext` and
 * `normpath`. The separator is `/`.
 */
module PosixPath {
  import opened Text

  const Sep: char := '/'

  /** `s.rfind(c)`: the index of the last `c` in `s`, or -1 when there is none. */
  function LastIndexOf(s: string, c: char): (r: int)
    ensures -1 <= r < |s|
    ensures r >= 0 ==> s[r] == c
    ensures forall k :: r < k < |s| ==> s[k] != c
  {
    if s == [] then -1
    else if s[|s| - 1] == c then |s| - 1
    else LastIndexOf(s[..|s| - 1], c)
  }

  /**
   * `os.path.join(a, b)`: an absolute `b` replaces `a`; otherwise `b` follows
   * `a`, with a separator between them unless `a` is empty or already ends with one.
   */
  function PathJoin(a: string, b: string): (r: string)
    ensures EndsWith(r, b)
    ensures StartsWith(b, [Sep]) || a == "" ==> r == b
    ensures !StartsWith(b, [Sep]) ==> StartsWith(r, a) && |a| + |b| <= |r| <= |a| + |b| + 1
    ensures !StartsWith(b, [Sep]) && a != "" ==> r[|r| - |b| - 1] == Sep
    ensures !StartsWith(b, [Sep]) && a != "" ==> (|r| == |a| + |b| <==> EndsWith(a, [Sep]))
  {
    if StartsWith(b, [Sep]) then b
    else if a == "" || EndsWith(a, [Sep]) then a + b
    else a + [Sep] + b
  }

  /** `os.path.basename(p)`: everything after the last separator. */
  function Basename(p: string): (r: string)
    ensures Sep !in r
    ensures EndsWith(p, r)
    ensures |r| < |p| ==> p[|p| - |r| - 1] == Sep
  {
    p[LastIndexOf(p, Sep) + 1..]
  }

  /**
   * Joining a folder with a name gives a path whose base name is that name,
   * whatever the folder: the drops keep the name the rules chose.
   */
  lemma JoinBasename(d: string, n: string)
    requires n != "" && Sep !in n
    ensures Basename(PathJoin(d, n)) == n
  {
    var r := PathJoin(d, n);
    assert n[0] != Sep;
    if d == "" {
      assert LastIndexOf(n, Sep) == -1;
    } else {
      BasenameAfterSep(r, n);
    }
  }

  /** A separator-free suffix right after a separator is the base name. */
  lemma BasenameAfterSep(r: string, n: string)
    requires EndsWith(r, n) && Sep !in n
    requires |n| < |r| && r[|r| - |n| - 1] == Sep
    ensures Basename(r) == n
  {
    assert LastIndexOf(r, Sep) == |r| - |n| - 1;
  }

  predicate AllDots(s: string) {
    forall k :: 0 <= k < |s| ==> s[k] == '.'
  }

  /**
   * The final component of `p` has a character other than a dot somewhere
   * before a later dot: that is when `splitext` splits off an extension.
   */
  ghost predicate HasExtension(p: string) {
    exists i, j :: LastIndexOf(p, Sep) < i < j < |p| && p[i] != '.' && p[j] == '.'
  }

  /** The test `splitext` makes is `HasExtension`. */
  lemma HasExtensionTest(p: string)
    ensures HasExtension(p) <==>
      LastIndexOf(p, '.') > LastIndexOf(p, Sep) && !AllDots(p[LastIndexOf(p, Sep) + 1..LastIndexOf(p, '.')])
  {
    var sepIndex, dotIndex := LastIndexOf(p, Sep), LastIndexOf(p, '.');
    if dotIndex > sepIndex && !AllDots(p[sepIndex + 1..dotIndex]) {
      ExtensionFromTest(p, sepIndex, dotIndex);
    }
    if HasExtension(p) {
      var i, j :| sepIndex < i < j < |p| && p[i] != '.' && p[j] == '.';
      TestFromExtension(p, sepIndex, dotIndex, i, j);
    }
  }

  /** A non-dot before the last dot of the final component is an extension. */
  lemma ExtensionFromTest(p: string, sepIndex: int, dotIndex: int)
    requires sepIndex == LastIndexOf(p, Sep) && dotIndex == LastIndexOf(p, '.')
    requires dotIndex > sepIndex && !AllDots(p[sepIndex + 1..dotIndex])
    ensures HasExtension(p)
  {
    var k :| 0 <= k < |p[sepIndex + 1..dotIndex]| && p[sepIndex + 1..dotIndex][k] != '.';
    assert p[sepIndex + 1 + k] != '.';
    assert sepIndex < sepIndex + 1 + k < dotIndex < |p| && p[dotIndex] == '.';
  }

  /** A non-dot at `i` and a dot at `j` after the last separator leave a non-dot before the last dot. */
  lemma TestFromExtension(p: string, sepIndex: int, dotIndex: int, i: int, j: int)
    requires -1 <= sepIndex < i < j < |p| && p[i] != '.' && p[j] == '.'
    requires -1 <= dotIndex < |p| && forall k :: dotIndex < k < |p| ==> p[k] != '.'
    ensures dotIndex > sepIndex && !AllDots(p[sepIndex + 1..dotIndex])
  {
    assert dotIndex >= j;
    assert p[sepIndex + 1..dotIndex][i - sepIndex - 1] == p[i];
  }

  /**
   * `os.path.splitext(p)`: splits at the last dot of the final component,
   * unless everything before that dot in the component is dots too (so
   * `.bashrc` has no extension).
   */
  function SplitExt(p: string): (r: (string, string))
    ensures r.0 + r.1 == p
    ensures r.1 != "" <==> HasExtension(p)
    ensures r.1 != "" ==> |r.0| == LastIndexOf(p, '.') && r.1[0] == '.'
    ensures forall k :: 0 < k < |r.1| ==> r.1[k] != '.' && r.1[k] != Sep
  {
    HasExtensionTest(p);
    var sepIndex := LastIndexOf(p, Sep);
    var dotIndex := LastIndexOf(p, '.');
    if dotIndex > sepIndex && !AllDots(p[sepIndex + 1..dotIndex]) then
      (p[..dotIndex], p[dotIndex..])
    else
      (p, "")
  }

  /**
   * When `splitext` finds an extension, the final component of the root still
   * holds a character other than a dot: a leading dot never starts an extension.
   */
  lemma SplitExtKeepsName(p: string)
    ensures SplitExt(p).1 != "" ==> !AllDots(Basename(SplitExt(p).0))
  {
    var sepIndex := LastIndexOf(p, Sep);
    var dotIndex := LastIndexOf(p, '.');
    if dotIndex > sepIndex && !AllDots(p[sepIndex + 1..dotIndex]) {
      LastIndexOfPrefix(p, Sep, dotIndex);
      assert Basename(p[..dotIndex]) == p[sepIndex + 1..dotIndex];
    }
  }

  /** The last `c` of `s` lies in its first `n` characters, so it is the last `c` of that prefix too. */
  lemma {:induction false} LastIndexOfPrefix(s: string, c: char, n: nat)
    requires LastIndexOf(s, c) < n <= |s|
    ensures LastIndexOf(s[..n], c) == LastIndexOf(s, c)
    decreases |s|
  {
    if n < |s| {
      assert s[..|s| - 1][..n] == s[..n];
      LastIndexOfPrefix(s[..|s| - 1], c, n);
    }
  }

  // ---------------------------------------------------------------------------
  // normpath

  /** A component `normpath` keeps: neither empty nor `.`, and without a separator. */
  predicate IsKeptComponent(c: string) {
    c != "" && c != "." && Sep !in c
  }

  /** No component holds a separator. */
  predicate SepFree(comps: seq<string>) {
    forall k :: 0 <= k < |comps| ==> Sep !in comps[k]
  }

  /** Every component is one `normpath` keeps. */
  predicate AllKept(comps: seq<string>) {
    forall k :: 0 <= k < |comps| ==> IsKeptComponent(comps[k])
  }

  /** `..` occurs only in a leading run: every `..` after the first component follows another `..`. */
  predicate DotDotLeading(comps: seq<string>) {
    forall k :: 0 < k < |comps| && comps[k] == ".." ==> comps[k - 1] == ".."
  }

  /**
   * The component loop of `posixpath.normpath`: empty and `.` components are
   * dropped, `..` removes the previous kept component, and a `..` that has
   * nothing to remove is kept in a relative path and dropped in an absolute one.
   */
  function NormComponents(comps: seq<string>, absolute: bool, acc: seq<string>): (r: seq<string>)
    requires SepFree(comps) && AllKept(acc) && DotDotLeading(acc)
    ensures AllKept(r) && DotDotLeading(r)
    ensures absolute && (forall k :: 0 <= k < |acc| ==> acc[k] != "..") ==> forall k :: 0 <= k < |r| ==> r[k] != ".."
  {
    if comps == [] then acc
    else
      var c := comps[0];
      if c == "" || c == "." then NormComponents(comps[1..], absolute, acc)
      else if c != ".." || (!absolute && acc == []) || (acc != [] && acc[|acc| - 1] == "..") then
        NormComponents(comps[1..], absolute, acc + [c])
      else if acc != [] then NormComponents(comps[1..], absolute, acc[..|acc| - 1])
      else NormComponents(comps[1..], absolute, acc)
  }

  /** The loop handles `a + b` by handling `a`, then `b` from where `a` left off. */
  lemma {:induction false} NormConcat(a: seq<string>, b: seq<string>, absolute: bool, acc: seq<string>)
    requires SepFree(a) && SepFree(b) && AllKept(acc) && DotDotLeading(acc)
    ensures SepFree(a + b)
    ensures NormComponents(a + b, absolute, acc) == NormComponents(b, absolute, NormComponents(a, absolute, acc))
    decreases |a|
  {
    assert forall k :: 0 <= k < |a + b| ==> (a + b)[k] == if k < |a| then a[k] else b[k - |a|];
    if a == [] {
      assert a + b == b;
    } else {
      assert (a + b)[0] == a[0] && (a + b)[1..] == a[1..] + b;
      var c := a[0];
      var next :=
        if c == "" || c == "." then acc
        else if c != ".." || (!absolute && acc == []) || (acc != [] && acc[|acc| - 1] == "..") then acc + [c]
        else if acc != [] then acc[..|acc| - 1]
        else acc;
      assert NormComponents(a, absolute, acc) == NormComponents(a[1..], absolute, next);
      assert NormComponents(a + b, absolute, acc) == NormComponents(a[1..] + b, absolute, next);
      NormConcat(a[1..], b, absolute, next);
    }
  }

  /** An empty or `.` component makes no difference, wherever it stands. */
  lemma NormSkips(a: seq<string>, c: string, b: seq<string>, absolute: bool)
    requires SepFree(a) && SepFree(b) && (c == "" || c == ".")
    ensures SepFree(a + [c] + b) && SepFree(a + b)
    ensures NormComponents(a + [c] + b, absolute, []) == NormComponents(a + b, absolute, [])
  {
    assert SepFree([c]);
    NormConcat(a, [c] + b, absolute, []);
    var mid := NormComponents(a, absolute, []);
    NormConcat([c], b, absolute, mid);
    assert NormComponents([c], absolute, mid) == NormComponents([], absolute, mid);
    NormConcat(a, b, absolute, []);
    assert a + [c] + b == a + ([c] + b);
  }

  /** A name followed by `..` cancels out, wherever the pair stands. */
  lemma NormCancels(a: seq<string>, x: string, b: seq<string>, absolute: bool)
    requires SepFree(a) && SepFree(b) && IsKeptComponent(x) && x != ".."
    ensures SepFree(a + [x, ".."] + b) && SepFree(a + b)
    ensures NormComponents(a + [x, ".."] + b, absolute, []) == NormComponents(a + b, absolute, [])
  {
    assert SepFree([x, ".."]);
    NormConcat(a, [x, ".."] + b, absolute, []);
    var mid := NormComponents(a, absolute, []);
    NormConcat([x, ".."], b, absolute, mid);
    NormPairCancels(x, absolute, mid);
    NormConcat(a, b, absolute, []);
    assert a + [x, ".."] + b == a + ([x, ".."] + b);
  }

  /** A kept name followed by `..` leaves the accumulated components as they were. */
  lemma NormPairCancels(x: string, absolute: bool, mid: seq<string>)
    requires IsKeptComponent(x) && x != ".." && AllKept(mid) && DotDotLeading(mid)
    ensures NormComponents([x, ".."], absolute, mid) == mid
  {
    assert [x, ".."][1..] == [".."];
    assert NormComponents([x, ".."], absolute, mid) == NormComponents([".."], absolute, mid + [x]);
    var next := mid + [x];
    assert next != [] && next[|next| - 1] == x && next[..|next| - 1] == mid;
    assert [".."][1..] == [];
    assert NormComponents([".."], absolute, next) == NormComponents([], absolute, mid);
  }

  /** Components that are all kept names, none `..`, come out as they are, in order. */
  lemma {:induction false} NormKeepsPlain(comps: seq<string>, absolute: bool, acc: seq<string>)
    requires AllKept(comps) && forall k :: 0 <= k < |comps| ==> comps[k] != ".."
    requires AllKept(acc) && DotDotLeading(acc)
    ensures NormComponents(comps, absolute, acc) == acc + comps
    decreases |comps|
  {
    if comps != [] {
      var next := acc + [comps[0]];
      assert DotDotLeading(next);
      NormKeepsPlain(comps[1..], absolute, next);
      assert next + comps[1..] == acc + comps;
    }
  }

  /** A `..` with nothing before it to remove is kept in a relative path and dropped in an absolute one. */
  lemma NormLeadingDotDot(b: seq<string>)
    requires SepFree(b)
    ensures SepFree([".."] + b)
    ensures NormComponents([".."] + b, false, []) == NormComponents(b, false, [".."])
    ensures NormComponents([".."] + b, true, []) == NormComponents(b, true, [])
  {
    assert ([".."] + b)[0] == ".." && ([".."] + b)[1..] == b;
    assert SepFree([".."] + b);
    assert [] + [".."] == [".."];
  }

  /** `normpath(["a", "..", "b"])` keeps only `b`. */
  lemma NormExample(absolute: bool)
    ensures NormComponents(["a", "..", "b"], absolute, []) == ["b"]
  {
    NormCancels([], "a", ["b"], absolute);
    assert [] + ["a", ".."] + ["b"] == ["a", "..", "b"];
    assert [] + ["b"] == ["b"];
    NormKeepsPlain(["b"], absolute, []);
  }

  /** Number of leading separators `normpath` keeps: two exactly when a path starts with `//` but not `///`. */
  function InitialSlashes(p: string): (n: nat)
    ensures n == 0 <==> !StartsWith(p, [Sep])
    ensures n == 2 <==> StartsWith(p, [Sep, Sep]) && !StartsWith(p, [Sep, Sep, Sep])
    ensures n == 1 <==> StartsWith(p, [Sep]) && (!StartsWith(p, [Sep, Sep]) || StartsWith(p, [Sep, Sep, Sep]))
  {
    if !StartsWith(p, [Sep]) then 0
    else if StartsWith(p, [Sep, Sep]) && !StartsWith(p, [Sep, Sep, Sep]) then 2
    else 1
  }

  /**
   * `os.path.normpath(p)`: the kept components joined by single separators,
   * after the leading separators `InitialSlashes` keeps; `.` for an empty result.
   */
  function Normpath(p: string): (r: string)
    ensures r != ""
  {
    var slashes := InitialSlashes(p);
    SplitPieces(p, Sep);
    var comps := NormComponents(Split(p, Sep), slashes > 0, []);
    var body := Join(comps, Sep);
    var lead := if slashes == 0 then "" else if slashes == 1 then [Sep] else [Sep, Sep];
    if lead + body == "" then "."
    else lead + body
  }

  /** Splitting an absolute path gives an empty first piece, then the pieces of the rest. */
  lemma SplitAbsolute(body: string)
    ensures Split([Sep] + body, Sep) == [""] + Split(body, Sep)
  {
    SplitConcat("", body, Sep);
    assert "" + [Sep] + body == [Sep] + body;
    assert Split("", Sep) == [""];
  }

  /** A path with exactly one leading separator keeps one. */
  lemma OneInitialSlash(body: string)
    requires body != "" && body[0] != Sep
    ensures InitialSlashes([Sep] + body) == 1
  {
    var p := [Sep] + body;
    assert p[..2][1] == body[0];
  }

  /** An absolute path whose components are all kept names, none `..`, is already normal. */
  lemma NormpathNormal(comps: seq<string>)
    requires |comps| >= 1 && AllKept(comps) && forall k :: 0 <= k < |comps| ==> comps[k] != ".."
    ensures Normpath([Sep] + Join(comps, Sep)) == [Sep] + Join(comps, Sep)
  {
    var body := Join(comps, Sep);
    var p := [Sep] + body;
    SplitJoin(comps, Sep);
    SplitAbsolute(body);
    assert Split(p, Sep) == [""] + comps;
    assert body[..|comps[0]|] == comps[0];
    assert body[0] == comps[0][0] && Sep !in comps[0];
    OneInitialSlash(body);
    assert ([""] + comps)[0] == "" && ([""] + comps)[1..] == comps;
    assert NormComponents([""] + comps, true, []) == NormComponents(comps, true, []);
    NormKeepsPlain(comps, true, []);
    assert [] + comps == comps;
  }
}
