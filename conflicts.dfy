/**
 * Renaming on a name clash: the `while os.path.exists(new_path)` loops of the
 * two drop tasks. The file system's `exists` is the membership test of a
 * finite set of taken paths.
 */
module Conflicts {
  import opened Text
  import opened PosixPath

  /** The two loops differ only in the word they insert. */
  datatype RenameKind = Conflict | Duplicate

  /** The word the loop inserts. It holds neither a dot nor a separator, so it never moves the extension or the folder. */
  function Tag(kind: RenameKind): (t: string)
    ensures t != "" && '.' !in t && Sep !in t
  {
    match kind
    case Conflict => "_conflict_"
    case Duplicate => "_duplicate_"
  }

  /** `f"{base}{tag}{counter}{ext}"` where `base, ext = os.path.splitext(path)`. */
  function Candidate(path: string, kind: RenameKind, counter: nat): string {
    var (base, ext) := SplitExt(path);
    base + Tag(kind) + Decimal(counter) + ext
  }

  /** What a candidate inserts between the root and the extension: the tag and the counter, with no dot and no separator. */
  lemma InsertionFree(kind: RenameKind, counter: nat)
    ensures '.' !in Tag(kind) + Decimal(counter) && Sep !in Tag(kind) + Decimal(counter)
  {
    var d := Decimal(counter);
    assert forall k :: 0 <= k < |d| ==> d[k] != '.' && d[k] != Sep;
  }

  /** Appending characters without `c` leaves the last `c` where it was. */
  lemma LastIndexOfAppend(x: string, y: string, c: char)
    requires c !in y
    ensures LastIndexOf(x + y, c) == LastIndexOf(x, c)
  {
    var r, q := LastIndexOf(x + y, c), LastIndexOf(x, c);
    if q >= 0 {
      assert (x + y)[q] == c;
    }
    if r >= 0 {
      assert x[r] == c;
    }
  }

  /** Appending text with no dot and no separator to a path without an extension gives none. */
  lemma NoExtensionStays(path: string, mid: string)
    requires !HasExtension(path) && '.' !in mid && Sep !in mid
    ensures !HasExtension(path + mid)
  {
    LastIndexOfAppend(path, mid, Sep);
  }

  /** A renamed path that had no extension still has none. */
  lemma NoExtensionKept(path: string, mid: string)
    requires !HasExtension(path) && '.' !in mid && Sep !in mid
    ensures SplitExt(path + mid) == (path + mid, "")
  {
    NoExtensionStays(path, mid);
    var r := SplitExt(path + mid);
    assert r.1 == "";
    assert r.0 == r.0 + r.1;
  }

  /** A renamed path that had an extension keeps it, after the inserted text. */
  lemma ExtensionKept(path: string, mid: string)
    requires HasExtension(path) && '.' !in mid && Sep !in mid
    ensures SplitExt(SplitExt(path).0 + mid + SplitExt(path).1) == (SplitExt(path).0 + mid, SplitExt(path).1)
  {
    var (base, ext) := SplitExt(path);
    var cand := base + mid + ext;
    var tail := mid + ext;
    assert cand == base + tail;
    assert Sep !in ext by {
      assert ext[0] == '.';
    }
    assert Sep !in tail by {
      assert forall k :: 0 <= k < |tail| ==> tail[k] == if k < |mid| then mid[k] else ext[k - |mid|];
    }
    LastIndexOfAppend(base, tail, Sep);
    LastIndexOfAppend(base, ext, Sep);
    var dot := |base| + |mid|;
    assert cand[dot] == '.';
    assert LastIndexOf(cand, '.') == dot;
    var i, j :| LastIndexOf(path, Sep) < i < j < |path| && path[i] != '.' && path[j] == '.';
    assert j <= LastIndexOf(path, '.') == |base|;
    assert cand[i] == path[i];
    assert LastIndexOf(cand, Sep) < i < dot < |cand| && cand[i] != '.' && cand[dot] == '.';
    assert HasExtension(cand);
    var r := SplitExt(cand);
    assert r.0 == cand[..dot] == base + mid;
  }

  /**
   * A candidate keeps the path's extension and puts the tag and the counter
   * right before it, so `report.pdf` becomes `report_conflict_1.pdf`.
   */
  lemma CandidateKeepsExtension(path: string, kind: RenameKind, counter: nat)
    ensures SplitExt(Candidate(path, kind, counter)) ==
      (SplitExt(path).0 + Tag(kind) + Decimal(counter), SplitExt(path).1)
  {
    var (base, ext) := SplitExt(path);
    var t, d := Tag(kind), Decimal(counter);
    var mid := t + d;
    InsertionFree(kind, counter);
    AppendAssoc(base, t, d);
    assert Candidate(path, kind, counter) == base + mid + ext;
    if ext == "" {
      assert base == base + ext == path;
      NoExtensionKept(path, mid);
      assert base + mid + ext == path + mid;
    } else {
      ExtensionKept(path, mid);
    }
  }

  /** Different counters give different candidates, and no candidate is the original path. */
  lemma CandidateInjective(path: string, kind: RenameKind, m: nat, n: nat)
    ensures Candidate(path, kind, m) == Candidate(path, kind, n) ==> m == n
    ensures Candidate(path, kind, m) != path
  {
    var (base, ext) := SplitExt(path);
    var pre := base + Tag(kind);
    var cm, cn := Candidate(path, kind, m), Candidate(path, kind, n);
    assert cm == pre + Decimal(m) + ext;
    assert cn == pre + Decimal(n) + ext;
    assert |cm| > |path|;
    if cm == cn {
      assert |Decimal(m)| == |Decimal(n)|;
      assert Decimal(m) == cm[|pre|..|pre| + |Decimal(m)|];
      assert Decimal(n) == cn[|pre|..|pre| + |Decimal(n)|];
      DecimalInjective(m, n);
    }
  }

  /** The path tried by the `i`-th test of the loop guard: first the path itself, then candidates 1, 2, ... */
  function Attempt(path: string, kind: RenameKind, i: nat): string {
    if i == 0 then path else Candidate(path, kind, i)
  }

  /** The paths the first `n` tests of the loop guard looked at. */
  ghost function Tried(path: string, kind: RenameKind, n: nat): set<string> {
    if n == 0 then {} else Tried(path, kind, n - 1) + {Attempt(path, kind, n - 1)}
  }

  lemma {:induction false} NotYetTried(path: string, kind: RenameKind, n: nat, m: nat)
    requires n <= m
    ensures Attempt(path, kind, m) !in Tried(path, kind, n)
  {
    if n > 0 {
      NotYetTried(path, kind, n - 1, m);
      CandidateInjective(path, kind, n - 1, m);
      CandidateInjective(path, kind, m, n - 1);
    }
  }

  lemma {:induction false} TriedSize(path: string, kind: RenameKind, n: nat)
    ensures |Tried(path, kind, n)| == n
  {
    if n > 0 {
      TriedSize(path, kind, n - 1);
      NotYetTried(path, kind, n - 1, n - 1);
    }
  }

  lemma {:induction false} SubsetSize<T>(a: set<T>, b: set<T>)
    requires a <= b
    ensures |a| <= |b|
    decreases b
  {
    if a != {} {
      var x :| x in a;
      SubsetSize(a - {x}, b - {x});
    }
  }

  /** One more taken attempt: the attempts so far are still all taken, and there are no more of them than taken paths. */
  lemma TakenAttempt(path: string, kind: RenameKind, n: nat, taken: set<string>)
    requires n >= 1
    requires Tried(path, kind, n - 1) <= taken && Attempt(path, kind, n - 1) in taken
    ensures Tried(path, kind, n) <= taken
    ensures n <= |taken|
  {
    TriedSize(path, kind, n);
    SubsetSize(Tried(path, kind, n), taken);
  }

  /**
   * `newPath` is what the rename loop yields for `path`: a free path, equal to
   * `path` when that is free, and otherwise the candidate with the least
   * counter whose path is free.
   */
  ghost predicate IsResolvedName(path: string, kind: RenameKind, taken: set<string>, newPath: string) {
    && newPath !in taken
    && (path !in taken ==> newPath == path)
    && (path in taken ==>
          exists k: nat :: k >= 1 && newPath == Candidate(path, kind, k) &&
            forall j :: 1 <= j < k ==> Candidate(path, kind, j) in taken)
  }

  /** What `ResolveName` promises, with the counter it reports, is that description. */
  lemma ResolvedByCounter(path: string, kind: RenameKind, taken: set<string>, newPath: string, suffix: nat)
    requires newPath !in taken
    requires path !in taken ==> newPath == path
    requires path in taken ==> suffix >= 1 && newPath == Candidate(path, kind, suffix)
    requires forall k :: 1 <= k < suffix ==> Candidate(path, kind, k) in taken
    ensures IsResolvedName(path, kind, taken, newPath)
  {
  }

  /** The description above leaves no choice: at most one path meets it. */
  lemma ResolvedNameUnique(path: string, kind: RenameKind, taken: set<string>, p1: string, p2: string)
    requires IsResolvedName(path, kind, taken, p1) && IsResolvedName(path, kind, taken, p2)
    ensures p1 == p2
  {
    if path in taken {
      var k1: nat :| k1 >= 1 && p1 == Candidate(path, kind, k1) &&
        forall j :: 1 <= j < k1 ==> Candidate(path, kind, j) in taken;
      var k2: nat :| k2 >= 1 && p2 == Candidate(path, kind, k2) &&
        forall j :: 1 <= j < k2 ==> Candidate(path, kind, j) in taken;
      assert k1 < k2 ==> Candidate(path, kind, k1) in taken;
      assert k2 < k1 ==> Candidate(path, kind, k2) in taken;
    }
  }

  /**
   * The rename loop. A free `path` is kept (`suffix == 0`); otherwise the
   * result is the candidate with the least counter `suffix >= 1` whose path is
   * free. The result is never taken, and the loop ends because `taken` is finite.
   */
  method ResolveName(path: string, kind: RenameKind, taken: set<string>)
    returns (newPath: string, suffix: nat)
    ensures newPath !in taken
    ensures path !in taken ==> newPath == path && suffix == 0
    ensures path in taken ==> suffix >= 1 && newPath == Candidate(path, kind, suffix)
    ensures forall k :: 1 <= k < suffix ==> Candidate(path, kind, k) in taken
  {
    newPath := path;
    var counter: nat := 1;
    while newPath in taken
      invariant counter >= 1 && newPath == Attempt(path, kind, counter - 1)
      invariant SearchedUpTo(path, kind, taken, counter - 1)
      decreases |taken| - (counter - 1)
    {
      SearchStep(path, kind, taken, counter - 1);
      newPath := Candidate(path, kind, counter);
      counter := counter + 1;
    }
    suffix := counter - 1;
  }

  /** The first `n` paths the loop guard tried are all taken: the original path and candidates `1 .. n-1`. */
  ghost predicate SearchedUpTo(path: string, kind: RenameKind, taken: set<string>, n: nat) {
    && Tried(path, kind, n) <= taken
    && (n > 0 ==> path in taken)
    && forall k :: 1 <= k < n ==> Candidate(path, kind, k) in taken
  }

  /** One more taken attempt extends the search by one, and the search stays within `taken`. */
  lemma SearchStep(path: string, kind: RenameKind, taken: set<string>, n: nat)
    requires SearchedUpTo(path, kind, taken, n) && Attempt(path, kind, n) in taken
    ensures SearchedUpTo(path, kind, taken, n + 1)
    ensures n + 1 <= |taken|
  {
    TakenAttempt(path, kind, n + 1, taken);
  }
}
