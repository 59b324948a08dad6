/**
 * `get_category_from_path`: the PARA category whose folder under the base
 * directory holds a path. The folders are tried in the order of
 * `para_folders`, and the first one that holds the path wins.
 */
module Category {
  import opened Wrappers
  import opened Text
  import opened PosixPath

  /** `self.para_folders`: category name and folder name, in insertion order. */
  const ParaFolders: seq<(string, string)> :=
    [("Projects", "1_Projects"), ("Areas", "2_Areas"), ("Resources", "3_Resources"), ("Archives", "4_Archives")]

  /** `p == d or p.startswith(d + os.sep)`: `p` is the folder `d` or lies somewhere inside it. */
  predicate Within(p: string, d: string) {
    p == d || StartsWith(p, d + [Sep])
  }

  /** The category paths `os.path.join(base_dir, folder_name)`, with their category names, in order. */
  function CategoryPaths(baseDir: string, folders: seq<(string, string)>): (r: seq<(string, string)>)
    ensures |r| == |folders|
    ensures forall k :: 0 <= k < |r| ==> r[k] == (folders[k].0, PathJoin(baseDir, folders[k].1))
  {
    seq(|folders|, k requires 0 <= k < |folders| => (folders[k].0, PathJoin(baseDir, folders[k].1)))
  }

  /** The category path at index `k` holds `normPath`: it is that folder or lies inside it. */
  predicate Holds(cats: seq<(string, string)>, normPath: string, k: nat)
    requires k < |cats|
  {
    Within(normPath, cats[k].1)
  }

  /** The loop over the categories from index `i` on: the first one whose path holds `normPath`. */
  function FirstHolder(cats: seq<(string, string)>, normPath: string, i: nat): (r: Option<string>)
    requires i <= |cats|
    ensures r.Some? ==> i < |cats|
    decreases |cats| - i
  {
    if i == |cats| then None
    else if Holds(cats, normPath, i) then Some(cats[i].0)
    else FirstHolder(cats, normPath, i + 1)
  }

  /** `get_category_from_path(path)`; `None` and the empty string both stand for no base directory. */
  function CategoryOf(baseDir: Option<string>, folders: seq<(string, string)>, path: string): (r: Option<string>)
    ensures baseDir.None? || baseDir.value == "" ==> r.None?
  {
    if baseDir.None? || baseDir.value == "" then None
    else FirstHolder(CategoryPaths(baseDir.value, folders), Normpath(path), 0)
  }

  /** Nothing is found exactly when no category path, from `i` on, holds the path. */
  lemma {:induction false} FirstHolderNone(cats: seq<(string, string)>, normPath: string, i: nat)
    requires i <= |cats|
    ensures FirstHolder(cats, normPath, i).None? <==> forall k :: i <= k < |cats| ==> !Holds(cats, normPath, k)
    decreases |cats| - i
  {
    if i < |cats| {
      FirstHolderNone(cats, normPath, i + 1);
    }
  }

  /** A category found is that of the first category path, from `i` on, that holds the path. */
  lemma {:induction false} FirstHolderFound(cats: seq<(string, string)>, normPath: string, i: nat) returns (k: nat)
    requires i <= |cats| && FirstHolder(cats, normPath, i).Some?
    ensures i <= k < |cats| && FirstHolder(cats, normPath, i) == Some(cats[k].0)
    ensures Holds(cats, normPath, k)
    ensures forall j :: i <= j < k ==> !Holds(cats, normPath, j)
    decreases |cats| - i
  {
    if Holds(cats, normPath, i) {
      k := i;
    } else {
      k := FirstHolderFound(cats, normPath, i + 1);
    }
  }

  /** Conversely, the first category path that holds the path gives the category found. */
  lemma {:induction false} FirstHolderIsFirst(cats: seq<(string, string)>, normPath: string, i: nat, k: nat)
    requires i <= k < |cats|
    requires Holds(cats, normPath, k)
    requires forall j :: i <= j < k ==> !Holds(cats, normPath, j)
    ensures FirstHolder(cats, normPath, i) == Some(cats[k].0)
    decreases k - i
  {
    if i < k {
      assert !Holds(cats, normPath, i);
      FirstHolderIsFirst(cats, normPath, i + 1, k);
    }
  }

  /** With a base directory, no category is found exactly when no category folder holds the normalized path. */
  lemma CategoryOfNone(baseDir: string, folders: seq<(string, string)>, path: string)
    requires baseDir != ""
    ensures CategoryOf(Some(baseDir), folders, path).None? <==>
      forall k :: 0 <= k < |folders| ==> !Holds(CategoryPaths(baseDir, folders), Normpath(path), k)
  {
    var cats := CategoryPaths(baseDir, folders);
    FirstHolderNone(cats, Normpath(path), 0);
  }

  /**
   * With a base directory, a category is found exactly when it is that of
   * the first folder that holds the normalized path.
   */
  lemma CategoryOfMeaning(baseDir: string, folders: seq<(string, string)>, path: string, k: nat)
    requires baseDir != "" && k < |folders|
    ensures (Holds(CategoryPaths(baseDir, folders), Normpath(path), k) &&
             forall j :: 0 <= j < k ==> !Holds(CategoryPaths(baseDir, folders), Normpath(path), j)) ==>
      CategoryOf(Some(baseDir), folders, path) == Some(folders[k].0)
  {
    var cats := CategoryPaths(baseDir, folders);
    if Holds(CategoryPaths(baseDir, folders), Normpath(path), k) &&
       forall j :: 0 <= j < k ==> !Holds(CategoryPaths(baseDir, folders), Normpath(path), j) {
      FirstHolderIsFirst(cats, Normpath(path), 0, k);
    }
  }

  /** A category found comes from the first folder that holds the normalized path. */
  lemma CategoryOfFound(baseDir: string, folders: seq<(string, string)>, path: string) returns (k: nat)
    requires baseDir != "" && CategoryOf(Some(baseDir), folders, path).Some?
    ensures k < |folders| && CategoryOf(Some(baseDir), folders, path) == Some(folders[k].0)
    ensures Holds(CategoryPaths(baseDir, folders), Normpath(path), k)
    ensures forall j :: 0 <= j < k ==> !Holds(CategoryPaths(baseDir, folders), Normpath(path), j)
  {
    var cats := CategoryPaths(baseDir, folders);
    k := FirstHolderFound(cats, Normpath(path), 0);
  }

  /** The components of `a` are the first components of `b`. */
  predicate ComponentPrefix(a: seq<string>, b: seq<string>) {
    |a| <= |b| && b[..|a|] == a
  }

  /** A path within a folder has the folder's components first. */
  lemma WithinHasPrefix(p: string, d: string)
    requires Within(p, d)
    ensures ComponentPrefix(Split(d, Sep), Split(p, Sep))
  {
    var dc := Split(d, Sep);
    if p == d {
      assert Split(p, Sep)[..|dc|] == dc;
    } else {
      var rest := p[|d| + 1..];
      assert p == d + [Sep] + rest;
      SplitConcat(d, rest, Sep);
      assert (dc + Split(rest, Sep))[..|dc|] == dc;
    }
  }

  /** A path whose first components are a folder's lies within that folder. */
  lemma PrefixIsWithin(p: string, d: string)
    requires ComponentPrefix(Split(d, Sep), Split(p, Sep))
    ensures Within(p, d)
  {
    var dc, pc := Split(d, Sep), Split(p, Sep);
    var tail := pc[|dc|..];
    assert pc == dc + tail;
    JoinSplit(p, Sep);
    JoinSplit(d, Sep);
    if tail == [] {
      assert pc == dc;
    } else {
      JoinConcat(dc, tail, Sep);
      assert p == d + [Sep] + Join(tail, Sep);
      assert (d + [Sep] + Join(tail, Sep))[..|d| + 1] == d + [Sep];
    }
  }

  /**
   * The test respects separators: `p` is within `d` exactly when the
   * components of `d` are the first components of `p`. So `1_ProjectsX` is
   * not within `1_Projects`, while `1_Projects/x` is.
   */
  lemma WithinComponents(p: string, d: string)
    ensures Within(p, d) <==> ComponentPrefix(Split(d, Sep), Split(p, Sep))
  {
    if Within(p, d) {
      WithinHasPrefix(p, d);
    }
    if ComponentPrefix(Split(d, Sep), Split(p, Sep)) {
      PrefixIsWithin(p, d);
    }
  }

  /** Anything below a folder lies within it. */
  lemma ChildWithin(d: string, rest: string)
    ensures Within(d + [Sep] + rest, d)
  {
    assert (d + [Sep] + rest)[..|d| + 1] == d + [Sep];
  }

  /** A longer name that only starts with the folder's name is not within the folder. */
  lemma SiblingNotWithin(d: string, x: string)
    requires x != "" && x[0] != Sep
    ensures !Within(d + x, d)
  {
    assert (d + x)[|d|] == x[0];
  }

  /** A relative name joined to a folder that does not end with a separator. */
  lemma JoinUnder(d: string, name: string)
    requires d != "" && d[|d| - 1] != Sep && name != "" && name[0] != Sep
    ensures PathJoin(d, name) == d + [Sep] + name
  {
    assert !StartsWith(name, [Sep]) by {
      assert name[..1][0] == name[0];
    }
    assert !EndsWith(d, [Sep]) by {
      assert d[|d| - 1..][0] == d[|d| - 1];
    }
  }

  /** The category paths of the four PARA folders under a base directory `b` that does not end with a separator. */
  lemma ParaPaths(b: string)
    requires b != "" && b[|b| - 1] != Sep
    ensures CategoryPaths(b, ParaFolders) ==
      [("Projects", b + [Sep] + "1_Projects"), ("Areas", b + [Sep] + "2_Areas"),
       ("Resources", b + [Sep] + "3_Resources"), ("Archives", b + [Sep] + "4_Archives")]
  {
    JoinUnder(b, "1_Projects");
    JoinUnder(b, "2_Areas");
    JoinUnder(b, "3_Resources");
    JoinUnder(b, "4_Archives");
  }

  /** A normalized path inside `1_Projects` under the base directory belongs to Projects. */
  lemma InProjects(b: string, p: string)
    requires b != "" && b[|b| - 1] != Sep
    requires Normpath(p) == p && Within(p, b + [Sep] + "1_Projects")
    ensures CategoryOf(Some(b), ParaFolders, p) == Some("Projects")
  {
    ParaPaths(b);
    var cats := CategoryPaths(b, ParaFolders);
    assert Holds(cats, p, 0);
    FirstHolderIsFirst(cats, p, 0, 0);
  }

  /**
   * A normalized path whose folder name only starts with `1_Projects`, such
   * as `1_ProjectsX`, belongs to no category.
   */
  lemma SiblingOfProjects(b: string, x: string)
    requires b != "" && b[|b| - 1] != Sep && x != "" && x[0] != Sep
    requires Normpath(b + [Sep] + "1_Projects" + x) == b + [Sep] + "1_Projects" + x
    ensures CategoryOf(Some(b), ParaFolders, b + [Sep] + "1_Projects" + x) == None
  {
    var p := b + [Sep] + "1_Projects" + x;
    var cats := CategoryPaths(b, ParaFolders);
    SiblingHeldByNone(b, x);
    forall k | 0 <= k < |cats|
      ensures !Holds(cats, p, k)
    {
      assert k == 0 || k == 1 || k == 2 || k == 3;
    }
    FirstHolderNone(cats, p, 0);
  }

  /** No PARA category path holds `<b>/1_Projects<x>`. */
  lemma SiblingHeldByNone(b: string, x: string)
    requires b != "" && b[|b| - 1] != Sep && x != "" && x[0] != Sep
    ensures !Holds(CategoryPaths(b, ParaFolders), b + [Sep] + "1_Projects" + x, 0)
    ensures !Holds(CategoryPaths(b, ParaFolders), b + [Sep] + "1_Projects" + x, 1)
    ensures !Holds(CategoryPaths(b, ParaFolders), b + [Sep] + "1_Projects" + x, 2)
    ensures !Holds(CategoryPaths(b, ParaFolders), b + [Sep] + "1_Projects" + x, 3)
  {
    JoinUnder(b, "1_Projects");
    assert CategoryPaths(b, ParaFolders)[0].1 == b + [Sep] + "1_Projects";
    SiblingNotWithin(b + [Sep] + "1_Projects", x);
    OtherCategoryNotHeld(b, x, 1);
    OtherCategoryNotHeld(b, x, 2);
    OtherCategoryNotHeld(b, x, 3);
  }

  /** The category paths after the first do not hold `<b>/1_Projects<x>`. */
  lemma OtherCategoryNotHeld(b: string, x: string, k: nat)
    requires b != "" && b[|b| - 1] != Sep && 1 <= k < 4
    ensures !Holds(CategoryPaths(b, ParaFolders), b + [Sep] + "1_Projects" + x, k)
  {
    var name := ParaFolders[k].1;
    assert name != "" && name[0] != '1' && name[0] != Sep;
    JoinUnder(b, name);
    OtherFolderNotWithin(b, x, name);
  }

  /** `<b>/1_Projects<x>` is not inside a folder of `b` whose name starts with another character. */
  lemma OtherFolderNotWithin(b: string, x: string, name: string)
    requires name != "" && name[0] != '1'
    ensures !Within(b + [Sep] + "1_Projects" + x, b + [Sep] + name)
  {
    var p := b + [Sep] + "1_Projects" + x;
    assert p[|b| + 1] == '1';
    FolderInitial(b, name);
    DiffersNotWithin(p, b + [Sep] + name, |b| + 1);
  }

  /** The first character of a folder name joined under `b`. */
  lemma FolderInitial(b: string, name: string)
    requires name != ""
    ensures (b + [Sep] + name)[|b| + 1] == name[0]
  {
  }

  /** A path that differs from a folder at some position inside both is not within it. */
  lemma DiffersNotWithin(p: string, d: string, i: nat)
    requires i < |d| && i < |p| && p[i] != d[i]
    ensures !Within(p, d)
  {
    assert (d + [Sep])[i] == d[i];
  }
}
