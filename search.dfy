/**
 * The search bar, `handle_search`: the term is lower-cased and stripped; a
 * blank term brings back the folder tree when a base directory is set and
 * leaves the pane alone otherwise; any other term lists the index entries
 * whose (already lower-cased) name contains it, in index order.
 */
module Search {
  import opened Wrappers
  import opened Text

  /** One entry of the file index: the lower-cased base name, and the path. */
  datatype IndexEntry = IndexEntry(name: string, path: string)

  /** What the bottom pane shows after a search: what it showed before, the folder tree, or a result list. */
  datatype SearchView = Unchanged | FolderTree | Results(entries: seq<IndexEntry>)

  /** `if self.base_dir`: a base directory is set and is not the empty string. */
  predicate HasBaseDir(baseDir: Option<string>) {
    baseDir.Some? && baseDir.value != ""
  }

  /** `text.lower().strip()`. */
  function SearchTerm(text: string): string {
    Strip(Lower(text))
  }

  /** What the comprehension contributes for one entry. */
  function Kept(e: IndexEntry, term: string): seq<IndexEntry> {
    if Contains(e.name, term) then [e] else []
  }

  /** `[(name, path) for name, path in index if term in name]`. */
  function Matching(index: seq<IndexEntry>, term: string): (r: seq<IndexEntry>)
    ensures |r| <= |index|
  {
    if index == [] then []
    else
      var n := |index| - 1;
      Matching(index[..n], term) + Kept(index[n], term)
  }

  /** `handle_search(text)`. An empty index gives an empty list. */
  function HandleSearch(text: string, baseDir: Option<string>, index: seq<IndexEntry>): SearchView {
    var term := SearchTerm(text);
    if term == "" then (if HasBaseDir(baseDir) then FolderTree else Unchanged)
    else Results(Matching(index, term))
  }

  /** Only index entries whose name contains the term are listed. */
  lemma {:induction false} MatchingSound(index: seq<IndexEntry>, term: string, e: IndexEntry)
    requires e in Matching(index, term)
    ensures e in index && Contains(e.name, term)
  {
    var n := |index| - 1;
    if e in Matching(index[..n], term) {
      MatchingSound(index[..n], term, e);
      var k :| 0 <= k < n && index[..n][k] == e;
      assert index[k] == e;
    } else {
      assert e in Kept(index[n], term);
    }
  }

  /** Every index entry whose name contains the term is listed. */
  lemma {:induction false} MatchingComplete(index: seq<IndexEntry>, term: string, e: IndexEntry)
    requires e in index && Contains(e.name, term)
    ensures e in Matching(index, term)
  {
    var n := |index| - 1;
    if e != index[n] {
      assert e in index[..n] by {
        var k :| 0 <= k < |index| && index[k] == e;
        assert index[..n][k] == e;
      }
      MatchingComplete(index[..n], term, e);
    }
  }

  /** One more entry at the end of the index adds what it contributes at the end of the list. */
  lemma MatchingSnoc(a: seq<IndexEntry>, x: IndexEntry, term: string)
    ensures Matching(a + [x], term) == Matching(a, term) + Kept(x, term)
  {
    var ax := a + [x];
    assert ax[..|ax| - 1] == a;
  }

  /** One step of `MatchingConcat`: an entry `x` after `front` is filtered last. */
  lemma MatchingConcatStep(a: seq<IndexEntry>, front: seq<IndexEntry>, x: IndexEntry, term: string)
    requires Matching(a + front, term) == Matching(a, term) + Matching(front, term)
    ensures Matching(a + (front + [x]), term) == Matching(a, term) + Matching(front + [x], term)
  {
    var ma, mf, kept := Matching(a, term), Matching(front, term), Kept(x, term);
    calc {
      Matching(a + (front + [x]), term);
      { AppendAssoc(a, front, [x]); }
      Matching((a + front) + [x], term);
      { MatchingSnoc(a + front, x, term); }
      Matching(a + front, term) + kept;
      (ma + mf) + kept;
      { AppendAssoc(ma, mf, kept); }
      ma + (mf + kept);
      { MatchingSnoc(front, x, term); }
      ma + Matching(front + [x], term);
    }
  }

  /** Filtering keeps the entries' order: it distributes over concatenation. */
  lemma {:induction false} MatchingConcat(a: seq<IndexEntry>, b: seq<IndexEntry>, term: string)
    ensures Matching(a + b, term) == Matching(a, term) + Matching(b, term)
    decreases |b|
  {
    if b == [] {
      assert a + b == a;
    } else {
      var front, x := b[..|b| - 1], b[|b| - 1];
      assert b == front + [x];
      MatchingConcat(a, front, term);
      MatchingConcatStep(a, front, x, term);
    }
  }

  /** Searching the results again for the same term finds them all. */
  lemma {:induction false} MatchingIdempotent(index: seq<IndexEntry>, term: string)
    ensures Matching(Matching(index, term), term) == Matching(index, term)
  {
    if index != [] {
      var n := |index| - 1;
      var rest := Matching(index[..n], term);
      MatchingIdempotent(index[..n], term);
      var last := Kept(index[n], term);
      MatchingConcat(rest, last, term);
      assert Matching(last, term) == last by {
        if last != [] {
          assert last[..0] == [];
        }
      }
    }
  }

  /**
   * The search shows the tree exactly when the text is all white space and a
   * base directory is set, and leaves the pane as it was exactly when the
   * text is all white space and there is none.
   */
  lemma BlankSearch(text: string, baseDir: Option<string>, index: seq<IndexEntry>)
    ensures HandleSearch(text, baseDir, index) == FolderTree <==>
      (forall k :: 0 <= k < |text| ==> IsSpace(text[k])) && HasBaseDir(baseDir)
    ensures HandleSearch(text, baseDir, index) == Unchanged <==>
      (forall k :: 0 <= k < |text| ==> IsSpace(text[k])) && !HasBaseDir(baseDir)
  {
    var low := Lower(text);
    StripBlank(low);
    forall k | 0 <= k < |text|
      ensures IsSpace(low[k]) <==> IsSpace(text[k])
    {
      assert low[k] == LowerChar(text[k]);
    }
  }

  /** The listed entries are exactly the index entries whose name contains the term somewhere. */
  lemma MatchingOccurs(index: seq<IndexEntry>, term: string)
    ensures forall e :: e in Matching(index, term) <==> e in index && exists i :: OccursAt(e.name, term, i)
  {
    forall e
      ensures e in Matching(index, term) <==> e in index && exists i :: OccursAt(e.name, term, i)
    {
      ContainsOccurs(e.name, term);
      if e in Matching(index, term) {
        MatchingSound(index, term, e);
      }
      if e in index && Contains(e.name, term) {
        MatchingComplete(index, term, e);
      }
    }
  }

  /**
   * With a term that is not blank, the results are exactly the index entries
   * whose name contains the term, in index order; case in the text does not matter.
   */
  lemma SearchResults(text: string, baseDir: Option<string>, index: seq<IndexEntry>)
    requires SearchTerm(text) != ""
    ensures HandleSearch(text, baseDir, index) == Results(Matching(index, SearchTerm(text)))
    ensures forall e :: e in HandleSearch(text, baseDir, index).entries <==>
      e in index && exists i :: OccursAt(e.name, SearchTerm(text), i)
    ensures HandleSearch(Lower(text), baseDir, index) == HandleSearch(text, baseDir, index)
  {
    MatchingOccurs(index, SearchTerm(text));
    LowerIdempotent(text);
  }
}
