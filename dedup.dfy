/**
 * The Smart Scan, `_task_scan_for_duplicates`: which dropped files have the
 * same content as a file already in the destination category.
 *
 * The file system is seen through the two calls the scan makes:
 * `os.path.getsize` (a path without a size raises `FileNotFoundError`) and
 * `calculate_hash` (a path without a digest gives `None`). They are two
 * independent maps, so a file may be hashed and then vanish before its size is read.
 */
module Dedup {
  import opened Wrappers

  /** A SHA-256 hex digest as `calculate_hash` returns it: never the empty string. */
  type Digest = s: string | s != "" witness "0"

  /** What the scan can observe of the files. */
  datatype Disk = Disk(sizes: map<string, nat>, digests: map<string, Digest>)

  /** One element of `duplicates`: `(source, dest_hashes[file_hash], file_hash)`. */
  datatype DuplicateEntry = DuplicateEntry(source: string, counterpart: string, digest: Digest)

  // ---------------------------------------------------------------------------
  // Phase 1: the digests of the destination files

  /**
   * `dest_hashes` after hashing `dests` in order: each digest maps to the
   * destination file that carries it; a later file overwrites an earlier one.
   */
  function DestHashes(dests: seq<string>, disk: Disk): (m: map<Digest, string>)
    ensures forall h :: h in m ==> m[h] in dests && m[h] in disk.digests && disk.digests[m[h]] == h
  {
    if dests == [] then map[]
    else
      var n := |dests| - 1;
      var m := DestHashes(dests[..n], disk);
      if dests[n] in disk.digests then m[disk.digests[dests[n]] := dests[n]] else m
  }

  /** Destination file `dests[i]` is the last one whose digest is `h`. */
  ghost predicate LastWithDigest(dests: seq<string>, disk: Disk, h: Digest, i: int) {
    && 0 <= i < |dests|
    && dests[i] in disk.digests && disk.digests[dests[i]] == h
    && forall j :: i < j < |dests| ==> !(dests[j] in disk.digests && disk.digests[dests[j]] == h)
  }

  /** Every destination file with a digest has that digest recorded. */
  lemma {:induction false} HashedIsRecorded(dests: seq<string>, disk: Disk, i: nat)
    requires i < |dests| && dests[i] in disk.digests
    ensures disk.digests[dests[i]] in DestHashes(dests, disk)
  {
    var n := |dests| - 1;
    if i < n {
      assert dests[..n][i] == dests[i];
      HashedIsRecorded(dests[..n], disk, i);
    }
  }

  /** The file recorded for a digest is the last destination file hashed with it. */
  lemma {:induction false} RecordedIsLast(dests: seq<string>, disk: Disk, h: Digest) returns (i: nat)
    requires h in DestHashes(dests, disk)
    ensures LastWithDigest(dests, disk, h, i) && DestHashes(dests, disk)[h] == dests[i]
  {
    var n := |dests| - 1;
    if dests[n] in disk.digests && disk.digests[dests[n]] == h {
      i := n;
    } else {
      i := RecordedIsLast(dests[..n], disk, h);
      assert dests[..n][i] == dests[i];
      assert forall j :: i < j < n ==> dests[..n][j] == dests[j];
    }
  }

  /** A destination file whose hash is `None` is never recorded. */
  lemma UnhashedNeverRecorded(dests: seq<string>, disk: Disk, f: string)
    requires f !in disk.digests
    ensures forall h :: h in DestHashes(dests, disk) ==> DestHashes(dests, disk)[h] != f
  {
  }

  // ---------------------------------------------------------------------------
  // Phase 2: sizes, then the source files

  /** The keys of `dest_size_to_hash`: the sizes of the recorded files that still have one. */
  function SizesOf(hashes: set<Digest>, destHashes: map<Digest, string>, sizes: map<string, nat>): set<nat> {
    set h | h in hashes && h in destHashes && destHashes[h] in sizes :: sizes[destHashes[h]]
  }

  function DestSizes(destHashes: map<Digest, string>, disk: Disk): set<nat> {
    SizesOf(destHashes.Keys, destHashes, disk.sizes)
  }

  /** What the scan decides about one source file. */
  datatype Verdict = Vanished | Unique | Duplicated(counterpart: string, digest: Digest)

  /**
   * The body of the source loop: a file without a size is skipped; one whose
   * size no destination file has, or whose digest is missing or unrecorded,
   * is unique; otherwise it duplicates the file recorded for its digest.
   */
  function Classify(f: string, disk: Disk, destHashes: map<Digest, string>, destSizes: set<nat>): Verdict {
    if f !in disk.sizes then Vanished
    else if disk.sizes[f] !in destSizes then Unique
    else if f in disk.digests && disk.digests[f] in destHashes then
      Duplicated(destHashes[disk.digests[f]], disk.digests[f])
    else Unique
  }

  /** `duplicates` after the source loop ran over `sources`, in their order. */
  function DuplicatesOf(sources: seq<string>, disk: Disk, destHashes: map<Digest, string>, destSizes: set<nat>)
    : seq<DuplicateEntry>
  {
    if sources == [] then []
    else
      var n := |sources| - 1;
      var rest := DuplicatesOf(sources[..n], disk, destHashes, destSizes);
      match Classify(sources[n], disk, destHashes, destSizes)
      case Duplicated(c, h) => rest + [DuplicateEntry(sources[n], c, h)]
      case _ => rest
  }

  /** `non_duplicates` after the source loop ran over `sources`, in their order. */
  function NonDuplicatesOf(sources: seq<string>, disk: Disk, destHashes: map<Digest, string>, destSizes: set<nat>)
    : seq<string>
  {
    if sources == [] then []
    else
      var n := |sources| - 1;
      var rest := NonDuplicatesOf(sources[..n], disk, destHashes, destSizes);
      if Classify(sources[n], disk, destHashes, destSizes) == Unique then rest + [sources[n]] else rest
  }

  /**
   * The source loop keeps source order: scanning `a + b` lists the results
   * for `a` first, then those for `b`.
   */
  lemma {:induction false} ScanConcat(a: seq<string>, b: seq<string>, disk: Disk,
                                      destHashes: map<Digest, string>, destSizes: set<nat>)
    ensures DuplicatesOf(a + b, disk, destHashes, destSizes) ==
      DuplicatesOf(a, disk, destHashes, destSizes) + DuplicatesOf(b, disk, destHashes, destSizes)
    ensures NonDuplicatesOf(a + b, disk, destHashes, destSizes) ==
      NonDuplicatesOf(a, disk, destHashes, destSizes) + NonDuplicatesOf(b, disk, destHashes, destSizes)
    decreases |b|
  {
    if b == [] {
      assert a + b == a;
    } else {
      var n := |b| - 1;
      assert (a + b)[..|a + b| - 1] == a + b[..n];
      assert (a + b)[|a + b| - 1] == b[n];
      ScanConcat(a, b[..n], disk, destHashes, destSizes);
      var dupsA, dupsB := DuplicatesOf(a, disk, destHashes, destSizes), DuplicatesOf(b[..n], disk, destHashes, destSizes);
      var nonA, nonB := NonDuplicatesOf(a, disk, destHashes, destSizes), NonDuplicatesOf(b[..n], disk, destHashes, destSizes);
      match Classify(b[n], disk, destHashes, destSizes)
      case Duplicated(c, h) =>
        assert (dupsA + dupsB) + [DuplicateEntry(b[n], c, h)] == dupsA + (dupsB + [DuplicateEntry(b[n], c, h)]);
      case _ =>
      assert (nonA + nonB) + [b[n]] == nonA + (nonB + [b[n]]);
    }
  }

  /** A single source file is listed as its own verdict says: as a duplicate entry, as a non-duplicate, or not at all. */
  lemma ScanSingle(f: string, disk: Disk, destHashes: map<Digest, string>, destSizes: set<nat>)
    ensures DuplicatesOf([f], disk, destHashes, destSizes) ==
      match Classify(f, disk, destHashes, destSizes)
      case Duplicated(c, h) => [DuplicateEntry(f, c, h)]
      case _ => []
    ensures NonDuplicatesOf([f], disk, destHashes, destSizes) ==
      if Classify(f, disk, destHashes, destSizes) == Unique then [f] else []
  {
    assert [f][..0] == [];
  }

  /** The two lists the scan returns for `sources` checked against `dests`. */
  function ScanOf(sources: seq<string>, dests: seq<string>, disk: Disk): (seq<DuplicateEntry>, seq<string>) {
    var destHashes := DestHashes(dests, disk);
    var destSizes := DestSizes(destHashes, disk);
    (DuplicatesOf(sources, disk, destHashes, destSizes), NonDuplicatesOf(sources, disk, destHashes, destSizes))
  }

  /**
   * `_task_scan_for_duplicates` once `get_all_files_in_paths` produced
   * `sources`. The work counter ends at the total announced at the start.
   */
  method ScanForDuplicates(sources: seq<string>, dests: seq<string>, disk: Disk)
    returns (duplicates: seq<DuplicateEntry>, nonDuplicates: seq<string>, totalWork: nat, currentWork: nat)
    ensures (duplicates, nonDuplicates) == ScanOf(sources, dests, disk)
    ensures totalWork == |dests| + |sources| && currentWork == totalWork
  {
    totalWork := |dests| + |sources|;
    currentWork := 0;

    var destHashes: map<Digest, string> := map[];
    for i := 0 to |dests|
      invariant destHashes == DestHashes(dests[..i], disk)
      invariant currentWork == i
    {
      var f := dests[i];
      assert dests[..i + 1][..i] == dests[..i];
      if f in disk.digests {
        destHashes := destHashes[disk.digests[f] := f];
      }
      currentWork := currentWork + 1;
    }
    assert dests[..|dests|] == dests;
    var destSizes := SizeToHashKeys(destHashes, disk);

    duplicates, nonDuplicates := [], [];
    for i := 0 to |sources|
      invariant duplicates == DuplicatesOf(sources[..i], disk, destHashes, destSizes)
      invariant nonDuplicates == NonDuplicatesOf(sources[..i], disk, destHashes, destSizes)
      invariant currentWork == |dests| + i
    {
      var f := sources[i];
      assert sources[..i + 1][..i] == sources[..i];
      if f in disk.sizes {
        var size := disk.sizes[f];
        if size in destSizes {
          var fileHash: Option<Digest> := if f in disk.digests then Some(disk.digests[f]) else None;
          if fileHash.Some? && fileHash.value in destHashes {
            duplicates := duplicates + [DuplicateEntry(f, destHashes[fileHash.value], fileHash.value)];
          } else {
            nonDuplicates := nonDuplicates + [f];
          }
        } else {
          nonDuplicates := nonDuplicates + [f];
        }
      }
      currentWork := currentWork + 1;
    }
    assert sources[..|sources|] == sources;
  }

  /**
   * The keys of `dest_size_to_hash`, built by the loop over
   * `dest_hashes.items()` in whatever order the map yields them; every size
   * maps to a digest whose recorded file has that size.
   */
  method SizeToHashKeys(destHashes: map<Digest, string>, disk: Disk) returns (keys: set<nat>)
    ensures keys == DestSizes(destHashes, disk)
  {
    var sizeToHash: map<nat, Digest> := map[];
    var remaining := destHashes.Keys;
    while remaining != {}
      invariant remaining <= destHashes.Keys
      invariant sizeToHash.Keys == SizesOf(destHashes.Keys - remaining, destHashes, disk.sizes)
      invariant forall s :: s in sizeToHash ==>
        sizeToHash[s] in destHashes && destHashes[sizeToHash[s]] in disk.sizes &&
        disk.sizes[destHashes[sizeToHash[s]]] == s
      decreases remaining
    {
      var h :| h in remaining;
      var p := destHashes[h];
      ghost var done := destHashes.Keys - remaining;
      SizesOfStep(done, h, destHashes, disk.sizes);
      if p in disk.sizes {
        sizeToHash := sizeToHash[disk.sizes[p] := h];
      }
      remaining := remaining - {h};
      assert destHashes.Keys - remaining == done + {h};
    }
    keys := sizeToHash.Keys;
  }

  /** Handling one more digest adds its file's size, when it has one. */
  lemma SizesOfStep(done: set<Digest>, h: Digest, destHashes: map<Digest, string>, sizes: map<string, nat>)
    requires h in destHashes
    ensures destHashes[h] in sizes ==>
      SizesOf(done + {h}, destHashes, sizes) == SizesOf(done, destHashes, sizes) + {sizes[destHashes[h]]}
    ensures destHashes[h] !in sizes ==> SizesOf(done + {h}, destHashes, sizes) == SizesOf(done, destHashes, sizes)
  {
  }

  // ---------------------------------------------------------------------------
  // What the scan promises

  function SourcesOf(entries: seq<DuplicateEntry>): (r: seq<string>)
    ensures |r| == |entries|
    ensures forall k :: 0 <= k < |r| ==> r[k] == entries[k].source
  {
    seq(|entries|, k requires 0 <= k < |entries| => entries[k].source)
  }

  /** The source files that still have a size, in their order. */
  function Existing(sources: seq<string>, disk: Disk): seq<string> {
    if sources == [] then []
    else
      var n := |sources| - 1;
      Existing(sources[..n], disk) + (if sources[n] in disk.sizes then [sources[n]] else [])
  }

  /** The duplicates' sources and the non-duplicates together are `existing`, counted with multiplicity. */
  predicate Partitioned(duplicates: seq<DuplicateEntry>, nonDuplicates: seq<string>, existing: seq<string>) {
    multiset(SourcesOf(duplicates)) + multiset(nonDuplicates) == multiset(existing)
  }

  lemma PartitionedDuplicate(duplicates: seq<DuplicateEntry>, nonDuplicates: seq<string>, existing: seq<string>,
                             e: DuplicateEntry)
    requires Partitioned(duplicates, nonDuplicates, existing)
    ensures Partitioned(duplicates + [e], nonDuplicates, existing + [e.source])
  {
    assert SourcesOf(duplicates + [e]) == SourcesOf(duplicates) + [e.source];
  }

  lemma PartitionedUnique(duplicates: seq<DuplicateEntry>, nonDuplicates: seq<string>, existing: seq<string>,
                          f: string)
    requires Partitioned(duplicates, nonDuplicates, existing)
    ensures Partitioned(duplicates, nonDuplicates + [f], existing + [f])
  {
  }

  /**
   * Every source file that still exists is a duplicate or a non-duplicate,
   * counted with multiplicity; a vanished one is neither.
   */
  lemma {:induction false} ScanPartition(sources: seq<string>, disk: Disk, destHashes: map<Digest, string>,
                                         destSizes: set<nat>)
    ensures Partitioned(DuplicatesOf(sources, disk, destHashes, destSizes),
                        NonDuplicatesOf(sources, disk, destHashes, destSizes), Existing(sources, disk))
  {
    if sources == [] {
      assert Partitioned([], [], []);
    } else {
      var n := |sources| - 1;
      var f := sources[n];
      ScanPartition(sources[..n], disk, destHashes, destSizes);
      var dups := DuplicatesOf(sources[..n], disk, destHashes, destSizes);
      var nonDups := NonDuplicatesOf(sources[..n], disk, destHashes, destSizes);
      var existing := Existing(sources[..n], disk);
      match Classify(f, disk, destHashes, destSizes)
      case Duplicated(c, h) =>
        PartitionedDuplicate(dups, nonDups, existing, DuplicateEntry(f, c, h));
      case Unique =>
        PartitionedUnique(dups, nonDups, existing, f);
      case Vanished =>
    }
  }

  /**
   * The two lists hold exactly the source files that still exist, and no path
   * is in both: a path is classified the same way each time it occurs.
   */
  lemma {:induction false} ScanExclusive(sources: seq<string>, disk: Disk, destHashes: map<Digest, string>,
                                         destSizes: set<nat>, f: string)
    ensures (f in SourcesOf(DuplicatesOf(sources, disk, destHashes, destSizes)) ||
             f in NonDuplicatesOf(sources, disk, destHashes, destSizes)) <==> f in sources && f in disk.sizes
    ensures !(f in SourcesOf(DuplicatesOf(sources, disk, destHashes, destSizes)) &&
              f in NonDuplicatesOf(sources, disk, destHashes, destSizes))
    ensures f in SourcesOf(DuplicatesOf(sources, disk, destHashes, destSizes)) ==>
      Classify(f, disk, destHashes, destSizes).Duplicated?
    ensures f in NonDuplicatesOf(sources, disk, destHashes, destSizes) ==>
      Classify(f, disk, destHashes, destSizes) == Unique
  {
    if sources != [] {
      var n := |sources| - 1;
      ScanExclusive(sources[..n], disk, destHashes, destSizes, f);
      var dups := DuplicatesOf(sources[..n], disk, destHashes, destSizes);
      assert sources == sources[..n] + [sources[n]];
      match Classify(sources[n], disk, destHashes, destSizes)
      case Duplicated(c, h) =>
        assert SourcesOf(dups + [DuplicateEntry(sources[n], c, h)]) == SourcesOf(dups) + [sources[n]];
      case _ =>
    }
  }

  /** Each entry of `duplicates` carries the verdict of its own source file; their order is stated by ScanConcat. */
  lemma {:induction false} DuplicateEntries(sources: seq<string>, disk: Disk, destHashes: map<Digest, string>,
                                            destSizes: set<nat>, k: nat)
    requires k < |DuplicatesOf(sources, disk, destHashes, destSizes)|
    ensures Classify(DuplicatesOf(sources, disk, destHashes, destSizes)[k].source, disk, destHashes, destSizes) ==
      Duplicated(DuplicatesOf(sources, disk, destHashes, destSizes)[k].counterpart,
                 DuplicatesOf(sources, disk, destHashes, destSizes)[k].digest)
  {
    var n := |sources| - 1;
    var rest := DuplicatesOf(sources[..n], disk, destHashes, destSizes);
    if k < |rest| {
      DuplicateEntries(sources[..n], disk, destHashes, destSizes, k);
    }
  }

  /**
   * What a duplicate is: a source file whose size some recorded destination
   * file has, whose digest the destinations carry, paired with the last
   * destination file hashed with that digest.
   */
  lemma DuplicateMeaning(sources: seq<string>, dests: seq<string>, disk: Disk, k: nat) returns (i: nat)
    requires k < |ScanOf(sources, dests, disk).0|
    ensures var e := ScanOf(sources, dests, disk).0[k];
      && e.source in disk.sizes && disk.sizes[e.source] in DestSizes(DestHashes(dests, disk), disk)
      && e.source in disk.digests && disk.digests[e.source] == e.digest
      && LastWithDigest(dests, disk, e.digest, i) && e.counterpart == dests[i]
  {
    var destHashes := DestHashes(dests, disk);
    var destSizes := DestSizes(destHashes, disk);
    DuplicateEntries(sources, disk, destHashes, destSizes, k);
    var e := DuplicatesOf(sources, disk, destHashes, destSizes)[k];
    i := RecordedIsLast(dests, disk, e.digest);
  }

  /**
   * Files with equal content have equal sizes, and a file that can be hashed
   * has a size: then the size test only saves work and never changes a verdict.
   */
  ghost predicate SizeFollowsContent(disk: Disk) {
    && (forall p :: p in disk.digests ==> p in disk.sizes)
    && (forall p, q :: p in disk.digests && q in disk.digests && disk.digests[p] == disk.digests[q] ==>
          disk.sizes[p] == disk.sizes[q])
  }

  /** Under that assumption a source file is a duplicate exactly when its digest is a destination digest. */
  lemma SizeTestExact(f: string, dests: seq<string>, disk: Disk)
    requires SizeFollowsContent(disk)
    requires f in disk.sizes
    ensures var destHashes := DestHashes(dests, disk);
      Classify(f, disk, destHashes, DestSizes(destHashes, disk)).Duplicated? <==>
        f in disk.digests && disk.digests[f] in destHashes
  {
    var destHashes := DestHashes(dests, disk);
    if f in disk.digests && disk.digests[f] in destHashes {
      var h := disk.digests[f];
      var c := destHashes[h];
      assert disk.sizes[c] == disk.sizes[f];
      assert disk.sizes[f] in DestSizes(destHashes, disk);
    }
  }

  /**
   * `files_to_process` in `on_scan_completed`: the non-duplicates, then the
   * duplicates' source paths. It holds each existing source file exactly as
   * often as the drop does.
   */
  function FilesToProcess(duplicates: seq<DuplicateEntry>, nonDuplicates: seq<string>): seq<string> {
    nonDuplicates + SourcesOf(duplicates)
  }

  lemma FilesToProcessComplete(sources: seq<string>, dests: seq<string>, disk: Disk)
    ensures var (dups, nonDups) := ScanOf(sources, dests, disk);
      multiset(FilesToProcess(dups, nonDups)) == multiset(Existing(sources, disk))
  {
    var destHashes := DestHashes(dests, disk);
    ScanPartition(sources, disk, destHashes, DestSizes(destHashes, disk));
  }
}
