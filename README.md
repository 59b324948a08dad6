# PARA file organizer: a verified model of its decision logic

`para_manager.py` is a desktop organizer for a PARA folder tree (Projects, Areas,
Resources, Archives). Files dropped onto a category are moved into that category's
folder under the base directory. On the way:

- automation rules can pick a subfolder or add a name prefix;
- a name clash gets a `_conflict_N` suffix;
- a "Smart Scan" can first find dropped files whose content is already in the destination;
- the user then deletes those duplicates or keeps them under a `_duplicate_N` name.

The application also keeps a file index for its search bar, and tri-state check boxes in the
destination tree of the scan dialog.

This project models that decision logic in Dafny and proves what each piece promises:

- `text.dfy`: the Python `str` operations the code relies on. These are `lower`, `strip`,
  `split(',')`, `startswith`, `endswith`, `in` and `str(n)`.
- `posix_path.dfy`: `os.path.join`, `basename`, `splitext` and `normpath`, with their POSIX
  meaning.
- `rules.dfy`: `check_rule` and the first-match rule loop shared by both drop tasks.
- `conflicts.dfy`: the `while os.path.exists(new_path)` rename loop. It is a search for the
  least free counter, and it terminates.
- `drops.dfy`: the per-file loops of the "Move All" drop and of the drop after a Smart Scan.
  They run over a file system seen as the finite set of existing paths.
- `dedup.dfy`: the Smart Scan classification into duplicates and non-duplicates, and the list
  of files the final drop then handles.
- `check_states.dfy`: how `update_parent_states` aggregates check states and walks up the tree.
- `category.dfy`: `get_category_from_path`, a separator-aware prefix match.
- `search.dfy`: `handle_search`: a blank term shows the folder tree when a base directory is set and
  otherwise leaves the pane as it was; any other term lists the matching index entries.

The functions the code calls on the operating system or on libraries are parameters of the model:

- `os.path.getsize` and `calculate_hash` become two maps, path to size and path to digest.
  A path missing from the size map raises `FileNotFoundError`; a path missing from the digest
  map hashes to `None`.
- `os.path.exists` is membership in a set of paths.
- `os.walk` (inside `get_all_files_in_paths`) is replaced by the list of files it produced.

Paths use `/` as separator.

## Model

| member | source | states |
|---|---|---|
| Text.LowerChar | para_manager.py:998-1001 | an upper-case ASCII letter maps to its lower-case letter; any other character is kept |
| Text.Lower | para_manager.py:998-1001 | `lower()` keeps the length, leaves no upper-case letter, keeps every other character in place, and replaces each upper-case letter by its lower-case one |
| Text.LowerFixpoint | para_manager.py:998-1001 | lower-casing changes nothing exactly when there is no upper-case letter, as for the already lower-cased index names |
| Text.LowerIdempotent | para_manager.py:998-1001 | lower-casing twice is lower-casing once |
| Text.LowerEmpty | para_manager.py:998-999 | the lower-cased value is empty exactly when the value is, so `if not cond_val` tests the raw value |
| Text.LeadingSpacesMeaning | para_manager.py:1003 | `lstrip` removes exactly the leading white space: every character it drops is white space, and the first one it keeps is not |
| Text.TrailingStartMeaning | para_manager.py:1003 | `rstrip` removes exactly the trailing white space: every character it drops is white space, and the last one it keeps is not |
| Text.Strip | para_manager.py:1003 | `strip()`; its meaning is stated by Text.StripShape and Text.StripBlank |
| Text.StripBlank | para_manager.py:892-893 | a stripped string is empty exactly when every character was white space |
| Text.StripShape | para_manager.py:1003 | `strip()` is the slice between the first and the last character that is not white space |
| Text.IndexOf | para_manager.py:1003 | `find` gives -1 or an index inside the string that holds the character |
| Text.IndexOfFirst | para_manager.py:1003 | no occurrence of the character comes before the index found, and there is none at all when -1 is found |
| Text.Split | para_manager.py:1003 | `split(',')` always yields at least one piece |
| Text.SplitPieces | para_manager.py:1003 | no piece holds the separator |
| Text.JoinSplit | para_manager.py:1003 | joining the pieces with the separator gives back the string |
| Text.SplitJoin | para_manager.py:919 | splitting a join of separator-free parts gives back the parts |
| Text.SplitNoSeparator | para_manager.py:1003 | a string without the separator splits into itself alone |
| Text.SplitConcat | para_manager.py:919 | splitting `a + sep + b` is splitting `a`, then `b` |
| Text.JoinConcat | para_manager.py:919 | joining two lists of parts puts one separator between the two joins |
| Text.Contains | para_manager.py:1005 | Python's `sub in s`; its meaning is stated by Text.ContainsOccurs |
| Text.ContainsOccurs | para_manager.py:1005 | `sub in s` holds exactly when `sub` occurs at some index of `s` |
| Text.Decimal | para_manager.py:815 | `str(counter)` is a non-empty string of digits without a leading zero |
| Text.DecimalRoundTrip | para_manager.py:815 | reading the numeral of `n` back gives `n` |
| Text.DecimalInjective | para_manager.py:815 | different counters have different numerals |
| PosixPath.LastIndexOf | para_manager.py:814 | the index of the last occurrence of a character, or -1 when there is none; no later occurrence exists |
| PosixPath.PathJoin | para_manager.py:809 | `os.path.join`: the result ends with the second part; an absolute second part, or an empty first part, gives the second part alone; otherwise the result starts with the first part and has a separator right before the second part, adding one only when the first part does not already end with one |
| PosixPath.JoinBasename | para_manager.py:812 | joining any folder with a non-empty name without a separator gives a path whose base name is that name |
| PosixPath.Basename | para_manager.py:805 | `basename` is a separator-free suffix of the path, preceded by a separator whenever it is shorter than the path |
| PosixPath.SplitExt | para_manager.py:814 | `splitext` parts concatenate to the path. An extension is split off exactly when the last component has a character other than a dot before a later dot. The extension then starts at the last dot and holds no other dot and no separator |
| PosixPath.HasExtensionTest | para_manager.py:814 | that condition is the test CPython makes: the last dot lies in the last component, and not everything between the separator and that dot is a dot |
| PosixPath.SplitExtKeepsName | para_manager.py:814 | when an extension is split off, the last component of the root is not all dots, so `.bashrc` keeps its name |
| PosixPath.NormComponents | para_manager.py:916 | the components `normpath` keeps are never empty, `.` or separator-holding; `..` remains only in a leading run; an absolute path keeps no `..` |
| PosixPath.NormConcat | para_manager.py:916 | the component loop handles `a + b` by handling `a`, then `b` from where `a` left off |
| PosixPath.NormSkips | para_manager.py:916 | an empty or `.` component, wherever it stands, changes nothing |
| PosixPath.NormCancels | para_manager.py:916 | a name followed by `..`, wherever the pair stands, cancels out |
| PosixPath.NormKeepsPlain | para_manager.py:916 | components that are all names, none `..`, are kept as they are, in order |
| PosixPath.NormLeadingDotDot | para_manager.py:916 | a `..` with nothing to remove is kept in a relative path and dropped in an absolute one |
| PosixPath.NormExample | para_manager.py:916 | `a/../b` keeps only `b` |
| PosixPath.InitialSlashes | para_manager.py:916 | `normpath` keeps no leading separator for a relative path; two exactly when the path starts with `//` but not with `///`; one otherwise |
| PosixPath.Normpath | para_manager.py:916 | a normalized path is never empty (an empty result becomes `.`) |
| PosixPath.NormpathNormal | para_manager.py:916 | an absolute path of plain names, like the base directory normalized at line 664, is its own normal form |
| Rules.AnyEntryEndsExists | para_manager.py:1003 | the `any(...)` over the split value holds exactly when some non-blank stripped entry is a suffix of the name |
| Rules.CheckRule | para_manager.py:996-1006 | `check_rule`; its meaning is stated by Rules.CheckRuleMeaning |
| Rules.ExtensionMeaning | para_manager.py:1002-1003 | an extension rule matches exactly when its value is non-empty and the lower-cased name ends with one of the stripped, non-blank, comma-separated entries of the lower-cased value |
| Rules.KeywordMeaning | para_manager.py:1004-1005 | a keyword rule matches exactly when its value is non-empty and the lower-cased value, not stripped, occurs in the lower-cased name |
| Rules.CheckRuleMeaning | para_manager.py:996-1006 | both of the above, one per condition type; an empty condition value, or a condition type other than `extension` and `keyword`, never matches |
| Rules.CheckRuleIgnoresCase | para_manager.py:998-1001 | lower-casing the file name or the condition value never changes the verdict |
| Rules.FirstMatch | para_manager.py:806-807 | the rule found is the first one of the drop's category that matches, and none is found exactly when no rule applies |
| Rules.FirstMatchIs | para_manager.py:806-807 | a rule of the drop's category that matches, after no earlier rule did, is the one found |
| Rules.Placement | para_manager.py:805-811 | the folder and name after the rule loop; what each action does to them is stated by Rules.ApplyRules |
| Rules.ApplyRules | para_manager.py:805-811 | only the first applicable rule acts: `subfolder` changes only the folder, `prefix` changes only the name, any other action and no match change neither |
| Conflicts.Tag | para_manager.py:815 | the inserted word is not empty and holds neither a dot nor a separator |
| Conflicts.Candidate | para_manager.py:814-815 | `f"{base}{tag}{counter}{ext}"`; what it keeps is stated by Conflicts.CandidateKeepsExtension and Conflicts.CandidateInjective |
| Conflicts.CandidateKeepsExtension | para_manager.py:814-815 | a renamed path keeps the extension `splitext` gives the original, with the tag and the counter right before it, as in `report_conflict_1.pdf` |
| Conflicts.CandidateInjective | para_manager.py:814-815 | different counters give different candidate paths, and no candidate is the original path |
| Conflicts.TakenAttempt | para_manager.py:815 | every path the loop tried is taken, and there are no more tries than taken paths, which bounds the loop |
| Conflicts.ResolvedByCounter | para_manager.py:813-815 | the loop's result, with its counter, is the free path: the original when free, otherwise the candidate with the least free counter |
| Conflicts.ResolvedNameUnique | para_manager.py:813-815 | at most one path meets that description |
| Conflicts.SearchStep | para_manager.py:814-815 | one more taken candidate extends the tried prefix of counters, and the number of tries stays within the number of taken paths |
| Conflicts.ResolveName | para_manager.py:813-815 | the loop terminates. The result is never taken. A free path is kept. A taken path gives `base + tag + str(k) + ext` with `k >= 1`, and every smaller `k` is taken |
| Drops.TargetOf | para_manager.py:805-812 | the path a file is moved to before renaming: the rules' folder joined with the rules' name |
| Drops.RuleTargetName | para_manager.py:805-812 | when the rules give a non-empty name without a separator, the target's base name is that name |
| Drops.PlaceSimple | para_manager.py:805-817 | one file of "Move All" goes to its rules' target, renamed to the first free `_conflict_N` variant when that target exists |
| Drops.SimpleDrop | para_manager.py:802-818 | every file is moved, to its rules' target resolved against the paths existing at its turn; the final paths are the replay of those moves |
| Drops.LogPrefix | para_manager.py:802-856 | the log of a drop is also the log of each of its prefixes |
| Drops.LogStep | para_manager.py:802-856 | handling one more file as its loop allows extends the log, and the existing paths change by that file's outcome only |
| Drops.LogAt | para_manager.py:802-856 | the log of a drop holds file by file, each file against the paths the earlier files left |
| Drops.AfterMove | para_manager.py:817 | the paths after `makedirs` and `move`; what a move achieves is stated by Drops.MoveArrives |
| Drops.MoveArrives | para_manager.py:817 | a move of an existing file to a path inside a folder leaves the file at the target and, when the two differ, no longer at the source |
| Drops.AfterRemove | para_manager.py:836 | `os.remove` in a `try`: the path no longer exists, whether or not it did |
| Drops.MoveAllNeverOverwrites | para_manager.py:812-817 | "Move All" never moves a file onto a path that exists at its turn, and keeps the rules' target when that is free |
| Drops.MoveAllArrives | para_manager.py:812-817 | in "Move All", a file that exists at its turn is at its destination right after its turn and no longer where it was, when that destination lies in a folder |
| Drops.PlaceFinal | para_manager.py:833-856 | one file after a Smart Scan: removed when the user chose delete, renamed `_duplicate_N` when the user chose keep, moved to its rules' target as it is otherwise |
| Drops.FinalDrop | para_manager.py:831-856 | a duplicate to delete is removed; a duplicate to keep goes to its resolved `_duplicate_N` name; any other file goes to its rules' target unchanged; the final paths are the replay |
| Drops.KeptDuplicateNeverOverwrites | para_manager.py:833-856 | a kept duplicate never lands on an existing path, and a deleted one is gone afterwards |
| Drops.UnchosenFileKeepsTarget | para_manager.py:850-856 | a file without a choice is moved to its rules' target without renaming |
| Dedup.DestHashes | para_manager.py:764-770 | every recorded digest maps to a destination file that has that digest |
| Dedup.HashedIsRecorded | para_manager.py:765-769 | every destination file whose hash is not `None` has its digest recorded |
| Dedup.RecordedIsLast | para_manager.py:765-769 | the file recorded for a digest is the last destination file hashed with it |
| Dedup.UnhashedNeverRecorded | para_manager.py:768-769 | a destination file whose hash is `None` is never recorded |
| Dedup.SizeToHashKeys | para_manager.py:775-778 | the sizes in `dest_size_to_hash` are those of the recorded files that still have a size, in any iteration order |
| Dedup.Classify | para_manager.py:780-793 | the verdict of the source loop for one file; its meaning is stated by Dedup.DuplicateMeaning and Dedup.SizeTestExact |
| Dedup.DuplicatesOf | para_manager.py:780-793 | `duplicates` after the source loop; stated by Dedup.ScanConcat and Dedup.ScanSingle (source order), Dedup.ScanPartition, Dedup.ScanExclusive and Dedup.DuplicateEntries |
| Dedup.NonDuplicatesOf | para_manager.py:780-793 | `non_duplicates` after the source loop; stated by Dedup.ScanConcat and Dedup.ScanSingle (source order), Dedup.ScanPartition and Dedup.ScanExclusive |
| Dedup.ScanConcat | para_manager.py:780-793 | both lists keep source order: scanning `a + b` gives the lists for `a` followed by the lists for `b` |
| Dedup.ScanSingle | para_manager.py:780-793 | one source file contributes exactly what its verdict says: a duplicate entry with its counterpart and digest, itself as a non-duplicate, or nothing when it vanished |
| Dedup.ScanForDuplicates | para_manager.py:757-796 | the two lists are the source-loop folds DuplicatesOf and NonDuplicatesOf over the sources, whose source order Dedup.ScanConcat states, and the work counter ends at the announced total |
| Dedup.ScanPartition | para_manager.py:780-793 | with multiplicity, the duplicates' sources together with the non-duplicates are exactly the source files that still have a size |
| Dedup.ScanExclusive | para_manager.py:780-793 | a path is in one of the lists exactly when it is a source file that still has a size, and never in both |
| Dedup.DuplicateEntries | para_manager.py:787-789 | every entry of `duplicates` records the verdict for its own source |
| Dedup.DuplicateMeaning | para_manager.py:780-793 | a duplicate's size is a destination size and its digest is its own. Its counterpart is the last destination file hashed with that digest |
| Dedup.SizeTestExact | para_manager.py:783-789 | when equal digests imply equal sizes, a source file is a duplicate exactly when its digest is a destination digest |
| Dedup.FilesToProcess | para_manager.py:739 | `non_duplicates + [p for p, _, _ in duplicates]`; stated by Dedup.FilesToProcessComplete |
| Dedup.FilesToProcessComplete | para_manager.py:739 | the files handed to the final drop are each source file that still exists, as often as it was dropped |
| CheckStates.ParentStateMeaning | para_manager.py:279-286 | `Checked` holds exactly when every child is checked, also when there are none. `PartiallyChecked` holds exactly when some child is not checked and some child is marked. `Unchecked` holds exactly when there are children and all are unchecked |
| CheckStates.AggregateState | para_manager.py:279-286 | the counting loop computes the parent's state as above |
| CheckStates.ParentState | para_manager.py:279-286 | the state the counts give a parent; its meaning is stated by CheckStates.ParentStateMeaning |
| CheckStates.CheckTree.Ancestry | para_manager.py:287 | the visited nodes are the node and its ancestors, none numbered above it |
| CheckStates.CheckTree.constructor | para_manager.py:198 | the item tree built here, from a well-formed parent relation, satisfies the invariant that `update_parent_states` (lines 277-281) needs |
| CheckStates.CheckTree.UpdateParentStates | para_manager.py:277-288 | every node from the index up to the top ends up agreeing with its children; no other node changes; an invalid index changes nothing |
| Category.FirstHolderNone | para_manager.py:917-921 | the loop finds nothing exactly when no category path holds the path |
| Category.FirstHolderFound | para_manager.py:917-920 | a category found is that of the first category path, in `para_folders` order, that holds the path |
| Category.FirstHolderIsFirst | para_manager.py:917-920 | the first category path that holds the path gives the category found |
| Category.FirstHolder | para_manager.py:917-921 | the loop over the categories; its meaning is stated by Category.FirstHolderNone, Category.FirstHolderFound and Category.FirstHolderIsFirst |
| Category.CategoryOf | para_manager.py:914-915 | no base directory gives `None` |
| Category.CategoryOfNone | para_manager.py:914-921 | with a base directory, the result is `None` exactly when no category path holds the normalized path |
| Category.CategoryOfMeaning | para_manager.py:914-921 | with a base directory, the category of the first category path that holds the normalized path is the result |
| Category.CategoryOfFound | para_manager.py:914-921 | a category found is that of a category path holding the normalized path, and no earlier category path holds it |
| Category.WithinHasPrefix | para_manager.py:919 | a path that is the folder or under it has the folder's components as its first components |
| Category.PrefixIsWithin | para_manager.py:919 | a path whose first components are the folder's is the folder or under it |
| Category.WithinComponents | para_manager.py:919 | a path is the folder or under it exactly when the folder's components are the path's first components |
| Category.SiblingNotWithin | para_manager.py:919 | a name that merely starts with the folder's name, like `1_ProjectsX`, is not under `1_Projects` |
| Category.Within | para_manager.py:919 | `norm_path == cat_path or norm_path.startswith(cat_path + os.sep)`; its meaning is stated by Category.WithinComponents |
| Category.ChildWithin | para_manager.py:919 | anything below a folder lies within it |
| Category.DiffersNotWithin | para_manager.py:919 | a path that differs from a folder inside both is not within it |
| Category.ParaPaths | para_manager.py:917-918 | under a base directory `b` that does not end with a separator, the four PARA folders are `b/1_Projects`, `b/2_Areas`, `b/3_Resources` and `b/4_Archives`, in that order |
| Category.InProjects | para_manager.py:914-921 | a normalized path that is `b/1_Projects` or lies inside it belongs to Projects |
| Category.SiblingOfProjects | para_manager.py:914-921 | a normalized path `b/1_Projects<x>`, where `x` does not start with a separator (a sibling folder such as `1_ProjectsX`), belongs to no category |
| Category.SiblingHeldByNone | para_manager.py:917-920 | none of the four PARA category paths under `b` holds `b/1_Projects<x>` |
| Search.Matching | para_manager.py:901 | the results are never more than the index entries |
| Search.MatchingSound | para_manager.py:901 | every result is an index entry whose name contains the term |
| Search.MatchingComplete | para_manager.py:901 | every index entry whose name contains the term is a result |
| Search.MatchingConcat | para_manager.py:901 | filtering keeps index order: it distributes over concatenation |
| Search.MatchingIdempotent | para_manager.py:901 | filtering the results again by the same term changes nothing |
| Search.MatchingOccurs | para_manager.py:901 | the results are exactly the index entries whose name contains the term at some position |
| Search.HandleSearch | para_manager.py:891-901 | `handle_search`; what it shows is stated by Search.BlankSearch and Search.SearchResults |
| Search.BlankSearch | para_manager.py:892-895 | an all-white-space text shows the folder tree when a base directory is set, and leaves the pane as it was when none is; any other text shows neither |
| Search.SearchResults | para_manager.py:892-901 | a term that is not blank lists exactly the index entries whose name contains it, in index order; the text's case does not matter |

## Left out

- The PyQt6 user interface: dialogs, drop frames, tree views, styles, context menus, progress
  dialogs and the HTML of the search results. `DeduplicationDialog` is one of them; its
  choices reach the final drop as a map from path to delete or keep.
- `set_check_state_recursive` and `on_data_changed`. They are UI signal plumbing around
  `update_parent_states`, which is modelled.
- CheckStates.CheckTree: the tree is modelled as a store of check states, one per node, read
  and written by `update_parent_states`. The item model built at line 198 is a plain
  `QFileSystemModel`, which Qt documents as keeping no check states. There, `setData` with
  `CheckStateRole` at lines 272 and 287 stores nothing, and `data` at lines 281 and 297 returns
  no state, so as written `get_checked_files` returns every file. In addition, a node's
  children are only those Qt has loaded so far. The model captures the aggregation the code
  intends, over a store that keeps what is written to it.
- `Worker`/`QThread`, `run_task` and `cancel_task`: these are concurrency, not logic.
- `calculate_hash`: reading files and SHA-256 are a foreign library. A digest is an abstract
  non-empty string, or absent for `None`.
- `get_all_files_in_paths` and `os.walk`: directory traversal is file-system I/O. The drops and
  the scan take the list it produced.
- Path aliasing: `os.path.exists`, moves and removes compare path strings exactly. Two
  spellings of one file, such as `/d/./Invoices/x.pdf` and `/d/Invoices/x.pdf` (which a
  subfolder rule value `./Invoices` or `a//b` produces), paths through a symbolic link, and
  names that differ only in case on a case-insensitive file system are different paths to the
  model. Where the operating system sees one file, the source renames to `_conflict_N` and the
  model predicts no rename.
- `os.makedirs`, `shutil.move` and `os.remove`. They are modelled only by their effect on the
  set of existing paths. A move is a rename that overwrites an existing file. Moving onto an
  existing directory, permissions and partial failures are not modelled.
- The empty-directory cleanup after each drop, `send2trash` and the explorer/open calls: these
  are OS I/O.
- Logging, and loading/saving `config.json` and `rules.json`: these are I/O. A rule is modelled
  with all five fields present, as the settings dialog writes them. `rule.get` defaults for
  missing keys are not modelled.
- `_task_rebuild_file_index`: it first clears `self.file_index` (line 869). Without a base
  directory it then returns a message string, which `on_index_rebuilt` stores as the index.
  With one it always raises `NameError`: at line 885 on the first file, or at line 889 when
  there is none, since `file_index_data` is never defined. `Worker.run` (lines 77-81) turns that
  into `on_task_error`, so `on_index_rebuilt` never runs and the index stays empty. The model
  does not build the index; the search takes it as a parameter, which covers the empty one.
- The KB size display is float formatting.
- Text.Lower: only ASCII letters are lower-cased, whereas Python maps all of Unicode.
- Text.IsSpace: only the white space below 0x80 counts, whereas Python's `isspace` also
  accepts Unicode spaces.
- PosixPath.PathJoin: POSIX paths only; Windows drive letters and `\` separators are not
  modelled.
- PosixPath.Normpath: its own contract states only that the result is not empty. The component
  rules are stated by the lemmas about PosixPath.NormComponents (NormConcat, NormSkips,
  NormCancels, NormKeepsPlain, NormLeadingDotDot), and PosixPath.NormpathNormal shows that an
  already normal absolute path is kept. Idempotence of `normpath` in general is not proved.
- Dedup.ScanForDuplicates: only `FileNotFoundError` from `os.path.getsize` is modelled, as a
  path missing from the size map. Any other `OSError` at lines 777 or 783, such as
  `PermissionError`, escapes the scan, reaches `on_task_error` and ends the Smart Scan; that
  outcome is not modelled.
- Dedup.SizeToHashKeys: it states only the key set of `dest_size_to_hash`. Which digest a
  shared size ends up with depends on the map's iteration order, and nothing reads it.
- Drops.FinalDrop: it takes the choices map as given. It does not model a row whose source
  file vanished before the dialog filled the table.
