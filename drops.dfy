/**
 * The per-file loops of the two drop tasks, `_task_process_simple_drop`
 * ("Move All") and `_task_process_final_drop` (after a Smart Scan), over a
 * file system abstracted as the finite set of paths that exist. Each file's
 * destination comes from the rules, then from the rename loop; moving it
 * changes which paths exist for the files after it.
 */
module Drops {
  import opened Wrappers
  import opened Text
  import opened PosixPath
  import opened Rules
  import opened Conflicts

  /** What the user picked for a duplicate in the deduplication dialog. */
  datatype Choice = Delete | Keep

  /** What the loop did with one dropped file. */
  datatype Outcome = Removed | MovedTo(target: string)

  /**
   * The directories that `os.makedirs(os.path.dirname(p), exist_ok=True)`
   * leaves in place: every non-empty proper prefix of `p` that ends right before a separator.
   */
  function Parents(p: string): set<string> {
    set i | 0 < i < |p| && p[i] == Sep :: p[..i]
  }

  /**
   * `os.makedirs(os.path.dirname(target)); shutil.move(src, target)` inside a `try`.
   * A path without a separator has an empty `dirname`, for which `makedirs`
   * raises, so nothing happens; a missing `src` makes `move` raise after the
   * directories exist; otherwise `src` is gone and `target` exists.
   */
  function AfterMove(existing: set<string>, src: string, target: string): set<string> {
    if Sep !in target then existing
    else
      var withDirs := existing + Parents(target);
      if src in withDirs then (withDirs - {src}) + {target} else withDirs
  }

  /** `os.remove(src)` inside a `try`: a missing file is only logged. */
  function AfterRemove(existing: set<string>, src: string): set<string> {
    existing - {src}
  }

  function AfterOutcome(existing: set<string>, src: string, outcome: Outcome): set<string> {
    match outcome
    case Removed => AfterRemove(existing, src)
    case MovedTo(target) => AfterMove(existing, src, target)
  }

  /** The paths that exist after the first `|files|` files of a drop were handled. */
  function Replay(existing: set<string>, files: seq<string>, outcomes: seq<Outcome>): set<string>
    requires |files| == |outcomes|
  {
    if files == [] then existing
    else
      var n := |files| - 1;
      AfterOutcome(Replay(existing, files[..n], outcomes[..n]), files[n], outcomes[n])
  }

  /** The path a dropped file is moved to before any renaming: the rules' folder joined with the rules' name. */
  function RuleTarget(src: string, rules: seq<Rule>, category: string, destRoot: string): string {
    var (dir, name) := Placement(rules, category, Basename(src), destRoot);
    PathJoin(dir, name)
  }

  /** The rules' target of `src`, as the loop body computes it. */
  method TargetOf(src: string, rules: seq<Rule>, category: string, destRoot: string) returns (path: string)
    ensures path == RuleTarget(src, rules, category, destRoot)
  {
    var dir, name := ApplyRules(rules, category, Basename(src), destRoot);
    path := PathJoin(dir, name);
  }

  /** Handling file `src` in "Move All" when the paths `before` exist: it is moved to its resolved `_conflict_N` name. */
  ghost predicate SimpleStep(before: set<string>, src: string, rules: seq<Rule>, category: string, destRoot: string,
                             o: Outcome) {
    o.MovedTo? && IsResolvedName(RuleTarget(src, rules, category, destRoot), Conflict, before, o.target)
  }

  /** Which of the two loops handles a drop: "Move All", or the drop after a Smart Scan with the user's choices. */
  datatype Mode = MoveAll | AfterScan(choices: map<string, Choice>)

  /** Handling file `src` in either loop when the paths `before` exist. */
  ghost predicate Step(mode: Mode, before: set<string>, src: string, rules: seq<Rule>, category: string,
                       destRoot: string, o: Outcome) {
    match mode
    case MoveAll => SimpleStep(before, src, rules, category, destRoot, o)
    case AfterScan(choices) => FinalStep(before, src, choices, rules, category, destRoot, o)
  }

  /** How one file may be handled, given the paths that exist at its turn. */
  type StepRel = (set<string>, string, Outcome) -> bool

  /** `Step` for one loop and one set of rules, as a relation. */
  ghost function StepOf(mode: Mode, rules: seq<Rule>, category: string, destRoot: string): StepRel {
    (before: set<string>, src: string, o: Outcome) => Step(mode, before, src, rules, category, destRoot, o)
  }

  /** Every file of a handled prefix was handled as `step` allows, against the paths existing at its turn. */
  ghost predicate Log(step: StepRel, existing: set<string>, files: seq<string>, outcomes: seq<Outcome>)
    requires |files| == |outcomes|
  {
    files == [] ||
    var n := |files| - 1;
    Log(step, existing, files[..n], outcomes[..n]) && step(Replay(existing, files[..n], outcomes[..n]), files[n], outcomes[n])
  }

  /** The log of a drop is a log of each of its prefixes. */
  lemma {:induction false} LogPrefix(step: StepRel, existing: set<string>, files: seq<string>, outcomes: seq<Outcome>,
                                     m: nat)
    requires |files| == |outcomes| && m <= |files|
    requires Log(step, existing, files, outcomes)
    ensures Log(step, existing, files[..m], outcomes[..m])
    decreases |files|
  {
    if m == |files| {
      assert files[..m] == files && outcomes[..m] == outcomes;
    } else {
      var n := |files| - 1;
      LogPrefix(step, existing, files[..n], outcomes[..n], m);
      assert files[..n][..m] == files[..m] && outcomes[..n][..m] == outcomes[..m];
    }
  }

  /** The log holds file by file: the `j`-th file was handled against the paths left by the first `j`. */
  lemma LogAt(step: StepRel, existing: set<string>, files: seq<string>, outcomes: seq<Outcome>, j: nat)
    requires |files| == |outcomes| && j < |files|
    requires Log(step, existing, files, outcomes)
    ensures step(Replay(existing, files[..j], outcomes[..j]), files[j], outcomes[j])
  {
    LogPrefix(step, existing, files, outcomes, j + 1);
    var f, oc := files[..j + 1], outcomes[..j + 1];
    assert f[..j] == files[..j] && oc[..j] == outcomes[..j];
    assert f[j] == files[j] && oc[j] == outcomes[j];
    assert Log(step, existing, f, oc);
  }

  /** Handling one more file as `step` allows extends the log by that file, and the paths existing by its outcome. */
  lemma LogStep(step: StepRel, existing: set<string>, files: seq<string>, outcomes: seq<Outcome>, i: nat, o: Outcome)
    requires i < |files| && |outcomes| == i
    requires Log(step, existing, files[..i], outcomes)
    requires step(Replay(existing, files[..i], outcomes), files[i], o)
    ensures Log(step, existing, files[..i + 1], outcomes + [o])
    ensures Replay(existing, files[..i + 1], outcomes + [o]) ==
      AfterOutcome(Replay(existing, files[..i], outcomes), files[i], o)
  {
    assert files[..i + 1][..i] == files[..i] && (outcomes + [o])[..i] == outcomes;
    assert files[..i + 1][i] == files[i] && (outcomes + [o])[i] == o;
  }

  /** The body of the "Move All" loop for one file `src`, when the paths `before` exist. */
  method PlaceSimple(src: string, rules: seq<Rule>, category: string, destRoot: string, before: set<string>)
    returns (o: Outcome)
    ensures SimpleStep(before, src, rules, category, destRoot, o)
  {
    var path := TargetOf(src, rules, category, destRoot);
    var newPath := path;
    if path in before {
      var suffix;
      newPath, suffix := ResolveName(path, Conflict, before);
      ResolvedByCounter(path, Conflict, before, newPath, suffix);
    }
    o := MovedTo(newPath);
  }

  /**
   * The "Move All" loop. Each file goes to its rules' target; when that path
   * exists, to the first free `_conflict_N` variant of it. So every file is
   * moved to a path that did not exist at the moment it was moved.
   */
  method SimpleDrop(files: seq<string>, rules: seq<Rule>, category: string, destRoot: string, existing: set<string>)
    returns (outcomes: seq<Outcome>, after: set<string>)
    ensures |outcomes| == |files|
    ensures Log(StepOf(MoveAll, rules, category, destRoot), existing, files, outcomes)
    ensures after == Replay(existing, files, outcomes)
  {
    outcomes, after := [], existing;
    for i := 0 to |files|
      invariant |outcomes| == i
      invariant after == Replay(existing, files[..i], outcomes)
      invariant Log(StepOf(MoveAll, rules, category, destRoot), existing, files[..i], outcomes)
    {
      var o := PlaceSimple(files[i], rules, category, destRoot, after);
      LogStep(StepOf(MoveAll, rules, category, destRoot), existing, files, outcomes, i, o);
      outcomes := outcomes + [o];
      after := AfterOutcome(after, files[i], o);
    }
    assert files[..|files|] == files;
  }

  /**
   * Handling file `src` after a Smart Scan when the paths `before` exist: a
   * duplicate to delete is removed, a duplicate to keep goes to its resolved
   * `_duplicate_N` name, and any other file goes to its rules' target as it is.
   */
  ghost predicate FinalStep(before: set<string>, src: string, choices: map<string, Choice>, rules: seq<Rule>,
                            category: string, destRoot: string, o: Outcome) {
    if src in choices && choices[src] == Delete then o == Removed
    else if src in choices then
      o.MovedTo? && IsResolvedName(RuleTarget(src, rules, category, destRoot), Duplicate, before, o.target)
    else o == MovedTo(RuleTarget(src, rules, category, destRoot))
  }

  /** The body of the loop after a Smart Scan for one file `src`, when the paths `before` exist. */
  method PlaceFinal(src: string, choices: map<string, Choice>, rules: seq<Rule>, category: string,
                    destRoot: string, before: set<string>)
    returns (o: Outcome)
    ensures FinalStep(before, src, choices, rules, category, destRoot, o)
  {
    var choice: Option<Choice> := if src in choices then Some(choices[src]) else None;
    if choice == Some(Delete) {
      o := Removed;
    } else {
      var newPath := TargetOf(src, rules, category, destRoot);
      if choice == Some(Keep) {
        var path := newPath;
        var suffix;
        newPath, suffix := ResolveName(path, Duplicate, before);
        ResolvedByCounter(path, Duplicate, before, newPath, suffix);
      }
      o := MovedTo(newPath);
    }
  }

  /**
   * The loop after a Smart Scan. A duplicate the user chose to delete is
   * removed. Every other file goes to its rules' target; only a duplicate the
   * user chose to keep is renamed, to the first free `_duplicate_N` variant
   * when the target exists. Files without a choice go to the target as it is.
   */
  method FinalDrop(files: seq<string>, choices: map<string, Choice>, rules: seq<Rule>, category: string,
                   destRoot: string, existing: set<string>)
    returns (outcomes: seq<Outcome>, after: set<string>)
    ensures |outcomes| == |files|
    ensures Log(StepOf(AfterScan(choices), rules, category, destRoot), existing, files, outcomes)
    ensures after == Replay(existing, files, outcomes)
  {
    outcomes, after := [], existing;
    for i := 0 to |files|
      invariant |outcomes| == i
      invariant after == Replay(existing, files[..i], outcomes)
      invariant Log(StepOf(AfterScan(choices), rules, category, destRoot), existing, files[..i], outcomes)
    {
      var o := PlaceFinal(files[i], choices, rules, category, destRoot, after);
      LogStep(StepOf(AfterScan(choices), rules, category, destRoot), existing, files, outcomes, i, o);
      outcomes := outcomes + [o];
      after := AfterOutcome(after, files[i], o);
    }
    assert files[..|files|] == files;
  }

  // ---------------------------------------------------------------------------
  // What the loops promise

  /** The file keeps, as its base name, the name the rules gave it, whatever folder it goes to. */
  lemma RuleTargetName(src: string, rules: seq<Rule>, category: string, destRoot: string)
    requires Placement(rules, category, Basename(src), destRoot).1 != ""
    requires Sep !in Placement(rules, category, Basename(src), destRoot).1
    ensures Basename(RuleTarget(src, rules, category, destRoot)) == Placement(rules, category, Basename(src), destRoot).1
  {
    var (dir, name) := Placement(rules, category, Basename(src), destRoot);
    JoinBasename(dir, name);
  }

  /**
   * In "Move All", a file that exists at its turn and whose destination lies
   * in a folder is at its destination right after its turn, and no longer
   * where it was.
   */
  lemma {:induction false} MoveAllArrives(existing: set<string>, files: seq<string>, outcomes: seq<Outcome>,
                                        rules: seq<Rule>, category: string, destRoot: string, j: nat)
    requires |files| == |outcomes| && j < |files|
    requires Log(StepOf(MoveAll, rules, category, destRoot), existing, files, outcomes)
    requires files[j] in Replay(existing, files[..j], outcomes[..j])
    ensures outcomes[j].MovedTo?
    ensures Sep in outcomes[j].target ==> outcomes[j].target in Replay(existing, files[..j + 1], outcomes[..j + 1])
    ensures Sep in outcomes[j].target && files[j] != outcomes[j].target ==>
      files[j] !in Replay(existing, files[..j + 1], outcomes[..j + 1])
  {
    LogAt(StepOf(MoveAll, rules, category, destRoot), existing, files, outcomes, j);
    ReplayNext(existing, files, outcomes, j);
    MoveArrives(Replay(existing, files[..j], outcomes[..j]), files[j], outcomes[j].target);
  }

  /** The paths after file `j` are those before it, changed by its outcome. */
  lemma ReplayNext(existing: set<string>, files: seq<string>, outcomes: seq<Outcome>, j: nat)
    requires |files| == |outcomes| && j < |files|
    ensures Replay(existing, files[..j + 1], outcomes[..j + 1]) ==
      AfterOutcome(Replay(existing, files[..j], outcomes[..j]), files[j], outcomes[j])
  {
    assert files[..j + 1][..j] == files[..j] && outcomes[..j + 1][..j] == outcomes[..j];
  }

  /** A move of an existing file into a folder leaves the file at the target and no longer at the source. */
  lemma MoveArrives(before: set<string>, src: string, target: string)
    requires src in before
    ensures Sep in target ==> target in AfterMove(before, src, target)
    ensures Sep in target && src != target ==> src !in AfterMove(before, src, target)
  {
  }

  /**
   * "Move All" never moves a file onto a path that exists at its turn, and
   * keeps the rules' target whenever that is free.
   */
  lemma {:induction false} MoveAllNeverOverwrites(existing: set<string>, files: seq<string>, outcomes: seq<Outcome>,
                                                rules: seq<Rule>, category: string, destRoot: string, j: nat)
    requires |files| == |outcomes| && j < |files|
    requires Log(StepOf(MoveAll, rules, category, destRoot), existing, files, outcomes)
    ensures outcomes[j].MovedTo?
    ensures outcomes[j].target !in Replay(existing, files[..j], outcomes[..j])
    ensures RuleTarget(files[j], rules, category, destRoot) !in Replay(existing, files[..j], outcomes[..j]) ==>
      outcomes[j].target == RuleTarget(files[j], rules, category, destRoot)
  {
    LogAt(StepOf(MoveAll, rules, category, destRoot), existing, files, outcomes, j);
  }

  /**
   * After a Smart Scan, a duplicate the user keeps never lands on a path that
   * exists at its turn, and one the user deletes is gone afterwards.
   */
  lemma {:induction false} KeptDuplicateNeverOverwrites(existing: set<string>, files: seq<string>,
                                                      outcomes: seq<Outcome>, choices: map<string, Choice>,
                                                      rules: seq<Rule>, category: string, destRoot: string, j: nat)
    requires |files| == |outcomes| && j < |files|
    requires Log(StepOf(AfterScan(choices), rules, category, destRoot), existing, files, outcomes)
    ensures files[j] in choices && choices[files[j]] == Keep ==>
      outcomes[j].MovedTo? && outcomes[j].target !in Replay(existing, files[..j], outcomes[..j])
    ensures files[j] in choices && choices[files[j]] == Delete ==>
      outcomes[j] == Removed && files[j] !in Replay(existing, files[..j + 1], outcomes[..j + 1])
  {
    LogAt(StepOf(AfterScan(choices), rules, category, destRoot), existing, files, outcomes, j);
    assert files[..j + 1][..j] == files[..j] && outcomes[..j + 1][..j] == outcomes[..j];
  }

  /**
   * After a Smart Scan, a file the user made no choice for goes to the rules'
   * target unrenamed, also when that path already exists.
   */
  lemma {:induction false} UnchosenFileKeepsTarget(existing: set<string>, files: seq<string>, outcomes: seq<Outcome>,
                                                 choices: map<string, Choice>, rules: seq<Rule>, category: string,
                                                 destRoot: string, j: nat)
    requires |files| == |outcomes| && j < |files|
    requires Log(StepOf(AfterScan(choices), rules, category, destRoot), existing, files, outcomes)
    requires files[j] !in choices
    ensures outcomes[j] == MovedTo(RuleTarget(files[j], rules, category, destRoot))
  {
    LogAt(StepOf(AfterScan(choices), rules, category, destRoot), existing, files, outcomes, j);
  }
}
