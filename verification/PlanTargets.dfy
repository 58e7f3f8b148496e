/** Where the files of a built plan end up. */
module PlanTargets {
  import opened Wrappers
  import opened Text
  import opened FileTree
  import opened PathRules
  import opened CompareTrees
  import opened SyncPlan
  import opened PlanDocument
  import opened ApplyPlan
  import opened ApplyTheorems

  // Collisions of the target mapping

  predicate IsDirectPath(path: string) {
    OFFICIAL <= path || APICOMPAT <= path
  }

  /** `a` is the apicompat source that is mapped onto the zone path `b`. */
  predicate MapsOnto(a: string, b: string) {
    APICOMPAT <= a && b == OFFICIAL + (APICOMPAT_TARGET + a[|APICOMPAT|..])
  }

  lemma PrefixesExclusive(path: string)
    ensures !(OFFICIAL <= path && APICOMPAT <= path)
  {
    if OFFICIAL <= path {
      PrefixesDiffer(path, OFFICIAL, APICOMPAT, 17);
    }
  }

  lemma SameSuffixSamePath(a: string, b: string)
    requires APICOMPAT <= a && APICOMPAT <= b
    requires OFFICIAL + (APICOMPAT_TARGET + a[|APICOMPAT|..]) == OFFICIAL + (APICOMPAT_TARGET + b[|APICOMPAT|..])
    ensures a == b
  {
    CancelLeft(OFFICIAL, APICOMPAT_TARGET + a[|APICOMPAT|..], APICOMPAT_TARGET + b[|APICOMPAT|..]);
    CancelLeft(APICOMPAT_TARGET, a[|APICOMPAT|..], b[|APICOMPAT|..]);
    assert a == APICOMPAT + a[|APICOMPAT|..] && b == APICOMPAT + b[|APICOMPAT|..];
  }

  lemma CancelLeft(p: string, a: string, b: string)
    requires p + a == p + b
    ensures a == b
  {
    assert a == (p + a)[|p|..] && b == (p + b)[|p|..];
  }

  /** Two direct-sync paths share a target exactly when they are equal or one is the apicompat source of the other. */
  lemma TargetsCollideIff(a: string, b: string)
    requires IsDirectPath(a) && IsDirectPath(b) && '\\' !in a && '\\' !in b
    ensures TargetFor(a) == TargetFor(b) <==> a == b || MapsOnto(a, b) || MapsOnto(b, a)
  {
    PrefixesExclusive(a);
    PrefixesExclusive(b);
    if APICOMPAT <= a && APICOMPAT <= b && TargetFor(a) == TargetFor(b) {
      SameSuffixSamePath(a, b);
    }
    if MapsOnto(a, b) { assert OFFICIAL <= b; }
    if MapsOnto(b, a) { assert OFFICIAL <= a; }
  }

  /** An apicompat source and the zone path it is mapped onto: two paths, one target. */
  lemma ApicompatCollides(rest: string)
    requires '\\' !in rest
    ensures var a, b := APICOMPAT + rest, OFFICIAL + (APICOMPAT_TARGET + rest);
            a != b && IsDirectPath(a) && IsDirectPath(b) && TargetFor(a) == TargetFor(b) == Some(b)
  {
    var a, b := APICOMPAT + rest, OFFICIAL + (APICOMPAT_TARGET + rest);
    PrefixesExclusive(a);
    assert a[|APICOMPAT|..] == rest;
    assert '\\' !in APICOMPAT && '\\' !in OFFICIAL && '\\' !in APICOMPAT_TARGET;
  }

  // Arrival, step by step

  predicate Arrived(snapshot: Node, final: Node, step: Step) {
    step.Copy? ==> FileAt(snapshot, step.source).Some? && FileAt(final, step.target) == FileAt(snapshot, step.source)
  }

  predicate TargetFree(tree: Node, step: Step) {
    step.Copy? ==> !IsDirAt(tree, step.target)
  }

  /** No target lies below the other, and if they are the same place the same bytes go there. */
  predicate Apart(snapshot: Node, a: Step, b: Step) {
    a.Copy? && b.Copy? ==>
      !(a.target < b.target) && (a.target == b.target ==> FileAt(snapshot, a.source) == FileAt(snapshot, b.source))
  }

  predicate AllApart(snapshot: Node, steps: seq<Step>) {
    forall i, j | 0 <= i < |steps| && 0 <= j < |steps| :: Apart(snapshot, steps[i], steps[j])
  }

  lemma {:induction false} SuccessMeans(snapshot: Node, tree: Node, steps: seq<Step>)
    requires Run(snapshot, tree, steps).error.None?
    ensures forall i | 0 <= i < |steps| && steps[i].Copy? :: FileAt(snapshot, steps[i].source).Some?
    decreases |steps|
  {
    if steps != [] {
      var next := tree;
      if steps[0].Copy? {
        next := Put(tree, Destination(tree, steps[0].source, steps[0].target), FileAt(snapshot, steps[0].source).value);
      }
      SuccessMeans(snapshot, next, steps[1..]);
      assert forall i | 1 <= i < |steps| :: steps[i] == steps[1..][i - 1];
    }
  }

  /** A target that is no directory and lies above no other target does not become one. `all` holds the copies to come. */
  lemma {:induction false} NoTargetBecomesDir(snapshot: Node, tree: Node, steps: seq<Step>, all: set<Step>, target: Path)
    requires forall c | c in all :: c.Copy? && !IsDirAt(tree, c.target)
    requires forall c, d | c in all && d in all :: !(c.target < d.target)
    requires forall i | 0 <= i < |steps| && steps[i].Copy? :: steps[i] in all
    requires exists c :: c in all && c.target == target
    ensures !IsDirAt(Run(snapshot, tree, steps).tree, target)
    decreases |steps|
  {
    if steps != [] && StepError(snapshot, tree, steps[0]).None? {
      var next := tree;
      if steps[0].Copy? {
        var d, content := steps[0].target, FileAt(snapshot, steps[0].source).value;
        assert steps[0] in all;
        next := Put(tree, d, content);
        forall c | c in all ensures !IsDirAt(next, c.target) {
          PutIsDirAt(tree, d, content, c.target);
        }
      }
      assert forall i | 0 <= i < |steps[1..]| :: steps[1..][i] == steps[i + 1];
      NoTargetBecomesDir(snapshot, next, steps[1..], all, target);
    }
  }

  lemma NoTargetEndsAsDir(snapshot: Node, tree: Node, steps: seq<Step>, k: nat)
    requires k < |steps| && steps[k].Copy? && AllApart(snapshot, steps) && forall i | 0 <= i < |steps| :: TargetFree(tree, steps[i])
    ensures !IsDirAt(Run(snapshot, tree, steps).tree, steps[k].target)
  {
    var all := set i | 0 <= i < |steps| && steps[i].Copy? :: steps[i];
    forall c, d | c in all && d in all ensures !(c.target < d.target) {
      var i :| 0 <= i < |steps| && steps[i] == c;
      var j :| 0 <= j < |steps| && steps[j] == d;
      assert Apart(snapshot, steps[i], steps[j]);
    }
    assert steps[k] in all;
    NoTargetBecomesDir(snapshot, tree, steps, all, steps[k].target);
  }

  lemma {:induction false} LastWriteIs(snapshot: Node, final: Node, steps: seq<Step>, q: Path, content: Bytes)
    requires forall i | 0 <= i < |steps| && steps[i].Copy? && Destination(final, steps[i].source, steps[i].target) == q ::
               FileAt(snapshot, steps[i].source) == Some(content)
    requires exists i :: 0 <= i < |steps| && steps[i].Copy? && Destination(final, steps[i].source, steps[i].target) == q
    ensures LastWrite(snapshot, final, steps, q) == Some(content)
  {
    var rest := steps[1..];
    assert forall i | 0 <= i < |rest| :: rest[i] == steps[i + 1];
    if j :| 0 <= j < |rest| && rest[j].Copy? && Destination(final, rest[j].source, rest[j].target) == q {
      LastWriteIs(snapshot, final, rest, q, content);
    } else {
      NoLastWrite(snapshot, final, rest, q);
    }
  }

  lemma {:induction false} NoLastWrite(snapshot: Node, final: Node, steps: seq<Step>, q: Path)
    requires forall i | 0 <= i < |steps| && steps[i].Copy? :: Destination(final, steps[i].source, steps[i].target) != q
    ensures LastWrite(snapshot, final, steps, q).None?
  {
    if steps != [] {
      assert forall i | 0 <= i < |steps[1..]| :: steps[1..][i] == steps[i + 1];
      NoLastWrite(snapshot, final, steps[1..], q);
    }
  }

  /** With free targets that keep apart, every copied file stands at its own target afterwards. */
  lemma FreeTargetsArrive(snapshot: Node, tree: Node, steps: seq<Step>, i: nat)
    requires Run(snapshot, tree, steps).error.None? && i < |steps|
    requires AllApart(snapshot, steps) && forall k | 0 <= k < |steps| :: TargetFree(tree, steps[k])
    ensures Arrived(snapshot, Run(snapshot, tree, steps).tree, steps[i])
  {
    if steps[i].Copy? {
      var final := Run(snapshot, tree, steps).tree;
      SuccessMeans(snapshot, tree, steps);
      forall k | 0 <= k < |steps| && steps[k].Copy?
        ensures Destination(final, steps[k].source, steps[k].target) == steps[k].target
        ensures steps[k].target == steps[i].target ==> FileAt(snapshot, steps[k].source) == FileAt(snapshot, steps[i].source)
      {
        NoTargetEndsAsDir(snapshot, tree, steps, k);
        assert Apart(snapshot, steps[k], steps[i]);
      }
      RunOverwritesByPrefix(snapshot, tree, steps, steps[i].target);
      assert steps[..|steps|] == steps;
      LastWriteIs(snapshot, final, steps, steps[i].target, FileAt(snapshot, steps[i].source).value);
    }
  }

  lemma ArrivedKeepApart(snapshot: Node, final: Node, a: Step, b: Step)
    requires Arrived(snapshot, final, a) && Arrived(snapshot, final, b)
    ensures Apart(snapshot, a, b)
  {
    if a.Copy? && b.Copy? && a.target < b.target {
      AncestorIsDir(final, a.target, b.target);
      NotBoth(final, a.target);
    }
  }

  /**
   * After any finished run, all copied files stand at their targets exactly when beforehand no target was a directory, no
   * target lies below another, and whatever goes to the same place is the same.
   */
  lemma AllArriveIff(snapshot: Node, tree: Node, steps: seq<Step>)
    requires Run(snapshot, tree, steps).error.None?
    ensures (forall i | 0 <= i < |steps| :: Arrived(snapshot, Run(snapshot, tree, steps).tree, steps[i])) <==>
            (forall i | 0 <= i < |steps| :: TargetFree(tree, steps[i])) && AllApart(snapshot, steps)
  {
    var final := Run(snapshot, tree, steps).tree;
    if (forall i | 0 <= i < |steps| :: TargetFree(tree, steps[i])) && AllApart(snapshot, steps) {
      forall i | 0 <= i < |steps| ensures Arrived(snapshot, final, steps[i]) {
        FreeTargetsArrive(snapshot, tree, steps, i);
      }
    }
    if forall i | 0 <= i < |steps| :: Arrived(snapshot, final, steps[i]) {
      RunGrows(snapshot, tree, steps);
      forall i | 0 <= i < |steps| ensures TargetFree(tree, steps[i]) {
        assert Arrived(snapshot, final, steps[i]);
        if steps[i].Copy? { NotBoth(final, steps[i].target); }
      }
      forall i, j | 0 <= i < |steps| && 0 <= j < |steps| ensures Apart(snapshot, steps[i], steps[j]) {
        ArrivedKeepApart(snapshot, final, steps[i], steps[j]);
      }
    }
  }

  // Runs on which a file does not arrive

  /** One copy, to a place where a directory stands, finishes without error and leaves the file inside the directory. */
  predicate DirectoryTakes(source: Path, target: Path, content: Bytes) {
    var snapshot, tree, step := Nested(source, File(content)), Nested(target, Dir(map[])), Copy(source, target);
    var ran := Run(snapshot, tree, [step]);
    FileAt(snapshot, source) == Some(content) && ran.error.None? &&
    FileAt(ran.tree, target) == None && FileAt(ran.tree, target + [BaseName(source)]) == Some(content) &&
    !Arrived(snapshot, ran.tree, step)
  }

  lemma DirectoryTakesTheFile(source: Path, target: Path, content: Bytes)
    requires source != [] && AreNames(source) && target != [] && AreNames(target)
    ensures DirectoryTakes(source, target, content)
  {
    var snapshot, tree, step := Nested(source, File(content)), Nested(target, Dir(map[])), Copy(source, target);
    NestedHolds(source, File(content));
    NestedHolds(target, Dir(map[]));
    var d := target + [BaseName(source)];
    LookupConcat(tree, target, [BaseName(source)]);
    assert Lookup(tree, d).None?;
    forall q: Path | q < d ensures FileAt(tree, q).None? {
      if q == target {
        NotBoth(tree, target);
      } else {
        assert q < target;
        AncestorIsDir(tree, q, target);
        NotBoth(tree, q);
      }
    }
    WritableIff(tree, d);
    RunOfOne(snapshot, tree, step);
    PutFileAt(tree, d, content, d);
    PutFileAt(tree, d, content, target);
  }

  lemma RunOfOne(snapshot: Node, tree: Node, step: Step)
    requires step.Copy? && StepError(snapshot, tree, step).None?
    ensures var d := Destination(tree, step.source, step.target);
            Run(snapshot, tree, [step]).error.None? && Run(snapshot, tree, [step]).tree == Put(tree, d, FileAt(snapshot, step.source).value)
  {
    assert [step][1..] == [];
  }

  lemma NameAppended(p: Path, name: string)
    requires AreNames(p) && IsName(name)
    ensures AreNames(p + [name])
  {
  }

  lemma ZoneDirNames()
    ensures AreNames(ZONE)
  {
    ZoneNames();
  }

  lemma ApicompatIsName()
    ensures IsName("apicompat")
  {
  }

  lemma MirrorNames()
    ensures AreNames(MIRROR)
  {
    ZoneDirNames();
    ApicompatIsName();
    NameAppended(ZONE, "apicompat");
  }

  lemma ApicompatDirNames()
    ensures AreNames(APICOMPAT_DIR)
  {
    ApicompatNames();
  }

  /** In particular any apicompat file, copied to where a directory stands in the zone. */
  lemma ApicompatFileTaken(rest: Path, content: Bytes)
    requires rest != [] && AreNames(rest)
    ensures DirectoryTakes(APICOMPAT_DIR + rest, MIRROR + rest, content)
  {
    MirrorNames();
    ApicompatDirNames();
    AppendedFileTaken(APICOMPAT_DIR, MIRROR, rest, content);
  }

  lemma AppendedFileTaken(from: Path, to: Path, rest: Path, content: Bytes)
    requires AreNames(from) && AreNames(to) && AreNames(rest) && rest != []
    ensures DirectoryTakes(from + rest, to + rest, content)
  {
    DirectoryTakesTheFile(from + rest, to + rest, content);
  }

  /** Two different files, copied to one place of an empty tree: the run finishes, and one of them has not arrived. */
  lemma SecondFileWins(snapshot: Node, first: Path, second: Path, target: Path)
    requires FileAt(snapshot, first).Some? && FileAt(snapshot, second).Some? && FileAt(snapshot, first) != FileAt(snapshot, second)
    requires target != []
    ensures var steps := [Copy(first, target), Copy(second, target)];
            var ran := Run(snapshot, Dir(map[]), steps);
            ran.error.None? && FileAt(ran.tree, target) == FileAt(snapshot, second) && !Arrived(snapshot, ran.tree, steps[0])
  {
    var tree, a, b := Dir(map[]), Copy(first, target), Copy(second, target);
    var x, y := FileAt(snapshot, first).value, FileAt(snapshot, second).value;
    FreshWritable(target);
    assert !IsDirAt(tree, target);
    var next := Put(tree, target, x);
    PutFileAt(tree, target, x, target);
    NotBoth(next, target);
    ExistingFileWritable(next, target);
    assert [a, b][1..] == [b];
    RunOfOne(snapshot, next, b);
    PutFileAt(next, target, y, target);
  }

  // Arrival, row by row

  /** The rows that apply copies. */
  predicate IsCopied(row: PlanRow) {
    row.disposition == DirectSync && (row.action == Candidate || row.action == Unchanged) && row.approved == Approved
  }

  function SourcePath(row: PlanRow): Path {
    Parts(Slashes(SourceOf(row)))
  }

  function TargetPath(row: PlanRow): Path {
    Parts(Slashes(row.targetPath))
  }

  /** The snapshot file of a copied row stands at the row's own target. */
  predicate RowArrived(snapshot: Node, final: Node, row: PlanRow) {
    IsCopied(row) ==> FileAt(snapshot, SourcePath(row)).Some? && FileAt(final, TargetPath(row)) == FileAt(snapshot, SourcePath(row))
  }

  predicate RowTargetFree(tree: Node, row: PlanRow) {
    IsCopied(row) ==> !IsDirAt(tree, TargetPath(row))
  }

  predicate RowsApart(snapshot: Node, a: PlanRow, b: PlanRow) {
    IsCopied(a) && IsCopied(b) ==>
      !(TargetPath(a) < TargetPath(b)) && (TargetPath(a) == TargetPath(b) ==> FileAt(snapshot, SourcePath(a)) == FileAt(snapshot, SourcePath(b)))
  }

  predicate AllRowsApart(snapshot: Node, files: seq<PlanRow>) {
    forall i, j | 0 <= i < |files| && 0 <= j < |files| :: RowsApart(snapshot, files[i], files[j])
  }

  /** The step of a row that does not stop the run. */
  function StepFor(row: PlanRow): Step {
    if IsCopied(row) then Copy(SourcePath(row), TargetPath(row)) else Skip
  }

  lemma DecideIsStepFor(reader: PathReader, row: PlanRow)
    requires !Decide(reader, row).Abort?
    ensures Decide(reader, row) == StepFor(row)
  {
  }

  function StepsFor(files: seq<PlanRow>): (steps: seq<Step>)
    ensures |steps| == |files|
  {
    seq(|files|, i requires 0 <= i < |files| => StepFor(files[i]))
  }

  lemma FinishedSteps(reader: PathReader, files: seq<PlanRow>, snapshot: Node, tree: Node)
    requires Run(snapshot, tree, StepsOf(reader, files)).error.None?
    ensures StepsOf(reader, files) == StepsFor(files)
  {
    var steps := StepsOf(reader, files);
    NoAborts(snapshot, tree, steps);
    forall i | 0 <= i < |files| ensures steps[i] == StepsFor(files)[i] {
      assert !steps[i].Abort?;
      DecideIsStepFor(reader, files[i]);
    }
  }

  /**
   * For any plan at all: after an apply without error, every copied row's target holds that row's snapshot file exactly when
   * no target was a directory before, no target lies below another, and rows with the same target bring the same bytes.
   */
  lemma PlanArrivesIff(reader: PathReader, files: seq<PlanRow>, snapshot: Node, tree: Node)
    requires Run(snapshot, tree, StepsOf(reader, files)).error.None?
    ensures (forall i | 0 <= i < |files| :: RowArrived(snapshot, Run(snapshot, tree, StepsOf(reader, files)).tree, files[i])) <==>
            (forall i | 0 <= i < |files| :: RowTargetFree(tree, files[i])) && AllRowsApart(snapshot, files)
  {
    FinishedSteps(reader, files, snapshot, tree);
    RowsArriveIff(snapshot, tree, files);
  }

  lemma RowsArriveIff(snapshot: Node, tree: Node, files: seq<PlanRow>)
    requires Run(snapshot, tree, StepsFor(files)).error.None?
    ensures (forall i | 0 <= i < |files| :: RowArrived(snapshot, Run(snapshot, tree, StepsFor(files)).tree, files[i])) <==>
            (forall i | 0 <= i < |files| :: RowTargetFree(tree, files[i])) && AllRowsApart(snapshot, files)
  {
    var steps := StepsFor(files);
    var final := Run(snapshot, tree, steps).tree;
    forall i | 0 <= i < |files|
      ensures RowArrived(snapshot, final, files[i]) <==> Arrived(snapshot, final, steps[i])
      ensures RowTargetFree(tree, files[i]) <==> TargetFree(tree, steps[i])
    {
    }
    forall i, j | 0 <= i < |files| && 0 <= j < |files|
      ensures RowsApart(snapshot, files[i], files[j]) <==> Apart(snapshot, steps[i], steps[j])
    {
    }
    AllArriveIff(snapshot, tree, steps);
  }

  // Plans whose sources lie outside the zone

  const MIRROR: Path := ZONE + ["apicompat"]

  /** The copy of an apicompat file to its place in the zone. */
  predicate IsMirrored(row: PlanRow) {
    IsCopied(row) ==> APICOMPAT_DIR <= SourcePath(row) && TargetPath(row) == MIRROR + SourcePath(row)[|APICOMPAT_DIR|..]
  }

  /** Two files of one snapshot never lie one below the other, so neither do their mirror images. */
  lemma MirrorsKeepApart(snapshot: Node, a: PlanRow, b: PlanRow)
    requires IsMirrored(a) && IsMirrored(b)
    requires IsCopied(a) ==> FileAt(snapshot, SourcePath(a)).Some?
    requires IsCopied(b) ==> FileAt(snapshot, SourcePath(b)).Some?
    ensures RowsApart(snapshot, a, b)
  {
    if IsCopied(a) && IsCopied(b) {
      ImagesKeepApart(snapshot, APICOMPAT_DIR, MIRROR, SourcePath(a), SourcePath(b));
    }
  }

  lemma ImagesKeepApart(snapshot: Node, from: Path, to: Path, p: Path, q: Path)
    requires from <= p && from <= q && FileAt(snapshot, p).Some? && FileAt(snapshot, q).Some?
    ensures !(to + p[|from|..] < to + q[|from|..])
    ensures to + p[|from|..] == to + q[|from|..] ==> p == q
  {
    var rp, rq := p[|from|..], q[|from|..];
    assert p == from + rp && q == from + rq;
    assert rp == (to + rp)[|to|..] && rq == (to + rq)[|to|..];
    if to + rp < to + rq {
      assert p < q;
      AncestorIsDir(snapshot, p, q);
      NotBoth(snapshot, p);
    }
  }

  lemma ApicompatPathMirrored(path: string)
    requires APICOMPAT <= path && '\\' !in path
    ensures APICOMPAT_DIR <= Parts(path) && TargetFor(path).Some?
    ensures Parts(TargetFor(path).value) == MIRROR + Parts(path)[|APICOMPAT_DIR|..]
  {
    var rest := path[|APICOMPAT|..];
    assert path == APICOMPAT + rest;
    PrefixesExclusive(path);
    PartsOfApicompat(rest);
    PartsOfApicompatTarget(rest);
    assert ZONE + (["apicompat"] + Parts(rest)) == MIRROR + Parts(rest);
  }

  /** A built row whose path lies outside the zone is mirrored, if it is copied at all. */
  lemma BuiltRowIsMirrored(reader: PathReader, row: FileRow, planned: PlanRow)
    requires BuildRow(reader, row).Success? && Reviewed(BuildRow(reader, row).value, planned)
    requires SafePath(row.path) && !(OFFICIAL <= row.path)
    ensures IsMirrored(planned)
  {
    if IsCopied(planned) {
      ApicompatPathMirrored(row.path);
      TargetIsSafe(row.path);
      assert Slashes(planned.targetPath) == planned.targetPath == TargetFor(row.path).value;
    }
  }

  /** `files` is a reviewed plan for valid rows whose paths all lie outside the zone. */
  predicate IsReviewedOutsidePlan(reader: PathReader, rows: seq<FileRow>, plan: seq<PlanRow>, files: seq<PlanRow>) {
    ValidFileRows(reader, rows) && IsPlanOf(reader, rows, plan) && |files| == |plan| &&
    forall i | 0 <= i < |plan| :: Reviewed(plan[i], files[i]) && !(OFFICIAL <= rows[i].path)
  }

  lemma OutsideRowIsMirrored(reader: PathReader, rows: seq<FileRow>, plan: seq<PlanRow>, files: seq<PlanRow>, i: nat)
    requires IsReviewedOutsidePlan(reader, rows, plan, files) && i < |files|
    ensures IsMirrored(files[i])
  {
    BuiltRowIsMirrored(reader, rows[i], files[i]);
  }

  lemma MirroredRowsKeepApart(snapshot: Node, tree: Node, files: seq<PlanRow>)
    requires Run(snapshot, tree, StepsFor(files)).error.None? && forall i | 0 <= i < |files| :: IsMirrored(files[i])
    ensures AllRowsApart(snapshot, files)
  {
    var steps := StepsFor(files);
    SuccessMeans(snapshot, tree, steps);
    forall i | 0 <= i < |files| ensures IsCopied(files[i]) ==> FileAt(snapshot, SourcePath(files[i])).Some? {
      assert steps[i] == StepFor(files[i]);
    }
    forall i, j | 0 <= i < |files| && 0 <= j < |files| ensures RowsApart(snapshot, files[i], files[j]) {
      MirrorsKeepApart(snapshot, files[i], files[j]);
    }
  }

  /**
   * For a reviewed plan built from valid rows whose paths all lie outside the zone, targets keep apart by themselves: after an
   * apply without error, everything has arrived exactly when no target was a directory before.
   */
  lemma BuiltPlanArrivesIff(reader: PathReader, rows: seq<FileRow>, plan: seq<PlanRow>, files: seq<PlanRow>, snapshot: Node, tree: Node)
    requires IsReviewedOutsidePlan(reader, rows, plan, files)
    requires Run(snapshot, tree, StepsOf(reader, files)).error.None?
    ensures (forall i | 0 <= i < |files| :: RowArrived(snapshot, Run(snapshot, tree, StepsOf(reader, files)).tree, files[i])) <==>
            (forall i | 0 <= i < |files| :: RowTargetFree(tree, files[i]))
  {
    forall i | 0 <= i < |files| ensures IsMirrored(files[i]) {
      OutsideRowIsMirrored(reader, rows, plan, files, i);
    }
    FinishedSteps(reader, files, snapshot, tree);
    MirroredRowsKeepApart(snapshot, tree, files);
    PlanArrivesIff(reader, files, snapshot, tree);
  }

  lemma {:induction false} NoAborts(snapshot: Node, tree: Node, steps: seq<Step>)
    requires Run(snapshot, tree, steps).error.None?
    ensures forall i | 0 <= i < |steps| :: !steps[i].Abort?
    decreases |steps|
  {
    if steps != [] {
      var next := tree;
      if steps[0].Copy? {
        next := Put(tree, Destination(tree, steps[0].source, steps[0].target), FileAt(snapshot, steps[0].source).value);
      }
      NoAborts(snapshot, next, steps[1..]);
      assert forall i | 1 <= i < |steps| :: steps[i] == steps[1..][i - 1];
    }
  }
}
