/** The worktree, and what applying a plan document does to it, said of the fields of the rows. */
module Worktrees {
  import opened Wrappers
  import opened Text
  import opened FileTree
  import opened PathRules
  import opened SyncPlan
  import opened PlanDocument
  import opened ApplyPlan
  import opened ApplyTheorems
  import opened PlanTargets

  /** A direct candidate that nobody has approved. */
  predicate IsUnapproved(row: PlanRow) {
    row.disposition == DirectSync && row.action == Candidate && row.approved != Approved
  }

  /** Where a copied row lands in a tree: at its target, or inside the directory that stands there. */
  function Landing(now: Node, row: PlanRow): Path {
    if IsDirAt(now, TargetPath(row)) then TargetPath(row) + [BaseName(SourcePath(row))] else TargetPath(row)
  }

  /** The row stops the apply, with this error, when the worktree is `now`. */
  predicate StopsWith(snapshot: Node, now: Node, row: PlanRow, error: ApplyError) {
    if IsUnapproved(row) then error == NeedsApproval(SourceOf(row))
    else
      IsCopied(row) &&
      if !(ZONE < TargetPath(row)) then error == OutsideZone(SourceOf(row))
      else if FileAt(snapshot, SourcePath(row)).None? then error == SourceMissing(SourcePath(row))
      else !Writable(now, Landing(now, row)) && error == TargetBlocked(TargetPath(row))
  }

  /** What the last of `rows` that is copied to `q` brings there. */
  function LastCopied(snapshot: Node, after: Node, rows: seq<PlanRow>, q: Path): Option<Bytes> {
    if rows == [] then None
    else
      var rest := LastCopied(snapshot, after, rows[1..], q);
      if rest.Some? then rest
      else if IsCopied(rows[0]) && Landing(after, rows[0]) == q then FileAt(snapshot, SourcePath(rows[0]))
      else None
  }

  /** The first `k` rows were applied, the last copy to a place winning, and then the apply ended with `error`. */
  ghost predicate IsOutcome(snapshot: Node, before: Node, after: Node, files: seq<PlanRow>, error: Option<ApplyError>, k: nat) {
    k <= |files| &&
    (forall j | 0 <= j < k :: !IsUnapproved(files[j]) && (IsCopied(files[j]) ==> ZONE < TargetPath(files[j]) && FileAt(snapshot, SourcePath(files[j])).Some?)) &&
    (forall q :: FileAt(after, q) ==
                 if LastCopied(snapshot, after, files[..k], q).Some? then LastCopied(snapshot, after, files[..k], q) else FileAt(before, q)) &&
    if error.None? then k == |files| else k < |files| && StopsWith(snapshot, after, files[k], error.value)
  }

  class Worktree {
    var root: Node

    constructor (tree: Node)
      ensures root == tree
    {
      root := tree;
    }

    /** `apply_sync_plan`; `sourceRoot` is what stands at the document's source root, if anything. */
    method Apply(reader: PathReader, doc: Document, sourceRoot: Option<Node>) returns (error: Option<ApplyError>)
      modifies this
      ensures !ValidDocument(reader, doc, None) ==> root == old(root) && error.Some? && error.value.Rejected?
      ensures ValidDocument(reader, doc, None) && (sourceRoot.None? || sourceRoot.value.File?) ==>
                root == old(root) && error == Some(SourceRootMissing)
      ensures ValidDocument(reader, doc, None) && sourceRoot.Some? && sourceRoot.value.Dir? ==>
                var ran := Run(sourceRoot.value, old(root), StepsOf(reader, doc.files.value));
                root == ran.tree && error == ran.error &&
                exists k :: IsOutcome(sourceRoot.value, old(root), root, doc.files.value, error, k)
      ensures ValidDocument(reader, doc, None) && sourceRoot.Some? && sourceRoot.value.Dir? && old(root).Dir? ==>
                (error.None? && (forall i | 0 <= i < |doc.files.value| :: RowArrived(sourceRoot.value, root, doc.files.value[i])) <==>
                 RowsReady(sourceRoot.value, old(root), doc.files.value))
    {
      var invalid := ValidateDocument(reader, doc, None);
      if invalid.Some? {
        return Some(Rejected(invalid.value));
      }
      if sourceRoot.None? || sourceRoot.value.File? {
        return Some(SourceRootMissing);
      }
      RunOutcome(reader, doc.files.value, sourceRoot.value, root);
      if root.Dir? {
        ApplySucceedsIff(reader, doc.files.value, sourceRoot.value, root);
      }
      error := CopyRows(sourceRoot.value, StepsOf(reader, doc.files.value));
    }

    method CopyRows(snapshot: Node, steps: seq<Step>) returns (error: Option<ApplyError>)
      modifies this
      ensures root == Run(snapshot, old(root), steps).tree && error == Run(snapshot, old(root), steps).error
    {
      var i := 0;
      while i < |steps|
        invariant 0 <= i <= |steps|
        invariant Run(snapshot, old(root), steps).tree == Run(snapshot, root, steps[i..]).tree
        invariant Run(snapshot, old(root), steps).error == Run(snapshot, root, steps[i..]).error
      {
        assert steps[i..][0] == steps[i] && steps[i..][1..] == steps[i + 1..];
        error := StepError(snapshot, root, steps[i]);
        if error.Some? {
          return;
        }
        if steps[i].Copy? {
          var destination := Destination(root, steps[i].source, steps[i].target);
          root := Put(root, destination, FileAt(snapshot, steps[i].source).value);
        }
        i := i + 1;
      }
      return None;
    }
  }

  // What the rows of a valid document lead to

  predicate IsValidRow(reader: PathReader, row: PlanRow) {
    RowOk(reader, row, None)
  }

  lemma ZoneIff(p: Path)
    requires AreNames(p)
    ensures OFFICIAL <= AsPosix(p) <==> ZONE < p
  {
    if OFFICIAL <= AsPosix(p) {
      ZonePrefixMeans(p);
    }
    if ZONE < p {
      var rest := p[|ZONE|..];
      assert p == ZONE + rest;
      BelowZoneJoined(rest);
    }
  }

  lemma BelowZoneJoined(rest: Path)
    requires rest != []
    ensures OFFICIAL <= Joined(ZONE + rest)
  {
    ZoneJoined();
    JoinConcat(ZONE, rest, '/');
    assert Joined(ZONE + rest) == Joined(ZONE) + "/" + Joined(rest);
  }

  /** What a row of a valid document asks for, field by field. */
  function StepOfFields(row: PlanRow): Step {
    if IsUnapproved(row) then Abort(NeedsApproval(SourceOf(row)))
    else if !IsCopied(row) then Skip
    else if !(ZONE < TargetPath(row)) then Abort(OutsideZone(SourceOf(row)))
    else Copy(SourcePath(row), TargetPath(row))
  }

  lemma ValidRowDecides(reader: PathReader, row: PlanRow)
    requires IsValidRow(reader, row)
    ensures Decide(reader, row) == StepOfFields(row)
  {
    SlashesTwice(SourceOf(row));
    if IsCopied(row) {
      SafePartsAreNames(Slashes(row.targetPath));
      ZoneIff(TargetPath(row));
    }
  }

  lemma {:induction false} CopiesAreWrites(snapshot: Node, after: Node, rows: seq<PlanRow>, steps: seq<Step>, q: Path)
    requires |rows| == |steps| && forall j | 0 <= j < |rows| :: !steps[j].Abort? && steps[j] == StepOfFields(rows[j])
    ensures LastWrite(snapshot, after, steps, q) == LastCopied(snapshot, after, rows, q)
    decreases |rows|
  {
    if rows != [] {
      assert steps[0] == StepOfFields(rows[0]);
      assert forall j | 0 <= j < |rows[1..]| :: steps[1..][j] == steps[j + 1] && rows[1..][j] == rows[j + 1];
      CopiesAreWrites(snapshot, after, rows[1..], steps[1..], q);
    }
  }

  lemma {:induction false} FinishedPrefix(snapshot: Node, tree: Node, steps: seq<Step>)
    ensures var ran := Run(snapshot, tree, steps);
            ran.finished <= |steps| &&
            forall j | 0 <= j < ran.finished :: !steps[j].Abort? && (steps[j].Copy? ==> FileAt(snapshot, steps[j].source).Some?)
    decreases |steps|
  {
    if steps != [] && StepError(snapshot, tree, steps[0]).None? {
      var next := tree;
      if steps[0].Copy? {
        next := Put(tree, Destination(tree, steps[0].source, steps[0].target), FileAt(snapshot, steps[0].source).value);
      }
      FinishedPrefix(snapshot, next, steps[1..]);
      assert forall j | 1 <= j < |steps| :: steps[j] == steps[1..][j - 1];
    }
  }

  lemma RunOutcome(reader: PathReader, files: seq<PlanRow>, snapshot: Node, tree: Node)
    requires forall i | 0 <= i < |files| :: IsValidRow(reader, files[i])
    ensures var ran := Run(snapshot, tree, StepsOf(reader, files));
            IsOutcome(snapshot, tree, ran.tree, files, ran.error, ran.finished)
  {
    var steps := StepsOf(reader, files);
    forall i | 0 <= i < |files| ensures steps[i] == StepOfFields(files[i]) {
      ValidRowDecides(reader, files[i]);
    }
    StepsOutcome(files, steps, snapshot, tree);
  }

  lemma StepsOutcome(files: seq<PlanRow>, steps: seq<Step>, snapshot: Node, tree: Node)
    requires |steps| == |files| && forall i | 0 <= i < |files| :: steps[i] == StepOfFields(files[i])
    ensures var ran := Run(snapshot, tree, steps);
            IsOutcome(snapshot, tree, ran.tree, files, ran.error, ran.finished)
  {
    var ran := Run(snapshot, tree, steps);
    FinishedPrefix(snapshot, tree, steps);
    RunOverwritesByPrefix(snapshot, tree, steps, []);
    forall j | 0 <= j < ran.finished
      ensures !IsUnapproved(files[j]) && (IsCopied(files[j]) ==> ZONE < TargetPath(files[j]) && FileAt(snapshot, SourcePath(files[j])).Some?)
    {
      assert steps[j] == StepOfFields(files[j]);
    }
    forall q ensures FileAt(ran.tree, q) ==
                     if LastCopied(snapshot, ran.tree, files[..ran.finished], q).Some? then LastCopied(snapshot, ran.tree, files[..ran.finished], q)
                     else FileAt(tree, q)
    {
      RunOverwritesByPrefix(snapshot, tree, steps, q);
      CopiesAreWrites(snapshot, ran.tree, files[..ran.finished], steps[..ran.finished], q);
    }
    if ran.error.Some? {
      assert steps[ran.finished] == StepOfFields(files[ran.finished]);
      StopFits(snapshot, ran.tree, files[ran.finished], ran.error.value);
    }
  }

  lemma StopFits(snapshot: Node, now: Node, row: PlanRow, error: ApplyError)
    requires StepError(snapshot, now, StepOfFields(row)) == Some(error)
    ensures StopsWith(snapshot, now, row, error)
  {
  }

  // When an apply succeeds

  /** The copies of a plan, seen beforehand: sources exist, targets can be written, and targets keep apart. */
  predicate CopiesReady(snapshot: Node, tree: Node, steps: seq<Step>) {
    (forall i | 0 <= i < |steps| && steps[i].Copy? :: FileAt(snapshot, steps[i].source).Some? && Writable(tree, steps[i].target)) &&
    AllApart(snapshot, steps)
  }

  lemma StillWritable(tree: Node, p: Path, content: Bytes, q: Path)
    requires Writable(tree, p) && Writable(tree, q) && !(p < q) && !(q < p)
    ensures Writable(Put(tree, p, content), q)
  {
    var next := Put(tree, p, content);
    WritableIff(tree, q);
    WritableIff(next, q);
    PutIsDirAt(tree, p, content, q);
    forall r: Path | r < q ensures FileAt(next, r).None? {
      PutFileAt(tree, p, content, r);
    }
  }

  lemma {:induction false} ReadyCopiesFinish(snapshot: Node, tree: Node, steps: seq<Step>)
    requires CopiesReady(snapshot, tree, steps) && forall i | 0 <= i < |steps| :: !steps[i].Abort?
    ensures Run(snapshot, tree, steps).error.None?
    decreases |steps|
  {
    if steps != [] {
      var next := tree;
      if steps[0].Copy? {
        WritableIff(tree, steps[0].target);
        next := Put(tree, steps[0].target, FileAt(snapshot, steps[0].source).value);
        forall i | 0 < i < |steps| && steps[i].Copy? ensures Writable(next, steps[i].target) {
          assert Apart(snapshot, steps[0], steps[i]) && Apart(snapshot, steps[i], steps[0]);
          StillWritable(tree, steps[0].target, FileAt(snapshot, steps[0].source).value, steps[i].target);
        }
      }
      var rest := steps[1..];
      assert forall i | 0 <= i < |rest| :: rest[i] == steps[i + 1];
      forall i, j | 0 <= i < |rest| && 0 <= j < |rest| ensures Apart(snapshot, rest[i], rest[j]) {
        assert Apart(snapshot, steps[i + 1], steps[j + 1]);
      }
      ReadyCopiesFinish(snapshot, next, rest);
    }
  }

  /** A file that arrived had a target that could be written all along. */
  lemma ArrivedWasWritable(snapshot: Node, tree: Node, steps: seq<Step>, step: Step)
    requires tree.Dir? && step.Copy? && step.target != [] && TargetFree(tree, step)
    requires Arrived(snapshot, Run(snapshot, tree, steps).tree, step)
    ensures Writable(tree, step.target)
  {
    var final := Run(snapshot, tree, steps).tree;
    RunGrows(snapshot, tree, steps);
    WritableIff(tree, step.target);
    forall q: Path | q < step.target ensures FileAt(tree, q).None? {
      AncestorIsDir(final, q, step.target);
      NotBoth(final, q);
    }
  }

  lemma CopiesSucceedIff(snapshot: Node, tree: Node, steps: seq<Step>)
    requires tree.Dir? && forall i | 0 <= i < |steps| && steps[i].Copy? :: steps[i].target != []
    ensures var ran := Run(snapshot, tree, steps);
            ran.error.None? && (forall i | 0 <= i < |steps| :: Arrived(snapshot, ran.tree, steps[i])) <==>
            CopiesReady(snapshot, tree, steps) && forall i | 0 <= i < |steps| :: !steps[i].Abort?
  {
    var ran := Run(snapshot, tree, steps);
    if CopiesReady(snapshot, tree, steps) && forall i | 0 <= i < |steps| :: !steps[i].Abort? {
      ReadyCopiesFinish(snapshot, tree, steps);
      forall i | 0 <= i < |steps| ensures TargetFree(tree, steps[i]) {
        if steps[i].Copy? { WritableIff(tree, steps[i].target); }
      }
      AllArriveIff(snapshot, tree, steps);
    }
    if ran.error.None? && forall i | 0 <= i < |steps| :: Arrived(snapshot, ran.tree, steps[i]) {
      NoAborts(snapshot, tree, steps);
      AllArriveIff(snapshot, tree, steps);
      forall i | 0 <= i < |steps| && steps[i].Copy? ensures FileAt(snapshot, steps[i].source).Some? && Writable(tree, steps[i].target) {
        assert Arrived(snapshot, ran.tree, steps[i]);
        ArrivedWasWritable(snapshot, tree, steps, steps[i]);
      }
    }
  }

  /** What a plan needs to be applied in full, seen beforehand, row by row. */
  predicate RowsReady(snapshot: Node, tree: Node, files: seq<PlanRow>) {
    (forall i | 0 <= i < |files| :: !IsUnapproved(files[i])) &&
    (forall i | 0 <= i < |files| && IsCopied(files[i]) ::
       ZONE < TargetPath(files[i]) && FileAt(snapshot, SourcePath(files[i])).Some? && Writable(tree, TargetPath(files[i]))) &&
    AllRowsApart(snapshot, files)
  }

  /**
   * A valid plan is applied without error, with every copied row's bytes at its target, if and only if all direct candidates
   * are approved, sources exist, targets lie inside the zone and can be written, and targets keep apart.
   */
  lemma ApplySucceedsIff(reader: PathReader, files: seq<PlanRow>, snapshot: Node, tree: Node)
    requires tree.Dir? && forall i | 0 <= i < |files| :: IsValidRow(reader, files[i])
    ensures var ran := Run(snapshot, tree, StepsOf(reader, files));
            ran.error.None? && (forall i | 0 <= i < |files| :: RowArrived(snapshot, ran.tree, files[i])) <==> RowsReady(snapshot, tree, files)
  {
    var steps := StepsOf(reader, files);
    forall i | 0 <= i < |files| ensures steps[i] == StepOfFields(files[i]) {
      ValidRowDecides(reader, files[i]);
    }
    RowsSucceedIff(snapshot, tree, files, steps);
  }

  lemma RowsSucceedIff(snapshot: Node, tree: Node, files: seq<PlanRow>, steps: seq<Step>)
    requires tree.Dir? && |steps| == |files| && forall i | 0 <= i < |files| :: steps[i] == StepOfFields(files[i])
    ensures var ran := Run(snapshot, tree, steps);
            ran.error.None? && (forall i | 0 <= i < |files| :: RowArrived(snapshot, ran.tree, files[i])) <==> RowsReady(snapshot, tree, files)
  {
    var ran := Run(snapshot, tree, steps);
    CopiesSucceedIff(snapshot, tree, steps);
    forall i | 0 <= i < |files|
      ensures steps[i].Abort? <==> IsUnapproved(files[i]) || (IsCopied(files[i]) && !(ZONE < TargetPath(files[i])))
      ensures !steps[i].Abort? ==> (RowArrived(snapshot, ran.tree, files[i]) <==> Arrived(snapshot, ran.tree, steps[i]))
      ensures !steps[i].Abort? ==> (steps[i].Copy? <==> IsCopied(files[i]))
    {
      assert steps[i] == StepOfFields(files[i]);
    }
    if forall i | 0 <= i < |files| :: !steps[i].Abort? {
      forall i, j | 0 <= i < |files| && 0 <= j < |files|
        ensures Apart(snapshot, steps[i], steps[j]) <==> RowsApart(snapshot, files[i], files[j])
      {
        assert steps[i] == StepOfFields(files[i]) && steps[j] == StepOfFields(files[j]);
      }
      ReadyByRows(snapshot, tree, files, steps);
    }
    if ran.error.None? { NoAborts(snapshot, tree, steps); }
  }

  lemma ReadyByRows(snapshot: Node, tree: Node, files: seq<PlanRow>, steps: seq<Step>)
    requires |steps| == |files| && forall i | 0 <= i < |files| :: steps[i] == StepOfFields(files[i]) && !steps[i].Abort?
    requires forall i, j | 0 <= i < |files| && 0 <= j < |files| ::
               Apart(snapshot, steps[i], steps[j]) <==> RowsApart(snapshot, files[i], files[j])
    ensures CopiesReady(snapshot, tree, steps) <==> RowsReady(snapshot, tree, files)
  {
  }

  // Approval

  lemma {:induction false} RunGoesOn(snapshot: Node, tree: Node, first: seq<Step>, rest: seq<Step>)
    requires Run(snapshot, tree, first).error.None?
    ensures Run(snapshot, tree, first + rest).error == Run(snapshot, Run(snapshot, tree, first).tree, rest).error
    decreases |first|
  {
    if first == [] {
      assert first + rest == rest;
    } else {
      var next := tree;
      if first[0].Copy? {
        next := Put(tree, Destination(tree, first[0].source, first[0].target), FileAt(snapshot, first[0].source).value);
      }
      assert (first + rest)[1..] == first[1..] + rest && (first + rest)[0] == first[0];
      RunGoesOn(snapshot, next, first[1..], rest);
    }
  }

  lemma AbortStops(snapshot: Node, tree: Node, first: seq<Step>, step: Step, rest: seq<Step>)
    requires Run(snapshot, tree, first).error.None? && step.Abort?
    ensures Run(snapshot, tree, first + ([step] + rest)).error == Some(step.error)
  {
    RunGoesOn(snapshot, tree, first, [step] + rest);
  }

  lemma StepsSplit(reader: PathReader, files: seq<PlanRow>, i: nat)
    requires i < |files|
    ensures StepsOf(reader, files) == StepsOf(reader, files[..i]) + ([Decide(reader, files[i])] + StepsOf(reader, files[i + 1..]))
  {
  }

  /** The first unapproved direct candidate stops the apply, whatever comes after it, once the rows before it can be applied. */
  lemma FirstUnapprovedStops(reader: PathReader, files: seq<PlanRow>, snapshot: Node, tree: Node, i: nat)
    requires tree.Dir? && i < |files| && forall j | 0 <= j < |files| :: IsValidRow(reader, files[j])
    requires IsUnapproved(files[i]) && RowsReady(snapshot, tree, files[..i])
    ensures Run(snapshot, tree, StepsOf(reader, files)).error == Some(NeedsApproval(SourceOf(files[i])))
  {
    ApplySucceedsIff(reader, files[..i], snapshot, tree);
    StepsSplit(reader, files, i);
    ValidRowDecides(reader, files[i]);
    AbortStops(snapshot, tree, StepsOf(reader, files[..i]), Decide(reader, files[i]), StepsOf(reader, files[i + 1..]));
  }

  /** An apply asks for approval exactly at an unapproved direct candidate, and it is the first one. */
  lemma ApprovalAskedIff(snapshot: Node, before: Node, after: Node, files: seq<PlanRow>, error: Option<ApplyError>, k: nat, path: string)
    requires IsOutcome(snapshot, before, after, files, error, k)
    ensures error == Some(NeedsApproval(path)) <==> k < |files| && IsUnapproved(files[k]) && path == SourceOf(files[k])
    ensures forall j | 0 <= j < k :: !IsUnapproved(files[j])
  {
  }
}
