/** Applying a plan: copying approved files of the snapshot into the Official Runtime zone of a worktree. */
module ApplyPlan {
  import opened Wrappers
  import opened Text
  import opened FileTree
  import opened PathRules
  import opened SyncPlan
  import opened PlanDocument

  datatype ApplyError =
    | Rejected(reason: DocumentError)
    | SourceRootMissing
    | RowRefused(path: string, why: SyncError)
    | NeedsApproval(path: string)
    | UnsafeRow(path: string)
    | OutsideZone(path: string)
    | SourceMissing(source: Path)
    | TargetBlocked(target: Path)

  /** What one plan row asks for, before any file is looked at. */
  datatype Step = Skip | Abort(error: ApplyError) | Copy(source: Path, target: Path)

  /** `PurePath.as_posix` of a relative path. */
  function AsPosix(p: Path): string {
    if p == [] then "." else Joined(p)
  }

  function Decide(reader: PathReader, row: PlanRow): Step {
    var objection := ValidateSyncPath(reader, SourceOf(row), row.disposition, row.handling);
    var source, target := Slashes(SourceOf(row)), Slashes(row.targetPath);
    if objection.Some? then Abort(RowRefused(SourceOf(row), objection.value))
    else if row.disposition != DirectSync || (row.action != Candidate && row.action != Unchanged) then Skip
    else if row.approved != Approved then
      if row.action == Candidate then Abort(NeedsApproval(SourceOf(row))) else Skip
    else if !SafeRelative(source) || !SafeRelative(target) then Abort(UnsafeRow(SourceOf(row)))
    else if !(OFFICIAL <= AsPosix(Parts(target))) then Abort(OutsideZone(SourceOf(row)))
    else Copy(Parts(source), Parts(target))
  }

  function StepsOf(reader: PathReader, rows: seq<PlanRow>): (steps: seq<Step>)
    ensures |steps| == |rows|
  {
    seq(|rows|, i requires 0 <= i < |rows| => Decide(reader, rows[i]))
  }

  // The effect of steps on a tree

  datatype Write = Write(path: Path, content: Bytes)

  /** A run: the tree it leaves, the error that stopped it, how many steps it finished, what it wrote. */
  datatype Ran = Ran(tree: Node, error: Option<ApplyError>, finished: nat, writes: seq<Write>)

  /** `shutil.copy2` onto an existing directory copies into it under the source's name. */
  function Destination(tree: Node, source: Path, target: Path): Path {
    if IsDirAt(tree, target) then target + [BaseName(source)] else target
  }

  function StepError(snapshot: Node, tree: Node, step: Step): Option<ApplyError> {
    match step
    case Skip => None
    case Abort(error) => Some(error)
    case Copy(source, target) =>
      if FileAt(snapshot, source).None? then Some(SourceMissing(source))
      else if !Writable(tree, Destination(tree, source, target)) then Some(TargetBlocked(target))
      else None
  }

  function Run(snapshot: Node, tree: Node, steps: seq<Step>): Ran
    decreases |steps|
  {
    if steps == [] then Ran(tree, None, 0, [])
    else if StepError(snapshot, tree, steps[0]).Some? then Ran(tree, StepError(snapshot, tree, steps[0]), 0, [])
    else
      match steps[0]
      case Skip =>
        var rest := Run(snapshot, tree, steps[1..]);
        rest.(finished := rest.finished + 1)
      case Copy(source, target) =>
        var write := Write(Destination(tree, source, target), FileAt(snapshot, source).value);
        var rest := Run(snapshot, Put(tree, write.path, write.content), steps[1..]);
        Ran(rest.tree, rest.error, rest.finished + 1, [write] + rest.writes)
  }

  // Every run, finished or stopped

  /** The directories and files that exist in `before` still do in `after`. */
  ghost predicate Grows(before: Node, after: Node) {
    (forall q :: IsDirAt(before, q) ==> IsDirAt(after, q)) &&
    (forall q :: FileAt(before, q).Some? ==> FileAt(after, q).Some?)
  }

  lemma PutGrows(tree: Node, p: Path, content: Bytes)
    requires Writable(tree, p)
    ensures Grows(tree, Put(tree, p, content))
  {
    forall q ensures IsDirAt(tree, q) ==> IsDirAt(Put(tree, p, content), q) { PutIsDirAt(tree, p, content, q); }
    forall q ensures FileAt(tree, q).Some? ==> FileAt(Put(tree, p, content), q).Some? { PutFileAt(tree, p, content, q); }
  }

  lemma {:induction false} RunGrows(snapshot: Node, tree: Node, steps: seq<Step>)
    ensures Grows(tree, Run(snapshot, tree, steps).tree)
    decreases |steps|
  {
    if steps != [] && StepError(snapshot, tree, steps[0]).None? {
      match steps[0]
      case Skip => RunGrows(snapshot, tree, steps[1..]);
      case Copy(source, target) =>
        var d := Destination(tree, source, target);
        PutGrows(tree, d, FileAt(snapshot, source).value);
        RunGrows(snapshot, Put(tree, d, FileAt(snapshot, source).value), steps[1..]);
    }
  }

  lemma NotBoth(tree: Node, p: Path)
    ensures !(IsDirAt(tree, p) && FileAt(tree, p).Some?)
  {
  }

  /** Once a step has written, its destination can be read off any later tree. */
  lemma DestinationSettled(tree: Node, source: Path, target: Path, content: Bytes, later: Node)
    requires Writable(tree, Destination(tree, source, target))
    requires Grows(Put(tree, Destination(tree, source, target), content), later)
    ensures Destination(later, source, target) == Destination(tree, source, target)
    ensures FileAt(later, Destination(tree, source, target)).Some?
  {
    var d := Destination(tree, source, target);
    PutGrows(tree, d, content);
    PutFileAt(tree, d, content, d);
    NotBoth(later, d);
  }

  /** The last copy among `steps` whose destination, seen in the final tree, is `q`. */
  function LastWrite(snapshot: Node, final: Node, steps: seq<Step>, q: Path): Option<Bytes> {
    if steps == [] then None
    else
      var rest := LastWrite(snapshot, final, steps[1..], q);
      if rest.Some? then rest
      else if steps[0].Copy? && Destination(final, steps[0].source, steps[0].target) == q then FileAt(snapshot, steps[0].source)
      else None
  }

  /** A run finishes a prefix of the plan: each file holds what the last finished copy to it brought, or what it held before. */
  lemma {:induction false} RunOverwritesByPrefix(snapshot: Node, tree: Node, steps: seq<Step>, q: Path)
    ensures var ran := Run(snapshot, tree, steps);
            && ran.finished <= |steps|
            && (ran.error.None? <==> ran.finished == |steps|)
            && (ran.error.Some? ==> ran.error == StepError(snapshot, ran.tree, steps[ran.finished]))
            && var last := LastWrite(snapshot, ran.tree, steps[..ran.finished], q);
               FileAt(ran.tree, q) == if last.Some? then last else FileAt(tree, q)
    decreases |steps|
  {
    var ran := Run(snapshot, tree, steps);
    if steps != [] && StepError(snapshot, tree, steps[0]).None? {
      var next := tree;
      if steps[0].Copy? {
        var d, content := Destination(tree, steps[0].source, steps[0].target), FileAt(snapshot, steps[0].source).value;
        next := Put(tree, d, content);
        RunGrows(snapshot, next, steps[1..]);
        DestinationSettled(tree, steps[0].source, steps[0].target, content, ran.tree);
        PutFileAt(tree, d, content, q);
      }
      RunOverwritesByPrefix(snapshot, next, steps[1..], q);
      assert steps[..ran.finished][1..] == steps[1..][..ran.finished - 1];
    }
  }

  // The zone

  /** A copy step that a plan row can produce: clean components, a target strictly inside the zone. */
  predicate InZone(step: Step) {
    step.Copy? ==> AreNames(step.source) && AreNames(step.target) && ZONE < step.target
  }

  lemma ZonePrefixMeans(p: Path)
    requires AreNames(p) && OFFICIAL <= AsPosix(p)
    ensures ZONE < p
  {
    ZoneJoined();
    ZoneNames();
    if p != [] {
      StringPrefixIsPathPrefix(ZONE, p);
    }
  }

  lemma SafePartsAreNames(path: string)
    requires SafeRelative(path)
    ensures AreNames(Parts(path))
  {
    forall i | 0 <= i < |Parts(path)| ensures IsName(Parts(path)[i]) {
      assert Parts(path)[i] in Parts(path);
    }
  }

  /** Every copy that a plan row leads to goes strictly inside the zone, whatever the row says. */
  lemma DecideInZone(reader: PathReader, row: PlanRow)
    ensures InZone(Decide(reader, row))
  {
    if Decide(reader, row).Copy? {
      SafePartsAreNames(Slashes(SourceOf(row)));
      SafePartsAreNames(Slashes(row.targetPath));
      ZonePrefixMeans(Parts(Slashes(row.targetPath)));
    }
  }
}
