/** The stages together: compare, plan, validate, apply, and validate again. */
module Pipeline {
  import opened Wrappers
  import opened FileTree
  import opened LineEndings
  import opened InventoryWalk
  import opened PathRules
  import opened CompareTrees
  import opened SyncPlan
  import opened PlanDocument
  import opened ApplyPlan
  import opened ApplyTheorems
  import opened PlanTargets
  import opened Worktrees

  /** The rows that a comparison of the two trees writes down. */
  ghost function RowsOfTrees(digest: Hasher, reader: PathReader, official: Node, current: Node, prefixes: seq<string>): seq<FileRow>
    requires WellFormed(official) && WellFormed(current)
  {
    Compared(digest, reader, InventoryOf(official, AdmittedBy([])), InventoryOf(current, AdmittedBy(prefixes)))
  }

  /** Every compared path can be written down: no backslash, and no migration numbered 0. */
  ghost predicate Recordable(reader: PathReader, official: Node, current: Node, prefixes: seq<string>)
    requires WellFormed(official) && WellFormed(current)
  {
    forall k | k in InventoryOf(official, AdmittedBy([])).Keys + InventoryOf(current, AdmittedBy(prefixes)).Keys ::
      '\\' !in k && reader.number(k) != Some(0)
  }

  /** `files` is a plan for `rows` in which only approvals were decided. */
  predicate IsReviewedPlan(reader: PathReader, rows: seq<FileRow>, files: seq<PlanRow>) {
    |files| == |rows| &&
    forall i | 0 <= i < |rows| :: BuildRow(reader, rows[i]).Success? && Reviewed(BuildRow(reader, rows[i]).value, files[i])
  }

  lemma ReviewedPlanValidates(reader: PathReader, rows: seq<FileRow>, doc: Document)
    requires rows != [] && ValidFileRows(reader, rows) && HeaderOk(doc) && IsReviewedPlan(reader, rows, doc.files.value)
    ensures ValidDocument(reader, doc, Some(rows))
  {
    var plan := seq(|rows|, i requires 0 <= i < |rows| => BuildRow(reader, rows[i]).value);
    BuiltPlanValidates(reader, rows, plan, doc);
  }

  lemma FreshRowsMatch(digest: Hasher, reader: PathReader, official: Node, current: Node, prefixes: seq<string>)
    requires WellFormed(official) && WellFormed(current)
    ensures TreeMatches(digest, RowsOfTrees(digest, reader, official, current, prefixes), InventoryOf(current, AdmittedBy(prefixes)))
  {
    var left, right := InventoryOf(official, AdmittedBy([])), InventoryOf(current, AdmittedBy(prefixes));
    DriftDetectedIff(digest, reader, left, right, right);
  }

  /**
   * From trees to applied plan. A reviewed plan for freshly compared rows passes the document validator against them; and
   * after applying it, finished or stopped, the current tree still matches those rows and comparing again gives the same rows.
   */
  lemma InventorySurvivesTheSync(digest: Hasher, reader: PathReader, official: Node, current: Node, prefixes: seq<string>, doc: Document)
    requires WellFormed(official) && official.Dir? && WellFormed(current) && Joined(ZONE) in prefixes
    requires Recordable(reader, official, current, prefixes)
    requires HeaderOk(doc) && RowsOfTrees(digest, reader, official, current, prefixes) != []
    requires IsReviewedPlan(reader, RowsOfTrees(digest, reader, official, current, prefixes), doc.files.value)
    ensures var rows := RowsOfTrees(digest, reader, official, current, prefixes);
            var after := Run(official, current, StepsOf(reader, doc.files.value)).tree;
            && ValidDocument(reader, doc, Some(rows))
            && WellFormed(after)
            && TreeMatches(digest, rows, InventoryOf(after, AdmittedBy(prefixes)))
            && RowsOfTrees(digest, reader, official, after, prefixes) == rows
  {
    var rows := RowsOfTrees(digest, reader, official, current, prefixes);
    ComparedAcceptedIff(digest, reader, official, AdmittedBy([]), current, AdmittedBy(prefixes));
    ReviewedPlanValidates(reader, rows, doc);
    FreshRowsMatch(digest, reader, official, current, prefixes);
    ApplyKeepsInventory(digest, reader, InventoryOf(official, AdmittedBy([])), rows, doc.files.value, official, current, prefixes);
  }

  // Fresh plans

  lemma CopiedRowIsOfficial(digest: Hasher, reader: PathReader, row: PlanRow, path: string, left: Option<Bytes>, right: Option<Bytes>)
    requires left.Some? || right.Some?
    requires BuildRow(reader, RowFor(digest, reader, path, left, right)).Success?
    requires Reviewed(BuildRow(reader, RowFor(digest, reader, path, left, right)).value, row) && IsCopied(row)
    ensures left.Some?
  {
  }

  lemma DirectTargetInZone(path: string, p: Path)
    requires p != [] && AreNames(p) && path == Joined(p) && '\\' !in path && (OFFICIAL <= path || APICOMPAT <= path)
    ensures TargetFor(path).Some? && ZONE < Parts(TargetFor(path).value)
  {
    PartsOfJoined(p);
    if OFFICIAL <= path {
      ZonePrefixMeans(p);
    } else {
      ApicompatPathMirrored(path);
    }
  }

  lemma CopiedRowPaths(reader: PathReader, row: FileRow, planned: PlanRow, p: Path)
    requires p != [] && AreNames(p) && row.path == Joined(p) && '\\' !in row.path
    requires BuildRow(reader, row).Success? && Reviewed(BuildRow(reader, row).value, planned) && IsCopied(planned)
    ensures SourcePath(planned) == p && ZONE < TargetPath(planned)
  {
    PartsOfJoined(p);
    JoinedShape(p);
    DirectTargetInZone(row.path, p);
    TargetIsSafe(row.path);
  }

  /** A copied row of a fresh plan is about an official file, and its target lies inside the zone. */
  lemma FreshRowCopies(digest: Hasher, reader: PathReader, official: Node, right: map<string, Bytes>, row: FileRow, planned: PlanRow)
    requires WellFormed(official)
    requires var left := InventoryOf(official, AdmittedBy([]));
             row.path in left.Keys + right.Keys && row == RowFor(digest, reader, row.path, Get(left, row.path), Get(right, row.path))
    requires '\\' !in row.path && BuildRow(reader, row).Success? && Reviewed(BuildRow(reader, row).value, planned) && IsCopied(planned)
    ensures FileAt(official, SourcePath(planned)).Some? && ZONE < TargetPath(planned)
  {
    var left := InventoryOf(official, AdmittedBy([]));
    CopiedRowIsOfficial(digest, reader, planned, row.path, Get(left, row.path), Get(right, row.path));
    var p := InventoryKey(official, AdmittedBy([]), row.path);
    CopiedRowPaths(reader, row, planned, p);
  }

  /**
   * A reviewed fresh plan is applied to a worktree in full, every copied file standing at its target, if and only if every
   * direct candidate is approved, the targets can be written, and they keep apart.
   */
  lemma FreshPlanAppliesIff(digest: Hasher, reader: PathReader, official: Node, current: Node, prefixes: seq<string>,
                            files: seq<PlanRow>, tree: Node)
    requires WellFormed(official) && WellFormed(current) && Recordable(reader, official, current, prefixes) && tree.Dir?
    requires IsReviewedPlan(reader, RowsOfTrees(digest, reader, official, current, prefixes), files)
    ensures var ran := Run(official, tree, StepsOf(reader, files));
            ran.error.None? && (forall i | 0 <= i < |files| :: RowArrived(official, ran.tree, files[i])) <==>
            (forall i | 0 <= i < |files| :: !IsUnapproved(files[i])) &&
            (forall i | 0 <= i < |files| && IsCopied(files[i]) :: Writable(tree, TargetPath(files[i]))) && AllRowsApart(official, files)
  {
    var rows := RowsOfTrees(digest, reader, official, current, prefixes);
    ComparedAcceptedIff(digest, reader, official, AdmittedBy([]), current, AdmittedBy(prefixes));
    ReviewedRowsAreValid(reader, rows, files);
    forall i | 0 <= i < |files| && IsCopied(files[i]) ensures FileAt(official, SourcePath(files[i])).Some? && ZONE < TargetPath(files[i]) {
      var left, right := InventoryOf(official, AdmittedBy([])), InventoryOf(current, AdmittedBy(prefixes));
      ComparedRow(digest, reader, left, right, i);
      FreshRowCopies(digest, reader, official, right, rows[i], files[i]);
    }
    ApplySucceedsIff(reader, files, official, tree);
  }

  lemma ReviewedRowsAreValid(reader: PathReader, rows: seq<FileRow>, files: seq<PlanRow>)
    requires ValidFileRows(reader, rows) && IsReviewedPlan(reader, rows, files)
    ensures forall i | 0 <= i < |files| :: IsValidRow(reader, files[i])
  {
    forall i | 0 <= i < |files| ensures IsValidRow(reader, files[i]) {
      BuiltRowOk(reader, rows[i], files[i], map[rows[i].path := rows[i]]);
    }
  }

  /** In a fresh plan the action of a row says how the file at its path stands in the two trees. */
  lemma ActionsMean(digest: Hasher, reader: PathReader, official: Node, current: Node, prefixes: seq<string>, row: PlanRow, i: nat)
    requires WellFormed(official) && WellFormed(current)
    requires i < |RowsOfTrees(digest, reader, official, current, prefixes)|
    requires BuildRow(reader, RowsOfTrees(digest, reader, official, current, prefixes)[i]).Success?
    requires row == BuildRow(reader, RowsOfTrees(digest, reader, official, current, prefixes)[i]).value
    ensures var left, right := InventoryOf(official, AdmittedBy([])), InventoryOf(current, AdmittedBy(prefixes));
            var path := RowsOfTrees(digest, reader, official, current, prefixes)[i].path;
            && (path in left || path in right)
            && (row.action == Unchanged <==> path in left && path in right && digest(left[path]) == digest(right[path]))
            && (row.action == Candidate <==> path in left && (path in right ==> digest(left[path]) != digest(right[path])))
            && (row.action == Preserve <==> path !in left)
  {
    var left, right := InventoryOf(official, AdmittedBy([])), InventoryOf(current, AdmittedBy(prefixes));
    ComparedRow(digest, reader, left, right, i);
    var compared := RowsOfTrees(digest, reader, official, current, prefixes)[i];
    ActionOfRow(digest, reader, compared.path, Get(left, compared.path), Get(right, compared.path));
  }

  lemma ActionOfRow(digest: Hasher, reader: PathReader, path: string, left: Option<Bytes>, right: Option<Bytes>)
    requires left.Some? || right.Some?
    requires BuildRow(reader, RowFor(digest, reader, path, left, right)).Success?
    ensures var action := BuildRow(reader, RowFor(digest, reader, path, left, right)).value.action;
            && (action == Unchanged <==> left.Some? && right.Some? && digest(left.value) == digest(right.value))
            && (action == Candidate <==> left.Some? && (right.Some? ==> digest(left.value) != digest(right.value)))
            && (action == Preserve <==> left.None?)
  {
  }
}
