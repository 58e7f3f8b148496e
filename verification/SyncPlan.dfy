/** Building the sync plan from inventory rows, and validating a plan document. */
module SyncPlan {
  import opened Wrappers
  import opened Text
  import opened FileTree
  import opened PathRules
  import opened CompareTrees

  /** OFFICIAL_RUNTIME_PREFIX */
  const OFFICIAL: string := "backend/internal/runtime/sub2api/upstream/"
  const APICOMPAT: string := "backend/internal/pkg/apicompat/"
  const APICOMPAT_TARGET: string := "apicompat/"

  datatype Action = Unchanged | Candidate | Preserve | OtherAction(text: string)

  /** `approved` as found in the document: a JSON boolean or anything else. */
  datatype Approval = Approved | NotApproved | NoBoolean

  /** A plan row; a missing text field reads as the empty text, a missing path field is `None`. */
  datatype PlanRow = PlanRow(
    path: Option<string>, sourcePath: Option<string>, targetPath: string, state: State, category: Category,
    disposition: Disposition, action: Action, officialSha: string, currentSha: string, migration: string,
    handling: Handling, approved: Approval)

  // Building

  function DispositionFor(path: string, category: Category): Disposition {
    var normalized := Slashes(path);
    if BRIDGE_PREFIX <= normalized then AdapterPort
    else if OFFICIAL <= normalized || APICOMPAT <= normalized then DirectSync
    else if category.RuntimeProtocol? || category.RuntimeProvider? || category.Test? then AdapterPort
    else if category.ProductCore? then ProductcoreMapping
    else NotRuntime
  }

  function TargetFor(path: string): Option<string> {
    var normalized := Slashes(path);
    if OFFICIAL <= normalized then Some(normalized)
    else if APICOMPAT <= normalized then Some(OFFICIAL + (APICOMPAT_TARGET + normalized[|APICOMPAT|..]))
    else None
  }

  function ActionFor(state: State): Option<Action> {
    match state
    case Same => Some(Unchanged)
    case Different => Some(Candidate)
    case OfficialOnly => Some(Candidate)
    case CurrentOnly => Some(Preserve)
    case OtherState(_) => None
  }

  datatype PlanError = Refused(path: string, reason: SyncError) | InvalidState(path: string) | NoTarget(path: string)

  function BuildRow(reader: PathReader, row: FileRow): Result<PlanRow, PlanError> {
    var disposition := DispositionFor(row.path, row.category);
    var objection := ValidateSyncPath(reader, row.path, disposition, NoHandling);
    if objection.Some? then Failure(Refused(row.path, objection.value))
    else if ActionFor(row.state).None? then Failure(InvalidState(row.path))
    else if disposition == DirectSync && TargetFor(row.path).None? then Failure(NoTarget(row.path))
    else
      Success(PlanRow(
        Some(Slashes(row.path)), Some(Slashes(row.path)), if disposition == DirectSync then TargetFor(row.path).value else "",
        row.state, row.category, disposition, ActionFor(row.state).value,
        row.officialSha, row.currentSha, row.migration, NoHandling, NotApproved))
  }

  /** `plan` holds, row by row, what each inventory row becomes. */
  predicate IsPlanOf(reader: PathReader, rows: seq<FileRow>, plan: seq<PlanRow>) {
    |plan| == |rows| && forall i | 0 <= i < |rows| :: BuildRow(reader, rows[i]) == Success(plan[i])
  }

  /** `build_file_plan`: one plan row per inventory row, or the error of the first row that has one. */
  method BuildFilePlan(reader: PathReader, rows: seq<FileRow>) returns (r: Result<seq<PlanRow>, PlanError>)
    ensures r.Success? ==> IsPlanOf(reader, rows, r.value)
    ensures r.Failure? ==> exists k :: 0 <= k < |rows| && BuildRow(reader, rows[k]) == Failure(r.error) &&
                             forall i | 0 <= i < k :: BuildRow(reader, rows[i]).Success?
  {
    var planned := [];
    for i := 0 to |rows|
      invariant IsPlanOf(reader, rows[..i], planned)
    {
      var built := BuildRow(reader, rows[i]);
      if built.Failure? {
        assert forall j | 0 <= j < i :: rows[..i][j] == rows[j];
        return Failure(built.error);
      }
      planned := planned + [built.value];
    }
    assert rows[..|rows|] == rows;
    return Success(planned);
  }

  lemma PrefixesDiffer(s: string, p: string, q: string, k: nat)
    requires p <= s && k < |p| && k < |q| && p[k] != q[k]
    ensures !(q <= s)
  {
    assert s[k] == p[k];
  }

  /** The branches of the classifier that a direct-sync path can reach all lead to a runtime category. */
  lemma DirectPathIsRuntime(tables: RuleTables, normalized: string)
    requires OFFICIAL <= normalized || APICOMPAT <= normalized
    requires '\\' !in normalized
    ensures !(BRIDGE_PREFIX <= normalized)
    ensures ClassifyPath(tables, normalized).RuntimeProtocol? || ClassifyPath(tables, normalized).RuntimeProvider?
  {
    var p := if OFFICIAL <= normalized then OFFICIAL else APICOMPAT;
    PrefixesDiffer(normalized, p, BRIDGE_PREFIX, 8);
    PrefixesDiffer(normalized, p, "backend/migrations/", 8);
    PrefixesDiffer(normalized, p, "backend/ent/", 8);
    PrefixesDiffer(normalized, p, "frontend/", 0);
    if APICOMPAT <= normalized {
      assert RUNTIME_PROTOCOL_PREFIXES[0] <= normalized;
    } else {
      assert OFFICIAL[..25] == "backend/internal/runtime/";
      assert normalized[..25] == OFFICIAL[..25];
      assert RUNTIME_PROVIDER_PREFIXES[0] <= normalized;
    }
  }

  lemma SlashesTwice(path: string)
    ensures Slashes(Slashes(path)) == Slashes(path)
  {
  }

  /** No path ever given direct_sync is turned away by the RuntimeBridge or ProductCore ownership checks. */
  lemma {:induction false} DirectSyncIsNeverOwned(tables: RuleTables, path: string, category: Category, handling: Handling)
    requires DispositionFor(path, category) == DirectSync
    ensures var objection := ValidateSyncPath(ReaderOf(tables), path, DirectSync, handling);
            objection != Some(BridgeNeedsReview) && objection != Some(ProductCoreOwned)
  {
    DirectPathIsRuntime(tables, Slashes(path));
  }

  lemma DirectSyncHasTarget(path: string, category: Category)
    requires DispositionFor(path, category) == DirectSync
    ensures TargetFor(path).Some?
  {
  }

  lemma BuildRowFailsWhen(reader: PathReader, row: FileRow)
    requires DispositionFor(row.path, row.category) == DirectSync ==>
               var objection := ValidateSyncPath(reader, row.path, DirectSync, NoHandling);
               objection != Some(BridgeNeedsReview) && objection != Some(ProductCoreOwned)
    ensures BuildRow(reader, row).Failure? <==>
            row.state.OtherState? ||
            (reader.number(Slashes(row.path)).Some? &&
             (DispositionFor(row.path, row.category) == DirectSync || DispositionFor(row.path, row.category) == AdapterPort))
  {
    if DispositionFor(row.path, row.category) == DirectSync {
      DirectSyncHasTarget(row.path, row.category);
    }
  }

  /** A row fails exactly when its state is unknown or it is a migration about to be copied or ported. */
  lemma BuildRowFailsIff(tables: RuleTables, row: FileRow)
    ensures BuildRow(ReaderOf(tables), row).Failure? <==>
            row.state.OtherState? ||
            (MigrationNumber(row.path).Some? &&
             (DispositionFor(row.path, row.category) == DirectSync || DispositionFor(row.path, row.category) == AdapterPort))
  {
    if DispositionFor(row.path, row.category) == DirectSync {
      DirectSyncIsNeverOwned(tables, row.path, row.category, NoHandling);
    }
    BuildRowFailsWhen(ReaderOf(tables), row);
    SlashesTwice(row.path);
    assert ReaderOf(tables).number(Slashes(row.path)) == MigrationNumber(row.path);
  }

  lemma BuildFilePlanFailsIff(tables: RuleTables, rows: seq<FileRow>)
    ensures (exists plan :: IsPlanOf(ReaderOf(tables), rows, plan)) <==>
            forall i | 0 <= i < |rows| ::
              !rows[i].state.OtherState? &&
              (MigrationNumber(rows[i].path).Some? ==>
                 DispositionFor(rows[i].path, rows[i].category) != DirectSync &&
                 DispositionFor(rows[i].path, rows[i].category) != AdapterPort)
  {
    forall i | 0 <= i < |rows|
      ensures BuildRow(ReaderOf(tables), rows[i]).Failure? <==>
              rows[i].state.OtherState? ||
              (MigrationNumber(rows[i].path).Some? &&
               (DispositionFor(rows[i].path, rows[i].category) == DirectSync || DispositionFor(rows[i].path, rows[i].category) == AdapterPort))
    {
      BuildRowFailsIff(tables, rows[i]);
    }
    if forall i | 0 <= i < |rows| :: BuildRow(ReaderOf(tables), rows[i]).Success? {
      var plan := seq(|rows|, i requires 0 <= i < |rows| => BuildRow(ReaderOf(tables), rows[i]).value);
      assert IsPlanOf(ReaderOf(tables), rows, plan);
    }
  }

  /** What a built row says, field by field. */
  lemma BuiltRowFields(reader: PathReader, row: FileRow, planned: PlanRow)
    requires BuildRow(reader, row) == Success(planned)
    ensures var s := Slashes(row.path);
            var direct := "backend/internal/runtime/sub2api/upstream/" <= s || "backend/internal/pkg/apicompat/" <= s;
            var ported := row.category == RuntimeProtocol || row.category == RuntimeProvider || row.category == Test;
            && planned.path == Some(s) && planned.sourcePath == Some(s) && planned.approved == NotApproved && planned.handling == NoHandling
            && planned.state == row.state && planned.category == row.category && planned.migration == row.migration
            && planned.officialSha == row.officialSha && planned.currentSha == row.currentSha
            && planned.disposition ==
               (if "backend/pkg/runtimebridge/v1/" <= s then AdapterPort
                else if direct then DirectSync
                else if ported then AdapterPort
                else if row.category == ProductCore then ProductcoreMapping
                else NotRuntime)
            && (planned.action == Unchanged <==> row.state == Same)
            && (planned.action == Candidate <==> row.state == Different || row.state == OfficialOnly)
            && (planned.action == Preserve <==> row.state == CurrentOnly)
            && (planned.disposition != DirectSync ==> planned.targetPath == "")
            && (planned.disposition == DirectSync ==>
                  planned.targetPath ==
                    if "backend/internal/runtime/sub2api/upstream/" <= s then s
                    else "backend/internal/runtime/sub2api/upstream/apicompat/" + s[|"backend/internal/pkg/apicompat/"|..])
  {
    if planned.disposition == DirectSync && !(OFFICIAL <= Slashes(row.path)) {
      MirrorText(Slashes(row.path)[|APICOMPAT|..]);
    }
  }

  lemma MirrorText(rest: string)
    ensures OFFICIAL + (APICOMPAT_TARGET + rest) == "backend/internal/runtime/sub2api/upstream/apicompat/" + rest
  {
    assert OFFICIAL + APICOMPAT_TARGET == "backend/internal/runtime/sub2api/upstream/apicompat/";
    assert OFFICIAL + (APICOMPAT_TARGET + rest) == (OFFICIAL + APICOMPAT_TARGET) + rest;
  }
}
