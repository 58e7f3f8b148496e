/** Validating a plan document, alone or against the inventory it was built from. */
module PlanDocument {
  import opened Wrappers
  import opened Text
  import opened FileTree
  import opened PathRules
  import opened CompareTrees
  import opened SyncPlan

  /** `files` is `None` when the document's entry is not a list. */
  datatype Document = Document(
    baseTag: Option<string>, targetTag: Option<string>, targetCommit: Option<string>,
    sourceRoot: Option<string>, files: Option<seq<PlanRow>>)

  datatype DocumentError =
    | MissingIdentity | MovingReference | BadCommit | SameTags | NoSourceRoot | FilesNotAList | EmptyInventory
    | UnsafePath(path: string) | DuplicatePath(path: string) | PathMismatch(path: string)
    | SyncRefused(path: string, reason: SyncError) | InvalidAction(path: string) | ApprovalNotBoolean(path: string)
    | UnsafeTarget(path: string) | TargetOutsideZone(path: string) | UnexpectedTarget(path: string)
    | NotInInventory(path: string) | FieldMismatch(path: string)
    | CoverageMismatch(missing: seq<string>, extra: seq<string>)

  predicate AllDigits(s: string) {
    s != "" && forall c | c in s :: IsDigit(c)
  }

  /** `^v\d+\.\d+\.\d+$` */
  predicate IsTag(s: string) {
    s != "" && s[0] == 'v' &&
    var parts := Split(s[1..], '.');
    |parts| == 3 && forall i | 0 <= i < 3 :: AllDigits(parts[i])
  }

  /** `build_sync_plan`: the identity of a plan. */
  function IdentityError(doc: Document): Option<DocumentError> {
    if doc.baseTag.None? || doc.targetTag.None? || doc.targetCommit.None? then Some(MissingIdentity)
    else if !IsTag(doc.baseTag.value) || !IsTag(doc.targetTag.value) then Some(MovingReference)
    else if !IsHexDigest(doc.targetCommit.value, 40) then Some(BadCommit)
    else if doc.baseTag.value == doc.targetTag.value then Some(SameTags)
    else None
  }

  predicate HeaderOk(doc: Document) {
    IdentityError(doc).None? && doc.sourceRoot.Some? && doc.sourceRoot.value != "" && doc.files.Some?
  }

  /** The first objection to anything but the rows. */
  function HeaderError(doc: Document): Option<DocumentError> {
    if IdentityError(doc).Some? then IdentityError(doc)
    else if doc.sourceRoot.None? || doc.sourceRoot.value == "" then Some(NoSourceRoot)
    else if doc.files.None? then Some(FilesNotAList)
    else None
  }

  /** `row.get("source_path", row.get("path", ""))` */
  function SourceOf(row: PlanRow): string {
    if row.sourcePath.Some? then row.sourcePath.value else if row.path.Some? then row.path.value else ""
  }

  function PlanPath(row: PlanRow): string {
    Slashes(SourceOf(row))
  }

  /** `_validate_relative_path`, on POSIX. */
  predicate SafeRelative(normalized: string) {
    normalized != "" && !IsAbsolute(normalized) && ".." !in Parts(normalized)
  }

  /** `{row.get("path", ""): row for row in inventory_files}`: the last row of a path wins. */
  function ByPath(rows: seq<FileRow>): map<string, FileRow> {
    if rows == [] then map[] else ByPath(rows[..|rows| - 1])[rows[|rows| - 1].path := rows[|rows| - 1]]
  }

  predicate SameFields(row: PlanRow, expected: FileRow) {
    row.state == expected.state && row.category == expected.category && row.officialSha == expected.officialSha &&
    row.currentSha == expected.currentSha && row.migration == expected.migration
  }

  predicate TargetOk(row: PlanRow) {
    if row.disposition == DirectSync then SafeRelative(Slashes(row.targetPath)) && OFFICIAL <= Slashes(row.targetPath)
    else row.targetPath == ""
  }

  /** What is asked of one row, duplicates aside. */
  predicate RowOk(reader: PathReader, row: PlanRow, inventory: Option<map<string, FileRow>>) {
    SafeRelative(PlanPath(row)) && (row.path.Some? ==> row.path.value == PlanPath(row)) &&
    ValidateSyncPath(reader, PlanPath(row), row.disposition, row.handling).None? &&
    !row.action.OtherAction? && !row.approved.NoBoolean? && TargetOk(row) &&
    (inventory.Some? ==> PlanPath(row) in inventory.value && SameFields(row, inventory.value[PlanPath(row)]))
  }

  function PathSet(files: seq<PlanRow>): set<string> {
    set i | 0 <= i < |files| :: PlanPath(files[i])
  }

  predicate DistinctPlanPaths(files: seq<PlanRow>) {
    forall i, j | 0 <= i < j < |files| :: PlanPath(files[i]) != PlanPath(files[j])
  }

  function IndexOfRows(rows: Option<seq<FileRow>>): Option<map<string, FileRow>> {
    if rows.Some? then Some(ByPath(rows.value)) else None
  }

  /** The documents that `validate_sync_plan_document` lets through. */
  predicate ValidDocument(reader: PathReader, doc: Document, inventory: Option<seq<FileRow>>) {
    HeaderOk(doc) && (inventory.Some? ==> inventory.value != []) &&
    (forall i | 0 <= i < |doc.files.value| :: RowOk(reader, doc.files.value[i], IndexOfRows(inventory))) &&
    DistinctPlanPaths(doc.files.value) &&
    (inventory.Some? ==> PathSet(doc.files.value) == ByPath(inventory.value).Keys)
  }

  /** The first objection to one row, in the order in which the checks are made. */
  function RowError(reader: PathReader, seen: set<string>, row: PlanRow, inventory: Option<map<string, FileRow>>): Option<DocumentError> {
    var path := PlanPath(row);
    var objection := ValidateSyncPath(reader, path, row.disposition, row.handling);
    if !SafeRelative(path) then Some(UnsafePath(path))
    else if path in seen then Some(DuplicatePath(path))
    else if row.path.Some? && row.path.value != path then Some(PathMismatch(path))
    else if objection.Some? then Some(SyncRefused(path, objection.value))
    else if row.action.OtherAction? then Some(InvalidAction(path))
    else if row.approved.NoBoolean? then Some(ApprovalNotBoolean(path))
    else if row.disposition == DirectSync && !SafeRelative(Slashes(row.targetPath)) then Some(UnsafeTarget(path))
    else if row.disposition == DirectSync && !(OFFICIAL <= Slashes(row.targetPath)) then Some(TargetOutsideZone(path))
    else if row.disposition != DirectSync && row.targetPath != "" then Some(UnexpectedTarget(path))
    else if inventory.Some? && path !in inventory.value then Some(NotInInventory(path))
    else if inventory.Some? && !SameFields(row, inventory.value[path]) then Some(FieldMismatch(path))
    else None
  }

  /** `validate_sync_plan_document` */
  method ValidateDocument(reader: PathReader, doc: Document, inventory: Option<seq<FileRow>>) returns (error: Option<DocumentError>)
    ensures error.None? <==> ValidDocument(reader, doc, inventory)
    ensures !HeaderOk(doc) ==> error == HeaderError(doc)
    ensures HeaderOk(doc) && error == Some(EmptyInventory) ==> inventory == Some([])
    ensures HeaderOk(doc) && error.Some? && error.value.CoverageMismatch? ==>
              inventory.Some? && IsCoverageGap(PathSet(doc.files.value), ByPath(inventory.value).Keys, error.value) &&
              (forall i | 0 <= i < |doc.files.value| :: RowOk(reader, doc.files.value[i], IndexOfRows(inventory)))
    ensures HeaderOk(doc) && error.Some? && !error.value.EmptyInventory? && !error.value.CoverageMismatch? ==>
              exists k :: 0 <= k < |doc.files.value| &&
                RowError(reader, PathSet(doc.files.value[..k]), doc.files.value[k], IndexOfRows(inventory)) == error &&
                forall j | 0 <= j < k ::
                  RowError(reader, PathSet(doc.files.value[..j]), doc.files.value[j], IndexOfRows(inventory)).None?
  {
    var identity := IdentityError(doc);
    if identity.Some? {
      return identity;
    }
    if doc.sourceRoot.None? || doc.sourceRoot.value == "" {
      return Some(NoSourceRoot);
    }
    if doc.files.None? {
      return Some(FilesNotAList);
    }
    var files := doc.files.value;
    var byPath := IndexOfRows(inventory);
    if byPath.Some? && byPath.value == map[] {
      ByPathEmptyIff(inventory.value);
      return Some(EmptyInventory);
    }
    if inventory.Some? { ByPathEmptyIff(inventory.value); }
    error := FirstObjection(files, (seen, row) => RowError(reader, seen, row, byPath));
    AllRowsOkIff(reader, files, byPath);
    if error.None? && byPath.Some? && PathSet(files) != byPath.value.Keys {
      var missing, extra := byPath.value.Keys - PathSet(files), PathSet(files) - byPath.value.Keys;
      OkRowsAreInventoried(reader, files, byPath.value);
      SortedNonempty(missing);
      return Some(CoverageMismatch(Sorted(missing), Sorted(extra)));
    }
  }

  /** The inventory paths that are not planned, all of them; planned paths outside the inventory have been refused before. */
  predicate IsCoverageGap(planned: set<string>, inventoried: set<string>, error: DocumentError) {
    error.CoverageMismatch? && error.missing == Sorted(inventoried - planned) != [] && error.extra == []
  }

  lemma OkRowsAreInventoried(reader: PathReader, files: seq<PlanRow>, byPath: map<string, FileRow>)
    requires forall i | 0 <= i < |files| :: RowOk(reader, files[i], Some(byPath))
    ensures PathSet(files) - byPath.Keys == {} && Sorted(PathSet(files) - byPath.Keys) == []
    ensures PathSet(files) != byPath.Keys ==> byPath.Keys - PathSet(files) != {}
  {
    forall i | 0 <= i < |files| ensures PlanPath(files[i]) in byPath.Keys {
      OkRowHasFields(reader, files[i], byPath);
    }
    if byPath.Keys - PathSet(files) == {} {
      forall k | k in byPath.Keys ensures k in PathSet(files) {
        assert k !in byPath.Keys - PathSet(files);
      }
    }
  }

  /** The row loop, which grows `seen` and stops at the first objection. */
  method FirstObjection(files: seq<PlanRow>, check: (set<string>, PlanRow) -> Option<DocumentError>) returns (error: Option<DocumentError>)
    ensures error.None? ==> forall k | 0 <= k < |files| :: check(PathSet(files[..k]), files[k]).None?
    ensures error.Some? ==> exists k :: 0 <= k < |files| && check(PathSet(files[..k]), files[k]) == error &&
                              forall j | 0 <= j < k :: check(PathSet(files[..j]), files[j]).None?
  {
    var seen := {};
    for i := 0 to |files|
      invariant seen == PathSet(files[..i])
      invariant forall k | 0 <= k < i :: check(PathSet(files[..k]), files[k]).None?
    {
      PathSetAppend(files, i);
      var objection := check(seen, files[i]);
      if objection.Some? {
        return objection;
      }
      seen := seen + {PlanPath(files[i])};
    }
    return None;
  }

  predicate IsRowError(error: Option<DocumentError>) {
    error.Some? ==> !error.value.EmptyInventory? && !error.value.CoverageMismatch?
  }

  lemma AllRowsOkIff(reader: PathReader, files: seq<PlanRow>, byPath: Option<map<string, FileRow>>)
    ensures (forall k | 0 <= k < |files| :: RowError(reader, PathSet(files[..k]), files[k], byPath).None?) <==>
            DistinctPlanPaths(files) && forall i | 0 <= i < |files| :: RowOk(reader, files[i], byPath)
    ensures forall k | 0 <= k < |files| ::
              IsRowError(RowError(reader, PathSet(files[..k]), files[k], byPath))
  {
    forall k | 0 <= k < |files|
      ensures RowError(reader, PathSet(files[..k]), files[k], byPath).None? <==>
                RowOk(reader, files[k], byPath) && PlanPath(files[k]) !in PathSet(files[..k])
      ensures IsRowError(RowError(reader, PathSet(files[..k]), files[k], byPath))
    {
      RowErrorMeans(reader, PathSet(files[..k]), files[k], byPath);
    }
    DistinctIff(files);
  }

  lemma {:induction false} DistinctIff(files: seq<PlanRow>)
    ensures DistinctPlanPaths(files) <==> forall k | 0 <= k < |files| :: PlanPath(files[k]) !in PathSet(files[..k])
  {
    if DistinctPlanPaths(files) {
      forall k | 0 <= k < |files| ensures PlanPath(files[k]) !in PathSet(files[..k]) {
        assert forall j | 0 <= j < k :: files[..k][j] == files[j];
      }
    } else {
      var j, k :| 0 <= j < k < |files| && PlanPath(files[j]) == PlanPath(files[k]);
      assert PlanPath(files[..k][j]) in PathSet(files[..k]);
    }
  }

  lemma ByPathEmptyIff(rows: seq<FileRow>)
    ensures ByPath(rows) == map[] <==> rows == []
  {
    if rows != [] {
      assert rows[|rows| - 1].path in ByPath(rows);
    }
  }

  lemma PathSetAppend(files: seq<PlanRow>, i: nat)
    requires i < |files|
    ensures PathSet(files[..i + 1]) == PathSet(files[..i]) + {PlanPath(files[i])}
  {
    var more, less := files[..i + 1], files[..i];
    assert more == less + [files[i]];
    forall k | 0 <= k < i ensures PlanPath(more[k]) in PathSet(more) && PlanPath(less[k]) in PathSet(less) {}
    assert PlanPath(more[i]) in PathSet(more);
  }

  lemma RowErrorMeans(reader: PathReader, seen: set<string>, row: PlanRow, byPath: Option<map<string, FileRow>>)
    ensures RowError(reader, seen, row, byPath).None? <==> RowOk(reader, row, byPath) && PlanPath(row) !in seen
    ensures IsRowError(RowError(reader, seen, row, byPath))
  {
  }

  // A built plan passes its own validator

  /** `row` is `built` after a maintainer has decided on its approval. */
  predicate Reviewed(built: PlanRow, row: PlanRow) {
    !row.approved.NoBoolean? && row == built.(approved := row.approved)
  }

  /** The directories of the Official Runtime zone. */
  const ZONE: Path := ["backend", "internal", "runtime", "sub2api", "upstream"]

  lemma JoinedCons(name: string, rest: Path)
    requires rest != []
    ensures Joined([name] + rest) == name + "/" + Joined(rest)
  {
    assert ([name] + rest)[1..] == rest;
  }

  lemma JoinedFour(a: string, b: string, c: string, d: string)
    ensures Joined([a, b, c, d]) == a + "/" + (b + "/" + (c + "/" + d))
  {
    JoinedCons(a, [b, c, d]);
    JoinedCons(b, [c, d]);
    JoinedCons(c, [d]);
    assert [a] + [b, c, d] == [a, b, c, d] && [b] + [c, d] == [b, c, d] && [c] + [d] == [c, d];
    assert Joined([d]) == d;
  }

  lemma JoinedFive(a: string, b: string, c: string, d: string, e: string)
    ensures Joined([a, b, c, d, e]) == a + "/" + (b + "/" + (c + "/" + (d + "/" + e)))
  {
    JoinedFour(b, c, d, e);
    JoinedCons(a, [b, c, d, e]);
    assert [a] + [b, c, d, e] == [a, b, c, d, e];
  }

  lemma ZoneText()
    ensures "backend" + "/" + ("internal" + "/" + ("runtime" + "/" + ("sub2api" + "/" + "upstream"))) + "/" == OFFICIAL
  {
  }

  lemma ZoneJoined()
    ensures Joined(ZONE) + "/" == OFFICIAL
  {
    JoinedFive("backend", "internal", "runtime", "sub2api", "upstream");
    ZoneText();
  }

  lemma ZoneNames()
    ensures AreNames(ZONE) && Parts(Joined(ZONE)) == ZONE
  {
    PartsOfJoined(ZONE);
  }

  /** The components of a path below the zone prefix. */
  lemma PartsBelowZone(rest: string)
    ensures Parts(OFFICIAL + rest) == ZONE + Parts(rest)
  {
    ZoneJoined();
    ZoneNames();
    PartsConcat(Joined(ZONE), rest);
  }

  const APICOMPAT_DIR: Path := ["backend", "internal", "pkg", "apicompat"]

  lemma ApicompatText()
    ensures "backend" + "/" + ("internal" + "/" + ("pkg" + "/" + "apicompat")) + "/" == APICOMPAT
  {
  }

  lemma ApicompatJoined()
    ensures Joined(APICOMPAT_DIR) + "/" == APICOMPAT
  {
    JoinedFour("backend", "internal", "pkg", "apicompat");
    ApicompatText();
  }

  lemma ApicompatNames()
    ensures AreNames(APICOMPAT_DIR) && Parts(Joined(APICOMPAT_DIR)) == APICOMPAT_DIR
    ensures Parts("apicompat") == ["apicompat"]
  {
    PartsOfJoined(APICOMPAT_DIR);
    PartsOfJoined(["apicompat"]);
  }

  /** Components of an apicompat source. */
  lemma PartsOfApicompat(rest: string)
    ensures Parts(APICOMPAT + rest) == APICOMPAT_DIR + Parts(rest)
  {
    ApicompatJoined();
    ApicompatNames();
    PartsConcat(Joined(APICOMPAT_DIR), rest);
  }

  lemma ApicompatTargetParts(rest: string)
    ensures Parts(APICOMPAT_TARGET + rest) == ["apicompat"] + Parts(rest)
  {
    ApicompatNames();
    PartsConcat("apicompat", rest);
    assert APICOMPAT_TARGET == "apicompat" + "/";
  }

  /** Components of the target of an apicompat source. */
  lemma PartsOfApicompatTarget(rest: string)
    ensures Parts(OFFICIAL + (APICOMPAT_TARGET + rest)) == ZONE + (["apicompat"] + Parts(rest))
  {
    ApicompatTargetParts(rest);
    PartsBelowZone(APICOMPAT_TARGET + rest);
  }

  lemma TargetIsSafe(path: string)
    requires '\\' !in path && SafeRelative(path) && TargetFor(path).Some?
    ensures '\\' !in TargetFor(path).value && SafeRelative(TargetFor(path).value) && OFFICIAL <= TargetFor(path).value
  {
    if !(OFFICIAL <= path) {
      var rest := path[|APICOMPAT|..];
      assert path == APICOMPAT + rest;
      PartsOfApicompat(rest);
      MirrorIsSafe(rest);
    }
  }

  lemma MirrorIsSafe(rest: string)
    requires '\\' !in rest && ".." !in Parts(rest)
    ensures var target := OFFICIAL + (APICOMPAT_TARGET + rest);
            '\\' !in target && SafeRelative(target) && OFFICIAL <= target
  {
    PartsOfApicompatTarget(rest);
    NoDotsInZone();
    NotInConcat(ZONE, ["apicompat"], Parts(rest), "..");
    MirrorLetters(rest);
  }

  lemma MirrorLetters(rest: string)
    requires '\\' !in rest
    ensures var target := OFFICIAL + (APICOMPAT_TARGET + rest);
            '\\' !in target && target[0] == 'b'
  {
    assert '\\' !in OFFICIAL && '\\' !in APICOMPAT_TARGET;
  }

  lemma NotInConcat(a: Path, b: Path, c: Path, part: string)
    requires part !in a && part !in b && part !in c
    ensures part !in a + (b + c)
  {
  }

  lemma NoDotsInZone()
    ensures ".." !in ZONE && ".." !in ["apicompat"]
  {
  }

  lemma {:induction false} ByPathOf(rows: seq<FileRow>)
    requires DistinctPaths(rows)
    ensures forall i | 0 <= i < |rows| :: rows[i].path in ByPath(rows) && ByPath(rows)[rows[i].path] == rows[i]
    ensures forall k | k in ByPath(rows) :: exists i :: 0 <= i < |rows| && rows[i].path == k
  {
    if rows != [] {
      ByPathOf(rows[..|rows| - 1]);
      assert forall i | 0 <= i < |rows| - 1 :: rows[..|rows| - 1][i] == rows[i];
    }
  }

  lemma BuiltRowOk(reader: PathReader, row: FileRow, planned: PlanRow, index: map<string, FileRow>)
    requires SafePath(row.path) && row.path in index && index[row.path] == row
    requires BuildRow(reader, row).Success? && Reviewed(BuildRow(reader, row).value, planned)
    ensures PlanPath(planned) == row.path && RowOk(reader, planned, Some(index))
  {
    assert Slashes(row.path) == row.path;
    if planned.disposition == DirectSync {
      TargetIsSafe(row.path);
      assert Slashes(planned.targetPath) == planned.targetPath;
    }
  }

  /** A plan built from valid rows, whatever approvals a maintainer then sets, validates against those same rows. */
  lemma BuiltPlanValidates(reader: PathReader, rows: seq<FileRow>, plan: seq<PlanRow>, doc: Document)
    requires rows != [] && ValidFileRows(reader, rows) && IsPlanOf(reader, rows, plan)
    requires HeaderOk(doc) && |doc.files.value| == |plan|
    requires forall i | 0 <= i < |plan| :: Reviewed(plan[i], doc.files.value[i])
    ensures ValidDocument(reader, doc, Some(rows))
  {
    var files := doc.files.value;
    ByPathOf(rows);
    forall i | 0 <= i < |files| ensures PlanPath(files[i]) == rows[i].path && RowOk(reader, files[i], Some(ByPath(rows))) {
      BuiltRowOk(reader, rows[i], files[i], ByPath(rows));
    }
    PathSetIsKeys(rows, files);
  }

  lemma PathSetIsKeys(rows: seq<FileRow>, files: seq<PlanRow>)
    requires DistinctPaths(rows) && |files| == |rows|
    requires forall i | 0 <= i < |files| :: PlanPath(files[i]) == rows[i].path
    ensures PathSet(files) == ByPath(rows).Keys && DistinctPlanPaths(files)
  {
    ByPathOf(rows);
    forall k | k in ByPath(rows).Keys ensures k in PathSet(files) {
      var i :| 0 <= i < |rows| && rows[i].path == k;
      assert PlanPath(files[i]) in PathSet(files);
    }
  }

  /** `path` is planned by row `k` and by no other. */
  predicate PlannedOnceAt(files: seq<PlanRow>, path: string, k: int) {
    0 <= k < |files| && PlanPath(files[k]) == path && forall j | 0 <= j < |files| && j != k :: PlanPath(files[j]) != path
  }

  lemma PlannedOnce(files: seq<PlanRow>, path: string)
    requires DistinctPlanPaths(files) && path in PathSet(files)
    ensures exists k :: PlannedOnceAt(files, path, k)
  {
    var k :| 0 <= k < |files| && PlanPath(files[k]) == path;
    assert PlannedOnceAt(files, path, k);
  }

  lemma {:induction false} PlanPathCount(files: seq<PlanRow>)
    requires DistinctPlanPaths(files)
    ensures |PathSet(files)| == |files|
  {
    if files != [] {
      var n := |files| - 1;
      PlanPathCount(files[..n]);
      PathSetAppend(files, n);
      assert files[..n + 1] == files;
      DistinctIff(files);
      assert PlanPath(files[n]) !in PathSet(files[..n]);
    }
  }

  lemma {:induction false} ByPathCount(rows: seq<FileRow>)
    requires DistinctPaths(rows)
    ensures |ByPath(rows)| == |rows|
  {
    if rows != [] {
      var n := |rows| - 1;
      ByPathCount(rows[..n]);
      ByPathOf(rows[..n]);
      assert forall i | 0 <= i < n :: rows[..n][i] == rows[i];
      assert rows[n].path !in ByPath(rows[..n]);
    }
  }

  lemma OkRowHasFields(reader: PathReader, row: PlanRow, index: map<string, FileRow>)
    requires RowOk(reader, row, Some(index))
    ensures PlanPath(row) in index && SameFields(row, index[PlanPath(row)])
  {
  }

  /** A document that validates against distinct rows plans every inventory path exactly once, with the inventory's own fields. */
  lemma ValidatedPlanCoversInventory(reader: PathReader, doc: Document, rows: seq<FileRow>, i: nat)
    requires DistinctPaths(rows) && ValidDocument(reader, doc, Some(rows)) && i < |rows|
    ensures |doc.files.value| == |rows|
    ensures exists k :: PlannedOnceAt(doc.files.value, rows[i].path, k) &&
              var row := doc.files.value[k];
              row.state == rows[i].state && row.category == rows[i].category && row.officialSha == rows[i].officialSha &&
              row.currentSha == rows[i].currentSha && row.migration == rows[i].migration
  {
    var files := doc.files.value;
    ByPathOf(rows);
    PlanPathCount(files);
    ByPathCount(rows);
    assert |ByPath(rows).Keys| == |ByPath(rows)|;
    PlannedOnce(files, rows[i].path);
    var k :| PlannedOnceAt(files, rows[i].path, k);
    OkRowHasFields(reader, files[k], ByPath(rows));
  }

  // What the checks ask for

  lemma SafeRelativeIff(normalized: string)
    ensures SafeRelative(normalized) <==> normalized != "" && normalized[0] != '/' && ".." !in Split(normalized, '/')
  {
    SignificantHas(Split(normalized, '/'), "..");
  }

  /** `v` and three numbers with dots between them. */
  ghost predicate IsVersion(s: string) {
    exists a, b, c :: IsNumeral(a) && IsNumeral(b) && IsNumeral(c) && s == "v" + Join([a, b, c], '.')
  }

  predicate IsNumeral(s: string) {
    s != "" && forall c | c in s :: c in "0123456789"
  }

  lemma NumeralIff(s: string)
    ensures AllDigits(s) <==> IsNumeral(s)
  {
    forall c ensures IsDigit(c) <==> c in "0123456789" {}
  }

  lemma TagIff(s: string)
    ensures IsTag(s) <==> IsVersion(s)
  {
    if IsTag(s) {
      var parts := Split(s[1..], '.');
      JoinSplit(s[1..], '.');
      assert parts == [parts[0], parts[1], parts[2]];
      NumeralIff(parts[0]);
      NumeralIff(parts[1]);
      NumeralIff(parts[2]);
      assert s == "v" + s[1..];
    }
    if a, b, c :| IsNumeral(a) && IsNumeral(b) && IsNumeral(c) && s == "v" + Join([a, b, c], '.') {
      NumeralIff(a);
      NumeralIff(b);
      NumeralIff(c);
      SplitJoin([a, b, c], '.');
      assert s[1..] == Join([a, b, c], '.');
    }
  }

  /** The header of a document is in order when both tags are different versions, the commit is a SHA, and root and files are there. */
  lemma HeaderOkIff(doc: Document)
    ensures HeaderOk(doc) <==>
            doc.baseTag.Some? && doc.targetTag.Some? && doc.targetCommit.Some? && IsVersion(doc.baseTag.value) && IsVersion(doc.targetTag.value) &&
            |doc.targetCommit.value| == 40 && (forall c | c in doc.targetCommit.value :: c in "0123456789abcdef") &&
            doc.baseTag.value != doc.targetTag.value && doc.sourceRoot.Some? && doc.sourceRoot.value != "" && doc.files.Some?
  {
    if doc.baseTag.Some? { TagIff(doc.baseTag.value); }
    if doc.targetTag.Some? { TagIff(doc.targetTag.value); }
    if doc.targetCommit.Some? { HexDigestIff(doc.targetCommit.value, 40); }
  }

  /** The source of a row: its own entry, or the path entry, or nothing. */
  lemma SourceFallsBack(row: PlanRow)
    ensures SourceOf(row) == match row.sourcePath case Some(p) => p case None => match row.path case Some(p) => p case None => ""
  {
  }

  /** The error of a row names a check that the row fails. */
  lemma RowErrorNames(reader: PathReader, seen: set<string>, row: PlanRow, inventory: Option<map<string, FileRow>>)
    ensures var path, target := Slashes(SourceOf(row)), Slashes(row.targetPath);
            match RowError(reader, seen, row, inventory)
            case None => true
            case Some(UnsafePath(p)) => p == path && !SafeRelative(path)
            case Some(DuplicatePath(p)) => p == path && path in seen
            case Some(PathMismatch(p)) => p == path && row.path.Some? && row.path.value != path
            case Some(SyncRefused(p, why)) => p == path && ValidateSyncPath(reader, path, row.disposition, row.handling) == Some(why)
            case Some(InvalidAction(p)) => p == path && row.action != Unchanged && row.action != Candidate && row.action != Preserve
            case Some(ApprovalNotBoolean(p)) => p == path && row.approved != Approved && row.approved != NotApproved
            case Some(UnsafeTarget(p)) => p == path && row.disposition == DirectSync && !SafeRelative(target)
            case Some(TargetOutsideZone(p)) =>
              p == path && row.disposition == DirectSync && SafeRelative(target) && !("backend/internal/runtime/sub2api/upstream/" <= target)
            case Some(UnexpectedTarget(p)) => p == path && row.disposition != DirectSync && row.targetPath != ""
            case Some(NotInInventory(p)) => p == path && inventory.Some? && path !in inventory.value
            case Some(FieldMismatch(p)) =>
              p == path && inventory.Some? && path in inventory.value &&
              var e := inventory.value[path];
              (row.state != e.state || row.category != e.category || row.officialSha != e.officialSha || row.currentSha != e.currentSha ||
               row.migration != e.migration)
            case _ => false
  {
  }
}
