/** The file inventory: diffing two trees into rows, and the validators of such rows. */
module CompareTrees {
  import opened Wrappers
  import opened Text
  import opened FileTree
  import opened LineEndings
  import opened InventoryWalk
  import opened PathRules

  datatype State = Same | Different | OfficialOnly | CurrentOnly | OtherState(text: string)

  /** A row of files.csv, every field as the text that the CSV holds. */
  datatype FileRow = FileRow(
    path: string, state: State, category: Category, officialSha: string, currentSha: string, migration: string)

  function Get(m: map<string, Bytes>, k: string): Option<Bytes> {
    if k in m then Some(m[k]) else None
  }

  /** `migration_number(path) or ""`, as the CSV writer renders it: number 0 becomes the empty text. */
  function MigrationField(number: Option<nat>): string {
    match number
    case Some(n) => if n == 0 then "" else Decimal(n)
    case None => ""
  }

  function ShaField(digest: Hasher, content: Option<Bytes>): string {
    if content.Some? then digest(content.value) else ""
  }

  function StateOf(digest: Hasher, left: Option<Bytes>, right: Option<Bytes>): State {
    if left.None? then CurrentOnly
    else if right.None? then OfficialOnly
    else if digest(left.value) == digest(right.value) then Same
    else Different
  }

  function RowFor(digest: Hasher, reader: PathReader, path: string, left: Option<Bytes>, right: Option<Bytes>): FileRow {
    FileRow(path, StateOf(digest, left, right), reader.category(path), ShaField(digest, left), ShaField(digest, right), MigrationField(reader.number(path)))
  }

  function RowsOf(digest: Hasher, reader: PathReader, keys: seq<string>, official: map<string, Bytes>, current: map<string, Bytes>): (rows: seq<FileRow>)
    ensures |rows| == |keys|
  {
    seq(|keys|, i requires 0 <= i < |keys| => RowFor(digest, reader, keys[i], Get(official, keys[i]), Get(current, keys[i])))
  }

  function Compared(digest: Hasher, reader: PathReader, official: map<string, Bytes>, current: map<string, Bytes>): seq<FileRow> {
    RowsOf(digest, reader, Sorted(official.Keys + current.Keys), official, current)
  }

  method CompareFiles(digest: Hasher, reader: PathReader, official: map<string, Bytes>, current: map<string, Bytes>) returns (rows: seq<FileRow>)
    ensures rows == Compared(digest, reader, official, current)
  {
    var keys := Sorted(official.Keys + current.Keys);
    rows := [];
    for i := 0 to |keys|
      invariant rows == RowsOf(digest, reader, keys[..i], official, current)
    {
      rows := rows + [RowFor(digest, reader, keys[i], Get(official, keys[i]), Get(current, keys[i]))];
    }
    assert keys[..|keys|] == keys;
  }

  /** `compare_trees` */
  method CompareTrees(digest: Hasher, reader: PathReader, official: Node, current: Node, prefixes: seq<string>) returns (rows: seq<FileRow>)
    requires WellFormed(official) && WellFormed(current)
    ensures rows == Compared(digest, reader, InventoryOf(official, AdmittedBy([])), InventoryOf(current, AdmittedBy(prefixes)))
  {
    var officialFiles := InventoryFiles(official, []);
    var currentFiles := InventoryFiles(current, prefixes);
    rows := CompareFiles(digest, reader, officialFiles, currentFiles);
  }

  /** What a row claims about the file at `p`, in terms of the two trees alone. */
  ghost predicate RowIsAbout(digest: Hasher, reader: PathReader, row: FileRow, official: Node, left: Filter, current: Node, right: Filter, p: Path) {
    var inOfficial, inCurrent := Kept(official, left, p), Kept(current, right, p);
    p != [] && row.path == Joined(p) && (inOfficial || inCurrent) && row.category == reader.category(row.path) &&
    (row.state == OfficialOnly <==> !inCurrent) && (row.state == CurrentOnly <==> !inOfficial) &&
    (inOfficial && inCurrent ==>
       row.state == if digest(FileAt(official, p).value) == digest(FileAt(current, p).value) then Same else Different) &&
    row.officialSha == (if inOfficial then digest(FileAt(official, p).value) else "") &&
    row.currentSha == (if inCurrent then digest(FileAt(current, p).value) else "")
  }

  /** The rows of a comparison, path by path. */
  lemma ComparedRows(digest: Hasher, reader: PathReader, official: map<string, Bytes>, current: map<string, Bytes>)
    ensures var rows := Compared(digest, reader, official, current);
            && (forall i, j | 0 <= i < j < |rows| :: StrLess(rows[i].path, rows[j].path) && rows[i].path != rows[j].path)
            && (forall i | 0 <= i < |rows| :: rows[i].path in official.Keys + current.Keys &&
                  rows[i] == RowFor(digest, reader, rows[i].path, Get(official, rows[i].path), Get(current, rows[i].path)))
            && (forall k | k in official.Keys + current.Keys :: HasRowFor(rows, k))
  {
    var rows := Compared(digest, reader, official, current);
    forall i | 0 <= i < |rows|
      ensures rows[i].path in official.Keys + current.Keys
      ensures rows[i] == RowFor(digest, reader, rows[i].path, Get(official, rows[i].path), Get(current, rows[i].path))
    {
      ComparedRow(digest, reader, official, current, i);
    }
    forall i, j | 0 <= i < j < |rows| ensures StrLess(rows[i].path, rows[j].path) && rows[i].path != rows[j].path {
      ComparedRow(digest, reader, official, current, i);
      ComparedRow(digest, reader, official, current, j);
      SortedDistinct(Sorted(official.Keys + current.Keys), i, j);
    }
    forall k | k in official.Keys + current.Keys ensures HasRowFor(rows, k) {
      ComparedHasRow(digest, reader, official, current, k);
    }
  }

  lemma ComparedRow(digest: Hasher, reader: PathReader, official: map<string, Bytes>, current: map<string, Bytes>, i: nat)
    requires i < |Compared(digest, reader, official, current)|
    ensures var row, keys := Compared(digest, reader, official, current)[i], Sorted(official.Keys + current.Keys);
            i < |keys| == |Compared(digest, reader, official, current)| && row.path == keys[i] && keys[i] in official.Keys + current.Keys &&
            row == RowFor(digest, reader, keys[i], Get(official, keys[i]), Get(current, keys[i]))
  {
    var keys := Sorted(official.Keys + current.Keys);
    assert keys[i] in keys;
  }

  lemma ComparedHasRow(digest: Hasher, reader: PathReader, official: map<string, Bytes>, current: map<string, Bytes>, k: string)
    requires k in official.Keys + current.Keys
    ensures HasRowFor(Compared(digest, reader, official, current), k)
  {
    var keys := Sorted(official.Keys + current.Keys);
    assert k in keys;
    var i :| 0 <= i < |keys| && keys[i] == k;
    assert Compared(digest, reader, official, current)[i].path == k;
  }

  /** A row list has a row for `p`. */
  predicate HasRowFor(rows: seq<FileRow>, path: string) {
    exists i :: 0 <= i < |rows| && rows[i].path == path
  }

  /** Rows come in strictly increasing path order, and every path kept on either side has one. */
  lemma ComparedCovers(digest: Hasher, reader: PathReader, official: Node, left: Filter, current: Node, right: Filter, p: Path)
    requires WellFormed(official) && WellFormed(current)
    ensures var rows := Compared(digest, reader, InventoryOf(official, left), InventoryOf(current, right));
            && (forall i, j | 0 <= i < j < |rows| :: StrLess(rows[i].path, rows[j].path))
            && (Kept(official, left, p) || Kept(current, right, p) ==> HasRowFor(rows, Joined(p)))
  {
    ComparedRows(digest, reader, InventoryOf(official, left), InventoryOf(current, right));
    KeptIsKey(official, left, p);
    KeptIsKey(current, right, p);
  }

  /** Every row tells the truth about a path that is kept on one side at least. */
  lemma ComparedTellsTheTruth(digest: Hasher, reader: PathReader, official: Node, left: Filter, current: Node, right: Filter, i: nat)
    requires WellFormed(official) && WellFormed(current)
    requires i < |Compared(digest, reader, InventoryOf(official, left), InventoryOf(current, right))|
    ensures exists p :: RowIsAbout(digest, reader, Compared(digest, reader, InventoryOf(official, left), InventoryOf(current, right))[i],
                                   official, left, current, right, p)
  {
    var rows := Compared(digest, reader, InventoryOf(official, left), InventoryOf(current, right));
    ComparedRows(digest, reader, InventoryOf(official, left), InventoryOf(current, right));
    RowTruth(digest, reader, official, left, current, right, rows[i].path);
  }

  lemma KeptIsKey(root: Node, admit: Filter, p: Path)
    requires WellFormed(root)
    ensures Kept(root, admit, p) ==> Joined(p) in InventoryOf(root, admit)
  {
    if Kept(root, admit, p) {
      LookupNames(root, p);
      InventoryIff(root, admit, p);
    }
  }

  lemma RowTruth(digest: Hasher, reader: PathReader, official: Node, left: Filter, current: Node, right: Filter, key: string)
    requires WellFormed(official) && WellFormed(current)
    requires key in InventoryOf(official, left).Keys + InventoryOf(current, right).Keys
    ensures exists p :: RowIsAbout(digest, reader, RowFor(digest, reader, key, Get(InventoryOf(official, left), key), Get(InventoryOf(current, right), key)),
                                   official, left, current, right, p)
  {
    var p: Path;
    if key in InventoryOf(official, left) {
      p := InventoryKey(official, left, key);
    } else {
      p := InventoryKey(current, right, key);
    }
    InventoryIff(official, left, p);
    InventoryIff(current, right, p);
    assert RowIsAbout(digest, reader, RowFor(digest, reader, key, Get(InventoryOf(official, left), key), Get(InventoryOf(current, right), key)),
                      official, left, current, right, p);
  }

  // Validating rows

  function Duplicates(values: seq<string>): set<string> {
    set i, j | 0 <= i < j < |values| && values[i] == values[j] :: values[i]
  }

  /** `duplicate_values` */
  method DuplicateValues(values: seq<string>) returns (duplicates: seq<string>)
    ensures duplicates == Sorted(Duplicates(values))
  {
    var seen, found := {}, {};
    for i := 0 to |values|
      invariant forall v :: v in seen <==> v in values[..i]
      invariant found == Duplicates(values[..i])
    {
      assert values[..i + 1] == values[..i] + [values[i]];
      assert forall v :: v in Duplicates(values[..i + 1]) <==> v in Duplicates(values[..i]) || (v == values[i] && v in values[..i]) by {
        DuplicatesAppend(values[..i], values[i]);
      }
      if values[i] in seen {
        found := found + {values[i]};
      }
      seen := seen + {values[i]};
    }
    assert values[..|values|] == values;
    duplicates := Sorted(found);
  }

  lemma DuplicatesAppend(values: seq<string>, last: string)
    ensures forall v :: v in Duplicates(values + [last]) <==> v in Duplicates(values) || (v == last && last in values)
  {
    var more := values + [last];
    forall v | v in Duplicates(values) ensures v in Duplicates(more) {
      var i, j :| 0 <= i < j < |values| && values[i] == values[j] && values[i] == v;
      assert more[i] == more[j] == v;
    }
    if last in values {
      var i :| 0 <= i < |values| && values[i] == last;
      assert more[i] == more[|values|] == last;
    }
    forall v | v in Duplicates(more) ensures v in Duplicates(values) || (v == last && last in values) {
      var i, j :| 0 <= i < j < |more| && more[i] == more[j] && more[i] == v;
      if j < |values| {
        assert values[i] == values[j] == v;
      } else {
        assert values[i] == last;
      }
    }
  }

  predicate SafePath(path: string) {
    path != "" && '\\' !in path && !IsAbsolute(path) && ".." !in Parts(path)
  }

  predicate ValidContract(row: FileRow) {
    match row.state
    case Same => IsHexDigest(row.officialSha, 64) && row.officialSha == row.currentSha
    case Different => IsHexDigest(row.officialSha, 64) && IsHexDigest(row.currentSha, 64) && row.officialSha != row.currentSha
    case OfficialOnly => IsHexDigest(row.officialSha, 64) && row.currentSha == ""
    case CurrentOnly => row.officialSha == "" && IsHexDigest(row.currentSha, 64)
    case OtherState(_) => false
  }

  predicate ValidMigration(reader: PathReader, row: FileRow) {
    row.migration == match reader.number(row.path) case Some(n) => Decimal(n) case None => ""
  }

  predicate ValidRow(reader: PathReader, row: FileRow) {
    row.category.ForFiles() && ValidContract(row) && ValidMigration(reader, row)
  }

  predicate DistinctPaths(rows: seq<FileRow>) {
    forall i, j | 0 <= i < j < |rows| :: rows[i].path != rows[j].path
  }

  /** The row lists that `validate_file_rows` lets through. */
  predicate ValidFileRows(reader: PathReader, rows: seq<FileRow>) {
    DistinctPaths(rows) && forall i | 0 <= i < |rows| :: SafePath(rows[i].path) && ValidRow(reader, rows[i])
  }

  datatype FileRowsError =
    | DuplicatePaths(paths: seq<string>)
    | InvalidPaths(paths: seq<string>)
    | InvalidContracts(paths: seq<string>)

  function PathsOf(rows: seq<FileRow>): (paths: seq<string>)
    ensures |paths| == |rows| && forall i | 0 <= i < |rows| :: paths[i] == rows[i].path
  {
    seq(|rows|, i requires 0 <= i < |rows| => rows[i].path)
  }

  function UnsafePaths(rows: seq<FileRow>): set<string> {
    set i | 0 <= i < |rows| && !SafePath(rows[i].path) :: rows[i].path
  }

  function BrokenPaths(reader: PathReader, rows: seq<FileRow>): set<string> {
    set i | 0 <= i < |rows| && SafePath(rows[i].path) && !ValidRow(reader, rows[i]) :: rows[i].path
  }

  /** `validate_file_rows`: duplicates are reported before unsafe paths, those before broken rows. */
  method ValidateFileRows(reader: PathReader, rows: seq<FileRow>) returns (error: Option<FileRowsError>)
    ensures error.None? <==> ValidFileRows(reader, rows)
    ensures error.Some? && error.value.DuplicatePaths? ==> error.value.paths == Sorted(Duplicates(PathsOf(rows))) != []
    ensures error.Some? && error.value.InvalidPaths? ==>
              DistinctPaths(rows) && error.value.paths == Sorted(UnsafePaths(rows)) != []
    ensures error.Some? && error.value.InvalidContracts? ==>
              DistinctPaths(rows) && UnsafePaths(rows) == {} && error.value.paths == Sorted(BrokenPaths(reader, rows)) != []
  {
    var duplicates := DuplicateValues(PathsOf(rows));
    NoDuplicatesIff(rows);
    if duplicates != [] {
      assert duplicates[0] in duplicates;
      return Some(DuplicatePaths(duplicates));
    }
    assert DistinctPaths(rows) by {
      assert forall v | v in Duplicates(PathsOf(rows)) :: v in duplicates;
    }
    var invalidPaths, invalidContracts := {}, {};
    for i := 0 to |rows|
      invariant invalidPaths == UnsafePaths(rows[..i]) && invalidContracts == BrokenPaths(reader, rows[..i])
    {
      assert rows[..i + 1] == rows[..i] + [rows[i]];
      RowSetsAppend(reader, rows[..i], rows[i]);
      if !SafePath(rows[i].path) {
        invalidPaths := invalidPaths + {rows[i].path};
      } else if !ValidRow(reader, rows[i]) {
        invalidContracts := invalidContracts + {rows[i].path};
      }
    }
    assert rows[..|rows|] == rows;
    if invalidPaths != {} {
      var p :| p in invalidPaths;
      assert p in Sorted(invalidPaths);
      return Some(InvalidPaths(Sorted(invalidPaths)));
    }
    assert forall i | 0 <= i < |rows| :: rows[i].path in invalidPaths || SafePath(rows[i].path);
    if invalidContracts != {} {
      var p :| p in invalidContracts;
      assert p in Sorted(invalidContracts);
      return Some(InvalidContracts(Sorted(invalidContracts)));
    }
    assert forall i | 0 <= i < |rows| :: rows[i].path in invalidContracts || ValidRow(reader, rows[i]);
    return None;
  }

  lemma NoDuplicatesIff(rows: seq<FileRow>)
    ensures Duplicates(PathsOf(rows)) == {} <==> DistinctPaths(rows)
  {
    var paths := PathsOf(rows);
    if Duplicates(paths) == {} {
      forall i, j | 0 <= i < j < |rows| ensures rows[i].path != rows[j].path {
        var k := paths[i];
        assert k == paths[j] ==> k in Duplicates(paths);
      }
    }
  }

  lemma RowSetsAppend(reader: PathReader, rows: seq<FileRow>, last: FileRow)
    ensures UnsafePaths(rows + [last]) == UnsafePaths(rows) + if SafePath(last.path) then {} else {last.path}
    ensures BrokenPaths(reader, rows + [last]) == BrokenPaths(reader, rows) + if SafePath(last.path) && !ValidRow(reader, last) then {last.path} else {}
  {
    var more := rows + [last];
    assert more[|rows|] == last;
    assert forall i | 0 <= i < |rows| :: more[i] == rows[i];
  }

  // The differ against its validator

  lemma KeyIsSafe(root: Node, admit: Filter, key: string)
    requires WellFormed(root) && key in InventoryOf(root, admit)
    ensures SafePath(key) <==> '\\' !in key
  {
    var p := InventoryKey(root, admit, key);
    JoinedShape(p);
    PartsOfJoined(p);
    assert IsName(p[0]);
  }

  /** Fresh rows pass validation exactly when no path has a backslash and no migration is numbered 0. */
  lemma ComparedAcceptedIff(digest: Hasher, reader: PathReader, official: Node, left: Filter, current: Node, right: Filter)
    requires WellFormed(official) && WellFormed(current)
    ensures ValidFileRows(reader, Compared(digest, reader, InventoryOf(official, left), InventoryOf(current, right))) <==>
            forall k | k in InventoryOf(official, left).Keys + InventoryOf(current, right).Keys ::
              '\\' !in k && reader.number(k) != Some(0)
  {
    var officialFiles, currentFiles := InventoryOf(official, left), InventoryOf(current, right);
    forall k | k in officialFiles.Keys + currentFiles.Keys ensures SafePath(k) <==> '\\' !in k {
      if k in officialFiles {
        KeyIsSafe(official, left, k);
      } else {
        KeyIsSafe(current, right, k);
      }
    }
    ComparedValidIff(digest, reader, officialFiles, currentFiles);
  }

  lemma ComparedValidIff(digest: Hasher, reader: PathReader, official: map<string, Bytes>, current: map<string, Bytes>)
    ensures ValidFileRows(reader, Compared(digest, reader, official, current)) <==>
            forall k | k in official.Keys + current.Keys :: SafePath(k) && reader.number(k) != Some(0)
  {
    var rows := Compared(digest, reader, official, current);
    ComparedRows(digest, reader, official, current);
    forall i | 0 <= i < |rows| ensures ValidRow(reader, rows[i]) <==> reader.number(rows[i].path) != Some(0) {
      RowValidIff(digest, reader, rows[i].path, Get(official, rows[i].path), Get(current, rows[i].path));
    }
    AllRowsIffAllKeys(reader, rows, official.Keys + current.Keys);
  }

  lemma AllRowsIffAllKeys(reader: PathReader, rows: seq<FileRow>, keys: set<string>)
    requires forall i | 0 <= i < |rows| :: rows[i].path in keys
    requires forall k | k in keys :: HasRowFor(rows, k)
    requires DistinctPaths(rows)
    requires forall i | 0 <= i < |rows| :: ValidRow(reader, rows[i]) <==> reader.number(rows[i].path) != Some(0)
    ensures ValidFileRows(reader, rows) <==> forall k | k in keys :: SafePath(k) && reader.number(k) != Some(0)
  {
    if ValidFileRows(reader, rows) {
      forall k | k in keys ensures SafePath(k) && reader.number(k) != Some(0) {
        var i :| 0 <= i < |rows| && rows[i].path == k;
      }
    }
  }

  lemma RowValidIff(digest: Hasher, reader: PathReader, path: string, left: Option<Bytes>, right: Option<Bytes>)
    requires left.Some? || right.Some?
    ensures ValidRow(reader, RowFor(digest, reader, path, left, right)) <==> reader.number(path) != Some(0)
  {
    var row := RowFor(digest, reader, path, left, right);
    assert row.category.ForFiles();
    assert ValidContract(row);
  }

  // The validator against all comparisons

  /** The state and digests of a row are what some contents give under some hash function with digests of 64 hex digits. */
  ghost predicate IsPossible(row: FileRow) {
    exists digest: Hasher, left: Option<Bytes>, right: Option<Bytes> ::
      (left.Some? || right.Some?) && IsComparisonOf(digest, left, right, row)
  }

  predicate IsComparisonOf(digest: Hasher, left: Option<Bytes>, right: Option<Bytes>, row: FileRow) {
    row.state == StateOf(digest, left, right) && row.officialSha == ShaField(digest, left) && row.currentSha == ShaField(digest, right)
  }

  /** A hash function with one chosen value. */
  function HashWith(content: Bytes, chosen: string, other: string): (h: Hasher)
    requires IsHexDigest(chosen, 64) && IsHexDigest(other, 64)
    ensures forall b :: h(b) == if b == content then chosen else other
  {
    var h := (b: Bytes) => if b == content then chosen else other;
    assert forall b :: IsHexDigest(h(b), 64);
    h
  }

  /** The contract check accepts exactly the states and digests that some comparison could have produced. */
  lemma ContractIffPossible(row: FileRow)
    ensures ValidContract(row) <==> IsPossible(row)
  {
    if ValidContract(row) {
      PossibleWhenValid(row);
    }
  }

  lemma PossibleWhenValid(row: FileRow)
    requires ValidContract(row)
    ensures IsPossible(row)
  {
    var zeros := HexZeros([]);
    var left, right := if row.officialSha == "" then None else Some([0]), if row.currentSha == "" then None else Some([1]);
    var digest := HashWith([0], if row.officialSha == "" then zeros else row.officialSha, if row.currentSha == "" then zeros else row.currentSha);
    assert IsComparisonOf(digest, left, right, row);
  }

  /** A row is valid exactly when it is possible, its category is one of the file categories, and its migration field spells its number. */
  lemma ValidRowIff(reader: PathReader, row: FileRow)
    ensures ValidRow(reader, row) <==>
            IsPossible(row) && !row.category.OtherCategory? &&
            (if reader.number(row.path).None? then row.migration == ""
             else row.migration != "" && (forall c | c in row.migration :: IsDigit(c)) && row.migration == Decimal(ParseNat(row.migration)) &&
                  ParseNat(row.migration) == reader.number(row.path).value)
  {
    ContractIffPossible(row);
    if reader.number(row.path).Some? {
      ParseDecimal(reader.number(row.path).value);
    }
  }

  // Rows that are rejected

  /** What the migration field tells: the path's number, unless there is none or it is 0. */
  lemma MigrationFieldTells(number: Option<nat>)
    ensures MigrationField(number) == "" <==> number.None? || number == Some(0)
    ensures MigrationField(number) != "" ==> number == Some(ParseNat(MigrationField(number)))
  {
    if number.Some? {
      ParseDecimal(number.value);
    }
  }

  /** The migration fields of compared rows read back to the numbers of their paths, except that 0 is lost. */
  lemma ComparedMigrationsReadBack(digest: Hasher, reader: PathReader, official: map<string, Bytes>, current: map<string, Bytes>, i: nat)
    requires i < |Compared(digest, reader, official, current)|
    ensures var row := Compared(digest, reader, official, current)[i];
            && (row.migration == "" <==> reader.number(row.path) in {None, Some(0)})
            && (row.migration != "" ==>
                  (forall c | c in row.migration :: IsDigit(c)) && reader.number(row.path) == Some(ParseNat(row.migration)))
  {
    ComparedRow(digest, reader, official, current, i);
    MigrationFieldTells(reader.number(Compared(digest, reader, official, current)[i].path));
  }

  /** One kept file with a backslash in its path, or with migration number 0, is enough for the rows to be rejected. */
  lemma OneBadFileRejects(digest: Hasher, reader: PathReader, official: Node, current: Node, right: Filter, p: Path)
    requires WellFormed(official) && WellFormed(current) && Kept(current, right, p)
    requires '\\' in Joined(p) || reader.number(Joined(p)) == Some(0)
    ensures !ValidFileRows(reader, Compared(digest, reader, InventoryOf(official, AdmittedBy([])), InventoryOf(current, right)))
  {
    KeptIsKey(current, right, p);
    ComparedAcceptedIff(digest, reader, official, AdmittedBy([]), current, right);
    assert Joined(p) in InventoryOf(official, AdmittedBy([])).Keys + InventoryOf(current, right).Keys;
  }

  const MIGRATION_ZERO: Path := ["backend", "migrations", "0_a.sql"]

  lemma NotIgnoredByLetter(name: string)
    requires name != "" && name[0] in {'b', 'm', '0'}
    ensures !IsIgnoredPart(name) && !IsIgnoredFilename(name)
  {
  }

  lemma PlainIf(name: string)
    requires IsName(name) && '\\' !in name && name[0] in {'b', 'm', '0'} && (IsAllowedName(name) || '.' !in name)
    ensures IsPlainName(name)
  {
    NotIgnoredByLetter(name);
    if '.' !in name { NoDotNoSuffix(name); }
  }

  lemma DirectoriesArePlain()
    ensures IsPlainName("backend") && IsPlainName("migrations")
  {
    PlainIf("backend");
    PlainIf("migrations");
  }

  lemma SqlNameAllowed()
    ensures IsAllowedName("0_a.sql")
  {
    SuffixOf("0_a", "sql");
    assert "0_a" + "." + "sql" == "0_a.sql" && "." + "sql" == ".sql";
    assert Lower(".sql") == ".sql";
  }

  lemma SqlNameIsPlain()
    ensures IsPlainName("0_a.sql")
  {
    SqlNameAllowed();
    PlainIf("0_a.sql");
  }

  lemma ThreePlainNamesKept(a: string, b: string, c: string, content: Bytes)
    requires IsPlainName(a) && IsPlainName(b) && IsPlainName(c)
    ensures WellFormed(Nested([a, b, c], File(content))) && Kept(Nested([a, b, c], File(content)), AdmittedBy([]), [a, b, c])
  {
    PlainFileKept([a, b, c], content);
  }

  lemma MigrationZeroKept(content: Bytes)
    ensures WellFormed(Nested(MIGRATION_ZERO, File(content))) && Kept(Nested(MIGRATION_ZERO, File(content)), AdmittedBy([]), MIGRATION_ZERO)
  {
    DirectoriesArePlain();
    SqlNameIsPlain();
    ThreePlainNamesKept("backend", "migrations", "0_a.sql", content);
  }

  lemma MigrationZeroJoined()
    ensures Joined(MIGRATION_ZERO) == "backend" + "/" + ("migrations/" + "0_a.sql")
  {
    assert MIGRATION_ZERO[1..] == ["migrations", "0_a.sql"] && ["migrations", "0_a.sql"][1..] == ["0_a.sql"];
    assert "migrations" + "/" + "0_a.sql" == "migrations/" + "0_a.sql";
  }

  /** Compared with an empty tree, a migration numbered 0 gets a row with an empty migration field, and the rows are rejected. */
  lemma MigrationZeroRejected(digest: Hasher, tables: RuleTables, content: Bytes)
    ensures var reader, current := ReaderOf(tables), Nested(MIGRATION_ZERO, File(content));
            && WellFormed(current)
            && var rows := Compared(digest, reader, InventoryOf(Dir(map[]), AdmittedBy([])), InventoryOf(current, AdmittedBy([])));
               (exists i :: 0 <= i < |rows| && rows[i].path == Joined(MIGRATION_ZERO) && rows[i].migration == "") &&
               !ValidFileRows(reader, rows)
  {
    MigrationZeroKept(content);
    MigrationZeroJoined();
    MigrationZeroExists();
    ZeroRowRejected(digest, ReaderOf(tables), Nested(MIGRATION_ZERO, File(content)), MIGRATION_ZERO);
  }

  lemma ZeroRowRejected(digest: Hasher, reader: PathReader, current: Node, p: Path)
    requires WellFormed(current) && Kept(current, AdmittedBy([]), p) && reader.number(Joined(p)) == Some(0)
    ensures var rows := Compared(digest, reader, InventoryOf(Dir(map[]), AdmittedBy([])), InventoryOf(current, AdmittedBy([])));
            (exists i :: 0 <= i < |rows| && rows[i].path == Joined(p) && rows[i].migration == "") && !ValidFileRows(reader, rows)
  {
    var left, right := InventoryOf(Dir(map[]), AdmittedBy([])), InventoryOf(current, AdmittedBy([]));
    OneBadFileRejects(digest, reader, Dir(map[]), current, AdmittedBy([]), p);
    KeptIsKey(current, AdmittedBy([]), p);
    ComparedHasRow(digest, reader, left, right, Joined(p));
    var i :| 0 <= i < |Compared(digest, reader, left, right)| && Compared(digest, reader, left, right)[i].path == Joined(p);
    ComparedMigrationsReadBack(digest, reader, left, right, i);
  }

  /** A file with a backslash in its name is compared, and its row is rejected. */
  lemma BackslashRejected(digest: Hasher, reader: PathReader, content: Bytes)
    ensures var current := Nested(["a\\b"], File(content));
            && WellFormed(current)
            && !ValidFileRows(reader, Compared(digest, reader, InventoryOf(Dir(map[]), AdmittedBy([])), InventoryOf(current, AdmittedBy([]))))
  {
    BackslashFileKept(content);
    assert Joined(["a\\b"])[1] == '\\';
    OneBadFileRejects(digest, reader, Dir(map[]), Nested(["a\\b"], File(content)), AdmittedBy([]), ["a\\b"]);
  }

  // The current tree against its recorded rows

  /** `inventoried_current_files`: the last row of a path wins. */
  function Recorded(rows: seq<FileRow>): map<string, string> {
    if rows == [] then map[]
    else
      var last := rows[|rows| - 1];
      var before := Recorded(rows[..|rows| - 1]);
      if last.currentSha != "" then before[last.path := last.currentSha] else before
  }

  datatype TreeError =
    | MissingFromInventory(paths: seq<string>)
    | MissingFromTree(paths: seq<string>)
    | HashMismatch(paths: seq<string>)

  /** The recorded digests are exactly those of the files that the walk finds now. */
  predicate TreeMatches(digest: Hasher, rows: seq<FileRow>, files: map<string, Bytes>) {
    Recorded(rows).Keys == files.Keys && forall k | k in files :: digest(files[k]) == Recorded(rows)[k]
  }

  /** `validate_current_tree`; each error names exactly the offending paths. */
  method ValidateCurrentTree(digest: Hasher, rows: seq<FileRow>, current: Node, prefixes: seq<string>) returns (error: Option<TreeError>)
    requires WellFormed(current)
    ensures error.None? <==> TreeMatches(digest, rows, InventoryOf(current, AdmittedBy(prefixes)))
    ensures error.Some? ==> MismatchIs(Recorded(rows), Digests(digest, InventoryOf(current, AdmittedBy(prefixes))), error.value)
  {
    var files := InventoryFiles(current, prefixes);
    error := MatchTree(digest, rows, files);
  }

  /** The error fits the digests `recorded` and those found `now`. */
  predicate MismatchIs(recorded: map<string, string>, now: map<string, string>, error: TreeError) {
    match error
    case MissingFromInventory(paths) => paths == Sorted(now.Keys - recorded.Keys) != []
    case MissingFromTree(paths) => now.Keys <= recorded.Keys && paths == Sorted(recorded.Keys - now.Keys) != []
    case HashMismatch(paths) =>
      now.Keys == recorded.Keys && paths == Sorted(set k | k in now && now[k] != recorded[k]) != []
  }

  function Digests(digest: Hasher, files: map<string, Bytes>): map<string, string> {
    map k | k in files :: digest(files[k])
  }

  lemma SortedNonempty(keys: set<string>)
    requires keys != {}
    ensures Sorted(keys) != []
  {
    var k :| k in keys;
    assert k in Sorted(keys);
  }

  method MatchTree(digest: Hasher, rows: seq<FileRow>, files: map<string, Bytes>) returns (error: Option<TreeError>)
    ensures error.None? <==> TreeMatches(digest, rows, files)
    ensures error.Some? ==> MismatchIs(Recorded(rows), Digests(digest, files), error.value)
  {
    var recorded: map<string, string> := map[];
    for i := 0 to |rows|
      invariant recorded == Recorded(rows[..i])
    {
      assert rows[..i + 1][..i] == rows[..i];
      if rows[i].currentSha != "" {
        recorded := recorded[rows[i].path := rows[i].currentSha];
      }
    }
    assert rows[..|rows|] == rows;
    error := MatchRecorded(recorded, Digests(digest, files));
  }

  /** The three comparisons, given what is recorded and what the files hash to now. */
  method MatchRecorded(recorded: map<string, string>, now: map<string, string>) returns (error: Option<TreeError>)
    ensures error.None? <==> recorded == now
    ensures error.Some? ==> MismatchIs(recorded, now, error.value)
  {
    if now.Keys - recorded.Keys != {} {
      SortedNonempty(now.Keys - recorded.Keys);
      return Some(MissingFromInventory(Sorted(now.Keys - recorded.Keys)));
    }
    forall k | k in now.Keys ensures k in recorded.Keys {
      assert k !in now.Keys - recorded.Keys;
    }
    if recorded.Keys - now.Keys != {} {
      SortedNonempty(recorded.Keys - now.Keys);
      return Some(MissingFromTree(Sorted(recorded.Keys - now.Keys)));
    }
    assert recorded.Keys == now.Keys;
    var changed := set k | k in now && now[k] != recorded[k];
    if changed != {} {
      ghost var k :| k in changed;
      assert now[k] != recorded[k];
      SortedNonempty(changed);
      return Some(HashMismatch(Sorted(changed)));
    }
    assert forall k | k in now :: k !in changed;
    return None;
  }

  /** With distinct paths, row `i` decides alone what is recorded for its path. */
  lemma {:induction false} RecordedAt(rows: seq<FileRow>, i: nat)
    requires DistinctPaths(rows) && i < |rows|
    ensures rows[i].path in Recorded(rows) <==> rows[i].currentSha != ""
    ensures rows[i].currentSha != "" ==> Recorded(rows)[rows[i].path] == rows[i].currentSha
  {
    var init := rows[..|rows| - 1];
    if i < |init| {
      RecordedAt(init, i);
      assert init[i] == rows[i];
    } else {
      assert !HasRowFor(init, rows[i].path) by {
        assert forall j | 0 <= j < |init| :: init[j] == rows[j];
      }
      RecordedOnlyRows(init, rows[i].path);
    }
  }

  lemma {:induction false} RecordedOnlyRows(rows: seq<FileRow>, k: string)
    ensures k in Recorded(rows) ==> HasRowFor(rows, k)
  {
    if rows != [] {
      var init := rows[..|rows| - 1];
      RecordedOnlyRows(init, k);
      if HasRowFor(init, k) {
        var i :| 0 <= i < |init| && init[i].path == k;
        assert rows[i].path == k;
      }
    }
  }

  lemma RecordedKey(digest: Hasher, rows: seq<FileRow>, current: map<string, Bytes>, k: string)
    requires DistinctPaths(rows) && (k in current ==> HasRowFor(rows, k))
    requires forall i | 0 <= i < |rows| ::
               rows[i].currentSha == if rows[i].path in current then digest(current[rows[i].path]) else ""
    ensures k in Recorded(rows) <==> k in current
    ensures k in current ==> Recorded(rows)[k] == digest(current[k])
  {
    RecordedOnlyRows(rows, k);
    if HasRowFor(rows, k) {
      var i :| 0 <= i < |rows| && rows[i].path == k;
      RecordedAt(rows, i);
    }
  }

  lemma RecordedIs(digest: Hasher, rows: seq<FileRow>, current: map<string, Bytes>)
    requires DistinctPaths(rows)
    requires forall i | 0 <= i < |rows| ::
               rows[i].currentSha == if rows[i].path in current then digest(current[rows[i].path]) else ""
    requires forall k | k in current :: HasRowFor(rows, k)
    ensures Recorded(rows) == map k | k in current :: digest(current[k])
  {
    forall k ensures k in Recorded(rows) <==> k in current
             ensures k in current ==> Recorded(rows)[k] == digest(current[k])
    {
      RecordedKey(digest, rows, current, k);
    }
  }

  /** The rows of a comparison record the current inventory, file by file. */
  lemma ComparedRecords(digest: Hasher, reader: PathReader, official: map<string, Bytes>, current: map<string, Bytes>)
    ensures Recorded(Compared(digest, reader, official, current)) == map k | k in current :: digest(current[k])
  {
    var rows := Compared(digest, reader, official, current);
    ComparedRows(digest, reader, official, current);
    forall k | k in current ensures HasRowFor(rows, k) {
      assert k in official.Keys + current.Keys;
    }
    RecordedIs(digest, rows, current);
  }

  /** Rows generated from one tree accept another tree exactly when the walks find the same paths with the same digests. */
  lemma DriftDetectedIff(digest: Hasher, reader: PathReader, official: map<string, Bytes>, earlier: map<string, Bytes>, now: map<string, Bytes>)
    ensures TreeMatches(digest, Compared(digest, reader, official, earlier), now) <==>
            earlier.Keys == now.Keys && forall k | k in now :: digest(earlier[k]) == digest(now[k])
  {
    ComparedRecords(digest, reader, official, earlier);
    var recorded := Recorded(Compared(digest, reader, official, earlier));
    assert recorded.Keys == earlier.Keys;
    assert forall k | k in earlier :: recorded[k] == digest(earlier[k]);
  }

  /** A text file without CR-LF of its own and any CR-LF rewriting of it are always reported `same`. */
  lemma {:induction false} RewrittenLineEndingsAreSame(
      sha: Hasher, reader: PathReader, official: map<string, Bytes>, current: map<string, Bytes>, path: string, pick: seq<bool>)
    requires path in official && path in current
    requires IsText(official[path]) && !HasCrLf(official[path])
    requires |pick| == |official[path]| && current[path] == Expand(official[path], pick)
    ensures var rows := Compared(FileDigest(sha), reader, official, current);
            exists i :: 0 <= i < |rows| && rows[i].path == path && rows[i].state == Same
  {
    var rows := Compared(FileDigest(sha), reader, official, current);
    LineEndingsDoNotMatter(sha, official[path], pick);
    ComparedHasRow(FileDigest(sha), reader, official, current, path);
    var i :| 0 <= i < |rows| && rows[i].path == path;
    ComparedRow(FileDigest(sha), reader, official, current, i);
  }

  // Paths

  lemma {:induction false} SignificantHas(raw: seq<string>, part: string)
    requires part != "" && part != "."
    ensures part in Significant(raw) <==> part in raw
  {
    if raw != [] {
      SignificantHas(raw[1..], part);
      assert raw == [raw[0]] + raw[1..];
    }
  }

  /** A path is safe when it is not empty, has no backslash, does not start with a slash, and has no component `..`. */
  lemma SafePathIff(path: string)
    ensures SafePath(path) <==> path != "" && '\\' !in path && path[0] != '/' && ".." !in Split(path, '/')
  {
    SignificantHas(Split(path, '/'), "..");
  }
}
