/** Path classification, migration names and the ownership gate of the sync tools. */
module PathRules {
  import opened Wrappers
  import opened Text

  // The vocabularies of the CSV and JSON fields; any text outside a vocabulary is kept as `Other…`.

  datatype Category =
    | Database | Documentation | FrontendProduct | Infrastructure | Merge | ProductCore
    | RuntimeProtocol | RuntimeProvider | Test | NeedsReview | OtherCategory(text: string)
  {
    /** FILE_CATEGORIES */
    predicate ForFiles() { !OtherCategory? }

    /** COMMIT_CATEGORIES */
    predicate ForCommits() { !OtherCategory? && !NeedsReview? }
  }

  type FileCategory = c: Category | c.ForFiles() witness NeedsReview

  datatype Disposition =
    | DirectSync | AdapterPort | XcodeEquivalent | ProductcoreMapping | NotRuntime | OtherDisposition(text: string)

  datatype Handling = NoHandling | DirectSql | OtherHandling(text: string)

  datatype SyncError =
    | InvalidDisposition | DirectSqlForbidden | MigrationNeedsTranslation | BridgeNeedsReview | ProductCoreOwned

  // Classification

  /** One entry of a marker table: the prefixes that give a category. */
  datatype Rule = Rule(category: FileCategory, prefixes: seq<string>)

  /**
   * The three marker tables for paths below service/, handler/ and repository/, and the decision for every path
   * that the earlier branches leave open.
   */
  datatype RuleTables = RuleTables(service: seq<Rule>, handler: seq<Rule>, repository: seq<Rule>, rest: string -> FileCategory)

  predicate StartsWithAny(s: string, prefixes: seq<string>) {
    exists i | 0 <= i < |prefixes| :: prefixes[i] <= s
  }

  const RUNTIME_PROTOCOL_PREFIXES: seq<string> := [
    "backend/internal/pkg/apicompat/",
    "backend/internal/pkg/openai/",
    "backend/internal/pkg/xai/",
    "backend/internal/applicationgateway/",
    "backend/internal/gatewayruntime/",
    "backend/internal/runtimebridge/",
    "backend/pkg/runtimebridge/",
    "backend/internal/handler/runtime_",
    "backend/internal/service/gateway_",
    "backend/internal/server/routes/gateway.go"
  ]

  const RUNTIME_PROVIDER_PREFIXES: seq<string> := [
    "backend/internal/runtime/",
    "backend/internal/handler/openai_",
    "backend/internal/handler/grok_",
    "backend/internal/handler/gemini_",
    "backend/internal/service/openai_",
    "backend/internal/service/grok_",
    "backend/internal/service/gemini_",
    "backend/internal/service/antigravity_",
    "backend/internal/handler/sub2api_",
    "backend/internal/pkg/antigravity/",
    "backend/internal/pkg/anthropicfp/",
    "backend/internal/pkg/claude/",
    "backend/internal/pkg/gemini/",
    "backend/internal/pkg/geminicli/",
    "backend/internal/pkg/googleapi/",
    "backend/internal/pkg/oauth/",
    "backend/internal/pkg/openai_compat/",
    "backend/internal/pkg/tlsfingerprint/",
    "backend/internal/pkg/websearch/",
    "backend/internal/repository/openai_",
    "backend/internal/service/account_"
  ]

  function FirstRule(rules: seq<Rule>, relative: string): Option<FileCategory> {
    if rules == [] then None
    else if StartsWithAny(relative, rules[0].prefixes) then Some(rules[0].category)
    else FirstRule(rules[1..], relative)
  }

  function ByTable(tables: RuleTables, normalized: string): Option<FileCategory> {
    if "backend/internal/service/" <= normalized then FirstRule(tables.service, normalized[25..])
    else if "backend/internal/handler/" <= normalized then FirstRule(tables.handler, normalized[25..])
    else if "backend/internal/repository/" <= normalized then FirstRule(tables.repository, normalized[28..])
    else None
  }

  function ClassifyPath(tables: RuleTables, path: string): FileCategory {
    var normalized := Slashes(path);
    if "backend/migrations/" <= normalized || "backend/ent/" <= normalized then Database
    else if "frontend/" <= normalized then FrontendProduct
    else if StartsWithAny(normalized, RUNTIME_PROTOCOL_PREFIXES) then RuntimeProtocol
    else if StartsWithAny(normalized, RUNTIME_PROVIDER_PREFIXES) then RuntimeProvider
    else
      match ByTable(tables, normalized)
      case Some(category) => category
      case None => tables.rest(normalized)
  }

  // Migration names: `(?:^|/)migrations/(\d+)[a-zA-Z_].*\.sql$`

  predicate IsWordStart(c: char) {
    'a' <= c <= 'z' || 'A' <= c <= 'Z' || c == '_'
  }

  function DigitsEnd(s: string, k: nat): (e: nat)
    requires k <= |s|
    ensures k <= e <= |s| && forall i | k <= i < e :: IsDigit(s[i])
    ensures e < |s| ==> !IsDigit(s[e])
    decreases |s| - k
  {
    if k < |s| && IsDigit(s[k]) then DigitsEnd(s, k + 1) else k
  }

  /** `.*\.sql$`: the dot stops at line breaks and the anchor also matches before a final one. */
  predicate SqlTail(t: string) {
    (EndsWith(t, ".sql") && '\n' !in t) || (EndsWith(t, ".sql\n") && '\n' !in t[..|t| - 1])
  }

  /** The pattern from `migrations/` on, matched at the front of `t`. */
  function NumberHere(t: string): Option<nat> {
    if "migrations/" <= t then
      var k := DigitsEnd(t, 11);
      if 11 < k < |t| && IsWordStart(t[k]) && SqlTail(t[k + 1..]) then Some(ParseNat(t[11..k])) else None
    else None
  }

  /** `re.search` in what is left of the text: the leftmost match, which starts the text or follows a slash. */
  function Search(here: string -> Option<nat>, t: string, atBoundary: bool): Option<nat>
    decreases |t|
  {
    if atBoundary && here(t).Some? then here(t)
    else if t == "" then None
    else Search(here, t[1..], t[0] == '/')
  }

  function MigrationNumber(path: string): Option<nat> {
    Search(NumberHere, Slashes(path), true)
  }

  lemma DigitsEndAt(head: string, digits: string, c: char, tail: string, k: nat)
    requires forall d | d in digits :: IsDigit(d)
    requires !IsDigit(c) && |head| <= k <= |head| + |digits|
    ensures DigitsEnd(head + digits + [c] + tail, k) == |head| + |digits|
    decreases |head| + |digits| - k
  {
    var s := head + digits + [c] + tail;
    if k < |head| + |digits| {
      assert s[k] == digits[k - |head|];
      DigitsEndAt(head, digits, c, tail, k + 1);
    } else {
      assert s[k] == c;
    }
  }

  lemma SqlTailOf(stem: string)
    requires '\n' !in stem
    ensures SqlTail(stem + ".sql")
  {
    var t := stem + ".sql";
    assert t[|t| - 4..] == ".sql";
    assert forall i | 0 <= i < |stem| :: t[i] == stem[i];
  }

  lemma NumberOfName(digits: string, c: char, tail: string)
    requires digits != "" && forall d | d in digits :: IsDigit(d)
    requires IsWordStart(c) && SqlTail(tail)
    ensures NumberHere("migrations/" + digits + [c] + tail) == Some(ParseNat(digits))
  {
    var head := "migrations/";
    var s := head + digits + [c] + tail;
    var k := 11 + |digits|;
    DigitsEndAt(head, digits, c, tail, 11);
    assert s[11..k] == digits;
    assert s[k + 1..] == tail;
  }

  /** A directory in front of a path is skipped, unless the pattern matches right at it. */
  lemma {:induction false} SearchSkips(dir: string, rest: string, atBoundary: bool)
    requires '/' !in dir && (atBoundary ==> NumberHere(dir + "/" + rest).None?)
    ensures Search(NumberHere, dir + "/" + rest, atBoundary) == Search(NumberHere, rest, true)
  {
    var s := dir + "/" + rest;
    if dir == "" {
      assert s[1..] == rest;
    } else {
      assert s[0] == dir[0] && s[1..] == dir[1..] + "/" + rest;
      SearchSkips(dir[1..], rest, false);
    }
  }

  lemma NoMatchAt(dir: string, rest: string)
    requires '/' !in dir && dir != "migrations"
    ensures NumberHere(dir + "/" + rest).None?
  {
    FirstPieceIs("migrations", dir, '/', rest);
    assert "migrations" + "/" == "migrations/";
  }

  /** Directories joined in front of a path, each followed by a slash. */
  function Below(dirs: seq<string>, path: string): string {
    if dirs == [] then path else dirs[0] + "/" + Below(dirs[1..], path)
  }

  /** No match starts at one of the directories; only one called `migrations` could start any. */
  predicate NoEarlierMatch(dirs: seq<string>, path: string) {
    forall i | 0 <= i < |dirs| :: '/' !in dirs[i] && (dirs[i] == "migrations" ==> NumberHere(Below(dirs[i..], path)).None?)
  }

  lemma {:induction false} SearchBelow(dirs: seq<string>, path: string)
    requires NoEarlierMatch(dirs, path)
    ensures Search(NumberHere, Below(dirs, path), true) == Search(NumberHere, path, true)
  {
    if dirs != [] {
      var rest := dirs[1..];
      assert dirs[0..] == dirs;
      if dirs[0] != "migrations" {
        NoMatchAt(dirs[0], Below(rest, path));
      }
      SearchSkips(dirs[0], Below(rest, path), true);
      assert forall i | 0 <= i < |rest| :: rest[i] == dirs[i + 1] && rest[i..] == dirs[i + 1..];
      SearchBelow(rest, path);
    }
  }

  lemma {:induction false} BelowHasNoBackslash(dirs: seq<string>, path: string)
    requires (forall d | d in dirs :: '\\' !in d) && '\\' !in path
    ensures '\\' !in Below(dirs, path)
  {
    if dirs != [] {
      assert dirs[0] in dirs;
      BelowHasNoBackslash(dirs[1..], path);
    }
  }

  /** The file name of a migration: its number, one letter or underscore, anything, and the suffix. */
  function MigrationName(digits: string, c: char, stem: string): string {
    digits + [c] + (stem + ".sql")
  }

  lemma MigrationNameIsPlain(digits: string, c: char, stem: string)
    requires (forall d | d in digits :: IsDigit(d)) && IsWordStart(c) && '\\' !in stem
    ensures '\\' !in "migrations/" + MigrationName(digits, c, stem)
  {
    assert '\\' !in digits && '\\' !in ".sql";
  }

  /**
   * A migration file carries the number that its digits spell, leading zeros ignored, below any directories at which no
   * earlier match starts.
   */
  lemma CanonicalMigrationNumber(dirs: seq<string>, digits: string, c: char, stem: string)
    requires (forall d | d in dirs :: '\\' !in d) && NoEarlierMatch(dirs, "migrations/" + MigrationName(digits, c, stem))
    requires digits != "" && forall d | d in digits :: IsDigit(d)
    requires IsWordStart(c) && '\n' !in stem && '\\' !in stem
    ensures MigrationNumber(Below(dirs, "migrations/" + MigrationName(digits, c, stem))) == Some(ParseNat(digits))
  {
    var path := "migrations/" + MigrationName(digits, c, stem);
    SqlTailOf(stem);
    NumberOfName(digits, c, stem + ".sql");
    assert path == "migrations/" + digits + [c] + (stem + ".sql");
    SearchBelow(dirs, path);
    MigrationNameIsPlain(digits, c, stem);
    BelowHasNoBackslash(dirs, path);
  }

  // Exactly which paths carry a number

  /** `t` is `migrations/`, a number, a letter or underscore, anything on that line, and `.sql`, with perhaps a final line feed. */
  ghost predicate IsMigrationText(t: string, digits: string, c: char, stem: string) {
    digits != "" && (forall d | d in digits :: '0' <= d <= '9') && ('a' <= c <= 'z' || 'A' <= c <= 'Z' || c == '_') && '\n' !in stem &&
    (t == "migrations/" + digits + [c] + (stem + ".sql") || t == "migrations/" + digits + [c] + (stem + ".sql\n"))
  }

  ghost predicate HasNumber(t: string, n: nat) {
    exists digits, c, stem :: IsMigrationText(t, digits, c, stem) && ParseNat(digits) == n
  }

  lemma SqlTailSplits(t: string)
    requires SqlTail(t)
    ensures exists stem :: '\n' !in stem && (t == stem + ".sql" || t == stem + ".sql\n")
  {
    if EndsWith(t, ".sql") && '\n' !in t {
      var stem := t[..|t| - 4];
      assert t == stem + ".sql";
    } else {
      var stem := t[..|t| - 5];
      assert forall i | 0 <= i < |stem| :: stem[i] == t[..|t| - 1][i];
      assert t == stem + ".sql\n";
    }
  }

  lemma SqlTailWithBreak(stem: string)
    requires '\n' !in stem
    ensures SqlTail(stem + ".sql\n")
  {
    var t := stem + ".sql\n";
    assert t[|t| - 5..] == ".sql\n" && t[..|t| - 1] == stem + ".sql";
  }

  lemma NumberHereSplits(t: string) returns (digits: string, c: char, tail: string)
    requires NumberHere(t).Some?
    ensures t == "migrations/" + digits + [c] + tail && SqlTail(tail) && IsWordStart(c)
    ensures digits != "" && (forall d | d in digits :: IsDigit(d)) && NumberHere(t) == Some(ParseNat(digits))
  {
    var k := DigitsEnd(t, 11);
    digits, c, tail := t[11..k], t[k], t[k + 1..];
  }

  lemma NumberHereReads(t: string)
    requires NumberHere(t).Some?
    ensures HasNumber(t, NumberHere(t).value)
  {
    var digits, c, tail := NumberHereSplits(t);
    SqlTailSplits(tail);
    var stem :| '\n' !in stem && (tail == stem + ".sql" || tail == stem + ".sql\n");
    assert IsMigrationText(t, digits, c, stem);
  }

  lemma NumberIsRead(t: string, n: nat)
    requires HasNumber(t, n)
    ensures NumberHere(t) == Some(n)
  {
    var digits, c, stem :| IsMigrationText(t, digits, c, stem) && ParseNat(digits) == n;
    if t == "migrations/" + digits + [c] + (stem + ".sql") {
      SqlTailOf(stem);
      NumberOfName(digits, c, stem + ".sql");
    } else {
      SqlTailWithBreak(stem);
      NumberOfName(digits, c, stem + ".sql\n");
    }
  }

  /** A match may start here: at the front, or after a slash. */
  predicate IsBoundary(s: string, j: int) {
    0 <= j <= |s| && (j == 0 || s[j - 1] == '/')
  }

  /** The match of `re.search` starts at `j`. */
  predicate IsLeftmost(here: string -> Option<nat>, s: string, j: int) {
    IsBoundary(s, j) && here(s[j..]).Some? && forall k | 0 <= k < j && IsBoundary(s, k) :: here(s[k..]).None?
  }

  lemma {:induction false} SearchFinds(here: string -> Option<nat>, s: string, i: nat, j: nat)
    requires i <= j <= |s| && IsLeftmost(here, s, j)
    ensures Search(here, s[i..], IsBoundary(s, i)) == here(s[j..])
    decreases j - i
  {
    if i < j {
      assert s[i..][1..] == s[i + 1..] && IsBoundary(s, i + 1) == (s[i] == '/');
      SearchFinds(here, s, i + 1, j);
    }
  }

  lemma {:induction false} FoundIsLeftmost(here: string -> Option<nat>, s: string, i: nat)
    requires i <= |s| && Search(here, s[i..], IsBoundary(s, i)).Some?
    requires forall k | 0 <= k < i && IsBoundary(s, k) :: here(s[k..]).None?
    ensures exists j :: IsLeftmost(here, s, j)
    decreases |s| - i
  {
    if IsBoundary(s, i) && here(s[i..]).Some? {
      assert IsLeftmost(here, s, i);
    } else {
      assert s[i..][1..] == s[i + 1..] && IsBoundary(s, i + 1) == (s[i] == '/');
      FoundIsLeftmost(here, s, i + 1);
    }
  }

  lemma SearchIff(here: string -> Option<nat>, s: string, n: nat)
    ensures Search(here, s, true) == Some(n) <==> exists j :: IsLeftmost(here, s, j) && here(s[j..]) == Some(n)
  {
    assert s[0..] == s && IsBoundary(s, 0);
    if Search(here, s, true).Some? {
      FoundIsLeftmost(here, s, 0);
      var j :| IsLeftmost(here, s, j);
      SearchFinds(here, s, 0, j);
    }
    if j :| IsLeftmost(here, s, j) && here(s[j..]) == Some(n) {
      SearchFinds(here, s, 0, j);
    }
  }

  /** Here is the leftmost migration text of `s`, and it has number `n`. */
  ghost predicate IsFirstMigration(s: string, j: int, n: nat) {
    IsBoundary(s, j) && HasNumber(s[j..], n) && forall k, m | 0 <= k < j && IsBoundary(s, k) :: !HasNumber(s[k..], m)
  }

  lemma FirstMigrationIs(s: string, j: int, n: nat)
    ensures IsFirstMigration(s, j, n) <==> IsLeftmost(NumberHere, s, j) && NumberHere(s[j..]) == Some(n)
  {
    if IsFirstMigration(s, j, n) {
      NumberIsRead(s[j..], n);
      forall k | 0 <= k < j && IsBoundary(s, k) ensures NumberHere(s[k..]).None? {
        if NumberHere(s[k..]).Some? { NumberHereReads(s[k..]); }
      }
    }
    if IsLeftmost(NumberHere, s, j) && NumberHere(s[j..]) == Some(n) {
      NumberHereReads(s[j..]);
      forall k, m | 0 <= k < j && IsBoundary(s, k) ensures !HasNumber(s[k..], m) {
        if HasNumber(s[k..], m) { NumberIsRead(s[k..], m); }
      }
    }
  }

  /** A path carries number `n` exactly when its leftmost migration text does. */
  lemma MigrationNumberIff(path: string, n: nat)
    ensures MigrationNumber(path) == Some(n) <==> exists j :: IsFirstMigration(Slashes(path), j, n)
  {
    var s := Slashes(path);
    SearchIff(NumberHere, s, n);
    if MigrationNumber(path) == Some(n) {
      var j :| IsLeftmost(NumberHere, s, j) && NumberHere(s[j..]) == Some(n);
      FirstMigrationIs(s, j, n);
    }
    if j :| IsFirstMigration(s, j, n) {
      FirstMigrationIs(s, j, n);
    }
  }

  lemma BelowOne(dir: string, path: string)
    ensures Below([dir], path) == dir + "/" + path
  {
    assert [dir][1..] == [] && Below([], path) == path;
  }

  lemma ZeroName()
    ensures MigrationName("0", '_', "a") == "0_a.sql" && ParseNat("0") == 0
  {
    assert "0"[..0] == "" && ParseNat("") == 0;
  }

  /** A migration numbered 0 exists: the number that `compare_trees` renders as empty text. */
  lemma MigrationZeroExists()
    ensures MigrationNumber("backend" + "/" + ("migrations/" + "0_a.sql")) == Some(0)
  {
    ZeroName();
    BelowOne("backend", "migrations/" + "0_a.sql");
    CanonicalMigrationNumber(["backend"], "0", '_', "a");
  }

  // What the other stages read off a path

  /** A category and possibly a migration number for every path; `ReaderOf` is the one the tools use. */
  datatype PathReader = PathReader(category: string -> FileCategory, number: string -> Option<nat>)

  function ReaderOf(tables: RuleTables): PathReader {
    PathReader(path => ClassifyPath(tables, path), MigrationNumber)
  }

  // What the category of a path is

  predicate UnderProtocol(path: string) {
    StartsWithAny(path, [
      "backend/internal/pkg/apicompat/",
      "backend/internal/pkg/openai/",
      "backend/internal/pkg/xai/",
      "backend/internal/applicationgateway/",
      "backend/internal/gatewayruntime/",
      "backend/internal/runtimebridge/",
      "backend/pkg/runtimebridge/",
      "backend/internal/handler/runtime_",
      "backend/internal/service/gateway_",
      "backend/internal/server/routes/gateway.go"
    ])
  }

  predicate UnderProvider(path: string) {
    StartsWithAny(path, [
      "backend/internal/runtime/",
      "backend/internal/handler/openai_",
      "backend/internal/handler/grok_",
      "backend/internal/handler/gemini_",
      "backend/internal/service/openai_",
      "backend/internal/service/grok_",
      "backend/internal/service/gemini_",
      "backend/internal/service/antigravity_",
      "backend/internal/handler/sub2api_",
      "backend/internal/pkg/antigravity/",
      "backend/internal/pkg/anthropicfp/",
      "backend/internal/pkg/claude/",
      "backend/internal/pkg/gemini/",
      "backend/internal/pkg/geminicli/",
      "backend/internal/pkg/googleapi/",
      "backend/internal/pkg/oauth/",
      "backend/internal/pkg/openai_compat/",
      "backend/internal/pkg/tlsfingerprint/",
      "backend/internal/pkg/websearch/",
      "backend/internal/repository/openai_",
      "backend/internal/service/account_"
    ])
  }

  /** Rule `i` is the first of its table with a marker that the file name starts with. */
  predicate IsFirstMatch(rules: seq<Rule>, i: int, name: string) {
    0 <= i < |rules| && (exists j :: 0 <= j < |rules[i].prefixes| && rules[i].prefixes[j] <= name) &&
    forall k, j | 0 <= k < i && 0 <= j < |rules[k].prefixes| :: !(rules[k].prefixes[j] <= name)
  }

  lemma {:induction false} FirstRuleIs(rules: seq<Rule>, i: nat, name: string)
    requires IsFirstMatch(rules, i, name)
    ensures FirstRule(rules, name) == Some(rules[i].category)
  {
    if i == 0 {
      assert StartsWithAny(name, rules[0].prefixes);
    } else {
      assert !StartsWithAny(name, rules[0].prefixes);
      assert rules[1..][i - 1] == rules[i];
      FirstRuleIs(rules[1..], i - 1, name);
    }
  }

  lemma {:induction false} NoRuleMatches(rules: seq<Rule>, name: string)
    requires forall k, j | 0 <= k < |rules| && 0 <= j < |rules[k].prefixes| :: !(rules[k].prefixes[j] <= name)
    ensures FirstRule(rules, name) == None
  {
    if rules != [] {
      assert !StartsWithAny(name, rules[0].prefixes);
      NoRuleMatches(rules[1..], name);
    }
  }

  /** The eighth character tells the runtime areas from the database and frontend ones. */
  lemma ProtocolLetters(i: nat)
    requires i < |RUNTIME_PROTOCOL_PREFIXES|
    ensures var p := RUNTIME_PROTOCOL_PREFIXES[i]; |p| > 8 && p[0] == 'b' && (p[8] == 'i' || p[8] == 'p')
  {
  }

  lemma ProviderLetters(i: nat)
    requires i < |RUNTIME_PROVIDER_PREFIXES|
    ensures var p := RUNTIME_PROVIDER_PREFIXES[i]; |p| > 8 && p[0] == 'b' && p[8] == 'i'
  {
  }

  lemma OwnedPaths(tables: RuleTables, path: string)
    requires '\\' !in path
    ensures "backend/migrations/" <= path || "backend/ent/" <= path ==> ReaderOf(tables).category(path) == Database
    ensures "frontend/" <= path ==> ReaderOf(tables).category(path) == FrontendProduct
  {
    if "frontend/" <= path {
      assert path[0] == 'f';
    }
  }

  lemma RuntimePaths(tables: RuleTables, path: string)
    requires '\\' !in path
    ensures UnderProtocol(path) ==> ReaderOf(tables).category(path) == RuntimeProtocol
    ensures !UnderProtocol(path) && UnderProvider(path) ==> ReaderOf(tables).category(path) == RuntimeProvider
  {
    if UnderProtocol(path) {
      assert StartsWithAny(path, RUNTIME_PROTOCOL_PREFIXES);
      var i :| 0 <= i < |RUNTIME_PROTOCOL_PREFIXES| && RUNTIME_PROTOCOL_PREFIXES[i] <= path;
      ProtocolLetters(i);
      NotOwned(path);
    } else if UnderProvider(path) {
      assert StartsWithAny(path, RUNTIME_PROVIDER_PREFIXES) && !StartsWithAny(path, RUNTIME_PROTOCOL_PREFIXES);
      var i :| 0 <= i < |RUNTIME_PROVIDER_PREFIXES| && RUNTIME_PROVIDER_PREFIXES[i] <= path;
      ProviderLetters(i);
      NotOwned(path);
    }
  }

  lemma NotOwned(path: string)
    requires |path| > 8 && path[0] == 'b' && (path[8] == 'i' || path[8] == 'p')
    ensures !("backend/migrations/" <= path) && !("backend/ent/" <= path) && !("frontend/" <= path)
  {
  }

  /** Any other path: the marker table of its area decides, and what no table decides falls to the later branches. */
  lemma MarkedPaths(tables: RuleTables, path: string)
    requires '\\' !in path && !UnderProtocol(path) && !UnderProvider(path)
    requires !("backend/migrations/" <= path) && !("backend/ent/" <= path) && !("frontend/" <= path)
    ensures ReaderOf(tables).category(path) == match ByTable(tables, path) case Some(category) => category case None => tables.rest(path)
  {
    assert !StartsWithAny(path, RUNTIME_PROTOCOL_PREFIXES) && !StartsWithAny(path, RUNTIME_PROVIDER_PREFIXES);
  }

  lemma TablePaths(tables: RuleTables, name: string)
    ensures ByTable(tables, "backend/internal/service/" + name) == FirstRule(tables.service, name)
    ensures ByTable(tables, "backend/internal/handler/" + name) == FirstRule(tables.handler, name)
    ensures ByTable(tables, "backend/internal/repository/" + name) == FirstRule(tables.repository, name)
  {
    assert ("backend/internal/service/" + name)[25..] == name && ("backend/internal/service/" + name)[17] == 's';
    assert ("backend/internal/handler/" + name)[25..] == name && ("backend/internal/handler/" + name)[17] == 'h';
    assert ("backend/internal/repository/" + name)[28..] == name && ("backend/internal/repository/" + name)[17] == 'r';
  }

  /** The marker table of an area, by the directory it covers. */
  predicate IsAreaOf(tables: RuleTables, area: string, rules: seq<Rule>) {
    (area == "backend/internal/service/" && rules == tables.service) ||
    (area == "backend/internal/handler/" && rules == tables.handler) ||
    (area == "backend/internal/repository/" && rules == tables.repository)
  }

  /** Below the three areas the first rule with a fitting marker gives the category; without one the later branches do. */
  lemma MarkersDecide(tables: RuleTables, area: string, rules: seq<Rule>, name: string, i: nat)
    requires IsAreaOf(tables, area, rules) && '\\' !in name && !UnderProtocol(area + name) && !UnderProvider(area + name)
    ensures IsFirstMatch(rules, i, name) ==> ReaderOf(tables).category(area + name) == rules[i].category
    ensures (forall k, j | 0 <= k < |rules| && 0 <= j < |rules[k].prefixes| :: !(rules[k].prefixes[j] <= name)) ==>
              ReaderOf(tables).category(area + name) == tables.rest(area + name)
  {
    AreaLetters(tables, area, rules, name);
    NotOwned(area + name);
    MarkedPaths(tables, area + name);
    TablePaths(tables, name);
    if IsFirstMatch(rules, i, name) {
      FirstRuleIs(rules, i, name);
    }
    if forall k, j | 0 <= k < |rules| && 0 <= j < |rules[k].prefixes| :: !(rules[k].prefixes[j] <= name) {
      NoRuleMatches(rules, name);
    }
  }

  lemma AreaLetters(tables: RuleTables, area: string, rules: seq<Rule>, name: string)
    requires IsAreaOf(tables, area, rules) && '\\' !in name
    ensures '\\' !in area + name && |area| > 8 && (area + name)[0] == 'b' && (area + name)[8] == 'i'
  {
  }

  /** Outside all of these, the later branches decide. */
  lemma OtherPaths(tables: RuleTables, path: string)
    requires '\\' !in path && !UnderProtocol(path) && !UnderProvider(path)
    requires !("backend/migrations/" <= path) && !("backend/ent/" <= path) && !("frontend/" <= path)
    requires !("backend/internal/service/" <= path) && !("backend/internal/handler/" <= path) && !("backend/internal/repository/" <= path)
    ensures ReaderOf(tables).category(path) == tables.rest(path)
  {
    MarkedPaths(tables, path);
  }

  // The ownership gate

  predicate IsProductOwned(c: Category) {
    c.ProductCore? || c.FrontendProduct? || c.Database? || c.Infrastructure?
  }

  const BRIDGE_PREFIX: string := "backend/pkg/runtimebridge/v1/"

  /** `validate_sync_path`: the first objection, if any. */
  function ValidateSyncPath(reader: PathReader, path: string, disposition: Disposition, handling: Handling): Option<SyncError> {
    var normalized := Slashes(path);
    if disposition.OtherDisposition? then Some(InvalidDisposition)
    else if handling == DirectSql then Some(DirectSqlForbidden)
    else if reader.number(normalized).Some? && (disposition == DirectSync || disposition == AdapterPort) then
      Some(MigrationNeedsTranslation)
    else if BRIDGE_PREFIX <= normalized && disposition == DirectSync then Some(BridgeNeedsReview)
    else if disposition == DirectSync && IsProductOwned(reader.category(normalized)) then Some(ProductCoreOwned)
    else None
  }

  /** Which objection a path meets, and when it meets none. */
  lemma SyncPathIff(tables: RuleTables, path: string, disposition: Disposition, handling: Handling)
    ensures var s, objection := Slashes(path), ValidateSyncPath(ReaderOf(tables), path, disposition, handling);
            var migrates := MigrationNumber(path).Some? && (disposition == DirectSync || disposition == AdapterPort);
            var bridges := "backend/pkg/runtimebridge/v1/" <= s && disposition == DirectSync;
            var category := ReaderOf(tables).category(s);
            var owned := category == ProductCore || category == FrontendProduct || category == Database || category == Infrastructure;
            match objection
            case Some(InvalidDisposition) => disposition.OtherDisposition?
            case Some(DirectSqlForbidden) => !disposition.OtherDisposition? && handling == DirectSql
            case Some(MigrationNeedsTranslation) => handling != DirectSql && migrates
            case Some(BridgeNeedsReview) => handling != DirectSql && !migrates && bridges
            case Some(ProductCoreOwned) => handling != DirectSql && !migrates && !bridges && disposition == DirectSync && owned
            case None => !disposition.OtherDisposition? && handling != DirectSql && !migrates && !bridges && (disposition == DirectSync ==> !owned)
  {
    assert Slashes(Slashes(path)) == Slashes(path);
  }

  /** Nothing below the migrations, the generated entities or the frontend can ever be synced directly. */
  lemma OwnedPathsAreRefused(tables: RuleTables, path: string, handling: Handling)
    requires var s := Slashes(path); "backend/migrations/" <= s || "backend/ent/" <= s || "frontend/" <= s
    ensures ValidateSyncPath(ReaderOf(tables), path, DirectSync, handling).Some?
  {
    OwnedPaths(tables, Slashes(path));
    SyncPathIff(tables, path, DirectSync, handling);
  }
}
