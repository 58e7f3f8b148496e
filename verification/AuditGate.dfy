/** The audit gate: which exception lists and vulnerability reports let the check return 0. */
module AuditGate {
  import opened Wrappers
  import opened Text

  /** An exception as the parser gives it. */
  type Entry = map<string, string>

  /** A reported vulnerability; absent fields are empty. */
  datatype Occurrence = Occurrence(name: string, severity: string, advisory: string)

  /** `date.fromisoformat`, as a day number. */
  type DateParser = string -> Option<int>

  function Field(e: Entry, key: string): string {
    if key in e then e[key] else ""
  }

  // REQUIRED_FIELDS
  predicate IsComplete(e: Entry) {
    Field(e, "package") != "" && Field(e, "advisory") != "" && Field(e, "severity") != "" &&
    Field(e, "mitigation") != "" && Field(e, "expires_on") != ""
  }

  function NormalText(s: string): string {
    Lower(Strip(s))
  }

  datatype Key = Key(package: string, advisory: string)

  /** What the gate looks at in an exception. */
  datatype Excuse = Excuse(complete: bool, key: Key, severity: string, expires: Option<int>)

  /** What the gate looks at in a vulnerability; `serious` means named and of high or critical severity. */
  datatype Finding = Finding(serious: bool, key: Key, severity: string)

  function ReadException(parse: DateParser, e: Entry): Excuse {
    Excuse(IsComplete(e), Key(Strip(Field(e, "package")), NormalText(Field(e, "advisory"))),
           NormalText(Field(e, "severity")), parse(Field(e, "expires_on")))
  }

  function ReadOccurrence(o: Occurrence): Finding {
    var severity := NormalText(o.severity);
    Finding((severity == "high" || severity == "critical") && o.name != "",
            Key(Strip(o.name), NormalText(o.advisory)), severity)
  }

  // Indexing the exceptions

  predicate Usable(x: Excuse) {
    x.complete && x.expires.Some? && x.key.package != "" && x.key.advisory != ""
  }

  datatype IndexError = MissingFields | InvalidDate | BlankKey | DuplicateException(key: Key)

  predicate KeyBefore(excuses: seq<Excuse>, i: int)
    requires 0 <= i < |excuses|
  {
    exists j :: 0 <= j < i && Usable(excuses[j]) && excuses[j].key == excuses[i].key
  }

  /** The complaint about the exception at position `i`. */
  function IndexErrorAt(excuses: seq<Excuse>, i: int): Option<IndexError>
    requires 0 <= i < |excuses|
  {
    var x := excuses[i];
    if !x.complete then Some(MissingFields)
    else if x.expires.None? then Some(InvalidDate)
    else if x.key.package == "" || x.key.advisory == "" then Some(BlankKey)
    else if KeyBefore(excuses, i) then Some(DuplicateException(x.key))
    else None
  }

  /** `index` holds, for each key of a usable exception, the first such exception. */
  ghost predicate IsIndex(excuses: seq<Excuse>, index: map<Key, Excuse>) {
    (forall i | 0 <= i < |excuses| && Usable(excuses[i]) :: excuses[i].key in index) &&
    forall k | k in index :: exists i :: IsFirstOf(excuses, i, k) && index[k] == excuses[i]
  }

  predicate IsFirstOf(excuses: seq<Excuse>, i: int, k: Key) {
    0 <= i < |excuses| && Usable(excuses[i]) && excuses[i].key == k && !KeyBefore(excuses, i)
  }

  /** The exceptions are all usable, and their keys pairwise distinct. */
  predicate ExceptionsOk(excuses: seq<Excuse>) {
    (forall i | 0 <= i < |excuses| :: Usable(excuses[i])) &&
    forall i, j | 0 <= i < j < |excuses| :: excuses[i].key != excuses[j].key
  }

  method IndexExceptions(excuses: seq<Excuse>) returns (index: map<Key, Excuse>, errors: seq<IndexError>)
    ensures IsIndex(excuses, index)
    ensures errors == [] <==> ExceptionsOk(excuses)
    ensures forall e | e in errors :: exists i :: 0 <= i < |excuses| && IndexErrorAt(excuses, i) == Some(e)
    ensures forall i | 0 <= i < |excuses| && IndexErrorAt(excuses, i).Some? :: IndexErrorAt(excuses, i).value in errors
  {
    index, errors := map[], [];
    for i := 0 to |excuses|
      invariant IsIndex(excuses[..i], index)
      invariant forall e | e in errors :: exists j :: 0 <= j < i && IndexErrorAt(excuses, j) == Some(e)
      invariant forall j | 0 <= j < i && IndexErrorAt(excuses, j).Some? :: IndexErrorAt(excuses, j).value in errors
    {
      var x := excuses[i];
      assert excuses[..i + 1] == excuses[..i] + [x];
      SeenIff(excuses, i, index);
      IndexStep(excuses[..i], x, index);
      ghost var before := errors;
      if !x.complete {
        errors := errors + [MissingFields];
      } else if x.expires.None? {
        errors := errors + [InvalidDate];
      } else if x.key.package == "" || x.key.advisory == "" {
        errors := errors + [BlankKey];
      } else if x.key in index {
        errors := errors + [DuplicateException(x.key)];
      } else {
        index := index[x.key := x];
      }
      assert errors == before + if IndexErrorAt(excuses, i).Some? then [IndexErrorAt(excuses, i).value] else [];
    }
    assert excuses[..|excuses|] == excuses;
    NoErrorsIff(excuses);
    if errors != [] { assert errors[0] in errors; }
  }

  lemma SeenIff(excuses: seq<Excuse>, i: nat, index: map<Key, Excuse>)
    requires i < |excuses| && IsIndex(excuses[..i], index)
    ensures excuses[i].key in index <==> KeyBefore(excuses, i)
  {
    if excuses[i].key in index {
      var j :| IsFirstOf(excuses[..i], j, excuses[i].key);
      assert excuses[j] == excuses[..i][j];
    }
    if KeyBefore(excuses, i) {
      var j :| 0 <= j < i && Usable(excuses[j]) && excuses[j].key == excuses[i].key;
      assert excuses[..i][j] == excuses[j];
    }
  }

  lemma KeyBeforePrefix(excuses: seq<Excuse>, x: Excuse, j: nat)
    requires j < |excuses|
    ensures KeyBefore(excuses + [x], j) <==> KeyBefore(excuses, j)
  {
    assert forall k | 0 <= k <= j :: (excuses + [x])[k] == excuses[k];
  }

  lemma IndexStep(excuses: seq<Excuse>, x: Excuse, index: map<Key, Excuse>)
    requires IsIndex(excuses, index)
    ensures IsIndex(excuses + [x], if Usable(x) && x.key !in index then index[x.key := x] else index)
  {
    var more := excuses + [x];
    var after := if Usable(x) && x.key !in index then index[x.key := x] else index;
    assert more[|excuses|] == x;
    forall k | k in after ensures exists i :: IsFirstOf(more, i, k) && after[k] == more[i] {
      if k in index {
        var i :| IsFirstOf(excuses, i, k) && index[k] == excuses[i];
        KeyBeforePrefix(excuses, x, i);
        assert more[i] == excuses[i];
        assert IsFirstOf(more, i, k) && after[k] == more[i];
      } else {
        assert !KeyBefore(more, |excuses|) by {
          assert forall j | 0 <= j < |excuses| :: more[j] == excuses[j];
        }
        assert IsFirstOf(more, |excuses|, k) && after[k] == more[|excuses|];
      }
    }
    assert forall j | 0 <= j < |excuses| :: more[j] == excuses[j];
  }

  lemma NoErrorsIff(excuses: seq<Excuse>)
    ensures (forall i | 0 <= i < |excuses| :: IndexErrorAt(excuses, i).None?) <==> ExceptionsOk(excuses)
  {
    if forall i | 0 <= i < |excuses| :: IndexErrorAt(excuses, i).None? {
      forall i | 0 <= i < |excuses| ensures Usable(excuses[i]) {
        assert IndexErrorAt(excuses, i).None?;
      }
      forall i, j | 0 <= i < j < |excuses| ensures excuses[i].key != excuses[j].key {
        assert IndexErrorAt(excuses, j).None? && !KeyBefore(excuses, j);
      }
    }
    if ExceptionsOk(excuses) {
      forall i | 0 <= i < |excuses| ensures IndexErrorAt(excuses, i).None? {
        assert Usable(excuses[i]) && !KeyBefore(excuses, i);
      }
    }
  }

  // Checking the findings

  predicate Counts(f: Finding) {
    f.serious && f.key.advisory != ""
  }

  predicate SeenBefore(findings: seq<Finding>, i: int)
    requires 0 <= i < |findings|
  {
    exists j :: 0 <= j < i && Counts(findings[j]) && findings[j].key == findings[i].key
  }

  /** `x` excuses a finding of severity `severity` on day `today`. */
  predicate Excuses(x: Excuse, severity: string, today: int) {
    (x.severity == "" || x.severity == severity) && (x.expires.Some? ==> x.expires.value >= today)
  }

  /** The finding at `i` raises no complaint: it is not serious, or repeats a key, or is excused. */
  predicate Passes(index: map<Key, Excuse>, findings: seq<Finding>, today: int, i: int)
    requires 0 <= i < |findings|
  {
    findings[i].serious ==>
      findings[i].key.advisory != "" &&
      (SeenBefore(findings, i) || (findings[i].key in index && Excuses(index[findings[i].key], findings[i].severity, today)))
  }

  datatype Complaint = NoAdvisory(finding: nat) | NoException(finding: nat) | WrongSeverity(finding: nat) | Expired(finding: nat)

  /** `c` is due: what it says of its finding is so. */
  predicate Complains(index: map<Key, Excuse>, findings: seq<Finding>, today: int, c: Complaint)
    requires c.finding < |findings|
  {
    var f := findings[c.finding];
    if c.NoAdvisory? then f.serious && f.key.advisory == ""
    else
      Counts(f) && !SeenBefore(findings, c.finding) &&
      if c.NoException? then f.key !in index
      else
        f.key in index &&
        var x := index[f.key];
        if c.WrongSeverity? then x.severity != "" && x.severity != f.severity
        else x.expires.Some? && x.expires.value < today
  }

  method CheckFindings(index: map<Key, Excuse>, findings: seq<Finding>, today: int) returns (complaints: seq<Complaint>)
    ensures complaints == [] <==> forall i | 0 <= i < |findings| :: Passes(index, findings, today, i)
    ensures forall c :: c in complaints <==> c.finding < |findings| && Complains(index, findings, today, c)
  {
    complaints := [];
    var seen: set<Key> := {};
    for i := 0 to |findings|
      invariant forall k :: k in seen <==> exists j :: 0 <= j < i && Counts(findings[j]) && findings[j].key == k
      invariant complaints == [] <==> forall j | 0 <= j < i :: Passes(index, findings, today, j)
      invariant forall c :: c in complaints <==> c.finding < i && Complains(index, findings, today, c)
    {
      var f := findings[i];
      assert f.key in seen <==> SeenBefore(findings, i);
      if !f.serious {
        assert Passes(index, findings, today, i);
        continue;
      }
      if f.key.advisory == "" {
        assert !Passes(index, findings, today, i);
        complaints := complaints + [NoAdvisory(i)];
        continue;
      }
      if f.key in seen {
        assert Passes(index, findings, today, i);
        continue;
      }
      seen := seen + {f.key};
      if f.key !in index {
        assert !Passes(index, findings, today, i);
        complaints := complaints + [NoException(i)];
        continue;
      }
      var x := index[f.key];
      ghost var before := complaints;
      if x.severity != "" && x.severity != f.severity {
        complaints := complaints + [WrongSeverity(i)];
      }
      if x.expires.Some? && x.expires.value < today {
        complaints := complaints + [Expired(i)];
      }
      assert Passes(index, findings, today, i) <==> Excuses(x, f.severity, today);
      assert complaints == before <==> Excuses(x, f.severity, today);
    }
  }

  // The gate

  /**
   * The gate's rule on what it looks at. Exceptions are usable and unique by key; every serious finding has an advisory; and
   * the first finding of each key has an exception of that key that has not expired and fits its severity.
   */
  predicate GateOk(excuses: seq<Excuse>, findings: seq<Finding>, today: int) {
    ExceptionsOk(excuses) &&
    (forall i | 0 <= i < |findings| && findings[i].serious :: findings[i].key.advisory != "") &&
    forall i | 0 <= i < |findings| && Counts(findings[i]) && !SeenBefore(findings, i) :: IsExcused(excuses, findings[i], today)
  }

  predicate IsExcused(excuses: seq<Excuse>, f: Finding, today: int) {
    exists j :: 0 <= j < |excuses| && excuses[j].key == f.key && Excuses(excuses[j], f.severity, today)
  }

  /** On a usable index, the loop's criterion is the rule. */
  lemma LoopMeansRule(excuses: seq<Excuse>, index: map<Key, Excuse>, findings: seq<Finding>, today: int)
    requires ExceptionsOk(excuses) && IsIndex(excuses, index)
    ensures GateOk(excuses, findings, today) <==> forall i | 0 <= i < |findings| :: Passes(index, findings, today, i)
  {
    forall i | 0 <= i < |findings|
      ensures Passes(index, findings, today, i) <==>
              (findings[i].serious ==> findings[i].key.advisory != "") &&
              (Counts(findings[i]) && !SeenBefore(findings, i) ==> IsExcused(excuses, findings[i], today))
    {
      IndexedIsExcused(excuses, index, findings[i], today);
    }
  }

  lemma IndexedIsExcused(excuses: seq<Excuse>, index: map<Key, Excuse>, f: Finding, today: int)
    requires ExceptionsOk(excuses) && IsIndex(excuses, index)
    ensures f.key in index && Excuses(index[f.key], f.severity, today) <==> IsExcused(excuses, f, today)
  {
    if f.key in index {
      var k :| IsFirstOf(excuses, k, f.key) && index[f.key] == excuses[k];
      if IsExcused(excuses, f, today) {
        var j :| 0 <= j < |excuses| && excuses[j].key == f.key && Excuses(excuses[j], f.severity, today);
        assert k < j || j < k || j == k;
      }
    }
  }

  function ReadAll(parse: DateParser, entries: seq<Entry>): seq<Excuse> {
    seq(|entries|, i requires 0 <= i < |entries| => ReadException(parse, entries[i]))
  }

  function ReadFindings(occurrences: seq<Occurrence>): seq<Finding> {
    seq(|occurrences|, i requires 0 <= i < |occurrences| => ReadOccurrence(occurrences[i]))
  }

  // The rule in terms of what is written in the two files

  /** An exception that is complete, dated and not blank in package and advisory. */
  predicate IsSound(parse: DateParser, e: Entry) {
    (forall f | f in {"package", "advisory", "severity", "mitigation", "expires_on"} :: f in e && e[f] != "") &&
    parse(Field(e, "expires_on")).Some? && Strip(Field(e, "package")) != "" && Strip(Field(e, "advisory")) != ""
  }

  /** The same package, blanks around it aside, and the same advisory, blanks and case aside. */
  predicate SameKey(package: string, advisory: string, otherPackage: string, otherAdvisory: string) {
    Strip(package) == Strip(otherPackage) && Lower(Strip(advisory)) == Lower(Strip(otherAdvisory))
  }

  predicate IsSerious(o: Occurrence) {
    o.name != "" && Lower(Strip(o.severity)) in {"high", "critical"}
  }

  /** `o` is the first serious occurrence of its own key that has an advisory. */
  predicate IsFirstReport(occurrences: seq<Occurrence>, i: int) {
    0 <= i < |occurrences| && IsSerious(occurrences[i]) && Strip(occurrences[i].advisory) != "" &&
    forall j | 0 <= j < i && IsSerious(occurrences[j]) ::
      !SameKey(occurrences[j].name, occurrences[j].advisory, occurrences[i].name, occurrences[i].advisory)
  }

  /** `e` excuses the report `o` on day `today`. */
  predicate Covers(parse: DateParser, e: Entry, o: Occurrence, today: int) {
    SameKey(Field(e, "package"), Field(e, "advisory"), o.name, o.advisory) &&
    (Strip(Field(e, "severity")) == "" || Lower(Strip(Field(e, "severity"))) == Lower(Strip(o.severity))) &&
    parse(Field(e, "expires_on")).Some? && parse(Field(e, "expires_on")).value >= today
  }

  /**
   * All exceptions are sound and no two have one key; every serious occurrence has an advisory, and every first report of a
   * key is covered by some exception.
   */
  predicate RuleHolds(parse: DateParser, entries: seq<Entry>, occurrences: seq<Occurrence>, today: int) {
    (forall i | 0 <= i < |entries| :: IsSound(parse, entries[i])) &&
    (forall i, j | 0 <= i < j < |entries| ::
       !SameKey(Field(entries[i], "package"), Field(entries[i], "advisory"), Field(entries[j], "package"), Field(entries[j], "advisory"))) &&
    (forall i | 0 <= i < |occurrences| && IsSerious(occurrences[i]) :: Strip(occurrences[i].advisory) != "") &&
    forall i | 0 <= i < |occurrences| && IsFirstReport(occurrences, i) ::
      exists k :: 0 <= k < |entries| && Covers(parse, entries[k], occurrences[i], today)
  }

  lemma ReadsException(parse: DateParser, e: Entry)
    ensures Usable(ReadException(parse, e)) <==> IsSound(parse, e)
  {
    var fields := {"package", "advisory", "severity", "mitigation", "expires_on"};
    if IsComplete(e) {
      forall f | f in fields ensures f in e && e[f] != "" {}
    } else {
      assert exists f :: f in fields && Field(e, f) == "";
    }
  }

  lemma ReadsOccurrence(o: Occurrence)
    ensures ReadOccurrence(o).serious <==> IsSerious(o)
    ensures ReadOccurrence(o).key.advisory != "" <==> Strip(o.advisory) != ""
  {
  }

  lemma ReadsKeys(parse: DateParser, e: Entry, d: Entry, o: Occurrence, q: Occurrence)
    ensures ReadException(parse, e).key == ReadException(parse, d).key <==>
            SameKey(Field(e, "package"), Field(e, "advisory"), Field(d, "package"), Field(d, "advisory"))
    ensures ReadException(parse, e).key == ReadOccurrence(o).key <==> SameKey(Field(e, "package"), Field(e, "advisory"), o.name, o.advisory)
    ensures ReadOccurrence(o).key == ReadOccurrence(q).key <==> SameKey(o.name, o.advisory, q.name, q.advisory)
  {
  }

  lemma ReadsCover(parse: DateParser, e: Entry, o: Occurrence, today: int)
    requires IsSound(parse, e)
    ensures Covers(parse, e, o, today) <==>
            ReadException(parse, e).key == ReadOccurrence(o).key && Excuses(ReadException(parse, e), ReadOccurrence(o).severity, today)
  {
    ReadsKeys(parse, e, e, o, o);
  }

  /** The rule on entries and occurrences is the rule on what the gate reads off them. */
  lemma RuleIsGateOk(parse: DateParser, entries: seq<Entry>, occurrences: seq<Occurrence>, today: int)
    ensures RuleHolds(parse, entries, occurrences, today) <==> GateOk(ReadAll(parse, entries), ReadFindings(occurrences), today)
  {
    var excuses, findings := ReadAll(parse, entries), ReadFindings(occurrences);
    SoundIsOk(parse, entries);
    forall i | 0 <= i < |occurrences|
      ensures findings[i].serious <==> IsSerious(occurrences[i])
      ensures findings[i].key.advisory != "" <==> Strip(occurrences[i].advisory) != ""
      ensures Counts(findings[i]) && !SeenBefore(findings, i) <==> IsFirstReport(occurrences, i)
    {
      ReadsOccurrence(occurrences[i]);
      FirstReportIs(occurrences, i);
    }
    if ExceptionsOk(excuses) {
      forall i | 0 <= i < |occurrences|
        ensures IsExcused(excuses, findings[i], today) <==> exists k :: 0 <= k < |entries| && Covers(parse, entries[k], occurrences[i], today)
      {
        ExcusedIsCovered(parse, entries, occurrences[i], today);
      }
    }
  }

  lemma SoundIsOk(parse: DateParser, entries: seq<Entry>)
    ensures ExceptionsOk(ReadAll(parse, entries)) <==>
            (forall i | 0 <= i < |entries| :: IsSound(parse, entries[i])) &&
            forall i, j | 0 <= i < j < |entries| ::
              !SameKey(Field(entries[i], "package"), Field(entries[i], "advisory"), Field(entries[j], "package"), Field(entries[j], "advisory"))
  {
    var excuses := ReadAll(parse, entries);
    forall i | 0 <= i < |entries| ensures Usable(excuses[i]) <==> IsSound(parse, entries[i]) {
      ReadsException(parse, entries[i]);
    }
    forall i, j | 0 <= i < |entries| && 0 <= j < |entries|
      ensures excuses[i].key == excuses[j].key <==>
              SameKey(Field(entries[i], "package"), Field(entries[i], "advisory"), Field(entries[j], "package"), Field(entries[j], "advisory"))
    {
      ReadsKeys(parse, entries[i], entries[j], Occurrence("", "", ""), Occurrence("", "", ""));
    }
  }

  lemma FirstReportIs(occurrences: seq<Occurrence>, i: nat)
    requires i < |occurrences|
    ensures var findings := ReadFindings(occurrences);
            Counts(findings[i]) && !SeenBefore(findings, i) <==> IsFirstReport(occurrences, i)
  {
    var findings := ReadFindings(occurrences);
    ReadsOccurrence(occurrences[i]);
    forall j | 0 <= j < i
      ensures Counts(findings[j]) <==> IsSerious(occurrences[j]) && Strip(occurrences[j].advisory) != ""
      ensures findings[j].key == findings[i].key <==>
              SameKey(occurrences[j].name, occurrences[j].advisory, occurrences[i].name, occurrences[i].advisory)
    {
      ReadsOccurrence(occurrences[j]);
      ReadsKeys(s => None, map[], map[], occurrences[j], occurrences[i]);
    }
  }

  lemma ExcusedIsCovered(parse: DateParser, entries: seq<Entry>, o: Occurrence, today: int)
    requires forall i | 0 <= i < |entries| :: IsSound(parse, entries[i])
    ensures IsExcused(ReadAll(parse, entries), ReadOccurrence(o), today) <==>
            exists k :: 0 <= k < |entries| && Covers(parse, entries[k], o, today)
  {
    var excuses := ReadAll(parse, entries);
    forall k | 0 <= k < |entries|
      ensures Covers(parse, entries[k], o, today) <==>
              excuses[k].key == ReadOccurrence(o).key && Excuses(excuses[k], ReadOccurrence(o).severity, today)
    {
      ReadsCover(parse, entries[k], o, today);
    }
  }

  /** `main`: the exit code is 0 exactly when the rule holds, else 1. */
  method Gate(entries: seq<Entry>, occurrences: seq<Occurrence>, parse: DateParser, today: int) returns (exit: int)
    ensures exit == 0 <==> RuleHolds(parse, entries, occurrences, today)
    ensures exit == 0 || exit == 1
  {
    RuleIsGateOk(parse, entries, occurrences, today);
    var excuses, findings := ReadAll(parse, entries), ReadFindings(occurrences);
    var index, errors := IndexExceptions(excuses);
    var complaints := CheckFindings(index, findings, today);
    if errors == [] {
      LoopMeansRule(excuses, index, findings, today);
    }
    exit := if errors == [] && complaints == [] then 0 else 1;
  }

  /** A single vulnerability of high severity, in whatever case, closes the gate when there is no exception. */
  lemma HighNeedsException(parse: DateParser, today: int)
    ensures !RuleHolds(parse, [], [Occurrence("lodash", " HIGH ", "GHSA-1")], today)
  {
    var occurrences := [Occurrence("lodash", " HIGH ", "GHSA-1")];
    StripPadded(" ", "HIGH", " ");
    assert " " + "HIGH" + " " == " HIGH ";
    assert Lower("HIGH") == "high";
    StripTrimmed("GHSA-1");
    assert IsSerious(occurrences[0]);
    assert IsFirstReport(occurrences, 0);
  }
}
