/** The audit report: which vulnerabilities the gate sees in it, and the gate from end to end. */
module AuditReport {
  import opened Wrappers
  import opened Text
  import opened AuditGate
  import opened ExceptionFile

  /** A JSON value where the tool meets both texts and numbers; null and missing are `Absent`. */
  datatype Scalar = Absent | Str(text: string) | Num(number: int)

  predicate Truthy(v: Scalar) {
    match v
    case Absent => false
    case Str(text) => text != ""
    case Num(number) => number != 0
  }

  /** `str(v)`, and the empty text for an absent value. */
  function Shown(v: Scalar): string {
    match v
    case Absent => ""
    case Str(text) => text
    case Num(number) => if number < 0 then "-" + Decimal(-number) else Decimal(number)
  }

  /** `a or b or ...` over texts: the first that is not empty. */
  function FirstText(candidates: seq<string>): (r: string)
    ensures r == "" <==> forall i | 0 <= i < |candidates| :: candidates[i] == ""
    ensures r != "" ==> r in candidates
  {
    if candidates == [] then ""
    else if candidates[0] != "" then candidates[0]
    else FirstText(candidates[1..])
  }

  /** A value of the `advisories` object; absent texts are empty. */
  datatype Advisory = Advisory(
    moduleName: string, name: string, severity: string, ghsa: string, url: string, cves: seq<string>, id: Scalar,
    title: string, advisory: string, overview: string)

  /** `pick_advisory_id` */
  function PickAdvisoryId(a: Advisory): string {
    FirstText([a.ghsa, a.url, if a.cves == [] then "" else a.cves[0], Shown(a.id), a.title, a.advisory, a.overview])
  }

  /** What an item of `via` can be; other JSON values are passed over. */
  datatype ViaItem =
    | Named(name: string)
    | Detailed(ghsa: string, url: string, source: Scalar, title: string, name: string, advisory: string)
    | Ignored

  datatype Via = Items(items: seq<ViaItem>) | Single(name: string) | NoVia

  datatype Vulnerability = Vulnerability(name: string, severity: string, via: Via)

  datatype Report = Report(advisories: seq<Advisory>, vulnerabilities: seq<Vulnerability>)

  /** The identifier of an item, empty if it has none. */
  function ItemId(item: ViaItem): string {
    match item
    case Named(name) => name
    case Detailed(ghsa, url, source, title, name, _) =>
      FirstText([ghsa, url, if Truthy(source) then Shown(source) else "", title, name])
    case Ignored => ""
  }

  /** `a or b` */
  function Or(a: Scalar, b: Scalar): Scalar {
    if Truthy(a) then a else b
  }

  /** The title of an item, which can be a number where only the source is left. */
  function ItemTitle(item: ViaItem): Scalar {
    match item
    case Named(name) => Str(name)
    case Detailed(_, url, source, title, _, advisory) => Or(Str(title), Or(Str(url), Or(Str(advisory), source)))
    case Ignored => Absent
  }

  /** `"; ".join` accepts the title, or it is left out. */
  predicate ItemTitleIsText(item: ViaItem) {
    Truthy(ItemTitle(item)) ==> ItemTitle(item).Str?
  }

  function ItemsOf(via: Via): seq<ViaItem> {
    match via
    case Items(items) => items
    case Single(name) => [Named(name)]
    case NoVia => []
  }

  /** What a generator yields over `xs`, when it yields `f(x)` for each `x`. */
  function Yielded<S, T>(xs: seq<S>, f: S -> seq<T>): seq<T> {
    if xs == [] then [] else Yielded(xs[..|xs| - 1], f) + f(xs[|xs| - 1])
  }

  function IdentifierOf(item: ViaItem): seq<string> {
    if ItemId(item) != "" then [ItemId(item)] else []
  }

  /** The non-empty identifiers, in order. */
  function Identifiers(items: seq<ViaItem>): seq<string> {
    Yielded(items, IdentifierOf)
  }

  function FromAdvisory(a: Advisory): Occurrence {
    Occurrence(FirstText([a.moduleName, a.name]), a.severity, PickAdvisoryId(a))
  }

  function FromVulnerability(v: Vulnerability): seq<Occurrence> {
    OccurrencesFor(v, Identifiers(ItemsOf(v.via)))
  }

  function OccurrencesFor(v: Vulnerability, ids: seq<string>): seq<Occurrence> {
    seq(|ids|, i requires 0 <= i < |ids| => Occurrence(v.name, v.severity, ids[i]))
  }

  function OccurrencesOf(report: Report): seq<Occurrence> {
    Yielded(report.advisories, a => [FromAdvisory(a)]) + Yielded(report.vulnerabilities, FromVulnerability)
  }

  predicate TitlesAreTexts(items: seq<ViaItem>) {
    forall j | 0 <= j < |items| :: ItemTitleIsText(items[j])
  }

  predicate TitlesOk(v: Vulnerability) {
    TitlesAreTexts(ItemsOf(v.via))
  }

  predicate AllTitlesOk(vulnerabilities: seq<Vulnerability>) {
    forall i | 0 <= i < |vulnerabilities| :: TitlesOk(vulnerabilities[i])
  }

  /** The item loop; `None` is the type error of a title that is a number. */
  method CollectIds(items: seq<ViaItem>) returns (ids: Option<seq<string>>)
    ensures ids.Some? <==> TitlesAreTexts(items)
    ensures ids.Some? ==> ids.value == Identifiers(items)
  {
    var found, titlesOk := [], true;
    for j := 0 to |items|
      invariant found == Yielded(items[..j], IdentifierOf)
      invariant titlesOk <==> forall k | 0 <= k < j :: ItemTitleIsText(items[k])
    {
      YieldedNext(items, j, IdentifierOf);
      TitleIsTextIff(items[j]);
      titlesOk := titlesOk && ItemTitleIsText(items[j]);
      if ItemId(items[j]) != "" {
        found := found + [ItemId(items[j])];
      }
    }
    assert items[..|items|] == items;
    ids := if titlesOk then Some(found) else None;
  }

  method YieldAll(v: Vulnerability, ids: seq<string>, before: seq<Occurrence>) returns (occurrences: seq<Occurrence>)
    ensures occurrences == before + OccurrencesFor(v, ids)
  {
    occurrences := before;
    for i := 0 to |ids|
      invariant occurrences == before + OccurrencesFor(v, ids[..i])
    {
      occurrences := occurrences + [Occurrence(v.name, v.severity, ids[i])];
    }
    assert ids[..|ids|] == ids;
  }

  method IterAdvisories(advisories: seq<Advisory>) returns (occurrences: seq<Occurrence>)
    ensures occurrences == Yielded(advisories, a => [FromAdvisory(a)])
  {
    ghost var one := (a: Advisory) => [FromAdvisory(a)];
    occurrences := [];
    for i := 0 to |advisories|
      invariant occurrences == Yielded(advisories[..i], one)
    {
      YieldedNext(advisories, i, one);
      occurrences := occurrences + [FromAdvisory(advisories[i])];
    }
    assert advisories[..|advisories|] == advisories;
  }

  method IterVulnerability(v: Vulnerability, before: seq<Occurrence>) returns (r: Option<seq<Occurrence>>)
    ensures r.Some? <==> TitlesOk(v)
    ensures r.Some? ==> r.value == before + FromVulnerability(v)
  {
    var ids := CollectIds(ItemsOf(v.via));
    if ids.None? {
      return None;
    }
    var occurrences := YieldAll(v, ids.value, before);
    return Some(occurrences);
  }

  method IterVulnerabilities(vulnerabilities: seq<Vulnerability>) returns (r: Option<seq<Occurrence>>)
    ensures r.Some? <==> AllTitlesOk(vulnerabilities)
    ensures r.Some? ==> r.value == Yielded(vulnerabilities, FromVulnerability)
  {
    var occurrences := [];
    for i := 0 to |vulnerabilities|
      invariant occurrences == Yielded(vulnerabilities[..i], FromVulnerability)
      invariant forall k | 0 <= k < i :: TitlesOk(vulnerabilities[k])
    {
      YieldedNext(vulnerabilities, i, FromVulnerability);
      var more := IterVulnerability(vulnerabilities[i], occurrences);
      if more.None? {
        return None;
      }
      occurrences := more.value;
    }
    assert vulnerabilities[..|vulnerabilities|] == vulnerabilities;
    return Some(occurrences);
  }

  /** `iter_vulns`; `None` is the type error of a title that is a number. */
  method IterVulns(report: Report) returns (r: Option<seq<Occurrence>>)
    ensures r.Some? <==> AllTitlesOk(report.vulnerabilities)
    ensures r.Some? ==> r.value == OccurrencesOf(report)
  {
    var first := IterAdvisories(report.advisories);
    var second := IterVulnerabilities(report.vulnerabilities);
    r := if second.Some? then Some(first + second.value) else None;
  }

  /** `main`, from the exception file's text and the report to the exit code. */
  method CheckReport(exceptionsText: string, report: Report, parse: DateParser, today: int) returns (exit: int)
    ensures exit == 0 || exit == 1
    ensures exit == 0 <==>
            Parsed(exceptionsText).Success? && AllTitlesOk(report.vulnerabilities) &&
            RuleHolds(parse, Parsed(exceptionsText).value, OccurrencesOf(report), today)
  {
    var entries := ParseExceptions(exceptionsText);
    if entries.Failure? {
      return 1;
    }
    var occurrences := IterVulns(report);
    if occurrences.None? {
      return 1;
    }
    exit := Gate(entries.value, occurrences.value, parse, today);
  }

  // What the gate sees and what it does not

  lemma YieldedNext<S, T>(xs: seq<S>, i: nat, f: S -> seq<T>)
    requires i < |xs|
    ensures Yielded(xs[..i + 1], f) == Yielded(xs[..i], f) + f(xs[i])
  {
    assert xs[..i + 1][..i] == xs[..i];
  }

  lemma {:induction false} YieldedExact<S, T>(xs: seq<S>, f: S -> seq<T>, y: T)
    ensures y in Yielded(xs, f) <==> exists x :: x in xs && y in f(x)
  {
    if xs != [] {
      var init, last := xs[..|xs| - 1], xs[|xs| - 1];
      assert xs == init + [last];
      YieldedExact(init, f, y);
    }
  }

  lemma {:induction false} YieldedConcat<S, T>(a: seq<S>, b: seq<S>, f: S -> seq<T>)
    ensures Yielded(a + b, f) == Yielded(a, f) + Yielded(b, f)
  {
    if b == [] {
      assert a + b == a;
    } else {
      var init, last := b[..|b| - 1], b[|b| - 1];
      assert (a + b)[..|a + b| - 1] == a + init;
      YieldedConcat(a, init, f);
    }
  }

  /** Taking `x` out changes what is yielded exactly when it yields something. */
  lemma YieldedWithoutIff<S, T>(before: seq<S>, x: S, after: seq<S>, f: S -> seq<T>)
    ensures |Yielded(before + [x] + after, f)| == |Yielded(before + after, f)| + |f(x)|
    ensures Yielded(before + [x] + after, f) == Yielded(before + after, f) <==> f(x) == []
  {
    YieldedConcat(before + [x], after, f);
    YieldedConcat(before, [x], f);
    YieldedConcat(before, after, f);
    assert [x][..0] == [];
    assert Yielded([x], f) == f(x);
  }

  /** An occurrence comes from an identified item of a vulnerability, or from its only name. */
  predicate ComesFrom(v: Vulnerability, o: Occurrence) {
    o.name == v.name && o.severity == v.severity && o.advisory != "" &&
    match v.via
    case Items(items) => exists item :: item in items && ItemId(item) == o.advisory
    case Single(name) => name == o.advisory
    case NoVia => false
  }

  /** An occurrence is an advisory's own: under its module name or name, with its severity and its identifier. */
  predicate IsOwn(a: Advisory, o: Occurrence) {
    o.name == (if a.moduleName != "" then a.moduleName else a.name) && o.severity == a.severity && o.advisory == PickAdvisoryId(a)
  }

  /** The order of preference among the identifiers of an advisory. */
  lemma AdvisoryIdIs(a: Advisory)
    ensures PickAdvisoryId(a) ==
            if a.ghsa != "" then a.ghsa
            else if a.url != "" then a.url
            else if a.cves != [] && a.cves[0] != "" then a.cves[0]
            else if a.id.Num? || (a.id.Str? && a.id.text != "") then Shown(a.id)
            else if a.title != "" then a.title
            else if a.advisory != "" then a.advisory
            else a.overview
  {
    var cve := if a.cves == [] then "" else a.cves[0];
    SevenTexts(a.ghsa, a.url, cve, Shown(a.id), a.title, a.advisory, a.overview);
    DecimalsAreShown(a.id);
  }

  lemma DecimalsAreShown(v: Scalar)
    ensures Shown(v) != "" <==> v.Num? || (v.Str? && v.text != "")
  {
  }

  lemma FirstOf(head: string, rest: seq<string>)
    ensures FirstText([head] + rest) == if head != "" then head else FirstText(rest)
  {
    assert ([head] + rest)[1..] == rest;
  }

  lemma ThreeTexts(x: string, y: string, z: string)
    ensures FirstText([x, y, z]) == if x != "" then x else if y != "" then y else z
  {
    FirstOf(x, [y, z]);
    FirstOf(y, [z]);
    FirstOf(z, []);
    assert [x, y, z] == [x] + [y, z] && [y, z] == [y] + [z] && [z] == [z] + [];
  }

  lemma FiveTexts(v: string, w: string, x: string, y: string, z: string)
    ensures FirstText([v, w, x, y, z]) == if v != "" then v else if w != "" then w else if x != "" then x else if y != "" then y else z
  {
    FirstOf(v, [w, x, y, z]);
    FirstOf(w, [x, y, z]);
    ThreeTexts(x, y, z);
    assert [v, w, x, y, z] == [v] + [w, x, y, z] && [w, x, y, z] == [w] + [x, y, z];
  }

  lemma SevenTexts(t: string, u: string, v: string, w: string, x: string, y: string, z: string)
    ensures FirstText([t, u, v, w, x, y, z]) ==
            if t != "" then t else if u != "" then u else if v != "" then v else if w != "" then w else if x != "" then x else if y != "" then y else z
  {
    FirstOf(t, [u, v, w, x, y, z]);
    FirstOf(u, [v, w, x, y, z]);
    FiveTexts(v, w, x, y, z);
    assert [t, u, v, w, x, y, z] == [t] + [u, v, w, x, y, z] && [u, v, w, x, y, z] == [u] + [v, w, x, y, z];
  }

  /** The order of preference among the identifiers of an item; the number 0 is no identifier. */
  lemma ItemIdIs(item: ViaItem)
    ensures ItemId(item) ==
            match item
            case Named(name) => name
            case Ignored => ""
            case Detailed(ghsa, url, source, title, name, _) =>
              if ghsa != "" then ghsa
              else if url != "" then url
              else if (source.Str? && source.text != "") || (source.Num? && source.number != 0) then Shown(source)
              else if title != "" then title
              else name
  {
    if item.Detailed? {
      var source := if Truthy(item.source) then Shown(item.source) else "";
      FiveTexts(item.ghsa, item.url, source, item.title, item.name);
      DecimalsAreShown(item.source);
    }
  }

  /** The one title that cannot be joined: a non-zero number, where title, URL and advisory are all missing. */
  lemma TitleIsTextIff(item: ViaItem)
    ensures ItemTitleIsText(item) <==>
            !(item.Detailed? && item.title == "" && item.url == "" && item.advisory == "" && item.source.Num? && item.source.number != 0)
  {
  }

  /** Numbers are shown in decimal, with a sign when negative. */
  lemma ShownNumbers(n: nat)
    ensures Shown(Num(n)) == Decimal(n) && (n > 0 ==> Shown(Num(0 - n as int)) == "-" + Decimal(n))
  {
  }

  lemma IdentifiersExact(items: seq<ViaItem>, id: string)
    ensures id in Identifiers(items) <==> id != "" && exists item :: item in items && ItemId(item) == id
  {
    YieldedExact(items, IdentifierOf, id);
    if item :| item in items && ItemId(item) == id != "" {
      assert id in IdentifierOf(item);
    }
  }

  lemma FromVulnerabilityExact(v: Vulnerability, o: Occurrence)
    ensures o in FromVulnerability(v) <==> ComesFrom(v, o)
  {
    var ids := Identifiers(ItemsOf(v.via));
    IdentifiersExact(ItemsOf(v.via), o.advisory);
    if v.via.Single? {
      assert Named(v.via.name) in ItemsOf(v.via);
    }
    if o.advisory in ids {
      var i :| 0 <= i < |ids| && ids[i] == o.advisory;
      assert FromVulnerability(v)[i] == Occurrence(v.name, v.severity, o.advisory);
    }
  }

  lemma FromAdvisoryIs(a: Advisory, o: Occurrence)
    ensures FromAdvisory(a) == o <==> IsOwn(a, o)
  {
    FirstOf(a.moduleName, [a.name]);
    FirstOf(a.name, []);
    assert [a.moduleName, a.name] == [a.moduleName] + [a.name] && [a.name] == [a.name] + [];
  }

  /** The gate sees each advisory once, and of each vulnerability exactly the items that carry an identifier. */
  lemma OccurrencesExact(report: Report, o: Occurrence)
    ensures o in OccurrencesOf(report) <==>
            (exists a :: a in report.advisories && IsOwn(a, o)) || exists v :: v in report.vulnerabilities && ComesFrom(v, o)
  {
    var one := (a: Advisory) => [FromAdvisory(a)];
    YieldedExact(report.advisories, one, o);
    forall a ensures o in one(a) <==> IsOwn(a, o) {
      FromAdvisoryIs(a, o);
    }
    YieldedExact(report.vulnerabilities, FromVulnerability, o);
    forall v ensures o in FromVulnerability(v) <==> ComesFrom(v, o) {
      FromVulnerabilityExact(v, o);
    }
  }

  /** A vulnerability without any identifier is invisible, whatever its severity; one with an identifier never is. */
  lemma UnidentifiedIsInvisibleIff(advisories: seq<Advisory>, before: seq<Vulnerability>, v: Vulnerability, after: seq<Vulnerability>)
    ensures OccurrencesOf(Report(advisories, before + [v] + after)) == OccurrencesOf(Report(advisories, before + after)) <==>
            match v.via
            case Items(items) => forall item | item in items :: ItemId(item) == ""
            case Single(name) => name == ""
            case NoVia => true
  {
    YieldedWithoutIff(before, v, after, FromVulnerability);
    NoIdentifiersIff(v);
  }

  lemma NoIdentifiersIff(v: Vulnerability)
    ensures FromVulnerability(v) == [] <==>
            match v.via
            case Items(items) => forall item | item in items :: ItemId(item) == ""
            case Single(name) => name == ""
            case NoVia => true
  {
    if FromVulnerability(v) != [] {
      FromVulnerabilityExact(v, FromVulnerability(v)[0]);
      assert ComesFrom(v, FromVulnerability(v)[0]);
    }
    if v.via.Items? {
      forall item | item in v.via.items && ItemId(item) != "" ensures FromVulnerability(v) != [] {
        FromVulnerabilityExact(v, Occurrence(v.name, v.severity, ItemId(item)));
      }
    }
    if v.via.Single? && v.via.name != "" {
      FromVulnerabilityExact(v, Occurrence(v.name, v.severity, v.via.name));
    }
  }

  /** An advisory without an identifier, by contrast, closes the gate when it is named and serious. */
  lemma UnidentifiedAdvisoryFails(report: Report, a: Advisory, parse: DateParser, entries: seq<Entry>, today: int)
    requires a in report.advisories && (a.moduleName != "" || a.name != "") && Lower(Strip(a.severity)) in {"high", "critical"}
    requires a.ghsa == "" && a.url == "" && (a.cves == [] || a.cves[0] == "") && Shown(a.id) == ""
    requires a.title == "" && a.advisory == "" && a.overview == ""
    ensures !RuleHolds(parse, entries, OccurrencesOf(report), today)
  {
    FromAdvisoryIs(a, FromAdvisory(a));
    AdvisoryIdIs(a);
    OccurrencesExact(report, FromAdvisory(a));
    var i :| 0 <= i < |OccurrencesOf(report)| && OccurrencesOf(report)[i] == FromAdvisory(a);
    assert [a.moduleName, a.name][0] == a.moduleName && [a.moduleName, a.name][1] == a.name;
    assert IsSerious(OccurrencesOf(report)[i]);
    StripTrimmed("");
  }
}
