/** Commit pages of a snapshot, their de-duplication, and the coverage of runtime commits by the feature matrix. */
module Commits {
  import opened Wrappers
  import opened Text
  import opened PathRules
  import opened CompareTrees

  // Pagination

  datatype RawCommit = RawCommit(sha: string, date: string, message: string)

  /** One page of the comparison; `total` is its `total_commits` entry, if present. */
  datatype Page = Page(total: Option<int>, commits: seq<RawCommit>)

  /** The pages as the server would give them, by number from 1. */
  type PageSource = nat -> Page

  datatype SnapshotError = Stopped(collected: int, total: int) | CountMismatch(expected: int, got: int)

  /** `total_commits`, read off the first page only. */
  function Total(source: PageSource): int {
    if source(1).total.Some? then source(1).total.value else |source(1).commits|
  }

  /** Number of commits on pages 1 to `n`. */
  function CountUpTo(source: PageSource, n: nat): nat {
    if n == 0 then 0 else CountUpTo(source, n - 1) + |source(n).commits|
  }

  function PagesUpTo(source: PageSource, n: nat): (pages: seq<Page>)
    ensures |pages| == n
  {
    seq(n, i requires 0 <= i < n => source(i + 1))
  }

  /**
   * The paging loop of `snapshot_upstream`; `fetched` counts the requests made. A total `n` announced by the first page is
   * met exactly by some first pages, none of them empty before the last, or the run stops at the first empty page, or it
   * ends with the first page that leads past `n`. Without an announced total the first page is all there is.
   */
  method FetchPages(source: PageSource) returns (r: Result<seq<Page>, SnapshotError>, fetched: nat)
    ensures source(1).total.None? ==> r == Success([source(1)]) && fetched == 1
    ensures source(1).total.Some? ==>
              var n := source(1).total.value;
              && fetched <= (if n > 1 then n else 1)
              && (r.Success? <==> exists k: nat ::
                    k > 0 && |Concat(PagesUpTo(source, k))| == n && forall m | 0 < m < k :: source(m).commits != [])
              && (r.Success? ==> r.value == PagesUpTo(source, fetched) && |Concat(r.value)| == n)
              && (r.Failure? ==> var got := |Concat(PagesUpTo(source, fetched))|;
                    (forall m | 0 < m < fetched :: source(m).commits != [] && |Concat(PagesUpTo(source, m))| < n) &&
                    if r.error.Stopped? then source(fetched).commits == [] && got < n && r.error == Stopped(got, n)
                    else got > n && r.error == CountMismatch(n, got))
  {
    r, fetched := FetchUntilTotal(source);
    ConcatLengths(source);
    if source(1).total.None? {
      assert CountUpTo(source, 1) == |source(1).commits|;
      assert PagesUpTo(source, 1) == [source(1)];
    } else {
      SuccessIffHeld(source, r, fetched);
    }
  }

  lemma ConcatLengths(source: PageSource)
    ensures forall n: nat :: |Concat(PagesUpTo(source, n))| == CountUpTo(source, n)
  {
    forall n: nat ensures |Concat(PagesUpTo(source, n))| == CountUpTo(source, n) { ConcatLength(source, n); }
  }

  lemma PagesAppend(source: PageSource, n: nat)
    ensures PagesUpTo(source, n + 1) == PagesUpTo(source, n) + [source(n + 1)]
  {
  }

  lemma {:induction false} CountGrows(source: PageSource, m: nat, n: nat)
    requires m <= n
    ensures CountUpTo(source, m) <= CountUpTo(source, n)
    ensures m < n && source(n).commits != [] ==> CountUpTo(source, m) < CountUpTo(source, n)
  {
    if m < n { CountGrows(source, m, n - 1); }
  }

  /** The first pages can hold exactly the total only where the loop ends. */
  lemma SuccessIffHeld(source: PageSource, r: Result<seq<Page>, SnapshotError>, fetched: nat)
    requires Fetched(source, r, fetched)
    ensures r.Success? <==> exists k: nat ::
              k > 0 && |Concat(PagesUpTo(source, k))| == Total(source) && forall m | 0 < m < k :: source(m).commits != []
  {
    ConcatLengths(source);
    if r.Success? {
      assert |Concat(PagesUpTo(source, fetched))| == Total(source);
    }
    if k: nat :| k > 0 && |Concat(PagesUpTo(source, k))| == Total(source) && forall m | 0 < m < k :: source(m).commits != [] {
      if k < fetched {
        CountGrows(source, k, fetched);
      } else if fetched < k && fetched > 0 {
        CountGrows(source, fetched, k);
        if fetched < k - 1 { CountGrows(source, fetched, k - 1); CountGrows(source, k - 1, k); }
      }
    }
  }

  /** How the loop ends, in terms of the running count. */
  predicate Fetched(source: PageSource, r: Result<seq<Page>, SnapshotError>, fetched: nat) {
    var total := Total(source);
    fetched > 0 && (forall m | 0 < m < fetched :: CountUpTo(source, m) < total) &&
    (forall m | 0 < m < fetched :: source(m).commits != []) &&
    match r
    case Success(pages) => CountUpTo(source, fetched) == total && pages == PagesUpTo(source, fetched)
    case Failure(Stopped(got, n)) =>
      got == CountUpTo(source, fetched) < n == total && source(fetched).commits == []
    case Failure(CountMismatch(n, got)) => got == CountUpTo(source, fetched) > n == total
  }

  method FetchUntilTotal(source: PageSource) returns (r: Result<seq<Page>, SnapshotError>, fetched: nat)
    ensures fetched <= if Total(source) > 1 then Total(source) else 1
    ensures Fetched(source, r, fetched)
  {
    var pages: seq<Page> := [];
    var collected := 0;
    var total: Option<int> := None;
    fetched := 0;
    while total.None? || collected < total.value
      invariant fetched == |pages| && pages == PagesUpTo(source, fetched) && collected == CountUpTo(source, fetched)
      invariant total.None? <==> fetched == 0
      invariant total.Some? ==> total.value == Total(source)
      invariant forall m | 0 < m < fetched :: CountUpTo(source, m) < Total(source)
      invariant forall m | 0 < m < fetched :: source(m).commits != []
      invariant fetched > 0 && collected < Total(source) ==> source(fetched).commits != [] && fetched <= collected
      invariant fetched <= 1 || fetched <= Total(source)
      decreases total.None?, if total.Some? then total.value - collected else 0
    {
      var payload := source(fetched + 1);
      fetched := fetched + 1;
      if total.None? {
        total := Some(if payload.total.Some? then payload.total.value else |payload.commits|);
      }
      if payload.commits == [] && collected < total.value {
        return Failure(Stopped(collected, total.value)), fetched;
      }
      PagesAppend(source, fetched - 1);
      pages := pages + [payload];
      collected := collected + |payload.commits|;
    }
    if collected != total.value {
      return Failure(CountMismatch(total.value, collected)), fetched;
    }
    return Success(pages), fetched;
  }

  // De-duplication

  function Concat(pages: seq<Page>): seq<RawCommit> {
    if pages == [] then [] else Concat(pages[..|pages| - 1]) + pages[|pages| - 1].commits
  }

  predicate HasSha(commits: seq<RawCommit>, sha: string) {
    exists i :: 0 <= i < |commits| && commits[i].sha == sha
  }

  predicate DistinctShas(commits: seq<RawCommit>) {
    forall i, j | 0 <= i < j < |commits| :: commits[i].sha != commits[j].sha
  }

  /** Each commit whose SHA has not come before. */
  function FirstOccurrences(commits: seq<RawCommit>): seq<RawCommit> {
    if commits == [] then []
    else
      var init, last := commits[..|commits| - 1], commits[|commits| - 1];
      FirstOccurrences(init) + if HasSha(init, last.sha) then [] else [last]
  }

  /** `load_compare_commits` */
  method LoadCommits(pages: seq<Page>) returns (rows: seq<RawCommit>)
    ensures rows == FirstOccurrences(Concat(pages))
  {
    rows := [];
    var seen: set<string> := {};
    for i := 0 to |pages|
      invariant rows == FirstOccurrences(Concat(pages[..i]))
      invariant forall sha :: sha in seen <==> HasSha(Concat(pages[..i]), sha)
    {
      rows, seen := LoadPage(pages[i].commits, rows, seen, Concat(pages[..i]));
      assert pages[..i + 1][..i] == pages[..i];
    }
    assert pages[..|pages|] == pages;
  }

  method LoadPage(commits: seq<RawCommit>, rows0: seq<RawCommit>, seen0: set<string>, ghost before: seq<RawCommit>)
    returns (rows: seq<RawCommit>, seen: set<string>)
    requires rows0 == FirstOccurrences(before) && forall sha :: sha in seen0 <==> HasSha(before, sha)
    ensures rows == FirstOccurrences(before + commits) && forall sha :: sha in seen <==> HasSha(before + commits, sha)
  {
    rows, seen := rows0, seen0;
    assert before + commits[..0] == before;
    for j := 0 to |commits|
      invariant rows == FirstOccurrences(before + commits[..j])
      invariant forall sha :: sha in seen <==> HasSha(before + commits[..j], sha)
    {
      ghost var so := before + commits[..j];
      assert before + commits[..j + 1] == so + [commits[j]];
      HasShaAppend(so, commits[j]);
      assert (so + [commits[j]])[..|so|] == so;
      if commits[j].sha !in seen {
        rows := rows + [commits[j]];
        seen := seen + {commits[j].sha};
      }
    }
    assert commits[..|commits|] == commits;
  }

  lemma HasShaAppend(commits: seq<RawCommit>, last: RawCommit)
    ensures forall sha :: HasSha(commits + [last], sha) <==> HasSha(commits, sha) || sha == last.sha
  {
    var more := commits + [last];
    forall sha ensures HasSha(more, sha) <==> HasSha(commits, sha) || sha == last.sha {
      if HasSha(commits, sha) {
        var i :| 0 <= i < |commits| && commits[i].sha == sha;
        assert more[i].sha == sha;
      }
      if sha == last.sha { assert more[|commits|].sha == sha; }
    }
  }

  /** De-duplication keeps every SHA, once, and keeps the length exactly when there was nothing to remove. */
  lemma {:induction false} FirstOccurrencesExact(commits: seq<RawCommit>)
    ensures DistinctShas(FirstOccurrences(commits))
    ensures forall sha :: HasSha(FirstOccurrences(commits), sha) <==> HasSha(commits, sha)
    ensures |FirstOccurrences(commits)| <= |commits|
    ensures |FirstOccurrences(commits)| == |commits| <==> DistinctShas(commits)
    ensures DistinctShas(commits) ==> FirstOccurrences(commits) == commits
  {
    if commits != [] {
      var init, last := commits[..|commits| - 1], commits[|commits| - 1];
      assert commits == init + [last];
      FirstOccurrencesExact(init);
      HasShaAppend(init, last);
      HasShaAppend(FirstOccurrences(init), last);
      DistinctAppend(init, last);
      DistinctAppend(FirstOccurrences(init), last);
      assert FirstOccurrences(commits) == if HasSha(init, last.sha) then FirstOccurrences(init) else FirstOccurrences(init) + [last];
    }
  }

  lemma DistinctAppend(init: seq<RawCommit>, last: RawCommit)
    ensures DistinctShas(init + [last]) <==> DistinctShas(init) && !HasSha(init, last.sha)
  {
    var commits := init + [last];
    assert commits[|init|] == last && forall i | 0 <= i < |init| :: commits[i] == init[i];
  }

  lemma {:induction false} ConcatLength(source: PageSource, n: nat)
    ensures |Concat(PagesUpTo(source, n))| == CountUpTo(source, n)
  {
    if n > 0 {
      ConcatLength(source, n - 1);
      assert PagesUpTo(source, n)[..n - 1] == PagesUpTo(source, n - 1);
    }
  }

  /** After a complete paging run, the count check of `generate_inventory` passes exactly when no SHA was delivered twice. */
  lemma CountCheckExact(pages: seq<Page>, total: int)
    requires |Concat(pages)| == total
    ensures var all := Concat(pages);
            (|FirstOccurrences(all)| == total <==> DistinctShas(all)) &&
            (|FirstOccurrences(all)| == total ==> FirstOccurrences(all) == all)
  {
    FirstOccurrencesExact(Concat(pages));
  }

  /** Commit `i` is the first with its SHA. */
  predicate IsFirstAt(commits: seq<RawCommit>, i: int) {
    0 <= i < |commits| && forall j | 0 <= j < i :: commits[j].sha != commits[i].sha
  }

  /** The rows are exactly the commits that are first with their SHA. */
  lemma {:induction false} FirstOccurrencesAre(commits: seq<RawCommit>, c: RawCommit)
    ensures c in FirstOccurrences(commits) <==> exists i :: IsFirstAt(commits, i) && commits[i] == c
  {
    if commits != [] {
      var init, last := commits[..|commits| - 1], commits[|commits| - 1];
      assert commits == init + [last];
      FirstOccurrencesAre(init, c);
      forall i | 0 <= i < |init| ensures IsFirstAt(commits, i) <==> IsFirstAt(init, i) {
        assert forall j | 0 <= j <= i :: commits[j] == init[j];
      }
      assert IsFirstAt(commits, |init|) <==> !HasSha(init, last.sha) by {
        assert forall j | 0 <= j < |init| :: commits[j] == init[j];
      }
      assert commits[|init|] == last;
    }
  }

  /** And they keep the order of delivery: more commits only add rows at the end. */
  lemma {:induction false} FirstOccurrencesGrow(before: seq<RawCommit>, more: seq<RawCommit>)
    ensures FirstOccurrences(before) <= FirstOccurrences(before + more)
    decreases |more|
  {
    if more == [] {
      assert before + more == before;
    } else {
      var init := more[..|more| - 1];
      assert (before + more)[..|before + more| - 1] == before + init;
      FirstOccurrencesGrow(before, init);
    }
  }

  // Validated commit rows

  datatype CommitRow = CommitRow(sha: string, date: string, subject: string, category: Category, filesKnown: string)

  datatype CommitsError = WrongCount(expected: int, got: int) | DuplicateShas(shas: seq<string>)
    | InvalidShas(shas: seq<string>) | InvalidRows(shas: seq<string>)

  function ShasOf(commits: seq<CommitRow>): (shas: seq<string>)
    ensures |shas| == |commits|
    ensures forall i | 0 <= i < |commits| :: shas[i] == commits[i].sha
  {
    seq(|commits|, i requires 0 <= i < |commits| => commits[i].sha)
  }

  predicate Distinct(values: seq<string>) {
    forall i, j | 0 <= i < j < |values| :: values[i] != values[j]
  }

  predicate CommitOk(row: CommitRow) {
    row.date != "" && row.subject != "" && row.category.ForCommits() && (row.filesKnown == "true" || row.filesKnown == "false")
  }

  predicate CommitRowsOk(commits: seq<CommitRow>, expected: int) {
    |commits| == expected && Distinct(ShasOf(commits)) &&
    forall i | 0 <= i < |commits| :: IsHexDigest(commits[i].sha, 40) && CommitOk(commits[i])
  }

  function BadShas(commits: seq<CommitRow>): seq<string> {
    Picked(commits, (c: CommitRow) => !IsHexDigest(c.sha, 40), (c: CommitRow) => c.sha)
  }

  function BadRows(commits: seq<CommitRow>): seq<string> {
    Picked(commits, (c: CommitRow) => !CommitOk(c), (c: CommitRow) => c.sha)
  }

  lemma BadExact(commits: seq<CommitRow>, sha: string)
    ensures sha in BadShas(commits) <==> exists i :: 0 <= i < |commits| && !IsHexDigest(commits[i].sha, 40) && commits[i].sha == sha
    ensures sha in BadRows(commits) <==> exists i :: 0 <= i < |commits| && !CommitOk(commits[i]) && commits[i].sha == sha
    ensures BadShas(commits) == [] <==> forall i | 0 <= i < |commits| :: IsHexDigest(commits[i].sha, 40)
    ensures BadRows(commits) == [] <==> forall i | 0 <= i < |commits| :: CommitOk(commits[i])
  {
    PickedExact(commits, (c: CommitRow) => !IsHexDigest(c.sha, 40), (c: CommitRow) => c.sha, sha);
    PickedExact(commits, (c: CommitRow) => !CommitOk(c), (c: CommitRow) => c.sha, sha);
  }

  lemma NoDuplicatesMeansDistinct(values: seq<string>)
    ensures Duplicates(values) == {} <==> Distinct(values)
    ensures Sorted(Duplicates(values)) == [] <==> Distinct(values)
  {
    var d := Duplicates(values);
    if d == {} {
      forall i, j | 0 <= i < j < |values| ensures values[i] != values[j] {
        var v := values[i];
        assert v == values[j] ==> v in d;
      }
    } else {
      var v :| v in d;
      assert v in Sorted(d);
    }
  }

  /** `validate_commit_rows`: the first of its four checks that fails, with everything it lists. */
  method ValidateCommitRows(commits: seq<CommitRow>, expected: int) returns (error: Option<CommitsError>)
    ensures error.None? <==> CommitRowsOk(commits, expected)
    ensures error.Some? ==>
              match error.value
              case WrongCount(want, got) => want == expected != |commits| == got
              case DuplicateShas(shas) => |commits| == expected && shas == Sorted(Duplicates(ShasOf(commits))) != []
              case InvalidShas(shas) =>
                |commits| == expected && Distinct(ShasOf(commits)) && shas == Ordered(BadShas(commits)) != []
              case InvalidRows(shas) =>
                |commits| == expected && Distinct(ShasOf(commits)) && BadShas(commits) == [] && shas == Ordered(BadRows(commits)) != []
  {
    if |commits| != expected {
      return Some(WrongCount(expected, |commits|));
    }
    NoDuplicatesMeansDistinct(ShasOf(commits));
    var duplicates := DuplicateValues(ShasOf(commits));
    if duplicates != [] {
      return Some(DuplicateShas(duplicates));
    }
    BadExact(commits, "");
    OrderedEmptyIff(BadShas(commits));
    OrderedEmptyIff(BadRows(commits));
    var invalidShas := Ordered(BadShas(commits));
    if invalidShas != [] {
      return Some(InvalidShas(invalidShas));
    }
    var invalidRows := Ordered(BadRows(commits));
    if invalidRows != [] {
      return Some(InvalidRows(invalidRows));
    }
    return None;
  }

  // Generated commit rows

  /** The subject of a commit: the first line of its message without blanks around it. An empty message has no first line. */
  function SubjectOf(message: string): Option<string> {
    if SplitLines(message) == [] then None else Some(Strip(SplitLines(message)[0]))
  }

  datatype GenerateError = CountDiffers(expected: int, got: int) | NoSubject(sha: string)

  function RowOf(commit: RawCommit, classify: string -> Category): CommitRow
    requires SubjectOf(commit.message).Some?
  {
    var subject := SubjectOf(commit.message).value;
    CommitRow(commit.sha, commit.date, subject, classify(subject), "false")
  }

  /** The commit part of `generate_inventory`: the count check, then a row for each commit in order. */
  method GenerateRows(pages: seq<Page>, expected: int, classify: string -> Category) returns (r: Result<seq<CommitRow>, GenerateError>)
    ensures var commits := FirstOccurrences(Concat(pages));
            if |commits| != expected then r == Failure(CountDiffers(expected, |commits|))
            else if r.Failure? then exists i :: 0 <= i < |commits| && commits[i].message == "" && r.error == NoSubject(commits[i].sha)
            else AreRowsOf(commits, classify, r.value)
  {
    var commits := LoadCommits(pages);
    if |commits| != expected {
      return Failure(CountDiffers(expected, |commits|));
    }
    var rows := [];
    for i := 0 to |commits|
      invariant |rows| == i && forall j | 0 <= j < i :: SubjectOf(commits[j].message).Some? && rows[j] == RowOf(commits[j], classify)
    {
      if SubjectOf(commits[i].message).None? {
        NoLinesMeansEmpty(commits[i].message);
        return Failure(NoSubject(commits[i].sha));
      }
      rows := rows + [RowOf(commits[i], classify)];
    }
    return Success(rows);
  }

  lemma NoLinesMeansEmpty(s: string)
    ensures SplitLines(s) == [] <==> s == ""
  {
  }

  /** What the validator demands of a generated row, said of the commit. */
  predicate IsPresentable(commit: RawCommit, classify: string -> Category) {
    match SubjectOf(commit.message)
    case None => false
    case Some(subject) =>
      |commit.sha| == 40 && (forall c | c in commit.sha :: c in "0123456789abcdef") && commit.date != "" && subject != "" &&
      !classify(subject).OtherCategory? && classify(subject) != NeedsReview
  }

  lemma PresentableIff(commit: RawCommit, classify: string -> Category)
    requires SubjectOf(commit.message).Some?
    ensures IsHexDigest(commit.sha, 40) && CommitOk(RowOf(commit, classify)) <==> IsPresentable(commit, classify)
  {
    HexDigestIff(commit.sha, 40);
  }

  /** The rows are those of the commits, which all have a subject line. */
  predicate AreRowsOf(commits: seq<RawCommit>, classify: string -> Category, rows: seq<CommitRow>) {
    |rows| == |commits| && forall i | 0 <= i < |commits| :: SubjectOf(commits[i].message).Some? && rows[i] == RowOf(commits[i], classify)
  }

  /**
   * Rows generated from de-duplicated commits pass the validator if and only if every SHA is a lower-case SHA-1, every commit
   * is dated and has a subject, and every subject was classified.
   */
  lemma GeneratedAcceptedIff(pages: seq<Page>, classify: string -> Category, rows: seq<CommitRow>)
    requires AreRowsOf(FirstOccurrences(Concat(pages)), classify, rows)
    ensures var commits := FirstOccurrences(Concat(pages));
            CommitRowsOk(rows, |commits|) <==> forall i | 0 <= i < |commits| :: IsPresentable(commits[i], classify)
  {
    FirstOccurrencesExact(Concat(pages));
    RowsAcceptedIff(FirstOccurrences(Concat(pages)), classify, rows);
  }

  lemma RowsAcceptedIff(commits: seq<RawCommit>, classify: string -> Category, rows: seq<CommitRow>)
    requires DistinctShas(commits) && AreRowsOf(commits, classify, rows)
    ensures CommitRowsOk(rows, |commits|) <==> forall i | 0 <= i < |commits| :: IsPresentable(commits[i], classify)
  {
    DistinctRows(commits, classify, rows);
    forall i | 0 <= i < |commits| ensures IsHexDigest(rows[i].sha, 40) && CommitOk(rows[i]) <==> IsPresentable(commits[i], classify) {
      PresentableIff(commits[i], classify);
    }
    AcceptedIff(commits, rows, c => IsPresentable(c, classify));
  }

  lemma AcceptedIff(commits: seq<RawCommit>, rows: seq<CommitRow>, good: RawCommit -> bool)
    requires |rows| == |commits| && Distinct(ShasOf(rows))
    requires forall i | 0 <= i < |rows| :: IsHexDigest(rows[i].sha, 40) && CommitOk(rows[i]) <==> good(commits[i])
    ensures CommitRowsOk(rows, |commits|) <==> forall i | 0 <= i < |commits| :: good(commits[i])
  {
  }

  lemma DistinctRows(commits: seq<RawCommit>, classify: string -> Category, rows: seq<CommitRow>)
    requires DistinctShas(commits) && AreRowsOf(commits, classify, rows)
    ensures Distinct(ShasOf(rows))
  {
    forall i, j | 0 <= i < j < |rows| ensures ShasOf(rows)[i] != ShasOf(rows)[j] {
      assert commits[i].sha != commits[j].sha;
    }
  }

  /** A row is in order only if it says whether its files are known, in one of the two spellings. */
  lemma CommitOkIff(row: CommitRow)
    ensures CommitOk(row) <==>
            row.date != "" && row.subject != "" && !row.category.OtherCategory? && row.category != NeedsReview &&
            row.filesKnown in {"true", "false"}
  {
  }
}
