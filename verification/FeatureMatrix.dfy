/** The feature matrix: its rows, and the rule that the F rows cite every runtime commit exactly once. */
module FeatureMatrix {
  import opened Wrappers
  import opened Text
  import opened PathRules
  import opened CompareTrees
  import opened Commits

  /** A row of runtime-feature-matrix.md after the header aliases are applied. */
  datatype Feature = Feature(id: string, commits: string, disposition: Disposition, phase: string)

  datatype MatrixError =
    | InvalidFeatures(ids: seq<string>) | DuplicateIds(ids: seq<string>) | UnknownCommits(shas: seq<string>)
    | DuplicateAuthoritative(shas: seq<string>) | NonRuntime(shas: seq<string>) | Uncovered(shas: seq<string>)

  function FirstSpace(s: string): (k: nat)
    ensures k <= |s| && forall i | 0 <= i < k :: !IsSpace(s[i])
    ensures k < |s| ==> IsSpace(s[k])
  {
    if s == "" || IsSpace(s[0]) then 0 else 1 + FirstSpace(s[1..])
  }

  /** `s.split()`: the maximal runs of non-space characters. */
  function Words(s: string): (words: seq<string>)
    ensures forall w | w in words :: w != ""
    decreases |s|
  {
    var t := TrimLeft(s, IsSpace);
    if t == "" then []
    else
      var k := FirstSpace(t);
      [t[..k]] + Words(t[k..])
  }

  /** Splitting a space-separated list of words gives the words back. */
  lemma {:induction false} WordsOfList(words: seq<string>)
    requires forall i | 0 <= i < |words| :: words[i] != "" && forall c | c in words[i] :: !IsSpace(c)
    ensures Words(Join(words, ' ')) == words
  {
    if words != [] {
      var head, rest := words[0], words[1..];
      if rest == [] {
        WordsOfNext(head, "");
        assert head + "" == head;
      } else {
        var tail := " " + Join(rest, ' ');
        assert Join(words, ' ') == head + tail;
        WordsOfNext(head, tail);
        WordsSkipSpace(Join(rest, ' '));
        WordsOfList(rest);
      }
    }
  }

  lemma WordsOfNext(head: string, tail: string)
    requires head != "" && (forall c | c in head :: !IsSpace(c)) && (tail != "" ==> IsSpace(tail[0]))
    ensures Words(head + tail) == [head] + Words(tail)
  {
    var s := head + tail;
    assert head[0] in head && s[0] == head[0];
    FirstSpaceAt(head, tail);
    assert s[..|head|] == head && s[|head|..] == tail;
  }

  lemma WordsSkipSpace(s: string)
    ensures Words(" " + s) == Words(s)
  {
    assert (" " + s)[1..] == s;
  }

  lemma FirstSpaceAt(head: string, tail: string)
    requires forall c | c in head :: !IsSpace(c)
    requires tail != "" ==> IsSpace(tail[0])
    ensures FirstSpace(head + tail) == |head|
  {
    var s := head + tail;
    assert forall i | 0 <= i < |head| :: s[i] == head[i] && head[i] in head;
    if tail != "" { assert s[|head|] == tail[0]; }
  }

  predicate ValidId(id: string) {
    |id| == 4 && (id[0] == 'F' || id[0] == 'R') && IsDigit(id[1]) && IsDigit(id[2]) && IsDigit(id[3])
  }

  predicate FeatureOk(row: Feature) {
    ValidId(row.id) && Strip(row.commits) != "" && !row.disposition.OtherDisposition? &&
    |row.phase| == 1 && '2' <= row.phase[0] <= '6'
  }

  predicate IsAuthoritative(row: Feature) {
    row.id != "" && row.id[0] == 'F'
  }

  predicate IsRuntime(category: Category) {
    category.RuntimeProtocol? || category.RuntimeProvider? || (category.OtherCategory? && "runtime_" <= category.text)
  }

  function Referenced(features: seq<Feature>): seq<string> {
    if features == [] then [] else Referenced(features[..|features| - 1]) + Words(features[|features| - 1].commits)
  }

  /** The SHAs cited by F rows, in order, repetitions included. */
  function Authoritative(features: seq<Feature>): seq<string> {
    if features == [] then []
    else
      var last := features[|features| - 1];
      Authoritative(features[..|features| - 1]) + if IsAuthoritative(last) then Words(last.commits) else []
  }

  /** `{row["sha"]: row["category"]}`: the last row of a SHA wins. */
  function Known(commits: seq<CommitRow>): map<string, Category> {
    if commits == [] then map[]
    else Known(commits[..|commits| - 1])[commits[|commits| - 1].sha := commits[|commits| - 1].category]
  }

  function RuntimeShas(commits: seq<CommitRow>): seq<string> {
    if commits == [] then []
    else
      var last := commits[|commits| - 1];
      RuntimeShas(commits[..|commits| - 1]) + if IsRuntime(last.category) then [last.sha] else []
  }

  function IdsOf(features: seq<Feature>): (ids: seq<string>)
    ensures |ids| == |features|
  {
    seq(|features|, i requires 0 <= i < |features| => features[i].id)
  }

  /** Rows well formed, ids unique, and every citation known. */
  predicate CitationsOk(commits: seq<CommitRow>, features: seq<Feature>) {
    (forall i | 0 <= i < |features| :: FeatureOk(features[i])) && Distinct(IdsOf(features)) &&
    forall sha | sha in Referenced(features) :: sha in Known(commits)
  }

  predicate MatrixOk(commits: seq<CommitRow>, features: seq<Feature>) {
    CitationsOk(commits, features) && Distinct(Authoritative(features)) &&
    (forall sha | sha in Authoritative(features) :: sha in Known(commits) && IsRuntime(Known(commits)[sha])) &&
    forall sha | sha in RuntimeShas(commits) :: sha in Authoritative(features)
  }

  lemma {:induction false} AuthoritativeIsReferenced(features: seq<Feature>, sha: string)
    requires sha in Authoritative(features)
    ensures sha in Referenced(features)
  {
    if sha in Authoritative(features[..|features| - 1]) {
      AuthoritativeIsReferenced(features[..|features| - 1], sha);
    }
  }

  function BadFeatures(features: seq<Feature>): seq<string> {
    Picked(features, (f: Feature) => !FeatureOk(f), (f: Feature) => f.id)
  }

  lemma BadFeaturesExact(features: seq<Feature>, id: string)
    ensures id in BadFeatures(features) <==> exists i :: 0 <= i < |features| && !FeatureOk(features[i]) && features[i].id == id
    ensures BadFeatures(features) == [] <==> forall i | 0 <= i < |features| :: FeatureOk(features[i])
  {
    PickedExact(features, (f: Feature) => !FeatureOk(f), (f: Feature) => f.id, id);
  }

  /** The cited SHAs that are not runtime commits. */
  function NotRuntime(known: map<string, Category>, cited: seq<string>): seq<string> {
    Picked(cited, sha => !(sha in known && IsRuntime(known[sha])), sha => sha)
  }

  /** The runtime SHAs that are not cited. */
  function NotCited(runtime: seq<string>, cited: seq<string>): seq<string> {
    Picked(runtime, sha => sha !in cited, sha => sha)
  }

  lemma CoverGapsExact(known: map<string, Category>, cited: seq<string>, runtime: seq<string>, sha: string)
    ensures sha in NotRuntime(known, cited) <==> sha in cited && !(sha in known && IsRuntime(known[sha]))
    ensures sha in NotCited(runtime, cited) <==> sha in runtime && sha !in cited
    ensures NotRuntime(known, cited) == [] <==> forall s | s in cited :: s in known && IsRuntime(known[s])
    ensures NotCited(runtime, cited) == [] <==> forall s | s in runtime :: s in cited
  {
    PickedExact(cited, s => !(s in known && IsRuntime(known[s])), s => s, sha);
    PickedExact(runtime, s => s !in cited, s => s, sha);
  }

  /** The error is that of the first check that fails, with all that the check lists. */
  predicate IsFirstFailure(commits: seq<CommitRow>, features: seq<Feature>, error: MatrixError) {
    var unknown := set sha | sha in Referenced(features) && sha !in Known(commits);
    var cited := Authoritative(features);
    if error.InvalidFeatures? then error.ids == BadFeatures(features) != []
    else
      BadFeatures(features) == [] &&
      if error.DuplicateIds? then error.ids == Sorted(Duplicates(IdsOf(features))) != []
      else
        Distinct(IdsOf(features)) &&
        if error.UnknownCommits? then error.shas == Sorted(unknown) != []
        else CitationsOk(commits, features) && IsCoverFailure(Known(commits), cited, RuntimeShas(commits), error)
  }

  predicate IsCoverFailure(known: map<string, Category>, cited: seq<string>, runtime: seq<string>, error: MatrixError) {
    if error.DuplicateAuthoritative? then error.shas == Sorted(Duplicates(cited)) != []
    else
      Distinct(cited) &&
      if error.NonRuntime? then error.shas == Ordered(NotRuntime(known, cited)) != []
      else NotRuntime(known, cited) == [] && error.Uncovered? && error.shas == Ordered(NotCited(runtime, cited)) != []
  }

  /** `validate_matrix`; the lookup `known[sha]` of its fifth check is always defined. */
  method ValidateMatrix(commits: seq<CommitRow>, features: seq<Feature>) returns (error: Option<MatrixError>)
    ensures error.None? <==> MatrixOk(commits, features)
    ensures error.Some? ==> IsFirstFailure(commits, features, error.value)
  {
    BadFeaturesExact(features, "");
    var invalid := BadFeatures(features);
    if invalid != [] {
      return Some(InvalidFeatures(invalid));
    }
    NoDuplicatesMeansDistinct(IdsOf(features));
    var duplicateIds := DuplicateValues(IdsOf(features));
    if duplicateIds != [] {
      return Some(DuplicateIds(duplicateIds));
    }
    var known := Known(commits);
    var unknown := Unlisted(Referenced(features), known.Keys);
    if unknown != [] {
      return Some(UnknownCommits(unknown));
    }
    forall sha | sha in Authoritative(features) ensures sha in known { AuthoritativeIsReferenced(features, sha); }
    error := ValidateCover(known, Authoritative(features), RuntimeShas(commits));
  }

  /** `sorted(set(values) - listed)` */
  method Unlisted(values: seq<string>, listed: set<string>) returns (r: seq<string>)
    ensures r == [] <==> forall v | v in values :: v in listed
    ensures r == Sorted(set v | v in values && v !in listed)
  {
    var missing := set v | v in values && v !in listed;
    r := Sorted(missing);
    if missing == {} {
      assert forall v | v in values :: v !in missing;
    } else {
      ghost var v :| v in missing;
      assert v in r;
    }
  }

  method ValidateCover(known: map<string, Category>, cited: seq<string>, runtime: seq<string>) returns (error: Option<MatrixError>)
    requires forall sha | sha in cited :: sha in known
    ensures error.None? <==> Distinct(cited) && (forall sha | sha in cited :: IsRuntime(known[sha])) && forall sha | sha in runtime :: sha in cited
    ensures error.Some? ==> IsCoverFailure(known, cited, runtime, error.value)
    ensures error.Some? ==> error.value.DuplicateAuthoritative? || error.value.NonRuntime? || error.value.Uncovered?
  {
    NoDuplicatesMeansDistinct(cited);
    var duplicates := DuplicateValues(cited);
    if duplicates != [] {
      return Some(DuplicateAuthoritative(duplicates));
    }
    CoverGapsExact(known, cited, runtime, "");
    OrderedEmptyIff(NotRuntime(known, cited));
    OrderedEmptyIff(NotCited(runtime, cited));
    var nonRuntime := Ordered(NotRuntime(known, cited));
    if nonRuntime != [] {
      return Some(NonRuntime(nonRuntime));
    }
    var missing := Ordered(NotCited(runtime, cited));
    if missing != [] {
      return Some(Uncovered(missing));
    }
    return None;
  }

  // Exact coverage

  lemma {:induction false} KnownAndRuntime(commits: seq<CommitRow>, sha: string)
    requires Distinct(ShasOf(commits))
    ensures sha in RuntimeShas(commits) <==> sha in Known(commits) && IsRuntime(Known(commits)[sha])
    ensures sha in Known(commits) <==> sha in ShasOf(commits)
    ensures Distinct(RuntimeShas(commits))
  {
    if commits != [] {
      var init, last := commits[..|commits| - 1], commits[|commits| - 1];
      assert forall i | 0 <= i < |init| :: ShasOf(init)[i] == ShasOf(commits)[i];
      KnownAndRuntime(init, sha);
      KnownAndRuntime(init, last.sha);
      assert ShasOf(commits) == ShasOf(init) + [last.sha];
      assert last.sha !in ShasOf(init) by {
        assert forall i | 0 <= i < |init| :: ShasOf(commits)[i] != ShasOf(commits)[|init|];
      }
    }
  }

  lemma {:induction false} DistinctMultiplicity(values: seq<string>, v: string)
    ensures Distinct(values) ==> multiset(values)[v] <= 1
    ensures v in values <==> multiset(values)[v] > 0
  {
    if values != [] {
      var init, last := values[..|values| - 1], values[|values| - 1];
      assert values == init + [last];
      assert forall i | 0 <= i < |init| :: init[i] == values[i];
      DistinctMultiplicity(init, v);
      if Distinct(values) && last == v {
        assert v !in init;
      }
    }
  }

  lemma {:induction false} SparseIsDistinct(values: seq<string>)
    requires forall v :: multiset(values)[v] <= 1
    ensures Distinct(values)
  {
    if values != [] {
      var init, last := values[..|values| - 1], values[|values| - 1];
      assert values == init + [last];
      assert forall v :: multiset(init)[v] <= multiset(values)[v];
      SparseIsDistinct(init);
      assert last !in init by {
        DistinctMultiplicity(init, last);
        assert multiset(values)[last] == multiset(init)[last] + 1;
      }
    }
  }

  lemma SameDistinctContents(a: seq<string>, b: seq<string>)
    requires Distinct(b)
    ensures multiset(a) == multiset(b) <==> Distinct(a) && forall v :: v in a <==> v in b
  {
    forall v ensures (Distinct(a) ==> multiset(a)[v] <= 1) && multiset(b)[v] <= 1
             ensures (v in a <==> multiset(a)[v] > 0) && (v in b <==> multiset(b)[v] > 0)
    {
      DistinctMultiplicity(a, v);
      DistinctMultiplicity(b, v);
    }
    if multiset(a) == multiset(b) {
      SparseIsDistinct(a);
    }
  }

  /**
   * For distinct commits and well-formed citations, the matrix is accepted exactly when the multiset of SHAs cited by
   * F rows is the multiset of runtime commits: each covered once, nothing else cited.
   */
  lemma {:induction false} MatrixIsExactCover(commits: seq<CommitRow>, features: seq<Feature>, expected: int)
    requires CommitRowsOk(commits, expected)
    ensures MatrixOk(commits, features) <==>
            CitationsOk(commits, features) && multiset(Authoritative(features)) == multiset(RuntimeShas(commits))
  {
    var cited, runtime := Authoritative(features), RuntimeShas(commits);
    forall sha ensures sha in runtime <==> sha in Known(commits) && IsRuntime(Known(commits)[sha])
    {
      KnownAndRuntime(commits, sha);
    }
    KnownAndRuntime(commits, "");
    SameDistinctContents(cited, runtime);
  }

  // What the rows say

  /** A well-formed row: an id of F or R and three digits, something cited, a known disposition, a phase from 2 to 6. */
  lemma FeatureOkIff(row: Feature)
    ensures FeatureOk(row) <==>
            (exists letter, a, b, c :: letter in "FR" && a in "0123456789" && b in "0123456789" && c in "0123456789" && row.id == [letter, a, b, c]) &&
            Strip(row.commits) != "" && !row.disposition.OtherDisposition? && row.phase in {"2", "3", "4", "5", "6"}
  {
    DigitIff();
    if FeatureOk(row) {
      assert row.id == [row.id[0], row.id[1], row.id[2], row.id[3]];
      assert row.phase == [row.phase[0]];
    }
  }

  lemma DigitIff()
    ensures forall c :: IsDigit(c) <==> c in "0123456789"
  {
  }

  /** Some row, with an id that starts with `prefix`, cites the SHA. */
  predicate IsCited(features: seq<Feature>, prefix: string, sha: string) {
    exists i :: 0 <= i < |features| && prefix <= features[i].id && sha in Words(features[i].commits)
  }

  lemma IsCitedAppend(init: seq<Feature>, last: Feature, prefix: string, sha: string)
    ensures IsCited(init + [last], prefix, sha) <==> IsCited(init, prefix, sha) || (prefix <= last.id && sha in Words(last.commits))
  {
    var more := init + [last];
    assert more[|init|] == last && forall i | 0 <= i < |init| :: more[i] == init[i];
  }

  /** A SHA is authoritative when a row whose id starts with F cites it. */
  lemma {:induction false} AuthoritativeIff(features: seq<Feature>, sha: string)
    ensures sha in Authoritative(features) <==> IsCited(features, "F", sha)
  {
    if features != [] {
      var init, last := features[..|features| - 1], features[|features| - 1];
      assert features == init + [last];
      AuthoritativeIff(init, sha);
      IsCitedAppend(init, last, "F", sha);
    }
  }

  lemma {:induction false} ReferencedIff(features: seq<Feature>, sha: string)
    ensures sha in Referenced(features) <==> IsCited(features, "", sha)
  {
    if features != [] {
      var init, last := features[..|features| - 1], features[|features| - 1];
      assert features == init + [last];
      ReferencedIff(init, sha);
      IsCitedAppend(init, last, "", sha);
    }
  }

  /** A SHA is a runtime one when some commit of it has a category that starts with `runtime_`. */
  lemma {:induction false} RuntimeIff(commits: seq<CommitRow>, sha: string)
    ensures sha in RuntimeShas(commits) <==>
            exists i :: 0 <= i < |commits| && commits[i].sha == sha && HasRuntimeName(commits[i].category)
  {
    if commits != [] {
      var init := commits[..|commits| - 1];
      RuntimeIff(init, sha);
      assert forall i | 0 <= i < |init| :: init[i] == commits[i];
    }
  }

  predicate HasRuntimeName(category: Category) {
    match category
    case RuntimeProtocol | RuntimeProvider => true
    case OtherCategory(text) => "runtime_" <= text
    case _ => false
  }

  /** Any blank separates words. */
  lemma {:induction false} WordsConcat(a: string, c: char, b: string)
    requires IsSpace(c)
    ensures Words(a + [c] + b) == Words(a) + Words(b)
    decreases |a|
  {
    var s := a + [c] + b;
    if a == "" {
      assert s[1..] == b;
    } else if IsSpace(a[0]) {
      assert s[1..] == a[1..] + [c] + b;
      WordsConcat(a[1..], c, b);
    } else {
      var k := FirstSpace(a);
      var word, rest := a[..k], a[k..];
      assert a == word + rest && forall x | x in word :: !IsSpace(x);
      WordsOfNext(word, rest);
      assert s == word + (rest + [c] + b);
      WordsOfNext(word, rest + [c] + b);
      WordsConcat(rest, c, b);
      Assoc([word], Words(rest), Words(b));
    }
  }
}
