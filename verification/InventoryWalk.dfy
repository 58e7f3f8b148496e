/** The pruned directory walk: which files of a tree enter the inventory. */
module InventoryWalk {
  import opened Wrappers
  import opened Text
  import opened FileTree

  /** IGNORED_PARTS */
  predicate IsIgnoredPart(s: string) {
    s == ".git" || s == ".cache" || s == ".mypy_cache" || s == ".pytest_cache" ||
    s == "__pycache__" || s == "coverage" || s == "dist" || s == "node_modules"
  }

  /** IGNORED_SUFFIXES */
  predicate IsIgnoredSuffix(s: string) {
    s == ".a" || s == ".dll" || s == ".dylib" || s == ".exe" || s == ".gz" || s == ".o" || s == ".obj" ||
    s == ".pyc" || s == ".so" || s == ".tar" || s == ".tgz" || s == ".tsbuildinfo" || s == ".zip"
  }

  /** IGNORED_FILENAMES */
  predicate IsIgnoredFilename(s: string) {
    s == "vite.config.d.ts" || s == "vite.config.js"
  }

  predicate NoIgnoredPart(relative: string) {
    forall part | part in Parts(Slashes(relative)) :: !IsIgnoredPart(part)
  }

  /** The test on the last component only: neither an ignored name nor an ignored suffix. */
  predicate NameAllowed(relative: string) {
    var name := BaseName(Parts(Slashes(relative)));
    !IsIgnoredFilename(name) && !IsIgnoredSuffix(Lower(Suffix(name)))
  }

  predicate IncludePath(relative: string) {
    NoIgnoredPart(relative) && NameAllowed(relative)
  }

  predicate Excluded(relative: string, prefixes: seq<string>) {
    exists i | 0 <= i < |prefixes| :: relative == prefixes[i] || prefixes[i] + "/" <= relative
  }

  predicate Admitted(relative: string, prefixes: seq<string>) {
    !Excluded(relative, prefixes) && IncludePath(relative)
  }

  /** Which relative paths a walk lets through. */
  type Filter = string -> bool

  function AdmittedBy(prefixes: seq<string>): Filter {
    relative => Admitted(relative, prefixes)
  }

  /** A file is kept when it and every directory above it, below the root, is admitted. */
  ghost predicate Kept(root: Node, admit: Filter, p: Path) {
    FileAt(root, p).Some? && p != [] &&
    forall i | 0 < i <= |p| :: admit(Joined(p[..i]))
  }

  /** `files` maps the path string of each member of `paths`, and nothing else, to its content. */
  ghost predicate Represents(root: Node, files: map<string, Bytes>, paths: set<Path>) {
    (forall p | p in paths :: p != [] && FileAt(root, p).Some? && Joined(p) in files && files[Joined(p)] == FileAt(root, p).value) &&
    (forall k | k in files :: exists p :: p in paths && Joined(p) == k)
  }

  lemma RepresentsAdd(root: Node, files: map<string, Bytes>, paths: set<Path>, p: Path)
    requires WellFormed(root) && Represents(root, files, paths)
    requires p != [] && FileAt(root, p).Some?
    ensures Represents(root, files[Joined(p) := FileAt(root, p).value], paths + {p})
  {
    var more := files[Joined(p) := FileAt(root, p).value];
    forall q | q in paths + {p} ensures Joined(q) in more && more[Joined(q)] == FileAt(root, q).value {
      if Joined(q) == Joined(p) {
        LookupNames(root, p);
        LookupNames(root, q);
        JoinedInjective(p, q);
      }
    }
    forall k | k in more ensures exists q :: q in paths + {p} && Joined(q) == k {
      if k == Joined(p) {
        assert p in paths + {p};
      } else {
        var q :| q in paths && Joined(q) == k;
        assert q in paths + {p};
      }
    }
  }

  lemma RepresentsUnique(root: Node, m: map<string, Bytes>, n: map<string, Bytes>, paths: set<Path>)
    requires Represents(root, m, paths) && Represents(root, n, paths)
    ensures m == n
  {
    forall k | k in m ensures k in n && m[k] == n[k] {
      var p :| p in paths && Joined(p) == k;
    }
    forall k | k in n ensures k in m {
      var p :| p in paths && Joined(p) == k;
    }
  }

  lemma {:induction false} RepresentationExists(root: Node, paths: set<Path>)
    requires WellFormed(root) && forall p | p in paths :: p != [] && FileAt(root, p).Some?
    ensures exists m :: Represents(root, m, paths)
    decreases |paths|
  {
    if paths == {} {
      assert Represents(root, map[], paths);
    } else {
      var p :| p in paths;
      RepresentationExists(root, paths - {p});
      var m :| Represents(root, m, paths - {p});
      RepresentsAdd(root, m, paths - {p}, p);
      assert paths - {p} + {p} == paths;
    }
  }

  ghost function KeptPaths(root: Node, admit: Filter): (paths: set<Path>)
    ensures forall p :: p in paths <==> Kept(root, admit, p)
  {
    assert forall p | Kept(root, admit, p) :: p in AllFiles(root) by {
      forall p | Kept(root, admit, p) ensures p in AllFiles(root) { AllFilesIff(root, p); }
    }
    set p | p in AllFiles(root) && Kept(root, admit, p)
  }

  /** What the inventory of a tree is: path strings of the kept files with their contents. */
  ghost function InventoryOf(root: Node, admit: Filter): (m: map<string, Bytes>)
    requires WellFormed(root)
    ensures Represents(root, m, KeptPaths(root, admit))
  {
    RepresentationExists(root, KeptPaths(root, admit));
    var m :| Represents(root, m, KeptPaths(root, admit));
    m
  }

  function Relative(relativeDirectory: string, name: string): string {
    if relativeDirectory != "" then relativeDirectory + "/" + name else name
  }

  lemma RelativeIsJoined(base: Path, name: string)
    requires AreNames(base) && IsName(name)
    ensures Relative(Joined(base), name) == Joined(base + [name])
  {
    if base != [] {
      JoinConcat(base, [name], '/');
      JoinedShape(base);
    } else {
      assert base + [name] == [name];
    }
  }

  /** The in-place edit of `dirnames`: only the admitted sub-directories are descended into. */
  method PruneDirectories(dirnames: set<string>, relativeDirectory: string, ghost base: Path, admit: Filter)
    returns (kept: set<string>)
    requires AreNames(base) && relativeDirectory == Joined(base) && forall name | name in dirnames :: IsName(name)
    ensures forall name :: name in kept <==> name in dirnames && admit(Joined(base + [name]))
  {
    kept := {};
    var pending := dirnames;
    while pending != {}
      invariant pending <= dirnames && kept <= dirnames - pending
      invariant forall name | name in dirnames - pending :: name in kept <==> admit(Joined(base + [name]))
      decreases |pending|
    {
      var name :| name in pending;
      pending := pending - {name};
      RelativeIsJoined(base, name);
      if admit(Relative(relativeDirectory, name)) {
        kept := kept + {name};
      }
    }
  }

  /** `dir` stands at `base` below `root`, and the walk was allowed to get there. */
  ghost predicate Reached(root: Node, base: Path, dir: Node, admit: Filter) {
    WellFormed(root) && Lookup(root, base) == Some(dir) && dir.Dir? &&
    forall i | 0 < i <= |base| :: admit(Joined(base[..i]))
  }

  lemma ReachedEntry(root: Node, base: Path, dir: Node, admit: Filter, name: string)
    requires Reached(root, base, dir, admit) && name in dir.entries
    ensures Lookup(root, base + [name]) == Some(dir.entries[name])
    ensures AreNames(base) && IsName(name) && WellFormed(dir)
    ensures admit(Joined(base + [name])) ==> forall i | 0 < i <= |base| + 1 :: admit(Joined((base + [name])[..i]))
  {
    LookupNames(root, base);
    LookupConcat(root, base, [name]);
    LookupSingle(dir, [name]);
    assert forall i | 0 < i <= |base| :: (base + [name])[..i] == base[..i];
    assert (base + [name])[..|base| + 1] == base + [name];
  }

  /** Files at or below an entry of `dir`: none if the entry is not admitted, one if it is a file. */
  lemma KeptAtEntry(root: Node, base: Path, dir: Node, admit: Filter, name: string, p: Path)
    requires Reached(root, base, dir, admit) && name in dir.entries
    requires base + [name] <= p
    ensures !admit(Joined(base + [name])) ==> !Kept(root, admit, p)
    ensures dir.entries[name].File? && Kept(root, admit, p) ==> p == base + [name]
    ensures dir.entries[name].Dir? && Kept(root, admit, p) ==> base + [name] < p
  {
    ReachedEntry(root, base, dir, admit, name);
    assert p[..|base| + 1] == base + [name];
    var q := p[|base| + 1..];
    assert p == base + [name] + q;
    LookupConcat(root, base + [name], q);
  }

  /** Which paths have been collected once the entries `done` of the directory at `base` are dealt with. */
  ghost predicate CollectedAfter(root: Node, base: Path, admit: Filter, before: set<Path>, done: set<string>, after: set<Path>) {
    forall p :: p in after <==> p in before || (Kept(root, admit, p) && base < p && p[|base|] in done)
  }

  /** The admitted files directly inside `dir`. */
  method RecordFiles(ghost root: Node, dir: Node, filenames: set<string>, relativeDirectory: string, ghost base: Path,
                     admit: Filter, files0: map<string, Bytes>, ghost paths0: set<Path>)
    returns (files: map<string, Bytes>, ghost paths: set<Path>)
    requires Reached(root, base, dir, admit) && relativeDirectory == Joined(base)
    requires filenames == set name | name in dir.entries && dir.entries[name].File?
    requires Represents(root, files0, paths0)
    ensures Represents(root, files, paths) && CollectedAfter(root, base, admit, paths0, filenames, paths)
  {
    files, paths := files0, paths0;
    var pending := filenames;
    ghost var done := {};
    while pending != {}
      invariant pending + done == filenames && pending !! done
      invariant Represents(root, files, paths) && CollectedAfter(root, base, admit, paths0, done, paths)
      decreases |pending|
    {
      var name :| name in pending;
      RecordStep(root, base, dir, admit, files, paths0, done, paths, name);
      var relative := Relative(relativeDirectory, name);
      if admit(relative) {
        files, paths := files[relative := dir.entries[name].content], paths + {base + [name]};
      }
      pending, done := pending - {name}, done + {name};
    }
  }

  lemma RecordStep(root: Node, base: Path, dir: Node, admit: Filter, files: map<string, Bytes>, before: set<Path>, done: set<string>,
                   here: set<Path>, name: string)
    requires Reached(root, base, dir, admit) && name in dir.entries && dir.entries[name].File?
    requires Represents(root, files, here) && CollectedAfter(root, base, admit, before, done, here)
    ensures Relative(Joined(base), name) == Joined(base + [name])
    ensures admit(Joined(base + [name])) ==>
              Represents(root, files[Joined(base + [name]) := dir.entries[name].content], here + {base + [name]}) &&
              CollectedAfter(root, base, admit, before, done + {name}, here + {base + [name]})
    ensures !admit(Joined(base + [name])) ==> CollectedAfter(root, base, admit, before, done + {name}, here)
  {
    ReachedEntry(root, base, dir, admit, name);
    RelativeIsJoined(base, name);
    if admit(Joined(base + [name])) {
      RepresentsAdd(root, files, here, base + [name]);
      EntryDone(root, base, dir, admit, before, done, name, here, here + {base + [name]});
    } else {
      EntryDone(root, base, dir, admit, before, done, name, here, here);
    }
  }

  /** The paths that the walk collects through one entry. */
  ghost predicate Through(root: Node, base: Path, dir: Node, admit: Filter, name: string, p: Path)
    requires dir.Dir? && name in dir.entries
  {
    admit(Joined(base + [name])) &&
    if dir.entries[name].File? then p == base + [name] else Kept(root, admit, p) && base + [name] < p
  }

  /** Progress by one entry: `here` becomes `next` by adding exactly the kept paths through `name`. */
  lemma EntryDone(root: Node, base: Path, dir: Node, admit: Filter, before: set<Path>, done: set<string>, name: string,
                  here: set<Path>, next: set<Path>)
    requires Reached(root, base, dir, admit) && name in dir.entries
    requires CollectedAfter(root, base, admit, before, done, here)
    requires forall p :: p in next <==> p in here || Through(root, base, dir, admit, name, p)
    ensures CollectedAfter(root, base, admit, before, done + {name}, next)
  {
    ReachedEntry(root, base, dir, admit, name);
    forall p
      ensures p in next <==> p in before || (Kept(root, admit, p) && base < p && p[|base|] in done + {name})
    {
      if base < p && p[|base|] == name {
        assert base + [name] <= p;
        KeptAtEntry(root, base, dir, admit, name, p);
      }
      if base + [name] < p {
        assert p[|base|] == (base + [name])[|base|];
        assert base < p;
      }
    }
  }

  /** One directory of the walk: prune, record, descend. The order in which entries are listed is left open. */
  method WalkDirectory(ghost root: Node, dir: Node, relativeDirectory: string, ghost base: Path, admit: Filter,
                       files0: map<string, Bytes>, ghost paths0: set<Path>)
    returns (files: map<string, Bytes>, ghost paths: set<Path>)
    requires Reached(root, base, dir, admit) && relativeDirectory == Joined(base)
    requires Represents(root, files0, paths0)
    ensures Represents(root, files, paths)
    ensures forall p :: p in paths <==> p in paths0 || (Kept(root, admit, p) && base < p)
    decreases dir, 1
  {
    LookupNames(root, base);
    var dirnames := set name | name in dir.entries && dir.entries[name].Dir?;
    var filenames := set name | name in dir.entries && dir.entries[name].File?;
    var kept := PruneDirectories(dirnames, relativeDirectory, base, admit);
    files, paths := RecordFiles(root, dir, filenames, relativeDirectory, base, admit, files0, paths0);
    assert filenames == dir.entries.Keys - dirnames;
    files, paths := Descend(root, dir, dirnames, kept, relativeDirectory, base, admit, files, paths0, paths);
    AllEntriesDone(root, base, dir, admit, paths0, dir.entries.Keys, paths);
  }

  method Descend(ghost root: Node, dir: Node, dirnames: set<string>, kept: set<string>, relativeDirectory: string, ghost base: Path,
                 admit: Filter, files0: map<string, Bytes>, ghost before: set<Path>, ghost paths0: set<Path>)
    returns (files: map<string, Bytes>, ghost paths: set<Path>)
    requires Reached(root, base, dir, admit) && relativeDirectory == Joined(base)
    requires dirnames == set name | name in dir.entries && dir.entries[name].Dir?
    requires forall name :: name in kept <==> name in dirnames && admit(Joined(base + [name]))
    requires Represents(root, files0, paths0) && CollectedAfter(root, base, admit, before, dir.entries.Keys - dirnames, paths0)
    ensures Represents(root, files, paths) && CollectedAfter(root, base, admit, before, dir.entries.Keys, paths)
    decreases dir, 0
  {
    files, paths := files0, paths0;
    var pending := dirnames;
    while pending != {}
      invariant pending <= dirnames
      invariant Represents(root, files, paths) && CollectedAfter(root, base, admit, before, dir.entries.Keys - pending, paths)
      decreases |pending|
    {
      var name :| name in pending;
      ghost var here, done := paths, dir.entries.Keys - pending;
      if name in kept {
        ReachedEntry(root, base, dir, admit, name);
        RelativeIsJoined(base, name);
        files, paths := WalkDirectory(root, dir.entries[name], Relative(relativeDirectory, name), base + [name], admit, files, paths);
      }
      EntryDone(root, base, dir, admit, before, done, name, here, paths);
      pending := pending - {name};
      assert dir.entries.Keys - pending == done + {name};
    }
    assert dir.entries.Keys - pending == dir.entries.Keys;
  }

  lemma AllEntriesDone(root: Node, base: Path, dir: Node, admit: Filter, before: set<Path>, done: set<string>, after: set<Path>)
    requires Reached(root, base, dir, admit) && done == dir.entries.Keys
    requires CollectedAfter(root, base, admit, before, done, after)
    ensures forall p :: p in after <==> p in before || (Kept(root, admit, p) && base < p)
  {
    forall p | Kept(root, admit, p) && base < p ensures p[|base|] in done {
      var q := p[|base|..];
      assert p == base + q;
      LookupConcat(root, base, q);
    }
  }

  /** `inventory_files`; a root that is not a directory is walked as an empty one. */
  method InventoryFiles(root: Node, prefixes: seq<string>) returns (files: map<string, Bytes>)
    requires WellFormed(root)
    ensures files == InventoryOf(root, AdmittedBy(prefixes))
  {
    files := Walk(root, AdmittedBy(prefixes));
  }

  method Walk(root: Node, admit: Filter) returns (files: map<string, Bytes>)
    requires WellFormed(root)
    ensures files == InventoryOf(root, admit)
  {
    files := map[];
    ghost var paths: set<Path> := {};
    if root.Dir? {
      files, paths := WalkDirectory(root, root, "", [], admit, files, paths);
    }
    assert paths == KeptPaths(root, admit);
    RepresentsUnique(root, files, InventoryOf(root, admit), paths);
  }

  // What the pruning amounts to

  /** The inventory is exactly the kept files: nothing more, nothing less, each with its own content. */
  lemma {:induction false} InventoryIff(root: Node, admit: Filter, p: Path)
    requires WellFormed(root) && p != [] && AreNames(p)
    ensures Joined(p) in InventoryOf(root, admit) <==> Kept(root, admit, p)
    ensures Kept(root, admit, p) ==> InventoryOf(root, admit)[Joined(p)] == FileAt(root, p).value
  {
    if Joined(p) in InventoryOf(root, admit) {
      var q := InventoryKey(root, admit, Joined(p));
      JoinedInjective(p, q);
    }
  }

  lemma InventoryKey(root: Node, admit: Filter, key: string) returns (p: Path)
    requires WellFormed(root) && key in InventoryOf(root, admit)
    ensures Kept(root, admit, p) && AreNames(p) && key == Joined(p)
    ensures InventoryOf(root, admit)[key] == FileAt(root, p).value
  {
    p :| p in KeptPaths(root, admit) && Joined(p) == key;
    LookupNames(root, p);
  }

  lemma SlashesConcat(a: string, b: string)
    ensures Slashes(a + "/" + b) == Slashes(a) + "/" + Slashes(b)
  {
  }

  lemma AncestorPrefix(p: Path, i: nat)
    requires AreNames(p) && 0 < i < |p|
    ensures Joined(p) == Joined(p[..i]) + "/" + Joined(p[i..])
    ensures Parts(Slashes(Joined(p))) == Parts(Slashes(Joined(p[..i]))) + Parts(Slashes(Joined(p[i..])))
  {
    assert p == p[..i] + p[i..];
    JoinConcat(p[..i], p[i..], '/');
    SlashesConcat(Joined(p[..i]), Joined(p[i..]));
    PartsConcat(Slashes(Joined(p[..i])), Slashes(Joined(p[i..])));
  }

  /** An excluded ancestor, or one with an ignored component, already shows in the file's own path. */
  lemma AncestorShowsInOwnPath(p: Path, i: nat, prefixes: seq<string>)
    requires p != [] && AreNames(p) && 0 < i <= |p|
    ensures Excluded(Joined(p[..i]), prefixes) ==> Excluded(Joined(p), prefixes)
    ensures NoIgnoredPart(Joined(p)) ==> NoIgnoredPart(Joined(p[..i]))
  {
    if i < |p| {
      AncestorPrefix(p, i);
      var ancestor, own := Joined(p[..i]), Joined(p);
      if Excluded(ancestor, prefixes) {
        var k :| 0 <= k < |prefixes| && (ancestor == prefixes[k] || prefixes[k] + "/" <= ancestor);
        assert prefixes[k] + "/" <= own;
      }
    } else {
      assert p[..i] == p;
    }
  }

  /** The ancestor tests for exclusion and ignored components collapse; the name and suffix test does not. */
  lemma KeptCollapses(root: Node, prefixes: seq<string>, p: Path)
    requires WellFormed(root)
    ensures Kept(root, AdmittedBy(prefixes), p) <==>
              FileAt(root, p).Some? && p != [] &&
              !Excluded(Joined(p), prefixes) && NoIgnoredPart(Joined(p)) &&
              forall i | 0 < i <= |p| :: NameAllowed(Joined(p[..i]))
  {
    if FileAt(root, p).Some? && p != [] {
      LookupNames(root, p);
      assert p[..|p|] == p;
      forall i | 0 < i <= |p|
        ensures Excluded(Joined(p[..i]), prefixes) ==> Excluded(Joined(p), prefixes)
        ensures NoIgnoredPart(Joined(p)) ==> NoIgnoredPart(Joined(p[..i]))
      {
        AncestorShowsInOwnPath(p, i, prefixes);
      }
    }
  }

  /** Testing only a file's own path is right exactly when it is rejected anyway or no directory above it has a rejected name. */
  lemma OwnPathTestIsExactIff(root: Node, prefixes: seq<string>, p: Path)
    requires WellFormed(root) && FileAt(root, p).Some? && p != []
    ensures (Kept(root, AdmittedBy(prefixes), p) <==> Admitted(Joined(p), prefixes)) <==>
            (Admitted(Joined(p), prefixes) ==> forall i | 0 < i < |p| :: NameAllowed(Joined(p[..i])))
  {
    KeptCollapses(root, prefixes, p);
    assert p[..|p|] == p;
  }

  // The inventory, component by component

  /** `s` is the lower-case text `t`, in whatever case. */
  predicate FoldsTo(s: string, t: string) {
    |s| == |t| && forall i | 0 <= i < |s| :: s[i] == t[i] || ('A' <= s[i] <= 'Z' && t[i] == s[i] - 'A' + 'a')
  }

  predicate IsIgnoredComponent(name: string) {
    name in {".git", ".cache", ".mypy_cache", ".pytest_cache", "__pycache__", "coverage", "dist", "node_modules"}
  }

  predicate IsIgnoredExtension(e: string) {
    e in {".a", ".dll", ".dylib", ".exe", ".gz", ".o", ".obj", ".pyc", ".so", ".tar", ".tgz", ".tsbuildinfo", ".zip"}
  }

  /** A name that ends in an ignored extension, with something before it, or that is one of two generated files. */
  ghost predicate IsIgnoredName(name: string) {
    name in {"vite.config.d.ts", "vite.config.js"} ||
    exists stem, dotted, extension :: name == stem + dotted && stem != "" && FoldsTo(dotted, extension) && IsIgnoredExtension(extension)
  }

  lemma LowerFolds(s: string, t: string)
    requires forall i | 0 <= i < |t| :: !('A' <= t[i] <= 'Z')
    ensures Lower(s) == t <==> FoldsTo(s, t)
  {
    if FoldsTo(s, t) {
      assert forall i | 0 <= i < |s| :: Lower(s)[i] == t[i];
    }
  }

  /** The extensions are lower-case, start with their only dot, and say something. */
  lemma ExtensionShape(e: string)
    requires IsIgnoredSuffix(e)
    ensures |e| > 1 && e[0] == '.' && '.' !in e[1..] && forall i | 0 <= i < |e| :: !('A' <= e[i] <= 'Z')
  {
  }

  lemma ComponentsAre(name: string)
    ensures IsIgnoredPart(name) <==> IsIgnoredComponent(name)
  {
  }

  lemma ExtensionsAre(e: string)
    ensures IsIgnoredSuffix(e) <==> IsIgnoredExtension(e)
  {
  }

  /** A dotted text is the suffix of any name it ends, in whatever case it is written. */
  lemma DottedIsSuffix(stem: string, dotted: string, e: string)
    requires stem != "" && |e| > 1 && e[0] == '.' && '.' !in e[1..] && FoldsTo(dotted, e)
    ensures Suffix(stem + dotted) == dotted
  {
    assert dotted[0] == '.' && dotted == "." + dotted[1..];
    forall i | 0 <= i < |dotted[1..]| ensures dotted[1..][i] != '.' {
      assert e[1..][i] in e[1..];
    }
    SuffixOf(stem, dotted[1..]);
    assert stem + "." + dotted[1..] == stem + dotted;
  }

  lemma SuffixSplits(name: string)
    requires Suffix(name) != ""
    ensures exists stem :: stem != "" && name == stem + Suffix(name)
  {
    var k := LastIndexOf(name, '.');
    assert name == name[..k] + name[k..] && name[..k] != "";
  }

  lemma AllowedNameIff(name: string)
    ensures IsAllowedName(name) <==> !IsIgnoredName(name)
  {
    var e := Lower(Suffix(name));
    if IsIgnoredSuffix(e) {
      ExtensionShape(e);
      ExtensionsAre(e);
      SuffixSplits(name);
      LowerFolds(Suffix(name), e);
      var stem :| stem != "" && name == stem + Suffix(name);
      assert IsIgnoredName(name);
    }
    if stem, dotted, extension :| name == stem + dotted && stem != "" && FoldsTo(dotted, extension) && IsIgnoredExtension(extension) {
      ExtensionsAre(extension);
      ExtensionShape(extension);
      DottedIsSuffix(stem, dotted, extension);
      LowerFolds(dotted, extension);
    }
  }

  /** A text that ends right before a slash of a path is one of its proper ancestors. */
  lemma {:induction false} EndsAtSlash(p: Path, q: string)
    requires p != [] && AreNames(p) && q + "/" <= Joined(p)
    ensures exists i :: 0 < i < |p| && q == Joined(p[..i])
  {
    var s, name := Joined(p), p[0];
    assert s[|q|] == (q + "/")[|q|] == '/' && forall i | 0 <= i < |q| :: s[i] == (q + "/")[i] == q[i];
    assert forall i | 0 <= i < |name| :: name[i] != '/' && s[i] == name[i];
    if |p| > 1 && |q| >= |name| {
      var rest := Joined(p[1..]);
      assert s == name + "/" + rest;
      if |q| == |name| {
        assert q == name == Joined(p[..1]);
      } else {
        var tail := q[|name| + 1..];
        assert q == name + "/" + tail;
        assert forall i | 0 <= i < |tail| + 1 :: rest[i] == s[|name| + 1 + i] == (q + "/")[|name| + 1 + i] == (tail + "/")[i];
        assert tail + "/" <= rest;
        EndsAtSlash(p[1..], tail);
        var i :| 0 < i < |p[1..]| && tail == Joined(p[1..][..i]);
        assert p[..i + 1] == [name] + p[1..][..i] && p[..i + 1][1..] == p[1..][..i];
        assert q == Joined(p[..i + 1]);
      }
    }
  }

  /** Some excluded prefix is the path itself or a directory above it. */
  predicate IsBelowExcluded(p: Path, prefixes: seq<string>) {
    exists i, j | 0 < i <= |p| && 0 <= j < |prefixes| :: prefixes[j] == Joined(p[..i])
  }

  lemma ExcludedIff(p: Path, prefixes: seq<string>)
    requires p != [] && AreNames(p)
    ensures Excluded(Joined(p), prefixes) <==> IsBelowExcluded(p, prefixes)
  {
    assert p[..|p|] == p;
    if Excluded(Joined(p), prefixes) {
      var j :| 0 <= j < |prefixes| && (Joined(p) == prefixes[j] || prefixes[j] + "/" <= Joined(p));
      if Joined(p) != prefixes[j] {
        EndsAtSlash(p, prefixes[j]);
      }
    }
    if i, j :| 0 < i <= |p| && 0 <= j < |prefixes| && prefixes[j] == Joined(p[..i]) {
      if i < |p| {
        AncestorPrefix(p, i);
        assert Joined(p) == prefixes[j] + "/" + Joined(p[i..]);
      }
    }
  }

  lemma NameAllowedOf(p: Path)
    requires p != [] && AreNames(p) && forall i | 0 <= i < |p| :: '\\' !in p[i]
    ensures NameAllowed(Joined(p)) <==> !IsIgnoredName(p[|p| - 1])
  {
    JoinedShape(p);
    PartsOfJoined(p);
    AllowedNameIff(p[|p| - 1]);
  }

  lemma PartsByComponent(p: Path)
    requires p != [] && AreNames(p) && forall i | 0 <= i < |p| :: '\\' !in p[i]
    ensures NoIgnoredPart(Joined(p)) <==> forall i | 0 <= i < |p| :: !IsIgnoredComponent(p[i])
  {
    JoinedShape(p);
    PartsOfJoined(p);
    assert forall i | 0 <= i < |p| :: p[i] in p;
    forall i | 0 <= i < |p| ensures IsIgnoredPart(p[i]) <==> IsIgnoredComponent(p[i]) { ComponentsAre(p[i]); }
  }

  lemma Shifted(p: Path, ok: string -> bool, fine: Path -> bool)
    requires forall i | 0 < i <= |p| :: fine(p[..i]) <==> ok(p[i - 1])
    ensures (forall i | 0 < i <= |p| :: fine(p[..i])) <==> forall i | 0 <= i < |p| :: ok(p[i])
  {
    if forall i | 0 < i <= |p| :: fine(p[..i]) {
      forall i | 0 <= i < |p| ensures ok(p[i]) {
        assert fine(p[..i + 1]);
      }
    }
  }

  lemma NamesByComponent(p: Path)
    requires AreNames(p) && forall i | 0 <= i < |p| :: '\\' !in p[i]
    ensures (forall i | 0 < i <= |p| :: NameAllowed(Joined(p[..i]))) <==> forall i | 0 <= i < |p| :: !IsIgnoredName(p[i])
  {
    forall i | 0 < i <= |p| ensures NameAllowed(Joined(p[..i])) <==> !IsIgnoredName(p[i - 1]) {
      NameAllowedOf(p[..i]);
    }
    Shifted(p, name => !IsIgnoredName(name), q => NameAllowed(Joined(q)));
  }

  /**
   * Component by component: a file is kept if and only if it exists, none of its names is an ignored component or an ignored
   * name, directories included, and no excluded prefix is the path or a directory above it.
   */
  lemma KeptByComponents(root: Node, prefixes: seq<string>, p: Path)
    requires WellFormed(root) && forall i | 0 <= i < |p| :: '\\' !in p[i]
    ensures Kept(root, AdmittedBy(prefixes), p) <==>
              p != [] && FileAt(root, p).Some? && !IsBelowExcluded(p, prefixes) &&
              (forall i | 0 <= i < |p| :: !IsIgnoredComponent(p[i])) && forall i | 0 <= i < |p| :: !IsIgnoredName(p[i])
  {
    KeptCollapses(root, prefixes, p);
    if p != [] && FileAt(root, p).Some? {
      LookupNames(root, p);
      ExcludedIff(p, prefixes);
      PartsByComponent(p);
      NamesByComponent(p);
    }
  }

  /** The inventory, said of the components of a path alone. */
  lemma InventoryByComponents(root: Node, prefixes: seq<string>, p: Path)
    requires WellFormed(root) && p != [] && AreNames(p) && forall i | 0 <= i < |p| :: '\\' !in p[i]
    ensures var files := InventoryOf(root, AdmittedBy(prefixes));
            && (Joined(p) in files <==>
                FileAt(root, p).Some? && !IsBelowExcluded(p, prefixes) &&
                (forall i | 0 <= i < |p| :: !IsIgnoredComponent(p[i])) && forall i | 0 <= i < |p| :: !IsIgnoredName(p[i]))
            && (Joined(p) in files ==> FileAt(root, p) == Some(files[Joined(p)]))
  {
    InventoryIff(root, AdmittedBy(prefixes), p);
    KeptByComponents(root, prefixes, p);
  }

  /** Whatever else a tree holds, its `.git/config` is not in the inventory. */
  lemma GitIsLeftOut(content: Bytes, prefixes: seq<string>)
    ensures var root := Nested([".git", "config"], File(content));
            WellFormed(root) && FileAt(root, [".git", "config"]) == Some(content) && !Kept(root, AdmittedBy(prefixes), [".git", "config"])
  {
    var p := [".git", "config"];
    assert IsName(".git") && IsName("config") && '\\' !in ".git" && '\\' !in "config";
    NestedHolds(p, File(content));
    KeptByComponents(Nested(p, File(content)), prefixes, p);
    assert IsIgnoredComponent(p[0]);
  }

  lemma ArchiveNameRejected()
    ensures IsName("v.a") && !NameAllowed("v.a")
  {
    PartsOfJoined(["v.a"]);
    assert Suffix("v.a") == ".a";
    assert Lower(".a") == ".a";
  }

  predicate IsAllowedName(name: string) {
    !IsIgnoredFilename(name) && !IsIgnoredSuffix(Lower(Suffix(name)))
  }

  predicate NoneIgnored(p: Path) {
    forall i | 0 <= i < |p| :: !IsIgnoredPart(p[i])
  }

  /** A path text is admitted if its components, once slashes are made regular, are not ignored and the last is allowed. */
  lemma RegularPathAdmitted(relative: string, p: Path)
    requires p != [] && AreNames(p) && Slashes(relative) == Joined(p)
    requires NoneIgnored(p) && IsAllowedName(p[|p| - 1])
    ensures Admitted(relative, [])
  {
    PartsOfJoined(p);
  }

  lemma NoDotNoSuffix(name: string)
    requires '.' !in name && !IsIgnoredFilename(name)
    ensures IsAllowedName(name)
  {
    assert Suffix(name) == "" && Lower("") == "";
  }

  lemma PlainNameAdmitted()
    ensures Admitted(Joined(["v.a", "f"]), [])
  {
    var p := ["v.a", "f"];
    NoDotNoSuffix("f");
    assert forall i | 0 <= i < |p| :: '\\' !in p[i];
    JoinedShape(p);
    RegularPathAdmitted(Joined(p), p);
  }

  /** A tree with a single file keeps it when every prefix of its path is admitted. */
  lemma NestedKept(p: Path, content: Bytes, admit: Filter)
    requires p != [] && AreNames(p) && forall i | 0 < i <= |p| :: admit(Joined(p[..i]))
    ensures WellFormed(Nested(p, File(content))) && FileAt(Nested(p, File(content)), p) == Some(content)
    ensures Kept(Nested(p, File(content)), admit, p)
  {
    NestedHolds(p, File(content));
  }

  /** A name that the walk has no reason to reject. */
  predicate IsPlainName(name: string) {
    IsName(name) && '\\' !in name && !IsIgnoredPart(name) && IsAllowedName(name)
  }

  lemma PlainPathAdmitted(p: Path)
    requires p != [] && forall i | 0 <= i < |p| :: IsPlainName(p[i])
    ensures AdmittedBy([])(Joined(p))
  {
    JoinedShape(p);
    RegularPathAdmitted(Joined(p), p);
  }

  /** A single file with plain names all the way is kept. */
  lemma PlainFileKept(p: Path, content: Bytes)
    requires p != [] && forall i | 0 <= i < |p| :: IsPlainName(p[i])
    ensures WellFormed(Nested(p, File(content))) && Kept(Nested(p, File(content)), AdmittedBy([]), p)
  {
    forall i | 0 < i <= |p| ensures AdmittedBy([])(Joined(p[..i])) {
      PlainPathAdmitted(p[..i]);
    }
    NestedKept(p, content, AdmittedBy([]));
  }

  lemma BackslashNameAdmitted()
    ensures IsName("a\\b") && AdmittedBy([])("a\\b")
  {
    NoDotNoSuffix("b");
    assert ["a", "b"][1..] == ["b"];
    assert Joined(["a", "b"]) == "a/b";
    assert Slashes("a\\b") == "a/b";
    RegularPathAdmitted("a\\b", ["a", "b"]);
  }

  /** A file whose name holds a backslash is kept as well. */
  lemma BackslashFileKept(content: Bytes)
    ensures WellFormed(Nested(["a\\b"], File(content))) && Kept(Nested(["a\\b"], File(content)), AdmittedBy([]), ["a\\b"])
  {
    BackslashNameAdmitted();
    var p := ["a\\b"];
    assert p[..1] == p && Joined(p) == "a\\b";
    NestedKept(p, content, AdmittedBy([]));
  }

  lemma RejectedNameHides(d: string, f: string, content: Bytes)
    requires IsName(d) && IsName(f) && !NameAllowed(d)
    ensures WellFormed(Nested([d, f], File(content))) && FileAt(Nested([d, f], File(content)), [d, f]) == Some(content)
    ensures !Kept(Nested([d, f], File(content)), AdmittedBy([]), [d, f])
  {
    NestedHolds([d, f], File(content));
    assert [d, f][..1] == [d];
    assert !AdmittedBy([])(Joined([d, f][..1]));
  }

  /** A directory named like an archive hides a file whose own path is admitted. */
  lemma PrunedByDirectorySuffix(content: Bytes)
    ensures var root := Nested(["v.a", "f"], File(content));
            WellFormed(root) && FileAt(root, ["v.a", "f"]) == Some(content) &&
            Admitted(Joined(["v.a", "f"]), []) && !Kept(root, AdmittedBy([]), ["v.a", "f"])
  {
    ArchiveNameRejected();
    PlainNameAdmitted();
    RejectedNameHides("v.a", "f", content);
  }
}
