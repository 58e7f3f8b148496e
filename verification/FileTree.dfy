/** Directory trees, POSIX relative paths, and writing one file into a tree. */
module FileTree {
  import opened Wrappers
  import opened Text

  newtype byte = i: int | 0 <= i < 256
  type Bytes = seq<byte>

  /** A path is the sequence of its components below some root. */
  type Path = seq<string>

  datatype Node = File(content: Bytes) | Dir(entries: map<string, Node>)

  // Component strings

  predicate IsName(s: string) {
    s != "" && s != "." && s != ".." && '/' !in s
  }

  predicate AreNames(p: Path) {
    forall i | 0 <= i < |p| :: IsName(p[i])
  }

  /** The relative path string of a non-empty component sequence. */
  function Joined(p: Path): string {
    Join(p, '/')
  }

  function Significant(raw: seq<string>): (p: Path)
    ensures forall i | 0 <= i < |p| :: p[i] in raw && p[i] != "" && p[i] != "."
  {
    if raw == [] then []
    else (if raw[0] == "" || raw[0] == "." then [] else [raw[0]]) + Significant(raw[1..])
  }

  /** `Path(path).parts` without the root: empty and `.` components vanish. */
  function Parts(path: string): (p: Path)
    ensures forall i | 0 <= i < |p| :: p[i] != "" && p[i] != "." && '/' !in p[i]
  {
    Significant(Split(path, '/'))
  }

  predicate IsAbsolute(path: string) {
    path != "" && path[0] == '/'
  }

  /** `Path(path).name` */
  function BaseName(p: Path): string {
    if p == [] then "" else p[|p| - 1]
  }

  function LastIndexOf(s: string, c: char): (k: int)
    ensures -1 <= k < |s|
    ensures k >= 0 ==> s[k] == c
    ensures forall i | k < i < |s| :: s[i] != c
  {
    if s == "" then -1 else if s[|s| - 1] == c then |s| - 1 else LastIndexOf(s[..|s| - 1], c)
  }

  /** `Path(name).suffix`: from the last dot, unless it opens or closes the name. */
  function Suffix(name: string): string {
    var k := LastIndexOf(name, '.');
    if 0 < k < |name| - 1 then name[k..] else ""
  }

  lemma SuffixOf(stem: string, extension: string)
    requires stem != "" && extension != "" && '.' !in extension
    ensures Suffix(stem + "." + extension) == "." + extension
  {
    var name := stem + "." + extension;
    assert name[|stem|] == '.' && name[|stem|..] == "." + extension;
    assert forall i | |stem| < i < |name| :: name[i] == extension[i - |stem| - 1];
    assert LastIndexOf(name, '.') == |stem|;
  }

  lemma {:induction false} SignificantNames(p: Path)
    requires AreNames(p)
    ensures Significant(p) == p
  {
    if p != [] {
      SignificantNames(p[1..]);
      assert p == [p[0]] + p[1..];
    }
  }

  /** Splitting a rendered path gives its components back. */
  lemma PartsOfJoined(p: Path)
    requires p != [] && AreNames(p)
    ensures Parts(Joined(p)) == p
  {
    SplitJoin(p, '/');
    SignificantNames(p);
  }

  lemma {:induction false} SignificantConcat(a: seq<string>, b: seq<string>)
    ensures Significant(a + b) == Significant(a) + Significant(b)
  {
    if a == [] {
      assert a + b == b;
    } else {
      assert (a + b)[1..] == a[1..] + b;
      SignificantConcat(a[1..], b);
    }
  }

  lemma PartsConcat(a: string, b: string)
    ensures Parts(a + "/" + b) == Parts(a) + Parts(b)
  {
    SplitConcat(a, b, '/');
    SignificantConcat(Split(a, '/'), Split(b, '/'));
  }

  lemma JoinedInjective(p: Path, q: Path)
    requires p != [] && q != [] && AreNames(p) && AreNames(q)
    requires Joined(p) == Joined(q)
    ensures p == q
  {
    PartsOfJoined(p);
    PartsOfJoined(q);
  }

  lemma StringPrefixIsPathPrefix(base: Path, p: Path)
    requires base != [] && AreNames(base) && p != [] && AreNames(p)
    requires Joined(base) + "/" <= Joined(p)
    ensures base < p
  {
    var rest := Joined(p)[|Joined(base)| + 1..];
    assert Joined(p) == Joined(base) + "/" + rest;
    PartsOfJoined(base);
    PartsOfJoined(p);
    PartsConcat(Joined(base), rest);
    assert p == base + Parts(rest);
    assert p[..|base|] == base && p == p[..|p|];
  }

  lemma {:induction false} JoinedShape(p: Path)
    requires p != [] && AreNames(p)
    ensures Joined(p) != "" && !IsAbsolute(Joined(p))
    ensures Joined(p)[0] == p[0][0]
    ensures '\\' in Joined(p) <==> exists i | 0 <= i < |p| :: '\\' in p[i]
  {
    assert p[0] != "";
    if |p| > 1 {
      JoinedShape(p[1..]);
      assert Joined(p) == p[0] + "/" + Joined(p[1..]);
      assert forall i | 0 <= i < |p[1..]| :: p[1..][i] == p[i + 1];
      if i :| 0 <= i < |p| && '\\' in p[i] {
        if i > 0 { assert '\\' in p[1..][i - 1]; }
      }
    }
  }

  // Reading a tree

  ghost predicate WellFormed(n: Node) {
    n.Dir? ==> forall name | name in n.entries :: IsName(name) && WellFormed(n.entries[name])
  }

  function Lookup(n: Node, p: Path): Option<Node>
    decreases |p|
  {
    if p == [] then Some(n)
    else if n.Dir? && p[0] in n.entries then Lookup(n.entries[p[0]], p[1..])
    else None
  }

  function FileAt(n: Node, p: Path): Option<Bytes> {
    match Lookup(n, p)
    case Some(File(content)) => Some(content)
    case _ => None
  }

  predicate IsDirAt(n: Node, p: Path) {
    Lookup(n, p).Some? && Lookup(n, p).value.Dir?
  }

  lemma LookupSingle(n: Node, p: Path)
    requires |p| == 1
    ensures Lookup(n, p) == if n.Dir? && p[0] in n.entries then Some(n.entries[p[0]]) else None
  {
    if n.Dir? && p[0] in n.entries {
      assert Lookup(n.entries[p[0]], p[1..]) == Some(n.entries[p[0]]);
    }
  }

  lemma BelowFile(n: Node, name: string, q: Path)
    requires n.Dir? && q != [] && q[0] == name && (name in n.entries ==> n.entries[name].File?)
    ensures |q| > 1 ==> Lookup(n, q) == None
  {
    if |q| > 1 && name in n.entries {
      assert Lookup(n.entries[name], q[1..]) == None;
    }
  }

  /** A tree that holds `leaf` at `p` and nothing else. */
  function Nested(p: Path, leaf: Node): (n: Node)
    ensures p != [] ==> n.Dir?
  {
    if p == [] then leaf else Dir(map[p[0] := Nested(p[1..], leaf)])
  }

  lemma {:induction false} NestedHolds(p: Path, leaf: Node)
    requires AreNames(p) && WellFormed(leaf)
    ensures WellFormed(Nested(p, leaf)) && Lookup(Nested(p, leaf), p) == Some(leaf)
  {
    if p != [] {
      NestedHolds(p[1..], leaf);
    }
  }

  /** The component paths of all files of a tree. */
  function AllFiles(n: Node): set<Path> {
    match n
    case File(_) => {[]}
    case Dir(entries) => set name, p | name in entries && p in AllFiles(entries[name]) :: [name] + p
  }

  lemma {:induction false} AllFilesIff(n: Node, p: Path)
    ensures p in AllFiles(n) <==> FileAt(n, p).Some?
    decreases |p|
  {
    if p != [] && n.Dir? && p[0] in n.entries {
      AllFilesIff(n.entries[p[0]], p[1..]);
      assert p == [p[0]] + p[1..];
    }
  }

  lemma {:induction false} LookupNames(n: Node, p: Path)
    requires WellFormed(n) && Lookup(n, p).Some?
    ensures AreNames(p) && WellFormed(Lookup(n, p).value)
    decreases |p|
  {
    if p != [] {
      LookupNames(n.entries[p[0]], p[1..]);
      assert forall i | 1 <= i < |p| :: p[i] == p[1..][i - 1];
    }
  }

  lemma {:induction false} LookupConcat(n: Node, p: Path, q: Path)
    requires Lookup(n, p).Some?
    ensures Lookup(n, p + q) == Lookup(Lookup(n, p).value, q)
    decreases |p|
  {
    if p == [] {
      assert p + q == q;
    } else {
      assert (p + q)[1..] == p[1..] + q;
      LookupConcat(n.entries[p[0]], p[1..], q);
    }
  }

  // Writing one file

  /** Whether `p` can be opened for writing after `mkdir -p` of its parent: no file stands on the way, no directory at the end. */
  predicate Writable(n: Node, p: Path)
    decreases |p|
  {
    p != [] && n.Dir? &&
    (p[0] in n.entries ==>
       if |p| == 1 then n.entries[p[0]].File? else Writable(n.entries[p[0]], p[1..]))
  }

  /** The tree after `mkdir -p` of the parent of `p` and writing `content` at `p`. */
  function Put(n: Node, p: Path, content: Bytes): (r: Node)
    requires Writable(n, p)
    ensures r.Dir?
    decreases |p|
  {
    if |p| == 1 then Dir(n.entries[p[0] := File(content)])
    else
      var child := if p[0] in n.entries then n.entries[p[0]] else Dir(map[]);
      FreshWritable(p[1..]);
      Dir(n.entries[p[0] := Put(child, p[1..], content)])
  }

  lemma FreshWritable(p: Path)
    ensures p != [] ==> Writable(Dir(map[]), p)
  {
  }

  /** What every reader sees after a write: the new content at `p`, every other file as before. */
  lemma {:induction false} PutFileAt(n: Node, p: Path, content: Bytes, q: Path)
    requires Writable(n, p)
    ensures FileAt(Put(n, p, content), q) == if q == p then Some(content) else FileAt(n, q)
    decreases |p|
  {
    if |p| > 1 {
      FreshWritable(p[1..]);
      var child := if p[0] in n.entries then n.entries[p[0]] else Dir(map[]);
      if q != [] && q[0] == p[0] {
        PutFileAt(child, p[1..], content, q[1..]);
        assert q == p <==> q[1..] == p[1..] by {
          assert q == [q[0]] + q[1..] && p == [p[0]] + p[1..];
        }
        assert FileAt(Dir(map[]), q[1..]) == None;
      }
    } else if q != [] && q[0] == p[0] {
      assert q == p <==> |q| == 1;
      LookupSingle(Put(n, p, content), p);
      BelowFile(n, p[0], q);
      BelowFile(Put(n, p, content), p[0], q);
    }
  }

  /** A write creates exactly the missing ancestors of `p` and removes no directory. */
  lemma {:induction false} PutIsDirAt(n: Node, p: Path, content: Bytes, q: Path)
    requires Writable(n, p)
    ensures IsDirAt(Put(n, p, content), q) <==> IsDirAt(n, q) || q < p
    decreases |p|
  {
    if |p| > 1 {
      FreshWritable(p[1..]);
      var child := if p[0] in n.entries then n.entries[p[0]] else Dir(map[]);
      if q != [] && q[0] == p[0] {
        PutIsDirAt(child, p[1..], content, q[1..]);
        assert q < p <==> q[1..] < p[1..] by {
          assert q == [q[0]] + q[1..] && p == [p[0]] + p[1..];
        }
        assert p[0] !in n.entries && IsDirAt(child, q[1..]) ==> q[1..] == [] && q[1..] < p[1..];
      }
    } else if q != [] && q[0] == p[0] {
      assert q < p ==> |q| == 0;
      LookupSingle(Put(n, p, content), p);
      LookupSingle(n, p);
      if |q| == 1 { assert q == p; }
      BelowFile(n, p[0], q);
      BelowFile(Put(n, p, content), p[0], q);
    }
  }

  lemma {:induction false} PutWellFormed(n: Node, p: Path, content: Bytes)
    requires WellFormed(n) && Writable(n, p) && AreNames(p)
    ensures WellFormed(Put(n, p, content))
    decreases |p|
  {
    if |p| > 1 {
      FreshWritable(p[1..]);
      PutWellFormed(if p[0] in n.entries then n.entries[p[0]] else Dir(map[]), p[1..], content);
    }
  }

  /** A path is writable exactly when it is not a directory and no proper prefix is a file. */
  lemma {:induction false} WritableIff(n: Node, p: Path)
    requires n.Dir? && p != []
    ensures Writable(n, p) <==> !IsDirAt(n, p) && forall q: Path | q < p :: FileAt(n, q).None?
    decreases |p|
  {
    if p[0] !in n.entries {
      forall q: Path | q < p ensures FileAt(n, q).None? {
        if q != [] { assert q[0] == p[0]; }
      }
    } else if |p| == 1 {
      LookupSingle(n, p);
      forall q: Path | q < p ensures FileAt(n, q).None? { assert q == []; }
    } else {
      var child := n.entries[p[0]];
      if child.File? {
        LookupSingle(n, [p[0]]);
        assert [p[0]] < p && FileAt(n, [p[0]]).Some?;
      } else {
        WritableIff(child, p[1..]);
        forall q: Path | q < p[1..]
          ensures [p[0]] + q < p && FileAt(n, [p[0]] + q) == FileAt(child, q)
        {
          assert p == [p[0]] + p[1..];
        }
        forall q: Path | q < p && q != []
          ensures q[1..] < p[1..] && FileAt(n, q) == FileAt(child, q[1..])
        {
          assert q == [q[0]] + q[1..];
        }
      }
    }
  }

  lemma {:induction false} PutSame(n: Node, p: Path, content: Bytes)
    requires FileAt(n, p) == Some(content) && p != []
    ensures Writable(n, p) && Put(n, p, content) == n
    decreases |p|
  {
    if |p| > 1 {
      FreshWritable(p[1..]);
      PutSame(n.entries[p[0]], p[1..], content);
    } else {
      LookupSingle(n, p);
    }
  }

  lemma {:induction false} ExistingFileWritable(n: Node, p: Path)
    requires FileAt(n, p).Some? && p != []
    ensures Writable(n, p)
    decreases |p|
  {
    if |p| > 1 {
      ExistingFileWritable(n.entries[p[0]], p[1..]);
    } else {
      LookupSingle(n, p);
    }
  }

  lemma {:induction false} PutTwice(n: Node, p: Path, first: Bytes, second: Bytes)
    requires FileAt(n, p).Some? && p != []
    ensures Writable(n, p) && Writable(Put(n, p, first), p)
    ensures Put(Put(n, p, first), p, second) == Put(n, p, second)
    decreases |p|
  {
    ExistingFileWritable(n, p);
    if |p| > 1 {
      FreshWritable(p[1..]);
      PutTwice(n.entries[p[0]], p[1..], first, second);
    }
  }

  lemma {:induction false} PutCommutes(n: Node, p: Path, a: Bytes, q: Path, b: Bytes)
    requires FileAt(n, p).Some? && FileAt(n, q).Some? && p != [] && q != [] && p != q
    ensures Writable(n, p) && Writable(n, q)
    ensures Writable(Put(n, p, a), q) && Writable(Put(n, q, b), p)
    ensures Put(Put(n, p, a), q, b) == Put(Put(n, q, b), p, a)
    decreases |p|
  {
    ExistingFileWritable(n, p);
    ExistingFileWritable(n, q);
    PutFileAt(n, p, a, q);
    PutFileAt(n, q, b, p);
    ExistingFileWritable(Put(n, p, a), q);
    ExistingFileWritable(Put(n, q, b), p);
    if |p| > 1 { FreshWritable(p[1..]); }
    if |q| > 1 { FreshWritable(q[1..]); }
    if p[0] == q[0] {
      assert |p| > 1 && |q| > 1;
      assert p[1..] != q[1..] by {
        assert q == [q[0]] + q[1..] && p == [p[0]] + p[1..];
      }
      PutCommutes(n.entries[p[0]], p[1..], a, q[1..], b);
    } else {
      var pa, qb := Put(n, p, a), Put(n, q, b);
      assert Put(pa, q, b).entries == n.entries[p[0] := pa.entries[p[0]]][q[0] := qb.entries[q[0]]];
      assert Put(qb, p, a).entries == n.entries[q[0] := qb.entries[q[0]]][p[0] := pa.entries[p[0]]];
    }
  }
}
