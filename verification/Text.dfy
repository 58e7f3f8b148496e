/** The Python string operations that the tools use: trimming, splitting, joining, ordering, decimal numerals. */
module Text {

  /** `str.isspace` on one code point. */
  predicate IsSpace(c: char) {
    '\t' <= c <= '\r' || '\U{1c}' <= c <= ' ' || c == '\U{85}' || c == '\U{a0}' || c == '\U{1680}' ||
    '\U{2000}' <= c <= '\U{200a}' || c == '\U{2028}' || c == '\U{2029}' || c == '\U{202f}' ||
    c == '\U{205f}' || c == '\U{3000}'
  }

  predicate IsPipe(c: char) { c == '|' }

  predicate IsDigit(c: char) { '0' <= c <= '9' }

  predicate IsLowerHex(c: char) { IsDigit(c) || 'a' <= c <= 'f' }

  predicate IsHexDigest(s: string, width: nat) {
    |s| == width && forall i | 0 <= i < |s| :: IsLowerHex(s[i])
  }

  predicate EndsWith(s: string, suffix: string) {
    |suffix| <= |s| && s[|s| - |suffix|..] == suffix
  }

  function Lower(s: string): (r: string)
    ensures |r| == |s|
  {
    seq(|s|, i requires 0 <= i < |s| => if 'A' <= s[i] <= 'Z' then s[i] - 'A' + 'a' else s[i])
  }

  /** `path.replace("\\", "/")` */
  function Slashes(s: string): (r: string)
    ensures |r| == |s| && '\\' !in r
    ensures '\\' !in s ==> r == s
  {
    seq(|s|, i requires 0 <= i < |s| => if s[i] == '\\' then '/' else s[i])
  }

  /** The characters that `str.strip` and `str.split` take for blanks. */
  lemma SpaceIff(c: char)
    ensures IsSpace(c) <==>
            c in "\t\n\U{0b}\U{0c}\r\U{1c}\U{1d}\U{1e}\U{1f} \U{85}\U{a0}\U{1680}" ||
            c in "\U{2000}\U{2001}\U{2002}\U{2003}\U{2004}\U{2005}\U{2006}\U{2007}\U{2008}\U{2009}\U{200a}" ||
            c in "\U{2028}\U{2029}\U{202f}\U{205f}\U{3000}"
  {
  }

  /** `[0-9a-f]{width}` */
  lemma HexDigestIff(s: string, width: nat)
    ensures IsHexDigest(s, width) <==> |s| == width && forall c | c in s :: c in "0123456789abcdef"
  {
    if IsHexDigest(s, width) {
      forall c | c in s ensures c in "0123456789abcdef" { HexIff(c); }
    }
    if |s| == width && forall c | c in s :: c in "0123456789abcdef" {
      forall i | 0 <= i < |s| ensures IsLowerHex(s[i]) { HexIff(s[i]); }
    }
  }

  lemma HexIff(c: char)
    ensures IsLowerHex(c) <==> c in "0123456789abcdef"
  {
  }

  // Trimming

  function TrimLeft(s: string, drop: char -> bool): (r: string)
    ensures r != "" ==> !drop(r[0])
    ensures |r| <= |s|
  {
    if s != "" && drop(s[0]) then TrimLeft(s[1..], drop) else s
  }

  function TrimRight(s: string, drop: char -> bool): (r: string)
    ensures r != "" ==> !drop(r[|r| - 1])
    ensures |r| <= |s|
  {
    if s != "" && drop(s[|s| - 1]) then TrimRight(s[..|s| - 1], drop) else s
  }

  function Strip(s: string): string {
    TrimRight(TrimLeft(s, IsSpace), IsSpace)
  }

  function StripPipes(s: string): string {
    TrimRight(TrimLeft(s, IsPipe), IsPipe)
  }

  predicate Trimmed(s: string) {
    s != "" ==> !IsSpace(s[0]) && !IsSpace(s[|s| - 1])
  }

  /** Trimming drops exactly a padding whose characters all satisfy `drop`. */
  lemma {:induction false} TrimLeftPadded(pad: string, s: string, drop: char -> bool)
    requires forall c | c in pad :: drop(c)
    requires s != "" ==> !drop(s[0])
    ensures TrimLeft(pad + s, drop) == s
  {
    if pad == "" {
      assert pad + s == s;
    } else {
      assert (pad + s)[1..] == pad[1..] + s;
      TrimLeftPadded(pad[1..], s, drop);
    }
  }

  lemma {:induction false} TrimRightPadded(s: string, pad: string, drop: char -> bool)
    requires forall c | c in pad :: drop(c)
    requires s != "" ==> !drop(s[|s| - 1])
    ensures TrimRight(s + pad, drop) == s
  {
    if pad == "" {
      assert s + pad == s;
    } else {
      var init := pad[..|pad| - 1];
      assert (s + pad)[..|s + pad| - 1] == s + init;
      assert (s + pad)[|s + pad| - 1] == pad[|pad| - 1];
      TrimRightPadded(s, init, drop);
    }
  }

  lemma StripPadded(left: string, s: string, right: string)
    requires forall c | c in left :: IsSpace(c)
    requires forall c | c in right :: IsSpace(c)
    requires Trimmed(s)
    ensures Strip(left + s + right) == s
  {
    if s == "" {
      assert left + s + right == (left + right) + "";
      TrimLeftPadded(left + right, "", IsSpace);
    } else {
      assert left + s + right == left + (s + right);
      TrimLeftPadded(left, s + right, IsSpace);
      TrimRightPadded(s, right, IsSpace);
    }
  }

  lemma StripTrimmed(s: string)
    requires Trimmed(s)
    ensures Strip(s) == s
  {
    StripPadded("", s, "");
    assert "" + s + "" == s;
  }

  /** `str.strip("|")` takes all the bars off both ends, and nothing else. */
  lemma StripPipesPadded(left: string, s: string, right: string)
    requires (forall c | c in left + right :: c == '|') && s != "" && s[0] != '|' && s[|s| - 1] != '|'
    ensures StripPipes(left + s + right) == s
  {
    assert forall c | c in left :: c in left + right;
    assert forall c | c in right :: c in left + right;
    assert left + s + right == left + (s + right);
    TrimLeftPadded(left, s + right, IsPipe);
    TrimRightPadded(s, right, IsPipe);
  }

  // Splitting and joining

  /** Position of the first `c` in `s`, or `|s|`. */
  function IndexOf(s: string, c: char): (k: nat)
    ensures k <= |s|
    ensures forall i | 0 <= i < k :: s[i] != c
    ensures k < |s| ==> s[k] == c
  {
    if s == "" || s[0] == c then 0 else 1 + IndexOf(s[1..], c)
  }

  lemma IndexOfFinds(s: string, c: char)
    requires c in s
    ensures IndexOf(s, c) < |s|
  {
    assert exists i :: 0 <= i < |s| && s[i] == c;
  }

  /** `s.split(sep)` */
  function Split(s: string, sep: char): (parts: seq<string>)
    ensures |parts| > 0
    ensures forall i | 0 <= i < |parts| :: sep !in parts[i]
    decreases |s|
  {
    var k := IndexOf(s, sep);
    if k == |s| then [s] else [s[..k]] + Split(s[k + 1..], sep)
  }

  /** `sep.join(parts)` */
  function Join(parts: seq<string>, sep: char): string {
    if |parts| == 0 then "" else if |parts| == 1 then parts[0] else parts[0] + [sep] + Join(parts[1..], sep)
  }

  lemma IndexOfAt(head: string, c: char, tail: string)
    requires c !in head
    ensures IndexOf(head + [c] + tail, c) == |head|
  {
    var s := head + [c] + tail;
    assert forall i | 0 <= i < |head| :: s[i] == head[i];
    assert s[|head|] == c;
  }

  /** What stands before the first separator decides whether a text starts with `word` and the separator. */
  lemma FirstPieceIs(word: string, head: string, c: char, tail: string)
    requires c !in word && c !in head
    ensures word + [c] <= head + [c] + tail <==> word == head
  {
    var s := head + [c] + tail;
    IndexOfAt(head, c, tail);
    if word + [c] <= s {
      var rest := s[|word| + 1..];
      assert s == word + [c] + rest;
      IndexOfAt(word, c, rest);
      assert word == s[..|word|] == head;
    }
  }

  lemma SplitAt(head: string, sep: char, tail: string)
    requires sep !in head
    ensures Split(head + [sep] + tail, sep) == [head] + Split(tail, sep)
  {
    IndexOfAt(head, sep, tail);
    var s := head + [sep] + tail;
    assert s[..|head|] == head && s[|head| + 1..] == tail;
  }

  lemma SplitWhole(s: string, sep: char)
    requires sep !in s
    ensures Split(s, sep) == [s]
  {
    assert forall i | 0 <= i < |s| :: s[i] in s;
  }

  lemma {:induction false} SplitJoin(parts: seq<string>, sep: char)
    requires |parts| > 0
    requires forall i | 0 <= i < |parts| :: sep !in parts[i]
    ensures Split(Join(parts, sep), sep) == parts
  {
    if |parts| == 1 {
      SplitWhole(parts[0], sep);
    } else {
      SplitAt(parts[0], sep, Join(parts[1..], sep));
      SplitJoin(parts[1..], sep);
    }
  }

  /** Splitting loses nothing. */
  lemma {:induction false} JoinSplit(s: string, sep: char)
    ensures Join(Split(s, sep), sep) == s
    decreases |s|
  {
    var k := IndexOf(s, sep);
    if k < |s| {
      JoinSplit(s[k + 1..], sep);
      SplitMore(s, k, Split(s[k + 1..], sep), sep);
    }
  }

  lemma SplitMore(s: string, k: nat, rest: seq<string>, sep: char)
    requires k < |s| && s[k] == sep && rest != [] && Join(rest, sep) == s[k + 1..]
    ensures Join([s[..k]] + rest, sep) == s
  {
    JoinMore(s[..k], rest, sep);
    assert s == s[..k] + [sep] + s[k + 1..];
  }

  lemma JoinMore(head: string, rest: seq<string>, sep: char)
    requires rest != []
    ensures Join([head] + rest, sep) == head + [sep] + Join(rest, sep)
  {
    assert ([head] + rest)[1..] == rest;
  }

  lemma Regroup<T>(a: seq<T>, b: seq<T>, c: seq<T>, d: seq<T>, e: seq<T>)
    ensures (a + b + c) + d + e == a + b + (c + d + e)
  {
  }

  lemma {:induction false} SplitConcat(a: string, b: string, sep: char)
    ensures Split(a + [sep] + b, sep) == Split(a, sep) + Split(b, sep)
    decreases |a|
  {
    var k := IndexOf(a, sep);
    if k == |a| {
      SplitAt(a, sep, b);
    } else {
      var head, rest := a[..k], a[k + 1..];
      assert a == head + [sep] + rest;
      SplitConcat(rest, b, sep);
      SplitConcatStep(head, rest, b, sep);
    }
  }

  lemma SplitConcatStep(head: string, rest: string, b: string, sep: char)
    requires sep !in head && Split(rest + [sep] + b, sep) == Split(rest, sep) + Split(b, sep)
    ensures Split(head + [sep] + rest + [sep] + b, sep) == Split(head + [sep] + rest, sep) + Split(b, sep)
  {
    Regroup(head, [sep], rest, [sep], b);
    SplitAt(head, sep, rest + [sep] + b);
    SplitAt(head, sep, rest);
    Assoc([head], Split(rest, sep), Split(b, sep));
  }

  lemma Assoc<T>(a: seq<T>, b: seq<T>, c: seq<T>)
    ensures a + (b + c) == a + b + c
  {
  }

  lemma {:induction false} JoinConcat(front: seq<string>, back: seq<string>, sep: char)
    requires |front| > 0 && |back| > 0
    ensures Join(front + back, sep) == Join(front, sep) + [sep] + Join(back, sep)
  {
    if |front| > 1 {
      assert (front + back)[1..] == front[1..] + back;
      JoinConcat(front[1..], back, sep);
    } else {
      assert (front + back)[1..] == back;
    }
  }

  // Lines

  function FirstBreak(s: string, isBreak: char -> bool): (k: nat)
    ensures k <= |s| && forall i | 0 <= i < k :: !isBreak(s[i])
    ensures k < |s| ==> isBreak(s[k])
  {
    if s == "" || isBreak(s[0]) then 0 else 1 + FirstBreak(s[1..], isBreak)
  }

  /** The lines of a text: CR-LF is one boundary, and nothing follows the last one. */
  function LinesOf(s: string, isBreak: char -> bool): seq<string>
    decreases |s|
  {
    if s == "" then []
    else
      var k := FirstBreak(s, isBreak);
      if k == |s| then [s]
      else if s[k] == '\r' && k + 1 < |s| && s[k + 1] == '\n' then [s[..k]] + LinesOf(s[k + 2..], isBreak)
      else [s[..k]] + LinesOf(s[k + 1..], isBreak)
  }

  predicate WithoutBreaks(s: string, isBreak: char -> bool) {
    forall c | c in s :: !isBreak(c)
  }

  /** The text of the lines; the line feed after the last one may be missing. */
  function TextOf(lines: seq<string>, closed: bool): string {
    if lines == [] then ""
    else if |lines| == 1 && !closed then lines[0]
    else lines[0] + "\n" + TextOf(lines[1..], closed)
  }

  /** A reader that takes a good line off the front of a text, and a lone one as it is, reads back any good lines. */
  lemma {:induction false} TextIsRead(read: string -> seq<string>, good: string -> bool, lines: seq<string>, closed: bool)
    requires read("") == [] && forall line | line != "" && good(line) :: read(line) == [line]
    requires forall line, tail | good(line) :: read(line + "\n" + tail) == [line] + read(tail)
    requires forall i | 0 <= i < |lines| :: good(lines[i])
    requires !closed && lines != [] ==> lines[|lines| - 1] != ""
    ensures read(TextOf(lines, closed)) == lines
  {
    if lines != [] && !(|lines| == 1 && !closed) {
      TextIsRead(read, good, lines[1..], closed);
      assert lines == [lines[0]] + lines[1..];
    }
  }

  /** Lines are read back from their text; without a line feed at the end, an empty last line could not be told. */
  lemma LinesOfText(lines: seq<string>, closed: bool, isBreak: char -> bool)
    requires isBreak('\n') && forall i | 0 <= i < |lines| :: WithoutBreaks(lines[i], isBreak)
    requires !closed && lines != [] ==> lines[|lines| - 1] != ""
    ensures LinesOf(TextOf(lines, closed), isBreak) == lines
  {
    var read, good := s => LinesOf(s, isBreak), s => WithoutBreaks(s, isBreak);
    forall line | line != "" && good(line) ensures read(line) == [line] {
      LinesOfOne(line, isBreak);
    }
    forall line, tail | good(line) ensures read(line + "\n" + tail) == [line] + read(tail) {
      LineFeedEndsLine(line, tail, isBreak);
    }
    TextIsRead(read, good, lines, closed);
  }

  lemma LinesOfOne(s: string, isBreak: char -> bool)
    requires s != "" && WithoutBreaks(s, isBreak)
    ensures LinesOf(s, isBreak) == [s]
  {
    assert FirstBreak(s, isBreak) == |s| by {
      assert forall i | 0 <= i < |s| :: s[i] in s;
    }
  }

  /** A line boundary: one of the break characters, or a carriage return and a line feed together. */
  predicate IsBoundary(sep: string, tail: string, isBreak: char -> bool) {
    (sep == "\r\n" && isBreak('\r')) || (|sep| == 1 && isBreak(sep[0]) && !(sep == "\r" && "\n" <= tail))
  }

  /** At its first boundary a text falls into a line and the lines of the rest. */
  lemma LinesOfNext(head: string, sep: string, tail: string, isBreak: char -> bool)
    requires IsBoundary(sep, tail, isBreak) && WithoutBreaks(head, isBreak)
    ensures LinesOf(head + sep + tail, isBreak) == [head] + LinesOf(tail, isBreak)
  {
    var s := head + sep + tail;
    FirstBreakAt(s, |head|, isBreak) by {
      assert forall i | 0 <= i < |head| :: s[i] == head[i] && head[i] in head;
    }
    assert s[..|head|] == head && s[|head|] == sep[0] && s[|head| + |sep|..] == tail;
    if |sep| == 1 && tail != "" {
      assert s[|head| + 1] == tail[0];
    }
  }

  lemma LineFeedEndsLine(head: string, tail: string, isBreak: char -> bool)
    requires isBreak('\n') && WithoutBreaks(head, isBreak)
    ensures LinesOf(head + "\n" + tail, isBreak) == [head] + LinesOf(tail, isBreak)
  {
    assert "\n"[0] == '\n';
    LinesOfNext(head, "\n", tail, isBreak);
  }

  lemma FirstBreakAt(s: string, k: nat, isBreak: char -> bool)
    requires k < |s| && isBreak(s[k]) && forall i | 0 <= i < k :: !isBreak(s[i])
    ensures FirstBreak(s, isBreak) == k
  {
  }

  /** The line boundaries of `str.splitlines`. */
  predicate IsLineBreak(c: char) {
    '\n' <= c <= '\r' || '\U{1c}' <= c <= '\U{1e}' || c == '\U{85}' || c == '\U{2028}' || c == '\U{2029}'
  }

  lemma LineBreakIff(c: char)
    ensures IsLineBreak(c) <==> c in "\n\U{0b}\U{0c}\r\U{1c}\U{1d}\U{1e}\U{85}\U{2028}\U{2029}"
  {
  }

  predicate OneLine(s: string) {
    WithoutBreaks(s, IsLineBreak)
  }

  /** `s.splitlines()` */
  function SplitLines(s: string): seq<string> {
    LinesOf(s, IsLineBreak)
  }

  // Ordering

  /** Python's `<` on strings: by code point, a proper prefix first. */
  predicate StrLess(a: string, b: string) {
    if b == "" then false
    else if a == "" then true
    else if a[0] != b[0] then a[0] < b[0]
    else StrLess(a[1..], b[1..])
  }

  /** `a` is a proper prefix of `b`, or smaller at the first place where they differ. */
  lemma {:induction false} StrLessIff(a: string, b: string)
    ensures StrLess(a, b) <==> (a <= b && a != b) || exists k :: 0 <= k < |a| && k < |b| && a[..k] == b[..k] && a[k] < b[k]
  {
    if a != "" && b != "" && a[0] == b[0] {
      StrLessIff(a[1..], b[1..]);
      assert a == [a[0]] + a[1..] && b == [b[0]] + b[1..];
      if k :| 0 <= k < |a[1..]| && k < |b[1..]| && a[1..][..k] == b[1..][..k] && a[1..][k] < b[1..][k] {
        assert a[..k + 1] == [a[0]] + a[1..][..k] && b[..k + 1] == [b[0]] + b[1..][..k];
        assert a[k + 1] < b[k + 1];
      }
      if k :| 0 <= k < |a| && k < |b| && a[..k] == b[..k] && a[k] < b[k] {
        assert k > 0 && a[1..][..k - 1] == a[..k][1..] && b[1..][..k - 1] == b[..k][1..];
        assert a[1..][k - 1] < b[1..][k - 1];
      }
    } else if a != "" && b != "" {
      assert a[..0] == b[..0];
      forall k | 0 < k < |a| && k < |b| ensures a[..k] != b[..k] {
        assert a[..k][0] == a[0] && b[..k][0] == b[0];
      }
    }
  }

  lemma {:induction false} StrLessTransitive(a: string, b: string, c: string)
    requires StrLess(a, b) && StrLess(b, c)
    ensures StrLess(a, c)
  {
    if a != "" && a[0] == b[0] == c[0] {
      StrLessTransitive(a[1..], b[1..], c[1..]);
    }
  }

  lemma {:induction false} StrLessIrreflexive(a: string)
    ensures !StrLess(a, a)
  {
    if a != "" {
      StrLessIrreflexive(a[1..]);
    }
  }

  lemma {:induction false} StrLessTotal(a: string, b: string)
    ensures a == b || StrLess(a, b) || StrLess(b, a)
  {
    if a != "" && b != "" && a[0] == b[0] {
      StrLessTotal(a[1..], b[1..]);
      if a[1..] == b[1..] {
        assert a == [a[0]] + a[1..] && b == [b[0]] + b[1..];
      }
    }
  }

  predicate StrictlySorted(s: seq<string>) {
    forall i, j | 0 <= i < j < |s| :: StrLess(s[i], s[j])
  }

  predicate IsLeast(m: string, s: set<string>) {
    m in s && forall x | x in s && x != m :: StrLess(m, x)
  }

  lemma {:induction false} LeastExists(s: set<string>)
    requires s != {}
    ensures exists m :: IsLeast(m, s)
  {
    var x :| x in s;
    if s == {x} {
      assert IsLeast(x, s);
    } else {
      var rest := s - {x};
      assert s == rest + {x};
      LeastExists(rest);
      var m :| IsLeast(m, rest);
      StrLessTotal(x, m);
      if StrLess(x, m) {
        forall y | y in s && y != x ensures StrLess(x, y) {
          if y != m { StrLessTransitive(x, m, y); }
        }
        assert IsLeast(x, s);
      } else {
        assert IsLeast(m, s);
      }
    }
  }

  lemma LeastUnique(s: set<string>, m: string, n: string)
    requires IsLeast(m, s) && IsLeast(n, s)
    ensures m == n
  {
    if m != n {
      StrLessTransitive(m, n, m);
      StrLessIrreflexive(m);
    }
  }

  function Least(s: set<string>): (m: string)
    requires s != {}
    ensures IsLeast(m, s)
  {
    LeastExists(s);
    assert forall m, n | IsLeast(m, s) && IsLeast(n, s) :: m == n by {
      forall m, n | IsLeast(m, s) && IsLeast(n, s) ensures m == n { LeastUnique(s, m, n); }
    }
    var m :| IsLeast(m, s);
    m
  }

  /** `sorted(values)` on a set of strings. */
  function Sorted(s: set<string>): (r: seq<string>)
    ensures StrictlySorted(r)
    ensures forall x :: x in r <==> x in s
  {
    if s == {} then []
    else
      var m := Least(s);
      [m] + Sorted(s - {m})
  }

  lemma SortedDistinct(r: seq<string>, i: int, j: int)
    requires StrictlySorted(r) && 0 <= i < j < |r|
    ensures r[i] != r[j]
  {
    StrLessIrreflexive(r[i]);
  }

  // Sorted lists with repetitions

  predicate IsOrdered(r: seq<string>) {
    forall i, j | 0 <= i < j < |r| :: !StrLess(r[j], r[i])
  }

  function Insert(v: string, r: seq<string>): (more: seq<string>)
    ensures multiset(more) == multiset(r) + multiset{v}
  {
    if r == [] then [v]
    else if StrLess(r[0], v) then
      assert r == [r[0]] + r[1..];
      [r[0]] + Insert(v, r[1..])
    else [v] + r
  }

  lemma {:induction false} InsertKeepsOrder(v: string, r: seq<string>)
    requires IsOrdered(r)
    ensures IsOrdered(Insert(v, r))
  {
    if r == [] {
    } else if StrLess(r[0], v) {
      InsertKeepsOrder(v, r[1..]);
      var rest := Insert(v, r[1..]);
      forall i | 0 <= i < |rest| ensures !StrLess(rest[i], r[0]) {
        assert rest[i] in multiset(rest);
        if StrLess(rest[i], r[0]) && rest[i] == v {
          StrLessTransitive(v, r[0], v);
          StrLessIrreflexive(v);
        }
      }
    } else {
      forall i | 0 <= i < |r| ensures !StrLess(r[i], v) {
        if i > 0 && StrLess(r[i], v) {
          StrLessTotal(r[0], r[i]);
          if r[0] != r[i] { StrLessTransitive(r[0], r[i], v); }
        }
      }
    }
  }

  /** `sorted(values)` of a list: every value as often as it occurs. */
  function Ordered(values: seq<string>): (r: seq<string>)
    ensures IsOrdered(r) && multiset(r) == multiset(values)
  {
    if values == [] then []
    else
      var init, last := values[..|values| - 1], values[|values| - 1];
      assert values == init + [last];
      InsertKeepsOrder(last, Ordered(init));
      Insert(last, Ordered(init))
  }

  /** `[name(row) for row in rows if bad(row)]` */
  function Picked<T>(rows: seq<T>, bad: T -> bool, name: T -> string): seq<string> {
    if rows == [] then []
    else
      var last := rows[|rows| - 1];
      Picked(rows[..|rows| - 1], bad, name) + if bad(last) then [name(last)] else []
  }

  lemma {:induction false} PickedExact<T>(rows: seq<T>, bad: T -> bool, name: T -> string, v: string)
    ensures v in Picked(rows, bad, name) <==> exists i :: 0 <= i < |rows| && bad(rows[i]) && name(rows[i]) == v
    ensures Picked(rows, bad, name) == [] <==> forall i | 0 <= i < |rows| :: !bad(rows[i])
  {
    if rows != [] {
      var init := rows[..|rows| - 1];
      PickedExact(init, bad, name, v);
      assert forall i | 0 <= i < |init| :: init[i] == rows[i];
    }
  }

  lemma OrderedEmptyIff(values: seq<string>)
    ensures Ordered(values) == [] <==> values == []
  {
    assert |Ordered(values)| == |multiset(values)| == |values|;
  }

  // Decimal numerals

  function Digit(d: nat): char
    requires d < 10
  {
    '0' + d as char
  }

  /** `str(n)` */
  function Decimal(n: nat): (s: string)
    ensures s != "" && forall c | c in s :: IsDigit(c)
  {
    if n < 10 then [Digit(n)] else Decimal(n / 10) + [Digit(n % 10)]
  }

  /** `int(digits)` */
  function ParseNat(s: string): nat
    requires forall c | c in s :: IsDigit(c)
  {
    if s == "" then 0
    else
      assert IsDigit(s[|s| - 1]) by { assert s[|s| - 1] in s; }
      10 * ParseNat(s[..|s| - 1]) + (s[|s| - 1] as int - '0' as int)
  }

  lemma {:induction false} ParseDecimal(n: nat)
    ensures ParseNat(Decimal(n)) == n
  {
    if n < 10 {
      assert Decimal(n)[..0] == "";
    } else {
      ParseDecimal(n / 10);
      var s := Decimal(n);
      assert s[..|s| - 1] == Decimal(n / 10);
    }
  }
}
