/** The content digest: text files are hashed with CR-LF folded to LF, everything else byte for byte. */
module LineEndings {
  import opened Text
  import opened FileTree
  import opened Utf8

  const LF: byte := 10
  const CR: byte := 13

  /** SHA-256 in lowercase hex. Nothing else about it is used, in particular not collision freedom. */
  type Hasher = f: Bytes -> string | forall b :: IsHexDigest(f(b), 64) witness HexZeros

  function HexZeros(b: Bytes): (r: string)
    ensures IsHexDigest(r, 64)
  {
    seq(64, _ => '0')
  }

  predicate IsText(content: Bytes) {
    0 !in content && ValidUtf8(content)
  }

  // Line endings

  /** `content.replace(b"\r\n", b"\n")` */
  function Unix(s: Bytes): Bytes
    decreases |s|
  {
    if s == [] then []
    else if |s| >= 2 && s[0] == CR && s[1] == LF then [LF] + Unix(s[2..])
    else [s[0]] + Unix(s[1..])
  }

  function Normalize(content: Bytes): Bytes {
    if IsText(content) then Unix(content) else content
  }

  function Sha256File(sha: Hasher, content: Bytes): string {
    sha(Normalize(content))
  }

  /** `sha256_file` as a digest of file contents. */
  function FileDigest(sha: Hasher): Hasher {
    content => Sha256File(sha, content)
  }

  /** `x` with a CR put before each LF that `pick` selects. */
  function Expand(x: Bytes, pick: seq<bool>): Bytes
    requires |pick| == |x|
  {
    if x == [] then []
    else (if x[0] == LF && pick[0] then [CR, LF] else [x[0]]) + Expand(x[1..], pick[1..])
  }

  predicate HasCrLf(x: Bytes) {
    exists i | 0 <= i < |x| - 1 :: x[i] == CR && x[i + 1] == LF
  }

  lemma {:induction false} UnixOfExpand(x: Bytes, pick: seq<bool>)
    requires |pick| == |x|
    requires !HasCrLf(x) || forall i | 0 <= i < |x| && x[i] == LF :: pick[i]
    ensures Unix(Expand(x, pick)) == x
  {
    if x != [] {
      var rest := Expand(x[1..], pick[1..]);
      assert forall i | 0 <= i < |x| - 1 :: x[1..][i] == x[i + 1];
      UnixOfExpand(x[1..], pick[1..]);
      if x[0] == LF && pick[0] {
        assert Expand(x, pick) == [CR, LF] + rest;
        assert Expand(x, pick)[2..] == rest;
      } else {
        assert Expand(x, pick) == [x[0]] + rest;
        assert Expand(x, pick)[1..] == rest;
        if x[0] == CR && |x| > 1 {
          assert rest[0] != LF by {
            assert x[1..][0] == x[1];
          }
        }
      }
    }
  }

  lemma {:induction false} ExpandIsIdentityOn(x: Bytes, pick: seq<bool>, n: nat)
    requires |pick| == |x| && n <= |x|
    requires forall i | 0 <= i < n :: x[i] != LF
    ensures Expand(x, pick) == x[..n] + Expand(x[n..], pick[n..])
  {
    if n > 0 {
      ExpandIsIdentityOn(x[1..], pick[1..], n - 1);
      assert x[1..][n - 1..] == x[n..] && pick[1..][n - 1..] == pick[n..];
      assert x[..n] == [x[0]] + x[1..][..n - 1];
    } else {
      assert x[n..] == x && pick[n..] == pick;
    }
  }

  lemma SequenceLengthOfPrefix(s: Bytes, t: Bytes)
    requires SequenceLength(s) > 0
    requires |t| >= SequenceLength(s) && t[..SequenceLength(s)] == s[..SequenceLength(s)]
    ensures SequenceLength(t) == SequenceLength(s)
  {
    assert forall i | 0 <= i < SequenceLength(s) :: t[i] == t[..SequenceLength(s)][i] == s[i];
  }

  /** Changing line endings cannot turn a text file into a binary one. */
  lemma {:induction false} ExpandStaysText(x: Bytes, pick: seq<bool>)
    requires |pick| == |x| && IsText(x)
    ensures IsText(Expand(x, pick))
    decreases |x|
  {
    if x != [] {
      var n := SequenceLength(x);
      assert IsText(x[n..]);
      ExpandStaysText(x[n..], pick[n..]);
      var e, rest := Expand(x, pick), Expand(x[n..], pick[n..]);
      if x[0] == LF {
        if pick[0] {
          assert e == [CR] + ([LF] + rest);
          assert e[1..] == [LF] + rest;
          assert e[1..][1..] == rest;
        } else {
          assert e[1..] == rest;
        }
      } else {
        ExpandIsIdentityOn(x, pick, n);
        assert e[..n] == x[..n];
        SequenceLengthOfPrefix(x, e);
        assert e[n..] == rest;
      }
    }
  }

  /** For text without CR-LF, rewriting any choice of line endings to CR-LF never changes the digest. */
  lemma {:induction false} LineEndingsDoNotMatter(sha: Hasher, x: Bytes, pick: seq<bool>)
    requires |pick| == |x| && IsText(x) && !HasCrLf(x)
    ensures Normalize(Expand(x, pick)) == x == Normalize(x)
    ensures Sha256File(sha, Expand(x, pick)) == Sha256File(sha, x)
  {
    ExpandStaysText(x, pick);
    UnixOfExpand(x, pick);
    UnixIdentityIff(x);
  }

  lemma {:induction false} UnixIdentityIff(x: Bytes)
    ensures |Unix(x)| <= |x|
    ensures Unix(x) == x <==> |Unix(x)| == |x|
    ensures |Unix(x)| == |x| <==> !HasCrLf(x)
    decreases |x|
  {
    if x != [] {
      assert forall i | 0 <= i < |x| - 1 :: x[1..][i] == x[i + 1];
      if |x| >= 2 && x[0] == CR && x[1] == LF {
        UnixIdentityIff(x[2..]);
        assert HasCrLf(x);
      } else {
        UnixIdentityIff(x[1..]);
        assert x == [x[0]] + x[1..];
        if HasCrLf(x) {
          var i :| 0 <= i < |x| - 1 && x[i] == CR && x[i + 1] == LF;
          assert x[1..][i - 1] == CR && x[1..][i] == LF;
        }
        if HasCrLf(x[1..]) {
          var i :| 0 <= i < |x[1..]| - 1 && x[1..][i] == CR && x[1..][i + 1] == LF;
          assert x[i + 1] == CR && x[i + 2] == LF;
        }
      }
    }
  }

  /** Expanding every LF of a text file keeps its normal form exactly when the file has no CR-LF of its own. */
  lemma FullExpansionExact(x: Bytes)
    requires IsText(x)
    ensures Normalize(Expand(x, seq(|x|, _ => true))) == Normalize(x) <==> !HasCrLf(x)
  {
    ExpandStaysText(x, seq(|x|, _ => true));
    UnixOfExpand(x, seq(|x|, _ => true));
    UnixIdentityIff(x);
  }

  /** The smallest text whose normal form is lost: a single CR-LF. */
  lemma CrLfIsNotRecovered()
    ensures var x: Bytes := [CR, LF];
            IsText(x) && Normalize(Expand(x, [true, true])) != Normalize(x)
  {
    var x: Bytes := [CR, LF];
    assert SequenceLength(x) == 1 && x[1..] == [LF] && SequenceLength([LF]) == 1;
    assert ValidUtf8([LF]);
    assert x[0] == CR && x[1] == LF && HasCrLf(x);
    assert seq(2, _ => true) == [true, true];
    FullExpansionExact(x);
  }

  /** Lines that end in CR-LF come out ending in LF; with `UnixIdentityIff` for what has none, this is all that `Unix` does. */
  lemma {:induction false} UnixAtCrLf(before: Bytes, after: Bytes)
    ensures Unix(before + [CR, LF] + after) == Unix(before) + [LF] + Unix(after)
    decreases |before|
  {
    var s := before + [CR, LF] + after;
    if before == [] {
      assert s[2..] == after;
    } else if |before| >= 2 && before[0] == CR && before[1] == LF {
      assert s[2..] == before[2..] + [CR, LF] + after;
      UnixAtCrLf(before[2..], after);
    } else {
      assert s[1..] == before[1..] + [CR, LF] + after;
      UnixAtCrLf(before[1..], after);
    }
  }

  /** A file counts as text when it holds no NUL byte and encodes some text. */
  lemma TextIs(content: Bytes)
    ensures IsText(content) <==> 0 !in content && exists cs :: Encode(cs) == content
  {
    ValidUtf8Iff(content);
  }

  /** The digest is taken of a text with its CR-LF folded, and of anything else as it is. */
  lemma DigestIs(sha: Hasher, content: Bytes)
    ensures IsText(content) ==> Sha256File(sha, content) == sha(Unix(content))
    ensures !IsText(content) ==> Sha256File(sha, content) == sha(content)
  {
  }
}
