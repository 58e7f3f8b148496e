/** UTF-8: the byte sequences that decode, and the encoding they come from. */
module Utf8 {
  import opened FileTree

  // Reading, section 4 of RFC 3629

  predicate Between(s: Bytes, i: nat, low: byte, high: byte) {
    i < |s| && low <= s[i] <= high
  }

  /** Length of the well-formed sequence that opens `s`, or 0. */
  function SequenceLength(s: Bytes): (n: nat)
    ensures n <= |s| && n <= 4
    ensures n > 1 ==> forall i | 0 <= i < n :: s[i] >= 0x80
    ensures n == 1 ==> s[0] < 0x80
  {
    if Between(s, 0, 0x00, 0x7f) then 1
    else if Between(s, 0, 0xc2, 0xdf) && Between(s, 1, 0x80, 0xbf) then 2
    else if Between(s, 2, 0x80, 0xbf) &&
            ((s[0] == 0xe0 && Between(s, 1, 0xa0, 0xbf)) || (Between(s, 0, 0xe1, 0xec) && Between(s, 1, 0x80, 0xbf)) ||
             (s[0] == 0xed && Between(s, 1, 0x80, 0x9f)) || (Between(s, 0, 0xee, 0xef) && Between(s, 1, 0x80, 0xbf))) then 3
    else if Between(s, 2, 0x80, 0xbf) && Between(s, 3, 0x80, 0xbf) &&
            ((s[0] == 0xf0 && Between(s, 1, 0x90, 0xbf)) || (Between(s, 0, 0xf1, 0xf3) && Between(s, 1, 0x80, 0xbf)) ||
             (s[0] == 0xf4 && Between(s, 1, 0x80, 0x8f))) then 4
    else 0
  }

  predicate ValidUtf8(s: Bytes)
    decreases |s|
  {
    s == [] || (SequenceLength(s) > 0 && ValidUtf8(s[SequenceLength(s)..]))
  }

  // Writing, section 3 of RFC 3629

  /** A Unicode scalar value: a code point that is no surrogate. */
  type Scalar = c: int | 0 <= c < 0xd800 || 0xe000 <= c < 0x11_0000

  /** The low six bits after `c` was shifted right, behind the continuation mark. */
  function Continuation(c: nat): byte {
    (0x80 + c % 64) as byte
  }

  function EncodeScalar(c: Scalar): (s: Bytes)
    ensures 0 < |s| <= 4
  {
    if c < 0x80 then [c as byte]
    else if c < 0x800 then [(0xc0 + c / 64) as byte, Continuation(c)]
    else if c < 0x1_0000 then [(0xe0 + c / 4096) as byte, Continuation(c / 64), Continuation(c)]
    else [(0xf0 + c / 262144) as byte, Continuation(c / 4096), Continuation(c / 64), Continuation(c)]
  }

  function Encode(cs: seq<Scalar>): Bytes {
    if cs == [] then [] else EncodeScalar(cs[0]) + Encode(cs[1..])
  }

  // Each undoes the other

  lemma EncodedIsWellFormed(c: Scalar, rest: Bytes)
    ensures SequenceLength(EncodeScalar(c) + rest) == |EncodeScalar(c)|
  {
    var s := EncodeScalar(c) + rest;
    assert forall i | 0 <= i < |EncodeScalar(c)| :: s[i] == EncodeScalar(c)[i];
  }

  lemma TwoBytes(s: Bytes)
    requires SequenceLength(s) == 2
    ensures exists c: Scalar :: EncodeScalar(c) == s[..2]
  {
    var c: Scalar := (s[0] as int - 0xc0) * 64 + (s[1] as int - 0x80);
    assert EncodeScalar(c) == s[..2];
  }

  /** Four digits to the base 64 are read back from their number. */
  lemma FourDigits(a: nat, b: nat, c: nat, d: nat)
    requires b < 64 && c < 64 && d < 64
    ensures var n := a * 262144 + b * 4096 + c * 64 + d;
            n / 262144 == a && n / 4096 % 64 == b && n / 64 % 64 == c && n % 64 == d
  {
    var n := a * 262144 + b * 4096 + c * 64 + d;
    assert n / 64 == a * 4096 + b * 64 + c;
    assert n / 4096 == a * 64 + b;
  }

  lemma ThreeBytes(s: Bytes)
    requires SequenceLength(s) == 3
    ensures exists c: Scalar :: EncodeScalar(c) == s[..3]
  {
    var x, y, z := s[0] as int - 0xe0, s[1] as int - 0x80, s[2] as int - 0x80;
    FourDigits(0, x, y, z);
    var c: Scalar := x * 4096 + y * 64 + z;
    ThreeBytesOf(c, x, y, z);
    assert s[..3] == [s[0], s[1], s[2]];
  }

  lemma ThreeBytesOf(c: Scalar, x: nat, y: nat, z: nat)
    requires 0x800 <= c < 0x1_0000 && x < 16 && y < 64 && z < 64
    requires c / 4096 == x && c / 64 % 64 == y && c % 64 == z
    ensures EncodeScalar(c) == [(0xe0 + x) as byte, (0x80 + y) as byte, (0x80 + z) as byte]
  {
  }

  lemma FourBytes(s: Bytes)
    requires SequenceLength(s) == 4
    ensures exists c: Scalar :: EncodeScalar(c) == s[..4]
  {
    var w, x, y, z := s[0] as int - 0xf0, s[1] as int - 0x80, s[2] as int - 0x80, s[3] as int - 0x80;
    FourDigits(w, x, y, z);
    var c: Scalar := w * 262144 + x * 4096 + y * 64 + z;
    FourBytesOf(c, w, x, y, z);
    assert s[..4] == [s[0], s[1], s[2], s[3]];
  }

  lemma FourBytesOf(c: Scalar, w: nat, x: nat, y: nat, z: nat)
    requires 0x1_0000 <= c && w <= 4 && x < 64 && y < 64 && z < 64
    requires c / 262144 == w && c / 4096 % 64 == x && c / 64 % 64 == y && c % 64 == z
    ensures EncodeScalar(c) == [(0xf0 + w) as byte, (0x80 + x) as byte, (0x80 + y) as byte, (0x80 + z) as byte]
  {
  }

  lemma WellFormedIsEncoded(s: Bytes)
    requires SequenceLength(s) > 0
    ensures exists c: Scalar :: EncodeScalar(c) == s[..SequenceLength(s)]
  {
    if SequenceLength(s) == 1 {
      var c: Scalar := s[0] as int;
      assert EncodeScalar(c) == s[..1];
    } else if SequenceLength(s) == 2 {
      TwoBytes(s);
    } else if SequenceLength(s) == 3 {
      ThreeBytes(s);
    } else {
      FourBytes(s);
    }
  }

  lemma {:induction false} EncodedIsValid(cs: seq<Scalar>)
    ensures ValidUtf8(Encode(cs))
  {
    if cs != [] {
      EncodedIsWellFormed(cs[0], Encode(cs[1..]));
      assert Encode(cs)[|EncodeScalar(cs[0])|..] == Encode(cs[1..]);
      EncodedIsValid(cs[1..]);
    }
  }

  lemma {:induction false} ValidIsEncoded(s: Bytes)
    requires ValidUtf8(s)
    ensures exists cs :: Encode(cs) == s
    decreases |s|
  {
    if s == [] {
      assert Encode([]) == s;
    } else {
      var n := SequenceLength(s);
      WellFormedIsEncoded(s);
      var c: Scalar :| EncodeScalar(c) == s[..n];
      ValidIsEncoded(s[n..]);
      var cs :| Encode(cs) == s[n..];
      assert ([c] + cs)[1..] == cs;
      assert Encode([c] + cs) == s[..n] + s[n..] == s;
    }
  }

  /** Bytes decode exactly when they encode some text. */
  lemma ValidUtf8Iff(s: Bytes)
    ensures ValidUtf8(s) <==> exists cs :: Encode(cs) == s
  {
    if ValidUtf8(s) {
      ValidIsEncoded(s);
    }
    if cs :| Encode(cs) == s {
      EncodedIsValid(cs);
    }
  }
}
