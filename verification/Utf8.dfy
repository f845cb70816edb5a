/**
 Well-formed UTF-8 (sections 3 and 4 of RFC 3629) over byte strings, and where it can be cut.
 */
module Utf8 {
  import opened Bytes

  /** The "UTF8-tail" of the RFC: a byte that only continues a character. */
  predicate IsTail(b: byte) {
    0x80 <= b as int <= 0xBF
  }

  /** `utf8.RuneStart`. */
  predicate RuneStart(b: byte) {
    !IsTail(b)
  }

  /** Whether `b` may be the second byte of a character that begins with `a`. */
  predicate SecondByte(a: byte, b: byte) {
    match a as int
    case 0xE0 => 0xA0 <= b as int <= 0xBF
    case 0xED => 0x80 <= b as int <= 0x9F
    case 0xF0 => 0x90 <= b as int <= 0xBF
    case 0xF4 => 0x80 <= b as int <= 0x8F
    case _ => IsTail(b)
  }

  /** The length of the well-formed character `s` begins with, or zero. */
  function RuneLen(s: bytes): (n: nat)
    ensures n <= 4 && n <= |s|
    ensures n > 0 ==> RuneStart(s[0]) && forall k :: 1 <= k < n ==> IsTail(s[k])
  {
    if s == [] then 0
    else
      var a := s[0] as int;
      if a <= 0x7F then 1
      else if 0xC2 <= a <= 0xDF && |s| >= 2 && SecondByte(s[0], s[1]) then 2
      else if 0xE0 <= a <= 0xEF && |s| >= 3 && SecondByte(s[0], s[1]) && IsTail(s[2]) then 3
      else if 0xF0 <= a <= 0xF4 && |s| >= 4 && SecondByte(s[0], s[1]) && IsTail(s[2]) && IsTail(s[3]) then 4
      else 0
  }

  predicate ValidUtf8(s: bytes)
    decreases |s|
  {
    s == [] || (RuneLen(s) > 0 && ValidUtf8(s[RuneLen(s)..]))
  }

  /** A character is recognised by its own bytes, whatever follows them. */
  lemma RuneLenLocal(s: bytes, t: bytes)
    requires RuneLen(s) > 0
    requires |t| >= RuneLen(s) && t[..RuneLen(s)] == s[..RuneLen(s)]
    ensures RuneLen(t) == RuneLen(s)
  {
    var n := RuneLen(s);
    assert forall k :: 0 <= k < n ==> t[k] == t[..n][k] == s[..n][k] == s[k];
  }

  lemma {:induction false} ValidConcat(a: bytes, b: bytes)
    requires ValidUtf8(a) && ValidUtf8(b)
    ensures ValidUtf8(a + b)
    decreases |a|
  {
    if a == [] {
      assert a + b == b;
    } else {
      var n := RuneLen(a);
      assert (a + b)[..n] == a[..n] && (a + b)[n..] == a[n..] + b;
      RuneLenLocal(a, a + b);
      ValidConcat(a[n..], b);
    }
  }

  /** Valid text can be cut in two wherever a character starts, and at its end. */
  lemma {:induction false} ValidCut(s: bytes, i: nat)
    requires ValidUtf8(s) && i <= |s| && (i < |s| ==> RuneStart(s[i]))
    ensures ValidUtf8(s[..i]) && ValidUtf8(s[i..])
    decreases |s|
  {
    if i == 0 {
      assert s[..i] == [] && s[i..] == s;
    } else {
      var n := RuneLen(s);
      CutAfterRune(s, i);
      ValidCut(s[n..], i - n);
      assert s[i..] == s[n..][i - n..];
      PrependRune(s, i);
    }
  }

  lemma CutAfterRune(s: bytes, i: nat)
    requires RuneLen(s) > 0 && 0 < i <= |s| && (i < |s| ==> RuneStart(s[i]))
    ensures RuneLen(s) <= i
    ensures i < |s| ==> RuneStart(s[RuneLen(s)..][i - RuneLen(s)])
  {
  }

  lemma PrependRune(s: bytes, i: nat)
    requires 0 < RuneLen(s) <= i <= |s| && ValidUtf8(s[RuneLen(s)..][..i - RuneLen(s)])
    ensures ValidUtf8(s[..i])
  {
    var n := RuneLen(s);
    assert s[..i][n..] == s[n..][..i - n] && s[..i][..n] == s[..n];
    RuneLenLocal(s, s[..i]);
  }

  /** It can be cut nowhere else: where a valid prefix of valid text ends, a character starts. */
  lemma {:induction false} ValidPrefixEndsAtRune(s: bytes, i: nat)
    requires ValidUtf8(s) && i < |s| && ValidUtf8(s[..i])
    ensures RuneStart(s[i])
    decreases |s|
  {
    if i > 0 {
      var n := RuneLen(s[..i]);
      assert s[..i][..n] == s[..n];
      RuneLenLocal(s[..i], s);
      assert s[..i][n..] == s[n..][..i - n];
      ValidPrefixEndsAtRune(s[n..], i - n);
    }
  }

  /** Among any four bytes of valid text in a row a character starts. */
  lemma {:induction false} RuneStartNear(s: bytes, i: nat)
    requires ValidUtf8(s) && i + 3 < |s|
    ensures RuneStart(s[i]) || RuneStart(s[i + 1]) || RuneStart(s[i + 2]) || RuneStart(s[i + 3])
    decreases |s|
  {
    var n := RuneLen(s);
    if i >= n {
      RuneStartNear(s[n..], i - n);
    } else if i > 0 {
      assert s[n..][0] == s[n];
    }
  }

  /** ASCII bytes are characters of their own. */
  lemma {:induction false} AsciiIsValid(s: bytes)
    requires forall c <- s :: c as int < 0x80
    ensures ValidUtf8(s)
  {
    if s != [] {
      assert s[0] in s && forall c <- s[1..] :: c in s;
      AsciiIsValid(s[1..]);
    }
  }

  lemma ValidAfterAscii(s: bytes)
    requires ValidUtf8(s) && s != [] && s[0] as int < 0x80
    ensures ValidUtf8(s[1..])
  {
    assert RuneLen(s) == 1;
  }

  /** The parts of valid text between ASCII separators are valid. */
  lemma {:induction false} ValidSplit(s: bytes, sep: byte)
    requires ValidUtf8(s) && sep as int < 0x80
    ensures forall p <- Split(s, sep) :: ValidUtf8(p)
    decreases |s|
  {
    var i := IndexOf(s, sep);
    if i < |s| {
      ValidCut(s, i);
      ValidAfterAscii(s[i..]);
      assert s[i..][1..] == s[i + 1..];
      ValidSplit(s[i + 1..], sep);
    }
  }

  lemma {:induction false} ValidJoin(parts: seq<bytes>, sep: byte)
    requires sep as int < 0x80 && forall p <- parts :: ValidUtf8(p)
    ensures ValidUtf8(Join(parts, sep))
  {
    if |parts| > 1 {
      ValidJoin(parts[1..], sep);
      AsciiIsValid([sep]);
      ValidConcat(parts[0], [sep]);
      ValidConcat(parts[0] + [sep], Join(parts[1..], sep));
    }
  }

  // ----- code points -----

  /** The code points that may be encoded: all but the surrogates. */
  type Scalar = cp: nat | cp < 0xD800 || 0xE000 <= cp <= 0x10_FFFF

  /** The encoding of a code point (section 3 of RFC 3629). */
  function EncodeRune(cp: Scalar): (s: bytes)
    ensures s != []
  {
    if cp < 0x80 then [cp as char]
    else if cp < 0x800 then [(0xC0 + cp / 0x40) as char, Tail(cp)]
    else if cp < 0x1_0000 then [(0xE0 + cp / 0x40 / 0x40) as char, Tail(cp / 0x40), Tail(cp)]
    else [(0xF0 + cp / 0x40 / 0x40 / 0x40) as char, Tail(cp / 0x40 / 0x40), Tail(cp / 0x40), Tail(cp)]
  }

  /** The byte that carries the last six bits. */
  function Tail(n: nat): byte {
    (0x80 + n % 0x40) as char
  }

  function EncodeText(cps: seq<Scalar>): bytes {
    if cps == [] then [] else EncodeRune(cps[0]) + EncodeText(cps[1..])
  }

  lemma {:induction false} EncodeTextConcat(a: seq<Scalar>, b: seq<Scalar>)
    ensures EncodeText(a + b) == EncodeText(a) + EncodeText(b)
  {
    if a == [] {
      assert a + b == b;
    } else {
      assert (a + b)[0] == a[0] && (a + b)[1..] == a[1..] + b;
      EncodeTextConcat(a[1..], b);
    }
  }

  lemma EncodedThree(cp: Scalar)
    requires 0x800 <= cp < 0x1_0000
    ensures RuneLen(EncodeRune(cp)) == 3
  {
    var middle := cp / 0x40;
    var high := middle / 0x40;
    assert high < 0x10 && (high == 0 ==> middle % 0x40 >= 0x20) && (high == 0xD ==> middle % 0x40 < 0x20);
  }

  lemma EncodedFour(cp: Scalar)
    requires 0x1_0000 <= cp
    ensures RuneLen(EncodeRune(cp)) == 4
  {
    var third := cp / 0x40;
    var second := third / 0x40;
    var first := second / 0x40;
    assert first <= 4 && (first == 0 ==> second % 0x40 >= 0x10) && (first == 4 ==> second % 0x40 < 0x10);
  }

  lemma EncodedRuneAlone(cp: Scalar)
    ensures RuneLen(EncodeRune(cp)) == |EncodeRune(cp)|
  {
    if 0x800 <= cp < 0x1_0000 {
      EncodedThree(cp);
    } else if 0x1_0000 <= cp {
      EncodedFour(cp);
    }
  }

  /** An encoded code point is recognised, whatever follows it. */
  lemma EncodedRuneLen(cp: Scalar, rest: bytes)
    ensures RuneLen(EncodeRune(cp) + rest) == |EncodeRune(cp)|
  {
    var a := EncodeRune(cp);
    EncodedRuneAlone(cp);
    assert (a + rest)[..|a|] == a == a[..|a|];
    RuneLenLocal(a, a + rest);
  }

  /** The code point of the character `s` begins with. */
  lemma RuneIsEncoded(s: bytes) returns (cp: Scalar)
    requires RuneLen(s) > 0
    ensures s[..RuneLen(s)] == EncodeRune(cp)
  {
    var n := RuneLen(s);
    if n == 1 {
      cp := s[0] as int;
    } else if n == 2 {
      cp := (s[0] as int - 0xC0) * 0x40 + SixBits(s[1]);
    } else if n == 3 {
      cp := ThreeBytes(s);
    } else {
      cp := FourBytes(s);
    }
  }

  lemma ThreeBytes(s: bytes) returns (cp: Scalar)
    requires RuneLen(s) == 3
    ensures s[..3] == EncodeRune(cp)
  {
    var high := (s[0] as int - 0xE0) * 0x40 + SixBits(s[1]);
    cp := high * 0x40 + SixBits(s[2]);
    assert cp / 0x40 == high;
  }

  lemma FourBytes(s: bytes) returns (cp: Scalar)
    requires RuneLen(s) == 4
    ensures s[..4] == EncodeRune(cp)
  {
    var high := (s[0] as int - 0xF0) * 0x40 + SixBits(s[1]);
    var middle := high * 0x40 + SixBits(s[2]);
    cp := middle * 0x40 + SixBits(s[3]);
    assert cp / 0x40 == middle && middle / 0x40 == high;
  }

  function SixBits(b: byte): nat
    requires IsTail(b)
  {
    b as int - 0x80
  }

  lemma {:induction false} TextIsValid(cps: seq<Scalar>)
    ensures ValidUtf8(EncodeText(cps))
  {
    if cps != [] {
      var first, rest := EncodeRune(cps[0]), EncodeText(cps[1..]);
      EncodedRuneLen(cps[0], rest);
      assert (first + rest)[|first|..] == rest;
      TextIsValid(cps[1..]);
    }
  }

  lemma {:induction false} ValidIsText(s: bytes) returns (cps: seq<Scalar>)
    requires ValidUtf8(s)
    ensures s == EncodeText(cps)
    decreases |s|
  {
    cps := [];
    if s != [] {
      var cp := RuneIsEncoded(s);
      var rest := ValidIsText(s[RuneLen(s)..]);
      cps := [cp] + rest;
      assert cps[1..] == rest;
    }
  }

  /** Valid UTF-8 is what encoding a sequence of code points gives, and nothing else. */
  lemma ValidMeansEncoded(s: bytes)
    ensures ValidUtf8(s) <==> exists cps :: s == EncodeText(cps)
  {
    if ValidUtf8(s) {
      var cps := ValidIsText(s);
    }
    forall cps ensures ValidUtf8(EncodeText(cps)) {
      TextIsValid(cps);
    }
  }
}
