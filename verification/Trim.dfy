/**
 `strings.TrimSpace`, for any bytes, and the truncation of service/messages/format.go.
 */
module Trim {
  import opened Bytes
  import opened Utf8

  const ELLIPSIS: bytes := "..."

  // ----- white space -----

  /** The UTF-8 encodings of the characters with Unicode's White_Space property. */
  predicate IsSpaceRune(r: bytes) {
    if |r| == 1 then 9 <= r[0] as int <= 13 || r[0] == ' '
    else if |r| == 2 then r[0] as int == 0xC2 && r[1] as int in {0x85, 0xA0}
    else if |r| == 3 then
      || (r[0] as int == 0xE1 && r[1] as int == 0x9A && r[2] as int == 0x80)
      || (r[0] as int == 0xE2 && r[1] as int == 0x80
          && (0x80 <= r[2] as int <= 0x8A || r[2] as int in {0xA8, 0xA9, 0xAF}))
      || (r[0] as int == 0xE2 && r[1] as int == 0x81 && r[2] as int == 0x9F)
      || (r[0] as int == 0xE3 && r[1] as int == 0x80 && r[2] as int == 0x80)
    else false
  }

  /** The length of the white space character at the beginning of `s`, or zero. */
  function LeadingSpace(s: bytes): (n: nat)
    ensures n <= 3 && n <= |s| && (n > 0 ==> IsSpaceRune(s[..n]))
    ensures n == 0 ==> forall k :: 1 <= k <= |s| ==> !IsSpaceRune(s[..k])
  {
    if |s| >= 1 && IsSpaceRune(s[..1]) then 1
    else if |s| >= 2 && IsSpaceRune(s[..2]) then 2
    else if |s| >= 3 && IsSpaceRune(s[..3]) then 3
    else 0
  }

  /** The length of the white space character at the end of `s`, or zero. */
  function TrailingSpace(s: bytes): (n: nat)
    ensures n <= 3 && n <= |s| && (n > 0 ==> IsSpaceRune(s[|s| - n..]))
  {
    if |s| >= 1 && IsSpaceRune(s[|s| - 1..]) then 1
    else if |s| >= 2 && IsSpaceRune(s[|s| - 2..]) then 2
    else if |s| >= 3 && IsSpaceRune(s[|s| - 3..]) then 3
    else 0
  }

  function TrimLeft(s: bytes): (r: bytes)
    ensures |r| <= |s|
    decreases |s|
  {
    if LeadingSpace(s) == 0 then s else TrimLeft(s[LeadingSpace(s)..])
  }

  function TrimRight(s: bytes): (r: bytes)
    ensures |r| <= |s|
    decreases |s|
  {
    if TrailingSpace(s) == 0 then s else TrimRight(s[..|s| - TrailingSpace(s)])
  }

  function TrimSpace(s: bytes): (r: bytes)
    ensures |r| <= |s|
  {
    TrimRight(TrimLeft(s))
  }

  predicate Trimmed(s: bytes) {
    LeadingSpace(s) == 0 && TrailingSpace(s) == 0
  }

  // ----- truncation -----

  /** The last position from `i` down to one where a character starts, or zero. */
  function CutPoint(s: bytes, i: int): (c: nat)
    requires i < |s|
    ensures c > 0 ==> c <= i && RuneStart(s[c])
    ensures forall k :: c < k <= i ==> !RuneStart(s[k])
  {
    if i <= 0 then 0 else if RuneStart(s[i]) then i else CutPoint(s, i - 1)
  }

  function Truncated(s: bytes, lenMax: int): bytes {
    var t := TrimSpace(s);
    if |t| <= lenMax then t
    else
      var c := CutPoint(t, lenMax - 3);
      if c > 0 then t[..c] + ELLIPSIS else []
  }

  method TruncateStringUtf8(text: bytes, lenMax: int) returns (r: bytes)
    ensures r == Truncated(text, lenMax)
    ensures lenMax >= 0 ==> |r| <= lenMax
    ensures ValidUtf8(text) ==> ValidUtf8(r)
  {
    if ValidUtf8(text) {
      TruncatedIsLongestPrefix(text, lenMax);
    }
    var s := TrimSpace(text);
    if |s| <= lenMax {
      return s;
    }
    var i := lenMax - 3;
    while i > 0
      invariant i < |s|
      invariant CutPoint(s, lenMax - 3) == CutPoint(s, i)
    {
      if RuneStart(s[i]) {
        return s[..i] + ELLIPSIS;
      }
      i := i - 1;
    }
    return [];
  }

  // ----- what is dropped -----

  /** The code points with Unicode's White_Space property. */
  predicate IsWhiteSpace(cp: Scalar) {
    || 0x9 <= cp <= 0xD || cp in {0x20, 0x85, 0xA0, 0x1680} || 0x2000 <= cp <= 0x200A
    || cp in {0x2028, 0x2029, 0x202F, 0x205F, 0x3000}
  }

  lemma SpaceRuneIsEncoded(r: bytes) returns (cp: Scalar)
    requires IsSpaceRune(r)
    ensures IsWhiteSpace(cp) && r == EncodeRune(cp)
  {
    cp := RuneIsEncoded(r);
    assert r[..|r|] == r;
  }

  lemma WhiteSpaceIsSpaceRune(cp: Scalar)
    requires IsWhiteSpace(cp)
    ensures IsSpaceRune(EncodeRune(cp))
  {
  }

  /** The white space characters are the encoded white space code points. */
  lemma SpaceRunesAreWhiteSpace(r: bytes)
    ensures IsSpaceRune(r) <==> exists cp :: IsWhiteSpace(cp) && r == EncodeRune(cp)
  {
    if IsSpaceRune(r) {
      var cp := SpaceRuneIsEncoded(r);
    }
    if cp :| IsWhiteSpace(cp) && r == EncodeRune(cp) {
      WhiteSpaceIsSpaceRune(cp);
    }
  }

  predicate EncodesSpaces(s: bytes, cps: seq<Scalar>) {
    s == EncodeText(cps) && forall cp <- cps :: IsWhiteSpace(cp)
  }

  /** White space characters and nothing else. */
  ghost predicate AllSpace(s: bytes) {
    exists cps :: EncodesSpaces(s, cps)
  }

  lemma OneSpace(r: bytes)
    requires IsSpaceRune(r) || r == []
    ensures AllSpace(r)
  {
    if r == [] {
      assert EncodesSpaces(r, []);
    } else {
      var cp := SpaceRuneIsEncoded(r);
      assert [cp][1..] == [];
      assert EncodesSpaces(r, [cp]);
    }
  }

  lemma AllSpaceConcat(a: bytes, b: bytes)
    requires AllSpace(a) && AllSpace(b)
    ensures AllSpace(a + b)
  {
    var cps, more :| EncodesSpaces(a, cps) && EncodesSpaces(b, more);
    EncodeTextConcat(cps, more);
    assert EncodesSpaces(a + b, cps + more);
  }

  /** The text between white space on its left and on its right. */
  ghost predicate IsBetween(t: bytes, s: bytes, left: bytes, right: bytes) {
    s == left + t + right && AllSpace(left) && AllSpace(right)
  }

  /** What is left of a text when some white space at its ends is dropped. */
  ghost predicate DropsSpace(t: bytes, s: bytes) {
    exists left, right :: IsBetween(t, s, left, right)
  }

  lemma DropsNothing(s: bytes)
    ensures DropsSpace(s, s)
  {
    OneSpace([]);
    assert IsBetween(s, s, [], []);
  }

  lemma Regroup<T>(a: seq<T>, b: seq<T>, c: seq<T>, d: seq<T>, e: seq<T>)
    ensures a + (b + c + d) + e == (a + b) + c + (d + e)
  {
  }

  lemma DropsMore(t: bytes, s: bytes, before: bytes, after: bytes)
    requires DropsSpace(t, s) && AllSpace(before) && AllSpace(after)
    ensures DropsSpace(t, before + s + after)
  {
    var left, right :| IsBetween(t, s, left, right);
    AllSpaceConcat(before, left);
    AllSpaceConcat(right, after);
    Regroup(before, left, t, right, after);
    assert IsBetween(t, before + s + after, before + left, right + after);
  }

  lemma DropsOneBefore(t: bytes, s: bytes, n: nat)
    requires n <= |s| && IsSpaceRune(s[..n]) && DropsSpace(t, s[n..])
    ensures DropsSpace(t, s)
  {
    OneSpace([]);
    OneSpace(s[..n]);
    DropsMore(t, s[n..], s[..n], []);
    assert s[..n] + s[n..] + [] == s;
  }

  lemma DropsOneAfter(t: bytes, s: bytes, k: nat)
    requires k <= |s| && IsSpaceRune(s[k..]) && DropsSpace(t, s[..k])
    ensures DropsSpace(t, s)
  {
    OneSpace([]);
    OneSpace(s[k..]);
    DropsMore(t, s[..k], [], s[k..]);
    assert [] + s[..k] + s[k..] == s;
  }

  lemma DropsTwice(t: bytes, u: bytes, s: bytes)
    requires DropsSpace(t, u) && DropsSpace(u, s)
    ensures DropsSpace(t, s)
  {
    var left, right :| IsBetween(u, s, left, right);
    DropsMore(t, u, left, right);
  }

  lemma {:induction false} TrimLeftDrops(s: bytes)
    ensures DropsSpace(TrimLeft(s), s)
    decreases |s|
  {
    var n := LeadingSpace(s);
    if n == 0 {
      DropsNothing(s);
    } else {
      TrimLeftDrops(s[n..]);
      DropsOneBefore(TrimLeft(s), s, n);
    }
  }

  lemma {:induction false} TrimRightDrops(s: bytes)
    ensures DropsSpace(TrimRight(s), s)
    decreases |s|
  {
    var n := TrailingSpace(s);
    if n == 0 {
      DropsNothing(s);
    } else {
      TrimRightDrops(s[..|s| - n]);
      DropsOneAfter(TrimRight(s), s, |s| - n);
    }
  }

  /** The text between the white space at the ends, all of it. */
  ghost predicate IsTrimOf(t: bytes, s: bytes) {
    Trimmed(t) && DropsSpace(t, s)
  }

  /** Trimming drops the white space at both ends, all of it and nothing else. */
  lemma TrimDropsOnlySpace(s: bytes)
    ensures IsTrimOf(TrimSpace(s), s)
  {
    TrimSpaceProps(s);
    TrimLeftDrops(s);
    TrimRightDrops(TrimLeft(s));
    DropsTwice(TrimSpace(s), TrimLeft(s), s);
  }

  // ----- proofs -----

  lemma {:induction false} TrimLeftProps(s: bytes)
    ensures LeadingSpace(TrimLeft(s)) == 0
    ensures ValidUtf8(s) ==> ValidUtf8(TrimLeft(s))
    decreases |s|
  {
    var n := LeadingSpace(s);
    if n > 0 {
      TrimLeftProps(s[n..]);
      if ValidUtf8(s) {
        LeadingSpaceIsRune(s);
      }
    }
  }

  lemma LeadingSpaceIsRune(s: bytes)
    requires ValidUtf8(s) && LeadingSpace(s) > 0
    ensures RuneLen(s) == LeadingSpace(s)
  {
    var n := LeadingSpace(s);
    assert s[..n][0] == s[0];
    if n > 1 {
      assert s[..n][1] == s[1];
    }
  }

  lemma SpaceRuneBytes(r: bytes)
    requires IsSpaceRune(r)
    ensures 1 <= |r| <= 3 && RuneStart(r[0]) && r[|r| - 1] != '.'
    ensures forall k :: 1 <= k < |r| ==> IsTail(r[k])
  {
  }

  lemma LeadingSpaceOfPrefix(s: bytes, c: nat)
    requires LeadingSpace(s) == 0 && c <= |s|
    ensures LeadingSpace(s[..c]) == 0
  {
    assert forall n :: 0 <= n <= c ==> s[..c][..n] == s[..n];
  }

  lemma {:induction false} TrimRightProps(s: bytes)
    ensures TrailingSpace(TrimRight(s)) == 0
    ensures LeadingSpace(s) == 0 ==> LeadingSpace(TrimRight(s)) == 0
    ensures ValidUtf8(s) ==> ValidUtf8(TrimRight(s))
    decreases |s|
  {
    var n := TrailingSpace(s);
    if n > 0 {
      var rest := s[..|s| - n];
      if LeadingSpace(s) == 0 {
        LeadingSpaceOfPrefix(s, |s| - n);
      }
      if ValidUtf8(s) {
        SpaceRuneBytes(s[|s| - n..]);
        ValidCut(s, |s| - n);
      }
      TrimRightProps(rest);
    }
  }

  lemma TrimSpaceProps(s: bytes)
    ensures Trimmed(TrimSpace(s))
    ensures ValidUtf8(s) ==> ValidUtf8(TrimSpace(s))
  {
    TrimLeftProps(s);
    TrimRightProps(TrimLeft(s));
  }

  lemma TrimSpaceIsValid(s: bytes)
    requires ValidUtf8(s)
    ensures ValidUtf8(TrimSpace(s))
  {
    TrimSpaceProps(s);
  }

  lemma TrimSpaceOfTrimmed(s: bytes)
    requires Trimmed(s)
    ensures TrimSpace(s) == s
  {
  }

  /** A cut text neither begins nor ends with white space. */
  lemma CutIsTrimmed(t: bytes, c: nat)
    requires Trimmed(t) && 0 < c < |t|
    ensures Trimmed(t[..c] + ELLIPSIS)
  {
    LeadingSpaceOfPrefix(t, c);
    LeadingSpaceOfCut(t[..c]);
    TrailingSpaceOfCut(t[..c]);
  }

  lemma LeadingSpaceOfCut(p: bytes)
    requires p != [] && LeadingSpace(p) == 0
    ensures LeadingSpace(p + ELLIPSIS) == 0
  {
    var r := p + ELLIPSIS;
    forall n | 1 <= n <= |r| ensures !IsSpaceRune(r[..n]) {
      if n <= |p| {
        assert r[..n] == p[..n];
      } else {
        assert r[..n][|p|] == '.';
      }
    }
  }

  lemma TrailingSpaceOfCut(p: bytes)
    ensures TrailingSpace(p + ELLIPSIS) == 0
  {
    var r := p + ELLIPSIS;
    assert r[|r| - 1..][0] == '.' && r[|r| - 2..][1] == '.' && r[|r| - 3..][2] == '.';
  }

  /** The result never has more bytes than allowed, whatever the bytes of the text are. */
  lemma TruncatedFits(s: bytes, lenMax: nat)
    ensures |Truncated(s, lenMax)| <= lenMax
  {
  }

  /** Truncating what is already truncated changes nothing, for any text and any limit. */
  lemma TruncatedTwice(s: bytes, lenMax: int)
    ensures Truncated(Truncated(s, lenMax), lenMax) == Truncated(s, lenMax)
  {
    var r := Truncated(s, lenMax);
    TruncatedIsTrimmed(s, lenMax);
    TrimSpaceOfTrimmed(r);
  }

  /** A text that is too long, cut before the last character that starts where the ellipsis still fits after it;
      nothing when only the first character starts there. */
  ghost predicate IsCutOf(r: bytes, t: bytes, lenMax: int) {
    if exists c :: 0 < c <= lenMax - 3 && c < |t| && RuneStart(t[c]) then
      exists c :: && 0 < c <= lenMax - 3 && c < |t| && RuneStart(t[c]) && r == t[..c] + ELLIPSIS
                  && forall k :: c < k <= lenMax - 3 && k < |t| ==> !RuneStart(t[k])
    else r == []
  }

  /** A text without the white space at its ends, whole if it fits, and cut if not. */
  ghost predicate IsTruncation(r: bytes, s: bytes, lenMax: int) {
    exists t :: IsTrimOf(t, s) && if |t| <= lenMax then r == t else IsCutOf(r, t, lenMax)
  }

  /** Truncation drops the white space at both ends; what is left comes out whole if it fits, and cut if not. */
  lemma TruncatedCuts(s: bytes, lenMax: int)
    ensures IsTruncation(Truncated(s, lenMax), s, lenMax)
  {
    var t, r := TrimSpace(s), Truncated(s, lenMax);
    TrimDropsOnlySpace(s);
    assert IsTrimOf(t, s) && if |t| <= lenMax then r == t else IsCutOf(r, t, lenMax);
  }

  /** The result neither begins nor ends with white space; it fits, or it is empty. */
  lemma TruncatedIsTrimmed(s: bytes, lenMax: int)
    ensures Trimmed(Truncated(s, lenMax))
    ensures |Truncated(s, lenMax)| <= lenMax || Truncated(s, lenMax) == []
  {
    var t := TrimSpace(s);
    TrimSpaceProps(s);
    if |t| > lenMax && CutPoint(t, lenMax - 3) > 0 {
      CutIsTrimmed(t, CutPoint(t, lenMax - 3));
    }
  }

  lemma CutIsValid(t: bytes, c: nat)
    requires ValidUtf8(t) && c < |t| && RuneStart(t[c])
    ensures ValidUtf8(t[..c]) && ValidUtf8(t[..c] + ELLIPSIS)
  {
    ValidCut(t, c);
    AsciiIsValid(ELLIPSIS);
    ValidConcat(t[..c], ELLIPSIS);
  }

  /** Truncating valid UTF-8 gives valid UTF-8, under any limit. With room for at least one character and
      the ellipsis, the result is the trimmed text when that fits, and otherwise the ellipsis after the
      longest valid prefix that leaves room for it, which loses at most three more bytes. */
  lemma TruncatedIsLongestPrefix(s: bytes, lenMax: int)
    requires ValidUtf8(s)
    ensures ValidUtf8(Truncated(s, lenMax))
    ensures lenMax >= 7 && |TrimSpace(s)| > lenMax ==>
              var t, c := TrimSpace(s), |Truncated(s, lenMax)| - 3;
              && lenMax - 6 <= c <= lenMax - 3
              && Truncated(s, lenMax) == t[..c] + ELLIPSIS
              && ValidUtf8(t[..c])
              && forall k :: c < k <= lenMax - 3 ==> !ValidUtf8(t[..k])
  {
    var t := TrimSpace(s);
    TrimSpaceProps(s);
    if |t| > lenMax {
      var c := CutPoint(t, lenMax - 3);
      if c > 0 {
        CutIsValid(t, c);
      }
      if lenMax >= 7 {
        RuneStartNear(t, lenMax - 6);
        assert c >= lenMax - 6;
        assert (t[..c] + ELLIPSIS)[..c] == t[..c];
        forall k | c < k <= lenMax - 3 ensures !ValidUtf8(t[..k]) {
          if ValidUtf8(t[..k]) {
            ValidPrefixEndsAtRune(t, k);
          }
        }
      }
    }
  }
}
