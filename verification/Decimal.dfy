/**
 Decimal printing and parsing of 64-bit integers, as `strconv.FormatInt(n, 10)` and
 `strconv.ParseInt(s, 10, 64)` do it.
 */
module Decimal {
  import opened Bytes

  const INT64_MIN: int := -0x8000_0000_0000_0000
  const INT64_MAX: int := 0x7fff_ffff_ffff_ffff
  const UINT64_MAX: int := 0xffff_ffff_ffff_ffff

  type int64 = n: int | INT64_MIN <= n <= INT64_MAX

  predicate IsDigit(c: byte) {
    '0' <= c <= '9'
  }

  function Digit(d: nat): (c: byte)
    requires d < 10
    ensures IsDigit(c) && DigitValue(c) == d
  {
    (d + 48) as char
  }

  function DigitValue(c: byte): nat
    requires IsDigit(c)
  {
    c as int - 48
  }

  function FormatNat(n: nat): (s: bytes)
    ensures s != [] && forall c <- s :: IsDigit(c)
  {
    if n < 10 then [Digit(n)] else FormatNat(n / 10) + [Digit(n % 10)]
  }

  /** `strconv.FormatInt(n, 10)`. */
  function FormatInt(n: int): (s: bytes)
    ensures s != [] && forall c <- s :: IsDigit(c) || c == '-'
  {
    if n < 0 then ['-'] + FormatNat(-n) else FormatNat(n)
  }

  datatype Scan = Value(n: nat) | BadSyntax | OutOfRange

  /** `strconv.ParseUint(s, 10, 64)` with `n` read so far: it stops at the first byte that is not a
      digit or that takes the value past 64 bits, whichever comes first. */
  function ScanDigits(s: bytes, n: nat): Scan {
    if s == [] then Value(n)
    else if !IsDigit(s[0]) then BadSyntax
    else if 10 * n + DigitValue(s[0]) > UINT64_MAX then OutOfRange
    else ScanDigits(s[1..], 10 * n + DigitValue(s[0]))
  }

  /** What `strconv.ParseInt` returns: the value is also set, to zero or to the nearest bound, when
      there is an error. */
  datatype Parsed = Parsed(value: int, ok: bool)

  /** `strconv.ParseInt(s, 10, 64)`. */
  function ParseInt(s: bytes): Parsed {
    if s == [] then Parsed(0, false)
    else
      var negative := s[0] == '-';
      var digits := if negative || s[0] == '+' then s[1..] else s;
      if digits == [] then Parsed(0, false)
      else match ScanDigits(digits, 0)
        case BadSyntax => Parsed(0, false)
        case OutOfRange => Parsed(if negative then INT64_MIN else INT64_MAX, false)
        case Value(n) =>
          if !negative && n > INT64_MAX then Parsed(INT64_MAX, false)
          else if negative && n > -INT64_MIN then Parsed(INT64_MIN, false)
          else Parsed(if negative then 0 - n else n, true)
  }

  lemma {:induction false} ScanOfFormat(n: nat, rest: bytes)
    requires n <= UINT64_MAX
    ensures ScanDigits(FormatNat(n) + rest, 0) == ScanDigits(rest, n)
  {
    if n < 10 {
      assert (FormatNat(n) + rest)[1..] == rest;
    } else {
      var last := [Digit(n % 10)];
      assert FormatNat(n) + rest == FormatNat(n / 10) + (last + rest);
      ScanOfFormat(n / 10, last + rest);
      assert (last + rest)[1..] == rest;
    }
  }

  lemma ParseOfNat(n: nat)
    requires n <= INT64_MAX
    ensures ParseInt(FormatNat(n)) == Parsed(n, true)
  {
    ScanOfFormat(n, []);
    assert FormatNat(n) + [] == FormatNat(n);
    assert FormatNat(n)[0] != '-' && FormatNat(n)[0] != '+';
  }

  lemma ParseOfNegative(n: nat)
    requires n <= -INT64_MIN
    ensures ParseInt(['-'] + FormatNat(n)) == Parsed(0 - n, true)
  {
    ScanOfFormat(n, []);
    assert FormatNat(n) + [] == FormatNat(n);
    assert (['-'] + FormatNat(n))[1..] == FormatNat(n);
  }

  /** Parsing undoes printing for every 64-bit integer. */
  lemma ParseOfFormat(n: int64)
    ensures ParseInt(FormatInt(n)) == Parsed(n, true)
  {
    if n < 0 {
      ParseOfNegative(0 - n);
    } else {
      ParseOfNat(n);
    }
  }

  /** A proper, non-empty prefix of a printed number is the print of a smaller number. */
  lemma {:induction false} PrefixOfNat(n: nat, k: nat) returns (m: nat)
    requires 1 <= k < |FormatNat(n)|
    ensures m < n && FormatNat(n)[..k] == FormatNat(m)
  {
    if k == |FormatNat(n)| - 1 {
      m := n / 10;
      assert FormatNat(n)[..k] == FormatNat(m);
    } else {
      m := PrefixOfNat(n / 10, k);
      assert FormatNat(n)[..k] == FormatNat(n / 10)[..k];
    }
  }

  /** A number that lost some of its last characters is read back as a different number, except that
      a zero that was lost entirely is read back as zero. */
  lemma CutNumberDiffers(n: int64, k: nat)
    requires k < |FormatInt(n)|
    ensures ParseInt(FormatInt(n)[..k]).value == n <==> n == 0 && k == 0
  {
    if k == 0 {
      assert FormatInt(n)[..k] == [];
    } else if n >= 0 {
      var m := PrefixOfNat(n, k);
      ParseOfNat(m);
    } else if k == 1 {
      assert FormatInt(n)[..k] == ['-'];
    } else {
      var m := PrefixOfNat(0 - n, k - 1);
      assert FormatInt(n)[..k] == ['-'] + FormatNat(m);
      ParseOfNegative(m);
    }
  }

  // ----- what numerals mean -----

  predicate IsNumeral(s: bytes) {
    s != [] && forall c <- s :: IsDigit(c)
  }

  /** The value of decimal digits, by place. */
  function ValueOf(s: bytes): nat
    requires forall c <- s :: IsDigit(c)
  {
    if s == [] then 0
    else
      assert s[|s| - 1] in s;
      10 * ValueOf(s[..|s| - 1]) + DigitValue(s[|s| - 1])
  }

  function Unsigned(s: bytes): bytes {
    if s != [] && (s[0] == '-' || s[0] == '+') then s[1..] else s
  }

  /** Digits, perhaps after a sign, and the number they stand for. */
  predicate Denotes(s: bytes, n: int) {
    IsNumeral(Unsigned(s)) && n == if s[0] == '-' then 0 - ValueOf(Unsigned(s)) else ValueOf(Unsigned(s))
  }

  /** A natural number is printed by digits that stand for it, without leading zeros. */
  lemma {:induction false} FormatNatDenotes(n: nat)
    ensures ValueOf(FormatNat(n)) == n
    ensures FormatNat(n)[0] == '0' ==> FormatNat(n) == "0"
  {
    if n >= 10 {
      FormatNatDenotes(n / 10);
      assert FormatNat(n)[..|FormatNat(n)| - 1] == FormatNat(n / 10);
    } else {
      assert FormatNat(n)[..0] == [];
    }
  }

  /** A number is printed by a numeral that stands for it, with a sign exactly when it is negative, and without
      leading zeros. */
  lemma FormatDenotes(n: int)
    ensures Denotes(FormatInt(n), n)
    ensures FormatInt(n)[0] == '-' <==> n < 0
    ensures n != 0 ==> Unsigned(FormatInt(n))[0] != '0'
  {
    FormatNatDenotes(if n < 0 then 0 - n else n);
    assert n < 0 ==> FormatInt(n)[1..] == FormatNat(0 - n);
    assert n >= 0 ==> IsDigit(FormatInt(n)[0]) by {
      assert n >= 0 ==> FormatNat(n)[0] in FormatNat(n);
    }
  }

  lemma {:induction false} ValueGrows(p: bytes, s: bytes)
    requires forall c <- p + s :: IsDigit(c)
    requires forall c <- p :: IsDigit(c)
    ensures ValueOf(p) <= ValueOf(p + s)
  {
    if s == [] {
      assert p + s == p;
    } else {
      var shorter := p + s[..|s| - 1];
      assert (p + s)[..|p + s| - 1] == shorter;
      assert forall c <- shorter :: c in p + s;
      ValueGrows(p, s[..|s| - 1]);
      assert ValueOf(p + s) >= 10 * ValueOf(shorter);
    }
  }

  lemma {:induction false} ScanOfDigits(p: bytes, s: bytes)
    requires forall c <- p :: IsDigit(c)
    requires forall c <- s :: IsDigit(c)
    requires ValueOf(p) <= UINT64_MAX
    ensures forall c <- p + s :: IsDigit(c)
    ensures ScanDigits(s, ValueOf(p)) == if ValueOf(p + s) <= UINT64_MAX then Value(ValueOf(p + s)) else OutOfRange
    decreases |s|
  {
    if s == [] {
      assert p + s == p;
    } else {
      var longer := p + [s[0]];
      assert s[0] in s && forall c <- s[1..] :: c in s;
      assert longer[..|longer| - 1] == p && longer + s[1..] == p + s;
      assert ValueOf(longer) == 10 * ValueOf(p) + DigitValue(s[0]);
      ValueGrows(longer, s[1..]);
      if ValueOf(longer) <= UINT64_MAX {
        ScanOfDigits(longer, s[1..]);
      }
    }
  }

  lemma {:induction false} ScanOfOther(s: bytes, n: nat)
    requires !forall c <- s :: IsDigit(c)
    ensures !ScanDigits(s, n).Value?
  {
    if IsDigit(s[0]) && 10 * n + DigitValue(s[0]) <= UINT64_MAX {
      ScanOfOther(s[1..], 10 * n + DigitValue(s[0]));
    }
  }

  /** Parsing accepts exactly the numerals of 64-bit integers and gives the number they stand for; a numeral that
      stands for another number gives the nearest 64-bit integer with an error. */
  lemma ParseMeans(s: bytes)
    ensures ParseInt(s).ok <==> exists n: int64 :: Denotes(s, n)
    ensures forall n :: Denotes(s, n) ==>
              ParseInt(s).value == if n < INT64_MIN then INT64_MIN else if n > INT64_MAX then INT64_MAX else n
  {
    var digits := Unsigned(s);
    if IsNumeral(digits) {
      ScanOfDigits([], digits);
      assert [] + digits == digits;
      var n := if s[0] == '-' then 0 - ValueOf(digits) else ValueOf(digits);
      assert Denotes(s, n);
    } else if digits != [] {
      ScanOfOther(digits, 0);
    }
  }
}
