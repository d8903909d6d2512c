/**
 * The pieces of Python's string and integer semantics that the watcher relies on:
 * `str.strip()`, `str.lower()`, `str(int)` and `int(str)`, over `seq<char>`.
 * Only ASCII letters are case-folded and only ASCII digits are digits; the whitespace
 * sets are Python's own.
 */
module PyText {
  import opened Wrappers

  /** `c.isspace()`: Python's whitespace, which includes the ASCII separators 0x1C-0x1F. */
  predicate IsPySpace(c: char) {
    var n := c as int;
    (9 <= n <= 13) || (28 <= n <= 32) || n == 0x85 || n == 0xA0 || n == 0x1680
    || (0x2000 <= n <= 0x200A) || n == 0x2028 || n == 0x2029 || n == 0x202F
    || n == 0x205F || n == 0x3000
  }

  /**
   * Whitespace that `int()` skips around a number: the C-locale spaces among ASCII
   * characters, and every Python whitespace character beyond ASCII.
   */
  predicate IsIntSpace(c: char) {
    var n := c as int;
    (9 <= n <= 13) || n == 32 || (n >= 128 && IsPySpace(c))
  }

  predicate IsDigit(c: char) { '0' <= c <= '9' }

  function DigitValue(c: char): (d: nat)
    requires IsDigit(c)
    ensures d < 10
  {
    c as int - '0' as int
  }

  function DigitChar(d: nat): (c: char)
    requires d < 10
    ensures IsDigit(c) && DigitValue(c) == d
  {
    ('0' as int + d) as char
  }

  /** Drops leading characters satisfying the Python whitespace test. */
  function StripLeft(s: string): (r: string)
    ensures |r| <= |s|
    ensures r == [] || !IsPySpace(r[0])
  {
    if s != [] && IsPySpace(s[0]) then StripLeft(s[1..]) else s
  }

  /** Drops trailing characters satisfying the Python whitespace test. */
  function StripRight(s: string): (r: string)
    ensures |r| <= |s|
    ensures r == [] || !IsPySpace(r[|r| - 1])
    ensures r == [] || r[0] == s[0]
  {
    if s != [] && IsPySpace(s[|s| - 1]) then StripRight(s[..|s| - 1]) else s
  }

  /** `s.strip()` */
  function Strip(s: string): (r: string)
    ensures r == [] || (!IsPySpace(r[0]) && !IsPySpace(r[|r| - 1]))
  {
    StripRight(StripLeft(s))
  }

  function LowerChar(c: char): (l: char)
    ensures !('A' <= l <= 'Z')
    ensures IsPySpace(l) == IsPySpace(c)
  {
    if 'A' <= c <= 'Z' then (c as int + 32) as char else c
  }

  /** `s.lower()`, restricted to ASCII letters. */
  function Lower(s: string): (r: string)
    ensures |r| == |s|
  {
    if s == [] then [] else [LowerChar(s[0])] + Lower(s[1..])
  }

  /** Lower-casing works character by character. */
  lemma {:induction false} LowerAt(s: string, i: nat)
    requires i < |s|
    ensures Lower(s)[i] == LowerChar(s[i])
  {
    if i > 0 {
      LowerAt(s[1..], i - 1);
    }
  }

  /** Lower-casing twice is lower-casing once. */
  lemma {:induction false} LowerLower(s: string)
    ensures Lower(Lower(s)) == Lower(s)
  {
    if s != [] {
      var l := Lower(s);
      assert l[0] == LowerChar(s[0]) && l[1..] == Lower(s[1..]);
      LowerLower(s[1..]);
    }
  }

  /** `s.strip().lower()`: the normalisation applied to pool names. */
  function Normalize(s: string): string {
    Lower(Strip(s))
  }

  /** Decimal digits of a natural number, most significant first, without leading zeros. */
  function Digits(n: nat): (r: string)
    ensures |r| > 0
    ensures forall i :: 0 <= i < |r| ==> IsDigit(r[i])
    ensures |r| > 1 ==> r[0] != '0'
  {
    if n < 10 then [DigitChar(n)] else Digits(n / 10) + [DigitChar(n % 10)]
  }

  /** `str(n)` for a Python `int`. */
  function DecimalString(n: int): (r: string)
    ensures |r| > 0
  {
    if n < 0 then "-" + Digits(-n) else Digits(n)
  }

  /** The value of a string of decimal digits (the empty string has value 0). */
  function DigitsValue(s: string): (v: nat)
    requires forall i :: 0 <= i < |s| ==> IsDigit(s[i])
  {
    if s == [] then 0 else DigitsValue(s[..|s| - 1]) * 10 + DigitValue(s[|s| - 1])
  }

  /**
   * The digit part of a base-10 literal accepted by `int()`: digits, with single
   * underscores allowed between two digits.
   */
  predicate IsDigitRun(s: string) {
    |s| > 0 && IsDigit(s[0]) && IsDigit(s[|s| - 1])
    && (forall i :: 0 <= i < |s| ==> IsDigit(s[i]) || s[i] == '_')
    && (forall i :: 0 <= i < |s| - 1 ==> s[i] == '_' ==> s[i + 1] != '_')
  }

  function RemoveUnderscores(s: string): (r: string)
    requires forall i :: 0 <= i < |s| ==> IsDigit(s[i]) || s[i] == '_'
    ensures forall i :: 0 <= i < |r| ==> IsDigit(r[i])
    ensures |r| <= |s|
  {
    if s == [] then []
    else if s[0] == '_' then RemoveUnderscores(s[1..])
    else [s[0]] + RemoveUnderscores(s[1..])
  }

  /** Drops the whitespace `int()` ignores at both ends. */
  function StripIntSpace(s: string): (r: string)
    ensures |r| <= |s|
    ensures r == [] || (!IsIntSpace(r[0]) && !IsIntSpace(r[|r| - 1]))
  {
    if s == [] then []
    else if IsIntSpace(s[0]) then StripIntSpace(s[1..])
    else if IsIntSpace(s[|s| - 1]) then StripIntSpace(s[..|s| - 1])
    else s
  }

  /**
   * CPython's default limit on the number of digits `int()` converts from a string
   * (`sys.get_int_max_str_digits()`); underscores do not count towards it.
   */
  const MaxStrDigits: nat := 4300

  /** The value of an unsigned digit run, or None when `int()` would raise. */
  function ParseUnsigned(t: string): Option<nat> {
    if IsDigitRun(t) && |RemoveUnderscores(t)| <= MaxStrDigits then
      Some(DigitsValue(RemoveUnderscores(t)))
    else None
  }

  /** The value of an optionally signed digit run, or None when `int()` would raise. */
  function ParseSigned(t: string): Option<int> {
    if t != [] && (t[0] == '+' || t[0] == '-') then
      match ParseUnsigned(t[1..])
      case Some(v) => Some(if t[0] == '-' then -(v as int) else v)
      case None => None
    else
      match ParseUnsigned(t)
      case Some(v) => Some(v)
      case None => None
  }

  /**
   * `int(s)` for a string `s`: `None` stands for the `ValueError` it raises, which it
   * does on any text without a digit in it, whatever its signs and spaces.
   */
  function ParseInt(s: string): (r: Option<int>)
    ensures NoDigits(s) ==> r == None
  {
    StripIntSpaceNoDigits(s);
    ParseSigned(StripIntSpace(s))
  }

  /** `s` holds no decimal digit. */
  predicate NoDigits(s: string) {
    forall i :: 0 <= i < |s| ==> !IsDigit(s[i])
  }

  lemma {:induction false} StripIntSpaceNoDigits(s: string)
    ensures NoDigits(s) ==> NoDigits(StripIntSpace(s))
  {
    if s == [] {
    } else if IsIntSpace(s[0]) {
      StripIntSpaceNoDigits(s[1..]);
    } else if IsIntSpace(s[|s| - 1]) {
      StripIntSpaceNoDigits(s[..|s| - 1]);
    }
  }

  /** Reading a digit string back gives the number it was written from. */
  lemma {:induction false} DigitsValueOfDigits(n: nat)
    ensures DigitsValue(Digits(n)) == n
  {
    if n >= 10 {
      var d := Digits(n);
      assert d[..|d| - 1] == Digits(n / 10);
      DigitsValueOfDigits(n / 10);
    }
  }

  lemma {:induction false} RemoveUnderscoresOfDigits(s: string)
    requires forall i :: 0 <= i < |s| ==> IsDigit(s[i])
    ensures RemoveUnderscores(s) == s
  {
    if s != [] {
      RemoveUnderscoresOfDigits(s[1..]);
    }
  }

  lemma StripIntSpaceOfDigitText(s: string)
    requires |s| > 0 && IsDigit(s[|s| - 1]) && (IsDigit(s[0]) || s[0] == '-')
    ensures StripIntSpace(s) == s
  {
  }

  /** A plain digit string is a digit run with nothing to remove. */
  lemma DigitStringIsRun(d: string)
    requires d != [] && forall i :: 0 <= i < |d| ==> IsDigit(d[i])
    ensures IsDigitRun(d) && RemoveUnderscores(d) == d
  {
    RemoveUnderscoresOfDigits(d);
  }

  /** A plain digit string reads as its value, unless it is longer than the digit limit. */
  lemma ParseUnsignedOfDigits(d: string)
    requires d != [] && forall i :: 0 <= i < |d| ==> IsDigit(d[i])
    ensures ParseUnsigned(d) == if |d| <= MaxStrDigits then Some(DigitsValue(d)) else None
  {
    DigitStringIsRun(d);
  }

  /** The number of decimal digits of `|n|`. */
  function DigitCount(n: int): nat {
    |Digits(if n < 0 then -n else n)|
  }

  /**
   * `int(str(n)) == n`: the decimal rendering of any integer within the digit limit parses
   * back to it; `int()` refuses the rendering of a longer one.
   */
  lemma ParseIntOfDecimalString(n: int)
    ensures DigitCount(n) <= MaxStrDigits ==> ParseInt(DecimalString(n)) == Some(n)
    ensures DigitCount(n) > MaxStrDigits ==> ParseInt(DecimalString(n)) == None
  {
    var a := if n < 0 then -n else n;
    var d := Digits(a);
    var s := DecimalString(n);
    DigitsValueOfDigits(a);
    StripIntSpaceOfDigitText(s);
    assert ParseInt(s) == ParseSigned(s);
    if n < 0 {
      assert s[0] == '-' && s[1..] == d;
      ParseSignedOfNegated(s, d);
    } else {
      assert s == d;
      ParseSignedOfPlain(d);
    }
  }

  /** An unsigned digit string reads as its value, within the digit limit. */
  lemma ParseSignedOfPlain(d: string)
    requires d != [] && forall i :: 0 <= i < |d| ==> IsDigit(d[i])
    ensures ParseSigned(d) == if |d| <= MaxStrDigits then Some(DigitsValue(d) as int) else None
  {
    ParseUnsignedOfDigits(d);
  }

  /** A negated digit string reads as minus its value, within the digit limit. */
  lemma ParseSignedOfNegated(t: string, d: string)
    requires d != [] && forall i :: 0 <= i < |d| ==> IsDigit(d[i])
    requires t != [] && t[0] == '-' && t[1..] == d
    ensures |d| <= MaxStrDigits ==> ParseSigned(t) == Some(-(DigitsValue(d) as int))
    ensures |d| > MaxStrDigits ==> ParseSigned(t) == None
  {
    ParseSignedOfMinus(t);
    ParseUnsignedOfDigits(d);
  }

  /** `int()` of a text starting with a minus sign is the negated value of the rest. */
  lemma ParseSignedOfMinus(t: string)
    requires t != [] && t[0] == '-'
    ensures ParseSigned(t) == match ParseUnsigned(t[1..]) case Some(v) => Some(-(v as int)) case None => None
  {
  }

  /** A run of digits longer than the digit limit makes `int()` raise. */
  lemma ParseIntPastDigitLimit(s: string)
    requires |s| > MaxStrDigits && forall i :: 0 <= i < |s| ==> IsDigit(s[i])
    ensures ParseInt(s) == None
  {
    StripIntSpaceOfDigitText(s);
    ParseUnsignedOfDigits(s);
  }

  /** Stripping a string whose ends are not whitespace changes nothing. */
  lemma StripOfStripped(s: string)
    requires s == [] || (!IsPySpace(s[0]) && !IsPySpace(s[|s| - 1]))
    ensures Strip(s) == s
  {
  }

  /** `s.strip().lower()` is already in normal form, so pool names compare consistently. */
  lemma NormalizeIdempotent(s: string)
    ensures Normalize(Normalize(s)) == Normalize(s)
  {
    var t := Strip(s);
    var n := Lower(t);
    if n != [] {
      LowerAt(t, 0);
      LowerAt(t, |t| - 1);
    }
    StripOfStripped(n);
    LowerLower(t);
  }
}
