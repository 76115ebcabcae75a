/**
 * ECMAScript's global `parseInt(string)` called without a radix, as the
 * reorder handlers call it on a container id, over unbounded integers.
 */
module JsNumbers {

  /** What `parseInt` can return: an integral number, or NaN. */
  datatype Number = Num(value: int) | NaN

  /** The WhiteSpace and LineTerminator code points that `parseInt` skips before the number. */
  predicate IsWhitespace(c: char) {
    var n := c as int;
    n == 0x09 || n == 0x0A || n == 0x0B || n == 0x0C || n == 0x0D || n == 0x20
    || n == 0xA0 || n == 0x1680 || (0x2000 <= n <= 0x200A) || n == 0x2028
    || n == 0x2029 || n == 0x202F || n == 0x205F || n == 0x3000 || n == 0xFEFF
  }

  /** The value of c as a digit: 0-9, then a-z (or A-Z) as 10-35; 36 for anything else. */
  function DigitValue(c: char): (v: nat)
    ensures v <= 36
  {
    if '0' <= c <= '9' then c as int - '0' as int
    else if 'a' <= c <= 'z' then c as int - 'a' as int + 10
    else if 'A' <= c <= 'Z' then c as int - 'A' as int + 10
    else 36
  }

  predicate IsDigit(c: char, radix: nat) {
    DigitValue(c) < radix
  }

  predicate AllDigits(s: string, radix: nat) {
    forall k :: 0 <= k < |s| ==> IsDigit(s[k], radix)
  }

  /** The input with its leading white space removed. */
  function TrimStart(s: string): (t: string)
    ensures |t| <= |s| && t == s[|s| - |t|..]
    ensures t == [] || !IsWhitespace(t[0])
    ensures forall k :: 0 <= k < |s| - |t| ==> IsWhitespace(s[k])
  {
    if s != [] && IsWhitespace(s[0]) then TrimStart(s[1..]) else s
  }

  /** The longest prefix of s made of digits of the given radix. */
  function DigitPrefix(s: string, radix: nat): (z: string)
    ensures |z| <= |s| && z == s[..|z|]
    ensures AllDigits(z, radix)
    ensures |z| == |s| || !IsDigit(s[|z|], radix)
  {
    if s == [] || !IsDigit(s[0], radix) then [] else [s[0]] + DigitPrefix(s[1..], radix)
  }

  /** The value of a digit string, most significant digit first. */
  function DigitsValue(z: string, radix: nat): nat
    requires AllDigits(z, radix)
  {
    if z == [] then 0 else DigitsValue(z[..|z| - 1], radix) * radix + DigitValue(z[|z| - 1])
  }

  predicate HasDecimalDigit(s: string) {
    exists k :: 0 <= k < |s| && IsDigit(s[k], 10)
  }

  /** Whether an unsigned numeral starts with the hexadecimal prefix "0x" or "0X". */
  predicate HasHexPrefix(u: string) {
    |u| >= 2 && u[0] == '0' && (u[1] == 'x' || u[1] == 'X')
  }

  /** The numeral after the sign: hexadecimal after a "0x" prefix, decimal otherwise, up to the first non-digit. */
  function ParseUnsigned(u: string): (r: Number)
    ensures r.Num? ==> r.value >= 0
    ensures r.Num? ==> u != [] && IsDigit(u[0], 10)
  {
    var radix := if HasHexPrefix(u) then 16 else 10;
    var z := DigitPrefix(if HasHexPrefix(u) then u[2..] else u, radix);
    if z == [] then NaN else Num(DigitsValue(z, radix))
  }

  function Negate(r: Number): Number {
    match r
    case Num(v) => Num(-v)
    case NaN => NaN
  }

  /**
   * parseInt(s): skip white space, take an optional sign, then read the
   * numeral; NaN when no digit is read.
   */
  function ParseInt(s: string): (r: Number)
    // a number is read only when the string holds a decimal digit (a hexadecimal numeral starts with "0")
    ensures r.Num? ==> HasDecimalDigit(s)
  {
    var t := TrimStart(s);
    if t != [] && t[0] == '-' then Negate(ParseUnsigned(t[1..]))
    else if t != [] && t[0] == '+' then ParseUnsigned(t[1..])
    else ParseUnsigned(t)
  }

  function DecimalDigit(d: nat): (c: char)
    requires d < 10
    ensures IsDigit(c, 10) && DigitValue(c) == d
  {
    ('0' as int + d) as char
  }

  /** The decimal rendering of a natural number, without leading zeros. */
  function ShowNat(n: nat): (s: string)
    ensures |s| >= 1 && AllDigits(s, 10)
    ensures s[0] == '0' <==> n == 0
    ensures n == 0 ==> s == "0"
  {
    if n < 10 then [DecimalDigit(n)] else ShowNat(n / 10) + [DecimalDigit(n % 10)]
  }

  /** The decimal rendering of an integer, as an integer id is written into a DOM id attribute. */
  function ShowInt(n: int): string {
    if n < 0 then "-" + ShowNat(-n) else ShowNat(n)
  }

  lemma {:induction false} DigitsValueShowNat(n: nat)
    ensures DigitsValue(ShowNat(n), 10) == n
  {
    var s := ShowNat(n);
    if n >= 10 {
      DigitsValueShowNat(n / 10);
      assert s[..|s| - 1] == ShowNat(n / 10);
    }
  }

  lemma {:induction false} DigitPrefixStopsAt(z: string, rest: string, radix: nat)
    requires AllDigits(z, radix)
    requires rest == [] || !IsDigit(rest[0], radix)
    ensures DigitPrefix(z + rest, radix) == z
  {
    if z != [] {
      assert (z + rest)[1..] == z[1..] + rest;
      DigitPrefixStopsAt(z[1..], rest, radix);
    }
  }

  lemma ParseUnsignedDecimal(digits: string, rest: string)
    requires digits != [] && AllDigits(digits, 10)
    requires rest == [] || !IsDigit(rest[0], 10)
    requires digits[0] == '0' ==> |digits| == 1 && (rest == [] || (rest[0] != 'x' && rest[0] != 'X'))
    ensures ParseUnsigned(digits + rest) == Num(DigitsValue(digits, 10))
  {
    assert !HasHexPrefix(digits + rest);
    DigitPrefixStopsAt(digits, rest, 10);
  }

  /** parseInt reads a rendered natural number back, up to the first non-digit after it. */
  lemma ParseIntShowNatPrefix(m: nat, rest: string)
    requires rest == [] || !IsDigit(rest[0], 10)
    requires m == 0 ==> rest == [] || (rest[0] != 'x' && rest[0] != 'X')
    ensures ParseInt(ShowNat(m) + rest) == Num(m)
  {
    var digits := ShowNat(m);
    DigitsValueShowNat(m);
    ParseUnsignedDecimal(digits, rest);
    var u := digits + rest;
    assert u[0] == digits[0];
    ParseIntUnsigned(u);
  }

  /** parseInt reads a rendered negative number back, up to the first non-digit after it. */
  lemma ParseIntNegativePrefix(m: nat, rest: string)
    requires m > 0
    requires rest == [] || !IsDigit(rest[0], 10)
    ensures ParseInt(['-'] + (ShowNat(m) + rest)) == Num(-(m as int))
  {
    var digits := ShowNat(m);
    DigitsValueShowNat(m);
    ParseUnsignedDecimal(digits, rest);
    ParseIntSigned(digits + rest);
  }

  /**
   * parseInt reads back the decimal rendering of any integer, and stops at
   * the first character after it that is not a decimal digit (a rendered 0
   * followed by "x" or "X" would read as a hexadecimal prefix instead).
   */
  lemma ParseIntShowIntPrefix(n: int, rest: string)
    requires rest == [] || !IsDigit(rest[0], 10)
    requires n == 0 ==> rest == [] || (rest[0] != 'x' && rest[0] != 'X')
    ensures ParseInt(ShowInt(n) + rest) == Num(n)
  {
    if n < 0 {
      var m: nat := -n;
      assert ShowInt(n) == ['-'] + ShowNat(m);
      assert ShowInt(n) + rest == ['-'] + (ShowNat(m) + rest);
      ParseIntNegativePrefix(m, rest);
    } else {
      ParseIntShowNatPrefix(n, rest);
    }
  }

  lemma ParseIntUnsigned(u: string)
    requires u != [] && IsDigit(u[0], 10)
    ensures ParseInt(u) == ParseUnsigned(u)
  {
    DigitIsNotWhitespace(u[0]);
    assert TrimStart(u) == u;
  }

  lemma ParseIntSigned(u: string)
    ensures ParseInt(['-'] + u) == Negate(ParseUnsigned(u))
  {
    var s := ['-'] + u;
    assert s[0] == '-';
    assert !IsWhitespace(s[0]);
    assert TrimStart(s) == s;
    assert s[1..] == u;
  }

  lemma DigitIsNotWhitespace(c: char)
    requires IsDigit(c, 10)
    ensures !IsWhitespace(c) && c != '-' && c != '+'
  {
  }

  /** parseInt(String(n)) == n: the round trip of a rendered integer id. */
  lemma ParseIntShowInt(n: int)
    ensures ParseInt(ShowInt(n)) == Num(n)
  {
    ParseIntShowIntPrefix(n, []);
    assert ShowInt(n) + [] == ShowInt(n);
  }
}
