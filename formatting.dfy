/** Optional values, used by the decoders that invert the formatters. */
module Wrappers {
  datatype Option<+T> = None | Some(value: T)
}

/**
 * The two integer verbs of Go's fmt package that the HTML export uses:
 * `%d` (signed decimal) for the span colours and `%02x` (lower-case hex,
 * zero-padded to width two) for the background literal. Both are defined for
 * every int, with Go's placement of the minus sign, and `ParseSigned` reads
 * either back for every int (`DecimalRoundTrip`, `Hex2RoundTrip`).
 */
module Formatting {
  import opened Wrappers

  /** The digit character for d in bases up to 16; letters are lower case, as for `%x`. */
  function DigitChar(d: nat): (c: char)
    requires d < 16
    ensures IsDigit(c, 16) && DigitValue(c) == d
  {
    if d < 10 then (48 + d) as char else (97 + d - 10) as char
  }

  /** The value of a digit character ('0'..'9', 'a'..'f'). */
  function DigitValue(c: char): nat
  {
    if '0' <= c <= '9' then c as int - '0' as int
    else if 'a' <= c <= 'f' then c as int - 'a' as int + 10
    else 0
  }

  /** c is a digit of the given base, written as `%d` or `%x` write it. */
  predicate IsDigit(c: char, base: nat)
  {
    ('0' <= c <= '9' && c as int - '0' as int < base) ||
    ('a' <= c <= 'f' && c as int - 'a' as int + 10 < base)
  }

  predicate AllDigits(s: string, base: nat)
  {
    forall k :: 0 <= k < |s| ==> IsDigit(s[k], base)
  }

  /** Euclidean division by a base: the quotient is smaller and the remainder a digit. */
  lemma DivByBase(n: nat, base: nat)
    requires 2 <= base <= 16 && n >= base
    ensures 1 <= n / base < n && n % base < base
    ensures n == n / base * base + n % base
  {
  }

  /** The digits of n in the given base, most significant first, without leading zeros. */
  function NatDigits(n: nat, base: nat): (s: string)
    requires 2 <= base <= 16
    ensures |s| >= 1 && AllDigits(s, base)
    ensures |s| == 1 || s[0] != '0'
    ensures (s == "0") == (n == 0)
    decreases n
  {
    if n < base then [DigitChar(n)]
    else
      DivByBase(n, base);
      NatDigits(n / base, base) + [DigitChar(n % base)]
  }

  /** The number a string of digits denotes; the inverse of NatDigits. */
  function DigitsValue(s: string, base: nat): nat
    decreases |s|
  {
    if s == [] then 0
    else DigitsValue(s[..|s| - 1], base) * base + DigitValue(s[|s| - 1])
  }

  lemma {:induction false} NatDigitsRoundTrip(n: nat, base: nat)
    requires 2 <= base <= 16
    ensures DigitsValue(NatDigits(n, base), base) == n
    decreases n
  {
    if n >= base {
      DivByBase(n, base);
      var s := NatDigits(n, base);
      assert s[..|s| - 1] == NatDigits(n / base, base);
      NatDigitsRoundTrip(n / base, base);
    }
  }

  /**
   * Go's `%d` of an int: a minus sign exactly for negative values, then the
   * decimal digits of the magnitude without leading zeros (so zero is "0" and
   * never "-0").
   */
  function FormatDecimal(n: int): (s: string)
    ensures |s| >= 1 && (s[0] == '-') == (n < 0)
    ensures var d := if n < 0 then s[1..] else s;
            |d| >= 1 && AllDigits(d, 10) && (|d| == 1 || d[0] != '0') && (d == "0") == (n == 0)
  {
    if n < 0 then "-" + NatDigits(-n, 10) else NatDigits(n, 10)
  }

  /**
   * Reads back a signed number in the given base: an optional minus sign and
   * at least one digit, as `%d` and `%x` write it.
   */
  function ParseSigned(s: string, base: nat): Option<int>
  {
    if |s| >= 2 && s[0] == '-' && AllDigits(s[1..], base) then Some(0 - DigitsValue(s[1..], base))
    else if |s| >= 1 && AllDigits(s, base) then Some(DigitsValue(s, base))
    else None
  }

  lemma DecimalRoundTrip(n: int)
    ensures ParseSigned(FormatDecimal(n), 10) == Some(n)
  {
    if n < 0 {
      var s := FormatDecimal(n);
      assert s[1..] == NatDigits(-n, 10);
      NatDigitsRoundTrip(-n, 10);
    } else {
      NatDigitsRoundTrip(n, 10);
    }
  }

  /**
   * Go's `%02x` of an int. The zero flag pads with zeros to width two, and the
   * width includes the sign, so a non-negative value gets at least two digits
   * and a negative one a minus sign and at least one digit.
   */
  function Hex2(n: int): (s: string)
    ensures |s| >= 2
  {
    if n < 0 then "-" + NatDigits(-n, 16)
    else if n < 16 then "0" + NatDigits(n, 16)
    else NatDigits(n, 16)
  }

  /** A colour component in 0..255 becomes exactly two lower-case hex digits that denote it. */
  lemma Hex2Byte(n: int)
    requires 0 <= n <= 255
    ensures |Hex2(n)| == 2 && AllDigits(Hex2(n), 16)
    ensures DigitsValue(Hex2(n), 16) == n
  {
    var s := Hex2(n);
    if n < 16 {
      assert s == ['0', DigitChar(n)];
      assert s[..1] == "0" && DigitsValue("0", 16) == 0;
    } else {
      DivByBase(n, 16);
      assert NatDigits(n / 16, 16) == [DigitChar(n / 16)];
      NatDigitsRoundTrip(n, 16);
    }
  }

  /** Reading `%02x` back as a signed hex number gives the value again, for every int. */
  lemma Hex2RoundTrip(n: int)
    ensures ParseSigned(Hex2(n), 16) == Some(n)
  {
    var s := Hex2(n);
    if n < 0 {
      assert s[1..] == NatDigits(-n, 16);
      NatDigitsRoundTrip(-n, 16);
    } else if n < 16 {
      Hex2Byte(n);
    } else {
      NatDigitsRoundTrip(n, 16);
    }
  }
}
