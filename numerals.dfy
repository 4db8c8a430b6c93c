/**
 * Hexadecimal and decimal numerals: reading hex digits as JavaScript's
 * `parseInt(s, 16)` does, rendering a number as `toString(16).toUpperCase()`
 * and as decimal `toString()`, and the fixed-width digit strings that
 * `padStart` produces from them.
 */
module Numerals {
  import opened Wrappers
  import opened Strings

  predicate IsHexDigit(c: char)
  {
    '0' <= c <= '9' || 'a' <= c <= 'f' || 'A' <= c <= 'F'
  }

  predicate IsUpperHexDigit(c: char)
  {
    '0' <= c <= '9' || 'A' <= c <= 'F'
  }

  predicate AllHex(s: string)
  {
    forall i :: 0 <= i < |s| ==> IsHexDigit(s[i])
  }

  predicate AllUpperHex(s: string)
  {
    forall i :: 0 <= i < |s| ==> IsUpperHexDigit(s[i])
  }

  /** The value of one hex digit, either case. */
  function DigitValue(c: char): (d: nat)
    requires IsHexDigit(c)
    ensures d < 16
  {
    if '0' <= c <= '9' then c as int - '0' as int
    else if 'a' <= c <= 'f' then c as int - 'a' as int + 10
    else c as int - 'A' as int + 10
  }

  /** The upper-case hex digit of a value below 16. */
  function HexChar(d: nat): (c: char)
    requires d < 16
    ensures IsUpperHexDigit(c) && DigitValue(c) == d
  {
    if d < 10 then ('0' as int + d) as char else ('A' as int + d - 10) as char
  }

  /** An upper-case digit is the digit of its own value. */
  lemma HexCharOfValue(c: char)
    requires IsUpperHexDigit(c)
    ensures HexChar(DigitValue(c)) == c
  {
  }

  function Pow16(n: nat): (p: nat)
    ensures p >= 1
  {
    if n == 0 then 1 else 16 * Pow16(n - 1)
  }

  /** The value of a string of hex digits, most significant first; bounded by its width. */
  function HexValue(s: string): (v: nat)
    requires AllHex(s)
    ensures v < Pow16(|s|)
  {
    if s == [] then 0 else 16 * HexValue(s[..|s| - 1]) + DigitValue(s[|s| - 1])
  }

  /** The longest leading run of hex digits of `s`. */
  function HexRun(s: string): (p: string)
    ensures p <= s && AllHex(p)
    ensures |p| < |s| ==> !IsHexDigit(s[|p|])
  {
    if s == [] || !IsHexDigit(s[0]) then [] else [s[0]] + HexRun(s[1..])
  }

  /**
   * `parseInt(s, 16)` as this core uses it: the value of the longest leading
   * run of hex digits, and no number (NaN) when `s` does not start with one.
   * Leading white space, a sign and a `0x` prefix, which JavaScript would
   * also skip, are not modelled.
   */
  function HexPrefix(s: string): (r: Option<nat>)
    ensures r.None? <==> s == [] || !IsHexDigit(s[0])
  {
    var run := HexRun(s);
    if run == [] then None else Some(HexValue(run))
  }

  /** A non-empty string of hex digits is read whole. */
  lemma HexPrefixOfHex(s: string)
    requires s != [] && AllHex(s)
    ensures HexPrefix(s) == Some(HexValue(s))
  {
    assert HexRun(s) == s by { HexRunOfHex(s); }
  }

  lemma {:induction false} HexRunOfHex(s: string)
    requires AllHex(s)
    ensures HexRun(s) == s
  {
    if s != [] {
      HexRunOfHex(s[1..]);
      assert [s[0]] + s[1..] == s;
    }
  }

  /**
   * `v.toString(16).toUpperCase()` for `v >= 0`: the shortest upper-case hex
   * numeral of `v` (a single `0` for zero), which reads back as `v`.
   */
  function UpperHex(v: nat): (s: string)
    ensures |s| >= 1 && AllUpperHex(s) && AllHex(s)
    ensures HexValue(s) == v
    ensures NoLeadingZero(s)
    ensures v > 0 ==> s[0] != '0'
    decreases v
  {
    if v < 16 then [HexChar(v)]
    else
      var high := UpperHex(v / 16);
      assert (high + [HexChar(v % 16)])[..|high|] == high;
      high + [HexChar(v % 16)]
  }

  /** BigInt's `toString(16).toUpperCase()` for any sign: a minus sign before the numeral of the magnitude. */
  function JsHex(v: int): string
  {
    if v < 0 then "-" + UpperHex(-v) else UpperHex(v)
  }

  /** The `n` least significant hex digits of `v`, upper case, most significant first. */
  function Digits(v: nat, n: nat): (d: string)
    ensures |d| == n && AllUpperHex(d) && AllHex(d)
  {
    if n == 0 then [] else Digits(v / 16, n - 1) + [HexChar(v % 16)]
  }

  /** Reading `n` digits of a value below 16^n gives it back. */
  lemma {:induction false} DigitsValue(v: nat, n: nat)
    requires v < Pow16(n)
    ensures HexValue(Digits(v, n)) == v
  {
    if n > 0 {
      DigitsValue(v / 16, n - 1);
      var d := Digits(v, n);
      assert d[..n - 1] == Digits(v / 16, n - 1);
    }
  }

  /** An upper-case digit string is the digits of its own value at its own width. */
  lemma {:induction false} DigitsOfValue(s: string)
    requires AllUpperHex(s) && AllHex(s)
    ensures Digits(HexValue(s), |s|) == s
  {
    if s != [] {
      var init := s[..|s| - 1];
      var h := HexValue(s);
      assert h / 16 == HexValue(init) && h % 16 == DigitValue(s[|s| - 1]);
      DigitsOfValue(init);
      HexCharOfValue(s[|s| - 1]);
      assert init + [s[|s| - 1]] == s;
    }
  }

  /** Digits of zero are zeros. */
  lemma {:induction false} DigitsOfZero(n: nat)
    ensures Digits(0, n) == Repeat('0', n)
  {
    if n > 0 {
      DigitsOfZero(n - 1);
      assert Repeat('0', n) == Repeat('0', n - 1) + ['0'];
    }
  }

  /** `toString(16).toUpperCase().padStart(n, "0")` of a value below 16^n is its `n` digits. */
  lemma {:induction false} PadUpperHex(v: nat, n: nat)
    requires n >= 1 && v < Pow16(n)
    ensures PadStart(UpperHex(v), n, '0') == Digits(v, n)
    decreases v
  {
    if v < 16 {
      DigitsOfZero(n - 1);
      assert v / 16 == 0 && v % 16 == v;
      assert Digits(v, n) == Digits(0, n - 1) + [HexChar(v)];
      assert PadStart([HexChar(v)], n, '0') == Repeat('0', n - 1) + [HexChar(v)];
    } else {
      assert Pow16(n) == 16 * Pow16(n - 1);
      assert Pow16(1) == 16 * Pow16(0) == 16;
      assert n >= 2;
      assert v / 16 < Pow16(n - 1);
      PadUpperHex(v / 16, n - 1);
      var high := UpperHex(v / 16);
      assert UpperHex(v) == high + [HexChar(v % 16)];
      assert |high| <= n - 1;
      PadAppend(high, n - 1, HexChar(v % 16));
    }
  }

  /** Appending a character after padding is padding one wider. */
  lemma PadAppend(high: string, m: nat, low: char)
    requires |high| <= m
    ensures PadStart(high + [low], m + 1, '0') == PadStart(high, m, '0') + [low]
  {
    if |high| < m {
      assert PadStart(high + [low], m + 1, '0') == Repeat('0', m - |high|) + (high + [low]);
    }
  }

  lemma MulShift(x: int, p: int)
    ensures 16 * (x * p) == x * (16 * p)
  {
  }

  /** Two digit strings side by side are a digit string. */
  lemma AllHexConcat(a: string, b: string)
    requires AllHex(a) && AllHex(b)
    ensures AllHex(a + b)
  {
    forall i | 0 <= i < |a + b| ensures IsHexDigit((a + b)[i]) {
      if i < |a| { assert (a + b)[i] == a[i]; } else { assert (a + b)[i] == b[i - |a|]; }
    }
  }

  /** The value of two digit strings side by side. */
  lemma {:induction false} HexValueConcat(a: string, b: string)
    requires AllHex(a) && AllHex(b)
    ensures AllHex(a + b)
    ensures HexValue(a + b) == HexValue(a) * Pow16(|b|) + HexValue(b)
    decreases |b|
  {
    AllHexConcat(a, b);
    if b == [] {
      assert a + b == a;
    } else {
      var b' := b[..|b| - 1];
      var last := DigitValue(b[|b| - 1]);
      assert HexValue(a + b) == 16 * HexValue(a + b') + last by {
        assert (a + b)[..|a + b| - 1] == a + b';
        assert (a + b)[|a + b| - 1] == b[|b| - 1];
      }
      HexValueConcat(a, b');
      ShiftStep(HexValue(a), Pow16(|b'|), HexValue(b'), last);
    }
  }

  /** Appending one digit to both the whole and its low part. */
  lemma ShiftStep(x: int, p: int, y: int, last: int)
    ensures 16 * (x * p + y) + last == x * (16 * p) + (16 * y + last)
  {
    MulShift(x, p);
  }

  /** Splitting a digit string at any point: the high part scaled past the low part. */
  lemma HexValueSplit(s: string, k: nat)
    requires k <= |s| && AllHex(s)
    ensures AllHex(s[..k]) && AllHex(s[k..])
    ensures HexValue(s) == HexValue(s[..k]) * Pow16(|s| - k) + HexValue(s[k..])
  {
    assert s == s[..k] + s[k..];
    HexValueConcat(s[..k], s[k..]);
  }

  /** Leading zeros add nothing to the value. */
  lemma {:induction false} HexValueOfZeros(n: nat)
    ensures AllHex(Repeat('0', n)) && HexValue(Repeat('0', n)) == 0
  {
    if n > 0 {
      HexValueOfZeros(n - 1);
      assert Repeat('0', n) == Repeat('0', n - 1) + ['0'];
      assert Repeat('0', n)[..n - 1] == Repeat('0', n - 1);
    }
  }

  /** Padding a digit string with zeros keeps its value. */
  lemma HexValuePad(s: string, n: int)
    requires AllHex(s)
    ensures AllHex(PadStart(s, n, '0')) && HexValue(PadStart(s, n, '0')) == HexValue(s)
  {
    if |s| < n {
      HexValueOfZeros(n - |s|);
      HexValueConcat(Repeat('0', n - |s|), s);
    }
  }

  /** Widening the digit count never shrinks the bound. */
  lemma {:induction false} Pow16Monotone(a: nat, b: nat)
    requires a <= b
    ensures Pow16(a) <= Pow16(b)
    decreases b
  {
    if a < b {
      Pow16Monotone(a, b - 1);
    }
  }

  /** The powers of sixteen that are the widths of a MAC address and its parts. */
  lemma Pow16Values()
    ensures Pow16(2) == 0x100 && Pow16(4) == 0x1_0000 && Pow16(6) == 0x100_0000
    ensures Pow16(8) == 0x1_0000_0000 && Pow16(10) == 0x100_0000_0000
    ensures Pow16(12) == 0x1_0000_0000_0000
  {
    assert Pow16(2) == 0x100;
    assert Pow16(4) == 0x1_0000 by { assert Pow16(3) == 16 * Pow16(2); }
    assert Pow16(6) == 0x100_0000 by { assert Pow16(5) == 16 * Pow16(4); }
    assert Pow16(8) == 0x1_0000_0000 by { assert Pow16(7) == 16 * Pow16(6); }
    assert Pow16(10) == 0x100_0000_0000 by { assert Pow16(9) == 16 * Pow16(8); }
    assert Pow16(12) == 0x1_0000_0000_0000 by { assert Pow16(11) == 16 * Pow16(10); }
  }

  /** Division is determined by a quotient and a remainder in range. */
  lemma DivUnique(v: int, m: int, q: int, r: int)
    requires m > 0 && 0 <= r < m && v == q * m + r
    ensures v / m == q && v % m == r
  {
    var q', r' := v / m, v % m;
    assert v == q' * m + r';
    if q' < q {
      MulAtLeast(q - q', m);
    } else if q' > q {
      MulAtLeast(q' - q, m);
    }
  }

  /** Dividing twice is dividing by the product. */
  lemma DivDiv(v: int, a: int, b: int)
    requires v >= 0 && a > 0 && b > 0
    ensures v / a / b == v / (a * b)
  {
    var q, r := v / a, v % a;
    var q2, r2 := q / b, q % b;
    assert v == q * a + r;
    assert q == q2 * b + r2;
    assert v == q2 * (a * b) + (r2 * a + r) by { Distribute(q2, b, r2, a); }
    assert r2 * a + r < a * b by { MulBelow(r2, b, a); }
    DivUnique(v, a * b, q2, r2 * a + r);
  }

  lemma Distribute(x: int, b: int, y: int, a: int)
    ensures (x * b + y) * a == x * (a * b) + y * a
  {
  }

  lemma MulBelow(y: int, b: int, a: int)
    requires 0 <= y < b && a > 0
    ensures y * a + a <= a * b
  {
    assert (b - y) * a >= a by { MulAtLeast(b - y, a); }
  }

  lemma MulAtLeast(a: int, m: int)
    requires a >= 1 && m > 0
    ensures a * m >= m
  {
  }

  /** A numeral as `toString` writes it: a single digit, or one that does not start with `0`. */
  predicate NoLeadingZero(s: string)
  {
    |s| == 1 || (|s| > 1 && s[0] != '0')
  }

  predicate IsDecimalDigit(c: char)
  {
    '0' <= c <= '9'
  }

  predicate AllDecimal(s: string)
  {
    forall i :: 0 <= i < |s| ==> IsDecimalDigit(s[i])
  }

  /** The value of a string of decimal digits. */
  function DecimalValue(s: string): nat
    requires AllDecimal(s)
  {
    if s == [] then 0 else 10 * DecimalValue(s[..|s| - 1]) + (s[|s| - 1] as int - '0' as int)
  }

  /** BigInt's decimal `toString()` for `n >= 0`: a non-empty digit string that reads back as `n`. */
  function Decimal(n: nat): (s: string)
    ensures |s| >= 1 && AllDecimal(s)
    ensures DecimalValue(s) == n
    ensures NoLeadingZero(s)
    decreases n
  {
    var last := ('0' as int + n % 10) as char;
    if n < 10 then [last]
    else
      var high := Decimal(n / 10);
      assert (high + [last])[..|high|] == high;
      high + [last]
  }

  /** A decimal numeral that does not start with `0` is worth at least 1. */
  lemma {:induction false} DecimalPositive(s: string)
    requires |s| >= 1 && AllDecimal(s) && s[0] != '0'
    ensures DecimalValue(s) >= 1
    decreases |s|
  {
    if |s| > 1 {
      DecimalPositive(s[..|s| - 1]);
    }
  }

  /** The canonical decimal numeral is unique: any other spelling has a leading zero. */
  lemma {:induction false} DecimalUnique(s: string)
    requires |s| >= 1 && AllDecimal(s) && NoLeadingZero(s)
    ensures Decimal(DecimalValue(s)) == s
    decreases |s|
  {
    var n := DecimalValue(s);
    var d := s[|s| - 1] as int - '0' as int;
    if |s| == 1 {
      assert s[..0] == [];
      assert DecimalValue(s[..0]) == 0;
      assert n == d;
      assert Decimal(n) == [s[0]];
    } else {
      var init := s[..|s| - 1];
      assert init[0] == s[0];
      DecimalPositive(init);
      DecimalUnique(init);
      DivUnique(n, 10, DecimalValue(init), d);
      assert s == init + [s[|s| - 1]];
    }
  }
}
