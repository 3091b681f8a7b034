/**
 * Decimal rendering of non-negative integers as Python's f-strings do it:
 * `{n}` writes str(n), and `{n:02}` / `{n:03}` pad str(n) on the left with
 * zeros up to the given width, never truncating a longer number.
 */
module Decimal {

  predicate IsDigit(c: char)
  {
    '0' <= c <= '9'
  }

  predicate IsDigits(s: string)
  {
    forall i :: 0 <= i < |s| ==> IsDigit(s[i])
  }

  function DigitChar(d: nat): char
    requires d < 10
  {
    ('0' as int + d) as char
  }

  function DigitValue(c: char): nat
    requires IsDigit(c)
  {
    c as int - '0' as int
  }

  function Pow10(e: nat): nat
  {
    if e == 0 then 1 else 10 * Pow10(e - 1)
  }

  /** str(n): the shortest decimal numeral of n. */
  function NatToString(n: nat): (r: string)
    decreases n
  {
    if n < 10 then [DigitChar(n)]
    else NatToString(n / 10) + [DigitChar(n % 10)]
  }

  /** The value of a decimal numeral, read most significant digit first. */
  function ParseDecimal(s: string): nat
    requires IsDigits(s)
    decreases |s|
  {
    if s == [] then 0
    else 10 * ParseDecimal(s[..|s| - 1]) + DigitValue(s[|s| - 1])
  }

  /**
   * str(n) is a non-empty string of digits without a leading zero (unless n
   * is 0), and reading it back gives n.
   */
  lemma {:induction false} ParseNatToString(n: nat)
    ensures |NatToString(n)| >= 1 && IsDigits(NatToString(n))
    ensures NatToString(n)[0] == '0' ==> n == 0
    ensures ParseDecimal(NatToString(n)) == n
    decreases n
  {
    if n >= 10 {
      var r := NatToString(n);
      ParseNatToString(n / 10);
      assert r[..|r| - 1] == NatToString(n / 10);
    }
  }

  /** A number below 10^w needs at most w digits. */
  lemma {:induction false} NatToStringLength(n: nat, w: nat)
    requires 1 <= w && n < Pow10(w)
    ensures |NatToString(n)| <= w
    decreases n
  {
    if n >= 10 {
      assert n / 10 < Pow10(w - 1);
      NatToStringLength(n / 10, w - 1);
    }
  }

  /** A run of k zero digits. */
  function Zeros(k: nat): string
  {
    if k == 0 then "" else "0" + Zeros(k - 1)
  }

  /** Zero-fill to at least `width` characters, as the `0w` format spec does. */
  function ZeroPad(s: string, width: nat): string
  {
    if |s| >= width then s else Zeros(width - |s|) + s
  }

  /** f"{n:0w}": n in decimal, padded with leading zeros to at least w digits. */
  function PadInt(n: nat, width: nat): string
  {
    ZeroPad(NatToString(n), width)
  }

  lemma {:induction false} ZerosShape(k: nat)
    ensures |Zeros(k)| == k && IsDigits(Zeros(k))
    ensures ParseDecimal(Zeros(k)) == 0
    decreases k
  {
    if k > 0 {
      ZerosShape(k - 1);
      assert Zeros(k) == Zeros(k - 1) + "0" by { ZerosSnoc(k - 1); }
      assert Zeros(k)[..k - 1] == Zeros(k - 1);
    }
  }

  lemma {:induction false} ZerosSnoc(k: nat)
    ensures "0" + Zeros(k) == Zeros(k) + "0"
    decreases k
  {
    if k > 0 {
      ZerosSnoc(k - 1);
    }
  }

  /** Leading zeros do not change the value of a numeral. */
  lemma {:induction false} ParseLeadingZeros(k: nat, s: string)
    requires IsDigits(s)
    ensures IsDigits(Zeros(k) + s)
    ensures ParseDecimal(Zeros(k) + s) == ParseDecimal(s)
    decreases |s|
  {
    var z := Zeros(k);
    var t := z + s;
    ZerosShape(k);
    if s == [] {
      assert t == z;
    } else {
      assert t[..|t| - 1] == z + s[..|s| - 1];
      ParseLeadingZeros(k, s[..|s| - 1]);
    }
  }

  /**
   * The padded numeral holds only digits, reads back as n, is at least
   * `width` characters long, and is exactly `width` long whenever n has at
   * most `width` digits.
   */
  lemma PadIntShape(n: nat, width: nat)
    ensures IsDigits(PadInt(n, width))
    ensures ParseDecimal(PadInt(n, width)) == n
    ensures |PadInt(n, width)| >= width
    ensures 1 <= width && n < Pow10(width) ==> |PadInt(n, width)| == width
  {
    var s := NatToString(n);
    ParseNatToString(n);
    if |s| < width {
      ZerosShape(width - |s|);
      ParseLeadingZeros(width - |s|, s);
    }
    if 1 <= width && n < Pow10(width) {
      NatToStringLength(n, width);
    }
  }
}
