/**
 * Decimal integer text as Go's `time.Format` writes it (`appendInt`: a sign,
 * then the digits zero-padded to a minimum width) and as `fmt.Sscanf`'s `%d`
 * verb reads it back (an optional sign, the longest run of decimal digits,
 * and a check that the value fits in a 64-bit `int`).
 */
module Decimal {
  import opened Wrappers

  const MinInt64: int := -0x8000_0000_0000_0000
  const MaxInt64: int := 0x7FFF_FFFF_FFFF_FFFF

  predicate IsDigit(c: char) {
    '0' <= c <= '9'
  }

  predicate AllDigits(s: string) {
    forall i :: 0 <= i < |s| ==> IsDigit(s[i])
  }

  function DigitChar(n: int): (c: char)
    requires 0 <= n <= 9
    ensures IsDigit(c)
  {
    ['0', '1', '2', '3', '4', '5', '6', '7', '8', '9'][n]
  }

  function DigitValue(c: char): (n: nat)
    requires IsDigit(c)
    ensures n <= 9
  {
    (c as int) - ('0' as int)
  }

  /** The shortest decimal spelling of `n` (no leading zeros). */
  function Digits(n: nat): (s: string)
    ensures 1 <= |s| && AllDigits(s)
  {
    if n < 10 then [DigitChar(n)] else Digits(n / 10) + [DigitChar(n % 10)]
  }

  function Zeros(k: nat): (s: string)
    ensures |s| == k && AllDigits(s)
  {
    if k == 0 then "" else "0" + Zeros(k - 1)
  }

  /** `s` preceded by enough zeros to be at least `width` characters long. */
  function ZeroPad(s: string, width: nat): (r: string)
    ensures |r| == if |s| < width then width else |s|
    decreases width - |s|
  {
    if |s| < width then ZeroPad("0" + s, width) else s
  }

  lemma {:induction false} ZeroPadZeros(s: string, width: nat)
    ensures ZeroPad(s, width) == if |s| < width then Zeros(width - |s|) + s else s
    decreases width - |s|
  {
    if |s| < width {
      ZeroPadZeros("0" + s, width);
      if |s| + 1 < width {
        assert Zeros(width - |s|) + s == Zeros(width - |s| - 1) + ("0" + s) by {
          ZerosSnoc(width - |s| - 1);
        }
      }
    }
  }

  lemma {:induction false} ZerosSnoc(k: nat)
    ensures Zeros(k + 1) == Zeros(k) + "0"
  {
    if k > 0 {
      ZerosSnoc(k - 1);
    }
  }

  /** Go's `appendInt(b, x, width)`: a minus sign for negatives, then zero-padded digits. */
  function FormatInt(x: int, width: nat): string {
    if x < 0 then "-" + ZeroPad(Digits(-x), width) else ZeroPad(Digits(x), width)
  }

  /** The value of a run of decimal digits, most significant first. */
  function DecimalValue(s: string): nat
    requires AllDigits(s)
  {
    if |s| == 0 then 0 else DecimalValue(s[..|s| - 1]) * 10 + DigitValue(s[|s| - 1])
  }

  /** Length of the longest prefix of `s` made of decimal digits. */
  function DigitRun(s: string): (n: nat)
    ensures n <= |s|
    ensures AllDigits(s[..n])
    ensures n < |s| ==> !IsDigit(s[n])
  {
    if |s| > 0 && IsDigit(s[0]) then
      var n := 1 + DigitRun(s[1..]);
      assert s[..n] == [s[0]] + s[1..][..n - 1];
      n
    else 0
  }

  /**
   * `fmt.Sscanf`'s `%d`: an optional `+` or `-`, then at least one digit, all
   * consecutive digits consumed; the value must fit in an `int64`. Returns
   * the value and the unread rest of the input.
   */
  function ScanInt(s: string): (r: Option<(int, string)>)
    ensures r.Some? ==> MinInt64 <= r.value.0 <= MaxInt64
    ensures r.Some? ==> |r.value.1| < |s| && r.value.1 == s[|s| - |r.value.1|..]
  {
    var negative := |s| > 0 && s[0] == '-';
    var body := if |s| > 0 && (s[0] == '-' || s[0] == '+') then s[1..] else s;
    var n := DigitRun(body);
    if n == 0 then None
    else
      var magnitude: int := DecimalValue(body[..n]);
      var v: int := if negative then -magnitude else magnitude;
      if v < MinInt64 || MaxInt64 < v then None
      else Some((v, body[n..]))
  }

  /** `lit` must be the next thing in the input; returns what follows it. */
  function Literal(s: string, lit: string): (r: Option<string>)
    ensures r.Some? <==> lit <= s
    ensures r.Some? ==> s == lit + r.value
  {
    if lit <= s then Some(s[|lit|..]) else None
  }

  lemma {:induction false} DigitsValue(n: nat)
    ensures DecimalValue(Digits(n)) == n
  {
    if n >= 10 {
      var s := Digits(n);
      assert s[..|s| - 1] == Digits(n / 10);
      DigitsValue(n / 10);
    }
  }

  lemma {:induction false} LeadingZeroValue(s: string)
    requires AllDigits(s)
    ensures DecimalValue("0" + s) == DecimalValue(s)
    decreases |s|
  {
    if |s| > 0 {
      var t := "0" + s;
      assert t[..|t| - 1] == "0" + s[..|s| - 1];
      LeadingZeroValue(s[..|s| - 1]);
    }
  }

  lemma {:induction false} ZerosValue(k: nat, s: string)
    requires AllDigits(s)
    ensures DecimalValue(Zeros(k) + s) == DecimalValue(s)
  {
    if k > 0 {
      assert Zeros(k) + s == "0" + (Zeros(k - 1) + s);
      var t := Zeros(k - 1) + s;
      assert AllDigits(t);
      ZerosValue(k - 1, s);
      LeadingZeroValue(t);
      assert DecimalValue("0" + t) == DecimalValue(s);
    } else {
      assert Zeros(k) + s == s;
    }
  }

  lemma {:induction false} DigitRunPrefix(ds: string, rest: string)
    requires AllDigits(ds)
    requires rest == [] || !IsDigit(rest[0])
    ensures DigitRun(ds + rest) == |ds|
    decreases |ds|
  {
    if |ds| > 0 {
      assert (ds + rest)[1..] == ds[1..] + rest;
      DigitRunPrefix(ds[1..], rest);
    }
  }

  /** The padded digits read back as the number they spell. */
  lemma PaddedValue(n: nat, width: nat)
    ensures AllDigits(ZeroPad(Digits(n), width))
    ensures DecimalValue(ZeroPad(Digits(n), width)) == n
  {
    DigitsValue(n);
    ZeroPadZeros(Digits(n), width);
    if |Digits(n)| < width {
      ZerosValue(width - |Digits(n)|, Digits(n));
    }
  }

  /** Unsigned case of the round trip below. */
  lemma ScanPadded(n: nat, width: nat, rest: string)
    requires rest == [] || !IsDigit(rest[0])
    ensures var ds := ZeroPad(Digits(n), width);
      var body := ds + rest;
      DigitRun(body) == |ds| && body[..|ds|] == ds && body[|ds|..] == rest
      && DecimalValue(body[..|ds|]) == n && |ds| > 0
  {
    var ds := ZeroPad(Digits(n), width);
    PaddedValue(n, width);
    DigitRunPrefix(ds, rest);
    assert (ds + rest)[..|ds|] == ds;
  }

  lemma ScanUnsigned(n: nat, width: nat, rest: string)
    requires n <= MaxInt64
    requires rest == [] || !IsDigit(rest[0])
    ensures ScanInt(ZeroPad(Digits(n), width) + rest) == Some((n, rest))
  {
    var ds := ZeroPad(Digits(n), width);
    ScanPadded(n, width, rest);
    var s := ds + rest;
    assert IsDigit(s[0]);
  }

  lemma ScanNegated(n: nat, width: nat, rest: string)
    requires 0 < n <= -MinInt64
    requires rest == [] || !IsDigit(rest[0])
    ensures ScanInt("-" + ZeroPad(Digits(n), width) + rest) == Some((-(n as int), rest))
  {
    var ds := ZeroPad(Digits(n), width);
    ScanPadded(n, width, rest);
    var s := "-" + ds + rest;
    assert s[1..] == ds + rest;
  }

  /** The sign prefixes `%d` accepts: none, `+` or `-`. */
  predicate SignPrefix(sg: string) {
    sg == "" || sg == "+" || sg == "-"
  }

  /** The value a sign and a digit run spell, before the `int64` range check. */
  function SignedValue(sg: string, ds: string): int
    requires AllDigits(ds)
  {
    var magnitude: int := DecimalValue(ds);
    if sg == "-" then -magnitude else magnitude
  }

  /**
   * Any input `%d` can read: an optional sign, a non-empty digit run and a
   * rest not starting with a digit. The scan yields the signed value of the
   * whole run and stops at the rest, or fails when the value is outside
   * `int64`.
   */
  lemma ScanSignedRun(sg: string, ds: string, rest: string)
    requires SignPrefix(sg) && AllDigits(ds) && |ds| > 0
    requires rest == [] || !IsDigit(rest[0])
    ensures var v := SignedValue(sg, ds);
      ScanInt(sg + ds + rest) == if MinInt64 <= v <= MaxInt64 then Some((v, rest)) else None
  {
    var s := sg + ds + rest;
    DigitRunPrefix(ds, rest);
    assert (ds + rest)[..|ds|] == ds;
    assert (ds + rest)[|ds|..] == rest;
    if sg == "" {
      assert s == ds + rest;
      assert IsDigit(s[0]);
    } else {
      assert s[1..] == ds + rest;
    }
  }

  /** Without a digit after the optional sign, `%d` reads nothing. */
  lemma ScanNoDigits(sg: string, rest: string)
    requires SignPrefix(sg)
    requires rest == [] || (!IsDigit(rest[0]) && (sg == "" ==> rest[0] != '+' && rest[0] != '-'))
    ensures ScanInt(sg + rest) == None
  {
    var s := sg + rest;
    if sg == "" {
      assert s == rest;
    } else {
      assert s[1..] == rest;
    }
  }

  /** Reading back what `FormatInt` wrote, at any width, recovers the value. */
  lemma ScanFormatInt(x: int, width: nat, rest: string)
    requires MinInt64 <= x <= MaxInt64
    requires rest == [] || !IsDigit(rest[0])
    ensures ScanInt(FormatInt(x, width) + rest) == Some((x, rest))
  {
    if x < 0 {
      ScanNegated(-x, width, rest);
    } else {
      ScanUnsigned(x, width, rest);
    }
  }

  lemma FourDigits(n: nat)
    requires 1000 <= n <= 9999
    ensures |Digits(n)| == 4
  {
    var a := n / 10;
    var b := a / 10;
    var c := b / 10;
    assert 100 <= a <= 999 && 10 <= b <= 99 && 1 <= c <= 9;
    assert |Digits(c)| == 1;
    assert |Digits(b)| == 2;
    assert |Digits(a)| == 3;
  }

  lemma TwoDigitPad(n: nat)
    requires n <= 99
    ensures |ZeroPad(Digits(n), 2)| == 2
  {
    if n >= 10 {
      assert |Digits(n / 10)| == 1;
    }
  }
}
