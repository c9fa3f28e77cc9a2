/** Decimal text as `sprintf` writes it and `sscanf` reads it back. */
module Decimal {
  import opened Bytes

  const SPACE: Byte := 32
  const MINUS: Byte := 45
  const PLUS: Byte := 43

  predicate IsDigit(b: Byte) { 48 <= b <= 57 }

  predicate IsSpace(b: Byte) { 9 <= b <= 13 || b == SPACE }

  function Digits(n: nat): (s: seq<Byte>)
    ensures |s| > 0 && forall i :: 0 <= i < |s| ==> IsDigit(s[i])
  {
    if n < 10 then [48 + n] else Digits(n / 10) + [48 + n % 10]
  }

  /** `%d` */
  function Show(n: int): (s: seq<Byte>)
    ensures |s| > 0
  {
    if n < 0 then [MINUS] + Digits(-n) else Digits(n)
  }

  function Spaces(n: nat): (s: seq<Byte>)
    ensures |s| == n && forall i :: 0 <= i < n ==> s[i] == SPACE
  {
    seq(n, i => SPACE)
  }

  /** `%<width>d`: right-justified, and wider than `width` when the number needs it. */
  function ShowPadded(width: nat, n: int): (s: seq<Byte>)
    ensures |s| == if |Show(n)| <= width then width else |Show(n)|
  {
    if |Show(n)| <= width then Spaces(width - |Show(n)|) + Show(n) else Show(n)
  }

  function SkipSpaces(s: seq<Byte>): (r: seq<Byte>)
    ensures |r| <= |s|
  {
    if s != [] && IsSpace(s[0]) then SkipSpaces(s[1..]) else s
  }

  /** Length of the leading run of digits, at most `width`. */
  function DigitRun(s: seq<Byte>, width: nat): (n: nat)
    ensures n <= |s| && n <= width
    ensures forall i :: 0 <= i < n ==> IsDigit(s[i])
  {
    if width == 0 || s == [] || !IsDigit(s[0]) then 0 else 1 + DigitRun(s[1..], width - 1)
  }

  function DigitsValue(s: seq<Byte>): (n: nat)
    requires forall i :: 0 <= i < |s| ==> IsDigit(s[i])
  {
    if s == [] then 0
    else
      assert IsDigit(s[|s| - 1]);
      DigitsValue(s[..|s| - 1]) * 10 + (s[|s| - 1] as int - 48)
  }

  /**
    `%<width>d` of `sscanf`: skip white space, an optional sign, then digits; sign and
    digits together take at most `width` characters. The number is stored into an `int`.
   */
  function ScanInt(s: seq<Byte>, width: nat): (r: Option<(int, seq<Byte>)>) {
    ScanNumber(SkipSpaces(s), width)
  }

  function ScanNumber(t: seq<Byte>, width: nat): (r: Option<(int, seq<Byte>)>) {
    if t != [] && width > 0 && (t[0] == MINUS || t[0] == PLUS) then
      ScanMagnitude(t[1..], width - 1, t[0] == MINUS)
    else
      ScanMagnitude(t, width, false)
  }

  function ScanMagnitude(t: seq<Byte>, width: nat, negative: bool): (r: Option<(int, seq<Byte>)>) {
    var run := DigitRun(t, width);
    if run == 0 then None
    else
      var magnitude: int := DigitsValue(t[..run]);
      Some((ToInt32(if negative then -magnitude else magnitude), t[run..]))
  }

  lemma {:induction false} ValueOfDigits(n: nat)
    ensures DigitsValue(Digits(n)) == n
  {
    if n >= 10 {
      ValueOfDigits(n / 10);
      assert Digits(n)[..|Digits(n)| - 1] == Digits(n / 10);
    } else {
      assert Digits(n)[..0] == [];
    }
  }

  function Pow10(n: nat): (p: nat)
    ensures p > 0
  {
    if n == 0 then 1 else 10 * Pow10(n - 1)
  }

  /** A number has at most `k` digits exactly when it is below 10^k. */
  lemma {:induction false} DigitsWidth(n: nat, k: nat)
    requires k > 0
    ensures |Digits(n)| <= k <==> n < Pow10(k)
    decreases n
  {
    if n >= 10 {
      if k == 1 {
        assert Pow10(1) == 10 * Pow10(0);
      } else {
        DigitsWidth(n / 10, k - 1);
        assert Pow10(k) == 10 * Pow10(k - 1);
      }
    } else {
      assert Pow10(k) == 10 * Pow10(k - 1);
    }
  }

  lemma {:induction false} SkipsSpaces(n: nat, s: seq<Byte>)
    requires s != [] ==> !IsSpace(s[0])
    ensures SkipSpaces(Spaces(n) + s) == s
  {
    if n == 0 {
      assert Spaces(n) + s == s;
    } else {
      SkipsSpaces(n - 1, s);
      assert (Spaces(n) + s)[1..] == Spaces(n - 1) + s;
    }
  }

  lemma {:induction false} RunOfDigits(d: seq<Byte>, rest: seq<Byte>, width: nat)
    requires forall i :: 0 <= i < |d| ==> IsDigit(d[i])
    requires |d| <= width
    requires |d| == width || rest == [] || !IsDigit(rest[0])
    ensures DigitRun(d + rest, width) == |d|
  {
    if d == [] {
      assert d + rest == rest;
    } else {
      RunOfDigits(d[1..], rest, width - 1);
      assert (d + rest)[1..] == d[1..] + rest;
    }
  }

  lemma ScanDigits(width: nat, n: nat, negative: bool, rest: seq<Byte>)
    requires |Digits(n)| <= width
    requires rest == [] || !IsDigit(rest[0])
    ensures ScanMagnitude(Digits(n) + rest, width, negative)
         == Some((ToInt32(if negative then -(n as int) else n), rest))
  {
    var d := Digits(n);
    RunOfDigits(d, rest, width);
    ValueOfDigits(n);
    assert (d + rest)[..|d|] == d && (d + rest)[|d|..] == rest;
  }

  lemma ScanShownNumber(width: nat, n: int, rest: seq<Byte>)
    requires IsInt32(n)
    requires |Show(n)| <= width
    requires rest == [] || !IsDigit(rest[0])
    ensures ScanNumber(Show(n) + rest, width) == Some((n, rest))
  {
    hide ScanMagnitude;
    if n < 0 {
      ScanDigits(width - 1, -n, true, rest);
      hide Digits;
      assert (Show(n) + rest)[1..] == Digits(-n) + rest;
    } else {
      ScanDigits(width, n, false, rest);
      hide Digits;
    }
  }

  /** A number that fits its field reads back, and scanning stops right behind it. */
  lemma ScanShown(pad: nat, width: nat, n: int, rest: seq<Byte>)
    requires IsInt32(n)
    requires |Show(n)| <= pad && |Show(n)| <= width
    requires rest == [] || !IsDigit(rest[0])
    ensures ScanInt(ShowPadded(pad, n) + rest, width) == Some((n, rest))
  {
    hide ScanNumber, Digits, Spaces;
    ScanShownNumber(width, n, rest);
    SkipsSpaces(pad - |Show(n)|, Show(n) + rest);
    assert ShowPadded(pad, n) + rest == Spaces(pad - |Show(n)|) + (Show(n) + rest);
  }

  /** The first `k` digits of a longer number are a number of `k` digits. */
  lemma {:induction false} LeadingDigits(n: nat, k: nat)
    requires k > 1 && |Digits(n)| > k
    ensures DigitsValue(Digits(n)[..k]) >= Pow10(k - 1)
  {
    var d := Digits(n / 10);
    assert Digits(n)[..k] == d[..k];
    if |d| > k {
      LeadingDigits(n / 10, k);
    } else {
      assert d[..k] == d;
      ValueOfDigits(n / 10);
      DigitsWidth(n / 10, k - 1);
    }
  }

  lemma {:induction false} DigitsBelow(d: seq<Byte>)
    requires forall i :: 0 <= i < |d| ==> IsDigit(d[i])
    ensures DigitsValue(d) < Pow10(|d|)
  {
    if d != [] {
      DigitsBelow(d[..|d| - 1]);
      assert IsDigit(d[|d| - 1]);
    }
  }

  /** Of a run of digits longer than the field, the field takes its width. */
  lemma ScanCut(d: seq<Byte>, width: nat, negative: bool, behind: seq<Byte>)
    requires 0 < width <= |d| && forall i :: 0 <= i < |d| ==> IsDigit(d[i])
    ensures var value: int := DigitsValue(d[..width]);
            ScanMagnitude(d + behind, width, negative)
            == Some((ToInt32(if negative then -value else value), d[width..] + behind))
  {
    var t := d + behind;
    assert t == d[..width] + (d[width..] + behind);
    RunOfDigits(d[..width], d[width..] + behind, width);
    assert t[..width] == d[..width] && t[width..] == d[width..] + behind;
  }
}
