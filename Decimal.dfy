/**
 * Decimal text for the two kinds of numbers the core renders: a coordinate
 * formatted with Python's `f"{v:.6f}"`, and an HTTP status code formatted
 * with `f"{code}"`. A coordinate is a fixed-point integer, the value scaled
 * by 10^6 (already rounded to six decimals), so the formatting is exact.
 */
module Decimal {
  import opened Wrappers

  /** The fixed-point scale: six decimal digits. */
  const Scale: nat := 1000000

  predicate IsDigit(c: char)
  {
    '0' <= c <= '9'
  }

  predicate AllDigits(s: string)
  {
    forall k :: 0 <= k < |s| ==> IsDigit(s[k])
  }

  function DigitChar(d: nat): (c: char)
    requires d < 10
    ensures IsDigit(c) && c as int - '0' as int == d
  {
    ('0' as int + d) as char
  }

  /** The number a string of decimal digits denotes (most significant first). */
  function ValueOf(s: string): nat
    requires AllDigits(s)
  {
    if s == [] then 0 else ValueOf(s[..|s| - 1]) * 10 + (s[|s| - 1] as int - '0' as int)
  }

  /** The shortest decimal rendering of `n`, with no leading zeros. */
  function Digits(n: nat): string
  {
    if n < 10 then [DigitChar(n)] else Digits(n / 10) + [DigitChar(n % 10)]
  }

  /** `n` rendered with exactly `width` digits, zero-padded on the left. */
  function Padded(n: nat, width: nat): string
  {
    if width == 0 then [] else Padded(n / 10, width - 1) + [DigitChar(n % 10)]
  }

  function Pow10(k: nat): (p: nat)
    ensures p >= 1
  {
    if k == 0 then 1 else 10 * Pow10(k - 1)
  }

  /** The rendering is a non-empty digit string without a leading zero. */
  lemma {:induction false} DigitsShape(n: nat)
    ensures Digits(n) != [] && AllDigits(Digits(n))
    ensures |Digits(n)| > 1 ==> Digits(n)[0] != '0'
    decreases n
  {
    if n >= 10 {
      DigitsShape(n / 10);
      assert Digits(n)[0] == Digits(n / 10)[0];
      if n / 10 < 10 {
        assert n / 10 != 0;
      }
    }
  }

  lemma {:induction false} PaddedShape(n: nat, width: nat)
    ensures |Padded(n, width)| == width && AllDigits(Padded(n, width))
    decreases width
  {
    if width > 0 {
      PaddedShape(n / 10, width - 1);
    }
  }

  lemma ValueOfSnoc(s: string, c: char)
    requires AllDigits(s) && IsDigit(c)
    ensures AllDigits(s + [c])
    ensures ValueOf(s + [c]) == ValueOf(s) * 10 + (c as int - '0' as int)
  {
    assert (s + [c])[..|s + [c]| - 1] == s;
  }

  /** Reading back the digits of `n` gives `n`. */
  lemma {:induction false} DigitsValue(n: nat)
    ensures AllDigits(Digits(n)) && ValueOf(Digits(n)) == n
    decreases n
  {
    if n < 10 {
      assert Digits(n) == [] + [DigitChar(n)];
      ValueOfSnoc([], DigitChar(n));
    } else {
      DigitsValue(n / 10);
      ValueOfSnoc(Digits(n / 10), DigitChar(n % 10));
    }
  }

  /** Reading back a zero-padded rendering gives the number, when it fits. */
  lemma {:induction false} PaddedValue(n: nat, width: nat)
    requires n < Pow10(width)
    ensures AllDigits(Padded(n, width)) && ValueOf(Padded(n, width)) == n
    decreases width
  {
    PaddedShape(n, width);
    if width > 0 {
      PaddedValue(n / 10, width - 1);
      ValueOfSnoc(Padded(n / 10, width - 1), DigitChar(n % 10));
    }
  }

  /** Python's `f"{v:.6f}"` for the coordinate `v / 10^6`: an optional minus
      sign, the integer part without leading zeros, a point, six digits. */
  function FormatCoord(v: int): string
  {
    var a := if v < 0 then -v else v;
    (if v < 0 then "-" else "") + Digits(a / Scale) + "." + Padded(a % Scale, 6)
  }

  /** Reads a coordinate written as `FormatCoord` writes it. */
  function ParseCoord(s: string): Option<int>
  {
    if |s| < 8 || s[|s| - 7] != '.' then None
    else
      var negative := s[0] == '-';
      var whole := if negative then s[1..|s| - 7] else s[..|s| - 7];
      var fraction := s[|s| - 6..];
      if whole == [] || !AllDigits(whole) || !AllDigits(fraction) then None
      else
        var m := ValueOf(whole) * Scale + ValueOf(fraction);
        Some(if negative then -m else m)
  }

  /** The six-decimal rendering loses nothing: parsing it gives `v` back. */
  lemma FormatCoordRoundTrip(v: int)
    ensures ParseCoord(FormatCoord(v)) == Some(v)
  {
    var a := if v < 0 then -v else v;
    var sign := if v < 0 then "-" else "";
    var d := Digits(a / Scale);
    var p := Padded(a % Scale, 6);
    var s := sign + d + "." + p;
    DigitsShape(a / Scale);
    PaddedShape(a % Scale, 6);
    assert s == FormatCoord(v);
    assert s[|s| - 7] == '.';
    assert s[|s| - 6..] == p;
    if v < 0 {
      assert s[0] == '-';
      assert s[1..|s| - 7] == d;
    } else {
      assert s[0] == d[0];
      assert s[..|s| - 7] == d;
    }
    DigitsValue(a / Scale);
    assert Pow10(6) == Scale;
    PaddedValue(a % Scale, 6);
  }

  /** What the encoder relies on when it joins coordinates with spaces and
      strips the result: the text has no space, starts with a sign or a
      digit and ends with a digit. */
  lemma FormatCoordShape(v: int)
    ensures var s := FormatCoord(v);
      && |s| >= 8
      && (forall k :: 0 <= k < |s| ==> s[k] == '-' || s[k] == '.' || IsDigit(s[k]))
      && (s[0] == '-' || IsDigit(s[0]))
      && IsDigit(s[|s| - 1])
  {
    var a := if v < 0 then -v else v;
    var sign := if v < 0 then "-" else "";
    var d := Digits(a / Scale);
    var p := Padded(a % Scale, 6);
    var s := sign + d + "." + p;
    DigitsShape(a / Scale);
    PaddedShape(a % Scale, 6);
    assert s == FormatCoord(v);
    assert s[|s| - 1] == p[5];
    forall k | 0 <= k < |s|
      ensures s[k] == '-' || s[k] == '.' || IsDigit(s[k])
    {
      if k < |sign| {
      } else if k < |sign| + |d| {
        assert s[k] == d[k - |sign|];
      } else if k == |sign| + |d| {
      } else {
        assert s[k] == p[k - |sign| - |d| - 1];
      }
    }
  }

  /** Python's `f"{code}"` for an integer. */
  function FormatInt(n: int): string
  {
    if n < 0 then "-" + Digits(-n) else Digits(n)
  }

  /** Reads an integer written as `FormatInt` writes it. */
  function ParseInt(s: string): Option<int>
  {
    if s != [] && s[0] == '-' then
      if |s| > 1 && AllDigits(s[1..]) then Some(0 - ValueOf(s[1..]) as int) else None
    else if s != [] && AllDigits(s) then Some(ValueOf(s))
    else None
  }

  /** The status-code rendering is the code's decimal text. */
  lemma FormatIntRoundTrip(n: int)
    ensures ParseInt(FormatInt(n)) == Some(n)
  {
    if n < 0 {
      DigitsShape(-n);
      assert FormatInt(n)[1..] == Digits(-n);
      DigitsValue(-n);
    } else {
      DigitsShape(n);
      DigitsValue(n);
    }
  }
}
