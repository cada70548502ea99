/** Decimal renderings of integers: the number-to-string conversion used in
    the alert text and ethers' formatUnits (raw amount divided by
    10^decimals, written exactly). */
module Units {
  import opened Wrappers
  import opened Text

  function Pow10(k: nat): (r: nat)
    ensures r >= 1
  {
    if k == 0 then 1 else 10 * Pow10(k - 1)
  }

  predicate IsDigit(c: char) { '0' <= c <= '9' }

  predicate AllDigits(s: string)
  {
    forall i :: 0 <= i < |s| ==> IsDigit(s[i])
  }

  function DigitChar(d: nat): (c: char)
    requires d < 10
    ensures IsDigit(c)
  {
    ('0' as int + d) as char
  }

  /** The number a string of decimal digits denotes, most significant first. */
  function DigitsValue(s: string): nat
    requires AllDigits(s)
  {
    if |s| == 0 then 0 else DigitsValue(s[..|s| - 1]) * 10 + (s[|s| - 1] as int - '0' as int)
  }

  /** The shortest decimal rendering of n ("0" for zero), as Number and
      BigNumber toString give it. */
  function NatToDigits(n: nat): (r: string)
    ensures |r| >= 1 && AllDigits(r)
  {
    if n < 10 then [DigitChar(n)] else NatToDigits(n / 10) + [DigitChar(n % 10)]
  }

  function Zeros(k: nat): (r: string)
    ensures |r| == k && AllDigits(r)
  {
    if k == 0 then "" else "0" + Zeros(k - 1)
  }

  /** s widened to at least width characters with leading zeros. */
  function PadLeft(s: string, width: nat): (r: string)
    requires AllDigits(s)
    ensures AllDigits(r)
  {
    if |s| < width then Zeros(width - |s|) + s else s
  }

  /** Drops the trailing zeros of a fraction, keeping at least one digit:
      the first group of the match /^([0-9]*[1-9]|0)(0*)/ on a fraction. */
  function TrimFraction(s: string): (r: string)
    requires AllDigits(s)
    ensures AllDigits(r)
  {
    if |s| == 0 then "0"
    else if s[|s| - 1] != '0' then s
    else TrimFraction(s[..|s| - 1])
  }

  /** formatUnits(raw, decimals): the whole part; then, unless decimals is 0,
      a point and the fraction without its trailing zeros (at least one digit). */
  function FormatUnits(raw: nat, decimals: nat): (r: string)
    ensures IsAmountText(r)
  {
    var m := Pow10(decimals);
    DivMod(raw, m);
    if decimals == 0 then
      WholeShape(NatToDigits(raw / m));
      NatToDigits(raw / m)
    else PointedAmount(raw / m, raw % m, decimals)
  }

  /** The whole part q, a point, and the fraction rem written with exactly
      decimals digits and then stripped of its trailing zeros. */
  function PointedAmount(q: nat, rem: nat, decimals: nat): (r: string)
    requires decimals >= 1
    ensures IsAmountText(r)
  {
    var frac := TrimFraction(PadLeft(NatToDigits(rem), decimals));
    TrimFractionShape(PadLeft(NatToDigits(rem), decimals));
    PointedShape(NatToDigits(q), frac);
    NatToDigits(q) + "." + frac
  }

  /** A rendered amount: digits and points, ending in a digit. */
  predicate IsAmountText(r: string)
  {
    && |r| >= 1 && IsDigit(r[|r| - 1])
    && forall i :: 0 <= i < |r| ==> IsDigit(r[i]) || r[i] == '.'
  }

  lemma WholeShape(whole: string)
    requires AllDigits(whole) && |whole| >= 1
    ensures IsAmountText(whole)
  {
  }

  lemma PointedShape(whole: string, frac: string)
    requires AllDigits(whole) && AllDigits(frac) && |frac| >= 1 && IsDigit(frac[|frac| - 1])
    ensures IsAmountText(whole + "." + frac)
  {
  }

  /** The amount a rendering stands for, in units of 10^-decimals: the
      reference reading of a formatted amount. With decimals 0 only a whole
      number is accepted; otherwise the fraction has one to decimals digits. */
  function ParseUnits(s: string, decimals: nat): Option<nat>
  {
    var parts := Split(s, '.');
    if decimals == 0 then
      if |parts| == 1 && |s| > 0 && AllDigits(s) then Some(DigitsValue(s)) else None
    else if && |parts| == 2
            && |parts[0]| > 0 && AllDigits(parts[0])
            && 0 < |parts[1]| <= decimals && AllDigits(parts[1])
    then
      Some(DigitsValue(parts[0]) * Pow10(decimals) + DigitsValue(parts[1]) * Pow10(decimals - |parts[1]|))
    else None
  }

  lemma {:induction false} TrimFractionShape(s: string)
    requires AllDigits(s)
    ensures |TrimFraction(s)| >= 1 && IsDigit(TrimFraction(s)[|TrimFraction(s)| - 1])
  {
    if |s| > 0 && s[|s| - 1] == '0' {
      TrimFractionShape(s[..|s| - 1]);
    }
  }

  lemma {:induction false} NatToDigitsValue(n: nat)
    ensures DigitsValue(NatToDigits(n)) == n
  {
    if n >= 10 {
      NatToDigitsValue(n / 10);
      var s := NatToDigits(n);
      assert s[..|s| - 1] == NatToDigits(n / 10);
    }
  }

  lemma {:induction false} NatToDigitsLength(n: nat, k: nat)
    requires k >= 1 && n < Pow10(k)
    ensures |NatToDigits(n)| <= k
  {
    if n >= 10 {
      assert k >= 2;
      NatToDigitsLength(n / 10, k - 1);
    }
  }

  lemma {:induction false} DigitsValueAppend(a: string, b: string)
    requires AllDigits(a) && AllDigits(b)
    ensures AllDigits(a + b)
    ensures DigitsValue(a + b) == DigitsValue(a) * Pow10(|b|) + DigitsValue(b)
  {
    if |b| == 0 {
      assert a + b == a;
    } else {
      var b' := b[..|b| - 1];
      assert (a + b)[..|a + b| - 1] == a + b';
      DigitsValueAppend(a, b');
      var x, p, y, d := DigitsValue(a), Pow10(|b'|), DigitsValue(b'), b[|b| - 1] as int - '0' as int;
      assert DigitsValue(a + b) == DigitsValue(a + b') * 10 + d;
      assert DigitsValue(b) == y * 10 + d;
      assert Pow10(|b|) == p * 10;
      ShiftDigit(x, p, y, d);
    }
  }

  lemma ShiftDigit(x: int, p: int, y: int, d: int)
    ensures (x * p + y) * 10 + d == x * (p * 10) + (y * 10 + d)
  {
  }

  lemma {:induction false} ZerosValue(k: nat)
    ensures DigitsValue(Zeros(k)) == 0
  {
    if k > 0 {
      ZerosValue(k - 1);
      DigitsValueAppend("0", Zeros(k - 1));
      assert DigitsValue("0") == 0;
    }
  }

  lemma {:induction false} PadLeftValue(s: string, width: nat)
    requires AllDigits(s) && |s| <= width
    ensures |PadLeft(s, width)| == width
    ensures DigitsValue(PadLeft(s, width)) == DigitsValue(s)
  {
    if |s| < width {
      var z := Zeros(width - |s|);
      DigitsValueAppend(z, s);
      ZerosValue(width - |s|);
      assert DigitsValue(z + s) == 0 * Pow10(|s|) + DigitsValue(s);
    }
  }

  /** Dropping trailing zeros divides by the matching power of ten. */
  lemma {:induction false} TrimFractionValue(s: string)
    requires AllDigits(s) && |s| >= 1
    ensures 1 <= |TrimFraction(s)| <= |s|
    ensures DigitsValue(TrimFraction(s)) * Pow10(|s| - |TrimFraction(s)|) == DigitsValue(s)
  {
    if s[|s| - 1] == '0' {
      var s' := s[..|s| - 1];
      if |s'| == 0 {
        assert DigitsValue(s) == 0;
        assert TrimFraction(s) == TrimFraction(s') == "0";
      } else {
        TrimFractionValue(s');
        var t := TrimFraction(s');
        assert TrimFraction(s) == t;
        assert DigitsValue(s) == DigitsValue(s') * 10;
        assert Pow10(|s| - |t|) == Pow10(|s'| - |t|) * 10;
        MulTen(DigitsValue(t), Pow10(|s'| - |t|));
      }
    }
  }

  lemma MulTen(x: int, p: int)
    ensures x * (p * 10) == (x * p) * 10
  {
  }

  /** A rendering with a point splits at that point. */
  lemma SplitAtPoint(whole: string, frac: string)
    requires AllDigits(whole) && AllDigits(frac)
    ensures Split(whole + "." + frac, '.') == [whole, frac]
  {
    assert '.' !in whole && '.' !in frac;
    assert Join([whole, frac], '.') == whole + "." + frac;
    SplitJoin([whole, frac], '.');
  }

  /** A rendering without a point is a single piece. */
  lemma SplitWithoutPoint(whole: string)
    requires AllDigits(whole)
    ensures Split(whole, '.') == [whole]
  {
    assert '.' !in whole;
    SplitJoin([whole], '.');
  }

  /** The fraction part of formatUnits stands for raw % 10^decimals. */
  lemma FractionValue(rem: nat, decimals: nat)
    requires decimals >= 1 && rem < Pow10(decimals)
    ensures var frac := TrimFraction(PadLeft(NatToDigits(rem), decimals));
      && 0 < |frac| <= decimals
      && DigitsValue(frac) * Pow10(decimals - |frac|) == rem
  {
    var digits := NatToDigits(rem);
    NatToDigitsValue(rem);
    NatToDigitsLength(rem, decimals);
    var padded := PadLeft(digits, decimals);
    PadLeftValue(digits, decimals);
    TrimFractionValue(padded);
  }

  lemma ParseWithPoint(whole: string, frac: string, decimals: nat)
    requires AllDigits(whole) && AllDigits(frac)
    requires |whole| > 0 && 0 < |frac| <= decimals
    ensures ParseUnits(whole + "." + frac, decimals)
         == Some(DigitsValue(whole) * Pow10(decimals) + DigitsValue(frac) * Pow10(decimals - |frac|))
  {
    SplitAtPoint(whole, frac);
  }

  /** formatUnits is exact: reading the rendering back with the same
      decimals gives the raw amount, so the rendering is raw / 10^decimals
      with nothing rounded away. */
  lemma {:induction false} FormatUnitsExact(raw: nat, decimals: nat)
    ensures ParseUnits(FormatUnits(raw, decimals), decimals) == Some(raw)
  {
    if decimals == 0 {
      assert Pow10(0) == 1 && raw / 1 == raw;
      assert FormatUnits(raw, 0) == NatToDigits(raw);
      NatToDigitsValue(raw);
      SplitWithoutPoint(NatToDigits(raw));
    } else {
      var m := Pow10(decimals);
      DivMod(raw, m);
      var q: nat, rem: nat := raw / m, raw % m;
      var whole := NatToDigits(q);
      var frac := TrimFraction(PadLeft(NatToDigits(rem), decimals));
      assert FormatUnits(raw, decimals) == PointedAmount(q, rem, decimals) == whole + "." + frac;
      NatToDigitsValue(q);
      FractionValue(rem, decimals);
      ParseWithPoint(whole, frac, decimals);
    }
  }

  lemma DivMod(a: nat, m: nat)
    requires m >= 1
    ensures 0 <= a / m && 0 <= a % m < m
    ensures (a / m) * m + a % m == a
  {
  }

  /** A whole token renders as "1.0" at any non-zero precision, e.g.
      1000000 at 6 decimals. */
  lemma FormatOneToken(decimals: nat)
    requires decimals >= 1
    ensures FormatUnits(Pow10(decimals), decimals) == "1.0"
  {
    var m := Pow10(decimals);
    SelfDivision(m);
    OneAndZero(decimals);
  }

  lemma SelfDivision(m: nat)
    requires m >= 1
    ensures m / m == 1 && m % m == 0
  {
  }

  lemma OneAndZero(decimals: nat)
    requires decimals >= 1
    ensures PointedAmount(1, 0, decimals) == "1.0"
  {
    assert NatToDigits(1) == "1" && NatToDigits(0) == "0";
    var padded := PadLeft("0", decimals);
    assert forall i :: 0 <= i < |padded| ==> padded[i] == '0' by {
      ZerosAllZero(decimals - 1);
    }
    AllZerosTrimToZero(padded);
  }

  lemma {:induction false} AllZerosTrimToZero(s: string)
    requires forall i :: 0 <= i < |s| ==> s[i] == '0'
    ensures TrimFraction(s) == "0"
  {
    if |s| > 0 {
      AllZerosTrimToZero(s[..|s| - 1]);
    }
  }

  lemma ZerosAllZero(k: nat)
    ensures forall i :: 0 <= i < k ==> Zeros(k)[i] == '0'
  {
  }

  /** With no decimals the rendering is the plain whole number. */
  lemma FormatWholeUnits(raw: nat)
    ensures FormatUnits(raw, 0) == NatToDigits(raw)
  {
  }
}
