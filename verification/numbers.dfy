/**
 * Decimal numerals as pandas' `to_numeric` reads them from text, and the
 * text Python's `repr` gives the resulting float. A numeral is kept as its
 * exact value `digits / 10^places`.
 */
module Numbers {
  import opened Options
  import opened Strings

  datatype Decimal = Decimal(digits: int, places: nat)

  function Pow10(p: nat): (r: nat)
    ensures r >= 1
  {
    if p == 0 then 1 else 10 * Pow10(p - 1)
  }

  /** `x * 10^k`, written so that it unfolds without multiplying two unknowns. */
  function Shift(x: int, k: nat): int {
    if k == 0 then x else 10 * Shift(x, k - 1)
  }

  lemma {:induction false} ShiftIsProduct(x: int, k: nat)
    ensures Shift(x, k) == x * Pow10(k)
    decreases k
  {
    if k > 0 {
      ShiftIsProduct(x, k - 1);
      assert x * (10 * Pow10(k - 1)) == 10 * (x * Pow10(k - 1));
    }
  }

  lemma {:induction false} ShiftAdd(x: int, i: nat, j: nat)
    ensures Shift(Shift(x, i), j) == Shift(x, i + j)
    decreases j
  {
    if j > 0 {
      ShiftAdd(x, i, j - 1);
    }
  }

  lemma {:induction false} ShiftLinear(x: int, y: int, k: nat)
    ensures Shift(x + y, k) == Shift(x, k) + Shift(y, k)
    ensures Shift(-x, k) == -Shift(x, k)
    decreases k
  {
    if k > 0 {
      ShiftLinear(x, y, k - 1);
    }
  }

  lemma {:induction false} ShiftInjective(x: int, y: int, k: nat)
    requires Shift(x, k) == Shift(y, k)
    ensures x == y
    decreases k
  {
    if k > 0 {
      ShiftInjective(x, y, k - 1);
    }
  }

  /** Two numerals with the same value. */
  predicate SameValue(a: Decimal, b: Decimal) {
    Shift(a.digits, b.places) == Shift(b.digits, a.places)
  }

  lemma SameValueTrans(a: Decimal, b: Decimal, c: Decimal)
    requires SameValue(a, b) && SameValue(b, c)
    ensures SameValue(a, c)
  {
    var x, y, z := a.digits, b.digits, c.digits;
    var pa, pb, pc := a.places, b.places, c.places;
    calc {
      Shift(Shift(x, pc), pb);
      { ShiftAdd(x, pc, pb); ShiftAdd(x, pb, pc); assert pc + pb == pb + pc; }
      Shift(Shift(x, pb), pc);
      Shift(Shift(y, pa), pc);
      { ShiftAdd(y, pa, pc); ShiftAdd(y, pc, pa); assert pa + pc == pc + pa; }
      Shift(Shift(y, pc), pa);
      Shift(Shift(z, pb), pa);
      { ShiftAdd(z, pb, pa); ShiftAdd(z, pa, pb); assert pb + pa == pa + pb; }
      Shift(Shift(z, pa), pb);
    }
    ShiftInjective(Shift(x, pc), Shift(z, pa), pb);
  }

  lemma NegatedSameValue(a: Decimal, b: Decimal)
    requires SameValue(a, b)
    ensures SameValue(Decimal(-a.digits, a.places), Decimal(-b.digits, b.places))
  {
    ShiftLinear(a.digits, 0, b.places);
    ShiftLinear(b.digits, 0, a.places);
  }

  /** The numeral names an integer. */
  predicate IsWhole(d: Decimal) {
    d.digits % Pow10(d.places) == 0
  }

  /** The integer a whole numeral names. */
  function WholeValue(d: Decimal): (v: int)
    requires IsWhole(d)
    ensures SameValue(d, Decimal(v, 0))
  {
    WholeFacts(d.digits, d.places);
    d.digits / Pow10(d.places)
  }

  lemma WholeFacts(x: int, k: nat)
    requires x % Pow10(k) == 0
    ensures Shift(x / Pow10(k), k) == x
  {
    var p := Pow10(k);
    ShiftIsProduct(x / p, k);
    assert x == x / p * p + x % p;
  }

  /** `v` is `x / p` truncated toward zero. */
  predicate TruncatesTo(x: int, p: int, v: int) {
    if x >= 0 then 0 <= v * p <= x < v * p + p else v * p - p < x <= v * p <= 0
  }

  /** Python's `int(x)`: the value truncated toward zero. */
  function Trunc(d: Decimal): int {
    if d.digits >= 0 then d.digits / Pow10(d.places) else -((-d.digits) / Pow10(d.places))
  }

  /** `Trunc` rounds toward zero: it is the integer part of the value, for either sign. */
  lemma TruncTowardZero(d: Decimal)
    ensures TruncatesTo(d.digits, Pow10(d.places), Trunc(d))
  {
    if d.digits >= 0 {
      TruncNonNegative(d.digits, Pow10(d.places));
    } else {
      TruncNegative(d.digits, Pow10(d.places));
    }
  }

  lemma TruncNonNegative(x: int, p: int)
    requires p > 0 && x >= 0
    ensures TruncatesTo(x, p, x / p)
  {
    var q := x / p;
    assert x == q * p + x % p;
  }

  lemma TruncNegative(x: int, p: int)
    requires p > 0 && x < 0
    ensures TruncatesTo(x, p, -((-x) / p))
  {
    var a := -x;
    var q := a / p;
    assert a == q * p + a % p;
    assert (-q) * p == -(q * p);
  }

  // ---------------------------------------------------------------- reading

  /** The unsigned numeral: `digits`, `digits.`, `.digits` or `digits.digits`. */
  function ParseUnsigned(t: string): (r: Option<Decimal>)
    ensures r.Some? ==> r.value.digits >= 0
  {
    var parts := Split(t, '.');
    if |parts| == 1 then
      match ParseNat(t)
      case Some(n) => Some(Decimal(n, 0))
      case None => None
    else if |parts| == 2 && AllDigits(parts[0]) && AllDigits(parts[1]) && |parts[0]| + |parts[1]| > 0 then
      ShiftNat(DigitsValue(parts[0]), |parts[1]|);
      Some(Decimal(Shift(DigitsValue(parts[0]), |parts[1]|) + DigitsValue(parts[1]), |parts[1]|))
    else None
  }

  lemma {:induction false} ShiftNat(x: nat, k: nat)
    ensures Shift(x, k) >= 0
    decreases k
  {
    if k > 0 {
      ShiftNat(x, k - 1);
    }
  }

  /**
   * `pd.to_numeric` on one string: surrounding whitespace, an optional sign,
   * then an unsigned numeral.
   */
  function ParseDecimal(s: string): Option<Decimal> {
    var t := Strip(s);
    if |t| > 0 && (t[0] == '-' || t[0] == '+') then
      match ParseUnsigned(t[1..])
      case Some(d) => Some(if t[0] == '-' then Decimal(-d.digits, d.places) else d)
      case None => None
    else ParseUnsigned(t)
  }

  /** Every text `int()` accepts is read as the same whole number. */
  lemma ParseDecimalOfInt(s: string, i: int)
    requires ParseInt(s) == Some(i)
    ensures ParseDecimal(s) == Some(Decimal(i, 0))
  {
    var t := Strip(s);
    if |t| > 0 && (t[0] == '-' || t[0] == '+') {
      UnsignedOfDigits(t[1..]);
    } else {
      UnsignedOfDigits(t);
    }
  }

  lemma UnsignedOfDigits(u: string)
    requires ParseNat(u).Some?
    ensures ParseUnsigned(u) == Some(Decimal(ParseNat(u).value, 0))
  {
    NoPointInDigits(u);
    SplitNoSeparator(u, '.');
  }

  lemma NoPointInDigits(s: string)
    requires AllDigits(s)
    ensures '.' !in s
  {
    forall i | 0 <= i < |s| ensures s[i] != '.' {
      assert IsDigit(s[i]);
    }
  }

  /** `str(i)` reads back as the whole number `i`. */
  lemma ParseDecimalOfIntToString(i: int)
    ensures ParseDecimal(IntToString(i)) == Some(Decimal(i, 0))
  {
    ParseIntOfIntToString(i);
    ParseDecimalOfInt(IntToString(i), i);
  }

  // -------------------------------------------------------------- rendering

  /** Drops trailing zero places: the shortest numeral of the same value. */
  function Shortest(d: Decimal): (r: Decimal)
    ensures r.places <= d.places && d.digits == Shift(r.digits, d.places - r.places)
    ensures r.places == 0 || r.digits % 10 != 0
    decreases d.places
  {
    if d.places > 0 && d.digits % 10 == 0 then
      var r := Shortest(Decimal(d.digits / 10, d.places - 1));
      ShiftAdd(r.digits, d.places - 1 - r.places, 1);
      assert d.places - 1 - r.places + 1 == d.places - r.places;
      r
    else d
  }

  lemma ShortestSameValue(d: Decimal)
    ensures SameValue(Shortest(d), d)
  {
    var r := Shortest(d);
    ShiftAdd(r.digits, d.places - r.places, r.places);
    assert d.places - r.places + r.places == d.places;
  }

  /** The digits of `n`, left-padded with zeros to width `w`. */
  function ZeroPad(n: nat, w: nat): (r: string)
    ensures AllDigits(r) && |r| >= w
    ensures |NatToString(n)| <= w ==> |r| == w
  {
    var s := NatToString(n);
    if |s| >= w then s else seq(w - |s|, _ => '0') + s
  }

  /** A non-negative value written as its whole part, a point and `places` fraction digits, or "0" when there are none. */
  function PointText(a: nat, places: nat): string {
    var p := Pow10(places);
    DivNat(a, p);
    NatToString(a / p) + "." + (if places == 0 then "0" else ZeroPad(a % p, places))
  }

  lemma DivNat(a: int, p: int)
    requires a >= 0 && p > 0
    ensures a / p >= 0 && 0 <= a % p < p
  {
  }

  /**
   * Python's `repr` of the float with this value: the whole part, a point,
   * and the fraction without trailing zeros, or "0" when there is none.
   */
  function FloatRepr(d: Decimal): string {
    SignedPointText(Shortest(d))
  }

  /** A minus sign when negative, then the point text of the magnitude. */
  function SignedPointText(n: Decimal): string {
    (if n.digits < 0 then "-" else "") + PointText(Magnitude(n.digits), n.places)
  }

  function Magnitude(x: int): nat {
    if x < 0 then -x else x
  }

  lemma {:induction false} DigitsValueAppend(a: string, b: string)
    requires AllDigits(a) && AllDigits(b)
    ensures AllDigits(a + b) && DigitsValue(a + b) == Shift(DigitsValue(a), |b|) + DigitsValue(b)
    decreases |b|
  {
    if |b| > 0 {
      var b' := b[..|b| - 1];
      assert (a + b)[..|a + b| - 1] == a + b';
      DigitsValueAppend(a, b');
    } else {
      assert a + b == a;
    }
  }

  lemma {:induction false} ZerosValue(w: nat)
    ensures AllDigits(seq(w, _ => '0')) && DigitsValue(seq(w, _ => '0')) == 0
    decreases w
  {
    var z := seq(w, _ => '0');
    if w > 0 {
      assert z[..w - 1] == seq(w - 1, _ => '0');
      ZerosValue(w - 1);
    }
  }

  lemma {:induction false} NatToStringWidth(n: nat, w: nat)
    requires w > 0 && n < Pow10(w)
    ensures |NatToString(n)| <= w
    decreases w
  {
    if n >= 10 {
      assert w > 1;
      NatToStringWidth(n / 10, w - 1);
    }
  }

  lemma ZeroPadValue(n: nat, w: nat)
    requires w > 0 && n < Pow10(w)
    ensures |ZeroPad(n, w)| == w && DigitsValue(ZeroPad(n, w)) == n
  {
    NatToStringWidth(n, w);
    ParseNatOfNatToString(n);
    var s := NatToString(n);
    if |s| < w {
      ZerosValue(w - |s|);
      DigitsValueAppend(seq(w - |s|, _ => '0'), s);
      ShiftLinear(0, 0, |s|);
    }
  }

  /** Two runs of digits joined by a point split back at it. */
  lemma JoinedAtPoint(whole: string, frac: string)
    requires AllDigits(whole) && AllDigits(frac) && |whole| > 0
    ensures var r := whole + "." + frac;
      && (forall i | 0 <= i < |r| :: IsDigit(r[i]) || r[i] == '.')
      && IsDigit(r[0])
      && Split(r, '.') == [whole, frac]
  {
    var r := whole + "." + frac;
    NoPointInDigits(whole);
    NoPointInDigits(frac);
    SplitNoSeparator(frac, '.');
    SplitAfterPart(whole, '.', frac);
    forall i | 0 <= i < |r| ensures IsDigit(r[i]) || r[i] == '.' {
      if i < |whole| {
        assert r[i] == whole[i];
      } else if i > |whole| {
        assert r[i] == frac[i - |whole| - 1];
      }
    }
    assert r[0] == whole[0];
  }

  /** The point text reads back as the exact numeral. */
  lemma ParsePointText(a: nat, places: nat)
    ensures var r := PointText(a, places);
      && (forall i | 0 <= i < |r| :: IsDigit(r[i]) || r[i] == '.')
      && |r| > 0 && IsDigit(r[0])
      && ParseUnsigned(r).Some? && SameValue(ParseUnsigned(r).value, Decimal(a, places))
  {
    var p := Pow10(places);
    DivNat(a, p);
    var whole := NatToString(a / p);
    var frac := if places == 0 then "0" else ZeroPad(a % p, places);
    assert PointText(a, places) == whole + "." + frac;
    JoinedAtPoint(whole, frac);
    ParseNatOfNatToString(a / p);
    ParseJoined(whole, frac);
    PointPartsValue(a, places, frac);
  }

  /** Digits, a point and digits read as the whole part shifted past the fraction digits. */
  lemma ParseJoined(whole: string, frac: string)
    requires AllDigits(whole) && AllDigits(frac) && |whole| > 0
    requires Split(whole + "." + frac, '.') == [whole, frac]
    ensures ParseUnsigned(whole + "." + frac) ==
      Some(Decimal(Shift(DigitsValue(whole), |frac|) + DigitsValue(frac), |frac|))
  {
  }

  /** The whole part and the fraction digits of the point text recombine to the numeral's value. */
  lemma PointPartsValue(a: nat, places: nat, frac: string)
    requires frac == if places == 0 then "0" else ZeroPad(a % Pow10(places), places)
    ensures SameValue(Decimal(Shift(a / Pow10(places), |frac|) + DigitsValue(frac), |frac|), Decimal(a, places))
  {
    if places == 0 {
      assert DigitsValue(frac) == 0 by {
        assert frac[..0] == "";
      }
    } else {
      ZeroPadValue(a % Pow10(places), places);
      Recombine(a, places);
    }
  }

  lemma Recombine(a: nat, k: nat)
    ensures Shift(a / Pow10(k), k) + a % Pow10(k) == a
  {
    var p := Pow10(k);
    ShiftIsProduct(a / p, k);
    assert a == a / p * p + a % p;
  }

  /** A whole float shows as the integer's text followed by ".0". */
  lemma WholeFloatRepr(n: int)
    ensures FloatRepr(Decimal(n, 0)) == IntToString(n) + ".0"
  {
    assert Shortest(Decimal(n, 0)) == Decimal(n, 0);
    var m := Magnitude(n);
    assert Pow10(0) == 1;
    assert PointText(m, 0) == NatToString(m) + ".0";
  }

  /** The integer's digits followed by ".0" read as that integer with one zero place. */
  lemma ParsePointZero(n: nat)
    ensures ParseDecimal(NatToString(n) + ".0") == Some(Decimal(Shift(n, 1), 1))
  {
    var a := NatToString(n);
    var t := a + ".0";
    forall i | 0 <= i < |t| ensures !IsSpace(t[i]) {
      if i < |a| {
        assert IsDigit(a[i]);
      }
    }
    StripNoSpace(t);
    assert IsDigit(t[0]);
    NoPointInDigits(a);
    SplitNoSeparator("0", '.');
    SplitAfterPart(a, '.', "0");
    assert t == a + ['.'] + "0";
    ParseNatOfNatToString(n);
    assert DigitsValue("0") == 0 by {
      assert "0"[..0] == "";
    }
  }

  /** A numeral with one zero place is whole, and names the integer it was shifted from. */
  lemma OneZeroPlaceWhole(n: int)
    ensures IsWhole(Decimal(Shift(n, 1), 1)) && WholeValue(Decimal(Shift(n, 1), 1)) == n
  {
    assert Pow10(1) == 10;
    assert Shift(n, 1) == 10 * n;
    assert (10 * n) % 10 == 0 && (10 * n) / 10 == n;
  }

  /** The text `repr` gives reads back as a numeral of the same value. */
  lemma ParseFloatRepr(d: Decimal)
    ensures ParseDecimal(FloatRepr(d)).Some? && SameValue(ParseDecimal(FloatRepr(d)).value, d)
  {
    ParseSignedPointText(Shortest(d));
    ShortestSameValue(d);
    SameValueTrans(ParseDecimal(FloatRepr(d)).value, Shortest(d), d);
  }

  lemma ParseSignedPointText(n: Decimal)
    ensures ParseDecimal(SignedPointText(n)).Some? && SameValue(ParseDecimal(SignedPointText(n)).value, n)
  {
    var v := SignedPointValue(n);
    assert ParseDecimal(SignedPointText(n)) == Some(v);
  }

  /** The numeral the signed point text reads back as, named so that its value can be compared. */
  lemma SignedPointValue(n: Decimal) returns (v: Decimal)
    ensures ParseDecimal(SignedPointText(n)) == Some(v) && SameValue(v, n)
  {
    if n.digits < 0 {
      v := NegativePointValue(n);
    } else {
      v := NonNegativePointValue(n);
    }
  }

  lemma NegativePointValue(n: Decimal) returns (v: Decimal)
    requires n.digits < 0
    ensures ParseDecimal(SignedPointText(n)) == Some(v) && SameValue(v, n)
  {
    var a := Magnitude(n.digits);
    var text := PointText(a, n.places);
    ParsePointText(a, n.places);
    v := NegatedReading(text, Decimal(a, n.places));
    assert SignedPointText(n) == "-" + text;
    assert Decimal(-(a as int), n.places) == n;
  }

  /** A minus sign before a numeral of value `m` reads as a numeral of value `-m`. */
  lemma NegatedReading(text: string, m: Decimal) returns (v: Decimal)
    requires |text| > 0 && IsDigit(text[0])
    requires forall i | 0 <= i < |text| :: IsDigit(text[i]) || text[i] == '.'
    requires ParseUnsigned(text).Some? && SameValue(ParseUnsigned(text).value, m)
    ensures ParseDecimal("-" + text) == Some(v) && SameValue(v, Decimal(-m.digits, m.places))
  {
    NegativeReadsBack(text);
    var u := ParseUnsigned(text).value;
    v := Decimal(-u.digits, u.places);
    NegatedSameValue(u, m);
  }

  lemma NonNegativePointValue(n: Decimal) returns (v: Decimal)
    requires n.digits >= 0
    ensures ParseDecimal(SignedPointText(n)) == Some(v) && SameValue(v, n)
  {
    var a := Magnitude(n.digits);
    var text := PointText(a, n.places);
    ParsePointText(a, n.places);
    v := ParseUnsigned(text).value;
    PlainReadsBack(text);
    assert SignedPointText(n) == text;
    assert Decimal(a, n.places) == n;
  }

  /** A numeral without spaces reads as itself. */
  lemma PlainReadsBack(text: string)
    requires |text| > 0 && IsDigit(text[0]) && ParseUnsigned(text).Some?
    requires forall i | 0 <= i < |text| :: IsDigit(text[i]) || text[i] == '.'
    ensures ParseDecimal(text) == ParseUnsigned(text)
  {
    forall i | 0 <= i < |text| ensures !IsSpace(text[i]) {
    }
    StripNoSpace(text);
  }

  /** A minus sign before a numeral without spaces negates it. */
  lemma NegativeReadsBack(text: string)
    requires |text| > 0 && IsDigit(text[0]) && ParseUnsigned(text).Some?
    requires forall i | 0 <= i < |text| :: IsDigit(text[i]) || text[i] == '.'
    ensures ParseDecimal("-" + text) == Some(Decimal(-ParseUnsigned(text).value.digits, ParseUnsigned(text).value.places))
  {
    var r := "-" + text;
    forall i | 0 <= i < |r| ensures !IsSpace(r[i]) {
      if i > 0 {
        assert r[i] == text[i - 1];
      }
    }
    StripNoSpace(r);
    assert r[1..] == text;
  }
}
