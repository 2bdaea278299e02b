/** Numbers in JSON text: what `%g` writes for an integer, and what `strtod` reads back. */
module JsonNumbers {
  import opened Basics
  import opened JsonText

  lemma {:induction false} DigitsAre(n: nat)
    ensures Digits(n) != "" && AllDigits(Digits(n))
    ensures DigitsValue(Digits(n)) == n
  {
    if n >= 10 {
      DigitsAre(n / 10);
      assert Digits(n)[..|Digits(n)| - 1] == Digits(n / 10);
    } else {
      assert Digits(n)[..0] == "";
    }
  }

  /** How many digits a number has. */
  lemma {:induction false} DigitsLength(n: nat)
    ensures |Digits(n)| > 0 && n < Ten(|Digits(n)|) && (n > 0 ==> Ten(|Digits(n)| - 1) <= n)
  {
    if n >= 10 {
      DigitsLength(n / 10);
      assert |Digits(n)| == |Digits(n / 10)| + 1;
      var l := |Digits(n / 10)|;
      hide Digits;
      assert Ten(l + 1) == 10 * Ten(l) && Ten(l) == 10 * Ten(l - 1);
    } else {
      assert Ten(1) == 10 && Ten(0) == 1;
    }
  }

  lemma {:induction false} TenAdds(a: nat, b: nat)
    ensures Ten(a + b) == Ten(a) * Ten(b)
  {
    if a > 0 {
      TenAdds(a - 1, b);
      assert Ten(a + b) == 10 * Ten(a - 1 + b);
      Associates(Ten(a - 1), Ten(b));
    }
  }

  lemma Associates(a: nat, b: nat)
    ensures 10 * (a * b) == (10 * a) * b
  {
  }

  lemma {:induction false} TenGrows(a: nat, b: nat)
    requires a < b
    ensures 10 * Ten(a) <= Ten(b)
    decreases b
  {
    if a < b - 1 { TenGrows(a, b - 1); }
  }

  lemma {:induction false} DigitCountExact(d: string, t: string)
    requires AllDigits(d) && (t == "" || !IsDigit(t[0]))
    ensures DigitCount(d + t) == |d|
  {
    if d == "" {
      assert d + t == t;
    } else {
      assert (d + t)[1..] == d[1..] + t;
      DigitCountExact(d[1..], t);
    }
  }

  /** Trailing zeros are powers of ten. */
  lemma {:induction false} StripZerosValue(d: string)
    requires AllDigits(d)
    ensures AllDigits(StripZeros(d)) && DigitsValue(StripZeros(d)) * Ten(|d| - |StripZeros(d)|) == DigitsValue(d)
  {
    if |d| > 1 && d[|d| - 1] == '0' {
      var front := d[..|d| - 1];
      StripZerosValue(front);
      var k := |front| - |StripZeros(front)|;
      assert Ten(k + 1) == 10 * Ten(k);
      Associates(DigitsValue(StripZeros(front)), Ten(k));
      TenTimes(DigitsValue(StripZeros(front)), Ten(k));
    } else {
      assert Ten(0) == 1;
    }
  }

  lemma TenTimes(a: nat, b: nat)
    ensures a * (10 * b) == 10 * (a * b)
  {
  }

  function Negate(n: int): int { -n }

  /** Reading digits and what may follow them. */
  lemma ReadParts(sign: string, d: string, v: string)
    requires (sign == "" || sign == "-") && d != "" && AllDigits(d) && (v == "" || !IsDigit(v[0]))
    ensures ReadNumber(sign + (d + v)) == NumberOf(sign != "", d, Fraction(v), Exponent(AfterFraction(v)))
  {
    DigitCountExact(d, v);
    SignedHead(sign, d, v);
    Cut(d, v);
    hide *;
    ReadIs(sign + (d + v), sign != "", d + v, d, v);
  }

  lemma Cut(d: string, v: string)
    ensures (d + v)[..|d|] == d && (d + v)[|d|..] == v
  {
  }

  lemma SignedHead(sign: string, d: string, v: string)
    requires (sign == "" || sign == "-") && d != "" && IsDigit(d[0])
    ensures var t := sign + (d + v);
      (Head(t) == '-') == (sign != "") && d + v == if sign != "" then Tail(t) else t
  {
    var u := d + v;
    assert u[0] == d[0];
    if sign == "" { assert sign + u == u; } else { assert (sign + u)[0] == '-' && (sign + u)[1..] == u; }
  }

  /** The reader's own steps, on a text whose parts are known. */
  lemma ReadIs(t: string, negative: bool, u: string, d: string, v: string)
    requires AllDigits(d) && DigitCount(u) == |d| && |d| <= |u| && u[..|d|] == d && u[|d|..] == v
    requires (Head(t) == '-') == negative && u == if negative then Tail(t) else t
    ensures ReadNumber(t) == NumberOf(negative, d, Fraction(v), Exponent(AfterFraction(v)))
  {
    hide DigitCount, Fraction, AfterFraction, Exponent, NumberOf, Head, Tail;
  }

  lemma FractionIs(f: string, e: string)
    requires (f == "" && (e == "" || e[0] != '.')) || (f != "" && AllDigits(f) && (e == "" || !IsDigit(e[0])))
    ensures var v := if f == "" then e else "." + (f + e); Fraction(v) == f && AfterFraction(v) == e
  {
    if f != "" {
      var v := "." + (f + e);
      DigitCountExact(f, e);
      hide DigitCount;
      assert v[1..] == f + e && v[1..1 + |f|] == f && v[1 + |f|..] == e;
    }
  }

  /** What can follow a number that was printed. */
  ghost predicate Ends(w: string) { w == "" || IsWs(w[0]) || IsClose(w[0]) }

  lemma ExponentNone(w: string)
    requires Ends(w)
    ensures Exponent(w) == 0 && (w == "" || (!IsDigit(w[0]) && w[0] != '.'))
  {
  }

  function ExponentText(e: nat): string { "e+" + (if e < 10 then "0" else "") + Digits(e) }

  lemma ExponentIs(e: nat, w: string)
    requires Ends(w)
    ensures Exponent(ExponentText(e) + w) == e
  {
    var d := (if e < 10 then "0" else "") + Digits(e);
    DigitsAre(e);
    PaddedValue(e);
    DigitCountExact(d, w);
    hide DigitCount, DigitsValue, Digits;
    var t := ExponentText(e) + w;
    assert t == "e+" + (d + w);
    assert Head(t) == 'e' && Tail(t) == "+" + (d + w) && Tail(Tail(t)) == d + w && (d + w)[..|d|] == d;
  }

  lemma PaddedValue(e: nat)
    ensures AllDigits((if e < 10 then "0" else "") + Digits(e))
    ensures DigitsValue((if e < 10 then "0" else "") + Digits(e)) == e
  {
    DigitsAre(e);
    if e < 10 {
      var d := "0" + Digits(e);
      assert d[..|d| - 1] == "0" && "0"[..0] == "";
    } else {
      assert "" + Digits(e) == Digits(e);
    }
  }

  lemma ScaledNat(n: int, e: nat)
    ensures Scaled(n, e) == (n * Ten(e)) as real
  {
  }

  /** The value that is printed. */
  function PrintedNat(m: nat): nat {
    if m < MILLION then m
    else
      var k := if |Digits(m)| > 6 then |Digits(m)| - 6 else 0;
      Rounded(m, Ten(k)) * Ten(k)
  }

  function Printed(n: int): int { WithSign(n < 0, PrintedNat(if n < 0 then Negate(n) else n)) }

  /** At most six significant digits. */
  predicate SixDigits(n: int) {
    var m := if n < 0 then -n else n;
    m < MILLION || m % Ten(if |Digits(m)| > 6 then |Digits(m)| - 6 else 0) == 0
  }

  lemma SixToSeven()
    ensures Ten(5) == 100_000 && Ten(6) == MILLION
  {
    assert Ten(3) == 1000;
  }

  /** A large number has more than six digits, and its first six are rounded to six or to a
      million. */
  lemma LargeDigits(m: nat)
    requires m >= MILLION
    ensures |Digits(m)| > 6
    ensures var unit := Ten(|Digits(m)| - 6); Ten(5) <= m / unit < Ten(6) && Ten(5) <= Rounded(m, unit) <= Ten(6)
  {
    DigitsLength(m);
    SixToSeven();
    var l := |Digits(m)|;
    hide Digits, Ten;
    if l <= 6 {
      if l < 6 { TenGrows(l, 6); }
      assert false;
    }
    TenAdds(6, l - 6);
    TenAdds(5, l - 6);
    QuotientBetween(m, Ten(l - 6), Ten(5), Ten(6));
  }

  lemma QuotientBetween(m: nat, unit: nat, low: nat, high: nat)
    requires unit > 0 && low * unit <= m < high * unit
    ensures low <= m / unit < high
  {
    if m / unit < low { Monotone(m / unit + 1, low, unit); }
    if m / unit >= high { Monotone(high, m / unit, unit); }
  }

  lemma Monotone(a: nat, b: nat, c: nat)
    requires a <= b
    ensures a * c <= b * c
  {
  }

  lemma ReadScientific(sign: string, q: nat, e: nat, w: string)
    requires (sign == "" || sign == "-") && Ten(5) <= q < Ten(6) && e >= 5 && Ends(w)
    ensures ReadNumber(sign + (Scientific(q, e) + w)) == Number(WithSign(sign != "", q * Ten(e - 5)) as real)
  {
    var first, rest := Mantissa(q, e, w);
    var et := ExponentText(e) + w;
    ExponentIs(e, w);
    ExponentStarts(e, w);
    FractionIs(rest, et);
    MantissaIs(sign != "", first, rest, q, e);
    hide *;
    ReadParts(sign, first, if rest == "" then et else "." + (rest + et));
  }

  lemma MantissaIs(negative: bool, first: string, rest: string, q: nat, e: nat)
    requires first != "" && |rest| <= 5 <= e && AllDigits(first) && AllDigits(rest) && AllDigits(first + rest)
    requires DigitsValue(first + rest) * Ten(5 - |rest|) == q
    ensures NumberOf(negative, first, rest, e) == Number(WithSign(negative, q * Ten(e - 5)) as real)
  {
    NumberIs(negative, first, rest, e);
    ScaledUp(negative, DigitsValue(first + rest), 5 - |rest|, e - 5);
    hide *;
  }

  /** The digits before and after the point of a printed number. */
  lemma Mantissa(q: nat, e: nat, w: string) returns (first: string, rest: string)
    requires Ten(5) <= q < Ten(6)
    ensures first != "" && |rest| <= 5 && AllDigits(first) && AllDigits(rest) && AllDigits(first + rest)
    ensures DigitsValue(first + rest) * Ten(5 - |rest|) == q
    ensures Scientific(q, e) + w
      == first + (if rest == "" then ExponentText(e) + w else "." + (rest + (ExponentText(e) + w)))
  {
    var d := StripZeros(Digits(q));
    SixLong(q);
    DigitsAre(q);
    StripZerosValue(Digits(q));
    ScientificText(q, e, w);
    hide Digits, StripZeros, Scientific, ExponentText, DigitsValue, Ten;
    first, rest := d[..1], d[1..];
    assert first + rest == d;
  }

  lemma NumberIs(negative: bool, d: string, f: string, e: int)
    requires d != "" && AllDigits(d) && AllDigits(f) && AllDigits(d + f)
    ensures NumberOf(negative, d, f, e) == Number(Scaled(WithSign(negative, DigitsValue(d + f)), e - |f|))
  {
    hide DigitsValue, Scaled, AllDigits;
  }

  lemma ExponentStarts(e: nat, w: string)
    ensures var t := ExponentText(e) + w; t != "" && t[0] == 'e'
  {
    hide Digits;
  }

  lemma ScaledUp(negative: bool, v: nat, z: nat, k: nat)
    ensures Scaled(WithSign(negative, v), k + z) == WithSign(negative, v * Ten(z) * Ten(k)) as real
  {
    Powers(v, z, k);
    ScaledNat(WithSign(negative, v), k + z);
    SignedProduct(negative, v, Ten(k + z));
  }

  lemma SignedProduct(negative: bool, v: int, t: int)
    ensures WithSign(negative, v) * t == WithSign(negative, v * t)
  {
  }

  lemma Powers(v: nat, z: nat, k: nat)
    ensures v * Ten(k + z) == v * Ten(z) * Ten(k)
  {
    TenAdds(z, k);
    hide Ten;
    Products(v, Ten(z), Ten(k));
  }

  lemma Products(a: nat, b: nat, c: nat)
    ensures a * (b * c) == a * b * c
  {
  }

  lemma SixLong(q: nat)
    requires Ten(5) <= q < Ten(6)
    ensures |Digits(q)| == 6
  {
    DigitsLength(q);
    var l := |Digits(q)|;
    hide Digits, Ten;
    if l < 6 {
      if l < 5 { TenGrows(l, 5); }
      assert false;
    }
    if l > 6 {
      if l - 1 > 6 { TenGrows(6, l - 1); }
      assert false;
    }
  }

  lemma ScientificText(q: nat, e: nat, w: string)
    ensures Digits(q) != ""
    ensures var d := StripZeros(Digits(q));
      && d != ""
      && Scientific(q, e) + w
         == d[..1] + (if d[1..] == "" then ExponentText(e) + w else "." + (d[1..] + (ExponentText(e) + w)))
  {
    DigitsAre(q);
    var d := StripZeros(Digits(q));
    hide Digits, StripZeros;
    var x := ExponentText(e);
    var pad := if e < 10 then "0" else "";
    if |d| == 1 {
      assert d[..1] == d && d[1..] == "";
      assert d + "e+" + pad + Digits(e) + w == d + (x + w);
    } else {
      assert d[..1] + "." + d[1..] + "e+" + pad + Digits(e) + w == d[..1] + ("." + (d[1..] + (x + w)));
    }
  }

  lemma ReadPlain(sign: string, m: nat, w: string)
    requires (sign == "" || sign == "-") && Ends(w)
    ensures ReadNumber(sign + (Digits(m) + w)) == Number(WithSign(sign != "", m) as real)
  {
    var d := Digits(m);
    DigitsAre(m);
    ExponentNone(w);
    FractionIs("", w);
    assert d + "" == d;
    NumberIs(sign != "", d, "", 0);
    ScaledNat(WithSign(sign != "", m), 0);
    assert Ten(0) == 1;
    hide *;
    ReadParts(sign, d, w);
  }

  lemma ReadGeneralNat(sign: string, m: nat, w: string)
    requires (sign == "" || sign == "-") && Ends(w)
    ensures ReadNumber(sign + (GeneralNat(m) + w)) == Number(WithSign(sign != "", PrintedNat(m)) as real)
  {
    hide ReadNumber, Scientific, Rounded;
    if m < MILLION {
      ReadPlain(sign, m, w);
    } else {
      LargeDigits(m);
      SixToSeven();
      var k := |Digits(m)| - 6;
      var q := Rounded(m, Ten(k));
      assert Ten(k + 1) == 10 * Ten(k);
      hide Digits, Ten;
      if q == MILLION {
        ReadScientific(sign, MILLION / 10, k + 6, w);
        Associates(MILLION / 10, Ten(k));
        TenTimes(MILLION / 10, Ten(k));
      } else {
        ReadScientific(sign, q, k + 5, w);
      }
    }
  }

  /** Reading the text of an integer, whatever white space or bracket follows, gives the integer
      rounded to six significant digits. */
  lemma ReadGeneral(n: int, w: string)
    requires Ends(w)
    ensures ReadNumber(General(n) + w) == Number(Printed(n) as real)
  {
    hide ReadNumber, GeneralNat, PrintedNat;
    var m := if n < 0 then Negate(n) else n;
    if n < 0 {
      ReadGeneralNat("-", m, w);
      Regroup("-", GeneralNat(m), w);
    } else {
      ReadGeneralNat("", m, w);
      assert "" + (GeneralNat(m) + w) == GeneralNat(m) + w;
    }
  }

  lemma RoundedExactly(m: nat, unit: nat)
    requires unit > 0
    ensures Rounded(m, unit) * unit == m <==> m % unit == 0
  {
    var q, r := m / unit, m % unit;
    assert m == q * unit + r;
    assert (q + 1) * unit == q * unit + unit;
  }

  /** Printing keeps exactly the integers of at most six significant digits. */
  lemma PrintedExactly(n: int)
    ensures Printed(n) == n <==> SixDigits(n)
  {
    var m := if n < 0 then Negate(n) else n;
    RoundedExactly(m, Ten(if |Digits(m)| > 6 then |Digits(m)| - 6 else 0));
    hide Rounded, Ten, Digits;
  }

  /** Characters of a printed number. */
  predicate NumberChar(c: char) { IsDigit(c) || c == '-' || c == '+' || c == '.' || c == 'e' }

  /** A printed number starts with a digit or a minus sign, and has nothing but digits, signs,
      a point and an exponent mark. */
  lemma GeneralChars(n: int)
    ensures General(n) != "" && (General(n)[0] == '-' || IsDigit(General(n)[0]))
    ensures forall i :: 0 <= i < |General(n)| ==> NumberChar(General(n)[i])
  {
    GeneralNatChars(if n < 0 then Negate(n) else n);
    hide GeneralNat;
  }

  lemma GeneralNatChars(m: nat)
    ensures GeneralNat(m) != "" && IsDigit(GeneralNat(m)[0])
    ensures forall i :: 0 <= i < |GeneralNat(m)| ==> NumberChar(GeneralNat(m)[i])
  {
    DigitsAre(m);
    hide Scientific, Rounded, Digits, Ten;
    if m >= MILLION {
      var k := if |Digits(m)| > 6 then |Digits(m)| - 6 else 0;
      var q := Rounded(m, Ten(k));
      ScientificChars(q, k + 5);
      ScientificChars(MILLION / 10, k + 6);
    }
  }

  lemma ScientificChars(q: nat, e: nat)
    ensures Scientific(q, e) != "" && IsDigit(Scientific(q, e)[0])
    ensures forall i :: 0 <= i < |Scientific(q, e)| ==> NumberChar(Scientific(q, e)[i])
  {
    DigitsAre(q);
    DigitsAre(e);
    StripZerosValue(Digits(q));
    hide Digits, StripZeros, DigitsValue;
  }
}
