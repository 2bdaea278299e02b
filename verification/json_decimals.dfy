/** What a number in JSON text is worth, for every decimal text: stated by multiplying the value
    back to an integer, in the text's own digits. */
module JsonDecimals {
  import opened Basics
  import opened JsonText
  import opened JsonNumbers
  import opened JsonRoundTrip

  /** An exponent as it is written: its mark, its sign or none, and its digits. */
  datatype Exp = NoExp | Exp(mark: char, sign: string, digits: string)

  ghost predicate ExpOk(e: Exp) {
    e.Exp? ==>
      && (e.mark == 'e' || e.mark == 'E') && (e.sign == "" || e.sign == "+" || e.sign == "-")
      && e.digits != "" && AllDigits(e.digits)
  }

  function ExpText(e: Exp): string { if e.NoExp? then "" else [e.mark] + (e.sign + e.digits) }

  /** How far a written exponent moves the point, to the right and to the left. */
  ghost function Right(e: Exp): nat
    requires ExpOk(e)
  {
    if e.Exp? && e.sign != "-" then DigitsValue(e.digits) else 0
  }

  ghost function Left(e: Exp): nat
    requires ExpOk(e)
  {
    if e.Exp? && e.sign == "-" then DigitsValue(e.digits) else 0
  }

  lemma ExponentReads(e: Exp, rest: string)
    requires ExpOk(e) && Ends(rest)
    ensures var t := ExpText(e) + rest;
      Exponent(t) == Right(e) - Left(e) && (t == "" || (!IsDigit(t[0]) && t[0] != '.'))
  {
    if e.Exp? {
      WrittenExponent(e.mark, e.sign, e.digits, rest);
    } else {
      ExponentNone(rest);
      assert "" + rest == rest;
    }
  }

  lemma WrittenExponent(mark: char, sign: string, d: string, rest: string)
    requires (mark == 'e' || mark == 'E') && (sign == "" || sign == "+" || sign == "-") && d != "" && AllDigits(d)
    requires Ends(rest)
    ensures var n: int := DigitsValue(d);
      Exponent([mark] + (sign + d) + rest) == if sign == "-" then -n else n
  {
    DigitCountExact(d, rest);
    Cut(d, rest);
    assert (d + rest)[0] == d[0] && IsDigit(d[0]);
    Regroup(sign, d, rest);
    Regroup([mark], sign + d, rest);
    MarkOff(mark, sign + (d + rest));
    SignOff(sign, d + rest);
    hide DigitCount, DigitsValue, Head, Tail, AllDigits, Ends;
    ExponentIsThat([mark] + (sign + (d + rest)), mark, sign, d + rest, d);
  }

  lemma SignOff(sign: string, u: string)
    requires (sign == "" || sign == "+" || sign == "-") && u != "" && IsDigit(u[0])
    ensures var s := sign + u;
      u == (if Head(s) == '-' || Head(s) == '+' then Tail(s) else s) && (Head(s) == '-') == (sign == "-")
  {
    if sign == "" {
      assert sign + u == u;
    } else {
      assert sign == [sign[0]];
      MarkOff(sign[0], u);
    }
  }

  /** The reader's own steps, on a text whose parts are known. */
  lemma ExponentIsThat(t: string, mark: char, sign: string, u: string, d: string)
    requires (mark == 'e' || mark == 'E') && Head(t) == mark && Tail(t) == sign + u && AllDigits(d)
    requires var s := sign + u;
      u == (if Head(s) == '-' || Head(s) == '+' then Tail(s) else s) && (Head(s) == '-') == (sign == "-")
    requires DigitCount(u) == |d| && u[..|d|] == d
    ensures var n: int := DigitsValue(d); Exponent(t) == if sign == "-" then -n else n
  {
    hide DigitCount, DigitsValue, Head, Tail;
  }

  lemma MarkOff(c: char, t: string)
    ensures Head([c] + t) == c && Tail([c] + t) == t
  {
  }

  lemma PointReads(f: string, e: string)
    requires AllDigits(f) && (e == "" || !IsDigit(e[0]))
    ensures Fraction("." + (f + e)) == f && AfterFraction("." + (f + e)) == e
  {
    var v := "." + (f + e);
    DigitCountExact(f, e);
    hide DigitCount;
    assert v[1..] == f + e && v[1..1 + |f|] == f && v[1 + |f|..] == e;
  }

  /** x is n times q over p, without dividing. */
  ghost predicate Ratio(x: real, n: int, q: nat, p: nat) { x * p as real == n as real * q as real }

  /** Dividing by a power of ten is undone by multiplying. */
  lemma ScaledBack(n: int, right: nat, left: nat)
    ensures Ratio(Scaled(n, right - left), n, Ten(right), Ten(left))
  {
    hide *;
    if right >= left { ScaledUpBack(n, right - left, left); } else { ScaledDownBack(n, left - right, right); }
  }

  lemma ScaledUpBack(n: int, k: nat, left: nat)
    ensures Ratio(Scaled(n, k), n, Ten(k + left), Ten(left))
  {
    hide Ten, Ratio;
    TenAdds(k, left);
    Integers(n, Ten(k), Ten(left), Ten(k + left));
  }

  lemma ScaledDownBack(n: int, k: int, right: nat)
    requires k > 0
    ensures Ratio(Scaled(n, -k), n, Ten(right), Ten(k + right))
  {
    hide Ten, Ratio;
    TenAdds(k, right);
    Quotients(n, Ten(k), Ten(right), Ten(k + right));
  }

  lemma AsReal(a: int, b: int)
    ensures (a * b) as real == a as real * b as real
  {
  }

  lemma Integers(n: int, a: nat, b: nat, c: nat)
    requires c == a * b
    ensures Ratio((n * a) as real, n, c, b)
  {
    AsReal(n, a);
    AsReal(a, b);
    Reorder(n as real, a as real, b as real);
  }

  lemma Quotients(n: int, a: nat, b: nat, c: nat)
    requires a > 0 && c == a * b
    ensures Ratio(n as real / a as real, n, b, c)
  {
    Undivide(n as real, a as real);
    AsReal(a, b);
    Reorder(n as real / a as real, a as real, b as real);
  }

  lemma Undivide(x: real, a: real)
    requires a > 0.0
    ensures x / a * a == x
  {
  }

  lemma Reorder(x: real, a: real, b: real)
    ensures x * (a * b) == (x * a) * b
  {
  }

  /** The digits in front of the point and behind it. */
  function WithPoint(d: string, point: bool, f: string): string { d + if point then "." + f else "" }

  function DecimalText(negative: bool, d: string, point: bool, f: string, e: Exp): string {
    (if negative then "-" else "") + WithPoint(d, point, f) + ExpText(e)
  }

  /** Every decimal text, behind any white space and before text that ends it, parses to its
      value: the digits in front of the point and behind it as one integer, moved by the number
      of decimals and by the exponent. */
  lemma DecimalValue(w: string, negative: bool, d: string, point: bool, f: string, e: Exp, rest: string)
    returns (x: real)
    requires AllWs(w) && Ends(rest) && d != "" && AllDigits(d) && AllDigits(f) && (!point ==> f == "") && ExpOk(e)
    ensures Parse(w + (DecimalText(negative, d, point, f, e) + rest)) == Done(Num(x)) && AllDigits(d + f)
    ensures var n: int := DigitsValue(d + f);
      Ratio(x, if negative then -n else n, Ten(Right(e)), Ten(|f| + Left(e)))
  {
    var sign := if negative then "-" else "";
    hide *;
    x := DecimalReads(negative, d, point, f, e, rest);
    NumberStarts(w, sign, d, AfterDigits(point, f, ExpText(e) + rest));
    TextIs(negative, d, point, f, e, rest);
  }

  lemma DecimalReads(negative: bool, d: string, point: bool, f: string, e: Exp, rest: string) returns (x: real)
    requires Ends(rest) && d != "" && AllDigits(d) && AllDigits(f) && (!point ==> f == "") && ExpOk(e)
    ensures ReadNumber((if negative then "-" else "") + (d + AfterDigits(point, f, ExpText(e) + rest))) == Number(x)
    ensures AllDigits(d + f)
    ensures var n: int := DigitsValue(d + f);
      Ratio(x, if negative then -n else n, Ten(Right(e)), Ten(|f| + Left(e)))
  {
    hide *;
    var sign := if negative then "-" else "";
    var v := AfterDigits(point, f, ExpText(e) + rest);
    PartsRead(d, point, f, e, rest);
    ReadParts(sign, d, v);
    NumberIs(negative, d, f, Right(e) - Left(e));
    x := DecimalBack(negative, DigitsValue(d + f), Right(e), Left(e), |f|);
  }

  lemma TextIs(negative: bool, d: string, point: bool, f: string, e: Exp, rest: string)
    ensures DecimalText(negative, d, point, f, e) + rest
      == (if negative then "-" else "") + (d + AfterDigits(point, f, ExpText(e) + rest))
  {
    hide ExpText;
    var p, sign := if point then "." + f else "", if negative then "-" else "";
    Regroup(p, ExpText(e), rest);
    Regroup(d, p + ExpText(e), rest);
    Regroup(d, p, ExpText(e));
    Regroup(sign, d + p, ExpText(e));
    Regroup(sign, d + p + ExpText(e), rest);
  }

  lemma DecimalBack(negative: bool, n: int, right: nat, left: nat, decimals: nat) returns (x: real)
    ensures x == Scaled(WithSign(negative, n), right - left - decimals)
    ensures Ratio(x, if negative then -n else n, Ten(right), Ten(decimals + left))
  {
    assert WithSign(negative, n) == if negative then -n else n;
    hide *;
    var m := if negative then -n else n;
    x := Scaled(m, right - (decimals + left));
    ScaledBack(m, right, decimals + left);
  }

  function AfterDigits(point: bool, f: string, et: string): string { (if point then "." + f else "") + et }

  lemma PartsRead(d: string, point: bool, f: string, e: Exp, rest: string)
    requires d != "" && AllDigits(d) && AllDigits(f) && (!point ==> f == "") && ExpOk(e) && Ends(rest)
    ensures var v := AfterDigits(point, f, ExpText(e) + rest);
      && (v == "" || !IsDigit(v[0])) && Fraction(v) == f && Exponent(AfterFraction(v)) == Right(e) - Left(e)
    ensures AllDigits(d + f)
  {
    var et := ExpText(e) + rest;
    ExponentReads(e, rest);
    hide Exponent, ExpText, Right, Left;
    if point {
      PointReads(f, et);
      Regroup(".", f, et);
      assert ("." + (f + et))[0] == '.';
    } else {
      NoPoint(et);
      assert "" + et == et;
    }
  }

  lemma NoPoint(e: string)
    requires e == "" || (!IsDigit(e[0]) && e[0] != '.')
    ensures Fraction(e) == "" && AfterFraction(e) == e
  {
  }

  lemma NumberStarts(w: string, sign: string, d: string, v: string)
    requires AllWs(w) && (sign == "" || sign == "-") && d != "" && AllDigits(d)
    requires ReadNumber(sign + (d + v)).Number?
    ensures Parse(w + (sign + (d + v))) == Done(Num(ReadNumber(sign + (d + v)).x))
  {
    var t := sign + (d + v);
    hide ReadNumber, Parse;
    assert t[0] == if sign == "-" then '-' else d[0];
    SkipWsOver(w, t);
    SkipNothing(t);
    NumberBehind(w + t, t);
  }

  lemma NumberBehind(u: string, t: string)
    requires SkipWs(u) == t && t != "" && (t[0] == '-' || IsDigit(t[0])) && ReadNumber(t).Number?
    ensures Parse(u) == Done(Num(ReadNumber(t).x))
  {
    hide ReadNumber;
  }

  lemma Only(x: real, y: real, n: int, p: nat, q: nat)
    requires Ratio(x, n, q, p) && Ratio(y, n, q, p) && p > 0
    ensures x == y
  {
    var z := x - y;
    assert z * p as real == 0.0;
  }

  lemma Example(w: string, negative: bool, d: string, point: bool, f: string, e: Exp, y: real)
    requires AllWs(w) && d != "" && AllDigits(d) && AllDigits(f) && (!point ==> f == "") && ExpOk(e) && AllDigits(d + f)
    requires var n: int := DigitsValue(d + f);
      Ratio(y, if negative then -n else n, Ten(Right(e)), Ten(|f| + Left(e)))
    ensures Parse(w + DecimalText(negative, d, point, f, e)) == Done(Num(y))
  {
    hide *;
    NothingBehind(DecimalText(negative, d, point, f, e));
    var x := DecimalValue(w, negative, d, point, f, e, "");
    var n: int := DigitsValue(d + f);
    TenPositive(|f| + Left(e));
    Only(x, y, if negative then -n else n, Ten(|f| + Left(e)), Ten(Right(e)));
  }

  lemma NothingBehind(t: string)
    ensures t + "" == t && Ends("")
  {
  }

  lemma TenPositive(k: nat)
    ensures Ten(k) > 0
  {
  }

  /** For example. */
  lemma Examples()
    ensures Parse("1.5") == Done(Num(1.5)) && Parse("-1.5") == Done(Num(-1.5))
    ensures Parse("\t25e-1") == Done(Num(2.5)) && Parse(" 3E2") == Done(Num(300.0))
  {
    assert Ten(0) == 1 && Ten(1) == 10 && Ten(2) == 100;
    Values();
    ExampleTexts();
    assert Ratio(1.5, 15, 1, 10) && Ratio(-1.5, -15, 1, 10) && Ratio(2.5, 25, 1, 10) && Ratio(300.0, 3, 100, 1);
    hide *;
    Example("", false, "1", true, "5", NoExp, 1.5);
    Example("", true, "1", true, "5", NoExp, -1.5);
    Example("\t", false, "25", false, "", Exp('e', "-", "1"), 2.5);
    Example(" ", false, "3", false, "", Exp('E', "", "2"), 300.0);
  }

  lemma ExampleTexts()
    ensures "" + DecimalText(false, "1", true, "5", NoExp) == "1.5"
    ensures "" + DecimalText(true, "1", true, "5", NoExp) == "-1.5"
    ensures "\t" + DecimalText(false, "25", false, "", Exp('e', "-", "1")) == "\t25e-1"
    ensures " " + DecimalText(false, "3", false, "", Exp('E', "", "2")) == " 3E2"
    ensures AllWs("") && AllWs("\t") && AllWs(" ") && AllDigits("1") && AllDigits("5") && AllDigits("25")
    ensures AllDigits("3") && AllDigits("2") && AllDigits("")
    ensures ExpOk(NoExp) && ExpOk(Exp('e', "-", "1")) && ExpOk(Exp('E', "", "2"))
    ensures Right(NoExp) == 0 && Left(NoExp) == 0
    ensures Left(Exp('e', "-", "1")) == 1 && Right(Exp('e', "-", "1")) == 0
    ensures Left(Exp('E', "", "2")) == 0 && Right(Exp('E', "", "2")) == 2
  {
    Values();
  }

  lemma Values()
    ensures DigitsValue("15") == 15 && DigitsValue("25") == 25
    ensures "1" + "5" == "15" && "25" + "" == "25" && "3" + "" == "3"
    ensures DigitsValue("3") == 3 && DigitsValue("1") == 1 && DigitsValue("2") == 2
  {
    assert "15"[..1] == "1" && "25"[..1] == "2";
    assert "1"[..0] == "" && "2"[..0] == "" && "3"[..0] == "";
  }
}
