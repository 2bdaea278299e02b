/** Integers written in a base from 2 to 36. */
module Radix {

  function CharToDigit(c: char): int {
    if '0' <= c <= '9' then c as int - 48
    else if 'A' <= c <= 'Z' then c as int - 55
    else if 'a' <= c <= 'z' then c as int - 87
    else -1
  }

  function DigitToChar(d: int): char
    requires 0 <= d < 36
  {
    if d < 10 then (48 + d) as char else (55 + d) as char
  }

  predicate IsDigit(c: char, base: int) { 0 <= CharToDigit(c) < base }

  predicate BaseOk(base: int) { 2 <= base <= 36 }

  /** The length of the digits text starts with. */
  function DigitRun(s: string, base: int): (k: nat)
    ensures k <= |s| && (forall i :: 0 <= i < k ==> IsDigit(s[i], base))
    ensures k < |s| ==> !IsDigit(s[k], base)
  {
    if s == "" || !IsDigit(s[0], base) then 0 else 1 + DigitRun(s[1..], base)
  }

  /** Positional value, the last digit counting ones. */
  function Eval(s: string, base: int): nat
    requires BaseOk(base) && forall i :: 0 <= i < |s| ==> IsDigit(s[i], base)
  {
    if s == "" then 0
    else
      assert IsDigit(s[|s| - 1], base);
      Shift(Eval(s[..|s| - 1], base), base, CharToDigit(s[|s| - 1]))
  }

  /** n with the digit d written behind it. */
  function Shift(n: nat, base: int, d: nat): nat
    requires BaseOk(base)
  {
    n * base + d
  }

  predicate Signed(s: string) { s != "" && (s[0] == '-' || s[0] == '+') }

  function Unsigned(s: string): string { if Signed(s) then s[1..] else s }

  function Minus(n: int): int { -n }

  /** The integer a text begins with. */
  function Meaning(s: string, base: int): int
    requires BaseOk(base)
  {
    var u := Unsigned(s);
    var n := Eval(u[..DigitRun(u, base)], base);
    if s != "" && s[0] == '-' then Minus(n) else n
  }

  /** A text that ends, or goes on with something else than a point, after its digits. */
  predicate Whole(s: string, base: int) {
    var u := Unsigned(s);
    var k := DigitRun(u, base);
    k < |u| ==> u[k] != '.'
  }

  function Digits(n: nat, base: int): (r: string)
    requires BaseOk(base)
    ensures r != ""
    decreases n
  {
    if n < base then [DigitToChar(n)] else Digits(Div(n, base), base) + [DigitToChar(Mod(n, base))]
  }

  function Div(n: nat, base: int): (q: nat)
    requires BaseOk(base)
    ensures n > 0 ==> q < n
    ensures 2 * q <= n
  {
    DivSmall(n, base);
    n / base
  }

  function Mod(n: nat, base: int): (r: nat)
    requires BaseOk(base)
    ensures r < base && n == Div(n, base) * base + r
  {
    n % base
  }

  lemma DivSmall(n: nat, base: int)
    requires base >= 2
    ensures n / base >= 0 && 2 * (n / base) <= n
  {
    var q := n / base;
    assert n == q * base + n % base;
    assert q * base >= q * 2;
  }

  /** The canonical text of an integer. */
  function Canonical(v: int, base: int): string
    requires BaseOk(base)
  {
    if v < 0 then "-" + Digits(Minus(v), base) else Digits(v, base)
  }

  lemma DigitBack(d: int)
    requires 0 <= d < 36
    ensures CharToDigit(DigitToChar(d)) == d
    ensures DigitToChar(d) != '-' && DigitToChar(d) != '+' && DigitToChar(d) != '\0' && DigitToChar(d) != '.'
  {
  }

  ghost predicate DigitsOnly(s: string, base: int) {
    forall i :: 0 <= i < |s| ==> IsDigit(s[i], base)
  }

  /** Upper-case digits without a leading zero. */
  ghost predicate Plain(s: string, base: int) {
    && s != "" && DigitsOnly(s, base)
    && (forall i :: 0 <= i < |s| ==> s[i] == DigitToChar36(CharToDigit(s[i])))
    && (s[0] == '0' ==> |s| == 1)
  }

  function DigitToChar36(d: int): char { if 0 <= d < 36 then DigitToChar(d) else '?' }

  lemma {:induction false} DigitsArePlain(n: nat, base: int)
    requires BaseOk(base)
    ensures Plain(Digits(n, base), base) && Eval(Digits(n, base), base) == n
    ensures Digits(n, base)[0] == '0' ==> n == 0
    decreases n
  {
    hide Div, Mod;
    if n < base {
      DigitBack(n);
      var s := Digits(n, base);
      assert s[..0] == "";
      assert Eval(s, base) == Eval("", base) * base + n;
    } else {
      var q, r := Div(n, base), Mod(n, base);
      DigitsArePlain(q, base);
      DigitBack(r);
      var s := Digits(n, base);
      assert s[..|s| - 1] == Digits(q, base);
      QuotientPositive(n, base);
    }
  }

  lemma QuotientPositive(n: nat, base: int)
    requires BaseOk(base) && n >= base
    ensures Div(n, base) > 0
  {
    hide Div;
    assert n == Div(n, base) * base + Mod(n, base);
  }

  lemma {:induction false} RunIs(s: string, base: int)
    requires DigitsOnly(s, base)
    ensures DigitRun(s, base) == |s|
  {
    if s != "" { RunIs(s[1..], base); }
  }

  /** Reading the text of an integer gives the integer back. */
  lemma MeaningOfCanonical(v: int, base: int)
    requires BaseOk(base)
    ensures Meaning(Canonical(v, base), base) == v && Whole(Canonical(v, base), base)
  {
    var n := if v < 0 then Minus(v) else v;
    var d := Digits(n, base);
    DigitsArePlain(n, base);
    RunIs(d, base);
    assert IsDigit(d[0], base);
    assert Unsigned(Canonical(v, base)) == d;
    assert d[..|d|] == d;
  }

  ghost predicate CanonicalText(s: string, base: int) {
    if s != "" && s[0] == '-' then Plain(s[1..], base) && s[1] != '0' else Plain(s, base)
  }

  /** Plain digits are the text of their value. */
  lemma {:induction false} PlainIsDigits(s: string, base: int)
    requires BaseOk(base) && Plain(s, base)
    ensures Digits(Eval(s, base), base) == s && (s[0] != '0' ==> Eval(s, base) > 0)
    decreases |s|
  {
    var last := CharToDigit(s[|s| - 1]);
    var front := s[..|s| - 1];
    assert s == front + [s[|s| - 1]];
    if front == "" {
      OneDigit(s, base);
    } else {
      FrontIsPlain(s, base);
      PlainIsDigits(front, base);
      hide Plain, CharToDigit;
      var q := Eval(front, base);
      Multiples(q, base);
      DivisionIs(Shift(q, base, last), base, q, last);
    }
  }

  lemma OneDigit(s: string, base: int)
    requires BaseOk(base) && |s| == 1 && Plain(s, base)
    ensures Digits(Eval(s, base), base) == s && (s[0] != '0' ==> Eval(s, base) > 0)
  {
    assert s[..0] == "";
    assert Eval(s, base) == CharToDigit(s[0]);
  }

  lemma FrontIsPlain(s: string, base: int)
    requires Plain(s, base) && |s| > 1
    ensures var front := s[..|s| - 1];
      && Plain(front, base) && front[0] == s[0] != '0'
      && var last := CharToDigit(s[|s| - 1]); 0 <= last < base && (last < 36 ==> s[|s| - 1] == DigitToChar(last))
  {
  }

  lemma DivisionIs(n: nat, base: int, q: nat, r: nat)
    requires BaseOk(base) && n == Shift(q, base, r) && r < base
    ensures Div(n, base) == q && Mod(n, base) == r
  {
    hide Div;
    var d := Div(n, base) - q;
    assert d * base == r - Mod(n, base);
    Multiples(d, base);
  }

  lemma Multiples(d: int, base: int)
    requires BaseOk(base)
    ensures d > 0 ==> d * base >= base
    ensures d < 0 ==> d * base <= -base
  {
  }

  lemma CanonicalIsText(v: int, base: int)
    requires BaseOk(base)
    ensures CanonicalText(Canonical(v, base), base)
  {
    var n := if v < 0 then Minus(v) else v;
    DigitsArePlain(n, base);
    hide Digits, Eval;
    assert IsDigit(Digits(n, base)[0], base);
    if v < 0 { assert Canonical(v, base)[1..] == Digits(n, base); }
  }

  lemma TextIsCanonical(s: string, base: int)
    requires BaseOk(base) && CanonicalText(s, base)
    ensures Canonical(Meaning(s, base), base) == s
  {
    var u := Unsigned(s);
    assert s[0] == '-' || IsDigit(s[0], base);
    RunIs(u, base);
    PlainIsDigits(u, base);
    assert u[..|u|] == u;
  }

  /** A text is the text of some integer, namely of its own meaning, exactly when it has no plus
      sign, no leading zero, no minus zero, no lower-case digit and nothing after its digits. */
  lemma CanonicalExactly(s: string, base: int)
    requires BaseOk(base)
    ensures Canonical(Meaning(s, base), base) == s <==> CanonicalText(s, base)
  {
    if Canonical(Meaning(s, base), base) == s { CanonicalIsText(Meaning(s, base), base); }
    if CanonicalText(s, base) { TextIsCanonical(s, base); }
  }

  /** Converting to another base and back gives the canonical form, so the text itself exactly
      when it was canonical. */
  lemma ThereAndBack(s: string, from: int, to: int)
    requires BaseOk(from) && BaseOk(to)
    ensures var there := Canonical(Meaning(s, from), to);
      var back := Canonical(Meaning(there, to), from);
      && back == Canonical(Meaning(s, from), from)
      && Meaning(back, from) == Meaning(s, from)
      && (back == s <==> CanonicalText(s, from))
  {
    MeaningOfCanonical(Meaning(s, from), to);
    MeaningOfCanonical(Meaning(s, from), from);
    CanonicalExactly(s, from);
  }

  /** Digits are 0 to 9 and then the letters, of either case; anything else is no digit. */
  lemma DigitsAndLetters(k: nat)
    requires k < 26
    ensures k < 10 ==> CharToDigit((48 + k) as char) == k
    ensures CharToDigit((65 + k) as char) == CharToDigit((97 + k) as char) == 10 + k
    ensures DigitToChar(if k < 10 then k else 10) == if k < 10 then (48 + k) as char else 'A'
    ensures DigitToChar(10 + k) == (65 + k) as char
    ensures CharToDigit(' ') == CharToDigit('/') == CharToDigit(':') == CharToDigit('@') == CharToDigit('[') == -1
  {
  }

  function Power(base: nat, k: nat): nat { if k == 0 then 1 else base * Power(base, k - 1) }

  /** Digits in front weigh more, by the power of the base that the digits behind them give. */
  lemma {:induction false} EvalConcat(a: string, b: string, base: int)
    requires BaseOk(base) && DigitsOnly(a, base) && DigitsOnly(b, base)
    ensures DigitsOnly(a + b, base) && Eval(a + b, base) == Eval(a, base) * Power(base, |b|) + Eval(b, base)
    decreases |b|
  {
    if b == "" {
      assert a + b == a;
    } else {
      var front := b[..|b| - 1];
      assert (a + b)[..|a + b| - 1] == a + front;
      EvalConcat(a, front, base);
      Weighed(Eval(a, base), Power(base, |b| - 1), Eval(front, base), base, CharToDigit(b[|b| - 1]));
    }
  }

  lemma Weighed(x: nat, p: nat, y: nat, base: int, d: nat)
    requires BaseOk(base)
    ensures Shift(x * p + y, base, d) == x * (base * p) + Shift(y, base, d)
  {
    assert (x * p) * base == x * (base * p);
  }

  /** For example: eleven in base 2, 255 in base 16 and in lower case. */
  lemma KnownTexts()
    ensures Canonical(11, 2) == "1011" && Canonical(-255, 16) == "-FF" && Meaning("ff", 16) == 255
  {
    Eleven();
    TwoHundredAndFiftyFive();
    hide Digits, Meaning;
    assert Minus(-255) == 255 && "-" + "FF" == "-FF";
  }

  lemma Eleven()
    ensures Digits(11, 2) == "1011"
  {
    TwoDigits(11, 2, 5, 1);
    TwoDigits(5, 2, 2, 1);
    TwoDigits(2, 2, 1, 0);
    assert Digits(1, 2) == "1";
    hide Digits;
  }

  /** A number written as its quotient's digits and its last digit. */
  lemma TwoDigits(n: nat, base: int, q: nat, r: nat)
    requires BaseOk(base) && n == q * base + r && r < base <= n
    ensures Digits(n, base) == Digits(q, base) + [DigitToChar(r)]
  {
    DivisionIs(n, base, q, r);
    hide Div, Mod;
  }

  lemma TwoHundredAndFiftyFive()
    ensures Digits(255, 16) == "FF" && Meaning("ff", 16) == 255
  {
    TwoDigits(255, 16, 15, 15);
    assert Digits(15, 16) == "F";
    RunIs("ff", 16);
    OneMore("", 'f', 16);
    OneMore("f", 'f', 16);
    hide Digits, Eval, DigitRun;
    assert "" + ['f'] == "f" && "f" + ['f'] == "ff" && Unsigned("ff") == "ff" && "ff"[..2] == "ff";
    assert Shift(15, 16, 15) == 255;
  }

  lemma OneMore(s: string, c: char, base: int)
    requires BaseOk(base) && DigitsOnly(s, base) && IsDigit(c, base)
    ensures DigitsOnly(s + [c], base) && Eval(s + [c], base) == Shift(Eval(s, base), base, CharToDigit(c))
    ensures Eval("", base) == 0
  {
    assert (s + [c])[..|s|] == s;
  }
}
