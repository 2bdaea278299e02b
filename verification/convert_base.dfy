/** `ts_convert_base` on integers: digits read into a number, and written backwards into a
    fixed buffer. */
module ConvertBase {
  import opened Radix

  /** Integers of a double are exact below this. */
  const EXACT: int := 0x20_0000_0000_0000

  lemma RunStep(s: string, base: int, i: nat)
    requires i <= |s|
    ensures DigitRun(s[i..], base) == if i < |s| && IsDigit(s[i], base) then 1 + DigitRun(s[i + 1..], base) else 0
  {
    if i < |s| { assert s[i..][1..] == s[i + 1..]; }
  }

  lemma EvalSnoc(s: string, base: int, i: nat)
    requires BaseOk(base) && i < |s| && forall j :: 0 <= j <= i ==> IsDigit(s[j], base)
    ensures Eval(s[..i + 1], base) == Shift(Eval(s[..i], base), base, CharToDigit(s[i]))
  {
    assert s[..i + 1][..i] == s[..i];
  }

  /** The parse loop: the value of the digits, and where they end. */
  method ParseInteger(u: string, base: int) returns (result: nat, pos: nat)
    requires BaseOk(base)
    ensures pos == DigitRun(u, base) && result == Eval(u[..pos], base)
  {
    hide CharToDigit, Eval, Shift;
    result, pos := 0, 0;
    assert u[0..] == u;
    EvalNone(base);
    assert u[..0] == "";
    while pos < |u| && u[pos] != '\0' && u[pos] != '.'
      invariant pos <= |u| && pos + DigitRun(u[pos..], base) == DigitRun(u, base)
      invariant forall j :: 0 <= j < pos ==> IsDigit(u[j], base)
      invariant result == Eval(u[..pos], base)
    {
      RunStep(u, base, pos);
      var d := CharToDigit(u[pos]);
      if d < 0 || d >= base { return; }
      EvalSnoc(u, base, pos);
      result := Shifted(result, base, d);
      pos := pos + 1;
    }
    RunStep(u, base, pos);
    NotDigits(base);
  }

  method Shifted(result: nat, base: int, d: nat) returns (r: nat)
    requires BaseOk(base)
    ensures r == Shift(result, base, d)
  {
    r := result * base + d;
  }

  lemma EvalNone(base: int)
    requires BaseOk(base)
    ensures Eval("", base) == 0
  {
  }

  lemma NotDigits(base: int)
    ensures !IsDigit('\0', base) && !IsDigit('.', base)
  {
  }

  function Power2(k: nat): nat { if k == 0 then 1 else 2 * Power2(k - 1) }

  lemma {:induction false} Power2Grows(i: nat, k: nat)
    requires i <= k
    ensures Power2(i) <= Power2(k)
    decreases k
  {
    if i < k { Power2Grows(i, k - 1); }
  }

  lemma Power2At53()
    ensures Power2(53) == EXACT
  {
    assert Power2(13) == 0x2000;
    PowerSum(13, 13);
    PowerSum(26, 26);
    PowerSum(52, 1);
  }

  lemma {:induction false} PowerSum(a: nat, b: nat)
    ensures Power2(a + b) == Power2(a) * Power2(b)
    decreases b
  {
    if b > 0 { PowerSum(a, b - 1); }
  }

  lemma RoomLeft(n: nat, k: nat, v: nat)
    requires n > 0 && n * Power2(k) <= v < EXACT
    ensures k < 53
  {
    Power2At53();
    if k >= 53 {
      Power2Grows(53, k);
      ProductGrows(n, Power2(k));
      assert false;
    }
  }

  lemma ProductGrows(n: nat, p: nat)
    requires n > 0
    ensures n * p >= p
  {
  }

  lemma HalvesFit(n: nat, q: nat, k: nat, v: nat)
    requires n * Power2(k) <= v && 2 * q <= n
    ensures q * Power2(k + 1) <= v
  {
    var p := Power2(k);
    assert Power2(k + 1) == 2 * p;
    assert q * (2 * p) == (2 * q) * p;
    Monotone(2 * q, n, p);
  }

  lemma Monotone(a: nat, b: nat, p: nat)
    requires a <= b
    ensures a * p <= b * p
  {
  }

  lemma DigitsUnfold(n: nat, base: int, tail: string)
    requires BaseOk(base) && n > 0
    ensures Digits(n, base) + tail
      == (if Div(n, base) == 0 then "" else Digits(Div(n, base), base)) + ([DigitToChar(Mod(n, base))] + tail)
  {
    if n < base {
      SmallQuotient(n, base);
    } else {
      QuotientPositive(n, base);
      hide Div, Mod;
      assert Digits(n, base) + tail == Digits(Div(n, base), base) + ([DigitToChar(Mod(n, base))] + tail);
    }
  }

  lemma SmallQuotient(n: nat, base: int)
    requires BaseOk(base) && n < base
    ensures Div(n, base) == 0 && Mod(n, base) == n
  {
    DivisionIs(n, base, 0, n);
  }

  /** The digits of v, written from the end of the buffer; the buffer is never full. */
  method WriteDigits(v: nat, base: int, intBuf: array<char>) returns (intPos: nat)
    requires BaseOk(base) && 0 < v < EXACT && intBuf.Length == 256
    modifies intBuf
    ensures 0 < intPos <= 255 && intBuf[intPos..255] == Digits(v, base) && intBuf[255] == old(intBuf[255])
  {
    hide Div, Mod, Digits, Power2;
    intPos := 255;
    var intPart: nat := v;
    PowerZero();
    assert intBuf[255..255] == "";
    assert Digits(v, base) + "" == Digits(v, base);
    while intPart > 0 && intPos > 0
      invariant 202 <= intPos <= 255
      invariant intPart * Power2(255 - intPos) <= v
      invariant (if intPart == 0 then "" else Digits(intPart, base)) + intBuf[intPos..255] == Digits(v, base)
      invariant intBuf[255] == old(intBuf[255])
    {
      RoomLeft(intPart, 255 - intPos, v);
      ghost var tail := intBuf[intPos..255];
      DigitsUnfold(intPart, base, tail);
      var rem := Mod(intPart, base);
      intPos := intPos - 1;
      intBuf[intPos] := DigitToChar(rem);
      assert intBuf[intPos..255] == [DigitToChar(rem)] + tail;
      var quotient := Div(intPart, base);
      HalvesFit(intPart, quotient, 254 - intPos, v);
      intPart := quotient;
    }
    assert "" + intBuf[intPos..255] == intBuf[intPos..255];
  }

  lemma PowerZero()
    ensures Power2(0) == 1
  {
  }

  /** Copies the buffer from a place to its terminating NUL. */
  method CopyOut(intBuf: array<char>, intPos: nat) returns (resultBuf: string)
    requires intBuf.Length == 256 && intPos <= 255 && intBuf[255] == '\0'
    requires forall j :: intPos <= j < 255 ==> intBuf[j] != '\0'
    ensures resultBuf == intBuf[intPos..255]
  {
    resultBuf := "";
    var i := intPos;
    while intBuf[i] != '\0' && |resultBuf| < 511
      invariant intPos <= i <= 255 && resultBuf == intBuf[intPos..i]
      decreases 255 - i
    {
      resultBuf := resultBuf + [intBuf[i]];
      i := i + 1;
    }
  }

  /** `ts_convert_base`, for a text without a fraction whose value a double holds exactly. */
  method Convert(value: string, fromBase: int, toBase: int) returns (out: string)
    requires BaseOk(fromBase) ==> Whole(value, fromBase) && -EXACT < Meaning(value, fromBase) < EXACT
    ensures !BaseOk(fromBase) || !BaseOk(toBase) ==> out == ""
    ensures BaseOk(fromBase) && BaseOk(toBase) ==> out == Canonical(Meaning(value, fromBase), toBase)
  {
    if fromBase < 2 || fromBase > 36 || toBase < 2 || toBase > 36 { return ""; }
    hide Eval, Digits, DigitRun;
    var negative := value != "" && value[0] == '-';
    var result, pos := ParseInteger(if Signed(value) then value[1..] else value, fromBase);
    if result == 0 {
      ZeroText(toBase);
      return "0";
    }
    var intBuf := new char[256](_ => '\0');
    var intPos := WriteDigits(result, toBase, intBuf);
    NoNul(result, toBase);
    forall j | intPos <= j < 255 ensures intBuf[j] != '\0' {
      assert intBuf[j] == intBuf[intPos..255][j - intPos];
    }
    if negative && intPos > 0 {
      ghost var digits := intBuf[intPos..255];
      intPos := intPos - 1;
      intBuf[intPos] := '-';
      assert intBuf[intPos..255] == "-" + digits;
    }
    out := CopyOut(intBuf, intPos);
  }

  lemma ZeroText(base: int)
    requires BaseOk(base)
    ensures Canonical(0, base) == "0"
  {
  }

  lemma {:induction false} NoNul(n: nat, base: int)
    requires BaseOk(base)
    ensures '\0' !in Digits(n, base)
    decreases n
  {
    hide Div, Mod;
    if n < base {
      DigitBack(n);
    } else {
      DigitBack(Mod(n, base));
      NoNul(Div(n, base), base);
    }
  }

  /** Converting there and back, by the program itself: the canonical form of the input, so the
      input exactly when it is canonical. */
  method ConvertTwice(value: string, fromBase: int, toBase: int) returns (there: string, back: string)
    requires BaseOk(fromBase) && BaseOk(toBase)
    requires Whole(value, fromBase) && -EXACT < Meaning(value, fromBase) < EXACT
    ensures Meaning(there, toBase) == Meaning(value, fromBase)
    ensures back == value <==> CanonicalText(value, fromBase)
  {
    there := Convert(value, fromBase, toBase);
    MeaningOfCanonical(Meaning(value, fromBase), toBase);
    back := Convert(there, toBase, fromBase);
    ThereAndBack(value, fromBase, toBase);
  }
}
