/** JSON texts: how the printers lay a value out, and how the parser reads the rest of a
    text.  A text is what follows a `char*`; the empty text is its terminating NUL.  A Dafny `char`
    stands for one byte of a C string, whatever the encoding: sizes count bytes. */
module JsonText {
  import opened Basics

  /** A number is the real a double stands for.  An object is its bindings, listed: when printed,
      in whatever order its hash map enumerates them; when parsed, in the order they were set. */
  datatype Json =
    | Null
    | Bool(b: bool)
    | Num(x: real)
    | Str(s: string)
    | Arr(items: seq<Json>)
    | Obj(fields: seq<Field>)

  datatype Field = Field(key: string, value: Json)

  const STRING_MAX: nat := 4095
  const KEY_MAX: nat := 1023

  // ---------- reading ----------

  function Head(t: string): char { if t == "" then '\0' else t[0] }

  function Tail(t: string): string { if t == "" then "" else t[1..] }

  predicate IsWs(c: char) { c == ' ' || c == '\t' || c == '\n' || c == '\r' }

  predicate IsDigit(c: char) { '0' <= c <= '9' }

  predicate IsOpen(c: char) { c == '[' || c == '{' }

  predicate IsClose(c: char) { c == ']' || c == '}' }

  function SkipWs(t: string): (r: string)
    ensures |r| <= |t|
  {
    if t != "" && IsWs(t[0]) then SkipWs(t[1..]) else t
  }

  function Unescape(c: char): char {
    match c
    case 'n' => '\n'
    case 't' => '\t'
    case 'r' => '\r'
    case _ => c
  }

  /** The characters up to a closing quote, the end, or a full buffer; and what is left. */
  function ReadQuoted(t: string, room: nat): (r: (string, string))
    ensures |r.1| <= |t|
  {
    if Head(t) == '\0' || Head(t) == '"' || room == 0 then ("", t)
    else if Head(t) == '\\' then
      var (more, rest) := ReadQuoted(Tail(Tail(t)), room - 1);
      ([Unescape(Head(Tail(t)))] + more, rest)
    else
      var (more, rest) := ReadQuoted(Tail(t), room - 1);
      ([Head(t)] + more, rest)
  }

  /** The reader comes to a backslash that ends the text, and steps past the NUL behind it. */
  predicate CutOff(t: string, room: nat) {
    if Head(t) == '\0' || Head(t) == '"' || room == 0 then false
    else if Head(t) == '\\' then Head(Tail(t)) == '\0' || CutOff(Tail(Tail(t)), room - 1)
    else CutOff(Tail(t), room - 1)
  }

  /** A key is followed by a character, which the parser steps over: its closing quote, or the
      next one of a key too long for the buffer. */
  predicate KeyEnds(t: string) { !CutOff(t, KEY_MAX) && Head(ReadQuoted(t, KEY_MAX).1) != '\0' }

  /** `ts_string_new` copies up to the first NUL. */
  function CutNul(s: string): string {
    if s == "" || s[0] == '\0' then "" else [s[0]] + CutNul(s[1..])
  }

  /** The length of the element at the start of t: bracket depth is tracked, quotes are
      not looked at. */
  function ElementLength(t: string, depth: nat): (n: nat)
    ensures n <= |t|
  {
    var c := Head(t);
    if c == '\0' then 0
    else if IsClose(c) && depth == 0 then 0
    else if c == ',' && depth == 0 then 0
    else 1 + ElementLength(Tail(t), if IsOpen(c) then depth + 1 else if IsClose(c) then depth - 1 else depth)
  }

  function DigitCount(t: string): (n: nat)
    ensures n <= |t| && forall i :: 0 <= i < n ==> IsDigit(t[i])
  {
    if t == "" || !IsDigit(t[0]) then 0 else 1 + DigitCount(t[1..])
  }

  function DigitValue(c: char): (d: nat)
    requires IsDigit(c)
    ensures d < 10
  {
    c as int - 48
  }

  predicate AllDigits(d: string) { forall i :: 0 <= i < |d| ==> IsDigit(d[i]) }

  function DigitsValue(t: string): nat
    requires AllDigits(t)
  {
    if t == "" then 0 else 10 * DigitsValue(t[..|t| - 1]) + DigitValue(t[|t| - 1])
  }

  function Ten(k: nat): (r: nat)
    ensures r > 0
  {
    if k == 0 then 1 else 10 * Ten(k - 1)
  }

  /** n times ten to the e. */
  function Scaled(n: int, e: int): real {
    if e >= 0 then (n * Ten(e)) as real else n as real / Ten(-e) as real
  }

  /** The digits of a decimal fraction, if one comes next, ... */
  function Fraction(t: string): (f: string)
    ensures AllDigits(f)
  {
    if Head(t) == '.' then t[1..1 + DigitCount(t[1..])] else ""
  }

  /** ... what follows them, ... */
  function AfterFraction(t: string): string {
    if Head(t) == '.' then t[1 + DigitCount(t[1..])..] else t
  }

  /** ... and the exponent that comes next, or zero. */
  function Exponent(t: string): int {
    if Head(t) != 'e' && Head(t) != 'E' then 0
    else
      var s := Tail(t);
      var u := if Head(s) == '-' || Head(s) == '+' then Tail(s) else s;
      var n: int := DigitsValue(u[..DigitCount(u)]);
      if Head(s) == '-' then -n else n
  }

  /** strtod on a decimal number, before its value is rounded to a double; NoNumber when it
      consumes nothing. */
  datatype Number = NoNumber | Number(x: real)

  function WithSign(negative: bool, n: int): int { if negative then -n else n }

  /** The number with integer digits d, decimal digits f and exponent e. */
  function NumberOf(negative: bool, d: string, f: string, e: int): Number
    requires AllDigits(d) && AllDigits(f)
  {
    if d == "" && f == "" then NoNumber
    else
      assert AllDigits(d + f);
      Number(Scaled(WithSign(negative, DigitsValue(d + f)), e - |f|))
  }

  function ReadNumber(t: string): Number {
    var u := if Head(t) == '-' then Tail(t) else t;
    var k := DigitCount(u);
    NumberOf(Head(t) == '-', u[..k], Fraction(u[k..]), Exponent(AfterFraction(u[k..])))
  }

  predicate StartsWith(t: string, lit: string) { |lit| <= |t| && t[..|lit|] == lit }

  /** `ts_hashmap_set` on the bindings: the last value of a key wins, in its first place. */
  function SetField(fields: seq<Field>, key: string, value: Json): seq<Field> {
    if fields == [] then [Field(key, value)]
    else if fields[0].key == key then [Field(key, value)] + fields[1..]
    else [fields[0]] + SetField(fields[1..], key, value)
  }

  /** A parse ends with a value, or its loop comes back to the same place for ever, or it steps
      past the NUL of its text, after which C leaves open what it does. */
  datatype Result = Done(value: Json) | Hangs | Overruns

  function Parse(text: string): Result
    decreases |text|, 1, 0
  {
    var t := SkipWs(text);
    if StartsWith(t, "null") then Done(Null)
    else if StartsWith(t, "true") then Done(Bool(true))
    else if StartsWith(t, "false") then Done(Bool(false))
    else if (Head(t) == '-' || IsDigit(Head(t))) && ReadNumber(t).Number? then Done(Num(ReadNumber(t).x))
    else if Head(t) == '"' then
      if CutOff(Tail(t), STRING_MAX) then Overruns else Done(Str(CutNul(ReadQuoted(Tail(t), STRING_MAX).0)))
    else if Head(t) == '[' then ParseItems(Tail(t), [])
    else if Head(t) == '{' then ParseFields(Tail(t), [])
    else Done(Null)
  }

  /** What follows an element: white space and one comma, if they are there. */
  function AfterElement(t: string): (r: string)
    ensures |r| <= |t|
  {
    var u := SkipWs(t);
    if Head(u) == ',' then Tail(u) else u
  }

  function ParseItems(t: string, items: seq<Json>): Result
    decreases |t| + 1, 0, 0
  {
    if Head(t) == '\0' || Head(t) == ']' then Done(Arr(items))
    else
      var u := SkipWs(t);
      if Head(u) == ']' then Done(Arr(items))
      else
        var k := ElementLength(u, 0);
        match Parse(u[..k])
        case Done(v) =>
          var rest := AfterElement(u[k..]);
          if |rest| == |t| then Hangs else ParseItems(rest, items + [v])
        case stuck => stuck
  }

  /** The value position of a field: past the closing quote, the colon and white space. */
  function AtValue(t: string): (r: string)
    ensures |r| <= |t|
  {
    var u := SkipWs(Tail(t));
    SkipWs(if Head(u) == ':' then Tail(u) else u)
  }

  function ParseFields(t: string, fields: seq<Field>): Result
    decreases |t| + 1, 0, 0
  {
    if Head(t) == '\0' || Head(t) == '}' then Done(Obj(fields))
    else
      var u := SkipWs(t);
      if Head(u) != '"' then Done(Obj(fields))
      else if !KeyEnds(Tail(u)) then Overruns
      else
        var (key, afterKey) := ReadQuoted(Tail(u), KEY_MAX);
        var v := AtValue(afterKey);
        var k := ElementLength(v, 0);
        match Parse(v[..k])
        case Done(value) => ParseFields(AfterElement(v[k..]), SetField(fields, CutNul(key), value))
        case stuck => stuck
  }

  // ---------- printing ----------

  /** How a printer spaces its output; `Pretty(n)` is JSON.stringify's indent. */
  datatype Style = Compact | Pretty(indent: nat)

  /** A string as it is printed; `ts_string_new` cuts the text at a NUL of the string. */
  function Quote(s: string): string { CutNul("\"" + Escape(s) + "\"") }

  function Digits(n: nat): (r: string) {
    if n < 10 then [(48 + n) as char] else Digits(n / 10) + [(48 + n % 10) as char]
  }

  // `%g` keeps six significant digits.  An integer with more is rounded, a tie to even, and
  // written with an exponent and without trailing zeros.

  function Rounded(m: nat, unit: nat): nat
    requires unit > 0
  {
    var q, r := m / unit, m % unit;
    if 2 * r < unit || (2 * r == unit && q % 2 == 0) then q else q + 1
  }

  function StripZeros(d: string): (r: string)
    ensures |r| <= |d| && (d != "" ==> r != "")
  {
    if |d| > 1 && d[|d| - 1] == '0' then StripZeros(d[..|d| - 1]) else d
  }

  /** Six digits, of which the first stands before the point, and an exponent. */
  function Scientific(q: nat, e: nat): string {
    var d := StripZeros(Digits(q));
    (if |d| <= 1 then d else d[..1] + "." + d[1..]) + "e+" + (if e < 10 then "0" else "") + Digits(e)
  }

  const MILLION: nat := 1_000_000

  /** `%g` on a natural number. */
  function GeneralNat(m: nat): string {
    if m < MILLION then Digits(m)
    else
      var k := if |Digits(m)| > 6 then |Digits(m)| - 6 else 0;
      var q := Rounded(m, Ten(k));
      if q == MILLION then Scientific(MILLION / 10, k + 6) else Scientific(q, k + 5)
  }

  /** `%g` on an integer. */
  function General(n: int): string { if n < 0 then "-" + GeneralNat(-n) else GeneralNat(n) }

  /** Integers that a double holds exactly, whatever their neighbours. */
  predicate Integral(x: real) { x == x.Floor as real && -0x20_0000_0000_0000 < x.Floor < 0x20_0000_0000_0000 }

  /** `build_indent`, which stops at 256 columns. */
  function Indent(depth: nat, indent: nat): (r: string)
    ensures forall i :: 0 <= i < |r| ==> r[i] == ' '
  {
    seq(if depth * indent > 256 then 256 else depth * indent, _ => ' ')
  }

  /** White space before the first element of a container nested at `depth`, ... */
  function Lead(st: Style, depth: nat): string {
    if st.Compact? then "" else "\n" + Indent(depth + 1, st.indent)
  }

  /** ... after each comma, ... */
  function Between(st: Style, depth: nat): string {
    if st.Compact? then " " else "\n" + Indent(depth + 1, st.indent)
  }

  /** ... and before the closing bracket. */
  function Trail(st: Style, depth: nat): string {
    if st.Compact? then "" else "\n" + Indent(depth, st.indent)
  }

  function Render(v: Json, st: Style, depth: nat): string
    decreases v, 1
  {
    match v
    case Null => "null"
    case Bool(b) => if b then "true" else "false"
    case Num(x) => General(x.Floor)
    case Str(s) => Quote(s)
    case Arr(items) =>
      if items == [] then "[]"
      else "[" + Lead(st, depth) + RenderItems(items, st, depth) + Trail(st, depth) + "]"
    case Obj(fields) =>
      if fields == [] then "{" + (if st.Compact? then "" else "\n") + Trail(st, depth) + "}"
      else "{" + Lead(st, depth) + RenderFields(fields, st, depth) + Trail(st, depth) + "}"
  }

  function RenderItems(items: seq<Json>, st: Style, depth: nat): string
    decreases items, 0
  {
    if items == [] then ""
    else
      var first := Render(items[0], st, depth + 1);
      if |items| == 1 then first
      else first + ("," + Between(st, depth)) + RenderItems(items[1..], st, depth)
  }

  function RenderFields(fields: seq<Field>, st: Style, depth: nat): string
    decreases fields, 0
  {
    if fields == [] then ""
    else
      var first := Quote(fields[0].key) + ": " + Render(fields[0].value, st, depth + 1);
      if |fields| == 1 then first
      else first + ("," + Between(st, depth)) + RenderFields(fields[1..], st, depth)
  }
}
