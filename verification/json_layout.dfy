/** The printed text itself: what stands between elements, and where lines break. */
module JsonLayout {
  import opened Basics
  import opened JsonText
  import opened JsonNumbers

  ghost function Joined(separator: string, texts: seq<string>): string {
    if texts == [] then "" else if |texts| == 1 then texts[0] else texts[0] + separator + Joined(separator, texts[1..])
  }

  ghost function ItemTexts(items: seq<Json>, st: Style, depth: nat): seq<string> {
    seq(|items|, i requires 0 <= i < |items| => Render(items[i], st, depth))
  }

  ghost function FieldTexts(fields: seq<Field>, st: Style, depth: nat): seq<string> {
    seq(|fields|, i requires 0 <= i < |fields| => Quote(fields[i].key) + ": " + Render(fields[i].value, st, depth))
  }

  function Blanks(n: nat): string { seq(n, _ => ' ') }

  lemma {:induction false} ItemsJoined(items: seq<Json>, st: Style, depth: nat)
    ensures RenderItems(items, st, depth) == Joined("," + Between(st, depth), ItemTexts(items, st, depth + 1))
  {
    hide Render, Between;
    if |items| > 1 {
      ItemsJoined(items[1..], st, depth);
      assert ItemTexts(items, st, depth + 1)[1..] == ItemTexts(items[1..], st, depth + 1);
    }
  }

  lemma {:induction false} FieldsJoined(fields: seq<Field>, st: Style, depth: nat)
    ensures RenderFields(fields, st, depth) == Joined("," + Between(st, depth), FieldTexts(fields, st, depth + 1))
  {
    hide Render, Between, Quote;
    if |fields| > 1 {
      FieldsJoined(fields[1..], st, depth);
      assert FieldTexts(fields, st, depth + 1)[1..] == FieldTexts(fields[1..], st, depth + 1);
    }
  }

  /** Indentation is as many blanks as the depth times the width, up to the 256 of its buffer. */
  lemma IndentIs(depth: nat, width: nat)
    requires depth * width <= 256
    ensures Indent(depth, width) == Blanks(depth * width)
  {
  }

  /** An array on one line, and one element a line. */
  lemma ArrayLayout(items: seq<Json>, width: nat, depth: nat)
    requires items != [] && depth * width <= (depth + 1) * width <= 256
    ensures Render(Arr(items), Compact, depth) == "[" + Joined(", ", ItemTexts(items, Compact, depth + 1)) + "]"
    ensures var inner := Blanks((depth + 1) * width);
      Render(Arr(items), Pretty(width), depth)
      == "[\n" + inner + Joined(",\n" + inner, ItemTexts(items, Pretty(width), depth + 1)) + "\n"
         + Blanks(depth * width) + "]"
  {
    OneArray(items, depth);
    BrokenArray(items, width, depth);
    hide *;
  }

  lemma OneArray(items: seq<Json>, depth: nat)
    requires items != []
    ensures Render(Arr(items), Compact, depth) == "[" + Joined(", ", ItemTexts(items, Compact, depth + 1)) + "]"
  {
    ItemsJoined(items, Compact, depth);
    Separators(0, depth);
    ArrayIs(items, Compact, depth);
    hide *;
    Closed("[", Lead(Compact, depth), RenderItems(items, Compact, depth), Trail(Compact, depth), "]");
  }

  lemma BrokenArray(items: seq<Json>, width: nat, depth: nat)
    requires items != [] && depth * width <= (depth + 1) * width <= 256
    ensures var inner := Blanks((depth + 1) * width);
      Render(Arr(items), Pretty(width), depth)
      == "[\n" + inner + Joined(",\n" + inner, ItemTexts(items, Pretty(width), depth + 1)) + "\n"
         + Blanks(depth * width) + "]"
  {
    ItemsJoined(items, Pretty(width), depth);
    IndentIs(depth, width);
    IndentIs(depth + 1, width);
    Separators(width, depth);
    ArrayIs(items, Pretty(width), depth);
    assert "[" + "\n" == "[\n";
    hide *;
    var inner, outer := Blanks((depth + 1) * width), Blanks(depth * width);
    Opened("[", inner, RenderItems(items, Pretty(width), depth), outer, "]");
  }

  lemma ArrayIs(items: seq<Json>, st: Style, depth: nat)
    requires items != []
    ensures Render(Arr(items), st, depth)
      == "[" + Lead(st, depth) + RenderItems(items, st, depth) + Trail(st, depth) + "]"
  {
    hide RenderItems, Lead, Trail;
  }

  lemma ObjectIs(fields: seq<Field>, st: Style, depth: nat)
    requires fields != []
    ensures Render(Obj(fields), st, depth)
      == "{" + Lead(st, depth) + RenderFields(fields, st, depth) + Trail(st, depth) + "}"
  {
    hide RenderFields, Lead, Trail;
  }

  lemma Separators(width: nat, depth: nat)
    ensures "," + Between(Compact, depth) == ", "
    ensures "," + Between(Pretty(width), depth) == ",\n" + Indent(depth + 1, width)
    ensures Lead(Compact, depth) == "" && Trail(Compact, depth) == ""
    ensures Lead(Pretty(width), depth) == "\n" + Indent(depth + 1, width)
    ensures Trail(Pretty(width), depth) == "\n" + Indent(depth, width)
  {
    hide Indent;
  }

  lemma Closed(open: string, lead: string, body: string, trail: string, close: string)
    requires lead == "" && trail == ""
    ensures open + lead + body + trail + close == open + body + close
  {
    assert open + "" == open && open + body + "" == open + body;
  }

  lemma Opened(open: string, inner: string, body: string, outer: string, close: string)
    ensures open + ("\n" + inner) + body + ("\n" + outer) + close
      == (open + "\n") + inner + body + "\n" + outer + close
  {
    Regroup(open, "\n", inner);
    Regroup(open + "\n" + inner + body, "\n", outer);
  }

  /** The same for an object. */
  lemma ObjectLayout(fields: seq<Field>, width: nat, depth: nat)
    requires fields != [] && depth * width <= (depth + 1) * width <= 256
    ensures Render(Obj(fields), Compact, depth) == "{" + Joined(", ", FieldTexts(fields, Compact, depth + 1)) + "}"
    ensures var inner := Blanks((depth + 1) * width);
      Render(Obj(fields), Pretty(width), depth)
      == "{\n" + inner + Joined(",\n" + inner, FieldTexts(fields, Pretty(width), depth + 1)) + "\n"
         + Blanks(depth * width) + "}"
  {
    OneObject(fields, depth);
    BrokenObject(fields, width, depth);
    hide *;
  }

  lemma OneObject(fields: seq<Field>, depth: nat)
    requires fields != []
    ensures Render(Obj(fields), Compact, depth) == "{" + Joined(", ", FieldTexts(fields, Compact, depth + 1)) + "}"
  {
    FieldsJoined(fields, Compact, depth);
    Separators(0, depth);
    ObjectIs(fields, Compact, depth);
    hide *;
    Closed("{", Lead(Compact, depth), RenderFields(fields, Compact, depth), Trail(Compact, depth), "}");
  }

  lemma BrokenObject(fields: seq<Field>, width: nat, depth: nat)
    requires fields != [] && depth * width <= (depth + 1) * width <= 256
    ensures var inner := Blanks((depth + 1) * width);
      Render(Obj(fields), Pretty(width), depth)
      == "{\n" + inner + Joined(",\n" + inner, FieldTexts(fields, Pretty(width), depth + 1)) + "\n"
         + Blanks(depth * width) + "}"
  {
    FieldsJoined(fields, Pretty(width), depth);
    IndentIs(depth, width);
    IndentIs(depth + 1, width);
    Separators(width, depth);
    ObjectIs(fields, Pretty(width), depth);
    assert "{" + "\n" == "{\n";
    hide *;
    var inner, outer := Blanks((depth + 1) * width), Blanks(depth * width);
    Opened("{", inner, RenderFields(fields, Pretty(width), depth), outer, "}");
  }

  /** The words, and numbers as `%g` prints them. */
  lemma WordsAndNumbers(st: Style, depth: nat)
    ensures Render(Null, st, depth) == "null"
    ensures Render(Bool(true), st, depth) == "true" && Render(Bool(false), st, depth) == "false"
    ensures Render(Num(-7.0), st, depth) == "-7" && Render(Num(1000000.0), st, depth) == "1e+06"
    ensures Render(Num(1234567.0), st, depth) == "1.23457e+06"
  {
    Seven();
    AMillion();
    OneTwoThree();
    hide GeneralNat, Digits;
    assert General(-7) == "-" + GeneralNat(7);
  }

  lemma Seven()
    ensures GeneralNat(7) == "7"
  {
  }

  lemma DigitsSnoc(n: nat, d: nat)
    requires n > 0 && d < 10
    ensures Digits(10 * n + d) == Digits(n) + [(48 + d) as char]
  {
  }

  lemma AMillion()
    ensures GeneralNat(1000000) == "1e+06"
  {
    RoundDigits();
    SevenDigits(1000000, 100000);
    Stripped();
    ExponentSix();
    hide *;
    ScientificIs(100000, "1");
    assert "1" + "e+" + "0" + "6" == "1e+06";
  }

  lemma RoundDigits()
    ensures Digits(100000) == "100000" && |Digits(1000000)| == 7
  {
    assert Digits(1) == "1";
    DigitsSnoc(1, 0);
    DigitsSnoc(10, 0);
    DigitsSnoc(100, 0);
    DigitsSnoc(1000, 0);
    DigitsSnoc(10000, 0);
    DigitsSnoc(100000, 0);
    hide Digits;
  }

  lemma ScientificIs(q: nat, d: string)
    requires StripZeros(Digits(q)) == d && Digits(6) == "6"
    ensures Scientific(q, 6) == (if |d| <= 1 then d else d[..1] + "." + d[1..]) + "e+" + "0" + "6"
  {
    hide Digits, StripZeros;
  }

  /** A number of seven digits, rounded to six. */
  lemma SevenDigits(m: nat, q: nat)
    requires m >= MILLION && |Digits(m)| == 7 && Rounded(m, 10) == q && q != MILLION
    ensures GeneralNat(m) == Scientific(q, 6)
  {
    assert Ten(1) == 10;
    hide Digits, Ten, Rounded, Scientific;
  }

  lemma Stripped()
    ensures StripZeros("100000") == "1"
  {
    assert "100000"[..5] == "10000" && "10000"[..4] == "1000" && "1000"[..3] == "100" && "100"[..2] == "10";
    assert "10"[..1] == "1";
  }

  lemma ExponentSix()
    ensures Digits(6) == "6"
  {
  }

  lemma OneTwoThree()
    ensures GeneralNat(1234567) == "1.23457e+06"
  {
    ManyDigits();
    SevenDigits(1234567, 123457);
    ExponentSix();
    hide *;
    var d := "123457";
    ScientificIs(123457, d);
    assert d[..1] == "1" && d[1..] == "23457";
    assert "1" + "." + "23457" + "e+" + "0" + "6" == "1.23457e+06";
  }

  lemma ManyDigits()
    ensures Digits(123457) == "123457" && |Digits(1234567)| == 7 && StripZeros("123457") == "123457"
  {
    assert Digits(1) == "1";
    DigitsSnoc(1, 2);
    DigitsSnoc(12, 3);
    DigitsSnoc(123, 4);
    DigitsSnoc(1234, 5);
    DigitsSnoc(12345, 6);
    DigitsSnoc(12345, 7);
    DigitsSnoc(123456, 7);
    hide Digits;
  }
}
