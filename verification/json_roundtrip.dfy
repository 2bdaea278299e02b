/** Parsing what either printer wrote gives the value back, for every value whose nested
    text the quote-blind element scanner can get across. */
module JsonRoundTrip {
  import opened Basics
  import opened JsonText
  import opened JsonNumbers

  ghost predicate AllWs(t: string) { forall i :: 0 <= i < |t| ==> IsWs(t[i]) }

  // ---------- white space, strings, numbers ----------

  lemma {:induction false} SkipWsOver(w: string, t: string)
    requires AllWs(w)
    ensures SkipWs(w + t) == SkipWs(t)
  {
    if w == "" {
      assert w + t == t;
    } else {
      assert (w + t)[1..] == w[1..] + t;
      SkipWsOver(w[1..], t);
    }
  }

  lemma {:induction false} CutNulWhole(s: string)
    requires '\0' !in s
    ensures CutNul(s) == s
  {
    if s != "" { CutNulWhole(s[1..]); }
  }

  lemma {:induction false} EscapeKeepsNul(s: string)
    ensures '\0' in s <==> '\0' in Escape(s)
  {
    if s != "" {
      EscapeKeepsNul(s[1..]);
      assert s == [s[0]] + s[1..];
    }
  }

  lemma QuoteWhole(s: string)
    requires '\0' !in s
    ensures Quote(s) == "\"" + Escape(s) + "\""
  {
    EscapeKeepsNul(s);
    CutNulWhole("\"" + Escape(s) + "\"");
  }

  /** One turn of the read loop on an escaped character. */
  lemma ReadOne(c: char, more: string, room: nat)
    requires c != '\0' && room > 0
    ensures ReadQuoted(EscapeChar(c) + more, room)
      == ([c] + ReadQuoted(more, room - 1).0, ReadQuoted(more, room - 1).1)
  {
    var t := EscapeChar(c) + more;
    if |EscapeChar(c)| == 2 {
      assert Tail(Tail(t)) == more && Head(Tail(t)) == EscapeChar(c)[1];
    } else {
      assert Tail(t) == more;
    }
  }

  lemma EscapeFirst(s: string)
    requires s != ""
    ensures Escape(s) == EscapeChar(s[0]) + Escape(s[1..]) && s == [s[0]] + s[1..]
    ensures '\0' !in s ==> s[0] != '\0' && '\0' !in s[1..]
  {
    assert s[0] in s;
  }

  lemma ReadFirst(c: char, t: string, room: nat, rest: string, more: string, left: string)
    requires c != '\0' && room > 0 && ReadQuoted(t, room - 1) == (rest + more, left)
    ensures ReadQuoted(EscapeChar(c) + t, room) == ([c] + rest + more, left)
  {
    ReadOne(c, t, room);
    Regroup([c], rest, more);
  }

  /** Whatever follows an escaped string, reading with exactly enough room takes the string. */
  lemma {:induction false} ReadExact(s: string, t: string, room: nat)
    requires '\0' !in s && |s| <= room
    ensures ReadQuoted(Escape(s) + t, room) == (s + ReadQuoted(t, room - |s|).0, ReadQuoted(t, room - |s|).1)
  {
    if s == "" {
      hide ReadQuoted;
      assert Escape(s) + t == t && s + ReadQuoted(t, room).0 == ReadQuoted(t, room).0;
    } else {
      EscapeFirst(s);
      hide ReadQuoted, EscapeChar, Escape;
      var more := ReadQuoted(t, room - |s|);
      ReadExact(s[1..], t, room - 1);
      ReadFirst(s[0], Escape(s[1..]) + t, room, s[1..], more.0, more.1);
      Regroup(EscapeChar(s[0]), Escape(s[1..]), t);
    }
  }

  lemma QuotedTail(q: string, rest: string)
    ensures var u := "\"" + q + "\"" + rest; u != "" && u[0] == '"' && Tail(u) == q + "\"" + rest
  {
  }

  /** Reading undoes escaping, up to the size of the buffer. */
  lemma ReadEscaped(s: string, rest: string, room: nat)
    requires '\0' !in s && |s| <= room
    ensures ReadQuoted(Escape(s) + "\"" + rest, room) == (s, "\"" + rest)
  {
    ReadExact(s, "\"" + rest, room);
    Regroup(Escape(s), "\"", rest);
    assert s + "" == s;
  }

  /** Reading an escaped string never runs past its text. */
  lemma {:induction false} EscapedNotCutOff(s: string, t: string, room: nat)
    requires TextOk(s, room)
    ensures CutOff(Escape(s) + t, room) == CutOff(t, room - |s|)
  {
    if s == "" {
      assert Escape(s) + t == t;
    } else {
      EscapeFirst(s);
      EscapedNotCutOff(s[1..], t, room - 1);
      hide EscapeChar, Escape, CutOff;
      CutOffOne(s[0], Escape(s[1..]) + t, room);
      Regroup(EscapeChar(s[0]), Escape(s[1..]), t);
    }
  }

  lemma QuotedNotCutOff(s: string, rest: string, room: nat)
    requires TextOk(s, room)
    ensures !CutOff(Escape(s) + "\"" + rest, room)
  {
    EscapedNotCutOff(s, "\"" + rest, room);
    Regroup(Escape(s), "\"", rest);
  }

  lemma CutOffOne(c: char, more: string, room: nat)
    requires c != '\0' && room > 0
    ensures CutOff(EscapeChar(c) + more, room) == CutOff(more, room - 1)
  {
    var t := EscapeChar(c) + more;
    if |EscapeChar(c)| == 2 {
      assert Tail(Tail(t)) == more && Head(Tail(t)) == EscapeChar(c)[1];
    } else {
      assert Tail(t) == more;
    }
  }

  // ---------- the element scanner ----------

  datatype Scan = Stops | Through(depth: nat)

  /** What scanning all of t from a bracket depth comes to. */
  ghost function ScanAll(t: string, depth: nat): Scan {
    if t == "" then Through(depth)
    else
      var c := t[0];
      if c == '\0' || (depth == 0 && (IsClose(c) || c == ',')) then Stops
      else ScanAll(t[1..], if IsOpen(c) then depth + 1 else if IsClose(c) then depth - 1 else depth)
  }

  lemma {:induction false} ScanConcat(a: string, b: string, depth: nat)
    ensures ScanAll(a + b, depth) == match ScanAll(a, depth) case Stops => Stops case Through(d) => ScanAll(b, d)
  {
    if a == "" {
      assert a + b == b;
    } else {
      assert (a + b)[1..] == a[1..] + b;
      var c := a[0];
      if !(c == '\0' || (depth == 0 && (IsClose(c) || c == ','))) {
        ScanConcat(a[1..], b, if IsOpen(c) then depth + 1 else if IsClose(c) then depth - 1 else depth);
      }
    }
  }

  lemma {:induction false} ScanDeeper(t: string, depth: nat, e: nat, k: nat)
    requires ScanAll(t, depth) == Through(e)
    ensures ScanAll(t, depth + k) == Through(e + k)
  {
    if t != "" {
      var c := t[0];
      ScanDeeper(t[1..], if IsOpen(c) then depth + 1 else if IsClose(c) then depth - 1 else depth, e, k);
    }
  }

  /** The scanner takes an element's text exactly if and only if its brackets balance
      and it has no bare comma, quoted or not. */
  lemma {:induction false} ScannerTakes(t: string, c: char, rest: string, depth: nat)
    requires c == ',' || IsClose(c)
    ensures ElementLength(t + [c] + rest, depth) == |t| <==> ScanAll(t, depth) == Through(0)
    ensures ScanAll(t, depth) == Stops ==> ElementLength(t + [c] + rest, depth) < |t|
  {
    var u := t + [c] + rest;
    if t == "" {
      assert u[0] == c;
    } else {
      var d := if IsOpen(t[0]) then depth + 1 else if IsClose(t[0]) then depth - 1 else depth;
      assert u[0] == t[0];
      if !(t[0] == '\0' || (depth == 0 && (IsClose(t[0]) || t[0] == ','))) {
        assert Tail(u) == t[1..] + [c] + rest;
        ScannerTakes(t[1..], c, rest, d);
      }
    }
  }

  /** Text the scanner passes over without noticing. */
  ghost predicate Plain(t: string) {
    forall i :: 0 <= i < |t| ==> t[i] != '\0' && !IsOpen(t[i]) && !IsClose(t[i]) && t[i] != ','
  }

  lemma {:induction false} PlainPasses(t: string, depth: nat)
    requires Plain(t)
    ensures ScanAll(t, depth) == Through(depth)
  {
    if t != "" { PlainPasses(t[1..], depth); }
  }

  lemma EscapeCharScans(c: char, depth: nat)
    ensures ScanAll(EscapeChar(c), depth) == ScanAll([c], depth)
  {
    if |EscapeChar(c)| == 2 {
      PlainPasses(EscapeChar(c), depth);
      PlainPasses([c], depth);
    }
  }

  /** Escaping is invisible to the scanner. */
  lemma {:induction false} ScanEscaped(s: string, depth: nat)
    ensures ScanAll(Escape(s), depth) == ScanAll(s, depth)
  {
    if s != "" {
      hide ScanAll;
      var c, rest := s[0], s[1..];
      assert s == [c] + rest;
      EscapeCharScans(c, depth);
      ScanConcat(EscapeChar(c), Escape(rest), depth);
      ScanConcat([c], rest, depth);
      match ScanAll([c], depth) {
        case Stops =>
        case Through(d) => ScanEscaped(rest, d);
      }
    }
  }

  // ---------- the values that survive ----------

  ghost predicate TextOk(s: string, room: nat) { |s| <= room && '\0' !in s }

  ghost predicate DistinctKeys(fields: seq<Field>) {
    forall i, j :: 0 <= i < j < |fields| ==> fields[i].key != fields[j].key
  }

  /** Enough for v to be an element of an array or the value of a field: its own brackets
      and those inside its strings balance, no string has a comma outside brackets, and its
      numbers are integers of at most six significant digits. */
  ghost predicate Nestable(v: Json) {
    match v
    case Str(s) => TextOk(s, STRING_MAX) && ScanAll(s, 0) == Through(0)
    case Arr(items) => forall x :: x in items ==> Nestable(x)
    case Obj(fields) =>
      && DistinctKeys(fields)
      && forall f :: f in fields ==> TextOk(f.key, KEY_MAX) && ScanAll(f.key, 1) == Through(1) && Nestable(f.value)
    case Num(x) => Integral(x) && SixDigits(x.Floor)
    case _ => true
  }

  /** Enough for v to be a whole text: its own string or keys are free of the scanner. */
  ghost predicate Printable(v: Json) {
    match v
    case Str(s) => TextOk(s, STRING_MAX)
    case Arr(items) => forall x :: x in items ==> Nestable(x)
    case Obj(fields) =>
      && DistinctKeys(fields)
      && forall f :: f in fields ==> TextOk(f.key, KEY_MAX) && Nestable(f.value)
    case Num(x) => Integral(x) && SixDigits(x.Floor)
    case _ => true
  }

  lemma LayoutIsWs(st: Style, depth: nat)
    ensures AllWs(Lead(st, depth)) && AllWs(Between(st, depth)) && AllWs(Trail(st, depth))
  {
  }

  lemma ScanPair(a: string, b: string, d0: nat, d1: nat, d2: nat)
    requires ScanAll(a, d0) == Through(d1) && ScanAll(b, d1) == Through(d2)
    ensures ScanAll(a + b, d0) == Through(d2)
  {
    ScanConcat(a, b, d0);
  }

  lemma ScanWs(w: string, depth: nat)
    requires AllWs(w)
    ensures ScanAll(w, depth) == Through(depth)
  {
    PlainPasses(w, depth);
  }

  lemma {:induction false} PassedHasNoNul(s: string, depth: nat)
    requires ScanAll(s, depth).Through?
    ensures '\0' !in s
  {
    if s != "" {
      var c := s[0];
      PassedHasNoNul(s[1..], if IsOpen(c) then depth + 1 else if IsClose(c) then depth - 1 else depth);
      assert s == [c] + s[1..];
    }
  }

  lemma ScanQuote(s: string, depth: nat)
    requires ScanAll(s, depth).Through?
    ensures ScanAll(Quote(s), depth) == ScanAll(s, depth)
  {
    var d := ScanAll(s, depth).depth;
    PassedHasNoNul(s, depth);
    QuoteWhole(s);
    ScanEscaped(s, depth);
    hide ScanAll, Quote, Escape;
    PlainPasses("\"", depth);
    PlainPasses("\"", d);
    ScanPair("\"", Escape(s), depth, depth, d);
    ScanPair("\"" + Escape(s), "\"", depth, d, d);
  }

  lemma ScanComma(w: string, depth: nat)
    requires AllWs(w) && depth > 0
    ensures ScanAll("," + w, depth) == Through(depth)
  {
    ScanWs(w, depth);
    assert ("," + w)[1..] == w;
  }

  lemma ScanBrackets(open: char, lead: string, body: string, trail: string, close: char, depth: nat)
    requires IsOpen(open) && IsClose(close) && AllWs(lead) && AllWs(trail)
    requires ScanAll(body, depth + 1) == Through(depth + 1)
    ensures ScanAll([open] + lead + body + trail + [close], depth) == Through(depth)
  {
    assert ScanAll([open], depth) == Through(depth + 1) by { assert [open][1..] == ""; }
    assert ScanAll([close], depth + 1) == Through(depth) by { assert [close][1..] == ""; }
    ScanWs(lead, depth + 1);
    ScanWs(trail, depth + 1);
    ScanPair([open], lead, depth, depth + 1, depth + 1);
    ScanPair([open] + lead, body, depth, depth + 1, depth + 1);
    ScanPair([open] + lead + body, trail, depth, depth + 1, depth + 1);
    ScanPair([open] + lead + body + trail, [close], depth, depth + 1, depth);
  }

  lemma ScalarScans(v: Json, st: Style, depth: nat, d: nat)
    requires Nestable(v) && !v.Arr? && !v.Obj?
    ensures ScanAll(Render(v, st, depth), d) == Through(d)
  {
    hide ScanAll, General, Quote;
    match v {
      case Null => PlainPasses("null", d);
      case Bool(b) => PlainPasses("true", d); PlainPasses("false", d);
      case Num(x) => NumberScans(x.Floor, d);
      case Str(s) => ScanDeeper(s, 0, 0, d); ScanQuote(s, d);
    }
  }

  lemma NumberScans(n: int, d: nat)
    ensures ScanAll(General(n), d) == Through(d)
  {
    GeneralChars(n);
    hide General;
    PlainPasses(General(n), d);
  }

  lemma ArrayScans(items: seq<Json>, st: Style, depth: nat, d: nat)
    requires ScanAll(RenderItems(items, st, depth), d + 1) == Through(d + 1)
    ensures ScanAll(Render(Arr(items), st, depth), d) == Through(d)
  {
    hide ScanAll, RenderItems, Lead, Trail;
    LayoutIsWs(st, depth);
    if items == [] {
      PlainPasses("", d + 1);
      ScanBrackets('[', "", "", "", ']', d);
      assert "[" + "" + "" + "" + "]" == "[]";
    } else {
      ScanBrackets('[', Lead(st, depth), RenderItems(items, st, depth), Trail(st, depth), ']', d);
    }
  }

  lemma ObjectScans(fields: seq<Field>, st: Style, depth: nat, d: nat)
    requires ScanAll(RenderFields(fields, st, depth), d + 1) == Through(d + 1)
    ensures ScanAll(Render(Obj(fields), st, depth), d) == Through(d)
  {
    hide ScanAll, RenderFields, Lead, Trail;
    LayoutIsWs(st, depth);
    if fields == [] {
      var lead := if st.Compact? then "" else "\n";
      PlainPasses("", d + 1);
      ScanBrackets('{', lead, "", Trail(st, depth), '}', d);
      assert "{" + lead + "" + Trail(st, depth) + "}" == Render(Obj(fields), st, depth);
    } else {
      ScanBrackets('{', Lead(st, depth), RenderFields(fields, st, depth), Trail(st, depth), '}', d);
    }
  }

  /** The scanner gets across whatever either printer writes for a nestable value. */
  lemma {:induction false} RenderScans(v: Json, st: Style, depth: nat, d: nat)
    requires Nestable(v)
    ensures ScanAll(Render(v, st, depth), d) == Through(d)
    decreases v, 1
  {
    hide ScanAll, Render;
    match v {
      case Arr(items) =>
        ItemsScan(items, st, depth, d + 1);
        ArrayScans(items, st, depth, d);
      case Obj(fields) =>
        FieldsScan(fields, st, depth, d + 1);
        ObjectScans(fields, st, depth, d);
      case _ => ScalarScans(v, st, depth, d);
    }
  }

  lemma {:induction false} ItemsScan(items: seq<Json>, st: Style, depth: nat, d: nat)
    requires d > 0 && forall x :: x in items ==> Nestable(x)
    ensures ScanAll(RenderItems(items, st, depth), d) == Through(d)
    decreases items, 0
  {
    if items != [] {
      var first := Render(items[0], st, depth + 1);
      RenderScans(items[0], st, depth + 1, d);
      if |items| > 1 {
        ItemsScan(items[1..], st, depth, d);
        LayoutIsWs(st, depth);
        ScanComma(Between(st, depth), d);
        ScanPair(first, "," + Between(st, depth), d, d, d);
        ScanPair(first + ("," + Between(st, depth)), RenderItems(items[1..], st, depth), d, d, d);
      }
    }
  }

  lemma {:induction false} FieldsScan(fields: seq<Field>, st: Style, depth: nat, d: nat)
    requires d > 0 && forall f :: f in fields ==> ScanAll(f.key, 1) == Through(1) && Nestable(f.value)
    ensures ScanAll(RenderFields(fields, st, depth), d) == Through(d)
    decreases fields, 0
  {
    if fields != [] {
      var f := fields[0];
      var q, r := Quote(f.key), Render(f.value, st, depth + 1);
      RenderScans(f.value, st, depth + 1, d);
      ScanDeeper(f.key, 1, 1, d - 1);
      ScanQuote(f.key, d);
      PlainPasses(": ", d);
      ScanPair(q, ": ", d, d, d);
      ScanPair(q + ": ", r, d, d, d);
      if |fields| > 1 {
        FieldsScan(fields[1..], st, depth, d);
        LayoutIsWs(st, depth);
        ScanComma(Between(st, depth), d);
        ScanPair(q + ": " + r, "," + Between(st, depth), d, d, d);
        ScanPair(q + ": " + r + ("," + Between(st, depth)), RenderFields(fields[1..], st, depth), d, d, d);
      }
    }
  }

  // ---------- parsing what was printed ----------

  lemma QuoteHead(s: string)
    ensures Quote(s) != "" && Quote(s)[0] == '"'
  {
    hide Escape;
  }

  lemma RenderHead(v: Json, st: Style, depth: nat)
    ensures var r := Render(v, st, depth);
      r != "" && !IsWs(r[0]) && !IsClose(r[0]) && r[0] != ',' && r[0] != '\0' && r[0] != ':'
  {
    hide General, Escape, RenderItems, RenderFields, Lead, Trail;
    match v {
      case Num(x) => GeneralChars(x.Floor);
      case Str(s) => QuoteHead(s);
      case Arr(items) =>
      case Obj(fields) =>
      case _ =>
    }
  }

  lemma SkipNothing(t: string)
    requires t == "" || !IsWs(t[0])
    ensures SkipWs(t) == t
  {
  }

  lemma ParseNumberText(t: string)
    requires t != "" && (t[0] == '-' || IsDigit(t[0])) && ReadNumber(t).Number?
    ensures Parse(t) == Done(Num(ReadNumber(t).x))
  {
    hide ReadNumber;
    SkipNothing(t);
  }

  lemma ParseQuotedText(t: string)
    requires t != "" && t[0] == '"'
    ensures Parse(t)
      == if CutOff(Tail(t), STRING_MAX) then Overruns else Done(Str(CutNul(ReadQuoted(Tail(t), STRING_MAX).0)))
  {
    hide ReadQuoted, CutNul, CutOff;
    SkipNothing(t);
  }

  lemma ParseArrayText(t: string)
    requires t != "" && t[0] == '['
    ensures Parse(t) == ParseItems(Tail(t), [])
  {
    hide ParseItems;
    SkipNothing(t);
  }

  lemma ParseObjectText(t: string)
    requires t != "" && t[0] == '{'
    ensures Parse(t) == ParseFields(Tail(t), [])
  {
    hide ParseFields;
    SkipNothing(t);
  }

  lemma ParseWord(w: string)
    ensures Parse("null" + w) == Done(Null)
    ensures Parse("true" + w) == Done(Bool(true))
    ensures Parse("false" + w) == Done(Bool(false))
  {
    SkipNothing("null" + w);
    SkipNothing("true" + w);
    SkipNothing("false" + w);
    assert ("null" + w)[..4] == "null" && ("true" + w)[..4] == "true" && ("false" + w)[..5] == "false";
  }

  lemma ParseScalar(v: Json, st: Style, depth: nat, w: string)
    requires (v.Null? || v.Bool? || v.Num? || v.Str?) && Printable(v) && AllWs(w)
    ensures Parse(Render(v, st, depth) + w) == Done(v)
  {
    hide Parse, General, ReadNumber, ReadQuoted, CutNul, CutOff, Escape;
    match v {
      case Null => ParseWord(w);
      case Bool(b) => ParseWord(w);
      case Num(x) =>
        ReadGeneral(x.Floor, w);
        PrintedExactly(x.Floor);
        GeneralChars(x.Floor);
        ParseNumberText(General(x.Floor) + w);
      case Str(s) =>
        ReadEscaped(s, w, STRING_MAX);
        QuotedNotCutOff(s, w, STRING_MAX);
        CutNulWhole(s);
        QuoteWhole(s);
        ParseQuotedText(Quote(s) + w);
        QuotedTail(Escape(s), w);
    }
  }

  /** The text of one element in its container: what precedes and follows it. */
  lemma ParseElement(first: string, w: string, after: string, v: Json)
    requires first != "" && !IsWs(first[0]) && !IsClose(first[0]) && first[0] != '\0'
    requires ScanAll(first, 0) == Through(0) && AllWs(w)
    requires after != "" && (after[0] == ',' || IsClose(after[0]))
    requires Parse(first + w) == Done(v)
    ensures var u := first + w + after;
      && SkipWs(u) == u && Head(u) == first[0]
      && ElementLength(u, 0) == |first + w| && Parse(u[..|first + w|]) == Done(v) && u[|first + w|..] == after
  {
    ScanWs(w, 0);
    ScanPair(first, w, 0, 0, 0);
    ScannerTakes(first + w, after[0], after[1..], 0);
    SplitAfter(first + w, after);
    hide ScanAll, ElementLength, Parse;
  }

  lemma SplitAfter(x: string, after: string)
    requires after != ""
    ensures var u := x + after; u == x + [after[0]] + after[1..] && u[..|x|] == x && u[|x|..] == after
  {
  }

  /** One turn of the array loop over `w first w' after`. */
  lemma ItemsTurn(w: string, first: string, w': string, after: string, v: Json, acc: seq<Json>)
    requires first != "" && !IsWs(first[0]) && !IsClose(first[0]) && first[0] != '\0'
    requires ScanAll(first, 0) == Through(0) && AllWs(w) && AllWs(w')
    requires after != "" && (after[0] == ',' || after[0] == ']')
    requires Parse(first + w') == Done(v)
    ensures ParseItems(w + (first + w' + after), acc)
      == ParseItems(if after[0] == ',' then after[1..] else after, acc + [v])
  {
    var u := first + w' + after;
    var t := w + u;
    ParseElement(first, w', after, v);
    SkipWsOver(w, u);
    assert Head(t) == if w == "" then first[0] else w[0];
    SkipNothing(after);
    assert AfterElement(after) == if after[0] == ',' then after[1..] else after;
  }

  lemma ItemsEnd(w: string, post: string, acc: seq<Json>)
    requires AllWs(w)
    ensures ParseItems(w + ("]" + post), acc) == Done(Arr(acc))
  {
    SkipWsOver(w, "]" + post);
    SkipNothing("]" + post);
    if w == "" { assert w + ("]" + post) == "]" + post; }
  }

  /** The last turn of the array loop. */
  lemma LastItem(w: string, first: string, trail: string, post: string, v: Json, acc: seq<Json>)
    requires first != "" && !IsWs(first[0]) && !IsClose(first[0]) && first[0] != '\0'
    requires ScanAll(first, 0) == Through(0) && AllWs(w) && AllWs(trail)
    requires Parse(first + trail) == Done(v)
    ensures ParseItems(w + (first + trail + ("]" + post)), acc) == Done(Arr(acc + [v]))
  {
    hide Parse, ParseItems, ScanAll;
    ItemsTurn(w, first, trail, "]" + post, v, acc);
    ItemsEnd("", post, acc + [v]);
    assert "" + ("]" + post) == "]" + post;
  }

  /** Any other turn. */
  lemma NextItem(w: string, first: string, between: string, more: string, trail: string, v: Json, acc: seq<Json>)
    requires first != "" && !IsWs(first[0]) && !IsClose(first[0]) && first[0] != '\0'
    requires ScanAll(first, 0) == Through(0) && AllWs(w)
    requires Parse(first + "") == Done(v)
    ensures ParseItems(w + (first + ("," + between) + more + trail), acc)
      == ParseItems(between + (more + trail), acc + [v])
  {
    hide Parse, ParseItems, ScanAll;
    var after := "," + (between + (more + trail));
    ItemsTurn(w, first, "", after, v, acc);
    assert after[1..] == between + (more + trail);
    assert first + ("," + between) + more + trail == first + "" + after;
  }

  /** Parsing undoes printing, in either style, at any depth, with white space after. */
  lemma {:induction false} ParseRendered(v: Json, st: Style, depth: nat, w: string)
    requires Printable(v) && AllWs(w)
    ensures Parse(Render(v, st, depth) + w) == Done(v)
    decreases v, 1
  {
    hide Parse, ParseItems, ParseFields;
    match v {
      case Arr(items) => ArrayParse(items, st, depth, w);
      case Obj(fields) => ObjectParse(fields, st, depth, w);
      case _ => ParseScalar(v, st, depth, w);
    }
  }

  lemma EmptyArrayParse(st: Style, depth: nat, w: string)
    requires AllWs(w)
    ensures Parse(Render(Arr([]), st, depth) + w) == Done(Arr([]))
  {
    hide Parse, ParseItems;
    ParseArrayText("[]" + w);
    ItemsEnd("", w, []);
    assert Tail("[]" + w) == "" + ("]" + w);
  }

  lemma ArrayText(items: seq<Json>, st: Style, depth: nat, w: string)
    requires items != []
    ensures Parse(Render(Arr(items), st, depth) + w)
      == ParseItems(Lead(st, depth) + (RenderItems(items, st, depth) + Trail(st, depth) + ("]" + w)), [])
  {
    hide Parse, ParseItems, RenderItems, Lead, Trail;
    var t := Render(Arr(items), st, depth) + w;
    ParseArrayText(t);
    assert Tail(t) == Lead(st, depth) + (RenderItems(items, st, depth) + Trail(st, depth) + ("]" + w));
  }

  lemma {:induction false} ArrayParse(items: seq<Json>, st: Style, depth: nat, w: string)
    requires (forall x :: x in items ==> Nestable(x)) && AllWs(w)
    ensures Parse(Render(Arr(items), st, depth) + w) == Done(Arr(items))
    decreases items, 3
  {
    if items == [] {
      EmptyArrayParse(st, depth, w);
    } else {
      hide *;
      LayoutIsWs(st, depth);
      ArrayText(items, st, depth, w);
      ItemsParse(items, st, depth, Lead(st, depth), w, []);
      assert [] + items == items;
    }
  }

  lemma {:induction false} ItemsParse(items: seq<Json>, st: Style, depth: nat, w: string, post: string, acc: seq<Json>)
    requires items != [] && (forall x :: x in items ==> Nestable(x)) && AllWs(w)
    ensures ParseItems(w + (RenderItems(items, st, depth) + Trail(st, depth) + ("]" + post)), acc)
      == Done(Arr(acc + items))
    decreases items, 2
  {
    var first := Render(items[0], st, depth + 1);
    assert Nestable(items[0]) && Printable(items[0]);
    LayoutIsWs(st, depth);
    RenderHead(items[0], st, depth + 1);
    hide *;
    RenderScans(items[0], st, depth + 1, 0);
    if |items| == 1 {
      ParseRendered(items[0], st, depth + 1, Trail(st, depth));
      ItemsLast(items, st, depth, w, post, acc);
    } else {
      NoWs();
      ParseRendered(items[0], st, depth + 1, "");
      ItemsParse(items[1..], st, depth, Between(st, depth), post, acc + [items[0]]);
      ItemsMore(items, st, depth, w, post, acc);
      TakeFirst(items, acc);
    }
  }

  lemma TakeFirst<T>(items: seq<T>, acc: seq<T>)
    requires items != []
    ensures acc + [items[0]] + items[1..] == acc + items
  {
  }

  lemma NoWs()
    ensures AllWs("")
  {
  }

  lemma ItemsLast(items: seq<Json>, st: Style, depth: nat, w: string, post: string, acc: seq<Json>)
    requires |items| == 1 && AllWs(w) && AllWs(Trail(st, depth))
    requires ScanAll(Render(items[0], st, depth + 1), 0) == Through(0)
    requires Parse(Render(items[0], st, depth + 1) + Trail(st, depth)) == Done(items[0])
    ensures ParseItems(w + (RenderItems(items, st, depth) + Trail(st, depth) + ("]" + post)), acc)
      == Done(Arr(acc + items))
  {
    hide Parse, ParseItems, Render, ScanAll, Trail;
    RenderHead(items[0], st, depth + 1);
    LastItem(w, Render(items[0], st, depth + 1), Trail(st, depth), post, items[0], acc);
    assert acc + [items[0]] == acc + items;
  }

  lemma ItemsMore(items: seq<Json>, st: Style, depth: nat, w: string, post: string, acc: seq<Json>)
    requires |items| > 1 && AllWs(w)
    requires ScanAll(Render(items[0], st, depth + 1), 0) == Through(0)
    requires Parse(Render(items[0], st, depth + 1) + "") == Done(items[0])
    ensures ParseItems(w + (RenderItems(items, st, depth) + Trail(st, depth) + ("]" + post)), acc)
      == ParseItems(Between(st, depth) + (RenderItems(items[1..], st, depth) + Trail(st, depth) + ("]" + post)),
                    acc + [items[0]])
  {
    hide Parse, ParseItems, Render, ScanAll, Between, Trail;
    var first, trail, between := Render(items[0], st, depth + 1), Trail(st, depth), Between(st, depth);
    var more := RenderItems(items[1..], st, depth);
    RenderHead(items[0], st, depth + 1);
    NextItem(w, first, between, more, trail + ("]" + post), items[0], acc);
    Regroup(more, trail, "]" + post);
    Regroup(first + ("," + between) + more, trail, "]" + post);
  }

  // ---------- objects ----------

  lemma {:induction false} SetFieldNew(fields: seq<Field>, key: string, value: Json)
    requires forall f :: f in fields ==> f.key != key
    ensures SetField(fields, key, value) == fields + [Field(key, value)]
  {
    if fields != [] {
      SetFieldNew(fields[1..], key, value);
      assert fields == [fields[0]] + fields[1..];
    }
  }

  ghost predicate Fresh(fields: seq<Field>, key: string) {
    forall f :: f in fields ==> f.key != key
  }

  /** Reading a key and finding its value. */
  lemma ReadKey(key: string, value: string)
    requires TextOk(key, KEY_MAX) && value != "" && !IsWs(value[0]) && value[0] != ':'
    ensures var u := Quote(key) + ": " + value;
      && Head(u) == '"' && SkipWs(u) == u
      && KeyEnds(Tail(u)) && CutNul(ReadQuoted(Tail(u), KEY_MAX).0) == key
      && AtValue(ReadQuoted(Tail(u), KEY_MAX).1) == value
  {
    hide ReadQuoted, Escape, CutOff;
    var u := Quote(key) + ": " + value;
    var rest := ": " + value;
    QuoteWhole(key);
    hide Quote;
    SkipNothing(u);
    ReadEscaped(key, rest, KEY_MAX);
    QuotedNotCutOff(key, rest, KEY_MAX);
    CutNulWhole(key);
    QuotedTail(Escape(key), rest);
    assert u == "\"" + Escape(key) + "\"" + rest;
    assert Tail("\"" + rest) == rest;
    SkipNothing(rest);
    assert Tail(rest) == " " + value;
    SkipWsOver(" ", value);
    SkipNothing(value);
  }

  /** One turn of the field loop over `w "key": first w' after`. */
  lemma FieldsTurn(w: string, key: string, first: string, w': string, after: string, v: Json, acc: seq<Field>)
    requires TextOk(key, KEY_MAX) && Fresh(acc, key)
    requires first != "" && !IsWs(first[0]) && !IsClose(first[0]) && first[0] != '\0' && first[0] != ':'
    requires ScanAll(first, 0) == Through(0) && AllWs(w) && AllWs(w')
    requires after != "" && (after[0] == ',' || after[0] == '}')
    requires Parse(first + w') == Done(v)
    ensures ParseFields(w + (Quote(key) + ": " + (first + w' + after)), acc)
      == ParseFields(if after[0] == ',' then after[1..] else after, acc + [Field(key, v)])
  {
    hide Parse, ScanAll, ReadQuoted, Quote, ElementLength, AtValue, CutNul, SkipWs, KeyEnds;
    var value := first + w' + after;
    var u := Quote(key) + ": " + value;
    var t := w + u;
    ReadKey(key, value);
    ParseElement(first, w', after, v);
    SkipWsOver(w, u);
    assert Head(t) == if w == "" then '"' else w[0];
    AfterIs(after);
    SetFieldNew(acc, key, v);
  }

  lemma AfterIs(after: string)
    requires after != "" && (after[0] == ',' || IsClose(after[0]))
    ensures AfterElement(after) == if after[0] == ',' then after[1..] else after
  {
    SkipNothing(after);
  }

  lemma FieldsEnd(w: string, post: string, acc: seq<Field>)
    requires AllWs(w)
    ensures ParseFields(w + ("}" + post), acc) == Done(Obj(acc))
  {
    SkipWsOver(w, "}" + post);
    SkipNothing("}" + post);
    if w == "" { assert w + ("}" + post) == "}" + post; }
  }

  lemma LastField(w: string, key: string, first: string, trail: string, post: string, v: Json, acc: seq<Field>)
    requires TextOk(key, KEY_MAX) && Fresh(acc, key)
    requires first != "" && !IsWs(first[0]) && !IsClose(first[0]) && first[0] != '\0' && first[0] != ':'
    requires ScanAll(first, 0) == Through(0) && AllWs(w) && AllWs(trail)
    requires Parse(first + trail) == Done(v)
    ensures ParseFields(w + (Quote(key) + ": " + first + trail + ("}" + post)), acc) == Done(Obj(acc + [Field(key, v)]))
  {
    hide Parse, ParseFields, ScanAll, Quote;
    FieldsTurn(w, key, first, trail, "}" + post, v, acc);
    FieldsEnd("", post, acc + [Field(key, v)]);
    assert "" + ("}" + post) == "}" + post;
    assert Quote(key) + ": " + first + trail + ("}" + post) == Quote(key) + ": " + (first + trail + ("}" + post));
  }

  lemma NextField(w: string, key: string, first: string, between: string, more: string, trail: string, v: Json,
                  acc: seq<Field>)
    requires TextOk(key, KEY_MAX) && Fresh(acc, key)
    requires first != "" && !IsWs(first[0]) && !IsClose(first[0]) && first[0] != '\0' && first[0] != ':'
    requires ScanAll(first, 0) == Through(0) && AllWs(w)
    requires Parse(first + "") == Done(v)
    ensures ParseFields(w + (Quote(key) + ": " + first + ("," + between) + more + trail), acc)
      == ParseFields(between + (more + trail), acc + [Field(key, v)])
  {
    hide Parse, ParseFields, ScanAll, Quote;
    var after := "," + (between + (more + trail));
    FieldsTurn(w, key, first, "", after, v, acc);
    assert after[1..] == between + (more + trail);
    assert Quote(key) + ": " + first + ("," + between) + more + trail == Quote(key) + ": " + (first + "" + after);
  }

  lemma BraceTail(a: string, w: string)
    ensures var t := "{" + a + "}" + w; t != "" && t[0] == '{' && Tail(t) == a + ("}" + w)
  {
  }

  lemma EmptyObjectParse(st: Style, depth: nat, w: string)
    requires AllWs(w)
    ensures Parse(Render(Obj([]), st, depth) + w) == Done(Obj([]))
  {
    hide Parse, ParseFields, Trail;
    var lead := if st.Compact? then "" else "\n";
    var t := Render(Obj([]), st, depth) + w;
    LayoutIsWs(st, depth);
    Regroup("{", lead, Trail(st, depth));
    BraceTail(lead + Trail(st, depth), w);
    ParseObjectText(t);
    FieldsEnd(lead + Trail(st, depth), w, []);
  }

  lemma ObjectText(fields: seq<Field>, st: Style, depth: nat, w: string)
    requires fields != []
    ensures Parse(Render(Obj(fields), st, depth) + w)
      == ParseFields(Lead(st, depth) + (RenderFields(fields, st, depth) + Trail(st, depth) + ("}" + w)), [])
  {
    hide Parse, ParseFields, RenderFields, Lead, Trail;
    var t := Render(Obj(fields), st, depth) + w;
    ParseObjectText(t);
    assert Tail(t) == Lead(st, depth) + (RenderFields(fields, st, depth) + Trail(st, depth) + ("}" + w));
  }

  lemma {:induction false} ObjectParse(fields: seq<Field>, st: Style, depth: nat, w: string)
    requires Printable(Obj(fields)) && AllWs(w)
    ensures Parse(Render(Obj(fields), st, depth) + w) == Done(Obj(fields))
    decreases fields, 3
  {
    if fields == [] {
      EmptyObjectParse(st, depth, w);
    } else {
      assert FieldsOk(fields, []);
      hide *;
      LayoutIsWs(st, depth);
      assert AllWs(Lead(st, depth));
      ObjectText(fields, st, depth, w);
      FieldsParse(fields, st, depth, Lead(st, depth), w, []);
      assert [] + fields == fields;
    }
  }

  ghost predicate FieldsOk(fields: seq<Field>, acc: seq<Field>) {
    && DistinctKeys(fields)
    && forall f :: f in fields ==> TextOk(f.key, KEY_MAX) && Nestable(f.value) && Fresh(acc, f.key)
  }

  lemma FieldsOkNext(fields: seq<Field>, acc: seq<Field>)
    requires fields != [] && FieldsOk(fields, acc)
    ensures FieldsOk(fields[1..], acc + [fields[0]])
    ensures TextOk(fields[0].key, KEY_MAX) && Nestable(fields[0].value) && Printable(fields[0].value)
    ensures Fresh(acc, fields[0].key)
  {
    assert fields[0] in fields;
    forall f | f in fields[1..] ensures Fresh(acc + [fields[0]], f.key) && f in fields {
      var i :| 0 <= i < |fields[1..]| && fields[1..][i] == f;
      assert fields[i + 1] == f && fields[0].key != fields[i + 1].key;
    }
  }

  lemma {:induction false} FieldsParse(fields: seq<Field>, st: Style, depth: nat, w: string, post: string,
                                       acc: seq<Field>)
    requires fields != [] && FieldsOk(fields, acc) && AllWs(w)
    ensures ParseFields(w + (RenderFields(fields, st, depth) + Trail(st, depth) + ("}" + post)), acc)
      == Done(Obj(acc + fields))
    decreases fields, 2
  {
    LayoutIsWs(st, depth);
    FieldsOkNext(fields, acc);
    hide *;
    var f := fields[0];
    RenderScans(f.value, st, depth + 1, 0);
    if |fields| == 1 {
      ParseRendered(f.value, st, depth + 1, Trail(st, depth));
      FieldsLast(fields, st, depth, w, post, acc);
    } else {
      NoWs();
      ParseRendered(f.value, st, depth + 1, "");
      FieldsParse(fields[1..], st, depth, Between(st, depth), post, acc + [f]);
      FieldsMore(fields, st, depth, w, post, acc);
      TakeFirst(fields, acc);
    }
  }

  lemma FieldsLast(fields: seq<Field>, st: Style, depth: nat, w: string, post: string, acc: seq<Field>)
    requires |fields| == 1 && AllWs(w) && AllWs(Trail(st, depth))
    requires TextOk(fields[0].key, KEY_MAX) && Fresh(acc, fields[0].key)
    requires ScanAll(Render(fields[0].value, st, depth + 1), 0) == Through(0)
    requires Parse(Render(fields[0].value, st, depth + 1) + Trail(st, depth)) == Done(fields[0].value)
    ensures ParseFields(w + (RenderFields(fields, st, depth) + Trail(st, depth) + ("}" + post)), acc)
      == Done(Obj(acc + fields))
  {
    hide Parse, ParseFields, Render, ScanAll, Trail, Quote, TextOk, Fresh;
    var f := fields[0];
    RenderHead(f.value, st, depth + 1);
    LastField(w, f.key, Render(f.value, st, depth + 1), Trail(st, depth), post, f.value, acc);
    assert acc + [f] == acc + fields;
  }

  lemma FieldsMore(fields: seq<Field>, st: Style, depth: nat, w: string, post: string, acc: seq<Field>)
    requires |fields| > 1 && AllWs(w)
    requires TextOk(fields[0].key, KEY_MAX) && Fresh(acc, fields[0].key)
    requires ScanAll(Render(fields[0].value, st, depth + 1), 0) == Through(0)
    requires Parse(Render(fields[0].value, st, depth + 1) + "") == Done(fields[0].value)
    ensures ParseFields(w + (RenderFields(fields, st, depth) + Trail(st, depth) + ("}" + post)), acc)
      == ParseFields(Between(st, depth) + (RenderFields(fields[1..], st, depth) + Trail(st, depth) + ("}" + post)),
                     acc + [fields[0]])
  {
    hide Parse, ParseFields, Render, ScanAll, Between, Trail, Quote, TextOk, Fresh;
    var f, trail, between := fields[0], Trail(st, depth), Between(st, depth);
    var first, more := Render(f.value, st, depth + 1), RenderFields(fields[1..], st, depth);
    RenderHead(f.value, st, depth + 1);
    NextField(w, f.key, first, between, more, trail + ("}" + post), f.value, acc);
    Regroup(more, trail, "}" + post);
    Regroup(Quote(f.key) + ": " + first + ("," + between) + more, trail, "}" + post);
  }

  // ---------- the main results ----------

  /** JSON.parse undoes JSON.stringify, compact or indented by any width. */
  lemma RoundTrip(v: Json, st: Style)
    requires Printable(v)
    ensures Parse(Render(v, st, 0)) == Done(v)
  {
    NoWs();
    ParseRendered(v, st, 0, "");
    assert Render(v, st, 0) + "" == Render(v, st, 0);
  }

  /** So the two layouts of a value are the same text to the parser. */
  lemma IndentationIsInvisible(v: Json, n: nat)
    requires Printable(v)
    ensures Parse(Render(v, Pretty(n), 0)) == Parse(Render(v, Compact, 0)) == Done(v)
  {
    RoundTrip(v, Pretty(n));
    RoundTrip(v, Compact);
  }

  /** An integer comes back exactly if it has at most six significant digits; otherwise what
      comes back is the integer rounded to six. */
  lemma NumberRoundTripExact(x: real, st: Style)
    requires Integral(x)
    ensures Parse(Render(Num(x), st, 0)) == Done(Num(Printed(x.Floor) as real))
    ensures Parse(Render(Num(x), st, 0)) == Done(Num(x)) <==> SixDigits(x.Floor)
  {
    var t := General(x.Floor);
    ReadGeneral(x.Floor, "");
    PrintedExactly(x.Floor);
    GeneralChars(x.Floor);
    hide Parse, General, ReadNumber;
    assert t + "" == t;
    ParseNumberText(t);
  }

  /** A string comes back exactly if it has no NUL and fits the buffer. */
  lemma StringRoundTripExact(s: string, st: Style)
    ensures Parse(Render(Str(s), st, 0)) == Done(Str(s)) <==> |s| <= 4095 && '\0' !in s
  {
    var t := Quote(s);
    assert t != "" && t[0] == '"';
    ParseQuotedText(t);
    if TextOk(s, STRING_MAX) {
      QuoteWhole(s);
      QuotedTail(Escape(s), "");
      assert Quote(s) == "\"" + Escape(s) + "\"" + "";
      hide ReadQuoted, CutNul, CutOff, Quote, Escape, Parse;
      assert t + "" == t;
      ReadEscaped(s, "", STRING_MAX);
      QuotedNotCutOff(s, "", STRING_MAX);
      CutNulWhole(s);
    } else {
      hide ReadQuoted, CutNul, CutOff, Quote, Escape, Parse;
      ReadFits(Tail(t), STRING_MAX);
    }
  }

  // ---------- exactly when nesting breaks ----------

  /** Whatever the text, what is read between quotes is cut at NULs and fits the buffer. */
  lemma {:induction false} ReadFits(t: string, room: nat)
    ensures TextOk(CutNul(ReadQuoted(t, room).0), room)
  {
    CutNulFits(ReadQuoted(t, room).0);
    ReadShort(t, room);
  }

  lemma {:induction false} CutNulFits(s: string)
    ensures |CutNul(s)| <= |s| && '\0' !in CutNul(s)
  {
    if s != "" { CutNulFits(s[1..]); }
  }

  lemma {:induction false} ReadShort(t: string, room: nat)
    ensures |ReadQuoted(t, room).0| <= room
    decreases room
  {
    if room > 0 {
      ReadShort(Tail(t), room - 1);
      ReadShort(Tail(Tail(t)), room - 1);
    }
  }

  /** A turn of the read loop scans like the character it stores. */
  lemma StoredScans(c: char, more: string, depth: nat)
    requires c != '\0'
    ensures ScanAll([Unescape(c)] + more, depth) == ScanAll([c] + more, depth)
  {
    assert ([Unescape(c)] + more)[1..] == more == ([c] + more)[1..];
  }

  /** What is read from a text the scanner gets through, the scanner gets through. */
  lemma {:induction false} ReadScans(t: string, room: nat, depth: nat)
    requires ScanAll(t, depth).Through?
    ensures ScanAll(CutNul(ReadQuoted(t, room).0), depth).Through?
    decreases room
  {
    if Head(t) != '\0' && Head(t) != '"' && room > 0 {
      var u := if t[0] == '\\' then t[1..] else t;
      if u != "" {
        assert ScanAll(u, depth).Through? && u[0] != '\0';
        var x := CutNul(ReadQuoted(u[1..], room - 1).0);
        var d := if IsOpen(u[0]) then depth + 1 else if IsClose(u[0]) then depth - 1 else depth;
        ReadScans(u[1..], room - 1, d);
        StoredScans(u[0], x, depth);
        assert ([u[0]] + x)[1..] == x;
      }
    }
  }

  lemma {:induction false} ElementPasses(t: string, depth: nat)
    ensures ScanAll(t[..ElementLength(t, depth)], depth).Through?
  {
    var k := ElementLength(t, depth);
    if k > 0 {
      var d := if IsOpen(t[0]) then depth + 1 else if IsClose(t[0]) then depth - 1 else depth;
      ElementPasses(t[1..], d);
      assert t[..k][1..] == t[1..][..k - 1];
    }
  }

  /** A text the scanner gets through is one element, to its end. */
  lemma {:induction false} PassedWhole(t: string, depth: nat)
    requires ScanAll(t, depth).Through?
    ensures ElementLength(t, depth) == |t|
  {
    if t != "" {
      PassedWhole(t[1..], if IsOpen(t[0]) then depth + 1 else if IsClose(t[0]) then depth - 1 else depth);
    }
  }

  lemma {:induction false} ScanSkipped(t: string, depth: nat)
    ensures ScanAll(SkipWs(t), depth) == ScanAll(t, depth)
  {
    if t != "" && IsWs(t[0]) { ScanSkipped(t[1..], depth); }
  }

  /** The strings a loop can yield: the scanner gets through them, perhaps leaving a bracket open. */
  ghost predicate Yielded(v: Json) { v.Str? ==> TextOk(v.s, STRING_MAX) && ScanAll(v.s, 0).Through? }

  lemma ElementYielded(u: string)
    ensures var k := ElementLength(u, 0); Parse(u[..k]).Done? ==> Yielded(Parse(u[..k]).value)
  {
    var t := u[..ElementLength(u, 0)];
    ElementPasses(u, 0);
    ScanSkipped(t, 0);
    var q := SkipWs(t);
    if Parse(t).Done? && Parse(t).value.Str? {
      ParsedString(t);
      assert ScanAll(Tail(q), 0).Through?;
      ReadScans(Tail(q), STRING_MAX, 0);
      ReadFits(Tail(q), STRING_MAX);
    }
  }

  lemma ParsedString(t: string)
    requires Parse(t).Done? && Parse(t).value.Str?
    ensures Head(SkipWs(t)) == '"' && Parse(t).value.s == CutNul(ReadQuoted(Tail(SkipWs(t)), STRING_MAX).0)
  {
    var u := SkipWs(t);
    ItemsShape(Tail(u), []);
    FieldsShape(Tail(u), []);
    hide ReadQuoted, CutNul, CutOff, ReadNumber, ParseItems, ParseFields;
  }

  /** One turn of the element loop. */
  lemma ItemsTurnIs(t: string, items: seq<Json>)
    ensures Head(t) == '\0' || Head(t) == ']' || Head(SkipWs(t)) == ']' ==> ParseItems(t, items) == Done(Arr(items))
    ensures Head(t) != '\0' && Head(t) != ']' && Head(SkipWs(t)) != ']' ==>
      var u := SkipWs(t);
      var n := ElementLength(u, 0);
      var rest := AfterElement(u[n..]);
      ParseItems(t, items) == match Parse(u[..n])
        case Done(v) => if |rest| == |t| then Hangs else ParseItems(rest, items + [v])
        case Hangs => Hangs
        case Overruns => Overruns
  {
  }

  lemma {:induction false} ItemsShape(t: string, acc: seq<Json>)
    ensures ParseItems(t, acc).Done? ==> ParseItems(t, acc).value.Arr?
    decreases |t|
  {
    if Head(t) != '\0' && Head(t) != ']' && Head(SkipWs(t)) != ']' {
      var u := SkipWs(t);
      var k := ElementLength(u, 0);
      var rest := AfterElement(u[k..]);
      if Parse(u[..k]).Done? && |rest| != |t| {
        hide Parse;
        ItemsShape(rest, acc + [Parse(u[..k]).value]);
      }
    }
  }

  /** The next turn of the field loop: the key and where its value begins. */
  ghost function FieldStart(t: string): (r: (string, string))
    requires Head(SkipWs(t)) == '"'
    ensures |r.1| < |t|
  {
    var k := ReadQuoted(Tail(SkipWs(t)), KEY_MAX);
    (CutNul(k.0), AtValue(k.1))
  }

  lemma FieldsTurnIs(t: string, acc: seq<Field>)
    ensures Head(t) == '\0' || Head(t) == '}' || Head(SkipWs(t)) != '"' ==> ParseFields(t, acc) == Done(Obj(acc))
    ensures Head(t) != '\0' && Head(t) != '}' && Head(SkipWs(t)) == '"' && KeyEnds(Tail(SkipWs(t))) ==>
      var (key, v) := FieldStart(t);
      var k := ElementLength(v, 0);
      ParseFields(t, acc) == match Parse(v[..k])
        case Done(value) => ParseFields(AfterElement(v[k..]), SetField(acc, key, value))
        case stuck => stuck
    ensures Head(t) != '\0' && Head(t) != '}' && Head(SkipWs(t)) == '"' && !KeyEnds(Tail(SkipWs(t))) ==>
      ParseFields(t, acc) == Overruns
  {
    hide KeyEnds;
  }

  lemma {:induction false} FieldsShape(t: string, acc: seq<Field>)
    ensures ParseFields(t, acc).Done? ==> ParseFields(t, acc).value.Obj?
    decreases |t|
  {
    FieldsTurnIs(t, acc);
    if Head(t) != '\0' && Head(t) != '}' && Head(SkipWs(t)) == '"' && KeyEnds(Tail(SkipWs(t))) {
      hide Parse, ParseFields, FieldStart, SetField, CutNul;
      var (key, v) := FieldStart(t);
      var k := ElementLength(v, 0);
      if Parse(v[..k]).Done? { FieldsShape(AfterElement(v[k..]), SetField(acc, key, Parse(v[..k]).value)); }
    }
  }

  lemma {:induction false} ItemsYielded(t: string, acc: seq<Json>)
    requires forall x :: x in acc ==> Yielded(x)
    ensures ParseItems(t, acc).Done? && ParseItems(t, acc).value.Arr? ==>
      forall x :: x in ParseItems(t, acc).value.items ==> Yielded(x)
    decreases |t|
  {
    if Head(t) != '\0' && Head(t) != ']' && Head(SkipWs(t)) != ']' {
      var u := SkipWs(t);
      var k := ElementLength(u, 0);
      var rest := AfterElement(u[k..]);
      if Parse(u[..k]).Done? && |rest| != |t| {
        ElementYielded(u);
        hide Parse, Yielded;
        ItemsYielded(rest, acc + [Parse(u[..k]).value]);
      }
    }
  }

  lemma {:induction false} SetFieldYielded(acc: seq<Field>, key: string, value: Json)
    requires (forall f :: f in acc ==> Yielded(f.value)) && Yielded(value)
    ensures forall f :: f in SetField(acc, key, value) ==> Yielded(f.value)
  {
    if acc != [] { SetFieldYielded(acc[1..], key, value); }
  }

  lemma {:induction false} FieldsYielded(t: string, acc: seq<Field>)
    requires forall f :: f in acc ==> Yielded(f.value)
    ensures ParseFields(t, acc).Done? && ParseFields(t, acc).value.Obj? ==>
      forall f :: f in ParseFields(t, acc).value.fields ==> Yielded(f.value)
    decreases |t|
  {
    FieldsTurnIs(t, acc);
    if Head(t) != '\0' && Head(t) != '}' && Head(SkipWs(t)) == '"' && KeyEnds(Tail(SkipWs(t))) {
      var (key, v) := FieldStart(t);
      ElementYielded(v);
      hide Parse, ParseFields, FieldStart, SetField, CutNul, Yielded;
      var k := ElementLength(v, 0);
      if Parse(v[..k]).Done? {
        var value := Parse(v[..k]).value;
        SetFieldYielded(acc, key, value);
        FieldsYielded(AfterElement(v[k..]), SetField(acc, key, value));
      }
    }
  }

  /** No text at all, well formed or not, parses to an array or object that directly holds
      a string the scanner stops in: such a string never comes back from inside one. */
  lemma NestedStringsPass(text: string)
    ensures match Parse(text)
      case Done(Arr(items)) => forall x :: x in items ==> Yielded(x)
      case Done(Obj(fields)) => forall f :: f in fields ==> Yielded(f.value)
      case _ => true
  {
    var t := Tail(SkipWs(text));
    ContainerText(text);
    ItemsYielded(t, []);
    FieldsYielded(t, []);
    hide Parse, ParseItems, ParseFields, Yielded;
  }

  /** Arrays and objects come from the two loops only. */
  lemma ContainerText(text: string)
    ensures match Parse(text)
      case Done(Arr(_)) => SkipWs(text) != "" && Parse(text) == ParseItems(Tail(SkipWs(text)), [])
      case Done(Obj(_)) => SkipWs(text) != "" && Parse(text) == ParseFields(Tail(SkipWs(text)), [])
      case _ => true
  {
    var t := SkipWs(text);
    ItemsShape(Tail(t), []);
    FieldsShape(Tail(t), []);
    hide SkipWs, ReadQuoted, CutNul, CutOff, ReadNumber, ParseItems, ParseFields;
  }

  /** A string that leaves a bracket open. */
  ghost predicate Unclosed(v: Json) { v.Str? && ScanAll(v.s, 0) != Through(0) }

  /** How many elements come back: those up to and including the first unclosed string. */
  ghost function Reached(items: seq<Json>): (n: nat)
    ensures n <= |items| && (items != [] ==> n > 0)
  {
    if items == [] then 0 else if Unclosed(items[0]) then 1 else 1 + Reached(items[1..])
  }

  /** An element the reader can get: any string it can yield, or any nestable value. */
  ghost predicate Element(v: Json) { if v.Str? then Yielded(v) else Nestable(v) }

  lemma ElementScans(v: Json, st: Style, depth: nat, d: nat)
    requires Element(v)
    ensures var r := ScanAll(Render(v, st, depth), d); r.Through? && r.depth >= d && (Unclosed(v) ==> r.depth > d)
  {
    if v.Str? {
      var e := ScanAll(v.s, 0).depth;
      ScanDeeper(v.s, 0, e, d);
      ScanQuote(v.s, d);
    } else {
      RenderScans(v, st, depth, d);
    }
  }

  lemma {:induction false} ElementsScan(items: seq<Json>, st: Style, depth: nat, d: nat)
    requires (forall x :: x in items ==> Element(x)) && (d > 0 || (items != [] && Unclosed(items[0])))
    ensures var r := ScanAll(RenderItems(items, st, depth), d); r.Through? && r.depth >= d && r.depth > 0
    decreases |items|
  {
    if items != [] {
      var first := Render(items[0], st, depth + 1);
      ElementScans(items[0], st, depth + 1, d);
      var e := ScanAll(first, d).depth;
      if |items| > 1 {
        ElementsScan(items[1..], st, depth, e);
        LayoutIsWs(st, depth);
        hide ScanAll, Render, Element, Unclosed, Between;
        var f := ScanAll(RenderItems(items[1..], st, depth), e).depth;
        ScanComma(Between(st, depth), e);
        ScanPair(first, "," + Between(st, depth), d, e, e);
        ScanPair(first + ("," + Between(st, depth)), RenderItems(items[1..], st, depth), d, e, f);
      }
    }
  }

  /** The text of an array's elements, up to its closing bracket. */
  ghost function ItemsText(items: seq<Json>, st: Style, depth: nat): string {
    RenderItems(items, st, depth) + Trail(st, depth) + "]"
  }

  /** The text from an unclosed string to the end of its array is one element ... */
  lemma UnclosedSwallows(items: seq<Json>, st: Style, depth: nat)
    requires items != [] && (forall x :: x in items ==> Element(x)) && Unclosed(items[0])
    ensures ElementLength(ItemsText(items, st, depth), 0) == |ItemsText(items, st, depth)|
  {
    var text := RenderItems(items, st, depth);
    ElementsScan(items, st, depth, 0);
    LayoutIsWs(st, depth);
    var d := ScanAll(text, 0).depth;
    assert ScanAll("]", d) == Through(d - 1) by { assert "]"[1..] == ""; }
    hide RenderItems, Trail;
    ScanWs(Trail(st, depth), d);
    ScanPair(text, Trail(st, depth), 0, d, d);
    ScanPair(text + Trail(st, depth), "]", 0, d, d - 1);
    PassedWhole(text + Trail(st, depth) + "]", 0);
  }

  /** ... and is read as that string. */
  lemma UnclosedReads(s: string, rest: string)
    requires TextOk(s, STRING_MAX)
    ensures Parse(Quote(s) + rest) == Done(Str(s)) && Head(Quote(s) + rest) == '"'
  {
    QuoteWhole(s);
    QuotedTail(Escape(s), rest);
    hide Parse, ReadQuoted, Quote, Escape, CutNul, CutOff;
    ReadEscaped(s, rest, STRING_MAX);
    QuotedNotCutOff(s, rest, STRING_MAX);
    CutNulWhole(s);
    ParseQuotedText(Quote(s) + rest);
  }

  lemma RenderFirst(items: seq<Json>, st: Style, depth: nat) returns (rest: string)
    requires items != []
    ensures RenderItems(items, st, depth) == Render(items[0], st, depth + 1) + rest
  {
    hide Render;
    var first := Render(items[0], st, depth + 1);
    if |items| == 1 {
      rest := "";
      assert first + "" == first;
    } else {
      rest := "," + Between(st, depth) + RenderItems(items[1..], st, depth);
    }
  }

  /** The last turn of the loop, if one element is all that is left. */
  lemma WholeTurn(w: string, u: string, v: Json, acc: seq<Json>)
    requires AllWs(w) && Head(u) == '"' && ElementLength(u, 0) == |u| && Parse(u) == Done(v)
    ensures ParseItems(w + u, acc) == Done(Arr(acc + [v]))
  {
    var t := w + u;
    SkipWsOver(w, u);
    SkipNothing(u);
    assert Head(t) == if w == "" then '"' else w[0];
    assert u[..|u|] == u && u[|u|..] == "";
  }

  lemma UnclosedText(items: seq<Json>, st: Style, depth: nat) returns (rest: string)
    requires items != [] && items[0].Str?
    ensures ItemsText(items, st, depth) == Quote(items[0].s) + rest
  {
    var more := RenderFirst(items, st, depth);
    hide RenderItems, Trail, Quote;
    rest := more + Trail(st, depth) + "]";
    Regroup(Quote(items[0].s), more, Trail(st, depth));
    Regroup(Quote(items[0].s), more + Trail(st, depth), "]");
  }

  lemma UnclosedTurn(items: seq<Json>, st: Style, depth: nat, w: string, acc: seq<Json>)
    requires items != [] && AllWs(w) && (forall x :: x in items ==> Element(x)) && Unclosed(items[0])
    ensures ParseItems(w + ItemsText(items, st, depth), acc) == Done(Arr(acc + [items[0]]))
  {
    hide ItemsText, Parse, ParseItems, ElementLength, Quote, Nestable, AllWs;
    UnclosedSwallows(items, st, depth);
    var rest := UnclosedText(items, st, depth);
    assert Element(items[0]);
    UnclosedReads(items[0].s, rest);
    WholeTurn(w, ItemsText(items, st, depth), items[0], acc);
  }

  lemma ClosedIsNestable(v: Json)
    requires Element(v) && !Unclosed(v)
    ensures Nestable(v) && Printable(v)
  {
    match v
    case Arr(items) => assert Nestable(v) ==> forall x :: x in items ==> Nestable(x);
    case Obj(fields) =>
    case _ =>
  }

  lemma ClosedLast(items: seq<Json>, st: Style, depth: nat, w: string, acc: seq<Json>)
    requires |items| == 1 && AllWs(w) && Nestable(items[0]) && Printable(items[0])
    ensures ParseItems(w + ItemsText(items, st, depth), acc) == Done(Arr(acc + items))
  {
    LayoutIsWs(st, depth);
    hide Render, RenderItems, Trail, Parse, ParseItems, ScanAll, Nestable, Printable, AllWs;
    RenderScans(items[0], st, depth + 1, 0);
    ParseRendered(items[0], st, depth + 1, Trail(st, depth));
    ItemsLast(items, st, depth, w, "", acc);
    assert "]" + "" == "]";
  }

  lemma ClosedMore(items: seq<Json>, st: Style, depth: nat, w: string, acc: seq<Json>)
    requires |items| > 1 && AllWs(w) && Nestable(items[0]) && Printable(items[0])
    ensures ParseItems(w + ItemsText(items, st, depth), acc)
      == ParseItems(Between(st, depth) + ItemsText(items[1..], st, depth), acc + [items[0]])
  {
    NoWs();
    hide Render, RenderItems, Trail, Between, Parse, ParseItems, ScanAll, Nestable, Printable, AllWs;
    RenderScans(items[0], st, depth + 1, 0);
    ParseRendered(items[0], st, depth + 1, "");
    ItemsMore(items, st, depth, w, "", acc);
    assert "]" + "" == "]";
  }

  lemma ReachedNext(items: seq<Json>, acc: seq<Json>)
    requires items != [] && !Unclosed(items[0])
    ensures acc + [items[0]] + items[1..][..Reached(items[1..])] == acc + items[..Reached(items)]
  {
    TakeMore(items, acc, Reached(items[1..]));
  }

  lemma TakeMore<T>(items: seq<T>, acc: seq<T>, n: nat)
    requires n < |items|
    ensures acc + [items[0]] + items[1..][..n] == acc + items[..n + 1]
  {
    assert items[1..][..n] == items[1..n + 1];
    assert items[..n + 1] == [items[0]] + items[1..n + 1];
  }

  /** What comes back of an array, in closed form. */
  lemma {:induction false} ItemsReached(items: seq<Json>, st: Style, depth: nat, w: string, acc: seq<Json>)
    requires items != [] && AllWs(w) && forall x :: x in items ==> Element(x)
    ensures ParseItems(w + ItemsText(items, st, depth), acc) == Done(Arr(acc + items[..Reached(items)]))
    decreases |items|
  {
    if Unclosed(items[0]) {
      UnclosedTurn(items, st, depth, w, acc);
      assert items[..1] == [items[0]];
    } else {
      ClosedIsNestable(items[0]);
      LayoutIsWs(st, depth);
      ReachedNext(items, acc);
      hide *;
      if |items| == 1 {
        ClosedLast(items, st, depth, w, acc);
        NoneReached(items[1..]);
        assert items == [items[0]] + items[1..][..Reached(items[1..])];
        assert acc + items == acc + [items[0]] + items[1..][..Reached(items[1..])];
      } else {
        ClosedMore(items, st, depth, w, acc);
        ItemsReached(items[1..], st, depth, Between(st, depth), acc + [items[0]]);
      }
    }
  }

  lemma NoneReached(items: seq<Json>)
    requires items == []
    ensures Reached(items) == 0
  {
  }

  /** Every string fits and passes the scanner, and all but the last leave no bracket open. */
  ghost predicate Survives(items: seq<Json>) {
    forall i :: 0 <= i < |items| ==> Yielded(items[i]) && (i < |items| - 1 ==> !Unclosed(items[i]))
  }

  lemma {:induction false} ReachedAll(items: seq<Json>)
    requires forall x :: x in items ==> Yielded(x)
    ensures Reached(items) == |items| <==> Survives(items)
    decreases |items|
  {
    hide Yielded, Unclosed;
    if items != [] {
      ReachedAll(items[1..]);
      if Survives(items) {
        forall i | 0 <= i < |items[1..]|
          ensures Yielded(items[1..][i]) && (i < |items[1..]| - 1 ==> !Unclosed(items[1..][i]))
        {
          assert items[1..][i] == items[i + 1];
        }
      } else if Survives(items[1..]) && (|items| > 1 ==> !Unclosed(items[0])) {
        forall i | 0 <= i < |items| ensures Yielded(items[i]) && (i < |items| - 1 ==> !Unclosed(items[i])) {
          assert i > 0 ==> items[i] == items[1..][i - 1];
        }
      }
    }
  }

  lemma TopText(items: seq<Json>, st: Style)
    requires items != []
    ensures Parse(Render(Arr(items), st, 0)) == ParseItems(Lead(st, 0) + ItemsText(items, st, 0), [])
  {
    ArrayText(items, st, 0, "");
    hide Parse, ParseItems, Render, RenderItems, Lead, Trail;
    assert Render(Arr(items), st, 0) + "" == Render(Arr(items), st, 0) && "]" + "" == "]";
  }

  /** An array of strings of any kind, and of other values that can be nested, comes back
      if and only if its strings fit and pass the scanner and all but the last close what
      they open. */
  lemma ArrayRoundTripExact(items: seq<Json>, st: Style)
    requires forall x :: x in items ==> x.Str? || Nestable(x)
    ensures Parse(Render(Arr(items), st, 0)) == Done(Arr(items)) <==> Survives(items)
  {
    var text := Render(Arr(items), st, 0);
    if items == [] {
      NoWs();
      EmptyArrayParse(st, 0, "");
      assert text + "" == text;
    } else if forall x :: x in items ==> Yielded(x) {
      assert forall x :: x in items ==> Element(x);
      LayoutIsWs(st, 0);
      ReachedAll(items);
      hide *;
      assert text + "" == text;
      TopText(items, st);
      ItemsReached(items, st, 0, Lead(st, 0), []);
      assert [] + items[..Reached(items)] == items[..Reached(items)];
      assert items[..|items|] == items;
    } else {
      hide Parse, Render;
      NestedStringsPass(text);
      var x :| x in items && !Yielded(x);
      var i :| 0 <= i < |items| && items[i] == x;
    }
  }

  // ---------- objects ----------

  /** A key that closes no bracket it does not open. */
  ghost predicate KeyPasses(key: string) { ScanAll(key, 1).Through? && ScanAll(key, 1).depth > 0 }

  /** How many fields come back: those up to and including the first unclosed string. */
  ghost function ReachedFields(fields: seq<Field>): (n: nat)
    ensures n <= |fields| && (fields != [] ==> n > 0)
  {
    if fields == [] then 0 else if Unclosed(fields[0].value) then 1 else 1 + ReachedFields(fields[1..])
  }

  /** The text of an object's fields, up to its closing bracket. */
  ghost function FieldsText(fields: seq<Field>, st: Style, depth: nat): string {
    RenderFields(fields, st, depth) + Trail(st, depth) + "}"
  }

  lemma KeyScans(key: string, d: nat)
    requires KeyPasses(key) && d > 0
    ensures ScanAll(Quote(key), d).Through? && ScanAll(Quote(key), d).depth >= d
  {
    ScanDeeper(key, 1, ScanAll(key, 1).depth, d - 1);
    ScanQuote(key, d);
  }

  /** What follows the first value, from a bracket depth. */
  ghost function RestOfFields(fields: seq<Field>, st: Style, depth: nat): string
    requires fields != []
  {
    if |fields| == 1 then "" else ("," + Between(st, depth)) + RenderFields(fields[1..], st, depth)
  }

  lemma FirstFieldText(fields: seq<Field>, st: Style, depth: nat)
    requires fields != []
    ensures RenderFields(fields, st, depth)
      == Quote(fields[0].key) + ": " + Render(fields[0].value, st, depth + 1) + RestOfFields(fields, st, depth)
  {
    hide Render, Quote, Between;
    var first := Quote(fields[0].key) + ": " + Render(fields[0].value, st, depth + 1);
    if |fields| == 1 {
      assert first + "" == first;
    } else {
      Regroup(first, "," + Between(st, depth), RenderFields(fields[1..], st, depth));
    }
  }

  /** Deep inside brackets the scanner does not come out again. */
  lemma {:induction false} RestScans(fields: seq<Field>, st: Style, depth: nat, d: nat)
    requires fields != [] && d > 0
    requires forall f :: f in fields ==> Element(f.value)
    requires forall i :: 0 < i < |fields| ==> KeyPasses(fields[i].key)
    ensures var r := ScanAll(RestOfFields(fields, st, depth), d); r.Through? && r.depth >= d
    decreases |fields|
  {
    if |fields| > 1 {
      var next := fields[1..];
      assert next[0] == fields[1] && next[0].value == fields[1].value;
      assert forall i :: 0 < i < |next| ==> next[i] == fields[i + 1];
      FirstFieldText(next, st, depth);
      KeyScans(next[0].key, d);
      var e := ScanAll(Quote(next[0].key), d).depth;
      ElementScans(next[0].value, st, depth + 1, e);
      var g := ScanAll(Render(next[0].value, st, depth + 1), e).depth;
      RestScans(next, st, depth, g);
      LayoutIsWs(st, depth);
      PlainPasses(": ", e);
      hide *;
      JoinScans(Between(st, depth), Quote(next[0].key), Render(next[0].value, st, depth + 1),
                RestOfFields(next, st, depth), d, e, g, ScanAll(RestOfFields(next, st, depth), g).depth);
      RestIs(fields, st, depth);
    }
  }

  lemma RestIs(fields: seq<Field>, st: Style, depth: nat)
    requires |fields| > 1
    ensures RestOfFields(fields, st, depth) == ("," + Between(st, depth)) + RenderFields(fields[1..], st, depth)
  {
  }

  lemma JoinScans(between: string, key: string, value: string, rest: string, d: nat, e: nat, g: nat, h: nat)
    requires AllWs(between) && d > 0 && ScanAll(key, d) == Through(e) && ScanAll(": ", e) == Through(e)
    requires ScanAll(value, e) == Through(g) && ScanAll(rest, g) == Through(h)
    ensures ScanAll(("," + between) + (key + ": " + value + rest), d) == Through(h)
  {
    hide ScanAll;
    ScanComma(between, d);
    ScanPair(key, ": ", d, e, e);
    ScanPair(key + ": ", value, d, e, g);
    ScanPair(key + ": " + value, rest, d, g, h);
    ScanPair("," + between, key + ": " + value + rest, d, d, h);
  }

  /** An unclosed value takes the rest of the object with it, ... */
  lemma UnclosedFieldSwallows(fields: seq<Field>, st: Style, depth: nat)
    requires fields != [] && Unclosed(fields[0].value)
    requires forall f :: f in fields ==> Element(f.value)
    requires forall i :: 0 < i < |fields| ==> KeyPasses(fields[i].key)
    ensures var u := Render(fields[0].value, st, depth + 1) + RestOfFields(fields, st, depth) + Trail(st, depth) + "}";
      ElementLength(u, 0) == |u|
  {
    var v, rest := Render(fields[0].value, st, depth + 1), RestOfFields(fields, st, depth);
    ElementScans(fields[0].value, st, depth + 1, 0);
    var d := ScanAll(v, 0).depth;
    RestScans(fields, st, depth, d);
    var e := ScanAll(rest, d).depth;
    LayoutIsWs(st, depth);
    assert ScanAll("}", e) == Through(e - 1) by { assert "}"[1..] == ""; }
    hide Render, RestOfFields, Trail, ScanAll, Element, Unclosed, KeyPasses;
    ScanWs(Trail(st, depth), e);
    ScanPair(v, rest, 0, d, e);
    ScanPair(v + rest, Trail(st, depth), 0, e, e);
    ScanPair(v + rest + Trail(st, depth), "}", 0, e, e - 1);
    PassedWhole(v + rest + Trail(st, depth) + "}", 0);
  }

  /** ... and ends the loop. */
  lemma WholeField(w: string, key: string, u: string, v: Json, acc: seq<Field>)
    requires AllWs(w) && TextOk(key, KEY_MAX) && Fresh(acc, key)
    requires Head(u) == '"' && ElementLength(u, 0) == |u| && Parse(u) == Done(v)
    ensures ParseFields(w + (Quote(key) + ": " + u), acc) == Done(Obj(acc + [Field(key, v)]))
  {
    hide Parse, ReadQuoted, Quote, ElementLength, AtValue, CutNul, SkipWs, KeyEnds;
    var q := Quote(key) + ": " + u;
    ReadKey(key, u);
    SkipWsOver(w, q);
    assert Head(w + q) == if w == "" then '"' else w[0];
    assert u[..|u|] == u && u[|u|..] == "";
    SkipNothing("");
    SetFieldNew(acc, key, v);
  }

  lemma UnclosedField(fields: seq<Field>, st: Style, depth: nat, w: string, acc: seq<Field>)
    requires fields != [] && AllWs(w) && Unclosed(fields[0].value) && TextOk(fields[0].key, KEY_MAX)
    requires Fresh(acc, fields[0].key)
    requires forall f :: f in fields ==> Element(f.value)
    requires forall i :: 0 < i < |fields| ==> KeyPasses(fields[i].key)
    ensures ParseFields(w + FieldsText(fields, st, depth), acc) == Done(Obj(acc + [fields[0]]))
  {
    var f, rest := fields[0], RestOfFields(fields, st, depth) + Trail(st, depth) + "}";
    assert Element(f.value);
    UnclosedFieldSwallows(fields, st, depth);
    UnclosedReads(f.value.s, rest);
    FieldWords(fields, st, depth);
    hide Parse, ParseFields, ElementLength, Quote, RestOfFields, FieldsText, Trail, Element, Unclosed,
         KeyPasses, TextOk, Fresh;
    assert Render(f.value, st, depth + 1) == Quote(f.value.s);
    var v := Quote(f.value.s);
    Regroup(v, RestOfFields(fields, st, depth), Trail(st, depth));
    Regroup(v, RestOfFields(fields, st, depth) + Trail(st, depth), "}");
    WholeField(w, f.key, v + rest, f.value, acc);
  }

  lemma FieldWords(fields: seq<Field>, st: Style, depth: nat)
    requires fields != []
    ensures FieldsText(fields, st, depth) == Quote(fields[0].key) + ": "
      + (Render(fields[0].value, st, depth + 1) + (RestOfFields(fields, st, depth) + Trail(st, depth) + "}"))
  {
    FirstFieldText(fields, st, depth);
    hide Render, RenderFields, Quote, RestOfFields, Trail;
    var k, v, r, t := Quote(fields[0].key) + ": ", Render(fields[0].value, st, depth + 1),
        RestOfFields(fields, st, depth), Trail(st, depth);
    Regroup(v, r, t);
    Regroup(v, r + t, "}");
    Regroup(k, v, r);
    Regroup(k, v + r, t);
    Regroup(k, v + r + t, "}");
  }

  lemma ClosedFieldLast(fields: seq<Field>, st: Style, depth: nat, w: string, acc: seq<Field>)
    requires |fields| == 1 && AllWs(w) && Nestable(fields[0].value) && Printable(fields[0].value)
    requires TextOk(fields[0].key, KEY_MAX) && Fresh(acc, fields[0].key)
    ensures ParseFields(w + FieldsText(fields, st, depth), acc) == Done(Obj(acc + fields))
  {
    LayoutIsWs(st, depth);
    hide Render, RenderFields, Trail, Parse, ParseFields, ScanAll, Nestable, Printable, AllWs, TextOk, Fresh;
    RenderScans(fields[0].value, st, depth + 1, 0);
    ParseRendered(fields[0].value, st, depth + 1, Trail(st, depth));
    FieldsLast(fields, st, depth, w, "", acc);
    assert "}" + "" == "}";
  }

  lemma ClosedFieldMore(fields: seq<Field>, st: Style, depth: nat, w: string, acc: seq<Field>)
    requires |fields| > 1 && AllWs(w) && Nestable(fields[0].value) && Printable(fields[0].value)
    requires TextOk(fields[0].key, KEY_MAX) && Fresh(acc, fields[0].key)
    ensures ParseFields(w + FieldsText(fields, st, depth), acc)
      == ParseFields(Between(st, depth) + FieldsText(fields[1..], st, depth), acc + [fields[0]])
  {
    NoWs();
    hide Render, RenderFields, Trail, Between, Parse, ParseFields, ScanAll, Nestable, Printable, AllWs, TextOk, Fresh;
    RenderScans(fields[0].value, st, depth + 1, 0);
    ParseRendered(fields[0].value, st, depth + 1, "");
    FieldsMore(fields, st, depth, w, "", acc);
    assert "}" + "" == "}";
  }

  /** Keys behind an unclosed value close no bracket they do not open. */
  ghost predicate KeysBehindPass(fields: seq<Field>) {
    forall i, j :: 0 <= i < j < |fields| && Unclosed(fields[i].value) ==> KeyPasses(fields[j].key)
  }

  /** Keys that fit and differ, from each other and from those already read, and values the
      reader can get. */
  ghost predicate Fields(fields: seq<Field>, acc: seq<Field>) {
    && DistinctKeys(fields) && KeysBehindPass(fields)
    && forall f :: f in fields ==> TextOk(f.key, KEY_MAX) && Fresh(acc, f.key) && Element(f.value)
  }

  lemma FieldsNext(fields: seq<Field>, acc: seq<Field>)
    requires fields != [] && Fields(fields, acc)
    ensures Fields(fields[1..], acc + [fields[0]])
    ensures Unclosed(fields[0].value) ==> forall i :: 0 < i < |fields| ==> KeyPasses(fields[i].key)
    ensures TextOk(fields[0].key, KEY_MAX) && Fresh(acc, fields[0].key) && Element(fields[0].value)
  {
    hide TextOk, Element, KeyPasses, Unclosed;
    assert fields[0] in fields;
    forall f | f in fields[1..] ensures Fresh(acc + [fields[0]], f.key) && f in fields {
      var i :| 0 <= i < |fields[1..]| && fields[1..][i] == f;
      assert fields[i + 1] == f && fields[0].key != fields[i + 1].key;
    }
    forall i, j | 0 <= i < j < |fields[1..]| && Unclosed(fields[1..][i].value) ensures KeyPasses(fields[1..][j].key) {
      assert fields[1..][i] == fields[i + 1] && fields[1..][j] == fields[j + 1];
    }
  }

  lemma ReachedFieldsNext(fields: seq<Field>, acc: seq<Field>)
    requires fields != [] && !Unclosed(fields[0].value)
    ensures acc + [fields[0]] + fields[1..][..ReachedFields(fields[1..])] == acc + fields[..ReachedFields(fields)]
  {
    TakeMore(fields, acc, ReachedFields(fields[1..]));
  }

  lemma NoFieldsReached(fields: seq<Field>, acc: seq<Field>)
    requires |fields| == 1
    ensures acc + [fields[0]] + fields[1..][..ReachedFields(fields[1..])] == acc + fields
  {
    assert fields == [fields[0]] && fields[1..] == [];
  }

  /** What comes back of an object, in closed form. */
  lemma {:induction false} FieldsReached(fields: seq<Field>, st: Style, depth: nat, w: string, acc: seq<Field>)
    requires fields != [] && AllWs(w) && Fields(fields, acc)
    ensures ParseFields(w + FieldsText(fields, st, depth), acc) == Done(Obj(acc + fields[..ReachedFields(fields)]))
    decreases |fields|
  {
    FieldsNext(fields, acc);
    if Unclosed(fields[0].value) {
      hide AllWs, TextOk, Fresh, Element, KeyPasses, FieldsText, ParseFields, KeysBehindPass;
      UnclosedField(fields, st, depth, w, acc);
      assert fields[..1] == [fields[0]];
    } else {
      ClosedIsNestable(fields[0].value);
      LayoutIsWs(st, depth);
      ReachedFieldsNext(fields, acc);
      hide *;
      if |fields| == 1 {
        ClosedFieldLast(fields, st, depth, w, acc);
        NoFieldsReached(fields, acc);
      } else {
        ClosedFieldMore(fields, st, depth, w, acc);
        FieldsReached(fields[1..], st, depth, Between(st, depth), acc + [fields[0]]);
      }
    }
  }

  /** Every string value fits and passes the scanner, and all but the last leave no bracket open. */
  ghost predicate FieldsSurvive(fields: seq<Field>) {
    forall i :: 0 <= i < |fields| ==> Yielded(fields[i].value) && (i < |fields| - 1 ==> !Unclosed(fields[i].value))
  }

  lemma {:induction false} ReachedAllFields(fields: seq<Field>)
    requires forall f :: f in fields ==> Yielded(f.value)
    ensures ReachedFields(fields) == |fields| <==> FieldsSurvive(fields)
    decreases |fields|
  {
    hide Yielded, Unclosed;
    if fields != [] {
      var rest := fields[1..];
      ReachedAllFields(rest);
      if FieldsSurvive(fields) {
        forall i | 0 <= i < |rest| ensures Yielded(rest[i].value) && (i < |rest| - 1 ==> !Unclosed(rest[i].value)) {
          assert rest[i] == fields[i + 1];
        }
      } else if FieldsSurvive(rest) && (|fields| > 1 ==> !Unclosed(fields[0].value)) {
        forall i | 0 <= i < |fields|
          ensures Yielded(fields[i].value) && (i < |fields| - 1 ==> !Unclosed(fields[i].value))
        {
          assert i > 0 ==> fields[i] == rest[i - 1];
        }
      }
    }
  }

  lemma TopObject(fields: seq<Field>, st: Style)
    requires fields != []
    ensures Parse(Render(Obj(fields), st, 0)) == ParseFields(Lead(st, 0) + FieldsText(fields, st, 0), [])
  {
    ObjectText(fields, st, 0, "");
    hide Parse, ParseFields, Render, RenderFields, Lead, Trail;
    assert Render(Obj(fields), st, 0) + "" == Render(Obj(fields), st, 0) && "}" + "" == "}";
  }
}
