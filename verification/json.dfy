/** The JSON parser and the two printers as the runtime runs them: cursors, buffers and
    loops, each proved against its meaning in `JsonText`. */
module JsonCode {
  import opened Basics
  import opened JsonText
  import JsonRoundTrip
  import JsonNesting

  function CharAt(s: string, p: nat): char { if p < |s| then s[p] else '\0' }

  lemma Suffix(s: string, p: nat)
    requires p <= |s|
    ensures Head(s[p..]) == CharAt(s, p)
    ensures p < |s| ==> Tail(s[p..]) == s[p + 1..]
  {
  }

  method SkipWhitespace(s: string, p: nat) returns (q: nat)
    requires p <= |s|
    ensures p <= q <= |s| && s[q..] == SkipWs(s[p..])
  {
    q := p;
    while CharAt(s, q) == ' ' || CharAt(s, q) == '\t' || CharAt(s, q) == '\n' || CharAt(s, q) == '\r'
      invariant p <= q <= |s| && SkipWs(s[q..]) == SkipWs(s[p..])
      decreases |s| - q
    {
      Suffix(s, q);
      q := q + 1;
    }
    Suffix(s, q);
  }

  /** The character the next turn of the read loop stores, and what is left after it. */
  function Stored(t: string): char {
    if Head(t) == '\\' then Unescape(Head(Tail(t))) else Head(t)
  }

  function AfterStored(t: string): string {
    if Head(t) == '\\' then Tail(Tail(t)) else Tail(t)
  }

  /** The turn stores the NUL behind a backslash that ends the text, and steps past it. */
  predicate StepsPast(t: string) { Head(t) == '\\' && Head(Tail(t)) == '\0' }

  lemma ReadTurn(buf: string, t: string, room: nat)
    requires Head(t) != '\0' && Head(t) != '"' && room > 0
    ensures buf + ReadQuoted(t, room).0 == (buf + [Stored(t)]) + ReadQuoted(AfterStored(t), room - 1).0
    ensures ReadQuoted(t, room).1 == ReadQuoted(AfterStored(t), room - 1).1
    ensures CutOff(t, room) <==> StepsPast(t) || CutOff(AfterStored(t), room - 1)
  {
  }

  lemma ReadStop(buf: string, t: string, room: nat)
    requires Head(t) == '\0' || Head(t) == '"' || room == 0
    ensures buf + ReadQuoted(t, room).0 == buf && ReadQuoted(t, room).1 == t && !CutOff(t, room)
  {
  }

  /** The same at a cursor: where the next turn goes and what it stores. */
  lemma ReadTurnAt(buf: string, s: string, q: nat, room: nat)
    requires q <= |s| && CharAt(s, q) != '\0' && CharAt(s, q) != '"' && room > 0
    ensures var escaped := CharAt(s, q) == '\\';
      var c := if escaped then Unescape(CharAt(s, q + 1)) else CharAt(s, q);
      var next := if escaped then q + 2 else q + 1;
      if escaped && CharAt(s, q + 1) == '\0' then CutOff(s[q..], room)
      else
        && next <= |s|
        && buf + ReadQuoted(s[q..], room).0 == (buf + [c]) + ReadQuoted(s[next..], room - 1).0
        && ReadQuoted(s[q..], room).1 == ReadQuoted(s[next..], room - 1).1
        && CutOff(s[q..], room) == CutOff(s[next..], room - 1)
  {
    ReadTurn(buf, s[q..], room);
    Suffix(s, q);
    Suffix(s, q + 1);
    hide ReadQuoted, CutOff;
  }

  /** Fills a buffer of `room` characters from inside quotes, or finds that the text is cut off
      behind a backslash. */
  method ReadString(s: string, p: nat, room: nat) returns (buf: string, q: nat, past: bool)
    requires p <= |s|
    ensures past == CutOff(s[p..], room)
    ensures p <= q <= |s|
    ensures !past ==> buf == ReadQuoted(s[p..], room).0 && s[q..] == ReadQuoted(s[p..], room).1
  {
    hide ReadQuoted, CutOff, Unescape;
    buf, q := "", p;
    assert "" + ReadQuoted(s[p..], room).0 == ReadQuoted(s[p..], room).0;
    while CharAt(s, q) != '\0' && CharAt(s, q) != '"' && |buf| < room
      invariant p <= q <= |s| && |buf| <= room
      invariant buf + ReadQuoted(s[q..], room - |buf|).0 == ReadQuoted(s[p..], room).0
      invariant ReadQuoted(s[q..], room - |buf|).1 == ReadQuoted(s[p..], room).1
      invariant CutOff(s[q..], room - |buf|) == CutOff(s[p..], room)
      decreases |s| - q
    {
      ReadTurnAt(buf, s, q, room - |buf|);
      var c := CharAt(s, q);
      if c == '\\' {
        q := q + 1;
        if CharAt(s, q) == '\0' { return buf, q, true; }
        c := Unescape(CharAt(s, q));
      }
      q := q + 1;
      buf := buf + [c];
    }
    Suffix(s, q);
    ReadStop(buf, s[q..], room - |buf|);
    past := false;
  }

  /** The cursor past one array element or field value. */
  method ScanElement(s: string, p: nat) returns (q: nat)
    requires p <= |s|
    ensures p <= q <= |s| && q - p == ElementLength(s[p..], 0)
  {
    hide ElementLength;
    var depth: nat := 0;
    q := p;
    while CharAt(s, q) != '\0'
      invariant p <= q <= |s| && q - p + ElementLength(s[q..], depth) == ElementLength(s[p..], 0)
      decreases |s| - q
    {
      Suffix(s, q);
      ElementTurn(s[q..], depth);
      var c := CharAt(s, q);
      if c == '[' || c == '{' { depth := depth + 1; }
      if c == ']' || c == '}' {
        if depth == 0 { break; }
        depth := depth - 1;
      }
      if c == ',' && depth == 0 { break; }
      q := q + 1;
    }
    Suffix(s, q);
    ElementTurn(s[q..], depth);
  }

  /** One turn of the element scan. */
  lemma ElementTurn(t: string, depth: nat)
    ensures ElementLength(t, depth) ==
      var c := Head(t);
      if c == '\0' || (depth == 0 && (IsClose(c) || c == ',')) then 0
      else 1 + ElementLength(Tail(t), if IsOpen(c) then depth + 1 else if IsClose(c) then depth - 1 else depth)
  {
  }

  method SkipElementEnd(s: string, p: nat) returns (q: nat)
    requires p <= |s|
    ensures p <= q <= |s| && s[q..] == AfterElement(s[p..])
  {
    q := SkipWhitespace(s, p);
    Suffix(s, q);
    if CharAt(s, q) == ',' { q := q + 1; }
  }

  method SkipColon(s: string, p: nat) returns (q: nat)
    requires p <= |s|
    requires CharAt(s, p) != '\0'
    ensures p <= q <= |s| && s[q..] == AtValue(s[p..])
  {
    Suffix(s, p);
    q := p + 1;
    q := SkipWhitespace(s, q);
    Suffix(s, q);
    if CharAt(s, q) == ':' { q := q + 1; }
    q := SkipWhitespace(s, q);
  }

  /** `ts_json_parse`.  Where the C loop would come back to the same place for ever, or step past
      the end of its text, the result says so. */
  method ParseText(json: string) returns (r: Result)
    ensures r == Parse(json)
    decreases |json|
  {
    var p := SkipWhitespace(json, 0);
    assert json[0..] == json;
    var t := json[p..];
    Suffix(json, p);
    if StartsWith(t, "null") { return Done(Null); }
    if StartsWith(t, "true") { return Done(Bool(true)); }
    if StartsWith(t, "false") { return Done(Bool(false)); }
    if CharAt(json, p) == '-' || IsDigit(CharAt(json, p)) {
      match ReadNumber(t) {
        case Number(x) => return Done(Num(x));
        case NoNumber =>
      }
    }
    if CharAt(json, p) == '"' {
      var buf, q, past := ReadString(json, p + 1, STRING_MAX);
      return if past then Overruns else Done(Str(CutNul(buf)));
    }
    if CharAt(json, p) == '[' {
      r := ParseArray(json, p + 1);
      return;
    }
    if CharAt(json, p) == '{' {
      r := ParseObject(json, p + 1);
      return;
    }
    return Done(Null);
  }

  lemma Slices(s: string, from: nat, p: nat)
    requires from <= p <= |s|
    ensures s[from..][..p - from] == s[from..p] && s[from..][p - from..] == s[p..]
  {
  }

  method ParseArray(json: string, start: nat) returns (r: Result)
    requires 0 < start <= |json|
    ensures r == ParseItems(json[start..], [])
    decreases |json|, 0
  {
    hide Parse, ParseItems, ElementLength, AfterElement, SkipWs;
    var p := start;
    var items := [];
    while CharAt(json, p) != '\0' && CharAt(json, p) != ']'
      invariant start <= p <= |json|
      invariant ParseItems(json[p..], items) == ParseItems(json[start..], [])
      decreases |json| - p
    {
      Suffix(json, p);
      JsonRoundTrip.ItemsTurnIs(json[p..], items);
      var before := p;
      p := SkipWhitespace(json, p);
      Suffix(json, p);
      if CharAt(json, p) == ']' { break; }
      var from := p;
      p := ScanElement(json, p);
      Slices(json, from, p);
      var v := ParseText(json[from..p]);
      if !v.Done? { return v; }
      p := SkipElementEnd(json, p);
      if p == before { return Hangs; }
      items := items + [v.value];
    }
    Suffix(json, p);
    JsonRoundTrip.ItemsTurnIs(json[p..], items);
    return Done(Arr(items));
  }

  method ParseObject(json: string, start: nat) returns (r: Result)
    requires 0 < start <= |json|
    ensures r == ParseFields(json[start..], [])
    decreases |json|, 0
  {
    hide Parse, ParseFields, ReadQuoted, CutOff, ElementLength, AtValue, AfterElement, SetField, CutNul, SkipWs;
    var p := start;
    var fields := [];
    while CharAt(json, p) != '\0' && CharAt(json, p) != '}'
      invariant start <= p <= |json|
      invariant ParseFields(json[p..], fields) == ParseFields(json[start..], [])
      decreases |json| - p
    {
      Suffix(json, p);
      JsonRoundTrip.FieldsTurnIs(json[p..], fields);
      p := SkipWhitespace(json, p);
      Suffix(json, p);
      if CharAt(json, p) == '}' { break; }
      if CharAt(json, p) != '"' { break; }
      var key, past;
      key, p, past := ReadString(json, p + 1, KEY_MAX);
      Suffix(json, p);
      if past || CharAt(json, p) == '\0' { return Overruns; }
      p := SkipColon(json, p);
      var from := p;
      p := ScanElement(json, p);
      Slices(json, from, p);
      var v := ParseText(json[from..p]);
      if !v.Done? { return v; }
      fields := SetField(fields, CutNul(key), v.value);
      p := SkipElementEnd(json, p);
    }
    Suffix(json, p);
    JsonRoundTrip.FieldsTurnIs(json[p..], fields);
    return Done(Obj(fields));
  }

  // ---------- the printers ----------

  /** The numbers of v are integers below 2^53. */
  ghost predicate Integers(v: Json) {
    match v
    case Num(x) => Integral(x)
    case Arr(items) => forall x :: x in items ==> Integers(x)
    case Obj(fields) => forall f :: f in fields ==> Integers(f.value)
    case _ => true
  }

  /** The indentation of v and everything in it fits the 256-byte indent buffers. */
  ghost predicate IndentFits(v: Json, indent: nat, depth: nat) {
    && (depth + 1) * indent <= 255
    && match v
       case Arr(items) => forall x :: x in items ==> IndentFits(x, indent, depth + 1)
       case Obj(fields) => forall f :: f in fields ==> IndentFits(f.value, indent, depth + 1)
       case _ => true
  }

  lemma EscapeTurn(out: string, s: string, i: nat)
    requires i < |s|
    ensures out + Escape(s[i..]) == (out + EscapeChar(s[i])) + Escape(s[i + 1..])
  {
    assert s[i..][1..] == s[i + 1..];
    Regroup(out, EscapeChar(s[i]), Escape(s[i + 1..]));
  }

  lemma EscapeStop(out: string, s: string)
    ensures out + Escape(s[|s|..]) == out
  {
  }

  method EscapeString(s: string) returns (out: string)
    ensures out == Quote(s)
  {
    hide Escape, CutNul;
    out := "\"";
    var i := 0;
    assert s[0..] == s;
    while i < |s|
      invariant i <= |s| && out + Escape(s[i..]) == "\"" + Escape(s)
    {
      EscapeTurn(out, s, i);
      match s[i] {
        case '"' => out := out + "\\\"";
        case '\\' => out := out + "\\\\";
        case '\n' => out := out + "\\n";
        case '\t' => out := out + "\\t";
        case '\r' => out := out + "\\r";
        case c => out := out + [c];
      }
      i := i + 1;
    }
    EscapeStop(out, s);
    out := CutNul(out + "\"");
  }

  /** What follows the first `n` elements: a separator, then the others. */
  function Continued(n: nat, size: nat, separator: string, others: string): string {
    if n == size then "" else if n == 0 then others else separator + others
  }

  lemma ItemsUnroll(items: seq<Json>, st: Style, depth: nat, i: nat)
    requires i < |items|
    ensures RenderItems(items[i..], st, depth)
      == Render(items[i], st, depth + 1)
         + Continued(i + 1, |items|, "," + Between(st, depth), RenderItems(items[i + 1..], st, depth))
  {
    assert items[i..][1..] == items[i + 1..];
    Regroup(Render(items[i], st, depth + 1), "," + Between(st, depth), RenderItems(items[i + 1..], st, depth));
  }

  lemma FieldsUnroll(fields: seq<Field>, st: Style, depth: nat, i: nat)
    requires i < |fields|
    ensures RenderFields(fields[i..], st, depth)
      == Quote(fields[i].key) + ": " + Render(fields[i].value, st, depth + 1)
         + Continued(i + 1, |fields|, "," + Between(st, depth), RenderFields(fields[i + 1..], st, depth))
  {
    hide Quote, Render;
    assert fields[i..][1..] == fields[i + 1..];
    Regroup(Quote(fields[i].key) + ": " + Render(fields[i].value, st, depth + 1), "," + Between(st, depth),
            RenderFields(fields[i + 1..], st, depth));
  }

  /** Writing a separator and an element moves both from what is left to what is written. */
  lemma Advance(done: string, i: nat, size: nat, separator: string, element: string, more: string)
    requires i < size
    ensures (if i > 0 then done + separator else done) + element + more
      == done + Continued(i, size, separator, element + more)
  {
    if i > 0 {
      Regroup(done, separator, element + more);
      Regroup(done + separator, element, more);
    } else {
      Regroup(done, element, more);
    }
  }

  lemma Glue3(a: string, b: string, c: string, d: string)
    ensures a + b + c + d == a + (b + c + d)
  {
  }

  /** `ts_json_stringify`. */
  method Stringify(v: Json, ghost depth: nat) returns (result: string)
    requires Integers(v)
    ensures result == Render(v, Compact, depth)
    decreases v, 0
  {
    match v {
      case Null => result := "null";
      case Bool(b) => result := if b then "true" else "false";
      case Num(x) => result := General(x.Floor);
      case Str(s) => result := EscapeString(s);
      case Arr(items) => result := StringifyItems(items, depth);
      case Obj(fields) => result := StringifyFields(fields, depth);
    }
  }

  lemma CompactArray(items: seq<Json>, depth: nat)
    ensures "[" + Continued(0, |items|, ", ", RenderItems(items, Compact, depth)) + "]"
      == Render(Arr(items), Compact, depth)
  {
    assert "[" + "" == "[";
    assert items == [] ==> "[" + "]" == "[]";
    var text := RenderItems(items, Compact, depth);
    assert "[" + text + "" + "]" == "[" + text + "]";
  }

  method StringifyItems(items: seq<Json>, ghost depth: nat) returns (result: string)
    requires forall x :: x in items ==> Integers(x)
    ensures result == Render(Arr(items), Compact, depth)
    decreases items, 1
  {
    hide Render, RenderItems, Continued, Integers;
    assert "," + Between(Compact, depth) == ", ";
    result := "[";
    var i := 0;
    assert items[0..] == items;
    while i < |items|
      invariant i <= |items|
      invariant result + Continued(i, |items|, ", ", RenderItems(items[i..], Compact, depth))
        == "[" + Continued(0, |items|, ", ", RenderItems(items, Compact, depth))
    {
      ItemsUnroll(items, Compact, depth, i);
      ghost var more := Continued(i + 1, |items|, ", ", RenderItems(items[i + 1..], Compact, depth));
      Advance(result, i, |items|, ", ", Render(items[i], Compact, depth + 1), more);
      if i > 0 { result := result + ", "; }
      var elem := Stringify(items[i], depth + 1);
      result := result + elem;
      i := i + 1;
    }
    NothingLeft(result, |items|, ", ", RenderItems(items[i..], Compact, depth));
    CompactArray(items, depth);
    result := result + "]";
  }

  lemma NothingLeft(done: string, size: nat, separator: string, others: string)
    ensures done + Continued(size, size, separator, others) == done
  {
  }

  lemma CompactObject(fields: seq<Field>, depth: nat)
    ensures "{" + Continued(0, |fields|, ", ", RenderFields(fields, Compact, depth)) + "}"
      == Render(Obj(fields), Compact, depth)
  {
    assert "{" + "" == "{";
    var text := RenderFields(fields, Compact, depth);
    assert "{" + text + "" + "}" == "{" + text + "}";
  }

  method StringifyFields(fields: seq<Field>, ghost depth: nat) returns (result: string)
    requires forall f :: f in fields ==> Integers(f.value)
    ensures result == Render(Obj(fields), Compact, depth)
    decreases fields, 1
  {
    hide Render, RenderFields, Continued, Integers, Quote;
    assert "," + Between(Compact, depth) == ", ";
    result := "{";
    var first := true;
    var i := 0;
    assert fields[0..] == fields;
    while i < |fields|
      invariant i <= |fields| && first == (i == 0)
      invariant result + Continued(i, |fields|, ", ", RenderFields(fields[i..], Compact, depth))
        == "{" + Continued(0, |fields|, ", ", RenderFields(fields, Compact, depth))
    {
      FieldsUnroll(fields, Compact, depth, i);
      ghost var more := Continued(i + 1, |fields|, ", ", RenderFields(fields[i + 1..], Compact, depth));
      ghost var text := Quote(fields[i].key) + ": " + Render(fields[i].value, Compact, depth + 1);
      Advance(result, i, |fields|, ", ", text, more);
      if !first { result := result + ", "; }
      first := false;
      var key := EscapeString(fields[i].key);
      var value := Stringify(fields[i].value, depth + 1);
      Glue3(result, key, ": ", value);
      result := result + key;
      result := result + ": ";
      result := result + value;
      i := i + 1;
    }
    NothingLeft(result, |fields|, ", ", RenderFields(fields[i..], Compact, depth));
    CompactObject(fields, depth);
    result := result + "}";
  }

  /** `build_indent` into a 256-byte buffer: the text and its terminating NUL must fit. */
  method BuildIndent(depth: nat, indent: nat) returns (buf: string)
    requires indent > 0 && depth * indent <= 255
    ensures buf == Indent(depth, indent) && |buf| < 256
  {
    buf := "";
    var total := depth * indent;
    if total > 256 { total := 256; }
    var i := 0;
    while i < total
      invariant i <= total && buf == seq(i, _ => ' ')
    {
      buf := buf + " ";
      i := i + 1;
    }
  }

  /** `json_stringify_indent`. */
  method StringifyIndent(v: Json, indent: int, depth: nat) returns (result: string)
    requires Integers(v) && (indent > 0 ==> IndentFits(v, indent, depth))
    ensures result == Render(v, if indent <= 0 then Compact else Pretty(indent), depth)
    decreases v, 0
  {
    if indent <= 0 {
      result := Stringify(v, depth);
      return;
    }
    match v {
      case Null => result := "null";
      case Bool(b) => result := if b then "true" else "false";
      case Num(x) => result := General(x.Floor);
      case Str(s) => result := EscapeString(s);
      case Arr(items) => result := IndentItems(items, indent, depth);
      case Obj(fields) => result := IndentFields(fields, indent, depth);
    }
  }

  lemma PrettyArray(items: seq<Json>, indent: nat, depth: nat)
    requires items != []
    ensures "[\n" + (Indent(depth + 1, indent) + RenderItems(items, Pretty(indent), depth)) + "\n"
      + Indent(depth, indent) + "]"
      == Render(Arr(items), Pretty(indent), depth)
  {
    hide RenderItems, Indent;
    var text, ind, end := RenderItems(items, Pretty(indent), depth), Indent(depth + 1, indent), Indent(depth, indent);
    assert "[\n" + (ind + text) + "\n" + end + "]" == "[" + ("\n" + ind) + text + ("\n" + end) + "]";
  }

  /** The elements still to come, each behind its indentation. */
  ghost function IndentedItems(items: seq<Json>, indent: nat, depth: nat, i: nat): string
    requires i <= |items|
  {
    if i == |items| then "" else Indent(depth + 1, indent) + RenderItems(items[i..], Pretty(indent), depth)
  }

  lemma IndentedItem(done: string, items: seq<Json>, indent: nat, depth: nat, i: nat)
    requires i < |items|
    ensures done + IndentedItems(items, indent, depth, i)
      == (if i < |items| - 1 then done + Indent(depth + 1, indent) + Render(items[i], Pretty(indent), depth + 1) + ",\n"
          else done + Indent(depth + 1, indent) + Render(items[i], Pretty(indent), depth + 1))
         + IndentedItems(items, indent, depth, i + 1)
  {
    ItemsUnroll(items, Pretty(indent), depth, i);
    hide Render, RenderItems, Indent;
    var ind, elem, rest := Indent(depth + 1, indent), Render(items[i], Pretty(indent), depth + 1),
        RenderItems(items[i + 1..], Pretty(indent), depth);
    ItemWords(done, ind, elem, rest);
  }

  lemma ItemWords(done: string, ind: string, elem: string, rest: string)
    ensures done + (ind + (elem + ("," + ("\n" + ind) + rest))) == done + ind + elem + ",\n" + (ind + rest)
    ensures done + (ind + (elem + "")) == done + ind + elem + ""
  {
  }

  method IndentItems(items: seq<Json>, indent: nat, depth: nat) returns (result: string)
    requires indent > 0 && (depth + 1) * indent <= 255
    requires forall x :: x in items ==> Integers(x) && IndentFits(x, indent, depth + 1)
    ensures result == Render(Arr(items), Pretty(indent), depth)
    decreases items, 1
  {
    if |items| == 0 { return "[]"; }
    hide Render, RenderItems, Indent, IndentedItems, Integers, IndentFits;
    assert depth * indent <= (depth + 1) * indent;
    var indBuf := BuildIndent(depth, indent);
    var indBuf1 := BuildIndent(depth + 1, indent);
    result := "[\n";
    var i := 0;
    while i < |items|
      invariant i <= |items|
      invariant result + IndentedItems(items, indent, depth, i) == "[\n" + IndentedItems(items, indent, depth, 0)
    {
      IndentedItem(result, items, indent, depth, i);
      var elem := StringifyIndent(items[i], indent, depth + 1);
      result := result + indBuf1;
      result := result + elem;
      if i < |items| - 1 { result := result + ",\n"; }
      i := i + 1;
    }
    ItemsBounds(result, items, indent, depth);
    PrettyArray(items, indent, depth);
    result := result + "\n";
    result := result + indBuf;
    result := result + "]";
  }

  lemma ItemsBounds(done: string, items: seq<Json>, indent: nat, depth: nat)
    requires items != []
    ensures done + IndentedItems(items, indent, depth, |items|) == done
    ensures IndentedItems(items, indent, depth, 0)
      == Indent(depth + 1, indent) + RenderItems(items, Pretty(indent), depth)
  {
    assert items[0..] == items;
  }

  ghost function IndentedFields(fields: seq<Field>, indent: nat, depth: nat, i: nat): string
    requires i <= |fields|
  {
    if i == |fields| then ""
    else (if i == 0 then "" else ",\n") + Indent(depth + 1, indent) + RenderFields(fields[i..], Pretty(indent), depth)
  }

  lemma IndentedField(done: string, fields: seq<Field>, indent: nat, depth: nat, i: nat)
    requires i < |fields|
    ensures done + IndentedFields(fields, indent, depth, i)
      == (if i > 0 then done + ",\n" else done) + Indent(depth + 1, indent) + Quote(fields[i].key) + ": "
         + Render(fields[i].value, Pretty(indent), depth + 1) + IndentedFields(fields, indent, depth, i + 1)
  {
    FieldsUnroll(fields, Pretty(indent), depth, i);
    hide Render, RenderFields, Indent, Quote;
    var ind, key, value := Indent(depth + 1, indent), Quote(fields[i].key),
        Render(fields[i].value, Pretty(indent), depth + 1);
    FieldWords(done, if i == 0 then "" else ",\n", ind, key, value,
               RenderFields(fields[i + 1..], Pretty(indent), depth));
  }

  lemma FieldWords(done: string, before: string, ind: string, key: string, value: string, rest: string)
    ensures done + (before + ind + (key + ": " + value + ("," + ("\n" + ind) + rest)))
      == done + before + ind + key + ": " + value + (",\n" + ind + rest)
    ensures done + (before + ind + (key + ": " + value + "")) == done + before + ind + key + ": " + value + ""
    ensures done + "" == done
  {
  }

  lemma FieldsBounds(done: string, fields: seq<Field>, indent: nat, depth: nat)
    ensures done + IndentedFields(fields, indent, depth, |fields|) == done
    ensures "{\n" + IndentedFields(fields, indent, depth, 0) + "\n" + Indent(depth, indent) + "}"
      == Render(Obj(fields), Pretty(indent), depth)
  {
    hide Indent, RenderFields;
    assert fields[0..] == fields;
    var ind, end := Indent(depth + 1, indent), Indent(depth, indent);
    if fields == [] {
      assert "{\n" + "" + "\n" + end + "}" == "{" + "\n" + ("\n" + end) + "}";
    } else {
      var text := RenderFields(fields, Pretty(indent), depth);
      assert "{\n" + ("" + ind + text) + "\n" + end + "}" == "{" + ("\n" + ind) + text + ("\n" + end) + "}";
    }
  }

  method IndentFields(fields: seq<Field>, indent: nat, depth: nat) returns (result: string)
    requires indent > 0 && (depth + 1) * indent <= 255
    requires forall f :: f in fields ==> Integers(f.value) && IndentFits(f.value, indent, depth + 1)
    ensures result == Render(Obj(fields), Pretty(indent), depth)
    decreases fields, 1
  {
    hide Render, RenderFields, Indent, IndentedFields, Integers, IndentFits, Quote;
    assert depth * indent <= (depth + 1) * indent;
    var indBuf1 := BuildIndent(depth + 1, indent);
    result := "{\n";
    var first := true;
    var i := 0;
    while i < |fields|
      invariant i <= |fields| && first == (i == 0)
      invariant result + IndentedFields(fields, indent, depth, i) == "{\n" + IndentedFields(fields, indent, depth, 0)
    {
      IndentedField(result, fields, indent, depth, i);
      if !first { result := result + ",\n"; }
      first := false;
      result := result + indBuf1;
      var key := EscapeString(fields[i].key);
      result := result + key;
      result := result + ": ";
      var value := StringifyIndent(fields[i].value, indent, depth + 1);
      result := result + value;
      i := i + 1;
    }
    FieldsBounds(result, fields, indent, depth);
    result := result + "\n";
    var indBuf := BuildIndent(depth, indent);
    result := result + indBuf;
    result := result + "}";
  }

  lemma {:induction false} ShapeIntegers(v: Json)
    requires JsonNesting.Shape(v)
    ensures Integers(v)
    decreases v
  {
    match v {
      case Arr(items) => forall x | x in items ensures Integers(x) { ShapeIntegers(x); }
      case Obj(fields) => forall f | f in fields ensures Integers(f.value) { ShapeIntegers(f.value); }
      case _ =>
    }
  }

  /** `JSON.parse(JSON.stringify(v, indent))`, in the program's own loops. */
  method PrintThenParse(v: Json, indent: int) returns (text: string, back: Result)
    requires JsonNesting.Shape(v) && (indent > 0 ==> IndentFits(v, indent, 0))
    ensures var st := if indent <= 0 then Compact else Pretty(indent);
      && text == Render(v, st, 0)
      && (back == Done(v) <==> JsonNesting.Fits(v) && JsonNesting.Survives(v, st, 0, text))
      && (JsonRoundTrip.Printable(v) ==> back == Done(v))
  {
    ShapeIntegers(v);
    hide *;
    var st := if indent <= 0 then Compact else Pretty(indent);
    text := StringifyIndent(v, indent, 0);
    if JsonRoundTrip.Printable(v) { JsonRoundTrip.RoundTrip(v, st); }
    JsonNesting.RoundTripExact(v, st);
    back := ParseText(text);
  }
}
