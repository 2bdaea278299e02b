/** JSON as it is written by others: every text of RFC 8259, with any white space between its
    tokens, and what it denotes. */
module JsonGrammar {
  import opened Basics
  import opened JsonText
  import opened JsonNumbers
  import opened JsonRoundTrip
  import opened JsonDecimals

  /** A text by its parts.  A string or key is given as it stands between its quotes. */
  datatype Doc =
    | Null
    | True
    | False
    | Numeral(negative: bool, digits: string, point: bool, decimals: string, exp: Exp)
    | Text(raw: string)
    | List(lead: string, elements: seq<Element>)
    | Record(lead: string, members: seq<Member>)

  /** An element of an array, with the white space around it. */
  datatype Element = Element(before: string, doc: Doc, after: string)

  /** A member of an object, with the white space around its key, its colon and its value. */
  datatype Member = Member(before: string, raw: string, mid: string, inner: string, doc: Doc, after: string)

  function Written(d: Doc): string
    decreases d, 1
  {
    match d
    case Null => "null"
    case True => "true"
    case False => "false"
    case Numeral(negative, digits, point, decimals, exp) => DecimalText(negative, digits, point, decimals, exp)
    case Text(raw) => "\"" + raw + "\""
    case List(lead, elements) => if elements == [] then "[" + lead + "]" else "[" + Elements(elements) + "]"
    case Record(lead, members) => if members == [] then "{" + lead + "}" else "{" + Members(members) + "}"
  }

  function Elements(elements: seq<Element>): string
    decreases elements, 0
  {
    if elements == [] then ""
    else
      var first := elements[0].before + (Written(elements[0].doc) + elements[0].after);
      if |elements| == 1 then first else first + "," + Elements(elements[1..])
  }

  function Members(members: seq<Member>): string
    decreases members, 0
  {
    if members == [] then ""
    else
      var m := members[0];
      var first := m.before + (KeyText(m.raw, m.mid, m.inner) + (Written(m.doc) + m.after));
      if |members| == 1 then first else first + "," + Members(members[1..])
  }

  function KeyText(raw: string, mid: string, inner: string): string { "\"" + raw + "\"" + mid + ":" + inner }

  // ---------- what a text denotes ----------

  /** The escapes of RFC 8259 section 7 but for \b, \f and \u. */
  function Escaped(c: char): Option<char> {
    match c
    case '"' => Some('"')
    case '\\' => Some('\\')
    case '/' => Some('/')
    case 'n' => Some('\n')
    case 'r' => Some('\r')
    case 't' => Some('\t')
    case _ => None
  }

  /** A string between its quotes: no quote or NUL of its own, and no other escapes. */
  predicate RawOk(raw: string) {
    raw == "" ||
    (if raw[0] == '\\' then |raw| >= 2 && Escaped(raw[1]).Some? && RawOk(raw[2..])
     else raw[0] != '"' && raw[0] != '\0' && RawOk(raw[1..]))
  }

  function Unescaped(raw: string): string
    requires RawOk(raw)
  {
    if raw == "" then ""
    else if raw[0] == '\\' then [Escaped(raw[1]).value] + Unescaped(raw[2..])
    else [raw[0]] + Unescaped(raw[1..])
  }

  ghost predicate Apart(members: seq<Member>) {
    && (forall m :: m in members ==> RawOk(m.raw))
    && forall i, j :: 0 <= i < j < |members| ==> Unescaped(members[i].raw) != Unescaped(members[j].raw)
  }

  /** Texts within the reader's means: strings and keys of a size its buffers hold, and such that
      no bracket in them is unbalanced and no comma is outside brackets; keys that differ. */
  ghost predicate Legible(d: Doc) {
    match d
    case Null => true
    case True => true
    case False => true
    case Numeral(_, digits, point, decimals, exp) =>
      digits != "" && AllDigits(digits) && AllDigits(decimals) && (!point ==> decimals == "") && ExpOk(exp)
    case Text(raw) => RawOk(raw) && |Unescaped(raw)| <= 4095 && ScanAll(raw, 0) == Through(0)
    case List(lead, elements) =>
      && AllWs(lead)
      && forall e :: e in elements ==> AllWs(e.before) && AllWs(e.after) && Legible(e.doc)
    case Record(lead, members) =>
      && AllWs(lead) && Apart(members)
      && forall m :: m in members ==>
           && AllWs(m.before) && AllWs(m.mid) && AllWs(m.inner) && AllWs(m.after)
           && |Unescaped(m.raw)| <= 1023 && ScanAll(m.raw, 1) == Through(1) && Legible(m.doc)
  }

  /** v is what the text denotes. */
  ghost predicate Denotes(d: Doc, v: Json) {
    match d
    case Null => v == Json.Null
    case True => v == Bool(true)
    case False => v == Bool(false)
    case Numeral(negative, digits, _, decimals, exp) =>
      && v.Num? && AllDigits(digits + decimals) && ExpOk(exp)
      && var n: int := DigitsValue(digits + decimals);
         Ratio(v.x, if negative then -n else n, Ten(Right(exp)), Ten(|decimals| + Left(exp)))
    case Text(raw) => RawOk(raw) && v == Str(Unescaped(raw))
    case List(_, elements) =>
      && v.Arr? && |v.items| == |elements|
      && forall i :: 0 <= i < |elements| ==> Denotes(elements[i].doc, v.items[i])
    case Record(_, members) =>
      && v.Obj? && |v.fields| == |members| && Apart(members)
      && forall i :: 0 <= i < |members| ==>
           v.fields[i].key == Unescaped(members[i].raw) && Denotes(members[i].doc, v.fields[i].value)
  }

  // ---------- strings ----------

  lemma EscapedIs(c: char)
    requires Escaped(c).Some?
    ensures Unescape(c) == Escaped(c).value && c != '\0' && Escaped(c).value != '\0'
  {
  }

  lemma {:induction false} RawHasNoNul(raw: string)
    requires RawOk(raw)
    ensures '\0' !in Unescaped(raw)
  {
    if raw != "" {
      if raw[0] == '\\' { RawHasNoNul(raw[2..]); } else { RawHasNoNul(raw[1..]); }
    }
  }

  /** Reading a string as it is written gives what it denotes. */
  lemma {:induction false} RawReads(raw: string, rest: string, room: nat)
    requires RawOk(raw) && |Unescaped(raw)| <= room
    ensures ReadQuoted(raw + ("\"" + rest), room) == (Unescaped(raw), "\"" + rest)
    ensures !CutOff(raw + ("\"" + rest), room)
    decreases |raw|
  {
    var more := "\"" + rest;
    if raw == "" {
      assert raw + more == more;
    } else if raw[0] == '\\' {
      RawReads(raw[2..], rest, room - 1);
      EscapedIs(raw[1]);
      EscapeReads(raw[1], raw[2..] + more, room);
      hide Unescape, Escaped, ReadQuoted, CutOff, RawOk;
      Regroup(['\\', raw[1]], raw[2..], more);
      assert ['\\', raw[1]] + raw[2..] == raw;
    } else {
      RawReads(raw[1..], rest, room - 1);
      PlainReads(raw[0], raw[1..] + more, room);
      hide Unescape, Escaped, ReadQuoted, CutOff, RawOk;
      Regroup([raw[0]], raw[1..], more);
      assert [raw[0]] + raw[1..] == raw;
    }
  }

  lemma EscapeReads(c: char, t: string, room: nat)
    requires c != '\0' && room > 0
    ensures ReadQuoted(['\\', c] + t, room) == ([Unescape(c)] + ReadQuoted(t, room - 1).0, ReadQuoted(t, room - 1).1)
    ensures CutOff(['\\', c] + t, room) == CutOff(t, room - 1)
  {
    var u := ['\\', c] + t;
    assert Head(u) == '\\' && Head(Tail(u)) == c && Tail(Tail(u)) == t;
  }

  lemma PlainReads(c: char, t: string, room: nat)
    requires c != '\0' && c != '"' && c != '\\' && room > 0
    ensures ReadQuoted([c] + t, room) == ([c] + ReadQuoted(t, room - 1).0, ReadQuoted(t, room - 1).1)
    ensures CutOff([c] + t, room) == CutOff(t, room - 1)
  {
    assert Head([c] + t) == c && Tail([c] + t) == t;
  }

  lemma TextReads(raw: string, rest: string)
    requires RawOk(raw) && |Unescaped(raw)| <= 4095
    ensures Parse("\"" + raw + "\"" + rest) == Done(Str(Unescaped(raw)))
  {
    var t := "\"" + raw + "\"" + rest;
    RawReads(raw, rest, STRING_MAX);
    RawHasNoNul(raw);
    CutNulWhole(Unescaped(raw));
    hide ReadQuoted, CutOff, CutNul, RawOk, Unescaped, Parse;
    assert Tail(t) == raw + ("\"" + rest) && t[0] == '"';
    ParseQuotedText(t);
  }

  // ---------- scanning ----------

  lemma QuotedScans(raw: string, d: nat)
    requires ScanAll(raw, d) == Through(d)
    ensures ScanAll("\"" + raw + "\"", d) == Through(d)
  {
    PlainPasses("\"", d);
    hide ScanAll;
    ScanPair("\"", raw, d, d, d);
    ScanPair("\"" + raw, "\"", d, d, d);
  }

  lemma KeyTextScans(raw: string, mid: string, inner: string, d: nat)
    requires ScanAll(raw, d) == Through(d) && AllWs(mid) && AllWs(inner)
    ensures ScanAll(KeyText(raw, mid, inner), d) == Through(d)
  {
    QuotedScans(raw, d);
    PlainPasses(":", d);
    ScanWs(mid, d);
    ScanWs(inner, d);
    hide ScanAll;
    ScanPair("\"" + raw + "\"", mid, d, d, d);
    ScanPair("\"" + raw + "\"" + mid, ":", d, d, d);
    ScanPair("\"" + raw + "\"" + mid + ":", inner, d, d, d);
  }

  lemma DecimalIsPlain(negative: bool, digits: string, point: bool, decimals: string, exp: Exp)
    requires AllDigits(digits) && AllDigits(decimals) && ExpOk(exp)
    ensures Plain(DecimalText(negative, digits, point, decimals, exp))
  {
    assert Plain(ExpText(exp)) && Plain(WithPoint(digits, point, decimals));
    hide ExpText, WithPoint;
  }

  /** The scanner gets across every legible text. */
  lemma {:induction false} WrittenScans(d: Doc, k: nat)
    requires Legible(d)
    ensures ScanAll(Written(d), k) == Through(k)
    decreases d, 1
  {
    hide ScanAll;
    match d {
      case Null => PlainPasses("null", k);
      case True => PlainPasses("true", k);
      case False => PlainPasses("false", k);
      case Numeral(negative, digits, point, decimals, exp) =>
        DecimalIsPlain(negative, digits, point, decimals, exp);
        PlainPasses(Written(d), k);
      case Text(raw) => ScanDeeper(raw, 0, 0, k); QuotedScans(raw, k);
      case List(lead, elements) =>
        if elements == [] {
          Bracketed('[', lead, "", ']', k);
        } else {
          ElementsScan(elements, k + 1);
          Bracketed('[', "", Elements(elements), ']', k);
        }
      case Record(lead, members) =>
        if members == [] {
          Bracketed('{', lead, "", '}', k);
        } else {
          MembersScan(members, k + 1);
          Bracketed('{', "", Members(members), '}', k);
        }
    }
  }

  lemma Bracketed(open: char, lead: string, body: string, close: char, k: nat)
    requires IsOpen(open) && IsClose(close) && AllWs(lead) && (body == "" || ScanAll(body, k + 1) == Through(k + 1))
    ensures ScanAll([open] + (lead + body) + [close], k) == Through(k)
    ensures lead == "" ==> lead + body == body
    ensures body == "" ==> lead + body == lead
  {
    if body == "" { PlainPasses("", k + 1); }
    ScanBrackets(open, lead, body, "", close, k);
    assert [open] + lead + body + "" + [close] == [open] + (lead + body) + [close];
  }

  lemma {:induction false} ElementsScan(elements: seq<Element>, k: nat)
    requires k > 0 && elements != []
    requires forall e :: e in elements ==> AllWs(e.before) && AllWs(e.after) && Legible(e.doc)
    ensures ScanAll(Elements(elements), k) == Through(k)
    decreases elements, 0
  {
    hide ScanAll, Legible;
    var e := elements[0];
    assert e in elements;
    WrittenScans(e.doc, k);
    Surrounded(e.before, Written(e.doc), e.after, k);
    if |elements| > 1 {
      ElementsScan(elements[1..], k);
      Joined(e.before + (Written(e.doc) + e.after), Elements(elements[1..]), k);
    }
  }

  lemma Surrounded(before: string, text: string, after: string, k: nat)
    requires AllWs(before) && AllWs(after) && ScanAll(text, k) == Through(k)
    ensures ScanAll(before + (text + after), k) == Through(k)
  {
    hide ScanAll;
    ScanWs(before, k);
    ScanWs(after, k);
    ScanPair(text, after, k, k, k);
    ScanPair(before, text + after, k, k, k);
  }

  lemma Joined(first: string, more: string, k: nat)
    requires k > 0 && ScanAll(first, k) == Through(k) && ScanAll(more, k) == Through(k)
    ensures ScanAll(first + "," + more, k) == Through(k)
  {
    ScanComma("", k);
    hide ScanAll;
    assert "," + "" == ",";
    ScanPair(first, ",", k, k, k);
    ScanPair(first + ",", more, k, k, k);
  }

  lemma {:induction false} MembersScan(members: seq<Member>, k: nat)
    requires k > 0 && members != [] && Legible(Record("", members))
    ensures ScanAll(Members(members), k) == Through(k)
    decreases members, 0
  {
    var m := members[0];
    FirstMember(members);
    hide ScanAll, Legible;
    WrittenScans(m.doc, k);
    ScanDeeper(m.raw, 1, 1, k - 1);
    KeyTextScans(m.raw, m.mid, m.inner, k);
    Surrounded("", Written(m.doc), m.after, k);
    assert "" + (Written(m.doc) + m.after) == Written(m.doc) + m.after;
    ScanPair(KeyText(m.raw, m.mid, m.inner), Written(m.doc) + m.after, k, k, k);
    ScanWs(m.before, k);
    ScanPair(m.before, KeyText(m.raw, m.mid, m.inner) + (Written(m.doc) + m.after), k, k, k);
    if |members| > 1 {
      MembersScan(members[1..], k);
      Joined(m.before + (KeyText(m.raw, m.mid, m.inner) + (Written(m.doc) + m.after)), Members(members[1..]), k);
    }
  }

  /** The first member and the others. */
  lemma FirstMember(members: seq<Member>)
    requires members != [] && Legible(Record("", members))
    ensures var m := members[0];
      && AllWs(m.before) && AllWs(m.mid) && AllWs(m.inner) && AllWs(m.after) && RawOk(m.raw)
      && |Unescaped(m.raw)| <= 1023 && ScanAll(m.raw, 1) == Through(1) && Legible(m.doc)
    ensures Legible(Record("", members[1..]))
  {
    hide RawOk, Unescaped, ScanAll;
    assert members[0] in members;
  }

  // ---------- reading ----------

  lemma WrittenHead(d: Doc)
    requires Legible(d)
    ensures var r := Written(d);
      r != "" && !IsWs(r[0]) && !IsClose(r[0]) && r[0] != ',' && r[0] != '\0' && r[0] != ':'
  {
    hide Elements, Members, ScanAll, RawOk, ExpText;
    match d {
      case Numeral(negative, digits, point, decimals, exp) =>
        assert Written(d)[0] == if negative then '-' else digits[0];
      case _ =>
    }
  }

  lemma WordReads(d: Doc, w: string) returns (v: Json)
    requires d.Null? || d.True? || d.False?
    ensures Parse(Written(d) + w) == Done(v) && Denotes(d, v)
  {
    ParseWord(w);
    hide Parse;
    v := if d.Null? then Json.Null else Bool(d.True?);
  }

  lemma NumeralReads(d: Doc, w: string) returns (v: Json)
    requires d.Numeral? && Legible(d) && AllWs(w)
    ensures Parse(Written(d) + w) == Done(v) && Denotes(d, v)
  {
    NoWs();
    hide Parse, Ratio, DecimalText, DigitsValue, Ten, Right, Left;
    var x := DecimalValue("", d.negative, d.digits, d.point, d.decimals, d.exp, w);
    v := Num(x);
    assert "" + (Written(d) + w) == Written(d) + w;
  }

  /** Every legible text, whatever white space stands between its tokens, is read as what it
      denotes. */
  lemma {:induction false} Reads(d: Doc, w: string) returns (v: Json)
    requires Legible(d) && AllWs(w)
    ensures Parse(Written(d) + w) == Done(v) && Denotes(d, v)
    decreases d, 1
  {
    hide Parse, ParseItems, ParseFields;
    match d {
      case Text(raw) =>
        TextReads(raw, w);
        v := Str(Unescaped(raw));
      case List(lead, elements) => v := ListReads(lead, elements, w);
      case Record(lead, members) => v := RecordReads(lead, members, w);
      case Numeral(_, _, _, _, _) => v := NumeralReads(d, w);
      case _ => v := WordReads(d, w);
    }
  }

  lemma {:induction false} ListReads(lead: string, elements: seq<Element>, w: string) returns (v: Json)
    requires Legible(List(lead, elements)) && AllWs(w)
    ensures Parse(Written(List(lead, elements)) + w) == Done(v) && Denotes(List(lead, elements), v)
    decreases elements, 3
  {
    var body := if elements == [] then lead else Elements(elements);
    var t := "[" + body + "]" + w;
    hide Parse, ParseItems, Elements;
    BracketTail('[', body, ']', w);
    ParseArrayText(t);
    if elements == [] {
      ItemsEnd(lead, w, []);
      v := Arr([]);
    } else {
      var vs := ElementsRead(elements, w, []);
      assert [] + vs == vs;
      v := Arr(vs);
    }
  }

  lemma BracketTail(open: char, body: string, close: char, w: string)
    ensures var t := [open] + body + [close] + w; t != "" && t[0] == open && Tail(t) == body + ([close] + w)
  {
  }

  /** The items are what the elements denote. */
  ghost predicate Items(elements: seq<Element>, vs: seq<Json>) {
    |vs| == |elements| && forall i :: 0 <= i < |elements| ==> Denotes(elements[i].doc, vs[i])
  }

  lemma {:induction false} ElementsRead(elements: seq<Element>, w: string, acc: seq<Json>) returns (vs: seq<Json>)
    requires elements != [] && Legible(List("", elements))
    ensures ParseItems(Elements(elements) + ("]" + w), acc) == Done(Arr(acc + vs)) && Items(elements, vs)
    decreases elements, 2
  {
    var e := elements[0];
    hide *;
    FirstElement(elements);
    var v := Reads(e.doc, e.after);
    if |elements| == 1 {
      LastElement(elements, w, acc, v);
      vs := [v];
      OneItem(elements, v, []);
    } else {
      var rest := ElementsRead(elements[1..], w, acc + [v]);
      NextElement(elements, w, acc, v);
      vs := [v] + rest;
      OneItem(elements, v, rest);
      Associative(acc, [v], rest);
    }
  }

  lemma FirstElement(elements: seq<Element>)
    requires elements != [] && Legible(List("", elements))
    ensures AllWs(elements[0].before) && AllWs(elements[0].after) && Legible(elements[0].doc)
    ensures Legible(List("", elements[1..]))
  {
    hide AllWs;
    assert elements[0] in elements;
  }

  lemma OneItem(elements: seq<Element>, v: Json, rest: seq<Json>)
    requires elements != [] && Denotes(elements[0].doc, v)
    requires if |elements| == 1 then rest == [] else Items(elements[1..], rest)
    ensures Items(elements, [v] + rest) && (|elements| == 1 ==> [v] + rest == [v])
  {
    hide Denotes;
    var vs := [v] + rest;
    forall i | 0 <= i < |elements| ensures Denotes(elements[i].doc, vs[i]) {
      if i > 0 { assert elements[i] == elements[1..][i - 1] && vs[i] == rest[i - 1]; }
    }
  }

  lemma LastElement(elements: seq<Element>, w: string, acc: seq<Json>, v: Json)
    requires |elements| == 1 && Legible(List("", elements))
    requires Parse(Written(elements[0].doc) + elements[0].after) == Done(v)
    ensures ParseItems(Elements(elements) + ("]" + w), acc) == Done(Arr(acc + [v]))
  {
    var e := elements[0];
    FirstElement(elements);
    WrittenHead(e.doc);
    hide Parse, ParseItems, ScanAll, Legible, Written;
    WrittenScans(e.doc, 0);
    LastItem(e.before, Written(e.doc), e.after, w, v, acc);
    Regroup(e.before, Written(e.doc) + e.after, "]" + w);
  }

  lemma NextElement(elements: seq<Element>, w: string, acc: seq<Json>, v: Json)
    requires |elements| > 1 && Legible(List("", elements))
    requires Parse(Written(elements[0].doc) + elements[0].after) == Done(v)
    ensures ParseItems(Elements(elements) + ("]" + w), acc)
      == ParseItems(Elements(elements[1..]) + ("]" + w), acc + [v])
  {
    var e, more := elements[0], Elements(elements[1..]) + ("]" + w);
    FirstElement(elements);
    WrittenHead(e.doc);
    ElementsText(elements, w);
    hide Parse, ParseItems, ScanAll, Legible, Written, Elements;
    WrittenScans(e.doc, 0);
    ItemsTurn(e.before, Written(e.doc), e.after, "," + more, v, acc);
  }

  lemma ElementsText(elements: seq<Element>, w: string)
    requires |elements| > 1
    ensures var e, more := elements[0], Elements(elements[1..]) + ("]" + w);
      && Elements(elements) + ("]" + w) == e.before + (Written(e.doc) + e.after + ("," + more))
      && ("," + more)[1..] == more
  {
    hide Written;
    var e, more := elements[0], Elements(elements[1..]);
    CommaTail(more + ("]" + w));
    BehindComma(e.before, Written(e.doc) + e.after, more, "]" + w);
  }

  lemma CommaTail(t: string)
    ensures ("," + t)[1..] == t
  {
  }

  lemma BehindComma(before: string, x: string, more: string, end: string)
    ensures before + x + "," + more + end == before + (x + ("," + (more + end)))
  {
    Regroup(before + x + ",", more, end);
    Regroup(before + x, ",", more + end);
    Regroup(before, x, "," + (more + end));
  }

  lemma {:induction false} RecordReads(lead: string, members: seq<Member>, w: string) returns (v: Json)
    requires Legible(Record(lead, members)) && AllWs(w)
    ensures Parse(Written(Record(lead, members)) + w) == Done(v) && Denotes(Record(lead, members), v)
    decreases members, 3
  {
    var body := if members == [] then lead else Members(members);
    var t := "{" + body + "}" + w;
    BracketTail('{', body, '}', w);
    NoFieldsYet(members, lead);
    ParseObjectText(t);
    RecordText(lead, members, w);
    if members == [] {
      hide Parse, ParseFields, Members, Unescaped, RawOk, ScanAll, Written;
      FieldsEnd(lead, w, []);
      v := Obj([]);
    } else {
      hide *;
      var fs := MembersRead(members, w, []);
      assert [] + fs == fs;
      v := Obj(fs);
      RecordDenotes(lead, members, fs);
    }
  }

  lemma RecordText(lead: string, members: seq<Member>, w: string)
    ensures Written(Record(lead, members)) == "{" + (if members == [] then lead else Members(members)) + "}"
  {
  }

  lemma RecordDenotes(lead: string, members: seq<Member>, fs: seq<Field>)
    requires Bindings(members, fs) && Apart(members)
    ensures Denotes(Record(lead, members), Obj(fs))
  {
    hide RawOk, Unescaped, Apart;
  }

  /** The keys of the members are not among those already read. */
  ghost predicate NewKeys(members: seq<Member>, acc: seq<Field>) {
    forall m :: m in members ==> RawOk(m.raw) && Fresh(acc, Unescaped(m.raw))
  }

  lemma NoFieldsYet(members: seq<Member>, lead: string)
    requires Legible(Record(lead, members))
    ensures Legible(Record("", members)) && NewKeys(members, []) && Apart(members)
  {
    hide RawOk, Unescaped, ScanAll;
  }

  lemma ReadRawKey(raw: string, mid: string, inner: string, value: string)
    requires RawOk(raw) && |Unescaped(raw)| <= 1023 && AllWs(mid) && AllWs(inner)
    requires value != "" && !IsWs(value[0]) && value[0] != ':'
    ensures var u := KeyText(raw, mid, inner) + value;
      && Head(u) == '"' && SkipWs(u) == u
      && KeyEnds(Tail(u)) && CutNul(ReadQuoted(Tail(u), KEY_MAX).0) == Unescaped(raw)
      && AtValue(ReadQuoted(Tail(u), KEY_MAX).1) == value
  {
    var u := KeyText(raw, mid, inner) + value;
    var rest := mid + (":" + (inner + value));
    RawReads(raw, rest, KEY_MAX);
    RawHasNoNul(raw);
    CutNulWhole(Unescaped(raw));
    KeyParts(raw, mid, inner, value);
    hide ReadQuoted, CutOff, CutNul, RawOk, Unescaped;
    SkipNothing(u);
    FindsValue(mid, inner, value);
    assert Tail("\"" + rest) == rest;
  }

  lemma KeyParts(raw: string, mid: string, inner: string, value: string)
    ensures KeyText(raw, mid, inner) + value == "\"" + (raw + ("\"" + (mid + (":" + (inner + value)))))
    ensures Tail(KeyText(raw, mid, inner) + value) == raw + ("\"" + (mid + (":" + (inner + value))))
    ensures Head(KeyText(raw, mid, inner) + value) == '"'
  {
    var t := raw + ("\"" + (mid + (":" + (inner + value))));
    assert KeyText(raw, mid, inner) + value == "\"" + t;
    assert ("\"" + t)[1..] == t;
  }

  lemma FindsValue(mid: string, inner: string, value: string)
    requires AllWs(mid) && AllWs(inner) && value != "" && !IsWs(value[0]) && value[0] != ':'
    ensures AtValue("\"" + (mid + (":" + (inner + value)))) == value
  {
    var rest := mid + (":" + (inner + value));
    assert Tail("\"" + rest) == rest;
    SkipWsOver(mid, ":" + (inner + value));
    SkipNothing(":" + (inner + value));
    assert Tail(":" + (inner + value)) == inner + value;
    SkipWsOver(inner, value);
    SkipNothing(value);
  }

  /** One turn of the field loop over a member as it is written. */
  lemma MemberTurn(m: Member, first: string, after: string, v: Json, acc: seq<Field>)
    requires RawOk(m.raw) && |Unescaped(m.raw)| <= 1023 && Fresh(acc, Unescaped(m.raw))
    requires AllWs(m.before) && AllWs(m.mid) && AllWs(m.inner) && AllWs(m.after)
    requires first != "" && !IsWs(first[0]) && !IsClose(first[0]) && first[0] != '\0' && first[0] != ':'
    requires ScanAll(first, 0) == Through(0)
    requires after != "" && (after[0] == ',' || after[0] == '}')
    requires Parse(first + m.after) == Done(v)
    ensures ParseFields(m.before + (KeyText(m.raw, m.mid, m.inner) + (first + m.after + after)), acc)
      == ParseFields(if after[0] == ',' then after[1..] else after, acc + [Field(Unescaped(m.raw), v)])
  {
    hide Parse, ParseFields, ScanAll, ReadQuoted, ElementLength, AtValue, CutNul, SkipWs, KeyEnds, KeyText, RawOk,
         Unescaped;
    var value := first + m.after + after;
    assert value[0] == first[0];
    var u := KeyText(m.raw, m.mid, m.inner) + value;
    ReadRawKey(m.raw, m.mid, m.inner, value);
    ParseElement(first, m.after, after, v);
    SkipWsOver(m.before, u);
    assert Head(m.before + u) == if m.before == "" then '"' else m.before[0];
    AfterIs(after);
    SetFieldNew(acc, Unescaped(m.raw), v);
    FieldsTurnIs(m.before + u, acc);
  }

  lemma {:induction false} MembersRead(members: seq<Member>, w: string, acc: seq<Field>) returns (fs: seq<Field>)
    requires members != [] && Legible(Record("", members)) && NewKeys(members, acc)
    ensures ParseFields(Members(members) + ("}" + w), acc) == Done(Obj(acc + fs))
    ensures Bindings(members, fs)
    decreases members, 2
  {
    var m := members[0];
    hide *;
    FirstMember(members);
    KeyIsNew(members, acc);
    var v := Reads(m.doc, m.after);
    var f := Field(Unescaped(m.raw), v);
    if |members| == 1 {
      LastMember(members, w, acc, v);
      fs := [f];
      OnlyOne(members, f);
    } else {
      KeysLeft(members, acc, v);
      var rest := MembersRead(members[1..], w, acc + [f]);
      NextMember(members, w, acc, v);
      fs := [f] + rest;
      FirstAndRest(members, f, rest);
      Associative(acc, [f], rest);
    }
  }

  lemma KeyIsNew(members: seq<Member>, acc: seq<Field>)
    requires members != [] && NewKeys(members, acc)
    ensures RawOk(members[0].raw) && Fresh(acc, Unescaped(members[0].raw))
  {
    assert members[0] in members;
  }

  lemma LastMember(members: seq<Member>, w: string, acc: seq<Field>, v: Json)
    requires |members| == 1 && Legible(Record("", members)) && NewKeys(members, acc)
    requires Parse(Written(members[0].doc) + members[0].after) == Done(v)
    ensures RawOk(members[0].raw)
    ensures ParseFields(Members(members) + ("}" + w), acc) == Done(Obj(acc + [Field(Unescaped(members[0].raw), v)]))
  {
    var m := members[0];
    FirstMember(members);
    KeyIsNew(members, acc);
    WrittenHead(m.doc);
    NoWs();
    hide Parse, ParseFields, ScanAll, Legible, NewKeys, RawOk, Unescaped, Fresh, KeyText, Written;
    WrittenScans(m.doc, 0);
    MemberTurn(m, Written(m.doc), "}" + w, v, acc);
    FieldsEnd("", w, acc + [Field(Unescaped(m.raw), v)]);
    OneMemberText(m, members, w);
  }

  lemma NextMember(members: seq<Member>, w: string, acc: seq<Field>, v: Json)
    requires |members| > 1 && Legible(Record("", members)) && NewKeys(members, acc)
    requires Parse(Written(members[0].doc) + members[0].after) == Done(v)
    ensures RawOk(members[0].raw)
    ensures ParseFields(Members(members) + ("}" + w), acc)
      == ParseFields(Members(members[1..]) + ("}" + w), acc + [Field(Unescaped(members[0].raw), v)])
  {
    var m, more := members[0], Members(members[1..]) + ("}" + w);
    FirstMember(members);
    KeyIsNew(members, acc);
    WrittenHead(m.doc);
    CommaTail(more);
    MembersText(members, w);
    hide Parse, ParseFields, ScanAll, Legible, NewKeys, RawOk, Unescaped, Fresh, KeyText, Written, Members;
    WrittenScans(m.doc, 0);
    MemberTurn(m, Written(m.doc), "," + more, v, acc);
  }

  /** The fields are what the members denote. */
  ghost predicate Bindings(members: seq<Member>, fs: seq<Field>) {
    && |fs| == |members|
    && forall i :: 0 <= i < |members| ==>
      && RawOk(members[i].raw) && fs[i].key == Unescaped(members[i].raw) && Denotes(members[i].doc, fs[i].value)
  }

  lemma FirstAndRest(members: seq<Member>, f: Field, rest: seq<Field>)
    requires members != [] && RawOk(members[0].raw) && f.key == Unescaped(members[0].raw)
    requires Denotes(members[0].doc, f.value) && Bindings(members[1..], rest)
    ensures Bindings(members, [f] + rest)
  {
    hide RawOk, Unescaped, Denotes;
    var fs := [f] + rest;
    forall i | 0 <= i < |members|
      ensures RawOk(members[i].raw) && fs[i].key == Unescaped(members[i].raw) && Denotes(members[i].doc, fs[i].value)
    {
      if i > 0 { assert members[i] == members[1..][i - 1] && fs[i] == rest[i - 1]; }
    }
  }

  lemma OnlyOne(members: seq<Member>, f: Field)
    requires |members| == 1 && RawOk(members[0].raw) && f.key == Unescaped(members[0].raw)
    requires Denotes(members[0].doc, f.value)
    ensures Bindings(members, [f])
  {
    hide RawOk, Unescaped, Denotes;
  }

  lemma Associative<T>(a: seq<T>, b: seq<T>, c: seq<T>)
    ensures a + b + c == a + (b + c)
  {
  }

  lemma KeysLeft(members: seq<Member>, acc: seq<Field>, v: Json)
    requires members != [] && Legible(Record("", members)) && NewKeys(members, acc)
    ensures NewKeys(members[1..], acc + [Field(Unescaped(members[0].raw), v)])
  {
    hide RawOk, Unescaped, ScanAll;
    forall m | m in members[1..]
      ensures RawOk(m.raw) && Fresh(acc + [Field(Unescaped(members[0].raw), v)], Unescaped(m.raw))
    {
      var i :| 0 <= i < |members[1..]| && members[1..][i] == m;
      assert members[i + 1] == m && m in members;
    }
  }

  lemma OneMemberText(m: Member, members: seq<Member>, w: string)
    requires members == [m]
    ensures Members(members) + ("}" + w)
      == m.before + (KeyText(m.raw, m.mid, m.inner) + (Written(m.doc) + m.after + ("}" + w)))
    ensures "" + ("}" + w) == "}" + w
  {
    hide Written, KeyText;
    var k, x := KeyText(m.raw, m.mid, m.inner), Written(m.doc) + m.after;
    assert m.before + (k + x) + ("}" + w) == m.before + (k + (x + ("}" + w)));
  }

  lemma MembersText(members: seq<Member>, w: string)
    requires |members| > 1
    ensures var m, more := members[0], Members(members[1..]) + ("}" + w);
      && Members(members) + ("}" + w)
         == m.before + (KeyText(m.raw, m.mid, m.inner) + (Written(m.doc) + m.after + ("," + more)))
      && ("," + more)[1..] == more
  {
    hide Written, KeyText;
    var m, more := members[0], Members(members[1..]);
    var k, x := KeyText(m.raw, m.mid, m.inner), Written(m.doc) + m.after;
    CommaTail(more + ("}" + w));
    BehindComma(m.before, k + x, more, "}" + w);
    Regroup(k, x, "," + (more + ("}" + w)));
  }

  /** The same behind white space. */
  lemma ParseReadsJson(lead: string, d: Doc, trail: string) returns (v: Json)
    requires AllWs(lead) && Legible(d) && AllWs(trail)
    ensures Parse(lead + (Written(d) + trail)) == Done(v) && Denotes(d, v)
  {
    v := Reads(d, trail);
    hide *;
    BehindWs(lead, Written(d) + trail);
  }

  /** White space in front of a text makes no difference to what it parses to. */
  lemma BehindWs(lead: string, t: string)
    requires AllWs(lead)
    ensures Parse(lead + t) == Parse(t)
  {
    SkipWsOver(lead, t);
    SkipTwice(t);
    hide SkipWs, ReadNumber, ReadQuoted, CutOff, ParseItems, ParseFields;
  }

  lemma {:induction false} SkipTwice(t: string)
    ensures SkipWs(SkipWs(t)) == SkipWs(t)
  {
    if t != "" && IsWs(t[0]) { SkipTwice(t[1..]); }
  }

  // ---------- escapes ----------

  /** What the printers make of a string is a string of RFC 8259 that denotes it. */
  lemma {:induction false} PrintedDenotes(s: string)
    requires '\0' !in s
    ensures RawOk(Escape(s)) && Unescaped(Escape(s)) == s
  {
    if s != "" {
      EscapeFirst(s);
      PrintedDenotes(s[1..]);
      OnePrinted(s[0], Escape(s[1..]));
    }
  }

  lemma OnePrinted(c: char, more: string)
    requires c != '\0' && RawOk(more)
    ensures RawOk(EscapeChar(c) + more) && Unescaped(EscapeChar(c) + more) == [c] + Unescaped(more)
  {
    var t := EscapeChar(c) + more;
    if |EscapeChar(c)| == 2 {
      assert t[2..] == more && t[1] == EscapeChar(c)[1] && t[0] == '\\';
    } else {
      assert t[1..] == more && t[0] == c;
    }
  }

  /** Any other escape loses its backslash: \b and \f are read as letters, and \u with its four
      digits as five characters. */
  lemma UnknownEscape(c: char, raw: string)
    requires Escaped(c).None? && c != '\0' && RawOk(raw) && |Unescaped(raw)| < 4095
    ensures Parse("\"" + (['\\', c] + raw) + "\"") == Done(Str([c] + Unescaped(raw)))
  {
    var more := raw + ("\"" + "");
    var t := "\"" + (['\\', c] + raw) + "\"";
    RawReads(raw, "", STRING_MAX - 1);
    EscapeReads(c, more, STRING_MAX);
    RawHasNoNul(raw);
    assert Unescape(c) == c;
    CutNulWhole([c] + Unescaped(raw));
    hide ReadQuoted, CutOff, CutNul, RawOk, Unescaped, Parse, Unescape, Escaped;
    assert Tail(t) == ['\\', c] + more && t[0] == '"';
    ParseQuotedText(t);
  }

  /** A key that is set again keeps its place and gets the new value; nothing else changes. */
  lemma {:induction false} LastValueWins(fields: seq<Field>, key: string, value: Json)
    requires DistinctKeys(fields) && !Fresh(fields, key)
    ensures var r := SetField(fields, key, value);
      && |r| == |fields|
      && forall i :: 0 <= i < |r| ==> r[i] == if fields[i].key == key then Field(key, value) else fields[i]
  {
    if fields[0].key != key {
      var rest := fields[1..];
      assert fields == [fields[0]] + rest;
      LastValueWins(rest, key, value);
    }
  }
}
