/** String literals and template strings as the emitter writes them in C. */
module TemplateEmitter {
  import opened Basics

  /** `str.replace` with a global pattern of one character. */
  function Replace(s: string, c: char, text: string): string {
    if s == "" then "" else (if s[0] == c then text else [s[0]]) + Replace(s[1..], c, text)
  }

  /** `escapeString`: five replacements, each over the whole result of the one before. */
  function EscapeString(s: string): string {
    Replace(Replace(Replace(Replace(Replace(s, '\\', "\\\\"), '"', "\\\""), '\n', "\\n"), '\r', "\\r"), '\t', "\\t")
  }

  lemma {:induction false} ReplaceConcat(a: string, b: string, c: char, text: string)
    ensures Replace(a + b, c, text) == Replace(a, c, text) + Replace(b, c, text)
  {
    if a == "" {
      assert a + b == b;
    } else {
      assert (a + b)[1..] == a[1..] + b;
      ReplaceConcat(a[1..], b, c, text);
    }
  }

  lemma EscapeConcat(a: string, b: string)
    ensures EscapeString(a + b) == EscapeString(a) + EscapeString(b)
  {
    hide Replace;
    ReplaceConcat(a, b, '\\', "\\\\");
    var a1, b1 := Replace(a, '\\', "\\\\"), Replace(b, '\\', "\\\\");
    ReplaceConcat(a1, b1, '"', "\\\"");
    var a2, b2 := Replace(a1, '"', "\\\""), Replace(b1, '"', "\\\"");
    ReplaceConcat(a2, b2, '\n', "\\n");
    var a3, b3 := Replace(a2, '\n', "\\n"), Replace(b2, '\n', "\\n");
    ReplaceConcat(a3, b3, '\r', "\\r");
    ReplaceConcat(Replace(a3, '\r', "\\r"), Replace(b3, '\r', "\\r"), '\t', "\\t");
  }

  lemma ReplaceOne(x: char, c: char, text: string)
    ensures Replace([x], c, text) == if x == c then text else [x]
  {
  }

  lemma ReplacePair(x: char, y: char, c: char, text: string)
    requires x != c && y != c
    ensures Replace([x, y], c, text) == [x, y]
  {
    ReplaceConcat([x], [y], c, text);
    assert [x] + [y] == [x, y];
  }

  lemma EscapeOne(x: char)
    ensures EscapeString([x]) == EscapeChar(x)
  {
    hide Replace;
    ReplaceOne(x, '\\', "\\\\");
    ReplaceOne(x, '"', "\\\"");
    ReplaceOne(x, '\n', "\\n");
    ReplaceOne(x, '\r', "\\r");
    ReplaceOne(x, '\t', "\\t");
    ReplacePair('\\', '\\', '"', "\\\"");
    ReplacePair('\\', '\\', '\n', "\\n");
    ReplacePair('\\', '\\', '\r', "\\r");
    ReplacePair('\\', '\\', '\t', "\\t");
    ReplacePair('\\', '"', '\n', "\\n");
    ReplacePair('\\', '"', '\r', "\\r");
    ReplacePair('\\', '"', '\t', "\\t");
    ReplacePair('\\', 'n', '\r', "\\r");
    ReplacePair('\\', 'n', '\t', "\\t");
    ReplacePair('\\', 'r', '\t', "\\t");
  }

  /** The chain of replacements is one replacement of every character at once: no replacement
      touches what an earlier one put in. */
  lemma {:induction false} EscapeIsSimultaneous(s: string)
    ensures EscapeString(s) == Escape(s)
  {
    if s != "" {
      EscapeIsSimultaneous(s[1..]);
      EscapeOne(s[0]);
      EscapeConcat([s[0]], s[1..]);
      assert s == [s[0]] + s[1..];
    }
  }

  // ---------- reading a C string literal ----------

  /** The character a simple escape sequence stands for. */
  function SimpleEscape(c: char): Option<char> {
    match c
    case 'n' => Some('\n')
    case 'r' => Some('\r')
    case 't' => Some('\t')
    case '\\' => Some('\\')
    case '"' => Some('"')
    case '\'' => Some('\'')
    case '?' => Some('?')
    case _ => None
  }

  /** What the text between the quotes of a literal denotes; None if it is not one literal. */
  function CRead(body: string): Option<string> {
    if body == "" then Some("")
    else if body[0] == '"' || body[0] == '\n' then None
    else if body[0] == '\\' then
      if |body| < 2 then None
      else
        match SimpleEscape(body[1])
        case None => None
        case Some(c) => Prepend(c, CRead(body[2..]))
    else Prepend(body[0], CRead(body[1..]))
  }

  function Prepend(c: char, rest: Option<string>): Option<string> {
    match rest
    case None => None
    case Some(s) => Some([c] + s)
  }

  /** Every string survives being written as a literal and read back. */
  lemma {:induction false} LiteralRoundTrip(s: string)
    ensures CRead(EscapeString(s)) == Some(s)
  {
    hide EscapeString, EscapeChar;
    EscapeIsSimultaneous(s);
    if s != "" {
      var rest := s[1..];
      LiteralRoundTrip(rest);
      EscapeIsSimultaneous(rest);
      ReadMapped(s[0], Escape(rest));
      hide CRead;
      assert s == [s[0]] + rest;
    }
  }

  lemma ReadMapped(c: char, more: string)
    ensures CRead(EscapeChar(c) + more) == Prepend(c, CRead(more))
  {
    var body := EscapeChar(c) + more;
    if |EscapeChar(c)| == 2 {
      assert body[2..] == more;
    } else {
      assert body[1..] == more;
    }
  }

  // ---------- reading emitted calls ----------

  predicate IsOpen(c: char) { c == '(' || c == '[' || c == '{' }

  predicate IsClose(c: char) { c == ')' || c == ']' || c == '}' }

  /** Where a reader of C text is: among code, or inside a string or character literal. */
  datatype Mode = Code | Quoted(quote: char)

  /** The length of the argument at the start of t: it ends before a comma or a closing
      bracket that is outside literals and inner brackets. */
  function ArgLength(t: string, depth: nat, mode: Mode): (n: nat)
    ensures n <= |t|
  {
    if t == "" then 0
    else if mode.Quoted? then
      if t[0] == '\\' then if |t| < 2 then 1 else 2 + ArgLength(t[2..], depth, mode)
      else 1 + ArgLength(t[1..], depth, if t[0] == mode.quote then Code else mode)
    else if t[0] == '"' || t[0] == '\'' then 1 + ArgLength(t[1..], depth, Quoted(t[0]))
    else if depth == 0 && (IsClose(t[0]) || t[0] == ',') then 0
    else 1 + ArgLength(t[1..], Deeper(t[0], depth), mode)
  }

  function Deeper(c: char, depth: nat): nat {
    if IsOpen(c) then depth + 1 else if IsClose(c) && depth > 0 then depth - 1 else depth
  }

  datatype Place = Stopped | At(depth: nat, mode: Mode)

  /** Where a reader is after all of t, unless its argument ends inside t. */
  ghost function Pass(t: string, depth: nat, mode: Mode): Place {
    if t == "" then At(depth, mode)
    else if mode.Quoted? then
      if t[0] == '\\' then if |t| < 2 then Stopped else Pass(t[2..], depth, mode)
      else Pass(t[1..], depth, if t[0] == mode.quote then Code else mode)
    else if t[0] == '"' || t[0] == '\'' then Pass(t[1..], depth, Quoted(t[0]))
    else if depth == 0 && (IsClose(t[0]) || t[0] == ',') then Stopped
    else Pass(t[1..], Deeper(t[0], depth), mode)
  }

  /** t can be an argument of a call: it closes its brackets and literals, and every comma
      is inside some. */
  ghost predicate Argument(t: string) { Pass(t, 0, Code) == At(0, Code) }

  lemma {:induction false} PassConcat(a: string, b: string, depth: nat, mode: Mode)
    ensures Pass(a, depth, mode).At? ==>
      Pass(a + b, depth, mode) == Pass(b, Pass(a, depth, mode).depth, Pass(a, depth, mode).mode)
    decreases |a|
  {
    if a == "" {
      assert a + b == b;
    } else if mode.Quoted? && a[0] == '\\' {
      if |a| >= 2 {
        assert (a + b)[2..] == a[2..] + b;
        PassConcat(a[2..], b, depth, mode);
      }
    } else {
      assert (a + b)[1..] == a[1..] + b;
      if mode.Quoted? {
        PassConcat(a[1..], b, depth, if a[0] == mode.quote then Code else mode);
      } else if a[0] == '"' || a[0] == '\'' {
        PassConcat(a[1..], b, depth, Quoted(a[0]));
      } else {
        PassConcat(a[1..], b, Deeper(a[0], depth), mode);
      }
    }
  }

  /** An argument deeper inside brackets is passed over just as well. */
  lemma {:induction false} PassDeeper(t: string, depth: nat, mode: Mode, k: nat)
    requires Pass(t, depth, mode).At?
    ensures Pass(t, depth + k, mode) == At(Pass(t, depth, mode).depth + k, Pass(t, depth, mode).mode)
    decreases |t|
  {
    if t != "" {
      if mode.Quoted? {
        if t[0] == '\\' { PassDeeper(t[2..], depth, mode, k); }
        else { PassDeeper(t[1..], depth, if t[0] == mode.quote then Code else mode, k); }
      } else if t[0] == '"' || t[0] == '\'' {
        PassDeeper(t[1..], depth, Quoted(t[0]), k);
      } else {
        PassDeeper(t[1..], Deeper(t[0], depth), mode, k);
      }
    }
  }

  /** A reader takes an argument whole, up to the comma or bracket after it. */
  lemma {:induction false} ArgTakes(t: string, rest: string, depth: nat, mode: Mode)
    requires Pass(t, depth, mode) == At(0, Code) && (rest == "" || rest[0] == ',' || IsClose(rest[0]))
    ensures ArgLength(t + rest, depth, mode) == |t|
    decreases |t|
  {
    if t == "" {
      assert t + rest == rest;
    } else if mode.Quoted? && t[0] == '\\' {
      assert (t + rest)[2..] == t[2..] + rest;
      ArgTakes(t[2..], rest, depth, mode);
    } else {
      assert (t + rest)[1..] == t[1..] + rest;
      if mode.Quoted? {
        ArgTakes(t[1..], rest, depth, if t[0] == mode.quote then Code else mode);
      } else if t[0] == '"' || t[0] == '\'' {
        ArgTakes(t[1..], rest, depth, Quoted(t[0]));
      } else {
        ArgTakes(t[1..], rest, Deeper(t[0], depth), mode);
      }
    }
  }

  const NEW: string := "ts_string_new("
  const CONCAT: string := "ts_string_concat("

  /** What is between a call's brackets, if all of `text` is a call of `name`. */
  function Inner(text: string, name: string): Option<string> {
    if |name| < |text| && name <= text && text[|text| - 1] == ')'
    then Some(text[|name|..|text| - 1])
    else None
  }

  /** The body of a string literal that is all of t. */
  function LiteralBody(t: string): Option<string> {
    if |t| >= 2 && t[0] == '"' && QuoteEnd(t[1..]) == |t| - 2 then Some(t[1..|t| - 1]) else None
  }

  /** Where the literal whose body starts t has its closing quote; |t| if nowhere. */
  function QuoteEnd(t: string): (n: nat)
    ensures n <= |t|
  {
    if t == "" || t[0] == '"' then 0
    else if t[0] == '\\' then if |t| < 2 then 1 else 2 + QuoteEnd(t[2..])
    else 1 + QuoteEnd(t[1..])
  }

  /** The two arguments of a call, if they are all there is between its brackets. */
  function TwoArguments(t: string): Option<(string, string)> {
    var k := ArgLength(t, 0, Code);
    if k + 2 <= |t| && t[k..k + 2] == ", " && ArgLength(t[k + 2..], 0, Code) == |t| - k - 2
    then Some((t[..k], t[k + 2..]))
    else None
  }

  function Both(a: Option<string>, b: Option<string>): Option<string> {
    match (a, b)
    case (Some(x), Some(y)) => Some(x + y)
    case _ => None
  }

  /** The string a C expression evaluates to, read off its text: calls of the two string
      constructors are evaluated, any other expression has the value it is given. */
  function Evaluate(text: string, value: string -> string): Option<string>
    decreases |text|
  {
    match Inner(text, NEW)
    case Some(inner) =>
      (match LiteralBody(inner)
       case Some(body) => CRead(body)
       case None => Some(value(text)))
    case None =>
      match Inner(text, CONCAT)
      case None => Some(value(text))
      case Some(inner) =>
        match TwoArguments(inner)
        case None => Some(value(text))
        case Some(args) => Both(Evaluate(args.0, value), Evaluate(args.1, value))
  }

  function NewText(s: string): string { NEW + ("\"" + EscapeString(s) + "\"") + ")" }

  function ConcatText(a: string, b: string): string { CONCAT + (a + ", " + b) + ")" }

  lemma InnerOfCall(name: string, inner: string)
    ensures Inner(name + inner + ")", name) == Some(inner)
  {
    assert (name + inner + ")")[..|name|] == name;
    assert (name + inner + ")")[|name|..|name + inner + ")"| - 1] == inner;
  }

  lemma EscapedChar(c: char, more: string, depth: nat)
    ensures QuoteEnd(EscapeChar(c) + more) == |EscapeChar(c)| + QuoteEnd(more)
    ensures Pass(EscapeChar(c) + more, depth, Quoted('"')) == Pass(more, depth, Quoted('"'))
  {
    var t := EscapeChar(c) + more;
    if |EscapeChar(c)| == 2 {
      assert t[2..] == more;
    } else {
      assert t[1..] == more;
    }
  }

  lemma {:induction false} EscapedBody(s: string, rest: string, depth: nat)
    ensures QuoteEnd(Escape(s) + ("\"" + rest)) == |Escape(s)|
    ensures Pass(Escape(s), depth, Quoted('"')) == At(depth, Quoted('"'))
  {
    if s == "" {
      assert Escape(s) + ("\"" + rest) == "\"" + rest;
    } else {
      EscapedBody(s[1..], rest, depth);
      EscapedChar(s[0], Escape(s[1..]) + ("\"" + rest), depth);
      EscapedChar(s[0], Escape(s[1..]), depth);
      hide EscapeChar, QuoteEnd, Pass;
      Regroup(EscapeChar(s[0]), Escape(s[1..]), "\"" + rest);
    }
  }

  lemma LiteralIs(body: string)
    requires QuoteEnd(body + ("\"" + "")) == |body|
    ensures LiteralBody("\"" + body + "\"") == Some(body)
  {
    var t := "\"" + body + "\"";
    assert t[1..] == body + ("\"" + "") && t[1..|t| - 1] == body;
  }

  /** The emitted call for a literal evaluates to the string, and can be an argument. */
  lemma NewMeans(s: string, value: string -> string)
    ensures Evaluate(NewText(s), value) == Some(s) && Argument(NewText(s))
  {
    var body := Escape(s);
    EscapeIsSimultaneous(s);
    LiteralRoundTrip(s);
    EscapedBody(s, "", 1);
    LiteralIs(body);
    InnerOfCall(NEW, "\"" + body + "\"");
    LiteralPasses(body, 1);
    CallPasses(NEW, "\"" + body + "\"");
    hide EscapeString, Escape, CRead, Pass, LiteralBody, Inner;
  }

  lemma LiteralPasses(body: string, depth: nat)
    requires Pass(body, depth, Quoted('"')) == At(depth, Quoted('"'))
    ensures Pass("\"" + body + "\"", depth, Code) == At(depth, Code)
  {
    PassConcat(body, "\"", depth, Quoted('"'));
    assert ("\"" + body + "\"")[1..] == body + "\"" && "\""[1..] == "";
  }

  /** A plain name and its bracket, ... */
  ghost predicate Name(t: string) {
    forall i :: 0 <= i < |t| ==> t[i] != '"' && t[i] != '\'' && t[i] != ',' && !IsClose(t[i]) && !IsOpen(t[i])
  }

  lemma {:induction false} NamePasses(t: string, depth: nat)
    requires Name(t)
    ensures Pass(t, depth, Code) == At(depth, Code)
  {
    if t != "" { NamePasses(t[1..], depth); }
  }

  lemma OpenPasses(name: string)
    requires name == NEW || name == CONCAT
    ensures Pass(name, 0, Code) == At(1, Code)
  {
    PlainNames();
    assert Pass("(", 0, Code) == At(1, Code) by { assert "("[1..] == ""; }
    hide Pass, Name;
    var plain := if name == NEW then "ts_string_new" else "ts_string_concat";
    NamePasses(plain, 0);
    PassConcat(plain, "(", 0, Code);
  }

  lemma PlainNames()
    ensures Name("ts_string_new") && Name("ts_string_concat")
    ensures "ts_string_new" + "(" == NEW && "ts_string_concat" + "(" == CONCAT
  {
  }

  /** ... what is between the brackets, and the closing bracket. */
  lemma CallPasses(name: string, inner: string)
    requires name == NEW || name == CONCAT
    requires Pass(inner, 1, Code) == At(1, Code)
    ensures Argument(name + inner + ")")
  {
    OpenPasses(name);
    assert Pass(")", 1, Code) == At(0, Code) by { assert ")"[1..] == ""; }
    hide Pass;
    PassConcat(name, inner, 0, Code);
    PassConcat(name + inner, ")", 0, Code);
  }

  lemma PairIs(a: string, b: string)
    requires Argument(a) && Argument(b)
    ensures TwoArguments(a + ", " + b) == Some((a, b))
  {
    var t := a + ", " + b;
    ArgTakes(a, ", " + b, 0, Code);
    ArgTakes(b, "", 0, Code);
    assert t == a + (", " + b) && b + "" == b;
    assert t[..|a|] == a && t[|a|..|a| + 2] == ", " && t[|a| + 2..] == b;
  }

  lemma PairPasses(a: string, b: string)
    requires Argument(a) && Argument(b)
    ensures Pass(a + ", " + b, 1, Code) == At(1, Code)
  {
    PassDeeper(a, 0, Code, 1);
    PassDeeper(b, 0, Code, 1);
    PassConcat(a, ", ", 1, Code);
    assert ", "[1..] == " " && " "[1..] == "";
    PassConcat(a + ", ", b, 1, Code);
  }

  lemma NotNew(t: string)
    ensures Inner(CONCAT + t + ")", NEW) == None
  {
    assert (CONCAT + t + ")")[10] == 'c' && NEW[10] == 'n';
  }

  /** The emitted call for a concatenation evaluates to the concatenation of its arguments'
      values, and can be an argument. */
  lemma ConcatMeans(a: string, b: string, value: string -> string)
    requires Argument(a) && Argument(b)
    ensures Evaluate(ConcatText(a, b), value) == Both(Evaluate(a, value), Evaluate(b, value))
    ensures Argument(ConcatText(a, b))
  {
    PairIs(a, b);
    PairPasses(a, b);
    InnerOfCall(CONCAT, a + ", " + b);
    NotNew(a + ", " + b);
    CallPasses(CONCAT, a + ", " + b);
    hide Pass, Inner, TwoArguments, LiteralBody, Argument, CRead;
  }

  // ---------- template strings ----------

  /** An interpolated expression, as emitted, and the text that follows it. */
  datatype Span = Span(code: string, literal: string)

  /** The left fold of the parts. */
  function Folded(head: string, spans: seq<Span>): string {
    if spans == [] then NewText(head)
    else
      var last := spans[|spans| - 1];
      ConcatText(Folded(head, spans[..|spans| - 1]), ConcatText(last.code, NewText(last.literal)))
  }

  /** What the template means: the head, then each expression's text and the literal after
      it; None if some expression has no value. */
  function Meaning(head: string, spans: seq<Span>, value: string -> string): Option<string> {
    if spans == [] then Some(head)
    else
      var last := spans[|spans| - 1];
      Both(Meaning(head, spans[..|spans| - 1], value), Both(Evaluate(last.code, value), Some(last.literal)))
  }

  /** The emitted text, read as C, evaluates to the template's meaning, templates nested in
      the interpolated expressions included. */
  lemma {:induction false} FoldedMeans(head: string, spans: seq<Span>, value: string -> string)
    requires forall span :: span in spans ==> Argument(span.code)
    ensures Evaluate(Folded(head, spans), value) == Meaning(head, spans, value) && Argument(Folded(head, spans))
  {
    hide NewText, ConcatText, Argument, Evaluate;
    if spans == [] {
      NewMeans(head, value);
    } else {
      var front, last := spans[..|spans| - 1], spans[|spans| - 1];
      FoldedMeans(head, front, value);
      assert last in spans;
      NewMeans(last.literal, value);
      ConcatMeans(last.code, NewText(last.literal), value);
      ConcatMeans(Folded(head, front), ConcatText(last.code, NewText(last.literal)), value);
    }
  }

  /** `emitTemplate`: collects the parts, then folds them from the left. */
  method EmitTemplate(head: string, spans: seq<Span>) returns (code: string)
    ensures code == Folded(head, spans)
  {
    hide EscapeString;
    var first := "ts_string_new(\"" + EscapeString(head) + "\")";
    NewWords(head);
    if |spans| == 0 {
      return first;
    }
    var parts: seq<string> := [first];
    for i := 0 to |spans|
      invariant |parts| == i + 1 && parts[0] == NewText(head)
      invariant forall j :: 0 <= j < i ==> parts[j + 1] == ConcatText(spans[j].code, NewText(spans[j].literal))
    {
      var literal := EscapeString(spans[i].literal);
      var text := "ts_string_concat(" + spans[i].code + ", ts_string_new(\"" + literal + "\"))";
      PartWords(spans[i]);
      parts := parts + [text];
    }
    hide NewText;
    code := parts[0];
    for i := 1 to |parts|
      invariant code == Folded(head, spans[..i - 1])
    {
      assert spans[..i][..i - 1] == spans[..i - 1];
      assert parts[(i - 1) + 1] == ConcatText(spans[i - 1].code, NewText(spans[i - 1].literal));
      ConcatWords(code, parts[i]);
      code := "ts_string_concat(" + code + ", " + parts[i] + ")";
    }
    assert spans[..|spans|] == spans;
  }

  lemma NewWords(s: string)
    ensures NewText(s) == "ts_string_new(\"" + EscapeString(s) + "\")"
  {
    hide EscapeString;
    var body := EscapeString(s);
    assert NEW + ("\"" + body + "\"") + ")" == "ts_string_new(\"" + body + "\")";
  }

  lemma ConcatWords(a: string, b: string)
    ensures ConcatText(a, b) == "ts_string_concat(" + a + ", " + b + ")"
  {
  }

  lemma PartWords(span: Span)
    ensures ConcatText(span.code, NewText(span.literal))
      == "ts_string_concat(" + span.code + ", ts_string_new(\"" + EscapeString(span.literal) + "\"))"
  {
    NewWords(span.literal);
    hide EscapeString, NewText;
    var body := EscapeString(span.literal);
    ConcatWords(span.code, NewText(span.literal));
    assert ", " + ("ts_string_new(\"" + body + "\")") + ")" == ", ts_string_new(\"" + body + "\"))";
  }

  /** In the words of C: a constructor call evaluates to its string, and a concatenation to its
      first argument's string with its second argument's behind it. */
  lemma CallsInWords(s: string, a: string, b: string, x: string, y: string, value: string -> string)
    requires Argument(a) && Argument(b) && Evaluate(a, value) == Some(x) && Evaluate(b, value) == Some(y)
    ensures Evaluate("ts_string_new(\"" + EscapeString(s) + "\")", value) == Some(s)
    ensures Evaluate("ts_string_concat(" + a + ", " + b + ")", value) == Some(x + y)
  {
    NewWords(s);
    ConcatWords(a, b);
    hide EscapeString, NewText, ConcatText, Evaluate, Argument;
    NewMeans(s, value);
    ConcatMeans(a, b, value);
  }

  /** A template with one span means its head, the span's string and the literal behind it, ... */
  lemma OneSpan(head: string, code: string, literal: string, x: string, value: string -> string)
    requires Argument(code) && Evaluate(code, value) == Some(x)
    ensures Evaluate(Folded(head, [Span(code, literal)]), value) == Some(head + (x + literal))
  {
    var spans := [Span(code, literal)];
    FoldedMeans(head, spans, value);
    assert spans[..0] == [];
    hide Evaluate, Folded;
    assert Meaning(head, [], value) == Some(head);
  }

  /** ... and each further span adds its string and literal behind the others. */
  lemma OneSpanMore(head: string, spans: seq<Span>, span: Span, x: string, y: string, value: string -> string)
    requires (forall p :: p in spans ==> Argument(p.code)) && Argument(span.code)
    requires Evaluate(Folded(head, spans), value) == Some(x) && Evaluate(span.code, value) == Some(y)
    ensures Evaluate(Folded(head, spans + [span]), value) == Some(x + (y + span.literal))
  {
    var all := spans + [span];
    hide Argument;
    FoldedMeans(head, spans, value);
    FoldedMeans(head, all, value);
    assert all[..|spans|] == spans && all[|spans|] == span;
    hide Evaluate, Folded;
  }
}
