/** Exactly which values come back from their printed text, containers in containers
    included.  The argument is a conservation law: no text parses to a value with more commas
    than the text has, and a printed text has none to spare. */
module JsonNesting {
  import opened Basics
  import opened JsonText
  import opened JsonNumbers
  import opened JsonRoundTrip

  // ---------- the commas of a text and of a value ----------

  function Commas(t: string): nat {
    if t == "" then 0 else (if t[0] == ',' then 1 else 0) + Commas(t[1..])
  }

  /** The commas a value is printed with: those of its strings and keys, and those between
      its elements. */
  function CommasOf(v: Json): nat
    decreases v, 1
  {
    match v
    case Str(s) => Commas(s)
    case Arr(items) => if items == [] then 0 else ItemCommas(items) - 1
    case Obj(fields) => if fields == [] then 0 else FieldCommas(fields) - 1
    case _ => 0
  }

  /** As if one more comma followed. */
  function ItemCommas(items: seq<Json>): (n: nat)
    ensures items != [] ==> n > 0
    decreases items, 0
  {
    if items == [] then 0 else CommasOf(items[0]) + 1 + ItemCommas(items[1..])
  }

  function FieldCommas(fields: seq<Field>): (n: nat)
    ensures fields != [] ==> n > 0
    decreases fields, 0
  {
    if fields == [] then 0 else Commas(fields[0].key) + CommasOf(fields[0].value) + 1 + FieldCommas(fields[1..])
  }

  lemma {:induction false} CommasConcat(a: string, b: string)
    ensures Commas(a + b) == Commas(a) + Commas(b)
  {
    if a == "" {
      assert a + b == b;
    } else {
      assert (a + b)[1..] == a[1..] + b;
      CommasConcat(a[1..], b);
    }
  }

  lemma CommasSplit(t: string, n: nat)
    requires n <= |t|
    ensures Commas(t) == Commas(t[..n]) + Commas(t[n..])
  {
    assert t == t[..n] + t[n..];
    CommasConcat(t[..n], t[n..]);
  }

  lemma {:induction false} ItemCommasConcat(a: seq<Json>, b: seq<Json>)
    ensures ItemCommas(a + b) == ItemCommas(a) + ItemCommas(b)
  {
    if a == [] {
      assert a + b == b;
    } else {
      assert (a + b)[1..] == a[1..] + b;
      ItemCommasConcat(a[1..], b);
    }
  }

  lemma {:induction false} FieldCommasConcat(a: seq<Field>, b: seq<Field>)
    ensures FieldCommas(a + b) == FieldCommas(a) + FieldCommas(b)
  {
    if a == [] {
      assert a + b == b;
    } else {
      assert (a + b)[1..] == a[1..] + b;
      FieldCommasConcat(a[1..], b);
    }
  }

  lemma OneMore(acc: seq<Json>, v: Json)
    ensures ItemCommas(acc + [v]) == ItemCommas(acc) + CommasOf(v) + 1
  {
    ItemCommasConcat(acc, [v]);
    assert [v][1..] == [];
  }

  lemma OneFieldMore(acc: seq<Field>, f: Field)
    ensures FieldCommas(acc + [f]) == FieldCommas(acc) + Commas(f.key) + CommasOf(f.value) + 1
  {
    FieldCommasConcat(acc, [f]);
    assert [f][1..] == [];
  }

  // ---------- what any parse keeps to ----------

  /** Every string of v, at any depth, has no NUL and fits the buffer it is read into. */
  ghost predicate Fits(v: Json) {
    match v
    case Str(s) => TextOk(s, STRING_MAX)
    case Arr(items) => forall x :: x in items ==> Fits(x)
    case Obj(fields) => forall f :: f in fields ==> TextOk(f.key, KEY_MAX) && Fits(f.value)
    case _ => true
  }

  lemma {:induction false} SkipCommas(t: string)
    ensures Commas(SkipWs(t)) == Commas(t)
  {
    if t != "" && IsWs(t[0]) { SkipCommas(t[1..]); }
  }

  lemma {:induction false} CutCommas(s: string)
    ensures Commas(CutNul(s)) <= Commas(s)
  {
    if s != "" && s[0] != '\0' {
      CutCommas(s[1..]);
      assert CutNul(s)[1..] == CutNul(s[1..]);
    }
  }

  lemma TailCommas(t: string)
    ensures Commas(t) == Commas(Tail(t)) + if Head(t) == ',' then 1 else 0
  {
  }

  /** What is read between quotes and what is left have the commas of the text. */
  lemma {:induction false} ReadCommas(t: string, room: nat)
    ensures Commas(ReadQuoted(t, room).0) + Commas(ReadQuoted(t, room).1) <= Commas(t)
    decreases room
  {
    if Head(t) != '\0' && Head(t) != '"' && room > 0 {
      var u := if Head(t) == '\\' then Tail(t) else t;
      var c := if Head(t) == '\\' then Unescape(Head(u)) else Head(u);
      TailCommas(t);
      TailCommas(u);
      ReadCommas(Tail(u), room - 1);
      var more := ReadQuoted(Tail(u), room - 1).0;
      assert ([c] + more)[1..] == more;
    }
  }

  lemma ReadKeyCommas(t: string, room: nat)
    ensures Commas(CutNul(ReadQuoted(t, room).0)) + Commas(ReadQuoted(t, room).1) <= Commas(t)
  {
    ReadCommas(t, room);
    CutCommas(ReadQuoted(t, room).0);
  }

  lemma AtValueCommas(t: string)
    ensures Commas(AtValue(t)) <= Commas(t)
  {
    TailCommas(t);
    var u := SkipWs(Tail(t));
    SkipCommas(Tail(t));
    TailCommas(u);
    SkipCommas(u);
    SkipCommas(Tail(u));
  }

  /** The scanner stops at the end, a closing bracket or a comma. */
  predicate IsStop(c: char) { c == '\0' || IsClose(c) || c == ',' }

  lemma {:induction false} ElementStops(t: string, depth: nat)
    ensures IsStop(Head(t[ElementLength(t, depth)..]))
  {
    var c := Head(t);
    if c != '\0' && !(depth == 0 && (IsClose(c) || c == ',')) {
      ElementStops(t[1..], if IsOpen(c) then depth + 1 else if IsClose(c) then depth - 1 else depth);
    }
  }

  /** What is left for the next turn: the text behind a comma, or text at which a loop ends. */
  lemma AfterStop(t: string)
    requires IsStop(Head(t))
    ensures AfterElement(t) == if Head(t) == ',' then Tail(t) else t
    ensures Commas(t) == Commas(AfterElement(t)) + if Head(t) == ',' then 1 else 0
  {
    SkipNothing(t);
    TailCommas(t);
  }

  lemma ItemsAtStop(t: string, acc: seq<Json>)
    requires IsStop(Head(t)) && Head(t) != ','
    ensures ParseItems(t, acc) == if Head(t) == '}' then Hangs else Done(Arr(acc))
  {
    if Head(t) == '}' {
      SkipNothing(t);
      assert t[..0] == "" && t[0..] == t;
      hide ParseItems;
      ItemsTurnIs(t, acc);
    }
  }

  lemma FieldsAtStop(t: string, acc: seq<Field>)
    requires IsStop(Head(t)) && Head(t) != ','
    ensures ParseFields(t, acc) == Done(Obj(acc))
  {
    SkipNothing(t);
  }

  lemma {:induction false} SetFieldKeeps(acc: seq<Field>, key: string, value: Json)
    requires Fits(Obj(acc)) && TextOk(key, KEY_MAX) && Fits(value)
    ensures Fits(Obj(SetField(acc, key, value)))
    ensures if Fresh(acc, key) then SetField(acc, key, value) == acc + [Field(key, value)]
            else FieldCommas(SetField(acc, key, value)) <= FieldCommas(acc) + CommasOf(value)
  {
    if Fresh(acc, key) {
      SetFieldNew(acc, key, value);
    } else if acc[0].key == key {
      var r := [Field(key, value)] + acc[1..];
      assert r[1..] == acc[1..];
    } else {
      assert Fits(Obj(acc[1..])) && !Fresh(acc[1..], key) by { assert acc == [acc[0]] + acc[1..]; }
      SetFieldKeeps(acc[1..], key, value);
      var r := [acc[0]] + SetField(acc[1..], key, value);
      assert r[1..] == SetField(acc[1..], key, value);
    }
  }

  /** No text, well formed or not, parses to a value with a string too long for its buffer, or
      to one with more commas than the text. */
  lemma {:induction false} ParseKeeps(text: string)
    ensures Parse(text).Done? ==> Fits(Parse(text).value) && CommasOf(Parse(text).value) <= Commas(text)
    decreases |text|, 1
  {
    var t := SkipWs(text);
    SkipCommas(text);
    TailCommas(t);
    if Parse(text).Done? {
      match Parse(text).value
      case Str(s) =>
        ParsedString(text);
        ReadKeyCommas(Tail(t), STRING_MAX);
        ReadFits(Tail(t), STRING_MAX);
      case Arr(items) =>
        ContainerText(text);
        ItemsKeep(Tail(t), []);
      case Obj(fields) =>
        ContainerText(text);
        FieldsKeep(Tail(t), []);
      case _ =>
    }
  }

  lemma {:induction false} ItemsKeep(t: string, acc: seq<Json>)
    requires Fits(Arr(acc))
    ensures ParseItems(t, acc).Done? ==>
      match ParseItems(t, acc).value
      case Arr(r) => Fits(Arr(r)) && acc <= r && ItemCommas(r) <= ItemCommas(acc) + Commas(t) + 1
      case _ => false
    decreases |t|, 2
  {
    ItemsTurnIs(t, acc);
    var u := SkipWs(t);
    if Head(t) != '\0' && Head(t) != ']' && Head(u) != ']' {
      var n := ElementLength(u, 0);
      var rest := AfterElement(u[n..]);
      if Parse(u[..n]).Done? && |rest| != |t| {
        ParseKeeps(u[..n]);
        var v := Parse(u[..n]).value;
        ItemsKeep(rest, acc + [v]);
        OneMore(acc, v);
        SkipCommas(t);
        CommasSplit(u, n);
        ElementStops(u, 0);
        AfterStop(u[n..]);
        if Head(u[n..]) != ',' { ItemsAtStop(u[n..], acc + [v]); }
      }
    }
  }

  lemma {:induction false} FieldsKeep(t: string, acc: seq<Field>)
    requires Fits(Obj(acc))
    ensures ParseFields(t, acc).Done? ==>
      match ParseFields(t, acc).value
      case Obj(r) =>
        && Fits(Obj(r)) && FieldCommas(r) <= FieldCommas(acc) + Commas(t) + 1
        && (acc <= r || FieldCommas(r) <= FieldCommas(acc) + Commas(t))
      case _ => false
    decreases |t|, 2
  {
    FieldsTurnIs(t, acc);
    if Head(t) != '\0' && Head(t) != '}' && Head(SkipWs(t)) == '"' && KeyEnds(Tail(SkipWs(t))) {
      var (key, u) := FieldStart(t);
      var n := ElementLength(u, 0);
      if Parse(u[..n]).Done? {
        ParseKeeps(u[..n]);
        var v := Parse(u[..n]).value;
        var acc' := SetField(acc, key, v);
        FieldStartCommas(t);
        SetFieldKeeps(acc, key, v);
        FieldsKeep(AfterElement(u[n..]), acc');
        if Fresh(acc, key) { OneFieldMore(acc, Field(key, v)); }
        CommasSplit(u, n);
        ElementStops(u, 0);
        AfterStop(u[n..]);
        if Head(u[n..]) != ',' { FieldsAtStop(u[n..], acc'); }
      }
    }
  }

  lemma FieldStartCommas(t: string)
    requires Head(SkipWs(t)) == '"'
    ensures Commas(FieldStart(t).0) + Commas(FieldStart(t).1) <= Commas(t) && TextOk(FieldStart(t).0, KEY_MAX)
  {
    var u := Tail(SkipWs(t));
    SkipCommas(t);
    TailCommas(SkipWs(t));
    ReadKeyCommas(u, KEY_MAX);
    ReadFits(u, KEY_MAX);
    AtValueCommas(ReadQuoted(u, KEY_MAX).1);
  }

  // ---------- the commas of a printed text ----------

  lemma {:induction false} NoCommas(t: string)
    requires forall i :: 0 <= i < |t| ==> t[i] != ','
    ensures Commas(t) == 0
  {
    if t != "" { NoCommas(t[1..]); }
  }

  lemma {:induction false} EscapeCommas(s: string)
    ensures Commas(Escape(s)) == Commas(s)
  {
    if s != "" {
      EscapeCommas(s[1..]);
      CommasConcat(EscapeChar(s[0]), Escape(s[1..]));
      CommasConcat([s[0]], s[1..]);
      assert s == [s[0]] + s[1..];
      EscapeCharCommas(s[0]);
    }
  }

  lemma EscapeCharCommas(c: char)
    ensures Commas(EscapeChar(c)) == Commas([c])
  {
    if |EscapeChar(c)| == 2 {
      NoCommas(EscapeChar(c));
      NoCommas([c]);
    }
  }

  lemma QuoteCommas(s: string)
    requires '\0' !in s
    ensures Commas(Quote(s)) == Commas(s)
  {
    QuoteWhole(s);
    EscapeCommas(s);
    NoCommas("\"");
    CommasConcat("\"", Escape(s));
    CommasConcat("\"" + Escape(s), "\"");
  }

  lemma WsCommas(w: string)
    requires AllWs(w)
    ensures Commas(w) == 0
  {
    NoCommas(w);
  }

  lemma BracketsCommas(open: char, lead: string, body: string, trail: string, close: char)
    requires IsOpen(open) && IsClose(close) && AllWs(lead) && AllWs(trail)
    ensures Commas([open] + lead + body + trail + [close]) == Commas(body)
  {
    NoCommas([open]);
    NoCommas([close]);
    WsCommas(lead);
    WsCommas(trail);
    CommasConcat([open], lead);
    CommasConcat([open] + lead, body);
    CommasConcat([open] + lead + body, trail);
    CommasConcat([open] + lead + body + trail, [close]);
  }

  /** A printed text has the commas of its value, and none to spare. */
  lemma {:induction false} RenderCommas(v: Json, st: Style, depth: nat)
    requires Fits(v)
    ensures Commas(Render(v, st, depth)) == CommasOf(v)
    decreases v, 1
  {
    hide Commas, Lead, Trail, General, Quote;
    match v {
      case Null => NoCommas("null");
      case Bool(b) => NoCommas("true"); NoCommas("false");
      case Num(x) => GeneralChars(x.Floor); NoCommas(General(x.Floor));
      case Str(s) => QuoteCommas(s);
      case Arr(items) =>
        if items == [] {
          NoCommas("[]");
        } else {
          ItemsCommas(items, st, depth);
          LayoutIsWs(st, depth);
          BracketsCommas('[', Lead(st, depth), RenderItems(items, st, depth), Trail(st, depth), ']');
        }
      case Obj(fields) =>
        LayoutIsWs(st, depth);
        if fields == [] {
          var lead := if st.Compact? then "" else "\n";
          NoCommas("");
          BracketsCommas('{', lead, "", Trail(st, depth), '}');
          assert "{" + lead + "" + Trail(st, depth) + "}" == Render(v, st, depth);
        } else {
          FieldsCommas(fields, st, depth);
          BracketsCommas('{', Lead(st, depth), RenderFields(fields, st, depth), Trail(st, depth), '}');
        }
    }
  }

  lemma SeparatorCommas(between: string)
    requires AllWs(between)
    ensures Commas("," + between) == 1
  {
    WsCommas(between);
    assert ("," + between)[1..] == between;
  }

  lemma {:induction false} ItemsCommas(items: seq<Json>, st: Style, depth: nat)
    requires items != [] && Fits(Arr(items))
    ensures Commas(RenderItems(items, st, depth)) == ItemCommas(items) - 1
    decreases items, 0
  {
    hide Commas, Render, Between;
    assert Fits(items[0]);
    RenderCommas(items[0], st, depth + 1);
    if |items| > 1 {
      ItemsCommas(items[1..], st, depth);
      LayoutIsWs(st, depth);
      SeparatorCommas(Between(st, depth));
      CommasConcat(Render(items[0], st, depth + 1), "," + Between(st, depth));
      CommasConcat(Render(items[0], st, depth + 1) + ("," + Between(st, depth)), RenderItems(items[1..], st, depth));
    }
  }

  lemma KeyCommas(key: string, value: string)
    requires '\0' !in key
    ensures Commas(Quote(key) + ": " + value) == Commas(key) + Commas(value)
  {
    hide Quote;
    QuoteCommas(key);
    NoCommas(": ");
    CommasConcat(Quote(key), ": ");
    CommasConcat(Quote(key) + ": ", value);
  }

  lemma {:induction false} FieldsCommas(fields: seq<Field>, st: Style, depth: nat)
    requires fields != [] && Fits(Obj(fields))
    ensures Commas(RenderFields(fields, st, depth)) == FieldCommas(fields) - 1
    decreases fields, 0
  {
    hide Commas, Render, Between, Quote;
    var f := fields[0];
    assert Fits(f.value);
    RenderCommas(f.value, st, depth + 1);
    KeyCommas(f.key, Render(f.value, st, depth + 1));
    if |fields| > 1 {
      FieldsCommas(fields[1..], st, depth);
      LayoutIsWs(st, depth);
      SeparatorCommas(Between(st, depth));
      var first := Quote(f.key) + ": " + Render(f.value, st, depth + 1);
      CommasConcat(first, "," + Between(st, depth));
      CommasConcat(first + ("," + Between(st, depth)), RenderFields(fields[1..], st, depth));
    }
  }

  // ---------- the condition ----------

  /** A value of which the printers are modelled: its numbers are integers below 2^53, and an
      object has one value for a key. */
  ghost predicate Shape(v: Json) {
    match v
    case Num(x) => Integral(x)
    case Arr(items) => forall x :: x in items ==> Shape(x)
    case Obj(fields) => DistinctKeys(fields) && forall f :: f in fields ==> Shape(f.value)
    case _ => true
  }

  /** Whether v is found in a text that starts as v is printed, by scanning alone: every
      element but the last of its container ends where the scanner says, and the last is
      found in all that the scanner takes for it, behind which the array loop does not get
      stuck at a brace. */
  ghost predicate Survives(v: Json, st: Style, depth: nat, text: string)
    decreases v, 1
  {
    match v
    case Num(x) => SixDigits(x.Floor)
    case Str(s) => |Quote(s)| <= |text|
    case Arr(items) => items == [] || ItemsSurvive(items, st, depth, Behind(text, 1 + |Lead(st, depth)|))
    case Obj(fields) => fields == [] || FieldsHold(fields, st, depth, Behind(text, 1 + |Lead(st, depth)|))
    case _ => true
  }

  function Behind(text: string, n: nat): string { if n <= |text| then text[n..] else "" }

  /** The first element's text, if the scanner ends it where it ends. */
  ghost predicate Taken(v: Json, st: Style, depth: nat) {
    ScanAll(Render(v, st, depth + 1), 0) == Through(0)
  }

  /** The length of an element and its separator. */
  function Pace(v: Json, st: Style, depth: nat): nat { |Render(v, st, depth + 1)| + 1 + |Between(st, depth)| }

  ghost predicate ItemsSurvive(items: seq<Json>, st: Style, depth: nat, text: string)
    requires items != []
    decreases items, 0
  {
    if |items| == 1 then
      var n := ElementLength(text, 0);
      Survives(items[0], st, depth + 1, text[..n]) && Head(text[n..]) != '}'
    else
      && Taken(items[0], st, depth) && Survives(items[0], st, depth + 1, Render(items[0], st, depth + 1))
      && Pace(items[0], st, depth) <= |text|
      && ItemsSurvive(items[1..], st, depth, text[Pace(items[0], st, depth)..])
  }

  ghost predicate FieldsHold(fields: seq<Field>, st: Style, depth: nat, text: string)
    requires fields != []
    decreases fields, 0
  {
    var v, k := fields[0].value, |Quote(fields[0].key)| + 2;
    && k <= |text|
    && var u := text[k..];
      if |fields| == 1 then Survives(v, st, depth + 1, u[..ElementLength(u, 0)])
      else
        && Taken(v, st, depth) && Survives(v, st, depth + 1, Render(v, st, depth + 1))
        && Pace(v, st, depth) <= |u|
        && FieldsHold(fields[1..], st, depth, u[Pace(v, st, depth)..])
  }

  // ---------- texts that are cut where the scanner may stop ----------

  /** What can stand behind an element that is its container's last. */
  ghost predicate Junk(w: string) { forall i :: 0 <= i < |w| ==> IsWs(w[i]) || IsClose(w[i]) }

  ghost predicate Cut(x: string, full: string) { x <= full && (|x| < |full| ==> IsStop(full[|x|])) }

  ghost predicate NoStop(p: string) { forall i :: 0 <= i < |p| ==> !IsStop(p[i]) }

  lemma CutBehind(p: string, z: string, x: string)
    requires NoStop(p) && Cut(x, p + z)
    ensures |p| <= |x| && x == p + x[|p|..] && Cut(x[|p|..], z)
  {
    assert forall i :: 0 <= i < |p| ==> (p + z)[i] == p[i];
    CutPast(p, z, x);
  }

  lemma CutPast(p: string, z: string, x: string)
    requires |p| <= |x| && Cut(x, p + z)
    ensures x == p + x[|p|..] && Cut(x[|p|..], z)
  {
    var full := p + z;
    assert full[|p|..] == z;
    CutRest(x, full, |p|);
    assert x[..|p|] == full[..|p|] == p;
  }

  lemma CutRest(x: string, full: string, n: nat)
    requires Cut(x, full) && n <= |x|
    ensures n <= |full| && Cut(x[n..], full[n..])
  {
    assert x[n..] == full[..|x|][n..] == full[n..][..|x| - n];
  }

  lemma CutElement(x: string, full: string)
    requires Cut(x, full)
    ensures Cut(x[..ElementLength(x, 0)], full)
  {
    var n := ElementLength(x, 0);
    ElementStops(x, 0);
    assert x[..n] == full[..n];
    if n < |x| { assert Head(x[n..]) == x[n] == full[n]; }
  }

  lemma CutCommasAtMost(x: string, full: string)
    requires x <= full
    ensures Commas(x) <= Commas(full)
  {
    CommasSplit(full, |x|);
  }

  lemma LayoutHasNoStop(st: Style, depth: nat)
    ensures NoStop(Lead(st, depth)) && NoStop(Between(st, depth)) && Junk(Trail(st, depth))
  {
  }

  /** The scanner takes exactly r from a text that goes on behind r and a separator. */
  lemma TurnTaken(r: string, between: string, z: string, y: string)
    requires ScanAll(r, 0) == Through(0) && |r| + 1 + |between| <= |y| && Cut(y, r + ("," + between) + z)
    ensures ElementLength(y, 0) == |r| && y[..|r|] == r && Head(y[|r|..]) == ','
    ensures AfterElement(y[|r|..]) == between + y[|r| + 1 + |between|..] && Cut(y[|r| + 1 + |between|..], z)
  {
    CutPast(r + ("," + between), z, y);
    var q := y[|r| + 1 + |between|..];
    Glue(r, between, q);
    TailOf(',', between + q);
    assert IsStop(',');
    hide *;
    ScannerTakes(r, ',', between + q, 0);
    SplitAfter(r, [','] + (between + q));
    AfterStop([','] + (between + q));
  }

  lemma Glue(r: string, between: string, q: string)
    ensures r + ("," + between) + q == r + [','] + (between + q) == r + ([','] + (between + q))
  {
  }

  /** Two texts that a comma follows are the same if they have as many commas. */
  lemma SamePlace(a: string, r: string, z: string)
    requires a + [','] <= r + [','] + z && Commas(a) == Commas(r)
    ensures a == r
  {
    var full := r + [','] + z;
    if |a| < |r| {
      FewerCommas(a, r, full);
      assert false;
    }
    if |a| > |r| {
      assert a == full[..|a|];
      FewerCommas(r, a, full);
      assert false;
    }
    assert a == full[..|a|];
  }

  lemma FewerCommas(a: string, b: string, full: string)
    requires a + [','] <= full && b <= full && |a| < |b|
    ensures Commas(a) < Commas(b)
  {
    CommasConcat(a, [',']);
    assert b[..|a| + 1] == full[..|a| + 1] == a + [','];
    CutCommasAtMost(a + [','], b);
  }

  /** Conversely, what the scanner takes up to a comma is r, if it has as many commas. */
  lemma TurnTakes(r: string, between: string, z: string, y: string)
    requires NoStop(between) && Cut(y, r + ("," + between) + z)
    requires var n := ElementLength(y, 0); Head(y[n..]) == ',' && Commas(y[..n]) == Commas(r)
    ensures ScanAll(r, 0) == Through(0) && |r| + 1 + |between| <= |y|
  {
    var n := ElementLength(y, 0);
    Glue(r, between, z);
    StepPast(y, r + [','] + (between + z), n);
    SamePlace(y[..n], r, between + z);
    CutPast(r + [','], between + z, y);
    CutBehind(between, z, y[n + 1..]);
    hide Commas, Cut, NoStop;
    ScannerTakes(r, ',', y[n + 1..], 0);
  }

  lemma StepPast(y: string, full: string, n: nat)
    requires y <= full && n <= |y| && Head(y[n..]) == ','
    ensures n < |y| && y[..n] + [','] <= full
  {
    assert y[..n] + [','] == full[..n + 1];
  }

  /** An escaped string that is cut short reads as less than the string, or is cut off behind a
      backslash. */
  lemma {:induction false} TruncatedRead(s: string, m: nat, room: nat)
    requires TextOk(s, room) && m < |Escape(s)|
    ensures var t := Escape(s)[..m];
      CutOff(t, room) || (|ReadQuoted(t, room).0| < |s| && ReadQuoted(t, room).1 == "")
    decreases |s|
  {
    var e, rest := EscapeChar(s[0]), Escape(s[1..]);
    var t := Escape(s)[..m];
    EscapeFirst(s);
    if m == 0 {
      assert t == "";
    } else if m < |e| {
      assert t == "\\";
    } else {
      assert t == e + rest[..m - |e|];
      hide ReadQuoted, CutOff, EscapeChar, Escape;
      TruncatedRead(s[1..], m - |e|, room - 1);
      ReadOne(s[0], rest[..m - |e|], room);
      CutOffOne(s[0], rest[..m - |e|], room);
    }
  }

  // ---------- the iff, by cases ----------

  lemma NumberExact(n: real, w: string)
    requires Integral(n) && (w == "" || IsWs(w[0]) || IsClose(w[0]))
    ensures Parse(General(n.Floor) + w) == Done(Num(n)) <==> SixDigits(n.Floor)
  {
    ReadGeneral(n.Floor, w);
    PrintedExactly(n.Floor);
    GeneralChars(n.Floor);
    hide Parse, General, ReadNumber;
    ParseNumberText(General(n.Floor) + w);
  }

  lemma StringExact(s: string, junk: string, x: string)
    requires TextOk(s, STRING_MAX) && Cut(x, Quote(s) + junk)
    ensures Parse(x) == Done(Str(s)) <==> |Quote(s)| <= |x|
  {
    hide Parse, Quote;
    if |Quote(s)| <= |x| {
      CutPast(Quote(s), junk, x);
      UnclosedReads(s, x[|Quote(s)|..]);
    } else {
      ShortQuote(s, junk, x);
      hide Cut, Escape;
      ShortString(s, x);
    }
  }

  lemma ShortString(s: string, x: string)
    requires TextOk(s, STRING_MAX) && x != "" && x[0] == '"' && |x| - 1 < |Escape(s)| && Tail(x) == Escape(s)[..|x| - 1]
    ensures Parse(x) != Done(Str(s))
  {
    TruncatedRead(s, |x| - 1, STRING_MAX);
    CutNulFits(ReadQuoted(Tail(x), STRING_MAX).0);
    hide Parse, Escape, TextOk, ReadQuoted, CutOff, CutNul;
    ParseQuotedText(x);
  }

  lemma ShortQuote(s: string, junk: string, x: string)
    requires '\0' !in s && Cut(x, Quote(s) + junk) && |x| < |Quote(s)|
    ensures x != "" && x[0] == '"' && |x| - 1 < |Escape(s)| && Tail(x) == Escape(s)[..|x| - 1]
  {
    QuoteWhole(s);
    hide Quote, Escape;
    var e := Escape(s);
    var full := "\"" + e + "\"" + junk;
    assert full[0] == '"' && full[|e| + 1] == '"' && full[1..|e| + 1] == e;
    assert Tail(x) == full[1..|x|] == e[..|x| - 1];
  }

  lemma ScalarExact(v: Json, st: Style, depth: nat, junk: string, x: string)
    requires !v.Arr? && !v.Obj? && Shape(v) && Fits(v) && Junk(junk) && Cut(x, Render(v, st, depth) + junk)
    ensures Parse(x) == Done(v) <==> Survives(v, st, depth, x)
  {
    if v.Str? {
      StringExact(v.s, junk, x);
    } else {
      var r := Render(v, st, depth);
      if v.Num? { GeneralChars(v.x.Floor); }
      hide General, Parse;
      CutBehind(r, junk, x);
      var w := x[|r|..];
      ParseWord(w);
      if v.Num? { NumberExact(v.x, w); }
    }
  }

  /** One turn of the array loop. */
  lemma ItemsStep(w: string, t: string, acc: seq<Json>)
    requires AllWs(w) && t != "" && !IsWs(t[0]) && !IsStop(t[0])
    ensures var n := ElementLength(t, 0);
      if Parse(t[..n]).Done?
      then ParseItems(w + t, acc) == ParseItems(AfterElement(t[n..]), acc + [Parse(t[..n]).value])
      else ParseItems(w + t, acc) == Parse(t[..n])
  {
    SkipWsOver(w, t);
    SkipNothing(t);
    assert Head(w + t) == if w == "" then t[0] else w[0];
    assert ElementLength(t, 0) > 0;
    hide Parse, ParseItems, ElementLength, AfterElement;
    ItemsTurnIs(w + t, acc);
  }

  /** The text starts like its first element. */
  lemma ItemsStart(items: seq<Json>, st: Style, depth: nat, junk: string, t: string)
    requires items != [] && Cut(t, RenderItems(items, st, depth) + junk)
    ensures t != "" && !IsWs(t[0]) && !IsStop(t[0])
  {
    RenderHead(items[0], st, depth + 1);
    hide Render;
    var full := RenderItems(items, st, depth) + junk;
    assert full[0] == Render(items[0], st, depth + 1)[0];
    assert t != "";
    assert t[0] == full[0];
  }

  lemma SameItem(acc: seq<Json>, v: Json, items: seq<Json>)
    requires items != [] && acc + [v] <= acc + items
    ensures v == items[0]
  {
    assert (acc + [v])[|acc|] == (acc + items)[|acc|];
  }

  /** Whatever a turn yields is in the result, if there is one. */
  lemma ItemsYield(t: string, acc: seq<Json>, v: Json, items: seq<Json>)
    requires items != [] && Fits(Arr(acc)) && Fits(v) && ParseItems(t, acc + [v]) == Done(Arr(acc + items))
    ensures v == items[0] && ItemCommas(items[1..]) <= Commas(t) + 1
  {
    ItemsKeep(t, acc + [v]);
    SameItem(acc, v, items);
    OneMore(acc, v);
    ItemCommasConcat(acc, items);
  }

  lemma LastItemExact(items: seq<Json>, st: Style, depth: nat, junk: string, w: string, t: string, acc: seq<Json>)
    requires |items| == 1 && Fits(Arr(items)) && Fits(Arr(acc)) && AllWs(w) && Junk(junk)
    requires Cut(t, RenderItems(items, st, depth) + junk)
    requires var x := t[..ElementLength(t, 0)]; Parse(x) == Done(items[0]) <==> Survives(items[0], st, depth + 1, x)
    ensures ParseItems(w + t, acc) == Done(Arr(acc + items)) <==> ItemsSurvive(items, st, depth, t)
  {
    var n := ElementLength(t, 0);
    ItemsStart(items, st, depth, junk, t);
    ItemsStep(w, t, acc);
    ElementStops(t, 0);
    AfterStop(t[n..]);
    ParseKeeps(t[..n]);
    if Parse(t[..n]).Done? {
      var v := Parse(t[..n]).value;
      if Head(t[n..]) == ',' {
        LastHasNoComma(items, st, depth, junk, t);
        if ParseItems(w + t, acc) == Done(Arr(acc + items)) { ItemsYield(AfterElement(t[n..]), acc, v, items); }
      } else {
        ItemsAtStop(t[n..], acc + [v]);
        assert items == [items[0]];
        if acc + [v] == acc + items { SameItem(acc, v, items); }
      }
    }
  }

  /** Behind an element that is read right as the last there is no comma. */
  lemma LastHasNoComma(items: seq<Json>, st: Style, depth: nat, junk: string, t: string)
    requires |items| == 1 && Fits(Arr(items)) && Junk(junk) && Cut(t, RenderItems(items, st, depth) + junk)
    requires Head(t[ElementLength(t, 0)..]) == ','
    ensures Parse(t[..ElementLength(t, 0)]) != Done(items[0])
  {
    var n := ElementLength(t, 0);
    ParseKeeps(t[..n]);
    CommasSplit(t, n);
    TailCommas(t[n..]);
    ElementCommas(items, st, depth, junk, t);
    assert items[1..] == [];
  }

  /** The text of the elements has no more commas than they have. */
  lemma ElementCommas(items: seq<Json>, st: Style, depth: nat, junk: string, t: string)
    requires items != [] && Fits(Arr(items)) && Junk(junk) && Cut(t, RenderItems(items, st, depth) + junk)
    ensures Commas(t) <= CommasOf(items[0]) + ItemCommas(items[1..])
  {
    ItemsCommas(items, st, depth);
    NoCommas(junk);
    CommasConcat(RenderItems(items, st, depth), junk);
    CutCommasAtMost(t, RenderItems(items, st, depth) + junk);
  }

  /** A turn that leads to the array that was printed has read its next element, and if that
      was not the last one has stopped at the comma behind as many commas as it has. */
  lemma ItemTurnYields(items: seq<Json>, st: Style, depth: nat, junk: string, w: string, t: string, acc: seq<Json>)
    requires |items| > 1 && Fits(Arr(items)) && Fits(Arr(acc)) && AllWs(w) && Junk(junk)
    requires Cut(t, RenderItems(items, st, depth) + junk)
    requires ParseItems(w + t, acc) == Done(Arr(acc + items))
    ensures var n := ElementLength(t, 0);
      Parse(t[..n]) == Done(items[0]) && Head(t[n..]) == ',' && Commas(t[..n]) == CommasOf(items[0])
  {
    var n := ElementLength(t, 0);
    ItemsStart(items, st, depth, junk, t);
    ItemsStep(w, t, acc);
    ElementStops(t, 0);
    AfterStop(t[n..]);
    ParseKeeps(t[..n]);
    var v := Parse(t[..n]).value;
    if Head(t[n..]) == ',' {
      ItemsYield(AfterElement(t[n..]), acc, v, items);
      CommasSplit(t, n);
      ElementCommas(items, st, depth, junk, t);
    } else {
      ItemsAtStop(t[n..], acc + [v]);
      Shorter(acc, v, items);
    }
  }

  lemma Shorter(acc: seq<Json>, v: Json, items: seq<Json>)
    requires |items| > 1
    ensures acc + [v] != acc + items
  {
    assert |acc + [v]| < |acc + items|;
  }

  lemma ItemsWords(items: seq<Json>, st: Style, depth: nat, junk: string)
    requires |items| > 1
    ensures RenderItems(items, st, depth) + junk
      == Render(items[0], st, depth + 1) + ("," + Between(st, depth)) + (RenderItems(items[1..], st, depth) + junk)
  {
    hide Render, Between;
    Regroup(Render(items[0], st, depth + 1) + ("," + Between(st, depth)), RenderItems(items[1..], st, depth), junk);
  }

  /** An array read to the end has its elements taken, ... */
  lemma ItemIsTaken(items: seq<Json>, st: Style, depth: nat, junk: string, w: string, t: string, acc: seq<Json>)
    requires |items| > 1 && Fits(Arr(items)) && Fits(Arr(acc)) && AllWs(w) && Junk(junk)
    requires Cut(t, RenderItems(items, st, depth) + junk)
    requires ParseItems(w + t, acc) == Done(Arr(acc + items))
    ensures Taken(items[0], st, depth) && Pace(items[0], st, depth) <= |t|
  {
    ItemTurnYields(items, st, depth, junk, w, t, acc);
    assert Fits(items[0]);
    RenderCommas(items[0], st, depth + 1);
    ItemsWords(items, st, depth, junk);
    LayoutHasNoStop(st, depth);
    hide Parse, ParseItems, Render, RenderItems, Between, Cut, Fits;
    TurnTakes(Render(items[0], st, depth + 1), Between(st, depth), RenderItems(items[1..], st, depth) + junk, t);
  }

  /** ... and the turn that takes one goes on behind it. */
  lemma TakenItem(items: seq<Json>, st: Style, depth: nat, junk: string, w: string, t: string, acc: seq<Json>)
    requires |items| > 1 && AllWs(w) && Cut(t, RenderItems(items, st, depth) + junk)
    requires Taken(items[0], st, depth) && Pace(items[0], st, depth) <= |t|
    ensures var r := Render(items[0], st, depth + 1);
      var t' := t[Pace(items[0], st, depth)..];
      && r == t[..ElementLength(t, 0)]
      && Cut(t', RenderItems(items[1..], st, depth) + junk)
      && (Parse(r).Done? ==> ParseItems(w + t, acc) == ParseItems(Between(st, depth) + t', acc + [Parse(r).value]))
      && (!Parse(r).Done? ==> ParseItems(w + t, acc) == Parse(r))
  {
    ItemsStart(items, st, depth, junk, t);
    ItemsWords(items, st, depth, junk);
    TakenIs(items[0], st, depth);
    hide *;
    TakenTurn(w, Render(items[0], st, depth + 1), Between(st, depth), RenderItems(items[1..], st, depth) + junk, t,
              Pace(items[0], st, depth), acc);
  }

  lemma TakenIs(v: Json, st: Style, depth: nat)
    ensures Taken(v, st, depth) == (ScanAll(Render(v, st, depth + 1), 0) == Through(0))
    ensures Pace(v, st, depth) == |Render(v, st, depth + 1)| + 1 + |Between(st, depth)|
  {
  }

  lemma TakenTurn(w: string, r: string, between: string, z: string, t: string, k: nat, acc: seq<Json>)
    requires AllWs(w) && t != "" && !IsWs(t[0]) && !IsStop(t[0])
    requires ScanAll(r, 0) == Through(0) && k == |r| + 1 + |between| <= |t| && Cut(t, r + ("," + between) + z)
    ensures var t' := t[k..];
      && r == t[..ElementLength(t, 0)] && Cut(t', z)
      && (Parse(r).Done? ==> ParseItems(w + t, acc) == ParseItems(between + t', acc + [Parse(r).value]))
      && (!Parse(r).Done? ==> ParseItems(w + t, acc) == Parse(r))
  {
    hide *;
    TurnTaken(r, between, z, t);
    ItemsGoOn(w, t, r, between + t[k..], acc);
  }

  lemma ItemsGoOn(w: string, t: string, r: string, rest: string, acc: seq<Json>)
    requires AllWs(w) && t != "" && !IsWs(t[0]) && !IsStop(t[0])
    requires ElementLength(t, 0) == |r| && t[..|r|] == r && AfterElement(t[|r|..]) == rest
    ensures Parse(r).Done? ==> ParseItems(w + t, acc) == ParseItems(rest, acc + [Parse(r).value])
    ensures !Parse(r).Done? ==> ParseItems(w + t, acc) == Parse(r)
  {
    hide *;
    ItemsStep(w, t, acc);
  }

  lemma TakenItemExact(items: seq<Json>, st: Style, depth: nat, junk: string, w: string, t: string, acc: seq<Json>)
    requires |items| > 1 && Fits(Arr(items)) && Fits(Arr(acc)) && AllWs(w) && Junk(junk)
    requires Cut(t, RenderItems(items, st, depth) + junk)
    requires Taken(items[0], st, depth) && Pace(items[0], st, depth) <= |t|
    requires Parse(Render(items[0], st, depth + 1)) == Done(items[0]) <==>
      Survives(items[0], st, depth + 1, Render(items[0], st, depth + 1))
    requires Parse(Render(items[0], st, depth + 1)) == Done(items[0]) ==>
      var t' := t[Pace(items[0], st, depth)..];
      ParseItems(Between(st, depth) + t', acc + [items[0]]) == Done(Arr(acc + [items[0]] + items[1..]))
      <==> ItemsSurvive(items[1..], st, depth, t')
    ensures ParseItems(w + t, acc) == Done(Arr(acc + items)) <==> ItemsSurvive(items, st, depth, t)
  {
    TakenItem(items, st, depth, junk, w, t, acc);
    TakeFirst(items, acc);
    hide Parse, ParseItems, Render, RenderItems, Between, Cut, Fits, Taken, Survives, Pace;
    if ParseItems(w + t, acc) == Done(Arr(acc + items)) {
      ItemTurnYields(items, st, depth, junk, w, t, acc);
    }
  }

  // ---------- the same for objects ----------

  lemma FieldsWords(fields: seq<Field>, st: Style, depth: nat, junk: string)
    requires fields != []
    ensures RenderFields(fields, st, depth) + junk
      == Quote(fields[0].key) + ": " + (Render(fields[0].value, st, depth + 1) + RestOfFields(fields, st, depth) + junk)
    ensures |fields| > 1 ==>
      Render(fields[0].value, st, depth + 1) + RestOfFields(fields, st, depth) + junk
      == Render(fields[0].value, st, depth + 1) + ("," + Between(st, depth))
         + (RenderFields(fields[1..], st, depth) + junk)
  {
    FirstFieldText(fields, st, depth);
    hide Render, RenderFields, Quote, Between;
    var k, v, r := Quote(fields[0].key) + ": ", Render(fields[0].value, st, depth + 1), RestOfFields(fields, st, depth);
    Regroup(k, v, r);
    Regroup(k, v + r, junk);
    if |fields| > 1 {
      Regroup(v, "," + Between(st, depth), RenderFields(fields[1..], st, depth));
      Regroup(v + ("," + Between(st, depth)), RenderFields(fields[1..], st, depth), junk);
    }
  }

  /** The text of the first value and everything behind it. */
  ghost function ValueText(fields: seq<Field>, st: Style, depth: nat, junk: string): string
    requires fields != []
  {
    Render(fields[0].value, st, depth + 1) + RestOfFields(fields, st, depth) + junk
  }

  lemma ValueStart(fields: seq<Field>, st: Style, depth: nat, junk: string, u: string)
    requires fields != [] && Cut(u, ValueText(fields, st, depth, junk))
    ensures u != "" && !IsWs(u[0]) && u[0] != ':' && !IsStop(u[0])
  {
    RenderHead(fields[0].value, st, depth + 1);
    hide Render, RestOfFields;
    var full := ValueText(fields, st, depth, junk);
    assert full[0] == Render(fields[0].value, st, depth + 1)[0];
    assert u != "";
    assert u[0] == full[0];
  }

  lemma ValueCommas(fields: seq<Field>, st: Style, depth: nat, junk: string, u: string)
    requires fields != [] && Fits(Obj(fields)) && Junk(junk) && u <= ValueText(fields, st, depth, junk)
    ensures Commas(u) <= CommasOf(fields[0].value) + FieldCommas(fields[1..])
  {
    CutCommasAtMost(u, ValueText(fields, st, depth, junk));
    FieldsWords(fields, st, depth, junk);
    FieldsCommas(fields, st, depth);
    NoCommas(junk);
    CommasConcat(RenderFields(fields, st, depth), junk);
    hide Commas, Render, RenderFields, Quote, RestOfFields;
    KeyCommas(fields[0].key, ValueText(fields, st, depth, junk));
  }

  /** One turn of the object loop behind a key that is there in full, ... */
  lemma FieldsStep(w: string, key: string, u: string, acc: seq<Field>)
    requires AllWs(w) && TextOk(key, KEY_MAX) && Fresh(acc, key)
    requires u != "" && !IsWs(u[0]) && u[0] != ':'
    ensures var n := ElementLength(u, 0);
      var t := w + (Quote(key) + ": " + u);
      if Parse(u[..n]).Done?
      then ParseFields(t, acc) == ParseFields(AfterElement(u[n..]), acc + [Field(key, Parse(u[..n]).value)])
      else ParseFields(t, acc) == Parse(u[..n])
  {
    var q := Quote(key) + ": " + u;
    hide Parse, ParseFields, ElementLength, AfterElement, ReadQuoted, Quote, AtValue, CutNul, KeyEnds, TextOk, Fresh;
    ReadKey(key, u);
    SkipWsOver(w, q);
    assert Head(w + q) == if w == "" then '"' else w[0];
    FieldsTurnIs(w + q, acc);
    if Parse(u[..ElementLength(u, 0)]).Done? { SetFieldFresh(acc, key, Parse(u[..ElementLength(u, 0)]).value); }
  }

  lemma SetFieldFresh(acc: seq<Field>, key: string, v: Json)
    requires Fresh(acc, key)
    ensures SetField(acc, key, v) == acc + [Field(key, v)]
  {
    SetFieldNew(acc, key, v);
  }

  /** ... and one at a key that is cut short: the reader steps past the text. */
  lemma ShortKey(w: string, key: string, z: string, t: string, acc: seq<Field>)
    requires AllWs(w) && TextOk(key, KEY_MAX) && Cut(t, Quote(key) + ": " + z) && |t| < |Quote(key)| + 2
    ensures ParseFields(w + t, acc) == Overruns
  {
    assert '\0' !in key;
    hide TextOk, Cut, Parse, ParseFields, Quote, Escape, ReadQuoted, CutOff;
    KeyIsCut(key, z, t);
    ShortQuote(key, ": " + z, t);
    TruncatedRead(key, |t| - 1, KEY_MAX);
    KeyNeverEnds(w, t, acc);
  }

  lemma KeyNeverEnds(w: string, t: string, acc: seq<Field>)
    requires AllWs(w) && Head(t) == '"' && !KeyEnds(Tail(t))
    ensures ParseFields(w + t, acc) == Overruns
  {
    hide KeyEnds, Parse, ParseFields;
    SkipWsOver(w, t);
    SkipNothing(t);
    assert Head(w + t) == if w == "" then '"' else w[0];
    FieldsTurnIs(w + t, acc);
  }

  lemma KeyIsCut(key: string, z: string, t: string)
    requires Cut(t, Quote(key) + ": " + z) && |t| < |Quote(key)| + 2
    ensures |t| < |Quote(key)| && Cut(t, Quote(key) + (": " + z))
  {
    hide Quote;
    var full := Quote(key) + ": " + z;
    assert full == Quote(key) + (": " + z);
    assert full[|Quote(key)|] == ':' && full[|Quote(key)| + 1] == ' ';
  }

  /** A turn of which the rest leads to the object that was printed has read the right value:
      a wrong one could only be put right at the cost of a comma. */
  lemma FieldsYield(t: string, acc: seq<Field>, v: Json, fields: seq<Field>)
    requires fields != [] && Fits(Obj(acc)) && Fits(Obj(fields)) && Fits(v)
    requires ParseFields(t, acc + [Field(fields[0].key, v)]) == Done(Obj(acc + fields))
    requires CommasOf(v) + Commas(t) < CommasOf(fields[0].value) + FieldCommas(fields[1..])
    ensures v == fields[0].value && FieldCommas(fields[1..]) <= Commas(t) + 1
  {
    var f := Field(fields[0].key, v);
    FieldsKeep(t, acc + [f]);
    OneFieldMore(acc, f);
    FieldCommasConcat(acc, fields);
    hide Commas, CommasOf, FieldCommas, Fits;
    assert FieldCommas(fields) == Commas(f.key) + CommasOf(fields[0].value) + 1 + FieldCommas(fields[1..]) by {
      FirstCommas(fields);
    }
    assert acc + [f] <= acc + fields;
    assert (acc + [f])[|acc|] == (acc + fields)[|acc|];
  }

  lemma FirstCommas(fields: seq<Field>)
    requires fields != []
    ensures FieldCommas(fields) == Commas(fields[0].key) + CommasOf(fields[0].value) + 1 + FieldCommas(fields[1..])
  {
  }

  lemma FieldTurnYields(fields: seq<Field>, st: Style, depth: nat, junk: string, w: string, u: string, acc: seq<Field>)
    requires fields != [] && Fits(Obj(fields)) && Fits(Obj(acc)) && AllWs(w) && Junk(junk) && Fresh(acc, fields[0].key)
    requires Cut(u, ValueText(fields, st, depth, junk))
    requires ParseFields(w + (Quote(fields[0].key) + ": " + u), acc) == Done(Obj(acc + fields))
    ensures var n := ElementLength(u, 0);
      && Parse(u[..n]) == Done(fields[0].value)
      && (|fields| > 1 ==> Head(u[n..]) == ',' && Commas(u[..n]) == CommasOf(fields[0].value))
  {
    var n, f := ElementLength(u, 0), fields[0];
    ValueStart(fields, st, depth, junk, u);
    FieldsStep(w, f.key, u, acc);
    ElementStops(u, 0);
    AfterStop(u[n..]);
    ParseKeeps(u[..n]);
    var v := Parse(u[..n]).value;
    if Head(u[n..]) == ',' {
      CommasSplit(u, n);
      ValueCommas(fields, st, depth, junk, u);
      FieldsYield(AfterElement(u[n..]), acc, v, fields);
    } else {
      FieldsAtStop(u[n..], acc + [Field(f.key, v)]);
      assert acc + [Field(f.key, v)] == acc + fields;
      assert (acc + [Field(f.key, v)])[|acc|] == (acc + fields)[|acc|];
    }
  }

  lemma LastFieldExact(fields: seq<Field>, st: Style, depth: nat, junk: string, w: string, u: string, acc: seq<Field>)
    requires |fields| == 1 && Fits(Obj(fields)) && Fits(Obj(acc)) && AllWs(w) && Junk(junk) && Fresh(acc, fields[0].key)
    requires Cut(u, ValueText(fields, st, depth, junk))
    ensures ParseFields(w + (Quote(fields[0].key) + ": " + u), acc) == Done(Obj(acc + fields))
      <==> Parse(u[..ElementLength(u, 0)]) == Done(fields[0].value)
  {
    var n, f := ElementLength(u, 0), fields[0];
    if Parse(u[..n]) == Done(f.value) {
      ValueStart(fields, st, depth, junk, u);
      FieldsStep(w, f.key, u, acc);
      ElementStops(u, 0);
      AfterStop(u[n..]);
      ParseKeeps(u[..n]);
      CommasSplit(u, n);
      ValueCommas(fields, st, depth, junk, u);
      assert fields[1..] == [] && [f] == fields;
      FieldsAtStop(u[n..], acc + [f]);
    } else if ParseFields(w + (Quote(f.key) + ": " + u), acc) == Done(Obj(acc + fields)) {
      FieldTurnYields(fields, st, depth, junk, w, u, acc);
    }
  }

  lemma FieldIsTaken(fields: seq<Field>, st: Style, depth: nat, junk: string, w: string, u: string, acc: seq<Field>)
    requires |fields| > 1 && Fits(Obj(fields)) && Fits(Obj(acc)) && AllWs(w) && Junk(junk) && Fresh(acc, fields[0].key)
    requires Cut(u, ValueText(fields, st, depth, junk))
    requires ParseFields(w + (Quote(fields[0].key) + ": " + u), acc) == Done(Obj(acc + fields))
    ensures Taken(fields[0].value, st, depth) && Pace(fields[0].value, st, depth) <= |u|
  {
    FieldTurnYields(fields, st, depth, junk, w, u, acc);
    assert Fits(fields[0].value);
    RenderCommas(fields[0].value, st, depth + 1);
    FieldsWords(fields, st, depth, junk);
    LayoutHasNoStop(st, depth);
    hide Parse, ParseFields, Render, RenderFields, Between, Cut, Fits, Quote, RestOfFields;
    TurnTakes(Render(fields[0].value, st, depth + 1), Between(st, depth),
              RenderFields(fields[1..], st, depth) + junk, u);
  }

  lemma TakenField(fields: seq<Field>, st: Style, depth: nat, junk: string, w: string, u: string, acc: seq<Field>)
    requires |fields| > 1 && AllWs(w) && Cut(u, ValueText(fields, st, depth, junk))
    requires TextOk(fields[0].key, KEY_MAX) && Fresh(acc, fields[0].key)
    requires Taken(fields[0].value, st, depth) && Pace(fields[0].value, st, depth) <= |u|
    ensures var r := Render(fields[0].value, st, depth + 1);
      var u' := u[Pace(fields[0].value, st, depth)..];
      var t := w + (Quote(fields[0].key) + ": " + u);
      && r == u[..ElementLength(u, 0)]
      && Cut(u', RenderFields(fields[1..], st, depth) + junk)
      && (Parse(r).Done? ==>
          ParseFields(t, acc) == ParseFields(Between(st, depth) + u', acc + [Field(fields[0].key, Parse(r).value)]))
      && (!Parse(r).Done? ==> ParseFields(t, acc) == Parse(r))
  {
    ValueStart(fields, st, depth, junk, u);
    FieldsWords(fields, st, depth, junk);
    TakenIs(fields[0].value, st, depth);
    assert ValueText(fields, st, depth, junk)
      == Render(fields[0].value, st, depth + 1) + RestOfFields(fields, st, depth) + junk;
    hide *;
    TakenFieldTurn(w, fields[0].key, Render(fields[0].value, st, depth + 1), Between(st, depth),
                   RenderFields(fields[1..], st, depth) + junk, u, Pace(fields[0].value, st, depth), acc);
  }

  lemma TakenFieldTurn(w: string, key: string, r: string, between: string, z: string, u: string, k: nat,
                       acc: seq<Field>)
    requires AllWs(w) && TextOk(key, KEY_MAX) && Fresh(acc, key) && u != "" && !IsWs(u[0]) && u[0] != ':'
    requires ScanAll(r, 0) == Through(0) && k == |r| + 1 + |between| <= |u| && Cut(u, r + ("," + between) + z)
    ensures var u' := u[k..];
      var t := w + (Quote(key) + ": " + u);
      && r == u[..ElementLength(u, 0)] && Cut(u', z)
      && (Parse(r).Done? ==> ParseFields(t, acc) == ParseFields(between + u', acc + [Field(key, Parse(r).value)]))
      && (!Parse(r).Done? ==> ParseFields(t, acc) == Parse(r))
  {
    hide *;
    TurnTaken(r, between, z, u);
    FieldsGoOn(w, key, u, r, between + u[k..], acc);
  }

  lemma FieldsGoOn(w: string, key: string, u: string, r: string, rest: string, acc: seq<Field>)
    requires AllWs(w) && TextOk(key, KEY_MAX) && Fresh(acc, key) && u != "" && !IsWs(u[0]) && u[0] != ':'
    requires ElementLength(u, 0) == |r| && u[..|r|] == r && AfterElement(u[|r|..]) == rest
    ensures var t := w + (Quote(key) + ": " + u);
      && (Parse(r).Done? ==> ParseFields(t, acc) == ParseFields(rest, acc + [Field(key, Parse(r).value)]))
      && (!Parse(r).Done? ==> ParseFields(t, acc) == Parse(r))
  {
    hide *;
    FieldsStep(w, key, u, acc);
  }

  lemma TakenFieldExact(fields: seq<Field>, st: Style, depth: nat, junk: string, w: string, u: string, acc: seq<Field>)
    requires |fields| > 1 && Fits(Obj(fields)) && Fits(Obj(acc)) && AllWs(w) && Junk(junk) && Fresh(acc, fields[0].key)
    requires Cut(u, ValueText(fields, st, depth, junk))
    requires Taken(fields[0].value, st, depth) && Pace(fields[0].value, st, depth) <= |u|
    requires var r := Render(fields[0].value, st, depth + 1);
      Parse(r) == Done(fields[0].value) <==> Survives(fields[0].value, st, depth + 1, r)
    requires Parse(Render(fields[0].value, st, depth + 1)) == Done(fields[0].value) ==>
      var u' := u[Pace(fields[0].value, st, depth)..];
      ParseFields(Between(st, depth) + u', acc + [fields[0]]) == Done(Obj(acc + [fields[0]] + fields[1..]))
      <==> FieldsHold(fields[1..], st, depth, u')
    ensures ParseFields(w + (Quote(fields[0].key) + ": " + u), acc) == Done(Obj(acc + fields))
      <==> FieldsHold(fields, st, depth, Quote(fields[0].key) + ": " + u)
  {
    var f, t := fields[0], Quote(fields[0].key) + ": " + u;
    TakenField(fields, st, depth, junk, w, u, acc);
    TakeFirst(fields, acc);
    HoldIs(fields, st, depth, u);
    hide *;
    if ParseFields(w + t, acc) == Done(Obj(acc + fields)) {
      FieldTurnYields(fields, st, depth, junk, w, u, acc);
    }
  }

  lemma HoldIs(fields: seq<Field>, st: Style, depth: nat, u: string)
    requires fields != []
    ensures FieldsHold(fields, st, depth, Quote(fields[0].key) + ": " + u) <==>
      var v := fields[0].value;
      if |fields| == 1 then Survives(v, st, depth + 1, u[..ElementLength(u, 0)])
      else
        && Taken(v, st, depth) && Survives(v, st, depth + 1, Render(v, st, depth + 1))
        && Pace(v, st, depth) <= |u|
        && FieldsHold(fields[1..], st, depth, u[Pace(v, st, depth)..])
  {
    hide Quote, Survives, Taken, Render, Pace;
    var t := Quote(fields[0].key) + ": " + u;
    assert |Quote(fields[0].key)| + 2 <= |t| && t[|Quote(fields[0].key)| + 2..] == u;
  }

  // ---------- the main result ----------

  lemma {:induction false} ParseExact(v: Json, st: Style, depth: nat, junk: string, x: string)
    requires Shape(v) && Fits(v) && Junk(junk) && Cut(x, Render(v, st, depth) + junk)
    ensures Parse(x) == Done(v) <==> Survives(v, st, depth, x)
    decreases v, 3
  {
    match v {
      case Arr(items) =>
        if items == [] { EmptyArrayExact(junk, x); } else { ArrayExact(items, st, depth, junk, x); }
      case Obj(fields) =>
        if fields == [] { EmptyObjectExact(st, depth, junk, x); } else { ObjectExact(fields, st, depth, junk, x); }
      case _ => ScalarExact(v, st, depth, junk, x);
    }
  }

  lemma {:induction false} ArrayExact(items: seq<Json>, st: Style, depth: nat, junk: string, x: string)
    requires items != [] && Shape(Arr(items)) && Fits(Arr(items)) && Junk(junk)
    requires Cut(x, Render(Arr(items), st, depth) + junk)
    ensures Parse(x) == Done(Arr(items)) <==> Survives(Arr(items), st, depth, x)
    decreases items, 3
  {
    hide *;
    ArrayCut(items, st, depth, junk, x);
    var n := 1 + |Lead(st, depth)|;
    ArrayIs(items, st, depth, x);
    NoFieldsShape();
    FromTheStart(items, [], x, n);
    ItemsExact(items, st, depth, Trail(st, depth) + ("]" + junk), Lead(st, depth), x[n..], []);
  }

  lemma {:induction false} ObjectExact(fields: seq<Field>, st: Style, depth: nat, junk: string, x: string)
    requires fields != [] && Shape(Obj(fields)) && Fits(Obj(fields)) && Junk(junk)
    requires Cut(x, Render(Obj(fields), st, depth) + junk)
    ensures Parse(x) == Done(Obj(fields)) <==> Survives(Obj(fields), st, depth, x)
    decreases fields, 3
  {
    hide *;
    ObjectCut(fields, st, depth, junk, x);
    var n := 1 + |Lead(st, depth)|;
    ObjectIs(fields, st, depth, x);
    FromTheStart([], fields, x, n);
    FieldsExact(fields, st, depth, Trail(st, depth) + ("}" + junk), Lead(st, depth), x[n..], []);
  }

  lemma NoFieldsShape()
    ensures Shape(Obj([]))
  {
  }

  lemma FromTheStart(items: seq<Json>, fields: seq<Field>, x: string, n: nat)
    requires n <= |x| && Shape(Obj(fields))
    ensures [] + items == items && Fits(Arr([])) && [] + fields == fields && Fits(Obj([])) && DistinctKeys(fields)
    ensures Behind(x, n) == x[n..]
  {
  }

  lemma ArrayIs(items: seq<Json>, st: Style, depth: nat, x: string)
    requires items != []
    ensures Survives(Arr(items), st, depth, x) == ItemsSurvive(items, st, depth, Behind(x, 1 + |Lead(st, depth)|))
  {
    hide ItemsSurvive, Lead, Behind;
  }

  lemma ObjectIs(fields: seq<Field>, st: Style, depth: nat, x: string)
    requires fields != []
    ensures Survives(Obj(fields), st, depth, x) == FieldsHold(fields, st, depth, Behind(x, 1 + |Lead(st, depth)|))
  {
    hide FieldsHold, Lead, Behind;
  }

  lemma EmptyArrayExact(junk: string, x: string)
    requires Cut(x, "[]" + junk)
    ensures Parse(x) == Done(Arr([]))
  {
    assert "[]" + junk == "[" + ("]" + junk);
    CutBehind("[", "]" + junk, x);
    ParseArrayText(x);
  }

  lemma EmptyObjectExact(st: Style, depth: nat, junk: string, x: string)
    requires Cut(x, Render(Obj([]), st, depth) + junk)
    ensures Parse(x) == Done(Obj([]))
  {
    var w := (if st.Compact? then "" else "\n") + Trail(st, depth);
    LayoutIsWs(st, depth);
    hide Trail;
    assert Render(Obj([]), st, depth) + junk == "{" + w + ("}" + junk);
    CutBehind("{" + w, "}" + junk, x);
    BracketOff('{', w, x[|w| + 1..], x);
    hide Parse;
    ParseObjectText(x);
    NoFields(w, x[|w| + 1..]);
  }

  lemma NoFields(w: string, z: string)
    requires AllWs(w) && (z == "" || z[0] == '}')
    ensures ParseFields(w + z, []) == Done(Obj([]))
  {
    SkipWsOver(w, z);
    SkipNothing(z);
    hide Parse, SkipWs;
    FieldsTurnIs(w + z, []);
  }

  lemma BracketOff(c: char, lead: string, t: string, x: string)
    requires x == [c] + lead + t
    ensures x[0] == c && Tail(x) == lead + t
  {
  }

  lemma BracketCut(open: char, lead: string, body: string, trail: string, close: char, junk: string, x: string)
    requires IsOpen(open) && IsClose(close) && NoStop(lead) && Junk(trail) && Junk(junk)
    requires Cut(x, [open] + lead + body + trail + [close] + junk)
    ensures var n := 1 + |lead|;
      && n <= |x| && x[0] == open && Tail(x) == lead + x[n..]
      && Junk(trail + ([close] + junk)) && Cut(x[n..], body + (trail + ([close] + junk)))
  {
    var junk' := trail + ([close] + junk);
    Regroup([open] + lead + body + trail, [close], junk);
    Regroup([open] + lead + body, trail, [close] + junk);
    Regroup([open] + lead, body, junk');
    CutBehind([open] + lead, body + junk', x);
    hide Cut;
    BracketOff(open, lead, x[1 + |lead|..], x);
  }

  lemma ArrayCut(items: seq<Json>, st: Style, depth: nat, junk: string, x: string)
    requires items != [] && Junk(junk) && Cut(x, Render(Arr(items), st, depth) + junk)
    ensures var n := 1 + |Lead(st, depth)|;
      var junk' := Trail(st, depth) + ("]" + junk);
      && n <= |x| && AllWs(Lead(st, depth)) && Junk(junk') && Cut(x[n..], RenderItems(items, st, depth) + junk')
      && Parse(x) == ParseItems(Lead(st, depth) + x[n..], [])
  {
    LayoutIsWs(st, depth);
    LayoutHasNoStop(st, depth);
    hide Parse, ParseItems, RenderItems, Lead, Trail, Cut, Junk, NoStop;
    BracketCut('[', Lead(st, depth), RenderItems(items, st, depth), Trail(st, depth), ']', junk, x);
    ParseArrayText(x);
  }

  lemma ObjectCut(fields: seq<Field>, st: Style, depth: nat, junk: string, x: string)
    requires fields != [] && Junk(junk) && Cut(x, Render(Obj(fields), st, depth) + junk)
    ensures var n := 1 + |Lead(st, depth)|;
      var junk' := Trail(st, depth) + ("}" + junk);
      && n <= |x| && AllWs(Lead(st, depth)) && Junk(junk') && Cut(x[n..], RenderFields(fields, st, depth) + junk')
      && Parse(x) == ParseFields(Lead(st, depth) + x[n..], [])
  {
    LayoutIsWs(st, depth);
    LayoutHasNoStop(st, depth);
    hide Parse, ParseFields, RenderFields, Lead, Trail, Cut, Junk, NoStop;
    BracketCut('{', Lead(st, depth), RenderFields(fields, st, depth), Trail(st, depth), '}', junk, x);
    ParseObjectText(x);
  }

  lemma {:induction false} ItemsExact(items: seq<Json>, st: Style, depth: nat, junk: string, w: string,
                                      t: string, acc: seq<Json>)
    requires items != [] && Shape(Arr(items)) && Fits(Arr(items)) && Fits(Arr(acc)) && AllWs(w) && Junk(junk)
    requires Cut(t, RenderItems(items, st, depth) + junk)
    ensures ParseItems(w + t, acc) == Done(Arr(acc + items)) <==> ItemsSurvive(items, st, depth, t)
    decreases items, 2
  {
    var v, r := items[0], Render(items[0], st, depth + 1);
    assert Shape(v) && Fits(v) && Shape(Arr(items[1..])) && Fits(Arr(items[1..])) && Fits(Arr(acc + [v]));
    hide Shape, Fits, Render, Parse, ParseItems, Survives, Taken, Pace, Cut;
    if |items| == 1 {
      CutElement(t, RenderItems(items, st, depth) + junk);
      ParseExact(v, st, depth + 1, junk, t[..ElementLength(t, 0)]);
      LastItemExact(items, st, depth, junk, w, t, acc);
    } else if Taken(v, st, depth) && Pace(v, st, depth) <= |t| {
      TakenItem(items, st, depth, junk, w, t, acc);
      WholeCut(r);
      ParseExact(v, st, depth + 1, "", r);
      LayoutIsWs(st, depth);
      ItemsExact(items[1..], st, depth, junk, Between(st, depth), t[Pace(v, st, depth)..], acc + [v]);
      TakenItemExact(items, st, depth, junk, w, t, acc);
    } else if ParseItems(w + t, acc) == Done(Arr(acc + items)) {
      ItemIsTaken(items, st, depth, junk, w, t, acc);
    }
  }

  lemma WholeCut(r: string)
    ensures Cut(r, r + "") && Junk("")
  {
  }

  lemma {:induction false} FieldsExact(fields: seq<Field>, st: Style, depth: nat, junk: string, w: string,
                                       t: string, acc: seq<Field>)
    requires fields != [] && Shape(Obj(fields)) && Fits(Obj(fields)) && Fits(Obj(acc)) && AllWs(w) && Junk(junk)
    requires DistinctKeys(acc + fields) && Cut(t, RenderFields(fields, st, depth) + junk)
    ensures ParseFields(w + t, acc) == Done(Obj(acc + fields)) <==> FieldsHold(fields, st, depth, t)
    decreases fields, 2
  {
    var f := fields[0];
    var k := |Quote(f.key)| + 2;
    ApartNext(fields, acc);
    FieldsWords(fields, st, depth, junk);
    hide Shape, Fits, Render, RenderFields, RestOfFields, Parse, ParseFields, Survives, Taken, Pace, Cut,
         TextOk, Fresh, Quote, DistinctKeys;
    if |t| < k {
      ShortKey(w, f.key, ValueText(fields, st, depth, junk), t, acc);
    } else {
      var u := t[k..];
      CutPast(Quote(f.key) + ": ", ValueText(fields, st, depth, junk), t);
      FieldExact(fields, st, depth, junk, w, u, acc);
    }
  }

  lemma ApartNext(fields: seq<Field>, acc: seq<Field>)
    requires fields != [] && DistinctKeys(acc + fields) && Fits(Obj(acc)) && Fits(Obj(fields)) && Shape(Obj(fields))
    ensures Fresh(acc, fields[0].key) && TextOk(fields[0].key, KEY_MAX) && Fits(fields[0].value)
    ensures Shape(fields[0].value)
    ensures DistinctKeys(acc + [fields[0]] + fields[1..])
    ensures Fits(Obj(acc + [fields[0]])) && Fits(Obj(fields[1..])) && Shape(Obj(fields[1..]))
  {
    var f := fields[0];
    assert f in fields;
    TakeFirst(fields, acc);
    forall g | g in acc ensures g.key != f.key {
      var i :| 0 <= i < |acc| && acc[i] == g;
      assert (acc + fields)[i] == g && (acc + fields)[|acc|] == f;
    }
  }

  lemma {:induction false} FieldExact(fields: seq<Field>, st: Style, depth: nat, junk: string, w: string,
                                      u: string, acc: seq<Field>)
    requires fields != [] && Shape(Obj(fields)) && Fits(Obj(fields)) && Fits(Obj(acc)) && AllWs(w) && Junk(junk)
    requires DistinctKeys(acc + fields) && Cut(u, ValueText(fields, st, depth, junk))
    ensures ParseFields(w + (Quote(fields[0].key) + ": " + u), acc) == Done(Obj(acc + fields))
      <==> FieldsHold(fields, st, depth, Quote(fields[0].key) + ": " + u)
    decreases fields, 1
  {
    var f, r := fields[0], Render(fields[0].value, st, depth + 1);
    ApartNext(fields, acc);
    hide Shape, Fits, Render, Parse, ParseFields, Survives, Taken, Pace, Cut, TextOk, Fresh, Quote, DistinctKeys;
    var t := Quote(f.key) + ": " + u;
    assert |Quote(f.key)| + 2 <= |t| && t[|Quote(f.key)| + 2..] == u;
    if |fields| == 1 {
      OneValueText(fields, st, depth, junk);
      CutElement(u, ValueText(fields, st, depth, junk));
      ParseExact(f.value, st, depth + 1, junk, u[..ElementLength(u, 0)]);
      LastFieldExact(fields, st, depth, junk, w, u, acc);
    } else if Taken(f.value, st, depth) && Pace(f.value, st, depth) <= |u| {
      TakenField(fields, st, depth, junk, w, u, acc);
      WholeCut(r);
      ParseExact(f.value, st, depth + 1, "", r);
      LayoutIsWs(st, depth);
      FieldsExact(fields[1..], st, depth, junk, Between(st, depth), u[Pace(f.value, st, depth)..], acc + [f]);
      TakenFieldExact(fields, st, depth, junk, w, u, acc);
    } else if ParseFields(w + t, acc) == Done(Obj(acc + fields)) {
      FieldIsTaken(fields, st, depth, junk, w, u, acc);
    }
  }

  lemma OneValueText(fields: seq<Field>, st: Style, depth: nat, junk: string)
    requires |fields| == 1
    ensures ValueText(fields, st, depth, junk) == Render(fields[0].value, st, depth + 1) + junk
  {
    hide Render;
    assert Render(fields[0].value, st, depth + 1) + "" == Render(fields[0].value, st, depth + 1);
  }

  /** Whatever v holds, however deep, it comes back from its printed text if and only if its
      strings fit their buffers and have no NUL and it survives the scanning of that text. */
  lemma RoundTripExact(v: Json, st: Style)
    requires Shape(v)
    ensures Parse(Render(v, st, 0)) == Done(v) <==> Fits(v) && Survives(v, st, 0, Render(v, st, 0))
  {
    var text := Render(v, st, 0);
    if Fits(v) {
      WholeCut(text);
      hide *;
      ParseExact(v, st, 0, "", text);
    } else {
      ParseKeeps(text);
    }
  }

  // ---------- objects of strings ----------

  lemma {:induction false} NestableShape(v: Json)
    requires Nestable(v)
    ensures Shape(v)
    decreases v
  {
    match v {
      case Arr(items) => forall x | x in items ensures Shape(x) { NestableShape(x); }
      case Obj(fields) => forall f | f in fields ensures Shape(f.value) { NestableShape(f.value); }
      case _ =>
    }
  }

  lemma {:induction false} HoldTaken(fields: seq<Field>, st: Style, depth: nat, text: string, i: nat)
    requires i < |fields| - 1 && FieldsHold(fields, st, depth, text)
    ensures Taken(fields[i].value, st, depth)
    decreases i
  {
    if i > 0 {
      var u := text[|Quote(fields[0].key)| + 2..];
      HoldTaken(fields[1..], st, depth, u[Pace(fields[0].value, st, depth)..], i - 1);
    }
  }

  lemma UnclosedNotTaken(v: Json, st: Style, depth: nat)
    requires Element(v) && Unclosed(v)
    ensures !Taken(v, st, depth)
  {
    ElementScans(v, st, depth + 1, 0);
  }

  lemma ObjectSurvives(fields: seq<Field>, st: Style)
    requires fields != [] && DistinctKeys(fields) && FieldsSurvive(fields)
    requires forall f :: f in fields ==> TextOk(f.key, KEY_MAX) && Element(f.value)
    ensures Parse(Render(Obj(fields), st, 0)) == Done(Obj(fields))
  {
    assert Fields(fields, []) by { hide TextOk, Element, Unclosed, Yielded; }
    LayoutIsWs(st, 0);
    assert forall f :: f in fields ==> Yielded(f.value);
    ReachedAllFields(fields);
    hide *;
    TopObject(fields, st);
    FieldsReached(fields, st, 0, Lead(st, 0), []);
    assert [] + fields[..ReachedFields(fields)] == fields[..ReachedFields(fields)];
    assert fields[..|fields|] == fields;
  }

  /** The same for an object whose keys fit and differ, whatever brackets they have. */
  lemma ObjectRoundTripExact(fields: seq<Field>, st: Style)
    requires forall f :: f in fields ==> f.value.Str? || Nestable(f.value)
    requires DistinctKeys(fields) && forall f :: f in fields ==> TextOk(f.key, KEY_MAX)
    ensures Parse(Render(Obj(fields), st, 0)) == Done(Obj(fields)) <==> FieldsSurvive(fields)
  {
    hide Parse, Render, Nestable, FieldsSurvive, TextOk;
    if Parse(Render(Obj(fields), st, 0)) == Done(Obj(fields)) {
      OnlySurvivors(fields, st);
    } else if FieldsSurvive(fields) {
      if fields == [] {
        RoundTrip(Obj([]), st);
      } else {
        SurvivorsAreElements(fields);
        ObjectSurvives(fields, st);
      }
    }
  }

  lemma OnlySurvivors(fields: seq<Field>, st: Style)
    requires forall f :: f in fields ==> f.value.Str? || Nestable(f.value)
    requires DistinctKeys(fields) && Parse(Render(Obj(fields), st, 0)) == Done(Obj(fields))
    ensures FieldsSurvive(fields)
  {
    var text := Render(Obj(fields), st, 0);
    NestedStringsPass(text);
    FieldsShaped(fields);
    YieldedAreElements(fields);
    forall i | 0 <= i < |fields| - 1 ensures !Unclosed(fields[i].value) {
      hide *;
      RoundTripExact(Obj(fields), st);
      ObjectIs(fields, st, 0, text);
      HoldTaken(fields, st, 0, Behind(text, 1 + |Lead(st, 0)|), i);
      assert fields[i] in fields;
      if Unclosed(fields[i].value) { UnclosedNotTaken(fields[i].value, st, 0); }
    }
    hide Parse, Render, Nestable, Unclosed, Yielded;
  }

  lemma FieldsShaped(fields: seq<Field>)
    requires DistinctKeys(fields) && forall f :: f in fields ==> f.value.Str? || Nestable(f.value)
    ensures Shape(Obj(fields))
  {
    forall f | f in fields ensures Shape(f.value) { if !f.value.Str? { NestableShape(f.value); } }
  }

  lemma YieldedAreElements(fields: seq<Field>)
    requires forall f :: f in fields ==> Yielded(f.value) && (f.value.Str? || Nestable(f.value))
    ensures forall f :: f in fields ==> Element(f.value)
  {
    hide Nestable, Yielded;
  }

  lemma SurvivorsAreElements(fields: seq<Field>)
    requires FieldsSurvive(fields) && forall f :: f in fields ==> f.value.Str? || Nestable(f.value)
    ensures forall f :: f in fields ==> Element(f.value)
  {
    hide Nestable;
  }

  // ---------- what happens to others ----------

  lemma {:induction false} EscapeConcat(a: string, b: string)
    ensures Escape(a + b) == Escape(a) + Escape(b)
  {
    if a == "" {
      assert a + b == b;
    } else {
      assert (a + b)[1..] == a[1..] + b;
      EscapeConcat(a[1..], b);
    }
  }

  lemma QuoteComma(a: string)
    requires '\0' !in a
    ensures Quote(a + ",") == "\"" + Escape(a) + "," + "\""
  {
    QuoteWhole(a + ",");
    EscapeConcat(a, ",");
    CommaIsPlain();
    hide *;
    Regroup("\"", Escape(a), ",");
  }

  lemma CommaIsPlain()
    ensures Escape(",") == ","
  {
    assert ","[1..] == "";
  }

  /** The text of an object that has one value. */
  lemma OneFieldText(key: string, v: Json, st: Style)
    ensures Parse(Render(Obj([Field(key, v)]), st, 0))
      == ParseFields(Lead(st, 0) + (Quote(key) + ": " + (Render(v, st, 1) + (Trail(st, 0) + "}"))), [])
  {
    TopObject([Field(key, v)], st);
    OneField(key, v, st);
    hide *;
  }

  lemma OneField(key: string, v: Json, st: Style)
    ensures FieldsText([Field(key, v)], st, 0) == Quote(key) + ": " + (Render(v, st, 1) + (Trail(st, 0) + "}"))
  {
    hide Quote, Render, Trail;
    Regroup(Render(v, st, 1), Trail(st, 0), "}");
    Regroup(Quote(key) + ": ", Render(v, st, 1) + Trail(st, 0), "}");
    Regroup(Quote(key) + ": ", Render(v, st, 1), Trail(st, 0));
  }

  /** A string that the text does not close is read all the same. */
  lemma OpenString(a: string)
    requires TextOk(a, STRING_MAX) && ScanAll(a, 0) == Through(0)
    ensures ScanAll("\"" + Escape(a), 0) == Through(0) && Parse("\"" + Escape(a)) == Done(Str(a))
  {
    var t := "\"" + Escape(a);
    ScanEscaped(a, 0);
    PlainPasses("\"", 0);
    hide ScanAll;
    ScanPair("\"", Escape(a), 0, 0, 0);
    ReadExact(a, "", STRING_MAX);
    EscapedNotCutOff(a, "", STRING_MAX);
    CutNulWhole(a);
    hide Escape, CutNul, Parse;
    assert Escape(a) + "" == Escape(a) == Tail(t) && a + "" == a;
    ParseQuotedText(t);
  }

  lemma BraceIsNoKey(st: Style, acc: seq<Field>)
    ensures ParseFields("\"" + (Trail(st, 0) + "}"), acc) == Overruns
  {
    var t := Trail(st, 0) + "}";
    assert Indent(0, if st.Pretty? then st.indent else 0) == "";
    assert t == if st.Compact? then "}" else "\n}";
    assert Tail("}") == "" && Tail("\n}") == "}";
    assert !KeyEnds(t) by { assert ReadQuoted(t, KEY_MAX).1 == ""; }
    hide KeyEnds, Trail, ParseFields;
    assert Tail("\"" + t) == t && "" + ("\"" + t) == "\"" + t;
    NoWs();
    KeyNeverEnds("", "\"" + t, acc);
  }

  lemma CommaText(a: string, st: Style)
    requires '\0' !in a
    ensures Render(Str(a + ","), st, 1) + (Trail(st, 0) + "}")
      == "\"" + Escape(a) + [','] + ("\"" + (Trail(st, 0) + "}"))
  {
    QuoteComma(a);
    hide Quote, Escape, Trail;
    Regroup("\"" + Escape(a) + ",", "\"", Trail(st, 0) + "}");
  }

  lemma StartsOpen(e: string, behind: string)
    ensures var u := "\"" + e + [','] + behind;
      u == "\"" + e + ([','] + behind) && u != "" && !IsWs(u[0]) && u[0] != ':'
  {
    Regroup("\"" + e, [','], behind);
  }

  lemma TailOf(c: char, t: string)
    ensures Tail([c] + t) == t && Head([c] + t) == c
  {
  }

  /** An object whose only value is a string with a comma at its end, say `{"k": "a,"}`: what is
      left behind the comma is read as a key without an end. */
  lemma TrailingCommaOverruns(key: string, a: string, st: Style)
    requires TextOk(key, KEY_MAX) && TextOk(a, STRING_MAX) && ScanAll(a, 0) == Through(0)
    ensures Parse(Render(Obj([Field(key, Str(a + ","))]), st, 0)) == Overruns
  {
    var behind := "\"" + (Trail(st, 0) + "}");
    var open := "\"" + Escape(a);
    var u := open + [','] + behind;
    OneFieldText(key, Str(a + ","), st);
    CommaText(a, st);
    OpenString(a);
    LayoutIsWs(st, 0);
    assert Fresh([], key);
    hide *;
    ScannerTakes(open, ',', behind, 0);
    SplitAfter(open, [','] + behind);
    StartsOpen(Escape(a), behind);
    FieldsStep(Lead(st, 0), key, u, []);
    AfterStop([','] + behind);
    TailOf(',', behind);
    BraceIsNoKey(st, [Field(key, Str(a))]);
    assert [] + [Field(key, Str(a))] == [Field(key, Str(a))];
  }

  /** An object whose only value is an array of one string that leaves a bracket open, say
      `{"k": ["["]}`: the element loop never gets past the closing brace of the object. */
  lemma OpenStringHangs(key: string, s: string, st: Style)
    requires TextOk(key, KEY_MAX) && TextOk(s, STRING_MAX) && ScanAll(s, 0) == Through(1)
    ensures Parse(Render(Obj([Field(key, Arr([Str(s)]))]), st, 0)) == Hangs
  {
    var v := Arr([Str(s)]);
    var u := Render(v, st, 1) + (Trail(st, 0) + "}");
    OneFieldText(key, v, st);
    assert Fresh([], key);
    LayoutIsWs(st, 0);
    OpenElement(s, st);
    hide *;
    FieldsStep(Lead(st, 0), key, u, []);
    assert u[..|u|] == u;
  }

  lemma OpenElement(s: string, st: Style)
    requires TextOk(s, STRING_MAX) && ScanAll(s, 0) == Through(1)
    ensures var u := Render(Arr([Str(s)]), st, 1) + (Trail(st, 0) + "}");
      ElementLength(u, 0) == |u| && u != "" && u[0] == '[' && Parse(u) == Hangs
  {
    var lead, q, trail, end := Lead(st, 1), Quote(s), Trail(st, 1), Trail(st, 0);
    var u := Render(Arr([Str(s)]), st, 1) + (end + "}");
    LayoutIsWs(st, 1);
    LayoutIsWs(st, 0);
    ScanQuote(s, 0);
    ScanDeeper(s, 0, 1, 1);
    ScanQuote(s, 1);
    QuoteHead(s);
    OpenText(s, st);
    hide Quote, Lead, Trail, Parse, ScanAll, Render;
    OpenScan(lead, q, trail, end);
    PassedWhole(u, 0);
    BracketOff('[', lead, q + (trail + "]" + end) + ['}'] + "", u);
    ParseArrayText(u);
    OpenTurn(s, lead, trail + "]" + end);
  }

  lemma OpenText(s: string, st: Style)
    ensures var lead, q, rest := Lead(st, 1), Quote(s), Trail(st, 1) + "]" + Trail(st, 0);
      var u := Render(Arr([Str(s)]), st, 1) + (Trail(st, 0) + "}");
      u == "[" + lead + (q + rest + ['}'] + "") && u == ("[" + lead + q) + (rest + "}")
  {
    hide Quote, Lead, Trail;
    var lead, q, trail, end := Lead(st, 1), Quote(s), Trail(st, 1), Trail(st, 0);
    assert RenderItems([Str(s)], st, 1) == q;
    assert Render(Arr([Str(s)]), st, 1) == "[" + lead + q + trail + "]";
    hide Render, RenderItems;
    var rest := trail + "]" + end;
    Regroup("[" + lead + q, trail, "]");
    Regroup("[" + lead + q + trail + "]", end, "}");
    Regroup("[" + lead + q, trail + "]", end);
    Regroup("[" + lead + q, rest, "}");
    Regroup("[" + lead, q, rest + "}");
    Regroup(q, rest, "}");
    assert q + rest + ['}'] + "" == q + rest + "}";
  }

  /** The scanner takes the array with its closing brace, but the element without it. */
  lemma OpenScan(lead: string, q: string, trail: string, end: string)
    requires AllWs(lead) && AllWs(trail) && AllWs(end) && ScanAll(q, 0) == Through(1) && ScanAll(q, 1) == Through(2)
    ensures ScanAll(q + (trail + "]" + end), 0) == Through(0)
    ensures ScanAll(("[" + lead + q) + ((trail + "]" + end) + "}"), 0) == Through(0)
  {
    assert ScanAll("[", 0) == Through(1) by { assert "["[1..] == ""; }
    assert ScanAll("]", 1) == Through(0) && ScanAll("]", 2) == Through(1) by { assert "]"[1..] == ""; }
    assert ScanAll("}", 1) == Through(0) by { assert "}"[1..] == ""; }
    hide ScanAll;
    ScanWs(lead, 1);
    ScanWs(trail, 1);
    ScanWs(trail, 2);
    ScanWs(end, 0);
    ScanWs(end, 1);
    ScanPair(trail, "]", 1, 1, 0);
    ScanPair(trail + "]", end, 1, 0, 0);
    ScanPair(trail, "]", 2, 2, 1);
    ScanPair(trail + "]", end, 2, 1, 1);
    ScanPair(q, trail + "]" + end, 0, 1, 0);
    ScanPair("[", lead, 0, 1, 1);
    ScanPair("[" + lead, q, 0, 1, 2);
    ScanPair(trail + "]" + end, "}", 2, 1, 0);
    ScanPair("[" + lead + q, (trail + "]" + end) + "}", 0, 2, 0);
  }

  lemma OpenTurn(s: string, lead: string, rest: string)
    requires TextOk(s, STRING_MAX) && AllWs(lead) && ScanAll(Quote(s) + rest, 0) == Through(0)
    ensures ParseItems(lead + (Quote(s) + rest + ['}'] + ""), []) == Hangs
  {
    var x := Quote(s) + rest;
    var t := x + ['}'] + "";
    QuoteHead(s);
    hide Quote, Parse, ParseItems, ScanAll;
    ScannerTakes(x, '}', "", 0);
    assert t[..|x|] == x && t[|x|..] == "}" && t[0] == '"' && [] + [Str(s)] == [Str(s)];
    UnclosedReads(s, rest);
    ItemsStep(lead, t, []);
    AfterStop("}");
    ItemsAtStop("}", [Str(s)]);
  }
}
