/** The runtime's growing array of strings, and the loops that fill it and read it. */
module StringArrays {
  import opened Basics
  import opened SplitJoin

  const INITIAL_CAPACITY: nat := 16

  class TSArray {
    var items: array<string>
    var length: nat
    ghost var contents: seq<string>

    ghost predicate Valid()
      reads this, items
    {
      0 < items.Length && length <= items.Length && items[..length] == contents
    }

    constructor ()
      ensures Valid() && contents == [] && fresh(items)
    {
      items := new string[INITIAL_CAPACITY](_ => "");
      length := 0;
      contents := [];
    }

    /** `ts_array_push`: a full array moves to one of twice the capacity. */
    method Push(val: string)
      requires Valid()
      modifies this, items
      ensures Valid() && contents == old(contents) + [val]
      ensures items == old(items)
        || (fresh(items) && items.Length == 2 * old(items.Length) && old(length) == old(items.Length))
    {
      if length >= items.Length {
        var old_items := items;
        items := new string[2 * old_items.Length](_ => "");
        forall i | 0 <= i < old_items.Length { items[i] := old_items[i]; }
        assert items[..length] == contents;
      }
      items[length] := val;
      length := length + 1;
      contents := contents + [val];
    }
  }

  /** The search loop of the splitter, by comparing at every place from `start`. */
  method SearchFrom(s: string, separator: string, start: nat) returns (found: int)
    requires start <= |s|
    ensures found == -1 <==> Find(s[start..], separator) == -1
    ensures found != -1 ==> found == start + Find(s[start..], separator)
    ensures found != -1 ==> start <= found && found + |separator| <= |s|
  {
    found := -1;
    var i: int := start;
    var stop := |s| - |separator|;
    while i <= stop && found == -1
      invariant start <= i
      invariant forall j :: 0 <= j < i - start ==> !Occurs(s[start..], separator, j)
      invariant found == -1 || (found == i && Occurs(s[start..], separator, i - start))
      decreases stop - i, if found == -1 then 1 else 0
    {
      assert s[start..][i - start..i - start + |separator|] == s[i..i + |separator|];
      if s[i..i + |separator|] == separator {
        found := i;
      } else {
        i := i + 1;
      }
    }
    if found != -1 {
      FindIs(s[start..], separator, found - start);
    }
  }

  lemma CharsStep(done: seq<string>, s: string, i: nat)
    requires i < |s|
    ensures done + Chars(s[i..]) == done + [[s[i]]] + Chars(s[i + 1..])
  {
    assert s[i..][1..] == s[i + 1..];
  }

  /** An empty separator: one piece a character. */
  method SplitChars(arr: TSArray, s: string)
    requires arr.Valid() && arr.contents == []
    modifies arr, arr.items
    ensures arr.Valid() && (arr.items == old(arr.items) || fresh(arr.items)) && arr.contents == Chars(s)
  {
    hide Chars;
    assert s[0..] == s && [] + Chars(s) == Chars(s);
    for i := 0 to |s|
      invariant arr.Valid() && (arr.items == old(arr.items) || fresh(arr.items))
      invariant arr.contents + Chars(s[i..]) == Chars(s)
    {
      CharsStep(arr.contents, s, i);
      arr.Push([s[i]]);
    }
    assert s[|s|..] == "";
    CharsEnd(arr.contents);
  }

  lemma CharsEnd(done: seq<string>)
    ensures done + Chars("") == done
  {
  }

  lemma CutUnfold(t: string, separator: string)
    requires separator != ""
    ensures Find(t, separator) == -1 ==> Cut(t, separator) == [t]
    ensures Find(t, separator) != -1 ==> Find(t, separator) >= 0 && Find(t, separator) + |separator| <= |t|
    ensures var f := Find(t, separator);
      f != -1 ==> Cut(t, separator) == [t[..f]] + Cut(t[f + |separator|..], separator)
  {
  }

  lemma Associative(a: seq<string>, b: seq<string>, c: seq<string>)
    ensures a + (b + c) == a + b + c
  {
  }

  lemma Offsets(s: string, start: nat, f: nat, g: nat)
    requires start + f <= start + g <= |s|
    ensures s[start..][..f] == s[start..start + f] && s[start..][g..] == s[start + g..]
  {
  }

  /** One turn of the cutting loop, on what is left of the string. */
  lemma CutStep(t: string, separator: string, f: nat, piece: string, rest: string)
    requires separator != "" && f == Find(t, separator) && f + |separator| <= |t|
    requires piece == t[..f] && rest == t[f + |separator|..]
    ensures Cut(t, separator) == [piece] + Cut(rest, separator)
  {
    hide Find, Occurs;
    assert t[..f] == piece;
    assert t[f + |separator|..] == rest;
  }

  method SplitAt(arr: TSArray, s: string, separator: string)
    requires arr.Valid() && arr.contents == [] && separator != ""
    modifies arr, arr.items
    ensures arr.Valid() && (arr.items == old(arr.items) || fresh(arr.items)) && arr.contents == Cut(s, separator)
  {
    hide Find, Cut, Occurs;
    var start := 0;
    assert s[0..] == s && [] + Cut(s, separator) == Cut(s, separator);
    while start <= |s|
      invariant start <= |s| && arr.Valid() && (arr.items == old(arr.items) || fresh(arr.items))
      invariant arr.contents + Cut(s[start..], separator) == Cut(s, separator)
      decreases |s| - start
    {
      var found := SearchFrom(s, separator, start);
      CutUnfold(s[start..], separator);
      if found == -1 {
        arr.Push(s[start..]);
        break;
      }
      Offsets(s, start, found - start, found - start + |separator|);
      CutStep(s[start..], separator, found - start, s[start..found], s[found + |separator|..]);
      Associative(arr.contents, [s[start..found]], Cut(s[found + |separator|..], separator));
      arr.Push(s[start..found]);
      start := found + |separator|;
    }
  }

  /** `ts_string_split`. */
  method Split(s: string, separator: string) returns (arr: TSArray)
    ensures fresh(arr) && fresh(arr.items) && arr.Valid()
    ensures arr.contents == Pieces(s, separator)
  {
    arr := new TSArray();
    if |s| == 0 {
      arr.Push("");
    } else if |separator| == 0 {
      SplitChars(arr, s);
    } else {
      SplitAt(arr, s, separator);
    }
  }

  /** `ts_array_join`. */
  method JoinItems(arr: TSArray, separator: string) returns (result: string)
    requires arr.Valid()
    ensures result == Join(arr.contents, separator)
  {
    if arr.length == 0 { return ""; }
    result := arr.items[0];
    ghost var pieces := arr.contents;
    for i := 1 to arr.length
      invariant result + After(pieces, separator, i) == Join(pieces, separator)
    {
      AfterStep(pieces, separator, i);
      Regroup(result, separator + arr.items[i], After(pieces, separator, i + 1));
      Regroup(result, separator, arr.items[i]);
      result := result + separator;
      result := result + arr.items[i];
    }
  }

  /** What the first i pieces leave to be written. */
  ghost function After(pieces: seq<string>, separator: string, i: nat): string
    requires i <= |pieces|
  {
    if i == |pieces| then "" else separator + Join(pieces[i..], separator)
  }

  lemma AfterStep(pieces: seq<string>, separator: string, i: nat)
    requires i < |pieces|
    ensures After(pieces, separator, i) == separator + pieces[i] + After(pieces, separator, i + 1)
  {
    assert pieces[i..][1..] == pieces[i + 1..];
  }

  /** Splitting and joining again, in the program's own loops. */
  method SplitThenJoin(s: string, separator: string) returns (result: string)
    ensures result == s
  {
    var arr := Split(s, separator);
    JoinSplit(s, separator);
    result := JoinItems(arr, separator);
  }
}
