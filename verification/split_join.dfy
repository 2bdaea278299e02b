/** Cutting a string at a separator and joining the pieces again. */
module SplitJoin {

  predicate Occurs(s: string, sep: string, i: int) { 0 <= i && i + |sep| <= |s| && s[i..i + |sep|] == sep }

  /** The first place sep occurs, or -1. */
  function Find(s: string, sep: string): (f: int)
    ensures f == -1 || Occurs(s, sep, f)
    ensures forall i :: 0 <= i && (f == -1 || i < f) ==> !Occurs(s, sep, i)
  {
    if |s| < |sep| then -1
    else if Occurs(s, sep, 0) then 0
    else if s == "" then -1
    else
      var g := Find(s[1..], sep);
      OccursTail(s, sep);
      if g == -1 then -1 else g + 1
  }

  lemma OccursTail(s: string, sep: string)
    requires s != ""
    ensures forall i :: i > 0 ==> (Occurs(s, sep, i) <==> Occurs(s[1..], sep, i - 1))
  {
    forall i | i > 0 ensures Occurs(s, sep, i) <==> Occurs(s[1..], sep, i - 1) {
      OccursLater(s, sep, i);
    }
  }

  lemma OccursLater(s: string, sep: string, i: int)
    requires s != "" && i > 0
    ensures Occurs(s, sep, i) <==> Occurs(s[1..], sep, i - 1)
  {
    if i + |sep| <= |s| { assert s[i..i + |sep|] == s[1..][i - 1..i - 1 + |sep|]; }
  }

  function Chars(s: string): seq<string> { if s == "" then [] else [[s[0]]] + Chars(s[1..]) }

  function Cut(s: string, sep: string): (r: seq<string>)
    requires sep != ""
    ensures r != []
    decreases |s|
  {
    var f := Find(s, sep);
    if f == -1 then [s] else [s[..f]] + Cut(s[f + |sep|..], sep)
  }

  /** `ts_string_split`. */
  function Pieces(s: string, sep: string): seq<string> {
    if s == "" then [""] else if sep == "" then Chars(s) else Cut(s, sep)
  }

  function Join(pieces: seq<string>, sep: string): string {
    if pieces == [] then "" else if |pieces| == 1 then pieces[0] else pieces[0] + sep + Join(pieces[1..], sep)
  }

  lemma {:induction false} JoinChars(s: string)
    ensures Join(Chars(s), "") == s
  {
    if s != "" {
      JoinChars(s[1..]);
      assert s == [s[0]] + "" + s[1..];
    }
  }

  lemma {:induction false} JoinCut(s: string, sep: string)
    requires sep != ""
    ensures Join(Cut(s, sep), sep) == s
    decreases |s|
  {
    var f := Find(s, sep);
    if f != -1 {
      var rest := s[f + |sep|..];
      JoinCut(rest, sep);
      assert Cut(s, sep)[1..] == Cut(rest, sep);
      assert s == s[..f] + sep + rest;
    }
  }

  /** Joining the pieces of a string gives it back, whatever the separator. */
  lemma JoinSplit(s: string, sep: string)
    ensures Join(Pieces(s, sep), sep) == s
  {
    if s != "" {
      if sep == "" { JoinChars(s); } else { JoinCut(s, sep); }
    }
  }

  /** The separator occurs in no piece, and not earlier across the end of a piece and the
      separator that follows it. */
  ghost predicate Leftmost(pieces: seq<string>, sep: string) {
    forall k :: 0 <= k < |pieces| ==>
      Find(pieces[k], sep) == -1 && (k < |pieces| - 1 ==> Find(pieces[k] + sep, sep) == |pieces[k]|)
  }

  lemma FindIs(s: string, sep: string, f: int)
    requires Occurs(s, sep, f) && forall i :: 0 <= i < f ==> !Occurs(s, sep, i)
    ensures Find(s, sep) == f
  {
  }

  lemma OccursWithin(s: string, t: string, sep: string, i: int)
    requires |t| <= |s| && s[..|t|] == t && 0 <= i && i + |sep| <= |t|
    ensures Occurs(s, sep, i) <==> Occurs(t, sep, i)
  {
    assert s[..|t|][i..i + |sep|] == s[i..i + |sep|];
  }

  lemma {:induction false} CutLeftmost(s: string, sep: string)
    requires sep != ""
    ensures Leftmost(Cut(s, sep), sep)
    decreases |s|
  {
    var f := Find(s, sep);
    if f != -1 {
      var p, rest := s[..f], s[f + |sep|..];
      CutLeftmost(rest, sep);
      assert Occurs(s, sep, f);
      assert s[..f + |sep|] == p + sep;
      forall i | 0 <= i < f ensures !Occurs(p + sep, sep, i) && !Occurs(p, sep, i) {
        OccursWithin(s, p + sep, sep, i);
        if i + |sep| <= f { OccursWithin(s, p, sep, i); }
      }
      assert (p + sep)[f..f + |sep|] == sep;
      FindIs(p + sep, sep, f);
      assert Cut(s, sep) == [p] + Cut(rest, sep);
    }
  }

  lemma {:induction false} CutOfJoin(pieces: seq<string>, sep: string)
    requires sep != "" && pieces != [] && Leftmost(pieces, sep)
    ensures Cut(Join(pieces, sep), sep) == pieces
    decreases |pieces|
  {
    if |pieces| > 1 {
      var p, rest := pieces[0], pieces[1..];
      var s := p + sep + Join(rest, sep);
      assert Find(p + sep, sep) == |p|;
      forall i | 0 <= i <= |p| ensures Occurs(s, sep, i) <==> i == |p| {
        OccursWithin(s, p + sep, sep, i);
        assert Occurs(p + sep, sep, |p|);
      }
      FindIs(s, sep, |p|);
      assert s[..|p|] == p && s[|p| + |sep|..] == Join(rest, sep);
      CutOfJoin(rest, sep);
    }
  }

  /** Splitting is the only way to cut a string into pieces that join to it and in which every
      separator is taken as early as it can be. */
  lemma SplitExactly(s: string, sep: string, pieces: seq<string>)
    requires sep != ""
    ensures Pieces(s, sep) == pieces <==> pieces != [] && Join(pieces, sep) == s && Leftmost(pieces, sep)
  {
    assert s == "" ==> Pieces(s, sep) == Cut(s, sep);
    if Pieces(s, sep) == pieces {
      JoinCut(s, sep);
      CutLeftmost(s, sep);
    }
    if pieces != [] && Join(pieces, sep) == s && Leftmost(pieces, sep) {
      CutOfJoin(pieces, sep);
    }
  }

  /** Splitting undoes joining exactly for such pieces. */
  lemma SplitJoinExact(pieces: seq<string>, sep: string)
    requires sep != ""
    ensures Pieces(Join(pieces, sep), sep) == pieces <==> pieces != [] && Leftmost(pieces, sep)
  {
    SplitExactly(Join(pieces, sep), sep, pieces);
  }

  /** An empty separator cuts into characters. */
  lemma {:induction false} CharsAre(s: string)
    ensures |Chars(s)| == |s| && forall i :: 0 <= i < |s| ==> Chars(s)[i] == [s[i]]
  {
    if s != "" { CharsAre(s[1..]); }
  }

  /** The pieces of a string that is not empty: one a character for an empty separator;
      otherwise the first is what stands before the first separator, if there is one. */
  lemma PiecesAre(s: string, sep: string)
    requires s != ""
    ensures sep == "" ==> |Pieces(s, sep)| == |s| && forall i :: 0 <= i < |s| ==> Pieces(s, sep)[i] == [s[i]]
    ensures sep != "" && (forall i :: !Occurs(s, sep, i)) ==> Pieces(s, sep) == [s]
    ensures sep != "" ==> forall f: nat | Occurs(s, sep, f) && forall i :: 0 <= i < f ==> !Occurs(s, sep, i) ::
      Pieces(s, sep)[0] == s[..f] && |Pieces(s, sep)| > 1
  {
    CharsAre(s);
    if sep != "" {
      forall f: nat | Occurs(s, sep, f) && forall i :: 0 <= i < f ==> !Occurs(s, sep, i)
        ensures Pieces(s, sep)[0] == s[..f] && |Pieces(s, sep)| > 1
      {
        FindIs(s, sep, f);
      }
    }
  }
}
