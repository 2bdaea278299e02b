/** Base64 as the runtime prints it (the WebSocket handshake and Buffer.toString), and the
    decoder of RFC 4648 section 4. */
module Base64 {
  import opened Basics
  import opened Octets

  const UPPER: string := "ABCDEFGHIJKLMNOPQRSTUVWXYZ"
  const LOWER: string := "abcdefghijklmnopqrstuvwxyz"
  const OTHER: string := "0123456789+/"
  const ALPHABET: string := UPPER + LOWER + OTHER

  function Letter(x: bv32): char
    requires x < 64
  {
    ALPHABET[Index(x)]
  }

  /** The six bits of a group that start at bit `shift`. */
  function SixBits(group: bv32, shift: nat): (r: bv32)
    requires shift < 32
    ensures r < 64
  {
    (group >> shift) & 0x3F
  }

  function Index(x: bv32): (n: nat)
    requires x < 64
    ensures n < |ALPHABET|
  {
    x as int
  }

  /** The 24-bit group of three bytes. */
  function Triple(a: Byte, b: Byte, c: Byte): bv32 {
    ((a as bv32) << 16) | ((b as bv32) << 8) | (c as bv32)
  }

  // ---------- the decoder ----------

  /** The place of a letter in the alphabet. */
  function Place(c: char): nat {
    if 'A' <= c <= 'Z' then c as int - 'A' as int
    else if 'a' <= c <= 'z' then c as int - 'a' as int + 26
    else if '0' <= c <= '9' then c as int - '0' as int + 52
    else if c == '+' then 62
    else if c == '/' then 63
    else 64
  }

  function Sextet(c: char): bv32
    requires Place(c) < 64
  {
    Place(c) as bv32
  }

  function Group(p: bv32, q: bv32, r: bv32, s: bv32): bv32 { (p << 18) | (q << 12) | (r << 6) | s }

  function ByteAt(group: bv32, shift: nat): Byte
    requires shift < 32
  {
    ((group >> shift) & 0xff) as bv8
  }

  function Decode(s: string): Option<Bytes> {
    if s == "" then Some([])
    else if |s| < 4 || Place(s[0]) == 64 || Place(s[1]) == 64 then None
    else
      var p, q := Sextet(s[0]), Sextet(s[1]);
      if s[2] == '=' then
        if s[3] == '=' && |s| == 4 then Some([ByteAt(Group(p, q, 0, 0), 16)]) else None
      else if Place(s[2]) == 64 then None
      else
        var r := Sextet(s[2]);
        if s[3] == '=' then
          var g := Group(p, q, r, 0);
          if |s| == 4 then Some([ByteAt(g, 16), ByteAt(g, 8)]) else None
        else if Place(s[3]) == 64 then None
        else
          var g := Group(p, q, r, Sextet(s[3]));
          match Decode(s[4..])
          case None => None
          case Some(more) => Some([ByteAt(g, 16), ByteAt(g, 8), ByteAt(g, 0)] + more)
  }

  // ---------- the encoder ----------

  /** The letters of up to three bytes, missing ones read as zero. */
  function Quad(a: Byte, b: Byte, c: Byte, have: nat): (r: string)
    ensures |r| == 4
  {
    var t := Triple(a, b, c);
    [Letter(SixBits(t, 18)), Letter(SixBits(t, 12)),
     if have > 1 then Letter(SixBits(t, 6)) else '=', if have > 2 then Letter(SixBits(t, 0)) else '=']
  }

  function Encode(data: Bytes): string {
    if |data| == 0 then ""
    else if |data| == 1 then Quad(data[0], 0, 0, 1)
    else if |data| == 2 then Quad(data[0], data[1], 0, 2)
    else Quad(data[0], data[1], data[2], 3) + Encode(data[3..])
  }

  lemma UpperPlace(k: int)
    ensures |UPPER| == 26 && (0 <= k < 26 ==> Place(UPPER[k]) == k)
    ensures '=' !in UPPER
  {
    UpperIs(k);
  }

  lemma LowerPlace(k: int)
    ensures |LOWER| == 26 && (0 <= k < 26 ==> Place(LOWER[k]) == k + 26)
    ensures '=' !in LOWER
  {
    LowerIs(k);
  }

  lemma OtherPlace(k: int)
    ensures |OTHER| == 12 && (0 <= k < 12 ==> Place(OTHER[k]) == k + 52)
    ensures '=' !in OTHER
  {
  }

  lemma PlaceOf(n: nat)
    requires n < 64
    ensures Place(ALPHABET[n]) == n && ALPHABET[n] != '='
  {
    UpperPlace(n);
    LowerPlace(n - 26);
    OtherPlace(n - 52);
    hide Place;
    assert ALPHABET[n] == if n < 26 then UPPER[n] else if n < 52 then LOWER[n - 26] else OTHER[n - 52];
  }

  lemma IndexBack(x: bv32)
    requires x < 64
    ensures Index(x) as bv32 == x
  {
  }

  lemma LetterBack(x: bv32)
    requires x < 64
    ensures Place(Letter(x)) < 64 && Letter(x) != '=' && Sextet(Letter(x)) == x
  {
    hide Index, Place;
    PlaceOf(Index(x));
    IndexBack(x);
  }

  /** The letters are A to Z, a to z, 0 to 9, plus and slash, in this order. */
  lemma LetterAt(x: bv32, c: char)
    requires x < 64 && Index(x) == Place(c)
    ensures Letter(x) == c
  {
    AlphabetAt(c);
    hide Index, Place;
  }

  lemma AlphabetAt(c: char)
    requires Place(c) < 64
    ensures |ALPHABET| == 64 && ALPHABET[Place(c)] == c
  {
    var n: int := Place(c);
    UpperIs(n);
    LowerIs(n - 26);
    OtherIs(n - 52);
    assert ALPHABET[n] == if n < 26 then UPPER[n] else if n < 52 then LOWER[n - 26] else OTHER[n - 52];
  }

  lemma UpperIs(k: int)
    ensures |UPPER| == 26 && (0 <= k < 26 ==> UPPER[k] == (65 + k) as char)
  {
  }

  lemma LowerIs(k: int)
    ensures |LOWER| == 26 && (0 <= k < 26 ==> LOWER[k] == (97 + k) as char)
  {
  }

  lemma OtherIs(k: int)
    ensures |OTHER| == 12 && (0 <= k < 10 ==> OTHER[k] == (48 + k) as char) && OTHER[10] == '+' && OTHER[11] == '/'
  {
  }

  lemma GroupBack(a: Byte, b: Byte, c: Byte)
    ensures var t := Triple(a, b, c);
      && (var g := Group(SixBits(t, 18), SixBits(t, 12), SixBits(t, 6), SixBits(t, 0));
          ByteAt(g, 16) == a && ByteAt(g, 8) == b && ByteAt(g, 0) == c)
      && (c == 0 ==> SixBits(t, 0) == 0)
      && (b == 0 && c == 0 ==> SixBits(t, 6) == 0)
  {
    TripleFits(a, b, c);
    SextetsBack(Triple(a, b, c));
    BytesOfTriple(a, b, c);
    hide Triple, SixBits, Group, ByteAt;
  }

  lemma TripleFits(a: Byte, b: Byte, c: Byte)
    ensures Triple(a, b, c) < 0x100_0000
    ensures c == 0 ==> SixBits(Triple(a, b, c), 0) == 0
    ensures b == 0 && c == 0 ==> SixBits(Triple(a, b, c), 6) == 0
  {
  }

  /** Cutting 24 bits into four sextets loses nothing. */
  lemma SextetsBack(t: bv32)
    requires t < 0x100_0000
    ensures Group(SixBits(t, 18), SixBits(t, 12), SixBits(t, 6), SixBits(t, 0)) == t
  {
    BackInPlace(t, 18, 0xFC_0000);
    BackInPlace(t, 12, 0x3_F000);
    BackInPlace(t, 6, 0xFC0);
    BackInPlace(t, 0, 0x3F);
    AllBits(t);
    hide SixBits;
  }

  /** A sextet moved back to where it was taken from. */
  lemma BackInPlace(t: bv32, shift: nat, mask: bv32)
    requires (shift == 18 && mask == 0xFC_0000) || (shift == 12 && mask == 0x3_F000)
      || (shift == 6 && mask == 0xFC0) || (shift == 0 && mask == 0x3F)
    ensures SixBits(t, shift) << shift == t & mask
  {
    if shift == 18 {
      assert ((t >> 18) & 0x3F) << 18 == t & 0xFC_0000;
    } else if shift == 12 {
      assert ((t >> 12) & 0x3F) << 12 == t & 0x3_F000;
    } else if shift == 6 {
      assert ((t >> 6) & 0x3F) << 6 == t & 0xFC0;
    } else {
      assert ((t >> 0) & 0x3F) << 0 == t & 0x3F;
    }
  }

  lemma AllBits(t: bv32)
    requires t < 0x100_0000
    ensures (t & 0xFC_0000) | (t & 0x3_F000) | (t & 0xFC0) | (t & 0x3F) == t
  {
  }

  lemma BytesOfTriple(a: Byte, b: Byte, c: Byte)
    ensures ByteAt(Triple(a, b, c), 16) == a && ByteAt(Triple(a, b, c), 8) == b && ByteAt(Triple(a, b, c), 0) == c
  {
    FirstOfTriple(a, b, c);
    SecondOfTriple(a, b, c);
    ThirdOfTriple(a, b, c);
    hide Triple, ByteAt;
  }

  lemma FirstOfTriple(a: Byte, b: Byte, c: Byte)
    ensures ByteAt(Triple(a, b, c), 16) == a
  {
  }

  lemma SecondOfTriple(a: Byte, b: Byte, c: Byte)
    ensures ByteAt(Triple(a, b, c), 8) == b
  {
  }

  lemma ThirdOfTriple(a: Byte, b: Byte, c: Byte)
    ensures ByteAt(Triple(a, b, c), 0) == c
  {
  }

  /** The letters of a group are the sextets of its bits. */
  lemma QuadBack(a: Byte, b: Byte, c: Byte, have: nat)
    requires 1 <= have <= 3 && (have < 3 ==> c == 0) && (have < 2 ==> b == 0)
    ensures var r := Quad(a, b, c, have);
      && Place(r[0]) < 64 && Place(r[1]) < 64
      && (r[2] == '=' <==> have < 2) && (r[3] == '=' <==> have < 3)
      && (have >= 2 ==> Place(r[2]) < 64) && (have >= 3 ==> Place(r[3]) < 64)
      && (var g := Group(Sextet(r[0]), Sextet(r[1]), if have < 2 then 0 else Sextet(r[2]),
                         if have < 3 then 0 else Sextet(r[3]));
          ByteAt(g, 16) == a && ByteAt(g, 8) == b && ByteAt(g, 0) == c)
  {
    var t := Triple(a, b, c);
    GroupBack(a, b, c);
    hide Letter, Place, Sextet, Triple, Group, ByteAt, SixBits;
    LetterBack(SixBits(t, 18));
    LetterBack(SixBits(t, 12));
    LetterBack(SixBits(t, 6));
    LetterBack(SixBits(t, 0));
  }

  /** Decoding gives back the bytes, whatever their number. */
  lemma {:induction false} RoundTrip(data: Bytes)
    ensures Decode(Encode(data)) == Some(data)
  {
    hide Place, Sextet, Triple, Group, ByteAt, Quad;
    if |data| == 1 {
      QuadBack(data[0], 0, 0, 1);
      assert data == [data[0]];
    } else if |data| == 2 {
      QuadBack(data[0], data[1], 0, 2);
      assert data == [data[0], data[1]];
    } else if |data| > 2 {
      QuadBack(data[0], data[1], data[2], 3);
      assert Encode(data)[4..] == Encode(data[3..]);
      RoundTrip(data[3..]);
      assert data == [data[0], data[1], data[2]] + data[3..];
    }
  }

  function Have(data: Bytes, i: nat): nat
    requires i < |data|
  {
    if |data| - i > 3 then 3 else |data| - i
  }

  lemma EncodeTurn(buf: string, data: Bytes, i: nat)
    requires i < |data|
    ensures buf + Encode(data[i..])
      == (buf + Quad(data[i], if i + 1 < |data| then data[i + 1] else 0, if i + 2 < |data| then data[i + 2] else 0,
                     Have(data, i)))
         + Encode(if i + 3 < |data| then data[i + 3..] else [])
  {
    hide Quad;
    if i + 2 < |data| {
      assert data[i..][3..] == data[i + 3..];
      if i + 3 == |data| { assert data[i + 3..] == []; }
    }
  }

  /** `base64_encode` and `ts_buffer_toString_base64`. */
  method EncodeBytes(data: Bytes) returns (buf: string)
    ensures buf == Encode(data)
    ensures |buf| == (|data| + 2) / 3 * 4
  {
    hide Letter, Triple, SixBits, Encode;
    buf := "";
    var i := 0;
    assert data[0..] == data;
    while i < |data|
      invariant i % 3 == 0 && i < |data| + 3 && |buf| == i / 3 * 4
      invariant buf + Encode(if i < |data| then data[i..] else []) == Encode(data)
    {
      EncodeTurn(buf, data, i);
      ghost var before := buf;
      var a := data[i];
      var b := if i + 1 < |data| then data[i + 1] else 0;
      var c := if i + 2 < |data| then data[i + 2] else 0;
      var triple := Triple(a, b, c);
      buf := buf + [Letter(SixBits(triple, 18))];
      buf := buf + [Letter(SixBits(triple, 12))];
      buf := buf + [if i + 1 < |data| then Letter(SixBits(triple, 6)) else '='];
      buf := buf + [if i + 2 < |data| then Letter(SixBits(triple, 0)) else '='];
      assert buf == before + Quad(a, b, c, Have(data, i));
      i := i + 3;
    }
    NothingLeft(buf);
  }

  lemma NothingLeft(buf: string)
    ensures buf + Encode([]) == buf
  {
  }
}
