/** Bytes and byte strings, shared by the wire formats. */
module Octets {
  type Byte = bv8

  type Bytes = seq<Byte>

  /** Eight bits, most significant first, as a byte and as a number. */
  function Octet(a: bool, b: bool, c: bool, d: bool, e: bool, f: bool, g: bool, h: bool): Byte {
    (if a then 0x80 else 0) | (if b then 0x40 else 0) | (if c then 0x20 else 0) | (if d then 0x10 else 0)
    | (if e then 0x08 else 0) | (if f then 0x04 else 0) | (if g then 0x02 else 0) | (if h then 0x01 else 0)
  }

  function Twice(n: nat, bit: bool): nat { 2 * n + (if bit then 1 else 0) }

  function Number(a: bool, b: bool, c: bool, d: bool, e: bool, f: bool, g: bool, h: bool): nat {
    Twice(Twice(Twice(Twice(Twice(Twice(Twice(Twice(0, a), b), c), d), e), f), g), h)
  }

  function Half(n: nat): nat { n / 2 }

  function Odd(n: nat): bool { n % 2 == 1 }

  /** The byte with value n, and the value of a byte. */
  function ByteOf(n: nat): Byte
    requires n < 256
  {
    var n1, n2, n3, n4 := Half(n), Half(Half(n)), Half(Half(Half(n))), Half(Half(Half(Half(n))));
    var n5, n6, n7 := Half(n4), Half(Half(n4)), Half(Half(Half(n4)));
    Octet(Odd(n7), Odd(n6), Odd(n5), Odd(n4), Odd(n3), Odd(n2), Odd(n1), Odd(n))
  }

  function ValueOf(b: Byte): nat {
    Number(b & 0x80 != 0, b & 0x40 != 0, b & 0x20 != 0, b & 0x10 != 0,
           b & 0x08 != 0, b & 0x04 != 0, b & 0x02 != 0, b & 0x01 != 0)
  }

  lemma BitsOfOctet(a: bool, b: bool, c: bool, d: bool, e: bool, f: bool, g: bool, h: bool)
    ensures var o := Octet(a, b, c, d, e, f, g, h);
      && (o & 0x80 != 0) == a && (o & 0x40 != 0) == b && (o & 0x20 != 0) == c && (o & 0x10 != 0) == d
      && (o & 0x08 != 0) == e && (o & 0x04 != 0) == f && (o & 0x02 != 0) == g && (o & 0x01 != 0) == h
  {
  }

  lemma TwiceHalf(n: nat)
    ensures Twice(Half(n), Odd(n)) == n
    ensures 2 * Half(n) <= n
  {
  }

  lemma NumberOfBits(n: nat)
    requires n < 256
    ensures var n1, n2, n3, n4 := Half(n), Half(Half(n)), Half(Half(Half(n))), Half(Half(Half(Half(n))));
      var n5, n6, n7 := Half(n4), Half(Half(n4)), Half(Half(Half(n4)));
      n == Number(Odd(n7), Odd(n6), Odd(n5), Odd(n4), Odd(n3), Odd(n2), Odd(n1), Odd(n))
  {
    hide Twice, Odd, Half;
    var n1, n2, n3, n4 := Half(n), Half(Half(n)), Half(Half(Half(n))), Half(Half(Half(Half(n))));
    var n5, n6, n7 := Half(n4), Half(Half(n4)), Half(Half(Half(n4)));
    TwiceHalf(n);
    TwiceHalf(n1);
    TwiceHalf(n2);
    TwiceHalf(n3);
    TwiceHalf(n4);
    TwiceHalf(n5);
    TwiceHalf(n6);
    TwiceHalf(n7);
    assert n4 < 16 && Half(n7) == 0;
  }

  lemma ValueOfByteOf(n: nat)
    requires n < 256
    ensures ValueOf(ByteOf(n)) == n
  {
    hide Octet, Number, Odd, Half;
    var n1, n2, n3, n4 := Half(n), Half(Half(n)), Half(Half(Half(n))), Half(Half(Half(Half(n))));
    var n5, n6, n7 := Half(n4), Half(Half(n4)), Half(Half(Half(n4)));
    BitsOfOctet(Odd(n7), Odd(n6), Odd(n5), Odd(n4), Odd(n3), Odd(n2), Odd(n1), Odd(n));
    NumberOfBits(n);
  }

  /** They are the numbers themselves. */
  lemma ValueIsNumber(b: Byte)
    ensures ValueOf(b) == b as int
  {
  }

  lemma ByteIsNumber(n: nat)
    requires n < 256
    ensures ByteOf(n) as int == n
  {
    ValueOfByteOf(n);
    ValueIsNumber(ByteOf(n));
  }

  /** The k low bytes of n, most significant first. */
  function BigEndian(n: nat, k: nat): (r: Bytes)
    ensures |r| == k
  {
    if k == 0 then [] else BigEndian(n / 256, k - 1) + [ByteOf(n % 256)]
  }

  ghost function BigEndianValue(s: Bytes): nat {
    if s == [] then 0 else 256 * BigEndianValue(s[..|s| - 1]) + ValueOf(s[|s| - 1])
  }

  function Power256(k: nat): nat { if k == 0 then 1 else 256 * Power256(k - 1) }

  lemma {:induction false} BigEndianInverse(n: nat, k: nat)
    requires n < Power256(k)
    ensures BigEndianValue(BigEndian(n, k)) == n
  {
    if k > 0 {
      hide ByteOf, ValueOf;
      var s := BigEndian(n, k);
      assert s[..k - 1] == BigEndian(n / 256, k - 1);
      assert n / 256 < Power256(k - 1);
      hide Power256;
      ValueOfByteOf(n % 256);
      BigEndianInverse(n / 256, k - 1);
    }
  }

  lemma EightBytes()
    ensures Power256(8) == 0x1_0000_0000_0000_0000
  {
    assert Power256(4) == 0x1_0000_0000;
  }
}
