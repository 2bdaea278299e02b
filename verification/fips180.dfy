/** SHA-1 as FIPS 180-4 defines it (sections 4.1.1, 4.2.1, 5.1.1, 5.3.1, 6.1.2), over whole
    messages. */
module Fips180 {
  import opened Octets

  datatype Hash = Hash(a: bv32, b: bv32, c: bv32, d: bv32, e: bv32)

  function Word(b0: Byte, b1: Byte, b2: Byte, b3: Byte): bv32 {
    (Widen(b0) << 24) | (Widen(b1) << 16) | (Widen(b2) << 8) | Widen(b3)
  }

  function Widen(b: Byte): bv32 { b as bv32 }

  function LowByte(w: bv32): Byte { (w & 0xff) as Byte }

  /** Addition of words, modulo 2^32. */
  function Add(x: bv32, y: bv32): bv32 { x + y }

  function Xor4(x: bv32, y: bv32, z: bv32, u: bv32): bv32 { x ^ y ^ z ^ u }

  function Rotate1(x: bv32): bv32 { x.RotateLeft(1) }

  function Rotate5(x: bv32): bv32 { x.RotateLeft(5) }

  function Rotate30(x: bv32): bv32 { x.RotateLeft(30) }

  function Ch(x: bv32, y: bv32, z: bv32): bv32 { (x & y) ^ (!x & z) }

  function Parity(x: bv32, y: bv32, z: bv32): bv32 { x ^ y ^ z }

  function Maj(x: bv32, y: bv32, z: bv32): bv32 { (x & y) ^ (x & z) ^ (y & z) }

  function F(t: nat, x: bv32, y: bv32, z: bv32): bv32 {
    if t < 20 then Ch(x, y, z) else if t < 40 then Parity(x, y, z) else if t < 60 then Maj(x, y, z) else Parity(x, y, z)
  }

  function K(t: nat): bv32 {
    if t < 20 then 0x5a827999 else if t < 40 then 0x6ed9eba1 else if t < 60 then 0x8f1bbcdc else 0xca62c1d6
  }

  /** The message schedule. */
  ghost function W(block: Bytes, t: nat): bv32
    requires |block| == 64
  {
    if t < 16 then Word(block[4 * t], block[4 * t + 1], block[4 * t + 2], block[4 * t + 3])
    else Rotate1(Xor4(W(block, t - 3), W(block, t - 8), W(block, t - 14), W(block, t - 16)))
  }

  function Round(t: nat, h: Hash, w: bv32): Hash {
    Hash(Add(Add(Add(Add(Rotate5(h.a), F(t, h.b, h.c, h.d)), h.e), K(t)), w), h.a, Rotate30(h.b), h.c, h.d)
  }

  ghost function Rounds(h: Hash, block: Bytes, t: nat): Hash
    requires |block| == 64
  {
    if t == 0 then h else Round(t - 1, Rounds(h, block, t - 1), W(block, t - 1))
  }

  function Plus(h: Hash, k: Hash): Hash {
    Hash(Add(h.a, k.a), Add(h.b, k.b), Add(h.c, k.c), Add(h.d, k.d), Add(h.e, k.e))
  }

  ghost function Compress(h: Hash, block: Bytes): Hash
    requires |block| == 64
  {
    Plus(h, Rounds(h, block, 80))
  }

  const INITIAL := Hash(0x67452301, 0xefcdab89, 0x98badcfe, 0x10325476, 0xc3d2e1f0)

  /** The hash value after a message of whole blocks. */
  ghost function Blocks(h: Hash, m: Bytes): Hash
    requires |m| % 64 == 0
  {
    if m == [] then h else Compress(Blocks(h, m[..|m| - 64]), m[|m| - 64..])
  }

  lemma {:induction false} BlocksConcat(h: Hash, a: Bytes, b: Bytes)
    requires |a| % 64 == 0 && |b| % 64 == 0
    ensures Blocks(h, a + b) == Blocks(Blocks(h, a), b)
  {
    if b == [] {
      assert a + b == a;
    } else {
      assert (a + b)[..|a + b| - 64] == a + b[..|b| - 64] && (a + b)[|a + b| - 64..] == b[|b| - 64..];
      BlocksConcat(h, a, b[..|b| - 64]);
    }
  }

  lemma OneBlock(h: Hash, a: Bytes, block: Bytes)
    requires |a| % 64 == 0 && |block| == 64
    ensures Blocks(h, a + block) == Compress(Blocks(h, a), block)
  {
    assert (a + block)[..|a + block| - 64] == a && (a + block)[|a + block| - 64..] == block;
  }

  // ---------- padding ----------

  function Zeros(k: nat): (r: Bytes)
    ensures |r| == k
  {
    seq(k, _ => 0)
  }

  /** The number of zero bytes between the 0x80 byte and the length field. */
  function ZeroCount(length: nat): (k: nat)
    ensures k < 64 && (length + 1 + k) % 64 == 56
  {
    (55 - length) % 64
  }

  function Pad(m: Bytes): Bytes
  {
    m + [0x80] + Zeros(ZeroCount(|m|)) + BigEndian(8 * |m|, 8)
  }

  lemma PadWhole(m: Bytes)
    ensures |Pad(m)| % 64 == 0
  {
    hide BigEndian;
  }

  ghost function Sha1(m: Bytes): Hash {
    PadWhole(m);
    Blocks(INITIAL, Pad(m))
  }

  /** Padding adds one block, or two when less than nine bytes of the last one are free, ... */
  lemma PadLength(m: Bytes)
    ensures |Pad(m)| == 64 * (|m| / 64 + (if |m| % 64 < 56 then 1 else 2))
  {
    hide BigEndian;
  }

  /** ... with the fewest zero bytes that reach a block boundary. */
  lemma FewestZeros(m: Bytes, k: nat)
    requires (|m| + 1 + k + 8) % 64 == 0
    ensures ZeroCount(|m|) <= k
  {
    var d := ZeroCount(|m|) - k;
    assert d % 64 == 0;
  }

  /** Two messages with the same padding are the same message. */
  lemma PadInjective(a: Bytes, b: Bytes)
    requires |a| < 0x2000_0000_0000_0000 && |b| < 0x2000_0000_0000_0000
    requires Pad(a) == Pad(b)
    ensures a == b
  {
    hide BigEndian, BigEndianValue;
    var p, n := Pad(a), |Pad(a)|;
    assert p[n - 8..] == BigEndian(8 * |a|, 8) && p[n - 8..] == BigEndian(8 * |b|, 8);
    EightBytes();
    BigEndianInverse(8 * |a|, 8);
    BigEndianInverse(8 * |b|, 8);
    assert p[..|a|] == a && p[..|b|] == b;
  }

  // ---------- the digest ----------

  function WordBytes(w: bv32): (r: Bytes)
    ensures |r| == 4
  {
    [LowByte(w >> 24), LowByte(w >> 16), LowByte(w >> 8), LowByte(w)]
  }

  function Digest(h: Hash): (r: Bytes)
    ensures |r| == 20
  {
    WordBytes(h.a) + WordBytes(h.b) + WordBytes(h.c) + WordBytes(h.d) + WordBytes(h.e)
  }

  lemma WordBytesInverse(w: bv32)
    ensures var r := WordBytes(w); Word(r[0], r[1], r[2], r[3]) == w
  {
  }

  /** The digest's words, read back big-endian, are the hash value. */
  lemma DigestInverse(h: Hash)
    ensures var r := Digest(h);
      h == Hash(Word(r[0], r[1], r[2], r[3]), Word(r[4], r[5], r[6], r[7]), Word(r[8], r[9], r[10], r[11]),
                Word(r[12], r[13], r[14], r[15]), Word(r[16], r[17], r[18], r[19]))
  {
    hide Word, WordBytes;
    WordBytesInverse(h.a);
    WordBytesInverse(h.b);
    WordBytesInverse(h.c);
    WordBytesInverse(h.d);
    WordBytesInverse(h.e);
  }

  // ---------- a message as whole blocks and a rest ----------

  function Whole(m: Bytes): (r: Bytes)
    ensures |r| % 64 == 0
  {
    m[..|m| - |m| % 64]
  }

  function Rest(m: Bytes): (r: Bytes)
    ensures |r| == |m| % 64 && Whole(m) + r == m
  {
    m[|m| - |m| % 64..]
  }

  lemma SplitIs(w: Bytes, r: Bytes)
    requires |w| % 64 == 0 && |r| < 64
    ensures Whole(w + r) == w && Rest(w + r) == r
  {
  }

  /** One more byte extends the rest, ... */
  lemma AbsorbByte(m: Bytes, c: Byte)
    requires |m| % 64 < 63
    ensures Whole(m + [c]) == Whole(m) && Rest(m + [c]) == Rest(m) + [c]
  {
    SplitIs(Whole(m), Rest(m) + [c]);
    assert Whole(m) + (Rest(m) + [c]) == Whole(m) + Rest(m) + [c];
  }

  /** ... or completes a block. */
  lemma AbsorbBlock(m: Bytes, c: Byte)
    requires |m| % 64 == 63
    ensures Rest(m + [c]) == [] && Blocks(INITIAL, Whole(m + [c])) == Compress(Blocks(INITIAL, Whole(m)), Rest(m) + [c])
  {
    var block := Rest(m) + [c];
    OneBlock(INITIAL, Whole(m), block);
    SplitIs(Whole(m) + block, []);
    assert Whole(m) + block + [] == Whole(m) + Rest(m) + [c];
  }

  /** The padded message ends in one block, ... */
  lemma FinalBlock(m: Bytes)
    requires |m| % 64 < 56
    ensures var last := Rest(m) + [0x80] + Zeros(55 - |m| % 64) + BigEndian(8 * |m|, 8);
      |last| == 64 && Sha1(m) == Compress(Blocks(INITIAL, Whole(m)), last)
  {
    hide BigEndian;
    var last := Rest(m) + [0x80] + Zeros(55 - |m| % 64) + BigEndian(8 * |m|, 8);
    assert Pad(m) == Whole(m) + last;
    OneBlock(INITIAL, Whole(m), last);
  }

  /** ... or in two. */
  lemma FinalBlocks(m: Bytes)
    requires |m| % 64 >= 56
    ensures var first := Rest(m) + [0x80] + Zeros(63 - |m| % 64);
      var last := Zeros(56) + BigEndian(8 * |m|, 8);
      && |first| == 64 && |last| == 64
      && Sha1(m) == Compress(Compress(Blocks(INITIAL, Whole(m)), first), last)
  {
    hide BigEndian;
    var first := Rest(m) + [0x80] + Zeros(63 - |m| % 64);
    var last := Zeros(56) + BigEndian(8 * |m|, 8);
    assert Zeros(ZeroCount(|m|)) == Zeros(63 - |m| % 64) + Zeros(56);
    assert Pad(m) == Whole(m) + first + last;
    OneBlock(INITIAL, Whole(m), first);
    OneBlock(INITIAL, Whole(m) + first, last);
  }

  /** The round constants are the integer parts of 2^30 times the square roots of 2, 3, 5
      and 10. */
  lemma RoundConstants(t: nat)
    ensures var n := if t < 20 then 2 else if t < 40 then 3 else if t < 60 then 5 else 10;
      var k := K(t) as int;
      k * k <= n * 0x1000_0000_0000_0000 < (k + 1) * (k + 1)
  {
  }
}
