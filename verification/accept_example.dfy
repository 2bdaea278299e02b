/** The example of RFC 6455 section 1.3, worked through: the nonce "dGhlIHNhbXBsZSBub25jZQ==" is
    answered with "s3pPLMBiTxaQ9kYGzzhZRbK+xOo=".  The words of the message schedule and those the
    rounds compute, one each, are given for the two blocks that are hashed. */
module AcceptExample {
  import opened Octets
  import opened Fips180
  import Base64
  import WebSockets

  const NONCE: string := "dGhlIHNhbXBsZSBub25jZQ=="

  /** The bytes of the padded message, in rows of sixteen: nonce, GUID, padding. */
  const ROW0: Bytes := [
    0x64, 0x47, 0x68, 0x6C, 0x49, 0x48, 0x4E, 0x68, 0x62, 0x58, 0x42, 0x73, 0x5A, 0x53, 0x42, 0x75]
  const ROW1: Bytes := [
    0x62, 0x32, 0x35, 0x6A, 0x5A, 0x51, 0x3D, 0x3D, 0x32, 0x35, 0x38, 0x45, 0x41, 0x46, 0x41, 0x35]
  const ROW2: Bytes := [
    0x2D, 0x45, 0x39, 0x31, 0x34, 0x2D, 0x34, 0x37, 0x44, 0x41, 0x2D, 0x39, 0x35, 0x43, 0x41, 0x2D]
  const ROW3: Bytes := [
    0x43, 0x35, 0x41, 0x42, 0x30, 0x44, 0x43, 0x38, 0x35, 0x42, 0x31, 0x31, 0x80, 0x00, 0x00, 0x00]
  const ROW4: Bytes := [
    0x00, 0x00, 0x00, 0x00, 0x00, 0x00, 0x00, 0x00, 0x00, 0x00, 0x00, 0x00, 0x00, 0x00, 0x00, 0x00]
  const ROW5: Bytes := [
    0x00, 0x00, 0x00, 0x00, 0x00, 0x00, 0x00, 0x00, 0x00, 0x00, 0x00, 0x00, 0x00, 0x00, 0x00, 0x00]
  const ROW6: Bytes := [
    0x00, 0x00, 0x00, 0x00, 0x00, 0x00, 0x00, 0x00, 0x00, 0x00, 0x00, 0x00, 0x00, 0x00, 0x00, 0x00]
  const ROW7: Bytes := [
    0x00, 0x00, 0x00, 0x00, 0x00, 0x00, 0x00, 0x00, 0x00, 0x00, 0x00, 0x00, 0x00, 0x00, 0x01, 0xE0]

  const NONCE_BYTES: Bytes := ROW0 + ROW1[..8]

  const FIRST: Bytes := ROW0 + ROW1 + ROW2 + ROW3

  const SECOND: Bytes := ROW4 + ROW5 + ROW6 + ROW7

  predicate Spells(b: Byte, c: char) { b as int == c as int }

  /** The nonce, in ASCII. */
  lemma NonceAscii()
    ensures |NONCE_BYTES| == |NONCE| == 24
    ensures Spells(NONCE_BYTES[0], 'd') && Spells(NONCE_BYTES[1], 'G') && Spells(NONCE_BYTES[2], 'h')
    ensures Spells(NONCE_BYTES[3], 'l') && Spells(NONCE_BYTES[4], 'I') && Spells(NONCE_BYTES[5], 'H')
    ensures Spells(NONCE_BYTES[6], 'N') && Spells(NONCE_BYTES[7], 'h') && Spells(NONCE_BYTES[8], 'b')
    ensures Spells(NONCE_BYTES[9], 'X') && Spells(NONCE_BYTES[10], 'B') && Spells(NONCE_BYTES[11], 's')
    ensures Spells(NONCE_BYTES[12], 'Z') && Spells(NONCE_BYTES[13], 'S') && Spells(NONCE_BYTES[14], 'B')
    ensures Spells(NONCE_BYTES[15], 'u') && Spells(NONCE_BYTES[16], 'b') && Spells(NONCE_BYTES[17], '2')
    ensures Spells(NONCE_BYTES[18], '5') && Spells(NONCE_BYTES[19], 'j') && Spells(NONCE_BYTES[20], 'Z')
    ensures Spells(NONCE_BYTES[21], 'Q') && Spells(NONCE_BYTES[22], '=') && Spells(NONCE_BYTES[23], '=')
  {
  }

  lemma GuidIs()
    ensures WebSockets.GUID == ROW1[8..] + ROW2 + ROW3[..12]
  {
    assert ROW1[8..] == [0x32, 0x35, 0x38, 0x45, 0x41, 0x46, 0x41, 0x35];
    assert ROW3[..12] == [0x43, 0x35, 0x41, 0x42, 0x30, 0x44, 0x43, 0x38, 0x35, 0x42, 0x31, 0x31];
  }

  lemma PaddedIs()
    ensures |FIRST| == 64 && |SECOND| == 64 && Pad(NONCE_BYTES + WebSockets.GUID) == FIRST + SECOND
  {
    GuidIs();
    LengthBytes();
    hide BigEndian;
    var m := NONCE_BYTES + WebSockets.GUID;
    assert ZeroCount(60) == 59 && |m| == 60;
    assert m == ROW0 + ROW1 + ROW2 + ROW3[..12];
    assert ROW3[12..] == [0x80] + [0, 0, 0] && ROW7 == Zeros(8) + BigEndian(480, 8);
    assert Zeros(59) == [0, 0, 0] + ROW4 + ROW5 + ROW6 + Zeros(8);
  }

  lemma LengthBytes()
    ensures BigEndian(480, 8) == [0, 0, 0, 0, 0, 0, 1, 0xE0]
  {
    ByteZero();
    hide ByteOf;
    assert BigEndian(0, 6) == [0, 0, 0, 0, 0, 0] by {
      assert BigEndian(0, 3) == [0, 0, 0];
    }
    assert BigEndian(1, 7) == BigEndian(0, 6) + [ByteOf(1)];
    assert BigEndian(480, 8) == BigEndian(1, 7) + [ByteOf(224)];
  }

  lemma ByteZero()
    ensures ByteOf(0) == 0 && ByteOf(1) == 1 && ByteOf(224) == 0xE0
  {
  }

  /** The words of one row. */
  lemma RowWords(block: Bytes, r: nat, row: Bytes)
    requires |block| == 64 && r < 4 && |row| == 16 && block[16 * r..16 * r + 16] == row
    ensures W(block, 4 * r) == Word(row[0], row[1], row[2], row[3])
    ensures W(block, 4 * r + 1) == Word(row[4], row[5], row[6], row[7])
    ensures W(block, 4 * r + 2) == Word(row[8], row[9], row[10], row[11])
    ensures W(block, 4 * r + 3) == Word(row[12], row[13], row[14], row[15])
  {
    hide W, Word;
    assert forall i :: 0 <= i < 16 ==> row[i] == block[16 * r + i];
    InputWord(block, 4 * r);
    InputWord(block, 4 * r + 1);
    InputWord(block, 4 * r + 2);
    InputWord(block, 4 * r + 3);
  }

  lemma InputWord(block: Bytes, t: nat)
    requires |block| == 64 && t < 16
    ensures W(block, t) == Word(block[4 * t], block[4 * t + 1], block[4 * t + 2], block[4 * t + 3])
  {
  }

  ghost predicate Has(block: Bytes, t: nat, w: bv32) { |block| == 64 && W(block, t) == w }

  /** The hash value of five words that the rounds have computed one after the other. */
  ghost function State(v: bv32, w: bv32, x: bv32, y: bv32, z: bv32): Hash {
    Hash(z, y, Rotate30(x), Rotate30(w), Rotate30(v))
  }

  ghost function Sum(t: nat, v: bv32, w: bv32, x: bv32, y: bv32, z: bv32, word: bv32): bv32 {
    Add(Add(Add(Add(Rotate5(z), F(t, y, Rotate30(x), Rotate30(w))), Rotate30(v)), K(t)), word)
  }

  /** One round computes one word. */
  lemma Turn(h: Hash, block: Bytes, t: nat, v: bv32, w: bv32, x: bv32, y: bv32, z: bv32, next: bv32)
    requires |block| == 64 && Rounds(h, block, t) == State(v, w, x, y, z)
    requires Sum(t, v, w, x, y, z, W(block, t)) == next
    ensures Rounds(h, block, t + 1) == State(w, x, y, z, next)
  {
    hide W, F, K, Rotate5, Rotate30, Add;
  }

  lemma RoundsStart(h: Hash, block: Bytes)
    requires |block| == 64
    ensures Rounds(h, block, 0) == h
  {
  }

  ghost predicate First0(block: Bytes) {
    && Has(block, 0, 0x6447686c) && Has(block, 1, 0x49484e68) && Has(block, 2, 0x62584273)
    && Has(block, 3, 0x5a534275) && Has(block, 4, 0x6232356a) && Has(block, 5, 0x5a513d3d)
    && Has(block, 6, 0x32353845) && Has(block, 7, 0x41464135) && Has(block, 8, 0x2d453931)
    && Has(block, 9, 0x342d3437) && Has(block, 10, 0x44412d39) && Has(block, 11, 0x3543412d)
    && Has(block, 12, 0x43354142) && Has(block, 13, 0x30444338) && Has(block, 14, 0x35423131)
    && Has(block, 15, 0x80000000)
  }

  ghost predicate First16(block: Bytes) {
    && Has(block, 16, 0x363ca02c) && Has(block, 17, 0x24e81236) && Has(block, 18, 0x8856b441)
    && Has(block, 19, 0x06fb3c92) && Has(block, 20, 0x6fb4bcb6) && Has(block, 21, 0x460b16e3)
    && Has(block, 22, 0x599219ae) && Has(block, 23, 0x35bf9369) && Has(block, 24, 0x3267458e)
    && Has(block, 25, 0xf828fd04) && Has(block, 26, 0x753a96a7) && Has(block, 27, 0x6336f612)
    && Has(block, 28, 0xc3d66383) && Has(block, 29, 0x06eb86f9) && Has(block, 30, 0x73b4fd42)
    && Has(block, 31, 0xa503c5b8)
  }

  ghost predicate First32(block: Bytes) {
    && Has(block, 32, 0x15cdae35) && Has(block, 33, 0x531e5dc5) && Has(block, 34, 0x6fb6b7d0)
    && Has(block, 35, 0x6c16e4ac) && Has(block, 36, 0x4ddd36bd) && Has(block, 37, 0x35d36946)
    && Has(block, 38, 0xe8ae8b9c) && Has(block, 39, 0x4a933ad0) && Has(block, 40, 0xce8628b4)
    && Has(block, 41, 0x415dba9e) && Has(block, 42, 0x2792f049) && Has(block, 43, 0x8e9b79e7)
    && Has(block, 44, 0x79c425c5) && Has(block, 45, 0x6353b49d) && Has(block, 46, 0x00994218)
    && Has(block, 47, 0x8a950ed1)
  }

  ghost predicate First48(block: Bytes) {
    && Has(block, 48, 0xaf5d0b99) && Has(block, 49, 0xfd9883de) && Has(block, 50, 0x1ed8ffeb)
    && Has(block, 51, 0xf007ff28) && Has(block, 52, 0x425e3674) && Has(block, 53, 0x059631c0)
    && Has(block, 54, 0xad6c3c31) && Has(block, 55, 0x860b71d7) && Has(block, 56, 0x87bfc548)
    && Has(block, 57, 0x3e64f92d) && Has(block, 58, 0x8d0ab761) && Has(block, 59, 0x34e1ee35)
    && Has(block, 60, 0x0acf5108) && Has(block, 61, 0xc2b479da) && Has(block, 62, 0x6c93370a)
    && Has(block, 63, 0xf7935ba1)
  }

  ghost predicate First64(block: Bytes) {
    && Has(block, 64, 0xe91c91c1) && Has(block, 65, 0xbed165a2) && Has(block, 66, 0x4c3e4abe)
    && Has(block, 67, 0x50d96238) && Has(block, 68, 0xb6587dde) && Has(block, 69, 0x1a2ee6e6)
    && Has(block, 70, 0x2d335896) && Has(block, 71, 0xf3495d0b) && Has(block, 72, 0xf30e0a1d)
    && Has(block, 73, 0x32ce5459) && Has(block, 74, 0x7165e3b8) && Has(block, 75, 0xab05ff94)
    && Has(block, 76, 0xc5949f0b) && Has(block, 77, 0xbcd84e4a) && Has(block, 78, 0x07720392)
    && Has(block, 79, 0xff3ff806)
  }

  lemma Row0Words(block: Bytes)
    requires |block| == 64 && block[0..16] == ROW0
    ensures Has(block, 0, 0x6447686c) && Has(block, 1, 0x49484e68)
    ensures Has(block, 2, 0x62584273) && Has(block, 3, 0x5a534275)
  {
    RowWords(block, 0, ROW0);
    assert Word(0x64, 0x47, 0x68, 0x6C) == 0x6447686c;
    assert Word(0x49, 0x48, 0x4E, 0x68) == 0x49484e68;
    assert Word(0x62, 0x58, 0x42, 0x73) == 0x62584273;
    assert Word(0x5A, 0x53, 0x42, 0x75) == 0x5a534275;
    hide W, Word;
  }

  lemma Row1Words(block: Bytes)
    requires |block| == 64 && block[16..32] == ROW1
    ensures Has(block, 4, 0x6232356a) && Has(block, 5, 0x5a513d3d)
    ensures Has(block, 6, 0x32353845) && Has(block, 7, 0x41464135)
  {
    RowWords(block, 1, ROW1);
    assert Word(0x62, 0x32, 0x35, 0x6A) == 0x6232356a;
    assert Word(0x5A, 0x51, 0x3D, 0x3D) == 0x5a513d3d;
    assert Word(0x32, 0x35, 0x38, 0x45) == 0x32353845;
    assert Word(0x41, 0x46, 0x41, 0x35) == 0x41464135;
    hide W, Word;
  }

  lemma Row2Words(block: Bytes)
    requires |block| == 64 && block[32..48] == ROW2
    ensures Has(block, 8, 0x2d453931) && Has(block, 9, 0x342d3437)
    ensures Has(block, 10, 0x44412d39) && Has(block, 11, 0x3543412d)
  {
    RowWords(block, 2, ROW2);
    assert Word(0x2D, 0x45, 0x39, 0x31) == 0x2d453931;
    assert Word(0x34, 0x2D, 0x34, 0x37) == 0x342d3437;
    assert Word(0x44, 0x41, 0x2D, 0x39) == 0x44412d39;
    assert Word(0x35, 0x43, 0x41, 0x2D) == 0x3543412d;
    hide W, Word;
  }

  lemma Row3Words(block: Bytes)
    requires |block| == 64 && block[48..64] == ROW3
    ensures Has(block, 12, 0x43354142) && Has(block, 13, 0x30444338)
    ensures Has(block, 14, 0x35423131) && Has(block, 15, 0x80000000)
  {
    RowWords(block, 3, ROW3);
    assert Word(0x43, 0x35, 0x41, 0x42) == 0x43354142;
    assert Word(0x30, 0x44, 0x43, 0x38) == 0x30444338;
    assert Word(0x35, 0x42, 0x31, 0x31) == 0x35423131;
    assert Word(0x80, 0x00, 0x00, 0x00) == 0x80000000;
    hide W, Word;
  }

  lemma FirstInput(block: Bytes)
    requires block == FIRST && |block| == 64
    ensures First0(block)
  {
    hide Has;
    Row0Words(block);
    Row1Words(block);
    Row2Words(block);
    Row3Words(block);
  }

  lemma FirstWords16(block: Bytes)
    requires First0(block)
    ensures First16(block)
  {
  }

  lemma FirstWords32(block: Bytes)
    requires First16(block)
    ensures First32(block)
  {
  }

  lemma FirstWords48(block: Bytes)
    requires First32(block)
    ensures First48(block)
  {
  }

  lemma FirstWords64(block: Bytes)
    requires First48(block)
    ensures First64(block)
  {
  }

  lemma FirstRounds0(h: Hash, block: Bytes)
    requires |block| == 64 && First0(block)
    requires Rounds(h, block, 0) == State(0x0f4b87c3, 0x40c951d8, 0x62eb73fa, 0xefcdab89, 0x67452301)
    ensures Rounds(h, block, 16) == State(0x34ceb986, 0x61bdb2bf, 0xae1a096e, 0xe922cc9d, 0xa004c468)
  {
    hide W, State;
    Turn(h, block, 0, 0x0f4b87c3, 0x40c951d8, 0x62eb73fa, 0xefcdab89, 0x67452301, 0x03fc011f);
    Turn(h, block, 1, 0x40c951d8, 0x62eb73fa, 0xefcdab89, 0x67452301, 0x03fc011f, 0x2f793f55);
    Turn(h, block, 2, 0x62eb73fa, 0xefcdab89, 0x67452301, 0x03fc011f, 0x2f793f55, 0xbe90ee8f);
    Turn(h, block, 3, 0xefcdab89, 0x67452301, 0x03fc011f, 0x2f793f55, 0xbe90ee8f, 0x53e039ac);
    Turn(h, block, 4, 0x67452301, 0x03fc011f, 0x2f793f55, 0xbe90ee8f, 0x53e039ac, 0xdd8c7c12);
    Turn(h, block, 5, 0x03fc011f, 0x2f793f55, 0xbe90ee8f, 0x53e039ac, 0xdd8c7c12, 0x7320b969);
    Turn(h, block, 6, 0x2f793f55, 0xbe90ee8f, 0x53e039ac, 0xdd8c7c12, 0x7320b969, 0x73553e84);
    Turn(h, block, 7, 0xbe90ee8f, 0x53e039ac, 0xdd8c7c12, 0x7320b969, 0x73553e84, 0x2e0ce601);
    Turn(h, block, 8, 0x53e039ac, 0xdd8c7c12, 0x7320b969, 0x73553e84, 0x2e0ce601, 0x32beb05a);
    Turn(h, block, 9, 0xdd8c7c12, 0x7320b969, 0x73553e84, 0x2e0ce601, 0x32beb05a, 0xfaad2675);
    Turn(h, block, 10, 0x7320b969, 0x73553e84, 0x2e0ce601, 0x32beb05a, 0xfaad2675, 0x5ff4238c);
    Turn(h, block, 11, 0x73553e84, 0x2e0ce601, 0x32beb05a, 0xfaad2675, 0x5ff4238c, 0x34ceb986);
    Turn(h, block, 12, 0x2e0ce601, 0x32beb05a, 0xfaad2675, 0x5ff4238c, 0x34ceb986, 0x61bdb2bf);
    Turn(h, block, 13, 0x32beb05a, 0xfaad2675, 0x5ff4238c, 0x34ceb986, 0x61bdb2bf, 0xae1a096e);
    Turn(h, block, 14, 0xfaad2675, 0x5ff4238c, 0x34ceb986, 0x61bdb2bf, 0xae1a096e, 0xe922cc9d);
    Turn(h, block, 15, 0x5ff4238c, 0x34ceb986, 0x61bdb2bf, 0xae1a096e, 0xe922cc9d, 0xa004c468);
  }

  lemma FirstRounds16(h: Hash, block: Bytes)
    requires |block| == 64 && First16(block)
    requires Rounds(h, block, 16) == State(0x34ceb986, 0x61bdb2bf, 0xae1a096e, 0xe922cc9d, 0xa004c468)
    ensures Rounds(h, block, 32) == State(0x571f7d82, 0x1abb1c37, 0x081b63e5, 0xb7dabc8b, 0xa6680a1f)
  {
    hide W, State;
    Turn(h, block, 16, 0x34ceb986, 0x61bdb2bf, 0xae1a096e, 0xe922cc9d, 0xa004c468, 0xd7daf575);
    Turn(h, block, 17, 0x61bdb2bf, 0xae1a096e, 0xe922cc9d, 0xa004c468, 0xd7daf575, 0x7ebb296b);
    Turn(h, block, 18, 0xae1a096e, 0xe922cc9d, 0xa004c468, 0xd7daf575, 0x7ebb296b, 0x8dc510b6);
    Turn(h, block, 19, 0xe922cc9d, 0xa004c468, 0xd7daf575, 0x7ebb296b, 0x8dc510b6, 0x091ab97c);
    Turn(h, block, 20, 0xa004c468, 0xd7daf575, 0x7ebb296b, 0x8dc510b6, 0x091ab97c, 0x518470a3);
    Turn(h, block, 21, 0xd7daf575, 0x7ebb296b, 0x8dc510b6, 0x091ab97c, 0x518470a3, 0xd12f0b56);
    Turn(h, block, 22, 0x7ebb296b, 0x8dc510b6, 0x091ab97c, 0x518470a3, 0xd12f0b56, 0xbeafd554);
    Turn(h, block, 23, 0x8dc510b6, 0x091ab97c, 0x518470a3, 0xd12f0b56, 0xbeafd554, 0x250e26ef);
    Turn(h, block, 24, 0x091ab97c, 0x518470a3, 0xd12f0b56, 0xbeafd554, 0x250e26ef, 0x23d1c91b);
    Turn(h, block, 25, 0x518470a3, 0xd12f0b56, 0xbeafd554, 0x250e26ef, 0x23d1c91b, 0x748b39a0);
    Turn(h, block, 26, 0xd12f0b56, 0xbeafd554, 0x250e26ef, 0x23d1c91b, 0x748b39a0, 0xef012f20);
    Turn(h, block, 27, 0xbeafd554, 0x250e26ef, 0x23d1c91b, 0x748b39a0, 0xef012f20, 0x571f7d82);
    Turn(h, block, 28, 0x250e26ef, 0x23d1c91b, 0x748b39a0, 0xef012f20, 0x571f7d82, 0x1abb1c37);
    Turn(h, block, 29, 0x23d1c91b, 0x748b39a0, 0xef012f20, 0x571f7d82, 0x1abb1c37, 0x081b63e5);
    Turn(h, block, 30, 0x748b39a0, 0xef012f20, 0x571f7d82, 0x1abb1c37, 0x081b63e5, 0xb7dabc8b);
    Turn(h, block, 31, 0xef012f20, 0x571f7d82, 0x1abb1c37, 0x081b63e5, 0xb7dabc8b, 0xa6680a1f);
  }

  lemma FirstRounds32(h: Hash, block: Bytes)
    requires |block| == 64 && First32(block)
    requires Rounds(h, block, 32) == State(0x571f7d82, 0x1abb1c37, 0x081b63e5, 0xb7dabc8b, 0xa6680a1f)
    ensures Rounds(h, block, 48) == State(0x6dc6a3d7, 0x5f5f3452, 0x72ff334d, 0xdee4b7a8, 0xabe1748a)
  {
    hide W, State;
    Turn(h, block, 32, 0x571f7d82, 0x1abb1c37, 0x081b63e5, 0xb7dabc8b, 0xa6680a1f, 0x1ae360a9);
    Turn(h, block, 33, 0x1abb1c37, 0x081b63e5, 0xb7dabc8b, 0xa6680a1f, 0x1ae360a9, 0xeeaba35a);
    Turn(h, block, 34, 0x081b63e5, 0xb7dabc8b, 0xa6680a1f, 0x1ae360a9, 0xeeaba35a, 0x149bb4d3);
    Turn(h, block, 35, 0xb7dabc8b, 0xa6680a1f, 0x1ae360a9, 0xeeaba35a, 0x149bb4d3, 0x9de793c8);
    Turn(h, block, 36, 0xa6680a1f, 0x1ae360a9, 0xeeaba35a, 0x149bb4d3, 0x9de793c8, 0x4ccd2227);
    Turn(h, block, 37, 0x1ae360a9, 0xeeaba35a, 0x149bb4d3, 0x9de793c8, 0x4ccd2227, 0x68760824);
    Turn(h, block, 38, 0xeeaba35a, 0x149bb4d3, 0x9de793c8, 0x4ccd2227, 0x68760824, 0xd0869081);
    Turn(h, block, 39, 0x149bb4d3, 0x9de793c8, 0x4ccd2227, 0x68760824, 0xd0869081, 0x2ba2c83e);
    Turn(h, block, 40, 0x9de793c8, 0x4ccd2227, 0x68760824, 0xd0869081, 0x2ba2c83e, 0xcb8c52d0);
    Turn(h, block, 41, 0x4ccd2227, 0x68760824, 0xd0869081, 0x2ba2c83e, 0xcb8c52d0, 0x4f589a44);
    Turn(h, block, 42, 0x68760824, 0xd0869081, 0x2ba2c83e, 0xcb8c52d0, 0x4f589a44, 0x868829b7);
    Turn(h, block, 43, 0xd0869081, 0x2ba2c83e, 0xcb8c52d0, 0x4f589a44, 0x868829b7, 0x6dc6a3d7);
    Turn(h, block, 44, 0x2ba2c83e, 0xcb8c52d0, 0x4f589a44, 0x868829b7, 0x6dc6a3d7, 0x5f5f3452);
    Turn(h, block, 45, 0xcb8c52d0, 0x4f589a44, 0x868829b7, 0x6dc6a3d7, 0x5f5f3452, 0x72ff334d);
    Turn(h, block, 46, 0x4f589a44, 0x868829b7, 0x6dc6a3d7, 0x5f5f3452, 0x72ff334d, 0xdee4b7a8);
    Turn(h, block, 47, 0x868829b7, 0x6dc6a3d7, 0x5f5f3452, 0x72ff334d, 0xdee4b7a8, 0xabe1748a);
  }

  lemma FirstRounds48(h: Hash, block: Bytes)
    requires |block| == 64 && First48(block)
    requires Rounds(h, block, 48) == State(0x6dc6a3d7, 0x5f5f3452, 0x72ff334d, 0xdee4b7a8, 0xabe1748a)
    ensures Rounds(h, block, 64) == State(0x4872d85a, 0xcd4200b8, 0x90f00d8f, 0x840054d3, 0x685e2ff6)
  {
    hide W, State;
    Turn(h, block, 48, 0x6dc6a3d7, 0x5f5f3452, 0x72ff334d, 0xdee4b7a8, 0xabe1748a, 0x7510d04f);
    Turn(h, block, 49, 0x5f5f3452, 0x72ff334d, 0xdee4b7a8, 0xabe1748a, 0x7510d04f, 0x065f8486);
    Turn(h, block, 50, 0x72ff334d, 0xdee4b7a8, 0xabe1748a, 0x7510d04f, 0x065f8486, 0x0e5d77c4);
    Turn(h, block, 51, 0xdee4b7a8, 0xabe1748a, 0x7510d04f, 0x065f8486, 0x0e5d77c4, 0x10e7f671);
    Turn(h, block, 52, 0xabe1748a, 0x7510d04f, 0x065f8486, 0x0e5d77c4, 0x10e7f671, 0x26c69395);
    Turn(h, block, 53, 0x7510d04f, 0x065f8486, 0x0e5d77c4, 0x10e7f671, 0x26c69395, 0x4c608ac4);
    Turn(h, block, 54, 0x065f8486, 0x0e5d77c4, 0x10e7f671, 0x26c69395, 0x4c608ac4, 0x50c9104c);
    Turn(h, block, 55, 0x0e5d77c4, 0x10e7f671, 0x26c69395, 0x4c608ac4, 0x50c9104c, 0x7e1242f2);
    Turn(h, block, 56, 0x10e7f671, 0x26c69395, 0x4c608ac4, 0x50c9104c, 0x7e1242f2, 0x6ef6fef4);
    Turn(h, block, 57, 0x26c69395, 0x4c608ac4, 0x50c9104c, 0x7e1242f2, 0x6ef6fef4, 0x0c247c2e);
    Turn(h, block, 58, 0x4c608ac4, 0x50c9104c, 0x7e1242f2, 0x6ef6fef4, 0x0c247c2e, 0xd284f163);
    Turn(h, block, 59, 0x50c9104c, 0x7e1242f2, 0x6ef6fef4, 0x0c247c2e, 0xd284f163, 0x4872d85a);
    Turn(h, block, 60, 0x7e1242f2, 0x6ef6fef4, 0x0c247c2e, 0xd284f163, 0x4872d85a, 0xcd4200b8);
    Turn(h, block, 61, 0x6ef6fef4, 0x0c247c2e, 0xd284f163, 0x4872d85a, 0xcd4200b8, 0x90f00d8f);
    Turn(h, block, 62, 0x0c247c2e, 0xd284f163, 0x4872d85a, 0xcd4200b8, 0x90f00d8f, 0x840054d3);
    Turn(h, block, 63, 0xd284f163, 0x4872d85a, 0xcd4200b8, 0x90f00d8f, 0x840054d3, 0x685e2ff6);
  }

  lemma FirstRounds64(h: Hash, block: Bytes)
    requires |block| == 64 && First64(block)
    requires Rounds(h, block, 64) == State(0x4872d85a, 0xcd4200b8, 0x90f00d8f, 0x840054d3, 0x685e2ff6)
    ensures Rounds(h, block, 80) == State(0x69cf0bca, 0x29171009, 0x97047bec, 0x835995e1, 0xf48a5426)
  {
    hide W, State;
    Turn(h, block, 64, 0x4872d85a, 0xcd4200b8, 0x90f00d8f, 0x840054d3, 0x685e2ff6, 0xa4cee018);
    Turn(h, block, 65, 0xcd4200b8, 0x90f00d8f, 0x840054d3, 0x685e2ff6, 0xa4cee018, 0xc3c2e45b);
    Turn(h, block, 66, 0x90f00d8f, 0x840054d3, 0x685e2ff6, 0xa4cee018, 0xc3c2e45b, 0x53131a40);
    Turn(h, block, 67, 0x840054d3, 0x685e2ff6, 0xa4cee018, 0xc3c2e45b, 0x53131a40, 0xcf8658ec);
    Turn(h, block, 68, 0x685e2ff6, 0xa4cee018, 0xc3c2e45b, 0x53131a40, 0xcf8658ec, 0x966e049a);
    Turn(h, block, 69, 0xa4cee018, 0xc3c2e45b, 0x53131a40, 0xcf8658ec, 0x966e049a, 0x07381b7e);
    Turn(h, block, 70, 0xc3c2e45b, 0x53131a40, 0xcf8658ec, 0x966e049a, 0x07381b7e, 0x80d59773);
    Turn(h, block, 71, 0x53131a40, 0xcf8658ec, 0x966e049a, 0x07381b7e, 0x80d59773, 0x7e65e044);
    Turn(h, block, 72, 0xcf8658ec, 0x966e049a, 0x07381b7e, 0x80d59773, 0x7e65e044, 0x628e7b47);
    Turn(h, block, 73, 0x966e049a, 0x07381b7e, 0x80d59773, 0x7e65e044, 0x628e7b47, 0x143a8388);
    Turn(h, block, 74, 0x07381b7e, 0x80d59773, 0x7e65e044, 0x628e7b47, 0x143a8388, 0xe20983f9);
    Turn(h, block, 75, 0x80d59773, 0x7e65e044, 0x628e7b47, 0x143a8388, 0xe20983f9, 0x69cf0bca);
    Turn(h, block, 76, 0x7e65e044, 0x628e7b47, 0x143a8388, 0xe20983f9, 0x69cf0bca, 0x29171009);
    Turn(h, block, 77, 0x628e7b47, 0x143a8388, 0xe20983f9, 0x69cf0bca, 0x29171009, 0x97047bec);
    Turn(h, block, 78, 0x143a8388, 0xe20983f9, 0x69cf0bca, 0x29171009, 0x97047bec, 0x835995e1);
    Turn(h, block, 79, 0xe20983f9, 0x69cf0bca, 0x29171009, 0x97047bec, 0x835995e1, 0xf48a5426);
  }

  lemma FirstBlock(h: Hash)
    requires h == Hash(0x67452301, 0xefcdab89, 0x98badcfe, 0x10325476, 0xc3d2e1f0)
    ensures |FIRST| == 64 && Compress(h, FIRST) == Hash(0x5bcf7727, 0x7327416a, 0xbe7bfbf9, 0x5a781878, 0x5e46a4e2)
  {
    PaddedIs();
    FirstInput(FIRST);
    hide *;
    FirstWords16(FIRST);
    FirstWords32(FIRST);
    FirstWords48(FIRST);
    FirstWords64(FIRST);
    RoundsStart(h, FIRST);
    FirstRounds0(h, FIRST);
    FirstRounds16(h, FIRST);
    FirstRounds32(h, FIRST);
    FirstRounds48(h, FIRST);
    FirstRounds64(h, FIRST);
  }

  ghost predicate Second0(block: Bytes) {
    && Has(block, 0, 0x00000000) && Has(block, 1, 0x00000000) && Has(block, 2, 0x00000000)
    && Has(block, 3, 0x00000000) && Has(block, 4, 0x00000000) && Has(block, 5, 0x00000000)
    && Has(block, 6, 0x00000000) && Has(block, 7, 0x00000000) && Has(block, 8, 0x00000000)
    && Has(block, 9, 0x00000000) && Has(block, 10, 0x00000000) && Has(block, 11, 0x00000000)
    && Has(block, 12, 0x00000000) && Has(block, 13, 0x00000000) && Has(block, 14, 0x00000000)
    && Has(block, 15, 0x000001e0)
  }

  ghost predicate Second16(block: Bytes) {
    && Has(block, 16, 0x00000000) && Has(block, 17, 0x00000000) && Has(block, 18, 0x000003c0)
    && Has(block, 19, 0x00000000) && Has(block, 20, 0x00000000) && Has(block, 21, 0x00000780)
    && Has(block, 22, 0x00000000) && Has(block, 23, 0x000003c0) && Has(block, 24, 0x00000f00)
    && Has(block, 25, 0x00000000) && Has(block, 26, 0x00000000) && Has(block, 27, 0x00001e00)
    && Has(block, 28, 0x00000000) && Has(block, 29, 0x00000cc0) && Has(block, 30, 0x00003c00)
    && Has(block, 31, 0x00000440)
  }

  ghost predicate Second32(block: Bytes) {
    && Has(block, 32, 0x00000000) && Has(block, 33, 0x00007800) && Has(block, 34, 0x00000f00)
    && Has(block, 35, 0x00003300) && Has(block, 36, 0x0000f000) && Has(block, 37, 0x00000f00)
    && Has(block, 38, 0x00000000) && Has(block, 39, 0x0001ef00) && Has(block, 40, 0x00000000)
    && Has(block, 41, 0x0000cc00) && Has(block, 42, 0x0003c000) && Has(block, 43, 0x00004380)
    && Has(block, 44, 0x00000000) && Has(block, 45, 0x00078f00) && Has(block, 46, 0x0000ff00)
    && Has(block, 47, 0x00032680)
  }

  ghost predicate Second48(block: Bytes) {
    && Has(block, 48, 0x000f0000) && Has(block, 49, 0x0000f000) && Has(block, 50, 0x00003300)
    && Has(block, 51, 0x001eff00) && Has(block, 52, 0x00000000) && Has(block, 53, 0x000cb800)
    && Has(block, 54, 0x003c0000) && Has(block, 55, 0x00040b00) && Has(block, 56, 0x0000f000)
    && Has(block, 57, 0x0078ff00) && Has(block, 58, 0x000ff000) && Has(block, 59, 0x00338700)
    && Has(block, 60, 0x00f00000) && Has(block, 61, 0x000fc300) && Has(block, 62, 0x0000f000)
    && Has(block, 63, 0x01efbb00)
  }

  ghost predicate Second64(block: Bytes) {
    && Has(block, 64, 0x00000000) && Has(block, 65, 0x00cc0000) && Has(block, 66, 0x03c0f000)
    && Has(block, 67, 0x00438000) && Has(block, 68, 0x00000000) && Has(block, 69, 0x078f0000)
    && Has(block, 70, 0x00ff0000) && Has(block, 71, 0x03269e00) && Has(block, 72, 0x0f000000)
    && Has(block, 73, 0x00f0f000) && Has(block, 74, 0x00333c00) && Has(block, 75, 0x1eff8800)
    && Has(block, 76, 0x00000000) && Has(block, 77, 0x0cb88800) && Has(block, 78, 0x3c00f000)
    && Has(block, 79, 0x040a4a00)
  }

  lemma Row4Words(block: Bytes)
    requires |block| == 64 && block[0..16] == ROW4
    ensures Has(block, 0, 0x00000000) && Has(block, 1, 0x00000000)
    ensures Has(block, 2, 0x00000000) && Has(block, 3, 0x00000000)
  {
    RowWords(block, 0, ROW4);
    assert Word(0x00, 0x00, 0x00, 0x00) == 0x00000000;
    assert Word(0x00, 0x00, 0x00, 0x00) == 0x00000000;
    assert Word(0x00, 0x00, 0x00, 0x00) == 0x00000000;
    assert Word(0x00, 0x00, 0x00, 0x00) == 0x00000000;
    hide W, Word;
  }

  lemma Row5Words(block: Bytes)
    requires |block| == 64 && block[16..32] == ROW5
    ensures Has(block, 4, 0x00000000) && Has(block, 5, 0x00000000)
    ensures Has(block, 6, 0x00000000) && Has(block, 7, 0x00000000)
  {
    RowWords(block, 1, ROW5);
    assert Word(0x00, 0x00, 0x00, 0x00) == 0x00000000;
    assert Word(0x00, 0x00, 0x00, 0x00) == 0x00000000;
    assert Word(0x00, 0x00, 0x00, 0x00) == 0x00000000;
    assert Word(0x00, 0x00, 0x00, 0x00) == 0x00000000;
    hide W, Word;
  }

  lemma Row6Words(block: Bytes)
    requires |block| == 64 && block[32..48] == ROW6
    ensures Has(block, 8, 0x00000000) && Has(block, 9, 0x00000000)
    ensures Has(block, 10, 0x00000000) && Has(block, 11, 0x00000000)
  {
    RowWords(block, 2, ROW6);
    assert Word(0x00, 0x00, 0x00, 0x00) == 0x00000000;
    assert Word(0x00, 0x00, 0x00, 0x00) == 0x00000000;
    assert Word(0x00, 0x00, 0x00, 0x00) == 0x00000000;
    assert Word(0x00, 0x00, 0x00, 0x00) == 0x00000000;
    hide W, Word;
  }

  lemma Row7Words(block: Bytes)
    requires |block| == 64 && block[48..64] == ROW7
    ensures Has(block, 12, 0x00000000) && Has(block, 13, 0x00000000)
    ensures Has(block, 14, 0x00000000) && Has(block, 15, 0x000001e0)
  {
    RowWords(block, 3, ROW7);
    assert Word(0x00, 0x00, 0x00, 0x00) == 0x00000000;
    assert Word(0x00, 0x00, 0x00, 0x00) == 0x00000000;
    assert Word(0x00, 0x00, 0x00, 0x00) == 0x00000000;
    assert Word(0x00, 0x00, 0x01, 0xE0) == 0x000001e0;
    hide W, Word;
  }

  lemma SecondInput(block: Bytes)
    requires block == SECOND && |block| == 64
    ensures Second0(block)
  {
    hide Has;
    Row4Words(block);
    Row5Words(block);
    Row6Words(block);
    Row7Words(block);
  }

  lemma SecondWords16(block: Bytes)
    requires Second0(block)
    ensures Second16(block)
  {
  }

  lemma SecondWords32(block: Bytes)
    requires Second16(block)
    ensures Second32(block)
  {
  }

  lemma SecondWords48(block: Bytes)
    requires Second32(block)
    ensures Second48(block)
  {
  }

  lemma SecondWords64(block: Bytes)
    requires Second48(block)
    ensures Second64(block)
  {
  }

  lemma SecondRounds0(h: Hash, block: Bytes)
    requires |block| == 64 && Second0(block)
    requires Rounds(h, block, 0) == State(0x791a9389, 0x69e061e1, 0xf9efefe6, 0x7327416a, 0x5bcf7727)
    ensures Rounds(h, block, 16) == State(0x250601ad, 0x6576d2dc, 0xad43f39e, 0x990b7be7, 0x986df268)
  {
    hide W, State;
    Turn(h, block, 0, 0x791a9389, 0x69e061e1, 0xf9efefe6, 0x7327416a, 0x5bcf7727, 0x6d335cde);
    Turn(h, block, 1, 0x69e061e1, 0xf9efefe6, 0x7327416a, 0x5bcf7727, 0x6d335cde, 0x186006b8);
    Turn(h, block, 2, 0xf9efefe6, 0x7327416a, 0x5bcf7727, 0x6d335cde, 0x186006b8, 0xf9fb295d);
    Turn(h, block, 3, 0x7327416a, 0x5bcf7727, 0x6d335cde, 0x186006b8, 0xf9fb295d, 0x15855523);
    Turn(h, block, 4, 0x5bcf7727, 0x6d335cde, 0x186006b8, 0xf9fb295d, 0x15855523, 0xe43dd2f2);
    Turn(h, block, 5, 0x6d335cde, 0x186006b8, 0xf9fb295d, 0x15855523, 0xe43dd2f2, 0x93a5efbb);
    Turn(h, block, 6, 0x186006b8, 0xf9fb295d, 0x15855523, 0xe43dd2f2, 0x93a5efbb, 0xb3bbcafe);
    Turn(h, block, 7, 0xf9fb295d, 0x15855523, 0xe43dd2f2, 0x93a5efbb, 0xb3bbcafe, 0x25c018be);
    Turn(h, block, 8, 0x15855523, 0xe43dd2f2, 0x93a5efbb, 0xb3bbcafe, 0x25c018be, 0x80946593);
    Turn(h, block, 9, 0xe43dd2f2, 0x93a5efbb, 0xb3bbcafe, 0x25c018be, 0x80946593, 0x0b0814c3);
    Turn(h, block, 10, 0x93a5efbb, 0xb3bbcafe, 0x25c018be, 0x80946593, 0x0b0814c3, 0x4ce92417);
    Turn(h, block, 11, 0xb3bbcafe, 0x25c018be, 0x80946593, 0x0b0814c3, 0x4ce92417, 0x250601ad);
    Turn(h, block, 12, 0x25c018be, 0x80946593, 0x0b0814c3, 0x4ce92417, 0x250601ad, 0x6576d2dc);
    Turn(h, block, 13, 0x80946593, 0x0b0814c3, 0x4ce92417, 0x250601ad, 0x6576d2dc, 0xad43f39e);
    Turn(h, block, 14, 0x0b0814c3, 0x4ce92417, 0x250601ad, 0x6576d2dc, 0xad43f39e, 0x990b7be7);
    Turn(h, block, 15, 0x4ce92417, 0x250601ad, 0x6576d2dc, 0xad43f39e, 0x990b7be7, 0x986df268);
  }

  lemma SecondRounds16(h: Hash, block: Bytes)
    requires |block| == 64 && Second16(block)
    requires Rounds(h, block, 16) == State(0x250601ad, 0x6576d2dc, 0xad43f39e, 0x990b7be7, 0x986df268)
    ensures Rounds(h, block, 32) == State(0x9327df6f, 0xf57cb53e, 0x243ee057, 0xf4ddd7b7, 0x3cf6eb58)
  {
    hide W, State;
    Turn(h, block, 16, 0x250601ad, 0x6576d2dc, 0xad43f39e, 0x990b7be7, 0x986df268, 0x3ad7440e);
    Turn(h, block, 17, 0x6576d2dc, 0xad43f39e, 0x990b7be7, 0x986df268, 0x3ad7440e, 0x72198f06);
    Turn(h, block, 18, 0xad43f39e, 0x990b7be7, 0x986df268, 0x3ad7440e, 0x72198f06, 0x2f193a09);
    Turn(h, block, 19, 0x990b7be7, 0x986df268, 0x3ad7440e, 0x72198f06, 0x2f193a09, 0x2a008b51);
    Turn(h, block, 20, 0x986df268, 0x3ad7440e, 0x72198f06, 0x2f193a09, 0x2a008b51, 0x12315b2b);
    Turn(h, block, 21, 0x3ad7440e, 0x72198f06, 0x2f193a09, 0x2a008b51, 0x12315b2b, 0x40fbcf98);
    Turn(h, block, 22, 0x72198f06, 0x2f193a09, 0x2a008b51, 0x12315b2b, 0x40fbcf98, 0x3e5179e7);
    Turn(h, block, 23, 0x2f193a09, 0x2a008b51, 0x12315b2b, 0x40fbcf98, 0x3e5179e7, 0x53c73650);
    Turn(h, block, 24, 0x2a008b51, 0x12315b2b, 0x40fbcf98, 0x3e5179e7, 0x53c73650, 0x1d24c44a);
    Turn(h, block, 25, 0x12315b2b, 0x40fbcf98, 0x3e5179e7, 0x53c73650, 0x1d24c44a, 0x646c677d);
    Turn(h, block, 26, 0x40fbcf98, 0x3e5179e7, 0x53c73650, 0x1d24c44a, 0x646c677d, 0xd2e726da);
    Turn(h, block, 27, 0x3e5179e7, 0x53c73650, 0x1d24c44a, 0x646c677d, 0xd2e726da, 0x9327df6f);
    Turn(h, block, 28, 0x53c73650, 0x1d24c44a, 0x646c677d, 0xd2e726da, 0x9327df6f, 0xf57cb53e);
    Turn(h, block, 29, 0x1d24c44a, 0x646c677d, 0xd2e726da, 0x9327df6f, 0xf57cb53e, 0x243ee057);
    Turn(h, block, 30, 0x646c677d, 0xd2e726da, 0x9327df6f, 0xf57cb53e, 0x243ee057, 0xf4ddd7b7);
    Turn(h, block, 31, 0xd2e726da, 0x9327df6f, 0xf57cb53e, 0x243ee057, 0xf4ddd7b7, 0x3cf6eb58);
  }

  lemma SecondRounds32(h: Hash, block: Bytes)
    requires |block| == 64 && Second32(block)
    requires Rounds(h, block, 32) == State(0x9327df6f, 0xf57cb53e, 0x243ee057, 0xf4ddd7b7, 0x3cf6eb58)
    ensures Rounds(h, block, 48) == State(0x1e934acf, 0xfc7bd35f, 0x3bd9203b, 0xc8cda3da, 0xa3ef857e)
  {
    hide W, State;
    Turn(h, block, 32, 0x9327df6f, 0xf57cb53e, 0x243ee057, 0xf4ddd7b7, 0x3cf6eb58, 0x730e9170);
    Turn(h, block, 33, 0xf57cb53e, 0x243ee057, 0xf4ddd7b7, 0x3cf6eb58, 0x730e9170, 0x96d9e59e);
    Turn(h, block, 34, 0x243ee057, 0xf4ddd7b7, 0x3cf6eb58, 0x730e9170, 0x96d9e59e, 0x942ac4d3);
    Turn(h, block, 35, 0xf4ddd7b7, 0x3cf6eb58, 0x730e9170, 0x96d9e59e, 0x942ac4d3, 0x76922a14);
    Turn(h, block, 36, 0x3cf6eb58, 0x730e9170, 0x96d9e59e, 0x942ac4d3, 0x76922a14, 0x7dbcf2ed);
    Turn(h, block, 37, 0x730e9170, 0x96d9e59e, 0x942ac4d3, 0x76922a14, 0x7dbcf2ed, 0x796adef3);
    Turn(h, block, 38, 0x96d9e59e, 0x942ac4d3, 0x76922a14, 0x7dbcf2ed, 0x796adef3, 0xc6ff0cd3);
    Turn(h, block, 39, 0x942ac4d3, 0x76922a14, 0x7dbcf2ed, 0x796adef3, 0xc6ff0cd3, 0x6f698f1a);
    Turn(h, block, 40, 0x76922a14, 0x7dbcf2ed, 0x796adef3, 0xc6ff0cd3, 0x6f698f1a, 0x78716769);
    Turn(h, block, 41, 0x7dbcf2ed, 0x796adef3, 0xc6ff0cd3, 0x6f698f1a, 0x78716769, 0xfc343a02);
    Turn(h, block, 42, 0x796adef3, 0xc6ff0cd3, 0x6f698f1a, 0x78716769, 0xfc343a02, 0xedfcd85b);
    Turn(h, block, 43, 0xc6ff0cd3, 0x6f698f1a, 0x78716769, 0xfc343a02, 0xedfcd85b, 0x1e934acf);
    Turn(h, block, 44, 0x6f698f1a, 0x78716769, 0xfc343a02, 0xedfcd85b, 0x1e934acf, 0xfc7bd35f);
    Turn(h, block, 45, 0x78716769, 0xfc343a02, 0xedfcd85b, 0x1e934acf, 0xfc7bd35f, 0x3bd9203b);
    Turn(h, block, 46, 0xfc343a02, 0xedfcd85b, 0x1e934acf, 0xfc7bd35f, 0x3bd9203b, 0xc8cda3da);
    Turn(h, block, 47, 0xedfcd85b, 0x1e934acf, 0xfc7bd35f, 0x3bd9203b, 0xc8cda3da, 0xa3ef857e);
  }

  lemma SecondRounds48(h: Hash, block: Bytes)
    requires |block| == 64 && Second48(block)
    requires Rounds(h, block, 48) == State(0x1e934acf, 0xfc7bd35f, 0x3bd9203b, 0xc8cda3da, 0xa3ef857e)
    ensures Rounds(h, block, 64) == State(0x56119f19, 0x77489e23, 0x11132f8f, 0xd5ef1ed7, 0xa5937450)
  {
    hide W, State;
    Turn(h, block, 48, 0x1e934acf, 0xfc7bd35f, 0x3bd9203b, 0xc8cda3da, 0xa3ef857e, 0xa39f2041);
    Turn(h, block, 49, 0xfc7bd35f, 0x3bd9203b, 0xc8cda3da, 0xa3ef857e, 0xa39f2041, 0xa516f265);
    Turn(h, block, 50, 0x3bd9203b, 0xc8cda3da, 0xa3ef857e, 0xa39f2041, 0xa516f265, 0xa3abe4f5);
    Turn(h, block, 51, 0xc8cda3da, 0xa3ef857e, 0xa39f2041, 0xa516f265, 0xa3abe4f5, 0x5fe2a3db);
    Turn(h, block, 52, 0xa3ef857e, 0xa39f2041, 0xa516f265, 0xa3abe4f5, 0x5fe2a3db, 0x9e540637);
    Turn(h, block, 53, 0xa39f2041, 0xa516f265, 0xa3abe4f5, 0x5fe2a3db, 0x9e540637, 0x2c73bd78);
    Turn(h, block, 54, 0xa516f265, 0xa3abe4f5, 0x5fe2a3db, 0x9e540637, 0x2c73bd78, 0x660dd0b1);
    Turn(h, block, 55, 0xa3abe4f5, 0x5fe2a3db, 0x9e540637, 0x2c73bd78, 0x660dd0b1, 0xa1b68141);
    Turn(h, block, 56, 0x5fe2a3db, 0x9e540637, 0x2c73bd78, 0x660dd0b1, 0xa1b68141, 0x05033fa3);
    Turn(h, block, 57, 0x9e540637, 0x2c73bd78, 0x660dd0b1, 0xa1b68141, 0x05033fa3, 0x21289715);
    Turn(h, block, 58, 0x2c73bd78, 0x660dd0b1, 0xa1b68141, 0x05033fa3, 0x21289715, 0x085eb2fe);
    Turn(h, block, 59, 0x660dd0b1, 0xa1b68141, 0x05033fa3, 0x21289715, 0x085eb2fe, 0x56119f19);
    Turn(h, block, 60, 0xa1b68141, 0x05033fa3, 0x21289715, 0x085eb2fe, 0x56119f19, 0x77489e23);
    Turn(h, block, 61, 0x05033fa3, 0x21289715, 0x085eb2fe, 0x56119f19, 0x77489e23, 0x11132f8f);
    Turn(h, block, 62, 0x21289715, 0x085eb2fe, 0x56119f19, 0x77489e23, 0x11132f8f, 0xd5ef1ed7);
    Turn(h, block, 63, 0x085eb2fe, 0x56119f19, 0x77489e23, 0x11132f8f, 0xd5ef1ed7, 0xa5937450);
  }

  lemma SecondRounds64(h: Hash, block: Bytes)
    requires |block| == 64 && Second64(block)
    requires Rounds(h, block, 64) == State(0x56119f19, 0x77489e23, 0x11132f8f, 0xd5ef1ed7, 0xa5937450)
    ensures Rounds(h, block, 80) == State(0x51e08021, 0xd3010335, 0x49e92837, 0x4d3b0dac, 0x57aad805)
  {
    hide W, State;
    Turn(h, block, 64, 0x56119f19, 0x77489e23, 0x11132f8f, 0xd5ef1ed7, 0xa5937450, 0x9ecfa66c);
    Turn(h, block, 65, 0x77489e23, 0x11132f8f, 0xd5ef1ed7, 0xa5937450, 0x9ecfa66c, 0x17a22ef7);
    Turn(h, block, 66, 0x11132f8f, 0xd5ef1ed7, 0xa5937450, 0x9ecfa66c, 0x17a22ef7, 0xc97f1968);
    Turn(h, block, 67, 0xd5ef1ed7, 0xa5937450, 0x9ecfa66c, 0x17a22ef7, 0xc97f1968, 0x097a511c);
    Turn(h, block, 68, 0xa5937450, 0x9ecfa66c, 0x17a22ef7, 0xc97f1968, 0x097a511c, 0x4e363db9);
    Turn(h, block, 69, 0x9ecfa66c, 0x17a22ef7, 0xc97f1968, 0x097a511c, 0x4e363db9, 0xbf3a7f95);
    Turn(h, block, 70, 0x17a22ef7, 0xc97f1968, 0x097a511c, 0x4e363db9, 0xbf3a7f95, 0xf6d1afee);
    Turn(h, block, 71, 0xc97f1968, 0x097a511c, 0x4e363db9, 0xbf3a7f95, 0xf6d1afee, 0xc90888ca);
    Turn(h, block, 72, 0x097a511c, 0x4e363db9, 0xbf3a7f95, 0xf6d1afee, 0xc90888ca, 0xc7652edb);
    Turn(h, block, 73, 0x4e363db9, 0xbf3a7f95, 0xf6d1afee, 0xc90888ca, 0xc7652edb, 0x26f99990);
    Turn(h, block, 74, 0xbf3a7f95, 0xf6d1afee, 0xc90888ca, 0xc7652edb, 0x26f99990, 0xe22b36d1);
    Turn(h, block, 75, 0xf6d1afee, 0xc90888ca, 0xc7652edb, 0x26f99990, 0xe22b36d1, 0x51e08021);
    Turn(h, block, 76, 0xc90888ca, 0xc7652edb, 0x26f99990, 0xe22b36d1, 0x51e08021, 0xd3010335);
    Turn(h, block, 77, 0xc7652edb, 0x26f99990, 0xe22b36d1, 0x51e08021, 0xd3010335, 0x49e92837);
    Turn(h, block, 78, 0x26f99990, 0xe22b36d1, 0x51e08021, 0xd3010335, 0x49e92837, 0x4d3b0dac);
    Turn(h, block, 79, 0xe22b36d1, 0x51e08021, 0xd3010335, 0x49e92837, 0x4d3b0dac, 0x57aad805);
  }

  lemma SecondBlock(h: Hash)
    requires h == Hash(0x5bcf7727, 0x7327416a, 0xbe7bfbf9, 0x5a781878, 0x5e46a4e2)
    ensures |SECOND| == 64 && Compress(h, SECOND) == Hash(0xb37a4f2c, 0xc0624f16, 0x90f64606, 0xcf385945, 0xb2bec4ea)
  {
    PaddedIs();
    SecondInput(SECOND);
    hide *;
    SecondWords16(SECOND);
    SecondWords32(SECOND);
    SecondWords48(SECOND);
    SecondWords64(SECOND);
    RoundsStart(h, SECOND);
    SecondRounds0(h, SECOND);
    SecondRounds16(h, SECOND);
    SecondRounds32(h, SECOND);
    SecondRounds48(h, SECOND);
    SecondRounds64(h, SECOND);
  }

  lemma ExampleHash()
    ensures Sha1(NONCE_BYTES + WebSockets.GUID) == Hash(0xb37a4f2c, 0xc0624f16, 0x90f64606, 0xcf385945, 0xb2bec4ea)
  {
    PaddedIs();
    FirstBlock(INITIAL);
    SecondBlock(Hash(0x5bcf7727, 0x7327416a, 0xbe7bfbf9, 0x5a781878, 0x5e46a4e2));
    OneBlock(INITIAL, [], FIRST);
    OneBlock(INITIAL, FIRST, SECOND);
    assert [] + FIRST == FIRST && Blocks(INITIAL, []) == INITIAL;
    hide Compress, Pad;
  }

  lemma ExampleDigest()
    ensures Digest(Hash(0xb37a4f2c, 0xc0624f16, 0x90f64606, 0xcf385945, 0xb2bec4ea)) == [
      0xB3, 0x7A, 0x4F, 0x2C, 0xC0, 0x62, 0x4F, 0x16, 0x90, 0xF6, 0x46, 0x06, 0xCF, 0x38, 0x59, 0x45, 0xB2, 0xBE,
      0xC4, 0xEA]
  {
    assert WordBytes(0xb37a4f2c) == [0xB3, 0x7A, 0x4F, 0x2C];
    assert WordBytes(0xc0624f16) == [0xC0, 0x62, 0x4F, 0x16];
    assert WordBytes(0x90f64606) == [0x90, 0xF6, 0x46, 0x06];
    assert WordBytes(0xcf385945) == [0xCF, 0x38, 0x59, 0x45];
    assert WordBytes(0xb2bec4ea) == [0xB2, 0xBE, 0xC4, 0xEA];
    hide WordBytes;
  }

  lemma QuadIs(a: Byte, b: Byte, c: Byte, have: nat, p: char, q: char, r: char, s: char)
    requires 2 <= have && (have == 2 ==> s == '=')
    requires var t := Base64.Triple(a, b, c);
      && Base64.Index(Base64.SixBits(t, 18)) == Base64.Place(p)
      && Base64.Index(Base64.SixBits(t, 12)) == Base64.Place(q)
      && Base64.Index(Base64.SixBits(t, 6)) == Base64.Place(r)
      && (have > 2 ==> Base64.Index(Base64.SixBits(t, 0)) == Base64.Place(s))
    ensures Base64.Quad(a, b, c, have) == [p, q, r, s]
  {
    var t := Base64.Triple(a, b, c);
    hide Base64.Triple, Base64.SixBits, Base64.Letter, Base64.Place, Base64.Index;
    Base64.LetterAt(Base64.SixBits(t, 18), p);
    Base64.LetterAt(Base64.SixBits(t, 12), q);
    Base64.LetterAt(Base64.SixBits(t, 6), r);
    if have > 2 { Base64.LetterAt(Base64.SixBits(t, 0), s); }
  }

  lemma Quad0()
    ensures Base64.Quad(0xB3, 0x7A, 0x4F, 3) == "s3pP"
  {
    QuadIs(0xB3, 0x7A, 0x4F, 3, 's', '3', 'p', 'P');
  }

  lemma Quad1()
    ensures Base64.Quad(0x2C, 0xC0, 0x62, 3) == "LMBi"
  {
    QuadIs(0x2C, 0xC0, 0x62, 3, 'L', 'M', 'B', 'i');
  }

  lemma Quad2()
    ensures Base64.Quad(0x4F, 0x16, 0x90, 3) == "TxaQ"
  {
    QuadIs(0x4F, 0x16, 0x90, 3, 'T', 'x', 'a', 'Q');
  }

  lemma Quad3()
    ensures Base64.Quad(0xF6, 0x46, 0x06, 3) == "9kYG"
  {
    QuadIs(0xF6, 0x46, 0x06, 3, '9', 'k', 'Y', 'G');
  }

  lemma Quad4()
    ensures Base64.Quad(0xCF, 0x38, 0x59, 3) == "zzhZ"
  {
    QuadIs(0xCF, 0x38, 0x59, 3, 'z', 'z', 'h', 'Z');
  }

  lemma Quad5()
    ensures Base64.Quad(0x45, 0xB2, 0xBE, 3) == "RbK+"
  {
    QuadIs(0x45, 0xB2, 0xBE, 3, 'R', 'b', 'K', '+');
  }

  lemma Quad6()
    ensures Base64.Quad(0xC4, 0xEA, 0x00, 2) == "xOo="
  {
    QuadIs(0xC4, 0xEA, 0x00, 2, 'x', 'O', 'o', '=');
  }

  /** So `compute_accept_key` answers the nonce of the example as RFC 6455 says. */
  lemma ExampleAnswer()
    ensures Base64.Encode(Digest(Sha1(NONCE_BYTES + WebSockets.GUID)))
      == "s3pPLMBiTxaQ9kYGzzhZRbK+xOo="
  {
    ExampleHash();
    ExampleDigest();
    Quad0();
    Quad1();
    Quad2();
    Quad3();
    Quad4();
    Quad5();
    Quad6();
    hide *;
    LastPair(0xC4, 0xEA);
    var d6: Bytes := [0xC4, 0xEA];
    var d5: Bytes := [0x45, 0xB2, 0xBE] + d6;
    ThreeMore(0x45, 0xB2, 0xBE, d6);
    var d4: Bytes := [0xCF, 0x38, 0x59] + d5;
    ThreeMore(0xCF, 0x38, 0x59, d5);
    var d3: Bytes := [0xF6, 0x46, 0x06] + d4;
    ThreeMore(0xF6, 0x46, 0x06, d4);
    var d2: Bytes := [0x4F, 0x16, 0x90] + d3;
    ThreeMore(0x4F, 0x16, 0x90, d3);
    var d1: Bytes := [0x2C, 0xC0, 0x62] + d2;
    ThreeMore(0x2C, 0xC0, 0x62, d2);
    var d0: Bytes := [0xB3, 0x7A, 0x4F] + d1;
    ThreeMore(0xB3, 0x7A, 0x4F, d1);
    assert d0 == [
      0xB3, 0x7A, 0x4F, 0x2C, 0xC0, 0x62, 0x4F, 0x16, 0x90, 0xF6, 0x46, 0x06, 0xCF, 0x38, 0x59, 0x45, 0xB2, 0xBE,
      0xC4, 0xEA];
  }

  lemma ThreeMore(a: Byte, b: Byte, c: Byte, rest: Bytes)
    ensures Base64.Encode([a, b, c] + rest) == Base64.Quad(a, b, c, 3) + Base64.Encode(rest)
  {
    var d := [a, b, c] + rest;
    assert d[3..] == rest && d[0] == a && d[1] == b && d[2] == c;
    hide Base64.Quad;
    assert rest == [] ==> Base64.Quad(a, b, c, 3) + "" == Base64.Quad(a, b, c, 3);
  }

  lemma LastPair(a: Byte, b: Byte)
    ensures Base64.Encode([a, b]) == Base64.Quad(a, b, 0, 2)
  {
  }
}
