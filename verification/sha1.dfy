/** The incremental SHA-1 of the WebSocket handshake. */
module WebSocketSha1 {
  import opened Octets
  import opened Fips180

  const TWO64: nat := 0x1_0000_0000_0000_0000

  function View(s: seq<bv32>): Hash
    requires |s| == 5
  {
    Hash(s[0], s[1], s[2], s[3], s[4])
  }

  method RotateLeft1(x: bv32) returns (r: bv32)
    ensures r == Rotate1(x)
  {
    r := (x << 1) | (x >> 31);
  }

  method RotateLeft5(x: bv32) returns (r: bv32)
    ensures r == Rotate5(x)
  {
    r := (x << 5) | (x >> 27);
  }

  method RotateLeft30(x: bv32) returns (r: bv32)
    ensures r == Rotate30(x)
  {
    r := (x << 30) | (x >> 2);
  }

  lemma Choices(b: bv32, c: bv32, d: bv32)
    ensures (b & c) | (!b & d) == Ch(b, c, d)
    ensures (b & c) | (b & d) | (c & d) == Maj(b, c, d)
  {
  }

  method RoundFunction(i: nat, b: bv32, c: bv32, d: bv32) returns (f: bv32, t: bv32)
    ensures f == F(i, b, c, d) && t == K(i)
  {
    Choices(b, c, d);
    ParityIs(b, c, d);
    hide Ch, Parity, Maj;
    if i < 20 {
      f := (b & c) | (!b & d);
      t := 0x5A827999;
    } else if i < 40 {
      f := b ^ c ^ d;
      t := 0x6ED9EBA1;
    } else if i < 60 {
      f := (b & c) | (b & d) | (c & d);
      t := 0x8F1BBCDC;
    } else {
      f := b ^ c ^ d;
      t := 0xCA62C1D6;
    }
  }

  lemma ParityIs(b: bv32, c: bv32, d: bv32)
    ensures b ^ c ^ d == Parity(b, c, d)
  {
  }

  method Schedule(block: array<Byte>, w: array<bv32>)
    requires block.Length == 64 && w.Length == 80
    modifies w
    ensures forall t :: 0 <= t < 80 ==> w[t] == W(block[..], t)
  {
    hide Word, Rotate1, Xor4;
    for i := 0 to 16
      invariant forall t :: 0 <= t < i ==> w[t] == W(block[..], t)
    {
      w[i] := Word(block[i * 4], block[i * 4 + 1], block[i * 4 + 2], block[i * 4 + 3]);
    }
    for i := 16 to 80
      invariant forall t :: 0 <= t < i ==> w[t] == W(block[..], t)
    {
      var tmp := Xor4(w[i - 3], w[i - 8], w[i - 14], w[i - 16]);
      w[i] := RotateLeft1(tmp);
    }
  }

  method Transform(state: array<bv32>, block: array<Byte>)
    requires state.Length == 5 && block.Length == 64
    modifies state
    ensures View(state[..]) == Compress(View(old(state[..])), block[..])
  {
    hide W, F, K, Rotate5, Rotate30, Add;
    ghost var h, bytes := View(state[..]), block[..];
    var w := new bv32[80];
    Schedule(block, w);
    var a, b, c, d, e := state[0], state[1], state[2], state[3], state[4];
    for i := 0 to 80
      modifies {}
      invariant Hash(a, b, c, d, e) == Rounds(h, bytes, i)
    {
      var f, t := RoundFunction(i, b, c, d);
      var turned := RotateLeft5(a);
      var tmp := Add(Add(Add(Add(turned, f), e), t), w[i]);
      e, d := d, c;
      c := RotateLeft30(b);
      b, a := a, tmp;
    }
    hide Rounds;
    state[0] := Add(state[0], a);
    state[1] := Add(state[1], b);
    state[2] := Add(state[2], c);
    state[3] := Add(state[3], d);
    state[4] := Add(state[4], e);
  }

  class WsSha1 {
    const state: array<bv32>
    const buffer: array<Byte>
    var count: nat

    /** The context has been fed exactly the bytes m. */
    ghost predicate Fed(m: Bytes)
      reads this, state, buffer
    {
      && state.Length == 5 && buffer.Length == 64
      && count == |m| % TWO64
      && View(state[..]) == Blocks(INITIAL, Whole(m))
      && buffer[..|m| % 64] == Rest(m)
    }

    constructor ()
      ensures Fed([]) && fresh(state) && fresh(buffer)
    {
      state := new bv32[5];
      buffer := new Byte[64](_ => 0);
      count := 0;
      new;
      state[0], state[1], state[2], state[3], state[4] := 0x67452301, 0xEFCDAB89, 0x98BADCFE, 0x10325476, 0xC3D2E1F0;
    }

    method Update(data: Bytes, ghost m: Bytes)
      requires Fed(m)
      modifies this, state, buffer
      ensures Fed(m + data)
    {
      hide Compress, Blocks;
      var idx := count % 64;
      CountMod(|m|);
      count := (count + |data|) % TWO64;
      CountAdd(|m|, |data|);
      assert m + data[..0] == m;
      for i := 0 to |data|
        invariant count == (|m| + |data|) % TWO64
        invariant idx == (|m| + i) % 64
        invariant View(state[..]) == Blocks(INITIAL, Whole(m + data[..i]))
        invariant buffer[..idx] == Rest(m + data[..i])
      {
        ghost var before := m + data[..i];
        assert m + data[..i + 1] == before + [data[i]];
        buffer[idx] := data[i];
        idx := idx + 1;
        assert buffer[..idx] == Rest(before) + [data[i]];
        if idx == 64 {
          AbsorbBlock(before, data[i]);
          assert buffer[..] == buffer[..64];
          Transform(state, buffer);
          idx := 0;
        } else {
          AbsorbByte(before, data[i]);
        }
      }
      assert data[..|data|] == data;
    }

    method Final(ghost m: Bytes) returns (digest: array<Byte>)
      requires Fed(m) && |m| < 0x2000_0000_0000_0000
      modifies this, state, buffer
      ensures fresh(digest) && digest[..] == Digest(Sha1(m))
    {
      hide Compress, Blocks, Sha1, Digest, WordBytes, BigEndian, ByteOf;
      ghost var rest := Rest(m);
      var bits := count * 8 % TWO64;
      var idx := count % 64;
      buffer[idx] := 0x80;
      idx := idx + 1;
      assert buffer[..idx] == rest + [0x80];
      if idx > 56 {
        idx := ZeroTo(idx, 64);
        assert buffer[..] == buffer[..64];
        Transform(state, buffer);
        idx := 0;
      }
      idx := ZeroTo(idx, 56);
      PutLength(bits);
      assert bits == 8 * |m|;
      if |m| % 64 < 56 {
        FinalBlock(m);
        assert buffer[..] == rest + [0x80] + Zeros(55 - |m| % 64) + BigEndian(8 * |m|, 8);
      } else {
        FinalBlocks(m);
        assert buffer[..] == Zeros(56) + BigEndian(8 * |m|, 8);
      }
      Transform(state, buffer);
      digest := Output();
    }

    method ZeroTo(from: nat, to: nat) returns (idx: nat)
      requires from <= to <= buffer.Length
      modifies buffer
      ensures idx == to
      ensures buffer[..to] == old(buffer[..from]) + Zeros(to - from)
    {
      idx := from;
      while idx < to
        invariant from <= idx <= to
        invariant buffer[..idx] == old(buffer[..from]) + Zeros(idx - from)
      {
        buffer[idx] := 0;
        idx := idx + 1;
      }
    }

    method PutLength(bits: nat)
      requires buffer.Length == 64
      modifies buffer
      ensures buffer[..] == old(buffer[..56]) + BigEndian(bits, 8)
    {
      hide ByteOf, BigEndian;
      BigEndian8(bits);
      buffer[56] := ByteOf(bits / 0x100_0000_0000_0000 % 256);
      buffer[57] := ByteOf(bits / 0x1_0000_0000_0000 % 256);
      buffer[58] := ByteOf(bits / 0x100_0000_0000 % 256);
      buffer[59] := ByteOf(bits / 0x1_0000_0000 % 256);
      buffer[60] := ByteOf(bits / 0x100_0000 % 256);
      buffer[61] := ByteOf(bits / 0x1_0000 % 256);
      buffer[62] := ByteOf(bits / 0x100 % 256);
      buffer[63] := ByteOf(bits % 256);
    }

    method Output() returns (digest: array<Byte>)
      requires state.Length == 5
      ensures fresh(digest) && digest[..] == Digest(View(state[..]))
    {
      hide WordBytes;
      digest := new Byte[20];
      ghost var words := state[..];
      for i := 0 to 5
        invariant state[..] == words
        invariant digest[..4 * i] == Words(words, i)
      {
        SplitWord(state[i], digest, 4 * i);
      }
      assert digest[..] == digest[..20];
      FiveWords(words);
    }
  }

  function Words(s: seq<bv32>, i: nat): Bytes
    requires i <= |s|
  {
    if i == 0 then [] else Words(s, i - 1) + WordBytes(s[i - 1])
  }

  lemma FiveWords(s: seq<bv32>)
    requires |s| == 5
    ensures Words(s, 5) == Digest(View(s))
  {
    hide WordBytes;
    var h := View(s);
    assert Words(s, 1) == [] + WordBytes(h.a);
    assert Words(s, 2) == Words(s, 1) + WordBytes(h.b);
    assert Words(s, 3) == Words(s, 2) + WordBytes(h.c);
    assert Words(s, 4) == Words(s, 3) + WordBytes(h.d);
    assert Words(s, 5) == Words(s, 4) + WordBytes(h.e);
  }

  method SplitWord(w: bv32, out: array<Byte>, at: nat)
    requires at + 4 <= out.Length
    modifies out
    ensures out[..at + 4] == old(out[..at]) + WordBytes(w)
  {
    hide LowByte;
    out[at] := LowByte(w >> 24);
    out[at + 1] := LowByte(w >> 16);
    out[at + 2] := LowByte(w >> 8);
    out[at + 3] := LowByte(w);
  }

  lemma BigEndian4(n: nat, k: nat)
    ensures BigEndian(n, k + 4) == BigEndian(n / 0x1_0000_0000, k)
      + [ByteOf(n / 0x100_0000 % 256), ByteOf(n / 0x1_0000 % 256), ByteOf(n / 0x100 % 256), ByteOf(n % 256)]
  {
    hide ByteOf;
    var n1, n2, n3 := n / 0x100, n / 0x1_0000, n / 0x100_0000;
    assert n1 / 256 == n2 && n2 / 256 == n3 && n3 / 256 == n / 0x1_0000_0000;
    assert BigEndian(n, k + 4) == BigEndian(n1, k + 3) + [ByteOf(n % 256)];
    assert BigEndian(n1, k + 3) == BigEndian(n2, k + 2) + [ByteOf(n1 % 256)];
    assert BigEndian(n2, k + 2) == BigEndian(n3, k + 1) + [ByteOf(n2 % 256)];
    assert BigEndian(n3, k + 1) == BigEndian(n / 0x1_0000_0000, k) + [ByteOf(n3 % 256)];
  }

  lemma BigEndian8(n: nat)
    ensures BigEndian(n, 8) == [
      ByteOf(n / 0x100_0000_0000_0000 % 256), ByteOf(n / 0x1_0000_0000_0000 % 256),
      ByteOf(n / 0x100_0000_0000 % 256), ByteOf(n / 0x1_0000_0000 % 256),
      ByteOf(n / 0x100_0000 % 256), ByteOf(n / 0x1_0000 % 256), ByteOf(n / 0x100 % 256), ByteOf(n % 256)]
  {
    hide ByteOf;
    var h := n / 0x1_0000_0000;
    BigEndian4(n, 4);
    BigEndian4(h, 0);
    assert h / 0x100_0000 == n / 0x100_0000_0000_0000 && h / 0x1_0000 == n / 0x1_0000_0000_0000
      && h / 0x100 == n / 0x100_0000_0000;
  }

  lemma CountMod(n: nat)
    ensures n % TWO64 % 64 == n % 64
  {
    var q := n / TWO64;
    assert n == 64 * (0x400_0000_0000_0000 * q) + n % TWO64;
  }

  lemma CountAdd(n: nat, k: nat)
    ensures (n % TWO64 + k) % TWO64 == (n + k) % TWO64
  {
  }
}
