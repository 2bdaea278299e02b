/** WebSocket frames: what the runtime writes for a text message, and what its receiver makes
    of the bytes on the wire (RFC 6455 sections 5.2 and 5.3). */
module WebSocketFrames {
  import opened Octets

  type Key = k: Bytes | |k| == 4 witness [0, 0, 0, 0]

  // ---------- the wire format ----------

  function MaskBit(masked: bool): Byte { if masked then 0x80 else 0 }

  function Masked(data: Bytes, key: Key): (r: Bytes)
    ensures |r| == |data|
  {
    seq(|data|, i requires 0 <= i < |data| => data[i] ^ key[i % 4])
  }

  /** The length field: seven bits, or 126 and two bytes, or 127 and eight. */
  function LengthField(n: nat, masked: bool): Bytes {
    if n < 126 then [MaskBit(masked) | ByteOf(n)]
    else if n <= 0xFFFF then [MaskBit(masked) | 126] + BigEndian(n, 2)
    else [MaskBit(masked) | 127] + BigEndian(n, 8)
  }

  /** A final text frame. */
  function Frame(data: Bytes, masked: bool, key: Key): Bytes {
    [0x81] + LengthField(|data|, masked) + (if masked then key + Masked(data, key) else data)
  }

  // ---------- the receiver ----------

  datatype Event = Message(data: Bytes) | Closed

  /** The bytes that have arrived, whether the peer has closed, and what the socket has done. */
  datatype Socket = Socket(input: Bytes, peerClosed: bool, open: bool, events: seq<Event>, sent: Bytes)

  datatype Header = Short | Header(opcode: Byte, masked: bool, key: Key, length: nat, rest: Bytes)

  function LengthBytes(b1: Byte): nat {
    if b1 & 0x7F == 126 then 2 else if b1 & 0x7F == 127 then 8 else 0
  }

  function ReadHeader(input: Bytes): Header
    requires |input| >= 2
  {
    var masked := input[1] & 0x80 != 0;
    var k := LengthBytes(input[1]);
    if |input| < 2 + k then Short
    else
      var length := if k == 0 then ValueOf(input[1] & 0x7F) else Value(input[2..2 + k]);
      var rest := input[2 + k..];
      if !masked then Header(input[0] & 0x0F, false, [0, 0, 0, 0], length, rest)
      else if |rest| < 4 then Short
      else Header(input[0] & 0x0F, true, rest[..4], length, rest[4..])
  }

  /** Big-endian value, read from the front. */
  function Value(s: Bytes): nat {
    if s == [] then 0 else Value(s[..|s| - 1]) * 256 + ValueOf(s[|s| - 1])
  }

  const LIMIT: nat := 1024 * 1024

  /** The payload of the frame has arrived, or never will; and it is not a binary frame of a
      length for which the receiver makes a string of bytes it has not read. */
  predicate Arrived(s: Socket) {
    s.open && |s.input| >= 2 ==>
      match ReadHeader(s.input)
      case Short => true
      case Header(opcode, _, _, length, rest) =>
        (length < LIMIT ==> |rest| >= length || s.peerClosed) && (opcode == 2 ==> length < LIMIT)
  }

  function Close(s: Socket): Socket { s.(open := false, events := s.events + [Closed]) }

  /** What an open socket does with a frame. */
  function Deliver(s: Socket, opcode: Byte, payload: Bytes): Socket {
    if opcode == 1 || opcode == 2 then s.(events := s.events + [Message(payload)])
    else if opcode == 8 then Close(s)
    else if opcode == 9 then s.(sent := s.sent + [0x8A, 0x00])
    else s
  }

  /** One call of `ws_recv_frames`. */
  function Receive(s: Socket): Socket
    requires Arrived(s)
  {
    if !s.open then s
    else if s.input == [] then if s.peerClosed then Close(s) else s
    else if |s.input| == 1 then s.(input := [])
    else
      match ReadHeader(s.input)
      case Short => s.(input := [])
      case Header(opcode, masked, key, length, rest) =>
        if length == 0 || length >= LIMIT then Deliver(s.(input := rest), opcode, [])
        else if |rest| < length then Close(s.(input := []))
        else
          Deliver(s.(input := rest[length..]), opcode,
                  if masked then Masked(rest[..length], key) else rest[..length])
  }

  // ---------- reading back what was written ----------

  lemma CancelBits(x: Byte, y: Byte)
    ensures (x ^ y) ^ y == x
  {
  }

  lemma MaskTwice(data: Bytes, key: Key)
    ensures Masked(Masked(data, key), key) == data
  {
    forall i | 0 <= i < |data| ensures Masked(Masked(data, key), key)[i] == data[i] {
      CancelBits(data[i], key[i % 4]);
    }
  }

  lemma {:induction false} ValueIs(s: Bytes)
    ensures Value(s) == BigEndianValue(s)
  {
    if s != [] { ValueIs(s[..|s| - 1]); }
  }

  lemma TopBitClear(b: Byte)
    requires ValueOf(b) < 128
    ensures b & 0x80 == 0
  {
  }

  lemma LowBits(m: Byte, b: Byte)
    requires b & 0x80 == 0 && (m == 0 || m == 0x80)
    ensures (m | b) & 0x7F == b && (m | b) & 0x80 == m
  {
  }

  lemma SmallLength(n: nat, masked: bool)
    requires n < 126
    ensures var b := MaskBit(masked) | ByteOf(n);
      LengthBytes(b) == 0 && ValueOf(b & 0x7F) == n && (b & 0x80 != 0) == masked
  {
    hide ByteOf, ValueOf;
    ValueOfByteOf(n);
    TopBitClear(ByteOf(n));
    LowBits(MaskBit(masked), ByteOf(n));
    Marks();
  }

  lemma Marks()
    ensures ValueOf(126) == 126 && ValueOf(127) == 127
  {
  }

  lemma LongLength(n: nat, masked: bool, k: nat)
    requires (k == 2 && n <= 0xFFFF) || (k == 8 && n < 0x1_0000_0000_0000_0000)
    ensures var b := MaskBit(masked) | (if k == 2 then 126 else 127);
      LengthBytes(b) == k && (b & 0x80 != 0) == masked && Value(BigEndian(n, k)) == n
  {
    hide BigEndian, BigEndianValue, Value;
    EightBytes();
    assert Power256(2) == 0x1_0000;
    BigEndianInverse(n, k);
    ValueIs(BigEndian(n, k));
    LowBits(MaskBit(masked), 126);
    LowBits(MaskBit(masked), 127);
  }

  lemma TextFrame()
    ensures 0x81 as Byte & 0x0F == 1
  {
  }

  /** The receiver takes the header of a text frame apart again. */
  lemma HeaderBack(n: nat, masked: bool, key: Key, tail: Bytes)
    requires n < 0x1_0000_0000_0000_0000
    ensures var input := [0x81] + LengthField(n, masked) + (if masked then key + tail else tail);
      |input| >= 2 && ReadHeader(input) == Header(1, masked, if masked then key else [0, 0, 0, 0], n, tail)
  {
    hide ByteOf, ValueOf, BigEndian, Value, LengthBytes;
    var input := [0x81] + LengthField(n, masked) + (if masked then key + tail else tail);
    TextFrame();
    var k := if n < 126 then 0 else if n <= 0xFFFF then 2 else 8;
    if k == 0 { SmallLength(n, masked); } else { LongLength(n, masked, k); }
    assert k > 0 ==> input[2..2 + k] == BigEndian(n, k);
    var rest := input[2 + k..];
    assert rest == if masked then key + tail else tail;
    assert masked ==> rest[..4] == key && rest[4..] == tail;
  }

  /** The frame at the front of the input. */
  lemma FrameHeader(data: Bytes, masked: bool, key: Key, more: Bytes)
    requires |data| < 0x1_0000_0000_0000_0000
    ensures var input := Frame(data, masked, key) + more;
      && |input| >= 2
      && ReadHeader(input) == Header(1, masked, if masked then key else [0, 0, 0, 0], |data|,
                                     (if masked then Masked(data, key) else data) + more)
  {
    hide ReadHeader, LengthField, Masked;
    var body := if masked then Masked(data, key) else data;
    HeaderBack(|data|, masked, key, body + more);
    var input := Frame(data, masked, key) + more;
    var front := [0x81] + LengthField(|data|, masked);
    if masked {
      assert input == front + (key + (body + more));
    } else {
      assert input == front + (body + more);
    }
  }

  /** A text frame is delivered whole, and exactly its bytes are consumed, if and only if its
      payload is shorter than 1 MiB.  A longer one is delivered as the empty message, and its
      payload, still masked, is left in the input, to be taken for further frames. */
  lemma DeliveredExactly(data: Bytes, masked: bool, key: Key, more: Bytes, s: Socket)
    requires |data| < 0x1_0000_0000_0000_0000
    requires s.open && s.input == Frame(data, masked, key) + more
    ensures Arrived(s)
    ensures Receive(s) == s.(input := more, events := s.events + [Message(data)]) <==> |data| < LIMIT
    ensures |data| >= LIMIT ==>
      Receive(s) == s.(input := (if masked then Masked(data, key) else data) + more, events := s.events + [Message([])])
  {
    hide ReadHeader, Frame, Masked;
    FrameHeader(data, masked, key, more);
    var body := if masked then Masked(data, key) else data;
    MaskTwice(data, key);
    assert (body + more)[..|data|] == body && (body + more)[|data|..] == more;
    if |data| >= LIMIT {
      assert Receive(s).events[|s.events|] == Message([]);
    }
  }

  /** The frame `ws_send_close` writes. */
  const CLOSE_FRAME: Bytes := [0x88, 0x02, 0x03, 0xE8]

  /** The reply to a ping. */
  const PONG_FRAME: Bytes := [0x8A, 0x00]

  lemma SmallNumbers()
    ensures ValueOf(0) == 0 && ValueOf(2) == 2 && LengthBytes(0) == 0 && LengthBytes(2) == 0
    ensures 0x88 as Byte & 0x0F == 8 && 0x8A as Byte & 0x0F == 10 && 0x02 as Byte & 0x80 == 0
    ensures 0x02 as Byte & 0x7F == 2
  {
  }

  /** The runtime understands the control frames it writes: its own close frame, code included,
      closes the peer, and its pong is skipped, each taking exactly its bytes. */
  lemma OwnControlFrames(more: Bytes, s: Socket)
    requires s.open
    ensures var c := s.(input := CLOSE_FRAME + more);
      Arrived(c) && Receive(c) == Close(s.(input := more))
    ensures var p := s.(input := PONG_FRAME + more);
      Arrived(p) && Receive(p) == s.(input := more)
  {
    SmallNumbers();
    hide ValueOf, LengthBytes;
    var c, p := CLOSE_FRAME + more, PONG_FRAME + more;
    assert c[2..] == [0x03, 0xE8] + more && c[2..][2..] == more && p[2..] == more;
    assert ReadHeader(c) == Header(8, false, [0, 0, 0, 0], 2, c[2..]);
    assert ReadHeader(p) == Header(10, false, [0, 0, 0, 0], 0, more);
  }

  /** A message to send: its text, and the masking key a client draws. */
  datatype Sending = Sending(data: Bytes, masked: bool, key: Key)

  function Wire(messages: seq<Sending>): Bytes {
    if messages == [] then [] else Frame(messages[0].data, messages[0].masked, messages[0].key) + Wire(messages[1..])
  }

  function Messages(messages: seq<Sending>): seq<Event> {
    if messages == [] then [] else [Message(messages[0].data)] + Messages(messages[1..])
  }

  /** The socket with those messages delivered and `more` still to be read. */
  function After(s: Socket, messages: seq<Sending>, more: Bytes): Socket {
    s.(input := more, events := s.events + Messages(messages))
  }

  /** k calls of the receiver. */
  ghost predicate Receives(s: Socket, k: nat, t: Socket)
    decreases k
  {
    if k == 0 then s == t else Arrived(s) && Receives(Receive(s), k - 1, t)
  }

  /** Any run of frames comes out as the payloads that went in, in order, one call a frame, and
      exactly the frames' bytes are consumed. */
  lemma {:induction false} AllDelivered(messages: seq<Sending>, more: Bytes, s: Socket)
    requires forall m :: m in messages ==> |m.data| < LIMIT
    requires s.open && s.input == Wire(messages) + more
    ensures Receives(s, |messages|, After(s, messages, more))
  {
    hide Arrived, Receive, Frame, After;
    if messages == [] {
      AfterNone(s, more);
    } else {
      FirstDelivered(messages, more, s);
      AfterOne(s, messages, Wire(messages[1..]) + more, more);
      AllDelivered(messages[1..], more, Receive(s));
    }
  }

  lemma AfterNone(s: Socket, more: Bytes)
    requires s.input == Wire([]) + more
    ensures After(s, [], more) == s
  {
  }

  lemma AfterOne(s: Socket, messages: seq<Sending>, input: Bytes, more: Bytes)
    requires messages != []
    ensures After(s.(input := input, events := s.events + [Message(messages[0].data)]), messages[1..], more)
      == After(s, messages, more)
  {
    assert s.events + [Message(messages[0].data)] + Messages(messages[1..]) == s.events + Messages(messages);
  }

  lemma FirstDelivered(messages: seq<Sending>, more: Bytes, s: Socket)
    requires messages != [] && |messages[0].data| < LIMIT
    requires s.open && s.input == Wire(messages) + more
    ensures Arrived(s)
    ensures Receive(s) == s.(input := Wire(messages[1..]) + more, events := s.events + [Message(messages[0].data)])
  {
    hide Arrived, Receive, Frame;
    var m, rest := messages[0], Wire(messages[1..]) + more;
    var first := Frame(m.data, m.masked, m.key);
    assert first + Wire(messages[1..]) + more == first + rest;
    DeliveredExactly(m.data, m.masked, m.key, rest, s);
  }

  // ---------- the bytes themselves ----------

  /** The length a frame announces, by RFC 6455 section 5.2: seven bits, or two bytes behind 126,
      or eight bytes behind 127, most significant first. */
  ghost predicate Announces(b1: Byte, ext: Bytes, n: nat) {
    var low := (b1 & 0x7F) as int;
    if low == 126 then |ext| == 2 && n == ext[0] as int * 0x100 + ext[1] as int
    else if low == 127 then
      && |ext| == 8
      && n == ext[0] as int * 0x100_0000_0000_0000 + ext[1] as int * 0x1_0000_0000_0000
              + ext[2] as int * 0x100_0000_0000 + ext[3] as int * 0x1_0000_0000
              + ext[4] as int * 0x100_0000 + ext[5] as int * 0x1_0000 + ext[6] as int * 0x100 + ext[7] as int
    else ext == [] && n == low
  }

  ghost function Prefix(s: Bytes, i: nat): nat
    requires i <= |s|
  {
    Value(s[..i])
  }

  lemma PrefixSnoc(s: Bytes, i: nat)
    requires i < |s|
    ensures Prefix(s, i + 1) == Prefix(s, i) * 256 + s[i] as int
  {
    hide ValueOf;
    ValueIsNumber(s[i]);
    assert s[..i + 1][..i] == s[..i];
  }

  lemma PrefixEnds(s: Bytes)
    ensures Prefix(s, 0) == 0 && Prefix(s, |s|) == Value(s)
  {
    assert s[..0] == [] && s[..|s|] == s;
  }

  lemma TwoByteValue(ext: Bytes)
    requires |ext| == 2
    ensures Value(ext) == ext[0] as int * 0x100 + ext[1] as int
  {
    hide *;
    PrefixEnds(ext);
    PrefixSnoc(ext, 0);
    PrefixSnoc(ext, 1);
  }

  lemma EightByteValue(ext: Bytes)
    requires |ext| == 8
    ensures Value(ext) == ext[0] as int * 0x100_0000_0000_0000 + ext[1] as int * 0x1_0000_0000_0000
              + ext[2] as int * 0x100_0000_0000 + ext[3] as int * 0x1_0000_0000
              + ext[4] as int * 0x100_0000 + ext[5] as int * 0x1_0000 + ext[6] as int * 0x100 + ext[7] as int
  {
    hide *;
    PrefixEnds(ext);
    FourBytes(ext, 0);
    FourBytes(ext, 4);
  }

  lemma FourBytes(s: Bytes, i: nat)
    requires i + 4 <= |s|
    ensures Prefix(s, i + 4) == Prefix(s, i) * 0x1_0000_0000
      + s[i] as int * 0x100_0000 + s[i + 1] as int * 0x1_0000 + s[i + 2] as int * 0x100 + s[i + 3] as int
  {
    hide *;
    PrefixSnoc(s, i);
    PrefixSnoc(s, i + 1);
    PrefixSnoc(s, i + 2);
    PrefixSnoc(s, i + 3);
  }

  lemma Announced(b1: Byte, ext: Bytes, n: nat)
    requires Announces(b1, ext, n)
    ensures |ext| == LengthBytes(b1)
    ensures n == if |ext| == 0 then ValueOf(b1 & 0x7F) else Value(ext)
  {
    hide ValueOf, Value;
    ValueIsNumber(b1 & 0x7F);
    LowSeven(b1);
    if |ext| == 2 { TwoByteValue(ext); }
    if |ext| == 8 { EightByteValue(ext); }
  }

  lemma LowSeven(b: Byte)
    ensures (b & 0x7F == 126 <==> (b & 0x7F) as int == 126) && (b & 0x7F == 127 <==> (b & 0x7F) as int == 127)
  {
  }

  lemma HandLaidHeader(b0: Byte, b1: Byte, ext: Bytes, key: Key, n: nat, tail: Bytes)
    requires Announces(b1, ext, n)
    ensures var masked := b1 & 0x80 != 0;
      var input := [b0, b1] + ext + (if masked then key else []) + tail;
      |input| >= 2 && ReadHeader(input) == Header(b0 & 0x0F, masked, if masked then key else [0, 0, 0, 0], n, tail)
  {
    Announced(b1, ext, n);
    hide ValueOf, Value, LengthBytes, Announces;
    var masked := b1 & 0x80 != 0;
    HeaderParts(b0, b1, ext, if masked then key else [], tail);
    KeyOff(key, tail);
    assert [] + tail == tail;
  }

  lemma HeaderParts(b0: Byte, b1: Byte, ext: Bytes, k: Bytes, tail: Bytes)
    ensures var input := [b0, b1] + ext + k + tail;
      && |input| >= 2 + |ext| && input[0] == b0 && input[1] == b1
      && input[2..2 + |ext|] == ext && input[2 + |ext|..] == k + tail
  {
    assert [b0, b1] + ext + k + tail == ([b0, b1] + ext) + (k + tail);
  }

  lemma KeyOff(key: Key, tail: Bytes)
    ensures (key + tail)[..4] == key && (key + tail)[4..] == tail
  {
  }

  /** What becomes of any frame shorter than 1 MiB, laid out by hand as RFC 6455 has it: a text or
      binary frame gives a message whose bytes, each xored with the key byte of its place, are the
      bytes on the wire; a close frame closes; a ping is answered; anything else is passed over.
      Bits of the first byte above the opcode make no difference. */
  lemma AnyFrame(s: Socket, b0: Byte, b1: Byte, ext: Bytes, key: Key, p: Bytes, more: Bytes) returns (m: Bytes)
    requires Announces(b1, ext, |p|) && |p| < 1048576 && s.open
    requires s.input == [b0, b1] + ext + (if b1 & 0x80 != 0 then key else []) + (p + more)
    ensures |m| == |p| && forall i :: 0 <= i < |p| ==> m[i] ^ (if b1 & 0x80 != 0 then key[i % 4] else 0) == p[i]
    ensures Arrived(s)
    ensures var after := s.(input := more);
      Receive(s) == match b0 & 0x0F
        case 1 => after.(events := s.events + [Message(m)])
        case 2 => after.(events := s.events + [Message(m)])
        case 8 => after.(open := false, events := s.events + [Closed])
        case 9 => after.(sent := s.sent + [0x8A, 0x00])
        case _ => after
  {
    var masked := b1 & 0x80 != 0;
    HandLaidHeader(b0, b1, ext, key, |p|, p + more);
    m := if masked then Masked(p, key) else p;
    Unmasks(p, key);
    ZeroMask(p);
    hide ReadHeader, Masked;
    assert (p + more)[..|p|] == p && (p + more)[|p|..] == more;
    if |p| == 0 { assert m == [] && p + more == more; }
  }

  lemma Unmasks(p: Bytes, key: Key)
    ensures forall i :: 0 <= i < |p| ==> Masked(p, key)[i] ^ key[i % 4] == p[i]
  {
    forall i | 0 <= i < |p| ensures Masked(p, key)[i] ^ key[i % 4] == p[i] {
      CancelBits(p[i], key[i % 4]);
    }
  }

  lemma ZeroMask(p: Bytes)
    ensures forall i :: 0 <= i < |p| ==> p[i] ^ 0 == p[i]
  {
  }

  /** The bytes of a frame that is sent: final, text, its length announced, the key behind the
      header and then the data, each byte xored with the key byte of its place. */
  lemma FrameBytes(data: Bytes, masked: bool, key: Key)
    requires |data| <= 0xFFFF
    ensures var wire := Frame(data, masked, key);
      var h := if |data| < 126 then 2 else 4;
      && |wire| == h + (if masked then 4 else 0) + |data|
      && wire[0] == 0x81 && (wire[1] & 0x80 != 0) == masked && Announces(wire[1], wire[2..h], |data|)
      && (masked ==> wire[h..h + 4] == key
                     && forall i :: 0 <= i < |data| ==> wire[h + 4 + i] ^ wire[h + i % 4] == data[i])
      && (!masked ==> wire[h..] == data)
  {
    var front := [0x81] + LengthField(|data|, masked);
    LengthAnnounced(|data|, masked);
    FrameIs(data, masked, key);
    Unmasks(data, key);
    hide *;
    if masked { MaskedParts(front, key, Masked(data, key), data); } else { PlainParts(front, data); }
  }

  lemma FrameIs(data: Bytes, masked: bool, key: Key)
    ensures var field := LengthField(|data|, masked);
      var front := [0x81] + field;
      && Frame(data, masked, key) == (if masked then front + key + Masked(data, key) else front + data)
      && |field| > 0 && front[0] == 0x81 && front[1] == field[0] && front[2..] == field[1..]
  {
    hide Masked, BigEndian, ByteOf, MaskBit;
    Regroup([0x81] + LengthField(|data|, masked), key, Masked(data, key));
  }

  lemma Regroup(a: Bytes, b: Bytes, c: Bytes)
    ensures a + (b + c) == a + b + c
  {
  }

  lemma PlainParts(front: Bytes, data: Bytes)
    requires |front| >= 2
    ensures var wire := front + data;
      wire[0] == front[0] && wire[1] == front[1] && wire[2..|front|] == front[2..] && wire[|front|..] == data
  {
  }

  lemma MaskedParts(front: Bytes, key: Key, body: Bytes, data: Bytes)
    requires |front| >= 2 && |body| == |data| && forall i :: 0 <= i < |data| ==> body[i] ^ key[i % 4] == data[i]
    ensures var wire := front + key + body;
      var h := |front|;
      && wire[0] == front[0] && wire[1] == front[1] && wire[2..h] == front[2..] && wire[h..h + 4] == key
      && forall i :: 0 <= i < |data| ==> wire[h + 4 + i] ^ wire[h + i % 4] == data[i]
  {
    var wire := front + key + body;
    var h := |front|;
    forall i | 0 <= i < |data| ensures wire[h + 4 + i] ^ wire[h + i % 4] == data[i] {
      assert wire[h + 4 + i] == body[i] && wire[h + i % 4] == key[i % 4];
    }
  }

  lemma LengthAnnounced(n: nat, masked: bool)
    requires n <= 0xFFFF
    ensures var field := LengthField(n, masked);
      && |field| == (if n < 126 then 1 else 3)
      && (field[0] & 0x80 != 0) == masked && Announces(field[0], field[1..], n)
  {
    if n < 126 { ShortAnnounced(n, masked); } else { LongAnnounced(n, masked); }
  }

  lemma ShortAnnounced(n: nat, masked: bool)
    requires n < 126
    ensures var b := MaskBit(masked) | ByteOf(n);
      (b & 0x80 != 0) == masked && Announces(b, [], n)
  {
    var b := MaskBit(masked) | ByteOf(n);
    SmallLength(n, masked);
    ValueIsNumber(b & 0x7F);
    hide *;
    SmallAnnounces(b, n);
  }

  lemma SmallAnnounces(b: Byte, n: nat)
    requires n < 126 && (b & 0x7F) as int == n
    ensures Announces(b, [], n)
  {
  }

  lemma LongAnnounced(n: nat, masked: bool)
    requires 126 <= n <= 0xFFFF
    ensures var b := MaskBit(masked) | 126;
      (b & 0x80 != 0) == masked && Announces(b, BigEndian(n, 2), n)
  {
    LongLength(n, masked, 2);
    LowBits(MaskBit(masked), 126);
    TwoByteValue(BigEndian(n, 2));
    hide ValueOf, ByteOf, BigEndian, Value, LengthBytes, MaskBit;
  }
}
